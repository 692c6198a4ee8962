/**
 * PHP ordered arrays. An array is a sequence of (key, value) entries whose keys are
 * pairwise distinct; iteration order is entry order.
 *
 * The operations are the ones the repository uses on its builder state:
 *   - `Set`:    `$a[$k] = $v` (replace in place, or append a new entry)
 *   - `Push`:   `$a[] = $v` / `array_push` (append under the next free integer key)
 *   - `SetAll`: assigning every entry of one array into another, in order
 *   - `Merge`:  `array_merge`
 *
 * `Merge` is written the way PHP executes it (entry by entry, appending integer-keyed
 * entries and assigning string-keyed ones) and is proved equal to the declarative
 * `MergeSpec`: string keys keep the position of their first occurrence and take the
 * value of the last one, integer-keyed entries are appended and renumbered from 0.
 */
module PhpArray {
  import opened Wrappers
  import opened PhpValues

  predicate DistinctKeys<V>(a: seq<(Key, V)>) {
    forall i, j :: 0 <= i < j < |a| ==> a[i].0 != a[j].0
  }

  /** A PHP array. */
  type PArr<V> = a: seq<(Key, V)> | DistinctKeys(a) witness []

  predicate HasKey<V>(a: seq<(Key, V)>, k: Key) {
    exists i :: 0 <= i < |a| && a[i].0 == k
  }

  /** The keys of an array, in order (`array_keys`). */
  function KeysOf<V>(a: seq<(Key, V)>): (ks: seq<Key>)
    ensures |ks| == |a|
    ensures forall i :: 0 <= i < |a| ==> ks[i] == a[i].0
  {
    seq(|a|, i requires 0 <= i < |a| => a[i].0)
  }

  /** Position of the first entry with key `k`. */
  function Find<V>(a: seq<(Key, V)>, k: Key): (r: Option<nat>)
    ensures r.Some? ==> r.value < |a| && a[r.value].0 == k
    ensures r.Some? ==> forall j :: 0 <= j < r.value ==> a[j].0 != k
    ensures r.None? <==> !HasKey(a, k)
  {
    if |a| == 0 then None
    else if a[0].0 == k then Some(0)
    else
      var r := Find(a[1..], k);
      assert HasKey(a, k) <==> HasKey(a[1..], k) by {
        if HasKey(a, k) {
          var i :| 0 <= i < |a| && a[i].0 == k;
          assert a[1..][i - 1].0 == k;
        }
        if HasKey(a[1..], k) {
          var i :| 0 <= i < |a[1..]| && a[1..][i].0 == k;
          assert a[i + 1].0 == k;
        }
      }
      if r.None? then None else Some(r.value + 1)
  }

  /** `$a[$k]` when the key exists, `None` otherwise. */
  function Get<V>(a: seq<(Key, V)>, k: Key): (r: Option<V>)
    ensures r.Some? <==> HasKey(a, k)
  {
    match Find(a, k)
    case Some(i) => Some(a[i].1)
    case None => None
  }

  lemma GetAt<V>(a: PArr<V>, i: nat)
    requires i < |a|
    ensures Get(a, a[i].0) == Some(a[i].1)
  {
    var r := Find(a, a[i].0);
    assert r.value == i;
  }

  /** `$a[$k] = $v`: an existing key keeps its position, a new key is appended. */
  function Set<V>(a: PArr<V>, k: Key, v: V): (r: PArr<V>)
    ensures HasKey(a, k) ==> |r| == |a|
    ensures HasKey(a, k) ==> forall i :: 0 <= i < |a| ==> r[i] == (if a[i].0 == k then (k, v) else a[i])
    ensures !HasKey(a, k) ==> r == a + [(k, v)]
  {
    match Find(a, k)
    case Some(p) =>
      assert forall i :: 0 <= i < |a| && i != p ==> a[i].0 != k;
      a[p := (k, v)]
    case None =>
      a + [(k, v)]
  }

  lemma {:induction false} GetSet<V>(a: PArr<V>, k: Key, v: V, k': Key)
    ensures Get(Set(a, k, v), k') == if k == k' then Some(v) else Get(a, k')
  {
    var r := Set(a, k, v);
    if HasKey(a, k) {
      if k == k' {
        var p := Find(a, k).value;
        GetAt(r, p);
      } else if HasKey(a, k') {
        var q := Find(a, k').value;
        GetAt(r, q);
        GetAt(a, q);
      } else {
        assert forall q :: 0 <= q < |r| ==> r[q].0 != k';
      }
    } else {
      if k == k' {
        GetAt(r, |a|);
      } else if HasKey(a, k') {
        var q := Find(a, k').value;
        GetAt(r, q);
        GetAt(a, q);
      } else {
        assert forall q :: 0 <= q < |r| ==> r[q].0 != k';
      }
    }
  }

  /** Looking a key up in `b + [e]`, for an array `b + [e]`. */
  lemma GetSnoc<V>(b: PArr<V>, e: (Key, V), k: Key)
    requires DistinctKeys(b + [e])
    ensures Get(b + [e], k) == if HasKey(b, k) then Get(b, k) else if e.0 == k then Some(e.1) else None
  {
    var be: PArr<V> := b + [e];
    if HasKey(b, k) {
      var q := Find(b, k).value;
      GetAt(b, q);
      GetAt(be, q);
    } else if e.0 == k {
      GetAt(be, |b|);
    } else {
      assert forall q :: 0 <= q < |be| ==> be[q].0 != k;
    }
  }

  /** The next free integer key: one more than the largest integer key, and at least 0. */
  function NextIndex<V>(a: seq<(Key, V)>): (n: nat)
    ensures forall i :: 0 <= i < |a| && a[i].0.IntK? ==> a[i].0.i < n
    ensures n == 0 || HasKey(a, IntK(n - 1))
  {
    if |a| == 0 then 0
    else
      var rest := NextIndex(a[1..]);
      assert forall i :: 1 <= i < |a| ==> a[i] == a[1..][i - 1];
      if a[0].0.IntK? && a[0].0.i + 1 > rest then
        a[0].0.i + 1
      else
        assert rest > 0 ==> HasKey(a, IntK(rest - 1)) by {
          if rest > 0 {
            var j :| 0 <= j < |a[1..]| && a[1..][j].0 == IntK(rest - 1);
            assert a[j + 1].0 == IntK(rest - 1);
          }
        }
        rest
  }

  /** `$a[] = $v`. */
  function Push<V>(a: PArr<V>, v: V): (r: PArr<V>)
    ensures r == a + [(IntK(NextIndex(a)), v)]
  {
    var n := NextIndex(a);
    assert forall j :: 0 <= j < |a| ==> a[j].0 != IntK(n);
    Set(a, IntK(n), v)
  }

  /** Assigns every entry of `b` into `a`, in order (`foreach ($b as $k => $v) $a[$k] = $v`). */
  function SetAll<V>(a: PArr<V>, b: seq<(Key, V)>): PArr<V>
    decreases |b|
  {
    if |b| == 0 then a else Set(SetAll(a, b[..|b| - 1]), b[|b| - 1].0, b[|b| - 1].1)
  }

  /** After assigning `b` into `a`, a key holds `b`'s value if `b` has it, and `a`'s otherwise. */
  lemma {:induction false} SetAllGet<V>(a: PArr<V>, b: PArr<V>, k: Key)
    ensures Get(SetAll(a, b), k) == if HasKey(b, k) then Get(b, k) else Get(a, k)
    decreases |b|
  {
    if |b| > 0 {
      var front: PArr<V> := b[..|b| - 1];
      var e := b[|b| - 1];
      assert b == front + [e];
      SetAllGet(a, front, k);
      GetSet(SetAll(a, front), e.0, e.1, k);
      GetSnoc(front, e, k);
    }
  }

  /** Assigning into an array never moves or removes its existing keys. */
  lemma {:induction false} SetAllKeepsKeys<V>(a: PArr<V>, b: seq<(Key, V)>)
    ensures |SetAll(a, b)| >= |a|
    ensures forall i :: 0 <= i < |a| ==> SetAll(a, b)[i].0 == a[i].0
    decreases |b|
  {
    if |b| > 0 {
      SetAllKeepsKeys(a, b[..|b| - 1]);
    }
  }

  // ---------------------------------------------------------------------------------
  // array_merge

  /** Number of integer-keyed entries. */
  function IntCount<V>(x: seq<(Key, V)>): (n: nat)
    ensures n <= |x|
    decreases |x|
  {
    if |x| == 0 then 0 else IntCount(x[..|x| - 1]) + (if x[|x| - 1].0.IntK? then 1 else 0)
  }

  /** Gives the integer-keyed entries the keys n, n+1, ... in order; string keys stay. */
  function Renumber<V>(x: seq<(Key, V)>, n: int): (r: seq<(Key, V)>)
    ensures |r| == |x|
    decreases |x|
  {
    if |x| == 0 then []
    else
      var front := x[..|x| - 1];
      var e := x[|x| - 1];
      Renumber(front, n) + [if e.0.IntK? then (IntK(n + IntCount(front)), e.1) else e]
  }

  /** The entries of `a` where a string key also present in `b` takes `b`'s value. */
  function Overwrite<V>(a: seq<(Key, V)>, b: seq<(Key, V)>): (r: seq<(Key, V)>)
    ensures |r| == |a|
  {
    seq(|a|, i requires 0 <= i < |a| =>
      if a[i].0.StrK? && HasKey(b, a[i].0) then (a[i].0, Get(b, a[i].0).value) else a[i])
  }

  /** The entries of `b` that `array_merge` appends after `a`'s: integer-keyed ones, and
      string-keyed ones whose key `a` lacks. */
  function Fresh<V>(b: seq<(Key, V)>, a: seq<(Key, V)>): seq<(Key, V)>
    decreases |b|
  {
    if |b| == 0 then []
    else
      var e := b[|b| - 1];
      Fresh(b[..|b| - 1], a) + (if e.0.IntK? || !HasKey(a, e.0) then [e] else [])
  }

  /** Declarative `array_merge($a, $b)`. */
  function MergeSpec<V>(a: seq<(Key, V)>, b: seq<(Key, V)>): seq<(Key, V)> {
    Renumber(Overwrite(a, b) + Fresh(b, a), 0)
  }

  function MergeStep<V>(acc: PArr<V>, e: (Key, V)): PArr<V> {
    if e.0.IntK? then Push(acc, e.1) else Set(acc, e.0, e.1)
  }

  /** The entries of `es`, inserted one after another into an empty array. */
  function MergeAll<V>(es: seq<(Key, V)>): PArr<V>
    decreases |es|
  {
    if |es| == 0 then [] else MergeStep(MergeAll(es[..|es| - 1]), es[|es| - 1])
  }

  /** `array_merge($a, $b)`. */
  function Merge<V>(a: PArr<V>, b: PArr<V>): PArr<V> {
    MergeAll(a + b)
  }

  lemma {:induction false} RenumberAt<V>(x: seq<(Key, V)>, n: int, i: nat)
    requires i < |x|
    ensures Renumber(x, n)[i] == (if x[i].0.IntK? then (IntK(n + IntCount(x[..i])), x[i].1) else x[i])
    decreases |x|
  {
    var front := x[..|x| - 1];
    if i < |x| - 1 {
      RenumberAt(front, n, i);
      assert front[..i] == x[..i];
    } else {
      assert front == x[..i];
    }
  }

  lemma {:induction false} IntCountMono<V>(x: seq<(Key, V)>, j: nat)
    requires j <= |x|
    ensures IntCount(x[..j]) <= IntCount(x)
    decreases |x| - j
  {
    if j < |x| {
      IntCountMono(x, j + 1);
      assert x[..j + 1][..j] == x[..j];
    } else {
      assert x[..j] == x;
    }
  }

  lemma IntCountBefore<V>(x: seq<(Key, V)>, i: nat)
    requires i < |x| && x[i].0.IntK?
    ensures IntCount(x[..i]) < IntCount(x)
  {
    IntCountMono(x, i + 1);
    assert x[..i + 1][..i] == x[..i];
  }

  lemma {:induction false} LastIntEntry<V>(x: seq<(Key, V)>) returns (i: nat)
    requires IntCount(x) > 0
    ensures i < |x| && x[i].0.IntK? && IntCount(x[..i]) == IntCount(x) - 1
    decreases |x|
  {
    var front := x[..|x| - 1];
    if x[|x| - 1].0.IntK? {
      i := |x| - 1;
    } else {
      i := LastIntEntry(front);
      assert front[..i] == x[..i];
    }
  }

  lemma {:induction false} IntCountSameKinds<V>(y: seq<(Key, V)>, z: seq<(Key, V)>)
    requires |y| == |z|
    requires forall i :: 0 <= i < |y| ==> (y[i].0.IntK? <==> z[i].0.IntK?)
    ensures IntCount(y) == IntCount(z)
    decreases |y|
  {
    if |y| > 0 {
      IntCountSameKinds(y[..|y| - 1], z[..|z| - 1]);
    }
  }

  /** Renumbering from 0 leaves exactly the keys 0 .. IntCount-1 in use. */
  lemma NextIndexRenumber<V>(x: seq<(Key, V)>)
    ensures NextIndex(Renumber(x, 0)) == IntCount(x)
  {
    var r := Renumber(x, 0);
    var n := NextIndex(r);
    forall i | 0 <= i < |r| && r[i].0.IntK?
      ensures r[i].0.i < IntCount(x)
    {
      RenumberAt(x, 0, i);
      IntCountBefore(x, i);
    }
    if IntCount(x) > 0 {
      var i := LastIntEntry(x);
      RenumberAt(x, 0, i);
      assert r[i].0 == IntK(IntCount(x) - 1);
    }
    if n > 0 {
      var j :| 0 <= j < |r| && r[j].0 == IntK(n - 1);
    }
  }

  lemma RenumberUpdate<V>(x: seq<(Key, V)>, n: int, p: nat, e: (Key, V))
    requires p < |x| && x[p].0.StrK? && e.0.StrK?
    ensures Renumber(x[p := e], n) == Renumber(x, n)[p := e]
  {
    var l := Renumber(x[p := e], n);
    var r := Renumber(x, n)[p := e];
    forall i | 0 <= i < |x|
      ensures l[i] == r[i]
    {
      RenumberAt(x[p := e], n, i);
      RenumberAt(x, n, i);
      IntCountSameKinds(x[p := e][..i], x[..i]);
    }
  }

  lemma RenumberSnoc<V>(x: seq<(Key, V)>, e: (Key, V), n: int)
    ensures Renumber(x + [e], n) == Renumber(x, n) + [if e.0.IntK? then (IntK(n + IntCount(x)), e.1) else e]
  {
    assert (x + [e])[..|x|] == x;
  }

  /** Membership in `Fresh(b, a)`. */
  lemma {:induction false} FreshMembers<V>(b: seq<(Key, V)>, a: seq<(Key, V)>, e: (Key, V))
    ensures e in Fresh(b, a) <==> e in b && (e.0.IntK? || !HasKey(a, e.0))
    decreases |b|
  {
    if |b| > 0 {
      FreshMembers(b[..|b| - 1], a, e);
      assert b == b[..|b| - 1] + [b[|b| - 1]];
    }
  }

  /** A string key of `Renumber(x, n)` is a key of `x` at the same position. */
  lemma RenumberStringKey<V>(x: seq<(Key, V)>, n: int, j: nat)
    requires j < |x| && Renumber(x, n)[j].0.StrK?
    ensures x[j] == Renumber(x, n)[j]
  {
    RenumberAt(x, n, j);
  }

  lemma {:induction false} MergeAllRenumbers<V>(a: PArr<V>)
    ensures MergeAll(a) == Renumber(a, 0)
    decreases |a|
  {
    if |a| > 0 {
      var front: PArr<V> := a[..|a| - 1];
      var e := a[|a| - 1];
      MergeAllRenumbers(front);
      var R := Renumber(front, 0);
      if e.0.IntK? {
        NextIndexRenumber(front);
      } else {
        forall j | 0 <= j < |R|
          ensures R[j].0 != e.0
        {
          RenumberAt(front, 0, j);
        }
      }
    }
  }

  lemma OverwriteSnocOther<V>(a: PArr<V>, b: PArr<V>, e: (Key, V))
    requires DistinctKeys(b + [e])
    requires e.0.IntK? || !HasKey(a, e.0)
    ensures Overwrite(a, b + [e]) == Overwrite(a, b)
  {
    forall i | 0 <= i < |a|
      ensures Overwrite(a, b + [e])[i] == Overwrite(a, b)[i]
    {
      GetSnoc(b, e, a[i].0);
    }
  }

  lemma OverwriteSnocUpdate<V>(a: PArr<V>, b: PArr<V>, e: (Key, V), p: nat)
    requires DistinctKeys(b + [e])
    requires p < |a| && a[p].0 == e.0 && e.0.StrK?
    ensures Overwrite(a, b + [e]) == Overwrite(a, b)[p := e]
  {
    forall i | 0 <= i < |a|
      ensures Overwrite(a, b + [e])[i] == Overwrite(a, b)[p := e][i]
    {
      GetSnoc(b, e, a[i].0);
      assert forall q :: 0 <= q < |b| ==> (b + [e])[q].0 != (b + [e])[|b|].0;
      if i != p {
        assert a[i].0 != a[p].0;
      }
    }
  }

  lemma FreshSnoc<V>(b: seq<(Key, V)>, e: (Key, V), a: seq<(Key, V)>)
    ensures Fresh(b + [e], a) == Fresh(b, a) + (if e.0.IntK? || !HasKey(a, e.0) then [e] else [])
  {
    assert (b + [e])[..|b|] == b;
  }

  /** The step of `MergeMatchesSpec` for an integer-keyed entry: it is appended. */
  lemma MergeStepInt<V>(a: PArr<V>, b: PArr<V>, e: (Key, V), R: PArr<V>)
    requires DistinctKeys(b + [e]) && e.0.IntK?
    requires R == MergeSpec(a, b)
    ensures MergeStep(R, e) == MergeSpec(a, b + [e])
  {
    var X := Overwrite(a, b) + Fresh(b, a);
    MergeSpecSnoc(a, b, e);
    NextIndexRenumber(X);
    RenumberSnoc(X, e, 0);
    assert MergeStep(R, e) == R + [(IntK(IntCount(X)), e.1)];
  }

  /** An entry of `b` that `a` does not hold is appended to what is merged. */
  lemma MergeSpecSnoc<V>(a: PArr<V>, b: PArr<V>, e: (Key, V))
    requires DistinctKeys(b + [e]) && (e.0.IntK? || !HasKey(a, e.0))
    ensures Overwrite(a, b + [e]) + Fresh(b + [e], a) == Overwrite(a, b) + Fresh(b, a) + [e]
  {
    OverwriteSnocOther(a, b, e);
    FreshSnoc(b, e, a);
  }

  /** The step for a string key that the first array already has: it is replaced in place. */
  lemma MergeStepUpdate<V>(a: PArr<V>, b: PArr<V>, e: (Key, V), R: PArr<V>)
    requires DistinctKeys(b + [e]) && e.0.StrK? && HasKey(a, e.0)
    requires R == MergeSpec(a, b)
    ensures MergeStep(R, e) == MergeSpec(a, b + [e])
  {
    var X := Overwrite(a, b) + Fresh(b, a);
    var p := Find(a, e.0).value;
    OverwriteSnocUpdate(a, b, e, p);
    FreshSnoc(b, e, a);
    assert Overwrite(a, b + [e]) + Fresh(b + [e], a) == X[p := e];
    RenumberUpdate(X, 0, p, e);
    RenumberAt(X, 0, p);
    assert R[p].0 == e.0;
    var s := Set(R, e.0, e.1);
    forall i | 0 <= i < |R|
      ensures s[i] == R[p := e][i]
    {
      if i != p {
        assert R[i].0 != R[p].0;
      }
    }
  }

  /** The step for a string key that neither array had before: it is appended. */
  lemma MergeStepAppend<V>(a: PArr<V>, b: PArr<V>, e: (Key, V), R: PArr<V>)
    requires DistinctKeys(b + [e]) && e.0.StrK? && !HasKey(a, e.0)
    requires R == MergeSpec(a, b)
    ensures MergeStep(R, e) == MergeSpec(a, b + [e])
  {
    var X := Overwrite(a, b) + Fresh(b, a);
    MergeSpecSnoc(a, b, e);
    forall j | 0 <= j < |R|
      ensures R[j].0 != e.0
    {
      RenumberAt(X, 0, j);
      if j >= |a| && !X[j].0.IntK? {
        var f := Fresh(b, a)[j - |a|];
        assert f in Fresh(b, a);
        FreshMembers(b, a, f);
        var m :| 0 <= m < |b| && b[m] == f;
        assert (b + [e])[m].0 != (b + [e])[|b|].0;
      }
    }
    RenumberSnoc(X, e, 0);
  }

  /** `array_merge` as PHP executes it agrees with the declarative description. */
  lemma {:induction false} MergeMatchesSpec<V>(a: PArr<V>, b: PArr<V>)
    ensures Merge(a, b) == MergeSpec(a, b)
    decreases |b|
  {
    if |b| == 0 {
      assert a + b == a;
      MergeAllRenumbers(a);
      assert Overwrite(a, b) == a;
      assert Overwrite(a, b) + Fresh(b, a) == a;
    } else {
      var b': PArr<V> := b[..|b| - 1];
      var e := b[|b| - 1];
      assert b == b' + [e];
      MergeMatchesSpec(a, b');
      assert (a + b)[..|a + b| - 1] == a + b';
      assert (a + b)[|a + b| - 1] == e;
      var R := Merge(a, b');
      assert MergeAll(a + b) == MergeStep(R, e);
      if e.0.IntK? {
        MergeStepInt(a, b', e, R);
      } else if HasKey(a, e.0) {
        MergeStepUpdate(a, b', e, R);
      } else {
        MergeStepAppend(a, b', e, R);
      }
    }
  }

  /** After `array_merge($a, $b)` a string key holds `$b`'s value if `$b` has the key and
      `$a`'s otherwise; a key in neither is absent. */
  lemma MergeStringKey<V>(a: PArr<V>, b: PArr<V>, s: string)
    ensures Get(Merge(a, b), StrK(s)) == if HasKey(b, StrK(s)) then Get(b, StrK(s)) else Get(a, StrK(s))
  {
    MergeMatchesSpec(a, b);
    var R := Merge(a, b);
    var X := Overwrite(a, b) + Fresh(b, a);
    var k := StrK(s);
    if HasKey(a, k) {
      var p := Find(a, k).value;
      RenumberAt(X, 0, p);
      GetAt(R, p);
      GetAt(a, p);
    } else if HasKey(b, k) {
      var m := Find(b, k).value;
      FreshMembers(b, a, b[m]);
      var j :| 0 <= j < |Fresh(b, a)| && Fresh(b, a)[j] == b[m];
      RenumberAt(X, 0, |a| + j);
      GetAt(R, |a| + j);
      GetAt(b, m);
    } else {
      forall j | 0 <= j < |R|
        ensures R[j].0 != k
      {
        RenumberAt(X, 0, j);
        if j >= |a| && !X[j].0.IntK? {
          var f := Fresh(b, a)[j - |a|];
          assert f in Fresh(b, a);
          FreshMembers(b, a, f);
        }
      }
    }
  }

  /** `array_merge` keeps the entries of its first argument, in place: a string key stays
      where it was, an integer key is renumbered by its rank among integer keys. The
      entries after them are those of `Fresh(b, a)`, in `$b`'s order. */
  lemma MergeKeepsPositions<V>(a: PArr<V>, b: PArr<V>)
    ensures |Merge(a, b)| == |a| + |Fresh(b, a)|
    ensures forall i :: 0 <= i < |a| ==>
      Merge(a, b)[i].0 == (if a[i].0.IntK? then IntK(IntCount(a[..i])) else a[i].0)
    ensures forall j :: 0 <= j < |Fresh(b, a)| ==>
      Merge(a, b)[|a| + j].1 == Fresh(b, a)[j].1 && (Fresh(b, a)[j].0.StrK? ==> Merge(a, b)[|a| + j].0 == Fresh(b, a)[j].0)
  {
    MergeMatchesSpec(a, b);
    var X := Overwrite(a, b) + Fresh(b, a);
    RenumberedFirst(a, b, X);
    RenumberedFresh(a, b, X);
  }

  lemma RenumberedFirst<V>(a: PArr<V>, b: PArr<V>, X: seq<(Key, V)>)
    requires X == Overwrite(a, b) + Fresh(b, a)
    ensures forall i :: 0 <= i < |a| ==>
      Renumber(X, 0)[i].0 == (if a[i].0.IntK? then IntK(IntCount(a[..i])) else a[i].0)
  {
    forall i | 0 <= i < |a|
      ensures Renumber(X, 0)[i].0 == (if a[i].0.IntK? then IntK(IntCount(a[..i])) else a[i].0)
    {
      RenumberAt(X, 0, i);
      assert X[i].0 == a[i].0;
      assert forall k :: 0 <= k < i ==> X[..i][k].0 == a[..i][k].0;
      IntCountSameKinds(X[..i], a[..i]);
    }
  }

  lemma RenumberedFresh<V>(a: PArr<V>, b: PArr<V>, X: seq<(Key, V)>)
    requires X == Overwrite(a, b) + Fresh(b, a)
    ensures forall j :: 0 <= j < |Fresh(b, a)| ==>
      Renumber(X, 0)[|a| + j].1 == Fresh(b, a)[j].1 && (Fresh(b, a)[j].0.StrK? ==> Renumber(X, 0)[|a| + j].0 == Fresh(b, a)[j].0)
  {
    forall j | 0 <= j < |Fresh(b, a)|
      ensures Renumber(X, 0)[|a| + j].1 == Fresh(b, a)[j].1 && (Fresh(b, a)[j].0.StrK? ==> Renumber(X, 0)[|a| + j].0 == Fresh(b, a)[j].0)
    {
      RenumberAt(X, 0, |a| + j);
      assert X[|a| + j] == Fresh(b, a)[j];
    }
  }

  /** Merging a one-element list appends its value under the next integer key. */
  lemma MergeSingleton<V>(a: PArr<V>, v: V)
    ensures Merge(a, [(IntK(0), v)]) == Renumber(a, 0) + [(IntK(IntCount(a)), v)]
  {
    var b: PArr<V> := [(IntK(0), v)];
    MergeMatchesSpec(a, b);
    assert Overwrite(a, b) == a;
    assert b[..0] == [];
    assert Fresh(b, a) == [b[0]];
    RenumberSnoc(a, b[0], 0);
  }

  /** `array_only($a, $keys)`: the entries whose key is listed, in the array's own order. */
  function Only<V>(a: PArr<V>, ks: seq<Key>): (r: PArr<V>)
    ensures |r| <= |a|
    ensures forall i :: 0 <= i < |r| ==> r[i].0 in ks && exists j :: 0 <= j < |a| && a[j] == r[i]
    decreases |a|
  {
    if |a| == 0 then []
    else
      var front: PArr<V> := a[..|a| - 1];
      var r0 := Only(front, ks);
      if a[|a| - 1].0 in ks then
        assert forall i :: 0 <= i < |r0| ==> r0[i].0 != a[|a| - 1].0 by {
          forall i | 0 <= i < |r0|
            ensures r0[i].0 != a[|a| - 1].0
          {
            var j :| 0 <= j < |front| && front[j] == r0[i];
            assert a[j] == front[j];
          }
        }
        var r: seq<(Key, V)> := r0 + [a[|a| - 1]];
        assert forall i :: 0 <= i < |r| ==> exists j :: 0 <= j < |a| && a[j] == r[i] by {
          forall i | 0 <= i < |r|
            ensures exists j :: 0 <= j < |a| && a[j] == r[i]
          {
            if i < |r0| {
              var j :| 0 <= j < |front| && front[j] == r0[i];
              assert a[j] == r[i];
            } else {
              assert a[|a| - 1] == r[i];
            }
          }
        }
        r
      else
        assert forall i :: 0 <= i < |r0| ==> exists j :: 0 <= j < |a| && a[j] == r0[i] by {
          forall i | 0 <= i < |r0|
            ensures exists j :: 0 <= j < |a| && a[j] == r0[i]
          {
            var j :| 0 <= j < |front| && front[j] == r0[i];
            assert a[j] == r0[i];
          }
        }
        r0
  }

  /** A key survives `array_only` with its value exactly when it is listed. */
  lemma {:induction false} OnlyGet<V>(a: PArr<V>, ks: seq<Key>, k: Key)
    ensures Get(Only(a, ks), k) == if k in ks then Get(a, k) else None
    decreases |a|
  {
    if |a| > 0 {
      var front: PArr<V> := a[..|a| - 1];
      var e := a[|a| - 1];
      assert a == front + [e];
      OnlyGet(front, ks, k);
      GetSnoc(front, e, k);
      if e.0 in ks {
        GetSnoc(Only(front, ks), e, k);
        if k in ks && HasKey(Only(front, ks), k) {
          assert HasKey(front, k);
        }
      } else if k == e.0 {
        assert !HasKey(Only(front, ks), k);
      }
    }
  }
}
