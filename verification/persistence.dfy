/**
 * The repository's write methods (src/BaseRepositoryEloquent.php): `create`,
 * `createMany`, `update`, `updateMany`, `save`, `saveMany` and `delete`, over one table.
 *
 * Every write validates first. An exception leaves the table as it was at the moment
 * it was raised, so the batch methods stop at the first failing item and keep the
 * items written before it (`Outcome` carries the table alongside the result). Only
 * `create` and `save` run the save hook; `update` and `updateMany` do not.
 *
 * `array_is_assoc`, an unseen helper, is a parameter.
 */
module Persistence {
  import opened Wrappers
  import opened PhpValues
  import opened PhpArray
  import opened Store
  import opened Validation
  import opened Branch

  /** A repository: its `Validation` object, the kind of its model class, and its save
      hook (`beforeSaveModel`). */
  datatype Repo = Repo(validation: Config, kind: ModelKind, hook: Hook)

  function KeyName(r: Repo): string {
    r.validation.keyName
  }

  datatype Error = InvalidArgument | NotFound | DuplicateKey | ValidationFailed(e: ValidationError)

  /** The table after the call, and what the call returned or threw. */
  datatype Outcome<T> = Outcome(table: Table, result: Result<T, Error>)

  /** Validates, runs the hook when `hooked`, and saves; an insert under a key already
      taken fails and writes nothing. */
  function ValidateAndSave(r: Repo, t: Table, m: Model, attrs: PArr<Scalar>, hooked: bool): (o: Outcome<Model>)
    ensures var saved := Persist(t, if hooked then BeforeSaveModel(r.hook, m) else m, KeyName(r));
      && (o.result.Success? <==> Validate(r.validation, m, attrs).Success? && saved.Some?)
      && (Validate(r.validation, m, attrs).Failure? ==>
            o == Outcome(t, Failure(ValidationFailed(Validate(r.validation, m, attrs).error))))
      && (Validate(r.validation, m, attrs).Success? && saved.None? ==> o == Outcome(t, Failure(DuplicateKey)))
      && (o.result.Success? ==> o == Outcome(saved.value.0, Success(saved.value.1)))
  {
    match Validate(r.validation, m, attrs)
    case Failure(e) => Outcome(t, Failure(ValidationFailed(e)))
    case Success(_) =>
      match Persist(t, if hooked then BeforeSaveModel(r.hook, m) else m, KeyName(r))
      case None => Outcome(t, Failure(DuplicateKey))
      case Some(saved) => Outcome(saved.0, Success(saved.1))
  }

  // ---------------------------------------------------------------------------------
  // create, createMany

  /** `create($attributes)`: rejects a list, validates the attributes passed, runs the
      hook and inserts. */
  function Create(r: Repo, t: Table, attrs: PArr<Scalar>, isAssoc: bool): (o: Outcome<Model>)
    ensures !isAssoc ==> o == Outcome(t, Failure(InvalidArgument))
    ensures o.result.Success? <==>
      isAssoc && Validate(r.validation, NewInstance(attrs, r.kind), attrs).Success? && !Taken(t, NewKey(t, attrs, KeyName(r)))
    ensures isAssoc && Validate(r.validation, NewInstance(attrs, r.kind), attrs).Success? && Taken(t, NewKey(t, attrs, KeyName(r))) ==>
      o.result == Failure(DuplicateKey)
    ensures o.result.Failure? ==> o.table == t
    ensures o.result.Success? ==>
      var key := NewKey(t, attrs, KeyName(r));
      && o.table == Table(t.rows + [Row(key, o.result.value.attributes, o.result.value.branch)], NextAfter(t, key))
      && Get(o.result.value.attributes, StrK(KeyName(r))) == Some(SInt(key))
      && (forall k :: k != StrK(KeyName(r)) ==> Get(o.result.value.attributes, k) == Get(attrs, k))
      && o.result.value.branch == BeforeSaveModel(r.hook, NewInstance(attrs, r.kind)).branch
  {
    if !isAssoc then Outcome(t, Failure(InvalidArgument))
    else ValidateAndSave(r, t, NewInstance(attrs, r.kind), attrs, true)
  }

  /** `createMany($items)`: `create` on each item in order, stopping at the first
      exception. */
  function CreateMany(r: Repo, t: Table, items: seq<PArr<Scalar>>, isAssoc: PArr<Scalar> -> bool): (o: Outcome<seq<Model>>)
    ensures |o.table.rows| >= |t.rows| && o.table.rows[..|t.rows|] == t.rows
    ensures o.result.Success? ==> |o.result.value| == |items|
    decreases |items|
  {
    if |items| == 0 then Outcome(t, Success([]))
    else
      var first := Create(r, t, items[0], isAssoc(items[0]));
      if first.result.Failure? then Outcome(first.table, Failure(first.result.error))
      else
        var rest := CreateMany(r, first.table, items[1..], isAssoc);
        PrefixOfPrefix(t.rows, first.table.rows, rest.table.rows);
        Outcome(rest.table, if rest.result.Success? then Success([first.result.value] + rest.result.value) else Failure(rest.result.error))
  }

  lemma PrefixOfPrefix<T>(a: seq<T>, b: seq<T>, c: seq<T>)
    requires |a| <= |b| <= |c| && b[..|a|] == a && c[..|b|] == b
    ensures c[..|a|] == a
  {
    assert c[..|b|][..|a|] == a;
  }

  /** `o` appended `n` rows to `t` holding consecutive keys from `t.next` on, and
      returned models carrying those keys, in order. */
  ghost predicate AppendedKeys(o: Outcome<seq<Model>>, t: Table, n: nat, keyName: string) {
    && o.result.Success? && |o.result.value| == n
    && o.table.next == t.next + n && |o.table.rows| == |t.rows| + n
    && (forall j :: |t.rows| <= j < |o.table.rows| ==> o.table.rows[j].id == t.next + (j - |t.rows|))
    && (forall i :: 0 <= i < n ==> Get(o.result.value[i].attributes, StrK(keyName)) == Some(SInt(t.next + i)))
  }

  /** `createMany` that succeeds on items that give no key of their own appends one row
      per item and hands out consecutive keys, in item order. */
  lemma {:induction false} CreateManyKeys(r: Repo, t: Table, items: seq<PArr<Scalar>>, isAssoc: PArr<Scalar> -> bool)
    requires forall i :: 0 <= i < |items| ==> !GivesKey(items[i], KeyName(r))
    requires CreateMany(r, t, items, isAssoc).result.Success?
    ensures AppendedKeys(CreateMany(r, t, items, isAssoc), t, |items|, KeyName(r))
    decreases |items|
  {
    if |items| > 0 {
      var first, rest := CreateManyStep(r, t, items, isAssoc);
      CreateManyKeys(r, first.table, items[1..], isAssoc);
      AppendedKeysStep(t, first, rest, |items| - 1, KeyName(r));
    }
  }

  lemma AppendedKeysStep(t: Table, first: Outcome<Model>, rest: Outcome<seq<Model>>, n: nat, keyName: string)
    requires first.result.Success?
    requires first.table == Table(t.rows + [Row(t.next, first.result.value.attributes, first.result.value.branch)], t.next + 1)
    requires Get(first.result.value.attributes, StrK(keyName)) == Some(SInt(t.next))
    requires AppendedKeys(rest, first.table, n, keyName)
    requires rest.table.rows[..|first.table.rows|] == first.table.rows
    ensures AppendedKeys(Outcome(rest.table, Success([first.result.value] + rest.result.value)), t, n + 1, keyName)
  {
    var ms := [first.result.value] + rest.result.value;
    var rows := rest.table.rows;
    var base := |t.rows|;
    assert rows[base] == first.table.rows[base] by {
      assert rows[base] == rows[..|first.table.rows|][base];
    }
    assert first.table.rows[base].id == t.next;
    forall j | base <= j < |rows|
      ensures rows[j].id == t.next + (j - base)
    {
    }
    forall i | 0 <= i < n + 1
      ensures Get(ms[i].attributes, StrK(keyName)) == Some(SInt(t.next + i))
    {
      if i > 0 {
        assert ms[i] == rest.result.value[i - 1];
      }
    }
  }

  /** One successful step of `createMany`. */
  lemma CreateManyStep(r: Repo, t: Table, items: seq<PArr<Scalar>>, isAssoc: PArr<Scalar> -> bool)
      returns (first: Outcome<Model>, rest: Outcome<seq<Model>>)
    requires |items| > 0 && !GivesKey(items[0], KeyName(r)) && CreateMany(r, t, items, isAssoc).result.Success?
    ensures first == Create(r, t, items[0], isAssoc(items[0])) && first.result.Success?
    ensures first.table == Table(t.rows + [Row(t.next, first.result.value.attributes, first.result.value.branch)], t.next + 1)
    ensures Get(first.result.value.attributes, StrK(KeyName(r))) == Some(SInt(t.next))
    ensures rest == CreateMany(r, first.table, items[1..], isAssoc) && rest.result.Success?
    ensures CreateMany(r, t, items, isAssoc) == Outcome(rest.table, Success([first.result.value] + rest.result.value))
  {
    first := Create(r, t, items[0], isAssoc(items[0]));
    rest := CreateMany(r, first.table, items[1..], isAssoc);
  }

  /** Item `k` is where `createMany` stopped: the items before it were created, it
      failed, and the table is as those items left it. */
  predicate StopsAt(r: Repo, t: Table, items: seq<PArr<Scalar>>, isAssoc: PArr<Scalar> -> bool, k: int) {
    0 <= k < |items| &&
    var before := CreateMany(r, t, items[..k], isAssoc);
    && before.result.Success?
    && Create(r, before.table, items[k], isAssoc(items[k])).result.Failure?
    && CreateMany(r, t, items, isAssoc).table == before.table
  }

  /** `createMany` stops at the first failing item: the table then holds exactly what
      creating the items before it wrote. */
  lemma {:induction false} CreateManyFailFast(r: Repo, t: Table, items: seq<PArr<Scalar>>, isAssoc: PArr<Scalar> -> bool)
    requires CreateMany(r, t, items, isAssoc).result.Failure?
    ensures exists k :: StopsAt(r, t, items, isAssoc, k)
    decreases |items|
  {
    var first := CreateManyCons(r, t, items, isAssoc);
    if first.result.Success? {
      CreateManyFailFast(r, first.table, items[1..], isAssoc);
      var k :| StopsAt(r, first.table, items[1..], isAssoc, k);
      StopsAtCons(r, t, items, isAssoc, first, k);
    } else {
      assert items[..0] == [];
      assert StopsAt(r, t, items, isAssoc, 0);
    }
  }

  /** Stopping at item `k` of the rest, after a first item that was created, is stopping
      at item `k + 1`. */
  lemma StopsAtCons(r: Repo, t: Table, items: seq<PArr<Scalar>>, isAssoc: PArr<Scalar> -> bool, first: Outcome<Model>, k: int)
    requires |items| > 0 && first == Create(r, t, items[0], isAssoc(items[0])) && first.result.Success?
    requires StopsAt(r, first.table, items[1..], isAssoc, k)
    ensures StopsAt(r, t, items, isAssoc, k + 1)
  {
    var tail := items[1..];
    var prefix := items[..k + 1];
    var before := CreateMany(r, first.table, tail[..k], isAssoc);
    assert prefix[0] == items[0] && prefix[1..] == tail[..k];
    var again := CreateManyCons(r, t, prefix, isAssoc);
    var whole := CreateManyCons(r, t, items, isAssoc);
    assert CreateMany(r, t, prefix, isAssoc).table == before.table;
    assert CreateMany(r, t, prefix, isAssoc).result.Success?;
    assert items[k + 1] == tail[k];
    assert CreateMany(r, t, items, isAssoc).table == before.table;
  }

  /** `createMany` on a non-empty list is `create` on the first item, then, when that
      succeeds, `createMany` on the rest. */
  lemma CreateManyCons(r: Repo, t: Table, items: seq<PArr<Scalar>>, isAssoc: PArr<Scalar> -> bool) returns (first: Outcome<Model>)
    requires |items| > 0
    ensures first == Create(r, t, items[0], isAssoc(items[0]))
    ensures first.result.Failure? ==> CreateMany(r, t, items, isAssoc).table == first.table && CreateMany(r, t, items, isAssoc).result.Failure?
    ensures first.result.Success? ==>
      && CreateMany(r, t, items, isAssoc).table == CreateMany(r, first.table, items[1..], isAssoc).table
      && CreateMany(r, t, items, isAssoc).result.Success? == CreateMany(r, first.table, items[1..], isAssoc).result.Success?
  {
    first := Create(r, t, items[0], isAssoc(items[0]));
  }

  // ---------------------------------------------------------------------------------
  // update, updateMany

  /** `update($id, $attributes)`: finds the row or fails, fills, validates the dirty
      attributes and saves; no hook. In a well-formed table the row then holds each
      given attribute, or an equivalent value it already held, and nothing else
      changes. */
  function Update(r: Repo, t: Table, id: Scalar, attrs: PArr<Scalar>): (o: Outcome<Model>)
    ensures o.result == Failure(NotFound) <==> forall i :: 0 <= i < |t.rows| ==> !KeyEq(id, t.rows[i].id)
    ensures o.result.Failure? ==> o.table == t
    ensures o.result.Success? ==> |o.table.rows| == |t.rows| && o.table.next == t.next
    ensures o.result.Success? ==> forall i :: 0 <= i < |t.rows| ==> o.table.rows[i].id == t.rows[i].id
    ensures o.result.Success? && WellFormed(t) ==> forall i :: 0 <= i < |t.rows| ==> o.table.rows[i].branch == t.rows[i].branch
    ensures o.result.Success? ==> forall i :: 0 <= i < |t.rows| && !KeyEq(id, t.rows[i].id) ==> o.table.rows[i] == t.rows[i]
    ensures o.result.Success? && WellFormed(t) ==> forall i :: 0 <= i < |t.rows| && KeyEq(id, t.rows[i].id) ==>
      UpdatedFrom(o.table.rows[i].attributes, t.rows[i].attributes, attrs, KeyName(r))
  {
    match FindModel(t, id, r.kind, KeyName(r))
    case None => Outcome(t, Failure(NotFound))
    case Some(m) =>
      var row := Lookup(t.rows, id).value;
      UpdateWritesFilled(t, row, m, attrs, KeyName(r));
      MatchesOnlyRow(t, id, row);
      ValidateAndSave(r, t, Fill(m, attrs), [], false)
  }

  /** The rows an id matches all carry the key of the row it was looked up by. */
  lemma MatchesOnlyRow(t: Table, id: Scalar, row: Row)
    requires KeyEq(id, row.id)
    ensures forall i :: 0 <= i < |t.rows| && KeyEq(id, t.rows[i].id) ==> t.rows[i].id == row.id
  {
    forall i | 0 <= i < |t.rows| && KeyEq(id, t.rows[i].id)
      ensures t.rows[i].id == row.id
    {
      KeyEqUnique(id, t.rows[i].id, row.id);
    }
  }

  /** `findOrFail` takes the id as given: null finds no row, and an id written as its
      decimal string finds what the integer finds. */
  lemma UpdateIdForms(r: Repo, t: Table, n: int, attrs: PArr<Scalar>)
    ensures Update(r, t, SNull, attrs) == Outcome(t, Failure(NotFound))
    ensures Update(r, t, SStr(IntToString(n)), attrs) == Update(r, t, SInt(n), attrs)
  {
    forall k
      ensures KeyEq(SStr(IntToString(n)), k) <==> KeyEq(SInt(n), k)
    {
      if KeyEq(SStr(IntToString(n)), k) {
        IntToStringInjective(n, k);
      }
    }
    LookupSameKey(t.rows, SStr(IntToString(n)), SInt(n));
  }

  /** `after` is `before` with the given attributes assigned, where an attribute whose
      old value was equivalent may keep it; the key column aside. */
  ghost predicate UpdatedFrom(after: PArr<Scalar>, before: PArr<Scalar>, attrs: PArr<Scalar>, keyName: string) {
    forall k :: k != StrK(keyName) ==> UpdatedAt(after, before, attrs, k)
  }

  /** Saving a filled, loaded model writes to its row and only there, and keeps every
      key and branch stamp. */
  lemma UpdateWritesFilled(t: Table, row: Row, m: Model, attrs: PArr<Scalar>, keyName: string)
    requires row in t.rows && m == Loaded(row, m.kind, keyName)
    ensures var saved := UpdateRow(t, Fill(m, attrs), keyName).0;
      && |saved.rows| == |t.rows| && saved.next == t.next
      && (forall i :: 0 <= i < |t.rows| ==> saved.rows[i].id == t.rows[i].id)
      && (WellFormed(t) ==> forall i :: 0 <= i < |t.rows| ==> saved.rows[i].branch == t.rows[i].branch)
      && (forall i :: 0 <= i < |t.rows| && t.rows[i].id != row.id ==> saved.rows[i] == t.rows[i])
      && (WellFormed(t) ==> forall i :: 0 <= i < |t.rows| && t.rows[i].id == row.id ==>
            UpdatedFrom(saved.rows[i].attributes, t.rows[i].attributes, attrs, keyName))
  {
    var filled := Fill(m, attrs);
    assert SaveKey(filled, keyName) == SInt(row.id);
    assert filled.branch == row.branch;
    WritesAtKey(t, row, filled, keyName);
    if WellFormed(t) {
      UpdateWritesAttributes(t, row, m, attrs, keyName);
    }
  }

  /** Writing back a model whose key is a row's key and which carries that row's branch
      stamp changes no other row, and in a well-formed table changes no branch stamp. */
  lemma WritesAtKey(t: Table, row: Row, filled: Model, keyName: string)
    requires row in t.rows && SaveKey(filled, keyName) == SInt(row.id) && filled.branch == row.branch
    ensures var saved := UpdateRow(t, filled, keyName).0;
      && (forall i :: 0 <= i < |t.rows| && t.rows[i].id != row.id ==> saved.rows[i] == t.rows[i])
      && (WellFormed(t) ==> forall i :: 0 <= i < |t.rows| ==> saved.rows[i].branch == t.rows[i].branch)
  {
    var saved := UpdateRow(t, filled, keyName).0;
    if WellFormed(t) {
      forall i | 0 <= i < |t.rows|
        ensures saved.rows[i].branch == t.rows[i].branch
      {
        if t.rows[i].id == row.id {
          var j :| 0 <= j < |t.rows| && t.rows[j] == row;
          assert i == j;
        }
      }
    }
  }

  /** In a well-formed table the row written is the one loaded. */
  lemma UpdateWritesAttributes(t: Table, row: Row, m: Model, attrs: PArr<Scalar>, keyName: string)
    requires WellFormed(t) && row in t.rows && m == Loaded(row, m.kind, keyName)
    requires SaveKey(Fill(m, attrs), keyName) == SInt(row.id)
    ensures var saved := UpdateRow(t, Fill(m, attrs), keyName).0;
      forall i :: 0 <= i < |t.rows| && t.rows[i].id == row.id ==>
        UpdatedFrom(saved.rows[i].attributes, t.rows[i].attributes, attrs, keyName)
  {
    var filled := Fill(m, attrs);
    var saved := UpdateRow(t, filled, keyName).0;
    forall i | 0 <= i < |t.rows| && t.rows[i].id == row.id
      ensures UpdatedFrom(saved.rows[i].attributes, t.rows[i].attributes, attrs, keyName)
    {
      assert t.rows[i] == row;
      assert saved.rows[i].attributes == SetAll(row.attributes, Dirty(filled));
      forall k | k != StrK(keyName)
        ensures UpdatedAt(SetAll(row.attributes, Dirty(filled)), row.attributes, attrs, k)
      {
        FilledEntry(row, m, attrs, keyName, k);
      }
    }
  }

  /** `UpdatedFrom` at one attribute. */
  predicate UpdatedAt(after: PArr<Scalar>, before: PArr<Scalar>, attrs: PArr<Scalar>, k: Key) {
    && (HasKey(attrs, k) ==> HasKey(after, k) && Equivalent(Get(after, k).value, Get(attrs, k).value))
    && (!HasKey(attrs, k) ==> Get(after, k) == Get(before, k))
  }

  /** One attribute of a loaded row after the filled model is written back. */
  lemma FilledEntry(row: Row, m: Model, attrs: PArr<Scalar>, keyName: string, k: Key)
    requires m == Loaded(row, m.kind, keyName) && k != StrK(keyName)
    ensures UpdatedAt(SetAll(row.attributes, Dirty(Fill(m, attrs))), row.attributes, attrs, k)
  {
    var filled := Fill(m, attrs);
    var d := Dirty(filled);
    SetAllGet(row.attributes, d, k);
    assert Get(filled.original, k) == Get(row.attributes, k);
  }

  /** `array_first` over the items: the first one whose key attribute equals `id`. */
  function FirstMatching(items: seq<PArr<Scalar>>, keyName: string, id: int): (r: Option<PArr<Scalar>>)
    ensures r.Some? ==> exists j :: FirstAt(items, keyName, id, j) && items[j] == r.value
    ensures r.None? <==> forall i :: 0 <= i < |items| ==> !Names(items[i], keyName, id)
    decreases |items|
  {
    if |items| == 0 then None
    else if Names(items[0], keyName, id) then
      assert FirstAt(items, keyName, id, 0);
      Some(items[0])
    else
      var r := FirstMatching(items[1..], keyName, id);
      FirstMatchingCons(items, items[1..], keyName, id, r);
      r
  }

  /** The item holds the key attribute and it matches `id`. */
  predicate Names(item: PArr<Scalar>, keyName: string, id: int) {
    HasKey(item, StrK(keyName)) && KeyEq(Get(item, StrK(keyName)).value, id)
  }

  /** Item `j` is the first one naming `id`. */
  predicate FirstAt(items: seq<PArr<Scalar>>, keyName: string, id: int, j: int) {
    0 <= j < |items| && Names(items[j], keyName, id) && forall i :: 0 <= i < j ==> !Names(items[i], keyName, id)
  }

  /** The first match in the rest of the list, after a first item that does not match, is
      the first match of the whole list. */
  lemma FirstMatchingCons(items: seq<PArr<Scalar>>, tail: seq<PArr<Scalar>>, keyName: string, id: int, r: Option<PArr<Scalar>>)
    requires |items| > 0 && tail == items[1..] && !Names(items[0], keyName, id)
    requires r.Some? ==> exists j :: FirstAt(tail, keyName, id, j) && tail[j] == r.value
    requires r.None? <==> forall i :: 0 <= i < |tail| ==> !Names(tail[i], keyName, id)
    ensures r.Some? ==> exists j :: FirstAt(items, keyName, id, j) && items[j] == r.value
    ensures r.None? <==> forall i :: 0 <= i < |items| ==> !Names(items[i], keyName, id)
  {
    assert forall i :: 1 <= i < |items| ==> items[i] == tail[i - 1];
    if r.Some? {
      var j :| FirstAt(tail, keyName, id, j) && tail[j] == r.value;
      forall i | 0 <= i < j + 1
        ensures !Names(items[i], keyName, id)
      {
        if i > 0 {
          assert items[i] == tail[i - 1];
        }
      }
      assert FirstAt(items, keyName, id, j + 1) && items[j + 1] == r.value;
    }
  }

  /** `array_pluck($items, $keyName)`: each item's key attribute, null when absent. */
  function Pluck(items: seq<PArr<Scalar>>, keyName: string): (ids: seq<Scalar>)
    ensures |ids| == |items|
    ensures forall i :: 0 <= i < |items| ==> ids[i] == Get(items[i], StrK(keyName)).GetOr(SNull)
  {
    seq(|items|, i requires 0 <= i < |items| => Get(items[i], StrK(keyName)).GetOr(SNull))
  }

  /** Updates the given rows in turn, each from its matching item; no hook. */
  function UpdateRows(r: Repo, t: Table, items: seq<PArr<Scalar>>, rows: seq<Row>): (o: Outcome<seq<Model>>)
    ensures o.result.Success? ==> |o.result.value| == |rows|
    decreases |rows|
  {
    if |rows| == 0 then Outcome(t, Success([]))
    else
      var m := Loaded(rows[0], r.kind, KeyName(r));
      match FirstMatching(items, KeyName(r), rows[0].id)
      case None => Outcome(t, Failure(InvalidArgument))
      case Some(item) =>
        var one := ValidateAndSave(r, t, Fill(m, item), [], false);
        if one.result.Failure? then Outcome(one.table, Failure(one.result.error))
        else
          var rest := UpdateRows(r, one.table, items, rows[1..]);
          Outcome(rest.table, if rest.result.Success? then Success([one.result.value] + rest.result.value) else Failure(rest.result.error))
  }

  /** `updateMany($items)`: the rows whose key an item names, each filled from the
      first item naming it, validated and saved, in table order. */
  function UpdateMany(r: Repo, t: Table, items: seq<PArr<Scalar>>): (o: Outcome<seq<Model>>)
    ensures o.result.Success? ==> |o.result.value| == |ListedRows(t.rows, Pluck(items, KeyName(r)))|
  {
    UpdateRows(r, t, items, ListedRows(t.rows, Pluck(items, KeyName(r))))
  }

  /** Every row `updateMany` selects has an item naming it, so the fill never receives
      null. */
  lemma UpdateManyFindsItems(t: Table, items: seq<PArr<Scalar>>, keyName: string)
    ensures var rows := ListedRows(t.rows, Pluck(items, keyName));
      forall i :: 0 <= i < |rows| ==> FirstMatching(items, keyName, rows[i].id).Some?
  {
    var ids := Pluck(items, keyName);
    var rows := ListedRows(t.rows, ids);
    forall i | 0 <= i < |rows|
      ensures FirstMatching(items, keyName, rows[i].id).Some?
    {
      var v :| v in ids && KeyEq(v, rows[i].id);
      var j :| 0 <= j < |ids| && ids[j] == v;
      assert Names(items[j], keyName, rows[i].id);
    }
  }

  /** Some row of `rows` carries the key. */
  predicate HasId(rows: seq<Row>, id: int) {
    exists j :: 0 <= j < |rows| && rows[j].id == id
  }

  /** Rows of the table, no two with the same key. */
  predicate RowsOf(rows: seq<Row>, t: Table) {
    && (forall j :: 0 <= j < |rows| ==> rows[j] in t.rows)
    && (forall i, j :: 0 <= i < j < |rows| ==> rows[i].id != rows[j].id)
  }

  /** Row `a` is row `b` written from the first item naming its key when one of `rows`
      carries that key, and is `b` unchanged otherwise. */
  ghost predicate RowWritten(a: Row, b: Row, rows: seq<Row>, items: seq<PArr<Scalar>>, keyName: string) {
    && a.id == b.id && a.branch == b.branch
    && (HasId(rows, b.id) ==>
          FirstMatching(items, keyName, b.id).Some? &&
          UpdatedFrom(a.attributes, b.attributes, FirstMatching(items, keyName, b.id).value, keyName))
    && (!HasId(rows, b.id) ==> a == b)
  }

  /** `after` is `before` with the rows carrying the keys of `rows` written. */
  ghost predicate WrittenFrom(after: Table, before: Table, rows: seq<Row>, items: seq<PArr<Scalar>>, keyName: string) {
    && |after.rows| == |before.rows| && after.next == before.next
    && forall i :: 0 <= i < |before.rows| ==> RowWritten(after.rows[i], before.rows[i], rows, items, keyName)
  }

  /** In a well-formed table, `updateMany` writes every row an item names, from the first
      item naming it, and leaves every other row as it was; no key or branch stamp
      changes. */
  lemma UpdateManyWrites(r: Repo, t: Table, items: seq<PArr<Scalar>>)
    requires WellFormed(t) && UpdateMany(r, t, items).result.Success?
    ensures WrittenFrom(UpdateMany(r, t, items).table, t, ListedRows(t.rows, Pluck(items, KeyName(r))), items, KeyName(r))
    ensures forall i :: 0 <= i < |t.rows| ==>
      (HasId(ListedRows(t.rows, Pluck(items, KeyName(r))), t.rows[i].id) <==> Listed(Pluck(items, KeyName(r)), t.rows[i]))
  {
    var ids := Pluck(items, KeyName(r));
    var rows := ListedRows(t.rows, ids);
    ListedRowsDistinct(t.rows, ids);
    UpdateRowsWrites(r, t, items, rows);
    forall i | 0 <= i < |t.rows|
      ensures HasId(rows, t.rows[i].id) <==> Listed(ids, t.rows[i])
    {
      if Listed(ids, t.rows[i]) {
        var j :| 0 <= j < |rows| && rows[j] == t.rows[i];
      }
      if HasId(rows, t.rows[i].id) {
        var j :| 0 <= j < |rows| && rows[j].id == t.rows[i].id;
        assert Listed(ids, rows[j]);
      }
    }
  }

  /** Updating the given rows in turn writes exactly those rows. */
  lemma {:induction false} UpdateRowsWrites(r: Repo, t: Table, items: seq<PArr<Scalar>>, rows: seq<Row>)
    requires WellFormed(t) && RowsOf(rows, t)
    requires UpdateRows(r, t, items, rows).result.Success?
    ensures WrittenFrom(UpdateRows(r, t, items, rows).table, t, rows, items, KeyName(r))
    decreases |rows|
  {
    if |rows| == 0 {
      assert forall i :: 0 <= i < |t.rows| ==> !HasId(rows, t.rows[i].id);
    } else {
      var one := UpdateRowsStep(r, t, items, rows);
      RowsOfTail(t, one.table, rows, items, KeyName(r));
      UpdateRowsWrites(r, one.table, items, rows[1..]);
      ComposeWritten(t, one.table, UpdateRows(r, t, items, rows).table, rows, items, KeyName(r));
    }
  }

  /** The first row of the list written, and the rest updated from what that left. */
  lemma UpdateRowsStep(r: Repo, t: Table, items: seq<PArr<Scalar>>, rows: seq<Row>) returns (one: Outcome<Model>)
    requires WellFormed(t) && RowsOf(rows, t) && |rows| > 0
    requires UpdateRows(r, t, items, rows).result.Success?
    ensures one.result.Success? && WellFormed(one.table)
    ensures WrittenFrom(one.table, t, rows[..1], items, KeyName(r))
    ensures UpdateRows(r, t, items, rows).table == UpdateRows(r, one.table, items, rows[1..]).table
    ensures UpdateRows(r, one.table, items, rows[1..]).result.Success?
  {
    var item;
    item, one := UpdateRowsUnfold(r, t, items, rows);
    var m := Loaded(rows[0], r.kind, KeyName(r));
    OneRowWritten(t, rows, m, item, items, KeyName(r));
    UpdateRowKeepsWellFormed(t, Fill(m, item), KeyName(r));
  }

  /** `UpdateRows` on a non-empty list that succeeds: the first row's item, its save,
      and the rest. */
  lemma UpdateRowsUnfold(r: Repo, t: Table, items: seq<PArr<Scalar>>, rows: seq<Row>)
      returns (item: PArr<Scalar>, one: Outcome<Model>)
    requires |rows| > 0 && UpdateRows(r, t, items, rows).result.Success?
    ensures FirstMatching(items, KeyName(r), rows[0].id) == Some(item)
    ensures one.result.Success?
    ensures one.table == UpdateRow(t, Fill(Loaded(rows[0], r.kind, KeyName(r)), item), KeyName(r)).0
    ensures UpdateRows(r, t, items, rows).table == UpdateRows(r, one.table, items, rows[1..]).table
    ensures UpdateRows(r, one.table, items, rows[1..]).result.Success?
  {
    var m := Loaded(rows[0], r.kind, KeyName(r));
    item := FirstMatching(items, KeyName(r), rows[0].id).value;
    one := ValidateAndSave(r, t, Fill(m, item), [], false);
    assert Fill(m, item).persisted;
  }

  /** Writing back the first row, loaded and filled from its item, writes that row and
      no other. */
  lemma OneRowWritten(t: Table, rows: seq<Row>, m: Model, item: PArr<Scalar>, items: seq<PArr<Scalar>>, keyName: string)
    requires WellFormed(t) && RowsOf(rows, t) && |rows| > 0
    requires m == Loaded(rows[0], m.kind, keyName) && FirstMatching(items, keyName, rows[0].id) == Some(item)
    ensures WrittenFrom(UpdateRow(t, Fill(m, item), keyName).0, t, rows[..1], items, keyName)
  {
    var saved := UpdateRow(t, Fill(m, item), keyName).0;
    UpdateWritesFilled(t, rows[0], m, item, keyName);
    var first := rows[..1];
    forall i | 0 <= i < |t.rows|
      ensures RowWritten(saved.rows[i], t.rows[i], first, items, keyName)
    {
      OneRowAt(saved.rows[i], t.rows[i], rows[0], first, item, items, keyName);
    }
  }

  lemma OneRowAt(a: Row, b: Row, x: Row, first: seq<Row>, item: PArr<Scalar>, items: seq<PArr<Scalar>>, keyName: string)
    requires first == [x] && FirstMatching(items, keyName, x.id) == Some(item)
    requires a.id == b.id && a.branch == b.branch
    requires b.id != x.id ==> a == b
    requires b.id == x.id ==> UpdatedFrom(a.attributes, b.attributes, item, keyName)
    ensures RowWritten(a, b, first, items, keyName)
  {
    assert HasId(first, b.id) <==> b.id == x.id by {
      assert first[0] == x;
    }
  }

  /** The rows still to be updated are untouched rows of the table the first update
      left. */
  lemma RowsOfTail(t: Table, mid: Table, rows: seq<Row>, items: seq<PArr<Scalar>>, keyName: string)
    requires RowsOf(rows, t) && |rows| > 0
    requires WrittenFrom(mid, t, rows[..1], items, keyName)
    ensures RowsOf(rows[1..], mid)
  {
    var first := rows[..1];
    assert first[0] == rows[0];
    forall j | 0 <= j < |rows[1..]|
      ensures rows[1..][j] in mid.rows
    {
      var x := rows[j + 1];
      assert x.id != rows[0].id;
      var p :| 0 <= p < |t.rows| && t.rows[p] == x;
      assert !HasId(first, t.rows[p].id);
      assert mid.rows[p] == x;
    }
  }

  /** Writing the first row and then the rest is writing them all. */
  lemma ComposeWritten(t: Table, mid: Table, fin: Table, rows: seq<Row>, items: seq<PArr<Scalar>>, keyName: string)
    requires RowsOf(rows, t) && |rows| > 0
    requires WrittenFrom(mid, t, rows[..1], items, keyName)
    requires WrittenFrom(fin, mid, rows[1..], items, keyName)
    ensures WrittenFrom(fin, t, rows, items, keyName)
  {
    var first := rows[..1];
    var rest := rows[1..];
    assert first[0] == rows[0];
    forall i | 0 <= i < |t.rows|
      ensures RowWritten(fin.rows[i], t.rows[i], rows, items, keyName)
    {
      var id := t.rows[i].id;
      assert RowWritten(mid.rows[i], t.rows[i], first, items, keyName);
      assert RowWritten(fin.rows[i], mid.rows[i], rest, items, keyName);
      assert HasId(first, id) <==> id == rows[0].id;
      if id == rows[0].id {
        assert !HasId(rest, id) by {
          forall j | 0 <= j < |rest|
            ensures rest[j].id != id
          {
            assert rest[j] == rows[j + 1];
          }
        }
        assert HasId(rows, id) by {
          assert rows[0].id == id;
        }
      } else {
        assert HasId(rows, id) <==> HasId(rest, id) by {
          if HasId(rows, id) {
            var j :| 0 <= j < |rows| && rows[j].id == id;
            assert rest[j - 1] == rows[j];
          }
          if HasId(rest, id) {
            var j :| 0 <= j < |rest| && rest[j].id == id;
            assert rows[j + 1] == rest[j];
          }
        }
      }
    }
  }

  /** Neither update method runs the save hook: any hook gives the same outcome. */
  lemma {:induction false} UpdateRowsIgnoreHook(r: Repo, h: Hook, t: Table, items: seq<PArr<Scalar>>, rows: seq<Row>)
    ensures UpdateRows(r.(hook := h), t, items, rows) == UpdateRows(r, t, items, rows)
    decreases |rows|
  {
    if |rows| > 0 {
      var m := Loaded(rows[0], r.kind, KeyName(r));
      match FirstMatching(items, KeyName(r), rows[0].id)
      case None =>
      case Some(item) =>
        var one := ValidateAndSave(r, t, Fill(m, item), [], false);
        UnhookedSaveIgnoresHook(r, h, t, Fill(m, item));
        if one.result.Success? {
          UpdateRowsIgnoreHook(r, h, one.table, items, rows[1..]);
        }
    }
  }

  lemma UnhookedSaveIgnoresHook(r: Repo, h: Hook, t: Table, m: Model)
    ensures ValidateAndSave(r.(hook := h), t, m, [], false) == ValidateAndSave(r, t, m, [], false)
  {
  }

  lemma UpdateIgnoresHook(r: Repo, h: Hook, t: Table, id: Scalar, attrs: PArr<Scalar>, items: seq<PArr<Scalar>>)
    ensures Update(r.(hook := h), t, id, attrs) == Update(r, t, id, attrs)
    ensures UpdateMany(r.(hook := h), t, items) == UpdateMany(r, t, items)
  {
    UpdateRowsIgnoreHook(r, h, t, items, ListedRows(t.rows, Pluck(items, KeyName(r))));
  }

  // ---------------------------------------------------------------------------------
  // save, saveMany

  /** The argument of `save`: a model, or (rejected) an array or a collection. */
  datatype SaveArg = SaveModel(m: Model) | SaveArray(items: seq<Model>) | SaveCollection(models: seq<Model>)

  /** `save($model)`: validates (a new model against an empty attribute map), runs the
      hook and saves. */
  function Save(r: Repo, t: Table, arg: SaveArg): (o: Outcome<Model>)
    ensures !arg.SaveModel? ==> o == Outcome(t, Failure(InvalidArgument))
    ensures arg.SaveModel? ==>
      (o.result.Success? <==>
        Validate(r.validation, arg.m, []).Success? && (arg.m.persisted || !Taken(t, NewKey(t, arg.m.attributes, KeyName(r)))))
    ensures o.result.Failure? ==> o.table == t
    ensures o.result.Success? ==> o.result.value.persisted && o.result.value.branch == BeforeSaveModel(r.hook, arg.m).branch
  {
    match arg
    case SaveModel(m) => ValidateAndSave(r, t, m, [], true)
    case _ => Outcome(t, Failure(InvalidArgument))
  }

  /** A new model passed to `save` is checked on an empty attribute map, so whether it
      passes does not depend on what it holds, beyond the key it is stored under. */
  lemma SaveNewIgnoresAttributes(r: Repo, t: Table, m1: Model, m2: Model)
    requires !m1.persisted && !m2.persisted
    ensures NewKey(t, m1.attributes, KeyName(r)) == NewKey(t, m2.attributes, KeyName(r)) ==>
      (Save(r, t, SaveModel(m1)).result.Success? <==> Save(r, t, SaveModel(m2)).result.Success?)
    ensures CheckedAttributes(m1, []) == []
  {
    NewModelIgnoresOwnAttributes(r.validation, m1, m2, []);
  }

  /** `saveMany($models)`: `save` on each model in order, stopping at the first
      exception. */
  function SaveMany(r: Repo, t: Table, ms: seq<Model>): (o: Outcome<seq<Model>>)
    ensures o.result.Success? ==> |o.result.value| == |ms| && forall i :: 0 <= i < |ms| ==> o.result.value[i].persisted
    decreases |ms|
  {
    if |ms| == 0 then Outcome(t, Success([]))
    else
      var first := Save(r, t, SaveModel(ms[0]));
      if first.result.Failure? then Outcome(first.table, Failure(first.result.error))
      else
        var rest := SaveMany(r, first.table, ms[1..]);
        Outcome(rest.table, if rest.result.Success? then Success([first.result.value] + rest.result.value) else Failure(rest.result.error))
  }

  /** `saveMany` on a non-empty list is `save` on the first model, then, when that
      succeeds, `saveMany` on the rest. */
  lemma SaveManyCons(r: Repo, t: Table, ms: seq<Model>) returns (first: Outcome<Model>)
    requires |ms| > 0
    ensures first == Save(r, t, SaveModel(ms[0]))
    ensures first.result.Failure? ==> SaveMany(r, t, ms) == Outcome(first.table, Failure(first.result.error))
    ensures first.result.Success? ==>
      && SaveMany(r, t, ms).table == SaveMany(r, first.table, ms[1..]).table
      && SaveMany(r, t, ms).result.Success? == SaveMany(r, first.table, ms[1..]).result.Success?
      && (SaveMany(r, t, ms).result.Success? ==>
            SaveMany(r, t, ms).result.value == [first.result.value] + SaveMany(r, first.table, ms[1..]).result.value)
  {
    first := Save(r, t, SaveModel(ms[0]));
  }

  /** Model `i` came out of `saveMany` as `save` left it, run on the table the models
      before it left. */
  predicate SavedAt(r: Repo, t: Table, ms: seq<Model>, out: seq<Model>, i: int) {
    0 <= i < |ms| && i < |out| &&
    var before := SaveMany(r, t, ms[..i]);
    before.result.Success? && Save(r, before.table, SaveModel(ms[i])).result == Success(out[i])
  }

  /** `saveMany` that succeeds saves the models one after the other, in order, and
      returns each as it was saved. */
  lemma {:induction false} SaveManyInOrder(r: Repo, t: Table, ms: seq<Model>)
    requires SaveMany(r, t, ms).result.Success?
    ensures forall i :: 0 <= i < |ms| ==> SavedAt(r, t, ms, SaveMany(r, t, ms).result.value, i)
    decreases |ms|
  {
    if |ms| > 0 {
      var first := SaveManyCons(r, t, ms);
      var rest := SaveMany(r, first.table, ms[1..]);
      SaveManyInOrder(r, first.table, ms[1..]);
      var out := SaveMany(r, t, ms).result.value;
      forall i | 0 <= i < |ms|
        ensures SavedAt(r, t, ms, out, i)
      {
        if i == 0 {
          assert ms[..0] == [];
        } else {
          SavedAtCons(r, t, ms, first, rest.result.value, out, i - 1);
        }
      }
    }
  }

  lemma SavedAtCons(r: Repo, t: Table, ms: seq<Model>, first: Outcome<Model>, tail: seq<Model>, out: seq<Model>, i: int)
    requires |ms| > 0 && first == Save(r, t, SaveModel(ms[0])) && first.result.Success?
    requires out == [first.result.value] + tail
    requires SavedAt(r, first.table, ms[1..], tail, i)
    ensures SavedAt(r, t, ms, out, i + 1)
  {
    var prefix := ms[..i + 1];
    assert prefix[0] == ms[0] && prefix[1..] == ms[1..][..i];
    var again := SaveManyCons(r, t, prefix);
    assert ms[i + 1] == ms[1..][i];
    assert out[i + 1] == tail[i];
  }

  /** Model `k` is where `saveMany` stopped: the models before it were saved, its own
      save failed, and the table is as the models before it left it. */
  predicate SaveStopsAt(r: Repo, t: Table, ms: seq<Model>, k: int) {
    0 <= k < |ms| &&
    var before := SaveMany(r, t, ms[..k]);
    && before.result.Success?
    && Save(r, before.table, SaveModel(ms[k])).result.Failure?
    && SaveMany(r, t, ms).table == before.table
  }

  /** `saveMany` stops at the first model that fails to save: the table then holds
      exactly what saving the models before it wrote. */
  lemma {:induction false} SaveManyFailFast(r: Repo, t: Table, ms: seq<Model>)
    requires SaveMany(r, t, ms).result.Failure?
    ensures exists k :: SaveStopsAt(r, t, ms, k)
    decreases |ms|
  {
    var first := SaveManyCons(r, t, ms);
    if first.result.Success? {
      SaveManyFailFast(r, first.table, ms[1..]);
      var k :| SaveStopsAt(r, first.table, ms[1..], k);
      SaveStopsAtCons(r, t, ms, first, k);
    } else {
      assert ms[..0] == [];
      assert SaveStopsAt(r, t, ms, 0);
    }
  }

  lemma SaveStopsAtCons(r: Repo, t: Table, ms: seq<Model>, first: Outcome<Model>, k: int)
    requires |ms| > 0 && first == Save(r, t, SaveModel(ms[0])) && first.result.Success?
    requires SaveStopsAt(r, first.table, ms[1..], k)
    ensures SaveStopsAt(r, t, ms, k + 1)
  {
    var prefix := ms[..k + 1];
    assert prefix[0] == ms[0] && prefix[1..] == ms[1..][..k];
    var again := SaveManyCons(r, t, prefix);
    var whole := SaveManyCons(r, t, ms);
    assert ms[k + 1] == ms[1..][k];
  }

  /** `saveMany` keeps the table well formed, whether it finishes or stops. */
  lemma {:induction false} SaveManyKeepsWellFormed(r: Repo, t: Table, ms: seq<Model>)
    requires WellFormed(t)
    ensures WellFormed(SaveMany(r, t, ms).table)
    decreases |ms|
  {
    if |ms| > 0 {
      var first := SaveManyCons(r, t, ms);
      SaveKeepsWellFormed(r, t, SaveModel(ms[0]));
      if first.result.Success? {
        SaveManyKeepsWellFormed(r, first.table, ms[1..]);
      }
    }
  }

  // ---------------------------------------------------------------------------------
  // delete

  /** The argument of `delete`. */
  datatype DeleteArg =
    | DeleteModel(m: Model)                 // a model instance
    | DeleteModels(models: seq<Model>)      // a plain array of models
    | DeleteCollection(models: seq<Model>)  // a collection of models
    | DeleteIds(ids: seq<Scalar>)           // a plain array of ids
    | DeleteValue(v: Scalar)                // one id

  /** What `delete` returns: true from a model's `delete`, a count from `destroy`, or
      nothing. */
  datatype Deleted = ModelDeleted | CountDeleted(n: nat) | NothingReturned

  /** The `id` attributes of the models (`pluck('id')`), null when absent. */
  function PluckIds(ms: seq<Model>): (ids: seq<Scalar>)
    ensures |ids| == |ms|
    ensures forall i :: 0 <= i < |ms| ==> ids[i] == Get(ms[i].attributes, StrK("id")).GetOr(SNull)
  {
    seq(|ms|, i requires 0 <= i < |ms| => Get(ms[i].attributes, StrK("id")).GetOr(SNull))
  }

  function Destroyed(t: Table, ids: seq<Scalar>): (o: (Table, Deleted))
    ensures o.0 == Table(Unlisted(t.rows, ids), t.next)
    ensures o.1 == CountDeleted(|ListedRows(t.rows, ids)|)
  {
    DestroyCountsListed(t.rows, ids);
    var d := Destroy(t, ids);
    (d.0, CountDeleted(d.1))
  }

  /** `delete($model)`. */
  function Delete(r: Repo, t: Table, arg: DeleteArg): (o: (Table, Deleted))
    ensures arg.DeleteModel? ==> o == if arg.m.persisted then (DeleteRow(t, arg.m, KeyName(r)), ModelDeleted) else (t, NothingReturned)
    ensures arg.DeleteModels? && |arg.models| > 0 ==> o == Destroyed(t, PluckIds(arg.models))
    ensures arg.DeleteCollection? ==> o == Destroyed(t, PluckIds(arg.models))
    ensures arg.DeleteValue? && arg.v.SInt? ==> o == Destroyed(t, [arg.v])
    ensures arg.DeleteValue? && !arg.v.SInt? ==> o == if Truthy(arg.v) then Destroyed(t, [arg.v]) else (t, NothingReturned)
    ensures arg.DeleteIds? && |arg.ids| > 0 ==> o == Destroyed(t, arg.ids)
    ensures (arg.DeleteModels? && arg.models == []) || (arg.DeleteIds? && arg.ids == []) ==> o == (t, NothingReturned)
  {
    match arg
    case DeleteModel(m) => if m.persisted then (DeleteRow(t, m, KeyName(r)), ModelDeleted) else (t, NothingReturned)
    case DeleteModels(ms) => if |ms| == 0 then (t, NothingReturned) else Destroyed(t, PluckIds(ms))
    case DeleteCollection(ms) => Destroyed(t, PluckIds(ms))
    case DeleteIds(ids) => if |ids| == 0 then (t, NothingReturned) else Destroyed(t, ids)
    case DeleteValue(v) =>
      if v.SInt? then Destroyed(t, [v])
      else if !Truthy(v) then (t, NothingReturned)
      else Destroyed(t, [v])
  }

  /** A collection of models is deleted through their `id` attributes whatever the key
      name: models without an `id` attribute delete nothing. */
  lemma CollectionDeletesById(r: Repo, t: Table, ms: seq<Model>)
    requires forall i :: 0 <= i < |ms| ==> !HasKey(ms[i].attributes, StrK("id"))
    ensures Delete(r, t, DeleteCollection(ms)) == (t, CountDeleted(0))
  {
    var ids := PluckIds(ms);
    assert forall v :: v in ids ==> v == SNull;
    assert forall i :: 0 <= i < |t.rows| ==> !Listed(ids, t.rows[i]);
    UnlistedAll(t.rows, ids);
  }

  lemma {:induction false} UnlistedAll(rows: seq<Row>, ids: seq<Scalar>)
    requires forall i :: 0 <= i < |rows| ==> !Listed(ids, rows[i])
    ensures Unlisted(rows, ids) == rows
    ensures ListedRows(rows, ids) == []
    decreases |rows|
  {
    if |rows| > 0 {
      UnlistedAll(rows[..|rows| - 1], ids);
      assert rows == rows[..|rows| - 1] + [rows[|rows| - 1]];
    }
  }

  // ---------------------------------------------------------------------------------
  // The table stays well formed

  lemma PersistKeepsWellFormed(t: Table, m: Model, keyName: string)
    requires WellFormed(t)
    ensures Persist(t, m, keyName).Some? ==> WellFormed(Persist(t, m, keyName).value.0)
  {
    if m.persisted {
      UpdateRowKeepsWellFormed(t, m, keyName);
    } else if Insert(t, m, keyName).Some? {
      InsertKeepsWellFormed(t, m, keyName);
    }
  }

  lemma CreateKeepsWellFormed(r: Repo, t: Table, attrs: PArr<Scalar>, isAssoc: bool)
    requires WellFormed(t)
    ensures WellFormed(Create(r, t, attrs, isAssoc).table)
  {
    PersistKeepsWellFormed(t, BeforeSaveModel(r.hook, NewInstance(attrs, r.kind)), KeyName(r));
  }

  lemma UpdateKeepsWellFormed(r: Repo, t: Table, id: Scalar, attrs: PArr<Scalar>)
    requires WellFormed(t)
    ensures WellFormed(Update(r, t, id, attrs).table)
  {
  }

  lemma SaveKeepsWellFormed(r: Repo, t: Table, arg: SaveArg)
    requires WellFormed(t)
    ensures WellFormed(Save(r, t, arg).table)
  {
    if arg.SaveModel? {
      PersistKeepsWellFormed(t, BeforeSaveModel(r.hook, arg.m), KeyName(r));
    }
  }

  lemma DeleteKeepsWellFormed(r: Repo, t: Table, del: DeleteArg)
    requires WellFormed(t)
    ensures WellFormed(Delete(r, t, del).0)
  {
    match del
    case DeleteModel(m) => DestroyKeepsWellFormed(t, [SaveKey(m, KeyName(r))]);
    case DeleteModels(ms) => DestroyKeepsWellFormed(t, PluckIds(ms));
    case DeleteCollection(ms) => DestroyKeepsWellFormed(t, PluckIds(ms));
    case DeleteIds(ids) => DestroyKeepsWellFormed(t, ids);
    case DeleteValue(v) => DestroyKeepsWellFormed(t, [v]);
  }

  /** A branch repository stamps what `create` inserts, with the session's branch when
      it holds none; `update` leaves every stamp as it was. */
  lemma BranchStampOnCreate(r: Repo, t: Table, attrs: PArr<Scalar>, session: Scalar)
    requires r.kind == BranchModel && r.hook == BranchHook(Unset, session)
    requires Create(r, t, attrs, true).result.Success?
    ensures Create(r, t, attrs, true).table.rows[|t.rows|].branch == Some(session)
  {
  }
}
