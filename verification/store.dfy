/**
 * The Eloquent side of persistence, reduced to what the repository relies on: a model
 * instance with its current and original attributes, and one table of rows with an
 * auto-incrementing integer primary key.
 *
 * `Model::save` inserts a new model (under the integer key it holds, or else the next
 * id the table assigns; a key already taken is the database's duplicate-key error) or
 * writes a persisted model's dirty attributes to its row; `Model::destroy` deletes the rows whose
 * key is listed and counts them. Events, timestamps, mass-assignment guards and
 * relations are not part of the model.
 */
module Store {
  import opened Wrappers
  import opened PhpValues
  import opened PhpArray

  /** Whether the model's class extends `BaseBranchModel`. */
  datatype ModelKind = PlainModel | BranchModel

  /** A model instance. `persisted` is Eloquent's `$exists`; `branch` is the id last
      given to the model's own `setBranchId`. */
  datatype Model = Model(attributes: PArr<Scalar>, original: PArr<Scalar>, persisted: bool, kind: ModelKind, branch: Option<Scalar>)

  /** `newInstance($attributes)`: a new, unsaved model holding the attributes. */
  function NewInstance(attrs: PArr<Scalar>, kind: ModelKind): (m: Model)
    ensures !m.persisted && m.attributes == attrs && m.original == [] && m.kind == kind
  {
    Model(attrs, [], false, kind, None)
  }

  /** `fill($attributes)`: each given attribute is assigned, in order. */
  function Fill(m: Model, attrs: PArr<Scalar>): (r: Model)
    ensures forall k :: Get(r.attributes, k) == if HasKey(attrs, k) then Get(attrs, k) else Get(m.attributes, k)
    ensures r.(attributes := m.attributes) == m
  {
    forall k
      ensures Get(SetAll(m.attributes, attrs), k) == if HasKey(attrs, k) then Get(attrs, k) else Get(m.attributes, k)
    {
      SetAllGet(m.attributes, attrs, k);
    }
    m.(attributes := SetAll(m.attributes, attrs))
  }

  predicate IsNumericScalar(v: Scalar) {
    v.SInt? || (v.SStr? && IsNumericString(v.s))
  }

  /** Two values `getDirty` treats as the same: identical, or numbers with the same
      string form. */
  predicate Equivalent(o: Scalar, v: Scalar) {
    o == v || (IsNumericScalar(o) && IsNumericScalar(v) && ToPhpString(o) == ToPhpString(v))
  }

  /** An attribute value that differs from the original one: absent from the original,
      or not equivalent to it. */
  predicate Changed(original: PArr<Scalar>, e: (Key, Scalar)) {
    match Get(original, e.0)
    case None => true
    case Some(o) => !Equivalent(o, e.1)
  }

  /** The changed entries of `attrs`, in order. */
  function ChangedEntries(attrs: PArr<Scalar>, original: PArr<Scalar>): (d: PArr<Scalar>)
    ensures forall k :: Get(d, k) == if HasKey(attrs, k) && Changed(original, (k, Get(attrs, k).value)) then Get(attrs, k) else None
    decreases |attrs|
  {
    if |attrs| == 0 then []
    else
      var front: PArr<Scalar> := attrs[..|attrs| - 1];
      var e := attrs[|attrs| - 1];
      assert attrs == front + [e];
      var d0 := ChangedEntries(front, original);
      forall k
        ensures HasKey(front, k) ==> Get(attrs, k) == Get(front, k)
        ensures !HasKey(front, k) ==> Get(attrs, k) == (if e.0 == k then Some(e.1) else None)
      {
        GetSnoc(front, e, k);
      }
      if Changed(original, e) then
        assert !HasKey(d0, e.0) by {
          assert !HasKey(front, e.0);
          assert Get(d0, e.0) == None;
        }
        var d: PArr<Scalar> := d0 + [e];
        forall k
          ensures Get(d, k) == if HasKey(attrs, k) && Changed(original, (k, Get(attrs, k).value)) then Get(attrs, k) else None
        {
          GetSnoc(d0, e, k);
        }
        d
      else
        d0
  }

  /** `getDirty()`: the attributes changed since the model was loaded or saved. */
  function Dirty(m: Model): PArr<Scalar> {
    ChangedEntries(m.attributes, m.original)
  }

  /** A stored row. */
  datatype Row = Row(id: int, attributes: PArr<Scalar>, branch: Option<Scalar>)

  /** A table: its rows in insertion order and the next auto-increment value. */
  datatype Table = Table(rows: seq<Row>, next: int)

  /** Keys are unique and below the next auto-increment value. */
  predicate WellFormed(t: Table) {
    && (forall i, j :: 0 <= i < j < |t.rows| ==> t.rows[i].id != t.rows[j].id)
    && (forall i :: 0 <= i < |t.rows| ==> t.rows[i].id < t.next)
  }

  const EmptyTable: Table := Table([], 1)

  /** The row whose key the supplied id matches; null, booleans and non-canonical
      strings match none. */
  function Lookup(rows: seq<Row>, id: Scalar): (r: Option<Row>)
    ensures r.Some? ==> KeyEq(id, r.value.id) && r.value in rows
    ensures r.None? <==> forall i :: 0 <= i < |rows| ==> !KeyEq(id, rows[i].id)
    decreases |rows|
  {
    if |rows| == 0 then None
    else if KeyEq(id, rows[0].id) then Some(rows[0])
    else Lookup(rows[1..], id)
  }

  /** Two ids that match the same keys find the same row. */
  lemma {:induction false} LookupSameKey(rows: seq<Row>, v: Scalar, w: Scalar)
    requires forall k :: KeyEq(v, k) <==> KeyEq(w, k)
    ensures Lookup(rows, v) == Lookup(rows, w)
    decreases |rows|
  {
    if |rows| > 0 {
      LookupSameKey(rows[1..], v, w);
    }
  }

  /** Some row holds the key. */
  predicate Taken(t: Table, k: int) {
    exists i :: 0 <= i < |t.rows| && t.rows[i].id == k
  }

  /** A persisted model loaded from a row: the key column is one of its attributes. */
  function Loaded(row: Row, kind: ModelKind, keyName: string): (m: Model)
    ensures m.persisted && Dirty(m) == [] && m.kind == kind
    ensures m.original == m.attributes && m.branch == row.branch
    ensures Get(m.attributes, StrK(keyName)) == Some(SInt(row.id))
    ensures forall k :: k != StrK(keyName) ==> Get(m.attributes, k) == Get(row.attributes, k)
  {
    var attrs := Set(row.attributes, StrK(keyName), SInt(row.id));
    forall k
      ensures Get(attrs, k) == if k == StrK(keyName) then Some(SInt(row.id)) else Get(row.attributes, k)
    {
      GetSet(row.attributes, StrK(keyName), SInt(row.id), k);
    }
    var m := Model(attrs, attrs, true, kind, row.branch);
    assert forall k :: Get(Dirty(m), k) == None;
    EmptyWhenNoKey(Dirty(m));
    m
  }

  lemma EmptyWhenNoKey(a: PArr<Scalar>)
    requires forall k :: Get(a, k) == None
    ensures a == []
  {
    if |a| > 0 {
      GetAt(a, 0);
    }
  }

  /** `find($id)` / `findOrFail($id)`. */
  function FindModel(t: Table, id: Scalar, kind: ModelKind, keyName: string): (r: Option<Model>)
    ensures r.Some? <==> exists i :: 0 <= i < |t.rows| && KeyEq(id, t.rows[i].id)
    ensures r.Some? ==> r.value == Loaded(Lookup(t.rows, id).value, kind, keyName)
  {
    match Lookup(t.rows, id)
    case None => None
    case Some(row) => Some(Loaded(row, kind, keyName))
  }

  /** One of `ids` matches the row's key. */
  predicate Listed(ids: seq<Scalar>, row: Row) {
    exists v :: v in ids && KeyEq(v, row.id)
  }

  /** The rows `whereIn($key, $ids)` selects, in table order. */
  function ListedRows(rows: seq<Row>, ids: seq<Scalar>): (r: seq<Row>)
    ensures |r| <= |rows|
    ensures forall i :: 0 <= i < |r| ==> Listed(ids, r[i]) && r[i] in rows
    ensures forall i :: 0 <= i < |rows| && Listed(ids, rows[i]) ==> rows[i] in r
    decreases |rows|
  {
    if |rows| == 0 then []
    else
      var rest := ListedRows(rows[..|rows| - 1], ids);
      var last := rows[|rows| - 1];
      assert forall i :: 0 <= i < |rows| - 1 ==> rows[i] == rows[..|rows| - 1][i];
      if Listed(ids, last) then rest + [last] else rest
  }

  /** `whereIn` keeps the table order: selecting from two stretches of rows one after
      the other selects from each in turn. */
  lemma {:induction false} ListedRowsAppend(a: seq<Row>, b: seq<Row>, ids: seq<Scalar>)
    ensures ListedRows(a + b, ids) == ListedRows(a, ids) + ListedRows(b, ids)
    decreases |b|
  {
    if |b| == 0 {
      assert a + b == a;
    } else {
      var front := b[..|b| - 1];
      var x := b[|b| - 1];
      ListedRowsAppend(a, front, ids);
      assert b == front + [x];
      ListedRowsAppendStep(a, front, x, ids);
    }
  }

  lemma ListedRowsAppendStep(a: seq<Row>, front: seq<Row>, x: Row, ids: seq<Scalar>)
    requires ListedRows(a + front, ids) == ListedRows(a, ids) + ListedRows(front, ids)
    ensures ListedRows(a + (front + [x]), ids) == ListedRows(a, ids) + ListedRows(front + [x], ids)
  {
    var tail := if Listed(ids, x) then [x] else [];
    SnocAssoc(a, front, x);
    ListedRowsSnoc(front, x, ids);
    ListedRowsSnoc(a + front, x, ids);
    ConcatAssoc(ListedRows(a, ids), ListedRows(front, ids), tail);
  }

  lemma ListedRowsSnoc(rows: seq<Row>, x: Row, ids: seq<Scalar>)
    ensures ListedRows(rows + [x], ids) == ListedRows(rows, ids) + if Listed(ids, x) then [x] else []
  {
    assert (rows + [x])[..|rows|] == rows;
  }

  /** A single row is selected exactly when an id matches it. */
  lemma ListedRowsOne(x: Row, ids: seq<Scalar>)
    ensures ListedRows([x], ids) == if Listed(ids, x) then [x] else []
  {
    assert [x][..0] == [];
  }

  /** Rows with distinct keys select rows with distinct keys. */
  lemma {:induction false} ListedRowsDistinct(rows: seq<Row>, ids: seq<Scalar>)
    requires forall i, j :: 0 <= i < j < |rows| ==> rows[i].id != rows[j].id
    ensures forall i, j :: 0 <= i < j < |ListedRows(rows, ids)| ==> ListedRows(rows, ids)[i].id != ListedRows(rows, ids)[j].id
    decreases |rows|
  {
    if |rows| > 0 {
      var front := rows[..|rows| - 1];
      var x := rows[|rows| - 1];
      ListedRowsDistinct(front, ids);
      var sel := ListedRows(front, ids);
      assert forall i :: 0 <= i < |front| ==> front[i] == rows[i];
      ListedAvoidsKey(front, x.id, ids);
      assert rows == front + [x];
      ListedRowsSnoc(front, x, ids);
    }
  }

  /** Rows none of which holds key `k` select rows none of which holds it. */
  lemma ListedAvoidsKey(rows: seq<Row>, k: int, ids: seq<Scalar>)
    requires forall i :: 0 <= i < |rows| ==> rows[i].id != k
    ensures forall i :: 0 <= i < |ListedRows(rows, ids)| ==> ListedRows(rows, ids)[i].id != k
  {
    var sel := ListedRows(rows, ids);
    forall i | 0 <= i < |sel|
      ensures sel[i].id != k
    {
      var j :| 0 <= j < |rows| && rows[j] == sel[i];
    }
  }

  lemma ConcatAssoc<T>(a: seq<T>, b: seq<T>, c: seq<T>)
    ensures a + (b + c) == (a + b) + c
  {
  }

  /** `a + (b + [x])` and `(a + b) + [x]` are the same sequence. */
  lemma SnocAssoc<T>(a: seq<T>, b: seq<T>, x: T)
    ensures a + (b + [x]) == (a + b) + [x]
  {
  }

  /** The value the save query looks the row up by: the original key when there is one. */
  function SaveKey(m: Model, keyName: string): Scalar {
    match Get(m.original, StrK(keyName))
    case Some(v) => if v != SNull then v else Get(m.attributes, StrK(keyName)).GetOr(SNull)
    case None => Get(m.attributes, StrK(keyName)).GetOr(SNull)
  }

  /** The model holds an integer under the key name. */
  predicate GivesKey(attrs: PArr<Scalar>, keyName: string) {
    Get(attrs, StrK(keyName)).Some? && Get(attrs, StrK(keyName)).value.SInt?
  }

  /** The key a new model is stored under: the integer it holds under the key name, or
      else the table's next auto-increment value. */
  function NewKey(t: Table, attrs: PArr<Scalar>, keyName: string): (k: int)
    ensures GivesKey(attrs, keyName) ==> Get(attrs, StrK(keyName)) == Some(SInt(k))
    ensures !GivesKey(attrs, keyName) ==> k == t.next
  {
    if GivesKey(attrs, keyName) then Get(attrs, StrK(keyName)).value.n else t.next
  }

  /** The auto-increment value after storing key `k`: past every key stored. */
  function NextAfter(t: Table, k: int): (n: int)
    ensures n >= t.next && n > k && (n == t.next || n == k + 1)
  {
    if k < t.next then t.next else k + 1
  }

  /** Inserting a new model under its key, which the model then holds; a key some row
      already holds is the database's duplicate-key error (`None`). */
  function Insert(t: Table, m: Model, keyName: string): (r: Option<(Table, Model)>)
    ensures r.None? <==> Taken(t, NewKey(t, m.attributes, keyName))
    ensures r.Some? ==>
      var k := NewKey(t, m.attributes, keyName);
      && r.value.0 == Table(t.rows + [Row(k, r.value.1.attributes, m.branch)], NextAfter(t, k))
      && Get(r.value.1.attributes, StrK(keyName)) == Some(SInt(k))
      && (forall a :: a != StrK(keyName) ==> Get(r.value.1.attributes, a) == Get(m.attributes, a))
      && r.value.1.persisted && r.value.1.original == r.value.1.attributes
      && r.value.1.kind == m.kind && r.value.1.branch == m.branch
  {
    var k := NewKey(t, m.attributes, keyName);
    if Taken(t, k) then None
    else
      var attrs := Set(m.attributes, StrK(keyName), SInt(k));
      forall a
        ensures Get(attrs, a) == if a == StrK(keyName) then Some(SInt(k)) else Get(m.attributes, a)
      {
        GetSet(m.attributes, StrK(keyName), SInt(k), a);
      }
      Some((Table(t.rows + [Row(k, attrs, m.branch)], NextAfter(t, k)),
            m.(attributes := attrs, original := attrs, persisted := true)))
  }

  /** Saving a persisted model: its dirty attributes are written to its row. */
  function UpdateRow(t: Table, m: Model, keyName: string): (r: (Table, Model))
    ensures |r.0.rows| == |t.rows| && r.0.next == t.next
    ensures forall i :: 0 <= i < |t.rows| ==> r.0.rows[i].id == t.rows[i].id
    ensures forall i :: 0 <= i < |t.rows| && !KeyEq(SaveKey(m, keyName), t.rows[i].id) ==> r.0.rows[i] == t.rows[i]
    ensures forall i :: 0 <= i < |t.rows| && KeyEq(SaveKey(m, keyName), t.rows[i].id) ==>
      r.0.rows[i] == Row(t.rows[i].id, SetAll(t.rows[i].attributes, Dirty(m)), m.branch)
    ensures r.1 == m.(original := m.attributes)
  {
    var key := SaveKey(m, keyName);
    var dirty := Dirty(m);
    var rows := seq(|t.rows|, i requires 0 <= i < |t.rows| =>
      if KeyEq(key, t.rows[i].id) then Row(t.rows[i].id, SetAll(t.rows[i].attributes, dirty), m.branch) else t.rows[i]);
    (Table(rows, t.next), m.(original := m.attributes))
  }

  /** `$model->save()`: `None` when the insert hits a key already taken. */
  function Persist(t: Table, m: Model, keyName: string): (r: Option<(Table, Model)>)
    ensures m.persisted ==> r == Some(UpdateRow(t, m, keyName))
    ensures !m.persisted ==> r == Insert(t, m, keyName)
    ensures r.Some? ==> r.value.1.persisted
  {
    if m.persisted then Some(UpdateRow(t, m, keyName)) else Insert(t, m, keyName)
  }

  /** The rows none of `ids` matches. */
  function Unlisted(rows: seq<Row>, ids: seq<Scalar>): (r: seq<Row>)
    ensures |r| <= |rows|
    ensures forall i :: 0 <= i < |r| ==> !Listed(ids, r[i]) && r[i] in rows
    ensures forall i :: 0 <= i < |rows| && !Listed(ids, rows[i]) ==> rows[i] in r
    decreases |rows|
  {
    if |rows| == 0 then []
    else
      var rest := Unlisted(rows[..|rows| - 1], ids);
      var last := rows[|rows| - 1];
      assert forall i :: 0 <= i < |rows| - 1 ==> rows[i] == rows[..|rows| - 1][i];
      if Listed(ids, last) then rest else rest + [last]
  }

  /** `Model::destroy($ids)`: deletes the listed rows and returns how many there were. */
  function Destroy(t: Table, ids: seq<Scalar>): (r: (Table, nat))
    ensures r.0 == Table(Unlisted(t.rows, ids), t.next)
    ensures r.1 == |t.rows| - |r.0.rows|
  {
    var kept := Unlisted(t.rows, ids);
    (Table(kept, t.next), |t.rows| - |kept|)
  }

  /** Deleting one persisted model's row. */
  function DeleteRow(t: Table, m: Model, keyName: string): (r: Table)
    ensures r == Table(Unlisted(t.rows, [SaveKey(m, keyName)]), t.next)
  {
    Table(Unlisted(t.rows, [SaveKey(m, keyName)]), t.next)
  }

  // ---------------------------------------------------------------------------------
  // The table stays well formed

  /** In a well-formed table a model that gives no key of its own is always inserted. */
  lemma AutoKeyFree(t: Table, m: Model, keyName: string)
    requires WellFormed(t) && !GivesKey(m.attributes, keyName)
    ensures Insert(t, m, keyName).Some?
  {
  }

  /** An insert keeps the table well formed, and the new row is found under its key. */
  lemma InsertKeepsWellFormed(t: Table, m: Model, keyName: string)
    requires WellFormed(t) && Insert(t, m, keyName).Some?
    ensures WellFormed(Insert(t, m, keyName).value.0)
    ensures var k := NewKey(t, m.attributes, keyName);
      Lookup(Insert(t, m, keyName).value.0.rows, SInt(k)) == Some(Row(k, Insert(t, m, keyName).value.1.attributes, m.branch))
  {
    var rows := Insert(t, m, keyName).value.0.rows;
    assert forall i :: 0 <= i < |t.rows| ==> rows[i] == t.rows[i];
    LookupLast(t.rows, rows[|rows| - 1]);
  }

  lemma {:induction false} LookupLast(rows: seq<Row>, row: Row)
    requires forall i :: 0 <= i < |rows| ==> rows[i].id != row.id
    ensures Lookup(rows + [row], SInt(row.id)) == Some(row)
    decreases |rows|
  {
    if |rows| > 0 {
      assert (rows + [row])[1..] == rows[1..] + [row];
      LookupLast(rows[1..], row);
    }
  }

  lemma UpdateRowKeepsWellFormed(t: Table, m: Model, keyName: string)
    requires WellFormed(t)
    ensures WellFormed(UpdateRow(t, m, keyName).0)
  {
  }

  lemma {:induction false} UnlistedKeepsOrder(rows: seq<Row>, ids: seq<Scalar>, bound: int)
    requires forall i, j :: 0 <= i < j < |rows| ==> rows[i].id != rows[j].id
    requires forall i :: 0 <= i < |rows| ==> rows[i].id < bound
    ensures forall i, j :: 0 <= i < j < |Unlisted(rows, ids)| ==> Unlisted(rows, ids)[i].id != Unlisted(rows, ids)[j].id
    ensures forall i :: 0 <= i < |Unlisted(rows, ids)| ==> Unlisted(rows, ids)[i].id < bound
    decreases |rows|
  {
    if |rows| > 0 {
      var front := rows[..|rows| - 1];
      UnlistedKeepsOrder(front, ids, bound);
      var rest := Unlisted(front, ids);
      forall i | 0 <= i < |rest|
        ensures rest[i].id != rows[|rows| - 1].id
      {
        var j :| 0 <= j < |front| && front[j] == rest[i];
        assert rows[j] == front[j];
      }
    }
  }

  lemma DestroyKeepsWellFormed(t: Table, ids: seq<Scalar>)
    requires WellFormed(t)
    ensures WellFormed(Destroy(t, ids).0)
  {
    UnlistedKeepsOrder(t.rows, ids, t.next);
  }

  /** `destroy` deletes exactly the rows it selects: the rows kept and the rows
      selected split the table, so the count is the number of rows selected. */
  lemma {:induction false} DestroyCountsListed(rows: seq<Row>, ids: seq<Scalar>)
    ensures |Unlisted(rows, ids)| + |ListedRows(rows, ids)| == |rows|
    decreases |rows|
  {
    if |rows| > 0 {
      DestroyCountsListed(rows[..|rows| - 1], ids);
    }
  }
}
