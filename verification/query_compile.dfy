/**
 * Compilation of a query specification into the list of builder instructions
 * `prepareQuery` issues (src/BaseRepositoryEloquent.php): eager loads first, then the
 * has-relation constraints, the filters, the sort keys and finally take/skip.
 *
 * The Eloquent builder itself is not modelled; an instruction records the call made on
 * it, with its arguments.
 */
module QueryCompile {
  import opened Wrappers
  import opened PhpValues
  import opened PhpArray
  import opened QuerySpec

  // ---------------------------------------------------------------------------------
  // Eager loads

  /** An entry of the array handed to the model's `with`: a relation (an integer-keyed
      value), or, under the relation's name, a closure selecting the given columns. */
  datatype EagerLoad = Load(relation: RelSpec) | Select(attrs: seq<string>)

  /** An error raised while compiling: PHP's illegal offset (an array used as an array
      key), or the builder's "Value must be provided." for a null compared with an
      operator other than `=`. */
  datatype QueryError = IllegalOffset | ValueRequired

  /** What one entry of `eagerLoadRelations` contributes. An `attributes` entry under a
      string key becomes a closure under that key; an integer-keyed entry is pushed as
      it is; any other string-keyed entry is pushed as its key (its value is dropped). */
  function EagerStep(acc: PArr<EagerLoad>, e: (Key, RelSpec)): Result<PArr<EagerLoad>, QueryError> {
    if e.1.Attributes? then
      if e.0.IntK? then Failure(IllegalOffset) else Success(Set(acc, e.0, Select(e.1.attrs)))
    else
      Success(Push(acc, Load(if e.0.IntK? then e.1 else Name(e.0.s))))
  }

  /** The loop of `eagerLoadRelations`, over the first entries of the relations. */
  function EagerLoads(rels: seq<(Key, RelSpec)>): Result<PArr<EagerLoad>, QueryError>
    decreases |rels|
  {
    if |rels| == 0 then Success([])
    else
      var acc :- EagerLoads(rels[..|rels| - 1]);
      EagerStep(acc, rels[|rels| - 1])
  }

  /** An integer-keyed `attributes` entry: its relation name would be the array itself. */
  predicate IllegalEntry(e: (Key, RelSpec)) {
    e.0.IntK? && e.1.Attributes?
  }

  /** The reference meaning of one entry, independent of the loop. */
  function EntryLoad(e: (Key, RelSpec)): EagerLoad {
    match e.1
    case Attributes(attrs) => Select(attrs)
    case _ => if e.0.IntK? then Load(e.1) else Load(Name(e.0.s))
  }

  /** Compilation fails exactly when some entry is illegal; otherwise the entries come
      out in order, one for one, with `EntryLoad`'s meaning, and only closures keep a
      string key (their relation's name). */
  lemma {:induction false} EagerLoadsMeaning(rels: PArr<RelSpec>)
    ensures EagerLoads(rels).Success? <==> forall i :: 0 <= i < |rels| ==> !IllegalEntry(rels[i])
    ensures EagerLoads(rels).Success? ==>
      var out := EagerLoads(rels).value;
      && |out| == |rels|
      && forall i :: 0 <= i < |rels| ==>
           && out[i].1 == EntryLoad(rels[i])
           && (out[i].0.StrK? <==> rels[i].1.Attributes?)
           && (out[i].0.StrK? ==> out[i].0 == rels[i].0)
    decreases |rels|
  {
    if |rels| > 0 {
      var n := |rels| - 1;
      var front: PArr<RelSpec> := rels[..n];
      var e := rels[n];
      EagerLoadsMeaning(front);
      if EagerLoads(front).Success? {
        var acc := EagerLoads(front).value;
        if !IllegalEntry(e) {
          var out := EagerLoads(rels).value;
          if e.1.Attributes? {
            forall j | 0 <= j < |acc|
              ensures acc[j].0 != e.0
            {
              assert front[j] == rels[j];
            }
            assert out == acc + [(e.0, Select(e.1.attrs))];
          } else {
            assert out == acc + [(IntK(NextIndex(acc)), Load(if e.0.IntK? then e.1 else Name(e.0.s)))];
          }
          forall i | 0 <= i < |rels|
            ensures out[i].1 == EntryLoad(rels[i])
            ensures out[i].0.StrK? <==> rels[i].1.Attributes?
            ensures out[i].0.StrK? ==> out[i].0 == rels[i].0
          {
            if i < n {
              assert rels[i] == front[i];
            }
          }
        } else {
          assert !(forall i :: 0 <= i < |rels| ==> !IllegalEntry(rels[i]));
        }
      } else {
        var i :| 0 <= i < |front| && IllegalEntry(front[i]);
        assert IllegalEntry(rels[i]);
      }
    }
  }

  /** The kind of relation the eager-load closure receives. */
  datatype RelationKind = HasOneOrMany(foreignKey: string) | OtherRelation

  /** The columns the closure of an `attributes` entry selects: for a has-one or
      has-many relation, the parent's foreign key is appended when it is absent. */
  function SelectedColumns(attrs: seq<string>, kind: RelationKind): (cols: seq<string>)
    ensures |attrs| <= |cols| <= |attrs| + 1 && cols[..|attrs|] == attrs
    ensures forall c :: c in cols <==> c in attrs || (kind.HasOneOrMany? && c == kind.foreignKey)
    ensures |cols| == |attrs| + 1 <==> kind.HasOneOrMany? && kind.foreignKey !in attrs
  {
    if kind.HasOneOrMany? && kind.foreignKey !in attrs then attrs + [kind.foreignKey] else attrs
  }

  // ---------------------------------------------------------------------------------
  // Instructions

  /** One call on the Eloquent builder. */
  datatype Instr =
    | Eager(loads: PArr<EagerLoad>)
    | WhereHas(relation: Key, op: string, count: int)
    | WhereIn(column: Key, values: seq<Scalar>)
    | WhereNotIn(column: Key, values: seq<Scalar>)
    | WhereNull(column: Key)
    | WhereNotNull(column: Key)
    | WhereOp(column: Key, op: string, value: Scalar)
    | OrderBy(column: Key, direction: string)
    | Take(n: int)
    | Skip(n: int)
    | WhereSearch(columns: seq<string>, input: string)  // `whereRaw(SearchSql(columns, input))`
    | WhereAll(attrs: PArr<Scalar>)

  predicate IsFilter(i: Instr) {
    i.WhereIn? || i.WhereNotIn? || i.WhereNull? || i.WhereNotNull? || i.WhereOp?
  }

  /** The stage of `prepareQuery` an instruction belongs to. */
  function Phase(i: Instr): nat {
    if i.Eager? then 0
    else if i.WhereHas? then 1
    else if IsFilter(i) then 2
    else if i.OrderBy? then 3
    else if i.Take? || i.Skip? then 4
    else 5
  }

  // ---------------------------------------------------------------------------------
  // Has relations

  /** `queryHasRelations`: one `has` call per entry, in order. */
  function HasInstrs(h: seq<(Key, HasSpec)>): (r: seq<Instr>)
    ensures |r| == |h|
    ensures forall i :: 0 <= i < |h| ==> r[i] == WhereHas(h[i].0, h[i].1.op, h[i].1.count)
    decreases |h|
  {
    if |h| == 0 then [] else HasInstrs(h[..|h| - 1]) + [WhereHas(h[|h| - 1].0, h[|h| - 1].1.op, h[|h| - 1].1.count)]
  }

  // ---------------------------------------------------------------------------------
  // Filters

  /** `replaceOperatorAlias`. */
  function ReplaceOperatorAlias(op: string): (r: string)
    ensures op == "e" ==> r == "equals"
    ensures op == "ne" ==> r == "not_equals"
    ensures op == "n" ==> r == "null"
    ensures op == "nn" ==> r == "not_null"
    ensures op != "e" && op != "ne" && op != "n" && op != "nn" ==> r == op
  {
    if op == "e" then "equals"
    else if op == "ne" then "not_equals"
    else if op == "n" then "null"
    else if op == "nn" then "not_null"
    else op
  }

  /** Replacing aliases twice is replacing them once: no alias maps to another alias. */
  lemma AliasIdempotent(op: string)
    ensures ReplaceOperatorAlias(ReplaceOperatorAlias(op)) == ReplaceOperatorAlias(op)
  {
  }

  /** The operator of a filter entry: a numeric key means `equals`. */
  function OperatorOf(k: Key): (op: string)
    ensures k.IntK? ==> op == "equals"
    ensures k.StrK? && !IsNumericString(k.s) ==> op == ReplaceOperatorAlias(k.s)
  {
    if IsNumericKey(k) then "equals" else ReplaceOperatorAlias(k.s)
  }

  /** The values of an operand: a non-array operand becomes a one-element list. */
  function Values(o: Operand): (vs: seq<Scalar>)
    ensures o.One? ==> vs == [o.v]
  {
    match o
    case One(v) => [v]
    case Many(vs) => vs
  }

  /** PHP's `head`: the first value, or false for an empty array. */
  function Head(vs: seq<Scalar>): (h: Scalar)
    ensures |vs| > 0 ==> h == vs[0]
    ensures |vs| == 0 ==> h == SBool(false)
  {
    if |vs| == 0 then SBool(false) else vs[0]
  }

  /** The builder call for one (attribute, operator) pair. */
  function FilterInstr(column: Key, op: Key, o: Operand): (i: Instr)
    ensures IsFilter(i) && i.column == column
    ensures OperatorOf(op) == "equals" ==> i == WhereIn(column, Values(o))
    ensures OperatorOf(op) == "not_equals" ==> i == WhereNotIn(column, Values(o))
    ensures OperatorOf(op) == "null" ==> i == WhereNull(column)
    ensures OperatorOf(op) == "not_null" ==> i == WhereNotNull(column)
    ensures OperatorOf(op) !in {"equals", "not_equals", "null", "not_null"} ==>
      i == WhereOp(column, OperatorOf(op), Head(Values(o)))
  {
    var name := OperatorOf(op);
    if name == "equals" then WhereIn(column, Values(o))
    else if name == "not_equals" then WhereNotIn(column, Values(o))
    else if name == "null" then WhereNull(column)
    else if name == "not_null" then WhereNotNull(column)
    else WhereOp(column, name, Head(Values(o)))
  }

  /** The operator array of a filter: a non-array filter is wrapped under key 0. */
  function FilterOps(f: Filter): (ops: PArr<Operand>)
    ensures f.Bare? ==> ops == [(IntK(0), One(f.v))]
  {
    match f
    case Bare(v) => [(IntK(0), One(v))]
    case Ops(ops) => ops
  }

  /** The calls for one attribute's operators, in order. */
  function OpInstrs(column: Key, ops: seq<(Key, Operand)>): (r: seq<Instr>)
    ensures |r| == |ops|
    ensures forall j :: 0 <= j < |ops| ==> r[j] == FilterInstr(column, ops[j].0, ops[j].1)
    decreases |ops|
  {
    if |ops| == 0 then []
    else
      var front := OpInstrs(column, ops[..|ops| - 1]);
      var last := FilterInstr(column, ops[|ops| - 1].0, ops[|ops| - 1].1);
      MapSnoc(ops, front, last, (o: (Key, Operand)) => FilterInstr(column, o.0, o.1));
      front + [last]
  }

  /** Appending the image of the last element extends an elementwise image. */
  lemma MapSnoc<A, B>(xs: seq<A>, front: seq<B>, last: B, f: A -> B)
    requires |xs| > 0 && |front| == |xs| - 1 && last == f(xs[|xs| - 1])
    requires forall j :: 0 <= j < |xs| - 1 ==> front[j] == f(xs[j])
    ensures forall j :: 0 <= j < |xs| ==> (front + [last])[j] == f(xs[j])
  {
  }

  /** `queryFilters`: the calls for every attribute, in map order. */
  function FilterInstrs(filters: seq<(Key, Filter)>): (r: seq<Instr>)
    ensures forall i :: 0 <= i < |r| ==> IsFilter(r[i])
    decreases |filters|
  {
    if |filters| == 0 then []
    else
      var last := filters[|filters| - 1];
      FilterInstrs(filters[..|filters| - 1]) + OpInstrs(last.0, FilterOps(last.1))
  }

  /** The comparison operators the Laravel 4.2 query builder knows. */
  const BuilderOperators: set<string> :=
    {"=", "<", ">", "<=", ">=", "<>", "!=", "like", "not like", "between", "ilike",
     "&", "|", "^", "<<", ">>", "rlike", "regexp", "not regexp"}

  /** The pair reaches `where($key, $operator, null)` with a known operator other than
      `=`, which the builder refuses; `=` with null is the builder's `whereNull`. */
  predicate RejectsNull(op: Key, o: Operand) {
    var name := OperatorOf(op);
    && name !in {"equals", "not_equals", "null", "not_null"}
    && name in BuilderOperators && name != "=" && Head(Values(o)) == SNull
  }

  /** Some (attribute, operator) pair of the filters is refused by the builder. */
  predicate FiltersRejectNull(filters: seq<(Key, Filter)>) {
    exists i, j :: 0 <= i < |filters| && 0 <= j < |FilterOps(filters[i].1)| &&
      RejectsNull(FilterOps(filters[i].1)[j].0, FilterOps(filters[i].1)[j].1)
  }

  /** A refused pair is one the filter stage hands to `where` with a null value. */
  lemma RefusedPairIsWhere(column: Key, op: Key, o: Operand)
    requires RejectsNull(op, o)
    ensures FilterInstr(column, op, o) == WhereOp(column, OperatorOf(op), SNull)
  {
  }

  /** A bare filter value is an equality test against that one value. */
  lemma BareIsEquality(column: Key, v: Scalar)
    ensures FilterInstrs([(column, Bare(v))]) == [WhereIn(column, [v])]
  {
    assert [(column, Bare(v))][..0] == [];
  }

  // ---------------------------------------------------------------------------------
  // Sort, limit and offset

  /** `querySort`: one `orderBy` per key, in insertion order. */
  function SortInstrs(sort: seq<(Key, string)>): (r: seq<Instr>)
    ensures |r| == |sort|
    ensures forall i :: 0 <= i < |sort| ==> r[i] == OrderBy(sort[i].0, sort[i].1)
    decreases |sort|
  {
    if |sort| == 0 then [] else SortInstrs(sort[..|sort| - 1]) + [OrderBy(sort[|sort| - 1].0, sort[|sort| - 1].1)]
  }

  /** `queryLimitOffset`: take and skip only when there is a limit. */
  function LimitInstrs(limit: int, offset: int): (r: seq<Instr>)
    ensures limit == 0 ==> r == []
    ensures limit != 0 ==> r == [Take(limit), Skip(offset)]
  {
    if limit != 0 then [Take(limit), Skip(offset)] else []
  }

  // ---------------------------------------------------------------------------------
  // prepareQuery

  /** `prepareQuery`. */
  function Prepare(s: Spec): Result<seq<Instr>, QueryError> {
    var loads :- EagerLoads(s.eagerLoadRelations);
    if FiltersRejectNull(s.filters) then Failure(ValueRequired)
    else Success([Eager(loads)] + HasInstrs(s.hasRelations) + FilterInstrs(s.filters)
            + SortInstrs(s.sort) + LimitInstrs(s.limit, s.offset))
  }

  /** Number of instructions of a given phase. */
  function CountPhase(ins: seq<Instr>, p: nat): nat
    decreases |ins|
  {
    if |ins| == 0 then 0 else CountPhase(ins[..|ins| - 1], p) + (if Phase(ins[|ins| - 1]) == p then 1 else 0)
  }

  lemma {:induction false} CountPhaseAppend(x: seq<Instr>, y: seq<Instr>, p: nat)
    ensures CountPhase(x + y, p) == CountPhase(x, p) + CountPhase(y, p)
    decreases |y|
  {
    if |y| == 0 {
      assert x + y == x;
    } else {
      assert (x + y)[..|x + y| - 1] == x + y[..|y| - 1];
      CountPhaseAppend(x, y[..|y| - 1], p);
    }
  }

  lemma {:induction false} CountPhaseUniform(x: seq<Instr>, q: nat, p: nat)
    requires forall i :: 0 <= i < |x| ==> Phase(x[i]) == q
    ensures CountPhase(x, p) == if p == q then |x| else 0
    decreases |x|
  {
    if |x| > 0 {
      CountPhaseUniform(x[..|x| - 1], q, p);
    }
  }

  /** The phases of `ins` never decrease. */
  ghost predicate InPhaseOrder(ins: seq<Instr>) {
    forall i, j :: 0 <= i < j < |ins| ==> Phase(ins[i]) <= Phase(ins[j])
  }

  /** Appending a block of phase `q` after instructions of phases at most `q` keeps the
      phase order. */
  lemma AppendBlock(x: seq<Instr>, y: seq<Instr>, q: nat)
    requires InPhaseOrder(x) && forall i :: 0 <= i < |x| ==> Phase(x[i]) <= q
    requires forall i :: 0 <= i < |y| ==> Phase(y[i]) == q
    ensures InPhaseOrder(x + y) && forall i :: 0 <= i < |x + y| ==> Phase((x + y)[i]) <= q
  {
    forall i, j | 0 <= i < j < |x + y|
      ensures Phase((x + y)[i]) <= Phase((x + y)[j])
    {
      if j >= |x| {
        assert (x + y)[j] == y[j - |x|];
        if i >= |x| {
          assert (x + y)[i] == y[i - |x|];
        }
      }
    }
  }

  /** The blocks of a compiled query, each of one phase. */
  ghost predicate PhaseBlocks(e: seq<Instr>, h: seq<Instr>, f: seq<Instr>, o: seq<Instr>, l: seq<Instr>) {
    && (forall i :: 0 <= i < |e| ==> Phase(e[i]) == 0)
    && (forall i :: 0 <= i < |h| ==> Phase(h[i]) == 1)
    && (forall i :: 0 <= i < |f| ==> Phase(f[i]) == 2)
    && (forall i :: 0 <= i < |o| ==> Phase(o[i]) == 3)
    && (forall i :: 0 <= i < |l| ==> Phase(l[i]) == 4)
  }

  lemma SplitPrepared(s: Spec) returns (e: seq<Instr>, h: seq<Instr>, f: seq<Instr>, o: seq<Instr>, l: seq<Instr>)
    requires Prepare(s).Success?
    ensures Prepare(s).value == e + h + f + o + l && PhaseBlocks(e, h, f, o, l)
    ensures |e| == 1 && e[0].Eager? && |h| == |s.hasRelations| && |o| == |s.sort|
    ensures f == FilterInstrs(s.filters) && o == SortInstrs(s.sort) && l == LimitInstrs(s.limit, s.offset)
  {
    e := [Eager(EagerLoads(s.eagerLoadRelations).value)];
    h := HasInstrs(s.hasRelations);
    f := FilterInstrs(s.filters);
    o := SortInstrs(s.sort);
    l := LimitInstrs(s.limit, s.offset);
    HasPhase(s.hasRelations);
    FilterPhase(s.filters);
    SortPhase(s.sort);
    LimitPhase(s.limit, s.offset);
  }

  lemma HasPhase(hs: seq<(Key, HasSpec)>)
    ensures forall i :: 0 <= i < |HasInstrs(hs)| ==> Phase(HasInstrs(hs)[i]) == 1
  {
  }

  lemma FilterPhase(filters: seq<(Key, Filter)>)
    ensures forall i :: 0 <= i < |FilterInstrs(filters)| ==> Phase(FilterInstrs(filters)[i]) == 2
  {
    var r := FilterInstrs(filters);
    forall i | 0 <= i < |r|
      ensures Phase(r[i]) == 2
    {
      assert IsFilter(r[i]);
    }
  }

  lemma SortPhase(sort: seq<(Key, string)>)
    ensures forall i :: 0 <= i < |SortInstrs(sort)| ==> Phase(SortInstrs(sort)[i]) == 3
  {
  }

  lemma LimitPhase(limit: int, offset: int)
    ensures forall i :: 0 <= i < |LimitInstrs(limit, offset)| ==> Phase(LimitInstrs(limit, offset)[i]) == 4
  {
  }

  lemma BlocksInOrder(e: seq<Instr>, h: seq<Instr>, f: seq<Instr>, o: seq<Instr>, l: seq<Instr>)
    requires PhaseBlocks(e, h, f, o, l)
    ensures InPhaseOrder(e + h + f + o + l)
  {
    AppendBlock(e, h, 1);
    AppendBlock(e + h, f, 2);
    AppendBlock(e + h + f, o, 3);
    AppendBlock(e + h + f + o, l, 4);
  }

  /** `prepareQuery` fails only when eager loading does or the builder refuses a null
      filter value, and issues the eager load, the has-relations, the filters, the sort
      keys and take/skip in that order. */
  lemma PrepareOrder(s: Spec)
    ensures Prepare(s).Success? <==> EagerLoads(s.eagerLoadRelations).Success? && !FiltersRejectNull(s.filters)
    ensures EagerLoads(s.eagerLoadRelations).Success? && FiltersRejectNull(s.filters) ==> Prepare(s) == Failure(ValueRequired)
    ensures Prepare(s).Success? ==> Prepare(s).value[0].Eager? && InPhaseOrder(Prepare(s).value)
  {
    if Prepare(s).Success? {
      var e, h, f, o, l := SplitPrepared(s);
      BlocksInOrder(e, h, f, o, l);
    }
  }

  lemma CountBlocks(e: seq<Instr>, h: seq<Instr>, f: seq<Instr>, o: seq<Instr>, l: seq<Instr>, p: nat)
    requires PhaseBlocks(e, h, f, o, l)
    requires p != 2
    ensures CountPhase(e + h + f + o + l, p) ==
      (if p == 0 then |e| else 0) + (if p == 1 then |h| else 0) + (if p == 3 then |o| else 0) + (if p == 4 then |l| else 0)
  {
    CountPhaseAppend(e + h + f + o, l, p);
    CountPhaseAppend(e + h + f, o, p);
    CountPhaseAppend(e + h, f, p);
    CountPhaseAppend(e, h, p);
    CountPhaseUniform(e, 0, p);
    CountPhaseUniform(h, 1, p);
    CountPhaseUniform(f, 2, p);
    CountPhaseUniform(o, 3, p);
    CountPhaseUniform(l, 4, p);
  }

  /** A compiled query holds one eager load, one instruction per has-relation and per
      sort key, take and skip exactly when a limit is set, and nothing else besides
      the filters. */
  lemma PrepareCounts(s: Spec)
    requires Prepare(s).Success?
    ensures CountPhase(Prepare(s).value, 0) == 1
    ensures CountPhase(Prepare(s).value, 1) == |s.hasRelations|
    ensures CountPhase(Prepare(s).value, 3) == |s.sort|
    ensures CountPhase(Prepare(s).value, 4) == (if s.limit != 0 then 2 else 0)
    ensures CountPhase(Prepare(s).value, 5) == 0
  {
    var e, h, f, o, l := SplitPrepared(s);
    CountBlocks(e, h, f, o, l, 0);
    CountBlocks(e, h, f, o, l, 1);
    CountBlocks(e, h, f, o, l, 3);
    CountBlocks(e, h, f, o, l, 4);
    CountBlocks(e, h, f, o, l, 5);
  }

  /** Without a limit, no take or skip is issued, whatever the offset. */
  lemma OffsetIgnoredWithoutLimit(s: Spec)
    requires s.limit == 0 && Prepare(s).Success?
    ensures forall i :: 0 <= i < |Prepare(s).value| ==> !Prepare(s).value[i].Skip? && !Prepare(s).value[i].Take?
  {
    var e, h, f, o, l := SplitPrepared(s);
    NoTakeBeforeLimit(e, h, f, o, l);
  }

  lemma NoTakeBeforeLimit(e: seq<Instr>, h: seq<Instr>, f: seq<Instr>, o: seq<Instr>, l: seq<Instr>)
    requires PhaseBlocks(e, h, f, o, l) && l == []
    ensures forall i :: 0 <= i < |e + h + f + o + l| ==> !(e + h + f + o + l)[i].Skip? && !(e + h + f + o + l)[i].Take?
  {
    assert e + h + f + o + l == e + h + f + o;
    AppendBlock(e, h, 1);
    AppendBlock(e + h, f, 2);
    AppendBlock(e + h + f, o, 3);
  }

  // ---------------------------------------------------------------------------------
  // finalAttributes

  /** `finalAttributes`: an empty list or `['*']` selects the default attributes;
      any other list is used as given. */
  function FinalAttributes(s: Spec, attrs: seq<string>): (r: seq<string>)
    ensures r == if attrs == [] || attrs == ["*"] then s.attributes else attrs
  {
    var a := if attrs == [] then ["*"] else attrs;
    if a == ["*"] && s.attributes != ["*"] then s.attributes else a
  }
}
