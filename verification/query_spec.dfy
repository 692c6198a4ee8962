/**
 * The query specification a repository accumulates through its builder methods
 * (src/BaseRepositoryEloquent.php): eager-load relations, has-relation constraints,
 * filters, sort, projection, limit and offset.
 *
 * Every setter returns the updated state (the source returns `$this` after mutating
 * it). Nothing resets the state: `Run` applies any sequence of builder calls and
 * `RunNeverForgets` shows that keys, once present, stay, and that a non-zero limit or
 * offset stays non-zero.
 */
module QuerySpec {
  import opened Wrappers
  import opened PhpValues
  import opened PhpArray

  /** The value of an eager-load entry. */
  datatype RelSpec =
    | Name(name: string)              // `relations[] = name`, or any string value
    | Attributes(attrs: seq<string>)  // `relations[name][attributes][] = column`
    | Constraint                      // any other value: a closure, an array without an `attributes` key

  /** The operand of one filter operator: a scalar, or an array of scalars (its values, in order). */
  datatype Operand = One(v: Scalar) | Many(vs: seq<Scalar>)

  /** What a filter attribute maps to: a bare scalar, or an array `operator => operand`. */
  datatype Filter = Bare(v: Scalar) | Ops(ops: PArr<Operand>)

  /** `[$operator, $count]` of a has-relation constraint. */
  datatype HasSpec = HasSpec(op: string, count: int)

  datatype Spec = Spec(
    eagerLoadRelations: PArr<RelSpec>,
    attributes: seq<string>,
    filters: PArr<Filter>,
    sort: PArr<string>,
    limit: int,
    offset: int,
    hasRelations: PArr<HasSpec>)

  /** The state of a freshly constructed repository. */
  const Initial: Spec := Spec([], ["*"], [], [], 0, 0, [])

  /** The argument of `with`: a single relation name, or an array of relations. */
  datatype WithArg = OneRelation(name: string) | Relations(rels: PArr<RelSpec>)

  /** The array `with` merges: a single name is wrapped into a one-element list. */
  function WithList(arg: WithArg): PArr<RelSpec> {
    match arg
    case OneRelation(n) => [(IntK(0), Name(n))]
    case Relations(rs) => rs
  }

  /** `with($relations)`: merges the (wrapped) argument into the eager-load relations. */
  function With(s: Spec, arg: WithArg): (r: Spec)
    ensures forall rel :: Get(r.eagerLoadRelations, StrK(rel)) == (if HasKey(WithList(arg), StrK(rel)) then Get(WithList(arg), StrK(rel)) else Get(s.eagerLoadRelations, StrK(rel)))
    ensures |r.eagerLoadRelations| >= |s.eagerLoadRelations|
    ensures r.(eagerLoadRelations := s.eagerLoadRelations) == s
  {
    var rels := WithList(arg);
    forall rel
      ensures Get(Merge(s.eagerLoadRelations, rels), StrK(rel)) ==
        (if HasKey(rels, StrK(rel)) then Get(rels, StrK(rel)) else Get(s.eagerLoadRelations, StrK(rel)))
    {
      MergeStringKey(s.eagerLoadRelations, rels, rel);
    }
    MergeKeepsPositions(s.eagerLoadRelations, rels);
    s.(eagerLoadRelations := Merge(s.eagerLoadRelations, rels))
  }

  /** `with('name')` appends the name under the next integer key; the relations already
      listed keep their order. */
  lemma WithOneAppends(s: Spec, name: string)
    ensures With(s, OneRelation(name)).eagerLoadRelations ==
      Renumber(s.eagerLoadRelations, 0) + [(IntK(IntCount(s.eagerLoadRelations)), Name(name))]
  {
    MergeSingleton(s.eagerLoadRelations, Name(name));
  }

  /** `has($relation, $operator = '>=', $count = 1)`: assigns the relation's entry. */
  function Has(s: Spec, relation: string, op: string, count: int): (r: Spec)
    ensures Get(r.hasRelations, StrK(relation)) == Some(HasSpec(op, count))
    ensures forall k :: k != StrK(relation) ==> Get(r.hasRelations, k) == Get(s.hasRelations, k)
    ensures HasKey(s.hasRelations, StrK(relation)) ==>
      |r.hasRelations| == |s.hasRelations| && forall i :: 0 <= i < |s.hasRelations| ==> r.hasRelations[i].0 == s.hasRelations[i].0
    ensures r.(hasRelations := s.hasRelations) == s
  {
    var h := Set(s.hasRelations, StrK(relation), HasSpec(op, count));
    GetSet(s.hasRelations, StrK(relation), HasSpec(op, count), StrK(relation));
    forall k | k != StrK(relation)
      ensures Get(h, k) == Get(s.hasRelations, k)
    {
      GetSet(s.hasRelations, StrK(relation), HasSpec(op, count), k);
    }
    s.(hasRelations := h)
  }

  /** `has($relation)` with the default operator and count. */
  function HasDefault(s: Spec, relation: string): (r: Spec)
    ensures Get(r.hasRelations, StrK(relation)) == Some(HasSpec(">=", 1))
  {
    Has(s, relation, ">=", 1)
  }

  /** `hasRelations($hasRelations)`. */
  function HasRelations(s: Spec, rels: PArr<HasSpec>): (r: Spec)
    ensures forall rel :: Get(r.hasRelations, StrK(rel)) == (if HasKey(rels, StrK(rel)) then Get(rels, StrK(rel)) else Get(s.hasRelations, StrK(rel)))
    ensures |r.hasRelations| >= |s.hasRelations|
    ensures forall i :: 0 <= i < |s.hasRelations| && s.hasRelations[i].0.StrK? ==> r.hasRelations[i].0 == s.hasRelations[i].0
    ensures r.(hasRelations := s.hasRelations) == s
  {
    forall rel
      ensures Get(Merge(s.hasRelations, rels), StrK(rel)) ==
        (if HasKey(rels, StrK(rel)) then Get(rels, StrK(rel)) else Get(s.hasRelations, StrK(rel)))
    {
      MergeStringKey(s.hasRelations, rels, rel);
    }
    MergeKeepsPositions(s.hasRelations, rels);
    s.(hasRelations := Merge(s.hasRelations, rels))
  }

  /** `filters($filters)`. */
  function Filters(s: Spec, filters: PArr<Filter>): (r: Spec)
    ensures forall c :: Get(r.filters, StrK(c)) == (if HasKey(filters, StrK(c)) then Get(filters, StrK(c)) else Get(s.filters, StrK(c)))
    ensures |r.filters| >= |s.filters|
    ensures forall i :: 0 <= i < |s.filters| && s.filters[i].0.StrK? ==> r.filters[i].0 == s.filters[i].0
    ensures r.(filters := s.filters) == s
  {
    forall c
      ensures Get(Merge(s.filters, filters), StrK(c)) ==
        (if HasKey(filters, StrK(c)) then Get(filters, StrK(c)) else Get(s.filters, StrK(c)))
    {
      MergeStringKey(s.filters, filters, c);
    }
    MergeKeepsPositions(s.filters, filters);
    s.(filters := Merge(s.filters, filters))
  }

  /** `sort($sort)`. */
  function Sort(s: Spec, sort: PArr<string>): (r: Spec)
    ensures forall c :: Get(r.sort, StrK(c)) == (if HasKey(sort, StrK(c)) then Get(sort, StrK(c)) else Get(s.sort, StrK(c)))
    ensures |r.sort| >= |s.sort|
    ensures forall i :: 0 <= i < |s.sort| && s.sort[i].0.StrK? ==> r.sort[i].0 == s.sort[i].0
    ensures r.(sort := s.sort) == s
  {
    forall c
      ensures Get(Merge(s.sort, sort), StrK(c)) ==
        (if HasKey(sort, StrK(c)) then Get(sort, StrK(c)) else Get(s.sort, StrK(c)))
    {
      MergeStringKey(s.sort, sort, c);
    }
    MergeKeepsPositions(s.sort, sort);
    s.(sort := Merge(s.sort, sort))
  }

  /** `limit($limit)`: a falsy argument leaves the limit as it was. */
  function Limit(s: Spec, n: int): (r: Spec)
    ensures r.limit == (if n != 0 then n else s.limit)
    ensures r.(limit := s.limit) == s
  {
    if n != 0 then s.(limit := n) else s
  }

  /** `offset($offset)`: a falsy argument leaves the offset as it was. */
  function Offset(s: Spec, n: int): (r: Spec)
    ensures r.offset == (if n != 0 then n else s.offset)
    ensures r.(offset := s.offset) == s
  {
    if n != 0 then s.(offset := n) else s
  }

  /** `attributes($attributes)`: replaces the default projection. */
  function SetAttributes(s: Spec, attrs: seq<string>): (r: Spec)
    ensures r.attributes == attrs && r.(attributes := s.attributes) == s
  {
    s.(attributes := attrs)
  }

  /** One builder call. */
  datatype Call =
    | CallWith(arg: WithArg)
    | CallHas(relation: string, op: string, count: int)
    | CallHasRelations(rels: PArr<HasSpec>)
    | CallFilters(filters: PArr<Filter>)
    | CallSort(sort: PArr<string>)
    | CallLimit(n: int)
    | CallOffset(n: int)
    | CallAttributes(attrs: seq<string>)

  function Apply(s: Spec, c: Call): Spec {
    match c
    case CallWith(arg) => With(s, arg)
    case CallHas(rel, op, count) => Has(s, rel, op, count)
    case CallHasRelations(rels) => HasRelations(s, rels)
    case CallFilters(f) => Filters(s, f)
    case CallSort(o) => Sort(s, o)
    case CallLimit(n) => Limit(s, n)
    case CallOffset(n) => Offset(s, n)
    case CallAttributes(a) => SetAttributes(s, a)
  }

  /** A chain of builder calls, applied left to right. */
  function Run(s: Spec, calls: seq<Call>): Spec
    decreases |calls|
  {
    if |calls| == 0 then s else Run(Apply(s, calls[0]), calls[1..])
  }

  /** What the builder state keeps from one call to the next. */
  ghost predicate Keeps(s: Spec, t: Spec) {
    && (forall c :: HasKey(s.filters, StrK(c)) ==> HasKey(t.filters, StrK(c)))
    && (forall c :: HasKey(s.sort, StrK(c)) ==> HasKey(t.sort, StrK(c)))
    && (forall rel :: HasKey(s.hasRelations, StrK(rel)) ==> HasKey(t.hasRelations, StrK(rel)))
    && (forall rel :: HasKey(s.eagerLoadRelations, StrK(rel)) ==> HasKey(t.eagerLoadRelations, StrK(rel)))
    && |t.eagerLoadRelations| >= |s.eagerLoadRelations|
    && (s.limit != 0 ==> t.limit != 0)
    && (s.offset != 0 ==> t.offset != 0)
  }

  lemma ApplyKeeps(s: Spec, c: Call)
    ensures Keeps(s, Apply(s, c))
  {
    var t := Apply(s, c);
    match c
    case CallHas(rel, op, count) =>
      forall r | HasKey(s.hasRelations, StrK(r))
        ensures HasKey(t.hasRelations, StrK(r))
      {
        GetSet(s.hasRelations, StrK(rel), HasSpec(op, count), StrK(r));
      }
    case _ =>
  }

  /** No sequence of builder calls removes a filter, sort or relation key, or resets a
      limit or offset to 0. */
  lemma {:induction false} RunNeverForgets(s: Spec, calls: seq<Call>)
    ensures Keeps(s, Run(s, calls))
    decreases |calls|
  {
    if |calls| > 0 {
      ApplyKeeps(s, calls[0]);
      RunNeverForgets(Apply(s, calls[0]), calls[1..]);
    }
  }

  /** Sorting again on a column already sorted on changes its direction but not its
      priority: it keeps its position among the sort keys. */
  lemma SortKeepsPriority(s: Spec, more: PArr<string>, p: nat)
    requires p < |s.sort| && s.sort[p].0.StrK?
    ensures Sort(s, more).sort[p].0 == s.sort[p].0
    ensures Get(Sort(s, more).sort, s.sort[p].0) ==
      if HasKey(more, s.sort[p].0) then Get(more, s.sort[p].0) else Some(s.sort[p].1)
  {
    MergeKeepsPositions(s.sort, more);
    GetAt(s.sort, p);
  }
}
