/**
 * The read methods of the repository (src/BaseRepositoryEloquent.php). A read is a
 * plan: the builder instructions issued before the terminal call, and that call.
 *
 * Only `get`, `query`, `paginate` and `search` compile the whole query specification;
 * `all`, `find`, `findWhere`, `findOrNew`, `findOrFail`, `first`, `firstOrCreate` and
 * `firstOrNew` issue the eager load alone (`OnlyEagerLoads`), so they ignore the
 * filters, sort, limit, offset and default attributes.
 */
module Reads {
  import opened Wrappers
  import opened PhpValues
  import opened PhpArray
  import opened QuerySpec
  import opened QueryCompile
  import opened Search

  /** The call that ends a read. */
  datatype Terminal =
    | FetchAll(columns: seq<string>)                 // get($columns)
    | FetchFind(id: Scalar, columns: seq<string>)    // find
    | FetchFindOrNew(id: Scalar, columns: seq<string>)
    | FetchFindOrFail(id: Scalar, columns: seq<string>)
    | FetchFirst                                     // first()
    | FetchFirstOrCreate(attrs: PArr<Scalar>)
    | FetchFirstOrNew(attrs: PArr<Scalar>)

  datatype Plan = Plan(instrs: seq<Instr>, terminal: Terminal)

  /** The eager load alone: what `eagerLoadRelations()` returns. */
  function EagerOnly(s: Spec): Result<seq<Instr>, QueryError> {
    var loads :- EagerLoads(s.eagerLoadRelations);
    Success([Eager(loads)])
  }

  /** `query()`. */
  function Query(s: Spec): Result<seq<Instr>, QueryError> {
    Prepare(s)
  }

  /** `get($attributes)`. */
  function GetRead(s: Spec, attrs: seq<string>): (r: Result<Plan, QueryError>)
    ensures r.Success? <==> Prepare(s).Success?
    ensures r.Success? ==> r.value.instrs == Prepare(s).value
    ensures r.Success? ==> r.value.terminal == FetchAll(if attrs == [] || attrs == ["*"] then s.attributes else attrs)
  {
    var ins :- Query(s);
    Success(Plan(ins, FetchAll(FinalAttributes(s, attrs))))
  }

  /** `all($attributes)`: the columns are used as given. */
  function All(s: Spec, attrs: seq<string>): Result<Plan, QueryError> {
    var ins :- EagerOnly(s);
    Success(Plan(ins, FetchAll(attrs)))
  }

  function Find(s: Spec, id: Scalar, attrs: seq<string>): Result<Plan, QueryError> {
    var ins :- EagerOnly(s);
    Success(Plan(ins, FetchFind(id, attrs)))
  }

  /** `findWhere($where, $attributes)`: the where-array is the only constraint. */
  function FindWhere(s: Spec, where: PArr<Scalar>, attrs: seq<string>): Result<Plan, QueryError> {
    var ins :- EagerOnly(s);
    Success(Plan(ins + [WhereAll(where)], FetchAll(attrs)))
  }

  function FindOrNew(s: Spec, id: Scalar, attrs: seq<string>): Result<Plan, QueryError> {
    var ins :- EagerOnly(s);
    Success(Plan(ins, FetchFindOrNew(id, attrs)))
  }

  function FindOrFail(s: Spec, id: Scalar, attrs: seq<string>): Result<Plan, QueryError> {
    var ins :- EagerOnly(s);
    Success(Plan(ins, FetchFindOrFail(id, attrs)))
  }

  /** `first($attributes = null)`: a where-array, when given, is the only constraint. */
  function First(s: Spec, where: Option<PArr<Scalar>>): Result<Plan, QueryError> {
    var ins :- EagerOnly(s);
    Success(Plan(ins + (if where.Some? then [WhereAll(where.value)] else []), FetchFirst))
  }

  function FirstOrCreate(s: Spec, attrs: PArr<Scalar>): Result<Plan, QueryError> {
    var ins :- EagerOnly(s);
    Success(Plan(ins, FetchFirstOrCreate(attrs)))
  }

  function FirstOrNew(s: Spec, attrs: PArr<Scalar>): Result<Plan, QueryError> {
    var ins :- EagerOnly(s);
    Success(Plan(ins, FetchFirstOrNew(attrs)))
  }

  /** The reads that apply only the eager loads. */
  datatype ShortRead =
    | RAll(columns: seq<string>)
    | RFind(id: Scalar, columns: seq<string>)
    | RFindWhere(where: PArr<Scalar>, columns: seq<string>)
    | RFindOrNew(id: Scalar, columns: seq<string>)
    | RFindOrFail(id: Scalar, columns: seq<string>)
    | RFirst(firstWhere: Option<PArr<Scalar>>)
    | RFirstOrCreate(attrs: PArr<Scalar>)
    | RFirstOrNew(attrs: PArr<Scalar>)

  function RunShort(s: Spec, r: ShortRead): Result<Plan, QueryError> {
    match r
    case RAll(c) => All(s, c)
    case RFind(id, c) => Find(s, id, c)
    case RFindWhere(w, c) => FindWhere(s, w, c)
    case RFindOrNew(id, c) => FindOrNew(s, id, c)
    case RFindOrFail(id, c) => FindOrFail(s, id, c)
    case RFirst(w) => First(s, w)
    case RFirstOrCreate(a) => FirstOrCreate(s, a)
    case RFirstOrNew(a) => FirstOrNew(s, a)
  }

  /** These reads issue the eager load, then at most the where-array they were given:
      no has-relation, filter, sort, take or skip, and their plan depends on the
      builder state only through the eager-load relations. */
  lemma OnlyEagerLoads(s: Spec, t: Spec, r: ShortRead)
    requires s.eagerLoadRelations == t.eagerLoadRelations
    ensures RunShort(s, r) == RunShort(t, r)
    ensures RunShort(s, r).Success? <==> EagerLoads(s.eagerLoadRelations).Success?
    ensures RunShort(s, r).Success? ==>
      var ins := RunShort(s, r).value.instrs;
      && ins[0] == Eager(EagerLoads(s.eagerLoadRelations).value)
      && forall i :: 1 <= i < |ins| ==> ins[i].WhereAll?
  {
  }

  /** `paginate($page, $perPage, $attributes)`: the page's limit and offset go through
      the falsy-skipping setters, which change the builder state, then `get` runs.
      `pageLimitOffset` stands for the `PageLimitOffset` helper. */
  function Paginate(s: Spec, page: int, perPage: int, attrs: seq<string>,
                    pageLimitOffset: (int, int) -> (int, int)): (r: (Spec, Result<Plan, QueryError>))
    ensures var lo := pageLimitOffset(perPage, page);
      && r.0.limit == (if lo.0 != 0 then lo.0 else s.limit)
      && r.0.offset == (if lo.1 != 0 then lo.1 else s.offset)
      && r.0.(limit := s.limit, offset := s.offset) == s
    ensures r.1 == GetRead(r.0, attrs)
  {
    var lo := pageLimitOffset(perPage, page);
    var s' := Offset(Limit(s, lo.0), lo.1);
    (s', GetRead(s', attrs))
  }

  /** Paginating never removes a limit or an offset that was already set. */
  lemma PaginateKeepsLimit(s: Spec, page: int, perPage: int, attrs: seq<string>,
                           pageLimitOffset: (int, int) -> (int, int))
    ensures var t := Paginate(s, page, perPage, attrs, pageLimitOffset).0;
      && (s.limit != 0 ==> t.limit != 0)
      && (s.offset != 0 ==> t.offset != 0)
      && t.filters == s.filters && t.sort == s.sort
  {
  }

  /** `search($input, $compareAttributes, $attributes)`: the whole specification, then
      the raw clause over the compared columns, whose text is `SearchSql`;
      `tableColumns` stands for the table's column listing. */
  function SearchRead(s: Spec, input: string, compare: seq<string>, attrs: seq<string>,
                      tableColumns: seq<string>): (r: Result<Plan, QueryError>)
    ensures r.Success? <==> Prepare(s).Success?
    ensures r.Success? ==>
      && r.value.instrs == Prepare(s).value + [WhereSearch(CompareColumns(compare, tableColumns), input)]
      && r.value.terminal == FetchAll(FinalAttributes(s, attrs))
  {
    var ins :- Query(s);
    var columns := CompareColumns(compare, tableColumns);
    Success(Plan(ins + [WhereSearch(columns, input)], FetchAll(FinalAttributes(s, attrs))))
  }
}
