/**
 * The branch repository (src/BaseBranchRepositoryEloquent.php): a repository whose
 * save hook stamps branch models with a branch id, taken from the repository or, when
 * the repository holds none, from the session.
 *
 * `get_branch_session()` is a parameter (`session`), and the effect of a branch
 * model's own `setBranchId` is recorded in the model's `branch` field.
 */
module Branch {
  import opened Wrappers
  import opened PhpValues
  import opened Store

  /** The branch id a branch repository holds; a new repository holds null. */
  datatype BranchState = BranchState(branchId: Scalar)

  const Unset: BranchState := BranchState(SNull)

  /** `setBranchId($branchId)`. */
  function SetBranchId(b: BranchState, id: Scalar): (r: BranchState)
    ensures r.branchId == id
  {
    b.(branchId := id)
  }

  /** `setBranch($branchId)`: an alias of `setBranchId`. */
  function SetBranch(b: BranchState, id: Scalar): BranchState {
    SetBranchId(b, id)
  }

  lemma SetBranchIsAlias(b: BranchState, id: Scalar)
    ensures SetBranch(b, id) == SetBranchId(b, id)
    ensures SetBranch(b, id).branchId == id
  {
  }

  /** `branchId()`: the held id when it is truthy, the session's otherwise, so 0, "",
      "0", false and null all fall back. */
  function BranchId(b: BranchState, session: Scalar): (r: Scalar)
    ensures Truthy(b.branchId) ==> r == b.branchId
    ensures !Truthy(b.branchId) ==> r == session
  {
    if Truthy(b.branchId) then b.branchId else session
  }

  /** The save hook a repository runs before saving: the base repository's leaves the
      model alone, a branch repository's stamps branch models. */
  datatype Hook = NoHook | BranchHook(state: BranchState, session: Scalar)

  /** `beforeSaveModel($model)`. */
  function BeforeSaveModel(h: Hook, m: Model): (r: Model)
    ensures h.NoHook? || m.kind != BranchModel ==> r == m
    ensures h.BranchHook? && m.kind == BranchModel ==> r == m.(branch := Some(BranchId(h.state, h.session)))
  {
    match h
    case NoHook => m
    case BranchHook(state, session) =>
      if m.kind == BranchModel then m.(branch := Some(BranchId(state, session))) else m
  }

  /** Stamping changes nothing but the branch, and stamping twice is stamping once. */
  lemma StampIdempotent(h: Hook, m: Model)
    ensures BeforeSaveModel(h, BeforeSaveModel(h, m)) == BeforeSaveModel(h, m)
    ensures BeforeSaveModel(h, m).(branch := m.branch) == m
  {
  }

  /** A repository that was given the id 0 stamps the session's branch. */
  lemma ZeroFallsBack(b: BranchState, session: Scalar, m: Model)
    requires m.kind == BranchModel
    ensures BeforeSaveModel(BranchHook(SetBranchId(b, SInt(0)), session), m).branch == Some(session)
  {
  }
}
