/**
 * The records the wizard passes between its steps.  A commit date is a
 * millisecond count (`Date.getTime()`), so it is an `int`.
 */
module Types {
  import opened Text

  /** Which branch namespaces a run looks at. */
  datatype BranchScope = LocalScope | RemoteScope | BothScopes

  /** One of the four selectable filter criteria. */
  datatype Criterion = Merged | Stale | Pattern | Age

  datatype FilterOptions = FilterOptions(
    merged: bool,
    stale: bool,
    staleDays: int,
    pattern: bool,
    patternValue: string,
    age: bool,
    ageDays: int)

  datatype Branch = Branch(
    name: string,
    isLocal: bool,
    isRemote: bool,
    lastCommitDate: int,
    isMerged: bool,
    isProtected: bool,
    isCurrentBranch: bool)

  datatype DeletionResult = DeletionResult(
    branch: Branch,
    success: bool,
    error: Option<string>,
    deletedLocal: bool,
    deletedRemote: bool)

  datatype DeletionSummary = DeletionSummary(
    total: nat,
    successful: nat,
    failed: nat,
    skipped: nat,
    results: seq<DeletionResult>)

  datatype RepoInfo = RepoInfo(
    owner: string,
    repo: string,
    defaultBranch: string,
    currentBranch: string,
    isGitHub: bool)

  datatype WizardStep = Init | Scope | Criteria | Loading | Select | Confirm | Execute | Summary

  /** A branch may be offered for deletion only if it is neither protected nor checked out. */
  predicate Eligible(b: Branch) {
    !b.isProtected && !b.isCurrentBranch
  }
}
