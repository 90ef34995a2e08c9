/**
 * The wizard's top level: the state the steps share and the callbacks
 * that move it from one step to the next.  Calls into git and GitHub are
 * replaced by their results, passed in.
 */
module App {
  import opened Text
  import opened Types
  import opened Seqs
  import Config
  import BranchAnalyzer
  import Wizard

  const NotARepositoryMessage: string := "Not a git repository. Please run this command in a git repository."
  const NoRepoInfoMessage: string := "Repository info not available"

  /** The filter options the app starts with: no toggle on, the default day counts, an empty pattern. */
  const InitialFilters: FilterOptions :=
    FilterOptions(false, false, Config.DefaultStaleDays, false, "", false, Config.DefaultAgeDays)

  /** Where the back action of each step leads: one screen back, skipping the loading screen. */
  function BackOf(s: WizardStep): WizardStep {
    match s
    case Criteria => Scope
    case Select => Criteria
    case Confirm => Select
    case _ => s
  }

  /**
   * Going back moves only from the three steps that offer it, always to an
   * earlier step: the previous one, except that from `select` it skips
   * `loading`.
   */
  lemma BackMovesEarlier(s: WizardStep)
    ensures BackOf(s) != s <==> s == Criteria || s == Select || s == Confirm
    ensures BackOf(s) != s ==> Wizard.StepIndex(BackOf(s)) < Wizard.StepIndex(s)
    ensures s == Criteria || s == Confirm ==> BackOf(s) == Wizard.PrevOf(s)
    ensures s == Select ==> Wizard.PrevOf(s) == Loading && BackOf(s) == Wizard.PrevOf(Loading)
  {
  }

  /** What is on screen: the error alone once one is set, otherwise the current step's view. */
  datatype View =
    | ErrorView(message: string)
    | SpinnerView(message: string)
    | ScopeView
    | CriteriaView
    | SelectView(branches: seq<Branch>)
    | ConfirmView(branches: seq<Branch>, isDryRun: bool)
    | ExecuteView(branches: seq<Branch>, isDryRun: bool)
    | SummaryView(summary: DeletionSummary, isDryRun: bool)
    | HeaderOnly

  class App {
    /** The `--execute` option. */
    const execute: bool
    const wizard: Wizard.Wizard
    var repoInfo: Option<RepoInfo>
    var scope: BranchScope
    var filters: FilterOptions
    var allBranches: seq<Branch>
    var filteredBranches: seq<Branch>
    var selectedBranches: seq<Branch>
    var deletionSummary: Option<DeletionSummary>
    var error: Option<string>
    var loadingMessage: string
    var executeForReal: bool

    /** Only eligible branches are ever offered: none protected, none checked out. */
    ghost predicate Valid()
      reads this
    {
      forall b :: b in filteredBranches ==> Eligible(b)
    }

    constructor (execute: bool)
      ensures this.execute == execute && fresh(wizard) && wizard.step == Init
      ensures repoInfo == None && scope == BothScopes && filters == InitialFilters
      ensures allBranches == [] && filteredBranches == [] && selectedBranches == []
      ensures deletionSummary == None && error == None && !executeForReal
      ensures loadingMessage == "Initializing..."
      ensures Valid()
    {
      this.execute := execute;
      wizard := new Wizard.Wizard(Init);
      repoInfo := None;
      scope := BothScopes;
      filters := InitialFilters;
      allBranches, filteredBranches, selectedBranches := [], [], [];
      deletionSummary := None;
      error := None;
      loadingMessage := "Initializing...";
      executeForReal := false;
    }

    /** `!options.execute && !executeForReal`. */
    predicate IsDryRun()
      reads this
    {
      !execute && !executeForReal
    }

    /** The render: an error replaces everything; otherwise the view of the current step. */
    function Render(): (v: View)
      reads this, wizard
      ensures error.Some? <==> v.ErrorView?
      ensures v.ExecuteView? ==> v.isDryRun == IsDryRun() && v.branches == selectedBranches
      ensures v.SummaryView? ==> v.isDryRun == IsDryRun() && Some(v.summary) == deletionSummary
    {
      if error.Some? then ErrorView(error.value)
      else
        match wizard.step
        case Init => SpinnerView(loadingMessage)
        case Loading => SpinnerView(loadingMessage)
        case Scope => ScopeView
        case Criteria => CriteriaView
        case Select => SelectView(filteredBranches)
        case Confirm => ConfirmView(selectedBranches, !execute)
        case Execute => ExecuteView(selectedBranches, IsDryRun())
        case Summary => if deletionSummary.Some? then SummaryView(deletionSummary.value, IsDryRun()) else HeaderOnly
    }

    /**
     * The start-up effect, given whether the directory is a repository,
     * what `getRepoInfo` returned, whether a token is set and what
     * `getDefaultBranch` would return.  Outside a repository only the error
     * is set; otherwise the repository info is stored and the wizard moves
     * to the scope step.
     */
    method Initialize(isRepo: bool, info: Option<RepoInfo>, hasToken: bool, gitHubDefaultBranch: string)
      modifies this`error, this`loadingMessage, this`repoInfo, wizard`step
      ensures !isRepo ==> error == Some(NotARepositoryMessage) && wizard.step == old(wizard.step)
                          && repoInfo == old(repoInfo)
      ensures isRepo ==> error == old(error) && wizard.step == Scope
      ensures isRepo && info.Some? && info.value.isGitHub && hasToken ==>
                repoInfo == Some(info.value.(defaultBranch := gitHubDefaultBranch))
      ensures isRepo && !(info.Some? && info.value.isGitHub && hasToken) ==> repoInfo == info
    {
      if !isRepo {
        error := Some(NotARepositoryMessage);
        return;
      }
      loadingMessage := "Detecting repository...";
      var current := info;
      if current.Some? && current.value.isGitHub && hasToken {
        loadingMessage := "Fetching repository info from GitHub...";
        current := Some(current.value.(defaultBranch := gitHubDefaultBranch));
      }
      repoInfo := current;
      wizard.GoToStep(Scope);
    }

    method HandleScopeSelect(selectedScope: BranchScope)
      modifies this`scope, wizard`step
      ensures scope == selectedScope && wizard.step == Criteria
    {
      scope := selectedScope;
      wizard.GoToStep(Criteria);
    }

    /**
     * The criteria callback, given the local and remote listings that
     * `fetchBranches` would read and the current instant: the filters are
     * stored and, when the repository info is known, the fetched list and
     * its filtered part are stored and the wizard moves to selection.
     */
    method HandleCriteriaSelect(selectedFilters: FilterOptions, local: seq<Branch>, remote: seq<Branch>, now: int)
      requires Valid()
      modifies this`filters, this`loadingMessage, this`error, this`allBranches, this`filteredBranches, wizard`step
      ensures Valid()
      ensures filters == selectedFilters
      ensures old(repoInfo).None? ==>
                error == Some(NoRepoInfoMessage) && wizard.step == Loading
                && filteredBranches == old(filteredBranches) && allBranches == old(allBranches)
      ensures old(repoInfo).Some? ==>
                && error == old(error)
                && allBranches == BranchAnalyzer.Fetched(scope, local, remote)
                && filteredBranches == BranchAnalyzer.FilterBranches(allBranches, selectedFilters, now)
                && wizard.step == Select
    {
      filters := selectedFilters;
      wizard.GoToStep(Loading);
      loadingMessage := "Fetching branches...";
      if repoInfo.None? {
        error := Some(NoRepoInfoMessage);
        return;
      }
      var branches := BranchAnalyzer.FetchBranches(scope, local, remote);
      allBranches := branches;
      loadingMessage := "Analyzing branches...";
      filteredBranches := BranchAnalyzer.FilterBranches(branches, selectedFilters, now);
      wizard.GoToStep(Select);
    }

    method HandleBranchSelect(selected: seq<Branch>)
      modifies this`selectedBranches, wizard`step
      ensures selectedBranches == selected && wizard.step == Confirm
    {
      selectedBranches := selected;
      wizard.GoToStep(Confirm);
    }

    method HandleConfirm()
      modifies wizard`step
      ensures wizard.step == Execute
    {
      wizard.GoToStep(Execute);
    }

    method HandleDeletionComplete(summary: DeletionSummary)
      modifies this`deletionSummary, wizard`step
      ensures deletionSummary == Some(summary) && wizard.step == Summary
    {
      deletionSummary := Some(summary);
      wizard.GoToStep(Summary);
    }

    /** "Delete for real" after a dry run: from here on nothing is a dry run. */
    method HandleDeleteForReal()
      modifies this`executeForReal, this`deletionSummary, wizard`step
      ensures executeForReal && deletionSummary == None && wizard.step == Execute
      ensures !IsDryRun()
    {
      executeForReal := true;
      deletionSummary := None;
      wizard.GoToStep(Execute);
    }

    method HandleBack()
      modifies wizard`step
      ensures wizard.step == BackOf(old(wizard.step))
    {
      match wizard.step
      case Criteria => wizard.GoToStep(Scope);
      case Select => wizard.GoToStep(Criteria);
      case Confirm => wizard.GoToStep(Select);
      case _ =>
    }
  }
}
