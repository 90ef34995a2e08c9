/**
 * `deleteBranches` of the execution step: one deletion result per branch,
 * in list order, then the summary of them.  The two git calls are
 * oracles: `localOutcome(i)` and `remoteOutcome(i)` say whether the local
 * and the remote delete of the `i`-th branch would throw, and with what.
 */
module Executor {
  import opened Text
  import opened Types
  import opened Seqs
  import Git

  /** What a failed delete threw: an `Error` with its message, or some other value. */
  datatype Thrown = ErrorWith(message: string) | NotAnError

  /** The text put after "Local: " or "Remote: ". */
  function Reason(t: Thrown): string {
    match t
    case ErrorWith(m) => m
    case NotAnError => "Unknown error"
  }

  /** A git command the loop issues, as the arguments of `git branch` or `git push`. */
  datatype GitCall = BranchCall(args: seq<string>) | PushCall(args: seq<string>)

  /**
   * The error text of one branch given which attempted deletions threw:
   * "Local: m", "Remote: m" or both joined by "; ".
   */
  function ErrorText(localFailure: Option<Thrown>, remoteFailure: Option<Thrown>): (e: Option<string>)
    ensures e.None? <==> localFailure.None? && remoteFailure.None?
  {
    match (localFailure, remoteFailure)
    case (None, None) => None
    case (Some(l), None) => Some("Local: " + Reason(l))
    case (None, Some(r)) => Some("Remote: " + Reason(r))
    case (Some(l), Some(r)) => Some("Local: " + Reason(l) + "; Remote: " + Reason(r))
  }

  /**
   * The result for one branch.  A dry run reports the branch's own flags and
   * calls nothing; a real run attempts the local delete when the branch is
   * local and, independently, the remote delete when it is remote.
   */
  function ExpectedResult(b: Branch, isDryRun: bool, localFailure: Option<Thrown>, remoteFailure: Option<Thrown>)
    : DeletionResult
  {
    if isDryRun then DeletionResult(b, true, None, b.isLocal, b.isRemote)
    else
      var lf := if b.isLocal then localFailure else None;
      var rf := if b.isRemote then remoteFailure else None;
      DeletionResult(b, lf.None? && rf.None?, ErrorText(lf, rf), b.isLocal && lf.None?, b.isRemote && rf.None?)
  }

  /** The commands issued for one branch: the forced local delete, then the remote one. */
  function ExpectedCalls(b: Branch, isDryRun: bool): seq<GitCall> {
    if isDryRun then []
    else
      (if b.isLocal then [BranchCall(Git.DeleteLocalArgs(b.name, true))] else [])
      + (if b.isRemote then [PushCall(Git.DeleteRemoteArgs(b.name, "origin"))] else [])
  }

  /** The commands issued for the first `n` branches, in order. */
  function CallsUpTo(bs: seq<Branch>, n: nat, isDryRun: bool): seq<GitCall>
    requires n <= |bs|
  {
    if n == 0 then [] else CallsUpTo(bs, n - 1, isDryRun) + ExpectedCalls(bs[n - 1], isDryRun)
  }

  /** The results for the first `n` branches, in order, the `k`-th drawing on the `k`-th outcomes. */
  function ResultsUpTo(
    bs: seq<Branch>, n: nat, isDryRun: bool,
    localOutcome: nat -> Option<Thrown>, remoteOutcome: nat -> Option<Thrown>)
    : seq<DeletionResult>
    requires n <= |bs|
  {
    if n == 0 then []
    else ResultsUpTo(bs, n - 1, isDryRun, localOutcome, remoteOutcome)
         + [ExpectedResult(bs[n - 1], isDryRun, localOutcome(n - 1), remoteOutcome(n - 1))]
  }

  /** One result per branch, the `k`-th for the `k`-th branch. */
  lemma {:induction false} ResultsUpToAt(
    bs: seq<Branch>, n: nat, isDryRun: bool,
    localOutcome: nat -> Option<Thrown>, remoteOutcome: nat -> Option<Thrown>)
    requires n <= |bs|
    ensures |ResultsUpTo(bs, n, isDryRun, localOutcome, remoteOutcome)| == n
    ensures forall k :: 0 <= k < n ==>
              ResultsUpTo(bs, n, isDryRun, localOutcome, remoteOutcome)[k]
              == ExpectedResult(bs[k], isDryRun, localOutcome(k), remoteOutcome(k))
  {
    if n > 0 {
      ResultsUpToAt(bs, n - 1, isDryRun, localOutcome, remoteOutcome);
    }
  }

  function Succeeded(r: DeletionResult): bool { r.success }
  function Failed(r: DeletionResult): bool { !r.success }

  /** The summary built from the collected results. */
  function Summarize(results: seq<DeletionResult>): DeletionSummary {
    DeletionSummary(|results|, |Filter(results, Succeeded)|, |Filter(results, Failed)|, 0, results)
  }

  /**
   * The body of the loop for one branch: a result that starts successful
   * with nothing deleted, whose fields the two attempts then update.  It
   * also returns the git commands it issued.
   */
  method DeleteOne(branch: Branch, isDryRun: bool, localFailure: Option<Thrown>, remoteFailure: Option<Thrown>)
    returns (result: DeletionResult, issued: seq<GitCall>)
    ensures result == ExpectedResult(branch, isDryRun, localFailure, remoteFailure)
    ensures issued == ExpectedCalls(branch, isDryRun)
  {
    result := DeletionResult(branch, true, None, false, false);
    issued := [];
    if isDryRun {
      result := result.(deletedLocal := branch.isLocal, deletedRemote := branch.isRemote);
    } else {
      if branch.isLocal {
        issued := issued + [BranchCall(Git.DeleteLocalArgs(branch.name, true))];
        match localFailure
        case None =>
          result := result.(deletedLocal := true);
        case Some(t) =>
          result := result.(success := false, error := Some("Local: " + Reason(t)));
      }
      if branch.isRemote {
        issued := issued + [PushCall(Git.DeleteRemoteArgs(branch.name, "origin"))];
        match remoteFailure
        case None =>
          result := result.(deletedRemote := true);
        case Some(t) =>
          if result.error.None? {
            result := result.(success := false, error := Some("Remote: " + Reason(t)));
          } else {
            result := result.(error := Some(result.error.value + "; Remote: " + Reason(t)));
          }
      }
    }
  }

  /**
   * `deleteBranches`: one result per branch, in list order, collected by
   * the loop; then the summary of them.  It also returns every git command
   * it issued, in order.
   */
  method DeleteBranches(
    branches: seq<Branch>, isDryRun: bool,
    localOutcome: nat -> Option<Thrown>, remoteOutcome: nat -> Option<Thrown>)
    returns (summary: DeletionSummary, calls: seq<GitCall>)
    ensures summary == Summarize(ResultsUpTo(branches, |branches|, isDryRun, localOutcome, remoteOutcome))
    ensures calls == CallsUpTo(branches, |branches|, isDryRun)
  {
    var allResults: seq<DeletionResult> := [];
    calls := [];
    for i := 0 to |branches|
      invariant allResults == ResultsUpTo(branches, i, isDryRun, localOutcome, remoteOutcome)
      invariant calls == CallsUpTo(branches, i, isDryRun)
    {
      var result, issued := DeleteOne(branches[i], isDryRun, localOutcome(i), remoteOutcome(i));
      calls := calls + issued;
      allResults := allResults + [result];
    }
    summary := Summarize(allResults);
  }

  /** The summary's counts: one result per branch, each either successful or failed, none skipped. */
  lemma SummaryCounts(results: seq<DeletionResult>)
    ensures Summarize(results).total == |results|
    ensures Summarize(results).successful + Summarize(results).failed == Summarize(results).total
    ensures Summarize(results).skipped == 0
  {
    FilterComplement(results, Succeeded, Failed);
  }

  /** A dry run deletes nothing, reports every branch as done on each side it lives on, and fails none. */
  lemma DryRunResult(b: Branch, lf: Option<Thrown>, rf: Option<Thrown>)
    ensures var r := ExpectedResult(b, true, lf, rf);
            r.success && r.error.None? && r.deletedLocal == b.isLocal && r.deletedRemote == b.isRemote
            && r.branch == b
    ensures ExpectedCalls(b, true) == []
  {
  }

  /**
   * A real run: a side is reported deleted exactly when the branch lives
   * there and its delete did not throw; the result fails exactly when an
   * attempted delete threw, and then it carries an error text.
   */
  lemma RealRunResult(b: Branch, lf: Option<Thrown>, rf: Option<Thrown>)
    ensures var r := ExpectedResult(b, false, lf, rf);
            && r.branch == b
            && (r.deletedLocal <==> b.isLocal && lf.None?)
            && (r.deletedRemote <==> b.isRemote && rf.None?)
            && (!r.success <==> (b.isLocal && lf.Some?) || (b.isRemote && rf.Some?))
            && (r.success <==> r.error.None?)
  {
  }

  /** The error texts of the three failing combinations. */
  lemma ErrorTexts(l: Thrown, r: Thrown)
    ensures ErrorText(Some(l), None) == Some("Local: " + Reason(l))
    ensures ErrorText(None, Some(r)) == Some("Remote: " + Reason(r))
    ensures ErrorText(Some(l), Some(r)) == Some("Local: " + Reason(l) + "; Remote: " + Reason(r))
    ensures ErrorText(Some(NotAnError), None) == Some("Local: Unknown error")
  {
    assert "Local: " + "Unknown error" == "Local: Unknown error";
  }

  /**
   * The remote delete of a remote branch is issued in a real run even when
   * its local delete throws: the commands do not depend on the outcomes.
   */
  lemma RemoteAttemptedAfterLocalFailure(b: Branch)
    requires b.isRemote
    ensures PushCall(Git.DeleteRemoteArgs(b.name, "origin")) in ExpectedCalls(b, false)
    ensures b.isLocal ==>
              ExpectedCalls(b, false) == [BranchCall(["branch", "-D", b.name]), PushCall(["push", "origin", "--delete", b.name])]
  {
    var c := ExpectedCalls(b, false);
    if b.isLocal {
      assert c[1] == PushCall(Git.DeleteRemoteArgs(b.name, "origin"));
    } else {
      assert c[0] == PushCall(Git.DeleteRemoteArgs(b.name, "origin"));
    }
  }

  /** A dry run issues no command at all. */
  lemma {:induction false} DryRunCallsNothing(bs: seq<Branch>, n: nat)
    requires n <= |bs|
    ensures CallsUpTo(bs, n, true) == []
  {
    if n > 0 {
      DryRunCallsNothing(bs, n - 1);
    }
  }

  /** A real run issues one command per side each branch lives on. */
  lemma {:induction false} RealRunCallCount(bs: seq<Branch>, n: nat)
    requires n <= |bs|
    ensures |CallsUpTo(bs, n, false)|
            == |Filter(bs[..n], (b: Branch) => b.isLocal)| + |Filter(bs[..n], (b: Branch) => b.isRemote)|
  {
    if n > 0 {
      assert bs[..n] == bs[..n - 1] + [bs[n - 1]];
      RealRunCallCount(bs, n - 1);
      FilterAppend(bs[..n - 1], bs[n - 1], (b: Branch) => b.isLocal);
      FilterAppend(bs[..n - 1], bs[n - 1], (b: Branch) => b.isRemote);
    }
  }
}
