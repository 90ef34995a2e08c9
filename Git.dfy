/**
 * The parts of the git adapter that compute rather than talk to git:
 * owner and repository read out of the origin URL, the defaults of the
 * repository record, the cleaning of `git branch --merged` output, the
 * branch records built from the two branch listings, and the arguments of
 * the two delete commands.  Every answer from git is an input here; `None`
 * stands for a git call that threw.
 */
module Git {
  import opened Text
  import opened Types
  import opened Config
  import opened Seqs

  // ---------------------------------------------------------------------
  // getRemoteInfo
  // ---------------------------------------------------------------------

  const SshPrefix: string := "git@github.com:"
  const HttpsPrefix: string := "https://github.com/"

  /** What `getRemoteInfo` returns when it returns something. */
  datatype RemoteInfo = RemoteInfo(owner: string, repo: string, isGitHub: bool)

  /** The two capture groups of a URL match. */
  datatype Parsed = Parsed(owner: string, repo: string)

  /** What every match captures: an owner without a slash, a repository on one line. */
  predicate WellFormed(p: Parsed) {
    p.owner != [] && '/' !in p.owner && p.repo != [] && NoLineTerminators(p.repo)
  }

  /** Strips one leading `origin/`, as the anchored replace in the source does. */
  function StripOrigin(s: string): (r: string)
    ensures StartsWith(s, "origin/") ==> s == "origin/" + r
    ensures !StartsWith(s, "origin/") ==> r == s
  {
    if StartsWith(s, "origin/") then s[7..] else s
  }

  /**
   * The repository group: the rest of the URL, matched by a lazy `.` and
   * followed by an optional `.git` and the end.  It must be non-empty and
   * hold no line terminator, and a final `.git` goes to the optional group
   * whenever something remains before it.
   */
  function RepoOf(tail: string): (r: Option<string>)
    ensures r.Some? ==> r.value != [] && NoLineTerminators(r.value)
    ensures r.Some? ==> tail == r.value + ".git" || tail == r.value
  {
    if tail == [] || !NoLineTerminators(tail) then None
    else if |tail| > 4 && tail[|tail| - 4..] == ".git" then
      var repo := tail[..|tail| - 4];
      assert tail == repo + ".git";
      assert NoLineTerminators(repo) by {
        forall k | 0 <= k < |repo| ensures !IsLineTerminator(repo[k]) {
          assert repo[k] == tail[k];
        }
      }
      Some(repo)
    else Some(tail)
  }

  /**
   * The URL pattern tried at position `i`: the prefix, an owner running up to
   * the first slash (at least one character), the slash, then the repository group.
   */
  function MatchAt(url: string, prefix: string, i: nat): (m: Option<Parsed>)
    ensures m.Some? ==> WellFormed(m.value)
  {
    if !OccursAt(url, prefix, i) then None else MatchRest(url[i + |prefix|..])
  }

  /** What follows the prefix: an owner up to the first slash (not empty), the slash, the repository group. */
  function MatchRest(rest: string): (m: Option<Parsed>)
    ensures m.Some? ==> WellFormed(m.value)
  {
    var slash := FirstIndex(rest, '/');
    if slash == 0 || slash == |rest| then None
    else
      var owner := rest[..slash];
      assert forall k :: 0 <= k < |owner| ==> owner[k] != '/';
      match RepoOf(rest[slash + 1..])
      case Some(repo) => Some(Parsed(owner, repo))
      case None => None
  }

  /** A match spells out the text it was read from: prefix, owner, slash, repository, perhaps `.git`. */
  lemma MatchRebuildsUrl(url: string, prefix: string, i: nat)
    ensures var m := MatchAt(url, prefix, i);
            m.Some? ==>
              || url[i..] == prefix + m.value.owner + "/" + m.value.repo + ".git"
              || url[i..] == prefix + m.value.owner + "/" + m.value.repo
  {
    if OccursAt(url, prefix, i) {
      var rest := url[i + |prefix|..];
      var slash := FirstIndex(rest, '/');
      if 0 < slash < |rest| {
        var owner, tail := rest[..slash], rest[slash + 1..];
        assert url[i..] == prefix + owner + "/" + tail;
      }
    }
  }

  /** Where the text at `i` is the prefix, an owner without a slash, a slash and a tail, the match reads that owner. */
  lemma MatchAtParts(url: string, prefix: string, i: nat, owner: string, tail: string)
    requires i <= |url| && url[i..] == prefix + owner + "/" + tail
    requires owner != [] && '/' !in owner
    ensures MatchAt(url, prefix, i) == if RepoOf(tail).Some? then Some(Parsed(owner, RepoOf(tail).value)) else None
  {
    var rest := owner + "/" + tail;
    assert prefix + owner + "/" + tail == prefix + rest;
    PrefixAt(url, prefix, i, rest);
    MatchRestParts(owner, tail);
  }

  /** Where the text at `i` is the prefix and then `rest`, the prefix occurs at `i` and `rest` follows it. */
  lemma PrefixAt(url: string, prefix: string, i: nat, rest: string)
    requires i <= |url| && url[i..] == prefix + rest
    ensures OccursAt(url, prefix, i) && url[i + |prefix|..] == rest
  {
    assert url[i..i + |prefix|] == url[i..][..|prefix|];
    assert url[i + |prefix|..] == url[i..][|prefix|..];
  }

  lemma MatchRestParts(owner: string, tail: string)
    requires owner != [] && '/' !in owner
    ensures MatchRest(owner + "/" + tail) == if RepoOf(tail).Some? then Some(Parsed(owner, RepoOf(tail).value)) else None
  {
    var rest := owner + "/" + tail;
    FirstIndexAfter(owner, '/', tail);
    assert rest == owner + ['/'] + tail;
    assert rest[..|owner|] == owner && rest[|owner| + 1..] == tail;
  }

  lemma RepoOfBuilt(repo: string, suffixed: bool)
    requires repo != [] && NoLineTerminators(repo)
    requires !suffixed ==> !(|repo| > 4 && repo[|repo| - 4..] == ".git")
    ensures RepoOf(repo + (if suffixed then ".git" else "")) == Some(repo)
  {
    var tail := repo + (if suffixed then ".git" else "");
    if suffixed {
      assert tail[..|tail| - 4] == repo;
      assert tail[|tail| - 4..] == ".git";
      assert NoLineTerminators(tail) by {
        forall k | 0 <= k < |tail| ensures !IsLineTerminator(tail[k]) {
          if k < |repo| {
            assert tail[k] == repo[k];
          } else {
            assert tail[k] == ".git"[k - |repo|];
          }
        }
      }
    } else {
      assert tail == repo;
    }
  }

  /** The first position from `i` to `last` at which `attempt` succeeds, with what it gives there. */
  function FirstMatch(attempt: nat -> Option<Parsed>, i: nat, last: nat): Option<Parsed>
    decreases last + 1 - i
  {
    if i > last then None
    else if attempt(i).Some? then attempt(i)
    else FirstMatch(attempt, i + 1, last)
  }

  /** Nothing is found exactly when every attempt from `i` to `last` fails. */
  lemma {:induction false} FirstMatchNone(attempt: nat -> Option<Parsed>, i: nat, last: nat)
    ensures FirstMatch(attempt, i, last).None? <==> forall j :: i <= j <= last ==> attempt(j).None?
    decreases last + 1 - i
  {
    if i <= last && attempt(i).None? {
      FirstMatchNone(attempt, i + 1, last);
      if forall j :: i + 1 <= j <= last ==> attempt(j).None? {
        forall j | i <= j <= last ensures attempt(j).None? {
          if j > i {
            assert i + 1 <= j;
          }
        }
      }
    }
  }

  /** What is found is what the leftmost successful attempt gives. */
  lemma {:induction false} FirstMatchIsLeftmost(attempt: nat -> Option<Parsed>, i: nat, last: nat)
    ensures var m := FirstMatch(attempt, i, last);
            m.Some? ==> exists j :: i <= j <= last && attempt(j) == m && forall k :: i <= k < j ==> attempt(k).None?
    decreases last + 1 - i
  {
    if i <= last && attempt(i).None? {
      FirstMatchIsLeftmost(attempt, i + 1, last);
      var m := FirstMatch(attempt, i + 1, last);
      if m.Some? {
        var j :| i + 1 <= j <= last && attempt(j) == m && forall k :: i + 1 <= k < j ==> attempt(k).None?;
        forall k | i <= k < j ensures attempt(k).None? {
          if k > i {
            assert i + 1 <= k;
          }
        }
      }
    }
  }

  /** The pattern tried at each position of `url`. */
  function AttemptAt(url: string, prefix: string): nat -> Option<Parsed> {
    (j: nat) => MatchAt(url, prefix, j)
  }

  /** `url.match(...)` for a pattern not anchored at the start: the leftmost position that matches. */
  function Search(url: string, prefix: string, i: nat): (m: Option<Parsed>)
    ensures m.Some? ==> WellFormed(m.value)
  {
    FirstMatchIsLeftmost(AttemptAt(url, prefix), i, |url|);
    FirstMatch(AttemptAt(url, prefix), i, |url|)
  }

  /** The search fails exactly when the pattern matches at no position from `i` on. */
  lemma SearchNone(url: string, prefix: string, i: nat)
    ensures Search(url, prefix, i).None? <==> forall j :: i <= j <= |url| ==> MatchAt(url, prefix, j).None?
  {
    var attempt := AttemptAt(url, prefix);
    FirstMatchNone(attempt, i, |url|);
    forall j: nat | i <= j <= |url| ensures attempt(j) == MatchAt(url, prefix, j) {
    }
  }

  /** The match found is the one at the leftmost position where the pattern matches. */
  lemma SearchIsLeftmost(url: string, prefix: string, i: nat)
    ensures var m := Search(url, prefix, i);
            m.Some? ==> exists j :: i <= j <= |url| && MatchAt(url, prefix, j) == m
                                    && forall k :: i <= k < j ==> MatchAt(url, prefix, k).None?
  {
    var attempt := AttemptAt(url, prefix);
    FirstMatchIsLeftmost(attempt, i, |url|);
    var m := Search(url, prefix, i);
    if m.Some? {
      var j :| i <= j <= |url| && attempt(j) == m && forall k :: i <= k < j ==> attempt(k).None?;
      assert MatchAt(url, prefix, j) == m;
      forall k | i <= k < j ensures MatchAt(url, prefix, k).None? {
        assert attempt(k).None?;
      }
    }
  }

  /**
   * `getRemoteInfo`, given the fetch URL of the remote named `origin`
   * (`None` when there is no such remote or listing the remotes failed).
   * The SSH form is tried first.
   */
  function GetRemoteInfo(originFetch: Option<string>): (r: Option<RemoteInfo>)
    ensures r.None? <==> originFetch.None? || originFetch.value == ""
    ensures r.Some? && r.value.isGitHub ==> WellFormed(Parsed(r.value.owner, r.value.repo))
    ensures r.Some? && !r.value.isGitHub ==> r.value.owner == "" && r.value.repo == ""
  {
    if originFetch.None? || originFetch.value == "" then None
    else
      var url := originFetch.value;
      match Search(url, SshPrefix, 0)
      case Some(p) => Some(RemoteInfo(p.owner, p.repo, true))
      case None =>
        match Search(url, HttpsPrefix, 0)
        case Some(p) => Some(RemoteInfo(p.owner, p.repo, true))
        case None => Some(RemoteInfo("", "", false))
  }

  /** At the start of a URL built from `prefix`, an owner and a repository, the match gives them back. */
  lemma MatchBuiltUrl(prefix: string, owner: string, repo: string, suffixed: bool)
    requires WellFormed(Parsed(owner, repo))
    requires !suffixed ==> !(|repo| > 4 && repo[|repo| - 4..] == ".git")
    ensures MatchAt(prefix + owner + "/" + repo + (if suffixed then ".git" else ""), prefix, 0)
            == Some(Parsed(owner, repo))
  {
    var tail := repo + (if suffixed then ".git" else "");
    var url := prefix + owner + "/" + repo + (if suffixed then ".git" else "");
    assert url == prefix + owner + "/" + tail;
    MatchAtParts(url, prefix, 0, owner, tail);
    RepoOfBuilt(repo, suffixed);
  }

  /** An SSH origin URL gives its owner and repository back, with or without the `.git` ending. */
  lemma SshUrlRoundTrip(owner: string, repo: string, suffixed: bool)
    requires WellFormed(Parsed(owner, repo))
    requires !suffixed ==> !(|repo| > 4 && repo[|repo| - 4..] == ".git")
    ensures GetRemoteInfo(Some(SshPrefix + owner + "/" + repo + (if suffixed then ".git" else "")))
            == Some(RemoteInfo(owner, repo, true))
  {
    var url := SshPrefix + owner + "/" + repo + (if suffixed then ".git" else "");
    MatchBuiltUrl(SshPrefix, owner, repo, suffixed);
    assert Search(url, SshPrefix, 0) == Some(Parsed(owner, repo));
  }

  /** The SSH form cannot match a URL without an at sign. */
  lemma NoAtSignNoSsh(url: string)
    requires '@' !in url
    ensures Search(url, SshPrefix, 0).None?
  {
    forall j | 0 <= j <= |url| ensures !OccursAt(url, SshPrefix, j) {
      if j <= |url| - |SshPrefix| {
        assert url[j + 3] in url;
        assert url[j..j + |SshPrefix|][3] == url[j + 3];
        assert SshPrefix[3] == '@';
      }
    }
    assert forall j :: 0 <= j <= |url| ==> MatchAt(url, SshPrefix, j).None?;
    SearchNone(url, SshPrefix, 0);
  }

  /**
   * An HTTPS origin URL gives its owner and repository back.  GitHub names
   * hold no at sign, so the SSH form, tried first, finds nothing.
   */
  lemma HttpsUrlRoundTrip(owner: string, repo: string, suffixed: bool)
    requires WellFormed(Parsed(owner, repo))
    requires '@' !in owner && '@' !in repo
    requires !suffixed ==> !(|repo| > 4 && repo[|repo| - 4..] == ".git")
    ensures GetRemoteInfo(Some(HttpsPrefix + owner + "/" + repo + (if suffixed then ".git" else "")))
            == Some(RemoteInfo(owner, repo, true))
  {
    var url := HttpsPrefix + owner + "/" + repo + (if suffixed then ".git" else "");
    assert '@' !in url by {
      assert url == HttpsPrefix + owner + "/" + repo + (if suffixed then ".git" else "");
    }
    NoAtSignNoSsh(url);
    MatchBuiltUrl(HttpsPrefix, owner, repo, suffixed);
    assert Search(url, HttpsPrefix, 0) == Some(Parsed(owner, repo));
  }

  /** A URL in which neither form occurs is reported as a non-GitHub remote. */
  lemma OtherHostIsNotGitHub(url: string)
    requires url != "" && !Contains(url, SshPrefix) && !Contains(url, HttpsPrefix)
    ensures GetRemoteInfo(Some(url)) == Some(RemoteInfo("", "", false))
  {
    assert forall j :: 0 <= j <= |url| ==> MatchAt(url, SshPrefix, j).None?;
    assert forall j :: 0 <= j <= |url| ==> MatchAt(url, HttpsPrefix, j).None?;
    SearchNone(url, SshPrefix, 0);
    SearchNone(url, HttpsPrefix, 0);
  }

  // ---------------------------------------------------------------------
  // getRepoInfo
  // ---------------------------------------------------------------------

  /**
   * `getRepoInfo`, given its argument, the output of `git rev-parse
   * --abbrev-ref HEAD` (`None` when it threw) and what `getRemoteInfo`
   * returned.  An empty default-branch argument counts as absent.
   */
  function GetRepoInfo(defaultBranch: Option<string>, headOutput: Option<string>, remote: Option<RemoteInfo>)
    : (r: Option<RepoInfo>)
    ensures r.None? <==> headOutput.None?
    ensures r.Some? ==> r.value.currentBranch == Trim(headOutput.value)
    ensures r.Some? && defaultBranch.Some? && defaultBranch.value != "" ==> r.value.defaultBranch == defaultBranch.value
    ensures r.Some? && (defaultBranch.None? || defaultBranch.value == "") ==> r.value.defaultBranch == "main"
    ensures r.Some? && remote.None? ==> r.value.owner == "" && r.value.repo == "" && !r.value.isGitHub
    ensures r.Some? && remote.Some? ==>
              r.value.owner == remote.value.owner && r.value.repo == remote.value.repo
              && r.value.isGitHub == remote.value.isGitHub
  {
    if headOutput.None? then None
    else
      var owner := if remote.Some? && remote.value.owner != "" then remote.value.owner else "";
      var repo := if remote.Some? && remote.value.repo != "" then remote.value.repo else "";
      var def := if defaultBranch.Some? && defaultBranch.value != "" then defaultBranch.value else "main";
      var isGitHub := remote.Some? && remote.value.isGitHub;
      Some(RepoInfo(owner, repo, def, Trim(headOutput.value), isGitHub))
  }

  /** Whatever the origin URL, the repository record is GitHub exactly when both names were read from it. */
  lemma RepoInfoOfOrigin(defaultBranch: Option<string>, head: string, originFetch: Option<string>)
    ensures var r := GetRepoInfo(defaultBranch, Some(head), GetRemoteInfo(originFetch)).value;
            && r.defaultBranch != ""
            && (r.isGitHub ==> r.owner != "" && r.repo != "" && '/' !in r.owner)
            && (!r.isGitHub ==> r.owner == "" && r.repo == "")
  {
  }

  // ---------------------------------------------------------------------
  // isBranchMerged
  // ---------------------------------------------------------------------

  /** One line of `git branch --merged`, trimmed, less a leading star and the white space after it. */
  function CleanLine(line: string): string {
    var t := Trim(line);
    if t != [] && t[0] == '*' then TrimStart(t[1..]) else t
  }

  /** The cleaned lines of the output of `git branch --merged`, in order. */
  function MergedNames(output: string): (names: seq<string>)
    ensures |names| == |Split(output, '\n')|
  {
    CleanLines(Split(output, '\n'))
  }

  function CleanLines(lines: seq<string>): (r: seq<string>)
    ensures |r| == |lines|
  {
    if lines == [] then [] else [CleanLine(lines[0])] + CleanLines(lines[1..])
  }

  lemma {:induction false} CleanLinesAt(lines: seq<string>, k: nat)
    requires k < |lines|
    ensures CleanLines(lines)[k] == CleanLine(lines[k])
  {
    if k > 0 {
      CleanLinesAt(lines[1..], k - 1);
    }
  }

  /**
   * `isBranchMerged`, given the output of `git branch --merged <target>`
   * (`None` when git threw): the branch, or the branch less `origin/`, is
   * one of the cleaned lines.
   */
  function IsBranchMerged(branch: string, output: Option<string>): (r: bool)
    ensures output.None? ==> !r
  {
    InMerged(branch, MergedList(output))
  }

  /** The cleaned lines of the listing, or `None` when git threw. */
  function MergedList(output: Option<string>): Option<seq<string>> {
    match output
    case None => None
    case Some(o) => Some(MergedNames(o))
  }

  /** The branch, or the branch less `origin/`, is one of the cleaned lines. */
  predicate InMerged(branch: string, merged: Option<seq<string>>) {
    merged.Some? && (branch in merged.value || StripOrigin(branch) in merged.value)
  }

  /** A branch name as git prints it: one line, not empty, no white space at either end, no leading star. */
  predicate PlainName(n: string) {
    n != [] && n[0] != '*' && !IsWhiteSpace(n[0]) && !IsWhiteSpace(n[|n| - 1]) && '\n' !in n
  }

  /** How git lists a branch: the checked-out one after a star, the others indented. */
  function ListingLine(n: string, checkedOut: bool): string {
    [if checkedOut then '*' else ' ', ' '] + n
  }

  function ListingLines(names: seq<string>, current: string): (lines: seq<string>)
    ensures |lines| == |names|
    ensures forall k :: 0 <= k < |names| ==> lines[k] == ListingLine(names[k], names[k] == current)
  {
    seq(|names|, k requires 0 <= k < |names| => ListingLine(names[k], names[k] == current))
  }

  /** The whole output of `git branch --merged`, newline-terminated. */
  function Listing(names: seq<string>, current: string): string {
    Join(ListingLines(names, current) + [""], '\n')
  }

  lemma CheckedOutLineTail(n: string)
    ensures ListingLine(n, true)[1..] == [' '] + n && ListingLine(n, true)[0] == '*'
  {
  }

  lemma TrimCheckedOutLine(n: string)
    requires PlainName(n)
    ensures Trim(ListingLine(n, true)) == ListingLine(n, true)
  {
    var line := ListingLine(n, true);
    assert "" + line == line;
    TrimPadded("", line);
  }

  lemma CleanCheckedOutLine(n: string)
    requires PlainName(n)
    ensures CleanLine(ListingLine(n, true)) == n
  {
    CheckedOutLineTail(n);
    TrimCheckedOutLine(n);
    TrimStartPadded([' '], n);
  }

  lemma CleanIndentedLine(n: string)
    requires PlainName(n)
    ensures CleanLine(ListingLine(n, false)) == n
  {
    TrimPadded([' ', ' '], n);
  }

  lemma CleanListingLine(n: string, checkedOut: bool)
    requires PlainName(n)
    ensures CleanLine(ListingLine(n, checkedOut)) == n
    ensures '\n' !in ListingLine(n, checkedOut)
  {
    if checkedOut {
      CleanCheckedOutLine(n);
    } else {
      CleanIndentedLine(n);
    }
  }

  lemma ListingSplits(names: seq<string>, current: string)
    requires forall k :: 0 <= k < |names| ==> PlainName(names[k])
    ensures Split(Listing(names, current), '\n') == ListingLines(names, current) + [""]
  {
    var lines := ListingLines(names, current) + [""];
    forall k | 0 <= k < |lines| ensures '\n' !in lines[k] {
      if k < |names| {
        CleanListingLine(names[k], names[k] == current);
      }
    }
    SplitJoin(lines, '\n');
  }

  /** Cleaning the lines of a listing gives the names back, and the empty piece after the final newline. */
  lemma ListingNames(names: seq<string>, current: string)
    requires forall k :: 0 <= k < |names| ==> PlainName(names[k])
    ensures MergedNames(Listing(names, current)) == names + [""]
  {
    var output := Listing(names, current);
    ListingSplits(names, current);
    var cleaned := MergedNames(output);
    forall k | 0 <= k < |names| ensures cleaned[k] == names[k] {
      MergedNameAt(output, k);
      CleanListingLine(names[k], names[k] == current);
    }
    MergedNameAt(output, |names|);
    assert CleanLine("") == "";
  }

  lemma MergedNameAt(output: string, k: nat)
    requires k < |Split(output, '\n')|
    ensures MergedNames(output)[k] == CleanLine(Split(output, '\n')[k])
  {
    CleanLinesAt(Split(output, '\n'), k);
  }

  /** Read back from a git listing, a branch is merged exactly when it, or its name less `origin/`, is listed. */
  lemma MergedFromListing(names: seq<string>, current: string, branch: string)
    requires forall k :: 0 <= k < |names| ==> PlainName(names[k])
    requires branch != "" && StripOrigin(branch) != ""
    ensures IsBranchMerged(branch, Some(Listing(names, current))) <==> branch in names || StripOrigin(branch) in names
  {
    ListingNames(names, current);
  }

  // ---------------------------------------------------------------------
  // getLocalBranches and getRemoteBranches
  // ---------------------------------------------------------------------

  /** The outcome of `git log -1` for one branch: it threw, or gave a commit date (if any). */
  datatype LogOutcome = LogFailed | LogOk(date: Option<int>)

  /** A missing commit date is replaced by the current instant. */
  function CommitDate(date: Option<int>, now: int): int {
    if date.Some? then date.value else now
  }

  /** The date a successful log call gives a record. */
  function LoggedDate(outcome: LogOutcome, now: int): int {
    if outcome.LogOk? then CommitDate(outcome.date, now) else now
  }

  /** The record `getLocalBranches` pushes for one name. */
  function LocalRecord(name: string, defaultBranch: string, currentBranch: string, date: int, merged: Option<seq<string>>)
    : Branch
  {
    Branch(name, true, false, date, InMerged(name, merged),
           name == defaultBranch || MatchesProtectedPattern(name), name == currentBranch)
  }

  /**
   * What `getLocalBranches` returns for a listing: one record per name, in
   * order, up to the first name whose log call throws.
   */
  function LocalListing(names: seq<string>, log: string -> LogOutcome, merged: Option<seq<string>>,
                        defaultBranch: string, currentBranch: string, now: int): (r: seq<Branch>)
    ensures |r| <= |names|
  {
    if names == [] then []
    else
      match log(names[0])
      case LogFailed => []
      case LogOk(date) =>
        var rest := LocalListing(names[1..], log, merged, defaultBranch, currentBranch, now);
        [LocalRecord(names[0], defaultBranch, currentBranch, CommitDate(date, now), merged)] + rest
  }

  /** The records follow the names one for one until the first failing log call, which ends the list. */
  lemma {:induction false} LocalListingShape(names: seq<string>, log: string -> LogOutcome, merged: Option<seq<string>>,
                                             defaultBranch: string, currentBranch: string, now: int)
    ensures var r := LocalListing(names, log, merged, defaultBranch, currentBranch, now);
            && (forall k :: 0 <= k < |r| ==>
                  log(names[k]).LogOk?
                  && r[k] == LocalRecord(names[k], defaultBranch, currentBranch, LoggedDate(log(names[k]), now), merged))
            && (|r| < |names| ==> log(names[|r|]).LogFailed?)
  {
    if names != [] && log(names[0]).LogOk? {
      LocalListingShape(names[1..], log, merged, defaultBranch, currentBranch, now);
    }
  }

  lemma LocalListingCons(names: seq<string>, log: string -> LogOutcome, merged: Option<seq<string>>,
                         defaultBranch: string, currentBranch: string, now: int)
    requires names != []
    ensures LocalListing(names, log, merged, defaultBranch, currentBranch, now)
            == if log(names[0]).LogFailed? then []
               else [LocalRecord(names[0], defaultBranch, currentBranch, LoggedDate(log(names[0]), now), merged)]
                    + LocalListing(names[1..], log, merged, defaultBranch, currentBranch, now)
  {
  }

  /** Every local record is local only, current exactly for the checked-out name, protected by name. */
  lemma LocalRecordFields(names: seq<string>, log: string -> LogOutcome, merged: Option<seq<string>>,
                          defaultBranch: string, currentBranch: string, now: int)
    ensures forall b :: b in LocalListing(names, log, merged, defaultBranch, currentBranch, now) ==>
              && b.isLocal && !b.isRemote
              && (b.isCurrentBranch <==> b.name == currentBranch)
              && (b.isProtected <==> b.name == defaultBranch || MatchesProtectedPattern(b.name))
              && b.isMerged == InMerged(b.name, merged)
  {
    LocalListingShape(names, log, merged, defaultBranch, currentBranch, now);
  }

  /**
   * `getLocalBranches`, given the output of `git branch` (`None` when it
   * threw), the log outcome per branch and the output of `git branch
   * --merged <defaultBranch>`.  A throwing log call ends the loop, and the
   * records pushed so far are returned.
   */
  method GetLocalBranches(branchLocal: Option<seq<string>>, log: string -> LogOutcome, mergedOutput: Option<string>,
                          defaultBranch: string, currentBranch: string, now: int)
    returns (branches: seq<Branch>)
    ensures branches == if branchLocal.None? then []
                        else LocalListing(branchLocal.value, log, MergedList(mergedOutput), defaultBranch, currentBranch, now)
  {
    branches := [];
    if branchLocal.None? {
      return;
    }
    var all := branchLocal.value;
    var merged := MergedList(mergedOutput);
    assert all[0..] == all;
    var j := 0;
    while j < |all|
      invariant 0 <= j <= |all|
      invariant LocalListing(all, log, merged, defaultBranch, currentBranch, now)
                == branches + LocalListing(all[j..], log, merged, defaultBranch, currentBranch, now)
    {
      var branchName := all[j];
      ghost var rest := LocalListing(all[j + 1..], log, merged, defaultBranch, currentBranch, now);
      assert all[j..][0] == branchName && all[j..][1..] == all[j + 1..];
      LocalListingCons(all[j..], log, merged, defaultBranch, currentBranch, now);
      var logResult := log(branchName);
      if logResult.LogFailed? {
        assert branches + [] == branches;
        return;
      }
      var lastCommitDate := CommitDate(logResult.date, now);
      var record := LocalRecord(branchName, defaultBranch, currentBranch, lastCommitDate, merged);
      assert branches + ([record] + rest) == (branches + [record]) + rest;
      branches := branches + [record];
      j := j + 1;
    }
    assert LocalListing(all[j..], log, merged, defaultBranch, currentBranch, now) == [];
    assert branches + [] == branches;
  }

  /** A remote name is listed unless it mentions `HEAD` or is the default branch once `origin/` is stripped. */
  predicate KeptRemote(name: string, defaultBranch: string) {
    !Contains(name, "HEAD") && StripOrigin(name) != defaultBranch
  }

  /** The record `getRemoteBranches` pushes for one full remote name. */
  function RemoteRecord(name: string, defaultBranch: string, date: int, merged: Option<seq<string>>): Branch {
    var short := StripOrigin(name);
    Branch(short, false, true, date, InMerged(name, merged),
           short == defaultBranch || MatchesProtectedPattern(short), false)
  }

  /**
   * What `getRemoteBranches` returns for a listing: one record per kept
   * name, in order, up to the first kept name whose log call throws.
   */
  function RemoteListing(names: seq<string>, log: string -> LogOutcome, merged: Option<seq<string>>,
                         defaultBranch: string, now: int): (r: seq<Branch>)
    ensures |r| <= |names|
  {
    if names == [] then []
    else
      var rest := RemoteListing(names[1..], log, merged, defaultBranch, now);
      if !KeptRemote(names[0], defaultBranch) then rest
      else
        match log(names[0])
        case LogFailed => []
        case LogOk(date) => [RemoteRecord(names[0], defaultBranch, CommitDate(date, now), merged)] + rest
  }

  /** A name that is not kept adds nothing. */
  lemma RemoteListingSkip(names: seq<string>, log: string -> LogOutcome, merged: Option<seq<string>>,
                          defaultBranch: string, now: int)
    requires names != [] && !KeptRemote(names[0], defaultBranch)
    ensures RemoteListing(names, log, merged, defaultBranch, now) == RemoteListing(names[1..], log, merged, defaultBranch, now)
  {
  }

  /** A kept name whose log call throws ends the list. */
  lemma RemoteListingStop(names: seq<string>, log: string -> LogOutcome, merged: Option<seq<string>>,
                          defaultBranch: string, now: int)
    requires names != [] && KeptRemote(names[0], defaultBranch) && log(names[0]).LogFailed?
    ensures RemoteListing(names, log, merged, defaultBranch, now) == []
  {
  }

  /** A kept name whose log call succeeds adds its record in front of the rest. */
  lemma RemoteListingPush(names: seq<string>, log: string -> LogOutcome, merged: Option<seq<string>>,
                          defaultBranch: string, now: int)
    requires names != [] && KeptRemote(names[0], defaultBranch) && log(names[0]).LogOk?
    ensures RemoteListing(names, log, merged, defaultBranch, now)
            == [RemoteRecord(names[0], defaultBranch, CommitDate(log(names[0]).date, now), merged)]
               + RemoteListing(names[1..], log, merged, defaultBranch, now)
  {
  }

  /**
   * Every remote record is remote only, never the checked-out branch, never
   * the default branch, protected exactly by the fixed list, and named after
   * a listed name that was kept.
   */
  lemma {:induction false} RemoteRecordFields(names: seq<string>, log: string -> LogOutcome, merged: Option<seq<string>>,
                                              defaultBranch: string, now: int)
    ensures forall b :: b in RemoteListing(names, log, merged, defaultBranch, now) ==>
              && !b.isLocal && b.isRemote && !b.isCurrentBranch
              && b.name != defaultBranch
              && (b.isProtected <==> MatchesProtectedPattern(b.name))
              && exists n :: n in names && KeptRemote(n, defaultBranch) && b.name == StripOrigin(n)
  {
    if names != [] {
      RemoteRecordFields(names[1..], log, merged, defaultBranch, now);
      assert forall n :: n in names[1..] ==> n in names;
      assert names[0] in names;
    }
  }

  /** When every log call succeeds, the records are exactly those of the kept names, in listing order. */
  lemma {:induction false} RemoteListingAllLogged(names: seq<string>, log: string -> LogOutcome, merged: Option<seq<string>>,
                                                  defaultBranch: string, now: int)
    requires forall n :: n in names ==> log(n).LogOk?
    ensures var kept := Filter(names, KeepFor(defaultBranch));
            RemoteListing(names, log, merged, defaultBranch, now) == RemoteRecords(kept, log, merged, defaultBranch, now)
  {
    if names != [] {
      assert forall n :: n in names[1..] ==> n in names;
      RemoteListingAllLogged(names[1..], log, merged, defaultBranch, now);
      assert names == [names[0]] + names[1..];
      FilterCons(names[0], names[1..], KeepFor(defaultBranch));
      assert names[0] in names;
      var tail := Filter(names[1..], KeepFor(defaultBranch));
      if KeptRemote(names[0], defaultBranch) {
        assert ([names[0]] + tail)[1..] == tail;
      }
    }
  }

  function KeepFor(defaultBranch: string): string -> bool {
    (n: string) => KeptRemote(n, defaultBranch)
  }

  /** The records of the given full names, one each, in order. */
  function RemoteRecords(names: seq<string>, log: string -> LogOutcome, merged: Option<seq<string>>,
                         defaultBranch: string, now: int): seq<Branch>
  {
    if names == [] then []
    else [RemoteRecord(names[0], defaultBranch, LoggedDate(log(names[0]), now), merged)]
         + RemoteRecords(names[1..], log, merged, defaultBranch, now)
  }

  /**
   * `getRemoteBranches`, given the output of `git branch -r` (`None` when it
   * or the preceding `git fetch --prune` threw), the log outcome per full
   * remote name and the output of `git branch --merged origin/<defaultBranch>`.
   */
  method GetRemoteBranches(remoteNames: Option<seq<string>>, log: string -> LogOutcome, mergedOutput: Option<string>,
                           defaultBranch: string, now: int)
    returns (branches: seq<Branch>)
    ensures branches == if remoteNames.None? then []
                        else RemoteListing(remoteNames.value, log, MergedList(mergedOutput), defaultBranch, now)
  {
    branches := [];
    if remoteNames.None? {
      return;
    }
    var all := remoteNames.value;
    var merged := MergedList(mergedOutput);
    assert all[0..] == all;
    var j := 0;
    while j < |all|
      invariant 0 <= j <= |all|
      invariant RemoteListing(all, log, merged, defaultBranch, now)
                == branches + RemoteListing(all[j..], log, merged, defaultBranch, now)
    {
      var branchName := all[j];
      ghost var rest := RemoteListing(all[j + 1..], log, merged, defaultBranch, now);
      assert all[j..][0] == branchName && all[j..][1..] == all[j + 1..];
      if Contains(branchName, "HEAD") {
        RemoteListingSkip(all[j..], log, merged, defaultBranch, now);
        j := j + 1;
        continue;
      }
      var shortName := StripOrigin(branchName);
      if shortName == defaultBranch {
        RemoteListingSkip(all[j..], log, merged, defaultBranch, now);
        j := j + 1;
        continue;
      }
      var logResult := log(branchName);
      if logResult.LogFailed? {
        RemoteListingStop(all[j..], log, merged, defaultBranch, now);
        assert branches + [] == branches;
        return;
      }
      var lastCommitDate := CommitDate(logResult.date, now);
      var record := RemoteRecord(branchName, defaultBranch, lastCommitDate, merged);
      RemoteListingPush(all[j..], log, merged, defaultBranch, now);
      assert branches + ([record] + rest) == (branches + [record]) + rest;
      branches := branches + [record];
      j := j + 1;
    }
    assert RemoteListing(all[j..], log, merged, defaultBranch, now) == [];
    assert branches + [] == branches;
  }

  // ---------------------------------------------------------------------
  // deleteLocalBranch and deleteRemoteBranch
  // ---------------------------------------------------------------------

  /** The arguments of `git branch` that delete a local branch; only a forced delete uses the upper-case flag. */
  function DeleteLocalArgs(name: string, force: bool): (args: seq<string>)
    ensures |args| == 3 && args[0] == "branch" && args[2] == name
    ensures args[1] == "-D" <==> force
    ensures args[1] == "-d" <==> !force
  {
    ["branch", if force then "-D" else "-d", name]
  }

  /** The arguments of `git push` that delete a branch on a remote. */
  function DeleteRemoteArgs(name: string, remote: string): (args: seq<string>)
    ensures |args| == 4 && args[0] == "push" && args[1] == remote && args[3] == name
    ensures args[2] == "--delete"
  {
    ["push", remote, "--delete", name]
  }
}
