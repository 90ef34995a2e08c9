/**
 * The branch pipeline: merging the local and remote listings by name,
 * dropping protected and checked-out branches, the OR of the active
 * filters, ordering by age and the counts shown to the user.
 */
module BranchAnalyzer {
  import opened Text
  import opened Types
  import opened DateUtil
  import opened Glob
  import opened Seqs

  // ---------------------------------------------------------------------
  // filterBranches
  // ---------------------------------------------------------------------

  predicate HasFilters(f: FilterOptions) {
    f.merged || f.stale || f.pattern || f.age
  }

  /**
   * The `matches` list built for one branch: one entry per active toggle,
   * in the order merged, stale, age, pattern; an empty pattern adds nothing.
   */
  function ActiveMatches(b: Branch, f: FilterOptions, now: int): seq<bool> {
    (if f.merged then [b.isMerged] else [])
    + (if f.stale then [IsOlderThan(b.lastCommitDate, f.staleDays, now)] else [])
    + (if f.age then [IsOlderThan(b.lastCommitDate, f.ageDays, now)] else [])
    + (if f.pattern && f.patternValue != "" then [Matches(b.name, f.patternValue)] else [])
  }

  /** `matches.some(m => m === true)`: some active criterion holds (OR, not AND). */
  function Keep(b: Branch, f: FilterOptions, now: int): (r: bool)
    ensures r <==>
              || (f.merged && b.isMerged)
              || (f.stale && IsOlderThan(b.lastCommitDate, f.staleDays, now))
              || (f.age && IsOlderThan(b.lastCommitDate, f.ageDays, now))
              || (f.pattern && f.patternValue != "" && Matches(b.name, f.patternValue))
  {
    true in ActiveMatches(b, f, now)
  }

  /** Whether `filterBranches` lets `b` through. */
  predicate Listed(b: Branch, f: FilterOptions, now: int) {
    Eligible(b) && (!HasFilters(f) || Keep(b, f, now))
  }

  /**
   * `filterBranches`: protected and checked-out branches always go; with no
   * toggle on the rest stays, otherwise a branch stays when some active
   * criterion holds.  The output keeps the input order and multiplicity.
   */
  function FilterBranches(bs: seq<Branch>, f: FilterOptions, now: int): (r: seq<Branch>)
    ensures IsSubsequence(r, bs)
    ensures forall b :: multiset(r)[b] == if Listed(b, f, now) then multiset(bs)[b] else 0
    ensures forall b :: b in r ==> Eligible(b)
  {
    var eligible := Filter(bs, Eligible);
    assert forall b :: multiset(eligible)[b] == if Eligible(b) then multiset(bs)[b] else 0 by {
      forall b ensures multiset(eligible)[b] == if Eligible(b) then multiset(bs)[b] else 0 {
        FilterCount(bs, Eligible, b);
      }
    }
    if !HasFilters(f) then eligible
    else
      var keep := (b: Branch) => Keep(b, f, now);
      var r := Filter(eligible, keep);
      assert forall b :: multiset(r)[b] == if keep(b) then multiset(eligible)[b] else 0 by {
        forall b ensures multiset(r)[b] == if keep(b) then multiset(eligible)[b] else 0 {
          FilterCount(eligible, keep, b);
        }
      }
      SubsequenceTransitive(r, eligible, bs);
      r
  }

  /** The pattern toggle alone with an empty pattern lets nothing through. */
  lemma EmptyPatternAloneListsNothing(bs: seq<Branch>, f: FilterOptions, now: int)
    requires f.pattern && !f.merged && !f.stale && !f.age && f.patternValue == ""
    ensures FilterBranches(bs, f, now) == []
  {
    var r := FilterBranches(bs, f, now);
    assert forall b :: !Listed(b, f, now);
    assert multiset(r) == multiset{};
  }

  /** A merged but recent branch stays when both `merged` and `stale` are on. */
  lemma OrNotAnd(b: Branch, f: FilterOptions, now: int)
    requires Eligible(b) && b.isMerged && !IsOlderThan(b.lastCommitDate, f.staleDays, now)
    requires f.merged && f.stale
    ensures b in FilterBranches([b], f, now)
  {
    var r := FilterBranches([b], f, now);
    assert multiset([b])[b] == 1;
    assert multiset(r)[b] == 1;
  }

  // ---------------------------------------------------------------------
  // fetchBranches
  // ---------------------------------------------------------------------

  /** `findIndex` by name: the first position holding `name`, `|bs|` when none. */
  function IndexOfName(bs: seq<Branch>, name: string): (i: nat)
    ensures i <= |bs|
    ensures forall k :: 0 <= k < i ==> bs[k].name != name
    ensures i < |bs| ==> bs[i].name == name
  {
    if bs == [] then 0
    else if bs[0].name == name then 0
    else 1 + IndexOfName(bs[1..], name)
  }

  /** One remote entry into the accumulated list: flag an entry of that name, or append. */
  function MergeOne(acc: seq<Branch>, r: Branch): seq<Branch> {
    var i := IndexOfName(acc, r.name);
    if i < |acc| then acc[i := acc[i].(isRemote := true)] else acc + [r]
  }

  /** The `both` scope: the remote entries folded into the local list in remote order. */
  function MergeRemote(local: seq<Branch>, remote: seq<Branch>): seq<Branch>
    decreases |remote|
  {
    if remote == [] then local
    else MergeOne(MergeRemote(local, remote[..|remote| - 1]), remote[|remote| - 1])
  }

  /** What `fetchBranches` returns for a scope, given the two listings. */
  function Fetched(scope: BranchScope, local: seq<Branch>, remote: seq<Branch>): seq<Branch> {
    match scope
    case LocalScope => local
    case RemoteScope => remote
    case BothScopes => MergeRemote(local, remote)
  }

  /** `branches.findIndex(b => b.name === name)`: -1 when no entry has that name. */
  method FindIndexByName(bs: seq<Branch>, name: string) returns (index: int)
    ensures -1 <= index < |bs|
    ensures index >= 0 ==> bs[index].name == name
    ensures forall k :: 0 <= k < |bs| && (index < 0 || k < index) ==> bs[k].name != name
  {
    index := 0;
    while index < |bs|
      invariant 0 <= index <= |bs|
      invariant forall k :: 0 <= k < index ==> bs[k].name != name
    {
      if bs[index].name == name {
        return;
      }
      index := index + 1;
    }
    index := -1;
  }

  /**
   * `fetchBranches` with the two git listings passed in.  For `both`, each
   * remote entry whose name is already listed only sets `isRemote` on that
   * entry; the others are appended.
   */
  method FetchBranches(scope: BranchScope, local: seq<Branch>, remote: seq<Branch>)
    returns (branches: seq<Branch>)
    ensures branches == Fetched(scope, local, remote)
  {
    branches := [];
    if scope == LocalScope || scope == BothScopes {
      branches := branches + local;
    }
    if scope == RemoteScope || scope == BothScopes {
      if scope == BothScopes {
        assert remote[..0] == [];
        for j := 0 to |remote|
          invariant branches == MergeRemote(local, remote[..j])
        {
          var remoteBranch := remote[j];
          assert remote[..j + 1][..j] == remote[..j];
          var existingIndex := FindIndexByName(branches, remoteBranch.name);
          if existingIndex >= 0 {
            assert existingIndex == IndexOfName(branches, remoteBranch.name);
            branches := branches[existingIndex := branches[existingIndex].(isRemote := true)];
          } else {
            assert IndexOfName(branches, remoteBranch.name) == |branches|;
            branches := branches + [remoteBranch];
          }
        }
        assert remote[..|remote|] == remote;
      } else {
        branches := remote;
      }
    }
  }

  function Names(bs: seq<Branch>): set<string> {
    set b | b in bs :: b.name
  }

  predicate UniqueNames(bs: seq<Branch>) {
    forall i, j :: 0 <= i < j < |bs| ==> bs[i].name != bs[j].name
  }

  /** Every local entry, flagged remote when its name is in `names`. */
  function MarkRemote(bs: seq<Branch>, names: set<string>): (r: seq<Branch>)
    ensures |r| == |bs|
  {
    seq(|bs|, i requires 0 <= i < |bs| => if bs[i].name in names then bs[i].(isRemote := true) else bs[i])
  }

  lemma NamesAppend(bs: seq<Branch>, b: Branch)
    ensures Names(bs + [b]) == Names(bs) + {b.name}
  {
    assert forall x :: x in bs + [b] <==> x in bs || x == b;
  }

  /** The merged list names exactly the local and the remote names. */
  lemma {:induction false} MergeNames(local: seq<Branch>, remote: seq<Branch>)
    ensures Names(MergeRemote(local, remote)) == Names(local) + Names(remote)
    decreases |remote|
  {
    if remote != [] {
      var front, r := remote[..|remote| - 1], remote[|remote| - 1];
      assert remote == front + [r];
      NamesAppend(front, r);
      MergeNames(local, front);
      MergeOneNames(MergeRemote(local, front), r);
    }
  }

  /** Folding in one remote entry adds its name and no other. */
  lemma MergeOneNames(acc: seq<Branch>, r: Branch)
    ensures Names(MergeOne(acc, r)) == Names(acc) + {r.name}
  {
    var i := IndexOfName(acc, r.name);
    if i < |acc| {
      FlagKeepsNames(acc, i);
    } else {
      NamesAppend(acc, r);
    }
  }

  /** Setting `isRemote` on one entry leaves the names as they were. */
  lemma FlagKeepsNames(acc: seq<Branch>, i: nat)
    requires i < |acc|
    ensures Names(acc[i := acc[i].(isRemote := true)]) == Names(acc)
  {
    var acc' := acc[i := acc[i].(isRemote := true)];
    forall x | x in Names(acc) ensures x in Names(acc') {
      var b :| b in acc && b.name == x;
      var k :| 0 <= k < |acc| && acc[k] == b;
      assert acc'[k].name == x;
    }
    forall x | x in Names(acc') ensures x in Names(acc) {
      var b :| b in acc' && b.name == x;
      var k :| 0 <= k < |acc'| && acc'[k] == b;
      assert acc[k].name == x;
    }
  }

  /** However often a name recurs remotely, the merged list holds it once. */
  lemma {:induction false} MergeKeepsNamesUnique(local: seq<Branch>, remote: seq<Branch>)
    requires UniqueNames(local)
    ensures UniqueNames(MergeRemote(local, remote))
    decreases |remote|
  {
    if remote != [] {
      var front, r := remote[..|remote| - 1], remote[|remote| - 1];
      MergeKeepsNamesUnique(local, front);
      var acc := MergeRemote(local, front);
      var i := IndexOfName(acc, r.name);
      if i < |acc| {
        var acc' := acc[i := acc[i].(isRemote := true)];
        assert forall k :: 0 <= k < |acc| ==> acc'[k].name == acc[k].name;
      } else {
        var acc' := acc + [r];
        forall p, q | 0 <= p < q < |acc'| ensures acc'[p].name != acc'[q].name {
          if q == |acc| {
            assert acc[p].name != r.name;
          } else {
            assert acc'[p] == acc[p] && acc'[q] == acc[q];
          }
        }
      }
    }
  }

  lemma {:induction false} IndexOfNameConcat(a: seq<Branch>, b: seq<Branch>, name: string)
    ensures IndexOfName(a + b, name)
            == if IndexOfName(a, name) < |a| then IndexOfName(a, name) else |a| + IndexOfName(b, name)
  {
    if a != [] {
      assert (a + b)[1..] == a[1..] + b;
      IndexOfNameConcat(a[1..], b, name);
    } else {
      assert a + b == b;
    }
  }

  lemma {:induction false} IndexOfNameSameNames(a: seq<Branch>, b: seq<Branch>, name: string)
    requires |a| == |b| && forall k :: 0 <= k < |a| ==> a[k].name == b[k].name
    ensures IndexOfName(a, name) == IndexOfName(b, name)
  {
    if a != [] {
      IndexOfNameSameNames(a[1..], b[1..], name);
    }
  }

  function NameNotIn(names: set<string>): Branch -> bool {
    (b: Branch) => b.name !in names
  }

  /** A remote entry whose name is local flags that one local entry. */
  lemma MergeStepKnown(local: seq<Branch>, names: set<string>, rest: seq<Branch>, r: Branch, i0: nat)
    requires UniqueNames(local)
    requires i0 < |local| && local[i0].name == r.name
    ensures MergeOne(MarkRemote(local, names) + rest, r) == MarkRemote(local, names + {r.name}) + rest
  {
    var marked := MarkRemote(local, names);
    IndexOfNameConcat(marked, rest, r.name);
    IndexOfNameSameNames(marked, local, r.name);
    assert IndexOfName(local, r.name) == i0;
    UpdateInFront(marked, rest, i0, marked[i0].(isRemote := true));
    MarkOneMore(local, names, i0);
  }

  /** Updating a position of the front part of a concatenation leaves the back alone. */
  lemma UpdateInFront<T>(a: seq<T>, b: seq<T>, i: nat, v: T)
    requires i < |a|
    ensures (a + b)[i := v] == a[i := v] + b
  {
  }

  /** Marking one more name of a unique list flags exactly the entry that bears it. */
  lemma MarkOneMore(local: seq<Branch>, names: set<string>, i0: nat)
    requires UniqueNames(local)
    requires i0 < |local|
    ensures var marked := MarkRemote(local, names);
            marked[i0 := marked[i0].(isRemote := true)] == MarkRemote(local, names + {local[i0].name})
  {
    var marked := MarkRemote(local, names);
    var flagged := marked[i0 := marked[i0].(isRemote := true)];
    var target := MarkRemote(local, names + {local[i0].name});
    forall k | 0 <= k < |local| ensures flagged[k] == target[k] {
      if k != i0 {
        assert local[k].name != local[i0].name;
      }
    }
  }

  /** A remote entry whose name is new is appended. */
  lemma MergeStepNew(local: seq<Branch>, names: set<string>, rest: seq<Branch>, r: Branch)
    requires r.name !in Names(local)
    requires forall k :: 0 <= k < |rest| ==> rest[k].name != r.name
    ensures MergeOne(MarkRemote(local, names) + rest, r) == MarkRemote(local, names + {r.name}) + (rest + [r])
  {
    var marked := MarkRemote(local, names);
    IndexOfNameConcat(marked, rest, r.name);
    IndexOfNameSameNames(marked, local, r.name);
    assert IndexOfName(local, r.name) == |local|;
    var target := MarkRemote(local, names + {r.name});
    forall k | 0 <= k < |local| ensures marked[k] == target[k] {
      assert local[k] in local;
    }
    assert marked == target;
  }

  /**
   * With names unique on each side (as git lists them), merging gives every
   * local entry, in order and unchanged except that `isRemote` is set when
   * the name is also remote, followed by the remote-only entries in remote order.
   */
  lemma {:induction false} MergeShape(local: seq<Branch>, remote: seq<Branch>)
    requires UniqueNames(local) && UniqueNames(remote)
    ensures MergeRemote(local, remote)
            == MarkRemote(local, Names(remote)) + Filter(remote, NameNotIn(Names(local)))
    decreases |remote|
  {
    var notLocal := NameNotIn(Names(local));
    if remote == [] {
      assert Names(remote) == {};
      assert MarkRemote(local, {}) == local;
    } else {
      var front, r := remote[..|remote| - 1], remote[|remote| - 1];
      UniqueLast(remote);
      MergeShape(local, front);
      NamesAppend(front, r);
      FilterAppend(front, r, notLocal);
      var rest := Filter(front, notLocal);
      LastNotInFiltered(front, r, notLocal);
      assert Names(remote) == Names(front) + {r.name};
      assert Filter(remote, notLocal) == rest + (if notLocal(r) then [r] else []);
      assert MergeRemote(local, remote) == MergeOne(MarkRemote(local, Names(front)) + rest, r);
      if r.name in Names(local) {
        var b :| b in local && b.name == r.name;
        var i0 :| 0 <= i0 < |local| && local[i0] == b;
        MergeStepKnown(local, Names(front), rest, r, i0);
        assert !notLocal(r);
      } else {
        MergeStepNew(local, Names(front), rest, r);
        assert notLocal(r);
      }
    }
  }

  /** In a list of unique names, the front is unique and the last name occurs nowhere in it. */
  lemma UniqueLast(bs: seq<Branch>)
    requires bs != [] && UniqueNames(bs)
    ensures bs == bs[..|bs| - 1] + [bs[|bs| - 1]]
    ensures UniqueNames(bs[..|bs| - 1])
    ensures forall k :: 0 <= k < |bs| - 1 ==> bs[k].name != bs[|bs| - 1].name
  {
  }

  /** What the selection keeps of a front that lacks a name lacks it too. */
  lemma LastNotInFiltered(front: seq<Branch>, r: Branch, p: Branch -> bool)
    requires forall k :: 0 <= k < |front| ==> front[k].name != r.name
    ensures forall k :: 0 <= k < |Filter(front, p)| ==> Filter(front, p)[k].name != r.name
  {
    var rest := Filter(front, p);
    forall k | 0 <= k < |rest| ensures rest[k].name != r.name {
      assert rest[k] in rest;
      FilterMember(front, p, rest[k]);
      var j :| 0 <= j < |front| && front[j] == rest[k];
    }
  }

  // ---------------------------------------------------------------------
  // sortByAge and getBranchStats
  // ---------------------------------------------------------------------

  predicate SortedByAge(bs: seq<Branch>) {
    forall i, j :: 0 <= i < j < |bs| ==> bs[i].lastCommitDate <= bs[j].lastCommitDate
  }

  /** Places `b` before the first entry that is not older than it. */
  function InsertByAge(b: Branch, sorted: seq<Branch>): (r: seq<Branch>)
    ensures |r| == |sorted| + 1
  {
    if sorted == [] || b.lastCommitDate <= sorted[0].lastCommitDate then [b] + sorted
    else [sorted[0]] + InsertByAge(b, sorted[1..])
  }

  /** Inserting adds exactly the one entry. */
  lemma {:induction false} InsertByAgePermutes(b: Branch, sorted: seq<Branch>)
    ensures multiset(InsertByAge(b, sorted)) == multiset(sorted) + multiset{b}
  {
    if sorted != [] && b.lastCommitDate > sorted[0].lastCommitDate {
      InsertByAgePermutes(b, sorted[1..]);
      ConsMultiset(sorted);
    }
  }

  /** Inserting into a list sorted by age keeps it sorted. */
  lemma {:induction false} InsertByAgeSorted(b: Branch, sorted: seq<Branch>)
    requires SortedByAge(sorted)
    ensures SortedByAge(InsertByAge(b, sorted))
  {
    if sorted == [] || b.lastCommitDate <= sorted[0].lastCommitDate {
      ConsSorted(b, sorted);
    } else {
      var rest := InsertByAge(b, sorted[1..]);
      SortedTail(sorted);
      InsertByAgeSorted(b, sorted[1..]);
      InsertByAgePermutes(b, sorted[1..]);
      assert sorted == [sorted[0]] + sorted[1..];
      InsertHeadSorted(sorted[0], rest, b, sorted[1..]);
      ConsSorted(sorted[0], rest);
    }
  }

  lemma SortedTail(s: seq<Branch>)
    requires s != [] && SortedByAge(s)
    ensures SortedByAge(s[1..])
  {
    forall i, j | 0 <= i < j < |s| - 1 ensures s[1..][i].lastCommitDate <= s[1..][j].lastCommitDate {
      assert s[1..][i] == s[i + 1] && s[1..][j] == s[j + 1];
    }
  }

  lemma ConsMultiset(s: seq<Branch>)
    requires s != []
    ensures multiset(s) == multiset{s[0]} + multiset(s[1..])
  {
    assert s == [s[0]] + s[1..];
  }

  /** A head no younger than every later entry keeps a sorted list sorted. */
  lemma ConsSorted(head: Branch, s: seq<Branch>)
    requires SortedByAge(s)
    requires forall k :: 0 <= k < |s| ==> head.lastCommitDate <= s[k].lastCommitDate
    ensures SortedByAge([head] + s)
  {
    var r := [head] + s;
    forall i, j | 0 <= i < j < |r| ensures r[i].lastCommitDate <= r[j].lastCommitDate {
      assert r[j] == s[j - 1];
      if i > 0 {
        assert r[i] == s[i - 1];
      }
    }
  }

  lemma InsertHeadSorted(head: Branch, rest: seq<Branch>, b: Branch, tail: seq<Branch>)
    requires multiset(rest) == multiset(tail) + multiset{b}
    requires head.lastCommitDate < b.lastCommitDate
    requires SortedByAge([head] + tail)
    ensures forall k :: 0 <= k < |rest| ==> head.lastCommitDate <= rest[k].lastCommitDate
  {
    forall k | 0 <= k < |rest| ensures head.lastCommitDate <= rest[k].lastCommitDate {
      assert rest[k] in multiset(rest);
      if rest[k] != b {
        assert rest[k] in multiset(tail);
        assert rest[k] in tail;
        var j :| 0 <= j < |tail| && tail[j] == rest[k];
        assert ([head] + tail)[0] == head && ([head] + tail)[j + 1] == tail[j];
      }
    }
  }

  /**
   * `sortByAge`: oldest commit first.  `Array.prototype.sort` is stable, so
   * entries with the same date keep their relative order.
   */
  function SortByAge(bs: seq<Branch>): (r: seq<Branch>)
    ensures |r| == |bs|
  {
    if bs == [] then [] else InsertByAge(bs[0], SortByAge(bs[1..]))
  }

  /** The result is sorted oldest first and holds exactly the input entries. */
  lemma {:induction false} SortByAgeSorts(bs: seq<Branch>)
    ensures SortedByAge(SortByAge(bs))
    ensures multiset(SortByAge(bs)) == multiset(bs)
  {
    if bs != [] {
      SortByAgeSorts(bs[1..]);
      InsertByAgeSorted(bs[0], SortByAge(bs[1..]));
      InsertByAgePermutes(bs[0], SortByAge(bs[1..]));
      ConsMultiset(bs);
    }
  }

  function SameDate(t: int): Branch -> bool {
    (b: Branch) => b.lastCommitDate == t
  }

  /** The entries with date `t` come out of an insertion as they went in, `b` ahead of the others. */
  lemma {:induction false} InsertKeepsTies(b: Branch, sorted: seq<Branch>, t: int)
    ensures Filter(InsertByAge(b, sorted), SameDate(t))
            == (if b.lastCommitDate == t then [b] else []) + Filter(sorted, SameDate(t))
  {
    var p := SameDate(t);
    if sorted != [] && b.lastCommitDate > sorted[0].lastCommitDate {
      InsertKeepsTies(b, sorted[1..], t);
      InsertDeeper(b, sorted);
      FilterCons(sorted[0], InsertByAge(b, sorted[1..]), p);
      FilterCons(sorted[0], sorted[1..], p);
      TiesCommute(b, sorted, t);
    } else {
      assert InsertByAge(b, sorted) == [b] + sorted;
      FilterCons(b, sorted, p);
    }
  }

  lemma InsertDeeper(b: Branch, sorted: seq<Branch>)
    requires sorted != [] && b.lastCommitDate > sorted[0].lastCommitDate
    ensures InsertByAge(b, sorted) == [sorted[0]] + InsertByAge(b, sorted[1..])
    ensures sorted == [sorted[0]] + sorted[1..]
  {
  }

  /** An older head and a younger inserted entry never share a date, so their order among the ties is moot. */
  lemma TiesCommute(b: Branch, sorted: seq<Branch>, t: int)
    requires sorted != [] && b.lastCommitDate > sorted[0].lastCommitDate
    ensures var head := if sorted[0].lastCommitDate == t then [sorted[0]] else [];
            var mid := if b.lastCommitDate == t then [b] else [];
            var tail := Filter(sorted[1..], SameDate(t));
            head + (mid + tail) == mid + (head + tail)
  {
  }

  /** Stability: for every date, the entries with that date appear in input order. */
  lemma {:induction false} SortByAgeIsStable(bs: seq<Branch>, t: int)
    ensures Filter(SortByAge(bs), SameDate(t)) == Filter(bs, SameDate(t))
  {
    if bs != [] {
      SortByAgeIsStable(bs[1..], t);
      InsertKeepsTies(bs[0], SortByAge(bs[1..]), t);
    }
  }

  datatype BranchStats = BranchStats(total: nat, local: nat, remote: nat, merged: nat, protected: nat)

  /** `getBranchStats`: how many branches there are, and how many of them are local, remote, merged, protected. */
  function GetBranchStats(bs: seq<Branch>): (r: BranchStats)
    ensures r.total == |bs|
    ensures r.local <= r.total && r.remote <= r.total && r.merged <= r.total && r.protected <= r.total
    ensures r.local == |bs| <==> forall b :: b in bs ==> b.isLocal
  {
    var local := Filter(bs, (b: Branch) => b.isLocal);
    assert |local| == |bs| ==> local == bs by {
      if |local| == |bs| { FullFilterIsIdentity(bs, (b: Branch) => b.isLocal); }
    }
    assert forall b :: b in local ==> b.isLocal by {
      forall b | b in local ensures b.isLocal {
        FilterMember(bs, (b: Branch) => b.isLocal, b);
      }
    }
    assert (forall b :: b in bs ==> b.isLocal) ==> local == bs by {
      if forall b :: b in bs ==> b.isLocal { AllPassFilter(bs, (b: Branch) => b.isLocal); }
    }
    BranchStats(
      |bs|,
      |local|,
      |Filter(bs, (b: Branch) => b.isRemote)|,
      |Filter(bs, (b: Branch) => b.isMerged)|,
      |Filter(bs, (b: Branch) => b.isProtected)|)
  }

  /** When every branch is local or remote, the two counts together cover the total. */
  lemma {:induction false} LocalAndRemoteCoverTotal(bs: seq<Branch>)
    requires forall b :: b in bs ==> b.isLocal || b.isRemote
    ensures GetBranchStats(bs).local + GetBranchStats(bs).remote >= GetBranchStats(bs).total
  {
    if bs != [] {
      assert forall b :: b in bs[1..] ==> b in bs;
      LocalAndRemoteCoverTotal(bs[1..]);
      assert bs[0] in bs;
    }
  }
}
