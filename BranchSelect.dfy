/**
 * The branch selection step: the hint's location label, the selected
 * names and the keys that replace them (`a` all, `n` none, `i` invert),
 * and the branches handed on when Enter is pressed.
 */
module BranchSelect {
  import opened Types
  import opened Seqs

  /** Where a branch lives, as shown in its hint. */
  function Location(b: Branch): (loc: string)
    ensures loc == "local+remote" <==> b.isLocal && b.isRemote
    ensures loc == "local" <==> b.isLocal && !b.isRemote
    ensures loc == "remote" <==> !b.isLocal
  {
    if b.isLocal && b.isRemote then "local+remote"
    else if b.isLocal then "local"
    else "remote"
  }

  /** `branches.map(b => b.name)`. */
  function NamesOf(bs: seq<Branch>): (names: seq<string>)
    ensures |names| == |bs|
  {
    seq(|bs|, i requires 0 <= i < |bs| => bs[i].name)
  }

  function IsSelected(selected: seq<string>): Branch -> bool {
    (b: Branch) => b.name in selected
  }

  function NotSelected(selected: seq<string>): Branch -> bool {
    (b: Branch) => b.name !in selected
  }

  /** The names of the listed branches that are not selected, in list order. */
  function Inverted(bs: seq<Branch>, selected: seq<string>): seq<string> {
    NamesOf(Filter(bs, NotSelected(selected)))
  }

  /** The listed branches whose name is selected, in list order. */
  function Chosen(bs: seq<Branch>, selected: seq<string>): seq<Branch> {
    Filter(bs, IsSelected(selected))
  }

  /** A name is among the names of a list exactly when some branch of it bears that name. */
  lemma NamesOfMember(bs: seq<Branch>, x: string)
    ensures x in NamesOf(bs) <==> exists b :: b in bs && b.name == x
  {
    if x in NamesOf(bs) {
      var i :| 0 <= i < |bs| && NamesOf(bs)[i] == x;
      assert bs[i] in bs;
    }
    if exists b :: b in bs && b.name == x {
      var b :| b in bs && b.name == x;
      var i :| 0 <= i < |bs| && bs[i] == b;
      assert NamesOf(bs)[i] == x;
    }
  }

  /** Inverting gives exactly the listed names that were not selected. */
  lemma InvertedMember(bs: seq<Branch>, selected: seq<string>, x: string)
    ensures x in Inverted(bs, selected) <==> x in NamesOf(bs) && x !in selected
  {
    var kept := Filter(bs, NotSelected(selected));
    NamesOfMember(kept, x);
    NamesOfMember(bs, x);
    if x in NamesOf(bs) && x !in selected {
      var b :| b in bs && b.name == x;
      FilterMember(bs, NotSelected(selected), b);
    }
    if x in Inverted(bs, selected) {
      var b :| b in kept && b.name == x;
      FilterMember(bs, NotSelected(selected), b);
    }
  }

  /** Inverting twice a selection of listed names gives back the same set of names. */
  lemma InvertTwice(bs: seq<Branch>, selected: seq<string>)
    requires forall x :: x in selected ==> x in NamesOf(bs)
    ensures forall x :: x in Inverted(bs, Inverted(bs, selected)) <==> x in selected
  {
    forall x ensures x in Inverted(bs, Inverted(bs, selected)) <==> x in selected {
      InvertedMember(bs, Inverted(bs, selected), x);
      InvertedMember(bs, selected, x);
    }
  }

  /** Inverting an empty selection selects every listed name, in list order. */
  lemma InvertNothing(bs: seq<Branch>)
    ensures Inverted(bs, []) == NamesOf(bs)
  {
    AllPassFilter(bs, NotSelected([]));
  }

  /** Inverting a full selection selects nothing. */
  lemma InvertEverything(bs: seq<Branch>)
    ensures Inverted(bs, NamesOf(bs)) == []
  {
    var kept := Filter(bs, NotSelected(NamesOf(bs)));
    if kept != [] {
      FilterMember(bs, NotSelected(NamesOf(bs)), kept[0]);
      NamesOfMember(bs, kept[0].name);
      assert false;
    }
  }

  /** The branches handed on keep the list's order and are exactly those whose name is selected. */
  lemma ChosenBranches(bs: seq<Branch>, selected: seq<string>)
    ensures IsSubsequence(Chosen(bs, selected), bs)
    ensures forall b :: b in Chosen(bs, selected) <==> b in bs && b.name in selected
    ensures forall b :: multiset(Chosen(bs, selected))[b] == if b.name in selected then multiset(bs)[b] else 0
  {
    forall b ensures b in Chosen(bs, selected) <==> b in bs && b.name in selected {
      FilterMember(bs, IsSelected(selected), b);
    }
    forall b ensures multiset(Chosen(bs, selected))[b] == if b.name in selected then multiset(bs)[b] else 0 {
      FilterCount(bs, IsSelected(selected), b);
    }
  }

  /** One key press as the step receives it. */
  datatype KeyPress = KeyPress(input: string, escape: bool, enter: bool)

  /** What a key press leads to. */
  datatype Reaction = GoBack | Submit(selected: seq<Branch>) | Stay

  /** The step's state: the listed branches and the names currently selected. */
  class SelectStep {
    const branches: seq<Branch>
    var selectedValues: seq<string>
    /** Bumped to remount the list with the new default selection. */
    var selectKey: nat

    constructor (branches: seq<Branch>)
      ensures this.branches == branches && selectedValues == [] && selectKey == 0
    {
      this.branches := branches;
      selectedValues := [];
      selectKey := 0;
    }

    /** The list's own change handler: the selection becomes what was ticked. */
    method Change(values: seq<string>)
      modifies this
      ensures selectedValues == values && selectKey == old(selectKey)
    {
      selectedValues := values;
    }

    /**
     * The key handler: Esc goes back; Enter hands on the selected branches
     * when the selection is not empty; `a`, `n` and `i` replace the selection
     * by every name, no name or the names not selected.
     */
    method HandleInput(key: KeyPress) returns (reaction: Reaction)
      modifies this
      ensures key.escape ==> reaction == GoBack && selectedValues == old(selectedValues) && selectKey == old(selectKey)
      ensures !key.escape && key.enter && |old(selectedValues)| > 0 ==>
                && reaction == Submit(Chosen(branches, old(selectedValues)))
                && selectedValues == old(selectedValues) && selectKey == old(selectKey)
      ensures !key.escape && !(key.enter && |old(selectedValues)| > 0) ==>
                && reaction == Stay
                && selectedValues == (if key.input == "a" then NamesOf(branches)
                                      else if key.input == "n" then []
                                      else if key.input == "i" then Inverted(branches, old(selectedValues))
                                      else old(selectedValues))
                && selectKey == (if key.input in {"a", "n", "i"} then old(selectKey) + 1 else old(selectKey))
    {
      if key.escape {
        return GoBack;
      }
      if key.enter && |selectedValues| > 0 {
        return Submit(Filter(branches, IsSelected(selectedValues)));
      }
      reaction := Stay;
      if key.input == "a" {
        selectedValues := NamesOf(branches);
        selectKey := selectKey + 1;
      }
      if key.input == "n" {
        selectedValues := [];
        selectKey := selectKey + 1;
      }
      if key.input == "i" {
        selectedValues := NamesOf(Filter(branches, NotSelected(selectedValues)));
        selectKey := selectKey + 1;
      }
    }
  }
}
