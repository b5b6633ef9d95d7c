/** The size of the table along runs of the follow loop. */
module FollowSize {
  import opened Bytes
  import opened SpendTypes
  import opened NullifierTable
  import opened NullifierRemoval
  import opened Parsers
  import opened ChainTracker
  import opened FollowLoop
  import opened FollowLockstep
  import opened FollowTips
  import opened FollowTable
  import FollowGaps
  import FollowHistory

  predicate ChildOf(s: State, b: CompactBlock) {
    s.chain != [] && ToHashArray(b.prevHash) == Tip(s).hash
  }

  /** Whatever a run has been through, after each extending block the table is within its target, or without blocks. */
  lemma RunFitsTarget(g: BlockTree, states: seq<State>, bs: seq<CompactBlock>, n: nat)
    requires Follows(states, bs) && Lockstep(g, states[0]) && Ascending(g, states[0].currentHeight, bs) && n < |bs|
    requires ChildOf(states[n], bs[n])
    ensures states[n + 1].table.numEntries <= 1_000_000 || states[n + 1].table.blockIndex == map[]
  {
    FollowGaps.RunStep(g, states, bs, n);
    var cut := ExtendingBlock(g, states[n], bs[n]);
  }

  // ----- Without overflow

  lemma {:induction false} SumGrows(a: map<nat, nat>, b: map<nat, nat>)
    requires a.Keys <= b.Keys && forall h :: h in a ==> a[h] == b[h]
    ensures Sum(a) <= Sum(b)
    decreases |b|
  {
    if a != map[] {
      var h :| h in a;
      SumRemove(a, h);
      SumRemove(b, h);
      assert (b - {h}).Keys == b.Keys - {h};
      SumGrows(a - {h}, b - {h});
    }
  }

  // All entries but those of the newest block.
  predicate OthersFit(t: Table, tip: nat) {
    t.numEntries <= 1_000_000 + (if tip in t.blockIndex then |t.blockIndex[tip].slots| else 0)
  }

  // Dropping the newest block, and perhaps more, leaves at most the others.
  lemma BelowTipFits(t: Table, tip: nat, target: nat)
    requires Inv(t) && Clean(t) && OthersFit(t, tip) && target < tip
    ensures DropAbove(t, target).numEntries <= 1_000_000
  {
    var base := DropAbove(t, target);
    DropAboveKeeps(t, target);
    CountIsSum(t);
    CountIsSum(base);
    if tip in t.blockIndex {
      SizesRemove(t.blockIndex, tip);
      SumGrows(Sizes(base.blockIndex), Sizes(t.blockIndex - {tip}));
    } else {
      SumGrows(Sizes(base.blockIndex), Sizes(t.blockIndex));
    }
  }

  lemma RecordedSize(g: BlockTree, s: State, b: CompactBlock)
    requires Lockstep(g, s) && Clean(s.table) && Delivered(g, s, b) && Acceptable(s, b) && Fits(s, b)
    ensures var t := Handle(s, b).table;
            b.height in t.blockIndex && |t.blockIndex[b.height].slots| == |MetasFor(b, s.prevTreeSize)|
  {
    TipsAgree(g, s, b);
  }

  // A step that fits keeps all but the newest block within the target, and an extending one the whole table.
  lemma StepFits(g: BlockTree, s: State, b: CompactBlock)
    requires Lockstep(g, s) && Clean(s.table) && Delivered(g, s, b) && Acceptable(s, b) && Fits(s, b)
    requires OthersFit(s.table, Tip(s).height)
    ensures OthersFit(Handle(s, b).table, b.height)
    ensures ChildOf(s, b) ==> Handle(s, b).table.numEntries <= 1_000_000
  {
    RecordedSize(g, s, b);
    if ChildOf(s, b) {
      ChildExtends(g, s, b);
      var cut := ExtendingBlock(g, s, b);
    } else {
      var target := ReorganisingBlock(g, s, b);
      BelowTipFits(s.table, Tip(s).height, target);
    }
  }

  // What a step of the run has to work with.
  lemma StepOfRun(g: BlockTree, states: seq<State>, bs: seq<CompactBlock>, n: nat) returns (s: State)
    requires FollowHistory.CleanRun(g, states, bs) && n < |bs|
    ensures s == states[n] && Lockstep(g, s) && Clean(s.table) && Delivered(g, s, bs[n]) && Acceptable(s, bs[n])
    ensures Fits(s, bs[n]) && states[n + 1] == Handle(s, bs[n])
    ensures n > 0 ==> Tip(s).height == bs[n - 1].height
  {
    s := states[n];
    FollowHistory.CleanBefore(g, states, bs, n);
    FollowGaps.RunStep(g, states, bs, n);
    FollowGaps.RunTip(g, states, bs, n);
    assert FitsAt(states, bs, n);
  }

  // After n blocks the table is within its target, but for the newest block.
  ghost predicate FitsSoFar(states: seq<State>, n: nat) {
    n < |states| && states[n].chain != [] && OthersFit(states[n].table, Tip(states[n]).height)
  }

  lemma FitsOn(g: BlockTree, states: seq<State>, bs: seq<CompactBlock>, n: nat, next: nat)
    requires FollowHistory.CleanRun(g, states, bs) && next == n + 1 <= |bs| && FitsSoFar(states, n)
    ensures FitsSoFar(states, next)
    ensures ChildOf(states[n], bs[n]) ==> states[next].table.numEntries <= 1_000_000
  {
    var s := StepOfRun(g, states, bs, n);
    StepFits(g, s, bs[n]);
    HandleKeepsLockstep(g, s, bs[n]);
  }

  lemma {:induction false} AlwaysFits(g: BlockTree, states: seq<State>, bs: seq<CompactBlock>, n: nat)
    requires FollowHistory.CleanRun(g, states, bs) && states[0].table.numEntries <= 1_000_000 && n <= |bs|
    ensures FitsSoFar(states, n)
    decreases n
  {
    if n > 0 {
      AlwaysFits(g, states, bs, n - 1);
      FitsOn(g, states, bs, n - 1, n);
    }
  }

  /** Over a run in which every block fits, from a table within its target: after an extending block the table is
      within it again, and after a reorganising one it exceeds it by that block's own nullifiers at most. */
  lemma CleanRunFits(g: BlockTree, states: seq<State>, bs: seq<CompactBlock>, n: nat)
    requires FollowHistory.CleanRun(g, states, bs) && states[0].table.numEntries <= 1_000_000 && n < |bs|
    ensures states[n + 1].table.numEntries <= 1_000_000 + |MetasFor(bs[n], states[n].prevTreeSize)|
    ensures ChildOf(states[n], bs[n]) ==> states[n + 1].table.numEntries <= 1_000_000
  {
    AlwaysFits(g, states, bs, n);
    var s := StepOfRun(g, states, bs, n);
    StepFits(g, s, bs[n]);
    RecordedSize(g, s, bs[n]);
  }
}
