/** Where the follow loop stands: one tip for tracker, tree and table while nothing overflows. */
module FollowTips {
  import opened Bytes
  import opened SpendTypes
  import opened NullifierTable
  import opened NullifierRemoval
  import opened Parsers
  import opened ChainTracker
  import opened FollowLoop
  import opened FollowLockstep

  // ----- The tip, when nothing overflows

  // The block fits beside what is left of the table, and alone does not exceed the target size.
  ghost predicate Fits(s: State, b: CompactBlock)
    requires Acceptable(s, b)
  {
    InsertBlock(TableBase(s, b), b, s.prevTreeSize).1.Ok? && |MetasFor(b, s.prevTreeSize)| <= TARGET_SIZE
  }

  lemma SingleSum(sizes: map<nat, nat>, h: nat)
    requires sizes.Keys == {h}
    ensures Sum(sizes) == sizes[h]
  {
    SumRemove(sizes, h);
    assert sizes - {h} == map[];
  }

  // Of a table without leaks, only the newest block's entries would remain.
  lemma OnlyNewest(t: Table, h: nat)
    requires Inv(t) && Clean(t) && h in t.blockIndex && forall k :: k in t.blockIndex ==> k <= h
    ensures CountFrom(t.blockIndex, t.numEntries, h) == |t.blockIndex[h].slots|
  {
    CountIsSum(t);
    var only := Sizes(From(t.blockIndex, h));
    assert only.Keys == {h};
    SingleSum(only, h);
  }

  /** In a table without leaks, eviction takes the newest block exactly when that block alone exceeds the target. */
  lemma NewestSurvives(t: Table, h: nat)
    requires Inv(t) && Clean(t) && h in t.blockIndex && forall k :: k in t.blockIndex ==> k <= h
    ensures h in EvictToTarget(t).blockIndex <==> |t.blockIndex[h].slots| <= TARGET_SIZE
  {
    var cut := EvictionMinimal(t);
    OnlyNewest(t, h);
    assert h in From(t.blockIndex, h);
    if h in EvictToTarget(t).blockIndex {
      CountIsSum(t);
      SumRemove(Sizes(From(t.blockIndex, cut)), h);
    }
  }

  // What a successful insert leaves: the new block on top, and no leaks.
  lemma InsertedOnTop(t: Table, b: CompactBlock, prior: Option<u32>)
    requires Inv(t) && Clean(t) && NonZero(MetasFor(b, prior)) && InsertBlock(t, b, prior).1.Ok?
    requires b.height !in t.blockIndex && ToHashArray(b.hash) !in t.blockHashToHeight
    ensures var u := InsertBlock(t, b, prior).0;
            && Inv(u) && Clean(u) && u.blockIndex.Keys == t.blockIndex.Keys + {b.height} && RefsInRange(u)
            && Live(u)[b.height] == LiveBlock(ToHashArray(b.hash), MetasFor(b, prior))
            && |u.blockIndex[b.height].slots| == |MetasFor(b, prior)|
  {
    InsertAddsBlock(t, b.height, ToHashArray(b.hash), MetasFor(b, prior));
    assert Live(InsertBlock(t, b, prior).0)[b.height] == LiveBlock(ToHashArray(b.hash), MetasFor(b, prior));
  }

  lemma TableBaseClean(s: State, b: CompactBlock)
    requires Inv(s.table) && Clean(s.table)
    ensures Clean(TableBase(s, b))
  {
    var action := Push(s.chain, MAX_DEPTH, HeaderOf(b)).1;
    if action.Reorg? {
      DropAboveKeeps(s.table, action.rollbackTo);
    }
  }

  lemma EvictedBlock(t: Table, h: nat)
    requires Inv(t) && Clean(t) && RefsInRange(t) && h in EvictToTarget(t).blockIndex
    ensures Clean(EvictToTarget(t)) && RefsInRange(EvictToTarget(t)) && h in t.blockIndex
    ensures Live(EvictToTarget(t))[h] == Live(t)[h]
  {
    EvictionKeepsLater(t);
  }

  // Table and tree have the same newest block, and the table has no leaks.
  ghost predicate OneTip(s: State, l: Link) {
    && Shaped(s.table.buckets) && Clean(s.table)
    && LatestOf(s.table.blockIndex) == Some((l.height, l.hash))
    && s.tree.LatestHeight() == Some(l.height) && s.tree.LatestBlockHash() == Some(l.hash)
  }

  lemma EvictedTip(t: Table, b: CompactBlock, prior: Option<u32>)
    requires Inv(t) && Clean(t) && NonZero(MetasFor(b, prior)) && InsertBlock(t, b, prior).1.Ok?
    requires b.height !in t.blockIndex && ToHashArray(b.hash) !in t.blockHashToHeight
    requires |MetasFor(b, prior)| <= TARGET_SIZE && forall h :: h in t.blockIndex ==> h < b.height
    ensures Inv(InsertBlock(t, b, prior).0)
    ensures var u := EvictToTarget(InsertBlock(t, b, prior).0);
            && Clean(u) && RefsInRange(u) && b.height in u.blockIndex
            && Live(u)[b.height] == LiveBlock(ToHashArray(b.hash), MetasFor(b, prior))
  {
    InsertedOnTop(t, b, prior);
    var inserted := InsertBlock(t, b, prior).0;
    NewestSurvives(inserted, b.height);
    EvictedBlock(inserted, b.height);
  }

  /** When the block fits, the table's newest block is the tree's, it holds the block's nullifiers, and there are
      no leaks. */
  lemma TipsAgree(g: BlockTree, s: State, b: CompactBlock)
    requires Lockstep(g, s) && Clean(s.table) && Delivered(g, s, b) && Acceptable(s, b) && Fits(s, b)
    ensures var t := Handle(s, b).table;
            && OneTip(Handle(s, b), Link(b.height, ToHashArray(b.hash)))
            && RefsInRange(t) && b.height in t.blockIndex
            && Live(t)[b.height] == LiveBlock(ToHashArray(b.hash), MetasFor(b, s.prevTreeSize))
  {
    TableBaseClean(s, b);
    TableBaseBelow(g, s, b);
    InsertedOnTop(TableBase(s, b), b, s.prevTreeSize);
    EvictedTip(TableBase(s, b), b, s.prevTreeSize);
    NewestIs(TableAfter(s, b), s, b, g);
  }

  lemma NewestIs(t: Table, s: State, b: CompactBlock, g: BlockTree)
    requires Lockstep(g, s) && Delivered(g, s, b) && Acceptable(s, b) && t == TableAfter(s, b)
    requires b.height in t.blockIndex
    ensures LatestOf(t.blockIndex) == Some((b.height, ToHashArray(b.hash)))
  {
    forall h | h in t.blockIndex
      ensures h <= b.height && (h == b.height ==> t.blockIndex[h].blockHash == ToHashArray(b.hash))
    {
      TableAfterRange(g, s, b, h);
    }
  }

  // Every block of the run fits when its turn comes.
  ghost predicate AllFit(states: seq<State>, bs: seq<CompactBlock>)
    requires |states| == |bs| + 1
  {
    forall i :: 0 <= i < |bs| ==> FitsAt(states, bs, i)
  }

  ghost predicate FitsAt(states: seq<State>, bs: seq<CompactBlock>, i: nat)
    requires i < |bs| && i < |states|
  {
    Acceptable(states[i], bs[i]) ==> Fits(states[i], bs[i])
  }

  lemma StepEndsAtOneTip(g: BlockTree, s: State, b: CompactBlock, u: State)
    requires Lockstep(g, s) && Inv(s.table) && Clean(s.table) && Delivered(g, s, b) && Steps(s, b, u)
    requires Acceptable(s, b) ==> Fits(s, b)
    ensures OneTip(u, Link(b.height, ToHashArray(b.hash)))
  {
    DeliveredIsAcceptable(g, s, b);
    TipsAgree(g, s, b);
  }

  /** Over any run in which every block fits, table, tree and tracker stand at the same tip after each block. */
  lemma {:induction false} RunEndsAtOneTip(g: BlockTree, states: seq<State>, bs: seq<CompactBlock>, n: nat)
    requires Follows(states, bs) && Lockstep(g, states[0]) && AllDelivered(g, states, bs) && AllFit(states, bs)
    requires Shaped(states[0].table.buckets) && Clean(states[0].table) && 0 < n <= |bs|
    ensures InStepAt(g, states[n], bs[n - 1]) && OneTip(states[n], Tip(states[n]))
    decreases n
  {
    RunKeepsLockstep(g, states, bs, n - 1);
    RunKeepsLockstep(g, states, bs, n);
    if n > 1 {
      RunEndsAtOneTip(g, states, bs, n - 1);
    }
    assert DeliveredAt(g, states, bs, n - 1) && StepAt(states, bs, n - 1) && FitsAt(states, bs, n - 1);
    StepEndsAtOneTip(g, states[n - 1], bs[n - 1], states[n]);
  }
}
