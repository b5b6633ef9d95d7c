/** The positions that the combined loop records after it has skipped blocks. */
module FollowPositions {
  import opened Bytes
  import opened SpendTypes
  import opened Parsers
  import opened ChainTracker
  import opened WindowBootstrap
  import opened FollowLoop
  import opened FollowLockstep
  import opened WitnessGaps
  import FollowGaps
  import CT = CommitmentTree

  // The tree's size below the window, where the canonical blocks start.
  function SizeBelow(s: State): nat
    requires s.chain != [] && s.chain[0].height >= 1
  {
    CT.Rollback(s.tree, s.chain[0].height - 1).Size()
  }

  // The canonical blocks start at the window's first height, with right metadata, and leave it before its tip.
  ghost predicate SkipsWindow(g: BlockTree, s: State, canonical: seq<CompactBlock>) {
    && Lockstep(g, s) && Linked(canonical) && |s.chain| < |canonical| && canonical[0].height == s.chain[0].height
    && MetadataRight(canonical, SizeBelow(s))
    && ToHashArray(canonical[|s.chain|].prevHash) != Tip(s).hash
  }

  // The loop is given the canonical blocks from the height after its tip on.
  ghost predicate FedAfterGap(g: BlockTree, states: seq<State>, canonical: seq<CompactBlock>, bs: seq<CompactBlock>) {
    && Follows(states, bs) && SkipsWindow(g, states[0], canonical) && bs == canonical[|states[0].chain|..]
    && Ascending(g, states[0].currentHeight, bs)
  }

  // The reorganising block goes on top of what lies below the window.
  lemma BaseAfterGap(g: BlockTree, s: State, b: CompactBlock)
    requires Lockstep(g, s) && Genuine(g, HeaderOf(b)) && b.height == s.currentHeight + 1
    requires ToHashArray(b.prevHash) != Tip(s).hash
    ensures TreeBase(s, b).Size() == SizeBelow(s)
  {
    NextHeightNeverFindsFork(g, s.chain, MAX_DEPTH, HeaderOf(b));
    ExtendsIffChild(g, s.chain, MAX_DEPTH, HeaderOf(b));
  }

  lemma FirstBase(g: BlockTree, states: seq<State>, canonical: seq<CompactBlock>, bs: seq<CompactBlock>)
    requires FedAfterGap(g, states, canonical, bs)
    ensures TreeBase(states[0], bs[0]).Size() == SizeBelow(states[0])
  {
    var s := states[0];
    LinkedHeights(canonical, |s.chain|);
    TipHeight(g, s);
    assert AscendsAt(g, s.currentHeight, bs, 0);
    BaseAfterGap(g, s, bs[0]);
  }

  lemma TipHeight(g: BlockTree, s: State)
    requires Lockstep(g, s)
    ensures s.chain != [] && s.currentHeight + 1 == s.chain[0].height + |s.chain|
  {
  }

  // A child of the tip goes on top of the whole tree.
  lemma ChildBase(g: BlockTree, s: State, b: CompactBlock)
    requires Lockstep(g, s) && Delivered(g, s, b) && ToHashArray(b.prevHash) == Tip(s).hash
    ensures TreeBase(s, b) == s.tree
  {
    ExtendsIffChild(g, s.chain, MAX_DEPTH, HeaderOf(b));
  }

  // Each later block extends the one before it.
  lemma LaterBase(g: BlockTree, states: seq<State>, canonical: seq<CompactBlock>, bs: seq<CompactBlock>, k: nat,
                  next: nat)
    requires FedAfterGap(g, states, canonical, bs) && next == k + 1 < |bs|
    ensures TreeBase(states[next], bs[next]) == states[next].tree
  {
    FollowGaps.RunStep(g, states, bs, next);
    FollowGaps.RunTip(g, states, bs, next);
    NextLinked(canonical, bs, |states[0].chain|, k, next);
    ChildBase(g, states[next], bs[next]);
  }

  lemma NextBase(g: BlockTree, states: seq<State>, canonical: seq<CompactBlock>, bs: seq<CompactBlock>, k: nat,
                 next: nat)
    requires FedAfterGap(g, states, canonical, bs) && next == k + 1 < |bs|
    ensures TreeBase(states[next], bs[next]).Size()
            == TreeBase(states[k], bs[k]).Size() + |CommitmentsOf(bs[k].vtx)|
  {
    LaterBase(g, states, canonical, bs, k, next);
    FollowGaps.RunStep(g, states, bs, k);
    HandledSize(states[k], bs[k]);
  }

  lemma NextLinked(canonical: seq<CompactBlock>, bs: seq<CompactBlock>, n: nat, k: nat, next: nat)
    requires Linked(canonical) && n <= |canonical| && bs == canonical[n..] && next == k + 1 < |bs|
    ensures ToHashArray(bs[next].prevHash) == ToHashArray(bs[k].hash)
  {
    assert LinkedAt(canonical, n + next);
  }

  lemma HandledSize(s: State, b: CompactBlock)
    requires Acceptable(s, b)
    ensures Handle(s, b).tree.Size() == TreeBase(s, b).Size() + |CommitmentsOf(b.vtx)|
  {
  }

  lemma LeavesUpTo(canonical: seq<CompactBlock>, m: nat)
    requires m < |canonical|
    ensures |ChainLeaves(canonical[..m + 1])| == |ChainLeaves(canonical[..m])| + |CommitmentsOf(canonical[m].vtx)|
  {
    assert canonical[..m + 1][..m] == canonical[..m];
  }

  // Before block k, which is canonical block number `at`, the tree lacks the leaves of the first n canonical blocks.
  ghost predicate LagsAt(states: seq<State>, canonical: seq<CompactBlock>, bs: seq<CompactBlock>, n: nat, start: nat,
                         k: nat, at: nat)
    requires k < |bs| && k < |states| && n <= |canonical| && at <= |canonical|
  {
    Lags(TreeBase(states[k], bs[k]).Size(), |ChainLeaves(canonical[..n])|, start, |ChainLeaves(canonical[..at])|)
  }

  predicate Lags(size: nat, skipped: nat, start: nat, soFar: nat) {
    size + skipped == start + soFar
  }

  lemma LagStays(g: BlockTree, states: seq<State>, canonical: seq<CompactBlock>, bs: seq<CompactBlock>, n: nat,
                 start: nat, k: nat, next: nat, at: nat, after: nat)
    requires FedAfterGap(g, states, canonical, bs) && next == k + 1 < |bs| && n <= |canonical|
    requires at < |canonical| && canonical[at] == bs[k] && after == at + 1
    requires LagsAt(states, canonical, bs, n, start, k, at)
    ensures LagsAt(states, canonical, bs, n, start, next, after)
  {
    NextBase(g, states, canonical, bs, k, next);
    LeavesUpTo(canonical, at);
  }

  lemma {:induction false} SizesAfter(g: BlockTree, states: seq<State>, canonical: seq<CompactBlock>,
                                      bs: seq<CompactBlock>, n: nat, start: nat, k: nat, at: nat)
    requires FedAfterGap(g, states, canonical, bs) && n == |states[0].chain| && k < |bs| && at == n + k
    requires start == SizeBelow(states[0])
    ensures LagsAt(states, canonical, bs, n, start, k, at)
    decreases k
  {
    if k == 0 {
      FirstBase(g, states, canonical, bs);
    } else {
      SizesAfter(g, states, canonical, bs, n, start, k - 1, at - 1);
      LagStays(g, states, canonical, bs, n, start, k - 1, k, at - 1, at);
    }
  }

  // What the metadata says of the size before a canonical block.
  lemma MetadataSays(canonical: seq<CompactBlock>, start: nat, m: nat)
    requires MetadataRight(canonical, start) && m < |canonical| && WellFormedTxs(canonical[m].vtx)
    ensures MetadataMatches(canonical[m], start + |ChainLeaves(canonical[..m])|)
  {
    assert Announces(canonical, start, m);
    LeavesUpTo(canonical, m);
    CommitmentCount(canonical[m].vtx);
  }

  // The leaf at a position of the tree.
  predicate HasLeaf(t: CT.Tree, p: nat, leaf: seq<byte>) {
    t.leafOffset <= p < t.Size() && t.leaves[p - t.leafOffset] == leaf
  }

  /** What the loop remembers of a block: its tree size, for the next one. When the block's metadata is right and
      the next block extends it without any, the next block's positions are right all the same. */
  lemma RememberedSize(g: BlockTree, s: State, b: CompactBlock, u: State, c: CompactBlock, i: nat, j: nat)
    returns (m: NullifierWithMeta)
    requires Acceptable(s, b) && u == Handle(s, b) && WellFormedTxs(b.vtx)
    requires MetadataMatches(b, TreeBase(s, b).Size()) && u.tree.Size() > 0
    requires Lockstep(g, u) && Delivered(g, u, c) && ToHashArray(c.prevHash) == Tip(u).hash
    requires WellFormedTxs(c.vtx) && c.chainMetadata.None? && u.tree.Size() + Offset(c.vtx, |c.vtx|) < U32
    requires i < |c.vtx| && j < |c.vtx[i].actions|
    ensures Offset(c.vtx, i) + j < |MetasFor(c, u.prevTreeSize)|
    ensures m == MetasFor(c, u.prevTreeSize)[Offset(c.vtx, i) + j]
    ensures m.firstOutputPosition == TreeBase(u, c).Size() + Offset(c.vtx, i)
  {
    ChildBase(g, u, c);
    HandledSize(s, b);
    CommitmentCount(b.vtx);
    m := FallbackPositions(u.tree, c, u.tree.Size(), i, j);
  }

  /** A block without usable metadata is forgotten: it leaves no size for the next one. */
  lemma ForgottenSize(s: State, b: CompactBlock)
    requires Acceptable(s, b)
    ensures b.chainMetadata == None || b.chainMetadata == Some(0) <==> Handle(s, b).prevTreeSize == None
  {
  }

  // Where the first output of transaction i stands in the loop's own tree.
  function PlaceOf(s: State, b: CompactBlock, i: nat): nat
    requires i <= |b.vtx|
  {
    TreeBase(s, b).Size() + Offset(b.vtx, i)
  }

  // What is recorded for action j, and where that action's commitment stands.
  ghost predicate RecordedAheadBy(s: State, b: CompactBlock, u: CT.Tree, i: nat, j: nat, ahead: nat) {
    && i < |b.vtx| && j < |b.vtx[i].actions|
    && Offset(b.vtx, i) + j < |MetasFor(b, s.prevTreeSize)|
    && MetasFor(b, s.prevTreeSize)[Offset(b.vtx, i) + j].firstOutputPosition == PlaceOf(s, b, i) + ahead
    && HasLeaf(u, PlaceOf(s, b, i) + j, b.vtx[i].actions[j].cmx)
  }

  /** Positions after a gap. Nothing in the combined loop checks sizes, and recorded positions come from the blocks'
      metadata. After a reorganisation at the next height, each recorded position is ahead of the place in the
      loop's own tree by the number of commitments in the skipped canonical blocks. It is right if and only if they
      hold none. */
  lemma PositionsAfterGapIff(g: BlockTree, states: seq<State>, canonical: seq<CompactBlock>, bs: seq<CompactBlock>,
                             skipped: seq<Hash>, k: nat, i: nat, j: nat)
    returns (position: nat)
    requires FedAfterGap(g, states, canonical, bs) && k < |bs| && WellFormedTxs(bs[k].vtx)
    requires i < |bs[k].vtx| && j < |bs[k].vtx[i].actions|
    requires skipped == ChainLeaves(canonical[..|states[0].chain|])
    ensures RecordedAheadBy(states[k], bs[k], states[k + 1].tree, i, j, |skipped|)
    ensures position == MetasFor(bs[k], states[k].prevTreeSize)[Offset(bs[k].vtx, i) + j].firstOutputPosition
    ensures position == PlaceOf(states[k], bs[k], i) <==> skipped == []
  {
    MetadataAhead(g, states, canonical, bs, |states[0].chain|, k, |states[0].chain| + k, |skipped|);
    var u := AppendedAt(g, states, bs, k);
    position := RecordedAhead(states[k], bs[k], |skipped|, i, j, u);
  }

  lemma AppendedAt(g: BlockTree, states: seq<State>, bs: seq<CompactBlock>, k: nat) returns (u: CT.Tree)
    requires Follows(states, bs) && Lockstep(g, states[0]) && Ascending(g, states[0].currentHeight, bs) && k < |bs|
    ensures u == states[k + 1].tree
    ensures u == CT.Append(TreeBase(states[k], bs[k]), bs[k].height, ToHashArray(bs[k].hash), CommitmentsOf(bs[k].vtx))
  {
    FollowGaps.RunStep(g, states, bs, k);
    u := states[k + 1].tree;
  }

  lemma MetadataAhead(g: BlockTree, states: seq<State>, canonical: seq<CompactBlock>, bs: seq<CompactBlock>, n: nat,
                      k: nat, at: nat, skipped: nat)
    requires FedAfterGap(g, states, canonical, bs) && n == |states[0].chain| && k < |bs| && at == n + k
    requires WellFormedTxs(bs[k].vtx) && skipped == |ChainLeaves(canonical[..n])|
    ensures MetadataMatches(bs[k], TreeBase(states[k], bs[k]).Size() + skipped)
  {
    var start := SizeBelow(states[0]);
    assert bs[k] == canonical[at];
    SizesAfter(g, states, canonical, bs, n, start, k, at);
    MetadataSays(canonical, start, at);
  }

  // A block whose metadata is ahead of the tree, and what is recorded for it.
  lemma RecordedAhead(s: State, b: CompactBlock, ahead: nat, i: nat, j: nat, u: CT.Tree) returns (position: nat)
    requires WellFormedTxs(b.vtx) && MetadataMatches(b, TreeBase(s, b).Size() + ahead)
    requires i < |b.vtx| && j < |b.vtx[i].actions|
    requires u == CT.Append(TreeBase(s, b), b.height, ToHashArray(b.hash), CommitmentsOf(b.vtx))
    ensures RecordedAheadBy(s, b, u, i, j, ahead)
    ensures position == MetasFor(b, s.prevTreeSize)[Offset(b.vtx, i) + j].firstOutputPosition
    ensures position == PlaceOf(s, b, i) + ahead
  {
    var m := RecordedMeta(TreeBase(s, b).Size() + ahead, b, s.prevTreeSize, i, j);
    LeafPlaced(TreeBase(s, b), b, ToHashArray(b.hash), i, j, u);
    position := m.firstOutputPosition;
  }
}
