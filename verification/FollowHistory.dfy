/** What a block of the follow loop has left in the tree and in the table, for as long as they record it: its leaves
    stay in their places, and while nothing overflows its nullifiers stay in the table. */
module FollowHistory {
  import opened Bytes
  import opened NullifierTable
  import opened NullifierRemoval
  import opened Parsers
  import opened ChainTracker
  import opened FollowLoop
  import opened FollowLockstep
  import opened FollowTips
  import opened FollowGaps
  import CT = CommitmentTree

  // ----- Tree

  // t has grown from first: it still has all its blocks and leaves, and later blocks account for the other leaves.
  ghost predicate GrownFrom(first: CT.Tree, t: CT.Tree) {
    && t.leafOffset == first.leafOffset && first.blocks <= t.blocks && first.leaves <= t.leaves
    && |t.leaves| == |first.leaves| + CT.Total(t.blocks[|first.blocks|..])
  }

  lemma {:induction false} TotalSplit(a: seq<CT.BlockRecord>, b: seq<CT.BlockRecord>)
    ensures CT.Total(a + b) == CT.Total(a) + CT.Total(b)
  {
    if a == [] {
      assert a + b == b;
    } else {
      assert (a + b)[1..] == a[1..] + b;
      TotalSplit(a[1..], b);
    }
  }

  lemma RollbackGrown(first: CT.Tree, t: CT.Tree, target: nat)
    requires GrownFrom(first, t) && |first.blocks| <= |CT.KeepUpTo(t.blocks, target)|
    ensures GrownFrom(first, CT.Rollback(t, target))
  {
    var n, k := |first.blocks|, |CT.KeepUpTo(t.blocks, target)|;
    assert t.blocks[n..] == t.blocks[n..k] + t.blocks[k..];
    TotalSplit(t.blocks[n..k], t.blocks[k..]);
    assert CT.KeepUpTo(t.blocks, target) == t.blocks[..k];
    assert t.blocks[..k][n..] == t.blocks[n..k];
  }

  lemma AppendGrown(first: CT.Tree, t: CT.Tree, height: nat, hash: Hash, commitments: seq<Hash>)
    requires GrownFrom(first, t) && |commitments| < U32
    ensures GrownFrom(first, CT.Append(t, height, hash, commitments))
  {
    var n, r := |first.blocks|, CT.BlockRecord(height, hash, AsU32(|commitments|));
    assert (t.blocks + [r])[n..] == t.blocks[n..] + [r];
    CT.TotalSnoc(t.blocks[n..], r);
  }

  // Where a record stands at the end of the first n blocks, keeping the record means keeping all of them.
  lemma KeptRecord(blocks: seq<CT.BlockRecord>, n: nat, k: nat, r: CT.BlockRecord, last: CT.BlockRecord)
    requires Increasing(blocks) && 0 < n <= |blocks| && k <= |blocks| && blocks[n - 1] == r
    requires r in blocks[..k] + [last] && r.height < last.height
    ensures n <= k
  {
    var i :| 0 <= i < k + 1 && (blocks[..k] + [last])[i] == r;
    assert i < k && blocks[i] == r;
  }

  lemma GrowsOn(g: BlockTree, first: CT.Tree, s: State, b: CompactBlock)
    requires Lockstep(g, s) && Delivered(g, s, b) && Acceptable(s, b) && GrownFrom(first, s.tree) && first.blocks != []
    requires first.blocks[|first.blocks| - 1].height < b.height && |CommitmentsOf(b.vtx)| < U32
    requires first.blocks[|first.blocks| - 1] in Handle(s, b).tree.blocks
    ensures GrownFrom(first, Handle(s, b).tree)
  {
    var n := |first.blocks|;
    var k := TreeBaseIs(g, s, b);
    HandleTree(s, b);
    assert s.tree.blocks[n - 1] == first.blocks[n - 1];
    KeptRecord(s.tree.blocks, n, k, first.blocks[n - 1], RecordFor(b));
    BaseGrown(first, s, b, k);
    AppendGrown(first, TreeBase(s, b), b.height, ToHashArray(b.hash), CommitmentsOf(b.vtx));
  }

  lemma BaseGrown(first: CT.Tree, s: State, b: CompactBlock, k: nat)
    requires GrownFrom(first, s.tree) && |first.blocks| <= k <= |s.tree.blocks|
    requires TreeBase(s, b).blocks == s.tree.blocks[..k]
    ensures GrownFrom(first, TreeBase(s, b))
  {
    var action := Push(s.chain, MAX_DEPTH, HeaderOf(b)).1;
    if action.Reorg? {
      RollbackGrown(first, s.tree, action.rollbackTo);
    }
  }

  // Blocks whose commitments the record counts exactly.
  ghost predicate Sized(bs: seq<CompactBlock>) {
    forall i :: 0 <= i < |bs| ==> |CommitmentsOf(bs[i].vtx)| < U32
  }

  // A record that is there after a step was there before it, or is that of the step's own block.
  lemma RecordedBefore(g: BlockTree, s: State, b: CompactBlock, r: CT.BlockRecord)
    requires Lockstep(g, s) && Delivered(g, s, b) && Acceptable(s, b) && r in Handle(s, b).tree.blocks
    requires r.height < b.height
    ensures r in s.tree.blocks
  {
    var k := TreeBaseIs(g, s, b);
    HandleTree(s, b);
    var i :| 0 <= i < |Handle(s, b).tree.blocks| && Handle(s, b).tree.blocks[i] == r;
    assert i < k && s.tree.blocks[i] == r;
  }

  lemma HandledTip(s: State, b: CompactBlock)
    requires Acceptable(s, b)
    ensures var u := Handle(s, b).tree;
            && u.blocks != [] && u.blocks[|u.blocks| - 1] == RecordFor(b)
            && GrownFrom(u, u)
  {
    HandleTree(s, b);
    var u := Handle(s, b).tree;
    assert u.blocks[|u.blocks|..] == [];
  }

  // The tree right after block n.
  lemma FirstTree(g: BlockTree, states: seq<State>, bs: seq<CompactBlock>, n: nat)
    requires Follows(states, bs) && Lockstep(g, states[0]) && Ascending(g, states[0].currentHeight, bs) && n < |bs|
    ensures var u := states[n + 1].tree;
            && u.blocks != [] && u.blocks[|u.blocks| - 1] == RecordFor(bs[n]) && GrownFrom(u, u)
  {
    RunStep(g, states, bs, n);
    HandledTip(states[n], bs[n]);
  }

  // One step of a later block k, for a tree that ends with record r.
  lemma TreeHistoryStep(g: BlockTree, states: seq<State>, bs: seq<CompactBlock>, k: nat, first: CT.Tree,
                        r: CT.BlockRecord)
    requires Follows(states, bs) && Lockstep(g, states[0]) && Ascending(g, states[0].currentHeight, bs) && Sized(bs)
    requires k < |bs| && r.height < bs[k].height && r in states[k + 1].tree.blocks
    requires first.blocks != [] && first.blocks[|first.blocks| - 1] == r
    ensures r in states[k].tree.blocks
    ensures GrownFrom(first, states[k].tree) ==> GrownFrom(first, states[k + 1].tree)
  {
    RunStep(g, states, bs, k);
    RecordedBefore(g, states[k], bs[k], r);
    if GrownFrom(first, states[k].tree) {
      GrowsOn(g, first, states[k], bs[k]);
    }
  }

  /** As long as the tree records a block, it has grown from the tree right after that block: every leaf of that
      tree is still in its place. */
  lemma {:induction false} RecordedTreeGrows(g: BlockTree, states: seq<State>, bs: seq<CompactBlock>, n: nat, m: nat)
    requires Follows(states, bs) && Lockstep(g, states[0]) && Ascending(g, states[0].currentHeight, bs) && Sized(bs)
    requires n < m <= |bs| && RecordFor(bs[n]) in states[m].tree.blocks
    ensures GrownFrom(states[n + 1].tree, states[m].tree)
    decreases m
  {
    FirstTree(g, states, bs, n);
    if n + 1 < m {
      HeightsAscend(g, states, bs, n, m - 1);
      TreeHistoryStep(g, states, bs, m - 1, states[n + 1].tree, RecordFor(bs[n]));
      RecordedTreeGrows(g, states, bs, n, m - 1);
    }
  }

  lemma {:induction false} HeightsAscend(g: BlockTree, states: seq<State>, bs: seq<CompactBlock>, i: nat, j: nat)
    requires |states| > 0 && Ascending(g, states[0].currentHeight, bs) && i < j < |bs|
    ensures bs[i].height < bs[j].height
    decreases j
  {
    assert AscendsAt(g, states[0].currentHeight, bs, j);
    if i < j - 1 {
      HeightsAscend(g, states, bs, i, j - 1);
    }
  }

  // ----- Table

  /** While nothing overflows, a block that the table keeps through a step keeps its nullifiers. */
  lemma LiveStays(g: BlockTree, s: State, b: CompactBlock, h: nat)
    requires Lockstep(g, s) && Clean(s.table) && Delivered(g, s, b) && Acceptable(s, b) && Fits(s, b)
    requires h in Handle(s, b).table.blockIndex && h != b.height
    ensures RefsInRange(s.table) && RefsInRange(Handle(s, b).table)
    ensures h in s.table.blockIndex && Live(Handle(s, b).table)[h] == Live(s.table)[h]
  {
    var base := TableBase(s, b);
    TableBaseClean(s, b);
    BaseLive(s, b);
    InsertedOnTop(base, b, s.prevTreeSize);
    InsertAddsBlock(base, b.height, ToHashArray(b.hash), MetasFor(b, s.prevTreeSize));
    var inserted := InsertBlock(base, b, s.prevTreeSize).0;
    AfterEviction(inserted, h);
  }

  // What the rollback leaves is unchanged.
  lemma BaseLive(s: State, b: CompactBlock)
    requires Inv(s.table)
    ensures RefsInRange(s.table) && RefsInRange(TableBase(s, b))
    ensures forall h :: h in Live(TableBase(s, b)) ==>
              h in Live(s.table) && Live(TableBase(s, b))[h] == Live(s.table)[h]
  {
    InvRefsInRange(s.table);
    var action := Push(s.chain, MAX_DEPTH, HeaderOf(b)).1;
    if action.Reorg? {
      DropAboveKeeps(s.table, action.rollbackTo);
    }
  }

  lemma AfterEviction(t: Table, h: nat)
    requires Inv(t) && RefsInRange(t)
    ensures RefsInRange(EvictToTarget(t))
    ensures h in EvictToTarget(t).blockIndex ==> h in t.blockIndex && Live(EvictToTarget(t))[h] == Live(t)[h]
  {
    EvictionKeepsLater(t);
  }

  // A run of ascending blocks from lockstep, without leaks at the start and with room for every block.
  ghost predicate CleanRun(g: BlockTree, states: seq<State>, bs: seq<CompactBlock>) {
    && Follows(states, bs) && Lockstep(g, states[0]) && Ascending(g, states[0].currentHeight, bs)
    && Clean(states[0].table) && AllFit(states, bs)
  }

  // The table holds this block at height h.
  ghost predicate HoldsBlock(t: Table, h: nat, block: LiveBlock) {
    Shaped(t.buckets) && RefsInRange(t) && h in t.blockIndex && Live(t)[h] == block
  }

  // What block n of the run inserts.
  function BlockOf(states: seq<State>, bs: seq<CompactBlock>, n: nat): LiveBlock
    requires n < |bs| && n < |states|
  {
    LiveBlock(ToHashArray(bs[n].hash), MetasFor(bs[n], states[n].prevTreeSize))
  }

  // The table right after block n.
  lemma FirstBlock(g: BlockTree, states: seq<State>, bs: seq<CompactBlock>, n: nat)
    requires CleanRun(g, states, bs) && n < |bs|
    ensures HoldsBlock(states[n + 1].table, bs[n].height, BlockOf(states, bs, n))
  {
    CleanBefore(g, states, bs, n);
    RunStep(g, states, bs, n);
    assert FitsAt(states, bs, n);
    TipsAgree(g, states[n], bs[n]);
  }

  // If the table has the height after the step, it had it before, and kept the block.
  ghost predicate KeepsBlock(s: State, u: State, h: nat, block: LiveBlock) {
    h in u.table.blockIndex ==>
      h in s.table.blockIndex && (HoldsBlock(s.table, h, block) ==> HoldsBlock(u.table, h, block))
  }

  // One step of a later block k.
  lemma TableHistoryStep(g: BlockTree, states: seq<State>, bs: seq<CompactBlock>, k: nat, h: nat, block: LiveBlock)
    requires CleanRun(g, states, bs) && k < |bs| && h < bs[k].height
    ensures KeepsBlock(states[k], states[k + 1], h, block)
  {
    if h in states[k + 1].table.blockIndex {
      CleanBefore(g, states, bs, k);
      RunStep(g, states, bs, k);
      assert FitsAt(states, bs, k);
      LiveStays(g, states[k], bs[k], h);
    }
  }

  lemma {:induction false} KeptAlong(states: seq<State>, n: nat, m: nat, h: nat, block: LiveBlock)
    requires n <= m < |states| && h in states[m].table.blockIndex && HoldsBlock(states[n].table, h, block)
    requires forall k :: n <= k < m ==> KeepsBlock(states[k], states[k + 1], h, block)
    ensures HoldsBlock(states[m].table, h, block)
    decreases m
  {
    if n < m {
      assert KeepsBlock(states[m - 1], states[m - 1 + 1], h, block);
      KeptAlong(states, n, m - 1, h, block);
    }
  }

  /** Over a run in which every block fits, as long as the table has a block it has all the block's nullifiers. */
  lemma RecordedBlockLives(g: BlockTree, states: seq<State>, bs: seq<CompactBlock>, n: nat, m: nat)
    requires CleanRun(g, states, bs) && n < m <= |bs| && bs[n].height in states[m].table.blockIndex
    ensures HoldsBlock(states[m].table, bs[n].height, BlockOf(states, bs, n))
  {
    var h, block := bs[n].height, BlockOf(states, bs, n);
    FirstBlock(g, states, bs, n);
    forall k | n + 1 <= k < m
      ensures KeepsBlock(states[k], states[k + 1], h, block)
    {
      HeightsAscend(g, states, bs, n, k);
      TableHistoryStep(g, states, bs, k, h, block);
    }
    KeptAlong(states, n + 1, m, h, block);
  }

  lemma CleanBefore(g: BlockTree, states: seq<State>, bs: seq<CompactBlock>, n: nat)
    requires CleanRun(g, states, bs) && n <= |bs|
    ensures Inv(states[n].table) && Clean(states[n].table)
  {
    RunAt(g, states, bs, n);
    if n > 0 {
      AscendingAll(g, states, bs);
      RunEndsAtOneTip(g, states, bs, n);
    }
  }

  lemma AscendingAll(g: BlockTree, states: seq<State>, bs: seq<CompactBlock>)
    requires Follows(states, bs) && Lockstep(g, states[0]) && Ascending(g, states[0].currentHeight, bs)
    ensures AllDelivered(g, states, bs)
  {
    forall i | 0 <= i < |bs|
      ensures DeliveredAt(g, states, bs, i)
    {
      RunStep(g, states, bs, i);
    }
  }
}
