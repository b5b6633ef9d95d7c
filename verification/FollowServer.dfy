/** The body of the follow loop over the live objects, proved against the step function of FollowLoop, and a
    whole batch of fetched blocks, proved to keep lockstep. */
module FollowServer {
  import opened Bytes
  import opened SpendTypes
  import opened NullifierTable
  import opened NullifierRemoval
  import opened Parsers
  import opened FollowLoop
  import opened FollowLockstep
  import Db = CommitmentTreeDb
  import HT = HashTableDb
  import Tr = ChainTracker

  // The value of the loop's state.
  function StateOf(tracker: Tr.ChainTracker, hashtable: HT.HashTableDb, tree: Db.CommitmentTreeDb,
                   currentHeight: nat, prevTreeSize: Option<u32>): State
    reads tracker, hashtable, tree
  {
    State(tracker.chain, tree.View(), hashtable.View(), currentHeight, prevTreeSize)
  }

  lemma NewestRemoved(t: Table)
    requires Inv(t) && t.blockIndex != map[]
    ensures var h := Newest(t.blockIndex);
            && Removable(t, h) && RollsBack(t, t.blockIndex[h].blockHash, h)
            && Rollback(t, t.blockIndex[h].blockHash) == (DropNewest(t), Result.Ok)
  {
    InvRemovable(t, Newest(t.blockIndex));
  }

  method RollbackAbove(hashtable: HT.HashTableDb, rollbackTo: nat)
    requires Inv(hashtable.View())
    modifies hashtable
    ensures hashtable.View() == DropAbove(old(hashtable.View()), rollbackTo)
  {
    var latest := hashtable.LatestBlock();
    while latest.Some? && latest.value.0 > rollbackTo
      invariant Inv(hashtable.View()) && latest == LatestOf(hashtable.blockIndex)
      invariant DropAbove(hashtable.View(), rollbackTo) == DropAbove(old(hashtable.View()), rollbackTo)
      decreases |hashtable.blockIndex|
    {
      NewestRemoved(hashtable.View());
      var r := hashtable.RollbackBlock(latest.value.1);
      if r.Err? {
        break;
      }
      latest := hashtable.LatestBlock();
    }
  }

  method HandleBlock(tracker: Tr.ChainTracker, hashtable: HT.HashTableDb, tree: Db.CommitmentTreeDb,
                     ghost currentHeight: nat, prevTreeSize: Option<u32>, block: CompactBlock)
    returns (height: nat, thisTreeSize: Option<u32>)
    requires tree.Valid() && tracker.maxDepth == MAX_DEPTH
    requires Acceptable(StateOf(tracker, hashtable, tree, currentHeight, prevTreeSize), block)
    modifies tracker, hashtable, tree
    ensures tree.Valid()
    ensures StateOf(tracker, hashtable, tree, height, thisTreeSize)
            == Handle(old(StateOf(tracker, hashtable, tree, currentHeight, prevTreeSize)), block)
  {
    ghost var s := StateOf(tracker, hashtable, tree, currentHeight, prevTreeSize);
    height := block.height;
    var hash := ToHashArray(block.hash);
    var nullifiers;
    nullifiers, thisTreeSize := ExtractNullifiersWithMeta(block, prevTreeSize);
    var commitments := ExtractCommitments(block);
    InsertInv(TableBase(s, block), block, prevTreeSize);
    var action := tracker.PushBlock(HeaderOf(block));
    match action {
      case Extend =>
        var r := hashtable.InsertBlock(height, hash, nullifiers);
        hashtable.EvictToTarget();
        tree.AppendCommitments(height, hash, commitments);
      case Reorg(rollbackTo) =>
        RollbackAbove(hashtable, rollbackTo);
        var r := hashtable.InsertBlock(height, hash, nullifiers);
        tree.RollbackTo(rollbackTo);
        tree.AppendCommitments(height, hash, commitments);
    }
  }

  method Advance(ghost g: Tr.BlockTree, tracker: Tr.ChainTracker, hashtable: HT.HashTableDb, tree: Db.CommitmentTreeDb,
                 currentHeight: nat, prevTreeSize: Option<u32>, block: CompactBlock)
    returns (height: nat, thisTreeSize: Option<u32>)
    requires tree.Valid() && tracker.maxDepth == MAX_DEPTH
    requires Lockstep(g, StateOf(tracker, hashtable, tree, currentHeight, prevTreeSize))
    requires Tr.Genuine(g, HeaderOf(block)) && RealNullifiers(block) && block.height > currentHeight
    modifies tracker, hashtable, tree
    ensures tree.Valid() && height == block.height
    ensures StateOf(tracker, hashtable, tree, height, thisTreeSize)
            == Next(old(StateOf(tracker, hashtable, tree, currentHeight, prevTreeSize)), block)
    ensures Lockstep(g, StateOf(tracker, hashtable, tree, height, thisTreeSize))
  {
    ghost var s := StateOf(tracker, hashtable, tree, currentHeight, prevTreeSize);
    NextIsDelivered(g, s, block);
    HandleKeepsLockstep(g, s, block);
    height, thisTreeSize := HandleBlock(tracker, hashtable, tree, currentHeight, prevTreeSize, block);
  }

  lemma NextAscends(g: Tr.BlockTree, above: nat, bs: seq<CompactBlock>, i: nat)
    requires Ascending(g, above, bs) && i < |bs|
    ensures Tr.Genuine(g, HeaderOf(bs[i])) && RealNullifiers(bs[i])
    ensures bs[i].height > (if i == 0 then above else bs[i - 1].height)
  {
    assert AscendsAt(g, above, bs, i);
  }

  /** One batch of the follow loop. Starting in lockstep, blocks delivered in ascending order take the three
      objects through the steps of the loop, in lockstep to the last of them. */
  method FollowBatch(ghost g: Tr.BlockTree, tracker: Tr.ChainTracker, hashtable: HT.HashTableDb,
                     tree: Db.CommitmentTreeDb, startHeight: nat, startTreeSize: Option<u32>, blocks: seq<CompactBlock>)
    returns (currentHeight: nat, prevTreeSize: Option<u32>)
    requires tree.Valid() && tracker.maxDepth == MAX_DEPTH
    requires Lockstep(g, StateOf(tracker, hashtable, tree, startHeight, startTreeSize))
    requires Ascending(g, startHeight, blocks)
    modifies tracker, hashtable, tree
    ensures tree.Valid()
    ensures StateOf(tracker, hashtable, tree, currentHeight, prevTreeSize)
            == RunTo(old(StateOf(tracker, hashtable, tree, startHeight, startTreeSize)), blocks)
    ensures Lockstep(g, StateOf(tracker, hashtable, tree, currentHeight, prevTreeSize))
    ensures blocks != [] ==> currentHeight == blocks[|blocks| - 1].height
  {
    currentHeight, prevTreeSize := startHeight, startTreeSize;
    ghost var first := StateOf(tracker, hashtable, tree, startHeight, startTreeSize);
    for i := 0 to |blocks|
      invariant tree.Valid() && Lockstep(g, StateOf(tracker, hashtable, tree, currentHeight, prevTreeSize))
      invariant StateOf(tracker, hashtable, tree, currentHeight, prevTreeSize) == RunTo(first, blocks[..i])
      invariant currentHeight == (if i == 0 then startHeight else blocks[i - 1].height)
    {
      NextAscends(g, startHeight, blocks, i);
      RunToNext(first, blocks, i);
      currentHeight, prevTreeSize := Advance(g, tracker, hashtable, tree, currentHeight, prevTreeSize, blocks[i]);
    }
    assert blocks[..|blocks|] == blocks;
  }
}
