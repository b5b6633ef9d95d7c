/** Both databases together: from the chain to witnesses. */
module EndToEnd {
  import opened Bytes
  import opened Geometry
  import opened Merkle
  import opened SpendTypes
  import opened CommitmentTree
  import opened WitnessClient
  import opened WitnessTheorems
  import opened Parsers
  import opened NullifierTable
  import opened NullifierLookup
  import opened WindowBootstrap
  import Tr = ChainTracker
  import opened FollowLoop
  import opened FollowLockstep
  import opened FollowHistory
  import opened FollowWindow
  import FollowGaps

  // ----- Witnesses for leaves

  // What a wallet gets for position p from an honest server of this tree.
  ghost function Answer(H: Hasher<Hash>, t: Tree, p: nat, anchorHeight: nat): WitnessClient.Result<PirWitness> {
    BroadcastShaped(H, t, anchorHeight);
    FetchWitness(H, p, PirDb(H, t), BroadcastOf(H, t, anchorHeight))
  }

  // The wallet's witness for position p leads from the leaf to the tree's root.
  ghost predicate Verifies(H: Hasher<Hash>, t: Tree, p: nat, leaf: Hash, anchorHeight: nat) {
    match Answer(H, t, p, anchorHeight)
    case Err(_) => false
    case Ok(w) =>
      && |w.siblings| == TREE_DEPTH && w.anchorRoot == Root(H, t)
      && PathNode(H, leaf, w.siblings, p, TREE_DEPTH) == Root(H, t)
  }

  // The wallet's witness for output o of these actions, whose positions start at `first`.
  ghost predicate OutputVerifies(H: Hasher<Hash>, t: Tree, first: nat, actions: seq<Action>, o: nat, anchorHeight: nat)
    requires o < |actions|
  {
    |actions[o].cmx| == 32 && Verifies(H, t, first + o, actions[o].cmx, anchorHeight)
  }

  ghost predicate OutputsVerify(H: Hasher<Hash>, t: Tree, first: nat, actions: seq<Action>, anchorHeight: nat) {
    forall o :: 0 <= o < |actions| ==> OutputVerifies(H, t, first, actions, o, anchorHeight)
  }

  // Output o of these actions is the leaf at position `first` + o.
  ghost predicate OutputIsLeaf(t: Tree, first: nat, actions: seq<Action>, o: nat)
    requires o < |actions|
  {
    && t.leafOffset <= first + o < t.Size() && first + o < U32
    && |actions[o].cmx| == 32 && t.leaves[first + o - t.leafOffset] == actions[o].cmx
  }

  /** Every leaf of the window has a witness: the siblings that the client assembles lead from that very leaf to
      the tree's root. */
  lemma LeafHasWitness(H: Hasher<Hash>, t: Tree, p: nat, anchorHeight: nat)
    requires t.leafOffset % SHARD_LEAVES == 0 && t.LocalShardCount() <= L0_MAX_SHARDS
    requires t.leafOffset <= p < t.Size() && p < U32
    ensures Verifies(H, t, p, t.leaves[p - t.leafOffset], anchorHeight)
  {
    ShardCounts(t);
    WitnessComplete(H, t, p, anchorHeight);
    ServedRootIsRoot(H, t);
    var siblings := FetchWitness(H, p, PirDb(H, t), BroadcastOf(H, t, anchorHeight)).value.siblings;
    PathCompletes(H, t, t.WindowStart() + t.WindowShardCount(), p, siblings, TREE_DEPTH);
    ShardOf(p);
  }

  /** A server bootstrapped from shard roots and then synced, now or after any later blocks, serves for every
      position of its window the sibling nodes and the root of the flat tree over the leaves that clients see. Those
      are all leaves of the chain exactly as long as the chain's leaves end within 32 shards of the window's
      start. */
  lemma BootstrapServesChain(H: Hasher<Hash>, chain: seq<CompactBlock>, roots: seq<SubtreeRoot>, tipHeight: nat,
                             windowShardLimit: nat, limit: nat, m: nat, fetch: nat -> Option<CompactBlock>,
                             later: seq<CompactBlock>, p: nat, anchorHeight: nat)
    requires LimitIs(windowShardLimit, limit) && |roots| >= limit
    requires ChainServed(H, chain, roots, |roots| - limit + 1, m, fetch) && MetadataRight(chain + later, 0)
    ensures PrepareTree(roots, tipHeight, windowShardLimit, fetch).Ok?
    ensures var q := PrepareTree(roots, tipHeight, windowShardLimit, fetch).value;
            var s, leaves := Sync(q.tree, q.initialTreeSize, (chain + later)[m + 1..]), ChainLeaves(chain + later);
            && s.Ok? && ShapedBroadcast(BroadcastOf(H, s.value, anchorHeight))
            && (Seen(s.value, leaves) == leaves
                <==> |leaves| <= (|roots| - limit + 1 + L0_MAX_SHARDS) * SHARD_LEAVES)
            && (PositionServed(s.value, p) ==>
                  var r := FetchWitness(H, p, PirDb(H, s.value), BroadcastOf(H, s.value, anchorHeight));
                  && r.Ok? && |r.value.siblings| == TREE_DEPTH
                  && r.value.anchorRoot == Node(H, Seen(s.value, leaves), 0, TREE_DEPTH, 0)
                  && forall l: nat :: l < TREE_DEPTH ==>
                       r.value.siblings[l] == Node(H, Seen(s.value, leaves), 0, l, Sib(Up(p, l))))
  {
    BootstrapIsFullTree(H, chain, roots, tipHeight, windowShardLimit, limit, m, fetch, later);
    var q := PrepareTree(roots, tipHeight, windowShardLimit, fetch).value;
    var s := Sync(q.tree, q.initialTreeSize, (chain + later)[m + 1..]).value;
    BroadcastShaped(H, s, anchorHeight);
    if PositionServed(s, p) {
      WitnessMatchesFlatTree(H, s, ChainLeaves(chain + later), p, anchorHeight);
    }
  }

  /** Along a run of the follow loop, reorganisations included, every position of the window is served with the
      siblings and the root of the flat tree over the leaves before the window and those that the tree holds, as far
      as clients see them. */
  lemma RunServesFlatTree(H: Hasher<Hash>, g: Tr.BlockTree, states: seq<State>, bs: seq<CompactBlock>, n: nat,
                          all: seq<Hash>, p: nat, anchorHeight: nat)
    requires Follows(states, bs) && Lockstep(g, states[0]) && Ascending(g, states[0].currentHeight, bs) && n <= |bs|
    requires WindowOf(H, states[0].tree, all) && PositionServed(states[n].tree, p)
    ensures states[n].tree.leafOffset <= |all|
    ensures ServesFlat(H, states[n].tree, AllLeaves(states[n].tree, all), p, anchorHeight)
  {
    RunStaysWindow(H, g, states, bs, n, all);
    WitnessMatchesFlatTree(H, states[n].tree, AllLeaves(states[n].tree, all), p, anchorHeight);
  }

  // The answer for position p is read off the flat tree over what clients see of these leaves.
  ghost predicate ServesFlat(H: Hasher<Hash>, t: Tree, all: seq<Hash>, p: nat, anchorHeight: nat) {
    match Answer(H, t, p, anchorHeight)
    case Err(_) => false
    case Ok(w) =>
      && |w.siblings| == TREE_DEPTH && w.anchorRoot == Node(H, Seen(t, all), 0, TREE_DEPTH, 0)
      && forall l: nat :: l < TREE_DEPTH ==> w.siblings[l] == Node(H, Seen(t, all), 0, l, Sib(Up(p, l)))
  }

  // ----- From a nullifier to witnesses

  // In the table, only nullifier k of the block at height h is nf.
  ghost predicate OnlyAt(t: Table, h: nat, k: nat, nf: Hash)
    requires Shaped(t.buckets) && RefsInRange(t)
  {
    forall h': nat, k': nat :: Holds(Live(t), h', k', nf) ==> h' == h && k' == k
  }

  lemma LookupIs(t: Table, h: nat, k: nat, nf: Hash)
    requires Inv(t) && Clean(t) && RefsInRange(t) && nf != ZeroHash() && Holds(Live(t), h, k, nf) && OnlyAt(t, h, k, nf)
    ensures Lookup(PirBytes(t.buckets), [], nf) == Some(MetadataFor(h, Live(t)[h].nullifiers[k]))
  {
    LookupExact(t, [], nf);
  }

  // A later tree of the same window still has all these leaves in place.
  ghost predicate Later(tree: Tree, later: Tree) {
    later.leafOffset == tree.leafOffset && tree.leaves <= later.leaves
  }

  /** From a spent note to its transaction's outputs. When a block with right metadata has gone into both
      databases, the lookup of one of its nullifiers yields the block's height, and a position and count at which
      every output of the same transaction stands in the tree, now and in every later tree, each with a witness
      that leads from its commitment to that tree's root. */
  lemma LookupLeadsToWitness(H: Hasher<Hash>, before: Tree, block: CompactBlock, hash: Hash, prior: Option<u32>,
                             table: Table, i: nat, j: nat, tree: Tree, later: Tree, metas: seq<NullifierWithMeta>,
                             anchorHeight: nat)
    returns (found: SpendMetadata)
    requires WellFormedTxs(block.vtx) && MetadataMatches(block, before.Size())
    requires i < |block.vtx| && j < |block.vtx[i].actions|
    requires tree == Append(before, block.height, hash, CommitmentsOf(block.vtx)) && Later(tree, later)
    requires later.leafOffset % SHARD_LEAVES == 0 && later.LocalShardCount() <= L0_MAX_SHARDS
    requires metas == MetasOf(block.vtx, SizeBefore(block, prior))
    requires HoldsOnce(table, block.height, hash, metas, Offset(block.vtx, i) + j)
    ensures |block.vtx[i].actions[j].nullifier| == 32
    ensures Lookup(PirBytes(table.buckets), [], block.vtx[i].actions[j].nullifier) == Some(found)
    ensures found.spendHeight == AsU32(block.height) && found.actionCount == |block.vtx[i].actions|
    ensures OutputsVerify(H, later, found.firstOutputPosition, block.vtx[i].actions, anchorHeight)
  {
    found := NullifierFound(before.Size(), block, hash, prior, table, i, j, metas, Offset(block.vtx, i) + j);
    var first, actions := found.firstOutputPosition, block.vtx[i].actions;
    assert OutputsVerify(H, later, first, actions, anchorHeight) by {
      OutputLeaves(before, block, hash, prior, i, tree, first, actions);
      OutputsWitnesses(H, tree, later, first, actions, anchorHeight);
    }
  }

  lemma OutputsWitnesses(H: Hasher<Hash>, tree: Tree, later: Tree, first: nat, actions: seq<Action>, anchorHeight: nat)
    requires forall o :: 0 <= o < |actions| ==> OutputIsLeaf(tree, first, actions, o)
    requires Later(tree, later) && later.leafOffset % SHARD_LEAVES == 0 && later.LocalShardCount() <= L0_MAX_SHARDS
    ensures OutputsVerify(H, later, first, actions, anchorHeight)
  {
    forall o | 0 <= o < |actions|
      ensures OutputVerifies(H, later, first, actions, o, anchorHeight)
    {
      assert OutputIsLeaf(tree, first, actions, o);
      OutputWitness(H, tree, later, first, actions, o, anchorHeight);
    }
  }

  lemma OutputWitness(H: Hasher<Hash>, tree: Tree, later: Tree, first: nat, actions: seq<Action>, o: nat,
                      anchorHeight: nat)
    requires o < |actions| && OutputIsLeaf(tree, first, actions, o)
    requires Later(tree, later) && later.leafOffset % SHARD_LEAVES == 0 && later.LocalShardCount() <= L0_MAX_SHARDS
    ensures OutputVerifies(H, later, first, actions, o, anchorHeight)
  {
    LeafHasWitness(H, later, first + o, anchorHeight);
  }

  // The table is well shaped, and holds this nullifier only here.
  ghost predicate OnceIn(t: Table, h: nat, k: nat, nf: seq<byte>) {
    |nf| == 32 && Shaped(t.buckets) && RefsInRange(t) && OnlyAt(t, h, k, nf)
  }

  lemma HeldOnce(t: Table, h: nat, hash: Hash, metas: seq<NullifierWithMeta>, k: nat, nf: seq<byte>)
    requires Inv(t) && Clean(t) && HoldsBlock(t, h, LiveBlock(hash, metas)) && NonZero(metas) && k < |metas|
    requires OnceIn(t, h, k, nf) && metas[k].nullifier == nf
    ensures HoldsOnce(t, h, hash, metas, k)
  {
  }

  /** The same over a run of the follow loop: from a tree that right metadata describes, once block n has been
      handled, a wallet that asks at any later moment, while both databases still record the block, finds its
      nullifiers, and from there verifying witnesses for all outputs of the same transaction. */
  lemma RunLookupLeadsToWitness(H: Hasher<Hash>, g: Tr.BlockTree, states: seq<State>, bs: seq<CompactBlock>, n: nat,
                                m: nat, i: nat, j: nat, anchorHeight: nat)
    returns (found: SpendMetadata)
    requires CleanRun(g, states, bs) && Sized(bs) && n < m <= |bs|
    requires WellFormedTxs(bs[n].vtx) && MetadataMatches(bs[n], TreeBase(states[n], bs[n]).Size())
    requires i < |bs[n].vtx| && j < |bs[n].vtx[i].actions|
    requires RecordFor(bs[n]) in states[m].tree.blocks && bs[n].height in states[m].table.blockIndex
    requires states[m].tree.leafOffset % SHARD_LEAVES == 0 && states[m].tree.LocalShardCount() <= L0_MAX_SHARDS
    requires OnceIn(states[m].table, bs[n].height, Offset(bs[n].vtx, i) + j, bs[n].vtx[i].actions[j].nullifier)
    ensures Lookup(PirBytes(states[m].table.buckets), [], bs[n].vtx[i].actions[j].nullifier) == Some(found)
    ensures found.spendHeight == AsU32(bs[n].height) && found.actionCount == |bs[n].vtx[i].actions|
    ensures OutputsVerify(H, states[m].tree, found.firstOutputPosition, bs[n].vtx[i].actions, anchorHeight)
  {
    var metas, prior := MetasFor(bs[n], states[n].prevTreeSize), states[n].prevTreeSize;
    var before, tree, later := TreeBase(states[n], bs[n]), states[n + 1].tree, states[m].tree;
    RunTrees(g, states, bs, n, m, before, tree, later);
    RunTable(g, states, bs, n, m, metas, states[m].table);
    found := HeldLeadsToWitness(H, before, bs[n], prior, states[m].table, i, j, tree, later, metas, anchorHeight);
  }

  // The same from what one moment's databases hold.
  lemma HeldLeadsToWitness(H: Hasher<Hash>, before: Tree, block: CompactBlock, prior: Option<u32>, t: Table, i: nat,
                           j: nat, tree: Tree, later: Tree, metas: seq<NullifierWithMeta>, anchorHeight: nat)
    returns (found: SpendMetadata)
    requires Inv(t) && Clean(t) && HoldsBlock(t, block.height, LiveBlock(ToHashArray(block.hash), metas))
    requires NonZero(metas)
    requires WellFormedTxs(block.vtx) && MetadataMatches(block, before.Size()) && metas == MetasFor(block, prior)
    requires i < |block.vtx| && j < |block.vtx[i].actions|
    requires OnceIn(t, block.height, Offset(block.vtx, i) + j, block.vtx[i].actions[j].nullifier)
    requires tree == Append(before, block.height, ToHashArray(block.hash), CommitmentsOf(block.vtx))
    requires Later(tree, later)
    requires later.leafOffset % SHARD_LEAVES == 0 && later.LocalShardCount() <= L0_MAX_SHARDS
    ensures Lookup(PirBytes(t.buckets), [], block.vtx[i].actions[j].nullifier) == Some(found)
    ensures found.spendHeight == AsU32(block.height) && found.actionCount == |block.vtx[i].actions|
    ensures OutputsVerify(H, later, found.firstOutputPosition, block.vtx[i].actions, anchorHeight)
  {
    RecordHeldOnce(t, block, prior, i, j, before.Size(), metas);
    found := LookupLeadsToWitness(H, before, block, ToHashArray(block.hash), prior, t, i, j, tree, later, metas,
                                  anchorHeight);
  }

  lemma RecordHeldOnce(t: Table, block: CompactBlock, prior: Option<u32>, i: nat, j: nat, size: nat,
                       metas: seq<NullifierWithMeta>)
    requires Inv(t) && Clean(t) && HoldsBlock(t, block.height, LiveBlock(ToHashArray(block.hash), metas))
    requires NonZero(metas)
    requires WellFormedTxs(block.vtx) && MetadataMatches(block, size)
    requires i < |block.vtx| && j < |block.vtx[i].actions| && metas == MetasFor(block, prior)
    requires OnceIn(t, block.height, Offset(block.vtx, i) + j, block.vtx[i].actions[j].nullifier)
    ensures HoldsOnce(t, block.height, ToHashArray(block.hash), metas, Offset(block.vtx, i) + j)
  {
    var meta := RecordedMeta(size, block, prior, i, j);
    HeldOnce(t, block.height, ToHashArray(block.hash), metas, Offset(block.vtx, i) + j, meta.nullifier);
  }

  lemma RunTable(g: Tr.BlockTree, states: seq<State>, bs: seq<CompactBlock>, n: nat, m: nat,
                 metas: seq<NullifierWithMeta>, t: Table)
    requires CleanRun(g, states, bs) && n < m <= |bs| && t == states[m].table && bs[n].height in t.blockIndex
    requires metas == MetasFor(bs[n], states[n].prevTreeSize)
    ensures Inv(t) && Clean(t) && NonZero(metas)
    ensures HoldsBlock(t, bs[n].height, LiveBlock(ToHashArray(bs[n].hash), metas))
  {
    CleanBefore(g, states, bs, m);
    FollowGaps.RunStep(g, states, bs, n);
    RecordedBlockLives(g, states, bs, n, m);
  }

  lemma RunTrees(g: Tr.BlockTree, states: seq<State>, bs: seq<CompactBlock>, n: nat, m: nat, before: Tree, tree: Tree,
                 later: Tree)
    requires CleanRun(g, states, bs) && Sized(bs) && n < m <= |bs| && RecordFor(bs[n]) in states[m].tree.blocks
    requires before == TreeBase(states[n], bs[n]) && tree == states[n + 1].tree && later == states[m].tree
    ensures Later(tree, later)
    ensures tree == Append(before, bs[n].height, ToHashArray(bs[n].hash), CommitmentsOf(bs[n].vtx))
  {
    FollowGaps.RunStep(g, states, bs, n);
    RecordedTreeGrows(g, states, bs, n, m);
  }

  lemma NullifierFound(size: nat, block: CompactBlock, hash: Hash, prior: Option<u32>, table: Table, i: nat, j: nat,
                       metas: seq<NullifierWithMeta>, k: nat)
    returns (found: SpendMetadata)
    requires WellFormedTxs(block.vtx) && MetadataMatches(block, size)
    requires i < |block.vtx| && j < |block.vtx[i].actions| && k == Offset(block.vtx, i) + j
    requires metas == MetasOf(block.vtx, SizeBefore(block, prior)) && HoldsOnce(table, block.height, hash, metas, k)
    ensures |block.vtx[i].actions[j].nullifier| == 32
    ensures Lookup(PirBytes(table.buckets), [], block.vtx[i].actions[j].nullifier) == Some(found)
    ensures found.spendHeight == AsU32(block.height) && found.actionCount == |block.vtx[i].actions|
    ensures found.firstOutputPosition == size + Offset(block.vtx, i)
  {
    var m := RecordedMeta(size, block, prior, i, j);
    LookupHeld(table, block.height, hash, metas, k);
    found := MetadataFor(block.height, m);
  }

  // The table holds this block, and the nullifier of its record k nowhere else.
  ghost predicate HoldsOnce(table: Table, h: nat, hash: Hash, metas: seq<NullifierWithMeta>, k: nat) {
    && Inv(table) && Clean(table) && RefsInRange(table) && h in table.blockIndex && k < |metas|
    && Live(table)[h] == LiveBlock(hash, metas)
    && metas[k].nullifier != ZeroHash() && OnlyAt(table, h, k, metas[k].nullifier)
  }

  lemma LookupHeld(table: Table, h: nat, hash: Hash, metas: seq<NullifierWithMeta>, k: nat)
    requires HoldsOnce(table, h, hash, metas, k)
    ensures Lookup(PirBytes(table.buckets), [], metas[k].nullifier) == Some(MetadataFor(h, metas[k]))
  {
    HeldAt(table, h, hash, metas, k);
    LookupIs(table, h, k, metas[k].nullifier);
  }

  lemma HeldAt(table: Table, h: nat, hash: Hash, metas: seq<NullifierWithMeta>, k: nat)
    requires Shaped(table.buckets) && RefsInRange(table) && h in table.blockIndex && k < |metas|
    requires Live(table)[h] == LiveBlock(hash, metas)
    ensures Holds(Live(table), h, k, metas[k].nullifier) && Live(table)[h].nullifiers[k] == metas[k]
  {
  }

  lemma OutputLeaves(before: Tree, block: CompactBlock, hash: Hash, prior: Option<u32>, i: nat, tree: Tree, first: nat,
                     actions: seq<Action>)
    requires WellFormedTxs(block.vtx) && MetadataMatches(block, before.Size())
    requires i < |block.vtx| && actions == block.vtx[i].actions
    requires tree == Append(before, block.height, hash, CommitmentsOf(block.vtx))
    requires first == before.Size() + Offset(block.vtx, i)
    ensures forall o :: 0 <= o < |actions| ==> OutputIsLeaf(tree, first, actions, o)
  {
    forall o | 0 <= o < |actions|
      ensures OutputIsLeaf(tree, first, actions, o)
    {
      OutputLeaf(before, block, hash, prior, i, tree, first, actions, o);
    }
  }

  lemma OutputLeaf(before: Tree, block: CompactBlock, hash: Hash, prior: Option<u32>, i: nat, tree: Tree, first: nat,
                   actions: seq<Action>, o: nat)
    requires WellFormedTxs(block.vtx) && MetadataMatches(block, before.Size())
    requires i < |block.vtx| && actions == block.vtx[i].actions && o < |actions|
    requires tree == Append(before, block.height, hash, CommitmentsOf(block.vtx))
    requires first == before.Size() + Offset(block.vtx, i)
    ensures OutputIsLeaf(tree, first, actions, o)
  {
    SizeKnown(block, before.Size(), prior, i, o);
    LeafPlaced(before, block, hash, i, o, tree);
  }
}
