/** Inputs at which a promised property fails. There is one for each: a block that overflows a bucket, a tree of 33
    shards, a block whose parent is a sibling of the tip, and a tracker that starts at height 0. All of them are
    inputs that the servers can receive. */
module Examples {
  import opened Bytes
  import opened Geometry
  import opened Merkle
  import opened SpendTypes
  import opened NullifierTable
  import opened NullifierRemoval
  import opened NullifierCapacity
  import opened WitnessClient
  import opened WitnessTheorems
  import opened EndToEnd
  import opened Parsers
  import opened ChainTracker
  import opened FollowLoop
  import opened FollowLockstep
  import FollowGaps
  import NullifierLeaks
  import CT = CommitmentTree

  function Mark(n: byte): Hash {
    [n] + Zeros(31)
  }

  // ----- 113 nullifiers for one bucket

  function NullifierFor(i: nat): Hash
    requires i < 113
  {
    [0, 0, 0, 0, i + 1] + Zeros(27)
  }

  function Crowd(n: nat): (nfs: seq<NullifierWithMeta>)
    requires n <= 113
    ensures |nfs| == n
  {
    seq<NullifierWithMeta>(n, i requires 0 <= i < n => NullifierWithMeta(NullifierFor(i), 0, 1))
  }

  lemma InBucketZero(i: nat)
    requires i < 113
    ensures HashToBucket(NullifierFor(i)) == 0 && NullifierFor(i) != ZeroHash()
  {
    var nf := NullifierFor(i);
    assert nf[..4] == [0, 0, 0, 0];
    assert [0, 0, 0, 0][1..] == [0, 0, 0] && [0, 0, 0][1..] == [0, 0] && [0, 0][1..] == [0];
    assert FromLE(nf[..4]) == 0;
    assert nf[4] == i + 1 && ZeroHash()[4] == 0;
  }

  lemma CrowdDemand(n: nat, b: nat)
    requires n <= 113
    ensures Demand(Crowd(n), b) == if b == 0 then n else 0
    ensures NonZero(Crowd(n))
  {
    if n > 0 {
      CrowdDemand(n - 1, b);
      InBucketZero(n - 1);
      assert Crowd(n)[..n - 1] == Crowd(n - 1);
    }
  }

  lemma CrowdFits(b: nat)
    requires b < NUM_BUCKETS
    ensures Demand(Crowd(112), b) <= Free(EmptyTable().buckets, b)
  {
    CrowdDemand(112, b);
    EmptyTableOk();
    EmptyBuckets(EmptyTable(), b);
  }

  lemma CrowdFills()
    ensures NonZero(Crowd(112)) && Shaped(EmptyTable().buckets)
    ensures PlaceAll(EmptyTable().buckets, Crowd(112), 1).overflow == None
    ensures |PlaceAll(EmptyTable().buckets, Crowd(112), 1).slots| == 112
    ensures Shaped(PlaceAll(EmptyTable().buckets, Crowd(112), 1).buckets)
    ensures Free(PlaceAll(EmptyTable().buckets, Crowd(112), 1).buckets, 0) == 0
  {
    var before := EmptyTable().buckets;
    EmptyTableOk();
    forall b | 0 <= b < NUM_BUCKETS
      ensures Demand(Crowd(112), b) <= Free(before, b)
    {
      CrowdFits(b);
    }
    CrowdDemand(112, 0);
    PlaceAllConsumes(before, Crowd(112), 1);
    PlaceAllOk(before, Crowd(112), 1);
    EmptyBuckets(EmptyTable(), 0);
  }

  lemma CrowdPlaced()
    ensures NonZero(Crowd(113)) && Shaped(EmptyTable().buckets)
    ensures PlaceAll(EmptyTable().buckets, Crowd(113), 1).overflow == Some(0)
    ensures |PlaceAll(EmptyTable().buckets, Crowd(113), 1).slots| == 112
  {
    CrowdFills();
    CrowdDemand(113, 0);
    InBucketZero(112);
    assert Crowd(113)[..112] == Crowd(112) && Crowd(113)[112].nullifier == NullifierFor(112);
    OneTooMany(EmptyTable().buckets, Crowd(113));
  }

  lemma OneTooMany(before: seq<Bucket>, nfs: seq<NullifierWithMeta>)
    requires Shaped(before) && nfs != []
    requires nfs[|nfs| - 1].nullifier != ZeroHash() && HashToBucket(nfs[|nfs| - 1].nullifier) == 0
    requires PlaceAll(before, nfs[..|nfs| - 1], 1).overflow == None
    requires Free(PlaceAll(before, nfs[..|nfs| - 1], 1).buckets, 0) == 0
    ensures PlaceAll(before, nfs, 1).overflow == Some(0)
    ensures |PlaceAll(before, nfs, 1).slots| == |PlaceAll(before, nfs[..|nfs| - 1], 1).slots|
  {
    FreeZero(PlaceAll(before, nfs[..|nfs| - 1], 1).buckets[0].entries);
  }

  /** A block of 113 nullifiers for one bucket, inserted into the empty table, fails and leaves 112 entries of a
      block that is not recorded. */
  lemma CrowdLeaks()
    ensures Shaped(EmptyTable().buckets)
    ensures var (u, r) := Insert(EmptyTable(), 1, Mark(1), Crowd(113));
            && r == NullifierTable.Result.Err(BucketOverflow(0)) && u.numEntries == 112 && u.blockIndex == map[]
            && Shaped(u.buckets) && !Clean(u)
  {
    CrowdPlaced();
    EmptyTableOk();
    NullifierLeaks.FailedInsertLeaks(EmptyTable(), 1, Mark(1), Crowd(113), [], 0, []);
  }

  // ----- 113 nullifiers that differ in their second byte

  function SpreadFor(i: nat): Hash
    requires i < 113
  {
    [0, i] + Zeros(29) + [1]
  }

  function Spread(n: nat): (nfs: seq<NullifierWithMeta>)
    requires n <= 113
    ensures |nfs| == n
  {
    seq<NullifierWithMeta>(n, i requires 0 <= i < n => NullifierWithMeta(SpreadFor(i), 0, 1))
  }

  lemma SpreadBucket(i: nat)
    requires i < 113
    ensures HashToBucket(SpreadFor(i)) == 256 * (i % 64) && SpreadFor(i) != ZeroHash()
  {
    BucketBytes(SpreadFor(i));
    assert SpreadFor(i)[31] == 1 && ZeroHash()[31] == 0;
  }

  lemma {:induction false} SpreadDemand(n: nat, b: nat)
    requires n <= 113
    ensures NonZero(Spread(n))
    ensures Demand(Spread(n), b) <= if n <= 64 then (if b < 256 * n then 1 else 0) else 2
    ensures n > 64 && b >= 256 * (n - 64) ==> Demand(Spread(n), b) <= 1
    decreases n
  {
    if n > 0 {
      SpreadDemand(n - 1, b);
      SpreadBucket(n - 1);
      assert Spread(n)[..n - 1] == Spread(n - 1);
    }
  }

  /** As many nullifiers as overflow one bucket, all with first byte 0, fit when their second bytes differ. */
  lemma SpreadFits()
    ensures Shaped(EmptyTable().buckets) && Insert(EmptyTable(), 1, Mark(1), Spread(113)).1.Ok?
  {
    EmptyTableOk();
    SpreadDemand(113, 0);
    forall b | 0 <= b < NUM_BUCKETS
      ensures Demand(Spread(113), b) <= Free(EmptyTable().buckets, b)
    {
      SpreadDemand(113, b);
      EmptyBuckets(EmptyTable(), b);
    }
    PlaceAllConsumes(EmptyTable().buckets, Spread(113), 1);
  }

  // ----- 33 shards

  // A hash that tells only whether something is not empty.
  function Combined(a: Hash, b: Hash): Hash {
    if a == ZeroHash() && b == ZeroHash() then ZeroHash() else Mark(1)
  }

  function Marking(): Hasher<Hash> {
    Hasher((l: nat, a: Hash, b: Hash) => Combined(a, b), ZeroHash())
  }

  lemma {:induction false} MarkingEmpty(h: nat)
    ensures EmptyRoot(Marking(), h) == ZeroHash()
  {
    if h > 0 {
      MarkingEmpty(h - 1);
    }
  }

  lemma {:induction false} MarkedBelow(row: seq<Hash>, b: nat, h: nat, i: nat, x: nat)
    requires First(h, i) <= x < First(h, i + 1) && At(Marking(), row, b, x) == Mark(1)
    ensures Node(Marking(), row, b, h, i) == Mark(1)
    decreases h
  {
    assert Mark(1)[0] == 1 && ZeroHash()[0] == 0;
    if h > 0 {
      Halves(h, i);
      MarkedBelow(row, b, h - 1, if x < First(h - 1, 2 * i + 1) then 2 * i else 2 * i + 1, x);
    }
  }

  // Thirty-two shards of empty leaves and one leaf more.
  ghost predicate OneLeafTooMany(leaves: seq<Hash>) {
    && |leaves| == L0_MAX_SHARDS * SHARD_LEAVES + 1 && leaves[L0_MAX_SHARDS * SHARD_LEAVES] == Mark(1)
    && forall k :: 0 <= k < L0_MAX_SHARDS * SHARD_LEAVES ==> leaves[k] == ZeroHash()
  }

  function LongLeaves(): seq<Hash> {
    seq<Hash>(L0_MAX_SHARDS * SHARD_LEAVES, _ => ZeroHash()) + [Mark(1)]
  }

  lemma LongShards(leaves: seq<Hash>, i: nat)
    requires OneLeafTooMany(leaves) && i <= 32
    ensures Node(Marking(), leaves, 0, SHARD_HEIGHT, i) == if i < 32 then ZeroHash() else Mark(1)
  {
    if i < 32 {
      EmptyShardRoot(Marking(), leaves, i);
      MarkingEmpty(SHARD_HEIGHT);
    } else {
      First16(32);
      First16(33);
      MarkedBelow(leaves, 0, SHARD_HEIGHT, 32, L0_MAX_SHARDS * SHARD_LEAVES);
    }
  }

  lemma {:induction false} AllEmpty(row: seq<Hash>, b: nat, h: nat, i: nat)
    requires forall k :: 0 <= k < |row| ==> row[k] == ZeroHash()
    ensures Node(Marking(), row, b, h, i) == ZeroHash()
    decreases h
  {
    if h == 0 {
      MarkingEmpty(b);
    } else {
      AllEmpty(row, b, h - 1, 2 * i);
      AllEmpty(row, b, h - 1, 2 * i + 1);
    }
  }

  lemma LongServed(t: CT.Tree)
    requires OneLeafTooMany(t.leaves) && t.leafOffset == 0
    ensures CT.Root(Marking(), t) == Mark(1) && ServedRoot(Marking(), t) == ZeroHash()
  {
    var H := Marking();
    var served, all := CT.ShardRootsUpTo(H, t, 32), CT.ShardRootsUpTo(H, t, 33);
    forall i | 0 <= i < 32
      ensures served[i] == ZeroHash()
    {
      LongShards(t.leaves, i);
    }
    AllEmpty(served, SHARD_HEIGHT, SHARD_HEIGHT, 0);
    LongShards(t.leaves, 32);
    assert At(H, all, SHARD_HEIGHT, 32) == Mark(1);
    FirstZero(16);
    First16(1);
    MarkedBelow(all, SHARD_HEIGHT, 16, 0, 32);
  }

  lemma LongLeavesFit()
    ensures OneLeafTooMany(LongLeaves())
  {
    var n := L0_MAX_SHARDS * SHARD_LEAVES;
    var zeros := seq<Hash>(n, _ => ZeroHash());
    assert |zeros| == n && LongLeaves() == zeros + [Mark(1)];
  }

  /** A tree of 33 shards: what clients are served as the root is not the tree's root. */
  lemma LongTreeMisserved()
    ensures OneLeafTooMany(LongLeaves())
    ensures var t := CT.Append(CT.Fresh(0, []), 1, Mark(2), LongLeaves());
            t.LocalShardCount() == 33 && ServedRoot(Marking(), t) != CT.Root(Marking(), t)
  {
    LongLeavesFit();
    MisservedAfter(CT.Append(CT.Fresh(0, []), 1, Mark(2), LongLeaves()), LongLeaves());
  }

  lemma MisservedAfter(t: CT.Tree, leaves: seq<Hash>)
    requires OneLeafTooMany(leaves) && t.leaves == leaves && t.leafOffset == 0
    ensures t.LocalShardCount() == 33 && ServedRoot(Marking(), t) != CT.Root(Marking(), t)
  {
    LongServed(t);
    assert Mark(1)[0] == 1 && ZeroHash()[0] == 0;
  }

  // ----- A sibling at the next height

  // Block 2 follows block 1 at heights 5 and 6; block 3 is a sibling of block 2, and block 4 its child.
  function Siblings(): BlockTree {
    BlockTree((x: Hash) => if x[0] == 1 then 5 else if x[0] == 2 || x[0] == 3 then 6 else if x[0] == 4 then 7 else 0,
              (x: Hash) => if x[0] == 2 then Mark(1) else if x[0] == 4 then Mark(3) else Mark(0))
  }

  function NoNullifiers(): seq<NullifierWithMeta> {
    []
  }

  // Both databases hold block 1 and nothing else.
  function OneBlock(): State {
    EmptyShaped();
    State([Link(5, Mark(1))], CT.Append(CT.Fresh(0, []), 5, Mark(1), []),
          Insert(EmptyTable(), 5, Mark(1), NoNullifiers()).0, 5, None)
  }

  lemma EmptyShaped()
    ensures Shaped(EmptyTable().buckets)
  {
    EmptyTableOk();
  }

  // Block 2 spends one note and creates one.
  function ChildBlock(): CompactBlock {
    CompactBlock(6, Mark(2), Mark(1), [Tx([Action(Mark(8), Mark(9))])], Some(1))
  }

  function NephewBlock(): CompactBlock {
    CompactBlock(7, Mark(4), Mark(3), [], Some(1))
  }

  lemma OneTable()
    ensures Inv(OneBlock().table) && OneBlock().table.blockIndex == map[5 := BlockRecord(Mark(1), [])]
  {
    EmptyTableOk();
    assert PlaceAll(EmptyTable().buckets, NoNullifiers(), 5) == Placed(EmptyTable().buckets, [], None);
    InsertAddsBlock(EmptyTable(), 5, Mark(1), NoNullifiers());
  }

  lemma OneTree()
    ensures OneBlock().tree.blocks == [CT.BlockRecord(5, Mark(1), 0)] && OneBlock().chain == [Link(5, Mark(1))]
  {
  }

  lemma OneLockstep(one: State)
    requires Inv(one.table) && one.table.blockIndex == map[5 := BlockRecord(Mark(1), [])]
    requires one == State([Link(5, Mark(1))], one.tree, one.table, 5, None)
    requires one.tree.blocks == [CT.BlockRecord(5, Mark(1), 0)]
    ensures Lockstep(Siblings(), one) && Tip(one) == Link(5, Mark(1))
  {
    WholeHash(1);
    LatestOfOne(5, BlockRecord(Mark(1), []));
    StartsInLockstep(Siblings(), one.tree, one.table, Link(5, Mark(1)), None);
  }

  // The start, and what is needed of it.
  lemma OneStarts() returns (one: State)
    ensures Lockstep(Siblings(), one) && Tip(one) == Link(5, Mark(1))
    ensures one.tree.blocks == [CT.BlockRecord(5, Mark(1), 0)] && one.chain == [Link(5, Mark(1))]
    ensures one.table.blockIndex == map[5 := BlockRecord(Mark(1), [])] && one.currentHeight == 5
  {
    one := OneBlock();
    OneTable();
    OneTree();
    OneLockstep(one);
  }

  lemma LatestOfOne(h: nat, r: BlockRecord)
    ensures LatestOf(map[h := r]) == Some((h, r.blockHash))
  {
    var index := map[h := r];
    assert h in index;
    assert Newest(index) in index;
  }

  lemma WholeHash(n: byte)
    ensures ToHashArray(Mark(n)) == Mark(n) && Mark(n)[0] == n
  {
    assert Mark(n)[..32] == Mark(n);
  }

  lemma ChildDelivered(s: State)
    requires s.chain == [Link(5, Mark(1))]
    ensures Delivered(Siblings(), s, ChildBlock()) && RecordFor(ChildBlock()) == CT.BlockRecord(6, Mark(2), 1)
    ensures ToHashArray(ChildBlock().prevHash) == Mark(1)
  {
    WholeHash(1);
    WholeHash(2);
    WholeHash(8);
    ChildReads(SizeBefore(ChildBlock(), s.prevTreeSize));
  }

  lemma ChildReads(start: Option<u32>)
    ensures |MetasOf(ChildBlock().vtx, start)| == 1 && MetasOf(ChildBlock().vtx, start)[0].nullifier == Mark(8)
    ensures CommitmentsOf(ChildBlock().vtx) == [Mark(9)]
  {
    var txs := ChildBlock().vtx;
    assert txs[..0] == [] && txs[0] == Tx([Action(Mark(8), Mark(9))]);
    assert MetasOf(txs[..0], start) == [] && CommitmentsOf(txs[..0]) == [];
    OneAction(OrZero(PositionAfter(start, txs[..0])), 1 % 256);
  }

  lemma OneAction(first: u32, count: byte)
    ensures MetasOfActions([Action(Mark(8), Mark(9))], first, count) == [NullifierWithMeta(Mark(8), first, count)]
  {
    var actions := [Action(Mark(8), Mark(9))];
    assert actions[..0] == [] && actions[0].nullifier == Mark(8);
    assert MetasOfActions(actions[..0], first, count) == [];
  }

  lemma NephewIsGenuine()
    ensures Genuine(Siblings(), HeaderOf(NephewBlock())) && MetasFor(NephewBlock(), OrchardTreeSize(ChildBlock())) == []
    ensures ToHashArray(NephewBlock().prevHash) == Mark(3) && RecordFor(NephewBlock()) == CT.BlockRecord(7, Mark(4), 0)
  {
    WholeHash(3);
    WholeHash(4);
  }

  // What the loop stands at after the two blocks.
  lemma TwoBlocks(one: State, child: CompactBlock)
    requires Lockstep(Siblings(), one) && Delivered(Siblings(), one, child) && child.height == one.currentHeight + 1
    requires |one.chain| == |one.tree.blocks| == 1 && ToHashArray(child.prevHash) == Tip(one).hash
    ensures Acceptable(one, child)
    ensures var s := Handle(one, child);
            && Lockstep(Siblings(), s) && |s.chain| == 2 && s.chain[0] == one.chain[0]
            && s.currentHeight == child.height && Tip(s) == Link(child.height, ToHashArray(child.hash))
            && s.tree.blocks == one.tree.blocks + [RecordFor(child)]
  {
    FollowGaps.NextBlocks(Siblings(), one, child);
    FollowGaps.HandleTree(one, child);
    ExtendsIffChild(Siblings(), one.chain, MAX_DEPTH, HeaderOf(child));
  }

  lemma BothDropped(one: State, child: CompactBlock, nephew: CompactBlock)
    requires Lockstep(Siblings(), one) && Delivered(Siblings(), one, child) && child.height == one.currentHeight + 1
    requires |one.chain| == |one.tree.blocks| == 1 && ToHashArray(child.prevHash) == Tip(one).hash
    requires Genuine(Siblings(), HeaderOf(nephew)) && MetasFor(nephew, OrchardTreeSize(child)) == []
    requires nephew.height == child.height + 1 && ToHashArray(nephew.prevHash) != ToHashArray(child.hash)
    ensures Acceptable(one, child)
    ensures var s := Handle(one, child);
            && s.tree.blocks == one.tree.blocks + [RecordFor(child)] && s.currentHeight == child.height
            && Delivered(Siblings(), s, nephew) && Acceptable(s, nephew)
            && Handle(s, nephew).tree.blocks == [RecordFor(nephew)]
  {
    TwoBlocks(one, child);
    NephewRecords(Handle(one, child), nephew);
  }

  /** Both databases hold block 1, the loop handles its child at height 6, and the block at height 7 descends from a
      sibling of that child. Both blocks are dropped, and heights 5 and 6 are missing. */
  lemma NephewDropsBoth() returns (one: State)
    ensures Lockstep(Siblings(), one) && Acceptable(one, ChildBlock())
    ensures one.tree.blocks == [CT.BlockRecord(5, Mark(1), 0)]
    ensures one.table.blockIndex == map[5 := BlockRecord(Mark(1), [])]
    ensures var s := Handle(one, ChildBlock());
            && s.tree.blocks == [CT.BlockRecord(5, Mark(1), 0), CT.BlockRecord(6, Mark(2), 1)]
            && Delivered(Siblings(), s, NephewBlock()) && NephewBlock().height == s.currentHeight + 1
            && Acceptable(s, NephewBlock())
            && Handle(s, NephewBlock()).tree.blocks == [CT.BlockRecord(7, Mark(4), 0)]
  {
    one := OneStarts();
    ChildDelivered(one);
    NephewIsGenuine();
    WholeHash(2);
    WholeHash(3);
    BothDropped(one, ChildBlock(), NephewBlock());
  }

  lemma NephewRecords(s: State, b: CompactBlock)
    requires Lockstep(Siblings(), s) && Delivered(Siblings(), s, b) && b.height == s.currentHeight + 1
    requires |s.tree.blocks| == |s.chain| && ToHashArray(b.prevHash) != Tip(s).hash
    ensures Acceptable(s, b) && Handle(s, b).tree.blocks == [RecordFor(b)]
  {
    FollowGaps.NextBlocks(Siblings(), s, b);
  }

  // ----- A position past 2^48

  /** A tree of one leaf, under any hash: the query for position 2^48 is answered, with the witness of position 0. */
  lemma AliasAnswered(H: Hasher<Hash>, leaf: Hash)
    ensures var t := CT.Append(CT.Fresh(0, []), 1, Mark(1), [leaf]);
            && ShapedBroadcast(CT.BroadcastOf(H, t, 1))
            && var r := FetchWitness(H, POSITION_RANGE, CT.PirDb(H, t), CT.BroadcastOf(H, t, 1));
            && r.Ok? && r.value.position == POSITION_RANGE && r.value.anchorRoot == CT.Root(H, t)
            && PathNode(H, leaf, r.value.siblings, 0, TREE_DEPTH) == CT.Root(H, t)
  {
    var t := CT.Append(CT.Fresh(0, []), 1, Mark(1), [leaf]);
    AnyPosition(H, t, POSITION_RANGE, 1);
    LeafHasWitness(H, t, 0, 1);
  }

  // ----- A full window

  /** The follow loop's window holds 20 links. The child of a full window's tip pushes out the oldest one alone. */
  lemma FullWindow(chain: seq<Link>, b: Header)
    requires |chain| == 20 && IsChild(chain[19], b)
    ensures Push(chain, MAX_DEPTH, b) == (chain[1..] + [Link(b.height, b.hash)], Extend)
  {
    ChildKeepsNewest(chain, MAX_DEPTH, b);
    var link := Link(b.height, b.hash);
    assert LastLinks(chain + [link], 20) == chain[1..] + [link];
  }

  // ----- A tracker at height 0

  // What the servers start from when nothing is stored.
  function GroundWindow(): seq<Link> {
    [Link(0, ZeroHash())]
  }

  function Ground(): BlockTree {
    BlockTree((x: Hash) => if x[0] == 1 then 1 else 0, (x: Hash) => Mark(2))
  }

  /** A tracker that starts at height 0 under the zero hash, fed with the block at height 1, keeps its start below a
      block that is not its child. */
  lemma GroundUnlinked()
    ensures Window(Ground(), GroundWindow()) && Genuine(Ground(), Header(1, Mark(1), Mark(2)))
    ensures Push(GroundWindow(), MAX_DEPTH, Header(1, Mark(1), Mark(2))) ==
              ([Link(0, ZeroHash()), Link(1, Mark(1))], Reorg(0))
    ensures !Window(Ground(), Push(GroundWindow(), MAX_DEPTH, Header(1, Mark(1), Mark(2))).0)
  {
    assert Mark(1)[0] == 1 && Mark(2)[0] == 2 && ZeroHash()[0] == 0;
    var after := [Link(0, ZeroHash()), Link(1, Mark(1))];
    assert Truncate(GroundWindow(), 0) == GroundWindow();
    assert Push(GroundWindow(), MAX_DEPTH, Header(1, Mark(1), Mark(2))).0 == after;
    assert Ground().parentOf(after[1].hash) != after[0].hash;
  }
}
