/** Whole runs of the tree leave it as if only the surviving blocks had been appended, whatever appends, rollbacks,
    builds and restarts came in between. */
module TreeRuns {
  import opened Bytes
  import opened Geometry
  import opened Merkle
  import opened CommitmentTree
  import opened TreeSnapshot

  datatype Block = Block(height: nat, hash: Hash, commitments: seq<Hash>)

  datatype TreeOp = AppendBlock(block: Block) | RollbackTo(target: nat) | Build | Restart

  // ----- The surviving blocks, and the tree they alone would give

  function KeepLow(blocks: seq<Block>, target: nat): (kept: seq<Block>) {
    if blocks == [] then []
    else
      var last := blocks[|blocks| - 1];
      KeepLow(blocks[..|blocks| - 1], target) + (if last.height <= target then [last] else [])
  }

  function Survivors(ops: seq<TreeOp>): seq<Block> {
    if ops == [] then []
    else
      var before := Survivors(ops[..|ops| - 1]);
      match ops[|ops| - 1]
      case AppendBlock(b) => before + [b]
      case RollbackTo(target) => KeepLow(before, target)
      case Build => before
      case Restart => before
  }

  function LeavesOf(blocks: seq<Block>): seq<Hash> {
    if blocks == [] then [] else LeavesOf(blocks[..|blocks| - 1]) + blocks[|blocks| - 1].commitments
  }

  function RecordOf(b: Block): BlockRecord {
    BlockRecord(b.height, b.hash, AsU32(|b.commitments|))
  }

  function RecordsOf(blocks: seq<Block>): (records: seq<BlockRecord>)
    ensures |records| == |blocks|
  {
    if blocks == [] then [] else RecordsOf(blocks[..|blocks| - 1]) + [RecordOf(blocks[|blocks| - 1])]
  }

  // A fresh tree fed with these blocks and nothing else.
  function Replay(t: Tree, blocks: seq<Block>): Tree {
    if blocks == [] then t
    else
      var last := blocks[|blocks| - 1];
      Append(Replay(t, blocks[..|blocks| - 1]), last.height, last.hash, last.commitments)
  }

  // ----- Runs

  function Apply(H: Hasher<Hash>, xxh: seq<byte> -> u64, t: Tree, op: TreeOp): Tree {
    match op
    case AppendBlock(b) => Append(t, b.height, b.hash, b.commitments)
    case RollbackTo(target) => Rollback(t, target)
    case Build => Warm(H, t)
    case Restart => match Decode(Encode(t, xxh), xxh) { case Ok(u) => u case Err(_) => Fresh(0, []) }
  }

  function Run(H: Hasher<Hash>, xxh: seq<byte> -> u64, t: Tree, ops: seq<TreeOp>): Tree {
    if ops == [] then t else Apply(H, xxh, Run(H, xxh, t, ops[..|ops| - 1]), ops[|ops| - 1])
  }

  ghost predicate HeightsIncrease(blocks: seq<Block>) {
    forall i, j :: 0 <= i < j < |blocks| ==> blocks[i].height < blocks[j].height
  }

  // Blocks and counters of a size that the file format can hold.
  ghost predicate Sized(blocks: seq<Block>) {
    && |blocks| < U64
    && forall i :: 0 <= i < |blocks| ==> blocks[i].height < U64 && |blocks[i].commitments| < U32
  }

  // At every moment of the run the surviving blocks have strictly increasing heights and fit the format.
  ghost predicate Legal(leafOffset: nat, ops: seq<TreeOp>) {
    && HeightsIncrease(Survivors(ops)) && Sized(Survivors(ops))
    && leafOffset + |LeavesOf(Survivors(ops))| < U64
    && (ops != [] ==> Legal(leafOffset, ops[..|ops| - 1]))
  }

  // The tree holds exactly these blocks' commitments, in order, and one record for each of them.
  ghost predicate HoldsBlocks(t: Tree, leafOffset: nat, prefetched: seq<Hash>, blocks: seq<Block>) {
    && t.leaves == LeavesOf(blocks) && t.blocks == RecordsOf(blocks)
    && t.leafOffset == leafOffset && t.prefetched == prefetched
  }

  // ----- Rollback keeps a prefix

  lemma {:induction false} KeepLowPrefix(blocks: seq<Block>, target: nat)
    requires HeightsIncrease(blocks)
    ensures KeepLow(blocks, target) <= blocks
    ensures blocks != [] && blocks[|blocks| - 1].height <= target ==> KeepLow(blocks, target) == blocks
  {
    if blocks != [] {
      var init, last := blocks[..|blocks| - 1], blocks[|blocks| - 1];
      KeepLowPrefix(init, target);
      if last.height <= target {
        assert init != [] ==> init[|init| - 1].height < last.height;
        assert KeepLow(init, target) == init;
        assert init + [last] == blocks;
      } else {
        assert KeepLow(blocks, target) == KeepLow(init, target);
      }
    }
  }

  lemma {:induction false} KeptRecords(blocks: seq<Block>, target: nat)
    requires HeightsIncrease(blocks)
    ensures KeepUpTo(RecordsOf(blocks), target) == RecordsOf(KeepLow(blocks, target))
  {
    KeepLowPrefix(blocks, target);
    if blocks != [] && blocks[|blocks| - 1].height > target {
      var init := blocks[..|blocks| - 1];
      assert RecordsOf(blocks)[..|blocks| - 1] == RecordsOf(init);
      KeptRecords(init, target);
      assert KeepLow(blocks, target) == KeepLow(init, target);
    }
  }

  // The leaves of the first k blocks come first, and the other records count the rest.
  lemma {:induction false} PrefixLeaves(blocks: seq<Block>, k: nat)
    requires k <= |blocks| && Sized(blocks)
    ensures LeavesOf(blocks[..k]) <= LeavesOf(blocks)
    ensures |LeavesOf(blocks)| == |LeavesOf(blocks[..k])| + Total(RecordsOf(blocks)[k..])
  {
    if k == |blocks| {
      assert blocks[..k] == blocks;
    } else {
      var init, last := blocks[..|blocks| - 1], blocks[|blocks| - 1];
      PrefixLeaves(init, k);
      assert init[..k] == blocks[..k];
      assert RecordsOf(blocks)[k..] == RecordsOf(init)[k..] + [RecordOf(last)];
      TotalSnoc(RecordsOf(init)[k..], RecordOf(last));
    }
  }

  lemma RollbackHolds(t: Tree, leafOffset: nat, prefetched: seq<Hash>, blocks: seq<Block>, target: nat)
    requires HoldsBlocks(t, leafOffset, prefetched, blocks) && HeightsIncrease(blocks) && Sized(blocks)
    ensures HoldsBlocks(Rollback(t, target), leafOffset, prefetched, KeepLow(blocks, target))
  {
    var kept := KeepLow(blocks, target);
    KeptRecords(blocks, target);
    KeepLowPrefix(blocks, target);
    assert kept == blocks[..|kept|];
    PrefixLeaves(blocks, |kept|);
  }

  lemma AppendHolds(t: Tree, leafOffset: nat, prefetched: seq<Hash>, blocks: seq<Block>, b: Block)
    requires HoldsBlocks(t, leafOffset, prefetched, blocks)
    ensures HoldsBlocks(Append(t, b.height, b.hash, b.commitments), leafOffset, prefetched, blocks + [b])
  {
    assert (blocks + [b])[..|blocks|] == blocks;
  }

  lemma {:induction false} RecordAtIndex(blocks: seq<Block>, k: nat)
    requires k < |blocks|
    ensures RecordsOf(blocks)[k] == RecordOf(blocks[k])
  {
    if k < |blocks| - 1 {
      RecordAtIndex(blocks[..|blocks| - 1], k);
    }
  }

  lemma HeldIsRepresentable(t: Tree, leafOffset: nat, prefetched: seq<Hash>, blocks: seq<Block>)
    requires HoldsBlocks(t, leafOffset, prefetched, blocks) && Sized(blocks) && |t.cache| == L0_DB_ROWS
    requires leafOffset + |LeavesOf(blocks)| < U64 && |prefetched| < U64
    ensures Representable(t)
  {
    PrefixLeaves(blocks, 0);
    assert RecordsOf(blocks)[0..] == RecordsOf(blocks);
    forall k | 0 <= k < |t.blocks|
      ensures t.blocks[k].height < U64 && t.blocks[k].numCommitments < U32
    {
      RecordAtIndex(blocks, k);
    }
  }

  // ----- Main results

  /** After any legal run the tree holds exactly the surviving blocks, and its cache is coherent: every cached
      root belongs to a non-empty sub-shard and is the root of its leaves. */
  lemma {:induction false} RunHoldsSurvivors(H: Hasher<Hash>, xxh: seq<byte> -> u64, leafOffset: nat,
                                             prefetched: seq<Hash>, ops: seq<TreeOp>)
    requires leafOffset % SHARD_LEAVES == 0 && |prefetched| < U64 && Legal(leafOffset, ops)
    ensures var t := Run(H, xxh, Fresh(leafOffset, prefetched), ops);
            && HoldsBlocks(t, leafOffset, prefetched, Survivors(ops))
            && t.WellFormed() && CacheCoherent(H, t) && Representable(t)
    decreases |ops|
  {
    if ops != [] {
      var init, op := ops[..|ops| - 1], ops[|ops| - 1];
      RunHoldsSurvivors(H, xxh, leafOffset, prefetched, init);
      var before := Run(H, xxh, Fresh(leafOffset, prefetched), init);
      match op {
        case AppendBlock(b) =>
          AppendHolds(before, leafOffset, prefetched, Survivors(init), b);
          AppendCoherent(H, before, b.height, b.hash, b.commitments);
        case RollbackTo(target) =>
          RollbackHolds(before, leafOffset, prefetched, Survivors(init), target);
          RollbackCoherent(H, before, target);
        case Build =>
        case Restart =>
          SnapshotRoundTrip(before, xxh);
      }
    }
    HeldIsRepresentable(Run(H, xxh, Fresh(leafOffset, prefetched), ops), leafOffset, prefetched, Survivors(ops));
  }

  lemma {:induction false} ReplayHolds(leafOffset: nat, prefetched: seq<Hash>, blocks: seq<Block>)
    ensures HoldsBlocks(Replay(Fresh(leafOffset, prefetched), blocks), leafOffset, prefetched, blocks)
  {
    if blocks != [] {
      var init, last := blocks[..|blocks| - 1], blocks[|blocks| - 1];
      ReplayHolds(leafOffset, prefetched, init);
      AppendHolds(Replay(Fresh(leafOffset, prefetched), init), leafOffset, prefetched, init, last);
      assert init + [last] == blocks;
    }
  }

  /** A reorganised tree equals a replay: leaves, block records, root, database and broadcast are those of a
      fresh tree that was only ever fed the surviving blocks. */
  lemma RunEqualsReplay(H: Hasher<Hash>, xxh: seq<byte> -> u64, leafOffset: nat, prefetched: seq<Hash>,
                        ops: seq<TreeOp>, anchorHeight: nat)
    requires leafOffset % SHARD_LEAVES == 0 && |prefetched| < U64 && Legal(leafOffset, ops)
    ensures var t := Run(H, xxh, Fresh(leafOffset, prefetched), ops);
            var u := Replay(Fresh(leafOffset, prefetched), Survivors(ops));
            && t.leaves == u.leaves && t.blocks == u.blocks
            && Root(H, t) == Root(H, u)
            && PirDb(H, t) == PirDb(H, u)
            && BroadcastOf(H, t, anchorHeight) == BroadcastOf(H, u, anchorHeight)
  {
    RunHoldsSurvivors(H, xxh, leafOffset, prefetched, ops);
    ReplayHolds(leafOffset, prefetched, Survivors(ops));
    ServesSame(H, Run(H, xxh, Fresh(leafOffset, prefetched), ops),
        Replay(Fresh(leafOffset, prefetched), Survivors(ops)), anchorHeight);
  }

  // What a tree serves does not depend on its cache.
  lemma ServesSame(H: Hasher<Hash>, t: Tree, u: Tree, anchorHeight: nat)
    requires t.leaves == u.leaves && t.leafOffset == u.leafOffset && t.prefetched == u.prefetched
    ensures Root(H, t) == Root(H, u)
    ensures PirDb(H, t) == PirDb(H, u)
    ensures BroadcastOf(H, t, anchorHeight) == BroadcastOf(H, u, anchorHeight)
  {
    forall i: nat
      ensures ShardRoot(H, t, i) == ShardRoot(H, u, i)
    {
    }
    assert ShardRootsUpTo(H, t, t.PopulatedShards()) == ShardRootsUpTo(H, u, u.PopulatedShards());
    var n := t.WindowStart() + t.WindowShardCount();
    assert ShardRootsUpTo(H, t, n) == ShardRootsUpTo(H, u, n);
  }
}
