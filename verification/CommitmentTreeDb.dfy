/** The tree object of the server: fields updated in place, every method proved against the value `Tree`. */
module CommitmentTreeDb {
  import opened Bytes
  import opened Geometry
  import opened Merkle
  import opened CommitmentTree

  class CommitmentTreeDb {
    const H: Hasher<Hash>
    const emptyRoots: seq<Hash>
    var leaves: seq<Hash>
    var blocks: seq<BlockRecord>
    var leafOffset: nat
    var prefetchedShardRoots: seq<Hash>
    var ssRootCache: seq<Option<Hash>>

    function View(): Tree
      reads this
    {
      Tree(leaves, blocks, leafOffset, prefetchedShardRoots, ssRootCache)
    }

    ghost predicate Valid()
      reads this
    {
      && View().WellFormed()
      && |emptyRoots| == TREE_DEPTH + 1
      && EmptyRootTable(H, emptyRoots)
      && CacheCoherent(H, View())
    }

    constructor WithOffset(H: Hasher<Hash>, leafOffset: nat, prefetchedShardRoots: seq<Hash>)
      requires leafOffset % SHARD_LEAVES == 0
      ensures Valid() && this.H == H
      ensures View() == Fresh(leafOffset, prefetchedShardRoots)
    {
      var roots := PrecomputeEmptyRoots(H);
      this.H := H;
      this.emptyRoots := roots;
      this.leaves := [];
      this.blocks := [];
      this.leafOffset := leafOffset;
      this.prefetchedShardRoots := prefetchedShardRoots;
      this.ssRootCache := EmptyCache();
    }

    method AppendCommitments(height: nat, hash: Hash, commitments: seq<Hash>)
      requires Valid()
      modifies this
      ensures Valid()
      ensures View() == Append(old(View()), height, hash, commitments)
    {
      ghost var before := View();
      if commitments != [] {
        var oldLocalLen := |leaves|;
        leaves := leaves + commitments;
        var newLocalLen := |leaves|;
        var firstDirty := oldLocalLen / SUBSHARD_LEAVES;
        var lastDirty := (newLocalLen - 1) / SUBSHARD_LEAVES;
        var slot := firstDirty;
        while slot <= lastDirty && slot < L0_DB_ROWS
          invariant firstDirty <= slot <= lastDirty + 1
          invariant ssRootCache == Invalidate(before.cache, firstDirty, slot)
          invariant leaves == before.leaves + commitments
          invariant blocks == before.blocks && leafOffset == before.leafOffset
          invariant prefetchedShardRoots == before.prefetched
        {
          ssRootCache := ssRootCache[slot := None];
          slot := slot + 1;
        }
        assert ssRootCache == Invalidate(before.cache, firstDirty, lastDirty + 1);
      } else {
        assert leaves == leaves + commitments;
      }
      blocks := blocks + [BlockRecord(height, hash, AsU32(|commitments|))];
      AppendCoherent(H, before, height, hash, commitments);
    }

    method RollbackTo(targetHeight: nat)
      requires Valid()
      modifies this
      ensures Valid()
      ensures View() == Rollback(old(View()), targetHeight)
    {
      ghost var before := View();
      var toRemove := 0;
      while blocks != [] && blocks[|blocks| - 1].height > targetHeight
        invariant blocks <= before.blocks
        invariant KeepUpTo(before.blocks, targetHeight) == KeepUpTo(blocks, targetHeight)
        invariant toRemove == Total(before.blocks[|blocks|..])
        invariant leaves == before.leaves && leafOffset == before.leafOffset
        invariant prefetchedShardRoots == before.prefetched && ssRootCache == before.cache
      {
        var n := |blocks| - 1;
        toRemove := toRemove + blocks[n].numCommitments;
        assert before.blocks[n..][1..] == before.blocks[n + 1..];
        blocks := blocks[..n];
      }
      var newLen := SaturatingSub(|leaves|, toRemove);
      leaves := leaves[..newLen];
      var frontierSlot := FrontierSlot(newLen);
      var slot := frontierSlot;
      while slot < L0_DB_ROWS
        invariant frontierSlot <= slot
        invariant slot <= L0_DB_ROWS || slot == frontierSlot
        invariant ssRootCache == Invalidate(before.cache, frontierSlot, slot)
        invariant leaves == before.leaves[..newLen] && blocks == KeepUpTo(before.blocks, targetHeight)
        invariant leafOffset == before.leafOffset && prefetchedShardRoots == before.prefetched
      {
        ssRootCache := ssRootCache[slot := None];
        slot := slot + 1;
      }
      assert ssRootCache == Invalidate(before.cache, frontierSlot, L0_DB_ROWS);
      RollbackCoherent(H, before, targetHeight);
    }

    // ----- Leaf and root queries

    // The 256 leaves of a window sub-shard; positions past the frontier hold the empty leaf.
    function SubshardLeaves(shardIdx: nat, subshardIdx: nat): (row: seq<Hash>)
      requires Valid()
      requires View().WindowStart() <= shardIdx
      reads this
      ensures row == LeafRow(H, leaves, PhysicalRowIndex(shardIdx, subshardIdx, View().WindowStart()))
    {
      var globalStart := shardIdx * SHARD_LEAVES + subshardIdx * SUBSHARD_LEAVES;
      var r := seq<Hash>(SUBSHARD_LEAVES, i requires 0 <= i < SUBSHARD_LEAVES reads this =>
        var globalPos: nat := globalStart + i;
        if globalPos >= leafOffset && globalPos - leafOffset < |leaves|
        then leaves[globalPos - leafOffset] else emptyRoots[0]);
      assert leafOffset == View().WindowStart() * SHARD_LEAVES;
      var s := PhysicalRowIndex(shardIdx, subshardIdx, View().WindowStart());
      assert forall i :: 0 <= i < SUBSHARD_LEAVES ==> r[i] == At(H, leaves, 0, s * SUBSHARD_LEAVES + i);
      r
    }

    // The 256 sub-shard roots of a window shard, ignoring the cache.
    method SubshardRoots(shardIdx: nat) returns (roots: seq<Hash>)
      requires Valid()
      requires View().WindowStart() <= shardIdx
      ensures roots == ShardSubRoots(H, leaves, shardIdx - View().WindowStart())
    {
      var j := shardIdx - View().WindowStart();
      var total := View().Size();
      roots := [];
      for ss := 0 to SUBSHARDS_PER_SHARD
        invariant roots == SubshardRun(H, leaves, j * SUBSHARDS_PER_SHARD, ss)
      {
        var slot := j * SUBSHARDS_PER_SHARD + ss;
        var root;
        if shardIdx * SHARD_LEAVES + ss * SUBSHARD_LEAVES >= total {
          root := emptyRoots[SUBSHARD_HEIGHT];
          EmptySubshard(H, leaves, slot);
        } else {
          var row := SubshardLeaves(shardIdx, ss);
          Pow2Values();
          root := CompleteSubtreeRoot(H, row, 0, 8);
          RowRoot(H, leaves, slot);
        }
        roots := roots + [root];
        SubshardRunStep(H, leaves, j * SUBSHARDS_PER_SHARD, ss);
      }
    }

    // Roots of all populated shards, tagged with their index.
    method ShardRoots() returns (roots: seq<(nat, Hash)>)
      requires Valid()
      ensures |roots| == View().PopulatedShards()
      ensures forall i :: 0 <= i < |roots| ==> roots[i] == (i, ShardRoot(H, View(), i))
    {
      var windowStart := View().WindowStart();
      roots := [];
      for i := 0 to View().PopulatedShards()
        invariant |roots| == i
        invariant forall k :: 0 <= k < i ==> roots[k] == (k, ShardRoot(H, View(), k))
      {
        var root;
        if i < windowStart {
          root := if i < |prefetchedShardRoots| then prefetchedShardRoots[i] else emptyRoots[SHARD_HEIGHT];
        } else {
          var ssRoots := SubshardRoots(i);
          Pow2Values();
          root := CompleteSubtreeRoot(H, ssRoots, SUBSHARD_HEIGHT, 8);
          SubRootsRoot(H, leaves, i - windowStart);
        }
        roots := roots + [(i, root)];
      }
    }

    // The depth-32 root of the current state.
    method TreeRoot() returns (root: Hash)
      requires Valid()
      ensures root == Root(H, View())
    {
      var cap := ShardRootsUpTo(H, View(), View().PopulatedShards());
      if View().Size() == 0 {
        root := emptyRoots[TREE_DEPTH];
        FirstZero(16);
        NodeEmpty(H, cap, 16, 16, 0);
      } else {
        var tagged := ShardRoots();
        var shardRoots := seq<Hash>(|tagged|, i requires 0 <= i < |tagged| => tagged[i].1);
        assert shardRoots == cap;
        SparseCap();
        root := SparseRootRec(H, emptyRoots, shardRoots, 0, SHARD_LEAVES, SHARD_HEIGHT);
        FirstZero(16);
        SparseRootIsNode(H, emptyRoots, shardRoots, SHARD_LEAVES, 16, 0, 16);
      }
    }

    // ----- Broadcast and PIR database

    // One sub-shard of the build: its leaves go to the database, its root comes from the cache or is
    // computed and cached.
    method BuildSubshard(i: nat, ss: nat, db: seq<byte>) returns (db': seq<byte>, root: Hash)
      requires Valid()
      requires i < L0_MAX_SHARDS && ss < SUBSHARDS_PER_SHARD
      modifies this`ssRootCache
      ensures Valid()
      ensures var slot := i * SUBSHARDS_PER_SHARD + ss;
              && db' == db + Concat(LeafRow(H, leaves, slot))
              && root == SubshardRoot(H, leaves, slot)
              && ssRootCache == old(ssRootCache)[slot := WarmSlot(H, leaves, slot)]
    {
      var shardIdx := View().WindowStart() + i;
      var slot := i * SUBSHARDS_PER_SHARD + ss;
      var row := SubshardLeaves(shardIdx, ss);
      db' := ExtendWithRow(db, row);
      if shardIdx * SHARD_LEAVES + ss * SUBSHARD_LEAVES >= View().Size() {
        root := emptyRoots[SUBSHARD_HEIGHT];
        EmptySubshard(H, leaves, slot);
      } else if ssRootCache[slot].Some? {
        root := ssRootCache[slot].value;
      } else {
        Pow2Values();
        root := CompleteSubtreeRoot(H, row, 0, 8);
        RowRoot(H, leaves, slot);
        ssRootCache := ssRootCache[slot := Some(root)];
      }
    }

    method BuildShard(i: nat, db: seq<byte>) returns (db': seq<byte>, ssRoots: seq<Hash>)
      requires Valid()
      requires i < L0_MAX_SHARDS
      requires db == RowBytes(H, leaves, i * SUBSHARDS_PER_SHARD)
      requires WarmUpTo(H, leaves, ssRootCache, i * SUBSHARDS_PER_SHARD)
      modifies this`ssRootCache
      ensures Valid()
      ensures ssRoots == ShardSubRoots(H, leaves, i)
      ensures db' == RowBytes(H, leaves, (i + 1) * SUBSHARDS_PER_SHARD)
      ensures WarmUpTo(H, leaves, ssRootCache, (i + 1) * SUBSHARDS_PER_SHARD)
    {
      db', ssRoots := db, [];
      ghost var L, base := leaves, i * SUBSHARDS_PER_SHARD;
      for ss := 0 to SUBSHARDS_PER_SHARD
        invariant Valid() && leaves == L
        invariant ssRoots == SubshardRun(H, L, base, ss)
        invariant db' == RowBytes(H, L, base + ss)
        invariant WarmUpTo(H, L, ssRootCache, base + ss)
      {
        ghost var slots := ssRootCache;
        var root;
        db', root := BuildSubshard(i, ss, db');
        ssRoots := ssRoots + [root];
        SubshardRunStep(H, L, base, ss);
        WarmStep(H, L, slots, base + ss);
      }
    }

    /** One pass over the window. Whatever the cache held, database and broadcast are those computed from the
        leaves alone, and afterwards the cache holds every root of a non-empty sub-shard and nothing else. */
    method BuildPirDbAndBroadcast(anchorHeight: nat) returns (db: seq<byte>, broadcast: BroadcastData)
      requires Valid()
      modifies this`ssRootCache
      ensures Valid()
      ensures View() == Warm(H, old(View()))
      ensures db == PirDb(H, old(View()))
      ensures broadcast == BroadcastOf(H, old(View()), anchorHeight)
    {
      ghost var before := View();
      var windowStart := View().WindowStart();
      var windowCount := View().WindowShardCount();
      var capRoots := PrefetchedCap();
      var broadcastSs: seq<seq<Hash>> := [];
      db := [];
      for i := 0 to windowCount
        invariant Valid()
        invariant capRoots == ShardRootsUpTo(H, before, windowStart + i)
        invariant broadcastSs == WindowSubRoots(H, leaves, i)
        invariant db == RowBytes(H, leaves, i * SUBSHARDS_PER_SHARD)
        invariant WarmUpTo(H, leaves, ssRootCache, i * SUBSHARDS_PER_SHARD)
      {
        var ssRoots;
        db, ssRoots := BuildShard(i, db);
        Pow2Values();
        var shardRoot := CompleteSubtreeRoot(H, ssRoots, SUBSHARD_HEIGHT, 8);
        SubRootsRoot(H, leaves, i);
        capRoots := capRoots + [shardRoot];
        ShardRootsStep(H, before, windowStart + i);
        broadcastSs := broadcastSs + [ssRoots];
      }
      db := db + Zeros(L0_DB_BYTES - |db|);
      broadcast := BroadcastData(capRoots, broadcastSs, windowStart, windowCount, anchorHeight);
      ShardCounts(before);
      WarmAll(H, View());
    }

    // Shard roots before the window.
    method PrefetchedCap() returns (capRoots: seq<Hash>)
      requires Valid()
      ensures capRoots == ShardRootsUpTo(H, View(), View().WindowStart())
    {
      capRoots := [];
      for i := 0 to View().WindowStart()
        invariant capRoots == ShardRootsUpTo(H, View(), i)
      {
        var root := if i < |prefetchedShardRoots| then prefetchedShardRoots[i] else emptyRoots[SHARD_HEIGHT];
        capRoots := capRoots + [root];
        ShardRootsStep(H, View(), i);
      }
    }
  }

  method ExtendWithRow(db: seq<byte>, row: seq<Hash>) returns (db': seq<byte>)
    ensures db' == db + Concat(row)
  {
    db' := db;
    for k := 0 to |row|
      invariant db' == db + Concat(row[..k])
    {
      assert row[..k + 1][..k] == row[..k];
      db' := db' + row[k];
    }
    assert row[..|row|] == row;
  }

  // The first m cache slots are exactly what a fresh computation gives.
  ghost predicate WarmUpTo(H: Hasher<Hash>, leaves: seq<Hash>, cache: seq<Option<Hash>>, m: nat) {
    && |cache| == L0_DB_ROWS
    && forall s :: 0 <= s < m && s < L0_DB_ROWS ==> cache[s] == WarmSlot(H, leaves, s)
  }

  lemma WarmStep(H: Hasher<Hash>, leaves: seq<Hash>, cache: seq<Option<Hash>>, m: nat)
    requires m < L0_DB_ROWS && WarmUpTo(H, leaves, cache, m)
    ensures WarmUpTo(H, leaves, cache[m := WarmSlot(H, leaves, m)], m + 1)
  {
  }

  // Past the window a coherent cache has nothing to hold.
  lemma WarmAll(H: Hasher<Hash>, t: Tree)
    requires t.WellFormed() && CacheCoherent(H, t)
    requires WarmUpTo(H, t.leaves, t.cache, t.WindowShardCount() * SUBSHARDS_PER_SHARD)
    ensures t.cache == WarmCache(H, t.leaves)
  {
    ShardCounts(t);
    forall s | 0 <= s < L0_DB_ROWS
      ensures t.cache[s] == WarmSlot(H, t.leaves, s)
    {
      if s >= t.WindowShardCount() * SUBSHARDS_PER_SHARD {
        assert |t.leaves| <= s * SUBSHARD_LEAVES;
        assert t.cache[s].None?;
      }
    }
  }

  // The cap has 2^16 slots.
  lemma SparseCap()
    ensures SHARD_LEAVES == Pow2(16) && IsPow2(SHARD_LEAVES) && TrailingZeros(SHARD_LEAVES) == 16
  {
    TrailingZerosPow2(16);
    Pow2Values();
  }
}
