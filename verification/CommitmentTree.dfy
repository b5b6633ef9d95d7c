/** The note commitment tree as a value: leaves, block records, cached sub-shard roots. */
module CommitmentTree {
  import opened Bytes
  import opened Geometry
  import opened Merkle

  datatype BlockRecord = BlockRecord(height: nat, hash: Hash, numCommitments: nat)

  datatype Tree = Tree(
    leaves: seq<Hash>,
    blocks: seq<BlockRecord>,
    leafOffset: nat,
    prefetched: seq<Hash>,
    cache: seq<Option<Hash>>)
  {
    function Size(): nat {
      leafOffset + |leaves|
    }

    function LatestHeight(): Option<nat> {
      if blocks == [] then None else Some(blocks[|blocks| - 1].height)
    }

    function LatestBlockHash(): Option<Hash> {
      if blocks == [] then None else Some(blocks[|blocks| - 1].hash)
    }

    function PopulatedShards(): nat {
      if Size() == 0 then 0 else (Size() - 1) / SHARD_LEAVES + 1
    }

    function WindowStart(): nat {
      leafOffset / SHARD_LEAVES
    }

    function LocalShardCount(): nat {
      if leaves == [] then 0 else (Size() - 1) / SHARD_LEAVES - WindowStart() + 1
    }

    function WindowShardCount(): nat {
      if LocalShardCount() < L0_MAX_SHARDS then LocalShardCount() else L0_MAX_SHARDS
    }

    predicate WellFormed() {
      leafOffset % SHARD_LEAVES == 0 && |cache| == L0_DB_ROWS
    }
  }

  /** In a shard-aligned tree the shards split exactly into those before the window and those with leaves. */
  lemma ShardCounts(t: Tree)
    requires t.leafOffset % SHARD_LEAVES == 0
    ensures t.leafOffset == t.WindowStart() * SHARD_LEAVES
    ensures t.PopulatedShards() == t.WindowStart() + t.LocalShardCount()
    ensures |t.leaves| <= t.LocalShardCount() * SHARD_LEAVES < |t.leaves| + SHARD_LEAVES
    ensures t.LocalShardCount() <= L0_MAX_SHARDS <==> |t.leaves| <= L0_MAX_SHARDS * SHARD_LEAVES
  {
    var w := t.WindowStart();
    assert t.leafOffset == w * SHARD_LEAVES;
    if t.leaves != [] {
      var n := |t.leaves| - 1;
      assert (w * SHARD_LEAVES + n) / SHARD_LEAVES == w + n / SHARD_LEAVES;
    } else if w > 0 {
      assert (w * SHARD_LEAVES - 1) / SHARD_LEAVES == w - 1;
    }
  }

  // ----- What the tree stands for

  // Root of local sub-shard s, recomputed from its leaves padded with the empty leaf.
  function SubshardRoot(H: Hasher<Hash>, leaves: seq<Hash>, s: nat): Hash {
    Node(H, leaves, 0, SUBSHARD_HEIGHT, s)
  }

  // Root of global shard i: prefetched before the window, from leaves inside it.
  function ShardRoot(H: Hasher<Hash>, t: Tree, i: nat): Hash {
    if i >= t.WindowStart() then Node(H, t.leaves, 0, SHARD_HEIGHT, i - t.WindowStart())
    else if i < |t.prefetched| then t.prefetched[i]
    else EmptyRoot(H, SHARD_HEIGHT)
  }

  function ShardRootsUpTo(H: Hasher<Hash>, t: Tree, n: nat): seq<Hash> {
    seq(n, i requires 0 <= i < n => ShardRoot(H, t, i))
  }

  lemma ShardRootsStep(H: Hasher<Hash>, t: Tree, n: nat)
    ensures ShardRootsUpTo(H, t, n + 1) == ShardRootsUpTo(H, t, n) + [ShardRoot(H, t, n)]
  {
  }

  // The depth-32 root: the reference tree over all populated shard roots.
  function Root(H: Hasher<Hash>, t: Tree): Hash {
    Node(H, ShardRootsUpTo(H, t, t.PopulatedShards()), SHARD_HEIGHT, SHARD_HEIGHT, 0)
  }

  datatype BroadcastData = BroadcastData(
    capRoots: seq<Hash>,
    subshardRoots: seq<seq<Hash>>,
    windowStartShard: nat,
    windowShardCount: nat,
    anchorHeight: nat)

  // The roots of n consecutive sub-shards.
  function SubshardRun(H: Hasher<Hash>, leaves: seq<Hash>, from: nat, n: nat): (roots: seq<Hash>)
    ensures |roots| == n
  {
    seq<Hash>(n, k requires 0 <= k < n => SubshardRoot(H, leaves, from + k))
  }

  lemma SubshardRunStep(H: Hasher<Hash>, leaves: seq<Hash>, from: nat, n: nat)
    ensures SubshardRun(H, leaves, from, n + 1) == SubshardRun(H, leaves, from, n) + [SubshardRoot(H, leaves, from + n)]
  {
  }

  // The sub-shard roots of local shard j.
  function ShardSubRoots(H: Hasher<Hash>, leaves: seq<Hash>, j: nat): seq<Hash> {
    SubshardRun(H, leaves, j * SUBSHARDS_PER_SHARD, SUBSHARDS_PER_SHARD)
  }

  // The sub-shard roots of the first n local shards.
  function WindowSubRoots(H: Hasher<Hash>, leaves: seq<Hash>, n: nat): seq<seq<Hash>> {
    if n == 0 then [] else WindowSubRoots(H, leaves, n - 1) + [ShardSubRoots(H, leaves, n - 1)]
  }

  lemma {:induction false} WindowSubRootsAt(H: Hasher<Hash>, leaves: seq<Hash>, n: nat, j: nat)
    requires j < n
    ensures |WindowSubRoots(H, leaves, n)| == n
    ensures WindowSubRoots(H, leaves, n)[j] == ShardSubRoots(H, leaves, j)
  {
    if n > 1 {
      WindowSubRootsAt(H, leaves, n - 1, if j < n - 1 then j else 0);
    }
  }

  function BroadcastOf(H: Hasher<Hash>, t: Tree, anchorHeight: nat): BroadcastData {
    BroadcastData(
      ShardRootsUpTo(H, t, t.WindowStart() + t.WindowShardCount()),
      WindowSubRoots(H, t.leaves, t.WindowShardCount()),
      t.WindowStart(),
      t.WindowShardCount(),
      anchorHeight)
  }

  // The 256 leaves of local sub-shard s, padded with the empty leaf: one PIR row.
  function LeafRow(H: Hasher<Hash>, leaves: seq<Hash>, s: nat): (row: seq<Hash>)
    ensures |row| == SUBSHARD_LEAVES
  {
    seq<Hash>(SUBSHARD_LEAVES, k requires 0 <= k < SUBSHARD_LEAVES => At(H, leaves, 0, s * SUBSHARD_LEAVES + k))
  }

  // The first s PIR rows, one after the other.
  function RowBytes(H: Hasher<Hash>, leaves: seq<Hash>, s: nat): (bytes: seq<byte>)
    ensures |bytes| == s * SUBSHARD_ROW_BYTES
  {
    if s == 0 then [] else RowBytes(H, leaves, s - 1) + Concat(LeafRow(H, leaves, s - 1))
  }

  // The PIR database: one row for each sub-shard of the window, then zero bytes.
  function PirDb(H: Hasher<Hash>, t: Tree): (db: seq<byte>)
    ensures |db| == L0_DB_BYTES
  {
    var rows := t.WindowShardCount() * SUBSHARDS_PER_SHARD;
    RowBytes(H, t.leaves, rows) + Zeros((L0_DB_ROWS - rows) * SUBSHARD_ROW_BYTES)
  }

  /** Row r of the database is the padded leaves of sub-shard r. */
  lemma {:induction false} RowBytesAt(H: Hasher<Hash>, leaves: seq<Hash>, s: nat, r: nat)
    requires r < s
    ensures Sub(RowBytes(H, leaves, s), r * SUBSHARD_ROW_BYTES, SUBSHARD_ROW_BYTES) == Concat(LeafRow(H, leaves, r))
  {
    var init, last := RowBytes(H, leaves, s - 1), Concat(LeafRow(H, leaves, s - 1));
    if r < s - 1 {
      RowBytesAt(H, leaves, s - 1, r);
      AppendKeeps(init, last, r * SUBSHARD_ROW_BYTES, SUBSHARD_ROW_BYTES);
    } else {
      AppendEnds(init, last);
    }
  }

  // ----- Cache

  /** Every cached root belongs to a sub-shard that has leaves, and is the root of those leaves. */
  ghost predicate CacheCoherent(H: Hasher<Hash>, t: Tree) {
    forall s :: 0 <= s < |t.cache| && t.cache[s].Some? ==>
                  s * SUBSHARD_LEAVES < |t.leaves| && t.cache[s].value == SubshardRoot(H, t.leaves, s)
  }

  function Invalidate(cache: seq<Option<Hash>>, from: nat, to: nat): (r: seq<Option<Hash>>)
    ensures |r| == |cache|
  {
    seq(|cache|, i requires 0 <= i < |cache| => if from <= i < to then None else cache[i])
  }

  function WarmSlot(H: Hasher<Hash>, leaves: seq<Hash>, s: nat): Option<Hash> {
    if s * SUBSHARD_LEAVES < |leaves| then Some(SubshardRoot(H, leaves, s)) else None
  }

  // The cache that holds every root of a non-empty sub-shard and nothing else.
  function WarmCache(H: Hasher<Hash>, leaves: seq<Hash>): (r: seq<Option<Hash>>)
    ensures |r| == L0_DB_ROWS
  {
    seq(L0_DB_ROWS, s requires 0 <= s < L0_DB_ROWS => WarmSlot(H, leaves, s))
  }

  // ----- Transitions

  function EmptyCache(): (cache: seq<Option<Hash>>)
    ensures |cache| == L0_DB_ROWS
  {
    seq(L0_DB_ROWS, _ => None)
  }

  function Fresh(leafOffset: nat, prefetched: seq<Hash>): Tree {
    Tree([], [], leafOffset, prefetched, EmptyCache())
  }

  function Append(t: Tree, height: nat, hash: Hash, commitments: seq<Hash>): Tree {
    Tree(
      t.leaves + commitments,
      t.blocks + [BlockRecord(height, hash, AsU32(|commitments|))],
      t.leafOffset,
      t.prefetched,
      if commitments == [] then t.cache
      else Invalidate(t.cache, |t.leaves| / SUBSHARD_LEAVES, (|t.leaves| + |commitments| - 1) / SUBSHARD_LEAVES + 1))
  }

  function KeepUpTo(blocks: seq<BlockRecord>, target: nat): (kept: seq<BlockRecord>)
    ensures kept <= blocks
  {
    if blocks == [] || blocks[|blocks| - 1].height <= target then blocks
    else KeepUpTo(blocks[..|blocks| - 1], target)
  }

  function Total(blocks: seq<BlockRecord>): nat {
    if blocks == [] then 0 else blocks[0].numCommitments + Total(blocks[1..])
  }

  lemma {:induction false} TotalSnoc(a: seq<BlockRecord>, b: BlockRecord)
    ensures Total(a + [b]) == Total(a) + b.numCommitments
  {
    if a != [] {
      assert (a + [b])[1..] == a[1..] + [b];
      TotalSnoc(a[1..], b);
    }
  }

  function FrontierSlot(len: nat): nat {
    if len == 0 then 0 else (len - 1) / SUBSHARD_LEAVES
  }

  function Rollback(t: Tree, target: nat): Tree {
    var kept := KeepUpTo(t.blocks, target);
    var newLen := SaturatingSub(|t.leaves|, Total(t.blocks[|kept|..]));
    Tree(t.leaves[..newLen], kept, t.leafOffset, t.prefetched, Invalidate(t.cache, FrontierSlot(newLen), L0_DB_ROWS))
  }

  function Warm(H: Hasher<Hash>, t: Tree): Tree {
    t.(cache := WarmCache(H, t.leaves))
  }

  /** After a build the cache holds the root of every sub-shard that has leaves, and no other. */
  lemma WarmHoldsRoots(H: Hasher<Hash>, t: Tree, s: nat)
    requires s < L0_DB_ROWS
    ensures Warm(H, t).cache[s]
            == if s < (|t.leaves| + 255) / 256 then Some(Node(H, t.leaves, 0, 8, s)) else None
    ensures Warm(H, t).leaves == t.leaves && Warm(H, t).blocks == t.blocks
  {
  }

  // Leaves of a fully populated sub-shard decide its root: growing or cutting elsewhere leaves it alone.
  lemma SubshardRootStable(H: Hasher<Hash>, l: seq<Hash>, m: seq<Hash>, s: nat)
    requires (s + 1) * SUBSHARD_LEAVES <= |l| && (s + 1) * SUBSHARD_LEAVES <= |m|
    requires l[..(s + 1) * SUBSHARD_LEAVES] == m[..(s + 1) * SUBSHARD_LEAVES]
    ensures SubshardRoot(H, l, s) == SubshardRoot(H, m, s)
  {
    First8(s);
    First8(s + 1);
    var n := (s + 1) * SUBSHARD_LEAVES;
    forall x: nat | First(8, s) <= x < First(8, s + 1)
      ensures At(H, l, 0, x) == At(H, m, 0, First(8, s) + (x - First(8, s)))
    {
      assert l[x] == l[..n][x] && m[x] == m[..n][x];
    }
    NodeAgree(H, l, m, 0, 8, s, s);
  }

  /** Appending a block keeps the cache coherent. */
  lemma AppendCoherent(H: Hasher<Hash>, t: Tree, height: nat, hash: Hash, commitments: seq<Hash>)
    requires t.WellFormed() && CacheCoherent(H, t)
    ensures CacheCoherent(H, Append(t, height, hash, commitments))
  {
    var u := Append(t, height, hash, commitments);
    forall s | 0 <= s < |u.cache| && u.cache[s].Some?
      ensures s * SUBSHARD_LEAVES < |u.leaves| && u.cache[s].value == SubshardRoot(H, u.leaves, s)
    {
      assert t.cache[s].Some?;
      if commitments == [] {
        assert u.leaves == t.leaves;
      } else {
        assert s < |t.leaves| / SUBSHARD_LEAVES;
        SubshardRootStable(H, t.leaves, u.leaves, s);
      }
    }
  }

  /** Rolling blocks back keeps the cache coherent. */
  lemma RollbackCoherent(H: Hasher<Hash>, t: Tree, target: nat)
    requires t.WellFormed() && CacheCoherent(H, t)
    ensures CacheCoherent(H, Rollback(t, target))
  {
    var u := Rollback(t, target);
    forall s | 0 <= s < |u.cache| && u.cache[s].Some?
      ensures s * SUBSHARD_LEAVES < |u.leaves| && u.cache[s].value == SubshardRoot(H, u.leaves, s)
    {
      assert t.cache[s].Some? && s < FrontierSlot(|u.leaves|);
      SubshardRootStable(H, t.leaves, u.leaves, s);
    }
  }

  // Some leaf from lo to before hi belongs to sub-shard s.
  ghost predicate Touches(s: nat, lo: nat, hi: nat) {
    exists k: nat :: lo <= k < hi && k / SUBSHARD_LEAVES == s
  }

  /** An append costs the cache exactly the roots of the sub-shards that got a leaf; every other root stays. */
  lemma AppendKeepsCache(t: Tree, height: nat, hash: Hash, commitments: seq<Hash>, s: nat)
    requires s < |t.cache|
    ensures var u := Append(t, height, hash, commitments);
            u.cache[s] == if Touches(s, |t.leaves|, |u.leaves|) then None else t.cache[s]
  {
    var lo, hi := |t.leaves|, |t.leaves| + |commitments|;
    if commitments != [] && lo / SUBSHARD_LEAVES <= s <= (hi - 1) / SUBSHARD_LEAVES {
      var k := if s == lo / SUBSHARD_LEAVES then lo else s * SUBSHARD_LEAVES;
      assert lo <= k < hi && k / SUBSHARD_LEAVES == s;
    } else {
      forall k: nat | lo <= k < hi
        ensures k / SUBSHARD_LEAVES != s
      {
        assert lo / SUBSHARD_LEAVES <= k / SUBSHARD_LEAVES <= (hi - 1) / SUBSHARD_LEAVES;
      }
    }
  }

  /** A rollback keeps exactly the roots of the sub-shards that lie before the new frontier's. */
  lemma RollbackKeepsCache(t: Tree, target: nat, s: nat)
    requires s < |t.cache| == L0_DB_ROWS
    ensures var u := Rollback(t, target);
            u.cache[s] == if (s + 1) * SUBSHARD_LEAVES < |u.leaves| then t.cache[s] else None
  {
    var u := Rollback(t, target);
    if u.leaves != [] {
      var n := |u.leaves| - 1;
      assert s < n / SUBSHARD_LEAVES <==> (s + 1) * SUBSHARD_LEAVES <= n;
    }
  }

  /** Past the window's rows the database is zero. */
  lemma DatabaseTail(H: Hasher<Hash>, t: Tree, i: nat)
    requires t.WindowShardCount() * 2_097_152 <= i < 67_108_864
    ensures PirDb(H, t)[i] == 0
  {
    var rows := t.WindowShardCount() * SUBSHARDS_PER_SHARD;
    var bytes, tail := RowBytes(H, t.leaves, rows), Zeros((L0_DB_ROWS - rows) * SUBSHARD_ROW_BYTES);
    assert |bytes| == t.WindowShardCount() * 2_097_152;
    assert (bytes + tail)[i] == tail[i - |bytes|];
  }

  // ----- Tiers of the window

  // A PIR row is a full tier of leaves, and a shard's sub-shard roots are a full tier of level-8 nodes.
  lemma RowIsTier(H: Hasher<Hash>, leaves: seq<Hash>, s: nat)
    ensures |LeafRow(H, leaves, s)| == Pow2(8)
    ensures forall x: nat :: x < Pow2(8) ==> LeafRow(H, leaves, s)[x] == Node(H, leaves, 0, 0, First(8, s) + x)
  {
    First8(s);
    Pow2Values();
    forall x: nat | x < 256
      ensures LeafRow(H, leaves, s)[x] == Node(H, leaves, 0, 0, First(8, s) + x)
    {
      assert First(8, s) + x == s * SUBSHARD_LEAVES + x;
    }
  }

  lemma SubRootsAreTier(H: Hasher<Hash>, leaves: seq<Hash>, j: nat)
    ensures |ShardSubRoots(H, leaves, j)| == Pow2(8)
    ensures forall x: nat :: x < Pow2(8) ==> ShardSubRoots(H, leaves, j)[x] == Node(H, leaves, 0, 8, First(8, j) + x)
  {
    First8(j);
    Pow2Values();
    forall x: nat | x < 256
      ensures ShardSubRoots(H, leaves, j)[x] == Node(H, leaves, 0, 8, First(8, j) + x)
    {
      assert ShardSubRoots(H, leaves, j)[x] == SubshardRoot(H, leaves, j * SUBSHARDS_PER_SHARD + x);
      assert First(8, j) + x == j * SUBSHARDS_PER_SHARD + x;
    }
  }

  // The root of a PIR row is the root of its sub-shard.
  lemma RowRoot(H: Hasher<Hash>, leaves: seq<Hash>, s: nat)
    ensures Node(H, LeafRow(H, leaves, s), 0, SUBSHARD_HEIGHT, 0) == SubshardRoot(H, leaves, s)
  {
    RowIsTier(H, leaves, s);
    Pow2Values();
    assert First(0, s) == s;
    TierNode(H, LeafRow(H, leaves, s), leaves, 0, 0, 8, s, 8, 0);
  }

  lemma EmptySubshard(H: Hasher<Hash>, leaves: seq<Hash>, s: nat)
    requires |leaves| <= s * SUBSHARD_LEAVES
    ensures SubshardRoot(H, leaves, s) == EmptyRoot(H, SUBSHARD_HEIGHT)
  {
    First8(s);
    NodeEmpty(H, leaves, 0, 8, s);
  }

  // The 256 sub-shard roots of local shard j carry that shard's root.
  lemma SubRootsRoot(H: Hasher<Hash>, leaves: seq<Hash>, j: nat)
    ensures Node(H, ShardSubRoots(H, leaves, j), SUBSHARD_HEIGHT, SUBSHARD_HEIGHT, 0)
              == Node(H, leaves, 0, SHARD_HEIGHT, j)
  {
    SubRootsAreTier(H, leaves, j);
    Pow2Values();
    assert First(0, j) == j;
    TierNode(H, ShardSubRoots(H, leaves, j), leaves, 0, 8, 8, j, 8, 0);
  }

  /** Tiered root equals flat root: with nothing prefetched, sub-shard roots, shard roots and the cap compose
      to the plain depth-32 Merkle root of the leaves padded with the empty leaf. */
  lemma TieredRootIsFlat(H: Hasher<Hash>, t: Tree)
    requires t.leafOffset == 0
    ensures Root(H, t) == Node(H, t.leaves, 0, TREE_DEPTH, 0)
  {
    WindowedRootIsFlat(H, t, t.leaves);
  }

  // The prefetched roots are the shard roots of the full leaf list `all`, whose tail from the offset is local.
  ghost predicate WindowOf(H: Hasher<Hash>, t: Tree, all: seq<Hash>) {
    && t.leafOffset % SHARD_LEAVES == 0
    && t.leafOffset <= |all|
    && t.leaves == all[t.leafOffset..]
    && t.WindowStart() <= |t.prefetched|
    && forall i: nat :: i < t.WindowStart() ==> t.prefetched[i] == Node(H, all, 0, SHARD_HEIGHT, i)
  }

  lemma WindowShardRoot(H: Hasher<Hash>, t: Tree, all: seq<Hash>, i: nat)
    requires WindowOf(H, t, all)
    ensures ShardRoot(H, t, i) == Node(H, all, 0, SHARD_HEIGHT, i)
  {
    var w := t.WindowStart();
    if i >= w {
      First16(i);
      First16(i + 1);
      First16(i - w);
      First16(i - w + 1);
      var lo, hi, to := First(16, i - w), First(16, i - w + 1), First(16, i);
      forall x: nat | lo <= x < hi
        ensures At(H, t.leaves, 0, x) == At(H, all, 0, to + (x - lo))
      {
        assert to + (x - lo) == t.leafOffset + x;
      }
      NodeAgree(H, t.leaves, all, 0, 16, i - w, i);
    }
  }

  // Cap cell i, populated or not, is shard i of the full leaf list.
  lemma CapCellIsFlat(H: Hasher<Hash>, t: Tree, all: seq<Hash>, i: nat)
    requires WindowOf(H, t, all)
    ensures At(H, ShardRootsUpTo(H, t, t.PopulatedShards()), SHARD_HEIGHT, i) == Node(H, all, 0, SHARD_HEIGHT, i)
  {
    ShardCounts(t);
    if i < t.PopulatedShards() {
      WindowShardRoot(H, t, all, i);
    } else {
      First16(i);
      NodeEmpty(H, all, 0, 16, i);
    }
  }

  /** Prefetched roots that are missing count as those of empty shards. */
  lemma MissingRoots(H: Hasher<Hash>, t: Tree, empty: seq<Hash>)
    requires t.leafOffset % SHARD_LEAVES == 0 && |t.prefetched| + |empty| == t.WindowStart()
    requires forall i :: 0 <= i < |empty| ==> empty[i] == EmptyRoot(H, SHARD_HEIGHT)
    ensures Root(H, t) == Root(H, t.(prefetched := t.prefetched + empty))
  {
    var u, n := t.(prefetched := t.prefetched + empty), t.PopulatedShards();
    forall i | 0 <= i < n
      ensures ShardRoot(H, t, i) == ShardRoot(H, u, i)
    {
    }
    assert ShardRootsUpTo(H, t, n) == ShardRootsUpTo(H, u, n);
  }

  // A shard that is complete in one leaf list is the same in every list that agrees with it so far.
  lemma CompletedShard(H: Hasher<Hash>, before: seq<Hash>, after: seq<Hash>, i: nat)
    requires (i + 1) * SHARD_LEAVES <= |before| && (i + 1) * SHARD_LEAVES <= |after|
    requires before[..(i + 1) * SHARD_LEAVES] == after[..(i + 1) * SHARD_LEAVES]
    ensures Node(H, before, 0, SHARD_HEIGHT, i) == Node(H, after, 0, SHARD_HEIGHT, i)
  {
    First16(i);
    First16(i + 1);
    var lo, hi, to := First(16, i), First(16, i + 1), First(16, i);
    forall x: nat | lo <= x < hi
      ensures At(H, before, 0, x) == At(H, after, 0, to + (x - lo))
    {
      assert before[x] == before[..hi][x] && after[x] == after[..hi][x];
    }
    NodeAgree(H, before, after, 0, 16, i, i);
  }

  /** A window stays a window whatever is appended or rolled back inside it: only what lies before the offset has
      to be right. */
  lemma WindowMoves(H: Hasher<Hash>, t: Tree, all: seq<Hash>, u: Tree)
    requires WindowOf(H, t, all) && u.leafOffset == t.leafOffset && u.prefetched == t.prefetched
    ensures WindowOf(H, u, all[..t.leafOffset] + u.leaves)
  {
    var moved := all[..t.leafOffset] + u.leaves;
    forall i: nat | i < t.WindowStart()
      ensures Node(H, all, 0, SHARD_HEIGHT, i) == Node(H, moved, 0, SHARD_HEIGHT, i)
    {
      var end := (i + 1) * SHARD_LEAVES;
      assert end <= t.leafOffset;
      assert all[..t.leafOffset][..end] == all[..end] && moved[..end] == all[..end];
      CompletedShard(H, all, moved, i);
    }
  }

  /** A windowed tree with correct prefetched roots has the root of the full leaf list. */
  lemma WindowedRootIsFlat(H: Hasher<Hash>, t: Tree, all: seq<Hash>)
    requires WindowOf(H, t, all)
    ensures Root(H, t) == Node(H, all, 0, TREE_DEPTH, 0)
  {
    var cap := ShardRootsUpTo(H, t, t.PopulatedShards());
    forall i: nat
      ensures At(H, cap, SHARD_HEIGHT, i) == Node(H, all, 0, SHARD_HEIGHT, i)
    {
      CapCellIsFlat(H, t, all, i);
    }
    Graft(H, cap, all, 0, 16, 16, 0, 0);
  }
}
