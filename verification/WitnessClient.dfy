/** From one database row and the broadcast to a path. */
module WitnessClient {
  import opened Bytes
  import opened Geometry
  import opened Merkle
  import opened CommitmentTree

  datatype PirWitness = PirWitness(position: nat, siblings: seq<Hash>, anchorHeight: nat, anchorRoot: Hash)

  datatype ClientError = QueryFailed | PositionOutsideWindow(position: nat, windowStart: nat, windowEnd: nat)

  datatype Result<+T> = Ok(value: T) | Err(error: ClientError)

  // ----- What the client computes

  function RowLeaves(row: seq<byte>): (leaves: seq<Hash>)
    requires |row| >= SUBSHARD_ROW_BYTES
    ensures |leaves| == SUBSHARD_LEAVES
  {
    seq<Hash>(SUBSHARD_LEAVES, k requires 0 <= k < SUBSHARD_LEAVES => Sub(row, 32 * k, 32))
  }

  // Sibling at level l of the path to cell `index` of a complete tier of level-b nodes.
  function TierSibling(H: Hasher<Hash>, nodes: seq<Hash>, b: nat, index: nat, l: nat): Hash
    requires b <= l
  {
    Node(H, nodes, b, l - b, Sib(Up(index, l - b)))
  }

  // Sibling at level l, from the tier that covers l: the row, the shard's sub-shard roots, or the cap, which has
  // 2^16 slots.
  function ClientSibling(H: Hasher<Hash>, leaves: seq<Hash>, ssRoots: seq<Hash>, cap: seq<Hash>,
                         shardIdx: nat, subshardIdx: nat, leafIdx: nat, l: nat): Hash
  {
    if l < SUBSHARD_HEIGHT then TierSibling(H, leaves, 0, leafIdx, l)
    else if l < SHARD_HEIGHT then TierSibling(H, ssRoots, SUBSHARD_HEIGHT, subshardIdx, l)
    else if shardIdx < SHARD_LEAVES then TierSibling(H, cap, SHARD_HEIGHT, shardIdx, l)
    else EmptyRoot(H, l)
  }

  function ClientPath(H: Hasher<Hash>, leaves: seq<Hash>, ssRoots: seq<Hash>, cap: seq<Hash>,
                      shardIdx: nat, subshardIdx: nat, leafIdx: nat): (path: seq<Hash>)
    ensures |path| == TREE_DEPTH
  {
    seq<Hash>(TREE_DEPTH, l requires 0 <= l < TREE_DEPTH =>
      ClientSibling(H, leaves, ssRoots, cap, shardIdx, subshardIdx, leafIdx, l))
  }

  // A broadcast whose sub-shard rows have the announced shape.
  predicate ShapedBroadcast(broadcast: BroadcastData) {
    && |broadcast.subshardRoots| == broadcast.windowShardCount
    && forall j :: 0 <= j < |broadcast.subshardRoots| ==> |broadcast.subshardRoots[j]| == SUBSHARDS_PER_SHARD
  }

  function InWindow(broadcast: BroadcastData, shardIdx: nat): bool {
    broadcast.windowStartShard <= shardIdx < broadcast.windowStartShard + broadcast.windowShardCount
  }

  function Reconstruct(H: Hasher<Hash>, position: nat, shardIdx: nat, subshardIdx: nat, leafIdx: nat,
                       row: seq<byte>, broadcast: BroadcastData): Result<PirWitness>
    requires ShapedBroadcast(broadcast) && InWindow(broadcast, shardIdx) && leafIdx < SUBSHARD_LEAVES
  {
    if |row| < SUBSHARD_ROW_BYTES then Err(QueryFailed)
    else
      var leaves := RowLeaves(row);
      var path := ClientPath(H, leaves, broadcast.subshardRoots[shardIdx - broadcast.windowStartShard],
                             broadcast.capRoots, shardIdx, subshardIdx, leafIdx);
      Ok(PirWitness(position, path, broadcast.anchorHeight, PathNode(H, leaves[leafIdx], path, position, TREE_DEPTH)))
  }

  // ----- The client's code

  method ParseLeaves(row: seq<byte>) returns (r: Result<seq<Hash>>)
    ensures r == if |row| < SUBSHARD_ROW_BYTES then Err(QueryFailed) else Ok(RowLeaves(row))
  {
    if |row| < SUBSHARD_ROW_BYTES {
      return Err(QueryFailed);
    }
    var leaves: seq<Hash> := [];
    for i := 0 to SUBSHARD_LEAVES
      invariant |leaves| == i
      invariant forall k :: 0 <= k < i ==> leaves[k] == Sub(row, 32 * k, 32)
    {
      var start := 32 * i;
      leaves := leaves + [Sub(row, start, 32)];
    }
    assert leaves == RowLeaves(row);
    r := Ok(leaves);
  }

  // One level up; an unpaired last node is combined with the empty subtree.
  method PairUp(H: Hasher<Hash>, level: nat, current: seq<Hash>) returns (next: seq<Hash>)
    ensures |next| == (|current| + 1) / 2
    ensures forall i :: 0 <= i < |next| ==>
              next[i] == H.combine(level, current[2 * i], At(H, current, level, 2 * i + 1))
  {
    next := [];
    while 2 * |next| < |current|
      invariant |next| <= (|current| + 1) / 2
      invariant forall i :: 0 <= i < |next| ==>
                  next[i] == H.combine(level, current[2 * i], At(H, current, level, 2 * i + 1))
    {
      var n := 2 * |next|;
      var right := if n + 1 < |current| then current[n + 1] else EmptyRoot(H, level);
      next := next + [H.combine(level, current[n], right)];
    }
  }

  // `current` holds the first nodes j levels above `nodes`.
  ghost predicate LevelOf(H: Hasher<Hash>, nodes: seq<Hash>, b: nat, j: nat, current: seq<Hash>) {
    forall i :: 0 <= i < |current| ==> current[i] == Node(H, nodes, b, j, i)
  }

  lemma PairedNodes(H: Hasher<Hash>, nodes: seq<Hash>, b: nat, j: nat, current: seq<Hash>, next: seq<Hash>)
    requires LevelOf(H, nodes, b, j, current) && |current| % 2 == 0 && |next| == |current| / 2
    requires forall i :: 0 <= i < |next| ==>
               next[i] == H.combine(b + j, current[2 * i], At(H, current, b + j, 2 * i + 1))
    ensures LevelOf(H, nodes, b, j + 1, next)
  {
    forall i | 0 <= i < |next|
      ensures next[i] == Node(H, nodes, b, j + 1, i)
    {
      assert current[2 * i] == Node(H, nodes, b, j, 2 * i);
      assert current[2 * i + 1] == Node(H, nodes, b, j, 2 * i + 1);
    }
  }

  // Past its last node a level is empty.
  lemma LevelAt(H: Hasher<Hash>, nodes: seq<Hash>, b: nat, j: nat, current: seq<Hash>, i: nat)
    requires LevelOf(H, nodes, b, j, current) && First(j, |current|) == |nodes|
    ensures At(H, current, b + j, i) == Node(H, nodes, b, j, i)
  {
    if i >= |current| {
      FirstMono(j, |current|, i);
      NodeEmpty(H, nodes, b, j, i);
    }
  }

  /** Writes the siblings met on the way up from `index` into their levels, and touches no other level. */
  method ExtractSiblings(H: Hasher<Hash>, nodes: seq<Hash>, index: nat, baseLevel: nat, siblings: array<Hash>)
    requires nodes != [] && siblings.Length == TREE_DEPTH && baseLevel + TrailingZeros(|nodes|) <= TREE_DEPTH
    modifies siblings
    ensures forall l :: 0 <= l < TREE_DEPTH ==>
              siblings[l] == if baseLevel <= l < baseLevel + TrailingZeros(|nodes|)
                             then TierSibling(H, nodes, baseLevel, index, l)
                             else old(siblings[l])
  {
    var numLevels := TrailingZeros(|nodes|);
    var currentNodes := nodes;
    var idx := index;
    for levelOffset := 0 to numLevels
      invariant currentNodes != [] && idx == Up(index, levelOffset) && First(levelOffset, |currentNodes|) == |nodes|
      invariant TrailingZeros(|currentNodes|) == numLevels - levelOffset
      invariant LevelOf(H, nodes, baseLevel, levelOffset, currentNodes)
      invariant forall l :: 0 <= l < TREE_DEPTH ==>
                  siblings[l] == if baseLevel <= l < baseLevel + levelOffset
                                 then TierSibling(H, nodes, baseLevel, index, l)
                                 else old(siblings[l])
    {
      var treeLevel := baseLevel + levelOffset;
      LevelAt(H, nodes, baseLevel, levelOffset, currentNodes, Sib(idx));
      siblings[treeLevel] := At(H, currentNodes, treeLevel, Sib(idx));
      var next := PairUp(H, treeLevel, currentNodes);
      PairedNodes(H, nodes, baseLevel, levelOffset, currentNodes, next);
      currentNodes := next;
      idx := idx / 2;
    }
  }

  method ComputeRootFromPath(H: Hasher<Hash>, position: nat, leaf: Hash, siblings: seq<Hash>) returns (root: Hash)
    ensures root == PathNode(H, leaf, siblings, position, |siblings|)
  {
    root := leaf;
    var pos := position;
    for level := 0 to |siblings|
      invariant pos == Up(position, level)
      invariant root == PathNode(H, leaf, siblings, position, level)
    {
      root := if pos % 2 == 0 then H.combine(level, root, siblings[level]) else H.combine(level, siblings[level], root);
      pos := pos / 2;
    }
  }

  method ReconstructWitness(H: Hasher<Hash>, position: nat, shardIdx: nat, subshardIdx: nat, leafIdx: nat,
                            row: seq<byte>, broadcast: BroadcastData) returns (r: Result<PirWitness>)
    requires ShapedBroadcast(broadcast) && InWindow(broadcast, shardIdx) && leafIdx < SUBSHARD_LEAVES
    ensures r == Reconstruct(H, position, shardIdx, subshardIdx, leafIdx, row, broadcast)
  {
    var parsed := ParseLeaves(row);
    if parsed.Err? {
      return Err(parsed.error);
    }
    var leaves := parsed.value;
    var siblings := new Hash[TREE_DEPTH](_ => ZeroHash());
    TierSizes();
    ExtractSiblings(H, leaves, leafIdx, 0, siblings);
    var ssRoots := broadcast.subshardRoots[shardIdx - broadcast.windowStartShard];
    ExtractSiblings(H, ssRoots, subshardIdx, SUBSHARD_HEIGHT, siblings);
    var paddedCap := seq<Hash>(SHARD_LEAVES,
        i requires 0 <= i < SHARD_LEAVES => At(H, broadcast.capRoots, SHARD_HEIGHT, i));
    ExtractSiblings(H, paddedCap, shardIdx, SHARD_HEIGHT, siblings);
    var path := siblings[..];
    PaddedCapSiblings(H, broadcast.capRoots, paddedCap, shardIdx);
    assert path == ClientPath(H, leaves, ssRoots, broadcast.capRoots, shardIdx, subshardIdx, leafIdx);
    var anchorRoot := ComputeRootFromPath(H, position, leaves[leafIdx], path);
    r := Ok(PirWitness(position, path, broadcast.anchorHeight, anchorRoot));
  }

  lemma TierSizes()
    ensures TrailingZeros(SUBSHARD_LEAVES) == 8 && TrailingZeros(SHARD_LEAVES) == 16
  {
    Pow2Values();
    TrailingZerosPow2(8);
    TrailingZerosPow2(16);
  }

  // Padding the cap to its 2^16 slots changes none of its nodes.
  lemma PaddedCapNode(H: Hasher<Hash>, cap: seq<Hash>, padded: seq<Hash>, shardIdx: nat, h: nat)
    requires shardIdx < SHARD_LEAVES && h < 16 && |padded| == SHARD_LEAVES
    requires forall i :: 0 <= i < SHARD_LEAVES ==> padded[i] == At(H, cap, SHARD_HEIGHT, i)
    ensures Node(H, padded, SHARD_HEIGHT, h, Sib(Up(shardIdx, h)))
              == Node(H, cap, SHARD_HEIGHT, h, Sib(Up(shardIdx, h)))
  {
    var i := Sib(Up(shardIdx, h));
    SiblingCells(shardIdx, h, i);
    FirstMono(h, i, i + 1);
    NodeAgree(H, padded, cap, SHARD_HEIGHT, h, i, i);
  }

  // The cells below a sibling lie inside the cap.
  lemma SiblingCells(shardIdx: nat, h: nat, i: nat)
    requires shardIdx < SHARD_LEAVES && h < 16 && i == Sib(Up(shardIdx, h))
    ensures First(h, i + 1) <= SHARD_LEAVES
  {
    Pow2Values();
    FirstZero(16);
    UpSplit(0, shardIdx, 16, h);
    assert i + 1 <= Pow2(16 - h) by {
      assert Pow2(16 - h) == 2 * Pow2(15 - h);
    }
    FirstMono(h, i + 1, Pow2(16 - h));
    PowerEnd(h, 16);
  }

  // Next to a shard past the last slot there is nothing.
  lemma PastTheCap(H: Hasher<Hash>, padded: seq<Hash>, shardIdx: nat, h: nat)
    requires shardIdx >= SHARD_LEAVES && h < 16 && |padded| == SHARD_LEAVES
    ensures Node(H, padded, SHARD_HEIGHT, h, Sib(Up(shardIdx, h))) == EmptyRoot(H, SHARD_HEIGHT + h)
  {
    Pow2Values();
    First16(1);
    SibSplit(1, shardIdx - SHARD_LEAVES, 16, h);
    FirstFirst(h, 16 - h, 1);
    FirstMono(h, First(16 - h, 1), Sib(Up(shardIdx, h)));
    NodeEmpty(H, padded, SHARD_HEIGHT, h, Sib(Up(shardIdx, h)));
  }

  lemma PaddedCapSiblings(H: Hasher<Hash>, cap: seq<Hash>, padded: seq<Hash>, shardIdx: nat)
    requires |padded| == SHARD_LEAVES
    requires forall i :: 0 <= i < SHARD_LEAVES ==> padded[i] == At(H, cap, SHARD_HEIGHT, i)
    ensures forall l: nat :: SHARD_HEIGHT <= l < TREE_DEPTH ==>
              TierSibling(H, padded, SHARD_HEIGHT, shardIdx, l)
              == if shardIdx < SHARD_LEAVES then TierSibling(H, cap, SHARD_HEIGHT, shardIdx, l) else EmptyRoot(H, l)
  {
    forall l: nat | SHARD_HEIGHT <= l < TREE_DEPTH
      ensures TierSibling(H, padded, SHARD_HEIGHT, shardIdx, l)
              == if shardIdx < SHARD_LEAVES then TierSibling(H, cap, SHARD_HEIGHT, shardIdx, l) else EmptyRoot(H, l)
    {
      if shardIdx < SHARD_LEAVES {
        PaddedCapNode(H, cap, padded, shardIdx, l - SHARD_HEIGHT);
      } else {
        PastTheCap(H, padded, shardIdx, l - SHARD_HEIGHT);
      }
    }
  }

  /** Fetching a witness, with the private query replaced by a plain read of one database row. The position is any
      number, and the window may start at any shard. */
  method GetWitness(H: Hasher<Hash>, position: nat, db: seq<byte>, broadcast: BroadcastData)
    returns (r: Result<PirWitness>)
    requires |db| == L0_DB_BYTES && ShapedBroadcast(broadcast) && broadcast.windowShardCount <= L0_MAX_SHARDS
    ensures r == FetchWitness(H, position, db, broadcast)
  {
    var (shardIdx, subshardIdx, leafIdx) := DecomposePosition(position);
    var windowEnd := broadcast.windowStartShard + broadcast.windowShardCount;
    if shardIdx < broadcast.windowStartShard || shardIdx >= windowEnd {
      return Err(PositionOutsideWindow(position, broadcast.windowStartShard, windowEnd));
    }
    var rowIdx := PhysicalRowIndex(shardIdx, subshardIdx, broadcast.windowStartShard);
    DecomposeExact(position, broadcast.windowStartShard);
    var row := Sub(db, rowIdx * SUBSHARD_ROW_BYTES, SUBSHARD_ROW_BYTES);
    r := ReconstructWitness(H, position, shardIdx, subshardIdx, leafIdx, row, broadcast);
  }

  function FetchWitness(H: Hasher<Hash>, position: nat, db: seq<byte>, broadcast: BroadcastData): Result<PirWitness>
    requires |db| == L0_DB_BYTES && ShapedBroadcast(broadcast) && broadcast.windowShardCount <= L0_MAX_SHARDS
  {
    var (s, ss, l) := DecomposePosition(position);
    if !InWindow(broadcast, s) then
      Err(PositionOutsideWindow(position, broadcast.windowStartShard,
          broadcast.windowStartShard + broadcast.windowShardCount))
    else
      var r := PhysicalRowIndex(s, ss, broadcast.windowStartShard);
      Reconstruct(H, position, s, ss, l, Sub(db, r * SUBSHARD_ROW_BYTES, SUBSHARD_ROW_BYTES), broadcast)
  }
}
