/** What honest data makes a client compute, and what a path must contain. */
module WitnessTheorems {
  import opened Bytes
  import opened Geometry
  import opened Merkle
  import opened CommitmentTree
  import opened WitnessClient

  // Node i at level h of the tree whose cap holds n shard roots. Below level 16 only window nodes exist.
  function TreeNode(H: Hasher<Hash>, t: Tree, n: nat, h: nat, i: nat): Hash
    requires h < SHARD_HEIGHT ==> First(SHARD_HEIGHT - h, t.WindowStart()) <= i
  {
    if h < SHARD_HEIGHT then Node(H, t.leaves, 0, h, i - First(SHARD_HEIGHT - h, t.WindowStart()))
    else Node(H, ShardRootsUpTo(H, t, n), SHARD_HEIGHT, h - SHARD_HEIGHT, i)
  }

  // The root of the tree a client sees: the cap as broadcast, that is with at most 32 window shards.
  function ServedRoot(H: Hasher<Hash>, t: Tree): Hash {
    TreeNode(H, t, t.WindowStart() + t.WindowShardCount(), TREE_DEPTH, 0)
  }

  // Position p lies in a shard of the window that has leaves.
  predicate PositionServed(t: Tree, p: nat) {
    p < U32 && t.WindowStart() <= p / SHARD_LEAVES < t.WindowStart() + t.WindowShardCount()
  }

  // ----- Ancestors of a served position

  lemma Ancestor(t: Tree, p: nat, h: nat)
    requires h <= SHARD_HEIGHT && t.WindowStart() * SHARD_LEAVES <= p
    ensures var w := First(SHARD_HEIGHT - h, t.WindowStart());
            Up(p, h) == w + Up(p - t.WindowStart() * SHARD_LEAVES, h)
  {
    First16(t.WindowStart());
    UpSplit(t.WindowStart(), p - t.WindowStart() * SHARD_LEAVES, 16, h);
  }

  lemma ShardOf(p: nat)
    ensures Up(p, 16) == p / SHARD_LEAVES
    ensures p < U32 ==> Up(p, 32) == 0
  {
    var s, x := p / SHARD_LEAVES, p % SHARD_LEAVES;
    Pow2Values();
    First16(s);
    UpSplit(s, x, 16, 16);
    assert First(0, s) == s;
    if p < U32 {
      FirstZero(16);
      UpSplit(0, s, 16, 16);
      UpUp(p, 16, 16);
    }
  }

  // The sibling of an ancestor is in the window too, and has the same position relative to it.
  lemma SiblingInWindow(t: Tree, p: nat, h: nat)
    requires h < SHARD_HEIGHT && t.WindowStart() * SHARD_LEAVES <= p
    ensures var w := First(SHARD_HEIGHT - h, t.WindowStart());
            Sib(Up(p, h)) == w + Sib(Up(p - t.WindowStart() * SHARD_LEAVES, h))
  {
    First16(t.WindowStart());
    SibSplit(t.WindowStart(), p - t.WindowStart() * SHARD_LEAVES, 16, h);
  }

  // Inside the window: the ancestors of p and their siblings, as nodes over the local leaves.
  lemma LocalStep(H: Hasher<Hash>, t: Tree, n: nat, p: nat, h: nat)
    requires t.WindowStart() <= p / SHARD_LEAVES < n && h < SHARD_HEIGHT
    ensures var w, q := t.WindowStart(), p - t.WindowStart() * SHARD_LEAVES;
            && Up(p, h) == First(SHARD_HEIGHT - h, w) + Up(q, h)
            && Sib(Up(p, h)) == First(SHARD_HEIGHT - h, w) + Sib(Up(q, h))
            && Up(p, h + 1) == First(SHARD_HEIGHT - (h + 1), w) + Up(q, h) / 2
            && TreeNode(H, t, n, h + 1, Up(p, h + 1)) == Node(H, t.leaves, 0, h + 1, Up(q, h) / 2)
  {
    var w := t.WindowStart();
    Ancestor(t, p, h);
    SiblingInWindow(t, p, h);
    Ancestor(t, p, h + 1);
    if h + 1 == SHARD_HEIGHT {
      ShardOf(p);
      assert TreeNode(H, t, n, 16, Up(p, 16)) == ShardRoot(H, t, Up(p, 16));
      assert First(0, w) == w;
    }
  }

  // Evenness and children are the same, seen from the whole tree or from the window.
  lemma SameSide(w: nat, m: nat, y: nat)
    requires m > 0
    ensures (First(m, w) + y) % 2 == y % 2
  {
    FirstEven(m, w);
  }

  /** The tree is a hash tree along every served path: each ancestor combines its two children. */
  lemma TreeNodeStep(H: Hasher<Hash>, t: Tree, n: nat, p: nat, h: nat)
    requires t.WindowStart() <= p / SHARD_LEAVES < n
    ensures h < SHARD_HEIGHT ==> First(SHARD_HEIGHT - h, t.WindowStart()) <= Up(p, h)
    ensures h < SHARD_HEIGHT ==> First(SHARD_HEIGHT - h, t.WindowStart()) <= Sib(Up(p, h))
    ensures h + 1 < SHARD_HEIGHT ==> First(SHARD_HEIGHT - h - 1, t.WindowStart()) <= Up(p, h + 1)
    ensures TreeNode(H, t, n, h + 1, Up(p, h + 1))
            == if Up(p, h) % 2 == 0
               then H.combine(h, TreeNode(H, t, n, h, Up(p, h)), TreeNode(H, t, n, h, Sib(Up(p, h))))
               else H.combine(h, TreeNode(H, t, n, h, Sib(Up(p, h))), TreeNode(H, t, n, h, Up(p, h)))
  {
    if h < SHARD_HEIGHT {
      var w, q := t.WindowStart(), p - t.WindowStart() * SHARD_LEAVES;
      LocalStep(H, t, n, p, h);
      SameSide(w, SHARD_HEIGHT - h, Up(q, h));
      ChildrenCombine(H, t.leaves, 0, h, Up(q, h));
    } else {
      ChildrenCombine(H, ShardRootsUpTo(H, t, n), SHARD_HEIGHT, h - SHARD_HEIGHT, Up(p, h));
    }
  }

  lemma ChildrenCombine(H: Hasher<Hash>, row: seq<Hash>, b: nat, h: nat, i: nat)
    ensures Node(H, row, b, h + 1, i / 2)
            == if i % 2 == 0 then H.combine(b + h, Node(H, row, b, h, i), Node(H, row, b, h, Sib(i)))
               else H.combine(b + h, Node(H, row, b, h, Sib(i)), Node(H, row, b, h, i))
  {
  }

  // ----- Completeness

  // Siblings that are the tree's own lead from the tree's leaf to the tree's ancestor at every level.
  lemma {:induction false} PathCompletes(H: Hasher<Hash>, t: Tree, n: nat, p: nat, siblings: seq<Hash>, h: nat)
    requires t.WindowStart() <= p / SHARD_LEAVES < n && h <= |siblings|
    requires TrueSiblings(H, t, n, p, siblings)
    ensures h < SHARD_HEIGHT ==> First(SHARD_HEIGHT - h, t.WindowStart()) <= Up(p, h)
    ensures PathNode(H, LeafAt(H, t, p), siblings, p, h) == TreeNode(H, t, n, h, Up(p, h))
    decreases h
  {
    TreeNodeStep(H, t, n, p, h);
    if h == 0 {
      Ancestor(t, p, 0);
      First16(t.WindowStart());
    } else {
      PathCompletes(H, t, n, p, siblings, h - 1);
      TreeNodeStep(H, t, n, p, h - 1);
      assert siblings[h - 1] == SiblingNode(H, t, n, p, h - 1);
    }
  }

  // The leaf of the tree at a position not before the window.
  function LeafAt(H: Hasher<Hash>, t: Tree, p: nat): Hash
    requires t.WindowStart() <= p / SHARD_LEAVES
  {
    At(H, t.leaves, 0, p - t.WindowStart() * SHARD_LEAVES)
  }

  // The true sibling of position p at level l.
  function SiblingNode(H: Hasher<Hash>, t: Tree, n: nat, p: nat, l: nat): Hash
    requires t.WindowStart() <= p / SHARD_LEAVES
  {
    if l < SHARD_HEIGHT then SiblingInWindow(t, p, l); TreeNode(H, t, n, l, Sib(Up(p, l)))
    else TreeNode(H, t, n, l, Sib(Up(p, l)))
  }

  ghost predicate TrueSiblings(H: Hasher<Hash>, t: Tree, n: nat, p: nat, siblings: seq<Hash>)
    requires t.WindowStart() <= p / SHARD_LEAVES
  {
    forall l :: 0 <= l < |siblings| ==> siblings[l] == SiblingNode(H, t, n, p, l)
  }

  // Each of the client's tiers yields the tree's own sibling.
  lemma TierSiblingIsTrue(H: Hasher<Hash>, t: Tree, n: nat, p: nat, l: nat)
    requires t.WindowStart() <= p / SHARD_LEAVES && p < U32 && l < TREE_DEPTH
    ensures var (s, ss, k) := DecomposePosition(p);
            var w := t.WindowStart();
            ClientSibling(H, LeafRow(H, t.leaves, PhysicalRowIndex(s, ss, w)), ShardSubRoots(H, t.leaves, s - w),
                          ShardRootsUpTo(H, t, n), s, ss, k, l)
            == SiblingNode(H, t, n, p, l)
  {
    var (s, ss, k) := DecomposePosition(p);
    var w := t.WindowStart();
    var q := p - w * SHARD_LEAVES;
    DecomposeExact(p, w);
    if l < SHARD_HEIGHT {
      SiblingInWindow(t, p, l);
      if l < SUBSHARD_HEIGHT {
        RowTier(H, t.leaves, q / 256, k, l);
        assert q == 256 * (q / 256) + k;
      } else {
        SubRootTier(H, t.leaves, s - w, ss, k, l);
        assert q == 65536 * (s - w) + 256 * ss + k;
      }
    } else {
      ShardOf(p);
      UpUp(p, 16, l - 16);
    }
  }

  lemma RowTier(H: Hasher<Hash>, leaves: seq<Hash>, R: nat, k: nat, l: nat)
    requires l < 8 && k < 256
    ensures TierSibling(H, LeafRow(H, leaves, R), 0, k, l) == Node(H, leaves, 0, l, Sib(Up(256 * R + k, l)))
  {
    RowIsTier(H, leaves, R);
    Pow2Values();
    First8(R);
    SibSplit(R, k, 8, l);
    TierNode(H, LeafRow(H, leaves, R), leaves, 0, 0, 8, R, l, Sib(Up(k, l)));
  }

  lemma SubRootTier(H: Hasher<Hash>, leaves: seq<Hash>, j: nat, ss: nat, k: nat, l: nat)
    requires 8 <= l < 16 && ss < 256 && k < 256
    ensures TierSibling(H, ShardSubRoots(H, leaves, j), 8, ss, l)
            == Node(H, leaves, 0, l, Sib(Up(65536 * j + 256 * ss + k, l)))
  {
    var h: nat := l - 8;
    SubRootsAreTier(H, leaves, j);
    Pow2Values();
    First8(j);
    SibSplit(j, ss, 8, h);
    TierNode(H, ShardSubRoots(H, leaves, j), leaves, 0, 8, 8, j, h, Sib(Up(ss, h)));
    UpFromLeaf(j, ss, k, l);
  }

  // A leaf's ancestor from level 8 on is its sub-shard's.
  lemma UpFromLeaf(j: nat, ss: nat, k: nat, l: nat)
    requires 8 <= l && k < 256
    ensures Up(65536 * j + 256 * ss + k, l) == Up(256 * j + ss, l - 8)
  {
    var c := 256 * j + ss;
    assert 65536 * j + 256 * ss + k == 256 * c + k;
    SubshardOf(c, k);
    UpUp(256 * c + k, 8, l - 8);
  }

  lemma SubshardOf(c: nat, k: nat)
    requires k < 256
    ensures Up(256 * c + k, 8) == c
  {
    Pow2Values();
    First8(c);
    UpSplit(c, k, 8, 8);
    assert First(0, c) == c;
  }

  lemma RowOfDb(H: Hasher<Hash>, t: Tree, r: nat)
    requires r < t.WindowShardCount() * SUBSHARDS_PER_SHARD
    ensures RowLeaves(Sub(PirDb(H, t), r * SUBSHARD_ROW_BYTES, SUBSHARD_ROW_BYTES)) == LeafRow(H, t.leaves, r)
  {
    var rows := t.WindowShardCount() * SUBSHARDS_PER_SHARD;
    var row := Sub(PirDb(H, t), r * SUBSHARD_ROW_BYTES, SUBSHARD_ROW_BYTES);
    var leaves := LeafRow(H, t.leaves, r);
    RowBytesAt(H, t.leaves, rows, r);
    AppendKeeps(RowBytes(H, t.leaves, rows), Zeros((L0_DB_ROWS - rows) * SUBSHARD_ROW_BYTES), r * SUBSHARD_ROW_BYTES,
        SUBSHARD_ROW_BYTES);
    assert row == Concat(leaves);
    forall k | 0 <= k < SUBSHARD_LEAVES
      ensures Sub(row, 32 * k, 32) == leaves[k]
    {
      ConcatAt(leaves, k);
    }
    assert RowLeaves(row) == leaves;
  }

  lemma BroadcastShaped(H: Hasher<Hash>, t: Tree, anchorHeight: nat)
    ensures ShapedBroadcast(BroadcastOf(H, t, anchorHeight))
  {
    var n := t.WindowShardCount();
    forall j | 0 <= j < n
      ensures |WindowSubRoots(H, t.leaves, n)| == n
      ensures WindowSubRoots(H, t.leaves, n)[j] == ShardSubRoots(H, t.leaves, j)
    {
      WindowSubRootsAt(H, t.leaves, n, j);
    }
    if n > 0 {
      WindowSubRootsAt(H, t.leaves, n, 0);
    }
  }

  lemma HonestReconstruct(H: Hasher<Hash>, t: Tree, p: nat, row: seq<byte>, broadcast: BroadcastData)
    requires PositionServed(t, p) && ShapedBroadcast(broadcast)
    requires var (s, ss, k) := DecomposePosition(p);
             && |row| >= SUBSHARD_ROW_BYTES
             && RowLeaves(row) == LeafRow(H, t.leaves, PhysicalRowIndex(s, ss, t.WindowStart()))
             && InWindow(broadcast, s) && broadcast.windowStartShard == t.WindowStart()
             && broadcast.subshardRoots[s - t.WindowStart()] == ShardSubRoots(H, t.leaves, s - t.WindowStart())
             && broadcast.capRoots == ShardRootsUpTo(H, t, t.WindowStart() + t.WindowShardCount())
    ensures var (s, ss, k) := DecomposePosition(p);
            var n := t.WindowStart() + t.WindowShardCount();
            var r := Reconstruct(H, p, s, ss, k, row, broadcast);
            && r.Ok? && r.value.position == p && r.value.anchorHeight == broadcast.anchorHeight
            && |r.value.siblings| == TREE_DEPTH
            && TrueSiblings(H, t, n, p, r.value.siblings)
            && r.value.anchorRoot == ServedRoot(H, t)
  {
    var (s, ss, k) := DecomposePosition(p);
    var w, n := t.WindowStart(), t.WindowStart() + t.WindowShardCount();
    DecomposeExact(p, w);
    var leaves := RowLeaves(row);
    var path := ClientPath(H, leaves, ShardSubRoots(H, t.leaves, s - w), broadcast.capRoots, s, ss, k);
    forall l | 0 <= l < TREE_DEPTH
      ensures path[l] == SiblingNode(H, t, n, p, l)
    {
      TierSiblingIsTrue(H, t, n, p, l);
    }
    assert leaves[k] == LeafAt(H, t, p);
    PathCompletes(H, t, n, p, path, TREE_DEPTH);
    ShardOf(p);
  }

  /** Witness completeness. Reading the one row of a served position out of the built database and rebuilding
      the path with the broadcast gives the tree's own sibling at every level, and the root of the served tree.
      A position outside the window is refused. */
  lemma WitnessComplete(H: Hasher<Hash>, t: Tree, p: nat, anchorHeight: nat)
    requires p < U32
    ensures ShapedBroadcast(BroadcastOf(H, t, anchorHeight))
    ensures var r := FetchWitness(H, p, PirDb(H, t), BroadcastOf(H, t, anchorHeight));
            && (r.Ok? <==> PositionServed(t, p))
            && (r.Ok? ==>
                  var n := t.WindowStart() + t.WindowShardCount();
                  && r.value.position == p && r.value.anchorHeight == anchorHeight
                  && |r.value.siblings| == TREE_DEPTH
                  && TrueSiblings(H, t, n, p, r.value.siblings)
                  && r.value.anchorRoot == ServedRoot(H, t))
  {
    var broadcast := BroadcastOf(H, t, anchorHeight);
    BroadcastShaped(H, t, anchorHeight);
    DecomposeExact(p, t.WindowStart());
    if PositionServed(t, p) {
      var (s, ss, k) := DecomposePosition(p);
      var w, n := t.WindowStart(), t.WindowStart() + t.WindowShardCount();
      var rowIdx := PhysicalRowIndex(s, ss, w);
      RowOfDb(H, t, rowIdx);
      WindowSubRootsAt(H, t.leaves, t.WindowShardCount(), s - w);
      var row := Sub(PirDb(H, t), rowIdx * SUBSHARD_ROW_BYTES, SUBSHARD_ROW_BYTES);
      HonestReconstruct(H, t, p, row, broadcast);
    }
  }

  // ----- Positions past the tree

  // Below level 48 a position and its remainder turn the same way.
  lemma SameTurns(p: nat, h: nat)
    requires h < 48
    ensures Up(p, h) % 2 == Up(p % POSITION_RANGE, h) % 2
  {
    var k, q := p / POSITION_RANGE, p % POSITION_RANGE;
    First48(k);
    TurnsWith(k, q, p, h);
  }

  lemma TurnsWith(k: nat, q: nat, p: nat, h: nat)
    requires p == First(48, k) + q && h < 48
    ensures Up(p, h) % 2 == Up(q, h) % 2
  {
    UpSplit(k, q, 48, h);
    SameSide(k, 48 - h, Up(q, h));
  }

  lemma First48(k: nat)
    ensures First(48, k) == POSITION_RANGE * k
  {
    First16(k);
    First16(First(16, k));
    First16(First(32, k));
    FirstFirst(16, 16, k);
    FirstFirst(16, 32, k);
  }

  lemma {:induction false} SamePath(H: Hasher<Hash>, leaf: Hash, siblings: seq<Hash>, p: nat, h: nat)
    requires h <= |siblings| && h <= 48
    ensures PathNode(H, leaf, siblings, p, h) == PathNode(H, leaf, siblings, p % POSITION_RANGE, h)
    decreases h
  {
    if h > 0 {
      SamePath(H, leaf, siblings, p, h - 1);
      SameTurns(p, h - 1);
    }
  }

  lemma SameIndices(p: nat)
    ensures DecomposePosition(p) == DecomposePosition(p % POSITION_RANGE)
  {
    var q := p % POSITION_RANGE;
    DecomposeExact(p, 0);
    DecomposeExact(q, 0);
    var (s, ss, l) := DecomposePosition(p);
    var (s', ss', l') := DecomposePosition(q);
    assert q % POSITION_RANGE == q;
    assert 256 * (256 * s + ss) + l == 256 * (256 * s' + ss') + l';
    assert 256 * s + ss == 256 * s' + ss';
  }

  /** A query is refused exactly when the position's shard, counted modulo 2^32, lies outside the window, and the
      refusal names the position and both ends of the window. */
  lemma OutsideIsRefused(H: Hasher<Hash>, p: nat, db: seq<byte>, broadcast: BroadcastData)
    requires |db| == L0_DB_BYTES && ShapedBroadcast(broadcast) && broadcast.windowShardCount <= L0_MAX_SHARDS
    ensures var r, start := FetchWitness(H, p, db, broadcast), broadcast.windowStartShard;
            var end := start + broadcast.windowShardCount;
            if start <= p % POSITION_RANGE / SHARD_LEAVES < end then r.Ok?
            else r == Err(PositionOutsideWindow(p, start, end))
  {
    DecomposeExact(p, broadcast.windowStartShard);
  }

  /** The 32-bit shard index makes positions repeat: a query for p is answered as one for p modulo 2^48, with p
      written into the answer. */
  lemma PositionsRepeat(H: Hasher<Hash>, p: nat, db: seq<byte>, broadcast: BroadcastData)
    requires |db| == L0_DB_BYTES && ShapedBroadcast(broadcast) && broadcast.windowShardCount <= L0_MAX_SHARDS
    ensures var r, q := FetchWitness(H, p, db, broadcast), FetchWitness(H, p % POSITION_RANGE, db, broadcast);
            && (r.Ok? <==> q.Ok?)
            && (r.Ok? ==> r.value == q.value.(position := p))
  {
    SameIndices(p);
    DecomposeExact(p, 0);
    var (s, ss, l) := DecomposePosition(p);
    if InWindow(broadcast, s) {
      var rowIdx := PhysicalRowIndex(s, ss, broadcast.windowStartShard);
      var leaves := RowLeaves(Sub(db, rowIdx * SUBSHARD_ROW_BYTES, SUBSHARD_ROW_BYTES));
      var path := ClientPath(H, leaves, broadcast.subshardRoots[s - broadcast.windowStartShard], broadcast.capRoots,
          s, ss, l);
      SamePath(H, leaves[l], path, p, TREE_DEPTH);
    }
  }

  /** For any position at all, an honest server of a depth-32 tree gives an answer exactly when the position modulo
      2^48 is served, and then the witness of that position. */
  lemma AnyPosition(H: Hasher<Hash>, t: Tree, p: nat, anchorHeight: nat)
    requires t.leafOffset % SHARD_LEAVES == 0 && t.Size() <= U32
    ensures ShapedBroadcast(BroadcastOf(H, t, anchorHeight))
    ensures var q := p % POSITION_RANGE;
            var r := FetchWitness(H, p, PirDb(H, t), BroadcastOf(H, t, anchorHeight));
            var s := FetchWitness(H, q, PirDb(H, t), BroadcastOf(H, t, anchorHeight));
            && (r.Ok? <==> PositionServed(t, q))
            && (r.Ok? ==> r.value == s.value.(position := p) && r.value.anchorRoot == ServedRoot(H, t))
  {
    var q, broadcast := p % POSITION_RANGE, BroadcastOf(H, t, anchorHeight);
    BroadcastShaped(H, t, anchorHeight);
    PositionsRepeat(H, p, PirDb(H, t), broadcast);
    if q < U32 {
      WitnessComplete(H, t, q, anchorHeight);
    } else {
      PastTheTree(t, q, broadcast);
    }
  }

  lemma PastTheTree(t: Tree, q: nat, broadcast: BroadcastData)
    requires t.leafOffset % SHARD_LEAVES == 0 && t.Size() <= U32 && U32 <= q < POSITION_RANGE
    requires broadcast.windowStartShard == t.WindowStart() && broadcast.windowShardCount == t.WindowShardCount()
    ensures !InWindow(broadcast, DecomposePosition(q).0) && !PositionServed(t, q)
  {
    ShardCounts(t);
    DecomposeExact(q, 0);
  }

  /** With at most 32 shards of leaves in the window, the served root is the tree's root. */
  lemma ServedRootIsRoot(H: Hasher<Hash>, t: Tree)
    requires t.leafOffset % SHARD_LEAVES == 0
    requires t.LocalShardCount() <= L0_MAX_SHARDS
    ensures ServedRoot(H, t) == Root(H, t)
  {
    ShardCounts(t);
  }

  // Every leaf past the 32nd window shard is the empty leaf.
  ghost predicate OverflowEmpty(H: Hasher<Hash>, t: Tree) {
    forall k :: L0_MAX_SHARDS * SHARD_LEAVES <= k < |t.leaves| ==> t.leaves[k] == H.emptyLeaf
  }

  ghost predicate ShardEmpty(H: Hasher<Hash>, leaves: seq<Hash>, j: nat) {
    forall k :: j * SHARD_LEAVES <= k < (j + 1) * SHARD_LEAVES && k < |leaves| ==> leaves[k] == H.emptyLeaf
  }

  lemma EmptyShardRoot(H: Hasher<Hash>, leaves: seq<Hash>, j: nat)
    requires ShardEmpty(H, leaves, j)
    ensures Node(H, leaves, 0, SHARD_HEIGHT, j) == EmptyRoot(H, SHARD_HEIGHT)
  {
    var none: seq<Hash> := [];
    First16(j);
    First16(j + 1);
    NodeEmpty(H, none, 0, 16, j);
    EmptyCells(H, leaves, j * SHARD_LEAVES, (j + 1) * SHARD_LEAVES);
    NodeAgree(H, leaves, none, 0, 16, j, j);
  }

  lemma EmptyCells(H: Hasher<Hash>, leaves: seq<Hash>, lo: nat, hi: nat)
    requires forall k :: lo <= k < hi && k < |leaves| ==> leaves[k] == H.emptyLeaf
    ensures SameCells(H, leaves, [], 0, lo, hi, lo)
  {
    forall x: nat | lo <= x < hi
      ensures At(H, leaves, 0, x) == At(H, [], 0, lo + (x - lo))
    {
      assert lo + (x - lo) == x;
    }
  }

  lemma ShardRootEmpty(H: Hasher<Hash>, leaves: seq<Hash>, j: nat, k: nat)
    requires Node(H, leaves, 0, SHARD_HEIGHT, j) == EmptyRoot(H, SHARD_HEIGHT)
    requires j * SHARD_LEAVES <= k < (j + 1) * SHARD_LEAVES && k < |leaves|
    ensures leaves[k] == H.emptyLeaf || SomeClash(H, leaves, [], 0, SHARD_HEIGHT, j)
  {
    First16(j);
    First16(j + 1);
    NodeEmpty(H, [], 0, 16, j);
    Binding(H, leaves, [], 0, 16, j, k);
  }

  // A local shard past the 32nd whose leaves collide with empty ones, inside the shard.
  ghost predicate ShardClash(H: Hasher<Hash>, t: Tree) {
    exists j: nat :: L0_MAX_SHARDS <= j < t.LocalShardCount() && SomeClash(H, t.leaves, [], 0, SHARD_HEIGHT, j)
  }

  // The caps with and without the dropped shards collide, among the hashes that make up the two roots.
  ghost predicate CapClash(H: Hasher<Hash>, t: Tree) {
    SomeClash(H, ShardRootsUpTo(H, t, t.WindowStart() + t.WindowShardCount()),
        ShardRootsUpTo(H, t, t.PopulatedShards()),
              SHARD_HEIGHT, SHARD_HEIGHT, 0)
  }

  lemma DroppedEmpty(H: Hasher<Hash>, t: Tree)
    requires t.leafOffset % SHARD_LEAVES == 0 && t.Size() <= U32 && OverflowEmpty(H, t)
    ensures ServedRoot(H, t) == Root(H, t)
  {
    var w := t.WindowStart();
    var served, all := ShardRootsUpTo(H, t, w + t.WindowShardCount()), ShardRootsUpTo(H, t, t.PopulatedShards());
    ShardCounts(t);
    FirstZero(16);
    First16(1);
    forall x: nat | 0 <= x < SHARD_LEAVES
      ensures At(H, served, SHARD_HEIGHT, x) == At(H, all, SHARD_HEIGHT, 0 + (x - 0))
    {
      if |served| <= x < |all| {
        EmptyShardRoot(H, t.leaves, x - w);
      }
    }
    NodeAgree(H, served, all, SHARD_HEIGHT, 16, 0, 0);
  }

  lemma DroppedLeaf(H: Hasher<Hash>, t: Tree, k: nat)
    requires t.leafOffset % SHARD_LEAVES == 0 && t.Size() <= U32 && ServedRoot(H, t) == Root(H, t)
    requires L0_MAX_SHARDS * SHARD_LEAVES <= k < |t.leaves|
    ensures t.leaves[k] == H.emptyLeaf || ShardClash(H, t) || CapClash(H, t)
  {
    var w, j := t.WindowStart(), k / SHARD_LEAVES;
    var served, all := ShardRootsUpTo(H, t, w + t.WindowShardCount()), ShardRootsUpTo(H, t, t.PopulatedShards());
    ShardCounts(t);
    FirstZero(16);
    First16(1);
    assert |served| <= w + j < |all| <= SHARD_LEAVES;
    Binding(H, served, all, SHARD_HEIGHT, 16, 0, w + j);
    if !CapClash(H, t) {
      ShardRootEmpty(H, t.leaves, j, k);
    }
  }

  /** Past 32 window shards the broadcast drops shard roots. The served root is still the tree's root exactly
      when every dropped leaf is the empty leaf, unless two different inputs of `combine` that were hashed for
      these very roots collide. */
  lemma ServedRootExact(H: Hasher<Hash>, t: Tree)
    requires t.leafOffset % SHARD_LEAVES == 0 && t.Size() <= U32
    ensures OverflowEmpty(H, t) ==> ServedRoot(H, t) == Root(H, t)
    ensures ServedRoot(H, t) == Root(H, t) ==> OverflowEmpty(H, t) || ShardClash(H, t) || CapClash(H, t)
  {
    if OverflowEmpty(H, t) {
      DroppedEmpty(H, t);
    } else if ServedRoot(H, t) == Root(H, t) {
      var k :| L0_MAX_SHARDS * SHARD_LEAVES <= k < |t.leaves| && t.leaves[k] != H.emptyLeaf;
      DroppedLeaf(H, t, k);
    }
  }

  // ----- Against the full leaf list

  // The leaves that clients see: all of them, or those before the end of the 32nd window shard.
  function Seen(t: Tree, all: seq<Hash>): seq<Hash> {
    var end := (t.WindowStart() + L0_MAX_SHARDS) * SHARD_LEAVES;
    if |all| <= end then all else all[..end]
  }

  function SeenTree(t: Tree): Tree {
    var end := L0_MAX_SHARDS * SHARD_LEAVES;
    if |t.leaves| <= end then t else t.(leaves := t.leaves[..end])
  }

  lemma SeenWindow(H: Hasher<Hash>, t: Tree, all: seq<Hash>)
    requires WindowOf(H, t, all)
    ensures WindowOf(H, SeenTree(t), Seen(t, all))
    ensures SeenTree(t).PopulatedShards() == t.WindowStart() + t.WindowShardCount()
    ensures Seen(t, all) == all <==> t.LocalShardCount() <= L0_MAX_SHARDS
  {
    var u := SeenTree(t);
    ShardCounts(t);
    ShardCounts(u);
    WindowMoves(H, t, all, u);
    assert all[..t.leafOffset] + u.leaves == Seen(t, all);
  }

  lemma SeenRoots(H: Hasher<Hash>, t: Tree, n: nat)
    requires t.leafOffset % SHARD_LEAVES == 0 && n == t.WindowStart() + t.WindowShardCount()
    ensures ShardRootsUpTo(H, t, n) == ShardRootsUpTo(H, SeenTree(t), n)
  {
    var u := SeenTree(t);
    forall i | 0 <= i < n
      ensures ShardRoot(H, t, i) == ShardRoot(H, u, i)
    {
      if u != t && i >= t.WindowStart() {
        CompletedShard(H, t.leaves, u.leaves, i - t.WindowStart());
      }
    }
  }

  // A node at or below shard level whose cells lie in the first 32 window shards.
  lemma SeenNode(H: Hasher<Hash>, t: Tree, l: nat, m: nat)
    requires First(l, m + 1) <= L0_MAX_SHARDS * SHARD_LEAVES
    ensures Node(H, t.leaves, 0, l, m) == Node(H, SeenTree(t).leaves, 0, l, m)
  {
    var u, to := SeenTree(t), First(l, m);
    forall x: nat | First(l, m) <= x < First(l, m + 1)
      ensures At(H, t.leaves, 0, x) == At(H, u.leaves, 0, to + (x - First(l, m)))
    {
      assert to + (x - First(l, m)) == x;
    }
    NodeAgree(H, t.leaves, u.leaves, 0, l, m, m);
  }

  lemma SiblingSeen(q: nat, l: nat)
    requires q < L0_MAX_SHARDS * SHARD_LEAVES && l < SHARD_HEIGHT
    ensures First(l, Sib(Up(q, l)) + 1) <= L0_MAX_SHARDS * SHARD_LEAVES
  {
    WindowCells();
    FirstZero(21);
    FirstZero(21 - l);
    SibSplit(0, q, 21, l);
    FirstMono(l, Sib(Up(q, l)) + 1, Pow2(21 - l));
    PowerEnd(l, 21);
  }

  lemma WindowCells()
    ensures Pow2(21) == L0_MAX_SHARDS * SHARD_LEAVES
  {
    Pow2Values();
    assert Pow2(21) == 2 * Pow2(20) == 4 * Pow2(19) == 8 * Pow2(18) == 16 * Pow2(17) == 32 * Pow2(16);
  }

  // The sibling served at a position is that of the tree cut to what is seen.
  lemma SeenSibling(H: Hasher<Hash>, t: Tree, n: nat, p: nat, l: nat)
    requires t.leafOffset % SHARD_LEAVES == 0 && n == t.WindowStart() + t.WindowShardCount()
    requires PositionServed(t, p)
    ensures SiblingNode(H, t, n, p, l) == SiblingNode(H, SeenTree(t), n, p, l)
  {
    if l < SHARD_HEIGHT {
      var q := p - t.WindowStart() * SHARD_LEAVES;
      assert q < L0_MAX_SHARDS * SHARD_LEAVES;
      SiblingInWindow(t, p, l);
      SiblingSeen(q, l);
      SeenNode(H, t, l, Sib(Up(q, l)));
    } else {
      SeenRoots(H, t, n);
    }
  }

  /** The same, read against the full leaf list. For a window with correct prefetched roots, the client's siblings
      and anchor are those of the flat depth-32 tree over the leaves that clients see. That is every leaf ever
      appended exactly as long as at most 32 shards are local. */
  lemma WitnessMatchesFlatTree(H: Hasher<Hash>, t: Tree, all: seq<Hash>, p: nat, anchorHeight: nat)
    requires WindowOf(H, t, all) && PositionServed(t, p)
    ensures ShapedBroadcast(BroadcastOf(H, t, anchorHeight))
    ensures var r := FetchWitness(H, p, PirDb(H, t), BroadcastOf(H, t, anchorHeight));
            && r.Ok? && |r.value.siblings| == TREE_DEPTH
            && (forall l: nat :: l < TREE_DEPTH ==>
                  r.value.siblings[l] == Node(H, Seen(t, all), 0, l, Sib(Up(p, l))))
            && r.value.anchorRoot == Node(H, Seen(t, all), 0, TREE_DEPTH, 0)
    ensures Seen(t, all) == all <==> t.LocalShardCount() <= L0_MAX_SHARDS
    ensures Root(H, t) == Node(H, all, 0, TREE_DEPTH, 0)
  {
    WitnessComplete(H, t, p, anchorHeight);
    SeenWindow(H, t, all);
    WindowedRootIsFlat(H, t, all);
    SeenRootIsFlat(H, t, all);
    var n := t.WindowStart() + t.WindowShardCount();
    forall l: nat | l < TREE_DEPTH
      ensures SiblingNode(H, t, n, p, l) == Node(H, Seen(t, all), 0, l, Sib(Up(p, l)))
    {
      SeenSiblingIsFlat(H, t, all, n, p, l);
    }
  }

  lemma SeenRootIsFlat(H: Hasher<Hash>, t: Tree, all: seq<Hash>)
    requires WindowOf(H, t, all)
    ensures ServedRoot(H, t) == Node(H, Seen(t, all), 0, TREE_DEPTH, 0)
  {
    SeenWindow(H, t, all);
    SeenRoots(H, t, t.WindowStart() + t.WindowShardCount());
    WindowedRootIsFlat(H, SeenTree(t), Seen(t, all));
  }

  lemma SeenSiblingIsFlat(H: Hasher<Hash>, t: Tree, all: seq<Hash>, n: nat, p: nat, l: nat)
    requires WindowOf(H, t, all) && PositionServed(t, p) && l < TREE_DEPTH
    requires n == t.WindowStart() + t.WindowShardCount()
    ensures SiblingNode(H, t, n, p, l) == Node(H, Seen(t, all), 0, l, Sib(Up(p, l)))
  {
    SeenWindow(H, t, all);
    SeenSibling(H, t, n, p, l);
    ShardCounts(SeenTree(t));
    FlatSibling(H, SeenTree(t), Seen(t, all), p, l);
  }

  lemma FlatSibling(H: Hasher<Hash>, t: Tree, all: seq<Hash>, p: nat, l: nat)
    requires WindowOf(H, t, all) && PositionServed(t, p) && l < TREE_DEPTH
    ensures SiblingNode(H, t, t.PopulatedShards(), p, l) == Node(H, all, 0, l, Sib(Up(p, l)))
  {
    var w := t.WindowStart();
    var i := Sib(Up(p, l));
    ShardCounts(t);
    if l < SHARD_HEIGHT {
      SiblingInWindow(t, p, l);
      var m := i - First(16 - l, w);
      FirstAdd(l, First(16 - l, w), m);
      FirstAdd(l, First(16 - l, w), m + 1);
      FirstFirst(l, 16 - l, w);
      First16(w);
      var lo, hi, to := First(l, m), First(l, m + 1), First(l, i);
      forall x: nat | lo <= x < hi
        ensures At(H, t.leaves, 0, x) == At(H, all, 0, to + (x - lo))
      {
        assert to + (x - lo) == t.leafOffset + x;
      }
      NodeAgree(H, t.leaves, all, 0, l, m, i);
    } else {
      CapNodeIsFlat(H, t, all, l - 16, i);
    }
  }

  lemma CapNodeIsFlat(H: Hasher<Hash>, t: Tree, all: seq<Hash>, h: nat, i: nat)
    requires WindowOf(H, t, all)
    ensures Node(H, ShardRootsUpTo(H, t, t.PopulatedShards()), SHARD_HEIGHT, h, i)
              == Node(H, all, 0, SHARD_HEIGHT + h, i)
  {
    var n := t.PopulatedShards();
    var cap := ShardRootsUpTo(H, t, n);
    ShardCounts(t);
    forall x: nat
      ensures At(H, cap, SHARD_HEIGHT, x) == Node(H, all, 0, SHARD_HEIGHT, x)
    {
      CapCellIsFlat(H, t, all, x);
    }
    Graft(H, cap, all, 0, 16, h, i, i);
  }

  // ----- Soundness

  // At level l the path and the tree feed different pairs to `combine` and get the same parent.
  ghost predicate PathClash(H: Hasher<Hash>, t: Tree, n: nat, p: nat, leaf: Hash, siblings: seq<Hash>, l: nat)
    requires t.WindowStart() <= p / SHARD_LEAVES < n && l < |siblings|
  {
    TreeNodeStep(H, t, n, p, l);
    TreeNodeStep(H, t, n, p, l + 1);
    && PathNode(H, leaf, siblings, p, l + 1) == TreeNode(H, t, n, l + 1, Up(p, l + 1))
    && (PathNode(H, leaf, siblings, p, l) != TreeNode(H, t, n, l, Up(p, l))
        || siblings[l] != SiblingNode(H, t, n, p, l))
  }

  // A path that meets the tree at level h is the tree's own below h, or shows a collision below h.
  lemma {:induction false} PathBinds(H: Hasher<Hash>, t: Tree, n: nat, p: nat, leaf: Hash, siblings: seq<Hash>, h: nat)
    requires t.WindowStart() <= p / SHARD_LEAVES < n && h <= |siblings|
    requires h < SHARD_HEIGHT ==> First(SHARD_HEIGHT - h, t.WindowStart()) <= Up(p, h)
    requires PathNode(H, leaf, siblings, p, h) == TreeNode(H, t, n, h, Up(p, h))
    ensures || (leaf == LeafAt(H, t, p) && forall l :: 0 <= l < h ==> siblings[l] == SiblingNode(H, t, n, p, l))
            || exists l :: 0 <= l < h && PathClash(H, t, n, p, leaf, siblings, l)
    decreases h
  {
    if h == 0 {
      Ancestor(t, p, 0);
      First16(t.WindowStart());
    } else {
      TreeNodeStep(H, t, n, p, h - 1);
      if !PathClash(H, t, n, p, leaf, siblings, h - 1) {
        PathBinds(H, t, n, p, leaf, siblings, h - 1);
      }
    }
  }

  /** Witness soundness: any leaf and 32 siblings whose path reaches the served root are the tree's own leaf
      and siblings at that position, or they exhibit a collision of `combine` at some level of the path. */
  lemma WitnessSound(H: Hasher<Hash>, t: Tree, p: nat, leaf: Hash, siblings: seq<Hash>)
    requires PositionServed(t, p) && |siblings| == TREE_DEPTH
    requires PathNode(H, leaf, siblings, p, TREE_DEPTH) == ServedRoot(H, t)
    ensures var n := t.WindowStart() + t.WindowShardCount();
            || (leaf == LeafAt(H, t, p) && TrueSiblings(H, t, n, p, siblings))
            || exists l :: 0 <= l < TREE_DEPTH && PathClash(H, t, n, p, leaf, siblings, l)
  {
    ShardOf(p);
    PathBinds(H, t, t.WindowStart() + t.WindowShardCount(), p, leaf, siblings, TREE_DEPTH);
  }
}
