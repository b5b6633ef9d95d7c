/** Starting a witness server from completed shard roots. */
module WindowBootstrap {
  import opened Bytes
  import opened SpendTypes
  import opened Geometry
  import opened Merkle
  import opened CommitmentTree
  import opened Parsers
  import Db = CommitmentTreeDb

  // A completed shard as the light-wallet server reports it.
  datatype SubtreeRoot = SubtreeRoot(rootHash: seq<byte>, completingBlockHeight: nat)

  datatype ServerError =
    | MissingCompletingBlock(height: nat)
    | TreeSizeMismatch(height: nat, expected: nat, actual: nat)

  datatype Result<+T> = Ok(value: T) | Err(error: ServerError)

  datatype Prepared = Prepared(tree: Tree, syncFrom: nat, initialTreeSize: Option<u32>)

  const NU5_MAINNET_ACTIVATION: nat := 1_687_104

  // ----- Preparing the tree

  function MinSyncHeight(tipHeight: nat): nat {
    if tipHeight >= NU5_MAINNET_ACTIVATION then NU5_MAINNET_ACTIVATION else 1
  }

  function Clamp(limit: nat): nat {
    if limit < 1 then 1 else if limit > L0_MAX_SHARDS then L0_MAX_SHARDS else limit
  }

  // Keeps the suffix of a block's commitments that lies at or past the offset.
  function Spillover(commitments: seq<Hash>, endTreeSize: nat, leafOffset: nat): seq<Hash> {
    if endTreeSize <= leafOffset then [] else commitments[SaturatingSub(|commitments|, endTreeSize - leafOffset)..]
  }

  function CompletingBlockSpillover(block: CompactBlock, leafOffset: nat): seq<Hash> {
    Spillover(CommitmentsOf(block.vtx), if block.chainMetadata.Some? then block.chainMetadata.value else 0, leafOffset)
  }

  function RootsOf(roots: seq<SubtreeRoot>): (hs: seq<Hash>)
    ensures |hs| == |roots|
  {
    seq<Hash>(|roots|, i requires 0 <= i < |roots| => ToHashArray(roots[i].rootHash))
  }

  // The window keeps the last limit - 1 completed shards and the one being filled.
  function WindowStartFor(completed: nat, limit: nat): nat
    requires 1 <= limit <= completed
  {
    completed - (limit - 1)
  }

  function PrepareTree(roots: seq<SubtreeRoot>, tipHeight: nat, windowShardLimit: nat,
                       fetch: nat -> Option<CompactBlock>)
    : Result<Prepared>
  {
    var limit := Clamp(windowShardLimit);
    if |roots| >= limit then
      var start := WindowStartFor(|roots|, limit);
      var height := roots[start - 1].completingBlockHeight;
      var offset := start * SHARD_LEAVES;
      var tree := Fresh(offset, RootsOf(roots[..start]));
      match fetch(height)
      case None => Err(MissingCompletingBlock(height))
      case Some(block) =>
        var spill := CompletingBlockSpillover(block, offset);
        var seeded := if spill == [] then tree else Append(tree, height, ToHashArray(block.hash), spill);
        Ok(Prepared(seeded, height + 1, Some(AsU32(seeded.Size()))))
    else
      Ok(Prepared(Fresh(0, []), MinSyncHeight(tipHeight), None))
  }

  // The light-wallet server's answer to a request for one block is a parameter.
  method PrepareTreeDb(H: Hasher<Hash>, roots: seq<SubtreeRoot>, tipHeight: nat, windowShardLimit: nat,
                       fetch: nat -> Option<CompactBlock>)
    returns (tree: Db.CommitmentTreeDb, syncFrom: nat, initialTreeSize: Option<u32>, failure: Option<ServerError>)
    ensures fresh(tree) && tree.Valid() && tree.H == H
    ensures match PrepareTree(roots, tipHeight, windowShardLimit, fetch)
            case Ok(p) => failure.None? && Prepared(tree.View(), syncFrom, initialTreeSize) == p
            case Err(e) => failure == Some(e)
  {
    var limit := Clamp(windowShardLimit);
    syncFrom, initialTreeSize, failure := MinSyncHeight(tipHeight), None, None;
    if |roots| < limit {
      tree := new Db.CommitmentTreeDb.WithOffset(H, 0, []);
      return;
    }
    var start := WindowStartFor(|roots|, limit);
    var leafOffset := start * SHARD_LEAVES;
    var height := roots[start - 1].completingBlockHeight;
    tree := new Db.CommitmentTreeDb.WithOffset(H, leafOffset, RootsOf(roots[..start]));
    syncFrom := height + 1;
    var block := fetch(height);
    if block.None? {
      failure := Some(MissingCompletingBlock(height));
      return;
    }
    var spillover := CompletingBlockSpillover(block.value, leafOffset);
    if spillover != [] {
      tree.AppendCommitments(height, ToHashArray(block.value.hash), spillover);
    }
    initialTreeSize := Some(AsU32(tree.View().Size()));
  }

  // The limit that the server works with: from 1 to 32, the nearest to the one configured.
  predicate LimitIs(windowShardLimit: nat, limit: nat) {
    && 1 <= limit <= 32
    && (windowShardLimit == limit || (windowShardLimit == 0 && limit == 1) || (windowShardLimit > 32 && limit == 32))
  }

  lemma ClampIs(windowShardLimit: nat, limit: nat)
    requires LimitIs(windowShardLimit, limit)
    ensures Clamp(windowShardLimit) == limit
  {
  }

  // How many leaves lie past the offset after the block, by its own metadata; none when it has none.
  function LeavesPast(block: CompactBlock, offset: nat): nat {
    match block.chainMetadata
    case None => 0
    case Some(size) => if size > offset then size - offset else 0
  }

  // The last n hashes, or all of them if there are fewer.
  function LastOf(hs: seq<Hash>, n: nat): seq<Hash> {
    if n >= |hs| then hs else hs[|hs| - n..]
  }

  // The block whose commitments past the offset seed the window, as the tree's only record.
  predicate SeededBy(t: Tree, block: CompactBlock, height: nat, offset: nat) {
    var spill := LastOf(CommitmentsOf(block.vtx), LeavesPast(block, offset));
    && t.leaves == spill
    && t.blocks == if spill == [] then [] else [BlockRecord(height, ToHashArray(block.hash), AsU32(|spill|))]
  }

  lemma SpilloverIsLast(block: CompactBlock, offset: nat)
    ensures CompletingBlockSpillover(block, offset) == LastOf(CommitmentsOf(block.vtx), LeavesPast(block, offset))
  {
    assert CommitmentsOf(block.vtx)[|CommitmentsOf(block.vtx)|..] == [];
  }

  // A window that starts at this shard, seeded by this block.
  ghost predicate PreparedAt(p: Prepared, roots: seq<SubtreeRoot>, start: nat, block: CompactBlock, height: nat) {
    && p.tree.leafOffset == start * 65536 && p.tree.WindowStart() == |p.tree.prefetched| == start <= |roots|
    && (forall i :: 0 <= i < start ==> p.tree.prefetched[i] == ToHashArray(roots[i].rootHash))
    && SeededBy(p.tree, block, height, start * 65536)
    && p.syncFrom == height + 1 && p.initialTreeSize == Some(AsU32(p.tree.Size()))
  }

  lemma PreparedFrom(roots: seq<SubtreeRoot>, tipHeight: nat, limit: nat, fetch: nat -> Option<CompactBlock>,
                     start: nat, height: nat)
    requires 1 <= limit <= 32 && limit <= |roots| && start == |roots| - limit + 1
    requires height == roots[|roots| - limit].completingBlockHeight && fetch(height).Some?
    ensures PrepareTree(roots, tipHeight, limit, fetch).Ok?
    ensures PreparedAt(PrepareTree(roots, tipHeight, limit, fetch).value, roots, start, fetch(height).value, height)
  {
    SpilloverIsLast(fetch(height).value, start * SHARD_LEAVES);
    assert roots[start - 1] == roots[|roots| - limit];
  }

  lemma NotPrepared(roots: seq<SubtreeRoot>, tipHeight: nat, limit: nat, fetch: nat -> Option<CompactBlock>)
    requires 1 <= limit <= 32
    ensures |roots| < limit ==>
              PrepareTree(roots, tipHeight, limit, fetch)
              == Ok(Prepared(Fresh(0, []), if tipHeight >= 1_687_104 then 1_687_104 else 1, None))
    ensures |roots| >= limit && fetch(roots[|roots| - limit].completingBlockHeight).None? ==>
              PrepareTree(roots, tipHeight, limit, fetch)
              == Err(MissingCompletingBlock(roots[|roots| - limit].completingBlockHeight))
  {
    if |roots| >= limit {
      var start := |roots| - limit + 1;
      assert roots[start - 1] == roots[|roots| - limit];
    }
  }

  lemma SameLimit(roots: seq<SubtreeRoot>, tipHeight: nat, windowShardLimit: nat, limit: nat,
                  fetch: nat -> Option<CompactBlock>)
    requires LimitIs(windowShardLimit, limit)
    ensures PrepareTree(roots, tipHeight, windowShardLimit, fetch) == PrepareTree(roots, tipHeight, limit, fetch)
  {
    ClampIs(windowShardLimit, limit);
    ClampIs(limit, limit);
  }

  /** Where the window starts. With at least as many completed shards as the limit, the window holds the last ones but
      one less than the limit, so that with the shard being filled it comes to the limit; the roots of all shards
      before it are prefetched, and the sync starts after the block that completed the last of them. With fewer,
      the tree starts at leaf 0 and syncs from the activation height. */
  lemma PreparedWindow(roots: seq<SubtreeRoot>, tipHeight: nat, windowShardLimit: nat, limit: nat,
                       fetch: nat -> Option<CompactBlock>)
    requires LimitIs(windowShardLimit, limit)
    ensures |roots| < limit ==>
              PrepareTree(roots, tipHeight, windowShardLimit, fetch)
              == Ok(Prepared(Fresh(0, []), if tipHeight >= 1_687_104 then 1_687_104 else 1, None))
    ensures |roots| >= limit ==>
              var p, height := PrepareTree(roots, tipHeight, windowShardLimit, fetch),
                               roots[|roots| - limit].completingBlockHeight;
              if fetch(height).None? then p == Err(MissingCompletingBlock(height))
              else p.Ok? && PreparedAt(p.value, roots, |roots| - limit + 1, fetch(height).value, height)
  {
    SameLimit(roots, tipHeight, windowShardLimit, limit, fetch);
    NotPrepared(roots, tipHeight, limit, fetch);
    if |roots| >= limit {
      var start, height := |roots| - limit + 1, roots[|roots| - limit].completingBlockHeight;
      if fetch(height).Some? {
        PreparedFrom(roots, tipHeight, limit, fetch, start, height);
      }
    }
  }

  // ----- Syncing with the size check

  function ValidatePriorTreeSize(t: Tree, height: nat, prior: Option<u32>): Option<ServerError> {
    if prior.None? || t.Size() == prior.value then None else Some(TreeSizeMismatch(height, prior.value, t.Size()))
  }

  // Each block is checked against the size that its predecessor's metadata announced.
  function Sync(t: Tree, prior: Option<u32>, bs: seq<CompactBlock>): Result<Tree>
    decreases |bs|
  {
    if bs == [] then Ok(t)
    else
      var b := bs[0];
      var mismatch := ValidatePriorTreeSize(t, b.height, prior);
      if mismatch.Some? then Err(mismatch.value)
      else Sync(Append(t, b.height, ToHashArray(b.hash), CommitmentsOf(b.vtx)), OrchardTreeSize(b), bs[1..])
  }

  // The tree at which a sync ends, or stops.
  function SyncStop(t: Tree, prior: Option<u32>, bs: seq<CompactBlock>): Tree
    decreases |bs|
  {
    if bs == [] || ValidatePriorTreeSize(t, bs[0].height, prior).Some? then t
    else SyncStop(Append(t, bs[0].height, ToHashArray(bs[0].hash), CommitmentsOf(bs[0].vtx)), OrchardTreeSize(bs[0]),
                  bs[1..])
  }

  /** A sync that fails leaves the tree with the blocks before the one that it refuses, and the error names that block
      and the tree's size. */
  lemma {:induction false} StopsBefore(t: Tree, prior: Option<u32>, bs: seq<CompactBlock>) returns (k: nat)
    ensures k <= |bs| && Sync(t, prior, bs[..k]) == Ok(SyncStop(t, prior, bs))
    ensures Sync(t, prior, bs).Ok? ==> k == |bs|
    ensures Sync(t, prior, bs).Err? ==>
              k < |bs| && Sync(t, prior, bs).error.TreeSizeMismatch? && Sync(t, prior, bs).error.height == bs[k].height
              && Sync(t, prior, bs).error.actual == SyncStop(t, prior, bs).Size()
    decreases |bs|
  {
    k := 0;
    if bs != [] && ValidatePriorTreeSize(t, bs[0].height, prior).None? {
      var u := Append(t, bs[0].height, ToHashArray(bs[0].hash), CommitmentsOf(bs[0].vtx));
      var n := StopsBefore(u, OrchardTreeSize(bs[0]), bs[1..]);
      k := n + 1;
      assert bs[..k][1..] == bs[1..][..n];
    }
  }

  method SyncRange(tree: Db.CommitmentTreeDb, initialTreeSize: Option<u32>, bs: seq<CompactBlock>)
    returns (failure: Option<ServerError>)
    requires tree.Valid()
    modifies tree
    ensures tree.Valid()
    ensures match Sync(old(tree.View()), initialTreeSize, bs)
            case Ok(t) => failure.None? && tree.View() == t
            case Err(e) => failure == Some(e)
    ensures tree.View() == SyncStop(old(tree.View()), initialTreeSize, bs)
  {
    var prior := initialTreeSize;
    for i := 0 to |bs|
      invariant tree.Valid()
      invariant Sync(tree.View(), prior, bs[i..]) == Sync(old(tree.View()), initialTreeSize, bs)
      invariant SyncStop(tree.View(), prior, bs[i..]) == SyncStop(old(tree.View()), initialTreeSize, bs)
    {
      assert bs[i..][1..] == bs[i + 1..];
      var b := bs[i];
      var commitments := ExtractCommitments(b);
      failure := ValidatePriorTreeSize(tree.View(), b.height, prior);
      if failure.Some? {
        return;
      }
      tree.AppendCommitments(b.height, ToHashArray(b.hash), commitments);
      prior := OrchardTreeSize(b);
    }
    failure := None;
  }

  // ----- The chain that the server reads

  function ChainLeaves(bs: seq<CompactBlock>): seq<Hash> {
    if bs == [] then [] else ChainLeaves(bs[..|bs| - 1]) + CommitmentsOf(bs[|bs| - 1].vtx)
  }

  lemma LeavesSnoc(a: seq<CompactBlock>, b: CompactBlock)
    ensures ChainLeaves(a + [b]) == ChainLeaves(a) + CommitmentsOf(b.vtx)
  {
    assert (a + [b])[..|a|] == a;
  }

  lemma {:induction false} LeavesAppend(a: seq<CompactBlock>, b: seq<CompactBlock>)
    ensures ChainLeaves(a + b) == ChainLeaves(a) + ChainLeaves(b)
  {
    if b == [] {
      assert a + b == a;
    } else {
      var init, last := b[..|b| - 1], b[|b| - 1];
      LeavesAppend(a, init);
      AppendSnoc(a, init, last, b);
    }
  }

  lemma AppendSnoc(a: seq<CompactBlock>, init: seq<CompactBlock>, last: CompactBlock, b: seq<CompactBlock>)
    requires b == init + [last] && ChainLeaves(a + init) == ChainLeaves(a) + ChainLeaves(init)
    ensures ChainLeaves(a + b) == ChainLeaves(a) + ChainLeaves(b)
  {
    LeavesSnoc(init, last);
    LeavesSnoc(a + init, last);
    Assoc(a, init, [last]);
    Assoc(ChainLeaves(a), ChainLeaves(init), CommitmentsOf(last.vtx));
  }

  // Every block announces the size of the tree after it, counted from a start size.
  ghost predicate MetadataRight(bs: seq<CompactBlock>, start: nat) {
    forall k :: 0 <= k < |bs| ==> Announces(bs, start, k)
  }

  ghost predicate Announces(bs: seq<CompactBlock>, start: nat, k: nat)
    requires k < |bs|
  {
    bs[k].chainMetadata.Some? && bs[k].chainMetadata.value == start + |ChainLeaves(bs[..k + 1])|
  }

  lemma MetadataFrom(chain: seq<CompactBlock>, start: nat, n: nat)
    requires MetadataRight(chain, start) && n <= |chain|
    ensures MetadataRight(chain[n..], start + |ChainLeaves(chain[..n])|)
    ensures ChainLeaves(chain) == ChainLeaves(chain[..n]) + ChainLeaves(chain[n..])
  {
    var rest, size := chain[n..], start + |ChainLeaves(chain[..n])|;
    forall k | 0 <= k < |chain| - n
      ensures Announces(rest, size, k)
    {
      assert Announces(chain, start, n + k);
      assert chain[..n + k + 1] == chain[..n] + chain[n..][..k + 1];
      LeavesAppend(chain[..n], chain[n..][..k + 1]);
    }
    assert chain == chain[..n] + chain[n..];
    LeavesAppend(chain[..n], chain[n..]);
  }

  lemma OneBlock(bs: seq<CompactBlock>)
    requires bs != []
    ensures ChainLeaves(bs[..1]) == CommitmentsOf(bs[0].vtx)
  {
    assert bs[..1][..0] == [];
  }

  lemma MetadataTail(bs: seq<CompactBlock>, start: nat)
    requires MetadataRight(bs, start) && bs != []
    ensures MetadataRight(bs[1..], start + |CommitmentsOf(bs[0].vtx)|)
    ensures bs[0].chainMetadata.Some? && bs[0].chainMetadata.value == start + |CommitmentsOf(bs[0].vtx)|
    ensures ChainLeaves(bs) == CommitmentsOf(bs[0].vtx) + ChainLeaves(bs[1..])
  {
    OneBlock(bs);
    MetadataFrom(bs, start, 1);
    assert Announces(bs, start, 0);
  }

  // One block further: the tree after it, from which the rest is synced.
  lemma SyncStep(t: Tree, prior: Option<u32>, bs: seq<CompactBlock>) returns (u: Tree)
    requires bs != [] && (prior.None? || prior.value == t.Size()) && MetadataRight(bs, t.Size())
    ensures Sync(t, prior, bs) == Sync(u, OrchardTreeSize(bs[0]), bs[1..])
    ensures MetadataRight(bs[1..], u.Size())
              && (OrchardTreeSize(bs[0]).None? || OrchardTreeSize(bs[0]).value == u.Size())
    ensures u.leaves + ChainLeaves(bs[1..]) == t.leaves + ChainLeaves(bs)
    ensures u.leafOffset == t.leafOffset && u.prefetched == t.prefetched
  {
    u := Append(t, bs[0].height, ToHashArray(bs[0].hash), CommitmentsOf(bs[0].vtx));
    TailFrom(t, bs, u);
  }

  lemma TailFrom(t: Tree, bs: seq<CompactBlock>, u: Tree)
    requires bs != [] && MetadataRight(bs, t.Size())
    requires u.leaves == t.leaves + CommitmentsOf(bs[0].vtx) && u.leafOffset == t.leafOffset
    ensures MetadataRight(bs[1..], u.Size())
              && (OrchardTreeSize(bs[0]).None? || OrchardTreeSize(bs[0]).value == u.Size())
    ensures u.leaves + ChainLeaves(bs[1..]) == t.leaves + ChainLeaves(bs)
  {
    MetadataTail(bs, t.Size());
    assert u.Size() == t.Size() + |CommitmentsOf(bs[0].vtx)|;
    Assoc(t.leaves, CommitmentsOf(bs[0].vtx), ChainLeaves(bs[1..]));
  }

  /** From a tree of the right size, syncing blocks with right metadata succeeds and appends their commitments. */
  lemma {:induction false} SyncGoes(t: Tree, prior: Option<u32>, bs: seq<CompactBlock>)
    requires MetadataRight(bs, t.Size()) && (prior.None? || prior.value == t.Size())
    ensures var r := Sync(t, prior, bs);
            && r.Ok? && r.value.leaves == t.leaves + ChainLeaves(bs)
            && r.value.leafOffset == t.leafOffset && r.value.prefetched == t.prefetched
    decreases |bs|
  {
    if bs != [] {
      var u := SyncStep(t, prior, bs);
      SyncGoes(u, OrchardTreeSize(bs[0]), bs[1..]);
    }
  }

  /** The size check catches a wrong start. The first block is checked against the tree's own size, so it always
      passes; a sync of two or more blocks succeeds exactly when the tree had the size the metadata assumes. */
  lemma SyncSucceedsIff(t: Tree, prior: Option<u32>, bs: seq<CompactBlock>, start: nat)
    requires |bs| >= 2 && MetadataRight(bs, start) && start + |CommitmentsOf(bs[0].vtx)| > 0
    requires prior.None? || prior.value == t.Size()
    ensures Sync(t, prior, bs).Ok? <==> t.Size() == start
    ensures t.Size() != start ==> Sync(t, prior, bs).error.height == bs[1].height
  {
    MetadataTail(bs, start);
    if t.Size() == start {
      SyncGoes(t, prior, bs);
    } else {
      var u := Append(t, bs[0].height, ToHashArray(bs[0].hash), CommitmentsOf(bs[0].vtx));
      assert OrchardTreeSize(bs[0]) == bs[0].chainMetadata;
      assert ValidatePriorTreeSize(u, bs[1..][0].height, OrchardTreeSize(bs[0])).Some?;
    }
  }

  // ----- The bootstrapped window is the full tree

  /** The completing block's leaves past the offset are the full leaf list from the offset on. */
  lemma SpilloverIsSuffix(before: seq<Hash>, commitments: seq<Hash>, leafOffset: nat)
    requires |before| <= leafOffset <= |before| + |commitments|
    ensures Spillover(commitments, |before| + |commitments|, leafOffset) == (before + commitments)[leafOffset..]
  {
  }

  // The shard whose last leaf the block at index m brings.
  predicate CompletesAt(chain: seq<CompactBlock>, m: nat, leaves: nat)
  {
    m < |chain| && |ChainLeaves(chain[..m])| < leaves <= |ChainLeaves(chain[..m + 1])|
  }

  // The reported roots are those of the chain's first shards, all of them completed.
  ghost predicate RootsRight(H: Hasher<Hash>, chain: seq<CompactBlock>, roots: seq<SubtreeRoot>) {
    && |roots| * SHARD_LEAVES <= |ChainLeaves(chain)|
    && forall i: nat :: i < |roots| ==>
         ToHashArray(roots[i].rootHash) == Node(H, ChainLeaves(chain), 0, SHARD_HEIGHT, i)
  }

  // The seeded tree holds the leaves of the first m + 1 blocks from the offset on.
  lemma SeededLeaves(chain: seq<CompactBlock>, m: nat, leafOffset: nat)
    requires MetadataRight(chain, 0) && CompletesAt(chain, m, leafOffset)
    ensures CompletingBlockSpillover(chain[m], leafOffset) == ChainLeaves(chain[..m + 1])[leafOffset..]
  {
    assert Announces(chain, 0, m);
    var before, c := ChainLeaves(chain[..m]), CommitmentsOf(chain[m].vtx);
    assert chain[..m + 1] == chain[..m] + [chain[m]];
    LeavesAppend(chain[..m], [chain[m]]);
    assert ChainLeaves([chain[m]]) == c;
    SpilloverIsSuffix(before, c, leafOffset);
  }

  lemma PreparedTree(chain: seq<CompactBlock>, roots: seq<SubtreeRoot>, tipHeight: nat,
                     windowShardLimit: nat, m: nat, start: nat, fetch: nat -> Option<CompactBlock>)
    requires |roots| >= Clamp(windowShardLimit) && start == WindowStartFor(|roots|, Clamp(windowShardLimit))
    requires MetadataRight(chain, 0) && CompletesAt(chain, m, start * SHARD_LEAVES)
    requires roots[start - 1].completingBlockHeight == chain[m].height && fetch(chain[m].height) == Some(chain[m])
    ensures var p := PrepareTree(roots, tipHeight, windowShardLimit, fetch);
            && p.Ok? && p.value.syncFrom == chain[m].height + 1
            && p.value.tree.leaves == ChainLeaves(chain[..m + 1])[start * SHARD_LEAVES..]
            && p.value.tree.leafOffset == start * SHARD_LEAVES && p.value.tree.prefetched == RootsOf(roots[..start])
            && p.value.tree.Size() == |ChainLeaves(chain[..m + 1])|
            && p.value.initialTreeSize == Some(p.value.tree.Size())
  {
    SeededLeaves(chain, m, start * SHARD_LEAVES);
    assert Announces(chain, 0, m);
  }

  // A windowed tree with these leaves and roots is a window of the chain's leaves.
  lemma WindowIsRight(H: Hasher<Hash>, chain: seq<CompactBlock>, roots: seq<SubtreeRoot>, start: nat, t: Tree)
    requires RootsRight(H, chain, roots) && start <= |roots|
    requires t.leafOffset == start * SHARD_LEAVES && t.prefetched == RootsOf(roots[..start])
    requires t.leaves == ChainLeaves(chain)[start * SHARD_LEAVES..]
    ensures WindowOf(H, t, ChainLeaves(chain))
  {
    assert t.WindowStart() == start;
  }

  // Local shards are within a limit exactly when the chain's leaves are.
  lemma WithinLimitIff(H: Hasher<Hash>, t: Tree, all: seq<Hash>, shards: nat)
    requires WindowOf(H, t, all)
    ensures t.LocalShardCount() <= shards <==> |all| <= (t.WindowStart() + shards) * SHARD_LEAVES
  {
    ShardCounts(t);
  }

  // From a seeded tree, syncing the blocks after the completing one gives a window of the whole chain.
  lemma SyncedWindow(H: Hasher<Hash>, chain: seq<CompactBlock>, roots: seq<SubtreeRoot>, start: nat, m: nat,
                     seeded: Tree)
    requires MetadataRight(chain, 0) && RootsRight(H, chain, roots) && start <= |roots|
    requires CompletesAt(chain, m, start * SHARD_LEAVES)
    requires seeded.leaves == ChainLeaves(chain[..m + 1])[start * SHARD_LEAVES..]
    requires seeded.leafOffset == start * SHARD_LEAVES && seeded.prefetched == RootsOf(roots[..start])
    requires seeded.Size() == |ChainLeaves(chain[..m + 1])| < U32
    ensures var r := Sync(seeded, Some(seeded.Size()), chain[m + 1..]);
            && r.Ok? && WindowOf(H, r.value, ChainLeaves(chain)) && r.value.leafOffset == start * SHARD_LEAVES
  {
    MetadataFrom(chain, 0, m + 1);
    SyncGoes(seeded, Some(seeded.Size()), chain[m + 1..]);
    var t := Sync(seeded, Some(seeded.Size()), chain[m + 1..]).value;
    SuffixSplit(ChainLeaves(chain[..m + 1]), ChainLeaves(chain[m + 1..]), start * SHARD_LEAVES);
    WindowIsRight(H, chain, roots, start, t);
  }

  // What the server reads agrees with the chain: shard roots, metadata, and the completing block at index m.
  ghost predicate ChainServed(H: Hasher<Hash>, chain: seq<CompactBlock>, roots: seq<SubtreeRoot>, start: nat, m: nat,
                              fetch: nat -> Option<CompactBlock>)
  {
    && MetadataRight(chain, 0) && RootsRight(H, chain, roots) && 0 < start <= |roots|
    && CompletesAt(chain, m, start * SHARD_LEAVES)
    && roots[start - 1].completingBlockHeight == chain[m].height && fetch(chain[m].height) == Some(chain[m])
  }

  // Completed shards never change, so the reported roots stay right for as long as the chain grows.
  lemma RootsStayRight(H: Hasher<Hash>, chain: seq<CompactBlock>, later: seq<CompactBlock>, roots: seq<SubtreeRoot>)
    requires RootsRight(H, chain, roots)
    ensures RootsRight(H, chain + later, roots)
  {
    LeavesAppend(chain, later);
    forall i: nat | i < |roots|
      ensures ToHashArray(roots[i].rootHash) == Node(H, ChainLeaves(chain + later), 0, SHARD_HEIGHT, i)
    {
      CompletedShard(H, ChainLeaves(chain), ChainLeaves(chain + later), i);
    }
  }

  lemma ServedLater(H: Hasher<Hash>, chain: seq<CompactBlock>, later: seq<CompactBlock>, roots: seq<SubtreeRoot>,
                    start: nat, m: nat, fetch: nat -> Option<CompactBlock>)
    requires ChainServed(H, chain, roots, start, m, fetch) && MetadataRight(chain + later, 0)
    ensures ChainServed(H, chain + later, roots, start, m, fetch)
  {
    RootsStayRight(H, chain, later, roots);
    assert (chain + later)[..m] == chain[..m] && (chain + later)[..m + 1] == chain[..m + 1];
  }

  /** The window is the full tree, now and later. With shard roots and metadata that were right when they were
      fetched, preparing a windowed tree succeeds, and so does syncing the blocks after the completing one and any
      blocks that follow them. The leaves are the chain's from the offset on, and the root is that of all the
      chain's leaves. The local shards are within the limit exactly until a leaf follows the shard that was being
      filled. */
  lemma BootstrapIsFullTree(H: Hasher<Hash>, chain: seq<CompactBlock>, roots: seq<SubtreeRoot>, tipHeight: nat,
                            windowShardLimit: nat, limit: nat, m: nat, fetch: nat -> Option<CompactBlock>,
                            later: seq<CompactBlock>)
    requires LimitIs(windowShardLimit, limit) && |roots| >= limit
    requires ChainServed(H, chain, roots, |roots| - limit + 1, m, fetch) && MetadataRight(chain + later, 0)
    ensures var p := PrepareTree(roots, tipHeight, windowShardLimit, fetch);
            && p.Ok? && p.value.syncFrom == chain[m].height + 1
            && var r, all := Sync(p.value.tree, p.value.initialTreeSize, (chain + later)[m + 1..]), chain + later;
            && r.Ok? && WindowOf(H, r.value, ChainLeaves(all)) && r.value.WindowStart() == |roots| - limit + 1
            && Root(H, r.value) == Node(H, ChainLeaves(all), 0, TREE_DEPTH, 0)
            && (r.value.LocalShardCount() <= limit <==> |ChainLeaves(all)| <= (|roots| + 1) * SHARD_LEAVES)
  {
    ClampIs(windowShardLimit, limit);
    var start, all := |roots| - limit + 1, chain + later;
    ServedLater(H, chain, later, roots, start, m, fetch);
    var p := PrepareTree(roots, tipHeight, windowShardLimit, fetch);
    PreparedTree(all, roots, tipHeight, windowShardLimit, m, start, fetch);
    SyncedWindow(H, all, roots, start, m, p.value.tree);
    var t := Sync(p.value.tree, p.value.initialTreeSize, all[m + 1..]).value;
    WindowedRootIsFlat(H, t, ChainLeaves(all));
    WithinLimitIff(H, t, ChainLeaves(all), limit);
  }

  lemma SuffixSplit<T>(a: seq<T>, b: seq<T>, n: nat)
    requires n <= |a|
    ensures a[n..] + b == (a + b)[n..]
  {
  }
}
