/** How the follow loop comes to start in lockstep, from databases synced with one chain. */
module FollowStart {
  import opened Bytes
  import opened SpendTypes
  import opened NullifierTable
  import opened NullifierRemoval
  import opened Parsers
  import opened ChainTracker
  import opened FollowLoop
  import opened FollowLockstep
  import opened FollowTips
  import opened SyncDemand
  import opened SyncPlan
  import WB = WindowBootstrap
  import HT = HashTableDb
  import Db = CommitmentTreeDb
  import CT = CommitmentTree

  // ----- The tree

  // Records of the chain, in ascending order, up to the height `top`.
  ghost predicate TreeServes(chain: Chain, blocks: seq<CT.BlockRecord>, top: nat) {
    Increasing(blocks) && forall i :: 0 <= i < |blocks| ==> FromChainAt(chain, blocks[i], top)
  }

  predicate FromChainAt(chain: Chain, r: CT.BlockRecord, top: nat) {
    r.height <= top && r.hash == ToHashArray(chain(r.height).hash)
  }

  lemma RecordNext(chain: Chain, blocks: seq<CT.BlockRecord>, from: nat, n: nat)
    requires TreeServes(chain, blocks, from) && (forall i :: 0 <= i < |blocks| ==> blocks[i].height < from)
    ensures TreeServes(chain, blocks + [CT.BlockRecord(from, ToHashArray(chain(from).hash), n)], from)
  {
    var after := blocks + [CT.BlockRecord(from, ToHashArray(chain(from).hash), n)];
    forall i | 0 <= i < |after|
      ensures FromChainAt(chain, after[i], from)
    {
      assert i < |blocks| ==> after[i] == blocks[i];
    }
  }

  // The blocks of a tree that is about to sync the height `next`.
  ghost predicate Below(chain: Chain, blocks: seq<CT.BlockRecord>, next: nat) {
    TreeServes(chain, blocks, next) && forall i :: 0 <= i < |blocks| ==> blocks[i].height < next
  }

  lemma SyncOne(chain: Chain, t: CT.Tree, from: nat, next: nat, u: CT.Tree)
    requires Below(chain, t.blocks, from) && chain(from).height == from && next == from + 1
    requires u == CT.Append(t, from, ToHashArray(chain(from).hash), CommitmentsOf(chain(from).vtx))
    ensures Below(chain, u.blocks, next) && u.LatestHeight() == Some(from) && TreeServes(chain, u.blocks, from)
  {
    RecordNext(chain, t.blocks, from, AsU32(|CommitmentsOf(chain(from).vtx)|));
    forall i | 0 <= i < |u.blocks|
      ensures FromChainAt(chain, u.blocks[i], next) && u.blocks[i].height < next
    {
      assert FromChainAt(chain, u.blocks[i], from);
    }
  }

  lemma RangeTail(chain: Chain, from: nat, next: nat, last: nat)
    requires from <= last && next == from + 1
    ensures GetBlockRange(chain, from, last)[0] == chain(from)
    ensures from < last ==> GetBlockRange(chain, from, last)[1..] == GetBlockRange(chain, next, last)
    ensures from == last ==> GetBlockRange(chain, from, last)[1..] == []
  {
  }

  /** Syncing the heights from `from` on leaves a tree that serves the chain up to the last of them. It holds for
      the first sync after the windowed start and for the catch-up alike. */
  lemma {:induction false} SyncServes(chain: Chain, t: CT.Tree, prior: Option<u32>, from: nat, last: nat, u: CT.Tree)
    requires from <= last && (forall h :: from <= h <= last ==> chain(h).height == h) && Below(chain, t.blocks, from)
    requires WB.Sync(t, prior, GetBlockRange(chain, from, last)) == WB.Ok(u)
    ensures TreeServes(chain, u.blocks, last) && u.LatestHeight() == Some(last)
    decreases last - from
  {
    var next := from + 1;
    var v := CT.Append(t, from, ToHashArray(chain(from).hash), CommitmentsOf(chain(from).vtx));
    RangeTail(chain, from, next, last);
    assert chain(from).height == from;
    SyncOne(chain, t, from, next, v);
    if from < last {
      SyncServes(chain, v, OrchardTreeSize(chain(from)), next, last, u);
    }
  }

  // The prepared tree records at most the block that completes the last shard before its window.
  lemma PreparedServes(chain: Chain, roots: seq<WB.SubtreeRoot>, tipHeight: nat, limit: nat,
                       fetch: nat -> Option<CompactBlock>)
    requires forall h :: fetch(h).Some? ==> fetch(h).value == chain(h)
    requires WB.PrepareTree(roots, tipHeight, limit, fetch).Ok?
    ensures var p := WB.PrepareTree(roots, tipHeight, limit, fetch).value;
            Below(chain, p.tree.blocks, p.syncFrom)
  {
  }

  // ----- The table

  // Evicting down to the target keeps serving the chain.
  lemma EvictKeepsServing(chain: Chain, t: Table, top: nat)
    requires Serves(chain, t, top)
    ensures Serves(chain, EvictToTarget(t), top) && EvictToTarget(t).blockIndex.Keys <= t.blockIndex.Keys
  {
    EvictionKeepsLater(t);
    var u := EvictToTarget(t);
    forall h | h in Live(u)
      ensures h <= top && FromChain(chain, Live(u)[h], h)
    {
      assert h in Live(t) && Live(u)[h] == Live(t)[h];
    }
  }

  // ----- The start

  lemma ServedIsInStep(g: BlockTree, chain: Chain, tree: CT.Tree, table: Table, tip: nat)
    requires Sound(chain, g.heightOf, tip) && TreeServes(chain, tree.blocks, tip) && Serves(chain, table, tip)
    ensures TreeHeights(g, tree.blocks) && TableHeights(g, table.blockIndex) && Agree(table.blockIndex, tree.blocks)
  {
    forall i | 0 <= i < |tree.blocks|
      ensures tree.blocks[i].height == g.heightOf(tree.blocks[i].hash)
      ensures tree.blocks[i].height in table.blockIndex
              ==> table.blockIndex[tree.blocks[i].height].blockHash == tree.blocks[i].hash
    {
      assert FromChainAt(chain, tree.blocks[i], tip) && SoundAt(chain, g.heightOf, tree.blocks[i].height);
      if tree.blocks[i].height in table.blockIndex {
        TableHash(chain, table, tree.blocks[i].height, tip);
      }
    }
    forall h | h in table.blockIndex
      ensures h == g.heightOf(table.blockIndex[h].blockHash)
    {
      TableHash(chain, table, h, tip);
      assert SoundAt(chain, g.heightOf, h);
    }
  }

  lemma TableHash(chain: Chain, table: Table, h: nat, tip: nat)
    requires Serves(chain, table, tip) && h in table.blockIndex
    ensures h <= tip && table.blockIndex[h].blockHash == ToHashArray(chain(h).hash)
  {
    assert h in Live(table) && FromChain(chain, Live(table)[h], h);
  }

  /** Two databases that serve one chain up to one tip start the loop in lockstep. */
  lemma ServedStartsInLockstep(g: BlockTree, chain: Chain, tree: CT.Tree, table: Table, tip: nat, prior: Option<u32>)
    requires Sound(chain, g.heightOf, tip) && tip >= 1
    requires TreeServes(chain, tree.blocks, tip) && tree.LatestHeight() == Some(tip)
    requires Serves(chain, table, tip) && tip in table.blockIndex
    ensures Lockstep(g, State([Link(tip, ToHashArray(chain(tip).hash))], tree, table, tip, prior))
  {
    ServedIsInStep(g, chain, tree, table, tip);
    TableHash(chain, table, tip, tip);
    NewestIsTip(chain, table, tip);
    assert FromChainAt(chain, tree.blocks[|tree.blocks| - 1], tip);
    StartsInLockstep(g, tree, table, Link(tip, ToHashArray(chain(tip).hash)), prior);
  }

  lemma NewestIsTip(chain: Chain, table: Table, tip: nat)
    requires Serves(chain, table, tip) && tip in table.blockIndex
    ensures table.blockIndex != map[] && Newest(table.blockIndex) == tip
  {
    assert Newest(table.blockIndex) in Live(table);
  }

  // ----- Catching up

  // Where the tree and the table stand; height 0 stands for nothing stored.
  function TreeHeight(t: CT.Tree): nat {
    if t.LatestHeight().Some? then t.LatestHeight().value else 0
  }

  ghost function TableTip(t: Table): Link {
    match LatestOf(t.blockIndex)
    case None => Link(0, ZeroHash())
    case Some((height, hash)) => Link(height, hash)
  }

  // The loop's first state: the tracker knows the newest block of the table.
  ghost function StartState(tree: CT.Tree, table: Table): State {
    State([TableTip(table)], tree, table, TableTip(table).height, None)
  }

  ghost predicate NoneAbove(t: Table, tip: nat) {
    forall h :: h in t.blockIndex ==> h <= tip
  }

  // With both databases on one chain and none above the tree's tip, the start is in lockstep exactly when the table
  // has that tip.
  lemma StartIff(g: BlockTree, chain: Chain, tree: CT.Tree, table: Table, tip: nat, top: nat)
    requires Sound(chain, g.heightOf, top) && tip <= top && NoneAbove(table, tip)
    requires Serves(chain, table, top) && TreeServes(chain, tree.blocks, top) && TreeHeight(tree) == tip
    ensures Lockstep(g, StartState(tree, table)) <==> tip >= 1 && tip in table.blockIndex
  {
    if tip >= 1 && tip in table.blockIndex {
      LowerTop(chain, g.heightOf, tree, table, tip, top);
      NewestIsTip(chain, table, tip);
      TableHash(chain, table, tip, tip);
      ServedStartsInLockstep(g, chain, tree, table, tip, None);
    }
    if Lockstep(g, StartState(tree, table)) {
      assert Matches(TableTip(table), tree.blocks[|tree.blocks| - 1 + 0]);
    }
  }

  lemma LowerTop(chain: Chain, heightOf: Hash -> nat, tree: CT.Tree, table: Table, tip: nat, top: nat)
    requires Sound(chain, heightOf, top) && tip <= top && NoneAbove(table, tip)
    requires Serves(chain, table, top) && TreeServes(chain, tree.blocks, top) && TreeHeight(tree) == tip
    ensures Sound(chain, heightOf, tip) && Serves(chain, table, tip) && TreeServes(chain, tree.blocks, tip)
  {
    LowerTable(chain, table, tip, top);
    LowerTree(chain, tree, tip, top);
  }

  lemma LowerTable(chain: Chain, table: Table, tip: nat, top: nat)
    requires Serves(chain, table, top) && NoneAbove(table, tip)
    ensures Serves(chain, table, tip)
  {
    forall h | h in Live(table)
      ensures h <= tip && FromChain(chain, Live(table)[h], h)
    {
      assert h in table.blockIndex;
    }
  }

  lemma LowerTree(chain: Chain, tree: CT.Tree, tip: nat, top: nat)
    requires TreeServes(chain, tree.blocks, top) && TreeHeight(tree) == tip
    ensures TreeServes(chain, tree.blocks, tip)
  {
    forall i | 0 <= i < |tree.blocks|
      ensures FromChainAt(chain, tree.blocks[i], tip)
    {
      assert FromChainAt(chain, tree.blocks[i], top);
    }
  }

  // The table after it has caught up with the tree, before and after eviction.
  lemma TableCatchesUp(g: BlockTree, chain: Chain, tree: CT.Tree, was: Table, now: Table, from: nat, tip: nat, top: nat)
    requires Sound(chain, g.heightOf, top) && TreeServes(chain, tree.blocks, top) && TreeHeight(tree) == tip <= top
    requires Serves(chain, was, top) && NoneAbove(was, from) && from <= tip
    requires Progress(chain, Live(was), now, top, from, tip + 1)
    ensures var u := EvictToTarget(now);
            && Serves(chain, u, top) && NoneAbove(u, tip)
            && (Lockstep(g, StartState(tree, u)) <==> tip >= 1 && BlockCount(chain, tip) <= TARGET_SIZE)
  {
    GrownBelow(chain, was, now, from, tip, top);
    StoredCount(chain, now, tip, top);
    NewestSurvives(now, tip);
    EvictKeepsServing(chain, now, top);
    StartIff(g, chain, tree, EvictToTarget(now), tip, top);
  }

  lemma GrownBelow(chain: Chain, was: Table, now: Table, from: nat, tip: nat, top: nat)
    requires Serves(chain, was, top) && NoneAbove(was, from) && from <= tip
    requires Progress(chain, Live(was), now, top, from, tip + 1)
    ensures NoneAbove(now, tip) && tip in now.blockIndex
  {
    assert Live(was).Keys == was.blockIndex.Keys;
  }

  // The tree after it has caught up with the table.
  lemma TreeCatchesUp(g: BlockTree, chain: Chain, was: CT.Tree, prior: Option<u32>, now: CT.Tree, table: Table,
                      from: nat, tip: nat, top: nat)
    requires Sound(chain, g.heightOf, top) && Serves(chain, table, top) && TableTip(table).height == tip <= top
    requires TreeServes(chain, was.blocks, top) && from == TreeHeight(was) + 1 && from <= tip
    requires WB.Sync(was, prior, GetBlockRange(chain, from, tip)) == WB.Ok(now)
    ensures TreeServes(chain, now.blocks, top) && TreeHeight(now) == tip
    ensures Lockstep(g, StartState(now, table))
  {
    TreeReaches(g, chain, was, prior, now, from, tip, top);
    TipsBelow(chain, now, table, top);
    StartIff(g, chain, now, table, tip, top);
  }

  lemma TreeReaches(g: BlockTree, chain: Chain, was: CT.Tree, prior: Option<u32>, now: CT.Tree, from: nat, tip: nat,
                    top: nat)
    requires Sound(chain, g.heightOf, top) && TreeServes(chain, was.blocks, top)
    requires from == TreeHeight(was) + 1 && from <= tip <= top
    requires WB.Sync(was, prior, GetBlockRange(chain, from, tip)) == WB.Ok(now)
    ensures TreeServes(chain, now.blocks, top) && TreeHeight(now) == tip
  {
    BelowNext(chain, was, from, top);
    SoundHeights(chain, g.heightOf, from, tip, top);
    SyncServes(chain, was, prior, from, tip, now);
    HigherTop(chain, now.blocks, tip, top);
  }

  lemma SoundHeights(chain: Chain, heightOf: Hash -> nat, from: nat, tip: nat, top: nat)
    requires Sound(chain, heightOf, top) && tip <= top
    ensures forall h :: from <= h <= tip ==> chain(h).height == h
  {
    forall h | from <= h <= tip
      ensures chain(h).height == h
    {
      assert SoundAt(chain, heightOf, h);
    }
  }

  lemma BelowNext(chain: Chain, t: CT.Tree, from: nat, top: nat)
    requires TreeServes(chain, t.blocks, top) && from == TreeHeight(t) + 1
    ensures Below(chain, t.blocks, from)
  {
    forall i | 0 <= i < |t.blocks|
      ensures FromChainAt(chain, t.blocks[i], from) && t.blocks[i].height < from
    {
      assert FromChainAt(chain, t.blocks[i], top);
    }
  }

  lemma HigherTop(chain: Chain, blocks: seq<CT.BlockRecord>, tip: nat, top: nat)
    requires TreeServes(chain, blocks, tip) && tip <= top
    ensures TreeServes(chain, blocks, top)
  {
    forall i | 0 <= i < |blocks|
      ensures FromChainAt(chain, blocks[i], top)
    {
      assert FromChainAt(chain, blocks[i], tip);
    }
  }

  // The tree's size as it is handed to a sync.
  function SizeIfAny(t: CT.Tree): Option<u32> {
    if t.Size() > 0 then Some(AsU32(t.Size())) else None
  }

  // The table has room for the blocks above one height, up to another.
  ghost predicate HasRoom(chain: Chain, table: Table, low: nat, high: nat)
    requires Shaped(table.buckets) && RefsInRange(table)
  {
    RangeFits(chain, Live(table), low + 1, high + 1)
  }

  // The database that is behind can be synced to the height of the other.
  ghost predicate CanCatchUp(chain: Chain, tree: CT.Tree, table: Table)
    requires Shaped(table.buckets) && RefsInRange(table)
  {
    var low, high := TableTip(table).height, TreeHeight(tree);
    && (low < high ==> HasRoom(chain, table, low, high))
    && (high < low ==> WB.Sync(tree, SizeIfAny(tree), GetBlockRange(chain, high + 1, low)).Ok?)
  }

  // The height at which both databases stand after the catch-up, and whether the loop can start from there.
  ghost predicate StartsWell(chain: Chain, tree: CT.Tree, table: Table) {
    var low, high := TableTip(table).height, TreeHeight(tree);
    (low >= 1 || high >= 1) && (low < high ==> BlockCount(chain, high) <= TARGET_SIZE)
  }

  ghost predicate LockstepIf(g: BlockTree, tree: CT.Tree, table: Table, condition: bool) {
    Lockstep(g, StartState(tree, table)) <==> condition
  }

  lemma NothingToCatchUp(g: BlockTree, chain: Chain, tree: CT.Tree, table: Table, top: nat)
    requires Sound(chain, g.heightOf, top) && Serves(chain, table, top) && TreeServes(chain, tree.blocks, top)
    requires TableTip(table).height == TreeHeight(tree)
    ensures CanCatchUp(chain, tree, table) && LockstepIf(g, tree, table, StartsWell(chain, tree, table))
  {
    TipsBelow(chain, tree, table, top);
    StartIff(g, chain, tree, table, TreeHeight(tree), top);
  }

  lemma TableCan(chain: Chain, tree: CT.Tree, was: Table, from: nat, to: nat)
    requires Shaped(was.buckets) && RefsInRange(was) && TreeHeight(tree) == to
    requires from == TableTip(was).height + 1 && from <= to
    ensures CanCatchUp(chain, tree, was) <==> RangeFits(chain, Live(was), from, to + 1)
    ensures StartsWell(chain, tree, was) <==> BlockCount(chain, to) <= TARGET_SIZE
  {
    RoomIs(chain, was, TableTip(was).height, from, to);
  }

  lemma RoomIs(chain: Chain, table: Table, low: nat, from: nat, to: nat)
    requires Shaped(table.buckets) && RefsInRange(table) && from == low + 1
    ensures HasRoom(chain, table, low, to) <==> RangeFits(chain, Live(table), from, to + 1)
  {
  }

  lemma TreeCan(chain: Chain, was: CT.Tree, table: Table, from: nat, to: nat)
    requires Shaped(table.buckets) && RefsInRange(table) && TableTip(table).height == to
    requires from == TreeHeight(was) + 1 && from <= to
    ensures CanCatchUp(chain, was, table) <==> WB.Sync(was, SizeIfAny(was), GetBlockRange(chain, from, to)).Ok?
    ensures StartsWell(chain, was, table)
  {
  }

  method CatchUpNullifier(ghost g: BlockTree, chain: Chain, ghost top: nat, ghost tree: CT.Tree, from: nat, to: nat,
                          hashtable: HT.HashTableDb)
    returns (r: Result)
    requires Sound(chain, g.heightOf, top) && Serves(chain, hashtable.View(), top)
    requires TreeServes(chain, tree.blocks, top) && TreeHeight(tree) == to <= top
    requires from == TableTip(hashtable.View()).height + 1 && from <= to
    modifies hashtable
    ensures r.Ok? <==> CanCatchUp(chain, tree, old(hashtable.View()))
    ensures r.Ok? ==> LockstepIf(g, tree, hashtable.View(), StartsWell(chain, tree, old(hashtable.View())))
    ensures r.Ok? ==> hashtable.numEntries <= 1_000_000
  {
    ghost var was := hashtable.View();
    TipsBelow(chain, tree, was, top);
    r := SyncRange(chain, g.heightOf, top, from, to, hashtable);
    TableCan(chain, tree, was, from, to);
    if r.Ok? {
      TableCatchesUp(g, chain, tree, was, hashtable.View(), from, to, top);
      CleanFits(hashtable.View());
      hashtable.EvictToTarget();
    }
  }

  method CatchUpWitness(ghost g: BlockTree, chain: Chain, ghost top: nat, ghost table: Table, from: nat, to: nat,
                        tree: Db.CommitmentTreeDb)
    returns (failure: Option<WB.ServerError>)
    requires tree.Valid() && Sound(chain, g.heightOf, top) && TreeServes(chain, tree.View().blocks, top)
    requires Serves(chain, table, top) && TableTip(table).height == to <= top
    requires from == TreeHeight(tree.View()) + 1 && from <= to
    modifies tree
    ensures tree.Valid()
    ensures failure.None? <==> CanCatchUp(chain, old(tree.View()), table)
    ensures failure.None? ==> LockstepIf(g, tree.View(), table, StartsWell(chain, old(tree.View()), table))
  {
    ghost var was := tree.View();
    failure := WB.SyncRange(tree, SizeIfAny(tree.View()), GetBlockRange(chain, from, to));
    TreeCan(chain, was, table, from, to);
    if failure.None? {
      TreeCatchesUp(g, chain, was, SizeIfAny(was), tree.View(), table, from, to, top);
    }
  }

  /** Before the follow loop the database that is behind catches up with the other. It does unless a bucket
      overflows or a size check fails. The loop then starts in lockstep exactly when there is a block at all and,
      where the table had to catch up, the tip alone does not exceed the target. */
  method CatchUp(ghost g: BlockTree, chain: Chain, ghost top: nat, hashtable: HT.HashTableDb, tree: Db.CommitmentTreeDb)
    returns (ok: bool, followHeight: nat, followHash: Hash)
    requires tree.Valid() && Sound(chain, g.heightOf, top)
    requires Serves(chain, hashtable.View(), top) && TreeServes(chain, tree.View().blocks, top)
    modifies hashtable, tree
    ensures tree.Valid()
    ensures ok <==> CanCatchUp(chain, old(tree.View()), old(hashtable.View()))
    ensures ok ==> Link(followHeight, followHash) == TableTip(hashtable.View())
    ensures ok ==> LockstepIf(g, tree.View(), hashtable.View(),
                              StartsWell(chain, old(tree.View()), old(hashtable.View())))
  {
    ghost var table := hashtable.View();
    var stored := hashtable.LatestBlock();
    var low := if stored.Some? then stored.value.0 else 0;
    var high := TreeHeight(tree.View());
    TipsBelow(chain, tree.View(), table, top);
    ok, followHeight, followHash := true, 0, ZeroHash();
    if low < high {
      var r := CatchUpNullifier(g, chain, top, tree.View(), low + 1, high, hashtable);
      ok := r.Ok?;
    } else if high < low {
      var failure := CatchUpWitness(g, chain, top, table, high + 1, low, tree);
      ok := failure.None?;
    } else {
      NothingToCatchUp(g, chain, tree.View(), table, top);
    }
    if ok {
      var latest := hashtable.LatestBlock();
      if latest.Some? {
        followHeight, followHash := latest.value.0, latest.value.1;
      }
    }
  }

  lemma TipsBelow(chain: Chain, tree: CT.Tree, table: Table, top: nat)
    requires Serves(chain, table, top) && TreeServes(chain, tree.blocks, top)
    ensures TreeHeight(tree) <= top && TableTip(table).height <= top && NoneAbove(table, TableTip(table).height)
    ensures table.blockIndex != map[] ==> TableTip(table).height in table.blockIndex
  {
    if table.blockIndex != map[] {
      assert Newest(table.blockIndex) in Live(table);
    }
    if tree.blocks != [] {
      assert FromChainAt(chain, tree.blocks[|tree.blocks| - 1], top);
    }
  }

  /** The two first syncs may end at different tips. Each leaves its database on the chain, which is all that the
      catch-up needs. */
  lemma FirstSyncsServe(g: BlockTree, chain: Chain, synced: Table, start: nat, tableTip: nat, treeTip: nat,
                        roots: seq<WB.SubtreeRoot>, limit: nat, fetch: nat -> Option<CompactBlock>, tree: CT.Tree,
                        top: nat)
    requires Sound(chain, g.heightOf, top) && Synced(chain, synced, start, tableTip) && tableTip <= top
    requires forall h :: fetch(h).Some? ==> fetch(h).value == chain(h)
    requires WB.PrepareTree(roots, treeTip, limit, fetch).Ok? && treeTip <= top
    requires WB.PrepareTree(roots, treeTip, limit, fetch).value.syncFrom <= treeTip
    requires var p := WB.PrepareTree(roots, treeTip, limit, fetch).value;
             WB.Sync(p.tree, p.initialTreeSize, GetBlockRange(chain, p.syncFrom, treeTip)) == WB.Ok(tree)
    ensures Serves(chain, EvictToTarget(synced), top) && TreeServes(chain, tree.blocks, top)
    ensures TreeHeight(tree) == treeTip
  {
    var p := WB.PrepareTree(roots, treeTip, limit, fetch).value;
    PreparedServes(chain, roots, treeTip, limit, fetch);
    SoundHeights(chain, g.heightOf, p.syncFrom, treeTip, top);
    SyncServes(chain, p.tree, p.initialTreeSize, p.syncFrom, treeTip, tree);
    HigherTop(chain, tree.blocks, treeTip, top);
    HigherTable(chain, synced, tableTip, top);
    EvictKeepsServing(chain, synced, top);
  }

  lemma HigherTable(chain: Chain, table: Table, tip: nat, top: nat)
    requires Serves(chain, table, tip) && tip <= top
    ensures Serves(chain, table, top)
  {
    forall h | h in Live(table)
      ensures h <= top && FromChain(chain, Live(table)[h], h)
    {
      assert h <= tip;
    }
  }

  /** From nothing to lockstep: when the first sync of the table, evicted to its target, and the windowed start of the
      tree with its sync end at one tip, the follow loop starts in lockstep from that tip, unless the tip alone
      exceeds the target. */
  lemma FirstStartInLockstep(g: BlockTree, chain: Chain, synced: Table, start: nat, tip: nat,
                             roots: seq<WB.SubtreeRoot>, limit: nat, fetch: nat -> Option<CompactBlock>, tree: CT.Tree)
    requires Sound(chain, g.heightOf, tip) && 1 <= start <= tip && Synced(chain, synced, start, tip)
    requires forall h :: fetch(h).Some? ==> fetch(h).value == chain(h)
    requires WB.PrepareTree(roots, tip, limit, fetch).Ok?
    requires WB.PrepareTree(roots, tip, limit, fetch).value.syncFrom <= tip
    requires var p := WB.PrepareTree(roots, tip, limit, fetch).value;
             WB.Sync(p.tree, p.initialTreeSize, GetBlockRange(chain, p.syncFrom, tip)) == WB.Ok(tree)
    ensures Inv(synced)
    ensures Lockstep(g, StartState(tree, EvictToTarget(synced))) <==> BlockCount(chain, tip) <= TARGET_SIZE
    ensures BlockCount(chain, tip) <= TARGET_SIZE ==>
              TableTip(EvictToTarget(synced)) == Link(tip, ToHashArray(chain(tip).hash))
  {
    FirstSyncsServe(g, chain, synced, start, tip, tip, roots, limit, fetch, tree, tip);
    assert tip in synced.blockIndex;
    EvictedStart(g, chain, tree, synced, tip);
  }

  lemma EvictedStart(g: BlockTree, chain: Chain, tree: CT.Tree, synced: Table, tip: nat)
    requires Sound(chain, g.heightOf, tip) && Serves(chain, synced, tip) && tip in synced.blockIndex && tip >= 1
    requires TreeServes(chain, tree.blocks, tip) && TreeHeight(tree) == tip
    ensures Lockstep(g, StartState(tree, EvictToTarget(synced))) <==> BlockCount(chain, tip) <= TARGET_SIZE
    ensures BlockCount(chain, tip) <= TARGET_SIZE ==>
              TableTip(EvictToTarget(synced)) == Link(tip, ToHashArray(chain(tip).hash))
  {
    var u := EvictToTarget(synced);
    StoredCount(chain, synced, tip, tip);
    NoneAboveTop(chain, synced, tip);
    NewestSurvives(synced, tip);
    EvictKeepsServing(chain, synced, tip);
    StartIff(g, chain, tree, u, tip, tip);
    if tip in u.blockIndex {
      TableHash(chain, u, tip, tip);
      NewestIsTip(chain, u, tip);
    }
  }

  lemma NoneAboveTop(chain: Chain, t: Table, top: nat)
    requires Serves(chain, t, top)
    ensures NoneAbove(t, top)
  {
    assert forall h :: h in t.blockIndex ==> h in Live(t);
  }
}
