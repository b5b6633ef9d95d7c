/** What one block of the follow loop does to the size and the heights of the table. */
module FollowTable {
  import opened Bytes
  import opened SpendTypes
  import opened NullifierTable
  import opened NullifierRemoval
  import opened Parsers
  import opened ChainTracker
  import opened FollowLoop
  import opened FollowLockstep

  // ----- Inserting

  // The table with the block inserted, as far as it fits, and whether it is recorded.
  function Inserted(t: Table, b: CompactBlock, prior: Option<u32>): Table
    requires Shaped(t.buckets)
  {
    InsertBlock(t, b, prior).0
  }

  predicate Recorded(t: Table, b: CompactBlock, prior: Option<u32>)
    requires Shaped(t.buckets)
  {
    InsertBlock(t, b, prior).1.Ok?
  }

  // A block that the table does not have, with real nullifiers.
  ghost predicate IsNew(t: Table, b: CompactBlock, prior: Option<u32>) {
    Inv(t) && NonZero(MetasFor(b, prior)) && b.height !in t.blockIndex && ToHashArray(b.hash) !in t.blockHashToHeight
  }

  // The same records, and the new one if it is recorded.
  ghost predicate GainsHeight(was: map<nat, BlockRecord>, now: map<nat, BlockRecord>, h: nat, recorded: bool) {
    && now.Keys == was.Keys + (if recorded then {h} else {})
    && forall k :: k in was ==> now[k] == was[k]
  }

  lemma OkInsert(t: Table, height: nat, hash: Hash, nfs: seq<NullifierWithMeta>, u: Table)
    requires Inv(t) && NonZero(nfs) && height !in t.blockIndex && hash !in t.blockHashToHeight
    requires Insert(t, height, hash, nfs) == (u, Result.Ok)
    ensures Inv(u) && GainsHeight(t.blockIndex, u.blockIndex, height, true)
    ensures u.numEntries == t.numEntries + |nfs| && (Clean(t) ==> Clean(u))
  {
    InsertAddsBlock(t, height, hash, nfs);
    var record :| u.blockIndex == t.blockIndex[height := record];
  }

  lemma FailedInsert(t: Table, height: nat, hash: Hash, nfs: seq<NullifierWithMeta>, u: Table, r: Result)
    requires Inv(t) && NonZero(nfs) && Insert(t, height, hash, nfs) == (u, r) && r.Err?
    ensures Inv(u) && u.blockIndex == t.blockIndex && u.numEntries <= t.numEntries + |nfs|
  {
    FailedInsertInv(t, height, hash, nfs);
    PlaceAllOk(t.buckets, nfs, height);
  }

  // The other records stay, and at most the block's own nullifiers are added.
  lemma InsertedTable(t: Table, b: CompactBlock, prior: Option<u32>)
    requires IsNew(t, b, prior)
    ensures var u, recorded := Inserted(t, b, prior), Recorded(t, b, prior);
            && Inv(u) && GainsHeight(t.blockIndex, u.blockIndex, b.height, recorded)
            && u.numEntries <= t.numEntries + |MetasFor(b, prior)|
            && (recorded ==> u.numEntries == t.numEntries + |MetasFor(b, prior)|)
            && (recorded && Clean(t) ==> Clean(u))
  {
    var u, r := InsertBlock(t, b, prior).0, InsertBlock(t, b, prior).1;
    if r.Ok? {
      OkInsert(t, b.height, ToHashArray(b.hash), MetasFor(b, prior), u);
    } else {
      FailedInsert(t, b.height, ToHashArray(b.hash), MetasFor(b, prior), u, r);
    }
  }

  // ----- Evicting

  // Heights from the cut on, of the old table and the new block.
  ghost predicate HeightsFrom(was: map<nat, BlockRecord>, now: map<nat, BlockRecord>, cut: nat, h: nat, recorded: bool)
  {
    forall k: nat :: k in now <==> cut <= k && (k in was || (recorded && k == h))
  }

  // Heights up to the target, of the old table, and the new block.
  ghost predicate HeightsUpTo(was: map<nat, BlockRecord>, now: map<nat, BlockRecord>, target: nat, h: nat,
                              recorded: bool)
  {
    forall k: nat :: k in now <==> (k in was && k <= target) || (recorded && k == h)
  }

  // The records that both tables have are the same.
  ghost predicate SameRecords(was: map<nat, BlockRecord>, now: map<nat, BlockRecord>, h: nat) {
    forall k :: k in now && k != h ==> k in was && now[k] == was[k]
  }

  // Keeping any block below the cut as well would have left more entries than the target.
  ghost predicate NoLowerCut(t: Table, now: map<nat, BlockRecord>, cut: nat) {
    forall c: nat :: c < cut ==> CountFrom(t.blockIndex, t.numEntries, c) > 1_000_000 || From(t.blockIndex, c) == now
  }

  lemma EvictedTable(t: Table) returns (cut: nat)
    requires Inv(t)
    ensures EvictToTarget(t).blockIndex == From(t.blockIndex, cut) && NoLowerCut(t, EvictToTarget(t).blockIndex, cut)
    ensures EvictToTarget(t).numEntries <= 1_000_000 || EvictToTarget(t).blockIndex == map[]
  {
    EvictionMeets(t);
    cut := EvictionMinimal(t);
  }

  // Of what eviction cannot take, nothing but the leaks of this insert is left.
  lemma EvictedBound(t: Table, u: Table, added: nat)
    requires Inv(t) && Clean(t) && Inv(u)
    requires u.blockIndex == t.blockIndex && u.numEntries <= t.numEntries + added && added <= 1_000_000
    ensures EvictToTarget(u).numEntries <= 1_000_000
  {
    EvictionMeets(u);
    EvictionKeepsLater(u);
    CountIsSum(t);
  }

  // ----- One block

  lemma ChildExtends(g: BlockTree, s: State, b: CompactBlock)
    requires Lockstep(g, s) && Delivered(g, s, b)
    ensures Push(s.chain, MAX_DEPTH, HeaderOf(b)).1.Extend? <==> ToHashArray(b.prevHash) == Tip(s).hash
    ensures Acceptable(s, b)
    ensures ToHashArray(b.prevHash) == Tip(s).hash ==> IsNew(s.table, b, s.prevTreeSize)
  {
    ExtendsIffChild(g, s.chain, MAX_DEPTH, HeaderOf(b));
    DeliveredIsAcceptable(g, s, b);
  }

  // What an extending block leaves of the table: recent blocks, within the target.
  ghost predicate ExtendedTo(s: State, b: CompactBlock, u: Table, cut: nat)
    requires Shaped(s.table.buckets)
  {
    var recorded := Recorded(s.table, b, s.prevTreeSize);
    && (u.numEntries <= 1_000_000 || u.blockIndex == map[])
    && (Clean(s.table) && (recorded || |MetasFor(b, s.prevTreeSize)| <= 1_000_000) ==> u.numEntries <= 1_000_000)
    && HeightsFrom(s.table.blockIndex, u.blockIndex, cut, b.height, recorded)
    && SameRecords(s.table.blockIndex, u.blockIndex, b.height)
    && NoLowerCut(Inserted(s.table, b, s.prevTreeSize), u.blockIndex, cut)
  }

  lemma HeightsCut(was: map<nat, BlockRecord>, grown: map<nat, BlockRecord>, now: map<nat, BlockRecord>, cut: nat,
                   h: nat, recorded: bool)
    requires GainsHeight(was, grown, h, recorded) && now == From(grown, cut)
    ensures HeightsFrom(was, now, cut, h, recorded) && SameRecords(was, now, h)
  {
  }

  lemma EvictedAfterInsert(t: Table, b: CompactBlock, prior: Option<u32>) returns (cut: nat)
    requires IsNew(t, b, prior)
    ensures Inv(Inserted(t, b, prior))
    ensures var u := EvictToTarget(Inserted(t, b, prior));
            && (u.numEntries <= 1_000_000 || u.blockIndex == map[])
            && HeightsFrom(t.blockIndex, u.blockIndex, cut, b.height, Recorded(t, b, prior))
            && SameRecords(t.blockIndex, u.blockIndex, b.height)
            && NoLowerCut(Inserted(t, b, prior), u.blockIndex, cut)
  {
    InsertedTable(t, b, prior);
    cut := EvictedTable(Inserted(t, b, prior));
    HeightsCut(t.blockIndex, Inserted(t, b, prior).blockIndex, EvictToTarget(Inserted(t, b, prior)).blockIndex, cut,
               b.height, Recorded(t, b, prior));
  }

  lemma InsertedBound(t: Table, b: CompactBlock, prior: Option<u32>)
    requires IsNew(t, b, prior) && Clean(t) && (Recorded(t, b, prior) || |MetasFor(b, prior)| <= 1_000_000)
    ensures Inv(Inserted(t, b, prior)) && EvictToTarget(Inserted(t, b, prior)).numEntries <= 1_000_000
  {
    InsertedTable(t, b, prior);
    if Recorded(t, b, prior) {
      CleanFits(Inserted(t, b, prior));
    } else {
      EvictedBound(t, Inserted(t, b, prior), |MetasFor(b, prior)|);
    }
  }

  /** An extending block keeps the table within its target. What stays are the blocks from some height on, the new
      one among them if it fitted, unchanged; and keeping any lower block would have exceeded the target. Only
      leaked entries can exceed it, and then no block is left. */
  lemma ExtendingBlock(g: BlockTree, s: State, b: CompactBlock) returns (cut: nat)
    requires Lockstep(g, s) && Delivered(g, s, b) && ToHashArray(b.prevHash) == Tip(s).hash
    ensures Acceptable(s, b) && ExtendedTo(s, b, Handle(s, b).table, cut)
  {
    ChildExtends(g, s, b);
    cut := EvictedAfterInsert(s.table, b, s.prevTreeSize);
    if Clean(s.table) && (Recorded(s.table, b, s.prevTreeSize) || |MetasFor(b, s.prevTreeSize)| <= 1_000_000) {
      InsertedBound(s.table, b, s.prevTreeSize);
    }
  }

  // What a reorganising block leaves of the table: the blocks up to the target and its own, and nothing evicted.
  ghost predicate ReorganisedTo(s: State, b: CompactBlock, u: Table, target: nat)
    requires Inv(s.table)
  {
    var base := DropAbove(s.table, target);
    var recorded := Recorded(base, b, s.prevTreeSize);
    && HeightsUpTo(s.table.blockIndex, u.blockIndex, target, b.height, recorded)
    && SameRecords(s.table.blockIndex, u.blockIndex, b.height)
    && u.numEntries <= base.numEntries + |MetasFor(b, s.prevTreeSize)|
    && (recorded ==> u.numEntries == base.numEntries + |MetasFor(b, s.prevTreeSize)|)
  }

  lemma HeightsAfter(was: map<nat, BlockRecord>, base: map<nat, BlockRecord>, now: map<nat, BlockRecord>, target: nat,
                     h: nat, recorded: bool)
    requires base == UpTo(was, target) && GainsHeight(base, now, h, recorded)
    ensures HeightsUpTo(was, now, target, h, recorded) && SameRecords(was, now, h)
  {
  }

  lemma ReplacedAfterRollback(t: Table, target: nat, b: CompactBlock, prior: Option<u32>)
    requires Inv(t) && IsNew(DropAbove(t, target), b, prior)
    ensures var base := DropAbove(t, target);
            var u, recorded := Inserted(base, b, prior), Recorded(base, b, prior);
            && HeightsUpTo(t.blockIndex, u.blockIndex, target, b.height, recorded)
            && SameRecords(t.blockIndex, u.blockIndex, b.height)
            && u.numEntries <= base.numEntries + |MetasFor(b, prior)|
            && (recorded ==> u.numEntries == base.numEntries + |MetasFor(b, prior)|)
  {
    var base := DropAbove(t, target);
    DropAboveKeeps(t, target);
    InsertedTable(base, b, prior);
    HeightsAfter(t.blockIndex, base.blockIndex, Inserted(base, b, prior).blockIndex, target, b.height,
                 Recorded(base, b, prior));
  }

  /** A reorganising block rolls the table back below the tip, to the height that the tracker names, and adds its
      own nullifiers. Nothing is evicted. */
  lemma ReorganisingBlock(g: BlockTree, s: State, b: CompactBlock) returns (target: nat)
    requires Lockstep(g, s) && Delivered(g, s, b) && ToHashArray(b.prevHash) != Tip(s).hash
    ensures Push(s.chain, MAX_DEPTH, HeaderOf(b)).1 == Reorg(target) && target < Tip(s).height
    ensures Acceptable(s, b) && ReorganisedTo(s, b, Handle(s, b).table, target)
  {
    ChildExtends(g, s, b);
    target := Push(s.chain, MAX_DEPTH, HeaderOf(b)).1.rollbackTo;
    TargetBelowTip(g, s.chain, HeaderOf(b));
    ReplacedAfterRollback(s.table, target, b, s.prevTreeSize);
  }

  lemma TargetBelowTip(g: BlockTree, chain: seq<Link>, hdr: Header)
    requires Window(g, chain) && AboveGround(chain) && chain != [] && Genuine(g, hdr)
    requires Push(chain, MAX_DEPTH, hdr).1.Reorg?
    ensures Push(chain, MAX_DEPTH, hdr).1.rollbackTo < chain[|chain| - 1].height
  {
    ExtendsIffChild(g, chain, MAX_DEPTH, hdr);
    if k :| 0 <= k < |chain| - 1 && chain[k].hash == hdr.prevHash {
      ReorgInsideWindow(g, chain, MAX_DEPTH, hdr, k);
    } else {
      ReorgOutsideWindow(g, chain, MAX_DEPTH, hdr);
    }
  }
}
