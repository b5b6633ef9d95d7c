/** Tracker, tree and table stay in step. */
module FollowLockstep {
  import opened Bytes
  import opened SpendTypes
  import opened NullifierTable
  import opened NullifierRemoval
  import opened Parsers
  import opened ChainTracker
  import opened FollowLoop
  import CT = CommitmentTree

  // ----- Invariant

  predicate Matches(l: Link, r: CT.BlockRecord) {
    l.height == r.height && l.hash == r.hash
  }

  // The window is the end of the tree's block list.
  ghost predicate SuffixOf(chain: seq<Link>, blocks: seq<CT.BlockRecord>) {
    && |chain| <= |blocks|
    && forall i :: 0 <= i < |chain| ==> Matches(chain[i], blocks[|blocks| - |chain| + i])
  }

  ghost predicate Increasing(blocks: seq<CT.BlockRecord>) {
    forall i, j :: 0 <= i < j < |blocks| ==> blocks[i].height < blocks[j].height
  }

  ghost predicate TreeHeights(g: BlockTree, blocks: seq<CT.BlockRecord>) {
    forall i :: 0 <= i < |blocks| ==> blocks[i].height == g.heightOf(blocks[i].hash)
  }

  ghost predicate TableHeights(g: BlockTree, index: map<nat, BlockRecord>) {
    forall h :: h in index ==> h == g.heightOf(index[h].blockHash)
  }

  // Where table and tree both have a block of some height, it is the same block.
  ghost predicate Agree(index: map<nat, BlockRecord>, blocks: seq<CT.BlockRecord>) {
    forall i :: 0 <= i < |blocks| && blocks[i].height in index ==> index[blocks[i].height].blockHash == blocks[i].hash
  }

  function Tip(s: State): Link
    requires s.chain != []
  {
    s.chain[|s.chain| - 1]
  }

  ghost predicate TreeInStep(g: BlockTree, chain: seq<Link>, blocks: seq<CT.BlockRecord>) {
    && Window(g, chain) && AboveGround(chain) && 1 <= |chain| <= MAX_DEPTH
    && SuffixOf(chain, blocks) && Increasing(blocks) && TreeHeights(g, blocks)
  }

  ghost predicate TableInStep(g: BlockTree, t: Table, blocks: seq<CT.BlockRecord>, tip: nat) {
    && Inv(t) && TableHeights(g, t.blockIndex) && Agree(t.blockIndex, blocks)
    && forall h :: h in t.blockIndex ==> h <= tip
  }

  /** The tracker's window is a suffix of the tree's blocks, whose heights strictly increase; table and tree agree
      on every height both retain; and nothing is above the tip, which is where the loop stands. */
  ghost predicate Lockstep(g: BlockTree, s: State) {
    && TreeInStep(g, s.chain, s.tree.blocks)
    && TableInStep(g, s.table, s.tree.blocks, Tip(s).height)
    && s.currentHeight == Tip(s).height
  }

  /** The loop starts in lockstep when both databases end at the same block, from which the tracker starts. */
  lemma StartsInLockstep(g: BlockTree, tree: CT.Tree, table: Table, tip: Link, prevTreeSize: Option<u32>)
    requires tree.blocks != [] && Increasing(tree.blocks) && TreeHeights(g, tree.blocks)
    requires Inv(table) && TableHeights(g, table.blockIndex) && Agree(table.blockIndex, tree.blocks)
    requires tip.height >= 1 && LatestOf(table.blockIndex) == Some((tip.height, tip.hash))
    requires tree.LatestHeight() == Some(tip.height) && tree.LatestBlockHash() == Some(tip.hash)
    ensures Lockstep(g, State([tip], tree, table, tip.height, prevTreeSize))
  {
    var s := State([tip], tree, table, tip.height, prevTreeSize);
    assert Matches(s.chain[0], s.tree.blocks[|s.tree.blocks| - 1]);
  }

  // A block of the block tree with real nullifiers, not below the tracker's window. Blocks delivered in
  // ascending order above the current height always qualify.
  ghost predicate Delivered(g: BlockTree, s: State, b: CompactBlock) {
    && Genuine(g, HeaderOf(b)) && NonZero(MetasFor(b, s.prevTreeSize))
    && (s.chain != [] ==> b.height >= s.chain[0].height)
  }

  // ----- Tracker and tree

  lemma {:induction false} KeepUpToCut(blocks: seq<CT.BlockRecord>, target: nat, n: nat)
    requires Increasing(blocks) && n <= |blocks|
    requires forall i :: 0 <= i < n ==> blocks[i].height <= target
    requires forall i :: n <= i < |blocks| ==> blocks[i].height > target
    ensures CT.KeepUpTo(blocks, target) == blocks[..n]
    decreases |blocks|
  {
    if n < |blocks| {
      assert blocks[..|blocks| - 1][..n] == blocks[..n];
      KeepUpToCut(blocks[..|blocks| - 1], target, n);
    } else {
      assert blocks[..n] == blocks;
    }
  }

  lemma KeptBelow(blocks: seq<CT.BlockRecord>, n: nat, h: nat)
    requires Increasing(blocks) && n <= |blocks| && (n > 0 ==> blocks[n - 1].height < h)
    ensures forall i :: 0 <= i < n ==> blocks[i].height < h
  {
  }

  // The first k links and the blocks that go with them, each followed by the new block.
  lemma SuffixSnoc(chain: seq<Link>, blocks: seq<CT.BlockRecord>, k: nat, l: Link, r: CT.BlockRecord)
    requires SuffixOf(chain, blocks) && k <= |chain| && Matches(l, r)
    ensures SuffixOf(chain[..k] + [l], blocks[..|blocks| - |chain| + k] + [r])
  {
    var c, bs := chain[..k] + [l], blocks[..|blocks| - |chain| + k] + [r];
    forall i | 0 <= i < |c|
      ensures Matches(c[i], bs[|bs| - |c| + i])
    {
      if i < k {
        assert Matches(chain[i], blocks[|blocks| - |chain| + i]);
      }
    }
  }

  lemma SuffixTail(chain: seq<Link>, blocks: seq<CT.BlockRecord>)
    requires SuffixOf(chain, blocks) && chain != []
    ensures SuffixOf(chain[1..], blocks)
  {
    forall i | 0 <= i < |chain| - 1
      ensures Matches(chain[1..][i], blocks[|blocks| - (|chain| - 1) + i])
    {
      assert Matches(chain[i + 1], blocks[|blocks| - |chain| + (i + 1)]);
    }
  }

  function BlocksBase(chain: seq<Link>, blocks: seq<CT.BlockRecord>, hdr: Header): seq<CT.BlockRecord> {
    match Push(chain, MAX_DEPTH, hdr).1
    case Extend => blocks
    case Reorg(target) => CT.KeepUpTo(blocks, target)
  }

  // The first n blocks stay, all below the new one, and the window after the push ends the blocks after it.
  ghost predicate BaseIs(chain: seq<Link>, blocks: seq<CT.BlockRecord>, hdr: Header, r: CT.BlockRecord, n: nat) {
    && n <= |blocks| && BlocksBase(chain, blocks, hdr) == blocks[..n]
    && (forall i :: 0 <= i < n ==> blocks[i].height < hdr.height)
    && SuffixOf(Push(chain, MAX_DEPTH, hdr).0, blocks[..n] + [r])
  }

  lemma ReorgBase(chain: seq<Link>, blocks: seq<CT.BlockRecord>, hdr: Header, r: CT.BlockRecord, n: nat,
                  kept: seq<Link>, target: nat)
    requires Push(chain, MAX_DEPTH, hdr) == (kept, Reorg(target)) && n <= |blocks|
    requires CT.KeepUpTo(blocks, target) == blocks[..n]
    requires forall i :: 0 <= i < n ==> blocks[i].height < hdr.height
    requires SuffixOf(kept, blocks[..n] + [r])
    ensures BaseIs(chain, blocks, hdr, r, n)
  {
  }

  lemma {:induction false} InsideBlocks(g: BlockTree, chain: seq<Link>, blocks: seq<CT.BlockRecord>, hdr: Header,
                                        k: nat)
    requires TreeInStep(g, chain, blocks) && Genuine(g, hdr) && k < |chain| - 1 && chain[k].hash == hdr.prevHash
    ensures var n := |blocks| - |chain| + k + 1;
            && CT.KeepUpTo(blocks, chain[k].height) == blocks[..n]
            && forall i :: 0 <= i < n ==> blocks[i].height < hdr.height
  {
    var n := |blocks| - |chain| + k + 1;
    assert Matches(chain[k], blocks[|blocks| - |chain| + k]);
    KeepUpToCut(blocks, chain[k].height, n);
    KeptBelow(blocks, n, hdr.height);
  }

  lemma {:induction false} InsideCase(g: BlockTree, chain: seq<Link>, blocks: seq<CT.BlockRecord>, hdr: Header, k: nat,
                                      r: CT.BlockRecord)
    requires TreeInStep(g, chain, blocks) && Genuine(g, hdr) && Matches(Link(hdr.height, hdr.hash), r)
    requires k < |chain| - 1 && chain[k].hash == hdr.prevHash
    ensures BaseIs(chain, blocks, hdr, r, |blocks| - |chain| + k + 1)
  {
    ReorgInsideWindow(g, chain, MAX_DEPTH, hdr, k);
    InsideBlocks(g, chain, blocks, hdr, k);
    SuffixSnoc(chain, blocks, k + 1, Link(hdr.height, hdr.hash), r);
    ReorgBase(chain, blocks, hdr, r, |blocks| - |chain| + k + 1, chain[..k + 1] + [Link(hdr.height, hdr.hash)],
        chain[k].height);
  }

  lemma SuffixOne(blocks: seq<CT.BlockRecord>, l: Link, r: CT.BlockRecord)
    requires Matches(l, r)
    ensures SuffixOf([l], blocks + [r])
  {
  }

  lemma {:induction false} OutsideBlocks(g: BlockTree, chain: seq<Link>, blocks: seq<CT.BlockRecord>, h: nat)
    requires TreeInStep(g, chain, blocks) && h >= chain[0].height
    ensures CT.KeepUpTo(blocks, chain[0].height - 1) == blocks[..|blocks| - |chain|]
    ensures forall i :: 0 <= i < |blocks| - |chain| ==> blocks[i].height < h
  {
    var n := |blocks| - |chain|;
    assert Matches(chain[0], blocks[|blocks| - |chain| + 0]);
    KeepUpToCut(blocks, chain[0].height - 1, n);
    KeptBelow(blocks, n, h);
  }

  lemma ExtendSuffix(chain: seq<Link>, blocks: seq<CT.BlockRecord>, l: Link, r: CT.BlockRecord)
    requires SuffixOf(chain, blocks) && Matches(l, r)
    ensures SuffixOf(chain + [l], blocks + [r]) && SuffixOf((chain + [l])[1..], blocks + [r])
  {
    SuffixSnoc(chain, blocks, |chain|, l, r);
    assert chain[..|chain|] == chain && blocks[..|blocks|] == blocks;
    SuffixTail(chain + [l], blocks + [r]);
  }

  lemma {:induction false} TipBelow(g: BlockTree, chain: seq<Link>, blocks: seq<CT.BlockRecord>, h: nat)
    requires TreeInStep(g, chain, blocks) && chain[|chain| - 1].height < h
    ensures forall i :: 0 <= i < |blocks| ==> blocks[i].height < h
  {
    assert Matches(chain[|chain| - 1], blocks[|blocks| - |chain| + (|chain| - 1)]);
    KeptBelow(blocks, |blocks|, h);
  }

  lemma {:induction false} ExtendCase(g: BlockTree, chain: seq<Link>, blocks: seq<CT.BlockRecord>, hdr: Header,
                                      r: CT.BlockRecord)
    requires TreeInStep(g, chain, blocks) && Genuine(g, hdr) && Matches(Link(hdr.height, hdr.hash), r)
    requires hdr.prevHash == chain[|chain| - 1].hash
    ensures BaseIs(chain, blocks, hdr, r, |blocks|)
  {
    ExtendsIffChild(g, chain, MAX_DEPTH, hdr);
    TipBelow(g, chain, blocks, hdr.height);
    ExtendSuffix(chain, blocks, Link(hdr.height, hdr.hash), r);
    assert blocks[..|blocks|] == blocks;
  }

  function RecordFor(b: CompactBlock): CT.BlockRecord {
    CT.BlockRecord(b.height, ToHashArray(b.hash), AsU32(|CommitmentsOf(b.vtx)|))
  }

  // Three cases of a push, seen from the tree: what stays is a prefix, all of it below the new block.
  lemma {:induction false} OutsideCase(g: BlockTree, chain: seq<Link>, blocks: seq<CT.BlockRecord>, hdr: Header,
                                       r: CT.BlockRecord)
    requires TreeInStep(g, chain, blocks) && Genuine(g, hdr) && Matches(Link(hdr.height, hdr.hash), r)
    requires hdr.height >= chain[0].height
    requires forall k :: 0 <= k < |chain| ==> chain[k].hash != hdr.prevHash
    ensures BaseIs(chain, blocks, hdr, r, |blocks| - |chain|)
  {
    var n := |blocks| - |chain|;
    ReorgOutsideWindow(g, chain, MAX_DEPTH, hdr);
    OutsideBlocks(g, chain, blocks, hdr.height);
    SuffixOne(blocks[..n], Link(hdr.height, hdr.hash), r);
    ReorgBase(chain, blocks, hdr, r, n, [Link(hdr.height, hdr.hash)], chain[0].height - 1);
  }

  lemma {:induction false} BlocksBaseIs(g: BlockTree, chain: seq<Link>, blocks: seq<CT.BlockRecord>, hdr: Header,
                                        r: CT.BlockRecord)
    returns (n: nat)
    requires TreeInStep(g, chain, blocks) && Genuine(g, hdr) && Matches(Link(hdr.height, hdr.hash), r)
    requires hdr.height >= chain[0].height
    ensures BaseIs(chain, blocks, hdr, r, n)
  {
    if hdr.prevHash == chain[|chain| - 1].hash {
      n := |blocks|;
      ExtendCase(g, chain, blocks, hdr, r);
    } else if k :| 0 <= k < |chain| - 1 && chain[k].hash == hdr.prevHash {
      n := |blocks| - |chain| + k + 1;
      InsideCase(g, chain, blocks, hdr, k, r);
    } else {
      n := |blocks| - |chain|;
      OutsideCase(g, chain, blocks, hdr, r);
    }
  }

  lemma TreeBaseIs(g: BlockTree, s: State, b: CompactBlock) returns (n: nat)
    requires TreeInStep(g, s.chain, s.tree.blocks) && Delivered(g, s, b)
    ensures n <= |s.tree.blocks| && TreeBase(s, b).blocks == s.tree.blocks[..n]
    ensures forall i :: 0 <= i < n ==> s.tree.blocks[i].height < b.height
    ensures SuffixOf(Push(s.chain, MAX_DEPTH, HeaderOf(b)).0, TreeBase(s, b).blocks + [RecordFor(b)])
  {
    n := BlocksBaseIs(g, s.chain, s.tree.blocks, HeaderOf(b), RecordFor(b));
  }

  lemma SnocIncreasing(g: BlockTree, blocks: seq<CT.BlockRecord>, r: CT.BlockRecord)
    requires Increasing(blocks) && TreeHeights(g, blocks) && r.height == g.heightOf(r.hash)
    requires forall i :: 0 <= i < |blocks| ==> blocks[i].height < r.height
    ensures Increasing(blocks + [r]) && TreeHeights(g, blocks + [r])
  {
  }

  lemma TreeStep(g: BlockTree, s: State, b: CompactBlock)
    requires TreeInStep(g, s.chain, s.tree.blocks) && Delivered(g, s, b) && Acceptable(s, b)
    ensures var u := Handle(s, b);
            && TreeInStep(g, u.chain, u.tree.blocks) && Tip(u) == Link(b.height, ToHashArray(b.hash))
  {
    PushKeepsWindow(g, s.chain, MAX_DEPTH, HeaderOf(b));
    var n := TreeBaseIs(g, s, b);
    SnocIncreasing(g, TreeBase(s, b).blocks, RecordFor(b));
  }

  // ----- Table

  // What is left of the table lies below the new block.
  lemma TableBaseBelow(g: BlockTree, s: State, b: CompactBlock)
    requires Lockstep(g, s) && Delivered(g, s, b)
    ensures forall h :: h in TableBase(s, b).blockIndex ==>
                          h in s.table.blockIndex && TableBase(s, b).blockIndex[h] == s.table.blockIndex[h]
                              && h < b.height
  {
    var action := Push(s.chain, MAX_DEPTH, HeaderOf(b)).1;
    if action.Reorg? {
      DropAboveKeeps(s.table, action.rollbackTo);
      ReorgTargetBelow(g, s.chain, HeaderOf(b));
    }
  }

  lemma ReorgTargetBelow(g: BlockTree, chain: seq<Link>, hdr: Header)
    requires Window(g, chain) && AboveGround(chain) && Genuine(g, hdr) && chain != [] && hdr.height >= chain[0].height
    requires Push(chain, MAX_DEPTH, hdr).1.Reorg?
    ensures Push(chain, MAX_DEPTH, hdr).1.rollbackTo < hdr.height
  {
    if k :| 0 <= k < |chain| - 1 && chain[k].hash == hdr.prevHash {
      ReorgInsideWindow(g, chain, MAX_DEPTH, hdr, k);
    } else {
      ReorgOutsideWindow(g, chain, MAX_DEPTH, hdr);
    }
  }

  /** A delivered block is always new to what is left of the table, by height and by hash. */
  lemma DeliveredIsAcceptable(g: BlockTree, s: State, b: CompactBlock)
    requires Lockstep(g, s) && Delivered(g, s, b)
    ensures Acceptable(s, b)
  {
    TableBaseBelow(g, s, b);
    var base := TableBase(s, b);
    forall x | x in base.blockHashToHeight
      ensures x != ToHashArray(b.hash)
    {
      var h := base.blockHashToHeight[x];
      assert h in base.blockIndex && base.blockIndex[h].blockHash == x;
    }
  }

  // Every block of the table after the step was in what was left, or is the new one.
  lemma TableAfterBlocks(s: State, b: CompactBlock, h: nat)
    requires Acceptable(s, b) && h in TableAfter(s, b).blockIndex
    ensures var t := TableAfter(s, b);
            || (h in TableBase(s, b).blockIndex && t.blockIndex[h] == TableBase(s, b).blockIndex[h])
            || (h == b.height && t.blockIndex[h].blockHash == ToHashArray(b.hash))
  {
    InsertInv(TableBase(s, b), b, s.prevTreeSize);
    var inserted := InsertBlock(TableBase(s, b), b, s.prevTreeSize).0;
    EvictedSubset(inserted, h);
  }

  lemma EvictedSubset(t: Table, h: nat)
    requires Inv(t)
    ensures h in EvictToTarget(t).blockIndex ==> h in t.blockIndex && EvictToTarget(t).blockIndex[h] == t.blockIndex[h]
  {
    var cut := EvictionMinimal(t);
  }

  lemma TableAfterRange(g: BlockTree, s: State, b: CompactBlock, h: nat)
    requires Lockstep(g, s) && Delivered(g, s, b) && Acceptable(s, b) && h in TableAfter(s, b).blockIndex
    ensures var t := TableAfter(s, b);
            && h == g.heightOf(t.blockIndex[h].blockHash) && h <= b.height
            && (h < b.height ==> h in s.table.blockIndex && t.blockIndex[h] == s.table.blockIndex[h])
            && (h == b.height ==> t.blockIndex[h].blockHash == ToHashArray(b.hash))
  {
    TableBaseBelow(g, s, b);
    TableAfterBlocks(s, b, h);
  }

  // Agreement survives a new block on top of a prefix of the tree.
  lemma AgreeStep(was: map<nat, BlockRecord>, now: map<nat, BlockRecord>, blocks: seq<CT.BlockRecord>, n: nat,
                  r: CT.BlockRecord)
    requires Agree(was, blocks) && n <= |blocks| && forall i :: 0 <= i < n ==> blocks[i].height < r.height
    requires forall h :: h in now && h < r.height ==> h in was && now[h] == was[h]
    requires r.height in now ==> now[r.height].blockHash == r.hash
    ensures Agree(now, blocks[..n] + [r])
  {
    var after := blocks[..n] + [r];
    forall i | 0 <= i < |after| && after[i].height in now
      ensures now[after[i].height].blockHash == after[i].hash
    {
      if i < n {
        assert after[i] == blocks[i];
      }
    }
  }

  lemma TableStep(g: BlockTree, s: State, b: CompactBlock)
    requires Lockstep(g, s) && Delivered(g, s, b) && Acceptable(s, b)
    ensures TableInStep(g, TableAfter(s, b), TreeBase(s, b).blocks + [RecordFor(b)], b.height)
  {
    var t := TableAfter(s, b);
    var n := TreeBaseIs(g, s, b);
    forall h | h in t.blockIndex
      ensures h == g.heightOf(t.blockIndex[h].blockHash) && h <= b.height
      ensures h < b.height ==> h in s.table.blockIndex && t.blockIndex[h] == s.table.blockIndex[h]
      ensures h == b.height ==> t.blockIndex[h].blockHash == ToHashArray(b.hash)
    {
      TableAfterRange(g, s, b, h);
    }
    AgreeStep(s.table.blockIndex, t.blockIndex, s.tree.blocks, n, RecordFor(b));
  }

  // ----- Main results

  /** Lockstep is kept by every block the loop handles: extensions, reorganisations inside the window and
      reorganisations past it, and inserts that overflow a bucket. */
  lemma HandleKeepsLockstep(g: BlockTree, s: State, b: CompactBlock)
    requires Lockstep(g, s) && Delivered(g, s, b)
    ensures Acceptable(s, b) && Lockstep(g, Handle(s, b))
    ensures Tip(Handle(s, b)) == Link(b.height, ToHashArray(b.hash))
  {
    DeliveredIsAcceptable(g, s, b);
    TreeStep(g, s, b);
    TableStep(g, s, b);
  }

  // ----- Runs

  // The loop goes from s to u with block b. (Handle is defined where Acceptable holds; Lockstep makes it hold.)
  ghost predicate Steps(s: State, b: CompactBlock, u: State) {
    Acceptable(s, b) ==> u == Handle(s, b)
  }

  ghost function Next(s: State, b: CompactBlock): State {
    if Acceptable(s, b) then Handle(s, b) else s
  }

  // The state after a batch.
  ghost function RunTo(s: State, bs: seq<CompactBlock>): State {
    if bs == [] then s else Next(RunTo(s, bs[..|bs| - 1]), bs[|bs| - 1])
  }

  lemma RunToNext(s: State, bs: seq<CompactBlock>, i: nat)
    requires i < |bs|
    ensures RunTo(s, bs[..i + 1]) == Next(RunTo(s, bs[..i]), bs[i])
  {
    assert bs[..i + 1][..i] == bs[..i];
  }

  /** The states after each block of a batch are a run of the loop. */
  lemma RunToFollows(s: State, bs: seq<CompactBlock>) returns (states: seq<State>)
    ensures Follows(states, bs) && states[0] == s && states[|bs|] == RunTo(s, bs)
  {
    states := seq(|bs| + 1, i requires 0 <= i <= |bs| => RunTo(s, bs[..i]));
    forall i | 0 <= i < |bs|
      ensures StepAt(states, bs, i)
    {
      RunToNext(s, bs, i);
    }
    assert bs[..|bs|] == bs;
  }

  // The states of the loop before and after each block.
  ghost predicate Follows(states: seq<State>, bs: seq<CompactBlock>) {
    |states| == |bs| + 1 && forall i :: 0 <= i < |bs| ==> StepAt(states, bs, i)
  }

  ghost predicate StepAt(states: seq<State>, bs: seq<CompactBlock>, i: nat)
    requires i < |bs| && i + 1 < |states|
  {
    Steps(states[i], bs[i], states[i + 1])
  }

  ghost predicate AllDelivered(g: BlockTree, states: seq<State>, bs: seq<CompactBlock>)
    requires |states| == |bs| + 1
  {
    forall i :: 0 <= i < |bs| ==> DeliveredAt(g, states, bs, i)
  }

  ghost predicate DeliveredAt(g: BlockTree, states: seq<State>, bs: seq<CompactBlock>, i: nat)
    requires i < |bs| && i < |states|
  {
    Delivered(g, states[i], bs[i])
  }

  // The state stands in lockstep, with block b as its tip.
  ghost predicate InStepAt(g: BlockTree, s: State, b: CompactBlock) {
    Lockstep(g, s) && Tip(s) == Link(b.height, ToHashArray(b.hash))
  }

  /** Lockstep over whole runs: it holds after every block, and the tip is the block just handled. */
  lemma {:induction false} RunKeepsLockstep(g: BlockTree, states: seq<State>, bs: seq<CompactBlock>, n: nat)
    requires Follows(states, bs) && Lockstep(g, states[0]) && AllDelivered(g, states, bs) && n <= |bs|
    ensures Lockstep(g, states[n]) && (n > 0 ==> InStepAt(g, states[n], bs[n - 1]))
    decreases n
  {
    if n > 0 {
      RunKeepsLockstep(g, states, bs, n - 1);
      assert DeliveredAt(g, states, bs, n - 1) && StepAt(states, bs, n - 1);
      HandleKeepsLockstep(g, states[n - 1], bs[n - 1]);
    }
  }

  ghost predicate RealNullifiers(b: CompactBlock) {
    forall prior :: NonZero(MetasFor(b, prior))
  }

  // The loop asks for heights above the one it stands at; blocks of the answer come in ascending order.
  ghost predicate Ascending(g: BlockTree, above: nat, bs: seq<CompactBlock>) {
    forall i :: 0 <= i < |bs| ==> AscendsAt(g, above, bs, i)
  }

  ghost predicate AscendsAt(g: BlockTree, above: nat, bs: seq<CompactBlock>, i: nat)
    requires i < |bs|
  {
    Genuine(g, HeaderOf(bs[i])) && RealNullifiers(bs[i]) && bs[i].height > (if i == 0 then above else bs[i - 1].height)
  }

  lemma NextIsDelivered(g: BlockTree, s: State, b: CompactBlock)
    requires Lockstep(g, s) && Genuine(g, HeaderOf(b)) && RealNullifiers(b) && b.height > s.currentHeight
    ensures Delivered(g, s, b)
  {
  }

  lemma NextAfter(g: BlockTree, s: State, last: CompactBlock, b: CompactBlock)
    requires InStepAt(g, s, last) && Genuine(g, HeaderOf(b)) && RealNullifiers(b) && b.height > last.height
    ensures Delivered(g, s, b)
  {
    NextIsDelivered(g, s, b);
  }

  /** Ascending delivery is all a run needs. */
  lemma {:induction false} AscendingIsDelivered(g: BlockTree, states: seq<State>, bs: seq<CompactBlock>, n: nat)
    requires Follows(states, bs) && Lockstep(g, states[0]) && Ascending(g, states[0].currentHeight, bs) && n < |bs|
    ensures Delivered(g, states[n], bs[n]) && InStepAt(g, states[n + 1], bs[n])
    decreases n
  {
    assert AscendsAt(g, states[0].currentHeight, bs, n) && StepAt(states, bs, n);
    if n > 0 {
      AscendingIsDelivered(g, states, bs, n - 1);
      NextAfter(g, states[n], bs[n - 1], bs[n]);
    } else {
      NextIsDelivered(g, states[0], bs[0]);
    }
    InStepIsLockstep(g, states, bs, n);
    StepIsInStep(g, states[n], bs[n], states[n + 1]);
  }

  lemma StepIsInStep(g: BlockTree, s: State, b: CompactBlock, u: State)
    requires Lockstep(g, s) && Delivered(g, s, b) && Steps(s, b, u)
    ensures InStepAt(g, u, b)
  {
    HandleKeepsLockstep(g, s, b);
  }

  lemma InStepIsLockstep(g: BlockTree, states: seq<State>, bs: seq<CompactBlock>, n: nat)
    requires n < |bs| < |states| && Lockstep(g, states[0]) && (n > 0 ==> InStepAt(g, states[n], bs[n - 1]))
    ensures Lockstep(g, states[n])
  {
  }
}
