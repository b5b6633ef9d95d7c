/** Which blocks the follow loop keeps, and which are gone for good. */
module FollowGaps {
  import opened Bytes
  import opened Parsers
  import opened ChainTracker
  import opened FollowLoop
  import opened FollowLockstep
  import WB = WindowBootstrap
  import CT = CommitmentTree

  // ----- One block at the next height

  lemma HandleTree(s: State, b: CompactBlock)
    requires Acceptable(s, b)
    ensures Handle(s, b).chain == Push(s.chain, MAX_DEPTH, HeaderOf(b)).0
    ensures Handle(s, b).tree.blocks == BlocksBase(s.chain, s.tree.blocks, HeaderOf(b)) + [RecordFor(b)]
  {
  }

  lemma {:induction false} NextBase(g: BlockTree, chain: seq<Link>, blocks: seq<CT.BlockRecord>, hdr: Header)
    requires TreeInStep(g, chain, blocks) && Genuine(g, hdr) && hdr.height == chain[|chain| - 1].height + 1
    ensures BlocksBase(chain, blocks, hdr)
            == if hdr.prevHash == chain[|chain| - 1].hash then blocks else blocks[..|blocks| - |chain|]
  {
    ExtendsIffChild(g, chain, MAX_DEPTH, hdr);
    if hdr.prevHash != chain[|chain| - 1].hash {
      NextHeightNeverFindsFork(g, chain, MAX_DEPTH, hdr);
      OutsideBlocks(g, chain, blocks, hdr.height);
    }
  }

  // The tree's blocks after the next height: all of them and the new one, or only those below the window.
  lemma NextBlocks(g: BlockTree, s: State, b: CompactBlock)
    requires Lockstep(g, s) && Delivered(g, s, b) && b.height == s.currentHeight + 1
    ensures Acceptable(s, b) && Lockstep(g, Handle(s, b))
    ensures Handle(s, b).tree.blocks
            == (if ToHashArray(b.prevHash) == Tip(s).hash then s.tree.blocks
                else s.tree.blocks[..|s.tree.blocks| - |s.chain|]) + [RecordFor(b)]
  {
    HandleKeepsLockstep(g, s, b);
    HandleTree(s, b);
    NextBase(g, s.chain, s.tree.blocks, HeaderOf(b));
  }

  // A child of the tip is appended to the tree as it is.
  lemma ChildAppends(g: BlockTree, s: State, b: CompactBlock)
    requires Lockstep(g, s) && Delivered(g, s, b) && Acceptable(s, b) && ToHashArray(b.prevHash) == Tip(s).hash
    ensures Handle(s, b).tree == CT.Append(s.tree, b.height, ToHashArray(b.hash), CommitmentsOf(b.vtx))
  {
    ExtendsIffChild(g, s.chain, MAX_DEPTH, HeaderOf(b));
  }

  /** A loop that asks for the next height keeps every block it has recorded exactly when the answer is a child of
      its tip. Otherwise it drops the whole window of its tracker, at least one block. */
  lemma KeepsBlocksIff(g: BlockTree, s: State, b: CompactBlock)
    requires Lockstep(g, s) && Delivered(g, s, b) && b.height == s.currentHeight + 1
    ensures Acceptable(s, b)
    ensures s.tree.blocks <= Handle(s, b).tree.blocks <==> ToHashArray(b.prevHash) == Tip(s).hash
    ensures ToHashArray(b.prevHash) != Tip(s).hash ==>
              |Handle(s, b).tree.blocks| == |s.tree.blocks| - |s.chain| + 1 <= |s.tree.blocks|
  {
    var kept, after := NextCut(g, s, b);
    NextBlocksAt(g, s, b, kept, after);
    KeepsIff(s.tree.blocks, kept, after, RecordFor(b), ToHashArray(b.prevHash) == Tip(s).hash);
  }

  // Where the window begins in the tree's blocks.
  lemma NextCut(g: BlockTree, s: State, b: CompactBlock) returns (kept: nat, after: seq<CT.BlockRecord>)
    requires Lockstep(g, s) && Delivered(g, s, b) && b.height == s.currentHeight + 1
    ensures kept == |s.tree.blocks| - |s.chain| < |s.tree.blocks| && s.tree.blocks[kept].height < RecordFor(b).height
    ensures Acceptable(s, b) && after == Handle(s, b).tree.blocks
  {
    WindowBelowTip(g, s);
    NextBlocks(g, s, b);
    kept, after := |s.tree.blocks| - |s.chain|, Handle(s, b).tree.blocks;
  }

  lemma NextBlocksAt(g: BlockTree, s: State, b: CompactBlock, kept: nat, after: seq<CT.BlockRecord>)
    requires Lockstep(g, s) && Delivered(g, s, b) && b.height == s.currentHeight + 1
    requires kept == |s.tree.blocks| - |s.chain| && Acceptable(s, b) && after == Handle(s, b).tree.blocks
    ensures after == (if ToHashArray(b.prevHash) == Tip(s).hash then s.tree.blocks else s.tree.blocks[..kept])
                     + [RecordFor(b)]
  {
    NextBlocks(g, s, b);
  }

  lemma WindowBelowTip(g: BlockTree, s: State)
    requires Lockstep(g, s)
    ensures 1 <= |s.chain| <= |s.tree.blocks|
    ensures s.tree.blocks[|s.tree.blocks| - |s.chain|].height <= s.currentHeight
  {
    assert Matches(s.chain[0], s.tree.blocks[|s.tree.blocks| - |s.chain| + 0]);
  }

  lemma KeepsIff(blocks: seq<CT.BlockRecord>, kept: nat, after: seq<CT.BlockRecord>, r: CT.BlockRecord, child: bool)
    requires kept < |blocks| && blocks[kept].height < r.height
    requires after == (if child then blocks else blocks[..kept]) + [r]
    ensures blocks <= after <==> child
    ensures !child ==> |after| == kept + 1 <= |blocks|
  {
    if !child {
      assert after[kept] == r;
    }
  }

  // ----- Consecutive heights

  ghost predicate Consecutive(above: nat, bs: seq<CompactBlock>) {
    forall i :: 0 <= i < |bs| ==> bs[i].height == above + 1 + i
  }

  // The parent of the first block is the tip, and each other block's parent is the one before it.
  predicate Chained(tip: Hash, bs: seq<CompactBlock>) {
    bs != [] ==>
      && Chained(tip, bs[..|bs| - 1])
      && ToHashArray(bs[|bs| - 1].prevHash) == (if |bs| == 1 then tip else ToHashArray(bs[|bs| - 2].hash))
  }

  function RecordsFor(bs: seq<CompactBlock>): (records: seq<CT.BlockRecord>)
    ensures |records| == |bs|
  {
    if bs == [] then [] else RecordsFor(bs[..|bs| - 1]) + [RecordFor(bs[|bs| - 1])]
  }

  // The tip before block n.
  function TipBefore(tip: Hash, bs: seq<CompactBlock>, n: nat): Hash
    requires n <= |bs|
  {
    if n == 0 then tip else ToHashArray(bs[n - 1].hash)
  }

  lemma RunAt(g: BlockTree, states: seq<State>, bs: seq<CompactBlock>, n: nat)
    requires Follows(states, bs) && Lockstep(g, states[0]) && Ascending(g, states[0].currentHeight, bs) && n <= |bs|
    ensures Lockstep(g, states[n]) && (n > 0 ==> InStepAt(g, states[n], bs[n - 1]))
  {
    if n > 0 {
      AscendingIsDelivered(g, states, bs, n - 1);
    }
  }

  lemma Stands(g: BlockTree, s: State, b: CompactBlock)
    requires InStepAt(g, s, b)
    ensures s.chain != [] && Tip(s).hash == ToHashArray(b.hash) && s.currentHeight == b.height
  {
  }

  // Where the run stands after n blocks.
  lemma RunTip(g: BlockTree, states: seq<State>, bs: seq<CompactBlock>, n: nat)
    requires Follows(states, bs) && Lockstep(g, states[0]) && Ascending(g, states[0].currentHeight, bs) && n <= |bs|
    ensures states[0].chain != [] && states[n].chain != []
    ensures Tip(states[n]).hash == TipBefore(Tip(states[0]).hash, bs, n)
    ensures states[n].currentHeight == (if n == 0 then states[0].currentHeight else bs[n - 1].height)
  {
    if n > 0 {
      RunAt(g, states, bs, n);
      Stands(g, states[n], bs[n - 1]);
    }
  }

  // The step of block n.
  lemma RunStep(g: BlockTree, states: seq<State>, bs: seq<CompactBlock>, n: nat)
    requires Follows(states, bs) && Lockstep(g, states[0]) && Ascending(g, states[0].currentHeight, bs) && n < |bs|
    ensures Lockstep(g, states[n]) && Delivered(g, states[n], bs[n]) && Acceptable(states[n], bs[n])
    ensures states[n + 1] == Handle(states[n], bs[n]) && bs[n].height > states[n].currentHeight
  {
    RunAt(g, states, bs, n);
    RunTip(g, states, bs, n);
    AscendingIsDelivered(g, states, bs, n);
    DeliveredIsAcceptable(g, states[n], bs[n]);
    assert StepAt(states, bs, n) && AscendsAt(g, states[0].currentHeight, bs, n);
  }

  lemma ChainedStep(tip: Hash, bs: seq<CompactBlock>, n: nat)
    requires n < |bs|
    ensures Chained(tip, bs[..n + 1]) <==> Chained(tip, bs[..n]) && ToHashArray(bs[n].prevHash) == TipBefore(tip, bs, n)
    ensures RecordsFor(bs[..n + 1]) == RecordsFor(bs[..n]) + [RecordFor(bs[n])]
  {
    assert bs[..n + 1][..n] == bs[..n];
  }

  // The same window, with these leaves more.
  predicate GainsLeaves(t: CT.Tree, u: CT.Tree, added: seq<Hash>) {
    u.leaves == t.leaves + added && u.leafOffset == t.leafOffset && u.prefetched == t.prefetched
  }

  // The step at index n of a batch, in terms of what was delivered.
  lemma BatchStep(g: BlockTree, states: seq<State>, bs: seq<CompactBlock>, n: nat) returns (cut: nat)
    requires Follows(states, bs) && Lockstep(g, states[0]) && Ascending(g, states[0].currentHeight, bs) && n < |bs|
    requires Consecutive(states[0].currentHeight, bs)
    ensures cut < |states[n].tree.blocks|
    ensures states[n + 1].tree.blocks
            == (if ToHashArray(bs[n].prevHash) == TipBefore(Tip(states[0]).hash, bs, n) then states[n].tree.blocks
                else states[n].tree.blocks[..cut]) + [RecordFor(bs[n])]
    ensures ToHashArray(bs[n].prevHash) == TipBefore(Tip(states[0]).hash, bs, n) ==>
              GainsLeaves(states[n].tree, states[n + 1].tree, CommitmentsOf(bs[n].vtx))
  {
    RunTip(g, states, bs, n);
    RunStep(g, states, bs, n);
    NextBlocks(g, states[n], bs[n]);
    if ToHashArray(bs[n].prevHash) == Tip(states[n]).hash {
      ChildAppends(g, states[n], bs[n]);
    }
    cut := |states[n].tree.blocks| - |states[n].chain|;
  }

  // As long as the chain holds every block is kept; once it breaks, some are missing ever after.
  ghost predicate KeptSoFar(first: State, bs: seq<CompactBlock>, s: State)
    requires first.chain != []
  {
    if Chained(Tip(first).hash, bs) then
      && s.tree.blocks == first.tree.blocks + RecordsFor(bs)
      && GainsLeaves(first.tree, s.tree, WB.ChainLeaves(bs))
    else |s.tree.blocks| < |first.tree.blocks| + |bs|
  }

  lemma {:induction false} KeptOrShort(g: BlockTree, states: seq<State>, bs: seq<CompactBlock>, n: nat)
    requires Follows(states, bs) && Lockstep(g, states[0]) && Ascending(g, states[0].currentHeight, bs) && n <= |bs|
    requires Consecutive(states[0].currentHeight, bs)
    ensures KeptSoFar(states[0], bs[..n], states[n])
    decreases n
  {
    if n > 0 {
      KeptOrShort(g, states, bs, n - 1);
      var cut := BatchStep(g, states, bs, n - 1);
      KeptStep(states[0], bs, n - 1, states[n - 1], states[n], cut);
    }
  }

  lemma KeptStep(first: State, bs: seq<CompactBlock>, n: nat, s: State, u: State, cut: nat)
    requires first.chain != [] && n < |bs| && cut < |s.tree.blocks| && KeptSoFar(first, bs[..n], s)
    requires u.tree.blocks
             == (if ToHashArray(bs[n].prevHash) == TipBefore(Tip(first).hash, bs, n) then s.tree.blocks
                 else s.tree.blocks[..cut]) + [RecordFor(bs[n])]
    requires ToHashArray(bs[n].prevHash) == TipBefore(Tip(first).hash, bs, n) ==>
               GainsLeaves(s.tree, u.tree, CommitmentsOf(bs[n].vtx))
    ensures KeptSoFar(first, bs[..n + 1], u)
  {
    ChainedStep(Tip(first).hash, bs, n);
    if Chained(Tip(first).hash, bs[..n + 1]) {
      LeavesStep(first.tree, s.tree, u.tree, bs, n);
    }
  }

  lemma LeavesStep(first: CT.Tree, t: CT.Tree, u: CT.Tree, bs: seq<CompactBlock>, n: nat)
    requires n < |bs| && GainsLeaves(first, t, WB.ChainLeaves(bs[..n])) && GainsLeaves(t, u, CommitmentsOf(bs[n].vtx))
    ensures GainsLeaves(first, u, WB.ChainLeaves(bs[..n + 1]))
  {
    assert bs[..n + 1][..n] == bs[..n];
    assert WB.ChainLeaves(bs[..n + 1]) == WB.ChainLeaves(bs[..n]) + CommitmentsOf(bs[n].vtx);
    Assoc(first.leaves, WB.ChainLeaves(bs[..n]), CommitmentsOf(bs[n].vtx));
  }

  /** A batch of consecutive heights loses no block exactly when it is one chain. The tree ends with all blocks it
      had and all blocks of the batch if and only if each block's parent is the block before it. Its leaves are then
      those it had and those of the batch. */
  lemma BatchLosesNothingIff(g: BlockTree, states: seq<State>, bs: seq<CompactBlock>)
    requires Follows(states, bs) && Lockstep(g, states[0]) && Ascending(g, states[0].currentHeight, bs)
    requires Consecutive(states[0].currentHeight, bs)
    ensures states[|bs|].tree.blocks == states[0].tree.blocks + RecordsFor(bs) <==> Chained(Tip(states[0]).hash, bs)
    ensures Chained(Tip(states[0]).hash, bs) ==>
              GainsLeaves(states[0].tree, states[|bs|].tree, WB.ChainLeaves(bs))
  {
    KeptOrShort(g, states, bs, |bs|);
    assert bs[..|bs|] == bs;
  }

  // ----- Gone for good

  predicate Records(blocks: seq<CT.BlockRecord>, h: nat) {
    exists i :: 0 <= i < |blocks| && blocks[i].height == h
  }

  lemma CutAddsOnly(blocks: seq<CT.BlockRecord>, n: nat, after: seq<CT.BlockRecord>, r: CT.BlockRecord, h: nat)
    requires n <= |blocks| && after == blocks[..n] + [r] && h != r.height && Records(after, h)
    ensures Records(blocks, h)
  {
    var i :| 0 <= i < |after| && after[i].height == h;
    assert i < n && after[i] == blocks[i];
  }

  lemma StepAddsOnly(g: BlockTree, s: State, b: CompactBlock, h: nat)
    requires Lockstep(g, s) && Delivered(g, s, b) && Acceptable(s, b) && h < b.height
    ensures Records(Handle(s, b).tree.blocks, h) ==> Records(s.tree.blocks, h)
  {
    var n := TreeBaseIs(g, s, b);
    HandleTree(s, b);
    if Records(Handle(s, b).tree.blocks, h) {
      CutAddsOnly(s.tree.blocks, n, Handle(s, b).tree.blocks, RecordFor(b), h);
    }
  }

  lemma StepPasses(g: BlockTree, s: State, b: CompactBlock, h: nat)
    requires Lockstep(g, s) && Delivered(g, s, b) && Acceptable(s, b) && b.height > s.currentHeight
    requires h <= s.currentHeight && !Records(s.tree.blocks, h)
    ensures h <= Handle(s, b).currentHeight && !Records(Handle(s, b).tree.blocks, h)
  {
    StepAddsOnly(g, s, b, h);
  }

  lemma StillMissing(g: BlockTree, states: seq<State>, bs: seq<CompactBlock>, n: nat, h: nat)
    requires Follows(states, bs) && Lockstep(g, states[0]) && Ascending(g, states[0].currentHeight, bs) && n < |bs|
    requires h <= states[n].currentHeight && !Records(states[n].tree.blocks, h)
    ensures h <= states[n + 1].currentHeight && !Records(states[n + 1].tree.blocks, h)
  {
    RunStep(g, states, bs, n);
    StepPasses(g, states[n], bs[n], h);
  }

  /** A height that is missing once the loop has passed it stays missing: no later block of the run fills it. */
  lemma {:induction false} MissingStaysMissing(g: BlockTree, states: seq<State>, bs: seq<CompactBlock>, n: nat, m: nat,
                                               h: nat)
    requires Follows(states, bs) && Lockstep(g, states[0]) && Ascending(g, states[0].currentHeight, bs)
    requires n <= m <= |bs| && h <= states[n].currentHeight && !Records(states[n].tree.blocks, h)
    ensures h <= states[m].currentHeight && !Records(states[m].tree.blocks, h)
    decreases m
  {
    if n < m {
      MissingStaysMissing(g, states, bs, n, m - 1, h);
      StillMissing(g, states, bs, m - 1, h);
    }
  }

  lemma BelowWindow(s: State)
    requires SuffixOf(s.chain, s.tree.blocks) && Increasing(s.tree.blocks) && s.chain != []
    ensures forall i :: 0 <= i < |s.tree.blocks| - |s.chain| ==> s.tree.blocks[i].height < s.chain[0].height
  {
    assert Matches(s.chain[0], s.tree.blocks[|s.tree.blocks| - |s.chain| + 0]);
  }

  // The block is at the next height and not a child of the tip, whose window includes height h.
  ghost predicate DropsHeight(s: State, b: CompactBlock, h: nat) {
    && s.chain != [] && b.height == s.currentHeight + 1 && ToHashArray(b.prevHash) != Tip(s).hash
    && s.chain[0].height <= h <= s.currentHeight
  }

  // The dropped window, right after the reorganisation.
  lemma WindowMissing(g: BlockTree, s: State, b: CompactBlock, h: nat)
    requires Lockstep(g, s) && Delivered(g, s, b) && DropsHeight(s, b, h)
    ensures Acceptable(s, b) && h <= Handle(s, b).currentHeight && !Records(Handle(s, b).tree.blocks, h)
  {
    NextBlocks(g, s, b);
    BelowWindow(s);
    var after, n := Handle(s, b).tree.blocks, |s.tree.blocks| - |s.chain|;
    forall i | 0 <= i < |after|
      ensures after[i].height != h
    {
      if i < n {
        assert after[i] == s.tree.blocks[i];
      }
    }
  }

  lemma ReorgDrops(g: BlockTree, states: seq<State>, bs: seq<CompactBlock>, n: nat, h: nat)
    requires Follows(states, bs) && Lockstep(g, states[0]) && Ascending(g, states[0].currentHeight, bs) && n < |bs|
    requires DropsHeight(states[n], bs[n], h)
    ensures h <= states[n + 1].currentHeight && !Records(states[n + 1].tree.blocks, h)
  {
    RunStep(g, states, bs, n);
    WindowMissing(g, states[n], bs[n], h);
  }

  /** A reorganisation at the next height costs the window for good: none of its heights is in the tree in any
      later state of the run. */
  lemma ReorgLeavesGap(g: BlockTree, states: seq<State>, bs: seq<CompactBlock>, n: nat, m: nat, h: nat)
    requires Follows(states, bs) && Lockstep(g, states[0]) && Ascending(g, states[0].currentHeight, bs) && n < m <= |bs|
    requires DropsHeight(states[n], bs[n], h)
    ensures !Records(states[m].tree.blocks, h)
  {
    ReorgDrops(g, states, bs, n, h);
    MissingStaysMissing(g, states, bs, n + 1, m, h);
  }
}
