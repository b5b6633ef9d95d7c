/** Whether the standalone witness server notices the heights that a reorganisation skipped. */
module WitnessGaps {
  import opened Bytes
  import opened SpendTypes
  import opened Parsers
  import opened ChainTracker
  import opened WindowBootstrap
  import opened FollowLoop
  import opened WitnessFollow
  import CT = CommitmentTree

  // Consecutive blocks, each the parent of the next.
  ghost predicate Linked(bs: seq<CompactBlock>) {
    forall i :: 0 < i < |bs| ==> LinkedAt(bs, i)
  }

  predicate LinkedAt(bs: seq<CompactBlock>, i: nat)
    requires 0 < i < |bs|
  {
    bs[i].height == bs[i - 1].height + 1 && ToHashArray(bs[i].prevHash) == ToHashArray(bs[i - 1].hash)
  }

  // The window's tip is the parent of the block.
  predicate ChildOfTip(chain: seq<Link>, b: CompactBlock) {
    && chain != [] && b.height == chain[|chain| - 1].height + 1
    && ToHashArray(b.prevHash) == chain[|chain| - 1].hash
  }

  lemma PushTip(chain: seq<Link>, hdr: Header)
    ensures var after := Push(chain, MAX_DEPTH, hdr).0;
            after != [] && after[|after| - 1] == Link(hdr.height, hdr.hash)
  {
  }

  lemma LinkedTail(bs: seq<CompactBlock>)
    requires Linked(bs) && bs != []
    ensures Linked(bs[1..])
  {
    forall i | 0 < i < |bs| - 1
      ensures LinkedAt(bs[1..], i)
    {
      assert LinkedAt(bs, i + 1);
      assert bs[1..][i] == bs[i + 1] && bs[1..][i - 1] == bs[i];
    }
  }

  // The events of an extending block with a right prior size.
  lemma ExtendAccepted(chain: seq<Link>, t: CT.Tree, prior: Option<u32>, b: CompactBlock)
    requires ChildOfTip(chain, b) && (prior.None? || prior.value == t.Size())
    ensures ApplyEvents(t, EventsFor(chain, prior, b))
            == Ok(CT.Append(t, b.height, ToHashArray(b.hash), CommitmentsOf(b.vtx)))
  {
    OneEvent(t, NewBlock(b.height, ToHashArray(b.hash), ToHashArray(b.prevHash), CommitmentsOf(b.vtx), prior));
  }

  /** Right sizes stay right: linked blocks with right metadata, from a tree of the right size, are all accepted. */
  lemma {:induction false} RightSizesAccepted(chain: seq<Link>, t: CT.Tree, prior: Option<u32>, bs: seq<CompactBlock>)
    requires Linked(bs) && (bs != [] ==> ChildOfTip(chain, bs[0])) && MetadataRight(bs, t.Size())
    requires prior.None? || prior.value == t.Size()
    ensures ApplyEvents(t, AllEvents(chain, prior, bs)).Ok?
    decreases |bs|
  {
    if bs != [] {
      var b, after := bs[0], Push(chain, MAX_DEPTH, HeaderOf(bs[0])).0;
      var u := CT.Append(t, b.height, ToHashArray(b.hash), CommitmentsOf(b.vtx));
      ExtendAccepted(chain, t, prior, b);
      ApplySplit(t, EventsFor(chain, prior, b), AllEvents(after, OrchardTreeSize(b), bs[1..]));
      PushTip(chain, HeaderOf(b));
      LinkedTail(bs);
      TailFrom(t, bs, u);
      assert bs[1..] != [] ==> LinkedAt(bs, 1) && bs[1..][0] == bs[1];
      RightSizesAccepted(after, u, OrchardTreeSize(b), bs[1..]);
    }
  }

  // A wrong announced size stops the stream at the next extending block.
  lemma WrongSizeRejected(chain: seq<Link>, t: CT.Tree, prior: Option<u32>, bs: seq<CompactBlock>)
    requires bs != [] && ChildOfTip(chain, bs[0]) && prior.Some? && prior.value != t.Size()
    ensures ApplyEvents(t, AllEvents(chain, prior, bs)) == Err(TreeSizeMismatch(bs[0].height, prior.value, t.Size()))
  {
    var b, after := bs[0], Push(chain, MAX_DEPTH, HeaderOf(bs[0])).0;
    OneEvent(t, NewBlock(b.height, ToHashArray(b.hash), ToHashArray(b.prevHash), CommitmentsOf(b.vtx), prior));
    ApplySplit(t, EventsFor(chain, prior, b), AllEvents(after, OrchardTreeSize(b), bs[1..]));
  }

  // The reorganising block itself is always accepted, on top of what lies below the window.
  lemma ReorgAccepted(g: BlockTree, chain: seq<Link>, t: CT.Tree, prior: Option<u32>, b: CompactBlock)
    requires Window(g, chain) && AboveGround(chain) && chain != [] && Genuine(g, HeaderOf(b))
    requires b.height == chain[|chain| - 1].height + 1 && ToHashArray(b.prevHash) != chain[|chain| - 1].hash
    ensures Push(chain, MAX_DEPTH, HeaderOf(b)).0 == [Link(b.height, ToHashArray(b.hash))]
    ensures ApplyEvents(t, EventsFor(chain, prior, b))
            == Ok(CT.Append(CT.Rollback(t, chain[0].height - 1), b.height, ToHashArray(b.hash), CommitmentsOf(b.vtx)))
  {
    NextHeightNeverFindsFork(g, chain, MAX_DEPTH, HeaderOf(b));
    ExtendsIffChild(g, chain, MAX_DEPTH, HeaderOf(b));
    var base := CT.Rollback(t, chain[0].height - 1);
    var e := NewBlock(b.height, ToHashArray(b.hash), ToHashArray(b.prevHash), CommitmentsOf(b.vtx), None);
    assert EventsFor(chain, prior, b) == [ReorgTo(chain[0].height - 1), e];
    assert [ReorgTo(chain[0].height - 1), e][1..] == [e];
    OneEvent(base, e);
  }

  // Sizes after the gap: what the tree has, and what the block after the gap announces.
  lemma SizesAfterGap(canonical: seq<CompactBlock>, start: nat, n: nat, size: nat)
    requires MetadataRight(canonical, start) && n < |canonical| && size == start + |CommitmentsOf(canonical[n].vtx)|
    ensures var gap, b := |ChainLeaves(canonical[..n])|, canonical[n];
            && b.chainMetadata.Some? && b.chainMetadata.value == size + gap
            && (gap == 0 ==> MetadataRight(canonical[n + 1..], size))
  {
    assert canonical[..n + 1] == canonical[..n] + [canonical[n]];
    LeavesAppend(canonical[..n], [canonical[n]]);
    OneBlock([canonical[n]]);
    assert [canonical[n]][..1] == [canonical[n]];
    assert Announces(canonical, start, n);
    MetadataFrom(canonical, start, n + 1);
  }

  /** The skipped heights are noticed exactly when they matter. Take the canonical blocks from the window's first
      height on, with right metadata over the tree below the window. When the block after the window's tip does not
      extend it, the window is dropped and the canonical blocks at its heights are never fetched. Fed with that
      block and one or more after it, the server stops exactly when the skipped blocks hold a commitment, and it
      stops at the very next block. */
  lemma GapIsCaughtIff(g: BlockTree, chain: seq<Link>, t: CT.Tree, prior: Option<u32>, canonical: seq<CompactBlock>)
    requires Window(g, chain) && AboveGround(chain) && chain != []
    requires Linked(canonical) && |chain| + 2 <= |canonical| && canonical[0].height == chain[0].height
    requires MetadataRight(canonical, CT.Rollback(t, chain[0].height - 1).Size())
    requires Genuine(g, HeaderOf(canonical[|chain|]))
    requires ToHashArray(canonical[|chain|].prevHash) != chain[|chain| - 1].hash
    ensures var n := |chain|;
            var r := ApplyEvents(t, AllEvents(chain, prior, canonical[n..]));
            && (r.Ok? <==> ChainLeaves(canonical[..n]) == [])
            && (r.Err? ==> r.error.TreeSizeMismatch? && r.error.height == canonical[n + 1].height)
  {
    var n := |chain|;
    var base, b := CT.Rollback(t, chain[0].height - 1), canonical[n];
    LinkedHeights(canonical, n);
    assert canonical[n..][1..] == canonical[n + 1..];
    StreamAfterReorg(g, chain, t, prior, canonical[n..]);
    var u := CT.Append(base, b.height, ToHashArray(b.hash), CommitmentsOf(b.vtx));
    AppendedLeaf(base, b.height, ToHashArray(b.hash), CommitmentsOf(b.vtx), 0);
    SizesAfterGap(canonical, base.Size(), n, u.Size());
    NextInLine(canonical, n);
    AfterGap([Link(b.height, ToHashArray(b.hash))], u, b, canonical[n + 1..], |ChainLeaves(canonical[..n])|);
  }

  lemma NextInLine(bs: seq<CompactBlock>, n: nat)
    requires Linked(bs) && n + 1 < |bs|
    ensures ChildOfTip([Link(bs[n].height, ToHashArray(bs[n].hash))], bs[n + 1..][0]) && bs[n + 1..][0] == bs[n + 1]
  {
    assert LinkedAt(bs, n + 1);
  }

  // The stream that begins with the reorganising block goes on from the tree it leaves.
  lemma StreamAfterReorg(g: BlockTree, chain: seq<Link>, t: CT.Tree, prior: Option<u32>, bs: seq<CompactBlock>)
    requires Window(g, chain) && AboveGround(chain) && chain != [] && bs != [] && Genuine(g, HeaderOf(bs[0]))
    requires bs[0].height == chain[|chain| - 1].height + 1 && ToHashArray(bs[0].prevHash) != chain[|chain| - 1].hash
    ensures ApplyEvents(t, AllEvents(chain, prior, bs))
            == ApplyEvents(CT.Append(CT.Rollback(t, chain[0].height - 1), bs[0].height, ToHashArray(bs[0].hash),
                                     CommitmentsOf(bs[0].vtx)),
                           AllEvents([Link(bs[0].height, ToHashArray(bs[0].hash))], OrchardTreeSize(bs[0]), bs[1..]))
  {
    ReorgAccepted(g, chain, t, prior, bs[0]);
    ApplySplit(t, EventsFor(chain, prior, bs[0]),
               AllEvents([Link(bs[0].height, ToHashArray(bs[0].hash))], OrchardTreeSize(bs[0]), bs[1..]));
  }

  lemma {:induction false} LinkedHeights(bs: seq<CompactBlock>, n: nat)
    requires Linked(bs) && n < |bs|
    ensures bs[n].height == bs[0].height + n
    ensures Linked(bs[n..]) && Linked(bs[n + 1..])
    decreases n
  {
    if n > 0 {
      LinkedHeights(bs, n - 1);
      assert LinkedAt(bs, n);
      LinkedTail(bs[n - 1..]);
      assert bs[n - 1..][1..] == bs[n..];
    } else {
      assert bs[0..] == bs;
    }
    LinkedTail(bs[n..]);
    assert bs[n..][1..] == bs[n + 1..];
  }

  // From the block after the gap on: `skipped` commitments are missing from the tree.
  lemma AfterGap(after: seq<Link>, u: CT.Tree, b: CompactBlock, rest: seq<CompactBlock>, skipped: nat)
    requires Linked(rest) && rest != [] && ChildOfTip(after, rest[0])
    requires b.chainMetadata.Some? && b.chainMetadata.value == u.Size() + skipped
    requires skipped == 0 ==> MetadataRight(rest, u.Size())
    ensures var r := ApplyEvents(u, AllEvents(after, OrchardTreeSize(b), rest));
            && (r.Ok? <==> skipped == 0)
            && (r.Err? ==> r.error.TreeSizeMismatch? && r.error.height == rest[0].height)
  {
    if skipped == 0 {
      RightSizesAccepted(after, u, OrchardTreeSize(b), rest);
    } else {
      WrongSizeRejected(after, u, OrchardTreeSize(b), rest);
    }
  }
}
