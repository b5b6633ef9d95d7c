/** The window of recent blocks that detects reorganisations. */
module ChainTracker {
  import opened Bytes

  datatype Link = Link(height: nat, hash: Hash)

  datatype ChainAction = Extend | Reorg(rollbackTo: nat)

  datatype Header = Header(height: nat, hash: Hash, prevHash: Hash)

  // ----- What one push does, as a function of the window

  // The height of the newest of the first n links with this hash.
  function HeightOfHash(chain: seq<Link>, n: nat, hash: Hash): (r: Option<nat>)
    requires n <= |chain|
    ensures r.None? <==> forall i :: 0 <= i < n ==> chain[i].hash != hash
    ensures r.Some? ==> exists k :: 0 <= k < n && chain[k] == Link(r.value, hash)
                                    && forall i :: k < i < n ==> chain[i].hash != hash
    decreases n
  {
    if n == 0 then None
    else if chain[n - 1].hash == hash then Some(chain[n - 1].height)
    else HeightOfHash(chain, n - 1, hash)
  }

  function ForkPoint(chain: seq<Link>, target: Hash): nat {
    var found := HeightOfHash(chain, |chain|, target);
    if found.Some? then found.value
    else if chain == [] then 0
    else SaturatingSub(chain[0].height, 1)
  }

  function Truncate(chain: seq<Link>, forkHeight: nat): (kept: seq<Link>)
    ensures kept <= chain
    ensures kept != [] ==> chain[|kept| - 1].height <= forkHeight
    ensures forall i :: |kept| <= i < |chain| ==> chain[i].height > forkHeight
    decreases |chain|
  {
    if chain != [] && chain[|chain| - 1].height > forkHeight then Truncate(chain[..|chain| - 1], forkHeight) else chain
  }

  function Push(chain: seq<Link>, maxDepth: nat, b: Header): (seq<Link>, ChainAction) {
    var link := Link(b.height, b.hash);
    if chain == [] then (chain + [link], Extend)
    else
      var tip := chain[|chain| - 1];
      if b.prevHash == tip.hash && b.height == tip.height + 1 then
        (if |chain| + 1 > maxDepth then (chain + [link])[1..] else chain + [link], Extend)
      else
        (Truncate(chain, ForkPoint(chain, b.prevHash)) + [link], Reorg(ForkPoint(chain, b.prevHash)))
  }

  class ChainTracker {
    var chain: seq<Link>
    const maxDepth: nat

    constructor (maxDepth: nat)
      ensures chain == [] && this.maxDepth == maxDepth
    {
      chain := [];
      this.maxDepth := maxDepth;
    }

    constructor WithTip(height: nat, hash: Hash, maxDepth: nat)
      ensures chain == [Link(height, hash)] && this.maxDepth == maxDepth
    {
      chain := [Link(height, hash)];
      this.maxDepth := maxDepth;
    }

    method PushBlock(b: Header) returns (action: ChainAction)
      modifies this`chain
      ensures (chain, action) == Push(old(chain), maxDepth, b)
    {
      if chain != [] {
        var tip := chain[|chain| - 1];
        if b.prevHash == tip.hash && b.height == tip.height + 1 {
          chain := chain + [Link(b.height, b.hash)];
          if |chain| > maxDepth {
            chain := chain[1..];
          }
          return Extend;
        }
        var forkHeight := FindForkPoint(b.prevHash);
        TruncateTo(forkHeight);
        chain := chain + [Link(b.height, b.hash)];
        return Reorg(forkHeight);
      }
      chain := chain + [Link(b.height, b.hash)];
      action := Extend;
    }

    method TruncateTo(forkHeight: nat)
      modifies this`chain
      ensures chain == Truncate(old(chain), forkHeight)
    {
      while chain != [] && chain[|chain| - 1].height > forkHeight
        invariant Truncate(chain, forkHeight) == Truncate(old(chain), forkHeight)
        decreases |chain|
      {
        chain := chain[..|chain| - 1];
      }
    }

    method FindForkPoint(target: Hash) returns (height: nat)
      ensures height == ForkPoint(chain, target)
    {
      for i := |chain| downto 0
        invariant HeightOfHash(chain, |chain|, target) == HeightOfHash(chain, i, target)
      {
        if chain[i].hash == target {
          return chain[i].height;
        }
      }
      height := if chain == [] then 0 else SaturatingSub(chain[0].height, 1);
    }
  }

  // ----- Block trees: every hash has one height and one parent, one level below

  datatype BlockTree = BlockTree(heightOf: Hash -> nat, parentOf: Hash -> Hash)

  ghost predicate Genuine(g: BlockTree, b: Header) {
    && b.height == g.heightOf(b.hash) == g.heightOf(b.prevHash) + 1 && b.prevHash == g.parentOf(b.hash)
  }

  /** A window of a chain: heights are those of the hashes and contiguous, and each link's parent is the link
      before it. */
  ghost predicate Window(g: BlockTree, chain: seq<Link>) {
    && (forall i :: 0 <= i < |chain| ==> chain[i].height == g.heightOf(chain[i].hash))
    && (forall i :: 0 < i < |chain| ==> chain[i].height == chain[0].height + i)
    && (forall i :: 0 < i < |chain| ==> g.parentOf(chain[i].hash) == chain[i - 1].hash)
  }

  // The first link is no lower than height 1, so that a height just below the window exists.
  predicate AboveGround(chain: seq<Link>) {
    chain != [] ==> chain[0].height >= 1
  }

  lemma HashAt(g: BlockTree, chain: seq<Link>, n: nat, k: nat)
    requires Window(g, chain) && k < n <= |chain|
    ensures HeightOfHash(chain, n, chain[k].hash) == Some(chain[k].height)
    decreases n
  {
    if chain[n - 1].hash != chain[k].hash {
      HashAt(g, chain, n - 1, k);
    }
  }

  // Truncating a window at the height of one of its links keeps the links up to it.
  lemma TruncateAt(g: BlockTree, chain: seq<Link>, k: nat)
    requires Window(g, chain) && k < |chain|
    ensures Truncate(chain, chain[k].height) == chain[..k + 1]
  {
    var kept := Truncate(chain, chain[k].height);
    assert kept == chain[..|kept|] && |kept| == k + 1;
  }

  lemma TruncateBelow(g: BlockTree, chain: seq<Link>)
    requires Window(g, chain) && AboveGround(chain) && chain != []
    ensures Truncate(chain, SaturatingSub(chain[0].height, 1)) == []
  {
  }

  // ----- What a push does to a window

  /** From a non-empty window, a genuine block extends it exactly when it is a child of the tip. */
  lemma ExtendsIffChild(g: BlockTree, chain: seq<Link>, maxDepth: nat, b: Header)
    requires Window(g, chain) && Genuine(g, b) && chain != []
    ensures Push(chain, maxDepth, b).1.Extend? <==> b.prevHash == chain[|chain| - 1].hash
  {
  }

  /** A reorganisation onto a parent inside the window rolls back to the parent's height and keeps the links up
      to it. */
  lemma ReorgInsideWindow(g: BlockTree, chain: seq<Link>, maxDepth: nat, b: Header, k: nat)
    requires Window(g, chain) && Genuine(g, b) && k < |chain| - 1 && chain[k].hash == b.prevHash
    ensures Push(chain, maxDepth, b) == (chain[..k + 1] + [Link(b.height, b.hash)], Reorg(g.heightOf(b.prevHash)))
  {
    var tip := chain[|chain| - 1];
    assert tip.height > chain[k].height;
    HashAt(g, chain, |chain|, k);
    TruncateAt(g, chain, k);
  }

  /** A parent outside the window drops the whole window and rolls back to just below it. */
  lemma ReorgOutsideWindow(g: BlockTree, chain: seq<Link>, maxDepth: nat, b: Header)
    requires Window(g, chain) && AboveGround(chain) && chain != []
    requires forall k :: 0 <= k < |chain| ==> chain[k].hash != b.prevHash
    ensures Push(chain, maxDepth, b) == ([Link(b.height, b.hash)], Reorg(chain[0].height - 1))
  {
    TruncateBelow(g, chain);
    assert chain[|chain| - 1].hash != b.prevHash;
    assert [] + [Link(b.height, b.hash)] == [Link(b.height, b.hash)];
  }

  /** A window that starts at height 0 is not dropped: the block at height 0 stays, unlinked to the new one. */
  lemma GroundIsKept(chain: seq<Link>, maxDepth: nat, b: Header)
    requires chain != [] && chain[0].height == 0 && forall k :: 0 <= k < |chain| ==> chain[k].hash != b.prevHash
    ensures var (after, action) := Push(chain, maxDepth, b);
            |after| >= 2 && after[0] == chain[0] && action == Reorg(0)
  {
    var kept := Truncate(chain, 0);
    assert chain[|chain| - 1].hash != b.prevHash;
    assert kept != [] && kept[0] == chain[0];
  }

  lemma SnocWindow(g: BlockTree, chain: seq<Link>, b: Header)
    requires Window(g, chain) && Genuine(g, b) && (chain == [] || b.prevHash == chain[|chain| - 1].hash)
    ensures Window(g, chain + [Link(b.height, b.hash)])
  {
    var after := chain + [Link(b.height, b.hash)];
    forall i | 0 <= i < |after|
      ensures after[i].height == g.heightOf(after[i].hash)
      ensures i > 0 ==> after[i].height == after[0].height + i && g.parentOf(after[i].hash) == after[i - 1].hash
    {
    }
  }

  lemma SubWindow(g: BlockTree, chain: seq<Link>, from: nat, to: nat)
    requires Window(g, chain) && from <= to <= |chain|
    ensures Window(g, chain[from..to])
  {
    var sub := chain[from..to];
    forall i | 0 <= i < |sub|
      ensures sub[i].height == g.heightOf(sub[i].hash)
      ensures i > 0 ==> sub[i].height == sub[0].height + i && g.parentOf(sub[i].hash) == sub[i - 1].hash
    {
      assert sub[i] == chain[from + i];
      assert i > 0 ==> sub[i - 1] == chain[from + i - 1];
    }
  }

  lemma ExtendKeepsWindow(g: BlockTree, chain: seq<Link>, maxDepth: nat, b: Header)
    requires Window(g, chain) && AboveGround(chain) && Genuine(g, b)
    requires maxDepth >= 1 && |chain| <= maxDepth && (chain == [] || b.prevHash == chain[|chain| - 1].hash)
    ensures var after := Push(chain, maxDepth, b).0;
            && Window(g, after) && AboveGround(after) && 1 <= |after| <= maxDepth
            && after[|after| - 1] == Link(b.height, b.hash)
  {
    SnocWindow(g, chain, b);
    SubWindow(g, chain + [Link(b.height, b.hash)], 1, |chain| + 1);
  }

  /** A push keeps the window linked, contiguous and within its bound, and makes the new block its tip. */
  lemma PushKeepsWindow(g: BlockTree, chain: seq<Link>, maxDepth: nat, b: Header)
    requires Window(g, chain) && AboveGround(chain) && Genuine(g, b)
    requires maxDepth >= 1 && |chain| <= maxDepth
    ensures var after := Push(chain, maxDepth, b).0;
            && Window(g, after) && AboveGround(after) && 1 <= |after| <= maxDepth
            && after[|after| - 1] == Link(b.height, b.hash)
  {
    if chain == [] || b.prevHash == chain[|chain| - 1].hash {
      ExtendKeepsWindow(g, chain, maxDepth, b);
    } else if k :| 0 <= k < |chain| - 1 && chain[k].hash == b.prevHash {
      ReorgInsideWindow(g, chain, maxDepth, b, k);
      SubWindow(g, chain, 0, k + 1);
      SnocWindow(g, chain[..k + 1], b);
    } else {
      ReorgOutsideWindow(g, chain, maxDepth, b);
    }
  }

  /** So the whole window is dropped exactly when it starts above height 0. */
  lemma WindowDroppedIff(g: BlockTree, chain: seq<Link>, maxDepth: nat, b: Header)
    requires Window(g, chain) && chain != [] && forall k :: 0 <= k < |chain| ==> chain[k].hash != b.prevHash
    ensures Push(chain, maxDepth, b).0 == [Link(b.height, b.hash)] <==> chain[0].height >= 1
  {
    if chain[0].height == 0 {
      GroundIsKept(chain, maxDepth, b);
    } else {
      assert Truncate(chain, chain[0].height - 1) == [];
      assert chain[|chain| - 1].hash != b.prevHash;
      assert [] + [Link(b.height, b.hash)] == [Link(b.height, b.hash)];
    }
  }

  // ----- What extending keeps

  // The last n links.
  function LastLinks(links: seq<Link>, n: nat): seq<Link>
    requires n <= |links|
  {
    links[|links| - n..]
  }

  predicate IsChild(tip: Link, b: Header) {
    b.prevHash == tip.hash && b.height == tip.height + 1
  }

  function AtMost(n: nat, limit: nat): nat {
    if n <= limit then n else limit
  }

  /** A child of the tip costs the window at most its oldest link, and that only when the window is full. */
  lemma ChildKeepsNewest(chain: seq<Link>, maxDepth: nat, b: Header)
    requires chain != [] && 1 <= maxDepth && |chain| <= maxDepth && IsChild(chain[|chain| - 1], b)
    ensures Push(chain, maxDepth, b)
            == (LastLinks(chain + [Link(b.height, b.hash)], AtMost(|chain| + 1, maxDepth)), Extend)
  {
  }

  /** The first block of an empty window extends it, whatever its parent. */
  lemma FirstExtends(maxDepth: nat, b: Header)
    ensures Push([], maxDepth, b) == ([Link(b.height, b.hash)], Extend)
  {
    assert [] + [Link(b.height, b.hash)] == [Link(b.height, b.hash)];
  }

  /** A block that names the tip as its parent but not the next height is a reorganisation to the tip itself: every
      link stays. */
  lemma MisnumberedChild(chain: seq<Link>, maxDepth: nat, b: Header)
    requires chain != [] && b.prevHash == chain[|chain| - 1].hash && b.height != chain[|chain| - 1].height + 1
    ensures Push(chain, maxDepth, b) == (chain + [Link(b.height, b.hash)], Reorg(chain[|chain| - 1].height))
  {
  }

  // Each block is a child of the one before it, and the first of the tip.
  ghost predicate Children(tip: Link, bs: seq<Header>) {
    forall i :: 0 <= i < |bs| ==> ChildAt(tip, bs, i)
  }

  predicate ChildAt(tip: Link, bs: seq<Header>, i: nat)
    requires i < |bs|
  {
    IsChild(if i == 0 then tip else Link(bs[i - 1].height, bs[i - 1].hash), bs[i])
  }

  function LinksOf(bs: seq<Header>): (links: seq<Link>)
    ensures |links| == |bs|
  {
    seq<Link>(|bs|, i requires 0 <= i < |bs| => Link(bs[i].height, bs[i].hash))
  }

  // ----- Runs

  function PushAll(chain: seq<Link>, maxDepth: nat, bs: seq<Header>): seq<Link> {
    if bs == [] then chain else Push(PushAll(chain, maxDepth, bs[..|bs| - 1]), maxDepth, bs[|bs| - 1]).0
  }

  // The window is the newest of all links so far, and stays that.
  lemma NextKeepsNewest(all: seq<Link>, maxDepth: nat, b: Header)
    requires all != [] && 1 <= maxDepth && IsChild(all[|all| - 1], b)
    ensures Push(LastLinks(all, AtMost(|all|, maxDepth)), maxDepth, b).0
            == LastLinks(all + [Link(b.height, b.hash)], AtMost(|all| + 1, maxDepth))
  {
    ChildKeepsNewest(LastLinks(all, AtMost(|all|, maxDepth)), maxDepth, b);
  }

  lemma ChildrenInit(tip: Link, bs: seq<Header>)
    requires Children(tip, bs) && bs != []
    ensures Children(tip, bs[..|bs| - 1])
  {
    var init := bs[..|bs| - 1];
    forall i | 0 <= i < |init|
      ensures ChildAt(tip, init, i)
    {
      assert ChildAt(tip, bs, i);
    }
  }

  /** Over any number of children in a row the window is the newest of the links it had and those that came, as many
      as it may hold. */
  lemma {:induction false} ChildrenKeepNewest(chain: seq<Link>, maxDepth: nat, bs: seq<Header>)
    requires chain != [] && 1 <= maxDepth && |chain| <= maxDepth && Children(chain[|chain| - 1], bs)
    ensures PushAll(chain, maxDepth, bs) == LastLinks(chain + LinksOf(bs), AtMost(|chain| + |bs|, maxDepth))
    decreases |bs|
  {
    if bs == [] {
      assert chain + LinksOf(bs) == chain;
    } else {
      var init, b := bs[..|bs| - 1], bs[|bs| - 1];
      var all := chain + LinksOf(init);
      ChildrenInit(chain[|chain| - 1], bs);
      ChildrenKeepNewest(chain, maxDepth, init);
      LastIsParent(chain, bs);
      NextKeepsNewest(all, maxDepth, b);
      LinksSnoc(chain, bs);
    }
  }

  lemma LinksSnoc(chain: seq<Link>, bs: seq<Header>)
    requires bs != []
    ensures var init, b := bs[..|bs| - 1], bs[|bs| - 1];
            && chain + LinksOf(bs) == chain + LinksOf(init) + [Link(b.height, b.hash)]
            && |chain + LinksOf(init)| == |chain| + |init| && |init| + 1 == |bs|
  {
  }

  lemma LastIsParent(chain: seq<Link>, bs: seq<Header>)
    requires chain != [] && bs != [] && Children(chain[|chain| - 1], bs)
    ensures var all := chain + LinksOf(bs[..|bs| - 1]);
            all != [] && IsChild(all[|all| - 1], bs[|bs| - 1])
  {
    assert ChildAt(chain[|chain| - 1], bs, |bs| - 1);
  }

  /** Over any run of genuine blocks, whatever reorganisations they bring, the window stays linked, contiguous
      and bounded, and ends with the last block. */
  lemma {:induction false} RunKeepsWindow(g: BlockTree, chain: seq<Link>, maxDepth: nat, bs: seq<Header>)
    requires Window(g, chain) && AboveGround(chain) && maxDepth >= 1 && |chain| <= maxDepth
    requires forall i :: 0 <= i < |bs| ==> Genuine(g, bs[i])
    ensures var after := PushAll(chain, maxDepth, bs);
            && Window(g, after) && AboveGround(after) && |after| <= maxDepth
            && (bs != [] ==> after != [] && after[|after| - 1] == Link(bs[|bs| - 1].height, bs[|bs| - 1].hash))
  {
    if bs != [] {
      RunKeepsWindow(g, chain, maxDepth, bs[..|bs| - 1]);
      PushKeepsWindow(g, PushAll(chain, maxDepth, bs[..|bs| - 1]), maxDepth, bs[|bs| - 1]);
    }
  }

  /** A consumer that always asks for the height after its tip never sees its fork point: a genuine block one
      above the tip either extends the tip or has its parent outside the window, which is then dropped whole. */
  lemma NextHeightNeverFindsFork(g: BlockTree, chain: seq<Link>, maxDepth: nat, b: Header)
    requires Window(g, chain) && AboveGround(chain) && Genuine(g, b) && chain != []
    requires b.height == chain[|chain| - 1].height + 1
    ensures Push(chain, maxDepth, b).1.Extend?
            || Push(chain, maxDepth, b) == ([Link(b.height, b.hash)], Reorg(chain[0].height - 1))
  {
    if b.prevHash != chain[|chain| - 1].hash {
      forall k | 0 <= k < |chain|
        ensures chain[k].hash != b.prevHash
      {
        assert chain[|chain| - 1].height == g.heightOf(b.prevHash);
      }
      ReorgOutsideWindow(g, chain, maxDepth, b);
    }
  }
}
