/** How many nullifiers of a range of blocks fall into each bucket, and whether a table has room for a range on top
    of the blocks it already holds. */
module SyncDemand {
  import opened Bytes
  import opened SpendTypes
  import opened NullifierTable
  import opened NullifierCapacity
  import opened Parsers
  import opened FollowLoop

  // The chain as the light-wallet server delivers it: one block at every height.
  type Chain = nat -> CompactBlock

  // The nullifiers of the block at height h that hash to bucket b.
  function BlockDemand(chain: Chain, h: nat, b: nat): nat {
    Demand(MetasFor(chain(h), None), b)
  }

  // Those of the blocks from height lo to before hi.
  function DemandOver(chain: Chain, lo: nat, hi: nat, b: nat): nat
    decreases hi, lo
  {
    if hi <= lo then 0 else DemandOver(chain, lo, hi - 1, b) + BlockDemand(chain, hi - 1, b)
  }

  // ----- Demand does not depend on positions

  lemma {:induction false} DemandAppend(a: seq<NullifierWithMeta>, c: seq<NullifierWithMeta>, b: nat)
    ensures Demand(a + c, b) == Demand(a, b) + Demand(c, b)
  {
    if c == [] {
      assert a + c == a;
    } else {
      assert (a + c)[..|a + c| - 1] == a + c[..|c| - 1];
      DemandAppend(a, c[..|c| - 1], b);
    }
  }

  lemma {:induction false} ActionDemand(actions: seq<Action>, first: u32, other: u32, count: byte, b: nat)
    ensures Demand(MetasOfActions(actions, first, count), b) == Demand(MetasOfActions(actions, other, count), b)
  {
    if actions != [] {
      var init, nf := actions[..|actions| - 1], actions[|actions| - 1].nullifier;
      ActionDemand(init, first, other, count, b);
      if |nf| == 32 {
        DemandAppend(MetasOfActions(init, first, count), [NullifierWithMeta(nf, first, count)], b);
        DemandAppend(MetasOfActions(init, other, count), [NullifierWithMeta(nf, other, count)], b);
        OneDemand(nf, first, other, count, b);
      } else {
        NoMore(init, first, count);
        NoMore(init, other, count);
      }
    }
  }

  lemma NoMore(init: seq<Action>, first: u32, count: byte)
    ensures MetasOfActions(init, first, count) + [] == MetasOfActions(init, first, count)
  {
  }

  lemma OneDemand(nf: Hash, first: u32, other: u32, count: byte, b: nat)
    ensures Demand([NullifierWithMeta(nf, first, count)], b) == Demand([NullifierWithMeta(nf, other, count)], b)
  {
    assert [NullifierWithMeta(nf, first, count)][..0] == [] && [NullifierWithMeta(nf, other, count)][..0] == [];
  }

  lemma {:induction false} StartIsIrrelevant(txs: seq<Tx>, start: Option<u32>, b: nat)
    ensures Demand(MetasOf(txs, start), b) == Demand(MetasOf(txs, None), b)
  {
    if txs != [] {
      var n := |txs| - 1;
      var count: byte := |txs[n].actions| % 256;
      var p, q := OrZero(PositionAfter(start, txs[..n])), OrZero(PositionAfter(None, txs[..n]));
      StartIsIrrelevant(txs[..n], start, b);
      DemandAppend(MetasOf(txs[..n], start), MetasOfActions(txs[n].actions, p, count), b);
      DemandAppend(MetasOf(txs[..n], None), MetasOfActions(txs[n].actions, q, count), b);
      ActionDemand(txs[n].actions, p, q, count, b);
    }
  }

  lemma {:induction false} ActionCount(actions: seq<Action>, first: u32, other: u32, count: byte)
    ensures |MetasOfActions(actions, first, count)| == |MetasOfActions(actions, other, count)|
  {
    if actions != [] {
      ActionCount(actions[..|actions| - 1], first, other, count);
    }
  }

  // Nor does it change how many nullifiers there are.
  lemma {:induction false} StartKeepsCount(txs: seq<Tx>, start: Option<u32>)
    ensures |MetasOf(txs, start)| == |MetasOf(txs, None)|
  {
    if txs != [] {
      var n := |txs| - 1;
      var count: byte := |txs[n].actions| % 256;
      StartKeepsCount(txs[..n], start);
      ActionCount(txs[n].actions, OrZero(PositionAfter(start, txs[..n])), OrZero(PositionAfter(None, txs[..n])), count);
    }
  }

  // How many nullifiers the block at a height brings.
  function BlockCount(chain: Chain, h: nat): nat {
    |MetasFor(chain(h), None)|
  }

  lemma PriorKeepsCount(chain: Chain, h: nat, prior: Option<u32>)
    ensures |MetasFor(chain(h), prior)| == BlockCount(chain, h)
  {
    StartKeepsCount(chain(h).vtx, SizeBefore(chain(h), prior));
    StartKeepsCount(chain(h).vtx, SizeBefore(chain(h), None));
  }

  /** Whatever prior size a block is read with, its demand is the same. */
  lemma PriorIsIrrelevant(chain: Chain, h: nat, prior: Option<u32>, b: nat)
    ensures Demand(MetasFor(chain(h), prior), b) == BlockDemand(chain, h, b)
  {
    StartIsIrrelevant(chain(h).vtx, SizeBefore(chain(h), prior), b);
    StartIsIrrelevant(chain(h).vtx, SizeBefore(chain(h), None), b);
  }

  // ----- Ranges

  lemma {:induction false} DemandSplit(chain: Chain, lo: nat, mid: nat, hi: nat, b: nat)
    requires lo <= mid <= hi
    ensures DemandOver(chain, lo, hi, b) == DemandOver(chain, lo, mid, b) + DemandOver(chain, mid, hi, b)
    decreases hi
  {
    if mid < hi {
      DemandSplit(chain, lo, mid, hi - 1, b);
    }
  }

  // From `before` to `now`, each bucket has taken in the demand of the heights from lo to before hi.
  ghost predicate TookIn(chain: Chain, before: map<nat, LiveBlock>, now: map<nat, LiveBlock>, lo: nat, hi: nat) {
    forall b :: 0 <= b < NUM_BUCKETS ==> BucketTookIn(chain, before, now, lo, hi, b)
  }

  ghost predicate BucketTookIn(chain: Chain, before: map<nat, LiveBlock>, now: map<nat, LiveBlock>, lo: nat, hi: nat,
                               b: nat) {
    Used(now, b) == Used(before, b) + DemandOver(chain, lo, hi, b)
  }

  // Every bucket has room for the heights from lo to before hi.
  ghost predicate RangeFits(chain: Chain, live: map<nat, LiveBlock>, lo: nat, hi: nat) {
    forall b :: 0 <= b < NUM_BUCKETS ==> BucketFits(chain, live, lo, hi, b)
  }

  ghost predicate BucketFits(chain: Chain, live: map<nat, LiveBlock>, lo: nat, hi: nat, b: nat) {
    Used(live, b) + DemandOver(chain, lo, hi, b) <= BUCKET_CAPACITY
  }

  lemma TakeNext(chain: Chain, before: map<nat, LiveBlock>, now: map<nat, LiveBlock>, lo: nat, h: nat, hash: Hash,
                 prior: Option<u32>)
    requires TookIn(chain, before, now, lo, h) && lo <= h && h !in now
    ensures TookIn(chain, before, now[h := LiveBlock(hash, MetasFor(chain(h), prior))], lo, h + 1)
  {
    var block := LiveBlock(hash, MetasFor(chain(h), prior));
    var after, next := now[h := block], h + 1;
    forall b | 0 <= b < NUM_BUCKETS
      ensures BucketTookIn(chain, before, after, lo, next, b)
    {
      assert BucketTookIn(chain, before, now, lo, h, b);
      UsedInsert(now, h, block, b);
      PriorIsIrrelevant(chain, h, prior, b);
    }
  }

  // A block that does not fit is a range that does not fit.
  lemma NextDoesNotFit(chain: Chain, before: map<nat, LiveBlock>, now: map<nat, LiveBlock>, lo: nat, h: nat, hi: nat,
                       prior: Option<u32>, b: nat)
    requires TookIn(chain, before, now, lo, h) && lo <= h < hi && b < NUM_BUCKETS
    requires Used(now, b) + Demand(MetasFor(chain(h), prior), b) > BUCKET_CAPACITY
    ensures Used(before, b) + DemandOver(chain, lo, hi, b) > BUCKET_CAPACITY && !RangeFits(chain, before, lo, hi)
  {
    assert BucketTookIn(chain, before, now, lo, h, b);
    PriorIsIrrelevant(chain, h, prior, b);
    DemandSplit(chain, lo, h + 1, hi, b);
    assert !BucketFits(chain, before, lo, hi, b);
  }

  // A table that has taken a range in had room for it.
  lemma TakenFits(chain: Chain, before: map<nat, LiveBlock>, t: Table, lo: nat, hi: nat)
    requires Inv(t) && Clean(t) && RefsInRange(t) && TookIn(chain, before, Live(t), lo, hi)
    ensures RangeFits(chain, before, lo, hi)
  {
    forall b | 0 <= b < NUM_BUCKETS
      ensures BucketFits(chain, before, lo, hi, b)
    {
      assert BucketTookIn(chain, before, Live(t), lo, hi, b);
      RoomIsCapacity(t, b);
    }
  }

  // What a table holds of one range, extended downwards by another.
  lemma JoinRanges(chain: Chain, live: map<nat, LiveBlock>, now: map<nat, LiveBlock>, lo: nat, mid: nat, hi: nat)
    requires TookIn(chain, map[], live, mid, hi) && lo <= mid <= hi
    ensures RangeFits(chain, live, lo, mid) <==> RangeFits(chain, map[], lo, hi)
    ensures TookIn(chain, live, now, lo, mid) ==> TookIn(chain, map[], now, lo, hi)
    ensures forall b :: 0 <= b < NUM_BUCKETS && !BucketFits(chain, live, lo, mid, b)
                        ==> DemandOver(chain, lo, hi, b) > BUCKET_CAPACITY
  {
    forall b | 0 <= b < NUM_BUCKETS
      ensures BucketFits(chain, live, lo, mid, b) <==> BucketFits(chain, map[], lo, hi, b)
      ensures BucketTookIn(chain, live, now, lo, mid, b) ==> BucketTookIn(chain, map[], now, lo, hi, b)
      ensures !BucketFits(chain, live, lo, mid, b) ==> DemandOver(chain, lo, hi, b) > BUCKET_CAPACITY
    {
      assert BucketTookIn(chain, map[], live, mid, hi, b);
      DemandSplit(chain, lo, mid, hi, b);
      NothingUsed(b);
    }
    if !RangeFits(chain, live, lo, mid) {
      var b :| 0 <= b < NUM_BUCKETS && !BucketFits(chain, live, lo, mid, b);
      assert !BucketFits(chain, map[], lo, hi, b);
    }
  }

  lemma NothingUsed(b: nat)
    ensures Used(map[], b) == 0
  {
    assert Demands(map[], b) == map[];
  }

  // ----- How many nullifiers a range of blocks brings

  function CountOver(chain: Chain, lo: nat, hi: nat): nat
    decreases hi, lo
  {
    if hi <= lo then 0 else CountOver(chain, lo, hi - 1) + BlockCount(chain, hi - 1)
  }

  lemma {:induction false} CountGrows(chain: Chain, lo: nat, mid: nat, hi: nat)
    requires lo <= mid
    ensures CountOver(chain, lo, hi) >= CountOver(chain, mid, hi)
    decreases hi
  {
    if hi > lo {
      CountGrows(chain, lo, mid, hi - 1);
    }
  }
}
