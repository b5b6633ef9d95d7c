/** When an insert succeeds, and what a failed one leaves behind. */
module NullifierCapacity {
  import opened Bytes
  import opened SpendTypes
  import opened NullifierTable
  import opened NullifierRemoval

  // ----- Counting empty slots and demand by bucket

  function FreeCount(entries: seq<NullifierEntry>): (n: nat)
    ensures n <= |entries|
  {
    if entries == [] then 0 else (if entries[0].IsEmpty() then 1 else 0) + FreeCount(entries[1..])
  }

  function Free(buckets: seq<Bucket>, b: nat): nat
    requires Shaped(buckets) && b < NUM_BUCKETS
  {
    FreeCount(buckets[b].entries)
  }

  // How many of these nullifiers hash to bucket b.
  function Demand(nfs: seq<NullifierWithMeta>, b: nat): nat {
    if nfs == [] then 0
    else Demand(nfs[..|nfs| - 1], b) + (if HashToBucket(nfs[|nfs| - 1].nullifier) == b then 1 else 0)
  }

  lemma {:induction false} FreeUpdate(entries: seq<NullifierEntry>, s: nat, e: NullifierEntry)
    requires s < |entries|
    ensures FreeCount(entries[s := e])
            == FreeCount(entries) - (if entries[s].IsEmpty() then 1 else 0) + (if e.IsEmpty() then 1 else 0)
  {
    if s == 0 {
      assert entries[0 := e][1..] == entries[1..];
    } else {
      assert entries[s := e][1..] == entries[1..][s - 1 := e];
      FreeUpdate(entries[1..], s - 1, e);
    }
  }

  lemma {:induction false} FreeZero(entries: seq<NullifierEntry>)
    ensures FreeCount(entries) == 0 <==> forall k :: 0 <= k < |entries| ==> !entries[k].IsEmpty()
    ensures FreeCount(entries) == |entries| <==> forall k :: 0 <= k < |entries| ==> entries[k].IsEmpty()
  {
    if entries != [] {
      FreeZero(entries[1..]);
      assert forall k :: 1 <= k < |entries| ==> entries[k] == entries[1..][k - 1];
    }
  }

  // ----- Placement against demand

  // Every bucket has room for its share.
  ghost predicate Fits(buckets: seq<Bucket>, nfs: seq<NullifierWithMeta>)
    requires Shaped(buckets)
  {
    forall b :: 0 <= b < NUM_BUCKETS ==> Demand(nfs, b) <= Free(buckets, b)
  }

  ghost predicate Consumed(before: seq<Bucket>, after: seq<Bucket>, nfs: seq<NullifierWithMeta>)
    requires Shaped(before) && Shaped(after)
  {
    forall b :: 0 <= b < NUM_BUCKETS ==> Free(after, b) == Free(before, b) - Demand(nfs, b)
  }

  lemma PlaceOneConsumes(before: seq<Bucket>, nfs: seq<NullifierWithMeta>, nwm: NullifierWithMeta, height: nat,
                         p: Placed)
    requires Shaped(before) && Shaped(p.buckets) && p.overflow.None? && Consumed(before, p.buckets, nfs)
    requires nwm.nullifier != ZeroHash()
    ensures var q := PlaceOne(p, nwm, height);
            && (q.overflow.None? <==> Free(p.buckets, HashToBucket(nwm.nullifier)) > 0)
            && (q.overflow.None? ==> Consumed(before, q.buckets, nfs + [nwm]))
  {
    var b := HashToBucket(nwm.nullifier);
    FreeZero(p.buckets[b].entries);
    var q := PlaceOne(p, nwm, height);
    if q.overflow.None? {
      var s := q.slots[|p.slots|].slot;
      FreeUpdate(p.buckets[b].entries, s, EntryFor(nwm, height));
    }
  }

  lemma {:induction false} PlaceAllConsumes(before: seq<Bucket>, nfs: seq<NullifierWithMeta>, height: nat)
    requires Shaped(before) && NonZero(nfs)
    ensures var p := PlaceAll(before, nfs, height);
            && (p.overflow.None? <==> Fits(before, nfs))
            && (p.overflow.None? ==> Consumed(before, p.buckets, nfs))
  {
    if nfs != [] {
      var init, last := nfs[..|nfs| - 1], nfs[|nfs| - 1];
      PlaceAllConsumes(before, init, height);
      var p, b := PlaceAll(before, init, height), HashToBucket(last.nullifier);
      assert init + [last] == nfs;
      if p.overflow.None? {
        PlaceOneConsumes(before, init, last, height, p);
        assert Demand(nfs, b) == Demand(init, b) + 1;
      } else {
        var full :| 0 <= full < NUM_BUCKETS && Demand(init, full) > Free(before, full);
        assert Demand(nfs, full) >= Demand(init, full);
      }
    }
  }

  // The bucket that an insert reports is one whose demand exceeds its empty slots.
  lemma {:induction false} OverflowBucket(before: seq<Bucket>, nfs: seq<NullifierWithMeta>, height: nat)
    requires Shaped(before) && NonZero(nfs) && PlaceAll(before, nfs, height).overflow.Some?
    ensures var b := PlaceAll(before, nfs, height).overflow.value;
            b < NUM_BUCKETS && Demand(nfs, b) > Free(before, b)
  {
    var init, last := nfs[..|nfs| - 1], nfs[|nfs| - 1];
    var p, b := PlaceAll(before, init, height), HashToBucket(last.nullifier);
    if p.overflow.Some? {
      OverflowBucket(before, init, height);
    } else {
      PlaceAllConsumes(before, init, height);
      PlaceOneConsumes(before, init, last, height, p);
      assert Demand(nfs, b) == Demand(init, b) + 1;
    }
  }

  // ----- Room as a function of the live blocks

  ghost function Demands(live: map<nat, LiveBlock>, b: nat): map<nat, nat> {
    map h | h in live :: Demand(live[h].nullifiers, b)
  }

  // How many nullifiers of live blocks hash to bucket b.
  ghost function Used(live: map<nat, LiveBlock>, b: nat): nat {
    Sum(Demands(live, b))
  }

  lemma {:induction false} ClearAllFree(buckets: seq<Bucket>, slots: seq<Slot>, b: nat)
    requires Shaped(buckets) && b < NUM_BUCKETS && SlotsOk(buckets)
    requires forall k :: 0 <= k < |slots| ==> InRange(slots[k]) && !EntryAt(buckets, slots[k]).IsEmpty()
    requires forall j, k :: 0 <= j < k < |slots| ==> slots[j] != slots[k]
    ensures Free(ClearAll(buckets, slots), b) == Free(buckets, b) + Demand(Contents(buckets, slots), b)
  {
    if slots != [] {
      var init, last := slots[..|slots| - 1], slots[|slots| - 1];
      ClearAllFree(buckets, init, b);
      var after := ClearAll(buckets, init);
      assert EntryAt(after, last) == EntryAt(buckets, last);
      FreeUpdate(after[last.bucket].entries, last.slot, ZeroEntry());
      assert Contents(buckets, slots)[..|slots| - 1] == Contents(buckets, init);
    }
  }

  lemma UsedRemove(live: map<nat, LiveBlock>, h: nat, b: nat)
    requires h in live
    ensures Used(live, b) == Demand(live[h].nullifiers, b) + Used(live - {h}, b)
  {
    SumRemove(Demands(live, b), h);
    assert Demands(live - {h}, b) == Demands(live, b) - {h};
  }

  lemma EmptyBuckets(t: Table, b: nat)
    requires Inv(t) && Clean(t) && t.blockIndex == map[] && b < NUM_BUCKETS
    ensures Free(t.buckets, b) == BUCKET_CAPACITY
  {
    forall s | 0 <= s < BUCKET_CAPACITY
      ensures t.buckets[b].entries[s].IsEmpty()
    {
      assert EntryAt(t.buckets, Slot(b, s)) == t.buckets[b].entries[s];
    }
    FreeZero(t.buckets[b].entries);
  }

  /** In a table without leaks, each bucket's empty and used slots make up its capacity. */
  lemma {:induction false} RoomIsCapacity(t: Table, b: nat)
    requires Inv(t) && Clean(t) && b < NUM_BUCKETS
    ensures RefsInRange(t) && Free(t.buckets, b) + Used(Live(t), b) == BUCKET_CAPACITY
    decreases |t.blockIndex|
  {
    InvRefsInRange(t);
    if t.blockIndex == map[] {
      EmptyBuckets(t, b);
    } else {
      var m := Oldest(t);
      EvictStep(t);
      RecordSlots(t, m);
      ClearAllFree(t.buckets, t.blockIndex[m].slots, b);
      UsedRemove(Live(t), m, b);
      RoomIsCapacity(EvictOldest(t), b);
    }
  }

  // Every bucket has room for its share of a new block beside what the live blocks hold.
  ghost predicate Room(live: map<nat, LiveBlock>, nfs: seq<NullifierWithMeta>) {
    forall b :: 0 <= b < NUM_BUCKETS ==> Used(live, b) + Demand(nfs, b) <= BUCKET_CAPACITY
  }

  /** An insert succeeds exactly when no bucket would have to hold more than its capacity. */
  lemma InsertSucceedsIff(t: Table, height: nat, blockHash: Hash, nfs: seq<NullifierWithMeta>)
    requires Inv(t) && Clean(t) && NonZero(nfs)
    ensures RefsInRange(t)
    ensures Insert(t, height, blockHash, nfs).1.Ok? <==> Room(Live(t), nfs)
  {
    InvRefsInRange(t);
    PlaceAllConsumes(t.buckets, nfs, height);
    forall b | 0 <= b < NUM_BUCKETS
      ensures Free(t.buckets, b) + Used(Live(t), b) == BUCKET_CAPACITY
    {
      RoomIsCapacity(t, b);
    }
  }

  lemma OverflowedBucket(t: Table, height: nat, blockHash: Hash, nfs: seq<NullifierWithMeta>)
    requires Inv(t) && Clean(t) && NonZero(nfs) && Insert(t, height, blockHash, nfs).1.Err?
    ensures RefsInRange(t)
    ensures var e := Insert(t, height, blockHash, nfs).1.error;
            e.BucketOverflow? && e.bucketIdx < NUM_BUCKETS
            && Used(Live(t), e.bucketIdx) + Demand(nfs, e.bucketIdx) > BUCKET_CAPACITY
  {
    OverflowBucket(t.buckets, nfs, height);
    RoomIsCapacity(t, PlaceAll(t.buckets, nfs, height).overflow.value);
  }

  lemma UsedInsert(live: map<nat, LiveBlock>, h: nat, block: LiveBlock, b: nat)
    requires h !in live
    ensures Used(live[h := block], b) == Used(live, b) + Demand(block.nullifiers, b)
  {
    UsedRemove(live[h := block], h, b);
    MapUndo(live, h, block);
  }

  // ----- Failed inserts

  lemma {:induction false} NothingPlacedIff(buckets: seq<Bucket>, nfs: seq<NullifierWithMeta>, height: nat)
    requires Shaped(buckets) && nfs != []
    ensures PlaceAll(buckets, nfs, height).slots == [] <==> Free(buckets, HashToBucket(nfs[0].nullifier)) == 0
    ensures PlaceAll(buckets, nfs, height).slots == [] ==> PlaceAll(buckets, nfs, height).buckets == buckets
  {
    var b := HashToBucket(nfs[0].nullifier);
    FreeZero(buckets[b].entries);
    var init := nfs[..|nfs| - 1];
    if init != [] {
      NothingPlacedIff(buckets, init, height);
    } else {
      assert PlaceAll(buckets, init, height) == Placed(buckets, [], None);
    }
  }

  /** A failed insert is not undone. It leaves the table as it was exactly when the bucket of the block's first
      nullifier was already full; otherwise entries of a block that was never recorded stay behind. */
  lemma FailedInsertUnchangedIff(t: Table, height: nat, blockHash: Hash, nfs: seq<NullifierWithMeta>)
    requires Shaped(t.buckets) && nfs != [] && Insert(t, height, blockHash, nfs).1.Err?
    ensures Insert(t, height, blockHash, nfs).0 == t <==> Free(t.buckets, HashToBucket(nfs[0].nullifier)) == 0
  {
    NothingPlacedIff(t.buckets, nfs, height);
  }
}
