/** The nullifier table as the server keeps it, an object whose methods update buckets, maps and count in place,
    each proved to act as the function on the value. */
module HashTableDb {
  import opened Bytes
  import opened SpendTypes
  import opened SpendClient
  import opened NullifierTable
  import opened NullifierRemoval
  import opened NullifierLookup

  method FindFreeSlot(entries: seq<NullifierEntry>) returns (slot: Option<nat>)
    ensures slot == FreeSlotFrom(entries, 0)
  {
    for i := 0 to |entries|
      invariant FreeSlotFrom(entries, 0) == FreeSlotFrom(entries, i)
    {
      if entries[i].IsEmpty() {
        return Some(i);
      }
    }
    return None;
  }

  method BucketContains(entries: seq<NullifierEntry>, nf: Hash) returns (found: bool)
    ensures found <==> exists k :: 0 <= k < |entries| && entries[k].nullifier == nf
  {
    for i := 0 to |entries|
      invariant forall k :: 0 <= k < i ==> entries[k].nullifier != nf
    {
      if entries[i].nullifier == nf {
        return true;
      }
    }
    return false;
  }

  // After an overflow nothing more is placed.
  lemma {:induction false} OverflowStops(buckets: seq<Bucket>, nfs: seq<NullifierWithMeta>, height: nat, i: nat)
    requires Shaped(buckets) && i <= |nfs| && PlaceAll(buckets, nfs[..i], height).overflow.Some?
    ensures PlaceAll(buckets, nfs, height) == PlaceAll(buckets, nfs[..i], height)
  {
    if i == |nfs| {
      assert nfs[..i] == nfs;
    } else {
      assert nfs[..|nfs| - 1][..i] == nfs[..i];
      OverflowStops(buckets, nfs[..|nfs| - 1], height, i);
    }
  }

  lemma PlaceNext(buckets: seq<Bucket>, nfs: seq<NullifierWithMeta>, height: nat, i: nat)
    requires Shaped(buckets) && i < |nfs| && PlaceAll(buckets, nfs[..i], height).overflow.None?
    ensures PlaceAll(buckets, nfs[..i + 1], height) == PlaceOne(PlaceAll(buckets, nfs[..i], height), nfs[i], height)
  {
    assert nfs[..i + 1][..i] == nfs[..i];
  }

  lemma ClearNext(buckets: seq<Bucket>, slots: seq<Slot>, i: nat)
    requires Shaped(buckets) && i < |slots| && forall k :: 0 <= k < |slots| ==> InRange(slots[k])
    ensures ClearAll(buckets, slots[..i + 1]) == Clear(ClearAll(buckets, slots[..i]), slots[i])
  {
    assert slots[..i + 1][..i] == slots[..i];
  }

  lemma OldestRemoved(t: Table, h: nat)
    requires Inv(t) && h in t.blockIndex && forall k :: k in t.blockIndex ==> h <= k
    ensures Removable(t, h) && h == Oldest(t)
    ensures EvictOldest(t) == Remove(t, h, t.blockIndex[h].blockHash)
  {
    InvRemovable(t, h);
  }

  // An entry of one row, then the rest.
  lemma RowNext(entries: seq<NullifierEntry>, i: nat)
    requires i < |entries|
    ensures EntriesBytes(entries[i..]) == entries[i].ToBytes() + EntriesBytes(entries[i + 1..])
  {
    assert entries[i..][1..] == entries[i + 1..];
  }

  class HashTableDb {
    var buckets: seq<Bucket>
    var blockIndex: map<nat, BlockRecord>
    var blockHashToHeight: map<Hash, nat>
    var numEntries: nat

    function View(): Table
      reads this
    {
      Table(buckets, blockIndex, blockHashToHeight, numEntries)
    }

    constructor ()
      ensures View() == EmptyTable()
    {
      buckets := seq(NUM_BUCKETS, _ => Bucket(seq(BUCKET_CAPACITY, _ => ZeroEntry()), 0));
      blockIndex := map[];
      blockHashToHeight := map[];
      numEntries := 0;
    }

    constructor Restored(t: Table)
      ensures View() == t
    {
      buckets, blockIndex := t.buckets, t.blockIndex;
      blockHashToHeight, numEntries := t.blockHashToHeight, t.numEntries;
    }

    method PlaceNullifier(nwm: NullifierWithMeta, height: nat, ghost slots: seq<Slot>) returns (placed: Option<Slot>)
      requires Shaped(buckets)
      modifies this`buckets
      ensures Shaped(buckets)
      ensures PlaceOne(Placed(old(buckets), slots, None), nwm, height)
              == if placed.Some? then Placed(buckets, slots + [placed.value], None)
                 else Placed(buckets, slots, Some(HashToBucket(nwm.nullifier)))
    {
      var b := HashToBucket(nwm.nullifier);
      var bucket := buckets[b];
      var slot := FindFreeSlot(bucket.entries);
      if slot.None? {
        return None;
      }
      var count := if slot.value >= bucket.count then slot.value + 1 else bucket.count;
      buckets := buckets[b := Bucket(bucket.entries[slot.value := EntryFor(nwm, height)], count)];
      placed := Some(Slot(b, slot.value));
    }

    method PlaceNullifiers(nullifiers: seq<NullifierWithMeta>, height: nat)
      returns (slots: seq<Slot>, overflow: Option<nat>)
      requires Shaped(buckets)
      modifies this`buckets, this`numEntries
      ensures Shaped(buckets) && numEntries == old(numEntries) + |slots|
      ensures PlaceAll(old(buckets), nullifiers, height) == Placed(buckets, slots, overflow)
    {
      slots, overflow := [], None;
      for i := 0 to |nullifiers|
        invariant Shaped(buckets) && numEntries == old(numEntries) + |slots| && overflow.None?
        invariant PlaceAll(old(buckets), nullifiers[..i], height) == Placed(buckets, slots, None)
      {
        PlaceNext(old(buckets), nullifiers, height, i);
        var slot := PlaceNullifier(nullifiers[i], height, slots);
        if slot.None? {
          OverflowStops(old(buckets), nullifiers, height, i + 1);
          overflow := Some(HashToBucket(nullifiers[i].nullifier));
          return;
        }
        slots := slots + [slot.value];
        numEntries := numEntries + 1;
      }
      assert nullifiers[..|nullifiers|] == nullifiers;
    }

    method InsertBlock(height: nat, blockHash: Hash, nullifiers: seq<NullifierWithMeta>) returns (r: Result)
      requires Shaped(buckets)
      modifies this
      ensures (View(), r) == Insert(old(View()), height, blockHash, nullifiers)
    {
      var slots, overflow := PlaceNullifiers(nullifiers, height);
      if overflow.Some? {
        return Err(BucketOverflow(overflow.value));
      }
      blockIndex := blockIndex[height := BlockRecord(blockHash, slots)];
      blockHashToHeight := blockHashToHeight[blockHash := height];
      r := Ok;
    }

    method ClearSlots(slots: seq<Slot>)
      requires Shaped(buckets) && forall k :: 0 <= k < |slots| ==> InRange(slots[k])
      requires |slots| <= numEntries
      modifies this`buckets, this`numEntries
      ensures buckets == ClearAll(old(buckets), slots) && numEntries == old(numEntries) - |slots|
    {
      for i := 0 to |slots|
        invariant Shaped(buckets) && buckets == ClearAll(old(buckets), slots[..i])
        invariant numEntries == old(numEntries)
      {
        ClearNext(old(buckets), slots, i);
        var bucket := buckets[slots[i].bucket];
        buckets := buckets[slots[i].bucket := bucket.(entries := bucket.entries[slots[i].slot := ZeroEntry()])];
      }
      assert slots[..|slots|] == slots;
      numEntries := numEntries - |slots|;
    }

    method RemoveRecord(height: nat)
      requires Removable(View(), height)
      modifies this`buckets, this`blockIndex, this`numEntries
      ensures buckets == ClearAll(old(buckets), old(blockIndex)[height].slots)
      ensures blockIndex == old(blockIndex) - {height}
      ensures numEntries == old(numEntries) - |old(blockIndex)[height].slots|
    {
      var record := blockIndex[height];
      blockIndex := blockIndex - {height};
      ClearSlots(record.slots);
    }

    method RollbackBlock(blockHash: Hash) returns (r: Result)
      requires blockHash in blockHashToHeight && blockHashToHeight[blockHash] in blockIndex
               ==> Removable(View(), blockHashToHeight[blockHash])
      modifies this
      ensures (View(), r) == Rollback(old(View()), blockHash)
    {
      if blockHash !in blockHashToHeight {
        return Err(BlockNotFound);
      }
      var height := blockHashToHeight[blockHash];
      blockHashToHeight := blockHashToHeight - {blockHash};
      if height !in blockIndex {
        return Err(BlockNotFound);
      }
      RemoveRecord(height);
      r := Ok;
    }

    method EvictOldestBlock() returns (evicted: Option<nat>)
      requires Inv(View())
      modifies this
      ensures old(blockIndex) == map[] ==> evicted.None? && View() == old(View())
      ensures old(blockIndex) != map[] ==>
                evicted == Some(Oldest(old(View()))) && View() == EvictOldest(old(View()))
    {
      evicted := EarliestHeight();
      if evicted.Some? {
        OldestRemoved(View(), evicted.value);
        EvictHeight(evicted.value);
      }
    }

    method EvictHeight(height: nat)
      requires Removable(View(), height)
      modifies this
      ensures View() == Remove(old(View()), height, old(blockIndex)[height].blockHash)
    {
      blockHashToHeight := blockHashToHeight - {blockIndex[height].blockHash};
      RemoveRecord(height);
    }

    method EarliestHeight() returns (earliest: Option<nat>)
      ensures earliest.None? <==> blockIndex == map[]
      ensures earliest.Some? ==> earliest.value in blockIndex && forall h :: h in blockIndex ==> earliest.value <= h
    {
      if |blockIndex| == 0 {
        return None;
      }
      assert blockIndex.Keys != {};
      ghost var least := MinKey(blockIndex.Keys);
      var height :| height in blockIndex && forall h :: h in blockIndex ==> height <= h;
      return Some(height);
    }

    method EvictToTarget()
      requires Inv(View())
      modifies this
      ensures View() == NullifierRemoval.EvictToTarget(old(View()))
    {
      while numEntries > TARGET_SIZE
        invariant Inv(View()) && NullifierRemoval.EvictToTarget(View()) == NullifierRemoval.EvictToTarget(old(View()))
        decreases |blockIndex|
      {
        if blockIndex != map[] {
          EvictToStep(View());
        }
        var evicted := EvictOldestBlock();
        if evicted.None? {
          break;
        }
      }
    }

    /** The server's own lookup agrees with the wallet's scan. */
    method Contains(nf: Hash) returns (found: bool)
      requires Shaped(buckets)
      ensures found <==> Lookup(PirBytes(buckets), [], nf).Some?
    {
      LookupFindsEntry(View(), [], nf);
      found := BucketContains(buckets[HashToBucket(nf)].entries, nf);
    }

    method ToPirBytes() returns (out: seq<byte>)
      requires Shaped(buckets)
      ensures out == PirBytes(buckets)
    {
      out := [];
      for b := 0 to |buckets|
        invariant out == RowsUpTo(buckets, b)
      {
        ghost var rows := out;
        var entries := buckets[b].entries;
        for i := 0 to |entries|
          invariant out + EntriesBytes(entries[i..]) == rows + EntriesBytes(entries)
        {
          RowNext(entries, i);
          Assoc(out, entries[i].ToBytes(), EntriesBytes(entries[i + 1..]));
          out := out + entries[i].ToBytes();
        }
      }
    }

    method LatestBlock() returns (latest: Option<(nat, Hash)>)
      ensures latest == LatestOf(blockIndex)
    {
      if |blockIndex| == 0 {
        return None;
      }
      ghost var newest := Newest(blockIndex);
      var height :| height in blockIndex && forall h :: h in blockIndex ==> h <= height;
      return Some((height, blockIndex[height].blockHash));
    }
  }
}
