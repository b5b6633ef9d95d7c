/** A table restored from a snapshot behaves as the one that was saved, whatever happens next: inserts that fit and
    inserts that overflow, rollbacks and evictions, from tables with leaks and without. */
module NullifierRestart {
  import opened Bytes
  import opened SpendTypes
  import opened NullifierTable
  import opened NullifierRemoval
  import opened NullifierLookup
  import opened NullifierRuns
  import opened NullifierSnapshot

  // ----- No operation reads the high-water marks

  lemma SameAt(a: seq<Bucket>, b: seq<Bucket>, r: Slot)
    requires Shaped(a) && Shaped(b) && SameEntries(a, b) && InRange(r)
    ensures EntryAt(a, r) == EntryAt(b, r)
  {
  }

  lemma PlaceOneSame(p: Placed, q: Placed, nwm: NullifierWithMeta, height: nat)
    requires Shaped(p.buckets) && Shaped(q.buckets) && SameEntries(p.buckets, q.buckets)
    requires p.overflow.None? && q.overflow.None? && p.slots == q.slots
    ensures var (x, y) := (PlaceOne(p, nwm, height), PlaceOne(q, nwm, height));
            SameEntries(x.buckets, y.buckets) && x.slots == y.slots && x.overflow == y.overflow
  {
  }

  lemma {:induction false} PlaceAllSame(a: seq<Bucket>, b: seq<Bucket>, nfs: seq<NullifierWithMeta>, height: nat)
    requires Shaped(a) && Shaped(b) && SameEntries(a, b)
    ensures var (p, q) := (PlaceAll(a, nfs, height), PlaceAll(b, nfs, height));
            SameEntries(p.buckets, q.buckets) && p.slots == q.slots && p.overflow == q.overflow
  {
    if nfs != [] {
      var init := nfs[..|nfs| - 1];
      PlaceAllSame(a, b, init, height);
      var p, q := PlaceAll(a, init, height), PlaceAll(b, init, height);
      if p.overflow.None? {
        PlaceOneSame(p, q, nfs[|nfs| - 1], height);
      }
    }
  }

  lemma ClearAllSame(a: seq<Bucket>, b: seq<Bucket>, slots: seq<Slot>)
    requires Shaped(a) && Shaped(b) && SameEntries(a, b) && forall k :: 0 <= k < |slots| ==> InRange(slots[k])
    ensures SameEntries(ClearAll(a, slots), ClearAll(b, slots))
  {
    forall r: Slot | InRange(r)
      ensures EntryAt(ClearAll(a, slots), r) == EntryAt(ClearAll(b, slots), r)
    {
      SameAt(a, b, r);
    }
    EntrywiseSame(ClearAll(a, slots), ClearAll(b, slots));
  }

  lemma SameInv(a: Table, b: Table)
    requires SameButMarks(a, b) && Inv(a)
    ensures Inv(b)
  {
    forall r: Slot | InRange(r)
      ensures EntryAt(a.buckets, r) == EntryAt(b.buckets, r)
    {
      SameAt(a.buckets, b.buckets, r);
    }
    assert Occupied(a.buckets) == Occupied(b.buckets);
    forall h, k | IsRef(b, h, k)
      ensures IsRef(a, h, k) && Ref(a, h, k) == Ref(b, h, k)
    {
    }
  }

  lemma SameRemoved(a: Table, b: Table, height: nat)
    requires SameButMarks(a, b) && Inv(a) && Inv(b) && height in a.blockIndex
    ensures Removable(a, height) && Removable(b, height)
    ensures var hash := a.blockIndex[height].blockHash;
            SameButMarks(Remove(a, height, hash), Remove(b, height, hash))
  {
    InvRemovable(a, height);
    InvRemovable(b, height);
    ClearAllSame(a.buckets, b.buckets, a.blockIndex[height].slots);
  }

  lemma SameEvictOldest(a: Table, b: Table)
    requires SameButMarks(a, b) && Inv(a) && Inv(b) && a.blockIndex != map[]
    ensures SameButMarks(EvictOldest(a), EvictOldest(b))
  {
    SameRemoved(a, b, Oldest(a));
  }

  lemma {:induction false} SameEvicted(a: Table, b: Table)
    requires SameButMarks(a, b) && Inv(a) && Inv(b)
    ensures SameButMarks(EvictToTarget(a), EvictToTarget(b))
    decreases |a.blockIndex|
  {
    if a.numEntries > TARGET_SIZE && a.blockIndex != map[] {
      SameEvictOldest(a, b);
      EvictToStep(a);
      EvictToStep(b);
      SameEvicted(EvictOldest(a), EvictOldest(b));
    } else {
      assert EvictToTarget(a) == a && EvictToTarget(b) == b;
    }
  }

  /** Every operation acts alike on tables that differ only in their high-water marks. */
  lemma SameStep(a: Table, b: Table, op: TableOp)
    requires SameButMarks(a, b) && Inv(a) && Inv(b)
    ensures SameButMarks(Apply(a, op), Apply(b, op))
  {
    match op
    case InsertBlock(h, hash, nfs) => PlaceAllSame(a.buckets, b.buckets, nfs, h);
    case RollbackBlock(hash) =>
      if hash in a.blockHashToHeight {
        SameRemoved(a, b, a.blockHashToHeight[hash]);
      }
    case EvictOldestBlock =>
      if a.blockIndex != map[] {
        SameEvictOldest(a, b);
      }
    case EvictDown => SameEvicted(a, b);
  }

  // ----- Runs

  // Restored blocks hold the same nullifiers, and a table without leaks is restored without leaks.
  lemma SameBlocks(a: Table, b: Table)
    requires SameButMarks(a, b) && Inv(a) && Inv(b)
    ensures RefsInRange(a) && RefsInRange(b) && Live(a) == Live(b)
    ensures Clean(a) ==> Clean(b)
  {
    InvRefsInRange(a);
    InvRefsInRange(b);
    forall h | h in a.blockIndex
      ensures Contents(a.buckets, a.blockIndex[h].slots) == Contents(b.buckets, a.blockIndex[h].slots)
    {
      ContentsAgree(a.buckets, b.buckets, a.blockIndex[h].slots);
    }
    if Clean(a) {
      SameClean(a, b);
    }
  }

  lemma SameClean(a: Table, b: Table)
    requires SameButMarks(a, b) && Clean(a)
    ensures Clean(b)
  {
    forall r: Slot | InRange(r) && !EntryAt(b.buckets, r).IsEmpty()
      ensures exists h, k :: IsRef(b, h, k) && Ref(b, h, k) == r
    {
      SameAt(a.buckets, b.buckets, r);
      var h, k :| IsRef(a, h, k) && Ref(a, h, k) == r;
      assert IsRef(b, h, k) && Ref(b, h, k) == r;
    }
  }

  lemma {:induction false} SameRuns(a: Table, b: Table, ops: seq<TableOp>)
    requires SameButMarks(a, b) && Inv(a) && Inv(b) && AllPossible(a, ops)
    ensures AllPossible(b, ops) && SameButMarks(RunFrom(a, ops), RunFrom(b, ops))
    decreases |ops|
  {
    if ops != [] {
      RunFromStep(a, ops);
      ApplyInv(b, ops[0]);
      SameStep(a, b, ops[0]);
      SameRuns(Apply(a, ops[0]), Apply(b, ops[0]), ops[1..]);
      RunFromStep(b, ops);
    }
  }

  /** A restart cannot be noticed, leaks or not. The restored table holds the same blocks, and after any further
      inserts (overflowing ones included), rollbacks and evictions both tables have the same blocks, the same hash
      map, the same count, the same entries and the same bytes. */
  lemma RestartUnnoticed(t: Table, xxh: seq<byte> -> u64, ops: seq<TableOp>)
    requires Inv(t) && Representable(t) && AllPossible(t, ops)
    ensures var d := Decode(Encode(t, xxh), xxh);
            && d.Read? && Inv(d.value) && RefsInRange(t) && RefsInRange(d.value) && Live(d.value) == Live(t)
            && (Clean(t) ==> Clean(d.value))
            && AllPossible(d.value, ops) && SameButMarks(RunFrom(t, ops), RunFrom(d.value, ops))
            && PirBytes(RunFrom(t, ops).buckets) == PirBytes(RunFrom(d.value, ops).buckets)
  {
    SnapshotRoundTrip(t, xxh);
    RestoredRuns(t, Decode(Encode(t, xxh), xxh).value, ops);
  }

  lemma RestoredRuns(t: Table, s: Table, ops: seq<TableOp>)
    requires Inv(t) && AllPossible(t, ops) && SameButMarks(s, t)
    ensures Inv(s) && RefsInRange(t) && RefsInRange(s) && Live(s) == Live(t) && (Clean(t) ==> Clean(s))
    ensures AllPossible(s, ops) && SameButMarks(RunFrom(t, ops), RunFrom(s, ops))
    ensures PirBytes(RunFrom(t, ops).buckets) == PirBytes(RunFrom(s, ops).buckets)
  {
    SameButMarksFlip(s, t);
    SameInv(t, s);
    SameBlocks(t, s);
    SameRuns(t, s, ops);
    SameRows(RunFrom(t, ops).buckets, RunFrom(s, ops).buckets, NUM_BUCKETS);
  }

  lemma SameButMarksFlip(a: Table, b: Table)
    requires SameButMarks(a, b)
    ensures SameButMarks(b, a)
  {
  }
}
