/** What a failed insert leaves behind stays behind, whatever happens to the table afterwards. */
module NullifierLeaks {
  import opened Bytes
  import opened SpendTypes
  import opened NullifierTable
  import opened NullifierRemoval
  import opened NullifierLookup
  import opened NullifierRuns

  // A stored entry that no recorded block owns.
  ghost predicate Leaked(t: Table, r: Slot, e: NullifierEntry) {
    && Shaped(t.buckets) && InRange(r) && EntryAt(t.buckets, r) == e && !e.IsEmpty()
    && forall h, k :: IsRef(t, h, k) ==> Ref(t, h, k) != r
  }

  lemma InsertKeepsLeak(t: Table, height: nat, hash: Hash, nfs: seq<NullifierWithMeta>, r: Slot, e: NullifierEntry)
    requires Inv(t) && NonZero(nfs) && height !in t.blockIndex && Leaked(t, r, e)
    ensures Leaked(Insert(t, height, hash, nfs).0, r, e)
  {
    var u, p := Insert(t, height, hash, nfs).0, PlaceAll(t.buckets, nfs, height);
    PlaceAllOk(t.buckets, nfs, height);
    forall h, k | IsRef(u, h, k)
      ensures Ref(u, h, k) != r
    {
      if p.overflow.Some? || h != height {
        assert IsRef(t, h, k) && Ref(t, h, k) == Ref(u, h, k);
      }
    }
  }

  lemma RemoveKeepsLeak(t: Table, height: nat, r: Slot, e: NullifierEntry)
    requires Inv(t) && height in t.blockIndex && Leaked(t, r, e)
    ensures Removable(t, height) && Inv(Remove(t, height, t.blockIndex[height].blockHash))
    ensures Leaked(Remove(t, height, t.blockIndex[height].blockHash), r, e)
  {
    RemoveDropsBlock(t, height);
    var u, slots := Remove(t, height, t.blockIndex[height].blockHash), t.blockIndex[height].slots;
    forall j | 0 <= j < |slots|
      ensures slots[j] != r
    {
      assert IsRef(t, height, j) && Ref(t, height, j) == slots[j];
    }
    forall h, k | IsRef(u, h, k)
      ensures Ref(u, h, k) != r
    {
      assert IsRef(t, h, k) && Ref(t, h, k) == Ref(u, h, k);
    }
  }

  lemma {:induction false} EvictionKeepsLeak(t: Table, r: Slot, e: NullifierEntry)
    requires Inv(t) && Leaked(t, r, e)
    ensures Leaked(EvictToTarget(t), r, e)
    decreases |t.blockIndex|
  {
    if t.numEntries > TARGET_SIZE && t.blockIndex != map[] {
      RemoveKeepsLeak(t, Oldest(t), r, e);
      EvictToStep(t);
      EvictionKeepsLeak(EvictOldest(t), r, e);
    } else {
      assert EvictToTarget(t) == t;
    }
  }

  lemma StepKeepsLeak(t: Table, op: TableOp, r: Slot, e: NullifierEntry)
    requires Inv(t) && Possible(t, op) && Leaked(t, r, e)
    ensures Leaked(Apply(t, op), r, e)
  {
    match op
    case InsertBlock(h, hash, nfs) => InsertKeepsLeak(t, h, hash, nfs, r, e);
    case RollbackBlock(hash) =>
      if hash in t.blockHashToHeight {
        RemoveKeepsLeak(t, t.blockHashToHeight[hash], r, e);
      }
    case EvictOldestBlock =>
      if t.blockIndex != map[] {
        RemoveKeepsLeak(t, Oldest(t), r, e);
      }
    case EvictDown => EvictionKeepsLeak(t, r, e);
  }

  /** A leaked entry is beyond the reach of every later insert, rollback and eviction. */
  lemma {:induction false} LeakStays(t: Table, ops: seq<TableOp>, r: Slot, e: NullifierEntry)
    requires Inv(t) && AllPossible(t, ops) && Leaked(t, r, e)
    ensures Leaked(RunFrom(t, ops), r, e)
    decreases |ops|
  {
    if ops != [] {
      RunFromStep(t, ops);
      StepKeepsLeak(t, ops[0], r, e);
      LeakStays(Apply(t, ops[0]), ops[1..], r, e);
    }
  }

  lemma LeakIsFound(t: Table, r: Slot, e: NullifierEntry, excess: seq<byte>)
    requires Inv(t) && Leaked(t, r, e)
    ensures Lookup(PirBytes(t.buckets), excess, e.nullifier).Some?
  {
    LookupFindsEntry(t, excess, e.nullifier);
    assert t.buckets[r.bucket].entries[r.slot] == e;
  }

  // The entries placed before the overflow, each in a slot of its own that no block owns.
  lemma PlacedIsLeaked(t: Table, height: nat, hash: Hash, nfs: seq<NullifierWithMeta>, k: nat)
    requires Inv(t) && NonZero(nfs) && Insert(t, height, hash, nfs).1.Err?
    requires k < |PlaceAll(t.buckets, nfs, height).slots|
    ensures k < |nfs|
    ensures Leaked(Insert(t, height, hash, nfs).0, PlaceAll(t.buckets, nfs, height).slots[k], EntryFor(nfs[k], height))
  {
    var u, p := Insert(t, height, hash, nfs).0, PlaceAll(t.buckets, nfs, height);
    PlaceAllOk(t.buckets, nfs, height);
    forall h, j | IsRef(u, h, j)
      ensures Ref(u, h, j) != p.slots[k]
    {
      assert IsRef(t, h, j) && Ref(t, h, j) == Ref(u, h, j);
    }
  }

  /** A failed insert leaks for good. No block is recorded; each nullifier placed before the overflow stands in a
      slot that no block owns, and after any later run it is still there and wallets still find it. */
  lemma FailedInsertLeaks(t: Table, height: nat, hash: Hash, nfs: seq<NullifierWithMeta>, ops: seq<TableOp>, k: nat,
                          excess: seq<byte>)
    requires Inv(t) && NonZero(nfs) && Insert(t, height, hash, nfs).1.Err?
    requires k < |PlaceAll(t.buckets, nfs, height).slots|
    ensures var u := Insert(t, height, hash, nfs).0;
            && Inv(u) && !Clean(u) && u.blockIndex == t.blockIndex && u.blockHashToHeight == t.blockHashToHeight
            && k < |nfs|
            && (AllPossible(u, ops) ==>
                  && Leaked(RunFrom(u, ops), PlaceAll(t.buckets, nfs, height).slots[k], EntryFor(nfs[k], height))
                  && Lookup(PirBytes(RunFrom(u, ops).buckets), excess, nfs[k].nullifier).Some?)
  {
    var u, r := Insert(t, height, hash, nfs).0, PlaceAll(t.buckets, nfs, height).slots[k];
    FailedInsertInv(t, height, hash, nfs);
    PlacedIsLeaked(t, height, hash, nfs, k);
    var e := EntryFor(nfs[k], height);
    assert InRange(r) && !EntryAt(u.buckets, r).IsEmpty();
    if AllPossible(u, ops) {
      LeakStays(u, ops, r, e);
      LeakIsFound(RunFrom(u, ops), r, e, excess);
    }
  }
}
