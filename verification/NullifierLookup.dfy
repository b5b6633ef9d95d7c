/** The flat bytes of the table, and a wallet's lookup in them. */
module NullifierLookup {
  import opened Bytes
  import opened SpendTypes
  import opened SpendClient
  import opened NullifierTable
  import opened NullifierRemoval

  // The rows of the first n buckets.
  function RowsUpTo(buckets: seq<Bucket>, n: nat): (s: seq<byte>)
    requires Shaped(buckets) && n <= NUM_BUCKETS
    ensures |s| == n * BUCKET_BYTES
    decreases n, |buckets|
  {
    if n == 0 then [] else RowsUpTo(buckets, n - 1) + EntriesBytes(buckets[n - 1].entries)
  }

  function PirBytes(buckets: seq<Bucket>): (s: seq<byte>)
    requires Shaped(buckets)
    ensures |s| == NUM_BUCKETS * BUCKET_BYTES
  {
    RowsUpTo(buckets, NUM_BUCKETS)
  }

  // Row b of the bytes.
  function Row(pir: seq<byte>, b: nat): (row: seq<byte>)
    requires |pir| == NUM_BUCKETS * BUCKET_BYTES && b < NUM_BUCKETS
  {
    Sub(pir, b * BUCKET_BYTES, BUCKET_BYTES)
  }

  lemma {:induction false} RowAt(buckets: seq<Bucket>, n: nat, b: nat)
    requires Shaped(buckets) && b < n <= NUM_BUCKETS
    ensures Sub(RowsUpTo(buckets, n), b * BUCKET_BYTES, BUCKET_BYTES) == EntriesBytes(buckets[b].entries)
    decreases n
  {
    var init, last := RowsUpTo(buckets, n - 1), EntriesBytes(buckets[n - 1].entries);
    if b < n - 1 {
      RowAt(buckets, n - 1, b);
      AppendKeeps(init, last, b * BUCKET_BYTES, BUCKET_BYTES);
    } else {
      AppendEnds(init, last);
    }
  }

  /** The bytes are determined by the entries alone. */
  lemma {:induction false} SameRows(a: seq<Bucket>, b: seq<Bucket>, n: nat)
    requires Shaped(a) && Shaped(b) && SameEntries(a, b) && n <= NUM_BUCKETS
    ensures RowsUpTo(a, n) == RowsUpTo(b, n)
    decreases n
  {
    if n > 0 {
      SameRows(a, b, n - 1);
    }
  }

  /** Inserting a block and rolling it back restores the bytes exactly. */
  lemma InsertRollbackBytes(t: Table, height: nat, blockHash: Hash, nfs: seq<NullifierWithMeta>)
    requires Inv(t) && NonZero(nfs) && height !in t.blockIndex && blockHash !in t.blockHashToHeight
    requires Insert(t, height, blockHash, nfs).1.Ok?
    ensures var u := Insert(t, height, blockHash, nfs).0;
            && Removable(u, height) && RollsBack(u, blockHash, height)
            && PirBytes(Rollback(u, blockHash).0.buckets) == PirBytes(t.buckets)
  {
    InsertThenRollback(t, height, blockHash, nfs);
    var u := Insert(t, height, blockHash, nfs).0;
    SameRows(Rollback(u, blockHash).0.buckets, t.buckets, NUM_BUCKETS);
  }

  // ----- Lookup

  // The wallet asks for the row of the nullifier's bucket and scans it; bytes past the bucket are ignored.
  function Lookup(pir: seq<byte>, excess: seq<byte>, nf: Hash): Option<SpendMetadata>
    requires |pir| == NUM_BUCKETS * BUCKET_BYTES
  {
    ScanBucketForNf(Row(pir, HashToBucket(nf)) + excess, nf)
  }

  // The k-th nullifier of the live block at height h is nf.
  predicate Holds(live: map<nat, LiveBlock>, h: nat, k: nat, nf: Hash) {
    h in live && k < |live[h].nullifiers| && live[h].nullifiers[k].nullifier == nf
  }

  function MetadataFor(h: nat, nwm: NullifierWithMeta): SpendMetadata {
    SpendMetadata(AsU32(h), nwm.firstOutputPosition, nwm.actionCount)
  }

  lemma LookupFindsEntry(t: Table, excess: seq<byte>, nf: Hash)
    requires Shaped(t.buckets)
    ensures Lookup(PirBytes(t.buckets), excess, nf) == FindEntry(t.buckets[HashToBucket(nf)].entries, nf)
  {
    var b := HashToBucket(nf);
    RowAt(t.buckets, NUM_BUCKETS, b);
    ScanIgnoresExcess(t.buckets[b].entries, excess, nf);
  }

  // Bytes 4592 r to 4592 (r + 1) of the table, for the row that the nullifier's first two bytes name.
  function RowFor(pir: seq<byte>, nf: Hash): seq<byte>
    requires |pir| == 75_235_328
  {
    pir[4592 * FirstBits(nf)..4592 * (FirstBits(nf) + 1)]
  }

  /** A lookup reads one row, the one that the nullifier's first two bytes name, and nothing else. */
  lemma LookupReadsRow(a: seq<byte>, b: seq<byte>, excess: seq<byte>, nf: Hash)
    requires |a| == |b| == 75_235_328 && RowFor(a, nf) == RowFor(b, nf)
    ensures Lookup(a, excess, nf) == Lookup(b, excess, nf)
  {
    BucketBytes(nf);
  }

  /** Where a live block's nullifier stands: in the bucket that its first two bytes name. */
  lemma LiveInRow(t: Table, h: nat, k: nat)
    requires Inv(t) && IsRef(t, h, k)
    ensures InRange(Ref(t, h, k))
    ensures Ref(t, h, k).bucket == FirstBits(EntryAt(t.buckets, Ref(t, h, k)).nullifier)
  {
    BucketBytes(EntryAt(t.buckets, Ref(t, h, k)).nullifier);
  }

  // A block's nullifier is stored under its bucket.
  lemma LiveIsStored(t: Table, h: nat, k: nat, nf: Hash)
    requires Inv(t) && RefsInRange(t) && Holds(Live(t), h, k, nf)
    ensures FindEntry(t.buckets[HashToBucket(nf)].entries, nf).Some?
  {
    var r := t.blockIndex[h].slots[k];
    assert IsRef(t, h, k) && Ref(t, h, k) == r;
    assert t.buckets[r.bucket].entries[r.slot].nullifier == nf;
  }

  // A stored entry that some block refers to is one of that block's nullifiers.
  lemma RefIsLive(t: Table, h: nat, k: nat)
    requires Inv(t) && RefsInRange(t) && IsRef(t, h, k)
    ensures var e := EntryAt(t.buckets, Ref(t, h, k));
            && Holds(Live(t), h, k, e.nullifier)
            && MetadataOf(e) == MetadataFor(h, Live(t)[h].nullifiers[k])
  {
  }

  /** What a live block inserted is always found, whatever leaks there are. */
  lemma LookupComplete(t: Table, excess: seq<byte>, h: nat, k: nat, nf: Hash)
    requires Inv(t) && RefsInRange(t) && Holds(Live(t), h, k, nf)
    ensures Lookup(PirBytes(t.buckets), excess, nf).Some?
  {
    LookupFindsEntry(t, excess, nf);
    LiveIsStored(t, h, k, nf);
  }

  /** Lookup end to end: in a table without leaks, the wallet finds a nullifier exactly when some live block
      inserted it, and reads the metadata that such a block recorded. */
  lemma LookupExact(t: Table, excess: seq<byte>, nf: Hash)
    requires Inv(t) && Clean(t) && nf != ZeroHash()
    ensures RefsInRange(t)
    ensures Lookup(PirBytes(t.buckets), excess, nf).Some? <==> exists h: nat, k: nat :: Holds(Live(t), h, k, nf)
    ensures Lookup(PirBytes(t.buckets), excess, nf).Some? ==>
              exists h: nat, k: nat :: Holds(Live(t), h, k, nf)
                             && Lookup(PirBytes(t.buckets), excess, nf).value
                                  == MetadataFor(h, Live(t)[h].nullifiers[k])
  {
    InvRefsInRange(t);
    LookupFindsEntry(t, excess, nf);
    forall h, k | Holds(Live(t), h, k, nf)
      ensures Lookup(PirBytes(t.buckets), excess, nf).Some?
    {
      LookupComplete(t, excess, h, k, nf);
    }
    var b := HashToBucket(nf);
    var found := FindEntry(t.buckets[b].entries, nf);
    if found.Some? {
      var s :| 0 <= s < BUCKET_CAPACITY && t.buckets[b].entries[s].nullifier == nf
               && found.value == MetadataOf(t.buckets[b].entries[s]);
      var r := Slot(b, s);
      assert EntryAt(t.buckets, r) == t.buckets[b].entries[s];
      var h, k :| IsRef(t, h, k) && Ref(t, h, k) == r;
      RefIsLive(t, h, k);
    }
  }
}
