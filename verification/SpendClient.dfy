/** The wallet's scan of one decoded bucket row. */
module SpendClient {
  import opened Bytes
  import opened SpendTypes

  // The first whole entry chunk that starts with the nullifier.
  function FindChunk(row: seq<byte>, nf: Hash): Option<SpendMetadata> {
    if |row| < ENTRY_BYTES then None
    else if row[..32] == nf then Some(SpendMetadataFromEntryTail(row[..ENTRY_BYTES][32..]))
    else FindChunk(row[ENTRY_BYTES..], nf)
  }

  function ScanBucketForNf(decodedRow: seq<byte>, nf: Hash): Option<SpendMetadata> {
    FindChunk(if |decodedRow| >= BUCKET_BYTES then decodedRow[..BUCKET_BYTES] else decodedRow, nf)
  }

  // ----- A row of entries, and the first entry with a given nullifier

  function EntriesBytes(entries: seq<NullifierEntry>): (row: seq<byte>)
    ensures |row| == ENTRY_BYTES * |entries|
  {
    if entries == [] then [] else entries[0].ToBytes() + EntriesBytes(entries[1..])
  }

  function FindEntry(entries: seq<NullifierEntry>, nf: Hash): (r: Option<SpendMetadata>)
    ensures r.None? <==> forall k :: 0 <= k < |entries| ==> entries[k].nullifier != nf
    ensures r.Some? ==>
              exists k :: 0 <= k < |entries| && entries[k].nullifier == nf && r.value == MetadataOf(entries[k])
                          && forall j :: 0 <= j < k ==> entries[j].nullifier != nf
  {
    if entries == [] then None
    else if entries[0].nullifier == nf then Some(MetadataOf(entries[0]))
    else
      var r := FindEntry(entries[1..], nf);
      assert forall k :: 1 <= k < |entries| ==> entries[k] == entries[1..][k - 1];
      r
  }

  /** Scanning the bytes of a row of entries finds exactly its first entry with the nullifier. */
  lemma {:induction false} ScanFindsEntry(entries: seq<NullifierEntry>, nf: Hash)
    ensures FindChunk(EntriesBytes(entries), nf) == FindEntry(entries, nf)
  {
    if entries != [] {
      var first, rest := entries[0].ToBytes(), EntriesBytes(entries[1..]);
      Seam(first, rest);
      EntryLayout(entries[0]);
      assert (first + rest)[..32] == first[..32];
      ScanFindsEntry(entries[1..], nf);
    }
  }

  /** A row may come back longer than a bucket; the excess is ignored. */
  lemma ScanIgnoresExcess(entries: seq<NullifierEntry>, excess: seq<byte>, nf: Hash)
    requires |entries| == BUCKET_CAPACITY
    ensures ScanBucketForNf(EntriesBytes(entries) + excess, nf) == FindEntry(entries, nf)
  {
    Seam(EntriesBytes(entries), excess);
    ScanFindsEntry(entries, nf);
  }

  lemma {:induction false} ChunksThenTail(entries: seq<NullifierEntry>, tail: seq<byte>, nf: Hash)
    requires |tail| < ENTRY_BYTES
    ensures FindChunk(EntriesBytes(entries) + tail, nf) == FindEntry(entries, nf)
  {
    if entries == [] {
      assert EntriesBytes(entries) + tail == tail;
    } else {
      var first, rest := entries[0].ToBytes(), EntriesBytes(entries[1..]);
      Assoc(first, rest, tail);
      Seam(first, rest + tail);
      EntryLayout(entries[0]);
      assert (first + (rest + tail))[..32] == first[..32];
      ChunksThenTail(entries[1..], tail, nf);
    }
  }

  /** A row may also come back cut short; the whole entries in it are scanned all the same. */
  lemma ScanShortRow(entries: seq<NullifierEntry>, tail: seq<byte>, nf: Hash)
    requires |entries| < 112 && |tail| < 41
    ensures ScanBucketForNf(EntriesBytes(entries) + tail, nf) == FindEntry(entries, nf)
  {
    ChunksThenTail(entries, tail, nf);
  }
}
