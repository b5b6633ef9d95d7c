/** The nullifier snapshot writer and reader in the server's own form: loops over a growing buffer and a moving
    cursor, each proved against the format of module NullifierSnapshot, with the records written in ascending order
    of height. */
module NullifierSnapshotIo {
  import opened Bytes
  import opened SpendTypes
  import opened NullifierTable
  import opened NullifierLookup
  import opened NullifierSnapshot
  import HashTableDb

  // ----- Writing

  method WriteSlots(buf: seq<byte>, slots: seq<Slot>) returns (buf': seq<byte>)
    ensures buf' == buf + SlotsBytes(slots)
  {
    buf' := buf;
    for i := 0 to |slots|
      invariant buf' + SlotsBytes(slots[i..]) == buf + SlotsBytes(slots)
    {
      Assoc(buf', SlotBytes(slots[i]), SlotsBytes(slots[i + 1..]));
      buf' := buf' + SlotBytes(slots[i]);
    }
  }

  method WriteRecord(buf: seq<byte>, height: nat, record: BlockRecord) returns (buf': seq<byte>)
    ensures buf' == buf + RecordBytes(height, record)
  {
    var h, n := LE(height, 8), LE(|record.slots|, 4);
    ghost var slots := SlotsBytes(record.slots);
    Assoc(buf, h, record.blockHash + (n + slots));
    Assoc(buf + h, record.blockHash, n + slots);
    Assoc(buf + h + record.blockHash, n, slots);
    buf' := buf + h;
    buf' := buf' + record.blockHash;
    buf' := buf' + n;
    buf' := WriteSlots(buf', record.slots);
  }

  lemma NextRecord(index: map<nat, BlockRecord>, h: nat)
    requires h in index && forall k :: k in index ==> h <= k
    ensures IndexBytes(index) == RecordBytes(h, index[h]) + IndexBytes(index - {h})
    ensures |index - {h}| < |index|
  {
    assert Lowest(index) == (h, index - {h});
  }

  method WriteIndex(buf: seq<byte>, index: map<nat, BlockRecord>) returns (buf': seq<byte>)
    ensures buf' == buf + IndexBytes(index)
  {
    buf' := buf;
    var remaining := index;
    while |remaining| > 0
      invariant buf' + IndexBytes(remaining) == buf + IndexBytes(index)
      decreases |remaining|
    {
      ghost var lowest := Lowest(remaining);
      var height :| height in remaining && forall k :: k in remaining ==> height <= k;
      NextRecord(remaining, height);
      Assoc(buf', RecordBytes(height, remaining[height]), IndexBytes(remaining - {height}));
      buf' := WriteRecord(buf', height, remaining[height]);
      remaining := remaining - {height};
    }
  }

  method ToSnapshot(db: HashTableDb.HashTableDb, xxh: seq<byte> -> u64) returns (buf: seq<byte>)
    requires Shaped(db.buckets)
    ensures buf == Encode(db.View(), xxh)
  {
    ghost var body := IndexBytes(db.blockIndex) + PirBytes(db.buckets);
    ghost var counts := CountsSection(db.View(), body);
    var latest := db.LatestBlock();
    buf := LE(SNAPSHOT_MAGIC, 8);
    Assoc(buf, LE(SNAPSHOT_VERSION, 4), counts);
    buf := buf + LE(SNAPSHOT_VERSION, 4);
    Assoc(buf, LatestBytes(latest), LE(db.numEntries, 8) + (LE(|db.blockIndex|, 8) + body));
    buf := buf + LatestBytes(latest);
    Assoc(buf, LE(db.numEntries, 8), LE(|db.blockIndex|, 8) + body);
    buf := buf + LE(db.numEntries, 8);
    Assoc(buf, LE(|db.blockIndex|, 8), body);
    buf := buf + LE(|db.blockIndex|, 8);
    Assoc(buf, IndexBytes(db.blockIndex), PirBytes(db.buckets));
    buf := WriteIndex(buf, db.blockIndex);
    var pir := db.ToPirBytes();
    buf := buf + pir;
    buf := buf + LE(xxh(buf), 8);
  }

  // ----- Reading: the cursor stands before the bytes not yet read

  function SlotAt(payload: seq<byte>, pos: nat): Slot
    requires pos + SLOT_BYTES <= |payload|
  {
    Slot(FromLE(payload[pos..pos + 4]), payload[pos + 4])
  }

  lemma {:induction false} SlotsAt(payload: seq<byte>, pos: nat, count: nat, k: nat)
    requires k < count && pos + SLOT_BYTES * count <= |payload|
    ensures SlotsOf(payload[pos..], count)[k] == SlotAt(payload, pos + SLOT_BYTES * k)
    decreases k
  {
    assert payload[pos..][..4] == payload[pos..pos + 4];
    if k > 0 {
      DropDrop(payload, pos, SLOT_BYTES);
      SlotsAt(payload, pos + SLOT_BYTES, count - 1, k - 1);
    }
  }

  method ReadSlotsFrom(payload: seq<byte>, pos: nat, count: nat) returns (r: Parsed<seq<Slot>>, pos': nat)
    requires pos <= |payload|
    ensures r == ReadSlots(payload[pos..], count)
    ensures r.Read? ==> pos' <= |payload| && payload[pos'..] == r.rest
  {
    var slots := [];
    pos' := pos;
    for i := 0 to count
      invariant pos' == pos + SLOT_BYTES * i <= |payload| && |slots| == i
      invariant forall k :: 0 <= k < i ==> slots[k] == SlotAt(payload, pos + SLOT_BYTES * k)
    {
      if pos' + 4 > |payload| {
        return Failed(UnexpectedEof), pos';
      }
      if pos' + 4 + 2 > |payload| {
        return Failed(UnexpectedEof), pos';
      }
      slots := slots + [SlotAt(payload, pos')];
      pos' := pos' + SLOT_BYTES;
    }
    forall k | 0 <= k < count
      ensures slots[k] == SlotsOf(payload[pos..], count)[k]
    {
      SlotsAt(payload, pos, count, k);
    }
    assert slots == SlotsOf(payload[pos..], count);
    DropDrop(payload, pos, SLOT_BYTES * count);
    r := Read(slots, payload[pos'..]);
  }

  method ReadRecordFrom(payload: seq<byte>, pos: nat) returns (r: Parsed<(nat, BlockRecord)>, pos': nat)
    requires pos <= |payload|
    ensures r == ReadRecord(payload[pos..])
    ensures r.Read? ==> pos' <= |payload| && payload[pos'..] == r.rest
  {
    pos' := pos;
    if pos + RECORD_HEADER > |payload| {
      return Failed(UnexpectedEof), pos';
    }
    DropDrop(payload, pos, 8);
    DropDrop(payload, pos + 8, 32);
    DropDrop(payload, pos + 40, 4);
    assert payload[pos..][..8] == payload[pos..pos + 8];
    assert payload[pos + 8..][..32] == payload[pos + 8..pos + 40];
    assert payload[pos + 40..][..4] == payload[pos + 40..pos + 44];
    var slots;
    slots, pos' := ReadSlotsFrom(payload, pos + RECORD_HEADER, FromLE(payload[pos + 40..pos + 44]));
    if slots.Failed? {
      return Failed(slots.error), pos';
    }
    r := Read((FromLE(payload[pos..pos + 8]), BlockRecord(payload[pos + 8..pos + 40], slots.value)), slots.rest);
  }

  method ReadIndexFrom(payload: seq<byte>, start: nat, count: nat) returns (r: Parsed<Index>, pos: nat)
    requires start <= |payload|
    ensures r == ReadIndex(payload[start..], count, Index(map[], map[]))
    ensures r.Read? ==> pos <= |payload| && payload[pos..] == r.rest
  {
    var ix := Index(map[], map[]);
    pos := start;
    for i := 0 to count
      invariant pos <= |payload|
      invariant ReadIndex(payload[pos..], count - i, ix) == ReadIndex(payload[start..], count, Index(map[], map[]))
    {
      var record;
      record, pos := ReadRecordFrom(payload, pos);
      if record.Failed? {
        return Failed(record.error), pos;
      }
      ix := AddRecord(ix, record.value.0, record.value.1);
    }
    r := Read(ix, payload[pos..]);
  }

  method ReadBucket(row: seq<byte>) returns (bucket: Bucket)
    requires |row| == BUCKET_BYTES
    ensures bucket == BucketOf(row)
  {
    var entries := [];
    for j := 0 to BUCKET_CAPACITY
      invariant |entries| == j
      invariant forall k :: 0 <= k < j ==> entries[k] == EntriesOf(row)[k]
    {
      entries := entries + [EntryFromBytes(Sub(row, j * ENTRY_BYTES, ENTRY_BYTES))];
    }
    assert entries == EntriesOf(row);
    var count := 0;
    for j := BUCKET_CAPACITY downto 0
      invariant HighWater(entries, BUCKET_CAPACITY) == HighWater(entries, j)
    {
      if !entries[j].IsEmpty() {
        count := j + 1;
        return Bucket(entries, count);
      }
    }
    bucket := Bucket(entries, count);
  }

  lemma SubOfSub<T>(s: seq<T>, start: nat, n: nat, i: nat, m: nat)
    requires start + n <= |s| && i + m <= n
    ensures s[start..][..n][i..i + m] == s[start + i..start + i + m]
  {
  }

  method ReadBucketsFrom(payload: seq<byte>, start: nat) returns (buckets: seq<Bucket>)
    requires start + PIR_BYTES <= |payload|
    ensures buckets == BucketsOf(payload[start..][..PIR_BYTES])
  {
    ghost var pir := payload[start..][..PIR_BYTES];
    buckets := [];
    for b := 0 to NUM_BUCKETS
      invariant |buckets| == b
      invariant forall k :: 0 <= k < b ==> buckets[k] == BucketOf(Row(pir, k))
    {
      var offset := start + b * BUCKET_BYTES;
      SubOfSub(payload, start, PIR_BYTES, b * BUCKET_BYTES, BUCKET_BYTES);
      var bucket := ReadBucket(payload[offset..offset + BUCKET_BYTES]);
      buckets := buckets + [bucket];
    }
  }

  // Everything after the version.
  method ReadCountsFrom(payload: seq<byte>, start: nat) returns (r: Parsed<Table>)
    requires start + 64 <= |payload|
    ensures r == ReadCounts(payload[start..])
  {
    DropDrop(payload, start, 48);
    DropDrop(payload, start + 48, 8);
    DropDrop(payload, start + 56, 8);
    assert payload[start + 48..][..8] == payload[start + 48..start + 56];
    assert payload[start + 56..][..8] == payload[start + 56..start + 64];
    var numEntries := FromLE(payload[start + 48..start + 56]);
    var numBlocks := FromLE(payload[start + 56..start + 64]);
    var ix, pos := ReadIndexFrom(payload, start + 64, numBlocks);
    if ix.Failed? {
      return Failed(ix.error);
    }
    if pos + PIR_BYTES > |payload| {
      return Failed(BucketDataTruncated);
    }
    var buckets := ReadBucketsFrom(payload, pos);
    r := Read(Table(buckets, ix.value.blocks, ix.value.hashes, numEntries), payload[pos..][PIR_BYTES..]);
  }

  method Parse(data: seq<byte>, xxh: seq<byte> -> u64) returns (r: Parsed<Table>)
    ensures r == Decode(data, xxh)
  {
    if |data| < MIN_SIZE {
      return Failed(TooShort);
    }
    var payload := data[..|data| - 8];
    if FromLE(data[|data| - 8..]) != xxh(payload) {
      return Failed(ChecksumMismatch);
    }
    if FromLE(payload[..8]) != SNAPSHOT_MAGIC {
      return Failed(BadMagic);
    }
    assert payload[8..][..4] == payload[8..12];
    DropDrop(payload, 8, 4);
    var version := FromLE(payload[8..12]);
    if version != SNAPSHOT_VERSION {
      return Failed(UnsupportedVersion(version));
    }
    r := ReadCountsFrom(payload, 12);
  }

  datatype Restored = Opened(db: HashTableDb.HashTableDb) | Refused(error: SnapshotError)

  method FromSnapshot(data: seq<byte>, xxh: seq<byte> -> u64) returns (r: Restored)
    ensures match Decode(data, xxh)
            case Read(t, _) => r.Opened? && fresh(r.db) && r.db.View() == t
            case Failed(e) => r == Refused(e)
  {
    var t := Parse(data, xxh);
    if t.Failed? {
      return Refused(t.error);
    }
    var db := new HashTableDb.HashTableDb.Restored(t.value);
    r := Opened(db);
  }
}
