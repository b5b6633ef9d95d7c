/** Binary snapshots of the nullifier table: the writer and the decoder as functions on byte strings. The checksum
    function is a parameter. High-water marks are not part of the format, the decoder works them out again. */
module NullifierSnapshot {
  import opened Bytes
  import opened SpendTypes
  import opened SpendClient
  import opened NullifierTable
  import opened NullifierRemoval
  import opened NullifierLookup

  datatype SnapshotError =
    | TooShort | ChecksumMismatch | UnexpectedEof | BadMagic | UnsupportedVersion(version: nat) | BucketDataTruncated

  datatype Parsed<+T> = Read(value: T, rest: seq<byte>) | Failed(error: SnapshotError)

  const SNAPSHOT_MAGIC: nat := 0x5350_454E_4450_4952
  const SNAPSHOT_VERSION: nat := 2
  const SLOT_BYTES: nat := 6
  const RECORD_HEADER: nat := 44
  const PIR_BYTES: nat := 75_235_328
  const MIN_SIZE: nat := 75_235_412

  // ----- Writing

  // Bucket, slot and one byte of padding.
  function SlotBytes(r: Slot): (s: seq<byte>)
    ensures |s| == SLOT_BYTES
  {
    LE(r.bucket, 4) + (LE(r.slot, 1) + [0])
  }

  function SlotsBytes(slots: seq<Slot>): (s: seq<byte>)
    ensures |s| == SLOT_BYTES * |slots|
  {
    if slots == [] then [] else SlotBytes(slots[0]) + SlotsBytes(slots[1..])
  }

  function RecordBytes(height: nat, record: BlockRecord): seq<byte> {
    LE(height, 8) + (record.blockHash + (LE(|record.slots|, 4) + SlotsBytes(record.slots)))
  }

  // The block records in ascending order of height.
  ghost function IndexBytes(index: map<nat, BlockRecord>): seq<byte>
    decreases |index|
  {
    if index == map[] then []
    else
      var (m, rest) := Lowest(index);
      RecordBytes(m, index[m]) + IndexBytes(rest)
  }

  ghost function Lowest(index: map<nat, BlockRecord>): (r: (nat, map<nat, BlockRecord>))
    requires index != map[]
    ensures r.0 in index && (forall h :: h in index ==> r.0 <= h) && r.1 == index - {r.0} && |r.1| == |index| - 1
  {
    assert index.Keys != {};
    var m := MinKey(index.Keys);
    assert (index - {m}).Keys == index.Keys - {m};
    (m, index - {m})
  }

  // Height, height again and hash of the newest block; the reader skips them.
  function LatestBytes(latest: Option<(nat, Hash)>): (s: seq<byte>)
    ensures |s| == 48
  {
    match latest
    case Some((h, hash)) => LE(h, 8) + (LE(h, 8) + hash)
    case None => LE(0, 8) + (LE(0, 8) + ZeroHash())
  }

  ghost function CountsSection(t: Table, rest: seq<byte>): seq<byte> {
    LatestBytes(LatestOf(t.blockIndex)) + (LE(t.numEntries, 8) + (LE(|t.blockIndex|, 8) + rest))
  }

  ghost function Payload(t: Table): seq<byte>
    requires Shaped(t.buckets)
  {
    LE(SNAPSHOT_MAGIC, 8)
    + (LE(SNAPSHOT_VERSION, 4) + CountsSection(t, IndexBytes(t.blockIndex) + PirBytes(t.buckets)))
  }

  ghost function Encode(t: Table, xxh: seq<byte> -> u64): seq<byte>
    requires Shaped(t.buckets)
  {
    Payload(t) + LE(xxh(Payload(t)), 8)
  }

  // ----- Reading

  function SlotOf(s: seq<byte>): Slot
    requires |s| >= SLOT_BYTES
  {
    Slot(FromLE(s[..4]), s[4..][0])
  }

  function SlotsOf(s: seq<byte>, count: nat): (slots: seq<Slot>)
    requires SLOT_BYTES * count <= |s|
    ensures |slots| == count
    decreases count
  {
    if count == 0 then [] else [SlotOf(s)] + SlotsOf(s[SLOT_BYTES..], count - 1)
  }

  // The errors of data that is sealed, of this format and of this version.
  predicate InBody(e: SnapshotError) {
    e.UnexpectedEof? || e.BucketDataTruncated?
  }

  function ReadSlots(s: seq<byte>, count: nat): Parsed<seq<Slot>> {
    if SLOT_BYTES * count > |s| then Failed(UnexpectedEof) else Read(SlotsOf(s, count), s[SLOT_BYTES * count..])
  }

  function ReadRecord(s: seq<byte>): (r: Parsed<(nat, BlockRecord)>)
    ensures r.Read? ==> |r.rest| < |s|
  {
    if |s| < RECORD_HEADER then Failed(UnexpectedEof)
    else
      var slots := ReadSlots(s[8..][32..][4..], FromLE(s[8..][32..][..4]));
      if slots.Failed? then Failed(slots.error)
      else Read((U64Of(s), BlockRecord(s[8..][..32], slots.value)), slots.rest)
  }

  datatype Index = Index(blocks: map<nat, BlockRecord>, hashes: map<Hash, nat>)

  function AddRecord(ix: Index, height: nat, record: BlockRecord): Index {
    Index(ix.blocks[height := record], ix.hashes[record.blockHash := height])
  }

  // Records are entered in file order; a later one replaces an earlier one of the same height or hash.
  function ReadIndex(s: seq<byte>, count: nat, ix: Index): Parsed<Index>
    decreases count
  {
    if count == 0 then Read(ix, s)
    else
      var r := ReadRecord(s);
      if r.Failed? then Failed(r.error) else ReadIndex(r.rest, count - 1, AddRecord(ix, r.value.0, r.value.1))
  }

  // One past the last non-empty slot.
  function HighWater(entries: seq<NullifierEntry>, n: nat): (r: nat)
    requires n <= |entries|
    ensures r <= n && (r > 0 ==> !entries[r - 1].IsEmpty()) && forall j :: r <= j < n ==> entries[j].IsEmpty()
  {
    if n == 0 then 0 else if !entries[n - 1].IsEmpty() then n else HighWater(entries, n - 1)
  }

  function EntriesOf(row: seq<byte>): (entries: seq<NullifierEntry>)
    requires |row| == BUCKET_BYTES
    ensures |entries| == BUCKET_CAPACITY
  {
    seq(BUCKET_CAPACITY, j requires 0 <= j < BUCKET_CAPACITY => EntryFromBytes(Sub(row, j * ENTRY_BYTES, ENTRY_BYTES)))
  }

  function BucketOf(row: seq<byte>): (b: Bucket)
    requires |row| == BUCKET_BYTES
    ensures |b.entries| == BUCKET_CAPACITY
  {
    Bucket(EntriesOf(row), HighWater(EntriesOf(row), BUCKET_CAPACITY))
  }

  function BucketsOf(pir: seq<byte>): (buckets: seq<Bucket>)
    requires |pir| == PIR_BYTES
    ensures Shaped(buckets)
  {
    seq(NUM_BUCKETS, b requires 0 <= b < NUM_BUCKETS => BucketOf(Row(pir, b)))
  }

  // Any bytes after the last bucket are ignored.
  function ReadBuckets(s: seq<byte>, ix: Index, numEntries: nat): Parsed<Table> {
    if PIR_BYTES > |s| then Failed(BucketDataTruncated)
    else Read(Table(BucketsOf(s[..PIR_BYTES]), ix.blocks, ix.hashes, numEntries), s[PIR_BYTES..])
  }

  function ReadCounts(s: seq<byte>): Parsed<Table> {
    if |s| < 64 then Failed(UnexpectedEof)
    else
      var rest := s[48..];
      var ix := ReadIndex(rest[8..][8..], U64Of(rest[8..]), Index(map[], map[]));
      if ix.Failed? then Failed(ix.error) else ReadBuckets(ix.rest, ix.value, U64Of(rest))
  }

  function Decode(data: seq<byte>, xxh: seq<byte> -> u64): Parsed<Table> {
    if |data| < MIN_SIZE then Failed(TooShort)
    else
      var payload := data[..|data| - 8];
      if FromLE(data[|data| - 8..]) != xxh(payload) then Failed(ChecksumMismatch)
      else if U64Of(payload) != SNAPSHOT_MAGIC then Failed(BadMagic)
      else
        var version := FromLE(payload[8..][..4]);
        if version != SNAPSHOT_VERSION then Failed(UnsupportedVersion(version))
        else ReadCounts(payload[8..][4..])
  }

  // ----- Round trip

  /** Heights, counters and slot references of a size that the format can hold. */
  ghost predicate Representable(t: Table) {
    && Shaped(t.buckets) && t.numEntries < U64 && |t.blockIndex| < U64
    && FittingIndex(t.blockIndex)
  }

  ghost predicate FittingIndex(index: map<nat, BlockRecord>) {
    forall h :: h in index ==> h < U64 && FittingRecord(index[h])
  }

  predicate FittingRecord(record: BlockRecord) {
    |record.slots| < U32 && forall k :: 0 <= k < |record.slots| ==> InRange(record.slots[k])
  }

  lemma SlotRoundTrip(r: Slot, rest: seq<byte>)
    requires InRange(r)
    ensures SlotOf(SlotBytes(r) + rest) == r
  {
    var b, n := LE(r.bucket, 4), LE(r.slot, 1) + [0];
    Assoc(b, n, rest);
    Seam(b, n + rest);
    LE4(r.bucket);
  }

  lemma SlotsRoundTrip(slots: seq<Slot>, rest: seq<byte>)
    requires forall k :: 0 <= k < |slots| ==> InRange(slots[k])
    ensures ReadSlots(SlotsBytes(slots) + rest, |slots|) == Read(slots, rest)
  {
    Seam(SlotsBytes(slots), rest);
    SlotsAgain(slots, rest);
  }

  lemma {:induction false} SlotsAgain(slots: seq<Slot>, rest: seq<byte>)
    requires forall k :: 0 <= k < |slots| ==> InRange(slots[k])
    ensures SlotsOf(SlotsBytes(slots) + rest, |slots|) == slots
  {
    if slots != [] {
      var first, tail := SlotBytes(slots[0]), SlotsBytes(slots[1..]) + rest;
      Assoc(first, SlotsBytes(slots[1..]), rest);
      Seam(first, tail);
      SlotRoundTrip(slots[0], tail);
      SlotsAgain(slots[1..], rest);
    }
  }

  lemma RecordRoundTrip(height: nat, record: BlockRecord, rest: seq<byte>)
    requires height < U64 && FittingRecord(record)
    ensures ReadRecord(RecordBytes(height, record) + rest) == Read((height, record), rest)
  {
    var h, n, body := LE(height, 8), LE(|record.slots|, 4), SlotsBytes(record.slots);
    Assoc(h, record.blockHash + (n + body), rest);
    Assoc(record.blockHash, n + body, rest);
    Assoc(n, body, rest);
    U64RoundTrip(height, record.blockHash + (n + (body + rest)));
    Seam(record.blockHash, n + (body + rest));
    Seam(n, body + rest);
    LE4(|record.slots|);
    SlotsRoundTrip(record.slots, rest);
  }

  // The records entered in ascending order of height.
  ghost function AddAll(ix: Index, index: map<nat, BlockRecord>): Index
    decreases |index|
  {
    if index == map[] then ix
    else
      var (m, rest) := Lowest(index);
      AddAll(AddRecord(ix, m, index[m]), rest)
  }

  lemma {:induction false} IndexRoundTrip(index: map<nat, BlockRecord>, ix: Index, rest: seq<byte>)
    requires FittingIndex(index)
    ensures ReadIndex(IndexBytes(index) + rest, |index|, ix) == Read(AddAll(ix, index), rest)
    decreases |index|
  {
    if index == map[] {
      assert [] + rest == rest;
    } else {
      var (m, left) := Lowest(index);
      var tail := IndexBytes(left) + rest;
      Assoc(RecordBytes(m, index[m]), IndexBytes(left), rest);
      RecordRoundTrip(m, index[m], tail);
      IndexRoundTrip(left, AddRecord(ix, m, index[m]), rest);
    }
  }

  lemma AddAllStep(ix: Index, index: map<nat, BlockRecord>, m: nat, rest: map<nat, BlockRecord>)
    requires index != map[] && Lowest(index) == (m, rest)
    ensures AddAll(ix, index) == AddAll(AddRecord(ix, m, index[m]), rest)
  {
  }

  lemma MergeStep<K, V>(a: map<K, V>, b: map<K, V>, m: K)
    requires m in b
    ensures a[m := b[m]] + (b - {m}) == a + b
  {
  }

  lemma {:induction false} AddAllBlocks(ix: Index, index: map<nat, BlockRecord>)
    ensures AddAll(ix, index).blocks == ix.blocks + index
    decreases |index|
  {
    if index != map[] {
      var (m, rest) := Lowest(index);
      var next := AddRecord(ix, m, index[m]);
      AddAllStep(ix, index, m, rest);
      AddAllBlocks(next, rest);
      MergeStep(ix.blocks, index, m);
    } else {
      assert ix.blocks + index == ix.blocks;
    }
  }

  ghost predicate DistinctHashes(index: map<nat, BlockRecord>) {
    forall h, k :: h in index && k in index && index[h].blockHash == index[k].blockHash ==> h == k
  }

  // A hash of no record keeps what it had.
  lemma {:induction false} OtherHash(ix: Index, index: map<nat, BlockRecord>, x: Hash)
    requires forall h :: h in index ==> index[h].blockHash != x
    ensures var hashes := AddAll(ix, index).hashes;
            (x in hashes <==> x in ix.hashes) && (x in ix.hashes ==> hashes[x] == ix.hashes[x])
    decreases |index|
  {
    if index != map[] {
      var (m, rest) := Lowest(index);
      AddAllStep(ix, index, m, rest);
      OtherHash(AddRecord(ix, m, index[m]), rest, x);
    }
  }

  // A record's hash leads to its height.
  lemma {:induction false} RecordHash(ix: Index, index: map<nat, BlockRecord>, h: nat)
    requires DistinctHashes(index) && h in index
    ensures var hashes := AddAll(ix, index).hashes;
            index[h].blockHash in hashes && hashes[index[h].blockHash] == h
    decreases |index|
  {
    var (m, rest) := Lowest(index);
    var next := AddRecord(ix, m, index[m]);
    AddAllStep(ix, index, m, rest);
    if h == m {
      OtherHash(next, rest, index[m].blockHash);
    } else {
      RecordHash(next, rest, h);
    }
  }

  lemma RebuiltHash(t: Table, x: Hash)
    requires HashesOk(t)
    ensures var hashes := AddAll(Index(map[], map[]), t.blockIndex).hashes;
            (x in hashes <==> x in t.blockHashToHeight) && (x in hashes ==> hashes[x] == t.blockHashToHeight[x])
  {
    if x in t.blockHashToHeight {
      RecordHash(Index(map[], map[]), t.blockIndex, t.blockHashToHeight[x]);
    } else {
      OtherHash(Index(map[], map[]), t.blockIndex, x);
    }
  }

  lemma RebuiltIndex(t: Table)
    requires HashesOk(t)
    ensures AddAll(Index(map[], map[]), t.blockIndex) == Index(t.blockIndex, t.blockHashToHeight)
  {
    var rebuilt := AddAll(Index(map[], map[]), t.blockIndex);
    AddAllBlocks(Index(map[], map[]), t.blockIndex);
    assert map[] + t.blockIndex == t.blockIndex;
    forall x: Hash
      ensures x in rebuilt.hashes <==> x in t.blockHashToHeight
      ensures x in rebuilt.hashes ==> rebuilt.hashes[x] == t.blockHashToHeight[x]
    {
      RebuiltHash(t, x);
    }
    SameMap(rebuilt.hashes, t.blockHashToHeight);
  }

  lemma SameMap<K, V>(a: map<K, V>, b: map<K, V>)
    requires forall x :: (x in a <==> x in b) && (x in a && x in b ==> a[x] == b[x])
    ensures a == b
  {
  }

  lemma {:induction false} EntryBytesAt(entries: seq<NullifierEntry>, j: nat)
    requires j < |entries|
    ensures Sub(EntriesBytes(entries), j * ENTRY_BYTES, ENTRY_BYTES) == entries[j].ToBytes()
  {
    var first, rest := entries[0].ToBytes(), EntriesBytes(entries[1..]);
    if j == 0 {
      Seam(first, rest);
    } else {
      EntryBytesAt(entries[1..], j - 1);
      var i := (j - 1) * ENTRY_BYTES;
      assert (first + rest)[ENTRY_BYTES + i..ENTRY_BYTES + i + ENTRY_BYTES] == rest[i..i + ENTRY_BYTES];
    }
  }

  lemma EntriesRoundTrip(entries: seq<NullifierEntry>)
    requires |entries| == BUCKET_CAPACITY
    ensures EntriesOf(EntriesBytes(entries)) == entries
  {
    forall j | 0 <= j < BUCKET_CAPACITY
      ensures EntriesOf(EntriesBytes(entries))[j] == entries[j]
    {
      EntryBytesAt(entries, j);
      EntryRoundTrip(entries[j]);
    }
  }

  lemma BucketsRoundTrip(buckets: seq<Bucket>)
    requires Shaped(buckets)
    ensures SameEntries(BucketsOf(PirBytes(buckets)), buckets)
  {
    forall b | 0 <= b < NUM_BUCKETS
      ensures BucketsOf(PirBytes(buckets))[b].entries == buckets[b].entries
    {
      RowAt(buckets, NUM_BUCKETS, b);
      EntriesRoundTrip(buckets[b].entries);
    }
  }

  lemma CountsRoundTrip(t: Table, rest: seq<byte>)
    requires t.numEntries < U64 && |t.blockIndex| < U64
    ensures |CountsSection(t, rest)| >= 64
    ensures var s := CountsSection(t, rest)[48..];
            U64Of(s) == t.numEntries && U64Of(s[8..]) == |t.blockIndex| && s[8..][8..] == rest
  {
    var counts := LE(|t.blockIndex|, 8) + rest;
    Seam(LatestBytes(LatestOf(t.blockIndex)), LE(t.numEntries, 8) + counts);
    U64RoundTrip(t.numEntries, counts);
    U64RoundTrip(|t.blockIndex|, rest);
  }

  lemma HeaderRoundTrip(t: Table)
    requires Representable(t)
    ensures |Payload(t)| >= MIN_SIZE - 8 && U64Of(Payload(t)) == SNAPSHOT_MAGIC
    ensures FromLE(Payload(t)[8..][..4]) == SNAPSHOT_VERSION
    ensures Payload(t)[8..][4..] == CountsSection(t, IndexBytes(t.blockIndex) + PirBytes(t.buckets))
  {
    var counts := CountsSection(t, IndexBytes(t.blockIndex) + PirBytes(t.buckets));
    U64RoundTrip(SNAPSHOT_MAGIC, LE(SNAPSHOT_VERSION, 4) + counts);
    Seam(LE(SNAPSHOT_VERSION, 4), counts);
    LE4(SNAPSHOT_VERSION);
  }

  lemma BodyRoundTrip(t: Table)
    requires Representable(t) && HashesOk(t)
    ensures ReadIndex(IndexBytes(t.blockIndex) + PirBytes(t.buckets), |t.blockIndex|, Index(map[], map[]))
            == Read(Index(t.blockIndex, t.blockHashToHeight), PirBytes(t.buckets))
  {
    IndexRoundTrip(t.blockIndex, Index(map[], map[]), PirBytes(t.buckets));
    RebuiltIndex(t);
  }

  lemma ContentRoundTrip(t: Table, body: seq<byte>, pir: seq<byte>)
    requires t.numEntries < U64 && |t.blockIndex| < U64 && |pir| == PIR_BYTES
    requires ReadIndex(body, |t.blockIndex|, Index(map[], map[])) == Read(Index(t.blockIndex, t.blockHashToHeight), pir)
    ensures ReadCounts(CountsSection(t, body))
            == Read(Table(BucketsOf(pir), t.blockIndex, t.blockHashToHeight, t.numEntries), [])
  {
    CountsRoundTrip(t, body);
    assert pir[..PIR_BYTES] == pir && pir[PIR_BYTES..] == [];
  }

  lemma ChecksumRoundTrip(payload: seq<byte>, xxh: seq<byte> -> u64)
    requires |payload| >= MIN_SIZE - 8 && U64Of(payload) == SNAPSHOT_MAGIC
    requires FromLE(payload[8..][..4]) == SNAPSHOT_VERSION
    ensures Decode(payload + LE(xxh(payload), 8), xxh) == ReadCounts(payload[8..][4..])
  {
    Seam(payload, LE(xxh(payload), 8));
    LE8(xxh(payload));
  }

  /** Restoring a snapshot gives back both maps, the entry count and every entry; only the high-water marks may
      differ. */
  lemma SnapshotRoundTrip(t: Table, xxh: seq<byte> -> u64)
    requires Representable(t) && HashesOk(t)
    ensures Decode(Encode(t, xxh), xxh).Read? && SameButMarks(Decode(Encode(t, xxh), xxh).value, t)
  {
    HeaderRoundTrip(t);
    ChecksumRoundTrip(Payload(t), xxh);
    BodyRoundTrip(t);
    ContentRoundTrip(t, IndexBytes(t.blockIndex) + PirBytes(t.buckets), PirBytes(t.buckets));
    BucketsRoundTrip(t.buckets);
  }

  // ----- The layout

  function LatestHeight(latest: Option<(nat, Hash)>): nat {
    if latest.Some? then latest.value.0 else 0
  }

  function LatestHash(latest: Option<(nat, Hash)>): Hash {
    if latest.Some? then latest.value.1 else ZeroHash()
  }

  lemma LatestLayout(latest: Option<(nat, Hash)>)
    ensures var s := LatestBytes(latest);
            s[..8] == LE(LatestHeight(latest), 8) == s[8..16] && s[16..48] == LatestHash(latest)
  {
    var h, hash := LE(LatestHeight(latest), 8), LatestHash(latest);
    assert LatestBytes(latest) == h + (h + hash);
    ThreeParts(h, h, hash);
  }

  lemma CountsLayout(t: Table, rest: seq<byte>)
    ensures var s := CountsSection(t, rest);
            && |s| == 64 + |rest| && s[..48] == LatestBytes(LatestOf(t.blockIndex))
            && s[48..56] == LE(t.numEntries, 8) && s[56..64] == LE(|t.blockIndex|, 8) && s[64..] == rest
  {
    var latest, n, m := LatestBytes(LatestOf(t.blockIndex)), LE(t.numEntries, 8), LE(|t.blockIndex|, 8);
    ThreeParts(latest, n, m + rest);
    ThreeParts(n, m, rest);
    PartAfter(latest, n + (m + rest), 8, 16);
    DropDrop(latest + (n + (m + rest)), 56, 8);
    Seam(m, rest);
  }

  /** The header's counters and hashes stand at fixed offsets; then come the block records and the table's rows. */
  lemma HeaderLayout(t: Table)
    requires Shaped(t.buckets)
    ensures var p, latest := Payload(t), LatestOf(t.blockIndex);
            && |p| >= 76 && p[..8] == LE(0x5350_454E_4450_4952, 8) && p[8..12] == LE(2, 4)
            && p[12..20] == LE(LatestHeight(latest), 8) == p[20..28] && p[28..60] == LatestHash(latest)
            && p[60..68] == LE(t.numEntries, 8) && p[68..76] == LE(|t.blockIndex|, 8)
            && p[76..] == IndexBytes(t.blockIndex) + PirBytes(t.buckets)
  {
    var rest, latest := IndexBytes(t.blockIndex) + PirBytes(t.buckets), LatestOf(t.blockIndex);
    var magic, version, counts := LE(SNAPSHOT_MAGIC, 8), LE(SNAPSHOT_VERSION, 4), CountsSection(t, rest);
    CountsLayout(t, rest);
    LatestLayout(latest);
    ThreeParts(magic, version, counts);
    CountsInside(magic + version, counts, latest);
    Assoc(magic, version, counts);
  }

  lemma CountsInside(head: seq<byte>, counts: seq<byte>, latest: Option<(nat, Hash)>)
    requires |head| == 12 && |counts| >= 64 && counts[..48] == LatestBytes(latest)
    ensures var p := head + counts;
            && p[12..20] == LatestBytes(latest)[..8] && p[20..28] == LatestBytes(latest)[8..16]
            && p[28..60] == LatestBytes(latest)[16..48]
            && p[60..68] == counts[48..56] && p[68..76] == counts[56..64] && p[76..] == counts[64..]
  {
    var s := counts[..48];
    assert counts[..8] == s[..8] && counts[8..16] == s[8..16] && counts[16..48] == s[16..48];
  }

  /** A record is its height, hash and number of slots, then the slots. */
  lemma RecordLayout(height: nat, record: BlockRecord)
    ensures var s := RecordBytes(height, record);
            && |s| == 44 + 6 * |record.slots| && s[..8] == LE(height, 8) && s[8..40] == record.blockHash
            && s[40..44] == LE(|record.slots|, 4) && s[44..] == SlotsBytes(record.slots)
  {
    var h, n, slots := LE(height, 8), LE(|record.slots|, 4), SlotsBytes(record.slots);
    ThreeParts(h, record.blockHash, n + slots);
    Seam(n, slots);
    PartAfter(h + record.blockHash, n + slots, 0, 4);
    Assoc(h, record.blockHash, n + slots);
    DropDrop(RecordBytes(height, record), 40, 4);
  }

  /** Slot k is six bytes: bucket, slot and a zero. */
  lemma {:induction false} SlotLayout(slots: seq<Slot>, k: nat)
    requires k < |slots|
    ensures var s := Sub(SlotsBytes(slots), 6 * k, 6);
            s[..4] == LE(slots[k].bucket, 4) && s[4..5] == LE(slots[k].slot, 1) && s[5] == 0
  {
    var first, tail := SlotBytes(slots[0]), SlotsBytes(slots[1..]);
    if k > 0 {
      SlotLayout(slots[1..], k - 1);
      assert Sub(first + tail, 6 * k, 6) == Sub(tail, 6 * (k - 1), 6);
    }
  }

  ghost predicate Ascends(heights: seq<nat>) {
    forall i, j :: 0 <= i < j < |heights| ==> heights[i] < heights[j]
  }

  // The records of these heights, one after the other.
  function RecordsOf(index: map<nat, BlockRecord>, heights: seq<nat>): seq<byte>
    requires forall i :: 0 <= i < |heights| ==> heights[i] in index
  {
    if heights == [] then [] else RecordBytes(heights[0], index[heights[0]]) + RecordsOf(index, heights[1..])
  }

  lemma {:induction false} SameRecordsOf(index: map<nat, BlockRecord>, rest: map<nat, BlockRecord>, heights: seq<nat>)
    requires forall i :: 0 <= i < |heights| ==> heights[i] in index && heights[i] in rest
    requires forall i :: 0 <= i < |heights| ==> index[heights[i]] == rest[heights[i]]
    ensures RecordsOf(index, heights) == RecordsOf(rest, heights)
  {
    if heights != [] {
      SameRecordsOf(index, rest, heights[1..]);
    }
  }

  lemma LowestFirst(index: map<nat, BlockRecord>, m: nat, rest: map<nat, BlockRecord>, above: seq<nat>)
    requires index != map[] && (m, rest) == Lowest(index)
    requires Ascends(above) && forall h :: h in rest <==> h in above
    ensures Ascends([m] + above) && forall h :: h in index <==> h in [m] + above
  {
    forall i | 0 <= i < |above|
      ensures m < above[i]
    {
      assert above[i] in rest;
    }
  }

  lemma RecordsOfFirst(index: map<nat, BlockRecord>, m: nat, rest: map<nat, BlockRecord>, above: seq<nat>)
    requires index != map[] && (m, rest) == Lowest(index)
    requires forall i :: 0 <= i < |above| ==> above[i] in rest
    ensures forall i :: 0 <= i < |[m] + above| ==> ([m] + above)[i] in index
    ensures RecordsOf(index, [m] + above) == RecordBytes(m, index[m]) + RecordsOf(rest, above)
  {
    var heights := [m] + above;
    assert heights[1..] == above;
    SameRecordsOf(index, rest, above);
  }

  /** All records are written, each once, in strictly ascending order of height. */
  lemma {:induction false} IndexInOrder(index: map<nat, BlockRecord>) returns (heights: seq<nat>)
    ensures Ascends(heights) && (forall h :: h in index <==> h in heights)
    ensures forall i :: 0 <= i < |heights| ==> heights[i] in index
    ensures IndexBytes(index) == RecordsOf(index, heights)
    decreases |index|
  {
    heights := [];
    if index != map[] {
      var (m, rest) := Lowest(index);
      var above := IndexInOrder(rest);
      LowestFirst(index, m, rest, above);
      RecordsOfFirst(index, m, rest, above);
      heights := [m] + above;
    }
  }

  // ----- What is refused

  lemma IndexStep(s: seq<byte>, count: nat, ix: Index)
    requires count > 0
    ensures var r := ReadRecord(s);
            ReadIndex(s, count, ix)
            == if r.Failed? then Failed(r.error)
               else ReadIndex(r.rest, count - 1, AddRecord(ix, r.value.0, r.value.1))
  {
  }

  lemma RecordErrors(s: seq<byte>)
    ensures ReadRecord(s).Failed? ==> InBody(ReadRecord(s).error)
  {
  }

  ghost predicate FailsInBody(r: Parsed<Index>) {
    r.Failed? ==> InBody(r.error)
  }

  lemma {:induction false} IndexErrors(s: seq<byte>, count: nat, ix: Index)
    ensures FailsInBody(ReadIndex(s, count, ix))
    decreases count
  {
    if count > 0 {
      var r := ReadRecord(s);
      RecordErrors(s);
      IndexStep(s, count, ix);
      if r.Read? {
        IndexErrors(r.rest, count - 1, AddRecord(ix, r.value.0, r.value.1));
      }
    }
  }

  lemma CountErrors(s: seq<byte>)
    ensures var r := ReadCounts(s);
            r.Failed? ==> InBody(r.error)
  {
    if |s| >= 64 {
      var rest := s[48..];
      IndexErrors(rest[8..][8..], U64Of(rest[8..]), Index(map[], map[]));
    }
  }

  // Whether the data carries the checksum of what precedes it.
  predicate IsSealed(data: seq<byte>, xxh: seq<byte> -> u64)
    requires |data| >= 8
  {
    FromLE(data[|data| - 8..]) == xxh(data[..|data| - 8])
  }

  /** Too little data, a wrong checksum, another magic number and another version are refused, in this order, each by
      its own error, and nothing else is refused by these errors. */
  lemma Refused(data: seq<byte>, xxh: seq<byte> -> u64)
    ensures var r := Decode(data, xxh);
            if |data| < 75_235_412 then r == Failed(TooShort)
            else if !IsSealed(data, xxh) then r == Failed(ChecksumMismatch)
            else if FromLE(data[..8]) != 0x5350_454E_4450_4952 then r == Failed(BadMagic)
            else if FromLE(data[8..12]) != 2 then r == Failed(UnsupportedVersion(FromLE(data[8..12])))
            else r.Failed? ==> InBody(r.error)
  {
    if |data| >= 75_235_412 {
      var payload := data[..|data| - 8];
      assert payload[..8] == data[..8] && payload[8..][..4] == data[8..12];
      CountErrors(payload[8..][4..]);
    }
  }

  lemma TwoRecords(s: seq<byte>, t: seq<byte>, rest: seq<byte>, height: nat, a: BlockRecord, b: BlockRecord, ix: Index)
    requires ReadRecord(s) == Read((height, a), t) && ReadRecord(t) == Read((height, b), rest)
    ensures ReadIndex(s, 2, ix) == Read(AddRecord(AddRecord(ix, height, a), height, b), rest)
  {
    IndexStep(s, 2, ix);
    IndexStep(t, 1, AddRecord(ix, height, a));
  }

  lemma AddTwice(height: nat, a: BlockRecord, b: BlockRecord)
    ensures var ix := AddRecord(AddRecord(Index(map[], map[]), height, a), height, b);
            ix.blocks == map[height := b] && b.blockHash in ix.hashes
  {
  }

  /** When a height is given twice the later record counts. */
  lemma LastRecordCounts(height: nat, a: BlockRecord, b: BlockRecord, rest: seq<byte>)
    requires height < U64 && FittingRecord(a) && FittingRecord(b)
    ensures var r := ReadIndex(RecordBytes(height, a) + (RecordBytes(height, b) + rest), 2, Index(map[], map[]));
            r.Read? && r.rest == rest && r.value.blocks == map[height := b] && b.blockHash in r.value.hashes
  {
    var tail := RecordBytes(height, b) + rest;
    RecordRoundTrip(height, a, tail);
    RecordRoundTrip(height, b, rest);
    AddTwice(height, a, b);
    TwoRecords(RecordBytes(height, a) + tail, tail, rest, height, a, b, Index(map[], map[]));
  }
}
