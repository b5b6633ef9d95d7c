/** Binary snapshots of the commitment tree: the version 3 writer and the decoder of versions 1 to 3, as
    functions on byte strings. The checksum function is a parameter. */
module TreeSnapshot {
  import opened Bytes
  import opened Geometry
  import opened CommitmentTree

  datatype TreeError =
    | TooShort | ChecksumMismatch | BadMagic(magic: nat) | UnexpectedEof
    | PrefetchedTruncated | BlockRecordsTruncated | LeafDataTruncated | CacheEntryTruncated
    | CommitmentCountMismatch(total: nat, expected: nat)

  datatype Result<+T> = Ok(value: T) | Err(error: TreeError)

  const SNAPSHOT_MAGIC_V1: nat := 0x434D_5452_4545_0001
  const SNAPSHOT_MAGIC_V2: nat := 0x434D_5452_4545_0002
  const SNAPSHOT_MAGIC_V3: nat := 0x434D_5452_4545_0003
  const BLOCK_RECORD_SIZE: nat := 44
  const CACHE_ENTRY_SIZE: nat := 36

  datatype CacheEntry = CacheEntry(slot: nat, root: Hash)

  // ----- Writing

  function BlockBytes(b: BlockRecord): (s: seq<byte>)
    ensures |s| == BLOCK_RECORD_SIZE
  {
    LE(b.height, 8) + (b.hash + LE(b.numCommitments, 4))
  }

  function EncodeBlocks(blocks: seq<BlockRecord>): (s: seq<byte>)
    ensures |s| == BLOCK_RECORD_SIZE * |blocks|
  {
    if blocks == [] then [] else BlockBytes(blocks[0]) + EncodeBlocks(blocks[1..])
  }

  // The cached slots among the first n, in slot order.
  function EntriesOf(cache: seq<Option<Hash>>, n: nat): (entries: seq<CacheEntry>)
    requires n <= |cache|
    ensures |entries| <= n
  {
    if n == 0 then []
    else EntriesOf(cache, n - 1) + (if cache[n - 1].Some? then [CacheEntry(n - 1, cache[n - 1].value)] else [])
  }

  function EntryBytes(e: CacheEntry): (s: seq<byte>)
    ensures |s| == CACHE_ENTRY_SIZE
  {
    LE(e.slot, 4) + e.root
  }

  function EncodeEntries(entries: seq<CacheEntry>): (s: seq<byte>)
    ensures |s| == CACHE_ENTRY_SIZE * |entries|
  {
    if entries == [] then [] else EntryBytes(entries[0]) + EncodeEntries(entries[1..])
  }

  function GetOr<T>(o: Option<T>, default: T): T {
    match o case Some(v) => v case None => default
  }

  function CacheSection(entries: seq<CacheEntry>): seq<byte> {
    LE(|entries|, 8) + EncodeEntries(entries)
  }

  function BodySection(t: Tree, rest: seq<byte>): seq<byte> {
    EncodeBlocks(t.blocks) + (Concat(t.leaves) + rest)
  }

  // Height and hash of the last block, which no decoder reads.
  function Latest(t: Tree): (s: seq<byte>)
    ensures |s| == 40
  {
    LE(GetOr(t.LatestHeight(), 0), 8) + GetOr(t.LatestBlockHash(), ZeroHash())
  }

  function WindowSection(t: Tree, rest: seq<byte>): seq<byte> {
    LE(t.leafOffset, 8) + (LE(|t.prefetched|, 8) + (Concat(t.prefetched) + rest))
  }

  function CountSection(t: Tree, rest: seq<byte>): seq<byte> {
    LE(t.Size(), 8) + (LE(|t.blocks|, 8) + (Latest(t) + rest))
  }

  function Payload(t: Tree): seq<byte> {
    LE(SNAPSHOT_MAGIC_V3, 8)
    + CountSection(t, WindowSection(t, BodySection(t, CacheSection(EntriesOf(t.cache, |t.cache|)))))
  }

  function Encode(t: Tree, xxh: seq<byte> -> u64): seq<byte> {
    Payload(t) + LE(xxh(Payload(t)), 8)
  }

  // ----- Reading

  function HashesOf(s: seq<byte>, count: nat): (hs: seq<Hash>)
    requires 32 * count <= |s|
    ensures |hs| == count
    decreases count
  {
    if count == 0 then [] else [s[..32]] + HashesOf(s[32..], count - 1)
  }

  function BlockOf(s: seq<byte>): BlockRecord
    requires |s| >= BLOCK_RECORD_SIZE
  {
    BlockRecord(FromLE(s[..8]), s[8..][..32], FromLE(s[8..][32..][..4]))
  }

  function BlocksOf(s: seq<byte>, count: nat): (blocks: seq<BlockRecord>)
    requires BLOCK_RECORD_SIZE * count <= |s|
    ensures |blocks| == count
    decreases count
  {
    if count == 0 then [] else [BlockOf(s)] + BlocksOf(s[BLOCK_RECORD_SIZE..], count - 1)
  }

  function EntryOf(s: seq<byte>): CacheEntry
    requires |s| >= CACHE_ENTRY_SIZE
  {
    CacheEntry(FromLE(s[..4]), s[4..][..32])
  }

  function ReadEntries(s: seq<byte>, count: nat): (entries: seq<CacheEntry>)
    requires CACHE_ENTRY_SIZE * count <= |s|
    ensures |entries| == count
    decreases count
  {
    if count == 0 then [] else [EntryOf(s)] + ReadEntries(s[CACHE_ENTRY_SIZE..], count - 1)
  }

  // The cache with entries written into it in order; slots out of range are skipped.
  function Fill(cache: seq<Option<Hash>>, entries: seq<CacheEntry>): (r: seq<Option<Hash>>)
    requires |cache| == L0_DB_ROWS
    ensures |r| == L0_DB_ROWS
    decreases |entries|
  {
    if entries == [] then cache
    else
      var e := entries[0];
      Fill(if e.slot < L0_DB_ROWS then cache[e.slot := Some(e.root)] else cache, entries[1..])
  }

  // A subtraction of 64-bit counters wraps around.
  function WrappingSub(a: nat, b: nat): nat
    requires b < U64
  {
    if b <= a then a - b else a + U64 - b
  }

  // The block records account for exactly the stored leaves, and the cache has a slot for each database row.
  predicate Accounted(t: Tree) {
    Total(t.blocks) == |t.leaves| && |t.cache| == L0_DB_ROWS
  }

  // A tree together with the bytes that follow it.
  datatype Parsed = Parsed(tree: Tree, rest: seq<byte>)

  // Block records, then leaves, for a tree of `local` leaves. The records must account for all of them.
  function DecodeBody(s: seq<byte>, blockCount: nat, local: nat, leafOffset: nat,
                      prefetched: seq<Hash>): (r: Result<Parsed>)
    ensures r.Ok? ==> Accounted(r.value.tree)
  {
    if BLOCK_RECORD_SIZE * blockCount > |s| then Err(BlockRecordsTruncated)
    else
      var blocks := BlocksOf(s, blockCount);
      var rest := s[BLOCK_RECORD_SIZE * blockCount..];
      if Total(blocks) != local then Err(CommitmentCountMismatch(Total(blocks), local))
      else if 32 * local > |rest| then Err(LeafDataTruncated)
      else Ok(Parsed(Tree(HashesOf(rest, local), blocks, leafOffset, prefetched, EmptyCache()), rest[32 * local..]))
  }

  function DecodeCache(p: Parsed): (r: Result<Tree>)
    ensures r.Ok? && Accounted(p.tree) ==> Accounted(r.value)
  {
    if |p.rest| < 8 then Err(UnexpectedEof)
    else
      var count := U64Of(p.rest);
      var rest := p.rest[8..];
      if CACHE_ENTRY_SIZE * count > |rest| then Err(CacheEntryTruncated)
      else Ok(p.tree.(cache := Fill(EmptyCache(), ReadEntries(rest, count))))
  }

  // Prefetched roots, then the body.
  function DecodeRoots(s: seq<byte>, count: nat, blockCount: nat, local: nat, leafOffset: nat): (r: Result<Parsed>)
    ensures r.Ok? ==> Accounted(r.value.tree)
  {
    if 32 * count > |s| then Err(PrefetchedTruncated)
    else DecodeBody(s[32 * count..], blockCount, local, leafOffset, HashesOf(s, count))
  }

  // Leaf offset and number of prefetched roots, then the roots and the body.
  function DecodeWindow(s: seq<byte>, treeSize: nat, blockCount: nat): (r: Result<Parsed>)
    ensures r.Ok? ==> Accounted(r.value.tree)
  {
    if |s| < 16 then Err(UnexpectedEof)
    else
      U64Bound(s);
      var leafOffset := U64Of(s);
      DecodeRoots(s[8..][8..], U64Of(s[8..]), blockCount, WrappingSub(treeSize, leafOffset), leafOffset)
  }

  // Everything after the magic number; version 1 has no window and starts at leaf 0.
  function DecodeFields(s: seq<byte>, windowed: bool): (r: Result<Parsed>)
    ensures r.Ok? ==> Accounted(r.value.tree)
  {
    if |s| < 56 then Err(UnexpectedEof)
    else
      var treeSize, blockCount, rest := U64Of(s), U64Of(s[8..]), s[8..][8..][40..];
      if windowed then DecodeWindow(rest, treeSize, blockCount) else DecodeBody(rest, blockCount, treeSize, 0, [])
  }

  /** Whatever bytes the decoder accepts, of any version, the result is accounted for. */
  function Decode(data: seq<byte>, xxh: seq<byte> -> u64): (r: Result<Tree>)
    ensures r.Ok? ==> Accounted(r.value)
  {
    if |data| < 16 then Err(TooShort)
    else
      var payload := data[..|data| - 8];
      if FromLE(data[|data| - 8..]) != xxh(payload) then Err(ChecksumMismatch)
      else
        var magic := U64Of(payload);
        if magic !in {SNAPSHOT_MAGIC_V1, SNAPSHOT_MAGIC_V2, SNAPSHOT_MAGIC_V3} then Err(BadMagic(magic))
        else
          var parsed := DecodeFields(payload[8..], magic != SNAPSHOT_MAGIC_V1);
          if parsed.Err? then Err(parsed.error)
          else if magic == SNAPSHOT_MAGIC_V3 then DecodeCache(parsed.value)
          else Ok(parsed.value.tree)
  }

  // ----- Round trip

  ghost predicate FittingBlocks(blocks: seq<BlockRecord>) {
    forall k :: 0 <= k < |blocks| ==> blocks[k].height < U64 && blocks[k].numCommitments < U32
  }

  /** An accounted tree whose counters fit their fields. */
  ghost predicate Representable(t: Tree) {
    && t.Size() < U64 && |t.blocks| < U64 && |t.prefetched| < U64
    && Accounted(t)
    && FittingBlocks(t.blocks)
  }

  lemma {:induction false} HashesRoundTrip(hs: seq<Hash>, rest: seq<byte>)
    ensures HashesOf(Concat(hs) + rest, |hs|) == hs
  {
    if hs != [] {
      var tail := Concat(hs[1..]) + rest;
      ConcatAppend([hs[0]], hs[1..]);
      assert [hs[0]] + hs[1..] == hs && Concat([hs[0]]) == hs[0];
      Assoc(hs[0], Concat(hs[1..]), rest);
      Seam(hs[0], tail);
      HashesRoundTrip(hs[1..], rest);
    }
  }

  lemma BlockRoundTrip(b: BlockRecord, rest: seq<byte>)
    requires b.height < U64 && b.numCommitments < U32
    ensures BlockOf(BlockBytes(b) + rest) == b
  {
    var h, n := LE(b.height, 8), LE(b.numCommitments, 4);
    Assoc(h, b.hash + n, rest);
    Assoc(b.hash, n, rest);
    Seam(h, b.hash + (n + rest));
    Seam(b.hash, n + rest);
    Seam(n, rest);
    LE8(b.height);
    LE4(b.numCommitments);
  }

  lemma {:induction false} BlocksRoundTrip(blocks: seq<BlockRecord>, rest: seq<byte>)
    requires FittingBlocks(blocks)
    ensures BlocksOf(EncodeBlocks(blocks) + rest, |blocks|) == blocks
  {
    if blocks != [] {
      var first, tail := BlockBytes(blocks[0]), EncodeBlocks(blocks[1..]) + rest;
      Assoc(first, EncodeBlocks(blocks[1..]), rest);
      Seam(first, tail);
      BlockRoundTrip(blocks[0], tail);
      BlocksRoundTrip(blocks[1..], rest);
    }
  }

  lemma EntryRoundTrip(e: CacheEntry, rest: seq<byte>)
    requires e.slot < U32
    ensures EntryOf(EntryBytes(e) + rest) == e
  {
    var n := LE(e.slot, 4);
    Assoc(n, e.root, rest);
    Seam(n, e.root + rest);
    Seam(e.root, rest);
    LE4(e.slot);
  }

  lemma {:induction false} EntriesRoundTrip(entries: seq<CacheEntry>)
    requires forall k :: 0 <= k < |entries| ==> entries[k].slot < U32
    ensures ReadEntries(EncodeEntries(entries), |entries|) == entries
  {
    if entries != [] {
      var first, tail := EntryBytes(entries[0]), EncodeEntries(entries[1..]);
      Seam(first, tail);
      EntryRoundTrip(entries[0], tail);
      EntriesRoundTrip(entries[1..]);
    }
  }

  lemma {:induction false} FillAppend(cache: seq<Option<Hash>>, a: seq<CacheEntry>, b: seq<CacheEntry>)
    requires |cache| == L0_DB_ROWS
    ensures Fill(cache, a + b) == Fill(Fill(cache, a), b)
    decreases |a|
  {
    if a == [] {
      assert a + b == b;
    } else {
      var e := a[0];
      assert (a + b)[1..] == a[1..] + b;
      FillAppend(if e.slot < L0_DB_ROWS then cache[e.slot := Some(e.root)] else cache, a[1..], b);
    }
  }

  // Writing the cached entries into an empty cache rebuilds the cache.
  lemma {:induction false} CacheRoundTrip(cache: seq<Option<Hash>>, n: nat)
    requires n <= |cache| == L0_DB_ROWS
    ensures forall k :: 0 <= k < |EntriesOf(cache, n)| ==> EntriesOf(cache, n)[k].slot < n
    ensures forall i :: 0 <= i < L0_DB_ROWS ==>
              Fill(EmptyCache(), EntriesOf(cache, n))[i] == if i < n then cache[i] else None
    decreases n
  {
    if n > 0 {
      CacheRoundTrip(cache, n - 1);
      var init := EntriesOf(cache, n - 1);
      if cache[n - 1].Some? {
        var last := [CacheEntry(n - 1, cache[n - 1].value)];
        FillAppend(EmptyCache(), init, last);
        assert last[1..] == [];
      } else {
        assert EntriesOf(cache, n) == init;
      }
    }
  }

  lemma CacheSectionRoundTrip(t: Tree)
    requires |t.cache| == L0_DB_ROWS
    ensures DecodeCache(Parsed(t.(cache := EmptyCache()), CacheSection(EntriesOf(t.cache, |t.cache|)))) == Ok(t)
  {
    var e := EntriesOf(t.cache, |t.cache|);
    CacheRoundTrip(t.cache, |t.cache|);
    assert Fill(EmptyCache(), e) == t.cache;
    U64RoundTrip(|e|, EncodeEntries(e));
    EntriesRoundTrip(e);
  }

  lemma BodyRoundTrip(t: Tree, rest: seq<byte>)
    requires Representable(t)
    ensures DecodeBody(BodySection(t, rest), |t.blocks|, |t.leaves|, t.leafOffset, t.prefetched)
            == Ok(Parsed(t.(cache := EmptyCache()), rest))
  {
    var leafBytes := Concat(t.leaves) + rest;
    BlocksRoundTrip(t.blocks, leafBytes);
    Seam(EncodeBlocks(t.blocks), leafBytes);
    HashesRoundTrip(t.leaves, rest);
    Seam(Concat(t.leaves), rest);
  }

  lemma RootsRoundTrip(t: Tree, body: seq<byte>)
    ensures DecodeRoots(Concat(t.prefetched) + body, |t.prefetched|, |t.blocks|, |t.leaves|, t.leafOffset)
            == DecodeBody(body, |t.blocks|, |t.leaves|, t.leafOffset, t.prefetched)
  {
    HashesRoundTrip(t.prefetched, body);
    Seam(Concat(t.prefetched), body);
  }

  lemma WindowRoundTrip(t: Tree, body: seq<byte>)
    requires t.Size() < U64 && |t.prefetched| < U64
    ensures DecodeWindow(WindowSection(t, body), t.Size(), |t.blocks|)
            == DecodeRoots(Concat(t.prefetched) + body, |t.prefetched|, |t.blocks|, |t.leaves|, t.leafOffset)
  {
    var roots := Concat(t.prefetched) + body;
    U64RoundTrip(t.leafOffset, LE(|t.prefetched|, 8) + roots);
    U64RoundTrip(|t.prefetched|, roots);
  }

  lemma CountRoundTrip(t: Tree, window: seq<byte>)
    requires t.Size() < U64 && |t.blocks| < U64
    ensures DecodeFields(CountSection(t, window), true) == DecodeWindow(window, t.Size(), |t.blocks|)
  {
    var latest := Latest(t) + window;
    U64RoundTrip(t.Size(), LE(|t.blocks|, 8) + latest);
    U64RoundTrip(|t.blocks|, latest);
    Seam(Latest(t), window);
  }

  lemma FieldsRoundTrip(t: Tree)
    requires Representable(t)
    ensures U64Of(Payload(t)) == SNAPSHOT_MAGIC_V3
    ensures var rest := CacheSection(EntriesOf(t.cache, |t.cache|));
            DecodeFields(Payload(t)[8..], true) == Ok(Parsed(t.(cache := EmptyCache()), rest))
  {
    var rest := CacheSection(EntriesOf(t.cache, |t.cache|));
    var body := BodySection(t, rest);
    var window := WindowSection(t, body);
    U64RoundTrip(SNAPSHOT_MAGIC_V3, CountSection(t, window));
    CountRoundTrip(t, window);
    WindowRoundTrip(t, body);
    RootsRoundTrip(t, body);
    BodyRoundTrip(t, rest);
  }

  /** Restoring a snapshot gives back the whole tree: leaves, blocks, offset, prefetched roots and cache. */
  lemma SnapshotRoundTrip(t: Tree, xxh: seq<byte> -> u64)
    requires Representable(t)
    ensures Decode(Encode(t, xxh), xxh) == Ok(t)
  {
    var payload := Payload(t);
    var checksum := LE(xxh(payload), 8);
    Seam(payload, checksum);
    LE8(xxh(payload));
    FieldsRoundTrip(t);
    CacheSectionRoundTrip(t);
  }

  // ----- Older versions

  function Sealed(payload: seq<byte>, xxh: seq<byte> -> u64): seq<byte> {
    payload + LE(xxh(payload), 8)
  }

  // Version 1 has no window section, version 2 has one, and neither has a cache section.
  function PayloadV1(t: Tree): seq<byte> {
    LE(0x434D_5452_4545_0001, 8) + CountSection(t, BodySection(t, []))
  }

  function PayloadV2(t: Tree): seq<byte> {
    LE(0x434D_5452_4545_0002, 8) + CountSection(t, WindowSection(t, BodySection(t, [])))
  }

  lemma SealedPayload(payload: seq<byte>, xxh: seq<byte> -> u64)
    ensures var data := Sealed(payload, xxh);
            && |data| == |payload| + 8 && data[..|data| - 8] == payload
            && FromLE(data[|data| - 8..]) == xxh(payload)
  {
    Seam(payload, LE(xxh(payload), 8));
    LE8(xxh(payload));
  }

  lemma PlainCountRoundTrip(t: Tree, body: seq<byte>)
    requires t.Size() < U64 && |t.blocks| < U64
    ensures DecodeFields(CountSection(t, body), false) == DecodeBody(body, |t.blocks|, t.Size(), 0, [])
  {
    var latest := Latest(t) + body;
    U64RoundTrip(t.Size(), LE(|t.blocks|, 8) + latest);
    U64RoundTrip(|t.blocks|, latest);
    Seam(Latest(t), body);
  }

  /** A version 1 snapshot holds a tree that starts at leaf 0; it is restored with an empty cache. */
  lemma Version1Decodes(t: Tree, xxh: seq<byte> -> u64)
    requires Representable(t) && t.leafOffset == 0 && t.prefetched == []
    ensures Decode(Sealed(PayloadV1(t), xxh), xxh) == Ok(t.(cache := EmptyCache()))
  {
    var body := BodySection(t, []);
    SealedPayload(PayloadV1(t), xxh);
    U64RoundTrip(0x434D_5452_4545_0001, CountSection(t, body));
    PlainCountRoundTrip(t, body);
    BodyRoundTrip(t, []);
  }

  /** A version 2 snapshot holds a windowed tree; it is restored with an empty cache. */
  lemma Version2Decodes(t: Tree, xxh: seq<byte> -> u64)
    requires Representable(t)
    ensures Decode(Sealed(PayloadV2(t), xxh), xxh) == Ok(t.(cache := EmptyCache()))
  {
    var body := BodySection(t, []);
    SealedPayload(PayloadV2(t), xxh);
    U64RoundTrip(0x434D_5452_4545_0002, CountSection(t, WindowSection(t, body)));
    CountRoundTrip(t, WindowSection(t, body));
    WindowRoundTrip(t, body);
    RootsRoundTrip(t, body);
    BodyRoundTrip(t, []);
  }

  // ----- What is refused

  // The errors of a payload that is sealed and of a known version.
  predicate InBody(e: TreeError) {
    !e.TooShort? && !e.ChecksumMismatch? && !e.BadMagic?
  }

  lemma BodyErrors(s: seq<byte>, blockCount: nat, local: nat, leafOffset: nat, prefetched: seq<Hash>)
    ensures var r := DecodeBody(s, blockCount, local, leafOffset, prefetched);
            r.Err? ==> InBody(r.error)
  {
  }

  lemma WindowErrors(s: seq<byte>, treeSize: nat, blockCount: nat)
    ensures var r := DecodeWindow(s, treeSize, blockCount);
            r.Err? ==> InBody(r.error)
  {
    if |s| >= 16 {
      U64Bound(s);
      var count := U64Of(s[8..]);
      if 32 * count <= |s[8..][8..]| {
        BodyErrors(s[8..][8..][32 * count..], blockCount, WrappingSub(treeSize, U64Of(s)), U64Of(s),
                   HashesOf(s[8..][8..], count));
      }
    }
  }

  lemma FieldErrors(s: seq<byte>, windowed: bool)
    ensures var r := DecodeFields(s, windowed);
            r.Err? ==> InBody(r.error)
  {
    if |s| >= 56 {
      var treeSize, blockCount, rest := U64Of(s), U64Of(s[8..]), s[8..][8..][40..];
      if windowed {
        WindowErrors(rest, treeSize, blockCount);
      } else {
        BodyErrors(rest, blockCount, treeSize, 0, []);
      }
    }
  }

  predicate KnownVersion(magic: nat) {
    magic == 0x434D_5452_4545_0001 || magic == 0x434D_5452_4545_0002 || magic == 0x434D_5452_4545_0003
  }

  // Whether the data carries the checksum of what precedes it.
  predicate IsSealed(data: seq<byte>, xxh: seq<byte> -> u64)
    requires |data| >= 16
  {
    FromLE(data[|data| - 8..]) == xxh(data[..|data| - 8])
  }

  /** Too little data, a wrong checksum and an unknown version are refused, in this order, each by its own error, and
      nothing else is refused by these errors. */
  lemma Refused(data: seq<byte>, xxh: seq<byte> -> u64)
    ensures var r := Decode(data, xxh);
            if |data| < 16 then r == Err(TooShort)
            else if !IsSealed(data, xxh) then r == Err(ChecksumMismatch)
            else if !KnownVersion(FromLE(data[..8])) then r == Err(BadMagic(FromLE(data[..8])))
            else r.Err? ==> InBody(r.error)
  {
    if |data| >= 16 {
      var payload := data[..|data| - 8];
      assert payload[..8] == data[..8];
      FieldErrors(payload[8..], U64Of(payload) != SNAPSHOT_MAGIC_V1);
    }
  }

  lemma BodySize(s: seq<byte>, blockCount: nat, local: nat, leafOffset: nat, prefetched: seq<Hash>)
    ensures var r := DecodeBody(s, blockCount, local, leafOffset, prefetched);
            r.Ok? ==> |r.value.tree.leaves| == local && |r.value.tree.blocks| == blockCount
                      && r.value.tree.leafOffset == leafOffset
  {
  }

  lemma WrapsBack(size: nat, offset: nat)
    requires size < U64 && offset < U64
    ensures (offset + WrappingSub(size, offset)) % U64 == size
  {
  }

  lemma WindowSize(s: seq<byte>, treeSize: nat, blockCount: nat)
    requires treeSize < U64
    ensures var r := DecodeWindow(s, treeSize, blockCount);
            r.Ok? ==> r.value.tree.Size() % U64 == treeSize && |r.value.tree.blocks| == blockCount
  {
    if |s| >= 16 {
      U64Bound(s);
      var offset, count, roots := U64Of(s), U64Of(s[8..]), s[8..][8..];
      WrapsBack(treeSize, offset);
      if 32 * count <= |roots| {
        BodySize(roots[32 * count..], blockCount, WrappingSub(treeSize, offset), offset, HashesOf(roots, count));
      }
    }
  }

  // The size in the header is that of the tree, up to the width of the field.
  lemma FieldsSize(s: seq<byte>, windowed: bool)
    requires |s| >= 56
    ensures var r := DecodeFields(s, windowed);
            r.Ok? ==> r.value.tree.Size() % U64 == U64Of(s) && |r.value.tree.blocks| == U64Of(s[8..])
  {
    var treeSize, blockCount, rest := U64Of(s), U64Of(s[8..]), s[8..][8..][40..];
    U64Bound(s);
    if windowed {
      WindowSize(rest, treeSize, blockCount);
    } else {
      BodySize(rest, blockCount, treeSize, 0, []);
    }
  }

  lemma HeaderAt(data: seq<byte>, payload: seq<byte>)
    requires |data| >= 72 && payload == data[..|data| - 8]
    ensures U64Of(payload[8..]) == FromLE(data[8..16]) && U64Of(payload[8..][8..]) == FromLE(data[16..24])
  {
    DropDrop(payload, 8, 8);
    assert payload[8..][..8] == data[8..16] && payload[16..][..8] == data[16..24];
  }

  // The decoded tree is the one that the fields give, but for its cache.
  lemma DecodedFields(data: seq<byte>, xxh: seq<byte> -> u64)
    requires Decode(data, xxh).Ok?
    ensures |data| >= 72
    ensures var payload, t := data[..|data| - 8], Decode(data, xxh).value;
            var r := DecodeFields(payload[8..], U64Of(payload) != SNAPSHOT_MAGIC_V1);
            r.Ok? && t.Size() == r.value.tree.Size() && t.blocks == r.value.tree.blocks
  {
  }

  /** Whatever is accepted has the size and the number of blocks that its header announces. */
  lemma AcceptedSize(data: seq<byte>, xxh: seq<byte> -> u64)
    requires Decode(data, xxh).Ok?
    ensures |data| >= 72
    ensures Decode(data, xxh).value.Size() % U64 == FromLE(data[8..16])
    ensures |Decode(data, xxh).value.blocks| == FromLE(data[16..24])
  {
    DecodedFields(data, xxh);
    var payload := data[..|data| - 8];
    FieldsSize(payload[8..], U64Of(payload) != SNAPSHOT_MAGIC_V1);
    HeaderAt(data, payload);
  }

  // ----- The layout

  /** The header is ten counters and hashes at fixed offsets, and the sections follow in this order. */
  lemma HeaderLayout(t: Tree)
    ensures var p := Payload(t);
            && |p| >= 80 && p[..8] == LE(0x434D_5452_4545_0003, 8) && p[8..16] == LE(t.Size(), 8)
            && p[16..24] == LE(|t.blocks|, 8) && p[24..32] == LE(GetOr(t.LatestHeight(), 0), 8)
            && p[32..64] == GetOr(t.LatestBlockHash(), ZeroHash())
            && p[64..72] == LE(t.leafOffset, 8) && p[72..80] == LE(|t.prefetched|, 8)
            && p[80..] == Concat(t.prefetched) + (EncodeBlocks(t.blocks) + (Concat(t.leaves)
                          + (LE(|EntriesOf(t.cache, |t.cache|)|, 8) + EncodeEntries(EntriesOf(t.cache, |t.cache|)))))
  {
    var p, body := Payload(t), BodySection(t, CacheSection(EntriesOf(t.cache, |t.cache|)));
    var window := WindowSection(t, body);
    assert p == LE(SNAPSHOT_MAGIC_V3, 8) + CountSection(t, window);
    CountLayout(t, window);
    assert p[8..] == CountSection(t, window);
    assert p[64..] == window;
    WindowLayout(t, body);
    assert p[80..] == p[64..][16..];
  }

  lemma CountLayout(t: Tree, rest: seq<byte>)
    ensures var s := CountSection(t, rest);
            && |s| == 56 + |rest| && s[..8] == LE(t.Size(), 8) && s[8..16] == LE(|t.blocks|, 8)
            && s[16..24] == LE(GetOr(t.LatestHeight(), 0), 8)
            && s[24..56] == GetOr(t.LatestBlockHash(), ZeroHash()) && s[56..] == rest
  {
  }

  lemma WindowLayout(t: Tree, rest: seq<byte>)
    ensures var s := WindowSection(t, rest);
            && |s| == 16 + 32 * |t.prefetched| + |rest| && s[..8] == LE(t.leafOffset, 8)
            && s[8..16] == LE(|t.prefetched|, 8) && s[16..] == Concat(t.prefetched) + rest
  {
  }

  /** Block record k is 44 bytes: height, hash and number of commitments. */
  lemma {:induction false} BlockLayout(blocks: seq<BlockRecord>, k: nat)
    requires k < |blocks|
    ensures var s := Sub(EncodeBlocks(blocks), 44 * k, 44);
            && s[..8] == LE(blocks[k].height, 8) && s[8..40] == blocks[k].hash
            && s[40..44] == LE(blocks[k].numCommitments, 4)
  {
    var first, tail := BlockBytes(blocks[0]), EncodeBlocks(blocks[1..]);
    if k > 0 {
      BlockLayout(blocks[1..], k - 1);
      SubAfter(first, tail, 44 * (k - 1), 44);
    }
  }

  lemma SubAfter<T>(a: seq<T>, b: seq<T>, pos: nat, n: nat)
    requires pos + n <= |b|
    ensures Sub(a + b, |a| + pos, n) == Sub(b, pos, n)
  {
  }

  /** Cache entry k is 36 bytes: slot and root. */
  lemma {:induction false} CacheEntryLayout(entries: seq<CacheEntry>, k: nat)
    requires k < |entries|
    ensures var s := Sub(EncodeEntries(entries), 36 * k, 36);
            s[..4] == LE(entries[k].slot, 4) && s[4..36] == entries[k].root
  {
    var first, tail := EntryBytes(entries[0]), EncodeEntries(entries[1..]);
    if k > 0 {
      CacheEntryLayout(entries[1..], k - 1);
      SubAfter(first, tail, 36 * (k - 1), 36);
    }
  }

  ghost predicate SlotsAscend(entries: seq<CacheEntry>, n: nat) {
    && (forall k :: 0 <= k < |entries| ==> entries[k].slot < n)
    && (forall j, k :: 0 <= j < k < |entries| ==> entries[j].slot < entries[k].slot)
  }

  lemma SlotsAscendOn(entries: seq<CacheEntry>, e: CacheEntry, n: nat)
    requires SlotsAscend(entries, n) && e.slot == n
    ensures SlotsAscend(entries + [e], n + 1)
  {
  }

  /** Cache entries are written in strictly ascending order of slot. */
  lemma {:induction false} EntriesAscend(cache: seq<Option<Hash>>, n: nat)
    requires n <= |cache|
    ensures SlotsAscend(EntriesOf(cache, n), n)
  {
    if n > 0 {
      EntriesAscend(cache, n - 1);
      var init := EntriesOf(cache, n - 1);
      if cache[n - 1].Some? {
        SlotsAscendOn(init, CacheEntry(n - 1, cache[n - 1].value), n - 1);
      } else {
        assert EntriesOf(cache, n) == init;
      }
    }
  }

  /** When a slot is given twice the later entry counts, and a slot out of range is skipped. */
  lemma LastEntryCounts(cache: seq<Option<Hash>>, entries: seq<CacheEntry>, e: CacheEntry)
    requires |cache| == L0_DB_ROWS
    ensures Fill(cache, entries + [e])
            == if e.slot < 8192 then Fill(cache, entries)[e.slot := Some(e.root)] else Fill(cache, entries)
  {
    FillAppend(cache, entries, [e]);
    assert [e][1..] == [];
  }
}
