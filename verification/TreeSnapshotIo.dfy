/** The tree snapshot writer and reader in the server's own form: loops over a growing buffer and a moving cursor,
    each proved against the format of module TreeSnapshot. Writers keep what is still to be written as a suffix,
    readers keep what is still to be read. */
module TreeSnapshotIo {
  import opened Bytes
  import opened Geometry
  import opened CommitmentTree
  import opened TreeSnapshot

  // ----- Writing: `pending` is what the buffer still lacks

  lemma ConcatHead(hs: seq<Hash>)
    requires hs != []
    ensures Concat(hs) == hs[0] + Concat(hs[1..])
  {
    ConcatAppend([hs[0]], hs[1..]);
    assert [hs[0]] + hs[1..] == hs && Concat([hs[0]]) == hs[0];
  }

  method WriteHashes(buf: seq<byte>, hs: seq<Hash>) returns (buf': seq<byte>)
    ensures buf' == buf + Concat(hs)
  {
    buf' := buf;
    for i := 0 to |hs|
      invariant buf' + Concat(hs[i..]) == buf + Concat(hs)
    {
      ConcatHead(hs[i..]);
      Assoc(buf', hs[i], Concat(hs[i + 1..]));
      buf' := buf' + hs[i];
    }
  }

  method WriteBlocks(buf: seq<byte>, blocks: seq<BlockRecord>) returns (buf': seq<byte>)
    ensures buf' == buf + EncodeBlocks(blocks)
  {
    buf' := buf;
    for i := 0 to |blocks|
      invariant buf' + EncodeBlocks(blocks[i..]) == buf + EncodeBlocks(blocks)
    {
      Assoc(buf', BlockBytes(blocks[i]), EncodeBlocks(blocks[i + 1..]));
      buf' := buf' + BlockBytes(blocks[i]);
    }
  }

  method CachedEntries(cache: seq<Option<Hash>>) returns (entries: seq<CacheEntry>)
    ensures entries == EntriesOf(cache, |cache|)
  {
    entries := [];
    for i := 0 to |cache|
      invariant entries == EntriesOf(cache, i)
    {
      if cache[i].Some? {
        entries := entries + [CacheEntry(i, cache[i].value)];
      }
    }
  }

  method WriteEntries(buf: seq<byte>, entries: seq<CacheEntry>) returns (buf': seq<byte>)
    ensures buf' == buf + EncodeEntries(entries)
  {
    buf' := buf;
    for i := 0 to |entries|
      invariant buf' + EncodeEntries(entries[i..]) == buf + EncodeEntries(entries)
    {
      Assoc(buf', EntryBytes(entries[i]), EncodeEntries(entries[i + 1..]));
      buf' := buf' + EntryBytes(entries[i]);
    }
  }

  method ToSnapshot(t: Tree, xxh: seq<byte> -> u64) returns (buf: seq<byte>)
    ensures buf == Encode(t, xxh)
  {
    var entries := CachedEntries(t.cache);
    ghost var cacheBytes := CacheSection(entries);
    ghost var body := BodySection(t, cacheBytes);
    ghost var window := WindowSection(t, body);

    buf := LE(SNAPSHOT_MAGIC_V3, 8);
    buf := WriteCounts(buf, t, window);
    buf := WriteWindow(buf, t, body);
    buf := WriteBody(buf, t, cacheBytes);
    Assoc(buf, LE(|entries|, 8), EncodeEntries(entries));
    buf := buf + LE(|entries|, 8);
    buf := WriteEntries(buf, entries);
    buf := buf + LE(xxh(buf), 8);
  }

  method WriteCounts(buf: seq<byte>, t: Tree, ghost pending: seq<byte>) returns (buf': seq<byte>)
    ensures buf' + pending == buf + CountSection(t, pending)
  {
    Assoc(buf, LE(t.Size(), 8), LE(|t.blocks|, 8) + (Latest(t) + pending));
    buf' := buf + LE(t.Size(), 8);
    Assoc(buf', LE(|t.blocks|, 8), Latest(t) + pending);
    buf' := buf' + LE(|t.blocks|, 8);
    Assoc(buf', Latest(t), pending);
    buf' := buf' + Latest(t);
  }

  method WriteWindow(buf: seq<byte>, t: Tree, ghost pending: seq<byte>) returns (buf': seq<byte>)
    ensures buf' + pending == buf + WindowSection(t, pending)
  {
    Assoc(buf, LE(t.leafOffset, 8), LE(|t.prefetched|, 8) + (Concat(t.prefetched) + pending));
    buf' := buf + LE(t.leafOffset, 8);
    Assoc(buf', LE(|t.prefetched|, 8), Concat(t.prefetched) + pending);
    buf' := buf' + LE(|t.prefetched|, 8);
    Assoc(buf', Concat(t.prefetched), pending);
    buf' := WriteHashes(buf', t.prefetched);
  }

  method WriteBody(buf: seq<byte>, t: Tree, ghost pending: seq<byte>) returns (buf': seq<byte>)
    ensures buf' + pending == buf + BodySection(t, pending)
  {
    Assoc(buf, EncodeBlocks(t.blocks), Concat(t.leaves) + pending);
    buf' := WriteBlocks(buf, t.blocks);
    Assoc(buf', Concat(t.leaves), pending);
    buf' := WriteHashes(buf', t.leaves);
  }

  // ----- Reading: the cursor stands before the bytes not yet read

  method ReadU64(payload: seq<byte>, pos: nat) returns (r: Result<nat>, pos': nat)
    requires pos <= |payload|
    ensures |payload[pos..]| < 8 ==> r == Err(UnexpectedEof) && pos' == pos
    ensures |payload[pos..]| >= 8 ==>
              r == Ok(U64Of(payload[pos..])) && pos' <= |payload| && payload[pos'..] == payload[pos..][8..]
  {
    pos' := pos;
    if pos + 8 > |payload| {
      return Err(UnexpectedEof), pos;
    }
    assert payload[pos..][..8] == payload[pos..pos + 8];
    r := Ok(FromLE(payload[pos..pos + 8]));
    pos' := pos + 8;
    DropDrop(payload, pos, 8);
  }

  // The k-th hash of a run starts 32 k bytes on.
  lemma {:induction false} HashAt(payload: seq<byte>, pos: nat, count: nat, k: nat)
    requires k < count && pos + 32 * count <= |payload|
    ensures HashesOf(payload[pos..], count)[k] == payload[pos + 32 * k..pos + 32 * k + 32]
    decreases k
  {
    assert payload[pos..][..32] == payload[pos..pos + 32];
    DropDrop(payload, pos, 32);
    if k > 0 {
      HashAt(payload, pos + 32, count - 1, k - 1);
    }
  }

  lemma HashRun(payload: seq<byte>, pos: nat, hs: seq<Hash>)
    requires pos + 32 * |hs| <= |payload|
    requires forall k :: 0 <= k < |hs| ==> hs[k] == payload[pos + 32 * k..pos + 32 * k + 32]
    ensures hs == HashesOf(payload[pos..], |hs|)
    ensures payload[pos + 32 * |hs|..] == payload[pos..][32 * |hs|..]
  {
    forall k | 0 <= k < |hs|
      ensures HashesOf(payload[pos..], |hs|)[k] == hs[k]
    {
      HashAt(payload, pos, |hs|, k);
    }
    DropDrop(payload, pos, 32 * |hs|);
  }

  method ReadHashes(payload: seq<byte>, pos: nat, count: nat) returns (hs: seq<Hash>, pos': nat)
    requires pos + 32 * count <= |payload|
    ensures hs == HashesOf(payload[pos..], count)
    ensures pos' <= |payload| && payload[pos'..] == payload[pos..][32 * count..]
  {
    hs, pos' := [], pos;
    for i := 0 to count
      invariant pos' == pos + 32 * i && |hs| == i
      invariant forall k :: 0 <= k < i ==> hs[k] == payload[pos + 32 * k..pos + 32 * k + 32]
    {
      hs := hs + [payload[pos'..pos' + 32]];
      pos' := pos' + 32;
    }
    HashRun(payload, pos, hs);
  }

  method ReadPrefetched(payload: seq<byte>, pos: nat, count: nat) returns (r: Result<seq<Hash>>, pos': nat)
    requires pos <= |payload|
    ensures 32 * count > |payload[pos..]| ==> r == Err(PrefetchedTruncated)
    ensures 32 * count <= |payload[pos..]| ==>
              r == Ok(HashesOf(payload[pos..], count)) && pos' <= |payload|
                  && payload[pos'..] == payload[pos..][32 * count..]
  {
    var hs: seq<Hash> := [];
    pos' := pos;
    for i := 0 to count
      invariant pos' == pos + 32 * i <= |payload| && |hs| == i
      invariant forall k :: 0 <= k < i ==> hs[k] == payload[pos + 32 * k..pos + 32 * k + 32]
    {
      if pos' + 32 > |payload| {
        return Err(PrefetchedTruncated), pos';
      }
      hs := hs + [payload[pos'..pos' + 32]];
      pos' := pos' + 32;
    }
    HashRun(payload, pos, hs);
    r := Ok(hs);
  }

  function RecordAt(payload: seq<byte>, pos: nat): BlockRecord
    requires pos + BLOCK_RECORD_SIZE <= |payload|
  {
    BlockRecord(FromLE(payload[pos..pos + 8]), payload[pos + 8..pos + 40], FromLE(payload[pos + 40..pos + 44]))
  }

  lemma RecordAtCursor(payload: seq<byte>, pos: nat)
    requires pos + BLOCK_RECORD_SIZE <= |payload|
    ensures BlockOf(payload[pos..]) == RecordAt(payload, pos)
  {
    DropDrop(payload, pos, 8);
    DropDrop(payload, pos + 8, 32);
    assert payload[pos..][..8] == payload[pos..pos + 8];
    assert payload[pos + 8..][..32] == payload[pos + 8..pos + 40];
    assert payload[pos + 40..][..4] == payload[pos + 40..pos + 44];
  }

  lemma {:induction false} BlockRecordAt(payload: seq<byte>, pos: nat, count: nat, k: nat)
    requires k < count && pos + BLOCK_RECORD_SIZE * count <= |payload|
    ensures BlocksOf(payload[pos..], count)[k] == RecordAt(payload, pos + BLOCK_RECORD_SIZE * k)
    decreases k
  {
    if k == 0 {
      RecordAtCursor(payload, pos);
    } else {
      DropDrop(payload, pos, BLOCK_RECORD_SIZE);
      BlockRecordAt(payload, pos + BLOCK_RECORD_SIZE, count - 1, k - 1);
    }
  }

  lemma BlockRun(payload: seq<byte>, pos: nat, blocks: seq<BlockRecord>)
    requires pos + BLOCK_RECORD_SIZE * |blocks| <= |payload|
    requires forall k :: 0 <= k < |blocks| ==> blocks[k] == RecordAt(payload, pos + BLOCK_RECORD_SIZE * k)
    ensures blocks == BlocksOf(payload[pos..], |blocks|)
    ensures payload[pos + BLOCK_RECORD_SIZE * |blocks|..] == payload[pos..][BLOCK_RECORD_SIZE * |blocks|..]
  {
    forall k | 0 <= k < |blocks|
      ensures BlocksOf(payload[pos..], |blocks|)[k] == blocks[k]
    {
      BlockRecordAt(payload, pos, |blocks|, k);
    }
    DropDrop(payload, pos, BLOCK_RECORD_SIZE * |blocks|);
  }

  method ReadBlockRecords(payload: seq<byte>, pos: nat, count: nat)
    returns (r: Result<seq<BlockRecord>>, total: nat, pos': nat)
    requires pos <= |payload|
    ensures BLOCK_RECORD_SIZE * count > |payload[pos..]| ==> r == Err(BlockRecordsTruncated)
    ensures BLOCK_RECORD_SIZE * count <= |payload[pos..]| ==>
              var blocks := BlocksOf(payload[pos..], count);
              && r == Ok(blocks) && total == Total(blocks)
              && pos' <= |payload| && payload[pos'..] == payload[pos..][BLOCK_RECORD_SIZE * count..]
  {
    total, pos' := 0, pos;
    if pos + count * BLOCK_RECORD_SIZE > |payload| {
      return Err(BlockRecordsTruncated), total, pos';
    }
    var blocks: seq<BlockRecord> := [];
    for i := 0 to count
      invariant pos' == pos + BLOCK_RECORD_SIZE * i && |blocks| == i && total == Total(blocks)
      invariant forall k :: 0 <= k < i ==> blocks[k] == RecordAt(payload, pos + BLOCK_RECORD_SIZE * k)
    {
      var b := RecordAt(payload, pos');
      TotalSnoc(blocks, b);
      total := total + b.numCommitments;
      blocks := blocks + [b];
      pos' := pos' + BLOCK_RECORD_SIZE;
    }
    BlockRun(payload, pos, blocks);
    r := Ok(blocks);
  }

  method ReadBody(payload: seq<byte>, pos: nat, blockCount: nat, local: nat, leafOffset: nat, prefetched: seq<Hash>)
    returns (r: Result<Tree>, pos': nat)
    requires pos <= |payload|
    ensures var d := DecodeBody(payload[pos..], blockCount, local, leafOffset, prefetched);
            if d.Err? then r == Err(d.error)
            else r == Ok(d.value.tree) && pos' <= |payload| && payload[pos'..] == d.value.rest
  {
    var records, total, leafPos := ReadBlockRecords(payload, pos, blockCount);
    pos' := pos;
    if records.Err? {
      return Err(records.error), pos';
    }
    if total != local {
      return Err(CommitmentCountMismatch(total, local)), pos';
    }
    if leafPos + local * 32 > |payload| {
      return Err(LeafDataTruncated), pos';
    }
    var leaves;
    leaves, pos' := ReadHashes(payload, leafPos, local);
    r := Ok(Tree(leaves, records.value, leafOffset, prefetched, EmptyCache()));
  }

  method ReadCache(payload: seq<byte>, start: nat, t: Tree) returns (r: Result<Tree>)
    requires start <= |payload|
    ensures r == DecodeCache(Parsed(t, payload[start..]))
  {
    var count, pos := ReadU64(payload, start);
    if count.Err? {
      return Err(count.error);
    }
    var cache: seq<Option<Hash>> := EmptyCache();
    ghost var rest := payload[pos..];
    ghost var n := count.value;
    ghost var fits := CACHE_ENTRY_SIZE * n <= |rest|;
    for i := 0 to count.value
      invariant pos <= |payload| && |rest| == |payload| - pos + CACHE_ENTRY_SIZE * i
      invariant |cache| == L0_DB_ROWS
      invariant fits ==> Fill(cache, ReadEntries(payload[pos..], n - i)) == Fill(EmptyCache(), ReadEntries(rest, n))
    {
      if pos + 4 + 32 > |payload| {
        return Err(CacheEntryTruncated);
      }
      if fits {
        EntryStep(payload, pos, n - i);
      }
      var slot := FromLE(payload[pos..pos + 4]);
      if slot < L0_DB_ROWS {
        cache := cache[slot := Some(payload[pos + 4..pos + 36])];
      }
      pos := pos + CACHE_ENTRY_SIZE;
    }
    r := Ok(t.(cache := cache));
  }

  lemma EntryAtCursor(payload: seq<byte>, pos: nat)
    requires pos + CACHE_ENTRY_SIZE <= |payload|
    ensures EntryOf(payload[pos..]) == CacheEntry(FromLE(payload[pos..pos + 4]), payload[pos + 4..pos + 36])
  {
    DropDrop(payload, pos, 4);
    assert payload[pos..][..4] == payload[pos..pos + 4];
    assert payload[pos + 4..][..32] == payload[pos + 4..pos + 36];
  }

  lemma EntryStep(payload: seq<byte>, pos: nat, count: nat)
    requires count > 0 && pos + CACHE_ENTRY_SIZE * count <= |payload|
    ensures ReadEntries(payload[pos..], count)
            == [CacheEntry(FromLE(payload[pos..pos + 4]), payload[pos + 4..pos + 36])]
               + ReadEntries(payload[pos + CACHE_ENTRY_SIZE..], count - 1)
  {
    EntryAtCursor(payload, pos);
    DropDrop(payload, pos, CACHE_ENTRY_SIZE);
  }

  method ReadFields(payload: seq<byte>, start: nat, windowed: bool) returns (r: Result<Tree>, pos: nat)
    requires start <= |payload|
    ensures var d := DecodeFields(payload[start..], windowed);
            if d.Err? then r == Err(d.error)
            else r == Ok(d.value.tree) && pos <= |payload| && payload[pos..] == d.value.rest
  {
    var treeSize, blockCount, height;
    treeSize, pos := ReadU64(payload, start);
    if treeSize.Err? {
      return Err(treeSize.error), pos;
    }
    blockCount, pos := ReadU64(payload, pos);
    if blockCount.Err? {
      return Err(blockCount.error), pos;
    }
    ghost var latest := pos;
    height, pos := ReadU64(payload, pos);
    if height.Err? {
      return Err(height.error), pos;
    }
    if pos + 32 > |payload| {
      return Err(UnexpectedEof), pos;
    }
    DropDrop(payload, pos, 32);
    DropDrop(payload[latest..], 8, 32);
    pos := pos + 32;
    if windowed {
      r, pos := ReadWindow(payload, pos, treeSize.value, blockCount.value);
    } else {
      r, pos := ReadBody(payload, pos, blockCount.value, treeSize.value, 0, []);
    }
  }

  method ReadWindow(payload: seq<byte>, start: nat, treeSize: nat, blockCount: nat) returns (r: Result<Tree>, pos: nat)
    requires start <= |payload|
    ensures var d := DecodeWindow(payload[start..], treeSize, blockCount);
            if d.Err? then r == Err(d.error)
            else r == Ok(d.value.tree) && pos <= |payload| && payload[pos..] == d.value.rest
  {
    var leafOffset, count, roots;
    leafOffset, pos := ReadU64(payload, start);
    if leafOffset.Err? {
      return Err(leafOffset.error), pos;
    }
    count, pos := ReadU64(payload, pos);
    if count.Err? {
      return Err(count.error), pos;
    }
    roots, pos := ReadPrefetched(payload, pos, count.value);
    if roots.Err? {
      return Err(roots.error), pos;
    }
    U64Bound(payload[start..]);
    var local := WrappingSub(treeSize, leafOffset.value);
    r, pos := ReadBody(payload, pos, blockCount, local, leafOffset.value, roots.value);
  }

  method FromSnapshot(data: seq<byte>, xxh: seq<byte> -> u64) returns (r: Result<Tree>)
    ensures r == Decode(data, xxh)
  {
    if |data| < 16 {
      return Err(TooShort);
    }
    var payload := data[..|data| - 8];
    if FromLE(data[|data| - 8..]) != xxh(payload) {
      return Err(ChecksumMismatch);
    }
    var magic, pos := ReadU64(payload, 0);
    assert payload[0..] == payload;
    var m := magic.value;
    if m == SNAPSHOT_MAGIC_V1 || m == SNAPSHOT_MAGIC_V2 {
      r, pos := ReadFields(payload, pos, m == SNAPSHOT_MAGIC_V2);
    } else if m == SNAPSHOT_MAGIC_V3 {
      r, pos := ReadFields(payload, pos, true);
      if r.Ok? {
        r := ReadCache(payload, pos, r.value);
      }
    } else {
      r := Err(BadMagic(m));
    }
  }
}
