/** Entries of the nullifier table: layout constants, bucket mapping and the 41-byte entry codec. */
module SpendTypes {
  import opened Bytes

  const TARGET_SIZE: nat := 1_000_000
  const NUM_BUCKETS: nat := 16384
  const BUCKET_CAPACITY: nat := 112
  const ENTRY_BYTES: nat := 41
  const BUCKET_BYTES: nat := 4592

  type u32 = x: nat | x < U32

  // The first four bytes, read as a little-endian number, modulo the number of buckets.
  function HashToBucket(nf: Hash): (b: nat)
    ensures b < NUM_BUCKETS
  {
    FromLE(nf[..4]) % NUM_BUCKETS
  }

  lemma FirstFour(nf: Hash, a: nat, b: nat, c: nat, d: nat)
    requires nf[0] == a && nf[1] == b && nf[2] == c && nf[3] == d
    ensures FromLE(nf[..4]) == a + 256 * (b + 256 * (c + 256 * d))
  {
    var s := nf[..4];
    assert s[1..][0] == b && s[1..][1..][0] == c && s[1..][1..][1..][0] == d;
    assert s[1..][1..][1..][1..] == [];
    assert FromLE(s[1..][1..][1..]) == d + 256 * FromLE([]);
    assert FromLE(s[1..][1..]) == c + 256 * FromLE(s[1..][1..][1..]);
    assert FromLE(s[1..]) == b + 256 * FromLE(s[1..][1..]);
  }

  lemma LowFourteenBits(a: byte, b: byte, high: nat)
    ensures (a + 256 * (b + 256 * high)) % 16384 == a + 256 * (b % 64)
  {
    var q := b / 64 + 4 * high;
    assert a + 256 * (b + 256 * high) == (a + 256 * (b % 64)) + 16384 * q;
  }

  // The first byte and the low six bits of the second.
  function FirstBits(nf: Hash): nat {
    var low: nat, high: nat := nf[0], nf[1];
    low + 256 * (high % 64)
  }

  /** The bucket is the first byte and the low six bits of the second: 2^14 buckets, read from a little-endian
      number. */
  lemma BucketBytes(nf: Hash)
    ensures HashToBucket(nf) == FirstBits(nf)
  {
    var c: nat, d: nat := nf[2], nf[3];
    FirstFour(nf, nf[0], nf[1], c, d);
    LowFourteenBits(nf[0], nf[1], c + 256 * d);
  }

  /** Every bucket is that of some real nullifier, whatever its other 30 bytes are. */
  lemma EveryBucketIsUsed(b: nat, rest: seq<byte>) returns (nf: Hash)
    requires b < 16384 && |rest| == 30 && rest[29] != 0
    ensures HashToBucket(nf) == b && nf != ZeroHash() && nf[2..] == rest
  {
    nf := [b % 256, b / 256] + rest;
    BucketBytes(nf);
    assert nf[31] != ZeroHash()[31];
  }

  datatype NullifierWithMeta = NullifierWithMeta(nullifier: Hash, firstOutputPosition: u32, actionCount: byte)

  datatype NullifierEntry = NullifierEntry(
    nullifier: Hash,
    spendHeight: u32,
    firstOutputPosition: u32,
    actionCount: byte)
  {
    predicate IsEmpty() {
      nullifier == ZeroHash()
    }

    function ToBytes(): (buf: seq<byte>)
      ensures |buf| == ENTRY_BYTES
    {
      nullifier + (LE(spendHeight, 4) + (LE(firstOutputPosition, 4) + [actionCount]))
    }
  }

  function ZeroEntry(): NullifierEntry {
    NullifierEntry(ZeroHash(), 0, 0, 0)
  }

  function U32Of(s: seq<byte>): u32
    requires |s| >= 4
  {
    assert Pow256(4) == U32;
    FromLE(s[..4])
  }

  function EntryFromBytes(buf: seq<byte>): NullifierEntry
    requires |buf| == ENTRY_BYTES
  {
    var tail := SpendMetadataFromEntryTail(buf[32..]);
    NullifierEntry(buf[..32], tail.spendHeight, tail.firstOutputPosition, tail.actionCount)
  }

  datatype SpendMetadata = SpendMetadata(spendHeight: u32, firstOutputPosition: u32, actionCount: byte)

  function SpendMetadataFromEntryTail(buf: seq<byte>): SpendMetadata
    requires |buf| == 9
  {
    SpendMetadata(U32Of(buf), U32Of(buf[4..]), buf[4..][4..][0])
  }

  function MetadataOf(e: NullifierEntry): SpendMetadata {
    SpendMetadata(e.spendHeight, e.firstOutputPosition, e.actionCount)
  }

  /** An entry's nullifier is its first 32 bytes, and the other nine decode to its spend metadata. */
  lemma EntryLayout(e: NullifierEntry)
    ensures e.ToBytes()[..32] == e.nullifier
    ensures SpendMetadataFromEntryTail(e.ToBytes()[32..]) == MetadataOf(e)
  {
    var h, p, c := LE(e.spendHeight, 4), LE(e.firstOutputPosition, 4), [e.actionCount];
    Seam(e.nullifier, h + (p + c));
    Seam(h, p + c);
    Seam(p, c);
    LE4(e.spendHeight);
    LE4(e.firstOutputPosition);
  }

  /** The nine bytes after the nullifier are height, position and count, the first two in little-endian order. */
  lemma EntryFields(e: NullifierEntry)
    ensures FromLE(e.ToBytes()[32..36]) == e.spendHeight
    ensures FromLE(e.ToBytes()[36..40]) == e.firstOutputPosition
    ensures e.ToBytes()[40] == e.actionCount
  {
    var h, p, c := LE(e.spendHeight, 4), LE(e.firstOutputPosition, 4), [e.actionCount];
    assert e.ToBytes()[32..36] == h && e.ToBytes()[36..40] == p;
    LE4(e.spendHeight);
    LE4(e.firstOutputPosition);
  }

  lemma EntryRoundTrip(e: NullifierEntry)
    ensures EntryFromBytes(e.ToBytes()) == e
  {
    EntryLayout(e);
  }
}
