/** Reading compact blocks: commitments, nullifiers and their positions. */
module Parsers {
  import opened Bytes
  import opened SpendTypes
  import opened CommitmentTree

  datatype Action = Action(nullifier: seq<byte>, cmx: seq<byte>)

  datatype Tx = Tx(actions: seq<Action>)

  // The chain metadata, when present, gives the tree size after the block.
  datatype CompactBlock = CompactBlock(
    height: nat, hash: seq<byte>, prevHash: seq<byte>, vtx: seq<Tx>, chainMetadata: Option<u32>)

  // Short byte strings are padded with zeros and long ones cut.
  function ToHashArray(bytes: seq<byte>): Hash {
    if |bytes| >= 32 then bytes[..32] else bytes + Zeros(32 - |bytes|)
  }

  // ----- Commitments

  // The 32-byte commitments of a run of actions; others are skipped.
  function CmxOf(actions: seq<Action>): seq<Hash> {
    if actions == [] then []
    else
      var last := actions[|actions| - 1].cmx;
      CmxOf(actions[..|actions| - 1]) + (if |last| == 32 then [last] else [])
  }

  function CommitmentsOf(txs: seq<Tx>): seq<Hash> {
    if txs == [] then [] else CommitmentsOf(txs[..|txs| - 1]) + CmxOf(txs[|txs| - 1].actions)
  }

  method ExtractCommitments(block: CompactBlock) returns (commitments: seq<Hash>)
    ensures commitments == CommitmentsOf(block.vtx)
  {
    commitments := [];
    for i := 0 to |block.vtx|
      invariant commitments == CommitmentsOf(block.vtx[..i])
    {
      var actions := block.vtx[i].actions;
      ghost var before := commitments;
      for j := 0 to |actions|
        invariant commitments == before + CmxOf(actions[..j])
      {
        assert actions[..j + 1][..j] == actions[..j];
        if |actions[j].cmx| == 32 {
          commitments := commitments + [actions[j].cmx];
        }
      }
      assert actions[..|actions|] == actions;
      assert block.vtx[..i + 1][..i] == block.vtx[..i];
    }
    assert block.vtx[..|block.vtx|] == block.vtx;
  }

  // ----- Nullifiers with metadata

  // A size of zero counts as absent.
  function OrchardTreeSize(block: CompactBlock): Option<u32> {
    if block.chainMetadata.Some? && block.chainMetadata.value > 0 then block.chainMetadata else None
  }

  // Sums of 32-bit counters wrap around.
  function TotalActions(txs: seq<Tx>): u32 {
    if txs == [] then 0 else AsU32(TotalActions(txs[..|txs| - 1]) + AsU32(|txs[|txs| - 1].actions|))
  }

  // Tree size before the block: from its own metadata, else what the caller knows.
  function SizeBefore(block: CompactBlock, prior: Option<u32>): Option<u32> {
    var size := OrchardTreeSize(block);
    if size.Some? && TotalActions(block.vtx) <= size.value then Some(size.value - TotalActions(block.vtx)) else prior
  }

  function Advance(pos: Option<u32>, tx: Tx): Option<u32> {
    if pos.Some? then Some(AsU32(pos.value + AsU32(|tx.actions|))) else None
  }

  function PositionAfter(start: Option<u32>, txs: seq<Tx>): Option<u32> {
    if txs == [] then start else Advance(PositionAfter(start, txs[..|txs| - 1]), txs[|txs| - 1])
  }

  function OrZero(pos: Option<u32>): u32 {
    if pos.Some? then pos.value else 0
  }

  function MetasOfActions(actions: seq<Action>, first: u32, count: byte): seq<NullifierWithMeta> {
    if actions == [] then []
    else
      var last := actions[|actions| - 1].nullifier;
      MetasOfActions(actions[..|actions| - 1], first, count)
      + (if |last| == 32 then [NullifierWithMeta(last, first, count)] else [])
  }

  function MetasOf(txs: seq<Tx>, start: Option<u32>): seq<NullifierWithMeta> {
    if txs == [] then []
    else
      var init, last := txs[..|txs| - 1], txs[|txs| - 1];
      MetasOf(init, start)
      + MetasOfActions(last.actions, OrZero(PositionAfter(start, init)), |last.actions| % 256)
  }

  method ExtractNullifiersWithMeta(block: CompactBlock, prior: Option<u32>)
    returns (results: seq<NullifierWithMeta>, thisTreeSize: Option<u32>)
    ensures results == MetasOf(block.vtx, SizeBefore(block, prior))
    ensures thisTreeSize == OrchardTreeSize(block)
  {
    thisTreeSize := OrchardTreeSize(block);
    var total := SumActions(block.vtx);
    var start := if thisTreeSize.Some? && total <= thisTreeSize.value then Some(thisTreeSize.value - total) else prior;
    results := WalkTransactions(block.vtx, start);
  }

  method SumActions(txs: seq<Tx>) returns (total: u32)
    ensures total == TotalActions(txs)
  {
    total := 0;
    for i := 0 to |txs|
      invariant total == TotalActions(txs[..i])
    {
      assert txs[..i + 1][..i] == txs[..i];
      total := AsU32(total + AsU32(|txs[i].actions|));
    }
    assert txs[..|txs|] == txs;
  }

  method WalkTransactions(txs: seq<Tx>, start: Option<u32>) returns (results: seq<NullifierWithMeta>)
    ensures results == MetasOf(txs, start)
  {
    var running := start;
    results := [];
    for i := 0 to |txs|
      invariant running == PositionAfter(start, txs[..i])
      invariant results == MetasOf(txs[..i], start)
    {
      var actions := txs[i].actions;
      var count, first := |actions| % 256, OrZero(running);
      ghost var before := results;
      for j := 0 to |actions|
        invariant results == before + MetasOfActions(actions[..j], first, count)
      {
        assert actions[..j + 1][..j] == actions[..j];
        if |actions[j].nullifier| == 32 {
          results := results + [NullifierWithMeta(actions[j].nullifier, first, count)];
        }
      }
      assert actions[..|actions|] == actions;
      NextTransaction(txs, start, i);
      running := Advance(running, txs[i]);
    }
    assert txs[..|txs|] == txs;
  }

  lemma NextTransaction(txs: seq<Tx>, start: Option<u32>, i: nat)
    requires i < |txs|
    ensures PositionAfter(start, txs[..i + 1]) == Advance(PositionAfter(start, txs[..i]), txs[i])
    ensures MetasOf(txs[..i + 1], start)
            == MetasOf(txs[..i], start)
               + MetasOfActions(txs[i].actions, OrZero(PositionAfter(start, txs[..i])), |txs[i].actions| % 256)
  {
    assert txs[..i + 1][..i] == txs[..i];
  }

  // ----- Metadata addresses the tree

  // The index in its block of the first action of transaction i.
  function Offset(txs: seq<Tx>, i: nat): nat
    requires i <= |txs|
  {
    if i == 0 then 0 else Offset(txs, i - 1) + |txs[i - 1].actions|
  }

  // Full-length fields and at most 255 actions in a transaction.
  ghost predicate WellFormedTxs(txs: seq<Tx>) {
    forall i :: 0 <= i < |txs| ==> WellFormedTx(txs[i])
  }

  ghost predicate WellFormedTx(tx: Tx) {
    |tx.actions| < 256 && FullLength(tx.actions)
  }

  ghost predicate FullLength(actions: seq<Action>) {
    forall j :: 0 <= j < |actions| ==> |actions[j].nullifier| == 32 && |actions[j].cmx| == 32
  }

  lemma {:induction false} OffsetPrefix(txs: seq<Tx>, n: nat, i: nat)
    requires i <= n <= |txs|
    ensures Offset(txs[..n], i) == Offset(txs, i) <= Offset(txs, n)
  {
    if i > 0 {
      OffsetPrefix(txs, n, i - 1);
    }
    OffsetGrows(txs, i, n);
  }

  lemma {:induction false} OffsetGrows(txs: seq<Tx>, i: nat, n: nat)
    requires i <= n <= |txs|
    ensures Offset(txs, i) <= Offset(txs, n)
  {
    if i < n {
      OffsetGrows(txs, i, n - 1);
    }
  }

  // Offsets never wrap while the whole block fits.
  lemma {:induction false} PositionIsOffset(txs: seq<Tx>, start: u32)
    requires start + Offset(txs, |txs|) < U32
    ensures PositionAfter(Some(start), txs) == Some(start + Offset(txs, |txs|))
    ensures TotalActions(txs) == Offset(txs, |txs|)
  {
    if txs != [] {
      var n := |txs| - 1;
      OffsetPrefix(txs, n, n);
      PositionIsOffset(txs[..n], start);
    }
  }

  lemma {:induction false} CmxAt(actions: seq<Action>, j: nat)
    requires FullLength(actions) && j <= |actions|
    ensures |CmxOf(actions)| == |actions| && (j < |actions| ==> CmxOf(actions)[j] == actions[j].cmx)
  {
    if actions != [] {
      var n := |actions| - 1;
      CmxAt(actions[..n], if j < n then j else n);
    }
  }

  lemma {:induction false} MetaAt(actions: seq<Action>, first: u32, count: byte, j: nat)
    requires FullLength(actions) && j <= |actions|
    ensures |MetasOfActions(actions, first, count)| == |actions|
    ensures j < |actions| ==>
              MetasOfActions(actions, first, count)[j] == NullifierWithMeta(actions[j].nullifier, first, count)
  {
    if actions != [] {
      var n := |actions| - 1;
      MetaAt(actions[..n], first, count, if j < n then j else n);
    }
  }

  lemma {:induction false} CommitmentCount(txs: seq<Tx>)
    requires WellFormedTxs(txs)
    ensures |CommitmentsOf(txs)| == Offset(txs, |txs|)
  {
    if txs != [] {
      var n := |txs| - 1;
      OffsetPrefix(txs, n, n);
      CommitmentCount(txs[..n]);
      CmxAt(txs[n].actions, 0);
    }
  }

  lemma {:induction false} MetaCount(txs: seq<Tx>, start: Option<u32>)
    requires WellFormedTxs(txs)
    ensures |MetasOf(txs, start)| == Offset(txs, |txs|)
  {
    if txs != [] {
      var n := |txs| - 1;
      OffsetPrefix(txs, n, n);
      MetaCount(txs[..n], start);
      MetaAt(txs[n].actions, OrZero(PositionAfter(start, txs[..n])), |txs[n].actions| % 256, 0);
    }
  }

  // Action j of transaction i gives commitment number Offset(i) + j of the block.
  lemma {:induction false} CommitmentPlaced(txs: seq<Tx>, i: nat, j: nat)
    requires WellFormedTxs(txs) && i < |txs| && j < |txs[i].actions|
    ensures Offset(txs, i) + j < |CommitmentsOf(txs)|
    ensures CommitmentsOf(txs)[Offset(txs, i) + j] == txs[i].actions[j].cmx
    decreases |txs|
  {
    var n := |txs| - 1;
    CommitmentCount(txs[..n]);
    OffsetPrefix(txs, n, n);
    if i < n {
      OffsetPrefix(txs, n, i);
      CommitmentPlaced(txs[..n], i, j);
    } else {
      CmxAt(txs[n].actions, j);
    }
  }

  // The metadata of the last transaction, at the position where it starts.
  function LastMetas(txs: seq<Tx>, start: u32): seq<NullifierWithMeta>
    requires txs != [] && start + Offset(txs, |txs| - 1) < U32 && |txs[|txs| - 1].actions| < 256
  {
    var n := |txs| - 1;
    MetasOfActions(txs[n].actions, start + Offset(txs, n), |txs[n].actions|)
  }

  lemma StartsAtOffset(txs: seq<Tx>, start: u32, n: nat)
    requires WellFormedTxs(txs) && n < |txs| && start + Offset(txs, n) < U32
    ensures OrZero(PositionAfter(Some(start), txs[..n])) == start + Offset(txs, n)
    ensures |txs[n].actions| % 256 == |txs[n].actions|
  {
    OffsetPrefix(txs, n, n);
    PositionIsOffset(txs[..n], start);
    assert WellFormedTx(txs[n]);
    SmallCount(|txs[n].actions|);
  }

  lemma SmallCount(n: nat)
    requires n < 256
    ensures n % 256 == n
  {
  }

  lemma LastTransaction(txs: seq<Tx>, start: u32)
    requires WellFormedTxs(txs) && txs != [] && start + Offset(txs, |txs| - 1) < U32
    ensures MetasOf(txs, Some(start)) == MetasOf(txs[..|txs| - 1], Some(start)) + LastMetas(txs, start)
  {
    StartsAtOffset(txs, start, |txs| - 1);
  }

  lemma PrefixCount(txs: seq<Tx>, start: u32, n: nat)
    requires WellFormedTxs(txs) && n <= |txs|
    ensures |MetasOf(txs[..n], Some(start))| == Offset(txs, n)
  {
    OffsetPrefix(txs, n, n);
    MetaCount(txs[..n], Some(start));
  }

  lemma AtSeam<T>(a: seq<T>, b: seq<T>, k: nat)
    requires k < |a| + |b|
    ensures (a + b)[k] == if k < |a| then a[k] else b[k - |a|]
  {
  }

  lemma LastPlaced(txs: seq<Tx>, start: u32, j: nat)
    requires WellFormedTxs(txs) && txs != [] && start + Offset(txs, |txs| - 1) < U32 && j < |txs[|txs| - 1].actions|
    ensures var n := |txs| - 1;
            && Offset(txs, n) + j < |MetasOf(txs, Some(start))|
            && MetasOf(txs, Some(start))[Offset(txs, n) + j]
               == NullifierWithMeta(txs[n].actions[j].nullifier, start + Offset(txs, n), |txs[n].actions|)
  {
    var n := |txs| - 1;
    LastTransaction(txs, start);
    PrefixCount(txs, start, n);
    MetaAt(txs[n].actions, start + Offset(txs, n), |txs[n].actions|, j);
    AtSeam(MetasOf(txs[..n], Some(start)), LastMetas(txs, start), Offset(txs, n) + j);
  }

  lemma EarlierMeta(txs: seq<Tx>, start: u32, k: nat)
    requires WellFormedTxs(txs) && txs != [] && start + Offset(txs, |txs| - 1) < U32
    requires k < |MetasOf(txs[..|txs| - 1], Some(start))|
    ensures k < |MetasOf(txs, Some(start))|
    ensures MetasOf(txs, Some(start))[k] == MetasOf(txs[..|txs| - 1], Some(start))[k]
  {
    LastTransaction(txs, start);
  }

  // It gives the nullifier of that number too, recorded with the position of its transaction.
  lemma {:induction false} MetaPlaced(txs: seq<Tx>, start: u32, i: nat, j: nat)
    requires WellFormedTxs(txs) && start + Offset(txs, |txs|) < U32 && i < |txs| && j < |txs[i].actions|
    ensures Offset(txs, i) + j < |MetasOf(txs, Some(start))| && start + Offset(txs, i) < U32
    ensures MetasOf(txs, Some(start))[Offset(txs, i) + j]
            == NullifierWithMeta(txs[i].actions[j].nullifier, start + Offset(txs, i), |txs[i].actions|)
    decreases |txs|
  {
    var n := |txs| - 1;
    OffsetGrows(txs, i, n);
    OffsetGrows(txs, n, |txs|);
    if i < n {
      OffsetPrefix(txs, n, n);
      OffsetPrefix(txs, n, i);
      MetaPlaced(txs[..n], start, i, j);
      PlacedEarlier(txs, start, i, j);
    } else {
      LastPlaced(txs, start, j);
    }
  }

  // What the transactions before the last give stays where it is.
  lemma PlacedEarlier(txs: seq<Tx>, start: u32, i: nat, j: nat)
    requires WellFormedTxs(txs) && txs != [] && i < |txs| - 1 && start + Offset(txs, |txs| - 1) < U32
    requires Offset(txs[..|txs| - 1], i) + j < |MetasOf(txs[..|txs| - 1], Some(start))|
    ensures Offset(txs, i) + j < |MetasOf(txs, Some(start))|
    ensures MetasOf(txs, Some(start))[Offset(txs, i) + j]
            == MetasOf(txs[..|txs| - 1], Some(start))[Offset(txs[..|txs| - 1], i) + j]
  {
    OffsetPrefix(txs, |txs| - 1, i);
    EarlierMeta(txs, start, Offset(txs, i) + j);
  }

  // The tree size that the block's metadata announces is the one the tree will have.
  ghost predicate MetadataMatches(block: CompactBlock, size: nat) {
    block.chainMetadata == Some(size + Offset(block.vtx, |block.vtx|))
  }

  /** The ranges tile the block: each of its leaves lies in the range of exactly one transaction. */
  lemma RangesTile(txs: seq<Tx>, k: nat) returns (i: nat)
    requires k < Offset(txs, |txs|)
    ensures i < |txs| && Offset(txs, i) <= k < Offset(txs, i) + |txs[i].actions|
    ensures forall i' :: 0 <= i' < |txs| && Offset(txs, i') <= k < Offset(txs, i') + |txs[i'].actions| ==> i' == i
  {
    i := |txs|;
    while Offset(txs, i) > k
      invariant i <= |txs| && (i < |txs| ==> k < Offset(txs, i + 1))
      decreases i
    {
      i := i - 1;
    }
    forall i' | 0 <= i' < |txs| && Offset(txs, i') <= k < Offset(txs, i') + |txs[i'].actions|
      ensures i' == i
    {
      OffsetGrows(txs, if i' < i then i' + 1 else i + 1, if i' < i then i else if i' > i then i' else i + 1);
    }
  }

  /** Nullifier metadata addresses the tree. Transaction ranges tile the block's leaf interval in order, and the
      leaf j past the first output position recorded for an action is the commitment of action j. */
  lemma MetadataAddressesTree(t: Tree, block: CompactBlock, prior: Option<u32>, hash: Hash, i: nat, j: nat, u: Tree)
    returns (m: NullifierWithMeta)
    requires WellFormedTxs(block.vtx) && MetadataMatches(block, t.Size())
    requires i < |block.vtx| && j < |block.vtx[i].actions|
    requires u == Append(t, block.height, hash, CommitmentsOf(block.vtx))
    ensures var metas := MetasOf(block.vtx, SizeBefore(block, prior));
            && Offset(block.vtx, i) + j < |metas| == |u.leaves| - |t.leaves|
            && m == metas[Offset(block.vtx, i) + j]
    ensures m.nullifier == block.vtx[i].actions[j].nullifier && m.actionCount == |block.vtx[i].actions|
    ensures m.firstOutputPosition == t.Size() + Offset(block.vtx, i)
    ensures u.leafOffset <= m.firstOutputPosition + j < u.Size()
    ensures u.leaves[m.firstOutputPosition + j - u.leafOffset] == block.vtx[i].actions[j].cmx
  {
    SizeKnown(block, t.Size(), prior, i, j);
    MetaPlaced(block.vtx, t.Size(), i, j);
    MetaCount(block.vtx, Some(t.Size()));
    m := MetasOf(block.vtx, SizeBefore(block, prior))[Offset(block.vtx, i) + j];
    LeafPlaced(t, block, hash, i, j, u);
  }

  lemma LeafPlaced(t: Tree, block: CompactBlock, hash: Hash, i: nat, j: nat, u: Tree)
    requires WellFormedTxs(block.vtx) && i < |block.vtx| && j < |block.vtx[i].actions|
    requires u == Append(t, block.height, hash, CommitmentsOf(block.vtx))
    ensures u.leafOffset == t.leafOffset && |u.leaves| == |t.leaves| + Offset(block.vtx, |block.vtx|)
    ensures u.leafOffset <= t.Size() + Offset(block.vtx, i) + j < u.Size()
    ensures u.leaves[t.Size() + Offset(block.vtx, i) + j - u.leafOffset] == block.vtx[i].actions[j].cmx
  {
    CommitmentCount(block.vtx);
    CommitmentPlaced(block.vtx, i, j);
    AppendedLeaf(t, block.height, hash, CommitmentsOf(block.vtx), Offset(block.vtx, i) + j);
  }

  lemma SizeKnown(block: CompactBlock, size: nat, prior: Option<u32>, i: nat, j: nat)
    requires WellFormedTxs(block.vtx) && MetadataMatches(block, size)
    requires i < |block.vtx| && j < |block.vtx[i].actions|
    ensures size + Offset(block.vtx, |block.vtx|) < U32
    ensures SizeBefore(block, prior) == Some(size)
    ensures Offset(block.vtx, i) + j < Offset(block.vtx, |block.vtx|)
  {
    PositionIsOffset(block.vtx, size);
    OffsetGrows(block.vtx, i + 1, |block.vtx|);
  }

  // What a block with right metadata records for action j of transaction i.
  lemma RecordedMeta(size: nat, block: CompactBlock, prior: Option<u32>, i: nat, j: nat) returns (m: NullifierWithMeta)
    requires WellFormedTxs(block.vtx) && MetadataMatches(block, size)
    requires i < |block.vtx| && j < |block.vtx[i].actions|
    ensures Offset(block.vtx, i) + j < |MetasOf(block.vtx, SizeBefore(block, prior))|
    ensures m == MetasOf(block.vtx, SizeBefore(block, prior))[Offset(block.vtx, i) + j]
    ensures m.nullifier == block.vtx[i].actions[j].nullifier && m.actionCount == |block.vtx[i].actions|
    ensures m.firstOutputPosition == size + Offset(block.vtx, i)
  {
    SizeKnown(block, size, prior, i, j);
    MetaPlaced(block.vtx, size, i, j);
    m := MetasOf(block.vtx, SizeBefore(block, prior))[Offset(block.vtx, i) + j];
  }

  lemma AppendedLeaf(t: Tree, height: nat, hash: Hash, commitments: seq<Hash>, k: nat)
    ensures var u := Append(t, height, hash, commitments);
            && |u.leaves| == |t.leaves| + |commitments| && u.leafOffset == t.leafOffset
            && (k < |commitments| ==> u.leaves[t.Size() + k - u.leafOffset] == commitments[k])
  {
  }

  lemma {:induction false} UnknownStays(txs: seq<Tx>)
    ensures PositionAfter(None, txs) == None
  {
    if txs != [] {
      UnknownStays(txs[..|txs| - 1]);
    }
  }

  // With no size to start from, position 0 is recorded for every transaction.
  lemma {:induction false} UnknownPlaced(txs: seq<Tx>, i: nat, j: nat)
    requires WellFormedTxs(txs) && i < |txs| && j < |txs[i].actions|
    ensures Offset(txs, i) + j < |MetasOf(txs, None)|
    ensures MetasOf(txs, None)[Offset(txs, i) + j]
            == NullifierWithMeta(txs[i].actions[j].nullifier, 0, |txs[i].actions|)
    decreases |txs|
  {
    var n := |txs| - 1;
    var init, last := MetasOf(txs[..n], None), MetasOfActions(txs[n].actions, 0, |txs[n].actions| % 256);
    UnknownStays(txs[..n]);
    OffsetPrefix(txs, n, n);
    MetaCount(txs[..n], None);
    assert WellFormedTx(txs[n]);
    SmallCount(|txs[n].actions|);
    assert MetasOf(txs, None) == init + last;
    OffsetPrefix(txs, n, if i < n then i else n);
    if i < n {
      UnknownPlaced(txs[..n], i, j);
      AtSeam(init, last, Offset(txs, i) + j);
    } else {
      MetaAt(txs[n].actions, 0, |txs[n].actions|, j);
      AtSeam(init, last, Offset(txs, n) + j);
    }
  }

  // No size after the block, or none that has room for the block's actions.
  predicate Unusable(block: CompactBlock) {
    block.chainMetadata.None? || block.chainMetadata.value == 0 || block.chainMetadata.value < TotalActions(block.vtx)
  }

  /** Without usable metadata every position rests on the size that the caller passes in: all positions of the
      block are off by what that size is off, so they are right together or wrong together. */
  lemma FallbackPositions(t: Tree, block: CompactBlock, prior: u32, i: nat, j: nat) returns (m: NullifierWithMeta)
    requires WellFormedTxs(block.vtx) && Unusable(block) && prior + Offset(block.vtx, |block.vtx|) < U32
    requires i < |block.vtx| && j < |block.vtx[i].actions|
    ensures Offset(block.vtx, i) + j < |MetasOf(block.vtx, SizeBefore(block, Some(prior)))|
    ensures m == MetasOf(block.vtx, SizeBefore(block, Some(prior)))[Offset(block.vtx, i) + j]
    ensures m.firstOutputPosition - (t.Size() + Offset(block.vtx, i)) == prior - t.Size()
  {
    MetaPlaced(block.vtx, prior, i, j);
    m := MetasOf(block.vtx, SizeBefore(block, Some(prior)))[Offset(block.vtx, i) + j];
  }

  /** With neither metadata nor a prior size the recorded position is 0 for every transaction. It is right exactly
      for the first actions of an empty tree. */
  lemma UnknownPositions(t: Tree, block: CompactBlock, i: nat, j: nat) returns (m: NullifierWithMeta)
    requires WellFormedTxs(block.vtx) && Unusable(block)
    requires i < |block.vtx| && j < |block.vtx[i].actions|
    ensures Offset(block.vtx, i) + j < |MetasOf(block.vtx, SizeBefore(block, None))|
    ensures m == MetasOf(block.vtx, SizeBefore(block, None))[Offset(block.vtx, i) + j]
    ensures m.firstOutputPosition == 0
    ensures m.firstOutputPosition == t.Size() + Offset(block.vtx, i) <==> t.Size() == 0 && Offset(block.vtx, i) == 0
  {
    UnknownPlaced(block.vtx, i, j);
    m := MetasOf(block.vtx, SizeBefore(block, None))[Offset(block.vtx, i) + j];
  }

  // ----- What is read of a block that need not be well formed

  /** A hash is the first 32 bytes, and zeros for those that are missing. */
  lemma HashBytes(bytes: seq<byte>, i: nat)
    requires i < 32
    ensures ToHashArray(bytes)[i] == if i < |bytes| then bytes[i] else 0
  {
  }

  // All actions of a block, in order.
  function AllActions(txs: seq<Tx>): seq<Action> {
    if txs == [] then [] else txs[0].actions + AllActions(txs[1..])
  }

  // The commitments of these actions that are 32 bytes long, from the front.
  function LongEnough(actions: seq<Action>): seq<Hash> {
    if actions == [] then []
    else (if |actions[0].cmx| == 32 then [actions[0].cmx] else []) + LongEnough(actions[1..])
  }

  lemma {:induction false} LongEnoughAppend(a: seq<Action>, b: seq<Action>)
    ensures LongEnough(a + b) == LongEnough(a) + LongEnough(b)
  {
    if a == [] {
      assert a + b == b;
    } else {
      assert (a + b)[1..] == a[1..] + b;
      LongEnoughAppend(a[1..], b);
    }
  }

  lemma {:induction false} CmxAreLongEnough(actions: seq<Action>)
    ensures CmxOf(actions) == LongEnough(actions)
  {
    if actions != [] {
      var n := |actions| - 1;
      CmxAreLongEnough(actions[..n]);
      assert actions == actions[..n] + [actions[n]];
      LongEnoughAppend(actions[..n], [actions[n]]);
      assert [actions[n]][1..] == [];
    }
  }

  lemma {:induction false} ActionsSnoc(txs: seq<Tx>, tx: Tx)
    ensures AllActions(txs + [tx]) == AllActions(txs) + tx.actions
  {
    if txs == [] {
      assert [tx][1..] == [];
    } else {
      assert (txs + [tx])[1..] == txs[1..] + [tx];
      ActionsSnoc(txs[1..], tx);
    }
  }

  /** The commitments of any block are those of its actions, in order, that are 32 bytes long. */
  lemma {:induction false} CommitmentsAreLongEnough(txs: seq<Tx>)
    ensures CommitmentsOf(txs) == LongEnough(AllActions(txs))
  {
    if txs != [] {
      var n := |txs| - 1;
      CommitmentsAreLongEnough(txs[..n]);
      CmxAreLongEnough(txs[n].actions);
      assert txs == txs[..n] + [txs[n]];
      ActionsSnoc(txs[..n], txs[n]);
      LongEnoughAppend(AllActions(txs[..n]), txs[n].actions);
    }
  }

  // What is recorded for the actions of one transaction, whose position and count are given.
  function RecordsFor(actions: seq<Action>, first: u32, count: byte): seq<NullifierWithMeta> {
    if actions == [] then []
    else
      (if |actions[0].nullifier| == 32 then [NullifierWithMeta(actions[0].nullifier, first, count)] else [])
      + RecordsFor(actions[1..], first, count)
  }

  lemma {:induction false} RecordsForAppend(a: seq<Action>, b: seq<Action>, first: u32, count: byte)
    ensures RecordsFor(a + b, first, count) == RecordsFor(a, first, count) + RecordsFor(b, first, count)
  {
    if a == [] {
      assert a + b == b;
    } else {
      assert (a + b)[1..] == a[1..] + b;
      RecordsForAppend(a[1..], b, first, count);
    }
  }

  lemma {:induction false} MetasAreRecords(actions: seq<Action>, first: u32, count: byte)
    ensures MetasOfActions(actions, first, count) == RecordsFor(actions, first, count)
  {
    if actions != [] {
      var n := |actions| - 1;
      MetasAreRecords(actions[..n], first, count);
      assert actions == actions[..n] + [actions[n]];
      RecordsForAppend(actions[..n], [actions[n]], first, count);
      assert [actions[n]][1..] == [];
    }
  }

  // What is recorded for a block whose first action stands at a position, counted without any bound and then cut to
  // the width of the fields.
  function BlockRecords(txs: seq<Tx>, position: nat): seq<NullifierWithMeta> {
    if txs == [] then []
    else
      RecordsFor(txs[0].actions, position % 0x1_0000_0000, |txs[0].actions| % 256)
      + BlockRecords(txs[1..], position + |txs[0].actions|)
  }

  function ActionsIn(txs: seq<Tx>): nat {
    if txs == [] then 0 else |txs[0].actions| + ActionsIn(txs[1..])
  }

  lemma {:induction false} BlockRecordsSnoc(txs: seq<Tx>, tx: Tx, position: nat)
    ensures BlockRecords(txs + [tx], position)
            == BlockRecords(txs, position)
               + RecordsFor(tx.actions, (position + ActionsIn(txs)) % 0x1_0000_0000, |tx.actions| % 256)
    ensures ActionsIn(txs + [tx]) == ActionsIn(txs) + |tx.actions|
  {
    if txs == [] {
      assert [tx][1..] == [];
    } else {
      assert (txs + [tx])[1..] == txs[1..] + [tx];
      BlockRecordsSnoc(txs[1..], tx, position + |txs[0].actions|);
    }
  }

  lemma WrapAgain(a: nat, b: nat)
    ensures AsU32(AsU32(a) + AsU32(b)) == (a + b) % 0x1_0000_0000
  {
  }

  /** The records of any block, from a known start: each 32-byte nullifier in order, with its transaction's position
      modulo 2^32 and number of actions modulo 2^8. */
  lemma {:induction false} MetasAreBlockRecords(txs: seq<Tx>, start: u32)
    ensures MetasOf(txs, Some(start)) == BlockRecords(txs, start)
    ensures PositionAfter(Some(start), txs) == Some((start + ActionsIn(txs)) % 0x1_0000_0000)
  {
    if txs != [] {
      var n := |txs| - 1;
      MetasAreBlockRecords(txs[..n], start);
      assert txs == txs[..n] + [txs[n]];
      BlockRecordsSnoc(txs[..n], txs[n], start);
      MetasAreRecords(txs[n].actions, (start + ActionsIn(txs[..n])) % U32, |txs[n].actions| % 256);
      WrapAgain(start + ActionsIn(txs[..n]), |txs[n].actions|);
    }
  }
}
