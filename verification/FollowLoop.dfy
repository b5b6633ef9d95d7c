/** The follow loop of the combined server: one block at a time drives the chain tracker, the commitment tree
    and the nullifier table together. */
module FollowLoop {
  import opened Bytes
  import opened SpendTypes
  import opened NullifierTable
  import opened NullifierRemoval
  import opened Parsers
  import opened ChainTracker
  import CT = CommitmentTree

  datatype State = State(chain: seq<Link>, tree: CT.Tree, table: Table, currentHeight: nat, prevTreeSize: Option<u32>)

  const MAX_DEPTH: nat := 20

  function HeaderOf(b: CompactBlock): Header {
    Header(b.height, ToHashArray(b.hash), ToHashArray(b.prevHash))
  }

  // The nullifiers of a block, given the tree size known for its predecessor.
  function MetasFor(b: CompactBlock, prior: Option<u32>): seq<NullifierWithMeta> {
    MetasOf(b.vtx, SizeBefore(b, prior))
  }

  // ----- Rolling the table back to a height, newest block first

  ghost function DropAbove(t: Table, target: nat): (u: Table)
    requires Inv(t)
    ensures Inv(u)
    decreases |t.blockIndex|
  {
    if t.blockIndex != map[] && Newest(t.blockIndex) > target then DropAbove(DropNewest(t), target) else t
  }

  ghost function DropNewest(t: Table): (u: Table)
    requires Inv(t) && t.blockIndex != map[]
    ensures Inv(u) && |u.blockIndex| < |t.blockIndex|
  {
    var h := Newest(t.blockIndex);
    RemoveDropsBlock(t, h);
    assert (t.blockIndex - {h}).Keys == t.blockIndex.Keys - {h};
    Remove(t, h, t.blockIndex[h].blockHash)
  }

  function UpTo<T>(m: map<nat, T>, target: nat): map<nat, T> {
    map h | h in m && h <= target :: m[h]
  }

  lemma UpToStep<T>(m: map<nat, T>, h: nat, target: nat)
    requires h > target
    ensures UpTo(m - {h}, target) == UpTo(m, target)
  {
  }

  lemma UpToAll<T>(m: map<nat, T>, target: nat)
    requires forall h :: h in m ==> h <= target
    ensures UpTo(m, target) == m
  {
  }

  /** Rolling back to a height keeps exactly the blocks at or below it, untouched. */
  lemma {:induction false} DropAboveKeeps(t: Table, target: nat)
    requires Inv(t)
    ensures var u := DropAbove(t, target);
            && u.blockIndex == UpTo(t.blockIndex, target)
            && RefsInRange(t) && RefsInRange(u) && Live(u) == UpTo(Live(t), target)
            && (Clean(t) ==> Clean(u))
    decreases |t.blockIndex|
  {
    InvRefsInRange(t);
    if t.blockIndex != map[] && Newest(t.blockIndex) > target {
      var h := Newest(t.blockIndex);
      RemoveDropsBlock(t, h);
      DropAboveKeeps(DropNewest(t), target);
      UpToStep(t.blockIndex, h, target);
      UpToStep(Live(t), h, target);
    } else {
      UpToAll(t.blockIndex, target);
      UpToAll(Live(t), target);
    }
  }

  // ----- One block

  // What is left of the table and the tree once the tracker has judged the block.
  ghost function TableBase(s: State, b: CompactBlock): (t: Table)
    requires Inv(s.table)
    ensures Inv(t)
  {
    match Push(s.chain, MAX_DEPTH, HeaderOf(b)).1
    case Extend => s.table
    case Reorg(target) => DropAbove(s.table, target)
  }

  function TreeBase(s: State, b: CompactBlock): CT.Tree {
    match Push(s.chain, MAX_DEPTH, HeaderOf(b)).1
    case Extend => s.tree
    case Reorg(target) => CT.Rollback(s.tree, target)
  }

  function InsertBlock(t: Table, b: CompactBlock, prior: Option<u32>): (Table, Result)
    requires Shaped(t.buckets)
  {
    Insert(t, b.height, ToHashArray(b.hash), MetasFor(b, prior))
  }

  // Real nullifiers, and a block that what is left of the table does not hold yet.
  ghost predicate Acceptable(s: State, b: CompactBlock) {
    && Inv(s.table) && NonZero(MetasFor(b, s.prevTreeSize))
    && b.height !in TableBase(s, b).blockIndex && ToHashArray(b.hash) !in TableBase(s, b).blockHashToHeight
  }

  lemma InsertInv(t: Table, b: CompactBlock, prior: Option<u32>)
    requires Inv(t) && NonZero(MetasFor(b, prior))
    requires b.height !in t.blockIndex && ToHashArray(b.hash) !in t.blockHashToHeight
    ensures Inv(InsertBlock(t, b, prior).0)
  {
    if InsertBlock(t, b, prior).1.Ok? {
      InsertAddsBlock(t, b.height, ToHashArray(b.hash), MetasFor(b, prior));
    } else {
      FailedInsertInv(t, b.height, ToHashArray(b.hash), MetasFor(b, prior));
    }
  }

  // A failed insert is logged and otherwise ignored; only the extending arm evicts.
  ghost function TableAfter(s: State, b: CompactBlock): (t: Table)
    requires Acceptable(s, b)
    ensures Inv(t)
  {
    InsertInv(TableBase(s, b), b, s.prevTreeSize);
    var inserted := InsertBlock(TableBase(s, b), b, s.prevTreeSize).0;
    if Push(s.chain, MAX_DEPTH, HeaderOf(b)).1.Extend? then EvictToTarget(inserted) else inserted
  }

  ghost function Handle(s: State, b: CompactBlock): State
    requires Acceptable(s, b)
  {
    State(
      Push(s.chain, MAX_DEPTH, HeaderOf(b)).0,
      CT.Append(TreeBase(s, b), b.height, ToHashArray(b.hash), CommitmentsOf(b.vtx)),
      TableAfter(s, b),
      b.height,
      OrchardTreeSize(b))
  }
}
