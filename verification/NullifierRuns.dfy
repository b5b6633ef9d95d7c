/** Whole runs of the nullifier table against a plain map from heights to blocks. */
module NullifierRuns {
  import opened Bytes
  import opened SpendTypes
  import opened NullifierTable
  import opened NullifierRemoval
  import opened NullifierLookup
  import opened NullifierCapacity

  datatype TableOp =
    | InsertBlock(height: nat, hash: Hash, nullifiers: seq<NullifierWithMeta>)
    | RollbackBlock(hash: Hash)
    | EvictOldestBlock
    | EvictDown

  // ----- The map

  ghost function Counts(live: map<nat, LiveBlock>): map<nat, nat> {
    map h | h in live :: |live[h].nullifiers|
  }

  ghost function DropOldest(live: map<nat, LiveBlock>): map<nat, LiveBlock> {
    if live == map[] then live
    else
      assert live.Keys != {};
      live - {MinKey(live.Keys)}
  }

  // Drops lowest blocks until the nullifiers of the rest fit the target.
  ghost function DropDown(live: map<nat, LiveBlock>): map<nat, LiveBlock>
    decreases |live|
  {
    if live != map[] && Sum(Counts(live)) > TARGET_SIZE then
      Smaller(live);
      DropDown(DropOldest(live))
    else live
  }

  lemma Smaller(live: map<nat, LiveBlock>)
    requires live != map[]
    ensures |DropOldest(live)| < |live|
  {
    assert live.Keys != {};
    assert DropOldest(live).Keys == live.Keys - {MinKey(live.Keys)};
  }

  function WithoutHash(live: map<nat, LiveBlock>, hash: Hash): map<nat, LiveBlock> {
    map h | h in live && live[h].hash != hash :: live[h]
  }

  ghost function Step(live: map<nat, LiveBlock>, op: TableOp): map<nat, LiveBlock> {
    match op
    case InsertBlock(h, hash, nfs) => live[h := LiveBlock(hash, nfs)]
    case RollbackBlock(hash) => WithoutHash(live, hash)
    case EvictOldestBlock => DropOldest(live)
    case EvictDown => DropDown(live)
  }

  // Inserted blocks are new by height and by hash, hold real nullifiers, and every bucket has room for them.
  ghost predicate Allowed(live: map<nat, LiveBlock>, op: TableOp) {
    op.InsertBlock? ==>
      && NonZero(op.nullifiers) && op.height !in live && Room(live, op.nullifiers)
      && forall h :: h in live ==> live[h].hash != op.hash
  }

  ghost function ModelRun(ops: seq<TableOp>): map<nat, LiveBlock> {
    if ops == [] then map[] else Step(ModelRun(ops[..|ops| - 1]), ops[|ops| - 1])
  }

  ghost predicate Legal(ops: seq<TableOp>) {
    ops != [] ==> Legal(ops[..|ops| - 1]) && Allowed(ModelRun(ops[..|ops| - 1]), ops[|ops| - 1])
  }

  // ----- The table

  ghost function Apply(t: Table, op: TableOp): (u: Table)
    requires Inv(t)
  {
    match op
    case InsertBlock(h, hash, nfs) => Insert(t, h, hash, nfs).0
    case RollbackBlock(hash) =>
      if hash in t.blockHashToHeight then InvRemovable(t, t.blockHashToHeight[hash]); Rollback(t, hash).0 else t
    case EvictOldestBlock => if t.blockIndex == map[] then t else EvictOldest(t)
    case EvictDown => EvictToTarget(t)
  }

  // Inserted blocks hold real nullifiers and are new by height and by hash; a bucket may overflow.
  ghost predicate Possible(t: Table, op: TableOp) {
    op.InsertBlock? ==> NonZero(op.nullifiers) && op.height !in t.blockIndex && op.hash !in t.blockHashToHeight
  }

  /** Every possible operation keeps the invariant, failed inserts included. */
  lemma ApplyInv(t: Table, op: TableOp)
    requires Inv(t) && Possible(t, op)
    ensures Inv(Apply(t, op))
  {
    match op
    case InsertBlock(h, hash, nfs) =>
      if Insert(t, h, hash, nfs).1.Ok? {
        InsertAddsBlock(t, h, hash, nfs);
      } else {
        FailedInsertInv(t, h, hash, nfs);
      }
    case RollbackBlock(hash) =>
      if hash in t.blockHashToHeight {
        RemoveDropsBlock(t, t.blockHashToHeight[hash]);
      }
    case EvictOldestBlock =>
    case EvictDown =>
  }

  ghost predicate AllPossible(t: Table, ops: seq<TableOp>)
    requires Inv(t)
    decreases |ops|
  {
    ops == [] || (Possible(t, ops[0]) && (ApplyInv(t, ops[0]); AllPossible(Apply(t, ops[0]), ops[1..])))
  }

  // The table after any further possible operations.
  ghost function RunFrom(t: Table, ops: seq<TableOp>): (u: Table)
    requires Inv(t) && AllPossible(t, ops)
    ensures Inv(u)
    decreases |ops|
  {
    if ops == [] then t
    else
      ApplyInv(t, ops[0]);
      RunFrom(Apply(t, ops[0]), ops[1..])
  }

  lemma RunFromStep(t: Table, ops: seq<TableOp>)
    requires Inv(t) && AllPossible(t, ops) && ops != []
    ensures Possible(t, ops[0]) && Inv(Apply(t, ops[0])) && AllPossible(Apply(t, ops[0]), ops[1..])
    ensures RunFrom(t, ops) == RunFrom(Apply(t, ops[0]), ops[1..])
  {
    ApplyInv(t, ops[0]);
  }

  // The table represents these blocks and nothing else.
  ghost predicate Represents(t: Table, live: map<nat, LiveBlock>) {
    Inv(t) && Clean(t) && RefsInRange(t) && Live(t) == live
  }

  lemma LiveKeys(t: Table)
    requires Inv(t) && RefsInRange(t)
    ensures Live(t).Keys == t.blockIndex.Keys
    ensures Counts(Live(t)) == Sizes(t.blockIndex)
  {
  }

  lemma RollbackStep(t: Table, live: map<nat, LiveBlock>, hash: Hash)
    requires Represents(t, live)
    ensures Represents(Apply(t, RollbackBlock(hash)), WithoutHash(live, hash))
  {
    if hash in t.blockHashToHeight {
      var h := t.blockHashToHeight[hash];
      RemoveDropsBlock(t, h);
      assert WithoutHash(live, hash) == live - {h};
    } else {
      assert WithoutHash(live, hash) == live;
    }
  }

  lemma EvictOldestStep(t: Table)
    requires Inv(t) && Clean(t) && RefsInRange(t) && t.blockIndex != map[]
    ensures Represents(EvictOldest(t), DropOldest(Live(t)))
  {
    LiveKeys(t);
    EvictStep(t);
    assert Live(t) != map[];
  }

  lemma {:induction false} EvictDownStep(t: Table, live: map<nat, LiveBlock>)
    requires Represents(t, live)
    ensures Represents(EvictToTarget(t), DropDown(live))
    decreases |t.blockIndex|
  {
    LiveKeys(t);
    CountIsSum(t);
    if t.numEntries > TARGET_SIZE && t.blockIndex != map[] {
      assert live != map[];
      EvictOldestStep(t);
      EvictToStep(t);
      EvictDownStep(EvictOldest(t), DropOldest(live));
    } else {
      assert EvictToTarget(t) == t;
      assert t.blockIndex == map[] ==> live == map[];
    }
  }

  lemma InsertStep(t: Table, live: map<nat, LiveBlock>, op: TableOp)
    requires Represents(t, live) && op.InsertBlock? && Allowed(live, op)
    ensures Represents(Apply(t, op), Step(live, op))
    ensures Insert(t, op.height, op.hash, op.nullifiers).1.Ok?
  {
    LiveKeys(t);
    InsertSucceedsIff(t, op.height, op.hash, op.nullifiers);
    InsertAddsBlock(t, op.height, op.hash, op.nullifiers);
  }

  lemma ApplyStep(t: Table, live: map<nat, LiveBlock>, op: TableOp)
    requires Represents(t, live) && Allowed(live, op)
    ensures Represents(Apply(t, op), Step(live, op))
  {
    match op
    case InsertBlock(_, _, _) => InsertStep(t, live, op);
    case RollbackBlock(hash) => RollbackStep(t, live, hash);
    case EvictOldestBlock =>
      LiveKeys(t);
      if t.blockIndex != map[] {
        EvictOldestStep(t);
      } else {
        assert live == map[];
      }
    case EvictDown => EvictDownStep(t, live);
  }

  /** The table is the map. Run is the table after a run from empty; it holds exactly the blocks the map holds,
      with no leaks, and its entry count is the number of their nullifiers. */
  ghost function Run(ops: seq<TableOp>): (t: Table)
    requires Legal(ops)
    ensures Represents(t, ModelRun(ops))
    decreases |ops|
  {
    if ops == [] then
      EmptyTableOk();
      EmptyTable()
    else
      var init, op := ops[..|ops| - 1], ops[|ops| - 1];
      ApplyStep(Run(init), ModelRun(init), op);
      Apply(Run(init), op)
  }

  // Slot k of the live block at height h is r.
  predicate Owns(t: Table, h: nat, k: nat, r: Slot) {
    IsRef(t, h, k) && Ref(t, h, k) == r
  }

  /** Slot ownership after any legal run: a slot is non-empty exactly when some live block owns it; it then has
      one owner, once, and holds an entry of the owner's height in the bucket of its nullifier; otherwise it is
      all zero. */
  lemma SlotOwnership(ops: seq<TableOp>, r: Slot)
    requires Legal(ops) && InRange(r)
    ensures var t := Run(ops);
            var e := EntryAt(t.buckets, r);
            && (!e.IsEmpty() <==> exists h: nat, k: nat :: Owns(t, h, k, r))
            && (forall h: nat, k: nat, h': nat, k': nat :: Owns(t, h, k, r) && Owns(t, h', k', r) ==>
                 h == h' && k == k')
            && (forall h: nat, k: nat :: Owns(t, h, k, r) ==>
                 e.spendHeight == AsU32(h) && HashToBucket(e.nullifier) == r.bucket)
            && (e.IsEmpty() ==> e == ZeroEntry())
  {
    var t := Run(ops);
    if !EntryAt(t.buckets, r).IsEmpty() {
      var h, k :| IsRef(t, h, k) && Ref(t, h, k) == r;
      assert Owns(t, h, k, r);
    }
  }

  /** After any legal run, the entry count is the number of nullifiers in live blocks, and the wallet finds a
      nullifier exactly when some live block inserted it, reading what such a block recorded. */
  lemma LookupAfterRun(ops: seq<TableOp>, excess: seq<byte>, nf: Hash)
    requires Legal(ops) && nf != ZeroHash()
    ensures Run(ops).numEntries == Sum(Counts(ModelRun(ops)))
    ensures Lookup(PirBytes(Run(ops).buckets), excess, nf).Some?
            <==> exists h: nat, k: nat :: Holds(ModelRun(ops), h, k, nf)
    ensures var found := Lookup(PirBytes(Run(ops).buckets), excess, nf);
            found.Some? ==> exists h: nat, k: nat ::
              Holds(ModelRun(ops), h, k, nf) && found.value == MetadataFor(h, ModelRun(ops)[h].nullifiers[k])
  {
    LiveKeys(Run(ops));
    CountIsSum(Run(ops));
    LookupExact(Run(ops), excess, nf);
  }

  /** Evicting down to the target always gets there, whatever the run: no leaks can keep the count up. */
  lemma EvictionReachesTarget(ops: seq<TableOp>)
    requires Legal(ops)
    ensures EvictToTarget(Run(ops)).numEntries <= TARGET_SIZE
  {
    var u := EvictToTarget(Run(ops));
    EvictDownStep(Run(ops), ModelRun(ops));
    CountIsSum(u);
    EvictionMeets(Run(ops));
  }
}
