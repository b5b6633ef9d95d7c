/** The bucketed nullifier table as a value: buckets of slots and two maps. */
module NullifierTable {
  import opened Bytes
  import opened SpendTypes

  datatype Bucket = Bucket(entries: seq<NullifierEntry>, count: nat)

  datatype Slot = Slot(bucket: nat, slot: nat)

  datatype BlockRecord = BlockRecord(blockHash: Hash, slots: seq<Slot>)

  datatype Table = Table(
    buckets: seq<Bucket>,
    blockIndex: map<nat, BlockRecord>,
    blockHashToHeight: map<Hash, nat>,
    numEntries: nat)

  datatype TableError = BucketOverflow(bucketIdx: nat) | BlockNotFound

  datatype Result = Ok | Err(error: TableError)

  // ----- Slots

  predicate Shaped(buckets: seq<Bucket>) {
    |buckets| == NUM_BUCKETS && forall b :: 0 <= b < |buckets| ==> |buckets[b].entries| == BUCKET_CAPACITY
  }

  predicate InRange(r: Slot) {
    r.bucket < NUM_BUCKETS && r.slot < BUCKET_CAPACITY
  }

  function EntryAt(buckets: seq<Bucket>, r: Slot): NullifierEntry
    requires Shaped(buckets) && InRange(r)
  {
    buckets[r.bucket].entries[r.slot]
  }

  // Writes a slot; `count` only ever rises, to one past the highest slot written.
  function Fill(buckets: seq<Bucket>, r: Slot, e: NullifierEntry): (after: seq<Bucket>)
    requires Shaped(buckets) && InRange(r)
    ensures Shaped(after)
    ensures forall x: Slot :: InRange(x) ==> EntryAt(after, x) == if x == r then e else EntryAt(buckets, x)
  {
    var b := buckets[r.bucket];
    buckets[r.bucket := Bucket(b.entries[r.slot := e], if r.slot >= b.count then r.slot + 1 else b.count)]
  }

  function Clear(buckets: seq<Bucket>, r: Slot): (after: seq<Bucket>)
    requires Shaped(buckets) && InRange(r)
    ensures Shaped(after)
    ensures forall x: Slot :: InRange(x) ==> EntryAt(after, x) == if x == r then ZeroEntry() else EntryAt(buckets, x)
  {
    var b := buckets[r.bucket];
    buckets[r.bucket := b.(entries := b.entries[r.slot := ZeroEntry()])]
  }

  function ClearAll(buckets: seq<Bucket>, slots: seq<Slot>): (after: seq<Bucket>)
    requires Shaped(buckets) && forall k :: 0 <= k < |slots| ==> InRange(slots[k])
    ensures Shaped(after)
    ensures forall x: Slot :: InRange(x) ==>
              EntryAt(after, x) == if x in slots then ZeroEntry() else EntryAt(buckets, x)
  {
    if slots == [] then buckets else Clear(ClearAll(buckets, slots[..|slots| - 1]), slots[|slots| - 1])
  }

  // The lowest empty slot of a bucket, from i on.
  function FreeSlotFrom(entries: seq<NullifierEntry>, i: nat): (r: Option<nat>)
    requires i <= |entries|
    ensures r.Some? ==> i <= r.value < |entries| && entries[r.value].IsEmpty()
                        && forall j :: i <= j < r.value ==> !entries[j].IsEmpty()
    ensures r.None? ==> forall j :: i <= j < |entries| ==> !entries[j].IsEmpty()
    decreases |entries| - i
  {
    if i == |entries| then None
    else if entries[i].IsEmpty() then Some(i)
    else FreeSlotFrom(entries, i + 1)
  }

  // ----- Inserting

  function EntryFor(nwm: NullifierWithMeta, height: nat): NullifierEntry {
    NullifierEntry(nwm.nullifier, AsU32(height), nwm.firstOutputPosition, nwm.actionCount)
  }

  // Buckets and slots after placing nullifiers one by one, up to the first full bucket.
  datatype Placed = Placed(buckets: seq<Bucket>, slots: seq<Slot>, overflow: Option<nat>)

  function PlaceOne(p: Placed, nwm: NullifierWithMeta, height: nat): (q: Placed)
    requires Shaped(p.buckets) && p.overflow.None?
    ensures Shaped(q.buckets)
  {
    var b := HashToBucket(nwm.nullifier);
    match FreeSlotFrom(p.buckets[b].entries, 0)
    case None => p.(overflow := Some(b))
    case Some(s) => Placed(Fill(p.buckets, Slot(b, s), EntryFor(nwm, height)), p.slots + [Slot(b, s)], None)
  }

  function PlaceAll(buckets: seq<Bucket>, nfs: seq<NullifierWithMeta>, height: nat): (p: Placed)
    requires Shaped(buckets)
    ensures Shaped(p.buckets)
  {
    if nfs == [] then Placed(buckets, [], None)
    else
      var p := PlaceAll(buckets, nfs[..|nfs| - 1], height);
      if p.overflow.Some? then p else PlaceOne(p, nfs[|nfs| - 1], height)
  }

  // A full bucket stops the insert at once: what was placed stays, and no block is recorded.
  function Insert(t: Table, height: nat, blockHash: Hash, nfs: seq<NullifierWithMeta>): (r: (Table, Result))
    requires Shaped(t.buckets)
    ensures Shaped(r.0.buckets)
  {
    var p := PlaceAll(t.buckets, nfs, height);
    if p.overflow.Some? then
      (t.(buckets := p.buckets, numEntries := t.numEntries + |p.slots|), Err(BucketOverflow(p.overflow.value)))
    else
      (Table(p.buckets, t.blockIndex[height := BlockRecord(blockHash, p.slots)],
             t.blockHashToHeight[blockHash := height], t.numEntries + |p.slots|), Ok)
  }

  // ----- Invariant

  ghost function Occupied(buckets: seq<Bucket>): set<Slot>
    requires Shaped(buckets)
  {
    set b: nat, s: nat | b < NUM_BUCKETS && s < BUCKET_CAPACITY && !EntryAt(buckets, Slot(b, s)).IsEmpty() :: Slot(b, s)
  }

  /** Empty slots are all zero, and every stored entry sits in the bucket of its nullifier. */
  ghost predicate SlotsOk(buckets: seq<Bucket>)
    requires Shaped(buckets)
  {
    forall r: Slot :: InRange(r) ==>
      var e := EntryAt(buckets, r);
      if e.IsEmpty() then e == ZeroEntry() else HashToBucket(e.nullifier) == r.bucket
  }

  // Slot k of the block at height h.
  predicate IsRef(t: Table, h: nat, k: nat) {
    h in t.blockIndex && k < |t.blockIndex[h].slots|
  }

  function Ref(t: Table, h: nat, k: nat): Slot
    requires IsRef(t, h, k)
  {
    t.blockIndex[h].slots[k]
  }

  /** Each block refers to stored entries of its own height, and no slot is referred to twice. */
  ghost predicate RefsOk(t: Table)
    requires Shaped(t.buckets)
  {
    && (forall h, k :: IsRef(t, h, k) ==>
          InRange(Ref(t, h, k)) && !EntryAt(t.buckets, Ref(t, h, k)).IsEmpty()
          && EntryAt(t.buckets, Ref(t, h, k)).spendHeight == AsU32(h))
    && (forall h, k, h', k' :: IsRef(t, h, k) && IsRef(t, h', k') && Ref(t, h, k) == Ref(t, h', k') ==>
         h == h' && k == k')
  }

  /** The hash map is the inverse of the block index. */
  ghost predicate HashesOk(t: Table) {
    && (forall h :: h in t.blockIndex ==>
          t.blockIndex[h].blockHash in t.blockHashToHeight && t.blockHashToHeight[t.blockIndex[h].blockHash] == h)
    && (forall x :: x in t.blockHashToHeight ==>
          t.blockHashToHeight[x] in t.blockIndex && t.blockIndex[t.blockHashToHeight[x]].blockHash == x)
  }

  /** What every operation keeps, failed inserts included. */
  ghost predicate Inv(t: Table) {
    && Shaped(t.buckets) && SlotsOk(t.buckets) && RefsOk(t) && HashesOk(t)
    && t.numEntries == |Occupied(t.buckets)|
  }

  /** No leaked entries: every stored entry belongs to some block. */
  ghost predicate Clean(t: Table)
    requires Shaped(t.buckets)
  {
    forall r: Slot :: InRange(r) && !EntryAt(t.buckets, r).IsEmpty() ==>
             exists h, k :: IsRef(t, h, k) && Ref(t, h, k) == r
  }

  function EmptyTable(): Table {
    Table(seq(NUM_BUCKETS, _ => Bucket(seq(BUCKET_CAPACITY, _ => ZeroEntry()), 0)), map[], map[], 0)
  }

  lemma EmptyTableOk()
    ensures Inv(EmptyTable()) && Clean(EmptyTable())
  {
    assert Occupied(EmptyTable().buckets) == {};
  }

  // Real nullifiers are never all zero.
  predicate NonZero(nfs: seq<NullifierWithMeta>) {
    forall k :: 0 <= k < |nfs| ==> nfs[k].nullifier != ZeroHash()
  }

  // ----- Placement

  /** Placed entries are the nullifiers in order, in distinct slots that were empty, in the right bucket;
      every other slot is as before. */
  ghost predicate PlacedOk(before: seq<Bucket>, nfs: seq<NullifierWithMeta>, height: nat, p: Placed)
    requires Shaped(before) && Shaped(p.buckets)
  {
    && |p.slots| <= |nfs|
    && (p.overflow.None? ==> |p.slots| == |nfs|)
    && (forall k :: 0 <= k < |p.slots| ==>
          InRange(p.slots[k]) && EntryAt(before, p.slots[k]).IsEmpty()
          && EntryAt(p.buckets, p.slots[k]) == EntryFor(nfs[k], height)
          && p.slots[k].bucket == HashToBucket(nfs[k].nullifier))
    && (forall j, k :: 0 <= j < k < |p.slots| ==> p.slots[j] != p.slots[k])
    && (forall r: Slot :: InRange(r) && r !in p.slots ==> EntryAt(p.buckets, r) == EntryAt(before, r))
  }

  lemma PlaceOneOk(before: seq<Bucket>, nfs: seq<NullifierWithMeta>, nwm: NullifierWithMeta, height: nat, p: Placed)
    requires Shaped(before) && Shaped(p.buckets) && p.overflow.None?
    requires PlacedOk(before, nfs, height, p) && NonZero(nfs)
    ensures PlacedOk(before, nfs + [nwm], height, PlaceOne(p, nwm, height))
  {
    var q := PlaceOne(p, nwm, height);
    if q.overflow.None? {
      var s := q.slots[|p.slots|];
      assert EntryAt(p.buckets, s).IsEmpty();
      forall k | 0 <= k < |p.slots|
        ensures p.slots[k] != s
      {
        assert !EntryAt(p.buckets, p.slots[k]).IsEmpty();
      }
      forall r: Slot | InRange(r) && r !in q.slots
        ensures EntryAt(q.buckets, r) == EntryAt(before, r)
      {
        assert s in q.slots;
        assert r !in p.slots;
      }
    }
  }

  lemma {:induction false} PlaceAllOk(before: seq<Bucket>, nfs: seq<NullifierWithMeta>, height: nat)
    requires Shaped(before) && NonZero(nfs)
    ensures PlacedOk(before, nfs, height, PlaceAll(before, nfs, height))
  {
    if nfs != [] {
      var init := nfs[..|nfs| - 1];
      PlaceAllOk(before, init, height);
      var p := PlaceAll(before, init, height);
      assert init + [nfs[|nfs| - 1]] == nfs;
      if p.overflow.None? {
        PlaceOneOk(before, init, nfs[|nfs| - 1], height, p);
      }
    }
  }

  // Distinct slots make a set of that size.
  lemma {:induction false} SlotSetSize(slots: seq<Slot>)
    requires forall j, k :: 0 <= j < k < |slots| ==> slots[j] != slots[k]
    ensures |set r | r in slots| == |slots|
  {
    if slots != [] {
      var init, last := slots[..|slots| - 1], slots[|slots| - 1];
      SlotSetSize(init);
      assert (set r | r in slots) == (set r | r in init) + {last};
    }
  }

  lemma OccupiedIff(buckets: seq<Bucket>, r: Slot)
    requires Shaped(buckets)
    ensures r in Occupied(buckets) <==> InRange(r) && !EntryAt(buckets, r).IsEmpty()
  {
    assert r == Slot(r.bucket, r.slot);
  }

  lemma UnionSize<T>(a: set<T>, b: set<T>, c: set<T>)
    requires forall x :: x in c <==> x in a || x in b
    requires forall x :: x in b ==> x !in a
    ensures |c| == |a| + |b|
  {
    assert c == a + b;
  }

  lemma PlacedMember(before: seq<Bucket>, nfs: seq<NullifierWithMeta>, height: nat, p: Placed, r: Slot)
    requires Shaped(before) && Shaped(p.buckets) && NonZero(nfs) && PlacedOk(before, nfs, height, p)
    ensures r in Occupied(p.buckets) <==> r in Occupied(before) || r in p.slots
    ensures r in p.slots ==> r !in Occupied(before)
  {
    OccupiedIff(p.buckets, r);
    OccupiedIff(before, r);
  }

  lemma PlacedOccupied(before: seq<Bucket>, nfs: seq<NullifierWithMeta>, height: nat, p: Placed)
    requires Shaped(before) && Shaped(p.buckets) && NonZero(nfs) && PlacedOk(before, nfs, height, p)
    ensures |Occupied(p.buckets)| == |Occupied(before)| + |p.slots|
  {
    var added := set r | r in p.slots;
    var was, now := Occupied(before), Occupied(p.buckets);
    SlotSetSize(p.slots);
    forall r: Slot
      ensures r in now <==> r in was || r in added
      ensures r in added ==> r !in was
    {
      PlacedMember(before, nfs, height, p, r);
    }
    UnionSize(was, added, now);
  }

  lemma PlacedSlotsOk(before: seq<Bucket>, nfs: seq<NullifierWithMeta>, height: nat, p: Placed)
    requires Shaped(before) && Shaped(p.buckets) && NonZero(nfs) && PlacedOk(before, nfs, height, p)
    requires SlotsOk(before)
    ensures SlotsOk(p.buckets)
  {
    forall r: Slot | InRange(r)
      ensures var e := EntryAt(p.buckets, r);
              if e.IsEmpty() then e == ZeroEntry() else HashToBucket(e.nullifier) == r.bucket
    {
      if r in p.slots {
        var k :| 0 <= k < |p.slots| && p.slots[k] == r;
      }
    }
  }

  // ----- Blocks and what they hold

  datatype LiveBlock = LiveBlock(hash: Hash, nullifiers: seq<NullifierWithMeta>)

  predicate RefsInRange(t: Table) {
    forall h <- t.blockIndex :: forall k :: 0 <= k < |t.blockIndex[h].slots| ==> InRange(t.blockIndex[h].slots[k])
  }

  function MetaOf(e: NullifierEntry): NullifierWithMeta {
    NullifierWithMeta(e.nullifier, e.firstOutputPosition, e.actionCount)
  }

  function Contents(buckets: seq<Bucket>, slots: seq<Slot>): (nfs: seq<NullifierWithMeta>)
    requires Shaped(buckets) && forall k :: 0 <= k < |slots| ==> InRange(slots[k])
    ensures |nfs| == |slots|
  {
    seq(|slots|, k requires 0 <= k < |slots| => MetaOf(EntryAt(buckets, slots[k])))
  }

  /** The abstract table: which blocks are stored, with their nullifiers in order. */
  function Live(t: Table): map<nat, LiveBlock>
    requires Shaped(t.buckets) && RefsInRange(t)
  {
    map h | h in t.blockIndex :: LiveBlock(t.blockIndex[h].blockHash, Contents(t.buckets, t.blockIndex[h].slots))
  }

  lemma InvRefsInRange(t: Table)
    requires Inv(t)
    ensures RefsInRange(t)
  {
    forall h, k | h in t.blockIndex && 0 <= k < |t.blockIndex[h].slots|
      ensures InRange(t.blockIndex[h].slots[k])
    {
      assert IsRef(t, h, k) && Ref(t, h, k) == t.blockIndex[h].slots[k];
    }
  }

  // Buckets that agree on a block's slots hold the same block.
  lemma ContentsAgree(a: seq<Bucket>, b: seq<Bucket>, slots: seq<Slot>)
    requires Shaped(a) && Shaped(b) && forall k :: 0 <= k < |slots| ==> InRange(slots[k])
    requires forall k :: 0 <= k < |slots| ==> EntryAt(a, slots[k]) == EntryAt(b, slots[k])
    ensures Contents(a, slots) == Contents(b, slots)
  {
  }

  // ----- Insert

  lemma PlacementKeepsRefs(t: Table, nfs: seq<NullifierWithMeta>, height: nat, p: Placed)
    requires Inv(t) && Shaped(p.buckets) && PlacedOk(t.buckets, nfs, height, p)
    ensures forall h, k :: IsRef(t, h, k) ==>
              Ref(t, h, k) !in p.slots && EntryAt(p.buckets, Ref(t, h, k)) == EntryAt(t.buckets, Ref(t, h, k))
  {
  }

  lemma FailedInsertInv(t: Table, height: nat, blockHash: Hash, nfs: seq<NullifierWithMeta>)
    requires Inv(t) && NonZero(nfs) && Insert(t, height, blockHash, nfs).1.Err?
    ensures Inv(Insert(t, height, blockHash, nfs).0)
  {
    var p := PlaceAll(t.buckets, nfs, height);
    var u := Insert(t, height, blockHash, nfs).0;
    PlaceAllOk(t.buckets, nfs, height);
    PlacedOccupied(t.buckets, nfs, height, p);
    PlacedSlotsOk(t.buckets, nfs, height, p);
    PlacementKeepsRefs(t, nfs, height, p);
    forall h, k | IsRef(u, h, k)
      ensures InRange(Ref(u, h, k)) && !EntryAt(u.buckets, Ref(u, h, k)).IsEmpty()
      ensures EntryAt(u.buckets, Ref(u, h, k)).spendHeight == AsU32(h)
    {
      assert IsRef(t, h, k) && Ref(t, h, k) == Ref(u, h, k);
    }
    forall h, k, h', k' | IsRef(u, h, k) && IsRef(u, h', k') && Ref(u, h, k) == Ref(u, h', k')
      ensures h == h' && k == k'
    {
      assert IsRef(t, h, k) && IsRef(t, h', k') && Ref(t, h, k) == Ref(t, h', k');
    }
  }

  // Every reference after a successful insert is an old one or one of the new block.
  lemma NewRef(t: Table, height: nat, blockHash: Hash, nfs: seq<NullifierWithMeta>, h: nat, k: nat)
    requires Inv(t) && height !in t.blockIndex && Insert(t, height, blockHash, nfs).1.Ok?
    requires IsRef(Insert(t, height, blockHash, nfs).0, h, k)
    ensures var u, p := Insert(t, height, blockHash, nfs).0, PlaceAll(t.buckets, nfs, height);
            if h == height then k < |p.slots| && Ref(u, h, k) == p.slots[k]
            else IsRef(t, h, k) && Ref(u, h, k) == Ref(t, h, k)
  {
  }

  lemma InsertRefsOk(t: Table, height: nat, blockHash: Hash, nfs: seq<NullifierWithMeta>)
    requires Inv(t) && NonZero(nfs) && height !in t.blockIndex
    requires Insert(t, height, blockHash, nfs).1.Ok?
    ensures RefsOk(Insert(t, height, blockHash, nfs).0)
  {
    var p := PlaceAll(t.buckets, nfs, height);
    var u := Insert(t, height, blockHash, nfs).0;
    PlaceAllOk(t.buckets, nfs, height);
    PlacementKeepsRefs(t, nfs, height, p);
    forall h, k | IsRef(u, h, k)
      ensures InRange(Ref(u, h, k)) && !EntryAt(u.buckets, Ref(u, h, k)).IsEmpty()
      ensures EntryAt(u.buckets, Ref(u, h, k)).spendHeight == AsU32(h)
    {
      NewRef(t, height, blockHash, nfs, h, k);
    }
    forall h, k, h', k' | IsRef(u, h, k) && IsRef(u, h', k') && Ref(u, h, k) == Ref(u, h', k')
      ensures h == h' && k == k'
    {
      NewRef(t, height, blockHash, nfs, h, k);
      NewRef(t, height, blockHash, nfs, h', k');
    }
  }

  /** A successful insert of a fresh block keeps the invariant, adds exactly that block to the abstract table,
      and leaks nothing. */
  lemma InsertAddsBlock(t: Table, height: nat, blockHash: Hash, nfs: seq<NullifierWithMeta>)
    requires Inv(t) && NonZero(nfs) && height !in t.blockIndex && blockHash !in t.blockHashToHeight
    requires Insert(t, height, blockHash, nfs).1.Ok?
    ensures var u := Insert(t, height, blockHash, nfs).0;
            && Inv(u) && RefsInRange(t) && RefsInRange(u)
            && Live(u) == Live(t)[height := LiveBlock(blockHash, nfs)]
            && u.numEntries == t.numEntries + |nfs|
            && (Clean(t) ==> Clean(u))
  {
    var p := PlaceAll(t.buckets, nfs, height);
    var u := Insert(t, height, blockHash, nfs).0;
    PlaceAllOk(t.buckets, nfs, height);
    PlacedOccupied(t.buckets, nfs, height, p);
    PlacedSlotsOk(t.buckets, nfs, height, p);
    InsertRefsOk(t, height, blockHash, nfs);
    InvRefsInRange(t);
    InvRefsInRange(u);
    InsertLive(t, u, height, blockHash, nfs, p);
    if Clean(t) {
      InsertClean(t, height, blockHash, nfs);
    }
  }

  lemma InsertLive(t: Table, u: Table, height: nat, blockHash: Hash, nfs: seq<NullifierWithMeta>, p: Placed)
    requires Inv(t) && RefsInRange(t) && height !in t.blockIndex
    requires Shaped(p.buckets) && PlacedOk(t.buckets, nfs, height, p) && p.overflow.None?
    requires u.buckets == p.buckets && u.blockIndex == t.blockIndex[height := BlockRecord(blockHash, p.slots)]
    requires RefsInRange(u)
    ensures Live(u) == Live(t)[height := LiveBlock(blockHash, nfs)]
  {
    PlacementKeepsRefs(t, nfs, height, p);
    PlacedContents(t.buckets, nfs, height, p);
    forall h | h in t.blockIndex
      ensures Contents(u.buckets, t.blockIndex[h].slots) == Contents(t.buckets, t.blockIndex[h].slots)
    {
      SameBlock(t, u.buckets, h);
    }
  }

  lemma PlacedContents(before: seq<Bucket>, nfs: seq<NullifierWithMeta>, height: nat, p: Placed)
    requires Shaped(before) && Shaped(p.buckets) && PlacedOk(before, nfs, height, p) && p.overflow.None?
    ensures Contents(p.buckets, p.slots) == nfs
  {
  }

  // A block whose slots did not change still holds the same nullifiers.
  lemma SameBlock(t: Table, buckets: seq<Bucket>, h: nat)
    requires Inv(t) && RefsInRange(t) && Shaped(buckets) && h in t.blockIndex
    requires forall k :: IsRef(t, h, k) ==> EntryAt(buckets, Ref(t, h, k)) == EntryAt(t.buckets, Ref(t, h, k))
    ensures Contents(buckets, t.blockIndex[h].slots) == Contents(t.buckets, t.blockIndex[h].slots)
  {
    forall k | 0 <= k < |t.blockIndex[h].slots|
      ensures EntryAt(buckets, t.blockIndex[h].slots[k]) == EntryAt(t.buckets, t.blockIndex[h].slots[k])
    {
      assert IsRef(t, h, k) && Ref(t, h, k) == t.blockIndex[h].slots[k];
    }
    ContentsAgree(buckets, t.buckets, t.blockIndex[h].slots);
  }

  lemma InsertClean(t: Table, height: nat, blockHash: Hash, nfs: seq<NullifierWithMeta>)
    requires Inv(t) && NonZero(nfs) && height !in t.blockIndex && Insert(t, height, blockHash, nfs).1.Ok?
    requires Clean(t)
    ensures Clean(Insert(t, height, blockHash, nfs).0)
  {
    var p := PlaceAll(t.buckets, nfs, height);
    var u := Insert(t, height, blockHash, nfs).0;
    PlaceAllOk(t.buckets, nfs, height);
    forall r: Slot | InRange(r) && !EntryAt(u.buckets, r).IsEmpty()
      ensures exists h, k :: IsRef(u, h, k) && Ref(u, h, k) == r
    {
      if r in p.slots {
        var k :| 0 <= k < |p.slots| && p.slots[k] == r;
        assert IsRef(u, height, k) && Ref(u, height, k) == r;
      } else {
        var h, k :| IsRef(t, h, k) && Ref(t, h, k) == r;
        assert IsRef(u, h, k) && Ref(u, h, k) == r;
      }
    }
  }

  // ----- High-water marks

  // Every stored entry lies below its bucket's mark.
  ghost predicate Marked(buckets: seq<Bucket>)
    requires Shaped(buckets)
  {
    forall r: Slot :: InRange(r) && !EntryAt(buckets, r).IsEmpty() ==> r.slot < buckets[r.bucket].count
  }

  // Writing a slot raises the mark just above it, and never lowers one.
  lemma FillMarks(buckets: seq<Bucket>, r: Slot, e: NullifierEntry)
    requires Shaped(buckets) && InRange(r) && Marked(buckets)
    ensures var after := Fill(buckets, r, e);
            && Marked(after)
            && (forall b :: 0 <= b < NUM_BUCKETS ==>
                  after[b].count
                  == if b == r.bucket && r.slot >= buckets[b].count then r.slot + 1 else buckets[b].count)
  {
    var after := Fill(buckets, r, e);
    forall x: Slot | InRange(x) && !EntryAt(after, x).IsEmpty()
      ensures x.slot < after[x.bucket].count
    {
      assert x != r ==> EntryAt(after, x) == EntryAt(buckets, x);
    }
  }

  /** An insert keeps every stored entry below its bucket's mark. */
  lemma {:induction false} InsertKeepsMarks(buckets: seq<Bucket>, nfs: seq<NullifierWithMeta>, height: nat)
    requires Shaped(buckets) && Marked(buckets)
    ensures Marked(PlaceAll(buckets, nfs, height).buckets)
  {
    if nfs != [] {
      var init := nfs[..|nfs| - 1];
      InsertKeepsMarks(buckets, init, height);
      var p, nwm := PlaceAll(buckets, init, height), nfs[|nfs| - 1];
      if p.overflow.None? {
        var b := HashToBucket(nwm.nullifier);
        var free := FreeSlotFrom(p.buckets[b].entries, 0);
        if free.Some? {
          FillMarks(p.buckets, Slot(b, free.value), EntryFor(nwm, height));
        }
      }
    }
  }

  lemma ClearMarks(buckets: seq<Bucket>, r: Slot)
    requires Shaped(buckets) && InRange(r) && Marked(buckets)
    ensures Marked(Clear(buckets, r))
    ensures forall b :: 0 <= b < NUM_BUCKETS ==> Clear(buckets, r)[b].count == buckets[b].count
  {
    var after := Clear(buckets, r);
    forall x: Slot | InRange(x) && !EntryAt(after, x).IsEmpty()
      ensures x.slot < after[x.bucket].count
    {
      assert EntryAt(after, x) == if x == r then ZeroEntry() else EntryAt(buckets, x);
    }
  }

  /** Clearing slots lowers no mark. */
  lemma {:induction false} ClearKeepsMarks(buckets: seq<Bucket>, slots: seq<Slot>)
    requires Shaped(buckets) && Marked(buckets) && forall k :: 0 <= k < |slots| ==> InRange(slots[k])
    ensures Marked(ClearAll(buckets, slots))
    ensures forall b :: 0 <= b < NUM_BUCKETS ==> ClearAll(buckets, slots)[b].count == buckets[b].count
  {
    if slots != [] {
      var n := |slots| - 1;
      ClearKeepsMarks(buckets, slots[..n]);
      ClearMarks(ClearAll(buckets, slots[..n]), slots[n]);
    }
  }
}
