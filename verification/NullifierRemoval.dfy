/** Rollback and eviction of blocks from the nullifier table. */
module NullifierRemoval {
  import opened Bytes
  import opened SpendTypes
  import opened NullifierTable

  // ----- Least key, greatest key and sum of a finite map

  ghost function MinKey(keys: set<nat>): (m: nat)
    requires keys != {}
    ensures m in keys && forall k :: k in keys ==> m <= k
  {
    var x :| x in keys;
    if keys == {x} then x
    else
      assert keys - {x} != {} && keys == keys - {x} + {x};
      var y := MinKey(keys - {x});
      if x < y then x else y
  }

  ghost function MaxKey(keys: set<nat>): (m: nat)
    requires keys != {}
    ensures m in keys && forall k :: k in keys ==> k <= m
  {
    var x :| x in keys;
    if keys == {x} then x
    else
      assert keys - {x} != {} && keys == keys - {x} + {x};
      var y := MaxKey(keys - {x});
      if x > y then x else y
  }

  ghost function Sum(sizes: map<nat, nat>): nat
    decreases |sizes|
  {
    if sizes == map[] then 0
    else
      assert sizes.Keys != {};
      var m := MinKey(sizes.Keys);
      sizes[m] + Sum(sizes - {m})
  }

  // The sum does not depend on the order in which keys are taken.
  lemma {:induction false} SumRemove(sizes: map<nat, nat>, h: nat)
    requires h in sizes
    ensures Sum(sizes) == sizes[h] + Sum(sizes - {h})
    decreases |sizes|
  {
    var m := MinKey(sizes.Keys);
    if h != m {
      SumRemove(sizes - {m}, h);
      assert m in sizes - {h} && MinKey((sizes - {h}).Keys) == m;
      assert sizes - {m} - {h} == sizes - {h} - {m};
    }
  }

  function Sizes(index: map<nat, BlockRecord>): map<nat, nat> {
    map h | h in index :: |index[h].slots|
  }

  // ----- Removing one block

  predicate Removable(t: Table, height: nat) {
    && Shaped(t.buckets) && height in t.blockIndex && |t.blockIndex[height].slots| <= t.numEntries
    && forall k :: 0 <= k < |t.blockIndex[height].slots| ==> InRange(t.blockIndex[height].slots[k])
  }

  function Remove(t: Table, height: nat, blockHash: Hash): (u: Table)
    requires Removable(t, height)
    ensures Shaped(u.buckets)
  {
    var slots := t.blockIndex[height].slots;
    Table(ClearAll(t.buckets, slots), t.blockIndex - {height}, t.blockHashToHeight - {blockHash},
        t.numEntries - |slots|)
  }

  lemma RecordSlots(t: Table, height: nat)
    requires Inv(t) && height in t.blockIndex
    ensures var slots := t.blockIndex[height].slots;
            && (forall k :: 0 <= k < |slots| ==> InRange(slots[k]) && !EntryAt(t.buckets, slots[k]).IsEmpty())
            && (forall j, k :: 0 <= j < k < |slots| ==> slots[j] != slots[k])
  {
    var slots := t.blockIndex[height].slots;
    forall k | 0 <= k < |slots|
      ensures IsRef(t, height, k) && Ref(t, height, k) == slots[k]
    {
    }
  }

  lemma InvRemovable(t: Table, height: nat)
    requires Inv(t) && height in t.blockIndex
    ensures Removable(t, height)
    ensures Remove(t, height, t.blockIndex[height].blockHash).numEntries
            == |Occupied(Remove(t, height, t.blockIndex[height].blockHash).buckets)|
  {
    var slots := t.blockIndex[height].slots;
    var gone, was, now := (set r | r in slots), Occupied(t.buckets), Occupied(ClearedBuckets(t, height));
    RecordSlots(t, height);
    SlotSetSize(slots);
    forall r: Slot
      ensures r in was <==> r in now || r in gone
      ensures r in gone ==> r !in now
    {
      OccupiedIff(t.buckets, r);
      OccupiedIff(ClearedBuckets(t, height), r);
    }
    UnionSize(now, gone, was);
  }

  ghost function ClearedBuckets(t: Table, height: nat): (b: seq<Bucket>)
    requires Inv(t) && height in t.blockIndex
    ensures Shaped(b)
    ensures forall r: Slot :: InRange(r) ==>
              EntryAt(b, r) == if r in t.blockIndex[height].slots then ZeroEntry() else EntryAt(t.buckets, r)
  {
    RecordSlots(t, height);
    ClearAll(t.buckets, t.blockIndex[height].slots)
  }

  // References of the other blocks survive, at slots that are not cleared.
  lemma OtherRefs(t: Table, height: nat, h: nat, k: nat)
    requires Inv(t) && height in t.blockIndex && h != height && IsRef(t, h, k)
    ensures Ref(t, h, k) !in t.blockIndex[height].slots
    ensures EntryAt(ClearedBuckets(t, height), Ref(t, h, k)) == EntryAt(t.buckets, Ref(t, h, k))
  {
    var slots := t.blockIndex[height].slots;
    forall j | 0 <= j < |slots|
      ensures slots[j] != Ref(t, h, k)
    {
      assert IsRef(t, height, j) && Ref(t, height, j) == slots[j];
    }
  }

  lemma RemoveRefsOk(t: Table, height: nat)
    requires Inv(t) && height in t.blockIndex && Removable(t, height)
    ensures RefsOk(Remove(t, height, t.blockIndex[height].blockHash))
  {
    var u := Remove(t, height, t.blockIndex[height].blockHash);
    forall h, k | IsRef(u, h, k)
      ensures IsRef(t, h, k) && Ref(t, h, k) == Ref(u, h, k)
      ensures InRange(Ref(u, h, k)) && EntryAt(u.buckets, Ref(u, h, k)) == EntryAt(t.buckets, Ref(t, h, k))
    {
      OtherRefs(t, height, h, k);
    }
  }

  lemma RemoveClean(t: Table, height: nat)
    requires Inv(t) && height in t.blockIndex && Removable(t, height) && Clean(t)
    ensures Clean(Remove(t, height, t.blockIndex[height].blockHash))
  {
    var u := Remove(t, height, t.blockIndex[height].blockHash);
    forall r: Slot | InRange(r) && !EntryAt(u.buckets, r).IsEmpty()
      ensures exists h, k :: IsRef(u, h, k) && Ref(u, h, k) == r
    {
      var h, k :| IsRef(t, h, k) && Ref(t, h, k) == r;
      assert h != height;
      assert IsRef(u, h, k) && Ref(u, h, k) == r;
    }
  }

  lemma RemoveLive(t: Table, height: nat)
    requires Inv(t) && height in t.blockIndex && Removable(t, height) && RefsInRange(t)
    requires RefsInRange(Remove(t, height, t.blockIndex[height].blockHash))
    ensures Live(Remove(t, height, t.blockIndex[height].blockHash)) == Live(t) - {height}
  {
    var u := Remove(t, height, t.blockIndex[height].blockHash);
    forall h | h in u.blockIndex
      ensures Contents(u.buckets, t.blockIndex[h].slots) == Contents(t.buckets, t.blockIndex[h].slots)
    {
      forall k | IsRef(t, h, k)
        ensures EntryAt(u.buckets, Ref(t, h, k)) == EntryAt(t.buckets, Ref(t, h, k))
      {
        OtherRefs(t, height, h, k);
      }
      SameBlock(t, u.buckets, h);
    }
    assert Live(u).Keys == (Live(t) - {height}).Keys;
  }

  /** Removing any stored block, in any order, takes exactly that block out of the abstract table, zeroes its
      slots, leaves every other slot alone, and keeps the invariant. */
  lemma RemoveDropsBlock(t: Table, height: nat)
    requires Inv(t) && height in t.blockIndex
    ensures Removable(t, height) && RefsInRange(t)
    ensures var u := Remove(t, height, t.blockIndex[height].blockHash);
            && Inv(u) && RefsInRange(u) && Live(u) == Live(t) - {height}
            && (Clean(t) ==> Clean(u))
            && (forall r: Slot :: InRange(r) ==>
                  EntryAt(u.buckets, r)
                  == if r in t.blockIndex[height].slots then ZeroEntry() else EntryAt(t.buckets, r))
  {
    InvRemovable(t, height);
    InvRefsInRange(t);
    RemoveRefsOk(t, height);
    var u := Remove(t, height, t.blockIndex[height].blockHash);
    assert SlotsOk(u.buckets);
    assert HashesOk(u);
    InvRefsInRange(u);
    RemoveLive(t, height);
    if Clean(t) {
      RemoveClean(t, height);
    }
  }

  // ----- Rollback

  function Rollback(t: Table, blockHash: Hash): (Table, Result)
    requires blockHash in t.blockHashToHeight && t.blockHashToHeight[blockHash] in t.blockIndex
             ==> Removable(t, t.blockHashToHeight[blockHash])
  {
    if blockHash !in t.blockHashToHeight then (t, Err(BlockNotFound))
    else if t.blockHashToHeight[blockHash] !in t.blockIndex then
      (t.(blockHashToHeight := t.blockHashToHeight - {blockHash}), Err(BlockNotFound))
    else (Remove(t, t.blockHashToHeight[blockHash], blockHash), Ok)
  }

  /** Rolling back a block that is not stored is an error and changes nothing; one that is stored goes. */
  lemma RollbackOutcome(t: Table, blockHash: Hash)
    requires Inv(t)
    ensures blockHash !in t.blockHashToHeight ==> Rollback(t, blockHash) == (t, Err(BlockNotFound))
    ensures blockHash in t.blockHashToHeight ==>
              var h := t.blockHashToHeight[blockHash];
              && h in t.blockIndex && t.blockIndex[h].blockHash == blockHash && Removable(t, h)
              && Rollback(t, blockHash).1 == Ok
              && RefsInRange(t) && RefsInRange(Rollback(t, blockHash).0)
              && Live(Rollback(t, blockHash).0) == Live(t) - {h}
  {
    if blockHash in t.blockHashToHeight {
      RemoveDropsBlock(t, t.blockHashToHeight[blockHash]);
    }
  }

  // Tables that differ at most in the high-water marks, which no operation reads.
  predicate SameEntries(a: seq<Bucket>, b: seq<Bucket>)
    requires Shaped(a) && Shaped(b)
  {
    forall i :: 0 <= i < NUM_BUCKETS ==> a[i].entries == b[i].entries
  }

  predicate SameButMarks(a: Table, b: Table) {
    && Shaped(a.buckets) && Shaped(b.buckets) && SameEntries(a.buckets, b.buckets)
    && a.blockIndex == b.blockIndex && a.blockHashToHeight == b.blockHashToHeight && a.numEntries == b.numEntries
  }

  lemma EntrywiseSame(a: seq<Bucket>, b: seq<Bucket>)
    requires Shaped(a) && Shaped(b)
    requires forall r: Slot :: InRange(r) ==> EntryAt(a, r) == EntryAt(b, r)
    ensures SameEntries(a, b)
  {
    forall i | 0 <= i < NUM_BUCKETS
      ensures a[i].entries == b[i].entries
    {
      forall s | 0 <= s < BUCKET_CAPACITY
        ensures a[i].entries[s] == b[i].entries[s]
      {
        assert EntryAt(a, Slot(i, s)) == EntryAt(b, Slot(i, s));
      }
    }
  }

  /** Removal leaves no trace: a block inserted and rolled back leaves every slot, both maps and the entry
      count as they were. */
  lemma InsertThenRollback(t: Table, height: nat, blockHash: Hash, nfs: seq<NullifierWithMeta>)
    requires Inv(t) && NonZero(nfs) && height !in t.blockIndex && blockHash !in t.blockHashToHeight
    requires Insert(t, height, blockHash, nfs).1.Ok?
    ensures var u := Insert(t, height, blockHash, nfs).0;
            && Removable(u, height) && RollsBack(u, blockHash, height)
            && var (v, r) := Rollback(u, blockHash);
            && r.Ok? && SameButMarks(v, t)
  {
    var u := Insert(t, height, blockHash, nfs).0;
    NewBlockRemovable(t, height, blockHash, nfs);
    RollbackRestores(t, u, height, blockHash, nfs, PlaceAll(t.buckets, nfs, height));
  }

  // The hash of this block maps to this height, at which a block is recorded.
  predicate RollsBack(t: Table, blockHash: Hash, height: nat) {
    blockHash in t.blockHashToHeight && t.blockHashToHeight[blockHash] == height && height in t.blockIndex
  }

  lemma NewBlockRemovable(t: Table, height: nat, blockHash: Hash, nfs: seq<NullifierWithMeta>)
    requires Inv(t) && NonZero(nfs) && height !in t.blockIndex && blockHash !in t.blockHashToHeight
    requires Insert(t, height, blockHash, nfs).1.Ok?
    ensures var u := Insert(t, height, blockHash, nfs).0; Removable(u, height) && RollsBack(u, blockHash, height)
  {
    InsertAddsBlock(t, height, blockHash, nfs);
    InvRemovable(Insert(t, height, blockHash, nfs).0, height);
  }

  lemma RollbackRestores(t: Table, u: Table, height: nat, blockHash: Hash, nfs: seq<NullifierWithMeta>, p: Placed)
    requires Inv(t) && NonZero(nfs) && height !in t.blockIndex && blockHash !in t.blockHashToHeight
    requires p == PlaceAll(t.buckets, nfs, height)
    requires u == Table(p.buckets, t.blockIndex[height := BlockRecord(blockHash, p.slots)],
                        t.blockHashToHeight[blockHash := height], t.numEntries + |p.slots|)
    requires Removable(u, height)
    ensures SameButMarks(Remove(u, height, blockHash), t)
  {
    var after := ClearAll(p.buckets, p.slots);
    forall r: Slot | InRange(r)
      ensures EntryAt(after, r) == EntryAt(t.buckets, r)
    {
      SlotRestored(t, height, nfs, p, after, r);
    }
    EntrywiseSame(after, t.buckets);
    MapUndo(t.blockIndex, height, BlockRecord(blockHash, p.slots));
    MapUndo(t.blockHashToHeight, blockHash, height);
  }

  lemma MapUndo<K, V>(m: map<K, V>, k: K, v: V)
    requires k !in m
    ensures m[k := v] - {k} == m
  {
  }

  lemma SlotRestored(t: Table, height: nat, nfs: seq<NullifierWithMeta>, p: Placed, after: seq<Bucket>, r: Slot)
    requires Inv(t) && NonZero(nfs) && p == PlaceAll(t.buckets, nfs, height) && Shaped(after) && InRange(r)
    requires EntryAt(after, r) == if r in p.slots then ZeroEntry() else EntryAt(p.buckets, r)
    ensures EntryAt(after, r) == EntryAt(t.buckets, r)
  {
    PlaceAllOk(t.buckets, nfs, height);
    if r in p.slots {
      var k :| 0 <= k < |p.slots| && p.slots[k] == r;
    }
  }

  // ----- The newest block

  ghost function Newest(index: map<nat, BlockRecord>): (m: nat)
    requires index != map[]
    ensures m in index && forall h :: h in index ==> h <= m
  {
    assert index.Keys != {};
    MaxKey(index.Keys)
  }

  // Height and hash of the newest block.
  ghost function LatestOf(index: map<nat, BlockRecord>): Option<(nat, Hash)> {
    if index == map[] then None else Some((Newest(index), index[Newest(index)].blockHash))
  }

  // ----- Eviction

  ghost function Oldest(t: Table): (m: nat)
    requires t.blockIndex != map[]
    ensures m in t.blockIndex && m == MinKey(t.blockIndex.Keys)
  {
    assert t.blockIndex.Keys != {};
    MinKey(t.blockIndex.Keys)
  }

  ghost function EvictOldest(t: Table): (u: Table)
    requires Inv(t) && t.blockIndex != map[]
    ensures Inv(u) && |u.blockIndex| < |t.blockIndex|
  {
    RemoveDropsBlock(t, Oldest(t));
    assert |t.blockIndex - {Oldest(t)}| == |t.blockIndex| - 1 by {
      assert (t.blockIndex - {Oldest(t)}).Keys == t.blockIndex.Keys - {Oldest(t)};
    }
    Remove(t, Oldest(t), t.blockIndex[Oldest(t)].blockHash)
  }

  ghost function EvictToTarget(t: Table): (u: Table)
    requires Inv(t)
    ensures Inv(u)
    decreases |t.blockIndex|
  {
    if t.numEntries > TARGET_SIZE && t.blockIndex != map[] then EvictToTarget(EvictOldest(t)) else t
  }

  lemma SizesRemove(index: map<nat, BlockRecord>, h: nat)
    requires h in index
    ensures Sizes(index - {h}) == Sizes(index) - {h}
    ensures Sum(Sizes(index)) == |index[h].slots| + Sum(Sizes(index - {h}))
  {
    assert Sizes(index - {h}) == Sizes(index) - {h};
    SumRemove(Sizes(index), h);
  }

  /** Entries are counted exactly: in a table without leaks, the entry count is the sum of the record lengths;
      with leaks it is larger by their number, which removal does not change. */
  lemma {:induction false} CountIsSum(t: Table)
    requires Inv(t)
    ensures t.numEntries >= Sum(Sizes(t.blockIndex))
    ensures Clean(t) ==> t.numEntries == Sum(Sizes(t.blockIndex))
    decreases |t.blockIndex|
  {
    if t.blockIndex == map[] {
      if Clean(t) {
        forall r: Slot
          ensures r !in Occupied(t.buckets)
        {
          OccupiedIff(t.buckets, r);
        }
        assert Occupied(t.buckets) == {};
      }
    } else {
      var u := EvictOldest(t);
      RemoveDropsBlock(t, Oldest(t));
      CountIsSum(u);
      SizesRemove(t.blockIndex, Oldest(t));
    }
  }

  // ----- Eviction, on heights and counts alone

  ghost function KeptIndex(index: map<nat, BlockRecord>, n: int): map<nat, BlockRecord>
    decreases |index|
  {
    if n > TARGET_SIZE && index != map[] then
      assert index.Keys != {};
      var m := MinKey(index.Keys);
      assert (index - {m}).Keys == index.Keys - {m};
      KeptIndex(index - {m}, n - |index[m].slots|)
    else index
  }

  lemma {:induction false} EvictsByIndex(t: Table)
    requires Inv(t)
    ensures EvictToTarget(t).blockIndex == KeptIndex(t.blockIndex, t.numEntries)
    decreases |t.blockIndex|
  {
    if t.numEntries > TARGET_SIZE && t.blockIndex != map[] {
      var v := EvictOldest(t);
      EvictToStep(t);
      EvictsByIndex(v);
      KeptStep(t.blockIndex, t.numEntries, v.blockIndex, v.numEntries);
    } else {
      assert EvictToTarget(t) == t;
    }
  }

  lemma EvictToStep(t: Table)
    requires Inv(t) && t.numEntries > TARGET_SIZE && t.blockIndex != map[]
    ensures EvictToTarget(t) == EvictToTarget(EvictOldest(t))
  {
  }

  lemma KeptStep(index: map<nat, BlockRecord>, n: int, rest: map<nat, BlockRecord>, left: int)
    requires n > TARGET_SIZE && index != map[] && index.Keys != {}
    requires rest == index - {MinKey(index.Keys)}
    requires left == n - |index[MinKey(index.Keys)].slots|
    ensures KeptIndex(index, n) == KeptIndex(rest, left)
  {
  }

  // The blocks at height c and above.
  function From(index: map<nat, BlockRecord>, c: nat): map<nat, BlockRecord> {
    map h | h in index && h >= c :: index[h]
  }

  // Of a count of n, what would remain with only the blocks at height c and above.
  ghost function CountFrom(index: map<nat, BlockRecord>, n: int, c: nat): int {
    n - Sum(Sizes(index)) + Sum(Sizes(From(index, c)))
  }

  lemma FromAll(index: map<nat, BlockRecord>, n: int, c: nat)
    requires forall h :: h in index ==> c <= h
    ensures From(index, c) == index && CountFrom(index, n, c) == n
  {
    assert From(index, c) == index;
  }

  lemma FromStep(index: map<nat, BlockRecord>, n: int, m: nat, c: nat)
    requires m in index && m < c
    ensures From(index, c) == From(index - {m}, c)
    ensures CountFrom(index, n, c) == CountFrom(index - {m}, n - |index[m].slots|, c)
  {
    assert From(index, c) == From(index - {m}, c);
    SizesRemove(index, m);
  }

  lemma TakeMin(index: map<nat, BlockRecord>, n: int) returns (m: nat, rest: map<nat, BlockRecord>, left: int)
    requires index != map[]
    ensures index.Keys != {} && m == MinKey(index.Keys) && m in index && (forall h :: h in index ==> m <= h)
    ensures rest == index - {m} && |rest| < |index| && left == n - |index[m].slots|
    ensures forall h :: h in rest ==> m + 1 <= h
  {
    assert index.Keys != {};
    m, rest, left := MinKey(index.Keys), index - {MinKey(index.Keys)}, n - |index[MinKey(index.Keys)].slots|;
    assert rest.Keys == index.Keys - {m};
  }

  lemma FromSame(index: map<nat, BlockRecord>, c: nat, d: nat)
    requires c <= d && forall h :: h in index ==> d <= h
    ensures From(index, c) == From(index, d)
  {
    assert From(index, c) == index == From(index, d);
  }

  lemma {:induction false} KeptIndexMinimal(index: map<nat, BlockRecord>, n: int) returns (cut: nat)
    ensures KeptIndex(index, n) == From(index, cut)
    ensures CountFrom(index, n, cut) <= TARGET_SIZE || From(index, cut) == map[]
    ensures forall c: nat :: c < cut ==> CountFrom(index, n, c) > TARGET_SIZE || From(index, c) == From(index, cut)
    decreases |index|
  {
    if n > TARGET_SIZE && index != map[] {
      var m, rest, left := TakeMin(index, n);
      cut := KeptIndexMinimal(rest, left);
      if cut <= m {
        FromSame(rest, cut, m + 1);
        cut := m + 1;
      }
      FromStep(index, n, m, cut);
      KeptStep(index, n, rest, left);
      forall c: nat | c < cut
        ensures CountFrom(index, n, c) > TARGET_SIZE || From(index, c) == From(index, cut)
      {
        if c <= m {
          FromAll(index, n, c);
        } else {
          FromStep(index, n, m, c);
        }
      }
    } else {
      cut := 0;
      FromAll(index, n, 0);
    }
  }

  /** Eviction stops as soon as it can. Some cut height separates what goes from what stays; what stays fits
      the target unless nothing is left; and keeping any lower block as well would have exceeded the target.
      The count includes leaked entries, which eviction never reclaims. */
  lemma EvictionMinimal(t: Table) returns (cut: nat)
    requires Inv(t)
    ensures EvictToTarget(t).blockIndex == From(t.blockIndex, cut)
    ensures CountFrom(t.blockIndex, t.numEntries, cut) <= TARGET_SIZE || From(t.blockIndex, cut) == map[]
    ensures forall c: nat :: c < cut ==>
              CountFrom(t.blockIndex, t.numEntries, c) > TARGET_SIZE || From(t.blockIndex, c) == From(t.blockIndex, cut)
  {
    EvictsByIndex(t);
    cut := KeptIndexMinimal(t.blockIndex, t.numEntries);
  }

  // What is left fits the target, unless it is only leaks.
  lemma {:induction false} EvictionMeets(t: Table)
    requires Inv(t)
    ensures EvictToTarget(t).numEntries <= TARGET_SIZE || EvictToTarget(t).blockIndex == map[]
    decreases |t.blockIndex|
  {
    if t.numEntries > TARGET_SIZE && t.blockIndex != map[] {
      EvictToStep(t);
      EvictionMeets(EvictOldest(t));
    }
  }

  function Restrict(m: map<nat, LiveBlock>, keys: set<nat>): map<nat, LiveBlock> {
    map h | h in m && h in keys :: m[h]
  }

  lemma RestrictDrop(m: map<nat, LiveBlock>, h: nat, keys: set<nat>)
    requires h !in keys
    ensures Restrict(m - {h}, keys) == Restrict(m, keys)
  {
  }

  lemma RestrictAll(m: map<nat, LiveBlock>)
    ensures Restrict(m, m.Keys) == m
  {
  }

  /** The blocks that stay are untouched, and the entry count drops by exactly those that go. */
  lemma {:induction false} EvictionKeepsLater(t: Table)
    requires Inv(t)
    ensures var u := EvictToTarget(t);
            && u.blockIndex.Keys <= t.blockIndex.Keys && RefsInRange(t) && RefsInRange(u)
            && Live(u) == Restrict(Live(t), u.blockIndex.Keys)
            && (Clean(t) ==> Clean(u))
            && u.numEntries - Sum(Sizes(u.blockIndex)) == t.numEntries - Sum(Sizes(t.blockIndex))
    decreases |t.blockIndex|
  {
    InvRefsInRange(t);
    if t.numEntries > TARGET_SIZE && t.blockIndex != map[] {
      var v, u := EvictOldest(t), EvictToTarget(t);
      EvictStep(t);
      EvictionKeepsLater(v);
      RestrictDrop(Live(t), Oldest(t), u.blockIndex.Keys);
    } else {
      RestrictAll(Live(t));
    }
  }

  // Without leaks the target is always met.
  lemma CleanFits(t: Table)
    requires Inv(t) && Clean(t)
    ensures EvictToTarget(t).numEntries <= 1_000_000
  {
    EvictionMeets(t);
    EvictionKeepsLater(t);
    CountIsSum(t);
  }

  lemma EvictStep(t: Table)
    requires Inv(t) && t.blockIndex != map[]
    ensures RefsInRange(t) && RefsInRange(EvictOldest(t))
    ensures EvictOldest(t).blockIndex == t.blockIndex - {Oldest(t)}
    ensures Live(EvictOldest(t)) == Live(t) - {Oldest(t)}
    ensures Clean(t) ==> Clean(EvictOldest(t))
    ensures EvictOldest(t).numEntries - Sum(Sizes(EvictOldest(t).blockIndex)) == t.numEntries - Sum(Sizes(t.blockIndex))
  {
    RemoveDropsBlock(t, Oldest(t));
    SizesRemove(t.blockIndex, Oldest(t));
  }
}
