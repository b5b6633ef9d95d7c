/** The first sync of the nullifier server. */
module SyncPlan {
  import opened Bytes
  import opened SpendTypes
  import opened NullifierTable
  import opened NullifierRemoval
  import opened Parsers
  import opened FollowLoop
  import opened FollowLockstep
  import opened NullifierCapacity
  import opened SyncDemand
  import WindowBootstrap
  import HT = HashTableDb

  const SYNC_BATCH_SIZE: nat := 10_000
  const BACKFILL_BATCH: nat := 50_000

  datatype NewBlock = NewBlock(height: nat, hash: Hash, prevHash: Hash, nullifiers: seq<NullifierWithMeta>)

  // ----- Fetching a range in batches

  function EventFor(b: CompactBlock, prior: Option<u32>): NewBlock {
    NewBlock(b.height, ToHashArray(b.hash), ToHashArray(b.prevHash), MetasFor(b, prior))
  }

  // The tree size handed to the block at height h by the one before it in the range.
  function PriorAt(chain: Chain, from: nat, initial: Option<u32>, h: nat): Option<u32>
    requires from <= h
  {
    if h == from then initial else OrchardTreeSize(chain(h - 1))
  }

  function EventAt(chain: Chain, from: nat, initial: Option<u32>, h: nat): NewBlock
    requires from <= h
  {
    EventFor(chain(h), PriorAt(chain, from, initial, h))
  }

  // One event for every height from `from` to before `next`, in order.
  ghost predicate RangeEvents(chain: Chain, from: nat, initial: Option<u32>, next: nat, events: seq<NewBlock>) {
    && |events| == next - from
    && forall k :: 0 <= k < |events| ==> IsEvent(chain, from, initial, events, k)
  }

  ghost predicate IsEvent(chain: Chain, from: nat, initial: Option<u32>, events: seq<NewBlock>, k: nat)
    requires k < |events|
  {
    events[k] == EventAt(chain, from, initial, from + k)
  }

  lemma NextEvent(chain: Chain, from: nat, initial: Option<u32>, next: nat, events: seq<NewBlock>)
    requires from <= next && RangeEvents(chain, from, initial, next, events)
    ensures RangeEvents(chain, from, initial, next + 1, events + [EventAt(chain, from, initial, next)])
    ensures PriorAt(chain, from, initial, next + 1) == OrchardTreeSize(chain(next))
  {
    var after := events + [EventAt(chain, from, initial, next)];
    forall k | 0 <= k < |after|
      ensures IsEvent(chain, from, initial, after, k)
    {
      assert k < |events| ==> IsEvent(chain, from, initial, events, k);
    }
  }

  method ReadBlock(b: CompactBlock, prior: Option<u32>) returns (event: NewBlock, size: Option<u32>)
    ensures event == EventFor(b, prior) && size == OrchardTreeSize(b)
  {
    var nullifiers;
    nullifiers, size := ExtractNullifiersWithMeta(b, prior);
    event := NewBlock(b.height, ToHashArray(b.hash), ToHashArray(b.prevHash), nullifiers);
  }

  // What the light-wallet server answers to a range request.
  function GetBlockRange(chain: Chain, from: nat, to: nat): (bs: seq<CompactBlock>)
    requires from <= to
    ensures |bs| == to - from + 1
  {
    seq(to - from + 1, i requires 0 <= i < to - from + 1 => chain(from + i))
  }

  // The blocks of one batch, as events after those already sent.
  method ReadBatch(chain: Chain, ghost from: nat, ghost initial: Option<u32>, current: nat, batchEnd: nat,
                   prior: Option<u32>, sent: seq<NewBlock>)
    returns (events: seq<NewBlock>, next: Option<u32>)
    requires from <= current <= batchEnd && prior == PriorAt(chain, from, initial, current)
    requires RangeEvents(chain, from, initial, current, sent)
    ensures RangeEvents(chain, from, initial, batchEnd + 1, events)
    ensures next == PriorAt(chain, from, initial, batchEnd + 1)
  {
    var blocks := GetBlockRange(chain, current, batchEnd);
    events, next := sent, prior;
    ghost var h := current;
    for i := 0 to |blocks|
      invariant h == current + i && next == PriorAt(chain, from, initial, h)
      invariant RangeEvents(chain, from, initial, h, events)
    {
      NextEvent(chain, from, initial, h, events);
      var event;
      event, next := ReadBlock(blocks[i], next);
      events := events + [event];
      h := h + 1;
    }
  }

  /** However the range is cut into batches, each height gives exactly one event, in order. */
  method FetchRange(chain: Chain, from: nat, to: nat, initialTreeSize: Option<u32>) returns (events: seq<NewBlock>)
    ensures RangeEvents(chain, from, initialTreeSize, if from <= to then to + 1 else from, events)
  {
    var current := from;
    var prevTreeSize := initialTreeSize;
    events := [];
    while current <= to
      invariant from <= current && (current == from || current <= to + 1)
      invariant prevTreeSize == PriorAt(chain, from, initialTreeSize, current)
      invariant RangeEvents(chain, from, initialTreeSize, current, events)
      decreases 1 + to - current
    {
      var batchEnd := if current + SYNC_BATCH_SIZE - 1 < to then current + SYNC_BATCH_SIZE - 1 else to;
      events, prevTreeSize := ReadBatch(chain, from, initialTreeSize, current, batchEnd, prevTreeSize, events);
      current := batchEnd + 1;
    }
  }

  /** The events of a linked chain are linked: each names the hash of the one before it as its parent. */
  lemma EventsLink(chain: Chain, from: nat, initial: Option<u32>, next: nat, events: seq<NewBlock>, k: nat)
    requires RangeEvents(chain, from, initial, next, events) && from <= next && k + 1 < |events|
    requires ToHashArray(chain(from + k + 1).prevHash) == ToHashArray(chain(from + k).hash)
    ensures events[k + 1].prevHash == events[k].hash && events[k].height == chain(from + k).height
  {
    assert IsEvent(chain, from, initial, events, k) && IsEvent(chain, from, initial, events, k + 1);
  }

  // ----- What the table serves

  // Up to the height `top`, every height has its own block, of real nullifiers, under a hash of its own.
  ghost predicate Sound(chain: Chain, heightOf: Hash -> nat, top: nat) {
    forall h: nat :: h <= top ==> SoundAt(chain, heightOf, h)
  }

  ghost predicate SoundAt(chain: Chain, heightOf: Hash -> nat, h: nat) {
    chain(h).height == h && heightOf(ToHashArray(chain(h).hash)) == h && RealNullifiers(chain(h))
  }

  ghost predicate FromChain(chain: Chain, l: LiveBlock, h: nat) {
    l.hash == ToHashArray(chain(h).hash)
    && exists prior :: KnownBefore(chain, h, prior) && l.nullifiers == MetasFor(chain(h), prior)
  }

  // The size that a block is read with: what its predecessor announces, or nothing at the start of a range.
  predicate KnownBefore(chain: Chain, h: nat, prior: Option<u32>) {
    prior == None || (h > 0 && prior == OrchardTreeSize(chain(h - 1)))
  }

  /** The table holds blocks of the chain up to the height `top`, each once, and nothing else. */
  ghost predicate Serves(chain: Chain, t: Table, top: nat) {
    Inv(t) && Clean(t) && RefsInRange(t) && AllFromChain(chain, Live(t), top)
  }

  ghost predicate AllFromChain(chain: Chain, live: map<nat, LiveBlock>, top: nat) {
    forall h :: h in live ==> h <= top && FromChain(chain, live[h], h)
  }

  // The table's heights are exactly these.
  ghost predicate Covers(t: Table, lo: nat, hi: nat) {
    forall h: nat :: h in t.blockIndex <==> lo <= h <= hi
  }

  lemma ChainGrows(chain: Chain, live: map<nat, LiveBlock>, h: nat, prior: Option<u32>, top: nat)
    requires AllFromChain(chain, live, top) && h <= top && KnownBefore(chain, h, prior)
    ensures AllFromChain(chain, live[h := LiveBlock(ToHashArray(chain(h).hash), MetasFor(chain(h), prior))], top)
  {
    assert FromChain(chain, LiveBlock(ToHashArray(chain(h).hash), MetasFor(chain(h), prior)), h);
  }

  lemma HashIsFresh(chain: Chain, heightOf: Hash -> nat, t: Table, h: nat, top: nat)
    requires Sound(chain, heightOf, top) && Serves(chain, t, top) && h <= top && h !in t.blockIndex
    ensures ToHashArray(chain(h).hash) !in t.blockHashToHeight
  {
    assert SoundAt(chain, heightOf, h);
    forall x | x in t.blockHashToHeight
      ensures x != ToHashArray(chain(h).hash)
    {
      var k := t.blockHashToHeight[x];
      assert k in Live(t) && Live(t)[k].hash == x;
      assert FromChain(chain, Live(t)[k], k) && SoundAt(chain, heightOf, k);
    }
  }

  // Inserting the block of a new height.
  lemma ServeOneMore(chain: Chain, heightOf: Hash -> nat, t: Table, h: nat, prior: Option<u32>, e: NewBlock, top: nat)
    requires Sound(chain, heightOf, top) && Serves(chain, t, top) && h <= top && h !in t.blockIndex
    requires e == EventFor(chain(h), prior) && Insert(t, e.height, e.hash, e.nullifiers).1.Ok?
    requires KnownBefore(chain, h, prior)
    ensures var u := Insert(t, e.height, e.hash, e.nullifiers).0;
            Serves(chain, u, top) && Live(u) == Live(t)[h := LiveBlock(e.hash, e.nullifiers)]
            && u.blockIndex.Keys == t.blockIndex.Keys + {h}
  {
    assert SoundAt(chain, heightOf, h);
    HashIsFresh(chain, heightOf, t, h, top);
    InsertAddsBlock(t, h, e.hash, e.nullifiers);
    ChainGrows(chain, Live(t), h, prior, top);
  }

  // ----- Syncing a range into the table

  // The heights of the table before, and those of the range below `next`.
  ghost predicate Grown(was: set<nat>, now: map<nat, BlockRecord>, from: nat, next: nat) {
    forall h: nat :: h in now <==> h in was || from <= h < next
  }

  lemma GrowsBy(was: set<nat>, before: map<nat, BlockRecord>, now: map<nat, BlockRecord>, from: nat, h: nat, next: nat)
    requires Grown(was, before, from, h) && now.Keys == before.Keys + {h} && from <= h && next == h + 1
    ensures Grown(was, now, from, next)
  {
    forall k: nat
      ensures k in now <==> k in was || from <= k < next
    {
      assert k in now.Keys <==> k in before.Keys || k == h;
    }
  }

  // From `before`, exactly the heights from `from` to before `h` have been added, each with its demand.
  ghost predicate Progress(chain: Chain, before: map<nat, LiveBlock>, t: Table, top: nat, from: nat, h: nat) {
    && Serves(chain, t, top) && Grown(before.Keys, t.blockIndex, from, h)
    && TookIn(chain, before, Live(t), from, h)
  }

  lemma NoProgress(chain: Chain, t: Table, top: nat, from: nat, next: nat)
    requires Serves(chain, t, top) && next <= from
    ensures Progress(chain, Live(t), t, top, from, next)
  {
  }

  lemma NotYet(chain: Chain, before: map<nat, LiveBlock>, t: Table, top: nat, from: nat, h: nat)
    requires Progress(chain, before, t, top, from, h) && h !in before
    ensures h !in t.blockIndex
  {
  }

  // The bucket that stopped a sync cannot hold its share of the range, and the sync had got as far as some height.
  ghost predicate StoppedIn(chain: Chain, before: map<nat, LiveBlock>, now: Table, from: nat, to: nat, e: TableError) {
    && Inv(now) && e.BucketOverflow? && e.bucketIdx < NUM_BUCKETS
    && !BucketFits(chain, before, from, to + 1, e.bucketIdx)
    && exists h: nat :: from <= h <= to && Grown(before.Keys, now.blockIndex, from, h)
  }

  /** A range is synced into a table exactly when every bucket has room for the nullifiers of the whole range; then
      exactly its heights are added. Otherwise the sync stops at a bucket that has not, with the heights done so
      far. */
  ghost predicate RangeOutcome(chain: Chain, before: map<nat, LiveBlock>, now: Table, top: nat, from: nat, to: nat,
                               r: Result) {
    && (r.Ok? <==> RangeFits(chain, before, from, to + 1))
    && (r.Ok? ==> Progress(chain, before, now, top, from, to + 1))
    && (r.Err? ==> StoppedIn(chain, before, now, from, to, r.error))
  }

  // The table after the next block of the range: one height further, or stopped.
  lemma NextGoes(chain: Chain, heightOf: Hash -> nat, before: map<nat, LiveBlock>, t: Table, top: nat, from: nat,
                 h: nat, prior: Option<u32>, e: NewBlock, u: Table)
    requires Sound(chain, heightOf, top) && Progress(chain, before, t, top, from, h) && from <= h <= top && h !in before
    requires e == EventFor(chain(h), prior) && Insert(t, e.height, e.hash, e.nullifiers) == (u, Result.Ok)
    requires KnownBefore(chain, h, prior)
    ensures Progress(chain, before, u, top, from, h + 1)
  {
    NotYet(chain, before, t, top, from, h);
    ServeOneMore(chain, heightOf, t, h, prior, e, top);
    TakeNext(chain, before, Live(t), from, h, e.hash, prior);
    GrowsBy(before.Keys, t.blockIndex, u.blockIndex, from, h, h + 1);
  }

  lemma NextStops(chain: Chain, heightOf: Hash -> nat, before: map<nat, LiveBlock>, t: Table, top: nat, from: nat,
                  h: nat, to: nat, prior: Option<u32>, e: NewBlock, u: Table, r: Result)
    requires Sound(chain, heightOf, top) && Progress(chain, before, t, top, from, h) && from <= h <= to <= top
    requires e == EventFor(chain(h), prior) && Insert(t, e.height, e.hash, e.nullifiers) == (u, r) && r.Err?
    ensures RangeOutcome(chain, before, u, top, from, to, r)
  {
    assert SoundAt(chain, heightOf, h);
    FailedInsertInv(t, e.height, e.hash, e.nullifiers);
    OverflowedBucket(t, e.height, e.hash, e.nullifiers);
    NextDoesNotFit(chain, before, Live(t), from, h, to + 1, prior, r.error.bucketIdx);
  }

  lemma RangeDone(chain: Chain, before: map<nat, LiveBlock>, t: Table, top: nat, from: nat, to: nat, next: nat)
    requires next == to + 1 && Progress(chain, before, t, top, from, next)
    ensures RangeOutcome(chain, before, t, top, from, to, Result.Ok)
  {
    TakenFits(chain, before, t, from, to + 1);
  }

  method SyncNext(chain: Chain, ghost heightOf: Hash -> nat, ghost before: map<nat, LiveBlock>, ghost top: nat,
                  ghost from: nat, ghost h: nat, ghost to: nat, ghost prior: Option<u32>, e: NewBlock,
                  hashtable: HT.HashTableDb)
    returns (r: Result, ghost next: nat)
    requires Sound(chain, heightOf, top) && Progress(chain, before, hashtable.View(), top, from, h)
    requires from <= h <= to <= top && h !in before && e == EventFor(chain(h), prior) && KnownBefore(chain, h, prior)
    modifies hashtable
    ensures r.Ok? ==> next == h + 1 && Progress(chain, before, hashtable.View(), top, from, next)
    ensures r.Err? ==> RangeOutcome(chain, before, hashtable.View(), top, from, to, r)
  {
    ghost var t := hashtable.View();
    next := h + 1;
    r := hashtable.InsertBlock(e.height, e.hash, e.nullifiers);
    if r.Ok? {
      NextGoes(chain, heightOf, before, t, top, from, h, prior, e, hashtable.View());
    } else {
      NextStops(chain, heightOf, before, t, top, from, h, to, prior, e, hashtable.View(), r);
    }
  }

  method SyncRange(chain: Chain, ghost heightOf: Hash -> nat, ghost top: nat, from: nat, to: nat,
                   hashtable: HT.HashTableDb)
    returns (r: Result)
    requires Sound(chain, heightOf, top) && Serves(chain, hashtable.View(), top) && (from <= to ==> to <= top)
    requires forall h :: from <= h <= to ==> h !in hashtable.blockIndex
    modifies hashtable
    ensures RangeOutcome(chain, Live(old(hashtable.View())), hashtable.View(), top, from, to, r)
  {
    ghost var before := Live(hashtable.View());
    if from > to {
      NoProgress(chain, hashtable.View(), top, from, to + 1);
      RangeDone(chain, before, hashtable.View(), top, from, to, to + 1);
      return Ok;
    }
    NoProgress(chain, hashtable.View(), top, from, from);
    var events := FetchRange(chain, from, to, None);
    r := InsertEvents(chain, heightOf, before, top, from, to, events, hashtable);
  }

  method InsertEvents(chain: Chain, ghost heightOf: Hash -> nat, ghost before: map<nat, LiveBlock>, ghost top: nat,
                      ghost from: nat, ghost to: nat, events: seq<NewBlock>, hashtable: HT.HashTableDb)
    returns (r: Result)
    requires Sound(chain, heightOf, top) && Progress(chain, before, hashtable.View(), top, from, from)
    requires from <= to <= top && (forall h :: from <= h <= to ==> h !in before)
    requires RangeEvents(chain, from, None, to + 1, events)
    modifies hashtable
    ensures RangeOutcome(chain, before, hashtable.View(), top, from, to, r)
  {
    ghost var h := from;
    for i := 0 to |events|
      invariant h == from + i && Progress(chain, before, hashtable.View(), top, from, h)
    {
      EventIs(chain, from, to, events, i, h);
      r, h := SyncNext(chain, heightOf, before, top, from, h, to, PriorAt(chain, from, None, h), events[i], hashtable);
      if r.Err? {
        return;
      }
    }
    RangeDone(chain, before, hashtable.View(), top, from, to, h);
    r := Ok;
  }

  lemma EventIs(chain: Chain, from: nat, to: nat, events: seq<NewBlock>, i: nat, h: nat)
    requires RangeEvents(chain, from, None, to + 1, events) && i < |events| && h == from + i
    ensures events[i] == EventFor(chain(h), PriorAt(chain, from, None, h)) && h <= to
    ensures KnownBefore(chain, h, PriorAt(chain, from, None, h))
  {
    assert IsEvent(chain, from, None, events, i);
  }

  // ----- The whole first sync

  // The heights from `start` to the tip, each once, and every bucket's share of them.
  ghost predicate Synced(chain: Chain, t: Table, start: nat, tip: nat) {
    && Serves(chain, t, tip) && Covers(t, start, tip)
    && TookIn(chain, map[], Live(t), start, tip + 1)
  }

  // A first sync that fails has met a bucket that cannot hold its share of the interval it set out to cover.
  ghost predicate SyncOutcome(chain: Chain, t: Table, start: nat, tip: nat, r: Result) {
    && (r.Ok? <==> RangeFits(chain, map[], start, tip + 1))
    && (r.Ok? ==> Synced(chain, t, start, tip))
    && (r.Err? ==> r.error.BucketOverflow? && r.error.bucketIdx < NUM_BUCKETS
                   && DemandOver(chain, start, tip + 1, r.error.bucketIdx) > BUCKET_CAPACITY)
  }

  // The forward range, into an empty table.
  lemma ForwardDone(chain: Chain, t: Table, start: nat, tip: nat, r: Result)
    requires RangeOutcome(chain, map[], t, tip, start, tip, r)
    ensures SyncOutcome(chain, t, start, tip, r)
  {
    if r.Err? {
      NothingUsed(r.error.bucketIdx);
    }
  }

  // A backfill batch, just below what is synced.
  lemma BackfillDone(chain: Chain, was: Table, now: Table, from: nat, to: nat, tip: nat, r: Result)
    requires Synced(chain, was, to + 1, tip) && from <= to <= tip
    requires RangeOutcome(chain, Live(was), now, tip, from, to, r)
    ensures SyncOutcome(chain, now, from, tip, r)
  {
    assert Live(was).Keys == was.blockIndex.Keys;
    JoinRanges(chain, Live(was), if r.Ok? then Live(now) else map[], from, to + 1, tip + 1);
    if r.Ok? {
      JoinedHeights(was, now, from, to, tip);
    }
  }

  lemma JoinedHeights(was: Table, now: Table, from: nat, to: nat, tip: nat)
    requires Covers(was, to + 1, tip) && Grown(was.blockIndex.Keys, now.blockIndex, from, to + 1) && from <= to <= tip
    ensures Covers(now, from, tip)
  {
  }

  lemma StoredCount(chain: Chain, t: Table, h: nat, top: nat)
    requires Serves(chain, t, top) && h in t.blockIndex
    ensures |t.blockIndex[h].slots| == BlockCount(chain, h)
  {
    assert h in Live(t) && FromChain(chain, Live(t)[h], h);
    var prior :| Live(t)[h].nullifiers == MetasFor(chain(h), prior);
    PriorKeepsCount(chain, h, prior);
  }

  // Sizes of exactly these heights, as the chain has them.
  ghost predicate SizesOver(chain: Chain, sizes: map<nat, nat>, lo: nat, hi: nat) {
    && (forall h: nat :: h in sizes <==> lo <= h < hi)
    && forall h :: h in sizes ==> sizes[h] == BlockCount(chain, h)
  }

  lemma TopSize(chain: Chain, sizes: map<nat, nat>, lo: nat, top: nat, hi: nat)
    requires SizesOver(chain, sizes, lo, hi) && lo <= top && hi == top + 1
    ensures top in sizes && sizes[top] == BlockCount(chain, top)
  {
  }

  lemma SizesBelow(chain: Chain, sizes: map<nat, nat>, lo: nat, top: nat, hi: nat)
    requires SizesOver(chain, sizes, lo, hi) && lo <= top && hi == top + 1
    ensures SizesOver(chain, sizes - {top}, lo, top)
  {
  }

  lemma CountStep(chain: Chain, lo: nat, top: nat, hi: nat)
    requires lo <= top && hi == top + 1
    ensures CountOver(chain, lo, hi) == CountOver(chain, lo, top) + BlockCount(chain, top)
  {
  }

  lemma NothingOver(chain: Chain, sizes: map<nat, nat>, lo: nat, hi: nat)
    requires SizesOver(chain, sizes, lo, hi) && hi <= lo
    ensures Sum(sizes) == 0 == CountOver(chain, lo, hi)
  {
    assert sizes.Keys == {};
  }

  lemma {:induction false} SumIsCount(chain: Chain, sizes: map<nat, nat>, lo: nat, hi: nat)
    requires SizesOver(chain, sizes, lo, hi)
    ensures Sum(sizes) == CountOver(chain, lo, hi)
    decreases hi
  {
    if hi > lo {
      var top := hi - 1;
      TopSize(chain, sizes, lo, top, hi);
      SumRemove(sizes, top);
      CountStep(chain, lo, top, hi);
      SizesBelow(chain, sizes, lo, top, hi);
      SumIsCount(chain, sizes - {top}, lo, top);
    } else {
      NothingOver(chain, sizes, lo, hi);
    }
  }

  // The count of a table that has been synced is that of the blocks it covers.
  lemma SyncedCount(chain: Chain, t: Table, start: nat, tip: nat)
    requires Synced(chain, t, start, tip)
    ensures t.numEntries == CountOver(chain, start, tip + 1)
  {
    CountIsSum(t);
    forall h | h in t.blockIndex
      ensures |t.blockIndex[h].slots| == BlockCount(chain, h)
    {
      StoredCount(chain, t, h, tip);
    }
    SumIsCount(chain, Sizes(t.blockIndex), start, tip + 1);
  }

  // The lowest height ever synced, and where the forward range starts.
  function Floor(tipHeight: nat): nat {
    if tipHeight >= 1_687_104 then 1_687_104 else 1
  }

  function ForwardStart(tipHeight: nat): nat {
    if tipHeight >= 50_000 + Floor(tipHeight) then tipHeight - 50_000 else Floor(tipHeight)
  }

  // No batch was fetched once there were enough: above the last batch the blocks hold less than the target.
  ghost predicate Needed(chain: Chain, start: nat, forward: nat, tip: nat, target: nat) {
    && start <= forward
    && (start < forward ==> exists cut: nat :: LastBatch(chain, start, cut, forward, tip, target))
  }

  ghost predicate LastBatch(chain: Chain, start: nat, cut: nat, forward: nat, tip: nat, target: nat) {
    start < cut <= start + 50_000 && cut <= forward && CountOver(chain, cut, tip + 1) < target
  }

  lemma NextBatchNeeded(chain: Chain, t: Table, was: nat, start: nat, forward: nat, tip: nat, target: nat)
    requires Synced(chain, t, was, tip) && t.numEntries < target && start < was <= start + 50_000 && was <= forward
    ensures Needed(chain, start, forward, tip, target)
  {
    SyncedCount(chain, t, was, tip);
    assert LastBatch(chain, start, was, forward, tip, target);
  }

  // What has been synced so far, and that it had to be.
  ghost predicate Backfilled(chain: Chain, t: Table, start: nat, forward: nat, tip: nat, target: nat, r: Result) {
    SyncOutcome(chain, t, start, tip, r) && Needed(chain, start, forward, tip, target)
  }

  // Enough nullifiers, or nothing lower to fetch.
  ghost predicate StopsRight(chain: Chain, t: Table, start: nat, tip: nat, target: nat) {
    && CountOver(chain, start, tip + 1) == t.numEntries
    && (t.numEntries >= target || start == Floor(tip))
  }

  lemma Stops(chain: Chain, t: Table, start: nat, tip: nat, target: nat)
    requires Synced(chain, t, start, tip) && (t.numEntries >= target || start == Floor(tip))
    ensures StopsRight(chain, t, start, tip, target)
  {
    SyncedCount(chain, t, start, tip);
  }

  lemma EnoughForward(chain: Chain, start: nat, forward: nat, tip: nat, target: nat)
    requires Needed(chain, start, forward, tip, target)
    ensures CountOver(chain, forward, tip + 1) >= target ==> start == forward
  {
    if start < forward && CountOver(chain, forward, tip + 1) >= target {
      var cut: nat :| LastBatch(chain, start, cut, forward, tip, target);
      CountGrows(chain, cut, forward, tip + 1);
    }
  }

  /** Forward range and backfill batches together cover one interval that ends at the tip, each height once; the
      loop ends; and it ends with enough nullifiers or at the floor. It fails exactly when some bucket cannot hold
      its share of the interval it set out to cover, and names such a bucket. It goes back no further than it must:
      when the forward range brings enough nullifiers nothing is backfilled, and above the last batch there were
      too few. */
  method InitialSync(chain: Chain, ghost heightOf: Hash -> nat, tipHeight: nat, targetSize: nat,
                     hashtable: HT.HashTableDb)
    returns (r: Result, start: nat)
    requires Sound(chain, heightOf, tipHeight) && hashtable.View() == EmptyTable()
    modifies hashtable
    ensures SyncOutcome(chain, hashtable.View(), start, tipHeight, r)
    ensures r.Ok? ==> StopsRight(chain, hashtable.View(), start, tipHeight, targetSize)
    ensures Floor(tipHeight) <= start && Needed(chain, start, ForwardStart(tipHeight), tipHeight, targetSize)
    ensures CountOver(chain, ForwardStart(tipHeight), tipHeight + 1) >= targetSize ==> start == ForwardStart(tipHeight)
  {
    var floor := WindowBootstrap.MinSyncHeight(tipHeight);
    r, start := SyncForward(chain, heightOf, tipHeight, floor, hashtable);
    ghost var forward := start;
    if r.Err? {
      return;
    }
    var backfillEnd := SaturatingSub(start, 1);
    while hashtable.numEntries < targetSize && backfillEnd >= floor
      invariant r.Ok? && floor <= start && backfillEnd == start - 1
      invariant Backfilled(chain, hashtable.View(), start, forward, tipHeight, targetSize, r)
      decreases backfillEnd
    {
      ghost var was := hashtable.View();
      r, start := SyncBatch(chain, heightOf, tipHeight, floor, backfillEnd, hashtable);
      NextBatchNeeded(chain, was, backfillEnd + 1, start, forward, tipHeight, targetSize);
      assert Backfilled(chain, hashtable.View(), start, forward, tipHeight, targetSize, r);
      EnoughForward(chain, start, forward, tipHeight, targetSize);
      if r.Err? {
        return;
      }
      if start == floor {
        break;
      }
      backfillEnd := SaturatingSub(start, 1);
    }
    Stops(chain, hashtable.View(), start, tipHeight, targetSize);
    EnoughForward(chain, start, forward, tipHeight, targetSize);
  }

  // The forward range: the last 50,000 heights below the tip, or those above the floor.
  method SyncForward(chain: Chain, ghost heightOf: Hash -> nat, tipHeight: nat, floor: nat, hashtable: HT.HashTableDb)
    returns (r: Result, start: nat)
    requires Sound(chain, heightOf, tipHeight) && hashtable.View() == EmptyTable()
    requires floor == WindowBootstrap.MinSyncHeight(tipHeight)
    modifies hashtable
    ensures start == ForwardStart(tipHeight) && floor == Floor(tipHeight) <= start
    ensures SyncOutcome(chain, hashtable.View(), start, tipHeight, r)
  {
    EmptyServes(chain, tipHeight);
    var initial := SaturatingSub(tipHeight, BACKFILL_BATCH);
    start := if initial > floor then initial else floor;
    r := SyncRange(chain, heightOf, tipHeight, start, tipHeight, hashtable);
    ForwardDone(chain, hashtable.View(), start, tipHeight, r);
  }

  // One batch of the backfill, just below what is synced and not below the floor.
  method SyncBatch(chain: Chain, ghost heightOf: Hash -> nat, ghost tip: nat, floor: nat, backfillEnd: nat,
                   hashtable: HT.HashTableDb)
    returns (r: Result, start: nat)
    requires Sound(chain, heightOf, tip) && Synced(chain, hashtable.View(), backfillEnd + 1, tip)
    requires floor <= backfillEnd <= tip
    modifies hashtable
    ensures floor <= start <= backfillEnd && (start == floor || start + 49_999 == backfillEnd)
    ensures backfillEnd <= start + 49_999
    ensures SyncOutcome(chain, hashtable.View(), start, tip, r)
  {
    var earliest := SaturatingSub(backfillEnd, BACKFILL_BATCH - 1);
    start := if earliest > floor then earliest else floor;
    ghost var was := hashtable.View();
    NoneBelow(chain, was, start, backfillEnd, tip);
    r := SyncRange(chain, heightOf, tip, start, backfillEnd, hashtable);
    BackfillDone(chain, was, hashtable.View(), start, backfillEnd, tip, r);
  }

  lemma NoneBelow(chain: Chain, t: Table, from: nat, to: nat, tip: nat)
    requires Synced(chain, t, to + 1, tip)
    ensures forall h :: from <= h <= to ==> h !in t.blockIndex
  {
  }

  lemma EmptyServes(chain: Chain, top: nat)
    ensures Serves(chain, EmptyTable(), top) && Live(EmptyTable()) == map[]
  {
    EmptyTableOk();
  }

  /** The start from a snapshot only syncs forward, from the height after the newest stored block, or from the tip
      when nothing is stored. */
  method ResumeSync(chain: Chain, ghost heightOf: Hash -> nat, ghost top: nat, tipHeight: nat,
                    hashtable: HT.HashTableDb)
    returns (r: Result, start: nat)
    requires Sound(chain, heightOf, top) && Serves(chain, hashtable.View(), top) && tipHeight <= top
    modifies hashtable
    ensures start == if old(hashtable.blockIndex) == map[] then tipHeight else Newest(old(hashtable.blockIndex)) + 1
    ensures RangeOutcome(chain, Live(old(hashtable.View())), hashtable.View(), top, start, tipHeight, r)
  {
    var latest := hashtable.LatestBlock();
    start := if latest.Some? then latest.value.0 + 1 else tipHeight;
    r := SyncRange(chain, heightOf, top, start, tipHeight, hashtable);
  }
}
