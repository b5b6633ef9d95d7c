/** The standalone witness server's follow mode: the ingest side turns blocks into events, the server side
    applies them with the size check. */
module WitnessFollow {
  import opened Bytes
  import opened SpendTypes
  import opened Parsers
  import opened ChainTracker
  import opened WindowBootstrap
  import opened FollowLoop
  import CT = CommitmentTree
  import Db = CommitmentTreeDb

  datatype ChainEvent =
    | NewBlock(height: nat, hash: Hash, prevHash: Hash, commitments: seq<Hash>, priorTreeSize: Option<u32>)
    | ReorgTo(rollbackTo: nat)

  // ----- Emitting

  // A reorganisation is announced before its block, whose prior size is unknown.
  function EventsFor(chain: seq<Link>, prevTreeSize: Option<u32>, b: CompactBlock): seq<ChainEvent> {
    var hdr, commitments := HeaderOf(b), CommitmentsOf(b.vtx);
    match Push(chain, MAX_DEPTH, hdr).1
    case Extend => [NewBlock(hdr.height, hdr.hash, hdr.prevHash, commitments, prevTreeSize)]
    case Reorg(target) => [ReorgTo(target), NewBlock(hdr.height, hdr.hash, hdr.prevHash, commitments, None)]
  }

  function AllEvents(chain: seq<Link>, prevTreeSize: Option<u32>, bs: seq<CompactBlock>): seq<ChainEvent>
    decreases |bs|
  {
    if bs == [] then []
    else
      EventsFor(chain, prevTreeSize, bs[0])
      + AllEvents(Push(chain, MAX_DEPTH, HeaderOf(bs[0])).0, OrchardTreeSize(bs[0]), bs[1..])
  }

  method EmitEvents(tracker: ChainTracker, startTreeSize: Option<u32>, bs: seq<CompactBlock>)
    returns (events: seq<ChainEvent>)
    requires tracker.maxDepth == MAX_DEPTH
    modifies tracker
    ensures events == AllEvents(old(tracker.chain), startTreeSize, bs)
  {
    events := [];
    var prevTreeSize := startTreeSize;
    for i := 0 to |bs|
      invariant events + AllEvents(tracker.chain, prevTreeSize, bs[i..])
                  == AllEvents(old(tracker.chain), startTreeSize, bs)
    {
      assert bs[i..][1..] == bs[i + 1..];
      ghost var first := EventsFor(tracker.chain, prevTreeSize, bs[i]);
      ghost var rest := AllEvents(Push(tracker.chain, MAX_DEPTH, HeaderOf(bs[i])).0, OrchardTreeSize(bs[i]),
          bs[i + 1..]);
      Assoc(events, first, rest);
      var sent := EmitBlock(tracker, prevTreeSize, bs[i]);
      events := events + sent;
      prevTreeSize := OrchardTreeSize(bs[i]);
    }
  }

  method EmitBlock(tracker: ChainTracker, prevTreeSize: Option<u32>, b: CompactBlock) returns (sent: seq<ChainEvent>)
    requires tracker.maxDepth == MAX_DEPTH
    modifies tracker
    ensures sent == EventsFor(old(tracker.chain), prevTreeSize, b)
    ensures tracker.chain == Push(old(tracker.chain), MAX_DEPTH, HeaderOf(b)).0
  {
    var hdr := HeaderOf(b);
    var commitments := ExtractCommitments(b);
    var action := tracker.PushBlock(hdr);
    match action {
      case Extend =>
        sent := [NewBlock(hdr.height, hdr.hash, hdr.prevHash, commitments, prevTreeSize)];
      case Reorg(rollbackTo) =>
        sent := [ReorgTo(rollbackTo)];
        sent := sent + [NewBlock(hdr.height, hdr.hash, hdr.prevHash, commitments, None)];
    }
  }

  /** The events of a block name it and its parent, and carry its commitments. */
  lemma EventNamesBlock(chain: seq<Link>, prevTreeSize: Option<u32>, b: CompactBlock)
    ensures var es := EventsFor(chain, prevTreeSize, b);
            && 1 <= |es| <= 2 && (|es| == 2 ==> es[0].ReorgTo?) && es[|es| - 1].NewBlock?
            && es[|es| - 1].height == b.height && es[|es| - 1].hash == ToHashArray(b.hash)
            && es[|es| - 1].prevHash == ToHashArray(b.prevHash)
            && es[|es| - 1].commitments == CommitmentsOf(b.vtx)
  {
  }

  // ----- Applying

  function ApplyEvent(t: CT.Tree, e: ChainEvent): Result<CT.Tree> {
    match e
    case ReorgTo(target) => Ok(CT.Rollback(t, target))
    case NewBlock(height, hash, _, commitments, prior) =>
      var mismatch := ValidatePriorTreeSize(t, height, prior);
      if mismatch.Some? then Err(mismatch.value) else Ok(CT.Append(t, height, hash, commitments))
  }

  function ApplyEvents(t: CT.Tree, events: seq<ChainEvent>): Result<CT.Tree>
    decreases |events|
  {
    if events == [] then Ok(t)
    else
      var r := ApplyEvent(t, events[0]);
      if r.Err? then r else ApplyEvents(r.value, events[1..])
  }

  // The tree at which a stream ends, or stops.
  function EventsStop(t: CT.Tree, events: seq<ChainEvent>): CT.Tree
    decreases |events|
  {
    if events == [] || ApplyEvent(t, events[0]).Err? then t
    else EventsStop(ApplyEvent(t, events[0]).value, events[1..])
  }

  /** A stream that fails leaves the tree with the events before the block that it refuses. */
  lemma {:induction false} EventsStopBefore(t: CT.Tree, events: seq<ChainEvent>) returns (k: nat)
    ensures k <= |events| && ApplyEvents(t, events[..k]) == Ok(EventsStop(t, events))
    ensures ApplyEvents(t, events).Ok? ==> k == |events|
    ensures ApplyEvents(t, events).Err? ==> k < |events| && events[k].NewBlock?
    decreases |events|
  {
    k := 0;
    if events != [] && ApplyEvent(t, events[0]).Ok? {
      var n := EventsStopBefore(ApplyEvent(t, events[0]).value, events[1..]);
      k := n + 1;
      assert events[..k][1..] == events[1..][..n];
    }
  }

  method Serve(tree: Db.CommitmentTreeDb, events: seq<ChainEvent>) returns (failure: Option<ServerError>)
    requires tree.Valid()
    modifies tree
    ensures tree.Valid()
    ensures match ApplyEvents(old(tree.View()), events)
            case Ok(t) => failure.None? && tree.View() == t
            case Err(e) => failure == Some(e)
    ensures tree.View() == EventsStop(old(tree.View()), events)
  {
    for i := 0 to |events|
      invariant tree.Valid()
      invariant EventsStop(tree.View(), events[i..]) == EventsStop(old(tree.View()), events)
      invariant ApplyEvents(tree.View(), events[i..]) == ApplyEvents(old(tree.View()), events)
    {
      assert events[i..][1..] == events[i + 1..];
      match events[i] {
        case ReorgTo(rollbackTo) => tree.RollbackTo(rollbackTo);
        case NewBlock(height, hash, _, commitments, priorTreeSize) =>
          failure := ValidatePriorTreeSize(tree.View(), height, priorTreeSize);
          if failure.Some? {
            return;
          }
          tree.AppendCommitments(height, hash, commitments);
      }
    }
    failure := None;
  }

  // ----- Events against direct handling

  lemma {:induction false} ApplySplit(t: CT.Tree, a: seq<ChainEvent>, b: seq<ChainEvent>)
    ensures ApplyEvents(t, a + b) ==
              if ApplyEvents(t, a).Err? then ApplyEvents(t, a) else ApplyEvents(ApplyEvents(t, a).value, b)
    decreases |a|
  {
    if a == [] {
      assert a + b == b;
    } else {
      assert (a + b)[1..] == a[1..] + b;
      var r := ApplyEvent(t, a[0]);
      if r.Ok? {
        ApplySplit(r.value, a[1..], b);
      }
    }
  }

  // The size check of an extending block whose predecessor announced a size.
  predicate SizeChecks(s: State, b: CompactBlock) {
    Push(s.chain, MAX_DEPTH, HeaderOf(b)).1.Extend? && s.prevTreeSize.Some? ==> s.prevTreeSize.value == s.tree.Size()
  }

  // One block's events: rejected only by the size check, and otherwise what the block does to the tree.
  lemma OneBlockEvents(s: State, b: CompactBlock)
    ensures ApplyEvents(s.tree, EventsFor(s.chain, s.prevTreeSize, b))
            == if !SizeChecks(s, b) then Err(TreeSizeMismatch(b.height, s.prevTreeSize.value, s.tree.Size()))
               else Ok(CT.Append(TreeBase(s, b), b.height, ToHashArray(b.hash), CommitmentsOf(b.vtx)))
  {
    var events := EventsFor(s.chain, s.prevTreeSize, b);
    if |events| == 1 {
      OneEvent(s.tree, events[0]);
    } else {
      assert events[1..] == [events[1]];
      OneEvent(ApplyEvent(s.tree, events[0]).value, events[1]);
    }
  }

  lemma OneEvent(t: CT.Tree, e: ChainEvent)
    ensures ApplyEvents(t, [e]) == ApplyEvent(t, e)
  {
    assert [e][1..] == [];
  }

  // The combined loop handles each block of the batch.
  ghost predicate AllHandled(states: seq<State>, bs: seq<CompactBlock>) {
    && |states| == |bs| + 1
    && forall i :: 0 <= i < |bs| ==> HandledAt(states, bs, i)
  }

  ghost predicate HandledAt(states: seq<State>, bs: seq<CompactBlock>, i: nat)
    requires i < |bs| && i + 1 < |states|
  {
    Acceptable(states[i], bs[i]) && states[i + 1] == Handle(states[i], bs[i])
  }

  // The first size check that fails from block n on is that of block i, with this error.
  ghost predicate FailsAt(states: seq<State>, bs: seq<CompactBlock>, n: nat, i: nat, e: ServerError)
    requires |states| == |bs| + 1
  {
    && n <= i < |bs| && !SizeChecks(states[i], bs[i]) && (forall j :: n <= j < i ==> SizeChecks(states[j], bs[j]))
    && e == TreeSizeMismatch(bs[i].height, states[i].prevTreeSize.value, states[i].tree.Size())
  }

  function StreamFrom(s: State, bs: seq<CompactBlock>): Result<CT.Tree> {
    ApplyEvents(s.tree, AllEvents(s.chain, s.prevTreeSize, bs))
  }

  lemma StreamStep(s: State, bs: seq<CompactBlock>, u: State)
    requires bs != [] && Acceptable(s, bs[0]) && u == Handle(s, bs[0])
    ensures StreamFrom(s, bs)
            == if SizeChecks(s, bs[0]) then StreamFrom(u, bs[1..])
               else Err(TreeSizeMismatch(bs[0].height, s.prevTreeSize.value, s.tree.Size()))
  {
    OneBlockEvents(s, bs[0]);
    ApplySplit(s.tree, EventsFor(s.chain, s.prevTreeSize, bs[0]), AllEvents(u.chain, u.prevTreeSize, bs[1..]));
  }

  // The outcome of the stream from block n on, in terms of the combined loop's states.
  ghost predicate StreamOutcome(states: seq<State>, bs: seq<CompactBlock>, n: nat, r: Result<CT.Tree>)
    requires |states| == |bs| + 1
  {
    && (r.Ok? <==> forall i :: n <= i < |bs| ==> SizeChecks(states[i], bs[i]))
    && (r.Ok? ==> r.value == states[|bs|].tree)
    && (r.Err? ==> exists i: nat :: FailsAt(states, bs, n, i, r.error))
  }

  /** The event stream does what the combined loop does directly, as long as its size checks pass. It succeeds
      exactly when, at each extending block, the tree has the size that the block before announced; then it ends
      with the combined loop's tree. Otherwise it stops at the first block where that fails. */
  lemma {:induction false} EventsMatchCombined(states: seq<State>, bs: seq<CompactBlock>, n: nat)
    requires AllHandled(states, bs) && n <= |bs|
    ensures StreamOutcome(states, bs, n, StreamFrom(states[n], bs[n..]))
    decreases |bs| - n
  {
    if n < |bs| {
      assert HandledAt(states, bs, n) && bs[n..][1..] == bs[n + 1..];
      StreamStep(states[n], bs[n..], states[n + 1]);
      EventsMatchCombined(states, bs, n + 1);
      MatchStep(states, bs, n, StreamFrom(states[n], bs[n..]), StreamFrom(states[n + 1], bs[n + 1..]));
    }
  }

  lemma MatchStep(states: seq<State>, bs: seq<CompactBlock>, n: nat, r: Result<CT.Tree>, later: Result<CT.Tree>)
    requires |states| == |bs| + 1 && n < |bs| && StreamOutcome(states, bs, n + 1, later)
    requires r == if SizeChecks(states[n], bs[n]) then later
                  else Err(TreeSizeMismatch(bs[n].height, states[n].prevTreeSize.value, states[n].tree.Size()))
    ensures StreamOutcome(states, bs, n, r)
  {
    if !SizeChecks(states[n], bs[n]) {
      assert FailsAt(states, bs, n, n, r.error);
    } else if r.Err? {
      var i: nat :| FailsAt(states, bs, n + 1, i, r.error);
      assert FailsAt(states, bs, n, i, r.error);
    }
  }
}
