/** The follow loop's tree against the flat tree of all leaves. */
module FollowWindow {
  import opened Bytes
  import opened Merkle
  import opened Parsers
  import opened ChainTracker
  import opened FollowLoop
  import opened FollowLockstep
  import WB = WindowBootstrap
  import FollowGaps
  import CT = CommitmentTree

  // The leaves before the window, and those that the tree holds.
  function AllLeaves(t: CT.Tree, all: seq<Hash>): seq<Hash>
    requires t.leafOffset <= |all|
  {
    all[..t.leafOffset] + t.leaves
  }

  // The same window start.
  predicate SameStart(t: CT.Tree, u: CT.Tree) {
    u.leafOffset == t.leafOffset && u.prefetched == t.prefetched
  }

  lemma HandleKeepsStart(s: State, b: CompactBlock)
    requires Acceptable(s, b)
    ensures SameStart(s.tree, Handle(s, b).tree)
  {
  }

  lemma StepKeepsStart(g: BlockTree, states: seq<State>, bs: seq<CompactBlock>, n: nat)
    requires Follows(states, bs) && Lockstep(g, states[0]) && Ascending(g, states[0].currentHeight, bs) && n < |bs|
    ensures SameStart(states[n].tree, states[n + 1].tree)
  {
    FollowGaps.RunStep(g, states, bs, n);
    HandleKeepsStart(states[n], bs[n]);
  }

  lemma {:induction false} RunKeepsStart(g: BlockTree, states: seq<State>, bs: seq<CompactBlock>, n: nat)
    requires Follows(states, bs) && Lockstep(g, states[0]) && Ascending(g, states[0].currentHeight, bs) && n <= |bs|
    ensures SameStart(states[0].tree, states[n].tree)
    decreases n
  {
    if n > 0 {
      RunKeepsStart(g, states, bs, n - 1);
      StepKeepsStart(g, states, bs, n - 1);
    }
  }

  lemma StaysWindow(H: Hasher<Hash>, t: CT.Tree, u: CT.Tree, all: seq<Hash>)
    requires CT.WindowOf(H, t, all) && SameStart(t, u)
    ensures CT.WindowOf(H, u, AllLeaves(u, all)) && CT.Root(H, u) == Node(H, AllLeaves(u, all), 0, TREE_DEPTH, 0)
  {
    CT.WindowMoves(H, t, all, u);
    CT.WindowedRootIsFlat(H, u, AllLeaves(u, all));
  }

  /** Along any run, reorganisations included, a right window stays one, and the tree's root is that of the flat tree
      over the leaves before the window and those that the tree holds. */
  lemma RunStaysWindow(H: Hasher<Hash>, g: BlockTree, states: seq<State>, bs: seq<CompactBlock>, n: nat,
                       all: seq<Hash>)
    requires Follows(states, bs) && Lockstep(g, states[0]) && Ascending(g, states[0].currentHeight, bs) && n <= |bs|
    requires CT.WindowOf(H, states[0].tree, all)
    ensures states[n].tree.leafOffset == states[0].tree.leafOffset <= |all|
    ensures CT.WindowOf(H, states[n].tree, AllLeaves(states[n].tree, all))
    ensures CT.Root(H, states[n].tree) == Node(H, AllLeaves(states[n].tree, all), 0, TREE_DEPTH, 0)
  {
    RunKeepsStart(g, states, bs, n);
    StaysWindow(H, states[0].tree, states[n].tree, all);
  }

  lemma GainedLeaves(t: CT.Tree, u: CT.Tree, all: seq<Hash>, added: seq<Hash>)
    requires t.leafOffset <= |all| && t.leaves == all[t.leafOffset..] && FollowGaps.GainsLeaves(t, u, added)
    ensures AllLeaves(u, all) == all + added
  {
  }

  /** A batch that is one chain takes the root of all leaves so far to the root of these and the batch's leaves. */
  lemma ChainExtendsRoot(H: Hasher<Hash>, g: BlockTree, states: seq<State>, bs: seq<CompactBlock>, all: seq<Hash>)
    requires Follows(states, bs) && Lockstep(g, states[0]) && Ascending(g, states[0].currentHeight, bs)
    requires FollowGaps.Consecutive(states[0].currentHeight, bs) && FollowGaps.Chained(Tip(states[0]).hash, bs)
    requires CT.WindowOf(H, states[0].tree, all)
    ensures CT.WindowOf(H, states[|bs|].tree, all + WB.ChainLeaves(bs))
    ensures CT.Root(H, states[|bs|].tree) == Node(H, all + WB.ChainLeaves(bs), 0, TREE_DEPTH, 0)
  {
    FollowGaps.BatchLosesNothingIff(g, states, bs);
    GainedLeaves(states[0].tree, states[|bs|].tree, all, WB.ChainLeaves(bs));
    StaysWindow(H, states[0].tree, states[|bs|].tree, all);
  }
}
