/** Merkle subtrees, the server's root algorithms, and what roots bind. */
module Merkle {

  /** The protocol's node hash; `combine` is indexed by the level of its operands, counted from the leaves. */
  datatype Hasher<!T> = Hasher(combine: (nat, T, T) -> T, emptyLeaf: T)

  const TREE_DEPTH: nat := 32

  function Pow2(k: nat): (r: nat)
    ensures r >= 1
  {
    if k == 0 then 1 else 2 * Pow2(k - 1)
  }

  // The first cell below the i-th node h levels up, that is i * 2^h, by doubling.
  function First(h: nat, i: nat): nat
    decreases h, i
  {
    if h == 0 then i else First(h - 1, 2 * i)
  }

  lemma {:induction false} FirstAdd(h: nat, i: nat, j: nat)
    ensures First(h, i + j) == First(h, i) + First(h, j)
    decreases h
  {
    if h > 0 {
      FirstAdd(h - 1, 2 * i, 2 * j);
      assert 2 * (i + j) == 2 * i + 2 * j;
    }
  }

  // Consecutive nodes start 2^h cells apart.
  lemma {:induction false} FirstStep(h: nat, i: nat)
    ensures First(h, i + 1) == First(h, i) + Pow2(h)
    decreases h
  {
    if h > 0 {
      FirstStep(h - 1, 2 * i);
      FirstStep(h - 1, 2 * i + 1);
    }
  }

  lemma {:induction false} FirstZero(h: nat)
    ensures First(h, 0) == 0
  {
    if h > 0 {
      FirstZero(h - 1);
    }
  }

  lemma {:induction false} FirstMul(h: nat, i: nat)
    ensures First(h, i) == i * Pow2(h)
    decreases h
  {
    if h > 0 {
      FirstMul(h - 1, 2 * i);
    }
  }

  lemma Pow2Values()
    ensures Pow2(0) == 1 && Pow2(8) == 256 && Pow2(16) == 65536
  {
    assert Pow2(4) == 16;
    assert Pow2(8) == 256;
    assert Pow2(12) == 4096;
  }

  // Node i starts 256 (65,536) cells into the row, 8 (16) levels up.
  lemma First8(i: nat)
    ensures First(8, i) == 256 * i
  {
    Pow2Values();
    FirstMul(8, i);
  }

  lemma First16(i: nat)
    ensures First(16, i) == 65536 * i
  {
    Pow2Values();
    FirstMul(16, i);
  }

  lemma {:induction false} FirstFirst(l: nat, m: nat, i: nat)
    ensures First(l, First(m, i)) == First(l + m, i)
    decreases m
  {
    if m > 0 {
      FirstFirst(l, m - 1, 2 * i);
    }
  }

  // 2^(n - h) nodes of level h lie over 2^n cells.
  lemma PowerEnd(h: nat, n: nat)
    requires h <= n
    ensures First(h, Pow2(n - h)) == Pow2(n)
  {
    FirstStep(n - h, 0);
    FirstZero(n - h);
    FirstFirst(h, n - h, 1);
    FirstStep(n, 0);
    FirstZero(n);
  }

  lemma {:induction false} FirstMono(h: nat, i: nat, j: nat)
    requires i <= j
    ensures First(h, i) <= First(h, j)
    decreases h
  {
    if h > 0 {
      FirstMono(h - 1, 2 * i, 2 * j);
    }
  }

  // The two children of a node share its cells, half each.
  lemma Halves(h: nat, i: nat)
    requires h > 0
    ensures First(h, i) == First(h - 1, 2 * i)
    ensures First(h - 1, 2 * i + 1) == First(h, i) + Pow2(h - 1)
    ensures First(h, i + 1) == First(h - 1, 2 * i + 2) == First(h - 1, 2 * i + 1) + Pow2(h - 1)
  {
    FirstStep(h - 1, 2 * i);
    FirstStep(h - 1, 2 * i + 1);
  }

  function EmptyRoot<T>(H: Hasher<T>, h: nat): T
  {
    if h == 0 then H.emptyLeaf else H.combine(h - 1, EmptyRoot(H, h - 1), EmptyRoot(H, h - 1))
  }

  // Cell i of a row of level-b digests; positions past the row are empty subtrees.
  function At<T>(H: Hasher<T>, row: seq<T>, b: nat, i: nat): T
  {
    if i < |row| then row[i] else EmptyRoot(H, b)
  }

  // The reference tree: node i, h levels above a row of level-b digests. (Row and index take
  // part in the measure so that the verifier does not unfold the definition at constant heights.)
  function Node<T>(H: Hasher<T>, row: seq<T>, b: nat, h: nat, i: nat): T
    decreases h, |row|, i
  {
    if h == 0 then At(H, row, b, i)
    else H.combine(b + h - 1, Node(H, row, b, h - 1, 2 * i), Node(H, row, b, h - 1, 2 * i + 1))
  }

  // ----- Structure of the reference tree

  lemma {:induction false} NodeEmpty<T>(H: Hasher<T>, row: seq<T>, b: nat, h: nat, i: nat)
    requires |row| <= First(h, i)
    ensures Node(H, row, b, h, i) == EmptyRoot(H, b + h)
    decreases h
  {
    if h > 0 {
      Halves(h, i);
      NodeEmpty(H, row, b, h - 1, 2 * i);
      NodeEmpty(H, row, b, h - 1, 2 * i + 1);
    }
  }

  // Cells lo..hi of `tier` (a row of level-c digests) are the level-g nodes of `row` from index `to` on.
  ghost predicate Carries<T>(H: Hasher<T>, tier: seq<T>, c: nat, row: seq<T>, b: nat, g: nat, lo: nat, hi: nat, to: nat)
  {
    forall x: nat :: lo <= x < hi ==> At(H, tier, c, x) == Node(H, row, b, g, to + (x - lo))
  }

  /** A row whose cells are level-g nodes of another row carries the same subtrees, g levels up. */
  lemma {:induction false} Graft<T>(H: Hasher<T>, tier: seq<T>, row: seq<T>, b: nat, g: nat, h: nat, i: nat, j: nat)
    requires Carries(H, tier, b + g, row, b, g, First(h, i), First(h, i + 1), First(h, j))
    ensures Node(H, tier, b + g, h, i) == Node(H, row, b, g + h, j)
    decreases h
  {
    if h == 0 {
      assert At(H, tier, b + g, i) == Node(H, row, b, g, j + (i - i));
    } else {
      Halves(h, i);
      Halves(h, j);
      Graft(H, tier, row, b, g, h - 1, 2 * i, 2 * j);
      Graft(H, tier, row, b, g, h - 1, 2 * i + 1, 2 * j + 1);
    }
  }

  // Cells lo..hi of s are the cells of t from index `to` on.
  ghost predicate SameCells<T>(H: Hasher<T>, s: seq<T>, t: seq<T>, b: nat, lo: nat, hi: nat, to: nat)
  {
    forall x: nat :: lo <= x < hi ==> At(H, s, b, x) == At(H, t, b, to + (x - lo))
  }

  /** Rows that agree on the cells below a node have the same node. */
  lemma {:induction false} NodeAgree<T>(H: Hasher<T>, s: seq<T>, t: seq<T>, b: nat, h: nat, i: nat, j: nat)
    requires SameCells(H, s, t, b, First(h, i), First(h, i + 1), First(h, j))
    ensures Node(H, s, b, h, i) == Node(H, t, b, h, j)
    decreases h
  {
    if h == 0 {
      assert At(H, s, b, i) == At(H, t, b, j + (i - i));
    } else {
      Halves(h, i);
      Halves(h, j);
      NodeAgree(H, s, t, b, h - 1, 2 * i, 2 * j);
      NodeAgree(H, s, t, b, h - 1, 2 * i + 1, 2 * j + 1);
    }
  }

  /** A full tier of 2^n consecutive level-g nodes, the R-th such block, carries their common ancestors. */
  lemma TierNode<T>(H: Hasher<T>, tier: seq<T>, row: seq<T>, b: nat, g: nat, n: nat, R: nat, l: nat, i: nat)
    requires l <= n && i < Pow2(n - l) && |tier| == Pow2(n)
    requires forall x: nat :: x < |tier| ==> tier[x] == Node(H, row, b, g, First(n, R) + x)
    ensures Node(H, tier, b + g, l, i) == Node(H, row, b, g + l, First(n - l, R) + i)
  {
    var j := First(n - l, R) + i;
    assert First(l, j) == First(n, R) + First(l, i) by {
      FirstAdd(l, First(n - l, R), i);
      FirstFirst(l, n - l, R);
    }
    assert First(l, i + 1) <= |tier| by {
      FirstMono(l, i + 1, Pow2(n - l));
      FirstStep(n - l, 0);
      FirstZero(n - l);
      FirstFirst(l, n - l, 1);
      FirstStep(n, 0);
      FirstZero(n);
    }
    FirstMono(l, i, i + 1);
    var lo, hi, to, c := First(l, i), First(l, i + 1), First(l, j), b + g;
    forall x: nat | lo <= x < hi
      ensures At(H, tier, c, x) == Node(H, row, b, g, to + (x - lo))
    {
      assert to + (x - lo) == First(n, R) + x;
    }
    Graft(H, tier, row, b, g, l, i, j);
  }

  // ----- What a root says about the row below it

  // A witnessed hash collision: two different child pairs at the same level with the same parent.
  ghost predicate Clash<T>(H: Hasher<T>, s: seq<T>, t: seq<T>, b: nat, h: nat, i: nat)
  {
    && Node(H, s, b, h + 1, i) == Node(H, t, b, h + 1, i)
    && (Node(H, s, b, h, 2 * i) != Node(H, t, b, h, 2 * i)
        || Node(H, s, b, h, 2 * i + 1) != Node(H, t, b, h, 2 * i + 1))
  }

  // Node i' at level h' lies under node i at level h.
  predicate Under(h: nat, i: nat, h': nat, i': nat) {
    h' <= h && First(h - h', i) <= i' < First(h - h', i + 1)
  }

  // A collision among the hashes that make up node i, that is at a node under it or at the node itself.
  ghost predicate SomeClash<T>(H: Hasher<T>, s: seq<T>, t: seq<T>, b: nat, h: nat, i: nat)
  {
    exists h': nat, i': nat :: Under(h, i, h' + 1, i') && Clash(H, s, t, b, h', i')
  }

  // What lies under a child lies under its parent.
  lemma ChildUnder(h: nat, i: nat, c: nat, h': nat, i': nat)
    requires h > 0 && 2 * i <= c <= 2 * i + 1 && Under(h - 1, c, h', i')
    ensures Under(h, i, h', i')
  {
    FirstMono(h - 1 - h', 2 * i, c);
    FirstMono(h - 1 - h', c + 1, 2 * i + 2);
    assert First(h - h', i) == First(h - h' - 1, 2 * i) && First(h - h', i + 1) == First(h - h' - 1, 2 * (i + 1));
  }

  lemma ChildClash<T>(H: Hasher<T>, s: seq<T>, t: seq<T>, b: nat, h: nat, i: nat, c: nat)
    requires h > 0 && 2 * i <= c <= 2 * i + 1 && SomeClash(H, s, t, b, h - 1, c)
    ensures SomeClash(H, s, t, b, h, i)
  {
    var h': nat, i': nat :| Under(h - 1, c, h' + 1, i') && Clash(H, s, t, b, h', i');
    ChildUnder(h, i, c, h' + 1, i');
  }

  /** Equal subtree roots bind every cell below, or the two trees exhibit a collision of `combine` among the very
      hashes that make up the root. */
  lemma {:induction false} Binding<T>(H: Hasher<T>, s: seq<T>, t: seq<T>, b: nat, h: nat, i: nat, x: nat)
    requires Node(H, s, b, h, i) == Node(H, t, b, h, i)
    requires First(h, i) <= x < First(h, i + 1)
    ensures At(H, s, b, x) == At(H, t, b, x) || SomeClash(H, s, t, b, h, i)
    decreases h
  {
    if h > 0 {
      if Clash(H, s, t, b, h - 1, i) {
        assert Under(h, i, h - 1 + 1, i);
      } else {
        Halves(h, i);
        var c := if x < First(h - 1, 2 * i + 1) then 2 * i else 2 * i + 1;
        Binding(H, s, t, b, h - 1, c, x);
        if SomeClash(H, s, t, b, h - 1, c) {
          ChildClash(H, s, t, b, h, i, c);
        }
      }
    }
  }

  // ----- Empty roots

  method PrecomputeEmptyRoots<T>(H: Hasher<T>) returns (roots: seq<T>)
    ensures |roots| == TREE_DEPTH + 1
    ensures forall h :: 0 <= h <= TREE_DEPTH ==> roots[h] == EmptyRoot(H, h)
  {
    roots := [H.emptyLeaf];
    var current := H.emptyLeaf;
    for level := 0 to TREE_DEPTH
      invariant |roots| == level + 1
      invariant forall h :: 0 <= h <= level ==> roots[h] == EmptyRoot(H, h)
      invariant current == EmptyRoot(H, level)
    {
      current := H.combine(level, current, current);
      roots := roots + [current];
    }
  }

  // ----- Bottom-up root of a complete subtree

  method CombinePairs<T>(H: Hasher<T>, level: nat, current: seq<T>) returns (next: seq<T>)
    ensures |next| == |current| / 2
    ensures forall i :: 0 <= i < |next| ==> next[i] == H.combine(level, current[2 * i], current[2 * i + 1])
  {
    next := [];
    while 2 * |next| + 1 < |current|
      invariant 2 * |next| <= |current|
      invariant forall i :: 0 <= i < |next| ==> next[i] == H.combine(level, current[2 * i], current[2 * i + 1])
    {
      next := next + [H.combine(level, current[2 * |next|], current[2 * |next| + 1])];
    }
  }

  method CompleteSubtreeRoot<T>(H: Hasher<T>, leaves: seq<T>, baseLevel: nat, ghost k: nat) returns (root: T)
    requires |leaves| == Pow2(k)
    ensures root == Node(H, leaves, baseLevel, k, 0)
  {
    if |leaves| == 1 {
      assert k == 0;
      return leaves[0];
    }
    var current := leaves;
    var level := baseLevel;
    ghost var j := 0;
    while |current| > 1
      invariant j <= k && level == baseLevel + j && |current| == Pow2(k - j)
      invariant forall i: nat :: i < |current| ==> current[i] == Node(H, leaves, baseLevel, j, i)
      decreases |current|
    {
      current := CombinePairs(H, level, current);
      level := level + 1;
      j := j + 1;
    }
    assert j == k;
    root := current[0];
  }

  // ----- Pruned recursion over a left-packed row

  predicate IsPow2(n: nat)
  {
    n == 1 || (n > 1 && n % 2 == 0 && IsPow2(n / 2))
  }

  function TrailingZeros(n: nat): nat
    requires n > 0
  {
    if n % 2 == 1 then 0 else 1 + TrailingZeros(n / 2)
  }

  lemma {:induction false} TrailingZerosPow2(k: nat)
    ensures IsPow2(Pow2(k)) && TrailingZeros(Pow2(k)) == k
  {
    if k > 0 {
      TrailingZerosPow2(k - 1);
      assert Pow2(k) / 2 == Pow2(k - 1);
    }
  }

  function SparseRootRec<T>(H: Hasher<T>, emptyRoots: seq<T>, leaves: seq<T>, offset: nat, size: nat, baseLevel: nat): T
    requires IsPow2(size) && baseLevel + TrailingZeros(size) < |emptyRoots|
    decreases size + |leaves|
  {
    if size == 1 then
      if offset < |leaves| then leaves[offset] else emptyRoots[baseLevel]
    else
      var half := size / 2;
      var combineLevel := baseLevel + TrailingZeros(half);
      var left := SparseRootRec(H, emptyRoots, leaves, offset, half, baseLevel);
      var right :=
        if offset + half >= |leaves| then emptyRoots[combineLevel]
        else SparseRootRec(H, emptyRoots, leaves, offset + half, half, baseLevel);
      H.combine(combineLevel, left, right)
  }

  ghost predicate EmptyRootTable<T>(H: Hasher<T>, emptyRoots: seq<T>)
  {
    forall h :: 0 <= h < |emptyRoots| ==> emptyRoots[h] == EmptyRoot(H, h)
  }

  lemma HalfOf(size: nat, k: nat) returns (half: nat)
    requires k > 0 && IsPow2(size) && TrailingZeros(size) == k && size == Pow2(k)
    ensures size > 1 && half == size / 2 == Pow2(k - 1)
    ensures IsPow2(half) && TrailingZeros(half) == k - 1
  {
    half := size / 2;
  }

  /** The pruned recursion, with its precomputed empty roots, computes the reference node. */
  lemma {:induction false} SparseRootIsNode<T>(H: Hasher<T>, emptyRoots: seq<T>, leaves: seq<T>, size: nat, k: nat,
                                               i: nat, b: nat)
    requires EmptyRootTable(H, emptyRoots) && b + k < |emptyRoots|
    requires IsPow2(size) && TrailingZeros(size) == k && size == Pow2(k)
    ensures SparseRootRec(H, emptyRoots, leaves, First(k, i), size, b) == Node(H, leaves, b, k, i)
    decreases k
  {
    if k > 0 {
      var half := HalfOf(size, k);
      Halves(k, i);
      SparseRootIsNode(H, emptyRoots, leaves, half, k - 1, 2 * i, b);
      if First(k, i) + half >= |leaves| {
        NodeEmpty(H, leaves, b, k - 1, 2 * i + 1);
      } else {
        SparseRootIsNode(H, emptyRoots, leaves, half, k - 1, 2 * i + 1, b);
      }
    }
  }

  // ----- Authentication paths

  // The ancestor of position p, h levels up (h halvings), and the other child of a node's parent.
  function Up(p: nat, h: nat): nat
    decreases h + p
  {
    if h == 0 then p else Up(p, h - 1) / 2
  }

  function Sib(i: nat): nat
  {
    if i % 2 == 0 then i + 1 else i - 1
  }

  lemma {:induction false} UpSplit(R: nat, x: nat, n: nat, h: nat)
    requires h <= n
    ensures Up(First(n, R) + x, h) == First(n - h, R) + Up(x, h)
    ensures x < Pow2(n) ==> Up(x, h) < Pow2(n - h)
    decreases h
  {
    if h > 0 {
      UpSplit(R, x, n, h - 1);
      FirstAdd(n - h, R, R);
      assert First(n - h + 1, R) == First(n - h, R + R);
    }
  }

  // An even start does not change which of two children a node is.
  lemma SibShift(e: nat, y: nat)
    requires e % 2 == 0
    ensures Sib(e + y) == e + Sib(y)
  {
    assert (e + y) % 2 == y % 2;
  }

  lemma SibBelow(y: nat, n: nat)
    requires y < n && n % 2 == 0
    ensures Sib(y) < n
  {
  }

  // Siblings split the same way, because the first cell of a proper ancestor is even.
  lemma SibSplit(R: nat, x: nat, n: nat, h: nat)
    requires h < n
    ensures Sib(Up(First(n, R) + x, h)) == First(n - h, R) + Sib(Up(x, h))
    ensures x < Pow2(n) ==> Sib(Up(x, h)) < Pow2(n - h)
  {
    UpSplit(R, x, n, h);
    FirstEven(n - h, R);
    SibShift(First(n - h, R), Up(x, h));
    if x < Pow2(n) {
      SibBelow(Up(x, h), Pow2(n - h));
    }
  }

  lemma FirstEven(h: nat, i: nat)
    requires h > 0
    ensures First(h, i) % 2 == 0 && Pow2(h) % 2 == 0
  {
    FirstAdd(h - 1, i, i);
    assert First(h, i) == First(h - 1, i + i) == 2 * First(h - 1, i);
    assert Pow2(h) == 2 * Pow2(h - 1);
  }

  lemma {:induction false} UpUp(p: nat, g: nat, h: nat)
    ensures Up(Up(p, g), h) == Up(p, g + h)
    decreases h
  {
    if h > 0 {
      UpUp(p, g, h - 1);
    }
  }

  // The digest reached from a leaf after h levels of a sibling path.
  function PathNode<T>(H: Hasher<T>, leaf: T, siblings: seq<T>, p: nat, h: nat): T
    requires h <= |siblings|
    decreases h + |siblings|
  {
    if h == 0 then leaf
    else
      var below := PathNode(H, leaf, siblings, p, h - 1);
      if Up(p, h - 1) % 2 == 0 then H.combine(h - 1, below, siblings[h - 1])
      else H.combine(h - 1, siblings[h - 1], below)
  }
}
