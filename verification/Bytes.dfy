/** What every wire format shares: bytes, 32-byte digests, the little-endian integer codec, rows of digests as
    flat bytes, and the few facts on cutting and joining sequences that the snapshot formats are proved with. The
    lemmas are small on purpose, so that no proof reasons about positions. */
module Bytes {
  type byte = x: int | 0 <= x < 256

  type Hash = s: seq<byte> | |s| == 32 witness seq(32, _ => 0)

  datatype Option<+T> = None | Some(value: T)

  function ZeroHash(): Hash {
    Zeros(32)
  }

  const U32: nat := 0x1_0000_0000
  const U64: nat := 0x1_0000_0000_0000_0000

  type u64 = x: nat | x < U64

  // A Rust `as u32` cast keeps the low 32 bits.
  function AsU32(n: nat): (r: nat)
    ensures r < U32
    ensures n < U32 ==> r == n
  {
    n % U32
  }

  function SaturatingSub(a: nat, b: nat): nat {
    if a < b then 0 else a - b
  }

  function Pow256(k: nat): (r: nat)
    ensures r >= 1
  {
    if k == 0 then 1 else 256 * Pow256(k - 1)
  }

  // (As in Merkle, the measures below name a second argument only to keep constants folded.)
  function LE(n: nat, k: nat): (s: seq<byte>)
    ensures |s| == k
    decreases k, n
  {
    if k == 0 then [] else [n % 256] + LE(n / 256, k - 1)
  }

  function FromLE(s: seq<byte>): (n: nat)
    ensures n < Pow256(|s|)
  {
    if s == [] then 0 else s[0] + 256 * FromLE(s[1..])
  }

  lemma {:induction false} LERoundTrip(n: nat, k: nat)
    requires n < Pow256(k)
    ensures FromLE(LE(n, k)) == n
    decreases k
  {
    if k > 0 {
      LERoundTrip(n / 256, k - 1);
      assert LE(n, k)[1..] == LE(n / 256, k - 1);
    }
  }

  lemma ByteSplit(a: byte, m: nat)
    ensures (a + 256 * m) % 256 == a && (a + 256 * m) / 256 == m
  {
  }

  lemma {:induction false} FromLERoundTrip(s: seq<byte>)
    ensures LE(FromLE(s), |s|) == s
  {
    if s != [] {
      FromLERoundTrip(s[1..]);
      ByteSplit(s[0], FromLE(s[1..]));
      assert s == [s[0]] + s[1..];
    }
  }

  lemma LE4(n: nat)
    requires n < U32
    ensures FromLE(LE(n, 4)) == n
  {
    assert Pow256(4) == U32;
    LERoundTrip(n, 4);
  }

  lemma LE8(n: nat)
    requires n < U64
    ensures FromLE(LE(n, 8)) == n
  {
    assert Pow256(8) == U64;
    LERoundTrip(n, 8);
  }

  function Zeros(n: nat): (s: seq<byte>)
    ensures |s| == n
  {
    seq(n, _ => 0)
  }

  // ----- Rows of digests as flat bytes

  function Concat(hs: seq<Hash>): (s: seq<byte>)
    ensures |s| == 32 * |hs|
  {
    if hs == [] then [] else Concat(hs[..|hs| - 1]) + hs[|hs| - 1]
  }

  lemma {:induction false} ConcatAppend(a: seq<Hash>, b: seq<Hash>)
    ensures Concat(a + b) == Concat(a) + Concat(b)
  {
    if b == [] {
      assert a + b == a;
    } else {
      var c := b[..|b| - 1];
      ConcatAppend(a, c);
      assert (a + b)[..|a + b| - 1] == a + c;
    }
  }

  lemma {:induction false} ConcatAt(hs: seq<Hash>, k: nat)
    requires k < |hs|
    ensures Sub(Concat(hs), 32 * k, 32) == hs[k]
  {
    var init := hs[..|hs| - 1];
    if k < |hs| - 1 {
      ConcatAt(init, k);
      AppendKeeps(Concat(init), hs[|hs| - 1], 32 * k, 32);
    } else {
      AppendEnds(Concat(init), hs[k]);
    }
  }

  // ----- Reading at a position

  // The n cells of data from pos on.
  function Sub<T>(data: seq<T>, pos: nat, n: nat): (r: seq<T>)
    requires pos + n <= |data|
    ensures |r| == n
  {
    data[pos..pos + n]
  }

  lemma AppendKeeps<T>(a: seq<T>, b: seq<T>, pos: nat, n: nat)
    requires pos + n <= |a|
    ensures Sub(a + b, pos, n) == Sub(a, pos, n)
  {
  }

  lemma AppendEnds<T>(a: seq<T>, b: seq<T>)
    ensures Sub(a + b, |a|, |b|) == b
  {
  }

  // Cutting a concatenation at the seam.
  lemma Seam<T>(a: seq<T>, b: seq<T>)
    ensures (a + b)[..|a|] == a && (a + b)[|a|..] == b
  {
  }

  lemma Assoc<T>(a: seq<T>, b: seq<T>, c: seq<T>)
    ensures (a + b) + c == a + (b + c)
  {
  }

  // Where the parts of a concatenation stand.
  lemma ThreeParts<T>(a: seq<T>, b: seq<T>, c: seq<T>)
    ensures var s := a + (b + c);
            s[..|a|] == a && s[|a|..|a| + |b|] == b && s[|a| + |b|..] == c
  {
  }

  lemma PartAfter<T>(a: seq<T>, b: seq<T>, i: nat, j: nat)
    requires i <= j <= |b|
    ensures (a + b)[|a| + i..|a| + j] == b[i..j]
  {
  }

  // Dropping step by step.
  lemma DropDrop<T>(s: seq<T>, i: nat, j: nat)
    requires i + j <= |s|
    ensures s[i..][j..] == s[i + j..]
  {
  }

  // ----- Reading a counter off the front

  function U64Of(s: seq<byte>): nat
    requires |s| >= 8
  {
    FromLE(s[..8])
  }

  lemma U64Bound(s: seq<byte>)
    requires |s| >= 8
    ensures U64Of(s) < U64
  {
    assert Pow256(8) == U64;
  }

  lemma U64RoundTrip(n: nat, rest: seq<byte>)
    requires n < U64
    ensures U64Of(LE(n, 8) + rest) == n && (LE(n, 8) + rest)[8..] == rest
  {
    Seam(LE(n, 8), rest);
    LE8(n);
  }
}
