/** Byte strings, big-endian integers and length-prefixed framing. */
module Bytes {

  type byte = x: int | 0 <= x < 256

  type bytes = seq<byte>

  type u32 = x: int | 0 <= x < 0x1_0000_0000

  /** Rust's bound on the length of any slice, on a target with 64-bit pointers. */
  const ISIZE_MAX: nat := 0x7fff_ffff_ffff_ffff

  function Ascii(s: string): (b: bytes)
    ensures |b| == |s|
  {
    seq(|s|, i requires 0 <= i < |s| => if s[i] < 256 as char then s[i] as int else 0)
  }

  /** Two different inputs with the same hash. */
  ghost predicate Collision<T>(f: bytes -> T, x: bytes, y: bytes) { x != y && f(x) == f(y) }

  function Pow256(w: nat): (p: nat)
    ensures p > 0
  {
    if w == 0 then 1 else 256 * Pow256(w - 1)
  }

  /** The low `w` bytes of `n`, most significant first: a cast to w bytes followed by `to_be_bytes`. */
  function BigEndian(n: nat, w: nat): (b: bytes)
    ensures |b| == w
  {
    if w == 0 then [] else BigEndian(n / 256, w - 1) + [n % 256]
  }

  /** The number a byte string denotes in big-endian order (`from_be_bytes`). */
  function Value(b: bytes): nat {
    if b == [] then 0 else 256 * Value(b[..|b| - 1]) + b[|b| - 1]
  }

  /** The number a byte string denotes in little-endian order. */
  function LittleValue(b: bytes): nat {
    if b == [] then 0 else b[0] + 256 * LittleValue(b[1..])
  }

  /** A length prefix of `w` bytes followed by the string itself. */
  function Frame(w: nat, b: bytes): (f: bytes)
    ensures |f| == w + |b|
  {
    BigEndian(|b|, w) + b
  }

  lemma PowFour()
    ensures Pow256(4) == 0x1_0000_0000
  {
    assert Pow256(2) == 65536;
    assert Pow256(3) == 256 * Pow256(2);
  }

  lemma PowEight()
    ensures Pow256(8) == 0x1_0000_0000_0000_0000
  {
    PowFour();
    assert Pow256(5) == 256 * Pow256(4);
    assert Pow256(6) == 256 * Pow256(5);
    assert Pow256(7) == 256 * Pow256(6);
  }

  // ---------------------------------------------------------------- round trips

  lemma {:induction false} ValueOfBigEndian(n: nat, w: nat)
    requires n < Pow256(w)
    ensures Value(BigEndian(n, w)) == n
  {
    if w > 0 {
      ValueOfBigEndian(n / 256, w - 1);
      assert BigEndian(n, w)[..w - 1] == BigEndian(n / 256, w - 1);
    }
  }

  lemma {:induction false} BigEndianOfValue(b: bytes)
    ensures Value(b) < Pow256(|b|)
    ensures BigEndian(Value(b), |b|) == b
  {
    if b != [] {
      BigEndianOfValue(b[..|b| - 1]);
    }
  }

  lemma {:induction false} BigEndianTruncates(n: nat, w: nat)
    ensures BigEndian(n + Pow256(w), w) == BigEndian(n, w)
  {
    if w > 0 {
      var p := Pow256(w - 1);
      BigEndianTruncates(n / 256, w - 1);
      assert (n + 256 * p) / 256 == n / 256 + p && (n + 256 * p) % 256 == n % 256;
    }
  }

  lemma BigEndianInjective(m: nat, n: nat, w: nat)
    requires m < Pow256(w) && n < Pow256(w)
    ensures BigEndian(m, w) == BigEndian(n, w) <==> m == n
  {
    ValueOfBigEndian(m, w);
    ValueOfBigEndian(n, w);
  }

  function Reversed(b: bytes): (r: bytes)
    ensures |r| == |b|
  {
    if b == [] then [] else Reversed(b[1..]) + [b[0]]
  }

  /** Little-endian is big-endian read backwards. */
  lemma {:induction false} LittleValueReverses(b: bytes)
    ensures LittleValue(b) == Value(Reversed(b))
  {
    if b != [] {
      LittleValueReverses(b[1..]);
      assert Reversed(b)[..|b| - 1] == Reversed(b[1..]);
    }
  }

  /** And tells byte strings of one length apart. */
  lemma {:induction false} LittleValueInjective(a: bytes, b: bytes)
    requires |a| == |b|
    ensures LittleValue(a) == LittleValue(b) <==> a == b
  {
    if a != [] {
      LittleValueInjective(a[1..], b[1..]);
      assert a == [a[0]] + a[1..] && b == [b[0]] + b[1..];
    }
  }

  // ---------------------------------------------------------------- framing

  lemma PrefixesAgree(a: bytes, x: bytes, b: bytes, y: bytes)
    requires a + x == b + y && |a| == |b|
    ensures a == b && x == y
  {
    assert a == (a + x)[..|a|] && b == (b + y)[..|b|];
    assert x == (a + x)[|a|..] && y == (b + y)[|b|..];
  }

  /** A frame can be split off in one way only, as long as its length fits the prefix. */
  lemma FrameSplits(w: nat, a: bytes, x: bytes, b: bytes, y: bytes)
    requires |a| < Pow256(w) && |b| < Pow256(w)
    requires Frame(w, a) + x == Frame(w, b) + y
    ensures a == b && x == y
  {
    var l, m := BigEndian(|a|, w), BigEndian(|b|, w);
    assert Frame(w, a) + x == l + (a + x) && Frame(w, b) + y == m + (b + y);
    PrefixesAgree(l, a + x, m, b + y);
    BigEndianInjective(|a|, |b|, w);
    PrefixesAgree(a, x, b, y);
  }

  lemma {:induction false} PowExceeds(w: nat)
    ensures w < Pow256(w)
  {
    if w > 0 {
      PowExceeds(w - 1);
    }
  }

  /** Two lengths that a prefix of `w` bytes cannot tell apart. */
  ghost predicate SamePrefix(m: nat, n: nat, w: nat) { BigEndian(m, w) == BigEndian(n, w) }

  lemma CollidingFrames(w: nat, b: bytes, mid: bytes, rest: bytes, x: bytes)
    requires SamePrefix(|b + mid + rest|, |b|, w)
    requires SamePrefix(|rest + Frame(w, x)|, |x|, w)
    requires |mid| == w && |x| == Value(mid)
    ensures Frame(w, b + mid + rest) + Frame(w, x) == Frame(w, b) + Frame(w, rest + Frame(w, x))
  {
    BigEndianOfValue(mid);
    var prefix, f := BigEndian(|b|, w), Frame(w, x);
    assert Frame(w, rest + f) == mid + (rest + f);
    assert prefix + (b + mid + rest) + f == prefix + b + (mid + (rest + f));
  }

  lemma PrefixDropsHighPart(n: nat, w: nat)
    ensures SamePrefix(n + Pow256(w), n, w)
  {
    BigEndianTruncates(n, w);
  }

  /** The bound is exact: every field whose length does not fit the prefix is confused with a
      shorter one in some pair of adjacent frames. */
  lemma OverlongFrameCollides(w: nat, a: bytes) returns (x: bytes, b: bytes, y: bytes)
    requires |a| >= Pow256(w)
    ensures a != b && Frame(w, a) + Frame(w, x) == Frame(w, b) + Frame(w, y)
  {
    PowExceeds(w);
    var p := Pow256(w);
    var n := |a| - p;
    // The first n bytes of a make the shorter field; the next w bytes are read as the next length.
    var mid, rest := a[n..n + w], a[n + w..];
    b, x := a[..n], seq(Value(mid), i => 0 as byte);
    y := rest + Frame(w, x);
    assert a == b + mid + rest;
    PrefixDropsHighPart(n, w);
    assert |y| == |x| + p;
    PrefixDropsHighPart(|x|, w);
    CollidingFrames(w, b, mid, rest, x);
  }
}
