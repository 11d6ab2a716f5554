/** Byte-level arithmetic of the protocol: C's `uchar`, its wrapping sums,
    and the little-endian 16-bit fields of the descriptor. */
module Bytes {

  /** C's `uchar`. */
  type byte = x: int | 0 <= x < 0x100

  /** C's `ushort`. */
  type u16 = x: int | 0 <= x < 0x1_0000

  /** The sum of `s[lo..hi]`, without wrap-around; a `uchar`
      accumulator that adds these bytes in order holds it modulo 256. */
  function SumRange(s: seq<byte>, lo: nat, hi: nat): nat
    requires lo <= hi <= |s|
    decreases hi
  {
    if lo == hi then 0 else SumRange(s, lo, hi - 1) + s[hi - 1]
  }

  /** The sum of all bytes of `s`. */
  function ByteSum(s: seq<byte>): nat
  {
    SumRange(s, 0, |s|)
  }

  /** A range sum only looks at the bytes in its range. */
  lemma {:induction false} SumRangeSlice(s: seq<byte>, a: nat, k: nat, b: nat)
    requires a <= k <= b <= |s|
    ensures SumRange(s, a, k) == SumRange(s[a..b], 0, k - a)
    decreases k
  {
    if k > a {
      SumRangeSlice(s, a, k - 1, b);
    }
  }

  /** The sum of a slice is the range sum over it. */
  lemma SliceSum(s: seq<byte>, a: nat, b: nat)
    requires a <= b <= |s|
    ensures ByteSum(s[a..b]) == SumRange(s, a, b)
  {
    SumRangeSlice(s, a, b, b);
  }

  /** A slice of a slice is a slice. */
  lemma SliceOfSlice<T>(s: seq<T>, a: nat, b: nat, c: nat, d: nat)
    requires a <= b <= |s| && c <= d <= b - a
    ensures s[a..b][c..d] == s[a + c..a + d]
  {
    var u := s[a..b];
    assert |u[c..d]| == |s[a + c..a + d]|;
    forall k | 0 <= k < d - c
      ensures u[c..d][k] == s[a + c..a + d][k]
    {
      assert u[c..d][k] == u[c + k] == s[a + c + k];
    }
  }

  /** Range sums add up over adjacent ranges. */
  lemma {:induction false} SumRangeSplit(s: seq<byte>, a: nat, m: nat, b: nat)
    requires a <= m <= b <= |s|
    ensures SumRange(s, a, b) == SumRange(s, a, m) + SumRange(s, m, b)
    decreases b
  {
    if b > m {
      SumRangeSplit(s, a, m, b - 1);
    }
  }

  /** The sum of a concatenation is the sum of the sums. */
  lemma ByteSumAppend(s: seq<byte>, t: seq<byte>)
    ensures ByteSum(s + t) == ByteSum(s) + ByteSum(t)
  {
    var u := s + t;
    SumRangeSplit(u, 0, |s|, |u|);
    SliceSum(u, 0, |s|);
    SliceSum(u, |s|, |u|);
    assert u[0..|s|] == s && u[|s|..|u|] == t;
  }

  /** Wrapping addition of a `uchar` (`c += b`). */
  function AddByte(c: byte, b: int): (r: byte)
    ensures r == (c + b) % 0x100
  {
    (c + b) % 0x100
  }

  /** Keeping a running sum modulo 256 gives the full sum modulo 256. */
  lemma ModAddStep(x: int, b: int)
    ensures (x % 0x100 + b) % 0x100 == (x + b) % 0x100
  {
  }

  /** The two's-complement negation of `x` as a `uchar`: the one byte that
      makes `x + c` vanish modulo 256. */
  function Negate(x: int): (c: byte)
    ensures (x + c) % 0x100 == 0
  {
    (0x100 - x % 0x100) % 0x100
  }

  /** Subtracting one more byte from a negated sum negates the longer sum
      (the step of `c -= buf[i]`). */
  lemma NegateStep(x: int, b: int)
    ensures Negate(x + b) == (Negate(x) - b) % 0x100
  {
    var c := Negate(x);
    var d := (c - b) % 0x100;
    assert (x + b + d) % 0x100 == (x + c) % 0x100 by {
      assert (x + b + d) % 0x100 == (x + b + (c - b)) % 0x100;
    }
    NegateUnique(x + b, d);
  }

  /** No other byte closes the sum: the checksum byte is unique. */
  lemma NegateUnique(x: int, d: byte)
    requires (x + d) % 0x100 == 0
    ensures d == Negate(x)
  {
  }

  /** `getu16`: the little-endian 16-bit value at `b[i]`, `b[i + 1]`
      (the C's `(b[1] << 8) | b[0]`; the two halves do not overlap, so the
      or is an addition). */
  function GetU16(b: seq<byte>, i: nat): (v: u16)
    requires i + 1 < |b|
    ensures LE16(v) == b[i..i + 2]
  {
    b[i + 1] as int * 0x100 + b[i] as int
  }

  /** The two bytes a little-endian 16-bit field is stored as. */
  function LE16(v: u16): (b: seq<byte>)
    ensures |b| == 2
  {
    [v % 0x100, v / 0x100]
  }

  /** `getu16` reads back what `LE16` writes: the other half of the round
      trip `GetU16`'s contract states. */
  lemma GetU16LE16(v: u16, pre: seq<byte>, post: seq<byte>)
    ensures GetU16(pre + LE16(v) + post, |pre|) == v
  {
    var b := pre + LE16(v) + post;
    assert b[|pre|] == v % 0x100 && b[|pre| + 1] == v / 0x100;
  }

  /** A slice holding `f + rest` splits into a slice holding `f` and one holding `rest`. */
  lemma SliceConcat<T>(s: seq<T>, i: nat, f: seq<T>, rest: seq<T>)
    requires i + |f| + |rest| <= |s| && s[i..i + |f| + |rest|] == f + rest
    ensures s[i..i + |f|] == f && s[i + |f|..i + |f| + |rest|] == rest
  {
    var v := s[i..i + |f| + |rest|];
    assert s[i..i + |f|] == v[..|f|];
    assert s[i + |f|..i + |f| + |rest|] == v[|f|..];
  }
}
