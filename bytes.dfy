/**
 * Fixed-width integers and little-endian byte strings, as the Win32
 * structures that the enumeration reads lay them out in memory on x86/x64.
 */
module Bytes {

  type u8 = x: int | 0 <= x < 0x100
  type u16 = x: int | 0 <= x < 0x1_0000
  type u32 = x: int | 0 <= x < 0x1_0000_0000
  type u64 = x: int | 0 <= x < 0x1_0000_0000_0000_0000
  type i64 = x: int | -0x8000_0000_0000_0000 <= x < 0x8000_0000_0000_0000

  /** 256 to the power n: the number of distinct values of an n-byte field. */
  function Pow256(n: nat): (p: nat)
    ensures p > 0
  {
    if n == 0 then 1 else 256 * Pow256(n - 1)
  }

  lemma Pow256Widths()
    ensures Pow256(2) == 0x1_0000
    ensures Pow256(4) == 0x1_0000_0000
    ensures Pow256(8) == 0x1_0000_0000_0000_0000
  {
    assert Pow256(1) == 0x100;
    assert Pow256(2) == 0x1_0000;
    assert Pow256(3) == 0x100_0000;
    assert Pow256(4) == 0x1_0000_0000;
    assert Pow256(5) == 0x100_0000_0000;
    assert Pow256(6) == 0x1_0000_0000_0000;
    assert Pow256(7) == 0x100_0000_0000_0000;
  }

  /** The unsigned value of a little-endian byte string: least significant byte first. */
  function LE(s: seq<u8>): nat
  {
    if s == [] then 0 else s[0] + 256 * LE(s[1..])
  }

  /** An n-byte string holds one of Pow256(n) values. */
  lemma {:induction false} LEBound(s: seq<u8>)
    ensures LE(s) < Pow256(|s|)
  {
    if s != [] {
      LEBound(s[1..]);
    }
  }

  /** The n-byte little-endian encoding of x. */
  function ToLE(x: nat, n: nat): (s: seq<u8>)
    requires x < Pow256(n)
    ensures |s| == n
    ensures LE(s) == x
  {
    if n == 0 then []
    else
      assert x / 256 < Pow256(n - 1);
      [x % 256] + ToLE(x / 256, n - 1)
  }

  /** Every byte string is the encoding of its own value: LE loses nothing. */
  lemma {:induction false} ToLEOfLE(s: seq<u8>)
    ensures LE(s) < Pow256(|s|) && ToLE(LE(s), |s|) == s
  {
    LEBound(s);
    if s != [] {
      var v := LE(s);
      assert v % 256 == s[0] && v / 256 == LE(s[1..]);
      ToLEOfLE(s[1..]);
    }
  }

  /** Reads of the fixed-width unsigned fields at a byte offset (`*(p as *const uN)`). */
  function ReadU16(buf: seq<u8>, off: nat): u16
    requires off + 2 <= |buf|
  {
    buf[off] as int + 0x100 * buf[off + 1] as int
  }

  function ReadU32(buf: seq<u8>, off: nat): u32
    requires off + 4 <= |buf|
  {
    ReadU16(buf, off) + 0x1_0000 * ReadU16(buf, off + 2)
  }

  function ReadU64(buf: seq<u8>, off: nat): u64
    requires off + 8 <= |buf|
  {
    ReadU32(buf, off) + 0x1_0000_0000 * ReadU32(buf, off + 4)
  }

  /** A little-endian value splits at any byte boundary. */
  lemma {:induction false} LESplit(s: seq<u8>, k: nat)
    requires k <= |s|
    ensures LE(s) == LE(s[..k]) + Pow256(k) * LE(s[k..])
  {
    if k > 0 {
      var head, tail := s[..k], s[1..];
      LESplit(tail, k - 1);
      assert tail[..k - 1] == head[1..];
      assert tail[k - 1..] == s[k..];
      Regroup(s[0], LE(head[1..]), Pow256(k - 1), LE(s[k..]));
    }
  }

  lemma Regroup(x: int, a: int, p: int, b: int)
    ensures x + 256 * (a + p * b) == (x + 256 * a) + (256 * p) * b
  {
  }

  /** The fixed-width reads are the little-endian values of the bytes they cover. */
  lemma ReadU16IsLE(buf: seq<u8>, off: nat)
    requires off + 2 <= |buf|
    ensures ReadU16(buf, off) == LE(buf[off..off + 2])
  {
    var s := buf[off..off + 2];
    assert s[1..][1..] == [];
    assert LE(s[1..]) == s[1];
  }

  lemma ReadU32IsLE(buf: seq<u8>, off: nat)
    requires off + 4 <= |buf|
    ensures ReadU32(buf, off) == LE(buf[off..off + 4])
  {
    var s := buf[off..off + 4];
    LESplit(s, 2);
    ReadU16IsLE(buf, off);
    ReadU16IsLE(buf, off + 2);
    assert s[..2] == buf[off..off + 2] && s[2..] == buf[off + 2..off + 4];
  }

  lemma ReadU64IsLE(buf: seq<u8>, off: nat)
    requires off + 8 <= |buf|
    ensures ReadU64(buf, off) == LE(buf[off..off + 8])
  {
    var s := buf[off..off + 8];
    LESplit(s, 4);
    ReadU32IsLE(buf, off);
    ReadU32IsLE(buf, off + 4);
    assert s[..4] == buf[off..off + 4] && s[4..] == buf[off + 4..off + 8];
    assert Pow256(4) == 0x1_0000_0000 by { Pow256Widths(); }
  }

  /** A fixed-width read and the little-endian encoding of the same width undo each other. */
  lemma ToLEOfReadU16(buf: seq<u8>, off: nat)
    requires off + 2 <= |buf|
    ensures Pow256(2) == 0x1_0000
    ensures ToLE(ReadU16(buf, off), 2) == buf[off..off + 2]
  {
    Pow256Widths();
    ReadU16IsLE(buf, off);
    ToLEOfLE(buf[off..off + 2]);
  }

  lemma ToLEOfReadU32(buf: seq<u8>, off: nat)
    requires off + 4 <= |buf|
    ensures Pow256(4) == 0x1_0000_0000
    ensures ToLE(ReadU32(buf, off), 4) == buf[off..off + 4]
  {
    Pow256Widths();
    ReadU32IsLE(buf, off);
    ToLEOfLE(buf[off..off + 4]);
  }

  lemma ToLEOfReadU64(buf: seq<u8>, off: nat)
    requires off + 8 <= |buf|
    ensures Pow256(8) == 0x1_0000_0000_0000_0000
    ensures ToLE(ReadU64(buf, off), 8) == buf[off..off + 8]
  {
    Pow256Widths();
    ReadU64IsLE(buf, off);
    ToLEOfLE(buf[off..off + 8]);
  }

  lemma ReadU16OfToLE(buf: seq<u8>, off: nat, x: u16)
    requires Pow256(2) == 0x1_0000
    requires off + 2 <= |buf| && buf[off..off + 2] == ToLE(x, 2)
    ensures ReadU16(buf, off) == x
  {
    ReadU16IsLE(buf, off);
  }

  lemma ReadU32OfToLE(buf: seq<u8>, off: nat, x: u32)
    requires Pow256(4) == 0x1_0000_0000
    requires off + 4 <= |buf| && buf[off..off + 4] == ToLE(x, 4)
    ensures ReadU32(buf, off) == x
  {
    ReadU32IsLE(buf, off);
  }

  lemma ReadU64OfToLE(buf: seq<u8>, off: nat, x: u64)
    requires Pow256(8) == 0x1_0000_0000_0000_0000
    requires off + 8 <= |buf| && buf[off..off + 8] == ToLE(x, 8)
    ensures ReadU64(buf, off) == x
  {
    ReadU64IsLE(buf, off);
  }

  /** The 8 bytes of a u64 as it sits in memory. */
  function EncodeU64(x: u64): (s: seq<u8>)
    ensures |s| == 8 && ReadU64(s, 0) == x
  {
    Pow256Widths();
    assert ToLE(x, 8)[0..8] == ToLE(x, 8);
    ReadU64IsLE(ToLE(x, 8), 0);
    ToLE(x, 8)
  }

  /** Two's-complement reinterpretation of 64 bits as a signed `i64` (an `as i64` cast). */
  function AsSigned(u: u64): (v: i64)
    ensures AsUnsigned(v) == u
    ensures v < 0 <==> u >= 0x8000_0000_0000_0000
  {
    if u < 0x8000_0000_0000_0000 then u else u - 0x1_0000_0000_0000_0000
  }

  /** The 64 bits that hold a signed `i64`. */
  function AsUnsigned(v: i64): (u: u64)
    ensures u < 0x8000_0000_0000_0000 <==> v >= 0
  {
    if v >= 0 then v else v + 0x1_0000_0000_0000_0000
  }

  /** A slice of a slice is a slice of the original. */
  lemma SliceOfSlice(s: seq<u8>, i: nat, j: nat, k: nat, l: nat)
    requires i <= j <= |s| && k <= l <= j - i
    ensures s[i..j][k..l] == s[i + k..i + l]
  {
    forall t | 0 <= t < l - k
      ensures s[i..j][k..l][t] == s[i + k..i + l][t]
    {
      assert s[i..j][k..l][t] == s[i..j][k + t] == s[i + k + t];
    }
  }

  /** Splits a slice that is known to be a concatenation into its two parts. */
  lemma Peel(h: seq<u8>, lo: nat, p: seq<u8>, x: seq<u8>)
    requires lo + |p| + |x| <= |h| && h[lo..lo + |p| + |x|] == p + x
    ensures h[lo..lo + |p|] == p && h[lo + |p|..lo + |p| + |x|] == x
  {
    SliceOfSlice(h, lo, lo + |p| + |x|, 0, |p|);
    SliceOfSlice(h, lo, lo + |p| + |x|, |p|, |p| + |x|);
    assert (p + x)[..|p|] == p && (p + x)[|p|..] == x;
  }

  /** Joins two adjacent slices. */
  lemma Glue(h: seq<u8>, l: nat, m: nat, n: nat)
    requires l <= m <= n <= |h|
    ensures h[l..m] + h[m..n] == h[l..n]
  {
  }
}
