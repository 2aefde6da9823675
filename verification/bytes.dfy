/** Bytes, powers of two and big-endian integers: the one definition of
    "big-endian" that the JPEG marker reader, the PNG chunk reader and the
    iterator-based parser all use. */
module Bytes {

  type byte = x: int | 0 <= x < 256

  function Pow2(n: nat): (r: nat)
    ensures r >= 1
  {
    if n == 0 then 1 else 2 * Pow2(n - 1)
  }

  function Pow256(n: nat): (r: nat)
    ensures r >= 1
  {
    if n == 0 then 1 else 256 * Pow256(n - 1)
  }

  lemma {:induction false} Pow2Add(m: nat, n: nat)
    ensures Pow2(m + n) == Pow2(m) * Pow2(n)
  {
    if n > 0 {
      Pow2Add(m, n - 1);
      assert Pow2(m + n) == 2 * Pow2(m + n - 1);
    }
  }

  lemma {:induction false} Pow2Monotone(m: nat, n: nat)
    requires m <= n
    ensures Pow2(m) <= Pow2(n)
  {
    if m < n {
      Pow2Monotone(m, n - 1);
    }
  }

  /** x >> j: j halvings. */
  function Shr(x: nat, j: nat): nat
  {
    if j == 0 then x else Shr(x / 2, j - 1)
  }

  /** The value of `s` read most-significant byte first: sum of s[i]*256^(|s|-1-i). */
  function BigEndian(s: seq<byte>): (r: nat)
    ensures r < Pow256(|s|)
  {
    if |s| == 0 then 0 else 256 * BigEndian(s[..|s| - 1]) + s[|s| - 1]
  }

  /** The n-byte big-endian encoding of v (the writer the readers invert). */
  function ToBigEndian(v: nat, n: nat): (r: seq<byte>)
    ensures |r| == n
  {
    if n == 0 then [] else ToBigEndian(v / 256, n - 1) + [v % 256]
  }

  lemma {:induction false} BigEndianRoundTrip(v: nat, n: nat)
    requires v < Pow256(n)
    ensures BigEndian(ToBigEndian(v, n)) == v
  {
    if n > 0 {
      var s := ToBigEndian(v, n);
      assert s[..n - 1] == ToBigEndian(v / 256, n - 1);
      BigEndianRoundTrip(v / 256, n - 1);
    }
  }

  lemma {:induction false} ToBigEndianOfBigEndian(s: seq<byte>)
    ensures ToBigEndian(BigEndian(s), |s|) == s
  {
    if |s| > 0 {
      var init := s[..|s| - 1];
      var v := BigEndian(s);
      assert v / 256 == BigEndian(init);
      assert v % 256 == s[|s| - 1];
      ToBigEndianOfBigEndian(init);
      assert s == init + [s[|s| - 1]];
    }
  }

  /** Appending a byte on the right shifts the value one byte to the left. */
  lemma {:induction false} BigEndianSplit(a: seq<byte>, b: seq<byte>)
    ensures BigEndian(a + b) == BigEndian(a) * Pow256(|b|) + BigEndian(b)
  {
    if |b| == 0 {
      assert a + b == a;
    } else {
      var ab := a + b;
      assert ab[..|ab| - 1] == a + b[..|b| - 1];
      assert ab[|ab| - 1] == b[|b| - 1];
      var init := b[..|b| - 1];
      BigEndianSplit(a, init);
      assert BigEndian(b) == 256 * BigEndian(init) + b[|b| - 1];
      assert Pow256(|b|) == 256 * Pow256(|init|);
      ShiftByte(BigEndian(a), Pow256(|init|), BigEndian(init), b[|b| - 1]);
    }
  }

  lemma ShiftByte(x: int, p: int, y: int, z: int)
    ensures 256 * (x * p + y) + z == x * (256 * p) + (256 * y + z)
  {
  }

  /** Two-byte big-endian read, as DataView.getUint16 does (in bounds). */
  function U16(hi: byte, lo: byte): (r: nat)
    ensures r == BigEndian([hi, lo])
    ensures r < 0x1_0000
  {
    assert [hi, lo][..1] == [hi];
    assert [hi][..0] == [];
    256 * hi + lo
  }

  /** Clamp an index into [0, n], as the end points of subarray/slice are. */
  function Clamp(i: int, n: nat): (r: nat)
    ensures r <= n
    ensures 0 <= i <= n ==> r == i
  {
    if i < 0 then 0 else if i > n then n else i
  }

  /** `s.subarray(from, to)` for non-negative `from`: an empty result when the
      range is inverted, and both ends clamped to the length. */
  function SubArray(s: seq<byte>, from: nat, to: int): (r: seq<byte>)
    ensures |r| <= |s|
    ensures from <= to ==> |r| <= to - from
    ensures to < from ==> r == []
    ensures from <= to <= |s| ==> r == s[from..to]
    ensures from <= |s| <= to ==> r == s[from..]
  {
    var lo := Clamp(from, |s|);
    var hi := Clamp(to, |s|);
    if lo <= hi then s[lo..hi] else []
  }

  /** A prefix of a subarray is the subarray that stops earlier. */
  lemma SubArrayHead(s: seq<byte>, from: nat, len: nat, i: nat)
    requires i <= |SubArray(s, from, from + len)|
    ensures SubArray(s, from, from + i) == SubArray(s, from, from + len)[..i]
  {
  }

  /** A suffix of a subarray is the subarray that starts later. */
  lemma SubArrayTail(s: seq<byte>, from: nat, len: nat, i: nat)
    requires i <= |SubArray(s, from, from + len)|
    ensures SubArray(s, from + i, from + len) == SubArray(s, from, from + len)[i..]
  {
  }

  /** A sequence is its part before index z, the element v at z, and the
      part after it. */
  lemma SplitAt(s: seq<byte>, z: nat, v: byte)
    requires z < |s| && s[z] == v
    ensures s == s[..z] + [v] + s[z + 1..]
  {
  }
}
