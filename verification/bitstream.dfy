/** The MSB-first bit cursor of the JPEG entropy decoder (class BitStream in
    browser/jpeg.ts). The bytes are laid out once as a bit string, most
    significant bit of each byte first; the cursor is an explicit value and
    every read returns the bit(s) together with the advanced stream. */
module BitStream {
  import opened Bytes

  type Bit = x: nat | x < 2

  datatype Stream = Stream(bits: seq<Bit>, pos: nat)

  /** The n low bits of v, most significant first. */
  function ToBits(v: nat, n: nat): (r: seq<Bit>)
    ensures |r| == n
  {
    if n == 0 then [] else ToBits(v / 2, n - 1) + [v % 2]
  }

  /** The bit string of a byte sequence: eight bits per byte, MSB first. */
  function FromBytes(data: seq<byte>): (r: seq<Bit>)
    ensures |r| == 8 * |data|
  {
    if |data| == 0 then [] else ToBits(data[0], 8) + FromBytes(data[1..])
  }

  /** The stream getBit reads from a byte buffer, at bit 0. */
  function Open(data: seq<byte>): Stream
  {
    Stream(FromBytes(data), 0)
  }

  /** The bit at position p. Past the end the source shifts `undefined`,
      which yields 0. */
  function BitAt(bits: seq<Bit>, p: nat): Bit
  {
    if p < |bits| then bits[p] else 0
  }

  function GetBit(s: Stream): (r: (Bit, Stream))
    ensures r.0 == BitAt(s.bits, s.pos)
    ensures r.1 == Stream(s.bits, s.pos + 1)
  {
    (BitAt(s.bits, s.pos), Stream(s.bits, s.pos + 1))
  }

  /** Reads n bits, most significant first (val = val * 2 + bit, n times). */
  function GetNBits(s: Stream, n: nat): (r: (nat, Stream))
    ensures r.0 < Pow2(n)
    ensures r.1 == Stream(s.bits, s.pos + n)
    ensures n == 0 ==> r.0 == 0
  {
    if n == 0 then (0, s)
    else
      var prefix := GetNBits(s, n - 1);
      var next := GetBit(prefix.1);
      (2 * prefix.0 + next.0, next.1)
  }

  /** The next n bits of the stream, as a sequence. */
  function NextBits(s: Stream, n: nat): (r: seq<Bit>)
    ensures |r| == n
    ensures forall k :: 0 <= k < n ==> r[k] == BitAt(s.bits, s.pos + k)
  {
    if n == 0 then [] else NextBits(s, n - 1) + [BitAt(s.bits, s.pos + n - 1)]
  }

  /** Big-endian value of a bit string (the reference reading of n bits). */
  function BitsValue(bits: seq<Bit>): (r: nat)
    ensures r < Pow2(|bits|)
  {
    if |bits| == 0 then 0 else 2 * BitsValue(bits[..|bits| - 1]) + bits[|bits| - 1]
  }

  /** Writing n bits and reading them back gives the value. */
  lemma {:induction false} BitsValueToBits(v: nat, n: nat)
    requires v < Pow2(n)
    ensures BitsValue(ToBits(v, n)) == v
  {
    if n > 0 {
      var r := ToBits(v, n);
      assert r[..n - 1] == ToBits(v / 2, n - 1);
      BitsValueToBits(v / 2, n - 1);
    }
  }

  /** Bit j of ToBits(v, n) is bit n - 1 - j of v, counting from the least
      significant: v >> (n - 1 - j) & 1, the source's shift-and-mask. */
  lemma {:induction false} ToBitsAt(v: nat, n: nat, j: nat)
    requires j < n
    ensures ToBits(v, n)[j] == Shr(v, n - 1 - j) % 2
  {
    if j < n - 1 {
      ToBitsAt(v / 2, n - 1, j);
    }
  }

  /** Byte i of the buffer occupies bits 8i .. 8i + 7 of its bit string. */
  lemma {:induction false} FromBytesAt(data: seq<byte>, i: nat)
    requires i < |data|
    ensures FromBytes(data)[8 * i..8 * i + 8] == ToBits(data[i], 8)
  {
    if i > 0 {
      FromBytesAt(data[1..], i - 1);
      var rest := FromBytes(data[1..]);
      assert FromBytes(data) == ToBits(data[0], 8) + rest;
      assert FromBytes(data)[8 * i..8 * i + 8] == rest[8 * i - 8..8 * i];
    }
  }

  /** getBit at position p reads (data[p >> 3] >> (7 - (p & 7))) & 1. */
  lemma BitOfByte(data: seq<byte>, p: nat)
    requires p < 8 * |data|
    ensures BitAt(FromBytes(data), p) == Shr(data[p / 8], 7 - p % 8) % 2
  {
    var i := p / 8;
    FromBytesAt(data, i);
    assert FromBytes(data)[p] == FromBytes(data)[8 * i..8 * i + 8][p % 8];
    ToBitsAt(data[i], 8, p % 8);
  }

  /** getNBits(n) is the big-endian value of exactly the next n bits. */
  lemma {:induction false} GetNBitsIsBitsValue(s: Stream, n: nat)
    ensures GetNBits(s, n).0 == BitsValue(NextBits(s, n))
  {
    if n > 0 {
      GetNBitsIsBitsValue(s, n - 1);
      assert NextBits(s, n)[..n - 1] == NextBits(s, n - 1);
    }
  }

  /** Inside the data, the next n bits are a slice of the bit string. */
  lemma NextBitsSlice(s: Stream, n: nat)
    requires s.pos + n <= |s.bits|
    ensures NextBits(s, n) == s.bits[s.pos..s.pos + n]
  {
  }

  /** Eight bits read at a byte boundary give back that byte: the bit order is
      most significant first. */
  lemma ReadAlignedByte(data: seq<byte>, i: nat)
    requires i < |data|
    ensures GetNBits(Stream(FromBytes(data), 8 * i), 8) == (data[i], Stream(FromBytes(data), 8 * i + 8))
  {
    var s := Stream(FromBytes(data), 8 * i);
    FromBytesAt(data, i);
    NextBitsSlice(s, 8);
    GetNBitsIsBitsValue(s, 8);
    assert Pow2(8) == 256 by {
      assert Pow2(4) == 16;
    }
    BitsValueToBits(data[i], 8);
  }

  /** Past the end of the data every read yields zero bits. */
  lemma {:induction false} ReadPastEnd(s: Stream, n: nat)
    requires s.pos >= |s.bits|
    ensures GetNBits(s, n).0 == 0
  {
    if n > 0 {
      ReadPastEnd(s, n - 1);
    }
  }
}
