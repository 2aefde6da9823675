/** The zig-zag descan of the JPEG inverse DCT stage (IDCT.zigZag and
    IDCT.rearangeUsingZigZag in browser/jpeg.ts).

    The source overwrites its own `zigZag` table with the coefficients while
    rearranging (each IDCT object is used once, so the aliasing is never
    observed); here the table is a pure function and rearrangement builds a
    new 8x8 matrix. */
module ZigZag {

  /** Row x of the source's table: ZigZagRow(x)[y] is the scan index of the
      coefficient that lands in row x, column y. */
  function ZigZagRow(x: nat): (r: seq<nat>)
    requires x < 8
    ensures |r| == 8
  {
    match x
    case 0 => [0, 1, 5, 6, 14, 15, 27, 28]
    case 1 => [2, 4, 7, 13, 16, 26, 29, 42]
    case 2 => [3, 8, 12, 17, 25, 30, 41, 43]
    case 3 => [9, 11, 18, 24, 31, 40, 44, 53]
    case 4 => [10, 19, 23, 32, 39, 45, 52, 54]
    case 5 => [20, 22, 33, 38, 46, 51, 55, 60]
    case 6 => [21, 34, 37, 47, 50, 56, 59, 61]
    case 7 => [35, 36, 48, 49, 57, 58, 62, 63]
  }

  /** The scan index stored at row x, column y. */
  function ZigZag(x: nat, y: nat): (r: nat)
    requires x < 8 && y < 8
    ensures r < 64
    ensures NaturalOrder(r) == 8 * x + y
  {
    ZigZagRow(x)[y]
  }

  /** The inverse table: the natural (row-major) position of the k-th
      coefficient of the zig-zag scan, as in figure A.6 of ITU-T T.81. */
  function NaturalOrder(k: nat): (r: nat)
    requires k < 64
    ensures r < 64
  {
    match k
    case 0 => 0
    case 1 => 1
    case 2 => 8
    case 3 => 16
    case 4 => 9
    case 5 => 2
    case 6 => 3
    case 7 => 10
    case 8 => 17
    case 9 => 24
    case 10 => 32
    case 11 => 25
    case 12 => 18
    case 13 => 11
    case 14 => 4
    case 15 => 5
    case 16 => 12
    case 17 => 19
    case 18 => 26
    case 19 => 33
    case 20 => 40
    case 21 => 48
    case 22 => 41
    case 23 => 34
    case 24 => 27
    case 25 => 20
    case 26 => 13
    case 27 => 6
    case 28 => 7
    case 29 => 14
    case 30 => 21
    case 31 => 28
    case 32 => 35
    case 33 => 42
    case 34 => 49
    case 35 => 56
    case 36 => 57
    case 37 => 50
    case 38 => 43
    case 39 => 36
    case 40 => 29
    case 41 => 22
    case 42 => 15
    case 43 => 23
    case 44 => 30
    case 45 => 37
    case 46 => 44
    case 47 => 51
    case 48 => 58
    case 49 => 59
    case 50 => 52
    case 51 => 45
    case 52 => 38
    case 53 => 31
    case 54 => 39
    case 55 => 46
    case 56 => 53
    case 57 => 60
    case 58 => 61
    case 59 => 54
    case 60 => 47
    case 61 => 55
    case 62 => 62
    case 63 => 63
  }

  /** Every scan index 0..63 occurs in the table, at the position the
      inverse table names; with ZigZag's own ensures this makes the table a
      permutation of 0..63. */
  lemma NaturalOrderInverse(k: nat)
    requires k < 64
    ensures ZigZag(NaturalOrder(k) / 8, NaturalOrder(k) % 8) == k
  {
    var n := NaturalOrder(k);
    assert ZigZagRow(n / 8)[n % 8] == k;
  }

  /** rearangeUsingZigZag: block[x][y] = base[zigZag[x][y]]. */
  function Rearrange(base: seq<int>): (block: seq<seq<int>>)
    requires |base| == 64
    ensures |block| == 8
    ensures forall x :: 0 <= x < 8 ==> |block[x]| == 8
    ensures forall x, y :: 0 <= x < 8 && 0 <= y < 8 ==> block[x][y] == base[ZigZag(x, y)]
  {
    seq(8, x requires 0 <= x < 8 => seq(8, y requires 0 <= y < 8 => base[ZigZag(x, y)]))
  }

  /** The forward zig-zag scan of an 8x8 block (the encoder's order). */
  function Scan(block: seq<seq<int>>): (base: seq<int>)
    requires |block| == 8 && forall x :: 0 <= x < 8 ==> |block[x]| == 8
    ensures |base| == 64
    ensures forall k :: 0 <= k < 64 ==> base[k] == block[NaturalOrder(k) / 8][NaturalOrder(k) % 8]
  {
    seq(64, k requires 0 <= k < 64 => block[NaturalOrder(k) / 8][NaturalOrder(k) % 8])
  }

  /** Rearrangement loses nothing: scanning the rearranged block gives the
      coefficients back in their original order ... */
  lemma ScanRearrange(base: seq<int>)
    requires |base| == 64
    ensures Scan(Rearrange(base)) == base
  {
    forall k | 0 <= k < 64
      ensures Scan(Rearrange(base))[k] == base[k]
    {
      NaturalOrderInverse(k);
    }
  }

  /** ... and rearranging a scanned block gives the block back. */
  lemma RearrangeScan(block: seq<seq<int>>)
    requires |block| == 8 && forall x :: 0 <= x < 8 ==> |block[x]| == 8
    ensures Rearrange(Scan(block)) == block
  {
    var r := Rearrange(Scan(block));
    forall x | 0 <= x < 8
      ensures r[x] == block[x]
    {
      forall y | 0 <= y < 8
        ensures r[x][y] == block[x][y]
      {
        var k := ZigZag(x, y);
        assert NaturalOrder(k) / 8 == x && NaturalOrder(k) % 8 == y;
      }
    }
  }
}
