/** Image-level PNG reconstruction in browser/png.ts: bytes per pixel from
    the IHDR fields (bytesPerPixel), reversing the filters of every
    scanline of the inflated data (undoFilters), and laying the pixels out
    as RGBA (toImageData). */
module PngImage {
  import opened Bytes
  import opened Results
  import opened PngFilter

  /** The IHDR fields the decoder keeps. */
  datatype Header = Header(
    width: nat,
    height: nat,
    bitDepth: byte,
    colorType: byte,
    compression: byte,
    filterMethod: byte,
    interlace: byte)

  /** Samples per pixel of each colour type (Table 11.1 of the PNG
      Specification): greyscale, truecolour, indexed, greyscale with alpha,
      truecolour with alpha. */
  function Channels(colorType: byte): Option<nat>
  {
    match colorType
    case 0 => Some(1)
    case 2 => Some(3)
    case 3 => Some(1)
    case 4 => Some(2)
    case 6 => Some(4)
    case _ => None
  }

  /** bytesPerPixel(): the bit depth in bytes times the samples per pixel.
      A depth of 8 or more that is not a whole number of bytes makes the
      source compute a fractional count: refused here as well. */
  function BytesPerPixel(bitDepth: byte, colorType: byte): (r: Result<nat, PngError>)
    ensures bitDepth < 8 ==> r == Err(UnsupportedBitDepth)
    ensures bitDepth >= 8 && Channels(colorType).None? ==> r == Err(UnknownColorType)
    ensures r.Ok? <==> bitDepth >= 8 && bitDepth % 8 == 0 && Channels(colorType).Some?
    ensures r.Ok? ==> r.value >= 1 && 8 * r.value == bitDepth * Channels(colorType).value
  {
    if bitDepth < 8 then Err(UnsupportedBitDepth)
    else
      var d := bitDepth / 8;
      var perPixel :=
        match colorType
        case 0 => Ok(d)
        case 2 => Ok(d * 3)
        case 3 => Ok(d)
        case 4 => Ok(d * 2)
        case 6 => Ok(d * 4)
        case _ => Err(UnknownColorType);
      if perPixel.Ok? && bitDepth % 8 != 0 then Err(UnsupportedBitDepth) else perPixel
  }

  function Zeros(n: nat): (r: seq<byte>)
    ensures |r| == n && forall i :: 0 <= i < n ==> r[i] == 0
  {
    seq(n, i => 0)
  }

  lemma MulStep(rows: nat, width: nat)
    requires rows > 0
    ensures rows * width == width + (rows - 1) * width
  {
  }

  /** The scanlines of `rows` rows, each a filter-type byte and `stride`
      filtered bytes, reconstructed one after another; `prior` is the row
      above the first one. */
  function UnfilterRows(data: seq<byte>, stride: nat, bpp: nat, rows: nat, prior: seq<byte>): (r: Result<seq<byte>, PngError>)
    requires bpp > 0 && |prior| == stride && rows * (stride + 1) <= |data|
    ensures r.Ok? ==> |r.value| == rows * stride
    decreases rows
  {
    if rows == 0 then Ok([])
    else
      MulStep(rows, stride + 1);
      var line := data[1..stride + 1];
      var row :- UnfilterRow(data[0], line, prior, bpp);
      var more :- UnfilterRows(data[stride + 1..], stride, bpp, rows - 1, row);
      MulStep(rows, stride);
      Ok(row + more)
  }

  /** undoFilters(data): the rows reconstructed in order, then zeros up to
      the length data.length - height of the result array. */
  function UndoFilters(h: Header, data: seq<byte>): (r: Result<seq<byte>, PngError>)
    ensures h.filterMethod != 0 ==> r == Err(UnknownFilterMethod)
    ensures r.Ok? ==> |r.value| == |data| - h.height
    ensures r.Ok? ==> BytesPerPixel(h.bitDepth, h.colorType).Ok?
  {
    if h.filterMethod != 0 then Err(UnknownFilterMethod)
    else
      var bpp :- BytesPerPixel(h.bitDepth, h.colorType);
      var stride := h.width * bpp;
      if |data| < h.height then Err(NegativeLength)
      else if |data| < h.height * (stride + 1) then Err(ShortImageData)
      else
        var rows :- UnfilterRows(data, stride, bpp, h.height, Zeros(stride));
        MulStep1(h.height, stride);
        Ok(rows + Zeros(|data| - h.height - h.height * stride))
  }

  // ---------------------------------------------------------------------
  // The encoder's side

  function Flatten(rows: seq<seq<byte>>): seq<byte>
  {
    if |rows| == 0 then [] else rows[0] + Flatten(rows[1..])
  }

  predicate Rectangular(rows: seq<seq<byte>>, stride: nat)
  {
    forall i :: 0 <= i < |rows| ==> |rows[i]| == stride
  }

  predicate KnownFilters(fts: seq<byte>)
  {
    forall i :: 0 <= i < |fts| ==> fts[i] <= 4
  }

  /** Filter every row with its filter type and prefix it with that type;
      `prior` is the row above the first. */
  function FilterRows(rows: seq<seq<byte>>, fts: seq<byte>, prior: seq<byte>, bpp: nat): (r: seq<byte>)
    requires |fts| == |rows| && KnownFilters(fts) && Rectangular(rows, |prior|)
    ensures |r| == |rows| * (|prior| + 1)
  {
    if |rows| == 0 then []
    else
      MulStep(|rows|, |prior| + 1);
      [fts[0]] + FilterRow(fts[0], rows[0], prior, bpp) + FilterRows(rows[1..], fts[1..], rows[0], bpp)
  }

  lemma {:induction false} UnfilterFilterRows(rows: seq<seq<byte>>, fts: seq<byte>, prior: seq<byte>, bpp: nat, extra: seq<byte>)
    requires |fts| == |rows| && KnownFilters(fts) && Rectangular(rows, |prior|) && bpp > 0
    ensures UnfilterRows(FilterRows(rows, fts, prior, bpp) + extra, |prior|, bpp, |rows|, prior) == Ok(Flatten(rows))
  {
    if |rows| > 0 {
      var stride := |prior|;
      var data := FilterRows(rows, fts, prior, bpp) + extra;
      var tail := FilterRows(rows[1..], fts[1..], rows[0], bpp);
      assert data[0] == fts[0];
      assert data[1..stride + 1] == FilterRow(fts[0], rows[0], prior, bpp);
      assert data[stride + 1..] == tail + extra;
      UnfilterFilterRow(fts[0], rows[0], prior, bpp);
      UnfilterFilterRows(rows[1..], fts[1..], rows[0], bpp, extra);
    }
  }

  /** Reversing the filters of a filtered image gives back its rows, and
      any bytes after the last scanline come out as zeros. */
  lemma UndoFiltersRoundTrip(h: Header, rows: seq<seq<byte>>, fts: seq<byte>, extra: seq<byte>)
    requires h.filterMethod == 0 && BytesPerPixel(h.bitDepth, h.colorType).Ok?
    requires |rows| == h.height == |fts| && KnownFilters(fts)
    requires Rectangular(rows, h.width * BytesPerPixel(h.bitDepth, h.colorType).value)
    ensures var stride := h.width * BytesPerPixel(h.bitDepth, h.colorType).value;
            var data := FilterRows(rows, fts, Zeros(stride), BytesPerPixel(h.bitDepth, h.colorType).value) + extra;
            UndoFilters(h, data) == Ok(Flatten(rows) + Zeros(|extra|))
  {
    var bpp := BytesPerPixel(h.bitDepth, h.colorType).value;
    var stride := h.width * bpp;
    var body := FilterRows(rows, fts, Zeros(stride), bpp);
    assert |body| == h.height * stride + h.height by {
      MulStep1(h.height, stride);
    }
    UnfilterFilterRows(rows, fts, Zeros(stride), bpp, extra);
    UndoFiltersOk(h, body + extra, bpp, Flatten(rows));
  }

  /** The successful path of UndoFilters, spelled out. */
  lemma UndoFiltersOk(h: Header, data: seq<byte>, bpp: nat, rows: seq<byte>)
    requires h.filterMethod == 0 && BytesPerPixel(h.bitDepth, h.colorType) == Ok(bpp)
    requires h.height * (h.width * bpp) + h.height <= |data|
    requires UnfilterRows(data, h.width * bpp, bpp, h.height, Zeros(h.width * bpp)) == Ok(rows)
    ensures UndoFilters(h, data) == Ok(rows + Zeros(|data| - h.height - h.height * (h.width * bpp)))
  {
    MulStep1(h.height, h.width * bpp);
  }

  lemma MulStep1(a: nat, b: nat)
    ensures a * (b + 1) == a * b + a
  {
  }

  // ---------------------------------------------------------------------
  // RGBA layout (toImageData)

  /** A read of the pixel data; past its end the source reads `undefined`,
      which the clamped array stores as 0. */
  function Get(p: seq<byte>, k: int): byte
  {
    if 0 <= k < |p| then p[k] else 0
  }

  /** The first n pixels of a truecolour image as RGBA, alpha 255. */
  function ExpandRgb(p: seq<byte>, n: nat): (r: seq<byte>)
    ensures |r| == 4 * n
  {
    if n == 0 then []
    else ExpandRgb(p, n - 1) + [Get(p, 3 * n - 3), Get(p, 3 * n - 2), Get(p, 3 * n - 1), 255]
  }

  /** toImageData(pixelData): width * height RGBA pixels. */
  function ToImageData(h: Header, p: seq<byte>): (r: Result<seq<byte>, PngError>)
    ensures r.Err? <==> h.colorType != 2 && h.colorType != 6
    ensures r.Ok? ==> |r.value| == h.width * h.height * 4
  {
    var n := h.width * h.height;
    if h.colorType == 2 then Ok(ExpandRgb(p, n))
    else if h.colorType == 6 then Ok(seq(n * 4, k => Get(p, k)))
    else Err(UnsupportedColorType)
  }

  /** Dropping every fourth byte: RGBA back to RGB. */
  function StripAlpha(s: seq<byte>): seq<byte>
  {
    if |s| < 4 then [] else StripAlpha(s[..|s| - 4]) + s[|s| - 4..|s| - 1]
  }

  /** Every expanded pixel is opaque. */
  predicate Opaque(s: seq<byte>)
  {
    forall i :: 0 <= i < |s| / 4 ==> s[4 * i + 3] == 255
  }

  lemma StripSnoc(a: seq<byte>, px: seq<byte>)
    requires |px| == 4
    ensures StripAlpha(a + px) == StripAlpha(a) + px[..3]
  {
    assert (a + px)[..|a + px| - 4] == a;
    assert (a + px)[|a + px| - 4..|a + px| - 1] == px[..3];
  }

  lemma {:induction false} ExpandStrip(p: seq<byte>, n: nat)
    requires 3 * n <= |p|
    ensures StripAlpha(ExpandRgb(p, n)) == p[..3 * n]
  {
    if n > 0 {
      ExpandStrip(p, n - 1);
      var m := 3 * n - 3;
      var rgb := p[m..m + 3];
      assert rgb == [Get(p, m), Get(p, m + 1), Get(p, m + 2)];
      assert ExpandRgb(p, n) == ExpandRgb(p, n - 1) + (rgb + [255]);
      StripSnoc(ExpandRgb(p, n - 1), rgb + [255]);
      assert (rgb + [255])[..3] == rgb;
      assert p[..m + 3] == p[..m] + rgb;
    }
  }

  lemma {:induction false} ExpandOpaque(p: seq<byte>, n: nat)
    ensures Opaque(ExpandRgb(p, n))
  {
    if n > 0 {
      ExpandOpaque(p, n - 1);
      var e := ExpandRgb(p, n);
      var e0 := ExpandRgb(p, n - 1);
      assert e == e0 + [Get(p, 3 * n - 3), Get(p, 3 * n - 2), Get(p, 3 * n - 1), 255];
      forall i | 0 <= i < |e| / 4
        ensures e[4 * i + 3] == 255
      {
        if i < n - 1 {
          assert e[4 * i + 3] == e0[4 * i + 3];
        }
      }
    }
  }

  /** A truecolour image gains an opaque alpha byte per pixel and nothing
      else: removing it gives back the pixel data. */
  lemma RgbToRgba(h: Header, p: seq<byte>)
    requires h.colorType == 2 && |p| == 3 * (h.width * h.height)
    ensures ToImageData(h, p).Ok?
    ensures StripAlpha(ToImageData(h, p).value) == p && Opaque(ToImageData(h, p).value)
  {
    ExpandStrip(p, h.width * h.height);
    ExpandOpaque(p, h.width * h.height);
    assert p[..3 * (h.width * h.height)] == p;
  }

  /** Truecolour with alpha is already RGBA and is copied unchanged. */
  lemma RgbaCopied(h: Header, p: seq<byte>)
    requires h.colorType == 6 && |p| == 4 * (h.width * h.height)
    ensures ToImageData(h, p) == Ok(p)
  {
    assert ToImageData(h, p).value == p;
  }
}
