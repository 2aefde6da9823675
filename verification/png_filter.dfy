/** Scanline filtering of PNG images (section 9 of the W3C PNG
    Specification, second edition): the Paeth predictor, the five filter
    types (PngProcessor.applyFilterType and paethPredictor in
    browser/png.ts) and the reconstruction of one scanline, together with
    the encoder's forward filter that reconstruction inverts. */
module PngFilter {
  import opened Bytes
  import opened Results

  /** Every way the PNG decoder of browser/png.ts can fail. */
  datatype PngError =
    | NotPng                 // the eight signature bytes are wrong
    | OutOfRange             // a DataView read past the end of the buffer
    | UnknownFilterType      // a scanline's filter byte is not 0..4
    | UnknownFilterMethod    // IHDR filter method is not 0
    | UnsupportedBitDepth    // bit depth below 8 (or not a whole number of bytes)
    | UnknownColorType       // colour type not 0, 2, 3, 4 or 6
    | NegativeLength         // new Uint8Array(data.length - height) with a negative length
    | ShortImageData         // fewer inflated bytes than the scanlines need
    | InterlaceUnsupported   // IDAT with an interlace method other than 0
    | UnsupportedColorType   // toImageData on a colour type other than 2 or 6
    | NoInflatedData         // undoFilters(undefined) after the inflater ended on a data error

  function Dist(p: int, v: int): nat
  {
    if p >= v then p - v else v - p
  }

  /** Index i holds a smallest entry of ds, and no earlier index does. */
  predicate FirstMin(ds: seq<nat>, i: nat)
  {
    && i < |ds|
    && (forall j :: 0 <= j < |ds| ==> ds[i] <= ds[j])
    && (forall j :: 0 <= j < i ==> ds[j] > ds[i])
  }

  /** The Paeth predictor: of a (left), b (above) and c (upper left), the
      one nearest to a + b - c, ties going to a, then b. */
  function Paeth(a: byte, b: byte, c: byte): (r: byte)
    ensures var p := a + b - c;
            exists i :: 0 <= i < 3 && FirstMin([Dist(p, a), Dist(p, b), Dist(p, c)], i) && r == [a, b, c][i]
  {
    var p := a + b - c;
    var pa := Dist(p, a);
    var pb := Dist(p, b);
    var pc := Dist(p, c);
    if pa <= pb && pa <= pc then
      assert FirstMin([pa, pb, pc], 0) && [a, b, c][0] == a;
      a
    else if pb <= pc then
      assert FirstMin([pa, pb, pc], 1) && [a, b, c][1] == b;
      b
    else
      assert FirstMin([pa, pb, pc], 2) && [a, b, c][2] == c;
      c
  }

  /** What each filter type adds to the filtered byte: nothing, the left
      byte, the byte above, their (truncated) mean, or the Paeth predictor. */
  function PredictorValue(ft: nat, a: byte, b: byte, c: byte): (r: nat)
    requires ft <= 4
    ensures r < 256
  {
    match ft
    case 0 => 0
    case 1 => a
    case 2 => b
    case 3 => (a + b) / 2
    case 4 => Paeth(a, b, c)
  }

  /** applyFilterType(filterType, x, a, b, c): the reconstructed value before
      the final `% 256`; a filter type outside 0..4 throws. */
  function ApplyFilterType(ft: nat, x: byte, a: byte, b: byte, c: byte): (r: Result<nat, PngError>)
    ensures r.Err? <==> ft > 4
    ensures r.Err? ==> r.error == UnknownFilterType
    ensures r.Ok? ==> r.value < 512 && (r.value - PredictorValue(ft, a, b, c)) % 256 == x
  {
    if ft > 4 then Err(UnknownFilterType) else Ok(x + PredictorValue(ft, a, b, c))
  }

  /** The byte bpp positions to the left, or 0 in the first pixel. */
  function Left(s: seq<byte>, i: nat, bpp: nat): byte
    requires i < |s|
  {
    if i < bpp then 0 else s[i - bpp]
  }

  /** The first n bytes of a reconstructed scanline: byte i is the filtered
      byte plus the predictor from already reconstructed bytes (left, from
      this row) and the prior row (above and upper left), modulo 256. For
      the first row the prior row is all zeros, which is what the source's
      `top` case reads. */
  function UnfilterPrefix(ft: nat, line: seq<byte>, prior: seq<byte>, bpp: nat, n: nat): (r: Result<seq<byte>, PngError>)
    requires n <= |line| == |prior| && bpp > 0
    ensures r.Ok? ==> |r.value| == n
    ensures r.Err? <==> n > 0 && ft > 4
  {
    if n == 0 then Ok([])
    else
      var done :- UnfilterPrefix(ft, line, prior, bpp, n - 1);
      var i := n - 1;
      var a := if i < bpp then 0 else done[i - bpp];
      var v :- ApplyFilterType(ft, line[i], a, prior[i], Left(prior, i, bpp));
      Ok(done + [v % 256])
  }

  function UnfilterRow(ft: nat, line: seq<byte>, prior: seq<byte>, bpp: nat): (r: Result<seq<byte>, PngError>)
    requires |line| == |prior| && bpp > 0
    ensures r.Ok? ==> |r.value| == |line|
    ensures r.Err? <==> |line| > 0 && ft > 4
  {
    UnfilterPrefix(ft, line, prior, bpp, |line|)
  }

  /** The encoder's filter of a raw scanline: each byte minus its predictor
      from the raw bytes, modulo 256. */
  function FilterRow(ft: nat, raw: seq<byte>, prior: seq<byte>, bpp: nat): (r: seq<byte>)
    requires ft <= 4 && |raw| == |prior|
    ensures |r| == |raw|
  {
    seq(|raw|, i => if 0 <= i < |raw| then Filtered(ft, raw, prior, bpp, i) else 0)
  }

  /** Byte i of the filtered scanline. */
  function Filtered(ft: nat, raw: seq<byte>, prior: seq<byte>, bpp: nat, i: nat): byte
    requires ft <= 4 && i < |raw| == |prior|
  {
    (raw[i] - PredictorValue(ft, Left(raw, i, bpp), prior[i], Left(prior, i, bpp))) % 256
  }

  lemma AddSubMod(y: byte, p: nat)
    ensures ((y - p) % 256 + p) % 256 == y
  {
    var q := (y - p) % 256;
    var k := (y - p) / 256;
    assert y - p == 256 * k + q;
    assert q + p == y + 256 * (-k);
  }

  lemma SubAddMod(x: byte, p: nat)
    ensures ((x + p) % 256 - p) % 256 == x
  {
    var q := (x + p) % 256;
    var k := (x + p) / 256;
    assert x + p == 256 * k + q;
    assert q - p == x + 256 * (-k);
  }

  /** The last step of UnfilterPrefix, spelled out. */
  lemma UnfilterStep(ft: nat, line: seq<byte>, prior: seq<byte>, bpp: nat, n: nat, done: seq<byte>)
    requires ft <= 4 && 0 < n <= |line| == |prior| && bpp > 0
    requires UnfilterPrefix(ft, line, prior, bpp, n - 1) == Ok(done)
    ensures |done| == n - 1
    ensures var i := n - 1;
            var a := if i < bpp then 0 else done[i - bpp];
            UnfilterPrefix(ft, line, prior, bpp, n)
            == Ok(done + [(line[i] + PredictorValue(ft, a, prior[i], Left(prior, i, bpp))) % 256])
  {
  }

  /** Reconstruction inverts filtering, for every filter type and row. */
  lemma {:induction false} UnfilterFilterPrefix(ft: nat, raw: seq<byte>, prior: seq<byte>, bpp: nat, n: nat)
    requires ft <= 4 && n <= |raw| == |prior| && bpp > 0
    ensures UnfilterPrefix(ft, FilterRow(ft, raw, prior, bpp), prior, bpp, n) == Ok(raw[..n])
  {
    if n > 0 {
      var line := FilterRow(ft, raw, prior, bpp);
      var i := n - 1;
      var done := raw[..i];
      UnfilterFilterPrefix(ft, raw, prior, bpp, i);
      UnfilterStep(ft, line, prior, bpp, n, done);
      var a := if i < bpp then 0 else done[i - bpp];
      assert a == Left(raw, i, bpp);
      var p := PredictorValue(ft, a, prior[i], Left(prior, i, bpp));
      assert line[i] == Filtered(ft, raw, prior, bpp, i) == (raw[i] - p) % 256;
      AddSubMod(raw[i], p);
      assert raw[..n] == done + [raw[i]];
    }
  }

  lemma UnfilterFilterRow(ft: nat, raw: seq<byte>, prior: seq<byte>, bpp: nat)
    requires ft <= 4 && |raw| == |prior| && bpp > 0
    ensures UnfilterRow(ft, FilterRow(ft, raw, prior, bpp), prior, bpp) == Ok(raw)
  {
    UnfilterFilterPrefix(ft, raw, prior, bpp, |raw|);
    assert raw[..|raw|] == raw;
  }

  /** Filtering the reconstruction gives back the filtered bytes: every
      filtered scanline is the filter of exactly one raw scanline. */
  lemma {:induction false} FilterUnfilterPrefix(ft: nat, line: seq<byte>, prior: seq<byte>, bpp: nat, n: nat)
    requires ft <= 4 && n <= |line| == |prior| && bpp > 0
    ensures var r := UnfilterPrefix(ft, line, prior, bpp, n);
            r.Ok? && forall i :: 0 <= i < n ==> line[i] == Filtered(ft, r.value, prior[..n], bpp, i)
  {
    if n > 0 {
      var i := n - 1;
      FilterUnfilterPrefix(ft, line, prior, bpp, i);
      var done := UnfilterPrefix(ft, line, prior, bpp, i).value;
      UnfilterStep(ft, line, prior, bpp, n, done);
      var a := if i < bpp then 0 else done[i - bpp];
      var p := PredictorValue(ft, a, prior[i], Left(prior, i, bpp));
      var r := done + [(line[i] + p) % 256];
      forall j | 0 <= j < n
        ensures line[j] == Filtered(ft, r, prior[..n], bpp, j)
      {
        if j < i {
          FilteredExtend(ft, done, (line[i] + p) % 256, prior, bpp, n, j);
        } else {
          FilteredLast(ft, line[i], done, prior, bpp, n);
        }
      }
    }
  }

  /** Appending a byte does not change how the earlier bytes filter. */
  lemma FilteredExtend(ft: nat, done: seq<byte>, x: byte, prior: seq<byte>, bpp: nat, n: nat, j: nat)
    requires ft <= 4 && |done| == n - 1 && n <= |prior| && j < n - 1
    ensures Filtered(ft, done + [x], prior[..n], bpp, j) == Filtered(ft, done, prior[..n - 1], bpp, j)
  {
    assert (done + [x])[j] == done[j];
    assert Left(done + [x], j, bpp) == Left(done, j, bpp);
  }

  /** The byte reconstructed last filters back to its filtered byte. */
  lemma FilteredLast(ft: nat, y: byte, done: seq<byte>, prior: seq<byte>, bpp: nat, n: nat)
    requires ft <= 4 && |done| == n - 1 && 0 < n <= |prior| && bpp > 0
    ensures var i := n - 1;
            var p := PredictorValue(ft, if i < bpp then 0 else done[i - bpp], prior[i], Left(prior, i, bpp));
            Filtered(ft, done + [(y + p) % 256], prior[..n], bpp, i) == y
  {
    var i := n - 1;
    var p := PredictorValue(ft, if i < bpp then 0 else done[i - bpp], prior[i], Left(prior, i, bpp));
    var r := done + [(y + p) % 256];
    assert Left(r, i, bpp) == (if i < bpp then 0 else done[i - bpp]);
    assert Left(prior[..n], i, bpp) == Left(prior, i, bpp);
    SubAddMod(y, p);
  }

  lemma FilterUnfilterRow(ft: nat, line: seq<byte>, prior: seq<byte>, bpp: nat)
    requires ft <= 4 && |line| == |prior| && bpp > 0
    ensures var r := UnfilterRow(ft, line, prior, bpp);
            r.Ok? && FilterRow(ft, r.value, prior, bpp) == line
  {
    FilterUnfilterPrefix(ft, line, prior, bpp, |line|);
    assert prior[..|line|] == prior;
  }
}
