/** The marker-segment layer of the baseline JPEG decoder
    (JpegProcessor.processDataChunk and the segment decoders it calls in
    browser/jpeg.ts): Huffman (DHT), quantisation (DQT) and frame (SOF0)
    segments update the decoder state; a scan (SOS) is un-stuffed and decoded
    block by block into zig-zag-rearranged coefficient matrices. The inverse
    DCT, colour conversion and drawing are not modelled; the decoded
    matrices are collected in the state instead of being drawn. */
module JpegSegments {
  import opened Bytes
  import opened Results
  import opened BitStream
  import opened Huffman
  import opened Entropy
  import opened ZigZag

  // ---------------------------------------------------------------------
  // Huffman table segment (decodeHuffman)

  /** A DHT payload: the table key, the 16 code-length counts, then the
      symbols. An empty payload stores a table under the key `undefined`,
      which no scan ever reads: None here. */
  function DecodeHuffman(data: seq<byte>): (r: Result<Option<(byte, Trie)>, JpegError>)
    ensures |data| == 0 <==> r == Ok(None)
    ensures r.Ok? && r.value.Some? ==> r.value.value.0 == data[0] && WellFormed(r.value.value.1)
  {
    if |data| == 0 then Ok(None)
    else
      var lengths := SubArray(data, 1, 17);
      var symbols := SubArray(data, 17, 17 + Sum(lengths));
      if |symbols| < Sum(lengths) then Err(TruncatedHuffmanSegment)
      else Ok(Some((data[0], Build(lengths, symbols))))
  }

  /** The DHT payload an encoder writes for one table. */
  function EncodeHuffman(id: byte, lengths: seq<byte>, symbols: seq<byte>): seq<byte>
  {
    [id] + lengths + symbols
  }

  /** Decoding a written table gives back its key and the canonical trie of
      its counts and symbols, whatever follows the table. */
  lemma HuffmanRoundTrip(id: byte, lengths: seq<byte>, symbols: seq<byte>, rest: seq<byte>)
    requires |lengths| == 16 && |symbols| == Sum(lengths)
    ensures DecodeHuffman(EncodeHuffman(id, lengths, symbols) + rest) == Ok(Some((id, Build(lengths, symbols))))
  {
    var data := EncodeHuffman(id, lengths, symbols) + rest;
    assert data[1..17] == lengths;
    assert data[17..17 + Sum(lengths)] == symbols;
  }

  /** A non-empty DHT payload is refused exactly when it holds fewer symbols
      than its counts announce. */
  lemma HuffmanTruncation(data: seq<byte>)
    requires |data| > 0
    ensures DecodeHuffman(data).Err? <==> 0 < Sum(SubArray(data, 1, 17)) && |data| < 17 + Sum(SubArray(data, 1, 17))
  {
    var n := Sum(SubArray(data, 1, 17));
    var symbols := SubArray(data, 17, 17 + n);
    if |data| >= 17 + n {
      assert |symbols| == n;
    } else if |data| >= 17 {
      assert symbols == data[17..];
    } else {
      assert symbols == [];
    }
  }

  // ---------------------------------------------------------------------
  // Quantisation table segment (decodeQuantization)

  /** A DQT payload: the key byte and up to 64 entries. Only the first table
      of a segment is read. An empty payload stores under `undefined`: None. */
  function DecodeQuantization(data: seq<byte>): (r: Option<(byte, seq<byte>)>)
    ensures |data| == 0 <==> r.None?
    ensures r.Some? ==> r.value.0 == data[0] && |r.value.1| <= 64
    ensures r.Some? && |data| >= 65 ==> |r.value.1| == 64
  {
    if |data| == 0 then None else Some((data[0], SubArray(data, 1, 65)))
  }

  function EncodeQuantization(id: byte, table: seq<byte>): seq<byte>
  {
    [id] + table
  }

  /** A written 64-entry table is read back, and anything after it (such as
      a second table in the same segment) is ignored. */
  lemma QuantizationRoundTrip(id: byte, table: seq<byte>, rest: seq<byte>)
    requires |table| == 64
    ensures DecodeQuantization(EncodeQuantization(id, table) + rest) == Some((id, table))
  {
    assert (EncodeQuantization(id, table) + rest)[1..65] == table;
  }

  // ---------------------------------------------------------------------
  // Frame segment (decodeFrameData)

  datatype Frame = Frame(height: nat, width: nat, quantIds: seq<byte>)

  /** The quantisation-table ids of n components of three bytes each,
      read from the buffer at p. */
  function ReadComponents(buf: seq<byte>, p: nat, n: nat): (r: seq<byte>)
    requires p + 3 * n <= |buf|
    ensures |r| == n
    ensures forall c :: 0 <= c < n ==> r[c] == buf[p + 3 * c + 2]
    decreases n
  {
    if n == 0 then [] else [buf[p + 2]] + ReadComponents(buf, p + 3, n - 1)
  }

  /** Number of components: byte 5 of the segment, none if it is shorter. */
  function ComponentCount(seg: seq<byte>): byte
  {
    if |seg| > 5 then seg[5] else 0
  }

  /** decodeFrameData(seg, start). Height, width and the components are read
      through a DataView that starts at `start` and runs to the end of the
      whole buffer `buf`, so each read fails only past the end of the
      buffer; the component count is read from the segment itself. The
      last byte read for height and width is at start + 4; with no
      components the loop reads nothing more. */
  function DecodeFrameData(buf: seq<byte>, start: nat, seg: seq<byte>): (r: Result<Frame, JpegError>)
    ensures r.Err? <==> start + 5 > |buf| || (ComponentCount(seg) > 0 && start + 6 + 3 * ComponentCount(seg) > |buf|)
    ensures r.Ok? ==> |r.value.quantIds| == ComponentCount(seg)
    ensures r.Ok? ==> r.value.height == U16(buf[start + 1], buf[start + 2]) && r.value.width == U16(buf[start + 3], buf[start + 4])
    ensures r.Ok? ==> r.value.height < 0x1_0000 && r.value.width < 0x1_0000
  {
    if start + 5 > |buf| then Err(OutOfRange)
    else
      var height := U16(buf[start + 1], buf[start + 2]);
      var width := U16(buf[start + 3], buf[start + 4]);
      var n := ComponentCount(seg);
      if n == 0 then Ok(Frame(height, width, []))
      else if start + 6 + 3 * n > |buf| then Err(OutOfRange)
      else Ok(Frame(height, width, ReadComponents(buf, start + 6, n)))
  }

  datatype Component = Component(id: byte, sampling: byte, quantId: byte)

  function EncodeComponents(comps: seq<Component>): (r: seq<byte>)
    ensures |r| == 3 * |comps|
  {
    if |comps| == 0 then []
    else [comps[0].id, comps[0].sampling, comps[0].quantId] + EncodeComponents(comps[1..])
  }

  /** The SOF0 payload an encoder writes. */
  function EncodeFrame(precision: byte, height: nat, width: nat, comps: seq<Component>): seq<byte>
    requires height < 0x1_0000 && width < 0x1_0000 && |comps| < 256
  {
    [precision] + ToBigEndian(height, 2) + ToBigEndian(width, 2) + [|comps|] + EncodeComponents(comps)
  }

  lemma {:induction false} ReadEncodedComponents(buf: seq<byte>, p: nat, comps: seq<Component>)
    requires p + 3 * |comps| <= |buf|
    requires buf[p..p + 3 * |comps|] == EncodeComponents(comps)
    ensures forall c :: 0 <= c < |comps| ==> ReadComponents(buf, p, |comps|)[c] == comps[c].quantId
    decreases |comps|
  {
    if |comps| > 0 {
      var e := EncodeComponents(comps);
      assert buf[p + 2] == e[2];
      assert buf[p + 3..p + 3 * |comps|] == e[3..];
      assert e[3..] == EncodeComponents(comps[1..]);
      ReadEncodedComponents(buf, p + 3, comps[1..]);
    }
  }

  /** A written frame header is read back wherever it sits in the buffer:
      height, width and each component's quantisation-table id. */
  lemma FrameRoundTrip(pre: seq<byte>, precision: byte, height: nat, width: nat, comps: seq<Component>, rest: seq<byte>)
    requires height < 0x1_0000 && width < 0x1_0000 && |comps| < 256
    ensures var seg := EncodeFrame(precision, height, width, comps);
            var r := DecodeFrameData(pre + seg + rest, |pre|, seg);
            && r.Ok? && r.value.height == height && r.value.width == width
            && |r.value.quantIds| == |comps|
            && forall c :: 0 <= c < |comps| ==> r.value.quantIds[c] == comps[c].quantId
  {
    var seg := EncodeFrame(precision, height, width, comps);
    var buf := pre + seg + rest;
    var s := |pre|;
    assert seg[5] == |comps|;
    BigEndianRoundTrip(height, 2);
    BigEndianRoundTrip(width, 2);
    var hb := ToBigEndian(height, 2);
    var wb := ToBigEndian(width, 2);
    assert buf[s + 1] == hb[0] && buf[s + 2] == hb[1];
    assert buf[s + 3] == wb[0] && buf[s + 4] == wb[1];
    assert hb == [hb[0], hb[1]] && wb == [wb[0], wb[1]];
    assert buf[s + 6..s + 6 + 3 * |comps|] == EncodeComponents(comps);
    ReadEncodedComponents(buf, s + 6, comps);
  }

  // ---------------------------------------------------------------------
  // Byte stuffing in the entropy-coded data (decodeScanData's filter)

  /** A 0x00 whose predecessor in the original data is 0xFF: the stuffing
      byte that section B.1.1.5 of ITU-T T.81 inserts after every 0xFF. */
  predicate Stuffed(s: seq<byte>, i: nat)
    requires i < |s|
  {
    s[i] == 0 && i > 0 && s[i - 1] == 0xFF
  }

  function Unstuff(s: seq<byte>): (r: seq<byte>)
    ensures |r| <= |s|
  {
    if |s| == 0 then []
    else Unstuff(s[..|s| - 1]) + (if Stuffed(s, |s| - 1) then [] else [s[|s| - 1]])
  }

  /** The encoder's side: a 0x00 after every 0xFF. */
  function Stuff(t: seq<byte>): (r: seq<byte>)
    ensures |t| > 0 ==> |r| > 0 && r[|r| - 1] != 0xFF
  {
    if |t| == 0 then []
    else Stuff(t[..|t| - 1]) + (if t[|t| - 1] == 0xFF then [0xFF, 0x00] else [t[|t| - 1]])
  }

  lemma UnstuffSnoc(a: seq<byte>, x: byte)
    ensures Unstuff(a + [x]) == Unstuff(a) + (if x == 0 && |a| > 0 && a[|a| - 1] == 0xFF then [] else [x])
  {
    assert (a + [x])[..|a|] == a;
  }

  /** Stuffing one more byte appends its stuffed form. */
  lemma StuffSnoc(t: seq<byte>, x: byte)
    ensures Stuff(t + [x]) == Stuff(t) + (if x == 0xFF then [0xFF, 0x00] else [x])
  {
    assert (t + [x])[..|t|] == t;
  }

  /** Removing the stuffing undoes inserting it. */
  lemma {:induction false} UnstuffStuff(t: seq<byte>)
    ensures Unstuff(Stuff(t)) == t
  {
    if |t| > 0 {
      var init := t[..|t| - 1];
      var x := t[|t| - 1];
      assert t == init + [x];
      UnstuffStuff(init);
      StuffSnoc(init, x);
      if x == 0xFF {
        UnstuffStuffFF(init);
      } else {
        UnstuffSnoc(Stuff(init), x);
      }
    }
  }

  lemma UnstuffStuffFF(init: seq<byte>)
    requires Unstuff(Stuff(init)) == init
    ensures Unstuff(Stuff(init) + [0xFF, 0x00]) == init + [0xFF]
  {
    var a := Stuff(init);
    assert a + [0xFF, 0x00] == (a + [0xFF]) + [0];
    UnstuffSnoc(a + [0xFF], 0);
    UnstuffSnoc(a, 0xFF);
  }

  /** `s.subarray(from)` with a start that may be negative (then counted
      from the end), as the scan header length len - 2 can be. */
  function SubArrayFrom(s: seq<byte>, from: int): (r: seq<byte>)
    ensures 0 <= from <= |s| ==> r == s[from..]
    ensures |r| <= |s|
  {
    if from >= 0 then s[Clamp(from, |s|)..] else s[Clamp(|s| + from, |s|)..]
  }

  // ---------------------------------------------------------------------
  // Decoder state and the scan (decodeScanData)

  /** One MCU of the 4:4:4 layout the source assumes: a luminance block and
      two chrominance blocks, each rearranged out of zig-zag order. */
  datatype Mcu = Mcu(y: seq<seq<int>>, cr: seq<seq<int>>, cb: seq<seq<int>>)

  /** The JpegProcessor fields. An unset height or width behaves as 0 in the
      scan loop (a comparison with NaN is false). */
  datatype JpegState = JpegState(
    quant: map<byte, seq<byte>>,
    huffman: map<byte, Trie>,
    quantMapping: seq<byte>,
    height: nat,
    width: nat,
    mcus: seq<Mcu>)

  function Initial(): JpegState
  {
    JpegState(map[], map[], [], 0, 0, [])
  }

  /** The DC predictors of the three components. */
  datatype Preds = Preds(y: int, cr: int, cb: int)

  /** The tables component `comp` decodes with: Huffman tables `index` (DC)
      and 16 + `index` (AC), and the quantisation table its frame entry
      names. */
  predicate HasTables(st: JpegState, index: byte, comp: nat)
    requires index < 16
  {
    && index in st.huffman && 16 + index in st.huffman
    && comp < |st.quantMapping| && st.quantMapping[comp] in st.quant
  }

  predicate AllTables(st: JpegState)
  {
    HasTables(st, 0, 0) && HasTables(st, 1, 1) && HasTables(st, 1, 2)
  }

  /** buildMatrix(stream, index, quant[quantMapping[comp]], prev). A missing
      table is a TypeError in the source. */
  function ComponentBlock(st: JpegState, index: byte, comp: nat, s: Stream, prev: int): (r: Result<Block, JpegError>)
    requires index < 16
    ensures !HasTables(st, index, comp) ==> r == Err(MissingTable)
    ensures r.Ok? ==> |r.value.coefs| == 64
  {
    if !HasTables(st, index, comp) then Err(MissingTable)
    else BuildMatrix(st.huffman[index], st.huffman[16 + index], st.quant[st.quantMapping[comp]], prev, s)
  }

  /** One pass of the inner scan loop: Y with tables 0/16, then Cr and Cb
      with tables 1/17; each component's predictor is its previous DC. */
  function McuStep(st: JpegState, s: Stream, p: Preds): (r: Result<(Mcu, Stream, Preds), JpegError>)
    ensures !AllTables(st) ==> r.Err?
  {
    var y :- ComponentBlock(st, 0, 0, s, p.y);
    var cr :- ComponentBlock(st, 1, 1, y.rest, p.cr);
    var cb :- ComponentBlock(st, 1, 2, cr.rest, p.cb);
    Ok((Mcu(Rearrange(y.coefs), Rearrange(cr.coefs), Rearrange(cb.coefs)), cb.rest, Preds(y.pred, cr.pred, cb.pred)))
  }

  function DecodeMcus(st: JpegState, s: Stream, p: Preds, n: nat): (r: Result<seq<Mcu>, JpegError>)
    ensures r.Ok? ==> |r.value| == n
    ensures n > 0 && !AllTables(st) ==> r.Err?
    decreases n
  {
    if n == 0 then Ok([])
    else
      var step :- McuStep(st, s, p);
      var more :- DecodeMcus(st, step.1, step.2, n - 1);
      Ok([step.0] + more)
  }

  /** floor(height / 8) rows of floor(width / 8) MCUs. */
  function McuCount(st: JpegState): nat
  {
    (st.height / 8) * (st.width / 8)
  }

  /** decodeScanData(scan, headerLength): skip the scan header, drop the
      stuffing bytes, and decode every MCU from bit 0 with all predictors 0. */
  function DecodeScanData(st: JpegState, scan: seq<byte>, headerLength: int): (r: Result<seq<Mcu>, JpegError>)
    ensures r.Ok? ==> |r.value| == McuCount(st)
    ensures McuCount(st) == 0 ==> r == Ok([])
    ensures McuCount(st) > 0 && !AllTables(st) ==> r.Err?
  {
    var entropy := Unstuff(SubArrayFrom(scan, headerLength));
    DecodeMcus(st, Open(entropy), Preds(0, 0, 0), McuCount(st))
  }

  // ---------------------------------------------------------------------
  // The marker loop (processDataChunk)

  const SOI: nat := 0xFFD8
  const EOI: nat := 0xFFD9
  const COM: nat := 0xFFFE
  const DHT: nat := 0xFFC4
  const DQT: nat := 0xFFDB
  const SOF0: nat := 0xFFC0
  const SOS: nat := 0xFFDA

  /** What the decoder has collected only grows: tables stay (possibly
      replaced), frame components and decoded MCUs are only appended. */
  predicate Extends(prev: JpegState, next: JpegState)
  {
    && prev.huffman.Keys <= next.huffman.Keys
    && prev.quant.Keys <= next.quant.Keys
    && |prev.quantMapping| <= |next.quantMapping| && next.quantMapping[..|prev.quantMapping|] == prev.quantMapping
    && |prev.mcus| <= |next.mcus| && next.mcus[..|prev.mcus|] == prev.mcus
  }

  /** The effect of a length-prefixed segment other than SOS. `start` is the
      absolute position of the payload `seg` in `buf`. Comments and unknown
      markers change nothing. */
  function ApplySegment(marker: nat, buf: seq<byte>, start: nat, seg: seq<byte>, st: JpegState): (r: Result<JpegState, JpegError>)
    ensures r.Ok? ==> Extends(st, r.value) && r.value.mcus == st.mcus
    ensures marker !in {DHT, DQT, SOF0} ==> r == Ok(st)
  {
    if marker == DHT then
      var t :- DecodeHuffman(seg);
      Ok(if t.None? then st else st.(huffman := st.huffman[t.value.0 := t.value.1]))
    else if marker == DQT then
      var q := DecodeQuantization(seg);
      Ok(if q.None? then st else st.(quant := st.quant[q.value.0 := q.value.1]))
    else if marker == SOF0 then
      var f :- DecodeFrameData(buf, start, seg);
      Ok(st.(quantMapping := st.quantMapping + f.quantIds, height := f.height, width := f.width))
    else Ok(st)
  }

  /** Where one pass of the marker loop leaves the decoder. */
  datatype Next = Stop(st: JpegState) | Resume(at: nat, st: JpegState)

  /** One pass of the `while (true)` loop at a marker at `pos`: start of
      image is skipped, end of image stops, a scan is decoded and the loop
      goes on two bytes before the end of the data (where end of image is
      expected), and any other segment is applied and skipped by its
      length. Every pass moves past at least the two marker bytes. */
  function Step(data: seq<byte>, pos: nat, st: JpegState): (r: Result<Next, JpegError>)
    ensures r.Ok? ==> Extends(st, r.value.st)
    ensures r.Ok? && r.value.Resume? ==> r.value.at > pos
    ensures pos + 2 > |data| ==> r == Err(OutOfRange)
  {
    if pos + 2 > |data| then Err(OutOfRange)
    else
      var marker := U16(data[pos], data[pos + 1]);
      var p := pos + 2;
      if marker == SOI then Ok(Resume(p, st))
      else if marker == EOI then Ok(Stop(st))
      else if p + 2 > |data| then Err(OutOfRange)
      else
        var len := U16(data[p], data[p + 1]);
        if marker == SOS then
          var mcus :- DecodeScanData(st, SubArray(data, p + 2, |data| - 2), len - 2);
          Ok(Resume(|data| - 2, st.(mcus := st.mcus + mcus)))
        else
          var st1 :- ApplySegment(marker, data, p + 2, SubArray(data, p + 2, p + len), st);
          Ok(Resume(p + len, st1))
  }

  /** The marker loop from `pos`. Resuming past the end of the data fails
      exactly as the next marker read there would. */
  function ProcessFrom(data: seq<byte>, pos: nat, st: JpegState): (r: Result<JpegState, JpegError>)
    ensures r.Ok? ==> Extends(st, r.value)
    decreases |data| - pos
  {
    var next :- Step(data, pos, st);
    match next
    case Stop(fin) => Ok(fin)
    case Resume(at, st1) => if at > |data| then Err(OutOfRange) else ProcessFrom(data, at, st1)
  }

  /** processDataChunk on a whole file, from a fresh decoder. */
  function ProcessDataChunk(data: seq<byte>): (r: Result<JpegState, JpegError>)
    ensures |data| < 2 ==> r == Err(OutOfRange)
  {
    ProcessFrom(data, 0, Initial())
  }

  /** A segment as an encoder writes it: marker, then a length that counts
      itself and the payload. */
  function EncodeSegment(marker: nat, payload: seq<byte>): seq<byte>
    requires marker < 0x1_0000 && |payload| + 2 < 0x1_0000
  {
    ToBigEndian(marker, 2) + ToBigEndian(|payload| + 2, 2) + payload
  }

  lemma ReadSegmentHeader(pre: seq<byte>, marker: nat, payload: seq<byte>, rest: seq<byte>)
    requires marker < 0x1_0000 && |payload| + 2 < 0x1_0000
    ensures var data := pre + EncodeSegment(marker, payload) + rest;
            var p := |pre|;
            && |data| >= p + 4
            && U16(data[p], data[p + 1]) == marker
            && U16(data[p + 2], data[p + 3]) == |payload| + 2
            && SubArray(data, p + 4, p + 2 + |payload| + 2) == payload
  {
    var data := pre + EncodeSegment(marker, payload) + rest;
    var p := |pre|;
    var m := ToBigEndian(marker, 2);
    var l := ToBigEndian(|payload| + 2, 2);
    BigEndianRoundTrip(marker, 2);
    BigEndianRoundTrip(|payload| + 2, 2);
    assert m == [m[0], m[1]] && l == [l[0], l[1]];
    assert data[p] == m[0] && data[p + 1] == m[1];
    assert data[p + 2] == l[0] && data[p + 3] == l[1];
    assert data[p + 4..p + 4 + |payload|] == payload;
  }

  /** A pass over a length-prefixed segment other than a scan applies the
      segment's payload and resumes right after it. */
  lemma StepOverSegment(data: seq<byte>, pos: nat, st: JpegState)
    requires pos + 4 <= |data|
    requires U16(data[pos], data[pos + 1]) !in {SOI, EOI, SOS}
    ensures var marker := U16(data[pos], data[pos + 1]);
            var len := U16(data[pos + 2], data[pos + 3]);
            var applied := ApplySegment(marker, data, pos + 4, SubArray(data, pos + 4, pos + 2 + len), st);
            Step(data, pos, st) == if applied.Err? then Err(applied.error) else Ok(Resume(pos + 2 + len, applied.value))
  {
  }

  /** Applying a written Huffman table segment installs the table. */
  lemma ApplyDht(buf: seq<byte>, start: nat, id: byte, lengths: seq<byte>, symbols: seq<byte>, st: JpegState)
    requires |lengths| == 16 && |symbols| == Sum(lengths)
    ensures ApplySegment(DHT, buf, start, EncodeHuffman(id, lengths, symbols), st)
         == Ok(st.(huffman := st.huffman[id := Build(lengths, symbols)]))
  {
    var payload := EncodeHuffman(id, lengths, symbols);
    HuffmanRoundTrip(id, lengths, symbols, []);
    assert payload + [] == payload;
  }

  /** A segment with a marker the loop does not know is skipped whole and
      leaves the state unchanged. */
  lemma UnknownSegmentSkipped(pre: seq<byte>, marker: nat, payload: seq<byte>, rest: seq<byte>, st: JpegState)
    requires marker < 0x1_0000 && |payload| + 2 < 0x1_0000
    requires marker !in {SOI, EOI, SOS, DHT, DQT, SOF0}
    ensures var seg := EncodeSegment(marker, payload);
            Step(pre + seg + rest, |pre|, st) == Ok(Resume(|pre| + |seg|, st))
  {
    var data := pre + EncodeSegment(marker, payload) + rest;
    ReadSegmentHeader(pre, marker, payload, rest);
    StepOverSegment(data, |pre|, st);
  }

  /** After a pass that resumes inside the data, the loop is the loop from
      the new position. */
  lemma ProcessFromResumes(data: seq<byte>, pos: nat, st: JpegState, at: nat, st1: JpegState)
    requires Step(data, pos, st) == Ok(Resume(at, st1)) && at <= |data|
    ensures ProcessFrom(data, pos, st) == ProcessFrom(data, at, st1)
  {
  }

  /** The end-of-image marker stops the loop with the state as it is. */
  lemma EndOfImage(pre: seq<byte>, rest: seq<byte>, st: JpegState)
    ensures ProcessFrom(pre + [0xFF, 0xD9] + rest, |pre|, st) == Ok(st)
  {
    var data := pre + [0xFF, 0xD9] + rest;
    assert data[|pre|] == 0xFF && data[|pre| + 1] == 0xD9;
  }

  /** A frame header that ends after the width has no component count: the
      count is `undefined`, the component loop does not run, and the height
      and width are still read (the width from the two bytes after the
      segment). */
  lemma FrameWithoutComponents()
    ensures var data: seq<byte> := [0xFF, 0xD8, 0xFF, 0xC0, 0x00, 0x05, 0x08, 0x00, 0x10, 0xFF, 0xD9];
            var r := ProcessDataChunk(data);
            && r.Ok? && r.value.height == 16 && r.value.width == 0xFFD9
            && r.value.quantMapping == [] && r.value.mcus == []
  {
    var data: seq<byte> := [0xFF, 0xD8, 0xFF, 0xC0, 0x00, 0x05, 0x08, 0x00, 0x10, 0xFF, 0xD9];
    assert U16(data[0], data[1]) == SOI;
    assert Step(data, 0, Initial()) == Ok(Resume(2, Initial()));
    var seg := SubArray(data, 6, 9);
    assert seg == [0x08, 0x00, 0x10];
    assert U16(data[2], data[3]) == SOF0 && U16(data[4], data[5]) == 5;
    var f := DecodeFrameData(data, 6, seg);
    assert f.Ok? && f.value.height == 16 && f.value.width == 0xFFD9 && f.value.quantIds == [];
    var st1 := Initial().(quantMapping := [], height := 16, width := 0xFFD9);
    assert Step(data, 2, Initial()) == Ok(Resume(9, st1));
    assert U16(data[9], data[10]) == EOI;
    assert Step(data, 9, st1) == Ok(Stop(st1));
  }
}
