/** The PNG container as browser/png.ts walks it (PngProcessor): the
    signature, chunk headers, the IHDR, pHYs, tIME and tEXt payloads, the
    accumulation of IDAT data and the final RGBA image at IEND. The inflate
    step (pako's Inflate in the source) is a parameter. */
module PngDecoder {
  import opened Bytes
  import opened Results
  import opened PngFilter
  import opened PngImage

  /** The eight bytes every PNG datastream starts with (section 5.2 of the
      PNG Specification). */
  const Signature: seq<byte> := [137, 80, 78, 71, 13, 10, 26, 10]

  /** The magic-byte check: the first eight bytes (fewer if the data is
      shorter) must be the signature; decoding goes on at position 8. */
  function CheckSignature(data: seq<byte>): (r: Result<nat, PngError>)
    ensures r.Ok? <==> |data| >= 8 && data[..8] == Signature
    ensures r.Ok? ==> r.value == 8
    ensures r.Err? ==> r.error == NotPng
  {
    var magic := SubArray(data, 0, 8);
    if magic != Signature then Err(NotPng) else Ok(8)
  }

  /** DataView.getUint32 at pos: big-endian, throwing past the end. */
  function ReadU32(data: seq<byte>, pos: nat): (r: Result<nat, PngError>)
    ensures r.Ok? <==> pos + 4 <= |data|
    ensures r.Ok? ==> r.value == BigEndian(data[pos..pos + 4]) && r.value < 0x1_0000_0000
    ensures r.Err? ==> r.error == OutOfRange
  {
    if pos + 4 > |data| then Err(OutOfRange)
    else
      assert Pow256(4) == 0x1_0000_0000 by {
        assert Pow256(2) == 0x1_0000;
      }
      Ok(BigEndian(data[pos..pos + 4]))
  }

  /** DataView.getUint8 at pos, throwing past the end. */
  function ReadU8(data: seq<byte>, pos: nat): (r: Result<byte, PngError>)
    ensures r.Ok? <==> pos < |data|
    ensures r.Ok? ==> r.value == data[pos]
  {
    if pos < |data| then Ok(data[pos]) else Err(OutOfRange)
  }

  /** Bytes as characters, one each (String.fromCharCode of every byte, and
      TextDecoder for ISO-8859-1). */
  function Latin1(s: seq<byte>): (r: string)
    ensures |r| == |s|
    ensures forall i :: 0 <= i < |s| ==> r[i] as int == s[i] as int
  {
    seq(|s|, i => if 0 <= i < |s| then s[i] as char else 0 as char)
  }

  /** readString(dataView, n): n one-byte characters from pos. */
  function ReadString(data: seq<byte>, pos: nat, n: nat): (r: Result<string, PngError>)
    ensures r.Ok? <==> pos + n <= |data|
    ensures r.Ok? ==> r.value == Latin1(data[pos..pos + n])
  {
    if pos + n > |data| then Err(OutOfRange) else Ok(Latin1(data[pos..pos + n]))
  }

  datatype ChunkHeader = ChunkHeader(kind: string, length: nat)

  /** parseChunkHeader: a big-endian length and a four-character type; the
      result carries the position after them. */
  function ParseChunkHeader(data: seq<byte>, pos: nat): (r: Result<(ChunkHeader, nat), PngError>)
    ensures r.Ok? <==> pos + 8 <= |data|
    ensures r.Err? ==> r.error == OutOfRange
    ensures r.Ok? ==> r.value.1 == pos + 8 && |r.value.0.kind| == 4 && r.value.0.length < 0x1_0000_0000
  {
    var length :- ReadU32(data, pos);
    var kind :- ReadString(data, pos + 4, 4);
    Ok((ChunkHeader(kind, length), pos + 8))
  }

  /** The chunk header at pos reads as the given type and length. */
  predicate HeaderAt(data: seq<byte>, pos: nat, name: string, len: nat)
  {
    && ParseChunkHeader(data, pos).Ok?
    && ParseChunkHeader(data, pos).value.0.kind == name
    && ParseChunkHeader(data, pos).value.0.length == len
  }

  /** advanceChunkEnd: the four CRC bytes are skipped without being checked. */
  function AdvanceChunkEnd(pos: nat): nat
  {
    pos + 4
  }

  /** parseIHDR: width and height as big-endian 32-bit values, then five
      one-byte fields. The position moves over these 13 bytes and the CRC,
      whatever length the chunk header declared. */
  function ParseIhdr(data: seq<byte>, pos: nat): (r: Result<(Header, nat), PngError>)
    ensures r.Ok? <==> pos + 13 <= |data|
    ensures r.Ok? ==> r.value.1 == pos + 17
    ensures r.Ok? ==> var h := r.value.0;
                      && h.width == BigEndian(data[pos..pos + 4])
                      && h.height == BigEndian(data[pos + 4..pos + 8])
                      && [h.bitDepth, h.colorType, h.compression, h.filterMethod, h.interlace] == data[pos + 8..pos + 13]
  {
    var width :- ReadU32(data, pos);
    var height :- ReadU32(data, pos + 4);
    var bitDepth :- ReadU8(data, pos + 8);
    var colorType :- ReadU8(data, pos + 9);
    var compression :- ReadU8(data, pos + 10);
    var filterMethod :- ReadU8(data, pos + 11);
    var interlace :- ReadU8(data, pos + 12);
    Ok((Header(width, height, bitDepth, colorType, compression, filterMethod, interlace), AdvanceChunkEnd(pos + 13)))
  }

  /** Pixels per unit along x and y, and the unit specifier (pHYs). */
  datatype Phys = Phys(ppuX: nat, ppuY: nat, unit: byte)

  /** parsePHYS: two big-endian 32-bit values and one byte, then the CRC. */
  function ParsePhys(data: seq<byte>, pos: nat): (r: Result<(Phys, nat), PngError>)
    ensures r.Ok? <==> pos + 9 <= |data|
    ensures r.Ok? ==> r.value.1 == pos + 13
  {
    var x :- ReadU32(data, pos);
    var y :- ReadU32(data, pos + 4);
    var unit :- ReadU8(data, pos + 8);
    Ok((Phys(x, y, unit), AdvanceChunkEnd(pos + 9)))
  }

  /** The raw fields of a tIME chunk; the calendar conversion is not
      modelled. */
  datatype Time = Time(year: nat, month: byte, day: byte, hour: byte, minute: byte, second: byte)

  /** parseTIME: a big-endian 16-bit year and five one-byte fields. */
  function ParseTime(data: seq<byte>, pos: nat): (r: Result<(Time, nat), PngError>)
    ensures r.Ok? <==> pos + 7 <= |data|
    ensures r.Ok? ==> r.value.1 == pos + 11
    ensures r.Ok? ==> r.value.0.year == BigEndian(data[pos..pos + 2])
  {
    if pos + 2 > |data| then Err(OutOfRange)
    else
      var year := U16(data[pos], data[pos + 1]);
      assert data[pos..pos + 2] == [data[pos], data[pos + 1]];
      var month :- ReadU8(data, pos + 2);
      var day :- ReadU8(data, pos + 3);
      var hour :- ReadU8(data, pos + 4);
      var minute :- ReadU8(data, pos + 5);
      var second :- ReadU8(data, pos + 6);
      Ok((Time(year, month, day, hour, minute, second), AdvanceChunkEnd(pos + 7)))
  }

  /** Array.prototype.findIndex for the first zero byte: -1 when there is
      none. */
  function FindZero(s: seq<byte>): (r: int)
    ensures -1 <= r < |s|
    ensures r >= 0 ==> s[r] == 0
  {
    if |s| == 0 then -1
    else if s[0] == 0 then 0
    else
      var k := FindZero(s[1..]);
      if k == -1 then -1 else k + 1
  }

  /** FindZero finds the first zero byte, and -1 exactly when there is
      none. */
  lemma {:induction false} FindZeroFirst(s: seq<byte>)
    ensures FindZero(s) == -1 <==> 0 !in s
    ensures FindZero(s) >= 0 ==> 0 !in s[..FindZero(s)]
  {
    if |s| > 0 && s[0] != 0 {
      FindZeroFirst(s[1..]);
      var k := FindZero(s[1..]);
      if k >= 0 {
        assert s[..k + 1] == [s[0]] + s[1..][..k];
      } else {
        assert s == [s[0]] + s[1..];
      }
    }
  }

  /** parseTEXT(arr, chunkLen): the bytes of the keyword and of the text,
      split at the first zero byte of the payload, and the position after
      the CRC. With no zero byte the keyword is empty and the text is the
      whole payload. */
  function ParseText(data: seq<byte>, pos: nat, len: nat): (r: (seq<byte>, seq<byte>, nat))
    ensures r.2 == pos + len + 4
  {
    var payload := SubArray(data, pos, pos + len);
    var zeroIndex := FindZero(payload);
    if zeroIndex >= 0 then (payload[..zeroIndex], payload[zeroIndex + 1..], AdvanceChunkEnd(pos + len))
    else ([], payload, AdvanceChunkEnd(pos + len))
  }

  /** The keyword and text are what the source's subarray calls select:
      arr.subarray(pos, pos + zeroIndex) and
      arr.subarray(pos + zeroIndex + 1, pos + len). With no zero byte
      (zeroIndex is -1) the first of these ends at pos - 1, before it starts
      (the position is past the signature, so pos - 1 is not negative), and
      is empty, and the second is the whole payload. */
  lemma ParseTextSlices(data: seq<byte>, pos: nat, len: nat)
    ensures var z := FindZero(SubArray(data, pos, pos + len));
            var r := ParseText(data, pos, len);
            if z >= 0 then r.0 == SubArray(data, pos, pos + z) && r.1 == SubArray(data, pos + z + 1, pos + len)
            else r.0 == [] && r.1 == SubArray(data, pos, pos + len)
  {
    var payload := SubArray(data, pos, pos + len);
    var z := FindZero(payload);
    var r := ParseText(data, pos, len);
    if z >= 0 {
      assert r.0 == payload[..z] && r.1 == payload[z + 1..];
      SubArrayHead(data, pos, len, z);
      assert r.0 == SubArray(data, pos, pos + z);
      SubArrayTail(data, pos, len, z + 1);
      assert r.1 == SubArray(data, pos + z + 1, pos + len);
    } else {
      assert r.1 == payload;
    }
  }

  /** The keyword is what precedes the first zero byte of the payload and
      the text what follows it; the separator is in neither. */
  lemma ParseTextSplit(data: seq<byte>, pos: nat, len: nat)
    ensures var payload := SubArray(data, pos, pos + len);
            var r := ParseText(data, pos, len);
            && (0 in payload ==> payload == r.0 + [0] + r.1 && 0 !in r.0)
            && (0 !in payload ==> r.0 == [] && r.1 == payload)
  {
    var payload := SubArray(data, pos, pos + len);
    var z := FindZero(payload);
    FindZeroFirst(payload);
    if z >= 0 {
      SplitAt(payload, z, 0);
    }
  }

  /** Where pako's Inflate stands after everything pushed so far: still
      waiting for more input, ended with the inflated bytes as its result,
      or ended on a data error with no result. */
  datatype Inflated = Pending | Ended(result: seq<byte>) | Failed

  /** pako's Inflate, as a function of all the bytes pushed to it. */
  type Inflate = seq<byte> -> Inflated

  /** Everything the processor has collected. */
  datatype Decoder = Decoder(
    header: Option<Header>,
    phys: Option<Phys>,
    time: Option<Time>,
    meta: map<string, string>,
    compressed: seq<byte>,
    pixels: Option<seq<byte>>)

  /** The one key a plain object's assignment does not store: `__proto__`
      is an accessor on Object.prototype whose setter ignores a string. */
  const ProtoKey: string := "__proto__"

  /** `meta[key] = value` on the plain object that holds the text chunks. */
  function SetMeta(meta: map<string, string>, key: string, value: string): (r: map<string, string>)
    ensures key == ProtoKey ==> r == meta
    ensures key != ProtoKey ==> key in r && r[key] == value
    ensures forall k :: k != key ==> (k in r <==> k in meta)
    ensures forall k :: k != key && k in meta ==> r[k] == meta[k]
  {
    if key == ProtoKey then meta else meta[key := value]
  }

  function Initial(): Decoder
  {
    Decoder(None, None, None, map[], [], None)
  }

  /** parseIDAT(arr, chunkLen): the payload is pushed to the inflater; an
      interlace method other than 0 (including none, before any IHDR) is
      refused; once the stream has ended its output is unfiltered into the
      pixel data. A stream that ended on a data error leaves the result
      `undefined`: undoFilters still checks the filter method and the bytes
      per pixel first, then fails reading its length. */
  function ParseIdat(data: seq<byte>, pos: nat, len: nat, st: Decoder, inflate: Inflate): (r: Result<Decoder, PngError>)
    ensures r.Ok? ==> r.value.compressed == st.compressed + SubArray(data, pos, pos + len)
    ensures r.Ok? ==> r.value.header == st.header && r.value.meta == st.meta
    ensures r.Ok? ==> !inflate(st.compressed + SubArray(data, pos, pos + len)).Failed?
    ensures r.Ok? && r.value.pixels != st.pixels ==> inflate(st.compressed + SubArray(data, pos, pos + len)).Ended?
    ensures st.header.None? || st.header.value.interlace != 0 ==> r == Err(InterlaceUnsupported)
    ensures inflate(st.compressed + SubArray(data, pos, pos + len)).Failed? ==> r.Err?
  {
    var compressed := st.compressed + SubArray(data, pos, pos + len);
    if st.header.None? || st.header.value.interlace != 0 then Err(InterlaceUnsupported)
    else
      var h := st.header.value;
      match inflate(compressed)
      case Pending => Ok(st.(compressed := compressed))
      case Failed =>
        if h.filterMethod != 0 then Err(UnknownFilterMethod)
        else
          var bpp :- BytesPerPixel(h.bitDepth, h.colorType);
          Err(NoInflatedData)
      case Ended(out) =>
        var px :- UndoFilters(h, out);
        Ok(st.(compressed := compressed, pixels := Some(px)))
  }

  /** Where one pass of the chunk loop leaves the processor. */
  datatype Next = Stop(st: Decoder) | Resume(at: nat, st: Decoder)

  /** The chunk types the `switch` of processDataChunk distinguishes. */
  datatype ChunkKind = IhdrChunk | PhysChunk | TimeChunk | TextChunk | IdatChunk | IendChunk | OtherChunk

  function KindOf(name: string): ChunkKind
  {
    match name
    case "IHDR" => IhdrChunk
    case "pHYs" => PhysChunk
    case "tIME" => TimeChunk
    case "tEXt" => TextChunk
    case "IDAT" => IdatChunk
    case "IEND" => IendChunk
    case _ => OtherChunk
  }

  /** One pass of the `while (true)` loop of processDataChunk at a chunk
      starting at pos. IEND stops; every other chunk moves the position
      forward by at least its 12 bytes of framing. */
  function Step(data: seq<byte>, pos: nat, st: Decoder, inflate: Inflate): (r: Result<Next, PngError>)
    ensures pos + 8 > |data| ==> r == Err(OutOfRange)
    ensures r.Ok? && r.value.Resume? ==> r.value.at >= pos + 12
  {
    var (hdr, p) :- ParseChunkHeader(data, pos);
    match KindOf(hdr.kind)
    case IhdrChunk =>
      var (h, q) :- ParseIhdr(data, p);
      Ok(Resume(q, st.(header := Some(h))))
    case PhysChunk =>
      var (ph, q) :- ParsePhys(data, p);
      Ok(Resume(q, st.(phys := Some(ph))))
    case TimeChunk =>
      var (t, q) :- ParseTime(data, p);
      Ok(Resume(q, st.(time := Some(t))))
    case TextChunk =>
      var (keyword, text, q) := ParseText(data, p, hdr.length);
      Ok(Resume(q, st.(meta := SetMeta(st.meta, Latin1(keyword), Latin1(text)))))
    case IdatChunk =>
      var st1 :- ParseIdat(data, p, hdr.length, st, inflate);
      Ok(Resume(AdvanceChunkEnd(p + hdr.length), st1))
    case IendChunk => Ok(Stop(st))
    case OtherChunk => Ok(Resume(AdvanceChunkEnd(p + hdr.length), st))
  }

  /** What decoding produces: the collected fields, and the RGBA image drawn
      at IEND (none when no pixel data was ever complete). */
  datatype Decoded = Decoded(st: Decoder, image: Option<seq<byte>>)

  /** drawImage: without pixel data nothing is drawn; otherwise the pixels
      are laid out as RGBA. The header is always present with pixel data,
      since IDAT refuses to run without one. */
  function DrawImage(st: Decoder): (r: Result<Decoded, PngError>)
    ensures st.pixels.None? ==> r == Ok(Decoded(st, None))
    ensures r.Ok? ==> r.value.st == st
  {
    if st.pixels.None? || st.header.None? then Ok(Decoded(st, None))
    else
      var image :- ToImageData(st.header.value, st.pixels.value);
      Ok(Decoded(st, Some(image)))
  }

  /** The chunk loop from pos until IEND or an error. */
  function ProcessFrom(data: seq<byte>, pos: nat, st: Decoder, inflate: Inflate): (r: Result<Decoded, PngError>)
    decreases |data| - pos
  {
    var next :- Step(data, pos, st, inflate);
    match next
    case Stop(fin) => DrawImage(fin)
    case Resume(at, st1) => ProcessFrom(data, at, st1, inflate)
  }

  /** processDataChunk on a whole file, from a fresh processor. */
  function ProcessDataChunk(data: seq<byte>, inflate: Inflate): (r: Result<Decoded, PngError>)
    ensures !(|data| >= 8 && data[..8] == Signature) ==> r == Err(NotPng)
  {
    var pos :- CheckSignature(data);
    ProcessFrom(data, pos, Initial(), inflate)
  }

  // ---------------------------------------------------------------------
  // The encoder's side and the properties relating the two

  /** A chunk as an encoder writes it: length, type, payload and CRC. */
  function EncodeChunk(kind: seq<byte>, payload: seq<byte>, crc: seq<byte>): (r: seq<byte>)
    requires |kind| == 4 && |crc| == 4 && |payload| < 0x1_0000_0000
    ensures |r| == |payload| + 12
  {
    ToBigEndian(|payload|, 4) + kind + payload + crc
  }

  lemma Pow256Four()
    ensures Pow256(4) == 0x1_0000_0000
  {
    assert Pow256(2) == 0x1_0000;
  }

  /** A written chunk reads back: its header gives the payload length and
      the type, and the payload follows it. */
  lemma ReadChunk(pre: seq<byte>, kind: seq<byte>, payload: seq<byte>, crc: seq<byte>, rest: seq<byte>)
    requires |kind| == 4 && |crc| == 4 && |payload| < 0x1_0000_0000
    ensures var data := pre + EncodeChunk(kind, payload, crc) + rest;
            && HeaderAt(data, |pre|, Latin1(kind), |payload|)
            && data[|pre| + 8..|pre| + 8 + |payload|] == payload
            && SubArray(data, |pre| + 8, |pre| + 8 + |payload|) == payload
  {
    var data := pre + EncodeChunk(kind, payload, crc) + rest;
    var p := |pre|;
    Pow256Four();
    BigEndianRoundTrip(|payload|, 4);
    assert data[p..p + 4] == ToBigEndian(|payload|, 4);
    assert data[p + 4..p + 8] == kind;
    assert data[p + 8..p + 8 + |payload|] == payload;
  }

  /** The type codes the processor recognises, as bytes. */
  const IHDR: seq<byte> := [73, 72, 68, 82]
  const PHYS: seq<byte> := [112, 72, 89, 115]
  const TIME: seq<byte> := [116, 73, 77, 69]
  const TEXT: seq<byte> := [116, 69, 88, 116]
  const IDAT: seq<byte> := [73, 68, 65, 84]
  const IEND: seq<byte> := [73, 69, 78, 68]

  /** The type strings read from those bytes are the ones the loop matches. */
  lemma KindNames()
    ensures KindOf(Latin1(IHDR)) == IhdrChunk && KindOf(Latin1(PHYS)) == PhysChunk
    ensures KindOf(Latin1(TIME)) == TimeChunk && KindOf(Latin1(TEXT)) == TextChunk
    ensures KindOf(Latin1(IDAT)) == IdatChunk && KindOf(Latin1(IEND)) == IendChunk
  {
    assert Latin1(IHDR) == ['I', 'H', 'D', 'R'];
    assert Latin1(PHYS) == ['p', 'H', 'Y', 's'];
    assert Latin1(TIME) == ['t', 'I', 'M', 'E'];
    assert Latin1(TEXT) == ['t', 'E', 'X', 't'];
    assert Latin1(IDAT) == ['I', 'D', 'A', 'T'];
    assert Latin1(IEND) == ['I', 'E', 'N', 'D'];
  }

  predicate Known(kind: seq<byte>)
  {
    kind in {IHDR, PHYS, TIME, TEXT, IDAT, IEND}
  }

  lemma {:induction false} Latin1Injective(a: seq<byte>, b: seq<byte>)
    requires Latin1(a) == Latin1(b)
    ensures a == b
  {
    assert |a| == |b|;
    forall i | 0 <= i < |a|
      ensures a[i] == b[i]
    {
      assert Latin1(a)[i] == Latin1(b)[i];
    }
  }

  /** A chunk of a type the processor does not know (any ancillary chunk
      besides pHYs, tIME and tEXt) is skipped whole: the position moves by
      length + 12 and nothing is recorded. */
  lemma UnknownChunkSkipped(pre: seq<byte>, kind: seq<byte>, payload: seq<byte>, crc: seq<byte>, rest: seq<byte>, st: Decoder, inflate: Inflate)
    requires |kind| == 4 && |crc| == 4 && |payload| < 0x1_0000_0000 && !Known(kind)
    ensures var chunk := EncodeChunk(kind, payload, crc);
            Step(pre + chunk + rest, |pre|, st, inflate) == Ok(Resume(|pre| + |chunk|, st))
  {
    ReadChunk(pre, kind, payload, crc, rest);
    OtherKind(kind);
    StepOther(pre + EncodeChunk(kind, payload, crc) + rest, |pre|, Latin1(kind), |payload|, st, inflate);
  }

  /** Only the six type codes the loop knows select one of its cases. */
  lemma OtherKind(kind: seq<byte>)
    requires !Known(kind)
    ensures KindOf(Latin1(kind)) == OtherChunk
  {
    KindNames();
    var k := KindOf(Latin1(kind));
    if k == IhdrChunk { Latin1Injective(kind, IHDR); }
    else if k == PhysChunk { Latin1Injective(kind, PHYS); }
    else if k == TimeChunk { Latin1Injective(kind, TIME); }
    else if k == TextChunk { Latin1Injective(kind, TEXT); }
    else if k == IdatChunk { Latin1Injective(kind, IDAT); }
    else if k == IendChunk { Latin1Injective(kind, IEND); }
  }

  /** The pass over a chunk of a type the loop does not know, spelled out. */
  lemma StepOther(data: seq<byte>, pos: nat, name: string, len: nat, st: Decoder, inflate: Inflate)
    requires HeaderAt(data, pos, name, len) && KindOf(name) == OtherChunk
    ensures Step(data, pos, st, inflate) == Ok(Resume(pos + len + 12, st))
  {
  }

  /** After a pass that resumes, the loop is the loop from the new position;
      so skipped chunks do not affect the outcome. */
  lemma ProcessFromResumes(data: seq<byte>, pos: nat, st: Decoder, inflate: Inflate, at: nat, st1: Decoder)
    requires Step(data, pos, st, inflate) == Ok(Resume(at, st1))
    ensures ProcessFrom(data, pos, st, inflate) == ProcessFrom(data, at, st1, inflate)
  {
  }

  /** A tEXt chunk whose keyword holds no zero byte records exactly that
      keyword and text, except that the keyword `__proto__` records nothing. */
  lemma TextChunkRecorded(pre: seq<byte>, keyword: seq<byte>, text: seq<byte>, crc: seq<byte>, rest: seq<byte>, st: Decoder, inflate: Inflate)
    requires |crc| == 4 && |keyword| + 1 + |text| < 0x1_0000_0000 && 0 !in keyword
    ensures var chunk := EncodeChunk(TEXT, keyword + [0] + text, crc);
            && Step(pre + chunk + rest, |pre|, st, inflate).Ok?
            && Step(pre + chunk + rest, |pre|, st, inflate).value
               == Resume(|pre| + |chunk|, st.(meta := if Latin1(keyword) == ProtoKey then st.meta else st.meta[Latin1(keyword) := Latin1(text)]))
  {
    var payload := keyword + [0] + text;
    var data := pre + EncodeChunk(TEXT, payload, crc) + rest;
    ReadChunk(pre, TEXT, payload, crc, rest);
    KindNames();
    var chunk := EncodeChunk(TEXT, payload, crc);
    assert |pre| + |chunk| == |pre| + |keyword| + 1 + |text| + 12;
    StepTextPayload(data, |pre|, keyword, text, st, inflate);
  }

  /** A pass over a tEXt chunk whose payload is a keyword, a zero byte and
      a text. */
  lemma StepTextPayload(data: seq<byte>, pos: nat, keyword: seq<byte>, text: seq<byte>, st: Decoder, inflate: Inflate)
    requires 0 !in keyword
    requires var len := |keyword| + 1 + |text|;
             && HeaderAt(data, pos, Latin1(TEXT), len)
             && SubArray(data, pos + 8, pos + 8 + len) == keyword + [0] + text
    ensures var len := |keyword| + 1 + |text|;
            && Step(data, pos, st, inflate).Ok?
            && Step(data, pos, st, inflate).value == Resume(pos + len + 12, st.(meta := if Latin1(keyword) == ProtoKey then st.meta else st.meta[Latin1(keyword) := Latin1(text)]))
  {
    var len := |keyword| + 1 + |text|;
    KindNames();
    ParseTextOf(data, pos + 8, len, keyword, text);
    StepText(data, pos, Latin1(TEXT), len, keyword, text, st, inflate);
  }

  /** A payload made of a zero-free keyword, a zero byte and a text parses
      into exactly that keyword and text. */
  lemma ParseTextOf(data: seq<byte>, pos: nat, len: nat, keyword: seq<byte>, text: seq<byte>)
    requires SubArray(data, pos, pos + len) == keyword + [0] + text && 0 !in keyword
    ensures ParseText(data, pos, len).0 == keyword && ParseText(data, pos, len).1 == text
  {
    var payload := SubArray(data, pos, pos + len);
    FindZeroOf(keyword, text);
    assert FindZero(payload) == |keyword|;
    assert payload[..|keyword|] == keyword by {
      assert (keyword + [0] + text)[..|keyword|] == keyword;
    }
    assert payload[|keyword| + 1..] == text by {
      assert (keyword + [0] + text)[|keyword| + 1..] == text;
    }
  }

  /** The pass over a tEXt chunk, spelled out. */
  lemma StepText(data: seq<byte>, pos: nat, name: string, len: nat, keyword: seq<byte>, text: seq<byte>, st: Decoder, inflate: Inflate)
    requires HeaderAt(data, pos, name, len) && KindOf(name) == TextChunk
    requires ParseText(data, pos + 8, len).0 == keyword && ParseText(data, pos + 8, len).1 == text
    ensures && Step(data, pos, st, inflate).Ok?
            && Step(data, pos, st, inflate).value == Resume(pos + len + 12, st.(meta := if Latin1(keyword) == ProtoKey then st.meta else st.meta[Latin1(keyword) := Latin1(text)]))
  {
  }

  /** The first zero after a zero-free prefix is the one that ends it. */
  lemma {:induction false} FindZeroOf(a: seq<byte>, b: seq<byte>)
    requires 0 !in a
    ensures FindZero(a + [0] + b) == |a|
  {
    if |a| > 0 {
      FindZeroOf(a[1..], b);
      assert (a + [0] + b)[1..] == a[1..] + [0] + b;
    }
  }

  /** The IHDR payload of a header. */
  function EncodeIhdr(h: Header): (r: seq<byte>)
    requires h.width < 0x1_0000_0000 && h.height < 0x1_0000_0000
    ensures |r| == 13
  {
    ToBigEndian(h.width, 4) + ToBigEndian(h.height, 4)
    + [h.bitDepth, h.colorType, h.compression, h.filterMethod, h.interlace]
  }

  /** A written IHDR chunk installs exactly its header and resumes after the
      chunk. */
  lemma IhdrChunkRecorded(pre: seq<byte>, h: Header, crc: seq<byte>, rest: seq<byte>, st: Decoder, inflate: Inflate)
    requires |crc| == 4 && h.width < 0x1_0000_0000 && h.height < 0x1_0000_0000
    ensures var chunk := EncodeChunk(IHDR, EncodeIhdr(h), crc);
            Step(pre + chunk + rest, |pre|, st, inflate) == Ok(Resume(|pre| + |chunk|, st.(header := Some(h))))
  {
    var payload := EncodeIhdr(h);
    var data := pre + EncodeChunk(IHDR, payload, crc) + rest;
    var p := |pre| + 8;
    ReadChunk(pre, IHDR, payload, crc, rest);
    KindNames();
    Pow256Four();
    BigEndianRoundTrip(h.width, 4);
    BigEndianRoundTrip(h.height, 4);
    assert data[p..p + 13] == payload;
    assert data[p..p + 4] == ToBigEndian(h.width, 4);
    assert data[p + 4..p + 8] == ToBigEndian(h.height, 4);
    assert data[p + 8..p + 13] == [h.bitDepth, h.colorType, h.compression, h.filterMethod, h.interlace];
    var (h1, q) := ParseIhdr(data, p).value;
    assert h1 == h;
  }

  /** A file that is the signature, an IHDR chunk and an IEND chunk decodes
      to that header and draws nothing. */
  lemma HeaderOnlyFile(h: Header, crc1: seq<byte>, crc2: seq<byte>, inflate: Inflate)
    requires |crc1| == 4 && |crc2| == 4 && h.width < 0x1_0000_0000 && h.height < 0x1_0000_0000
    ensures var data := Signature + EncodeChunk(IHDR, EncodeIhdr(h), crc1) + EncodeChunk(IEND, [], crc2);
            ProcessDataChunk(data, inflate) == Ok(Decoded(Initial().(header := Some(h)), None))
  {
    var c1 := EncodeChunk(IHDR, EncodeIhdr(h), crc1);
    var c2 := EncodeChunk(IEND, [], crc2);
    var data := Signature + c1 + c2;
    assert data[..8] == Signature;
    IhdrChunkRecorded(Signature, h, crc1, c2, Initial(), inflate);
    assert Signature + c1 + c2 == data;
    var st1 := Initial().(header := Some(h));
    ProcessFromResumes(data, 8, Initial(), inflate, 8 + |c1|, st1);
    ReadChunk(Signature + c1, IEND, [], crc2, []);
    KindNames();
    assert Signature + c1 + c2 + [] == data;
  }
}
