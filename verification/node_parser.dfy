/** The iterator-based PNG reader of node/parser.ts. The byte iterator is
    modelled by the bytes it has not produced yet: every reader returns what
    it took together with the bytes still to come. What parsePng prints is
    modelled as the list of records it logs. */
module NodeParser {
  import opened Bytes
  import opened Results
  import opened PngImage
  import opened PngDecoder

  /** The two exceptions that can escape parsePng: an IteratorDoneError
      raised outside parseChunk's try block, and zlib.inflateSync rejecting
      the data of an IDAT chunk. */
  datatype ParseError = IteratorDone | InflateFailed

  /** take(iter, num): num items in order, or IteratorDoneError as soon as
      the iterator reports that it is done. */
  function Take(rest: seq<byte>, n: nat): (r: Result<(seq<byte>, seq<byte>), ParseError>)
    ensures r.Ok? <==> n <= |rest|
    ensures r.Ok? ==> |r.value.0| == n && r.value.0 + r.value.1 == rest
    ensures r.Err? ==> r.error == IteratorDone
  {
    if n == 0 then Ok(([], rest))
    else if |rest| == 0 then Err(IteratorDone)
    else
      var (items, after) :- Take(rest[1..], n - 1);
      assert [rest[0]] + rest[1..] == rest;
      Ok(([rest[0]] + items, after))
  }

  /** takeUntil(iter, until): the items before the first one `until`
      accepts; that item is consumed and dropped. Without such an item the
      iterator is drained. */
  function TakeUntil(rest: seq<byte>, until: byte -> bool): (r: (seq<byte>, seq<byte>))
    ensures |r.0| <= |rest| && r.0 == rest[..|r.0|]
    ensures forall i :: 0 <= i < |r.0| ==> !until(r.0[i])
    ensures |r.0| < |rest| ==> until(rest[|r.0|]) && r.1 == rest[|r.0| + 1..]
    ensures |r.0| == |rest| ==> r.1 == []
  {
    if |rest| == 0 then ([], [])
    else if until(rest[0]) then ([], rest[1..])
    else
      var (items, after) := TakeUntil(rest[1..], until);
      ([rest[0]] + items, after)
  }

  /** The items in the opposite order (Array.prototype.reverse, which in the
      source also reverses the caller's array in place; no caller reads that
      array again). */
  function Reverse(s: seq<byte>): (r: seq<byte>)
    ensures |r| == |s|
    ensures forall i :: 0 <= i < |s| ==> r[i] == s[|s| - 1 - i]
  {
    if |s| == 0 then [] else [s[|s| - 1]] + Reverse(s[..|s| - 1])
  }

  /** reduce((acc, cur, i) => acc + cur * 16 ** (i * 2), acc) over the
      items from index i on; 16 ** (2i) is 256^i. */
  function Reduce(rev: seq<byte>, i: nat, acc: nat): nat
    decreases |rev| - i
  {
    if i >= |rev| then acc else Reduce(rev, i + 1, acc + rev[i] * Pow256(i))
  }

  /** bytesToNum(arr): the reversed array summed least significant byte
      first, which reads arr as a big-endian number. */
  function BytesToNum(arr: seq<byte>): nat
  {
    Reduce(Reverse(arr), 0, 0)
  }

  /** The value of s read least significant byte first. */
  function LittleEndian(s: seq<byte>): nat
  {
    if |s| == 0 then 0 else s[0] + 256 * LittleEndian(s[1..])
  }

  lemma MulStep256(p: nat, b: nat, l: nat)
    ensures p * (b + 256 * l) == b * p + (256 * p) * l
  {
  }

  /** The fold adds 256^i times the little-endian value of the rest. */
  lemma {:induction false} ReduceValue(rev: seq<byte>, i: nat, acc: nat)
    requires i <= |rev|
    ensures Reduce(rev, i, acc) == acc + Pow256(i) * LittleEndian(rev[i..])
    decreases |rev| - i
  {
    if i < |rev| {
      ReduceValue(rev, i + 1, acc + rev[i] * Pow256(i));
      assert rev[i..][1..] == rev[i + 1..];
      MulStep256(Pow256(i), rev[i], LittleEndian(rev[i + 1..]));
    }
  }

  /** Reading the reversed bytes little-endian is reading them big-endian. */
  lemma {:induction false} LittleEndianReverse(s: seq<byte>)
    ensures LittleEndian(Reverse(s)) == BigEndian(s)
  {
    if |s| > 0 {
      var init := s[..|s| - 1];
      LittleEndianReverse(init);
      assert Reverse(s)[1..] == Reverse(init);
    }
  }

  /** bytesToNum is the big-endian value: sum of arr[i] * 256^(n - 1 - i),
      below 256^n, and 0 for no bytes. */
  lemma BytesToNumIsBigEndian(arr: seq<byte>)
    ensures BytesToNum(arr) == BigEndian(arr)
    ensures BytesToNum(arr) < Pow256(|arr|)
    ensures |arr| == 0 ==> BytesToNum(arr) == 0
  {
    var rev := Reverse(arr);
    ReduceValue(rev, 0, 0);
    assert rev[0..] == rev;
    assert Pow256(0) == 1;
    assert BytesToNum(arr) == LittleEndian(rev);
    LittleEndianReverse(arr);
  }

  /** bytesToNum inverts the n-byte big-endian encoding of any value that
      fits in n bytes. */
  lemma BytesToNumRoundTrip(v: nat, n: nat)
    requires v < Pow256(n)
    ensures BytesToNum(ToBigEndian(v, n)) == v
  {
    BytesToNumIsBigEndian(ToBigEndian(v, n));
    BigEndianRoundTrip(v, n);
  }

  /** takeAsNum(iter, num): num items read as a big-endian number. */
  function TakeAsNum(rest: seq<byte>, n: nat): (r: Result<(nat, seq<byte>), ParseError>)
    ensures r.Ok? <==> n <= |rest|
    ensures r.Ok? ==> r.value.0 == BigEndian(rest[..n]) && r.value.1 == rest[n..]
    ensures r.Err? ==> r.error == IteratorDone
  {
    var (items, after) :- Take(rest, n);
    BytesToNumIsBigEndian(items);
    assert items == rest[..n];
    Ok((BytesToNum(items), after))
  }

  /** The object parseChunk returns. */
  datatype Chunk = Chunk(length: nat, kind: string, content: seq<byte>, check: seq<byte>)

  /** The body of parseChunk's try block: a four-byte big-endian length, a
      four-character type, length content bytes and four check bytes. */
  function ReadChunkFields(rest: seq<byte>): (r: Result<(Chunk, seq<byte>), ParseError>)
  {
    var (lengthBytes, r1) :- Take(rest, 4);
    var length := BytesToNum(lengthBytes);
    var (typeBytes, r2) :- Take(r1, 4);
    var (contentBytes, r3) :- Take(r2, length);
    var (checkBytes, r4) :- Take(r3, 4);
    Ok((Chunk(length, Latin1(typeBytes), contentBytes, checkBytes), r4))
  }

  /** The length a chunk starting the rest declares, 0 if it is too short to
      say. */
  function DeclaredLength(rest: seq<byte>): nat
  {
    if |rest| < 4 then 0 else BigEndian(rest[..4])
  }

  /** parseChunk: the chunk and the bytes after it, or None (undefined) when
      the input ends first. A complete chunk consumes 12 + length bytes. */
  function ParseChunk(rest: seq<byte>): (r: Option<(Chunk, seq<byte>)>)
    ensures r.None? <==> |rest| < 12 + DeclaredLength(rest)
    ensures r.Some? ==> var len := DeclaredLength(rest);
                        && r.value.0.length == len
                        && r.value.0.kind == Latin1(rest[4..8])
                        && r.value.0.content == rest[8..8 + len]
                        && r.value.0.check == rest[8 + len..12 + len]
                        && r.value.1 == rest[12 + len..]
  {
    var fields := ReadChunkFields(rest);
    ChunkFields(rest);
    if fields.Err? then None else Some(fields.value)
  }

  /** What the four takes of parseChunk read, spelled out. */
  lemma ChunkFields(rest: seq<byte>)
    ensures var r := ReadChunkFields(rest);
            var len := DeclaredLength(rest);
            && (r.Ok? <==> 12 + len <= |rest|)
            && (r.Ok? ==> && r.value.0.length == len
                          && r.value.0.kind == Latin1(rest[4..8])
                          && r.value.0.content == rest[8..8 + len]
                          && r.value.0.check == rest[8 + len..12 + len]
                          && r.value.1 == rest[12 + len..])
  {
    if |rest| >= 4 {
      var len := DeclaredLength(rest);
      BytesToNumIsBigEndian(rest[..4]);
      if 12 + len <= |rest| {
        var r1 := rest[4..];
        var r2 := r1[4..];
        var r3 := r2[len..];
        assert r1[..4] == rest[4..8];
        assert r2[..len] == rest[8..8 + len];
        assert r3[..4] == rest[8 + len..12 + len];
        assert r3[4..] == rest[12 + len..];
      }
    }
  }

  /** A written chunk reads back as itself, followed by whatever comes
      after it. */
  lemma ParseEncodedChunk(kind: seq<byte>, payload: seq<byte>, crc: seq<byte>, rest: seq<byte>)
    requires |kind| == 4 && |crc| == 4 && |payload| < 0x1_0000_0000
    ensures var r := ParseChunk(EncodeChunk(kind, payload, crc) + rest);
            && r.Some?
            && r.value.0 == Chunk(|payload|, Latin1(kind), payload, crc)
            && r.value.1 == rest
  {
    var data := EncodeChunk(kind, payload, crc) + rest;
    var n := |payload|;
    Pow256Four();
    BigEndianRoundTrip(n, 4);
    assert data[..4] == ToBigEndian(n, 4);
    assert data[4..8] == kind;
    assert data[8..8 + n] == payload;
    assert data[8 + n..12 + n] == crc;
    assert data[12 + n..] == rest;
  }

  /** Every proper prefix of a written chunk reads as undefined. */
  lemma TruncatedChunk(kind: seq<byte>, payload: seq<byte>, crc: seq<byte>, k: nat)
    requires |kind| == 4 && |crc| == 4 && |payload| < 0x1_0000_0000
    requires k < |payload| + 12
    ensures ParseChunk(EncodeChunk(kind, payload, crc)[..k]) == None
  {
    var data := EncodeChunk(kind, payload, crc);
    if k >= 4 {
      Pow256Four();
      BigEndianRoundTrip(|payload|, 4);
      assert data[..k][..4] == ToBigEndian(|payload|, 4);
    }
  }

  /** zlib.inflateSync on the bytes of one IDAT chunk: None when it throws. */
  type InflateSync = seq<byte> -> Option<seq<byte>>

  /** What parsePng logs for one chunk. */
  datatype Record =
    | Dimensions(width: nat, height: nat)                   // IHDR
    | EndOfPng                                              // IEND
    | Physical(ppuX: nat, ppuY: nat, unit: Option<byte>)    // pHYs
    | Timestamp(year: nat, month: nat, day: nat, hour: nat, minute: nat, second: nat)  // tIME
    | TextEntry(keyword: string, text: string)              // tEXt
    | ImageData(length: nat, inflated: seq<byte>)           // IDAT
    | UnknownType(kind: string)                             // any other type

  predicate IsZero(b: byte)
  {
    b == 0
  }

  /** The number of bytes a run of takes consumes. */
  function Total(sizes: seq<nat>): nat
  {
    if |sizes| == 0 then 0 else sizes[0] + Total(sizes[1..])
  }

  /** Consecutive takeAsNum calls on one iterator, of the given sizes: the
      numbers read, and the bytes still to come. */
  function TakeFields(rest: seq<byte>, sizes: seq<nat>): (r: Result<(seq<nat>, seq<byte>), ParseError>)
    ensures r.Ok? <==> Total(sizes) <= |rest|
    ensures r.Ok? ==> |r.value.0| == |sizes| && r.value.1 == rest[Total(sizes)..]
    ensures r.Err? ==> r.error == IteratorDone
  {
    if |sizes| == 0 then Ok(([], rest))
    else
      var (v, r1) :- TakeAsNum(rest, sizes[0]);
      var (vs, r2) :- TakeFields(r1, sizes[1..]);
      Ok(([v] + vs, r2))
  }

  /** The first take, then the others on the bytes after it. */
  lemma TakeFieldsStep(rest: seq<byte>, sizes: seq<nat>)
    requires Total(sizes) <= |rest| && |sizes| > 0
    ensures TakeFields(rest, sizes).value.0[0] == BigEndian(rest[..sizes[0]])
    ensures TakeFields(rest, sizes).value.0[1..] == TakeFields(rest[sizes[0]..], sizes[1..]).value.0
  {
    var vs := TakeFields(rest[sizes[0]..], sizes[1..]).value.0;
    assert ([BigEndian(rest[..sizes[0]])] + vs)[1..] == vs;
  }

  /** The takes of the IHDR branch: width and height (takeAsNum of 4), then
      bit depth, colour type, compression, filter and interlace method
      (take of 1; their values are not used, so reading them as numbers
      changes nothing). */
  const IhdrLayout: seq<nat> := [4, 4, 1, 1, 1, 1, 1]
  /** pHYs: pixels per unit along x and y. */
  const PhysLayout: seq<nat> := [4, 4]
  /** tIME: year, month, day, hour, minute, second. */
  const TimeLayout: seq<nat> := [2, 1, 1, 1, 1, 1]

  lemma LayoutTotals()
    ensures Total(IhdrLayout) == 13 && Total(PhysLayout) == 8 && Total(TimeLayout) == 7
    ensures Total(IhdrLayout[..1]) == 4 && Total(PhysLayout[..1]) == 4
  {
    TotalSteps(IhdrLayout);
    TotalSteps(PhysLayout);
    TotalSteps(TimeLayout);
    assert IhdrLayout[..1] == PhysLayout[..1] == [4];
    TotalSteps([4]);
  }

  lemma TotalSteps(s: seq<nat>)
    ensures Total(s) == Total(s[0..])
    ensures forall k :: 0 <= k < |s| ==> Total(s[k..]) == s[k] + Total(s[k + 1..])
    ensures Total(s[|s|..]) == 0
  {
    assert s[0..] == s;
    forall k | 0 <= k < |s|
      ensures Total(s[k..]) == s[k] + Total(s[k + 1..])
    {
      assert s[k..][1..] == s[k + 1..];
    }
  }

  /** The branch of parsePng's `if` chain for one chunk. The takes on the
      content are outside parseChunk's try block, so a short IHDR, pHYs or
      tIME content ends parsePng with IteratorDoneError. */
  function ReadRecord(c: Chunk, inflate: InflateSync): (r: Result<Record, ParseError>)
    ensures KindOf(c.kind) == IendChunk ==> r == Ok(EndOfPng)
    ensures r.Ok? && r.value.EndOfPng? ==> KindOf(c.kind) == IendChunk
    ensures KindOf(c.kind) == OtherChunk ==> r == Ok(UnknownType(c.kind))
  {
    match KindOf(c.kind)
    case IhdrChunk =>
      var (fields, _) :- TakeFields(c.content, IhdrLayout);
      Ok(Dimensions(fields[0], fields[1]))
    case IendChunk => Ok(EndOfPng)
    case PhysChunk =>
      var (fields, after) :- TakeFields(c.content, PhysLayout);
      var unit := if |after| > 0 then Some(after[0]) else None;
      Ok(Physical(fields[0], fields[1], unit))
    case TimeChunk =>
      var (f, _) :- TakeFields(c.content, TimeLayout);
      Ok(Timestamp(f[0], f[1], f[2], f[3], f[4], f[5]))
    case TextChunk =>
      var (keywordBytes, textBytes) := TakeUntil(c.content, IsZero);
      Ok(TextEntry(Latin1(keywordBytes), Latin1(textBytes)))
    case IdatChunk =>
      var inflated := inflate(c.content);
      if inflated.None? then Err(InflateFailed) else Ok(ImageData(|c.content|, inflated.value))
    case OtherChunk => Ok(UnknownType(c.kind))
  }

  /** Which chunks can end parsePng with an exception, and when: IHDR
      content shorter than 13 bytes, pHYs shorter than 8, tIME shorter than
      7, and IDAT data that zlib rejects. tEXt never fails. */
  lemma RecordFailures(c: Chunk, inflate: InflateSync)
    ensures var r := ReadRecord(c, inflate);
            match KindOf(c.kind)
            case IhdrChunk => r.Ok? <==> |c.content| >= 13
            case PhysChunk => r.Ok? <==> |c.content| >= 8
            case TimeChunk => r.Ok? <==> |c.content| >= 7
            case IdatChunk => r.Ok? <==> inflate(c.content).Some?
            case _ => r.Ok?
  {
    LayoutTotals();
  }

  /** IHDR width and height are content bytes 0-3 and 4-7, big-endian. */
  lemma IhdrFields(c: Chunk, inflate: InflateSync)
    requires KindOf(c.kind) == IhdrChunk && |c.content| >= 13
    ensures ReadRecord(c, inflate) == Ok(Dimensions(BigEndian(c.content[..4]), BigEndian(c.content[4..8])))
  {
    LayoutTotals();
    TakeFieldsStep(c.content, IhdrLayout);
    var r1 := c.content[4..];
    assert IhdrLayout[1..] == [4, 1, 1, 1, 1, 1];
    assert Total(IhdrLayout[1..]) <= |r1|;
    TakeFieldsStep(r1, IhdrLayout[1..]);
    assert r1[..4] == c.content[4..8];
  }

  /** The `while` loop of parsePng: one record per chunk, up to and
      including IEND, or until parseChunk returns undefined. */
  function ParseChunks(rest: seq<byte>, inflate: InflateSync): (r: Result<seq<Record>, ParseError>)
    ensures ParseChunk(rest).None? ==> r == Ok([])
    decreases |rest|
  {
    match ParseChunk(rest)
    case None => Ok([])
    case Some((chunk, after)) =>
      var record :- ReadRecord(chunk, inflate);
      if record.EndOfPng? then Ok([record])
      else
        var records :- ParseChunks(after, inflate);
        Ok([record] + records)
  }

  /** Nothing is logged after the end record. */
  lemma {:induction false} EndIsLast(rest: seq<byte>, inflate: InflateSync)
    ensures var r := ParseChunks(rest, inflate);
            r.Ok? ==> EndOnlyLast(r.value)
    decreases |rest|
  {
    match ParseChunk(rest)
    case None =>
    case Some((chunk, after)) =>
      var record := ReadRecord(chunk, inflate);
      if record.Ok? && !record.value.EndOfPng? {
        EndIsLast(after, inflate);
        var records := ParseChunks(after, inflate);
        if records.Ok? {
          EndStaysLast(record.value, records.value);
        }
      }
  }

  /** The end record stays last when a record other than it is put first. */
  predicate EndOnlyLast(records: seq<Record>)
  {
    forall i :: 0 <= i < |records| - 1 ==> !records[i].EndOfPng?
  }

  lemma EndStaysLast(first: Record, records: seq<Record>)
    requires !first.EndOfPng? && EndOnlyLast(records)
    ensures EndOnlyLast([first] + records)
  {
    var all := [first] + records;
    forall i | 0 <= i < |all| - 1
      ensures !all[i].EndOfPng?
    {
      if i > 0 {
        assert all[i] == records[i - 1];
      }
    }
  }

  /** parsePng: eight header bytes taken and never checked, then the chunk
      loop. Fewer than eight bytes end it with IteratorDoneError. */
  function ParsePng(bytes: seq<byte>, inflate: InflateSync): (r: Result<seq<Record>, ParseError>)
    ensures |bytes| < 8 ==> r == Err(IteratorDone)
  {
    var (header, rest) :- Take(bytes, 8);
    ParseChunks(rest, inflate)
  }

  /** The eight header bytes do not matter: any two files that agree after
      them parse alike. */
  lemma HeaderIgnored(a: seq<byte>, b: seq<byte>, rest: seq<byte>, inflate: InflateSync)
    requires |a| == 8 && |b| == 8
    ensures ParsePng(a + rest, inflate) == ParsePng(b + rest, inflate)
  {
    assert (a + rest)[8..] == rest;
    assert (b + rest)[8..] == rest;
  }

  /** An IEND chunk ends the loop: nothing after it is read. */
  lemma StopsAtIend(payload: seq<byte>, crc: seq<byte>, rest: seq<byte>, inflate: InflateSync)
    requires |crc| == 4 && |payload| < 0x1_0000_0000
    ensures ParseChunks(EncodeChunk(IEND, payload, crc) + rest, inflate) == Ok([EndOfPng])
  {
    ParseEncodedChunk(IEND, payload, crc, rest);
    KindNames();
  }

  /** A chunk of any other type is logged by name and skipped. */
  lemma UnknownChunkLogged(kind: seq<byte>, payload: seq<byte>, crc: seq<byte>, rest: seq<byte>, inflate: InflateSync)
    requires |kind| == 4 && |crc| == 4 && |payload| < 0x1_0000_0000 && !Known(kind)
    ensures var r := ParseChunks(EncodeChunk(kind, payload, crc) + rest, inflate);
            var after := ParseChunks(rest, inflate);
            && (r.Ok? <==> after.Ok?)
            && (r.Ok? ==> r.value == [UnknownType(Latin1(kind))] + after.value)
  {
    ParseEncodedChunk(kind, payload, crc, rest);
    OtherKind(kind);
  }

  /** IHDR width and height are content bytes 0-3 and 4-7, big-endian: a
      written header chunk logs exactly its dimensions. */
  lemma IhdrDimensions(h: Header, crc: seq<byte>, rest: seq<byte>, inflate: InflateSync)
    requires |crc| == 4 && h.width < 0x1_0000_0000 && h.height < 0x1_0000_0000
    ensures var r := ParseChunks(EncodeChunk(IHDR, EncodeIhdr(h), crc) + rest, inflate);
            var after := ParseChunks(rest, inflate);
            && (r.Ok? <==> after.Ok?)
            && (r.Ok? ==> r.value == [Dimensions(h.width, h.height)] + after.value)
  {
    var payload := EncodeIhdr(h);
    ParseEncodedChunk(IHDR, payload, crc, rest);
    IhdrRecord(h, crc, inflate);
  }

  lemma IhdrRecord(h: Header, crc: seq<byte>, inflate: InflateSync)
    requires h.width < 0x1_0000_0000 && h.height < 0x1_0000_0000
    ensures ReadRecord(Chunk(13, Latin1(IHDR), EncodeIhdr(h), crc), inflate) == Ok(Dimensions(h.width, h.height))
  {
    var payload := EncodeIhdr(h);
    KindNames();
    IhdrFields(Chunk(13, Latin1(IHDR), payload, crc), inflate);
    Pow256Four();
    BigEndianRoundTrip(h.width, 4);
    BigEndianRoundTrip(h.height, 4);
    assert payload[..4] == ToBigEndian(h.width, 4);
    assert payload[4..8] == ToBigEndian(h.height, 4);
  }

  /** A tEXt payload splits at its first zero byte into keyword and text,
      the separator in neither; without a zero byte the whole payload is the
      keyword and the text is empty. */
  lemma TextSplit(content: seq<byte>)
    ensures var (keyword, text) := TakeUntil(content, IsZero);
            && 0 !in keyword
            && (0 in content ==> content == keyword + [0] + text)
            && (0 !in content ==> keyword == content && text == [])
  {
    var (keyword, text) := TakeUntil(content, IsZero);
    assert forall i :: 0 <= i < |keyword| ==> !IsZero(keyword[i]);
    if |keyword| < |content| {
      assert content == content[..|keyword|] + [0] + content[|keyword| + 1..];
    }
  }

  /** The two readers of tEXt agree when the payload holds a zero byte, and
      swap keyword and text when it does not: the browser reader then yields
      an empty keyword and the payload as text. */
  lemma TextReadersCompared(data: seq<byte>, pos: nat, len: nat)
    ensures var payload := SubArray(data, pos, pos + len);
            var browser := ParseText(data, pos, len);
            var node := TakeUntil(payload, IsZero);
            && (0 in payload ==> browser.0 == node.0 && browser.1 == node.1)
            && (0 !in payload ==> browser.0 == node.1 == [] && browser.1 == node.0 == payload)
  {
    var payload := SubArray(data, pos, pos + len);
    ParseTextSplit(data, pos, len);
    TextSplit(payload);
    var node := TakeUntil(payload, IsZero);
    var browser := ParseText(data, pos, len);
    if 0 in payload {
      SplitUnique(browser.0, browser.1, node.0, node.1);
    }
  }

  /** A sequence has one split at its first zero byte. */
  lemma SplitUnique(a: seq<byte>, b: seq<byte>, c: seq<byte>, d: seq<byte>)
    requires 0 !in a && 0 !in c && a + [0] + b == c + [0] + d
    ensures a == c && b == d
  {
    FindZeroOf(a, b);
    FindZeroOf(c, d);
    var s := a + [0] + b;
    assert s[..|a|] == a && s[|a| + 1..] == b;
    assert s[..|c|] == c && s[|c| + 1..] == d;
  }
}
