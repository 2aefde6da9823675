/** Per-block entropy decoding of a baseline JPEG scan (decodeNumber and
    JpegProcessor.buildMatrix in browser/jpeg.ts): one DC difference, then AC
    run/size symbols until end-of-block or position 64, dequantised on the
    fly. The result is the 64 coefficients in zig-zag order; the zig-zag
    rearrangement is ZigZag.Rearrange and the inverse DCT is not modelled.

    The decoder is stated twice: over the bit stream (AcLoop, BuildMatrix),
    and over a list of already-read tokens (RunAc). The two are linked by
    AcLoopRunsTokens, and RunAc is proved to invert the JPEG encoder's
    run-length coding (EncodeAc) in AcRoundTrip. */
module Entropy {
  import opened Bytes
  import opened Results
  import opened BitStream
  import opened Huffman

  /** The exceptions of the JPEG path, and the `undefined`/NaN paths that the
      model turns into errors. */
  datatype JpegError =
    | OutOfRange               // DataView read past the end of the buffer
    | MissingTable             // table id never defined: `undefined.getCode` / `undefined[0]`
    | NoSymbol                 // Huffman walk ended off the trie (source: `undefined` symbol)
    | ShortQuantTable          // quantisation table with fewer than 64 entries (source: NaN)
    | TruncatedHuffmanSegment  // DHT with fewer symbols than its counts announce

  // ---------------------------------------------------------------------
  // decodeNumber: the EXTEND procedure of section F.2.2.1 of ITU-T T.81

  /** Maps a magnitude category `code` and its `bits` to a signed value. For
      code = 0 the source computes 2 ** -1 = 0.5 and returns `bits` either way. */
  function DecodeNumber(code: nat, bits: nat): (r: int)
    ensures code == 0 ==> r == bits
    ensures 1 <= code && Pow2(code - 1) <= bits < Pow2(code) ==>
              r == bits && Pow2(code - 1) <= r < Pow2(code)
    ensures 1 <= code && bits < Pow2(code - 1) ==>
              r == bits - (Pow2(code) - 1) && 0 <= r + (Pow2(code) - 1) && r + Pow2(code - 1) <= 0
  {
    if code == 0 then bits
    else if bits >= Pow2(code - 1) then bits
    else bits - (2 * Pow2(code - 1) - 1)
  }

  /** Number of significant bits of n. */
  function BitLength(n: nat): (r: nat)
    ensures n == 0 <==> r == 0
    ensures n > 0 ==> Pow2(r - 1) <= n < Pow2(r)
  {
    if n == 0 then 0 else 1 + BitLength(n / 2)
  }

  lemma BitLengthUnique(n: nat, c: nat)
    requires c >= 1 && Pow2(c - 1) <= n < Pow2(c)
    ensures BitLength(n) == c
  {
    var b := BitLength(n);
    if b < c {
      Pow2Monotone(b, c - 1);
    } else if b > c {
      Pow2Monotone(c, b - 1);
    }
  }

  function Abs(v: int): nat
  {
    if v < 0 then -v else v
  }

  /** The encoder's side of EXTEND (section F.1.2.1 of ITU-T T.81): the
      magnitude category of v and the bits that represent it. */
  function Category(v: int): nat
  {
    BitLength(Abs(v))
  }

  function Magnitude(v: int): int
  {
    if v >= 0 then v else v + Pow2(Category(v)) - 1
  }

  /** Decoding inverts encoding: every integer is recovered from its
      category and magnitude bits. */
  lemma EncodeThenDecode(v: int)
    ensures 0 <= Magnitude(v) < Pow2(Category(v))
    ensures DecodeNumber(Category(v), Magnitude(v)) == v
  {
    var c := Category(v);
    if v != 0 {
      assert Pow2(c) == 2 * Pow2(c - 1);
    }
  }

  /** Encoding inverts decoding: a category code >= 1 with bits < 2^code is
      recovered from the decoded value. */
  lemma DecodeThenEncode(code: nat, bits: nat)
    requires 1 <= code && bits < Pow2(code)
    ensures Category(DecodeNumber(code, bits)) == code
    ensures Magnitude(DecodeNumber(code, bits)) == bits
  {
    var v := DecodeNumber(code, bits);
    assert Pow2(code) == 2 * Pow2(code - 1);
    BitLengthUnique(Abs(v), code);
  }

  // ---------------------------------------------------------------------
  // AC symbols

  /** An entropy-coded token: a Huffman symbol and the bits read after it. */
  datatype Token = Token(sym: byte, bits: nat)

  /** The source tests `code > 15` before splitting the symbol; for a
      symbol below 16 the high nibble is 0 and the low nibble is the symbol,
      so the split is the same in both branches. */
  function Run(sym: byte): nat
  {
    sym / 16
  }

  function Size(sym: byte): nat
  {
    sym % 16
  }

  function Zeros(): (r: seq<int>)
    ensures |r| == 64 && forall k :: 0 <= k < 64 ==> r[k] == 0
  {
    seq(64, _ => 0)
  }

  /** The body of the AC loop after a non-zero symbol and its bits: skip the
      run, and if still inside the block write the dequantised coefficient
      and step past it. */
  function AcPlace(quant: seq<byte>, l: nat, base: seq<int>, sym: byte, bits: nat): (r: (nat, seq<int>))
    requires |quant| == 64 && |base| == 64 && l < 64
    ensures |r.1| == 64
    ensures r.0 > l
    ensures forall k :: 0 <= k < 64 && k != l + Run(sym) ==> r.1[k] == base[k]
  {
    var pos := l + Run(sym);
    if pos < 64 then (pos + 1, base[pos := DecodeNumber(Size(sym), bits) * quant[pos]])
    else (pos, base)
  }

  /** One AC token from the stream: the symbol, then (unless it is the
      end-of-block symbol 0) as many bits as its low nibble says. */
  function ReadAcToken(ac: Trie, s: Stream): (r: Option<(Token, Stream)>)
    ensures r.Some? ==> r.value.1.bits == s.bits && r.value.1.pos >= s.pos
  {
    var (sym, s1) := Find(ac, s);
    if sym.None? then None
    else if sym.value == 0 then Some((Token(0, 0), s1))
    else
      var (bits, s2) := GetNBits(s1, Size(sym.value));
      Some((Token(sym.value, bits), s2))
  }

  /** The DC token: a category symbol, then that many bits. */
  function ReadDcToken(dc: Trie, s: Stream): (r: Option<(Token, Stream)>)
    ensures r.Some? ==> r.value.1.bits == s.bits && r.value.0.bits < Pow2(r.value.0.sym)
  {
    var (sym, s1) := Find(dc, s);
    if sym.None? then None
    else
      var (bits, s2) := GetNBits(s1, sym.value);
      Some((Token(sym.value, bits), s2))
  }

  /** The AC loop `while (l < 64)` of buildMatrix, from position l. Positions
      before l, including the DC slot 0, are never written again. */
  function AcLoop(ac: Trie, quant: seq<byte>, s: Stream, l: nat, base: seq<int>): (r: Result<(seq<int>, Stream), JpegError>)
    requires |quant| == 64 && |base| == 64
    ensures r.Ok? ==> |r.value.0| == 64
    ensures r.Ok? ==> forall k :: 0 <= k < l && k < 64 ==> r.value.0[k] == base[k]
    decreases 64 - l
  {
    if l >= 64 then Ok((base, s))
    else
      match ReadAcToken(ac, s)
      case None => Err(NoSymbol)
      case Some((tok, s1)) =>
        if tok.sym == 0 then Ok((base, s1))
        else
          var (l1, b1) := AcPlace(quant, l, base, tok.sym, tok.bits);
          AcLoop(ac, quant, s1, l1, b1)
  }

  /** The result of buildMatrix: the dequantised coefficients in zig-zag
      order, the new DC predictor, and the advanced stream. */
  datatype Block = Block(coefs: seq<int>, pred: int, rest: Stream)

  /** buildMatrix(stream, index, quant, oldDCoef) up to the zig-zag step. */
  function BuildMatrix(dc: Trie, ac: Trie, quant: seq<byte>, prev: int, s: Stream): (r: Result<Block, JpegError>)
    ensures |quant| != 64 ==> r == Err(ShortQuantTable)
    ensures r.Ok? ==> |r.value.coefs| == 64
  {
    if |quant| != 64 then Err(ShortQuantTable)
    else
      var dcTok := ReadDcToken(dc, s);
      if dcTok.None? then Err(NoSymbol)
      else AcBlock(ac, quant, DecodeNumber(dcTok.value.0.sym, dcTok.value.0.bits) + prev, dcTok.value.1)
  }

  /** The part of buildMatrix after the DC value: slot 0 holds pred times
      its quantiser, then the AC loop fills the rest. */
  function AcBlock(ac: Trie, quant: seq<byte>, pred: int, s: Stream): (r: Result<Block, JpegError>)
    requires |quant| == 64
    ensures r.Ok? ==> |r.value.coefs| == 64 && r.value.pred == pred && r.value.coefs[0] == pred * quant[0]
  {
    var res :- AcLoop(ac, quant, s, 1, Zeros()[0 := pred * quant[0]]);
    Ok(Block(res.0, pred, res.1))
  }

  // ---------------------------------------------------------------------
  // The same loop over a token list, and the encoder it inverts

  /** The stream `s` yields the tokens `toks`, one after the other. */
  predicate Yields(ac: Trie, s: Stream, toks: seq<Token>)
    decreases |toks|
  {
    |toks| == 0 ||
    match ReadAcToken(ac, s)
    case None => false
    case Some((t, s1)) => t == toks[0] && Yields(ac, s1, toks[1..])
  }

  /** The AC loop driven by a token list; None when the list runs out before
      the block ends. */
  function RunAc(quant: seq<byte>, toks: seq<Token>, l: nat, base: seq<int>): (r: Option<seq<int>>)
    requires |quant| == 64 && |base| == 64
    decreases |toks|
  {
    if l >= 64 then Some(base)
    else if |toks| == 0 then None
    else if toks[0].sym == 0 then Some(base)
    else
      var (l1, b1) := AcPlace(quant, l, base, toks[0].sym, toks[0].bits);
      RunAc(quant, toks[1..], l1, b1)
  }

  /** On a stream that yields `toks`, the stream loop computes what the
      token loop computes. */
  lemma {:induction false} AcLoopRunsTokens(ac: Trie, quant: seq<byte>, s: Stream, l: nat, base: seq<int>, toks: seq<Token>)
    requires |quant| == 64 && |base| == 64
    requires Yields(ac, s, toks)
    requires RunAc(quant, toks, l, base).Some?
    ensures AcLoop(ac, quant, s, l, base).Ok?
    ensures AcLoop(ac, quant, s, l, base).value.0 == RunAc(quant, toks, l, base).value
    decreases |toks|
  {
    if l < 64 {
      var (tok, s1) := ReadAcToken(ac, s).value;
      assert tok == toks[0];
      if tok.sym != 0 {
        var (l1, b1) := AcPlace(quant, l, base, tok.sym, tok.bits);
        AcLoopRunsTokens(ac, quant, s1, l1, b1, toks[1..]);
      }
    }
  }

  /** `m` zero-run-length tokens (symbol 0xF0: sixteen zeros). */
  function Zrls(m: nat): (r: seq<Token>)
    ensures |r| == m && forall i :: 0 <= i < m ==> r[i] == Token(0xF0, 0)
  {
    seq(m, _ => Token(0xF0, 0))
  }

  /** AC coefficients whose magnitude category fits the 4-bit size field. */
  predicate Encodable(c: seq<int>)
  {
    |c| == 64 && forall k :: 1 <= k < 64 ==> -0x8000 < c[k] < 0x8000
  }

  lemma CategoryBound(v: int)
    requires -0x8000 < v < 0x8000
    ensures Category(v) <= 15
  {
    var b := Category(v);
    if b > 15 {
      assert Pow2(15) == 0x8000;
      Pow2Monotone(15, b - 1);
    }
  }

  /** The token for a non-zero coefficient v after `run` (< 16) zeros:
      symbol run * 16 + category, then the magnitude bits. */
  function AcToken(run: nat, v: int): Token
    requires run < 16 && -0x8000 < v < 0x8000
  {
    CategoryBound(v);
    Token(16 * run + Category(v), Magnitude(v))
  }

  /** The baseline AC encoder (section F.1.2.2 of ITU-T T.81) from position
      k, with `run` zeros pending before it. */
  function EncodeAcFrom(c: seq<int>, k: nat, run: nat): seq<Token>
    requires Encodable(c) && 1 <= k <= 64 && run < k
    decreases 64 - k
  {
    if k == 64 then (if run > 0 then [Token(0, 0)] else [])
    else if c[k] == 0 then EncodeAcFrom(c, k + 1, run + 1)
    else
      Zrls(run / 16)
      + [AcToken(run % 16, c[k])]
      + EncodeAcFrom(c, k + 1, 0)
  }

  function EncodeAc(c: seq<int>): seq<Token>
    requires Encodable(c)
  {
    EncodeAcFrom(c, 1, 0)
  }

  /** The block buildMatrix should produce for coefficients c: the DC slot
      as given, every AC slot multiplied by its quantiser. */
  function Dequantise(c: seq<int>, quant: seq<byte>, dc: int): (r: seq<int>)
    requires |c| == 64 && |quant| == 64
    ensures |r| == 64 && r[0] == dc
    ensures forall k :: 1 <= k < 64 ==> r[k] == c[k] * quant[k]
  {
    seq(64, k => if 0 < k < 64 then c[k] * quant[k] else dc)
  }

  /** Sixteen-zero runs move the position by 16 each and write only zeros. */
  lemma {:induction false} RunZrls(quant: seq<byte>, m: nat, rest: seq<Token>, l: nat, base: seq<int>)
    requires |quant| == 64 && |base| == 64
    requires l + 16 * m < 64
    requires forall j :: l <= j < 64 ==> base[j] == 0
    ensures RunAc(quant, Zrls(m) + rest, l, base) == RunAc(quant, rest, l + 16 * m, base)
    decreases m
  {
    if m > 0 {
      var toks := Zrls(m) + rest;
      assert toks[0] == Token(0xF0, 0);
      assert toks[1..] == Zrls(m - 1) + rest;
      assert base[l + 15 := DecodeNumber(0, 0) * quant[l + 15]] == base;
      RunZrls(quant, m - 1, rest, l + 16, base);
    } else {
      assert Zrls(0) + rest == rest;
    }
  }

  /** One coefficient token at its place: skip `run % 16` zeros, write the
      dequantised value, and continue after it. */
  lemma PlaceToken(c: seq<int>, quant: seq<byte>, k: nat, run: nat, rest: seq<Token>, l: nat, base: seq<int>)
    requires Encodable(c) && |quant| == 64 && |base| == 64
    requires 1 <= k < 64 && c[k] != 0 && l + run % 16 == k
    ensures RunAc(quant, [AcToken(run % 16, c[k])] + rest, l, base)
         == RunAc(quant, rest, k + 1, base[k := c[k] * quant[k]])
  {
    var tok := AcToken(run % 16, c[k]);
    CategoryBound(c[k]);
    assert Run(tok.sym) == run % 16 && Size(tok.sym) == Category(c[k]);
    EncodeThenDecode(c[k]);
    assert AcPlace(quant, l, base, tok.sym, tok.bits) == (k + 1, base[k := c[k] * quant[k]]);
    assert ([tok] + rest)[1..] == rest;
  }

  /** The all-zero tail: end-of-block (or nothing, at position 64) leaves
      the block as it is, which is already the dequantised block. */
  lemma EncodeAcEnd(c: seq<int>, quant: seq<byte>, run: nat, base: seq<int>)
    requires Encodable(c) && |quant| == 64 && |base| == 64
    requires run < 64
    requires EncodedPrefix(c, quant, 64, run, base)
    ensures RunAc(quant, EncodeAcFrom(c, 64, run), 64 - run, base) == Some(Dequantise(c, quant, base[0]))
  {
    assert base == Dequantise(c, quant, base[0]);
  }

  /** The precondition EncodeAcCorrect carries from position k with `run`
      zeros pending. */
  ghost predicate EncodedPrefix(c: seq<int>, quant: seq<byte>, k: nat, run: nat, base: seq<int>)
    requires |c| == 64 && |quant| == 64 && |base| == 64 && run < k <= 64
  {
    && (forall j :: 1 <= j < k - run ==> base[j] == c[j] * quant[j])
    && (forall j :: k - run <= j < 64 ==> base[j] == 0)
    && (forall j :: k - run <= j < k ==> c[j] == 0)
  }

  /** A zero coefficient only lengthens the pending run. */
  lemma ZeroStep(c: seq<int>, quant: seq<byte>, k: nat, run: nat, base: seq<int>)
    requires Encodable(c) && |quant| == 64 && |base| == 64
    requires 1 <= k < 64 && run < k && c[k] == 0
    requires EncodedPrefix(c, quant, k, run, base)
    ensures EncodedPrefix(c, quant, k + 1, run + 1, base)
    ensures EncodeAcFrom(c, k, run) == EncodeAcFrom(c, k + 1, run + 1)
  {
  }

  /** A non-zero coefficient: zero-run tokens, then its own token. */
  lemma NonZeroStep(c: seq<int>, quant: seq<byte>, k: nat, run: nat, base: seq<int>)
    requires Encodable(c) && |quant| == 64 && |base| == 64
    requires 1 <= k < 64 && run < k && c[k] != 0
    requires forall j :: k - run <= j < 64 ==> base[j] == 0
    ensures RunAc(quant, EncodeAcFrom(c, k, run), k - run, base)
         == RunAc(quant, EncodeAcFrom(c, k + 1, 0), k + 1, base[k := c[k] * quant[k]])
  {
    var l := k - run;
    var m := run / 16;
    var tok := AcToken(run % 16, c[k]);
    var rest := EncodeAcFrom(c, k + 1, 0);
    assert EncodeAcFrom(c, k, run) == Zrls(m) + ([tok] + rest);
    RunZrls(quant, m, [tok] + rest, l, base);
    PlaceToken(c, quant, k, run, rest, l + 16 * m, base);
  }

  lemma PrefixAfterPlace(c: seq<int>, quant: seq<byte>, k: nat, run: nat, base: seq<int>)
    requires |c| == 64 && |quant| == 64 && |base| == 64
    requires 1 <= k < 64 && run < k
    requires EncodedPrefix(c, quant, k, run, base)
    ensures EncodedPrefix(c, quant, k + 1, 0, base[k := c[k] * quant[k]])
  {
    var l := k - run;
    var b1 := base[k := c[k] * quant[k]];
    forall j | 1 <= j < k + 1
      ensures b1[j] == c[j] * quant[j]
    {
      if j < l {
        assert b1[j] == base[j];
      } else if j < k {
        assert c[j] == 0 && b1[j] == 0;
      }
    }
    forall j | k + 1 <= j < 64
      ensures b1[j] == 0
    {
      assert b1[j] == base[j];
    }
  }

  lemma {:induction false} EncodeAcCorrect(c: seq<int>, quant: seq<byte>, k: nat, run: nat, l: nat, base: seq<int>)
    requires Encodable(c) && |quant| == 64 && |base| == 64
    requires 1 <= k <= 64 && run < k
    requires EncodedPrefix(c, quant, k, run, base)
    requires l == k - run
    ensures RunAc(quant, EncodeAcFrom(c, k, run), l, base) == Some(Dequantise(c, quant, base[0]))
    decreases 64 - k, 1
  {
    if k == 64 {
      EncodeAcEnd(c, quant, run, base);
    } else if c[k] == 0 {
      EncodeAcZero(c, quant, k, run, l, base);
    } else {
      EncodeAcNonZero(c, quant, k, run, l, base);
    }
  }

  lemma {:induction false} EncodeAcZero(c: seq<int>, quant: seq<byte>, k: nat, run: nat, l: nat, base: seq<int>)
    requires Encodable(c) && |quant| == 64 && |base| == 64
    requires 1 <= k < 64 && run < k && c[k] == 0
    requires EncodedPrefix(c, quant, k, run, base)
    requires l == k - run
    ensures RunAc(quant, EncodeAcFrom(c, k, run), l, base) == Some(Dequantise(c, quant, base[0]))
    decreases 64 - k, 0
  {
    ZeroStep(c, quant, k, run, base);
    EncodeAcCorrect(c, quant, k + 1, run + 1, l, base);
  }

  lemma {:induction false} EncodeAcNonZero(c: seq<int>, quant: seq<byte>, k: nat, run: nat, l: nat, base: seq<int>)
    requires Encodable(c) && |quant| == 64 && |base| == 64
    requires 1 <= k < 64 && run < k && c[k] != 0
    requires EncodedPrefix(c, quant, k, run, base)
    requires l == k - run
    ensures RunAc(quant, EncodeAcFrom(c, k, run), l, base) == Some(Dequantise(c, quant, base[0]))
    decreases 64 - k, 0
  {
    var b1 := base[k := c[k] * quant[k]];
    NonZeroStep(c, quant, k, run, base);
    PrefixAfterPlace(c, quant, k, run, base);
    EncodeAcCorrect(c, quant, k + 1, 0, k + 1, b1);
    assert b1[0] == base[0];
  }

  /** The token loop inverts the AC encoder: decoding the run-length coded
      tokens of any encodable block restores every AC coefficient, times its
      quantiser, and leaves the DC slot alone. */
  lemma AcRoundTrip(c: seq<int>, quant: seq<byte>, base: seq<int>)
    requires Encodable(c) && |quant| == 64 && |base| == 64
    requires forall j :: 1 <= j < 64 ==> base[j] == 0
    ensures RunAc(quant, EncodeAc(c), 1, base) == Some(Dequantise(c, quant, base[0]))
  {
    EncodeAcCorrect(c, quant, 1, 0, 1, base);
  }

  /** On a stream holding the AC tokens of c, the part of buildMatrix after
      the DC value restores the whole dequantised block. */
  lemma AcBlockRoundTrip(ac: Trie, quant: seq<byte>, s: Stream, c: seq<int>, pred: int)
    requires Encodable(c) && |quant| == 64
    requires Yields(ac, s, EncodeAc(c))
    ensures AcBlock(ac, quant, pred, s).Ok?
    ensures AcBlock(ac, quant, pred, s).value.coefs == Dequantise(c, quant, pred * quant[0])
  {
    var base := Zeros()[0 := pred * quant[0]];
    forall j | 1 <= j < 64
      ensures base[j] == 0
    {
    }
    AcRoundTrip(c, quant, base);
    AcLoopRunsTokens(ac, quant, s, 1, base, EncodeAc(c));
  }

  /** buildMatrix is the DC read followed by AcBlock. */
  lemma BuildMatrixAfterDc(dc: Trie, ac: Trie, quant: seq<byte>, prev: int, s: Stream, tok: Token, s1: Stream)
    requires |quant| == 64
    requires ReadDcToken(dc, s) == Some((tok, s1))
    ensures BuildMatrix(dc, ac, quant, prev, s) == AcBlock(ac, quant, DecodeNumber(tok.sym, tok.bits) + prev, s1)
  {
    var dcTok := ReadDcToken(dc, s);
    assert dcTok.value.0.sym == tok.sym && dcTok.value.0.bits == tok.bits && dcTok.value.1 == s1;
  }

  /** A decoded block's predictor is the previous one plus the DC
      difference read first, and its slot 0 is that predictor times the
      first quantiser. */
  lemma BuildMatrixDc(dc: Trie, ac: Trie, quant: seq<byte>, prev: int, s: Stream)
    requires BuildMatrix(dc, ac, quant, prev, s).Ok?
    ensures |quant| == 64 && ReadDcToken(dc, s).Some?
    ensures var tok := ReadDcToken(dc, s).value.0;
            var b := BuildMatrix(dc, ac, quant, prev, s).value;
            b.pred == prev + DecodeNumber(tok.sym, tok.bits) && b.coefs[0] == b.pred * quant[0]
  {
    var d := ReadDcToken(dc, s).value;
    BuildMatrixAfterDc(dc, ac, quant, prev, s, d.0, d.1);
  }

  /** A whole block: when the stream holds a DC token for the difference
      c[0] - prev (EncodeThenDecode gives one) and then the AC tokens of c,
      buildMatrix returns c dequantised and c[0] as the new predictor. */
  lemma BlockRoundTrip(dc: Trie, ac: Trie, quant: seq<byte>, prev: int, s: Stream, c: seq<int>, tok: Token, s1: Stream)
    requires Encodable(c) && |quant| == 64
    requires ReadDcToken(dc, s) == Some((tok, s1)) && DecodeNumber(tok.sym, tok.bits) == c[0] - prev
    requires Yields(ac, s1, EncodeAc(c))
    ensures BuildMatrix(dc, ac, quant, prev, s).Ok?
    ensures BuildMatrix(dc, ac, quant, prev, s).value.pred == c[0]
    ensures BuildMatrix(dc, ac, quant, prev, s).value.coefs == Dequantise(c, quant, c[0] * quant[0])
  {
    BuildMatrixAfterDc(dc, ac, quant, prev, s, tok, s1);
    assert BuildMatrix(dc, ac, quant, prev, s) == AcBlock(ac, quant, c[0], s1);
    AcBlockRoundTrip(ac, quant, s1, c, c[0]);
  }
}
