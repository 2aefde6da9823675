# Image decoders in Dafny: baseline JPEG, PNG in the browser, PNG in Node

This project models the decoding core of a small TypeScript image-decoder
repository and proves properties of the model. The repository has three
decoders:

- `browser/jpeg.ts` is a baseline JPEG decoder. It walks the marker segments
  (`processDataChunk`) and decodes Huffman tables (`decodeHuffman`),
  quantisation tables (`decodeQuantization`) and the frame header
  (`decodeFrameData`). It then decodes the entropy-coded scan
  (`decodeScanData`). Each 8x8 block is decoded by `buildMatrix`, using a bit
  reader (`BitStream`), a Huffman trie (`HuffmanTable`), the EXTEND step
  (`decodeNumber`) and the zig-zag reordering (`rearangeUsingZigZag`).
- `browser/png.ts` is a PNG decoder (`PngProcessor`). It checks the
  signature, walks the chunks and reads IHDR, pHYs, tIME, tEXt and IDAT. At
  IEND it reverses the scanline filters (`undoFilters`, `applyFilterType`,
  `paethPredictor`, `bytesPerPixel`) and lays the pixels out as RGBA
  (`toImageData`).
- `node/parser.ts` is a second PNG reader. It works over a byte iterator
  (`take`, `takeUntil`, `takeAsNum`, `bytesToNum`, `parseChunk`,
  `parsePng`).

The model has one module per component, each in its own file:

- `results.dfy` (`Results`): `Option` and `Result`, the error path of every
  decoder.
- `bytes.dfy` (`Bytes`): bytes and big-endian numbers. `SubArray` models the
  clamping `subarray`/`slice` of a typed array.
- `bitstream.dfy` (`BitStream`): the MSB-first bit reader. A read past the
  end gives bit 0, because `undefined >> s & 1` is 0.
- `huffman.dfy` (`Huffman`): the Huffman trie, its canonical construction
  and the walk that decodes one symbol.
- `zigzag.dfy` (`ZigZag`): the zig-zag table and the rearrangement of 64
  coefficients into an 8x8 block.
- `entropy.dfy` (`Entropy`): `decodeNumber` and `buildMatrix` up to the
  inverse DCT. It also holds a run-length encoder of AC coefficients that
  `buildMatrix` inverts.
- `jpeg_segments.dfy` (`JpegSegments`):
  - the DHT, DQT and SOF0 segment decoders, each with its encoder;
  - the removal of stuffing bytes;
  - the MCU loop of the scan;
  - the marker loop.
- `png_filter.dfy` (`PngFilter`): the Paeth predictor, the five filter types
  and the reconstruction of one scanline, with the encoder's forward filter.
- `png_image.dfy` (`PngImage`): bytes per pixel, reconstruction of all
  scanlines, and the RGBA layout.
- `png_decoder.dfy` (`PngDecoder`): the chunk walk of `PngProcessor`.
- `node_parser.dfy` (`NodeParser`): the iterator-based reader. The iterator
  is modelled as the bytes it has not produced yet. What `parsePng` logs is
  modelled as a list of records.

Every decoder's mutable state is an immutable datatype threaded through pure
functions. Four kinds of failure become `Err` values:

- exceptions (a `DataView` read out of range, an unknown filter type, an
  uncaught `IteratorDoneError`);
- reads of `undefined` that would only produce garbage;
- missing tables;
- a failed inflate: pako ending on a data error with no result, or `zlib.inflateSync` throwing.

Each decoding step is paired with an encoder or with a second, independent
definition, and a lemma connects the two. Examples:

- a Huffman trie finds exactly the codes it was built with;
- run-length coding of the AC coefficients is undone by `buildMatrix`'s loop;
- removing stuffing bytes inverts stuffing;
- the PNG filters invert each other;
- DHT, DQT, SOF0, IHDR and chunk framing each round-trip through their
  encoder;
- `bytesToNum` is the big-endian value.

## Model

| member | source | states |
|---|---|---|
| `Bytes.U16` | browser/jpeg.ts:48 | A 16-bit `DataView` read is the big-endian value of the two bytes, below 65536. |
| `Bytes.SubArray` | browser/png.ts:130-138 | `subarray(from, to)` clamps both ends to the array: it is the slice when in range, the suffix when `to` overshoots, and empty when `to < from`. |
| `BitStream.GetBit` | browser/jpeg.ts:406-412 | Reading a bit returns the bit at the cursor and advances the cursor by exactly one. |
| `BitStream.BitOfByte` | browser/jpeg.ts:406-412 | Bit p of the stream is bit `7 - p % 8` of byte `p / 8`, so bits are read most significant first. |
| `BitStream.GetNBits` | browser/jpeg.ts:414-420 | Reading n bits advances the cursor by n and gives a value below 2^n, or 0 when n = 0. |
| `BitStream.GetNBitsIsBitsValue` | browser/jpeg.ts:414-420 | The value of n bits read is the binary number the next n bits spell. |
| `BitStream.ReadAlignedByte` | browser/jpeg.ts:406-420 | Eight bits read at a byte boundary give back that byte. |
| `BitStream.ReadPastEnd` | browser/jpeg.ts:406-412 | Bits read beyond the data are zeros: `undefined >> s & 1` is 0. |
| `Huffman.Insert` | browser/jpeg.ts:354-374 | Inserting a symbol keeps the trie well formed (a node has at most two children) and keeps the root a node. |
| `Huffman.InsertLeftmost` | browser/jpeg.ts:354-374 | `bitsFromLengths` puts the symbol at the lexicographically first free code of the given length, changing nothing else. It fails exactly when no such code is free. |
| `Huffman.PrefixFree` | browser/jpeg.ts:343-374 | In any trie, no code of a symbol is a prefix of another symbol's code. |
| `Huffman.Build` | browser/jpeg.ts:343-352 | `getHuffmanBits` over the 16 length counts gives a well-formed trie. |
| `Huffman.BuildLeaves` | browser/jpeg.ts:343-352 | Every symbol in the built trie is one of the listed elements, at a code of length 1 to 16. |
| `Huffman.InsertAllSplit` | browser/jpeg.ts:346-351 | Inserting a list of symbols is inserting a prefix of it, then the rest. |
| `Huffman.BuildPlaces` | browser/jpeg.ts:343-374 | Over a whole build, the k-th symbol gets the lexicographically least code of length (its group + 1) left free by the symbols before it, and the finished trie decodes that code to it. When no code of that length is free, the symbol is dropped. |
| `Huffman.InsertAllKeeps` | browser/jpeg.ts:346-351 | Later insertions never move or replace a symbol already placed. |
| `Huffman.Find` | browser/jpeg.ts:376-385 | A root with a single child returns that child without reading a bit. Otherwise the walk only moves the cursor forward. |
| `Huffman.FindSound` | browser/jpeg.ts:376-385 | A symbol found by the walk is the trie's symbol at exactly the bits consumed. |
| `Huffman.FindCode` | browser/jpeg.ts:376-396 | When the next bits are a symbol's code, the walk returns that symbol and consumes exactly the code's length. |
| `ZigZag.ZigZag` | browser/jpeg.ts:279-288 | The zig-zag table maps every cell of the 8x8 block to a position below 64. Its inverse `NaturalOrder` maps that position back to the cell. |
| `ZigZag.NaturalOrderInverse` | browser/jpeg.ts:279-288 | The table is a bijection between the 64 cells and the 64 positions. |
| `ZigZag.Rearrange` | browser/jpeg.ts:309-316 | The rearranged block is 8x8, and cell (x, y) holds the coefficient at position `zigZag[x][y]`. |
| `ZigZag.ScanRearrange` | browser/jpeg.ts:309-316 | Reading the rearranged block back in zig-zag order gives the 64 coefficients, so no coefficient is lost or duplicated. |
| `ZigZag.RearrangeScan` | browser/jpeg.ts:309-316 | Every 8x8 block is the rearrangement of exactly one coefficient sequence. |
| `Entropy.DecodeNumber` | browser/jpeg.ts:268-274 | For category c, bits at or above 2^(c-1) are the value itself. Lower bits give a negative value in `[-(2^c-1), -2^(c-1)]`. Category 0 returns the bits. |
| `Entropy.EncodeThenDecode` | browser/jpeg.ts:268-274 | Every integer has a category and magnitude bits that `decodeNumber` maps back to it. |
| `Entropy.DecodeThenEncode` | browser/jpeg.ts:268-274 | For category at least 1, the category and bits are recovered from the decoded value, so the two maps are mutual inverses. |
| `Entropy.AcPlace` | browser/jpeg.ts:189-198 | A run/size symbol stores one dequantised coefficient at `l + run` and leaves every other slot unchanged. It always moves the position forward. |
| `Entropy.AcLoop` | browser/jpeg.ts:184-199 | The AC loop keeps 64 coefficients and never changes a position before the one it started from. |
| `Entropy.AcLoopRunsTokens` | browser/jpeg.ts:184-199 | Decoding from the bit stream gives the same coefficients as running the token list the stream yields. |
| `Entropy.AcRoundTrip` | browser/jpeg.ts:184-199 | Running the JPEG run-length coding (with ZRL and end-of-block) of any 63 AC coefficients rebuilds them, each times its quantisation entry. |
| `Entropy.AcBlock` | browser/jpeg.ts:182-199 | After the DC value, slot 0 holds the DC value times `quant[0]`, and the block has 64 coefficients. |
| `Entropy.AcBlockRoundTrip` | browser/jpeg.ts:182-199 | When the stream yields the encoding of a block's AC coefficients, decoding succeeds and gives them dequantised. |
| `Entropy.BuildMatrix` | browser/jpeg.ts:172-203 | A quantisation table that is not 64 entries long is an error. A decoded block has 64 coefficients. |
| `Entropy.BuildMatrixDc` | browser/jpeg.ts:179-182 | A decoded block's DC value is the previous DC plus the decoded difference, and slot 0 holds it times `quant[0]`. |
| `Entropy.BlockRoundTrip` | browser/jpeg.ts:172-203 | A block written as a DC difference plus coded AC tokens decodes to its coefficients, dequantised, with the new DC predictor. |
| `JpegSegments.DecodeHuffman` | browser/jpeg.ts:94-108 | A non-empty DHT payload yields its header byte as key and a well-formed trie. An empty one stores nothing. |
| `JpegSegments.HuffmanRoundTrip` | browser/jpeg.ts:94-108 | A DHT payload written from a key, 16 counts and their symbols decodes to that key and the canonical trie, whatever follows it. |
| `JpegSegments.HuffmanTruncation` | browser/jpeg.ts:98-104 | A DHT payload fails exactly when it holds fewer symbols than its counts announce. |
| `JpegSegments.DecodeQuantization` | browser/jpeg.ts:110-113 | A DQT payload yields its first byte as key and at most 64 entries, exactly 64 when the payload has them. |
| `JpegSegments.QuantizationRoundTrip` | browser/jpeg.ts:110-113 | A written 64-entry table is read back under its key. |
| `JpegSegments.ReadComponents` | browser/jpeg.ts:122-127 | The frame's component entries yield one quantisation id each, the third byte of every three. |
| `JpegSegments.DecodeFrameData` | browser/jpeg.ts:115-130 | The frame header fails exactly when the buffer ends before the width's last byte (offset 4), or, when there is at least one component, before the last component. Otherwise it gives one id per component, and height and width are the big-endian 16-bit values at offsets 1 and 3. |
| `JpegSegments.FrameWithoutComponents` | browser/jpeg.ts:115-130 | A SOF0 segment that declares no components and ends right after its width decodes: `FF D8 FF C0 00 05 08 00 10 FF D9` gives height 16, width 0xFFD9 and no quantisation mapping. |
| `JpegSegments.FrameRoundTrip` | browser/jpeg.ts:115-130 | A written SOF0 header is read back, wherever it sits in the file: height, width and every component's table id. |
| `JpegSegments.UnstuffStuff` | browser/jpeg.ts:133-135 | Dropping every 0x00 that follows 0xFF inverts the encoder's byte stuffing. |
| `JpegSegments.SubArrayFrom` | browser/jpeg.ts:133-134 | Skipping the scan header is the suffix from that offset when it is in range, and never longer than the data. |
| `JpegSegments.ComponentBlock` | browser/jpeg.ts:142-159 | A component whose Huffman or quantisation table is undefined cannot be decoded. |
| `JpegSegments.DecodeMcus` | browser/jpeg.ts:140-169 | The scan loop yields exactly as many MCUs as it runs. It fails if any table is missing. |
| `JpegSegments.DecodeScanData` | browser/jpeg.ts:132-170 | A scan decodes `floor(height/8) * floor(width/8)` MCUs, none when that count is 0, and fails when a table is missing. |
| `JpegSegments.ApplySegment` | browser/jpeg.ts:57-90 | A segment only adds to or replaces tables and appends frame components. Comments and unknown markers change nothing. |
| `JpegSegments.Step` | browser/jpeg.ts:47-91 | Every pass moves forward and only extends the state. Reading a marker past the end is an out-of-range error. |
| `JpegSegments.ProcessFrom` | browser/jpeg.ts:44-92 | The marker loop only extends what the decoder had collected. |
| `JpegSegments.ProcessDataChunk` | browser/jpeg.ts:44-48 | Data shorter than one marker is an out-of-range error. |
| `JpegSegments.StepOverSegment` | browser/jpeg.ts:57-90 | A length-prefixed segment is applied to its payload, and the loop resumes right after the segment. |
| `JpegSegments.ApplyDht` | browser/jpeg.ts:64-69 | A written DHT segment installs the canonical trie of its counts and symbols under its key. |
| `JpegSegments.UnknownSegmentSkipped` | browser/jpeg.ts:86-90 | An unknown marker's segment is skipped by its declared length, leaving the state unchanged. |
| `JpegSegments.ProcessFromResumes` | browser/jpeg.ts:47-91 | The loop continues from wherever a pass resumes. |
| `JpegSegments.EndOfImage` | browser/jpeg.ts:53-56 | End of image stops the loop with the state as it is. |
| `PngFilter.Paeth` | browser/png.ts:235-247 | The predictor is the first of a, b, c whose distance to `a + b - c` is smallest. |
| `PngFilter.ApplyFilterType` | browser/png.ts:212-233 | A filter type above 4 throws. Otherwise the result minus the type's predictor is x, modulo 256. |
| `PngFilter.UnfilterRow` | browser/png.ts:191-207 | Reconstructing a scanline keeps its length. It fails exactly when the row is non-empty and the filter type is unknown. |
| `PngFilter.UnfilterFilterPrefix` | browser/png.ts:191-207 | Every prefix of a filtered scanline reconstructs to the same prefix of the raw scanline. |
| `PngFilter.UnfilterFilterRow` | browser/png.ts:191-207 | Reconstruction inverts the encoder's filter for all five filter types. |
| `PngFilter.FilterUnfilterRow` | browser/png.ts:191-207 | Filtering the reconstruction gives back the filtered row, so each filtered row has exactly one raw row. |
| `PngImage.BytesPerPixel` | browser/png.ts:249-268 | Bit depth below 8 and an unknown colour type throw. Otherwise the bytes per pixel are bit depth / 8 times the colour type's channels. |
| `PngImage.UndoFilters` | browser/png.ts:181-210 | A filter method other than 0 throws. Otherwise the result has `data.length - height` bytes and the header has a valid bytes-per-pixel. |
| `PngImage.UnfilterFilterRows` | browser/png.ts:191-208 | Rows filtered one by one against their predecessors (zeros for the first) reconstruct to the raw image, whatever follows them. |
| `PngImage.UndoFiltersRoundTrip` | browser/png.ts:181-210 | `undoFilters` on a filtered image gives back the raw pixels. Trailing bytes become zeros in the result. |
| `PngImage.UndoFiltersOk` | browser/png.ts:181-210 | When all rows reconstruct, `undoFilters` returns them followed by zeros up to `data.length - height` bytes. |
| `PngImage.ToImageData` | browser/png.ts:159-179 | Colour types other than 2 and 6 throw. Otherwise the image has `width * height * 4` bytes. |
| `PngImage.ExpandStrip` | browser/png.ts:161-169 | The RGB bytes of the expansion are the source's RGB bytes in order. |
| `PngImage.ExpandOpaque` | browser/png.ts:168 | Every expanded pixel has alpha 255. |
| `PngImage.RgbToRgba` | browser/png.ts:159-169 | An RGB image becomes an opaque RGBA image with the same colours. |
| `PngImage.RgbaCopied` | browser/png.ts:170-173 | An RGBA image is copied unchanged. |
| `PngDecoder.CheckSignature` | browser/png.ts:41-49 | The data is accepted exactly when its first eight bytes are the PNG signature, which is then skipped. Anything else throws. |
| `PngDecoder.ReadU32` | browser/png.ts:31 | A 32-bit read is the big-endian value of four bytes, and throws when they are not all there. |
| `PngDecoder.ReadU8` | browser/png.ts:100-104 | A one-byte read gives that byte, and throws past the end. |
| `PngDecoder.Latin1` | browser/png.ts:274 | `String.fromCharCode` on bytes keeps the length and maps each byte to the character with that code. |
| `PngDecoder.ReadString` | browser/png.ts:270-278 | `readString` succeeds exactly when all n bytes are there and gives their characters. |
| `PngDecoder.ParseChunkHeader` | browser/png.ts:29-36 | A chunk header is 8 bytes: a 32-bit length and a four-character type. It throws when they are not all there. |
| `PngDecoder.ParseIhdr` | browser/png.ts:95-106 | IHDR reads width and height big-endian and five single bytes, then skips the CRC. It needs 13 bytes. |
| `PngDecoder.ParsePhys` | browser/png.ts:108-115 | pHYs reads 9 bytes, then skips the CRC. |
| `PngDecoder.ParseTime` | browser/png.ts:117-127 | tIME reads a 16-bit year and five bytes, then skips the CRC. |
| `PngDecoder.FindZeroFirst` | browser/png.ts:130-132 | `findIndex` gives -1 exactly when there is no zero. Otherwise it gives the first zero. |
| `PngDecoder.ParseTextSlices` | browser/png.ts:129-143 | The keyword and text are the two `subarray`s around the first zero. Without a zero the keyword is empty and the text is the whole payload. |
| `PngDecoder.ParseTextSplit` | browser/png.ts:129-143 | With a zero, the payload is keyword, zero, text, and the keyword has no zero. Without one, the keyword is empty and the text is the payload. |
| `PngDecoder.ParseIdat` | browser/png.ts:145-157 | IDAT appends its payload to the compressed data and leaves header and metadata unchanged. It throws when the interlace method is not 0, including before any IHDR. It also throws when the inflater ended on a data error, since `undoFilters(undefined)` fails. New pixel data appears only when the stream has ended with a result. |
| `PngDecoder.Step` | browser/png.ts:53-79 | A chunk header read past the end throws. Every pass that goes on moves past at least a whole empty chunk. |
| `PngDecoder.DrawImage` | browser/png.ts:82-86 | Without pixel data nothing is drawn. The decoder state is returned unchanged. |
| `PngDecoder.ProcessDataChunk` | browser/png.ts:38-49 | Data that does not start with the signature throws. |
| `PngDecoder.KindNames` | browser/png.ts:55-73 | The six chunk names select their six cases. |
| `PngDecoder.UnknownChunkSkipped` | browser/png.ts:74-77 | A chunk of any other type is skipped by its length plus the CRC, leaving the state unchanged. |
| `PngDecoder.StepOther` | browser/png.ts:74-77 | A header of an unknown type resumes 12 bytes plus the length further on, with the state unchanged. |
| `PngDecoder.ProcessFromResumes` | browser/png.ts:53-79 | The chunk loop continues from wherever a pass resumes. |
| `PngDecoder.StepText` | browser/png.ts:65-67 | A tEXt chunk records its keyword and text in the metadata and resumes after the chunk. The keyword `__proto__` records nothing, because the setter of a plain object ignores a string. |
| `PngDecoder.TextChunkRecorded` | browser/png.ts:129-143 | A written tEXt chunk with a zero-free keyword stores `meta[keyword] = text` and resumes after the chunk. For the keyword `__proto__` the metadata is unchanged. |
| `PngDecoder.IhdrChunkRecorded` | browser/png.ts:95-106 | A written IHDR chunk sets exactly the header it encodes and resumes after the chunk. |
| `PngDecoder.HeaderOnlyFile` | browser/png.ts:38-80 | A file of signature, IHDR and IEND decodes to that header with no image drawn. |
| `NodeParser.Take` | node/parser.ts:6-16 | `take(iter, n)` succeeds exactly when n items remain. It returns the first n, and the iterator continues with the rest. Otherwise it throws `IteratorDoneError`. |
| `NodeParser.TakeUntil` | node/parser.ts:18-30 | `takeUntil` returns the longest prefix with no item satisfying the test. It also consumes the item that stopped it, if there was one. |
| `NodeParser.ReduceValue` | node/parser.ts:41 | The reduction over the reversed bytes adds each byte times `16 ** (2i)` to the accumulator. |
| `NodeParser.BytesToNumIsBigEndian` | node/parser.ts:40-42 | `bytesToNum` is the big-endian value of its bytes, below 256^n, and 0 for no bytes. |
| `NodeParser.BytesToNumRoundTrip` | node/parser.ts:40-42 | `bytesToNum` inverts writing a number as n big-endian bytes. |
| `NodeParser.TakeAsNum` | node/parser.ts:32-34 | `takeAsNum` succeeds exactly when n items remain, giving their big-endian value and the rest. |
| `NodeParser.ChunkFields` | node/parser.ts:50-63 | The four takes succeed exactly when the declared length plus 12 bytes remain, and give length, type, content, CRC and the rest. |
| `NodeParser.ParseChunk` | node/parser.ts:50-70 | `parseChunk` gives `undefined` exactly when the chunk is cut short. Otherwise it gives the chunk's fields. |
| `NodeParser.ParseEncodedChunk` | node/parser.ts:50-70 | A written chunk parses back to its length, type, payload and CRC, leaving what follows. |
| `NodeParser.TruncatedChunk` | node/parser.ts:64-67 | Every proper prefix of a chunk parses to `undefined`. |
| `NodeParser.TakeFields` | node/parser.ts:80-86 | A run of takes succeeds exactly when the fields' total size remains, gives one number per field, and leaves the rest. |
| `NodeParser.TakeFieldsStep` | node/parser.ts:80-86 | Each field is the big-endian value of its bytes, read in order. |
| `NodeParser.ReadRecord` | node/parser.ts:78-132 | IEND and only IEND ends the file. Any other type is logged as unknown. |
| `NodeParser.RecordFailures` | node/parser.ts:78-132 | Short IHDR (under 13 bytes), pHYs (under 8) or tIME (under 7) content throws. IDAT throws exactly when inflation fails. Nothing else throws. |
| `NodeParser.IhdrFields` | node/parser.ts:78-92 | IHDR logs the big-endian width and height from its first eight bytes. |
| `NodeParser.ParseChunks` | node/parser.ts:76-133 | The loop stops, without error, at the first chunk `parseChunk` cannot read. |
| `NodeParser.EndIsLast` | node/parser.ts:93-95 | IEND can only be the last record logged. |
| `NodeParser.ParsePng` | node/parser.ts:72-74 | Input shorter than the 8-byte header throws `IteratorDoneError`. |
| `NodeParser.HeaderIgnored` | node/parser.ts:73-74 | The eight header bytes are taken but never checked. |
| `NodeParser.StopsAtIend` | node/parser.ts:93-95 | After IEND nothing more is read, whatever follows. |
| `NodeParser.UnknownChunkLogged` | node/parser.ts:130-132 | An unknown chunk is logged by its type and the loop goes on with the next chunk. |
| `NodeParser.IhdrDimensions` | node/parser.ts:78-92 | A written IHDR chunk logs exactly its width and height, then the loop goes on. |
| `NodeParser.IhdrRecord` | node/parser.ts:78-92 | The IHDR record of an encoded header holds its width and height. |
| `NodeParser.TextSplit` | node/parser.ts:115-122 | The keyword has no zero. With a zero, the content is keyword, zero, text. Without one, the keyword is all the content and the text is empty. |
| `NodeParser.TextReadersCompared` | node/parser.ts:115-122 | Both readers split a tEXt payload at its first zero the same way. Without a zero, the browser gives an empty keyword and the whole text, and the Node reader gives the reverse. |

## Left out

- Drawing is left out: the inverse DCT, colour conversion, `drawMatrix`, `ImageData`, the canvas and `document`. Scan decoding stops at the rearranged coefficient blocks, and PNG decoding at the RGBA byte array.
- Console output, `fetch`, `fs.readFileSync` and the click handler are left out. The Node reader's logged values are returned as records.
- Inflate is a function parameter in both PNG readers (pako's `Inflate` in the browser, `zlib.inflateSync` in Node). In the browser model it is applied to all compressed bytes pushed so far. It gives `Pending` while the stream has not ended, `Ended` with the result, or `Failed` when pako ended on a data error (`ended` set, `result` undefined). In the Node model it is applied to each IDAT chunk on its own, as the source does.
- `Date`/`Date.UTC` are left out: the tIME fields are kept as numbers.
- `TextDecoder` is modelled as the identity on bytes (Latin-1). Browsers decode "iso-8859-1" as windows-1252, which differs for bytes 0x80 to 0x9F.
- The PNG CRC is never checked, as in the source.
- The browser's IHDR, pHYs and tIME handlers advance by a fixed 13, 9 and 7 bytes (plus the CRC) whatever the chunk's declared length. The model does the same.
- `new DataView(data.buffer)` is modelled as reading the array itself, assuming the array starts at offset 0 of its buffer.
- The JPEG marker map used for logging and `printMatrix*` only print, so they are left out.
- `JpegSegments.DecodeHuffman`: a DHT payload with fewer symbols than its counts is an error here. The source would insert `undefined` symbols.
- `Entropy.BuildMatrix`: a quantisation table shorter than 64 entries is an error here. The source would compute NaN coefficients.
- `Huffman.Find`: a walk that falls off the trie, or a single-child root whose child is a subtree, gives no symbol. The source returns `undefined`.
- `getCode`'s retry loop is modelled as one `find`, because a symbol is a byte and never -1.
- `Huffman.Insert`: the empty nodes the source pushes while descending are kept, even when the insertion fails.
- `PngImage.BytesPerPixel`: a bit depth of 8 or more that is not a multiple of 8 is an error here. The source would compute a fractional byte count.
- `PngImage.UndoFilters`: data shorter than the scanlines need (but at least `height` bytes long) is an error here. In the source, a row whose filter byte is missing throws "unknown filter type", as the model does. A row with only some pixel bytes missing does not throw in the source: the missing bytes read as NaN and are stored as 0, and writes past the end of the shorter result are dropped. Data shorter than `height` bytes throws a RangeError in the source as well.
- `BitStream.GetNBits` uses unbounded integers. The source's `val * 2 + bit` is double arithmetic that rounds once n is 54 or more, and n is a raw DC symbol, so any byte value. The source's `pos >> 3` is a 32-bit operation that wraps once the bit position passes 2^31.
- `BitStream.GetNBitsIsBitsValue` has the same limits as `GetNBits`: the binary value it states is exact only where the source's doubles are (n below 54) and the bit position is below 2^31.
- `NodeParser.BytesToNumIsBigEndian` uses unbounded integers. Above 2^53 (more than six bytes) the source's `number` arithmetic loses precision. The Node reader's lengths are four bytes, below 2^32.
- `arr.reverse()` in `bytesToNum` reverses the taken array in place. Nothing reads that array again, so the model uses a reversed copy.
- The five one-byte IHDR fields of the Node reader are read with `take`. The model reads them as numbers, since their values are never used.
- `browser/image-decoder.ts` and `node/express.ts` are not part of this model. They are a loader and an HTTP server around the decoders.
