# stream-inflate in Dafny

A model of `stream_inflate.py`, a pull-based DEFLATE (RFC 1951) decoder that
takes an iterable of compressed chunks and yields uncompressed pieces. It
handles stored blocks (type 0) and fixed Huffman blocks (type 1) and raises
`UnsupportedBlockType` on anything else, dynamic Huffman blocks included.

The decoder is built from closures that share mutable state. The model
keeps that shape:

- `Readers.Reader` (reader.dfy) is the state of `get_readers`: the current
  chunk, `offset_byte`, `offset_bit` and the position in the chunk iterator.
  Its methods are `_get_bits`, `_yield_bytes` and `_get_bytes`, each with
  its loop, proved against the stream as one flat byte sequence
  (`Data()`, the concatenated chunks) and a bit position (`Pos()`).
- `BackwardsCache.Window` (window.dfy) is the state of
  `get_backwards_cache`: `cache`, plus a ghost `history` of everything that
  went through it. `ViaCache` and `FromCache` are `via_cache` and
  `from_cache`. The copy is specified by `Periodic` and tied to the
  byte-by-byte LZ77 copy of section 3.2.3 of RFC 1951 by `CopyBackPeriodic`.
- `Huffman` (huffman.dfy) is `get_huffman_decoder`. `BuildCodes` is
  `dict(yield_codes())`, proved equal to a pure canonical table
  `CanonicalTable`, whose codes are proved consecutive per length and
  prefix-free, and, for lengths obeying the Kraft inequality (the fixed
  ones do, `Tables.FixedLengthsComplete`), below `2^length`. `GetNext` is `get_next`, proved equal to the
  pure `Decode`.
- `Tables` (tables.dfy) holds the constant tables and proves them against
  section 3.2.6 of RFC 1951 (the fixed code, symbol by symbol) and
  section 3.2.5 (the length and distance ranges).
- `InflateSpec` (inflate_spec.dfy) says, as pure functions of the
  concatenated input, what `upcompressed` yields and which error ends it:
  `Header`, `Stored`, `SymbolStep`/`Symbols`, `NextBlock`, `Blocks` and
  `Inflate`.
- `Inflater` (inflate.dfy) is `upcompressed` and `stream_inflate` as
  methods over a `Reader` and a `Window`. `StreamInflate` is proved to
  yield `Inflate(Concat(chunks))` for every chunking of the input and every
  `chunk_size`, error included.
- `Properties` (properties.dfy) holds whole-stream facts: concrete streams,
  the length and distance ranges, back-references as LZ77 copies, the
  places where the decoder departs from RFC 1951, and round trips for
  stored streams.
- `Lz77` (lz77.dfy) holds LZ77 tokens written in the fixed Huffman code and
  proves that the decoder gives back their output, literals and
  back-references alike.

Exceptions are values. `Error` has `TruncatedData` (`TruncatedDataError`),
`UnsupportedBlockType(t)`, `BackwardsTooFar` (the bare
`Exception('Searching backwards too far')`) and `IndexOutOfRange` (the
`IndexError` of a table lookup past its end). A method returns the pieces
it yielded before the error together with `Some(error)`, because output
yielded before an exception has already reached the caller.

The decoder departs from RFC 1951 in several places. The model follows the
code in each of them:

- A literal symbol v is yielded as `chr(v).encode()`, its UTF-8 encoding
  (`Bits.Utf8`). Literals 128-255 yield two bytes.
- Extra bits are read with `int.from_bytes(..., byteorder='big')` over the
  bytes `_get_bits` packs least-significant first. For up to 8 extra bits
  the result is the RFC value (`Bits.ExtraBitsUpToEight`). Distance codes
  0-19 carry at most 8 extra bits. Codes 20-29 (distances 1025-32768) carry
  9-13 extra bits. For them the first eight stream bits become
  the high byte (`Bits.ExtraBitsBigEndian`, `Properties.DistanceIsRfc`). A
  distance can then exceed 32768 (`Properties.FarthestDistanceOverflows`
  gives 89888).
- Stored bytes bypass `via_cache`, so later back-references cannot reach
  them. `NextBlock` leaves `hist` unchanged for stored blocks.
- NLEN is read and never checked against LEN.
- Symbols 286 and 287 and distance codes 30 and 31 index past the end of
  their tables. This is `IndexOutOfRange`.
- `get_next` has no 15-bit cap. It stops only on a table hit or on running
  out of input.
- Bytes after the block whose final bit is set are ignored
  (`Properties.StoredRoundTrip` and `Lz77.FixedTokensRoundTrip` allow any
  trailing bytes).
- A chunk that is empty would be indexed out of range by `_get_bits`. Every
  chunk is therefore required to be non-empty.

## Model

| member | source | states |
|---|---|---|
| Readers.ByteBoundary | stream_inflate.py:72-74 | the byte `_yield_bytes` starts at: the first byte boundary at or after the bit position, less than 8 bits on |
| Readers.ReadBits | stream_inflate.py:46-67 | `_get_bits(n)` at bit p: ceil(n/8) bytes of packed stream bits, otherwise TruncatedData and nothing else |
| Readers.ReadBytes | stream_inflate.py:85-86 | `_get_bytes(n)` at bit p: exactly n bytes from the next byte boundary, otherwise TruncatedData |
| Readers.Reader.constructor | stream_inflate.py:34-38 | a fresh reader over the chunks stands at stream bit 0 |
| Readers.Reader.NextChunk | stream_inflate.py:57-59 | taking the next chunk keeps the stream position and lands on its first byte |
| Readers.Reader.BitReady | stream_inflate.py:53-59 | stepping past a full byte and fetching a chunk keeps the position and succeeds exactly when a bit is left |
| Readers.Reader.TakeBit | stream_inflate.py:52-64 | one bit read: the stream bit at the position, and the position moves by one; TruncatedData exactly at the end of the stream |
| Readers.Reader.TakeBitInto | stream_inflate.py:52-65 | one loop round: the output holds the first k+1 bits packed, the rest of it still zero |
| Readers.Reader.FillBits | stream_inflate.py:52-65 | the loop of `_get_bits`: succeeds exactly when n bits are left, and then the output holds those n bits packed and the position moved n bits |
| Readers.SetBit | stream_inflate.py:61 | or-ing bit k into `out[k // 8]` at bit `k % 8` packs one more bit |
| Readers.Reader.GetBits | stream_inflate.py:46-67 | `_get_bits(n)` returns ReadBits of the stream at the old position and advances exactly n bits, across chunk boundaries |
| Readers.Reader.ByteReady | stream_inflate.py:77-79 | fetching a chunk when the current one is used up succeeds exactly when a byte is left |
| Readers.Reader.NextPiece | stream_inflate.py:76-83 | one round of `_yield_bytes`: a non-empty piece of at most min(remaining, chunk_size) bytes, the next bytes of the stream |
| Readers.Reader.YieldPiece | stream_inflate.py:76-83 | one round of the `_yield_bytes` loop: fails exactly at the end of the stream; otherwise fewer bytes remain and the pieces join to the bytes read so far, each at most chunk_size |
| Readers.Reader.AlignToByte | stream_inflate.py:72-74 | the rest of a partly read byte is skipped and offset_bit becomes 0 |
| Readers.Reader.YieldAligned | stream_inflate.py:76-83 | the pieces join to the next n bytes and each is at most chunk_size long; when the input runs out, they hold every byte left and the error is TruncatedData |
| Readers.Reader.YieldBytes | stream_inflate.py:69-83 | `_yield_bytes(n)`: byte-align, then the pieces join to the n bytes after the boundary, each at most chunk_size long |
| Readers.Reader.GetBytes | stream_inflate.py:85-86 | `_get_bytes(n)` returns ReadBytes at the old position and ends n bytes after the boundary |
| Bits.PackBitAt | stream_inflate.py:49-61 | the k-th bit given to `_get_bits` is bit k % 8 of output byte k // 8, and every padding bit is 0 |
| Bits.PackStreamBit | stream_inflate.py:46-67 | reading the packed bytes back as a stream gives the bits back |
| Bits.PackSnoc | stream_inflate.py:61 | packing one more bit either starts a new byte or changes only the last byte |
| Bits.PackSnocPadded | stream_inflate.py:49-61 | in a zero-filled buffer, packing one more bit adds `bit * 2^(k % 8)` to byte k // 8 |
| Bits.StreamBitsAt | stream_inflate.py:61 | the stream read as bits, least significant bit of each byte first |
| Bits.Utf8 | stream_inflate.py:161 | `chr(v).encode()`: one byte v below 128; otherwise two bytes, lead 0xC2-0xC3 and a continuation byte, that encode v |
| Bits.ExtraBitsUpToEight | stream_inflate.py:166 | up to 8 extra bits read big-endian are their least-significant-first value |
| Bits.ExtraBitsBigEndian | stream_inflate.py:169-170 | 9-16 extra bits read big-endian put the first eight bits in the high byte, not the RFC value |
| Bits.FromBytesBigTwo | stream_inflate.py:170 | `int.from_bytes` of two bytes, big-endian |
| Bits.ConcatAppend | stream_inflate.py:86 | `b''.join` of two runs of pieces is the join of each |
| BackwardsCache.Last | stream_inflate.py:96 | `(cache + chunk)[-size:]`: the last min(size, total) bytes |
| BackwardsCache.LastLast | stream_inflate.py:96 | trimming after every chunk is trimming once at the end |
| BackwardsCache.PeriodicAt | stream_inflate.py:103-109 | byte i of the copy is byte i mod dist of the window |
| BackwardsCache.PeriodicStep | stream_inflate.py:106-109 | one round of the `from_cache` loop yields `chunk[:length]` and leaves the repetition of the rest |
| BackwardsCache.CopyBackPeriodic | stream_inflate.py:99-109 | repeating the last dist bytes is the byte-by-byte LZ77 copy of RFC 1951, overlapping copies included |
| BackwardsCache.Window.constructor | stream_inflate.py:90-91 | an empty cache that has seen nothing |
| BackwardsCache.Window.ViaCache | stream_inflate.py:93-97 | every piece is passed on unchanged, and the cache becomes the last `size` bytes of everything passed through |
| BackwardsCache.Window.FromCache | stream_inflate.py:99-109 | fails exactly when dist exceeds the cache; otherwise the pieces join to `length` bytes of the last dist bytes repeated, each at most dist long; the cache is not changed |
| Huffman.MaxLength | stream_inflate.py:116 | `max(lengths)`: the largest entry, and one that occurs |
| Huffman.CountAppend | stream_inflate.py:117 | the length histogram of two lists is the sum of theirs |
| Huffman.FirstCodes | stream_inflate.py:116-123 | `next_code[l]` for every length 1..max_bits is the first canonical code of that length |
| Huffman.BuildCodes | stream_inflate.py:115-128 | `dict(yield_codes())` (line 141) is the canonical table of the lengths |
| Huffman.CodeFirst | stream_inflate.py:121-127 | the first symbol of each length gets `next_code[length]` |
| Huffman.CodeIncreasing | stream_inflate.py:125-128 | codes of one length increase with the symbol |
| Huffman.CodeConsecutive | stream_inflate.py:125-128 | consecutive symbols of one length get consecutive codes |
| Huffman.CodeFits | stream_inflate.py:121-128 | for lengths obeying the Kraft inequality, each code of length L is below 2^L |
| Huffman.CanonicalTableEntries | stream_inflate.py:125-128 | every symbol of non-zero length is in the table under (length, code), length-0 symbols are not, and every key belongs to the symbol of that code |
| Huffman.CanonicalPrefixFree | stream_inflate.py:115-128 | for any lengths, no key of the table is a prefix of another key |
| Huffman.Decode | stream_inflate.py:130-139 | `get_next` on a bit sequence: a hit ends after the bits it read, and the only error is running out of bits |
| Huffman.AccSnoc | stream_inflate.py:135 | `code = (code << 1) \| bit` puts the first bit read highest |
| Huffman.DecodeFirstMatch | stream_inflate.py:133-139 | a hit is the first (length, code) key met while reading, and no shorter prefix was a key |
| Huffman.DecodeCode | stream_inflate.py:130-139 | with a prefix-free table, the bits of a code decode to its symbol and consume exactly its length |
| Huffman.NextCodeBit | stream_inflate.py:135 | `ord(get_bits(1))`: the next stream bit, or TruncatedData at the end |
| Huffman.DecodeHit | stream_inflate.py:136-137 | a key found after one more bit is the result |
| Huffman.DecodeMiss | stream_inflate.py:138-139 | a miss goes on with the longer code |
| Huffman.GetNext | stream_inflate.py:130-139 | `get_next` returns Decode of the stream at the reader's position and stops just after the code |
| Huffman.NextCodeRound | stream_inflate.py:134-139 | one round of the `get_next` loop: a hit is Decode's result and ends at the reader's position, a miss leaves Decode of the longer code unchanged, and running out of bits is Decode's error |
| Tables.Repeat | stream_inflate.py:7-13 | `(l,) * n`: n copies of l |
| Tables.CountRepeat | stream_inflate.py:7-11 | the histogram of a run of equal lengths |
| Tables.FixedLengthCounts | stream_inflate.py:7-11 | the fixed lengths hold 24 of length 7, 152 of length 8 and 112 of length 9 |
| Tables.FixedFirstCodes | stream_inflate.py:7-11 | the fixed code starts at 0 for length 7, 0x30 for 8 and 0x190 for 9 |
| Tables.FixedCodeIsRfc | stream_inflate.py:7-11 | each fixed symbol gets the length and code of section 3.2.6 of RFC 1951 |
| Tables.FixedTable | stream_inflate.py:156 | the fixed literal/length table is exactly the RFC 1951 code, both ways; literal 0 is (8, 0x30) and 256 is (7, 0) |
| Tables.FixedLengthsComplete | stream_inflate.py:7-11 | the fixed lengths satisfy the Kraft inequality with equality: the code is complete |
| Tables.FixedDistanceCode | stream_inflate.py:12-13 | distance symbol v has the 5-bit code v |
| Tables.FixedDistanceTable | stream_inflate.py:157 | the fixed distance table maps the 5-bit code v to v, for v below 32, and has no other key |
| Tables.LengthRow | stream_inflate.py:14-22 | each length row has at most 5 extra bits and covers lengths inside 3..258 |
| Tables.LengthRowsAdjacent | stream_inflate.py:14-22 | the length rows follow each other without gap or overlap |
| Tables.DistanceRow | stream_inflate.py:23-32 | each distance row has at most 13 extra bits and covers distances inside 1..32768 by the RFC reading |
| Tables.DistanceRowsAdjacent | stream_inflate.py:23-32 | the distance rows follow each other without gap or overlap |
| InflateSpec.SourceConstantsValid | stream_inflate.py:7-32 | the tables are non-empty and every distance base is at least 1 |
| InflateSpec.ExtraBits | stream_inflate.py:166 | `int.from_bytes(get_bits(n), 'big')` succeeds exactly when n bits are left, and otherwise fails with TruncatedData |
| InflateSpec.LengthAt | stream_inflate.py:165-167 | the copy length ends after the extra bits, inside the stream |
| InflateSpec.DistanceAt | stream_inflate.py:168-171 | a distance of at least 1 that ends after its code and extra bits, inside the stream |
| InflateSpec.BackReference | stream_inflate.py:165-172 | a back-reference never ends the block and moves forward in the stream |
| InflateSpec.SymbolStep | stream_inflate.py:159-172 | every symbol that does not fail moves forward in the stream |
| InflateSpec.Symbols | stream_inflate.py:158-172 | a block that ends well ends after its start, inside the stream |
| InflateSpec.SymbolsEmit | stream_inflate.py:159-161 | a block that goes on yields that symbol's bytes first |
| InflateSpec.SymbolDecoded | stream_inflate.py:159-172 | once `get_next` gave v: below 256 a literal's UTF-8 bytes, 256 the end of the block, above 256 a back-reference |
| InflateSpec.LittleEndian16 | stream_inflate.py:152 | `struct.unpack('<H', ...)`: a value below 65536 |
| InflateSpec.Stored | stream_inflate.py:151-154 | a stored block that ends well ends after its start, inside the stream |
| InflateSpec.StoredRead | stream_inflate.py:151-154 | with LEN and NLEN read, a stored block yields the LEN bytes after NLEN and ends after them, or all bytes left and TruncatedData |
| InflateSpec.Header | stream_inflate.py:149-150 | the header reads exactly when 3 bits are left; otherwise TruncatedData |
| InflateSpec.NextBlock | stream_inflate.py:148-174 | a block that ends well ends after its start, inside the stream |
| Properties.BlocksNext | stream_inflate.py:147-174 | after a block that ends well, the loop stops if it was final and otherwise yields the rest of the stream after it |
| Inflater.StoredBlock | stream_inflate.py:151-154 | yields Stored of the stream at the old position, error included |
| Inflater.StoredLength | stream_inflate.py:152-153 | LEN is read little-endian and NLEN is skipped, with the reader after NLEN; a failure is the stored block's error with nothing yielded |
| Inflater.ReadExtra | stream_inflate.py:166 | returns ExtraBits and moves past them |
| Inflater.ReadLength | stream_inflate.py:165-167 | returns LengthAt, error included, and moves past the extra bits |
| Inflater.ReadDistance | stream_inflate.py:168-171 | returns DistanceAt, error included, and moves past the extra bits |
| Inflater.ReadCopy | stream_inflate.py:165-171 | a length, then a distance, with the first error |
| Inflater.BackReferenceCopy | stream_inflate.py:165-172 | a back-reference whose length and distance read is the copy out of the cache window, or BackwardsTooFar |
| Inflater.CopyFromCache | stream_inflate.py:165-172 | yields BackReference, error included, and the copy goes through the cache |
| Inflater.CopyThroughCache | stream_inflate.py:172 | `via_cache(from_cache(dist, length))`: the copy from the cache window, which joins the cache; BackwardsTooFar exactly when dist exceeds the cache |
| Inflater.EmitLiteral | stream_inflate.py:161 | a literal's UTF-8 bytes are yielded and join the cache |
| Inflater.NextSymbol | stream_inflate.py:159-172 | one round of the symbol loop does what SymbolStep says |
| Inflater.FixedBlock | stream_inflate.py:158-172 | the symbol loop yields Symbols, error included, and every yielded byte joins the cache |
| Inflater.SymbolRound | stream_inflate.py:158-172 | one round of the symbol loop: at the end it has yielded the whole block's Symbols, error included; otherwise it moved forward and the rest of the block is still Symbols from there |
| Inflater.FreshFixedBlock | stream_inflate.py:155-172 | a fixed block with both decoders built afresh yields Symbols |
| Inflater.ReadHeader | stream_inflate.py:149-150 | returns Header and moves 3 bits |
| Inflater.StoredBody | stream_inflate.py:151-154 | the body of a type-0 block yields what NextBlock says |
| Inflater.FixedBody | stream_inflate.py:155-172 | the body of a type-1 block yields what NextBlock says |
| Inflater.InflateBlock | stream_inflate.py:148-174 | one block yields NextBlock, error included: UnsupportedBlockType for types 2 and 3 |
| Inflater.Upcompressed | stream_inflate.py:145-174 | the blocks up to the final one yield Blocks, error included |
| Inflater.StreamInflate | stream_inflate.py:176-178 | for every chunking and every chunk_size, the pieces join to the decoding of the concatenated input, with the same error |
| Properties.EmptyStreamTruncated | stream_inflate.py:149 | an empty input raises TruncatedDataError and yields nothing |
| Properties.BlockTypeThree | stream_inflate.py:173-174 | the header with type bits 3 raises UnsupportedBlockType(3) |
| Properties.BlockTypeTwo | stream_inflate.py:173-174 | a dynamic Huffman block header raises UnsupportedBlockType(2) |
| Properties.BitsAtSlice | stream_inflate.py:61 | the n stream bits at p are a slice of the stream read as bits |
| Properties.AccMsb | stream_inflate.py:135 | the accumulated code is the bits read, first bit most significant |
| Properties.DistanceCodeBits | stream_inflate.py:157 | any 5 bits decode with the fixed distance table to their MSB-first value |
| Properties.FixedDistanceKey | stream_inflate.py:12-13 | (5, v) maps to v for each v below 32 |
| Properties.DistanceCodeTruncated | stream_inflate.py:157 | fewer than 5 bits left: the distance code fails with TruncatedData |
| Properties.DistanceCodeRead | stream_inflate.py:168 | the distance code is the next 5 stream bits read MSB first |
| Properties.LengthIsRfc | stream_inflate.py:165-167 | symbols 286 and 287 raise IndexError; otherwise the length is base plus extra bits, LSB first as in RFC 1951, in 3..258, and it fails exactly when the extra bits run out |
| Properties.ExtraBitsValue | stream_inflate.py:166-170 | up to 8 extra bits give their LSB-first value; 9-16 give 256 times the first eight plus the rest |
| Properties.DistanceIsRfc | stream_inflate.py:168-171 | codes 30 and 31 raise IndexError; up to 8 extra bits give the RFC distance, at most 32768; more give the big-endian value; it fails exactly when the bits run out |
| Properties.DistanceSteps | stream_inflate.py:168-171 | the same for any row table whose extra bits are at most 16 |
| Properties.DistanceTruncated | stream_inflate.py:168 | fewer than 5 bits left: the distance fails with TruncatedData |
| Properties.AllOnes | stream_inflate.py:170 | n one-bits read LSB first are 2^n - 1 |
| Properties.FarthestDistanceOverflows | stream_inflate.py:168-171 | code 29 with all-ones extra bits reaches the RFC maximum 32768, but the decoder reads 89888 |
| Properties.BackReferenceIsCopy | stream_inflate.py:165-172 | a back-reference fails exactly when the distance exceeds the output or the window; otherwise the output grows by the byte-by-byte LZ77 copy |
| Properties.StoredBlockBytes | stream_inflate.py:151-154 | an encoded stored block is a 5-byte header, then the payload |
| Properties.StoredHeader | stream_inflate.py:149-151 | a header byte 0 or 1 on a byte boundary is a stored block with that final flag |
| Properties.StoredBody | stream_inflate.py:151-154 | the body of an encoded stored block yields its payload and ends after it |
| Properties.StoredBlockRead | stream_inflate.py:148-154 | an encoded stored block yields its payload and leaves the cache alone |
| Properties.StoredStreamRead | stream_inflate.py:145-154 | stored blocks in a row, the last one final, yield the payloads in order |
| Properties.StoredRoundTrip | stream_inflate.py:145-154 | decoding an encoded stored stream with any trailing bytes gives back the joined payloads, without error |
| Properties.MsbBitsValue | stream_inflate.py:135 | the bits of a code, MSB first, read back to the code |
| Properties.FixedSymbolBits | stream_inflate.py:7-11 | the RFC 1951 bits of a fixed symbol: 7 to 9 of them |
| Properties.FixedSymbolKey | stream_inflate.py:156 | the RFC code of symbol v is a key of the fixed table for v |
| Properties.FixedSymbolDecodes | stream_inflate.py:159 | the RFC bits of a fixed symbol decode to that symbol and consume exactly them |
| Lz77.ApplyExtends | stream_inflate.py:159-172 | a literal or a back-reference only appends to the output |
| Lz77.FindLastRow | stream_inflate.py:14-22 | the length row an encoder picks: the last row whose range holds the length, so no later row holds it |
| Lz77.FindLastRowWithin | stream_inflate.py:14-22 | in rows that follow each other without a gap, the search down from the last of them finds every value they cover, in one of them |
| Lz77.FindRowWithin | stream_inflate.py:14-32 | in rows that follow each other without a gap, every value from the first base to the end of a row has a row at or before it |
| Lz77.LsbBitsValue | stream_inflate.py:166-170 | extra bits written least significant first read back to their value |
| Lz77.SymbolRead | stream_inflate.py:159 | the RFC 1951 bits of a fixed symbol in the stream decode to it and end after them |
| Lz77.LiteralStep | stream_inflate.py:159-161 | the bits of a literal yield its UTF-8 bytes and end after its code |
| Lz77.EndStep | stream_inflate.py:162-163 | the bits of symbol 256 end the block after its code |
| Lz77.LengthBitsRead | stream_inflate.py:164-167 | a length symbol and its extra bits read to the length they encode |
| Lz77.DistanceBitsRead | stream_inflate.py:168-171 | a 5-bit distance code and up to 8 extra bits read to the distance they encode |
| Lz77.CopyRead | stream_inflate.py:164-172 | a length and a distance that read, within the output and window, yield the byte-by-byte LZ77 copy |
| Lz77.CopyStep | stream_inflate.py:164-172 | the bits of a back-reference with at most 8 extra bits each yield the copy and end after its distance bits |
| Lz77.TokenStep | stream_inflate.py:159-172 | the bits of any encodable token make one round of the symbol loop that appends what the token means and ends after its bits |
| Lz77.TokensRead | stream_inflate.py:158-172 | the bits of encodable tokens that reach only into earlier output, then end-of-block: the block yields the tokens' output and ends after their bits |
| Lz77.FixedTokensBlock | stream_inflate.py:145-172 | a final fixed block of encodable tokens, with any trailing bytes, yields the tokens' output without error |
| Lz77.LengthFound | stream_inflate.py:14-22 | every length 3..258 is written with a length symbol whose row has at most 5 extra bits; 258, and only 258, with symbol 285 as in section 3.2.5 of RFC 1951 |
| Lz77.DistanceFound | stream_inflate.py:23-32 | every distance 1..1024 has a distance code below 20 with at most 8 extra bits |
| Lz77.PlainEncodable | stream_inflate.py:7-32 | literals, and copies of 3..258 bytes from at most 1024 back, can be written with the source's tables |
| Lz77.FixedTokensRoundTrip | stream_inflate.py:145-178 | decoding literals and back-references written as a final fixed block, with any trailing bytes, gives their LZ77 output without error |
| Lz77.LiteralTokensOutput | stream_inflate.py:159-161 | literals as tokens output their UTF-8 bytes in order |
| Lz77.FixedLiteralRoundTrip | stream_inflate.py:145-163 | decoding a literal-only fixed block with any trailing bytes gives back the literals' UTF-8 bytes |
| Lz77.EmptyFixedBlock | stream_inflate.py:145-163 | the bytes 0x03 0x00 decode to nothing, without error |
| Properties.PackedSlice | stream_inflate.py:46-67 | bits packed into bytes read back as the same bits, whatever follows |
| Properties.FixedHeader | stream_inflate.py:149-155 | the bits 1, 1, 0 at the start are a final fixed Huffman header |
| Properties.Utf8AllAscii | stream_inflate.py:161 | literals below 128 yield exactly themselves, so ASCII data round-trips byte for byte |
| Properties.EndOfBlockBits | stream_inflate.py:162-163 | end-of-block is seven zero bits |
| Properties.EmptyFixedBytes | stream_inflate.py:149-163 | an empty final fixed block is the bytes 0x03 0x00 |

## Left out

- The generator protocol: `stream_inflate` is lazy and interleaves reading with yielding. The model consumes the chunks as a finite sequence and returns every yielded piece with the error, if any, that stopped the stream. The bytes yielded before an error are kept.
- Piece boundaries of the output are modelled only for `yield_bytes` (each piece at most `chunk_size`) and `from_cache` (each piece at most the distance). `StreamInflate` states the joined output, not how it is cut into pieces.
- Readers.Reader.constructor: requires every chunk to be non-empty, because `_get_bits` would index past the end of an empty chunk. The model does not reproduce that `IndexError`.
- Readers.Reader.constructor: requires `chunk_size >= 1`. With 0, `_yield_bytes` loops forever, yielding empty pieces.
- Huffman.BuildCodes: requires non-empty lengths. `max([])` would raise ValueError, and both callers pass the non-empty fixed tables, so the model has no such error.
- BackwardsCache.Window.FromCache: requires a distance of at least 1. With 0, `from_cache` loops forever. Every distance the tables produce is at least 1.
- The module-level tables are a `Constants` value passed to the block functions, so proofs about the block loop do not unfold the literal tables. `Inflate` and `StreamInflate` pass the source's tables.
- Dynamic Huffman blocks (type 2), DEFLATE64 and a resumable API are not implemented by the source. Type 2 is modelled as the source treats it, as UnsupportedBlockType.
- The exception classes are the `Error` datatype. The message of the bare `Exception` is not modelled.
- setup.py is build configuration and is not part of this model. test.py and test_stream_inflate.py are not part of this model as code. Their round trips are stated as `Properties.StoredRoundTrip`, `Lz77.FixedTokensRoundTrip` and `Lz77.FixedLiteralRoundTrip`, over every chunking by `Inflater.StreamInflate`.
- Lz77.FixedTokensRoundTrip: covers one final fixed block of plain tokens only: copies of 3-258 bytes from at most 1024 back, whose extra bits number at most eight and so read the same either way round. Longer distances read differently (`Properties.DistanceIsRfc`), and a stream-level round trip over them would not hold. Several fixed blocks in a row and mixed stored and fixed blocks are not stated as a round trip.
