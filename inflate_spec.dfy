/** What `stream_inflate` produces from the whole of its compressed input,
    as functions of the concatenated chunks: the bytes it yields, in order,
    and the error it raises, if any, after yielding them. */
module InflateSpec {
  import opened Wrappers
  import opened Bits
  import opened Readers
  import opened BackwardsCache
  import opened Huffman
  import opened Tables

  /** `get_backwards_cache(32768)`: how far back a back-reference may reach. */
  const WindowSize: nat := 32768

  /** The module-level constants `upcompressed` works with: the code lengths
      of the fixed literal/length and distance codes, and (extra bits, base)
      for each length symbol from 257 on and for each distance code. */
  datatype Constants = Constants(
    fixedLengths: seq<nat>,
    fixedDistances: seq<nat>,
    lengthRows: seq<(nat, nat)>,
    distanceRows: seq<(nat, nat)>)

  const SourceConstants: Constants :=
    Constants(FixedLengths, FixedDistances, LengthsExtraBitsDiffs, DistancesExtraBitsDiffs)

  /** What the decoder relies on: both code-length lists are non-empty and
      every distance base is at least 1, so no copy starts past the end of
      the output. */
  predicate ConstantsValid(c: Constants)
  {
    && c.fixedLengths != [] && c.fixedDistances != []
    && forall i :: 0 <= i < |c.distanceRows| ==> c.distanceRows[i].1 >= 1
  }

  lemma SourceConstantsValid()
    ensures ConstantsValid(SourceConstants)
  {
    forall i | 0 <= i < |DistancesExtraBitsDiffs|
      ensures DistancesExtraBitsDiffs[i].1 >= 1
    {
      DistanceRow(i);
    }
  }

  /** The bytes a block (or the rest of a block) yields, the stream bit it
      ends at, and the error that stopped it, if any. */
  datatype Run = Run(bytes: seq<Byte>, p: nat, err: Option<Error>)

  /** What one symbol of a fixed Huffman block does. */
  datatype Step = Emit(bytes: seq<Byte>, p: nat) | EndOfBlock(p: nat) | Fail(error: Error)

  /** The output of a whole stream and the error it ended with, if any. */
  datatype Outcome = Outcome(out: seq<Byte>, err: Option<Error>)

  /** `int.from_bytes(get_bits(n), byteorder='big')`: the n bits at stream
      bit p, packed by `get_bits` and read back as a big-endian integer. */
  function ExtraBits(data: seq<Byte>, p: nat, n: nat): (r: Result<nat>)
    ensures r.Ok? <==> p + n <= 8 * |data|
    ensures r.Err? ==> r.error == TruncatedData
  {
    var b := ReadBits(data, p, n);
    if b.Err? then Err(b.error) else Ok(FromBytesBig(b.value))
  }

  /** Length symbol v (257 or above) read just before stream bit p: the row
      of the length table it indexes and its extra bits; the copy length and
      the bit after the extra bits. */
  function LengthAt(c: Constants, data: seq<Byte>, p: nat, v: nat): (r: Result<(nat, nat)>)
    requires p <= 8 * |data| && 257 <= v
    ensures r.Ok? ==> p <= r.value.1 <= 8 * |data|
  {
    if v - 257 >= |c.lengthRows| then Err(IndexOutOfRange)
    else
      var row := c.lengthRows[v - 257];
      var extra := ExtraBits(data, p, row.0);
      if extra.Err? then Err(extra.error)
      else Ok((row.1 + extra.value, p + row.0))
  }

  /** The distance code at stream bit p, decoded with the fixed distance
      table, then the row it indexes and its extra bits; the distance and
      the bit after the extra bits. */
  function DistanceAt(c: Constants, data: seq<Byte>, p: nat): (r: Result<(nat, nat)>)
    requires ConstantsValid(c) && p <= 8 * |data|
    ensures r.Ok? ==> 1 <= r.value.0 && p < r.value.1 <= 8 * |data|
  {
    var code := Decode(CanonicalTable(c.fixedDistances), StreamBits(data), p, 0, 0);
    if code.Err? then Err(code.error)
    else if code.value.0 >= |c.distanceRows| then Err(IndexOutOfRange)
    else
      var row := c.distanceRows[code.value.0];
      var extra := ExtraBits(data, code.value.1, row.0);
      if extra.Err? then Err(extra.error)
      else Ok((row.1 + extra.value, code.value.1 + row.0))
  }

  /** A length symbol v read just before stream bit p, with `hist` the output
      so far that went through the cache: the copy of `length` bytes from
      `dist` bytes back in the last WindowSize bytes of `hist`. */
  function BackReference(c: Constants, data: seq<Byte>, p: nat, hist: seq<Byte>, v: nat): (r: Step)
    requires ConstantsValid(c) && p <= 8 * |data| && 257 <= v
    ensures !r.EndOfBlock?
    ensures r.Emit? ==> p < r.p <= 8 * |data|
  {
    var length := LengthAt(c, data, p, v);
    if length.Err? then Fail(length.error)
    else
      var dist := DistanceAt(c, data, length.value.1);
      if dist.Err? then Fail(dist.error)
      else
        var cache := Last(hist, WindowSize);
        if dist.value.0 > |cache| then Fail(BackwardsTooFar)
        else Emit(Periodic(cache[|cache| - dist.value.0..], length.value.0), dist.value.1)
  }

  /** One round of the symbol loop of a fixed Huffman block at stream bit p. */
  function SymbolStep(c: Constants, data: seq<Byte>, p: nat, hist: seq<Byte>): (r: Step)
    requires ConstantsValid(c) && p <= 8 * |data|
    ensures r.Emit? ==> p < r.p <= 8 * |data|
    ensures r.EndOfBlock? ==> p < r.p <= 8 * |data|
  {
    var d := Decode(CanonicalTable(c.fixedLengths), StreamBits(data), p, 0, 0);
    if d.Err? then Fail(d.error)
    else
      var v := d.value.0;
      if v < 256 then Emit(Utf8(v), d.value.1)
      else if v == 256 then EndOfBlock(d.value.1)
      else BackReference(c, data, d.value.1, hist, v)
  }

  /** SymbolStep once the symbol v at p, ending at q, is known. */
  lemma SymbolDecoded(c: Constants, data: seq<Byte>, p: nat, hist: seq<Byte>, v: nat, q: nat)
    requires ConstantsValid(c) && p <= 8 * |data|
    requires Decode(CanonicalTable(c.fixedLengths), StreamBits(data), p, 0, 0) == Ok((v, q))
    ensures q <= 8 * |data|
    ensures v < 256 ==> SymbolStep(c, data, p, hist) == Emit(Utf8(v), q)
    ensures v == 256 ==> SymbolStep(c, data, p, hist) == EndOfBlock(q)
    ensures 256 < v ==> SymbolStep(c, data, p, hist) == BackReference(c, data, q, hist, v)
  {
  }

  /** The symbols of a fixed Huffman block from stream bit p up to and
      including its end-of-block symbol; every emitted byte joins `hist`. */
  function Symbols(c: Constants, data: seq<Byte>, p: nat, hist: seq<Byte>): (r: Run)
    requires ConstantsValid(c) && p <= 8 * |data|
    ensures r.err.None? ==> p < r.p <= 8 * |data|
    decreases 8 * |data| - p
  {
    match SymbolStep(c, data, p, hist)
    case Fail(e) => Run([], p, Some(e))
    case EndOfBlock(q) => Run([], q, None)
    case Emit(bytes, q) =>
      var rest := Symbols(c, data, q, hist + bytes);
      Run(bytes + rest.bytes, rest.p, rest.err)
  }

  /** A block that goes on after symbol p yields that symbol's bytes first. */
  lemma SymbolsEmit(c: Constants, data: seq<Byte>, p: nat, hist: seq<Byte>)
    requires ConstantsValid(c) && p <= 8 * |data| && SymbolStep(c, data, p, hist).Emit?
    ensures var s := SymbolStep(c, data, p, hist);
      var rest := Symbols(c, data, s.p, hist + s.bytes);
      Symbols(c, data, p, hist) == Run(s.bytes + rest.bytes, rest.p, rest.err)
  {
  }

  /** The little-endian integer of two bytes (`struct.unpack('<H', …)`). */
  function LittleEndian16(b: seq<Byte>): (n: nat)
    requires |b| == 2
    ensures n < 65536
  {
    b[0] as nat + 256 * b[1] as nat
  }

  /** A stored block whose header ends at stream bit p: LEN and NLEN from the
      next byte boundary (NLEN is read and not checked), then LEN bytes. */
  function Stored(data: seq<Byte>, p: nat): (r: Run)
    ensures r.err.None? ==> p < r.p <= 8 * |data|
  {
    var len := ReadBytes(data, p, 2);
    if len.Err? then Run([], p, Some(len.error))
    else
      var a := ByteBoundary(p) + 4;
      var nlen := ReadBytes(data, 8 * (a - 2), 2);
      if nlen.Err? then Run([], p, Some(nlen.error))
      else
        var n := LittleEndian16(len.value);
        if a + n <= |data| then Run(data[a..a + n], 8 * (a + n), None)
        else Run(data[a..], p, Some(TruncatedData))
  }

  /** A stored block whose LEN and NLEN both read: its payload of LEN
      bytes from byte a on, or as much as there is and TruncatedData. */
  lemma StoredRead(data: seq<Byte>, p: nat, a: nat, len: seq<Byte>, n: nat)
    requires ReadBytes(data, p, 2) == Ok(len) && a == ByteBoundary(p) + 4
    requires ReadBytes(data, 8 * (a - 2), 2).Ok? && |len| == 2 && n == LittleEndian16(len)
    ensures a <= |data|
    ensures Stored(data, p) ==
      if a + n <= |data| then Run(data[a..a + n], 8 * (a + n), None) else Run(data[a..], p, Some(TruncatedData))
  {
  }

  /** A block header at stream bit p: `b_final = get_bits(1)` and
      `b_type = get_bits(2)`, each a single byte. */
  function Header(data: seq<Byte>, p: nat): (r: Result<(Byte, Byte)>)
    ensures r.Ok? <==> p + 3 <= 8 * |data|
    ensures r.Err? ==> r.error == TruncatedData
  {
    var final := ReadBits(data, p, 1);
    if final.Err? then Err(final.error)
    else
      var blockType := ReadBits(data, p + 1, 2);
      if blockType.Err? then Err(blockType.error)
      else Ok((final.value[0], blockType.value[0]))
  }

  /** What one block leaves behind: its run, everything that has gone
      through the cache once it is over, and whether its final bit was set. */
  datatype Block = Block(run: Run, hist: seq<Byte>, final: bool)

  /** One block from stream bit p: a header, then the body of a stored (0)
      block, which bypasses the cache, or of a fixed Huffman (1) block, or
      UnsupportedBlockType. */
  function NextBlock(c: Constants, data: seq<Byte>, p: nat, hist: seq<Byte>): (b: Block)
    requires ConstantsValid(c)
    ensures b.run.err.None? ==> p < b.run.p <= 8 * |data|
  {
    var header := Header(data, p);
    if header.Err? then Block(Run([], p, Some(header.error)), hist, true)
    else if header.value.1 > 1 then Block(Run([], p, Some(UnsupportedBlockType(header.value.1))), hist, true)
    else if header.value.1 == 0 then Block(Stored(data, p + 3), hist, header.value.0 != 0)
    else
      var run := Symbols(c, data, p + 3, hist);
      Block(run, hist + run.bytes, header.value.0 != 0)
  }

  /** The blocks from stream bit p on, `hist` being everything that went
      through the cache so far, up to the first final or failing one. */
  function Blocks(c: Constants, data: seq<Byte>, p: nat, hist: seq<Byte>): (r: Outcome)
    requires ConstantsValid(c)
    decreases 8 * |data| - p
  {
    var b := NextBlock(c, data, p, hist);
    if b.run.err.Some? then Outcome(b.run.bytes, b.run.err)
    else if b.final then Outcome(b.run.bytes, None)
    else
      var rest := Blocks(c, data, b.run.p, b.hist);
      Outcome(b.run.bytes + rest.out, rest.err)
  }

  /** Everything `stream_inflate` yields from a deflate stream, and how it
      ends. */
  function Inflate(data: seq<Byte>): Outcome
  {
    SourceConstantsValid();
    Blocks(SourceConstants, data, 0, [])
  }
}
