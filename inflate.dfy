/** `upcompressed` and `stream_inflate`: the block loop over a Reader and a
    Window, proved to yield exactly what InflateSpec says the concatenated
    input decodes to. */
module Inflater {
  import opened Wrappers
  import opened Bits
  import opened Readers
  import opened BackwardsCache
  import opened Huffman
  import opened Tables
  import opened InflateSpec

  lemma AppendAssoc(a: seq<Byte>, b: seq<Byte>, c: seq<Byte>)
    ensures a + b + c == a + (b + c)
  {
  }

  /** A stored block: LEN (little-endian), NLEN (read and dropped), then LEN
      bytes passed on as `yield_bytes` produces them, bypassing the cache. */
  method StoredBlock(r: Reader) returns (pieces: seq<seq<Byte>>, err: Option<Error>)
    requires r.Valid()
    modifies r
    ensures r.Valid()
    ensures var run := Stored(r.Data(), old(r.Pos()));
      Concat(pieces) == run.bytes && err == run.err && (err.None? ==> r.Pos() == run.p)
  {
    ghost var data, p := r.Data(), r.Pos();
    ghost var a := ByteBoundary(p) + 4;
    var n := StoredLength(r);
    if n.Err? {
      return [], Some(n.error);
    }
    StoredRead(data, p, a, ReadBytes(data, p, 2).value, n.value);
    assert ByteBoundary(r.Pos()) == a;
    pieces, err := r.YieldBytes(n.value);
    if err.None? {
      assert Concat(pieces) == data[a..a + n.value] && r.Pos() == 8 * (a + n.value);
    } else {
      assert Concat(pieces) == data[a..];
    }
  }

  /** LEN and NLEN of a stored block: LEN as a number, the reader at the
      byte boundary after NLEN. */
  method StoredLength(r: Reader) returns (n: Result<nat>)
    requires r.Valid()
    modifies r
    ensures r.Valid()
    ensures var p := old(r.Pos());
      n.Err? ==> Stored(r.Data(), p) == Run([], p, Some(n.error))
    ensures var p := old(r.Pos()); var a := ByteBoundary(p) + 4; var len := ReadBytes(r.Data(), p, 2);
      n.Ok? ==> && len.Ok? && |len.value| == 2 && n.value == LittleEndian16(len.value)
                && ReadBytes(r.Data(), 8 * (a - 2), 2).Ok? && r.Pos() == 8 * a
  {
    ghost var data, p := r.Data(), r.Pos();
    ghost var a := ByteBoundary(p) + 4;
    var len := r.GetBytes(2);
    if len.Err? {
      assert Stored(data, p) == Run([], p, Some(len.error));
      return Err(len.error);
    }
    assert r.Pos() == 8 * (a - 2);
    var nlen := r.GetBytes(2);
    if nlen.Err? {
      assert Stored(data, p) == Run([], p, Some(nlen.error));
      return Err(nlen.error);
    }
    assert r.Pos() == 8 * a;
    return Ok(LittleEndian16(len.value));
  }

  /** The extra bits of a length or distance, read as an integer. */
  method ReadExtra(r: Reader, n: nat) returns (res: Result<nat>)
    requires r.Valid()
    modifies r
    ensures r.Valid()
    ensures res == ExtraBits(r.Data(), old(r.Pos()), n)
    ensures res.Ok? ==> r.Pos() == old(r.Pos()) + n
  {
    var extra := r.GetBits(n);
    if extra.Err? {
      return Err(extra.error);
    }
    return Ok(FromBytesBig(extra.value));
  }

  /** `lengths_extra_bits_diffs[value - 257]` and the extra bits after it. */
  method ReadLength(r: Reader, c: Constants, value: nat) returns (res: Result<nat>)
    requires r.Valid() && 257 <= value
    modifies r
    ensures r.Valid()
    ensures old(r.Pos()) <= 8 * |r.Data()| &&
      var l := LengthAt(c, r.Data(), old(r.Pos()), value);
      && (l.Ok? ==> res == Ok(l.value.0) && r.Pos() == l.value.1)
      && (l.Err? ==> res == Err(l.error))
  {
    r.ChunkInData();
    if value - 257 >= |c.lengthRows| {
      return Err(IndexOutOfRange);
    }
    var row := c.lengthRows[value - 257];
    var extra := ReadExtra(r, row.0);
    if extra.Err? {
      return Err(extra.error);
    }
    return Ok(row.1 + extra.value);
  }

  /** `get_backwards_dist_code()`, the row of the distance table it indexes
      and the extra bits after it. */
  method ReadDistance(r: Reader, c: Constants, distCodes: Table) returns (res: Result<nat>)
    requires r.Valid() && ConstantsValid(c) && distCodes == CanonicalTable(c.fixedDistances)
    modifies r
    ensures r.Valid()
    ensures old(r.Pos()) <= 8 * |r.Data()| &&
      var d := DistanceAt(c, r.Data(), old(r.Pos()));
      && (d.Ok? ==> res == Ok(d.value.0) && r.Pos() == d.value.1)
      && (d.Err? ==> res == Err(d.error))
  {
    ghost var data, p := r.Data(), r.Pos();
    r.ChunkInData();
    var code := GetNext(r, distCodes);
    if code.Err? {
      assert DistanceAt(c, data, p) == Err(TruncatedData);
      return Err(code.error);
    }
    if code.value >= |c.distanceRows| {
      assert DistanceAt(c, data, p) == Err(IndexOutOfRange);
      return Err(IndexOutOfRange);
    }
    var row := c.distanceRows[code.value];
    ghost var q := r.Pos();
    var extra := ReadExtra(r, row.0);
    if extra.Err? {
      assert DistanceAt(c, data, p) == Err(TruncatedData);
      return Err(extra.error);
    }
    assert DistanceAt(c, data, p) == Ok((row.1 + extra.value, q + row.0));
    return Ok(row.1 + extra.value);
  }

  /** A length and a distance that both read: the copy BackReference
      makes, in terms of the window the cache holds. */
  lemma BackReferenceCopy(c: Constants, data: seq<Byte>, p: nat, hist: seq<Byte>, cache: seq<Byte>, v: nat,
                          length: nat, q: nat, dist: nat, q2: nat)
    requires ConstantsValid(c) && p <= 8 * |data| && 257 <= v && cache == Last(hist, WindowSize)
    requires LengthAt(c, data, p, v) == Ok((length, q)) && DistanceAt(c, data, q) == Ok((dist, q2))
    ensures BackReference(c, data, p, hist, v) ==
        if dist > |cache| then Fail(BackwardsTooFar) else Emit(Periodic(cache[|cache| - dist..], length), q2)
  {
  }

  /** The `else` branch of the symbol loop: a length and a distance, then the
      copy `from_cache` makes, passed through `via_cache`. */
  method CopyFromCache(r: Reader, w: Window, c: Constants, distCodes: Table, value: nat) returns (pieces: seq<seq<Byte>>, err: Option<Error>)
    requires r.Valid() && w.Valid() && w.size == WindowSize
    requires ConstantsValid(c) && distCodes == CanonicalTable(c.fixedDistances) && 257 <= value
    modifies r, w
    ensures r.Valid() && w.Valid()
    ensures old(r.Pos()) <= 8 * |r.Data()| &&
      var s := BackReference(c, r.Data(), old(r.Pos()), old(w.history), value);
      && (s.Emit? ==>
            err.None? && Concat(pieces) == s.bytes && r.Pos() == s.p && w.history == old(w.history) + s.bytes)
      && (s.Fail? ==> err == Some(s.error) && w.history == old(w.history))
  {
    ghost var p := r.Pos();
    ghost var h := w.history;
    ghost var cache := w.cache;
    var copy := ReadCopy(r, c, distCodes, value);
    if copy.Err? {
      return [], Some(copy.error);
    }
    var length, dist := copy.value.0, copy.value.1;
    ghost var q: nat :| LengthAt(c, r.Data(), p, value) == Ok((length, q));
    BackReferenceCopy(c, r.Data(), p, h, cache, value, length, q, dist, r.Pos());
    ghost var s := BackReference(c, r.Data(), p, h, value);
    pieces, err := CopyThroughCache(w, dist, length);
    if err.None? {
      assert s == Emit(Periodic(cache[|cache| - dist..], length), r.Pos());
      assert Concat(pieces) == s.bytes;
    }
  }

  /** The length and then the distance of a back-reference. */
  method ReadCopy(r: Reader, c: Constants, distCodes: Table, value: nat) returns (res: Result<(nat, nat)>)
    requires r.Valid() && ConstantsValid(c) && distCodes == CanonicalTable(c.fixedDistances) && 257 <= value
    modifies r
    ensures r.Valid()
    ensures old(r.Pos()) <= 8 * |r.Data()| &&
      var l := LengthAt(c, r.Data(), old(r.Pos()), value);
      && (l.Err? ==> res == Err(l.error))
      && (l.Ok? ==>
            var d := DistanceAt(c, r.Data(), l.value.1);
            && (d.Err? ==> res == Err(d.error))
            && (d.Ok? ==> res == Ok((l.value.0, d.value.0)) && r.Pos() == d.value.1))
  {
    r.ChunkInData();
    var length := ReadLength(r, c, value);
    if length.Err? {
      return Err(length.error);
    }
    var dist := ReadDistance(r, c, distCodes);
    if dist.Err? {
      return Err(dist.error);
    }
    return Ok((length.value, dist.value));
  }

  /** `via_cache(from_cache(dist, length))`: the copy out of the window,
      passed back through the cache. */
  method CopyThroughCache(w: Window, dist: nat, length: nat) returns (pieces: seq<seq<Byte>>, err: Option<Error>)
    requires w.Valid() && dist >= 1
    modifies w
    ensures w.Valid()
    ensures err.Some? <==> dist > |old(w.cache)|
    ensures err.Some? ==> err == Some(BackwardsTooFar) && w.history == old(w.history)
    ensures err.None? ==>
      && Concat(pieces) == Periodic(old(w.cache)[|old(w.cache)| - dist..], length)
      && w.history == old(w.history) + Concat(pieces)
  {
    var copied := w.FromCache(dist, length);
    if copied.Err? {
      return [], Some(copied.error);
    }
    pieces := w.ViaCache(copied.value);
    err := None;
  }

  /** `via_cache((chr(value).encode(),))`: the UTF-8 encoding of a literal
      symbol, passed through the cache as a single piece. */
  method EmitLiteral(w: Window, v: nat) returns (pieces: seq<seq<Byte>>)
    requires w.Valid() && v < 256
    modifies w
    ensures w.Valid()
    ensures Concat(pieces) == Utf8(v) && w.history == old(w.history) + Utf8(v)
  {
    pieces := w.ViaCache([Utf8(v)]);
    assert Concat(pieces) == Utf8(v) by {
      assert pieces[..0] == [];
    }
  }

  /** One round of the `while True` loop of a fixed Huffman block: a literal
      passed through `via_cache` as `chr(value).encode()`, the end of the
      block, or a back-reference. */
  method NextSymbol(r: Reader, w: Window, c: Constants, codes: Table, distCodes: Table)
    returns (pieces: seq<seq<Byte>>, err: Option<Error>, done: bool)
    requires r.Valid() && w.Valid() && w.size == WindowSize && ConstantsValid(c)
    requires codes == CanonicalTable(c.fixedLengths) && distCodes == CanonicalTable(c.fixedDistances)
    modifies r, w
    ensures r.Valid() && w.Valid()
    ensures old(r.Pos()) <= 8 * |r.Data()| &&
      var s := SymbolStep(c, r.Data(), old(r.Pos()), old(w.history));
      && (s.Emit? ==>
            !done && err.None? && Concat(pieces) == s.bytes && r.Pos() == s.p
            && w.history == old(w.history) + s.bytes)
      && (s.EndOfBlock? ==> done && err.None? && r.Pos() == s.p && w.history == old(w.history))
      && (s.Fail? ==> err == Some(s.error) && w.history == old(w.history))
  {
    r.ChunkInData();
    var value := GetNext(r, codes);
    if value.Err? {
      return [], Some(value.error), true;
    }
    if value.value < 256 {
      pieces := EmitLiteral(w, value.value);
      return pieces, None, false;
    } else if value.value == 256 {
      return [], None, true;
    }
    pieces, err := CopyFromCache(r, w, c, distCodes, value.value);
    done := err.Some?;
  }

  /** A fixed Huffman block: symbols up to the end-of-block symbol. */
  method FixedBlock(r: Reader, w: Window, c: Constants, codes: Table, distCodes: Table)
    returns (pieces: seq<seq<Byte>>, err: Option<Error>)
    requires r.Valid() && w.Valid() && w.size == WindowSize && ConstantsValid(c)
    requires codes == CanonicalTable(c.fixedLengths) && distCodes == CanonicalTable(c.fixedDistances)
    modifies r, w
    ensures r.Valid() && w.Valid()
    ensures old(r.Pos()) <= 8 * |r.Data()| &&
      var run := Symbols(c, r.Data(), old(r.Pos()), old(w.history));
      && Concat(pieces) == run.bytes && err == run.err
      && (err.None? ==> r.Pos() == run.p)
      && w.history == old(w.history) + run.bytes
  {
    r.ChunkInData();
    ghost var data := r.Data();
    ghost var p0 := r.Pos();
    ghost var h0 := w.history;
    pieces := [];
    while true
      invariant r.Valid() && w.Valid() && r.Data() == data
      invariant r.Pos() <= 8 * |data|
      invariant w.history == h0 + Concat(pieces)
      invariant var rest := Symbols(c, data, r.Pos(), w.history);
        Symbols(c, data, p0, h0) == Run(Concat(pieces) + rest.bytes, rest.p, rest.err)
      decreases 8 * |data| - r.Pos()
    {
      var done;
      pieces, err, done := SymbolRound(r, w, c, codes, distCodes, data, p0, h0, pieces);
      if done {
        return;
      }
    }
  }

  /** A round of the loop of FixedBlock: NextSymbol, then either the end of
      the block, with the pieces and error of the whole block, or the pieces
      so far and the same run still ahead, from a later stream bit. */
  method SymbolRound(r: Reader, w: Window, c: Constants, codes: Table, distCodes: Table,
                     ghost data: seq<Byte>, ghost p0: nat, ghost h0: seq<Byte>, pieces: seq<seq<Byte>>)
    returns (next: seq<seq<Byte>>, err: Option<Error>, done: bool)
    requires r.Valid() && w.Valid() && w.size == WindowSize && ConstantsValid(c)
    requires codes == CanonicalTable(c.fixedLengths) && distCodes == CanonicalTable(c.fixedDistances)
    requires r.Data() == data && r.Pos() <= 8 * |data| && p0 <= 8 * |data|
    requires w.history == h0 + Concat(pieces)
    requires var rest := Symbols(c, data, r.Pos(), w.history);
      Symbols(c, data, p0, h0) == Run(Concat(pieces) + rest.bytes, rest.p, rest.err)
    modifies r, w
    ensures r.Valid() && w.Valid() && r.Data() == data && r.Pos() <= 8 * |data|
    ensures w.history == h0 + Concat(next)
    ensures done ==>
      var run := Symbols(c, data, p0, h0);
      Concat(next) == run.bytes && err == run.err && (err.None? ==> r.Pos() == run.p)
    ensures !done ==> old(r.Pos()) < r.Pos()
    ensures !done ==>
      var rest := Symbols(c, data, r.Pos(), w.history);
      Symbols(c, data, p0, h0) == Run(Concat(next) + rest.bytes, rest.p, rest.err)
  {
    ghost var p := r.Pos();
    ghost var h := w.history;
    var more, e, stop := NextSymbol(r, w, c, codes, distCodes);
    r.ChunkInData();
    ghost var step := SymbolStep(c, data, p, h);
    if e.Some? {
      assert step.Fail? && Symbols(c, data, p, h) == Run([], p, e);
      assert Concat(pieces) + [] == Concat(pieces);
      return pieces, e, true;
    }
    if stop {
      assert step.EndOfBlock? && Symbols(c, data, p, h) == Run([], r.Pos(), None);
      assert Concat(pieces) + [] == Concat(pieces);
      return pieces, None, true;
    }
    assert step.Emit?;
    assert Concat(more) == step.bytes && r.Pos() == step.p && w.history == h + step.bytes;
    SymbolsEmit(c, data, p, h);
    ghost var rest := Symbols(c, data, r.Pos(), w.history);
    assert Symbols(c, data, p, h) == Run(step.bytes + rest.bytes, rest.p, rest.err);
    ConcatAppend(pieces, more);
    ghost var out := Concat(pieces);
    AppendAssoc(out, step.bytes, rest.bytes);
    AppendAssoc(h0, out, step.bytes);
    next, err, done := pieces + more, None, false;
  }

  /** The body of a fixed Huffman block, with both decoders built afresh
      (`get_huffman_decoder` for the fixed lengths and distances). */
  method FreshFixedBlock(r: Reader, w: Window, c: Constants) returns (pieces: seq<seq<Byte>>, err: Option<Error>)
    requires r.Valid() && w.Valid() && w.size == WindowSize && ConstantsValid(c)
    modifies r, w
    ensures r.Valid() && w.Valid()
    ensures old(r.Pos()) <= 8 * |r.Data()| &&
      var run := Symbols(c, r.Data(), old(r.Pos()), old(w.history));
      && Concat(pieces) == run.bytes && err == run.err
      && (err.None? ==> r.Pos() == run.p)
      && w.history == old(w.history) + run.bytes
  {
    r.ChunkInData();
    var codes := BuildCodes(c.fixedLengths);
    var distCodes := BuildCodes(c.fixedDistances);
    pieces, err := FixedBlock(r, w, c, codes, distCodes);
  }

  /** The two `get_bits` calls that open a block. */
  method ReadHeader(r: Reader) returns (res: Result<(Byte, Byte)>)
    requires r.Valid()
    modifies r
    ensures r.Valid()
    ensures res == Header(r.Data(), old(r.Pos()))
    ensures res.Ok? ==> r.Pos() == old(r.Pos()) + 3
  {
    var final := r.GetBits(1);
    if final.Err? {
      return Err(final.error);
    }
    var blockType := r.GetBits(2);
    if blockType.Err? {
      return Err(blockType.error);
    }
    return Ok((final.value[0], blockType.value[0]));
  }

  /** The body of a block whose header, read from stream bit p, says
      stored (type 0): what NextBlock makes of it. */
  method StoredBody(r: Reader, w: Window, c: Constants, ghost p: nat, final: Byte) returns (pieces: seq<seq<Byte>>, err: Option<Error>)
    requires r.Valid() && w.Valid() && ConstantsValid(c)
    requires Header(r.Data(), p) == Ok((final, 0)) && r.Pos() == p + 3
    modifies r
    ensures r.Valid()
    ensures var b := NextBlock(c, r.Data(), p, w.history);
      && Concat(pieces) == b.run.bytes && err == b.run.err
      && (err.None? ==> r.Pos() == b.run.p && (final != 0 <==> b.final))
      && w.history == b.hist
  {
    pieces, err := StoredBlock(r);
  }

  /** The body of a block whose header, read from stream bit p, says fixed
      Huffman (type 1): what NextBlock makes of it. */
  method FixedBody(r: Reader, w: Window, c: Constants, ghost p: nat, final: Byte) returns (pieces: seq<seq<Byte>>, err: Option<Error>)
    requires r.Valid() && w.Valid() && w.size == WindowSize && ConstantsValid(c)
    requires Header(r.Data(), p) == Ok((final, 1)) && r.Pos() == p + 3
    modifies r, w
    ensures r.Valid() && w.Valid()
    ensures var b := NextBlock(c, r.Data(), p, old(w.history));
      && Concat(pieces) == b.run.bytes && err == b.run.err
      && (err.None? ==> r.Pos() == b.run.p && (final != 0 <==> b.final))
      && w.history == b.hist
  {
    pieces, err := FreshFixedBlock(r, w, c);
  }

  /** One round of the `while not b_final[0]` loop: a header and a block
      body; `final` is `b_final[0]`. Every fixed block builds both decoders
      afresh, as the source does. */
  method InflateBlock(r: Reader, w: Window, c: Constants) returns (pieces: seq<seq<Byte>>, err: Option<Error>, final: Byte)
    requires r.Valid() && w.Valid() && w.size == WindowSize && ConstantsValid(c)
    modifies r, w
    ensures r.Valid() && w.Valid()
    ensures var b := NextBlock(c, r.Data(), old(r.Pos()), old(w.history));
      && Concat(pieces) == b.run.bytes && err == b.run.err
      && (err.None? ==> r.Pos() == b.run.p && (final != 0 <==> b.final))
      && w.history == b.hist
  {
    ghost var p := r.Pos();
    var header := ReadHeader(r);
    if header.Err? {
      return [], Some(header.error), 1;
    }
    final := header.value.0;
    if header.value.1 == 0 {
      pieces, err := StoredBody(r, w, c, p, final);
    } else if header.value.1 == 1 {
      pieces, err := FixedBody(r, w, c, p, final);
    } else {
      return [], Some(UnsupportedBlockType(header.value.1)), 1;
    }
  }

  /** `upcompressed`: blocks until one has its final bit set. */
  method Upcompressed(r: Reader, w: Window, c: Constants) returns (pieces: seq<seq<Byte>>, err: Option<Error>)
    requires r.Valid() && w.Valid() && w.size == WindowSize && ConstantsValid(c)
    modifies r, w
    ensures Outcome(Concat(pieces), err) == Blocks(c, r.Data(), old(r.Pos()), old(w.history))
  {
    ghost var data := r.Data();
    ghost var p0 := r.Pos();
    ghost var h0 := w.history;
    pieces := [];
    var final: Byte := 0;
    while final == 0
      invariant r.Valid() && w.Valid() && r.Data() == data
      invariant final == 0 ==>
        var rest := Blocks(c, data, r.Pos(), w.history);
        Blocks(c, data, p0, h0) == Outcome(Concat(pieces) + rest.out, rest.err)
      invariant final != 0 ==> Blocks(c, data, p0, h0) == Outcome(Concat(pieces), None)
      decreases final == 0, 8 * |data| - r.Pos()
    {
      ghost var out := Concat(pieces);
      var more, e, f := InflateBlock(r, w, c);
      ConcatAppend(pieces, more);
      pieces := pieces + more;
      if e.Some? {
        return pieces, e;
      }
      final := f;
      if final == 0 {
        ghost var rest := Blocks(c, data, r.Pos(), w.history);
        AppendAssoc(out, Concat(more), rest.out);
      }
    }
    err := None;
  }

  /** `stream_inflate(deflate_chunks, chunk_size)`: whatever the chunking and
      chunk size, the output is the decoding of the concatenated input. */
  method StreamInflate(chunks: seq<seq<Byte>>, chunkSize: nat) returns (pieces: seq<seq<Byte>>, err: Option<Error>)
    requires chunkSize >= 1
    requires forall i :: 0 <= i < |chunks| ==> chunks[i] != []
    ensures Outcome(Concat(pieces), err) == Inflate(Concat(chunks))
  {
    var r := new Reader(chunks, chunkSize);
    var w := new Window(WindowSize);
    SourceConstantsValid();
    pieces, err := Upcompressed(r, w, SourceConstants);
  }
}
