/** Properties of the decoder as a whole: concrete streams, the ranges of
    lengths and distances, the two places where it reads DEFLATE differently
    from RFC 1951, and round trips through stored and fixed Huffman blocks. */
module Properties {
  import opened Wrappers
  import opened Bits
  import opened Readers
  import opened BackwardsCache
  import opened Huffman
  import opened Tables
  import opened InflateSpec
  import Inflater

  // ---- concrete streams ----

  /** An empty stream ends at once with TruncatedData. */
  lemma EmptyStreamTruncated()
    ensures Inflate([]) == Outcome([], Some(TruncatedData))
  {
    SourceConstantsValid();
    assert Header([], 0).Err?;
  }

  /** 0xFF: a final block of type 3. */
  lemma BlockTypeThree()
    ensures Inflate([0xFF]) == Outcome([], Some(UnsupportedBlockType(3)))
  {
    SourceConstantsValid();
    var data: seq<Byte> := [0xFF];
    assert BitsAt(data, 0, 1) == [1];
    assert BitsAt(data, 1, 2) == [1, 1];
    assert Header(data, 0) == Ok((1, 3));
  }

  /** 0x05: a final block of type 2 (dynamic Huffman codes), which this
      decoder does not support. */
  lemma BlockTypeTwo()
    ensures Inflate([0x05]) == Outcome([], Some(UnsupportedBlockType(2)))
  {
    SourceConstantsValid();
    var data: seq<Byte> := [0x05];
    assert BitsAt(data, 0, 1) == [1];
    assert BitsAt(data, 1, 2) == [0, 1];
    assert Header(data, 0) == Ok((1, 2));
  }

  // ---- reading codes and extra bits ----

  /** The stream bits from p as a slice of the whole stream. */
  lemma {:induction false} BitsAtSlice(data: seq<Byte>, p: nat, n: nat)
    requires p + n <= 8 * |data|
    ensures BitsAt(data, p, n) == StreamBits(data)[p..p + n]
  {
    if n > 0 {
      BitsAtSlice(data, p, n - 1);
      BitsAtSnoc(data, p, n - 1);
      StreamBitsAt(data, p + n - 1);
      var all := StreamBits(data);
      assert all[p..p + n] == all[p..p + n - 1] + [all[p + n - 1]];
    }
  }

  /** The code `get_next` accumulates from n bits is their value read most
      significant bit first. */
  lemma {:induction false} AccMsb(bits: seq<Bit>, p: nat, n: nat)
    requires p + n <= |bits|
    ensures Acc(bits, p, n, 0) == MsbValue(bits[p..p + n])
  {
    if n > 0 {
      AccMsb(bits, p, n - 1);
      AccSnoc(bits, p, n - 1, 0);
      var s := bits[p..p + n];
      assert s[..|s| - 1] == bits[p..p + n - 1];
    }
  }

  /** A distance code is the next five bits, most significant first. */
  lemma DistanceCodeBits(bits: seq<Bit>, p: nat)
    requires p + 5 <= |bits|
    ensures Decode(CanonicalTable(FixedDistances), bits, p, 0, 0) == Ok((MsbValue(bits[p..p + 5]), p + 5))
  {
    var codes := CanonicalTable(FixedDistances);
    AccMsb(bits, p, 5);
    var code := Acc(bits, p, 5, 0);
    assert code < 32 by { Pow2Table(); }
    FixedDistanceKey(code);
    CanonicalPrefixFree(FixedDistances);
    DecodeCode(codes, bits, p, 5, code);
  }

  lemma FixedDistanceKey(v: nat)
    requires v < 32
    ensures (5, v) in CanonicalTable(FixedDistances) && CanonicalTable(FixedDistances)[(5, v)] == v
  {
    FixedDistanceTable();
  }

  /** Every key of the fixed distance table is five bits long, so fewer
      than five bits left is TruncatedData. */
  lemma DistanceCodeTruncated(bits: seq<Bit>, p: nat)
    requires p <= |bits| < p + 5
    ensures Decode(CanonicalTable(FixedDistances), bits, p, 0, 0) == Err(TruncatedData)
  {
    var codes := CanonicalTable(FixedDistances);
    if Decode(codes, bits, p, 0, 0).Ok? {
      DecodeFirstMatch(codes, bits, p, 0, 0);
      FixedDistanceTable();
      assert false;
    }
  }

  /** DistanceCodeBits on the stream of `data`. */
  lemma DistanceCodeRead(data: seq<Byte>, p: nat)
    requires p + 5 <= 8 * |data|
    ensures Decode(CanonicalTable(FixedDistances), StreamBits(data), p, 0, 0)
      == Ok((MsbValue(BitsAt(data, p, 5)), p + 5))
  {
    BitsAtSlice(data, p, 5);
    assert StreamBits(data)[p..p + 5] == BitsAt(data, p, 5);
    DistanceCodeBits(StreamBits(data), p);
  }

  // ---- lengths and distances ----

  /** Symbols 257-285 give the lengths of section 3.2.5 of RFC 1951: the base
      of their row plus the extra bits read least significant bit first (at
      most five of them, one byte, so the big-endian read agrees), 3 to 258 in
      all; symbols 286 and 287 index past the table. */
  lemma LengthIsRfc(data: seq<Byte>, p: nat, v: nat)
    requires p <= 8 * |data| && 257 <= v
    ensures var r := LengthAt(SourceConstants, data, p, v);
      && (v >= 286 ==> r == Err(IndexOutOfRange))
      && (v < 286 ==>
        var row := LengthsExtraBitsDiffs[v - 257];
        && (r.Err? <==> 8 * |data| < p + row.0)
        && (r.Ok? ==> r.value == (row.1 + LsbValue(BitsAt(data, p, row.0)), p + row.0))
        && (r.Ok? ==> 3 <= r.value.0 <= 258))
  {
    if v < 286 {
      var row := LengthsExtraBitsDiffs[v - 257];
      LengthRow(v - 257);
      if p + row.0 <= 8 * |data| {
        ExtraBitsUpToEight(BitsAt(data, p, row.0));
      }
    }
  }

  /** `int.from_bytes(get_bits(n), 'big')` for the extra bits of a length or
      a distance: up to eight bits are their value read least significant bit
      first, as section 3.1.1 of RFC 1951 reads them; with nine to sixteen,
      the first eight stream bits end up in the HIGH byte. */
  lemma ExtraBitsValue(data: seq<Byte>, p: nat, n: nat)
    requires p + n <= 8 * |data| && n <= 16
    ensures var bits := BitsAt(data, p, n);
      && (n <= 8 ==> ExtraBits(data, p, n) == Ok(LsbValue(bits)))
      && (8 < n ==> ExtraBits(data, p, n) == Ok(256 * LsbValue(bits[..8]) + LsbValue(bits[8..])))
  {
    var bits := BitsAt(data, p, n);
    if n <= 8 {
      ExtraBitsUpToEight(bits);
    } else {
      ExtraBitsBigEndian(bits);
    }
  }

  /** Reading a backwards distance once its five-bit code is known: codes 30
      and 31 index past the table; up to eight extra bits (codes 0-19) give
      the distance of section 3.2.5 of RFC 1951, at most 32768; nine to
      thirteen extra bits (codes 20-29) are read big-endian, the first eight
      stream bits becoming the HIGH byte. */
  lemma DistanceIsRfc(c: Constants, data: seq<Byte>, p: nat, code: nat)
    requires ConstantsValid(c) && c.distanceRows == DistancesExtraBitsDiffs
    requires p + 5 <= 8 * |data|
    requires Decode(CanonicalTable(c.fixedDistances), StreamBits(data), p, 0, 0) == Ok((code, p + 5))
    ensures var r := DistanceAt(c, data, p);
      && (code >= 30 ==> r == Err(IndexOutOfRange))
      && (code < 30 ==>
        var row := c.distanceRows[code];
        && (r.Ok? <==> p + 5 + row.0 <= 8 * |data|)
        && (r.Ok? ==>
          var bits := BitsAt(data, p + 5, row.0);
          && (row.0 <= 8 ==> r.value == (row.1 + LsbValue(bits), p + 5 + row.0) && r.value.0 <= 32768)
          && (row.0 > 8 ==> r.value == (row.1 + 256 * LsbValue(bits[..8]) + LsbValue(bits[8..]), p + 5 + row.0))))
  {
    if code < 30 {
      DistanceRow(code);
    }
    DistanceSteps(c, data, p, code);
  }

  /** DistanceAt for any row table, once the distance code is known: the row
      it indexes, then the extra bits. */
  lemma DistanceSteps(c: Constants, data: seq<Byte>, p: nat, code: nat)
    requires ConstantsValid(c) && p + 5 <= 8 * |data|
    requires Decode(CanonicalTable(c.fixedDistances), StreamBits(data), p, 0, 0) == Ok((code, p + 5))
    requires code < |c.distanceRows| ==> c.distanceRows[code].0 <= 16
    ensures var r := DistanceAt(c, data, p);
      && (code >= |c.distanceRows| ==> r == Err(IndexOutOfRange))
      && (code < |c.distanceRows| ==>
        var row := c.distanceRows[code];
        && (r.Ok? <==> p + 5 + row.0 <= 8 * |data|)
        && (r.Ok? ==>
          var bits := BitsAt(data, p + 5, row.0);
          && (row.0 <= 8 ==> r.value == (row.1 + LsbValue(bits), p + 5 + row.0))
          && (row.0 > 8 ==> r.value == (row.1 + 256 * LsbValue(bits[..8]) + LsbValue(bits[8..]), p + 5 + row.0))))
  {
    if code >= |c.distanceRows| {
      assert DistanceAt(c, data, p) == Err(IndexOutOfRange);
    } else {
      var row := c.distanceRows[code];
      var extra := ExtraBits(data, p + 5, row.0);
      assert DistanceAt(c, data, p) == if extra.Err? then Err(extra.error) else Ok((row.1 + extra.value, p + 5 + row.0));
      if p + 5 + row.0 <= 8 * |data| {
        ExtraBitsValue(data, p + 5, row.0);
      }
    }
  }

  /** Fewer than five bits left for a distance code is TruncatedData. */
  lemma DistanceTruncated(c: Constants, data: seq<Byte>, p: nat)
    requires ConstantsValid(c) && c.fixedDistances == FixedDistances
    requires p <= 8 * |data| < p + 5
    ensures DistanceAt(c, data, p) == Err(TruncatedData)
  {
    DistanceCodeTruncated(StreamBits(data), p);
  }

  /** All ones, read least significant bit first: 2^n - 1. */
  lemma {:induction false} AllOnes(bits: seq<Bit>)
    requires forall k :: 0 <= k < |bits| ==> bits[k] == 1
    ensures LsbValue(bits) == Pow2(|bits|) - 1
  {
    if bits != [] {
      AllOnes(bits[1..]);
    }
  }

  /** The farthest distance RFC 1951 allows, code 29 with thirteen one bits
      (24577 + 8191 = 32768), reads here as 24577 + 0xFF1F = 89888, beyond
      the 32768-byte window. */
  lemma FarthestDistanceOverflows(c: Constants, data: seq<Byte>, p: nat)
    requires ConstantsValid(c) && c.distanceRows == DistancesExtraBitsDiffs
    requires p + 18 <= 8 * |data|
    requires Decode(CanonicalTable(c.fixedDistances), StreamBits(data), p, 0, 0) == Ok((29, p + 5))
    requires BitsAt(data, p + 5, 13) == [1, 1, 1, 1, 1, 1, 1, 1, 1, 1, 1, 1, 1]
    ensures DistancesExtraBitsDiffs[29].1 + LsbValue(BitsAt(data, p + 5, 13)) == 32768
    ensures DistanceAt(c, data, p) == Ok((89888, p + 18))
  {
    var bits := BitsAt(data, p + 5, 13);
    DistanceIsRfc(c, data, p, 29);
    Pow2Table();
    AllOnes(bits);
    AllOnes(bits[..8]);
    AllOnes(bits[8..]);
  }

  // ---- back-references ----

  /** A back-reference copies as the byte-by-byte LZ77 copy of section 3.2.3
      of RFC 1951 does, overlapping copies included, and is refused with
      BackwardsTooFar exactly when it reaches further back than the output so
      far or than the 32768-byte window. */
  lemma BackReferenceIsCopy(c: Constants, data: seq<Byte>, p: nat, hist: seq<Byte>, v: nat,
                            length: nat, q: nat, dist: nat, q2: nat)
    requires ConstantsValid(c) && p <= 8 * |data| && 257 <= v
    requires LengthAt(c, data, p, v) == Ok((length, q))
    requires DistanceAt(c, data, q) == Ok((dist, q2))
    ensures var s := BackReference(c, data, p, hist, v);
      && (s.Fail? <==> dist > |hist| || dist > WindowSize)
      && (s.Fail? ==> s.error == BackwardsTooFar)
      && (s.Emit? ==> s.p == q2 && hist + s.bytes == CopyBack(hist, dist, length))
  {
    var cache := Last(hist, WindowSize);
    Inflater.BackReferenceCopy(c, data, p, hist, cache, v, length, q, dist, q2);
    if dist <= |cache| {
      assert cache[|cache| - dist..] == hist[|hist| - dist..];
      CopyBackPeriodic(hist, dist, length);
    }
  }

  // ---- stored blocks ----

  /** A stored block holding `payload`: a header byte (final flag in bit 0,
      block type 0 in bits 1 and 2), LEN and NLEN little-endian, then the
      payload itself. */
  function StoredBlockBytes(payload: seq<Byte>, final: bool): (r: seq<Byte>)
    requires |payload| < 65536
    ensures |r| == 5 + |payload| && r[5..] == payload
  {
    var n := |payload|;
    [if final then 1 else 0, n % 256, n / 256, (65535 - n) % 256, (65535 - n) / 256] + payload
  }

  /** Payloads each of which fits a stored block. */
  predicate StorablePayloads(payloads: seq<seq<Byte>>)
  {
    payloads != [] && forall i :: 0 <= i < |payloads| ==> |payloads[i]| < 65536
  }

  /** Stored blocks one after another, only the last one final. */
  function StoredStream(payloads: seq<seq<Byte>>): (r: seq<Byte>)
    requires StorablePayloads(payloads)
    decreases |payloads|
  {
    if |payloads| == 1 then StoredBlockBytes(payloads[0], true)
    else StoredBlockBytes(payloads[0], false) + StoredStream(payloads[1..])
  }

  /** The header of a block starting at byte k whose first byte is 0 or 1:
      that byte is the final flag and the block type is 0. */
  lemma StoredHeader(data: seq<Byte>, k: nat)
    requires k < |data| && data[k] < 2
    ensures Header(data, 8 * k) == Ok((data[k], 0))
  {
    var b := data[k];
    assert (8 * k) / 8 == k && (8 * k) % 8 == 0;
    assert (8 * k + 1) / 8 == k && (8 * k + 1) % 8 == 1;
    assert (8 * k + 2) / 8 == k && (8 * k + 2) % 8 == 2;
    assert StreamBit(data, 8 * k) == b;
    assert StreamBit(data, 8 * k + 1) == 0;
    assert StreamBit(data, 8 * k + 2) == 0;
    assert BitsAt(data, 8 * k, 1) == [b];
    assert BitsAt(data, 8 * k + 1, 2) == [0, 0];
    assert Pack([b]) == [b];
    assert Pack([0, 0]) == [0];
  }

  /** The body of a stored block whose header byte is byte k. */
  lemma StoredBody(data: seq<Byte>, k: nat, payload: seq<Byte>, final: bool)
    requires |payload| < 65536
    requires k + 5 + |payload| <= |data| && data[k..k + 5 + |payload|] == StoredBlockBytes(payload, final)
    ensures Stored(data, 8 * k + 3) == Run(payload, 8 * (k + 5 + |payload|), None)
  {
    var n := |payload|;
    var block := data[k..k + 5 + n];
    assert ByteBoundary(8 * k + 3) == k + 1;
    assert block[1] == n % 256 && block[2] == n / 256;
    assert data[k + 1] == block[1] && data[k + 2] == block[2];
    var len := data[k + 1..k + 3];
    assert len[0] == data[k + 1] && len[1] == data[k + 2];
    assert LittleEndian16(len) == n;
    assert data[k + 5..k + 5 + n] == block[5..];
  }

  /** A stored block read from byte k yields its payload, leaves the cache
      history alone and ends at the next block's first byte. */
  lemma StoredBlockRead(c: Constants, data: seq<Byte>, k: nat, payload: seq<Byte>, final: bool, hist: seq<Byte>)
    requires ConstantsValid(c) && |payload| < 65536
    requires k + 5 + |payload| <= |data| && data[k..k + 5 + |payload|] == StoredBlockBytes(payload, final)
    ensures NextBlock(c, data, 8 * k, hist) == Block(Run(payload, 8 * (k + 5 + |payload|), None), hist, final)
  {
    assert data[k] == data[k..k + 5 + |payload|][0];
    StoredHeader(data, k);
    StoredBody(data, k, payload, final);
  }

  /** A block at p that yields `bytes` without error and ends at q, then
      the rest of the stream from q. */
  lemma BlocksNext(c: Constants, data: seq<Byte>, p: nat, q: nat, hist: seq<Byte>, bytes: seq<Byte>, final: bool)
    requires ConstantsValid(c) && NextBlock(c, data, p, hist) == Block(Run(bytes, q, None), hist, final)
    ensures Blocks(c, data, p, hist) ==
      if final then Outcome(bytes, None)
      else Outcome(bytes + Blocks(c, data, q, hist).out, Blocks(c, data, q, hist).err)
  {
  }

  /** The payloads after the first still fit stored blocks. */
  lemma StorableRest(payloads: seq<seq<Byte>>)
    requires StorablePayloads(payloads) && |payloads| > 1
    ensures StorablePayloads(payloads[1..])
  {
    var rest := payloads[1..];
    forall i | 0 <= i < |rest| ensures |rest[i]| < 65536 {
      assert rest[i] == payloads[i + 1];
    }
  }

  /** A stream of stored blocks is its first block, then the stream of the
      rest. */
  lemma StoredStreamFirst(payloads: seq<seq<Byte>>)
    requires StorablePayloads(payloads)
    ensures var first := StoredBlockBytes(payloads[0], |payloads| == 1); var stream := StoredStream(payloads);
      && |first| <= |stream| && stream[..|first|] == first
      && (|payloads| > 1 ==> StorablePayloads(payloads[1..]) && stream[|first|..] == StoredStream(payloads[1..]))
  {
    var first := StoredBlockBytes(payloads[0], |payloads| == 1);
    if |payloads| > 1 {
      StorableRest(payloads);
      var rest := StoredStream(payloads[1..]);
      assert StoredStream(payloads) == first + rest;
      assert (first + rest)[..|first|] == first;
      assert (first + rest)[|first|..] == rest;
    }
  }

  /** Where the stream of stored blocks sits in `data` from byte k: its first
      block, then from byte `end` on the stream of the rest. */
  lemma StoredStreamSplit(data: seq<Byte>, k: nat, end: nat, payloads: seq<seq<Byte>>)
    requires StorablePayloads(payloads) && end == k + 5 + |payloads[0]|
    requires k + |StoredStream(payloads)| <= |data| && data[k..k + |StoredStream(payloads)|] == StoredStream(payloads)
    ensures end <= |data| && data[k..end] == StoredBlockBytes(payloads[0], |payloads| == 1)
    ensures |payloads| > 1 ==>
      && StorablePayloads(payloads[1..])
      && end + |StoredStream(payloads[1..])| <= |data|
      && data[end..end + |StoredStream(payloads[1..])|] == StoredStream(payloads[1..])
  {
    var first := StoredBlockBytes(payloads[0], |payloads| == 1);
    var stream := StoredStream(payloads);
    StoredStreamFirst(payloads);
    SliceWithin(data, k, stream, 0, |first|);
    if |payloads| > 1 {
      SliceWithin(data, k, stream, |first|, |stream|);
    }
  }

  /** Part of a stretch of `data` that holds s. */
  lemma SliceWithin(data: seq<Byte>, k: nat, s: seq<Byte>, i: nat, j: nat)
    requires k + |s| <= |data| && data[k..k + |s|] == s && i <= j <= |s|
    ensures data[k + i..k + j] == s[i..j]
  {
    forall t | 0 <= t < j - i
      ensures data[k + i..k + j][t] == s[i..j][t]
    {
      assert data[k + i..k + j][t] == data[k..k + |s|][i + t];
    }
  }

  /** Round trip through stored blocks: whatever follows the final block,
      the decoder yields the payloads in order and stops without error. */
  lemma {:induction false} StoredStreamRead(c: Constants, data: seq<Byte>, k: nat, payloads: seq<seq<Byte>>, hist: seq<Byte>)
    requires ConstantsValid(c) && StorablePayloads(payloads)
    requires k + |StoredStream(payloads)| <= |data| && data[k..k + |StoredStream(payloads)|] == StoredStream(payloads)
    ensures Blocks(c, data, 8 * k, hist) == Outcome(Concat(payloads), None)
    decreases |payloads|
  {
    var last := |payloads| == 1;
    var end := k + 5 + |payloads[0]|;
    StoredStreamSplit(data, k, end, payloads);
    StoredBlockRead(c, data, k, payloads[0], last, hist);
    BlocksNext(c, data, 8 * k, 8 * end, hist, payloads[0], last);
    ConcatFront(payloads);
    if last {
      assert payloads[1..] == [];
      assert Concat(payloads) == payloads[0] + [];
    } else {
      StoredStreamRead(c, data, end, payloads[1..], hist);
    }
  }

  /** Inflate undoes stored-block framing, ignoring trailing bytes. */
  lemma StoredRoundTrip(payloads: seq<seq<Byte>>, trailing: seq<Byte>)
    requires StorablePayloads(payloads)
    ensures Inflate(StoredStream(payloads) + trailing) == Outcome(Concat(payloads), None)
  {
    SourceConstantsValid();
    var data := StoredStream(payloads) + trailing;
    assert data[0..|StoredStream(payloads)|] == StoredStream(payloads);
    StoredStreamRead(SourceConstants, data, 0, payloads, []);
  }

  // ---- fixed Huffman blocks of literals ----

  /** The l-bit binary form of `code`, most significant bit first: how a
      Huffman code is laid out in the stream (section 3.1.1 of RFC 1951). */
  function MsbBits(code: nat, l: nat): (bits: seq<Bit>)
    ensures |bits| == l
  {
    if l == 0 then [] else MsbBits(code / 2, l - 1) + [code % 2]
  }

  lemma {:induction false} MsbBitsValue(code: nat, l: nat)
    requires code < Pow2(l)
    ensures MsbValue(MsbBits(code, l)) == code
  {
    if l > 0 {
      MsbBitsValue(code / 2, l - 1);
      var bits := MsbBits(code, l);
      assert bits[..|bits| - 1] == MsbBits(code / 2, l - 1);
    }
  }

  /** Symbol v written in the fixed literal/length code. */
  function FixedSymbolBits(v: nat): (bits: seq<Bit>)
    requires v < 288
    ensures 7 <= |bits| <= 9
  {
    MsbBits(RfcFixedCode(v).1, RfcFixedCode(v).0)
  }

  /** The RFC code of symbol v fits its length, and the table maps it to v. */
  lemma FixedSymbolKey(v: nat)
    requires v < 288
    ensures RfcFixedCode(v).1 < Pow2(RfcFixedCode(v).0)
    ensures RfcFixedCode(v) in CanonicalTable(FixedLengths) && CanonicalTable(FixedLengths)[RfcFixedCode(v)] == v
  {
    Pow2Table();
    FixedTable();
  }

  /** Decoding the fixed code of v at bit p of a bit sequence gives v back. */
  lemma FixedSymbolDecodes(bits: seq<Bit>, p: nat, v: nat)
    requires v < 288
    requires p + |FixedSymbolBits(v)| <= |bits| && bits[p..p + |FixedSymbolBits(v)|] == FixedSymbolBits(v)
    ensures Decode(CanonicalTable(FixedLengths), bits, p, 0, 0) == Ok((v, p + |FixedSymbolBits(v)|))
  {
    var (l, code) := RfcFixedCode(v);
    FixedSymbolKey(v);
    MsbBitsValue(code, l);
    AccMsb(bits, p, l);
    CanonicalPrefixFree(FixedLengths);
    DecodeCode(CanonicalTable(FixedLengths), bits, p, l, code);
  }

  /** Byte values: code points the literal symbols can carry. */
  predicate Literals(vs: seq<nat>)
  {
    forall i :: 0 <= i < |vs| ==> vs[i] < 256
  }

  /** Literal symbols vs, then end-of-block, in the fixed code. */
  function LiteralBits(vs: seq<nat>): (bits: seq<Bit>)
    requires Literals(vs)
  {
    if vs == [] then FixedSymbolBits(256) else FixedSymbolBits(vs[0]) + LiteralBits(vs[1..])
  }

  /** What the decoder yields for literal symbols vs: each one UTF-8 encoded. */
  function Utf8All(vs: seq<nat>): seq<Byte>
    requires Literals(vs)
  {
    if vs == [] then [] else Utf8(vs[0]) + Utf8All(vs[1..])
  }

  /** The bits `bits` packed into bytes, whatever follows them, read back as
      stream bits. */
  lemma PackedBits(bits: seq<Bit>, trailing: seq<Byte>, i: nat)
    requires i < |bits|
    ensures i < 8 * |Pack(bits) + trailing| && StreamBits(Pack(bits) + trailing)[i] == bits[i]
  {
    var data := Pack(bits) + trailing;
    PackStreamBit(bits, i);
    assert data[i / 8] == Pack(bits)[i / 8];
    StreamBitsAt(data, i);
  }

  /** ... and as a slice. */
  lemma PackedSlice(bits: seq<Bit>, trailing: seq<Byte>, p: nat, n: nat)
    requires p + n <= |bits|
    ensures p + n <= 8 * |Pack(bits) + trailing|
    ensures StreamBits(Pack(bits) + trailing)[p..p + n] == bits[p..p + n]
  {
    if p + n > 0 {
      PackedBits(bits, trailing, p + n - 1);
    }
    var all := StreamBits(Pack(bits) + trailing);
    forall i | p <= i < p + n
      ensures all[i] == bits[i]
    {
      PackedBits(bits, trailing, i);
    }
    assert all[p..p + n] == bits[p..p + n];
  }


  /** A final fixed Huffman block holding literals vs: header bits 1 (final)
      and 1, 0 (type 1, least significant bit first), then the symbols. */
  function FixedLiteralBits(vs: seq<nat>): seq<Bit>
    requires Literals(vs)
  {
    [1, 1, 0] + LiteralBits(vs)
  }

  /** The header of a final fixed Huffman block. */
  lemma FixedHeader(data: seq<Byte>)
    requires 3 <= 8 * |data|
    requires StreamBit(data, 0) == 1 && StreamBit(data, 1) == 1 && StreamBit(data, 2) == 0
    ensures Header(data, 0) == Ok((1, 1))
  {
    assert BitsAt(data, 0, 1) == [1];
    assert BitsAt(data, 1, 2) == [1, 0];
    assert Pack([1]) == [1];
    assert Pack([1, 0]) == [1];
  }

  /** For ASCII the literals come back unchanged; above 127 each one becomes
      two bytes. */
  lemma {:induction false} Utf8AllAscii(vs: seq<nat>)
    requires forall i :: 0 <= i < |vs| ==> vs[i] < 128
    ensures Literals(vs) && Utf8All(vs) == vs
  {
    if vs != [] {
      Utf8AllAscii(vs[1..]);
      assert vs == [vs[0]] + vs[1..];
    }
  }

  /** End-of-block is seven zero bits. */
  lemma EndOfBlockBits()
    ensures FixedSymbolBits(256) == [0, 0, 0, 0, 0, 0, 0]
  {
    assert RfcFixedCode(256) == (7, 0);
  }

  /** The smallest fixed Huffman stream, a final block holding only
      end-of-block, is the two bytes 0x03 0x00 ... */
  lemma EmptyFixedBytes()
    ensures Pack(FixedLiteralBits([])) == [0x03, 0x00]
  {
    var bits := FixedLiteralBits([]);
    EndOfBlockBits();
    var lo: seq<Bit> := [1, 1, 0, 0, 0, 0, 0, 0];
    var hi: seq<Bit> := [0, 0];
    assert bits == lo + hi;
    PackByteThenRest(lo, hi);
    assert LsbValue(lo) == 3;
    assert LsbValue(hi) == 0;
  }

  /** A full byte of bits and then up to eight more pack into two bytes. */
  lemma PackByteThenRest(lo: seq<Bit>, hi: seq<Bit>)
    requires |lo| == 8 && 0 < |hi| <= 8
    ensures Pack(lo + hi) == [LsbValue(lo), LsbValue(hi)]
  {
    assert (lo + hi)[..8] == lo && (lo + hi)[8..] == hi;
  }
}
