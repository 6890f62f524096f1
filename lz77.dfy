/** Fixed Huffman blocks with back-references: LZ77 tokens (literals, and
    copies of a length from a distance back) written in the fixed code, and
    the round trip through the decoder. */
module Lz77 {
  import opened Wrappers
  import opened Bits
  import opened BackwardsCache
  import opened Huffman
  import opened Tables
  import opened InflateSpec
  import opened Properties
  import Inflater

  /** An LZ77 token: a literal symbol, or a copy of `length` bytes starting
      `dist` bytes back (section 3.2.3 of RFC 1951). */
  datatype Token = Literal(v: nat) | Copy(length: nat, dist: nat)

  /** Token t can follow the output `out`: a literal is a byte value, and a
      copy reaches back no further than `out` and the 32768-byte window. */
  predicate Reaches(out: seq<Byte>, t: Token)
  {
    match t
    case Literal(v) => v < 256
    case Copy(_, dist) => 0 < dist <= |out| && dist <= WindowSize
  }

  /** The output after token t, as the decoder defines it: a literal UTF-8
      encoded, a copy byte by byte from `dist` back, overlaps included. */
  function Apply(out: seq<Byte>, t: Token): (r: seq<Byte>)
    requires Reaches(out, t)
    ensures t.Copy? ==> |r| == |out| + t.length
  {
    match t
    case Literal(v) => out + Utf8(v)
    case Copy(length, dist) => CopyBack(out, dist, length)
  }

  /** A token only appends to the output. */
  lemma ApplyExtends(out: seq<Byte>, t: Token)
    requires Reaches(out, t)
    ensures |out| <= |Apply(out, t)| && Apply(out, t)[..|out|] == out
  {
    if t.Copy? {
      CopyBackExtends(out, t.dist, t.length);
    }
  }

  lemma {:induction false} CopyBackExtends(out: seq<Byte>, dist: nat, length: nat)
    requires 0 < dist <= |out|
    ensures CopyBack(out, dist, length)[..|out|] == out
  {
    if length > 0 {
      CopyBackExtends(out, dist, length - 1);
      var o := CopyBack(out, dist, length - 1);
      assert (o + [o[|o| - dist]])[..|out|] == o[..|out|];
    }
  }

  /** Every token of ts reaches only into what precedes it. */
  predicate Fits(out: seq<Byte>, ts: seq<Token>)
    decreases |ts|
  {
    ts == [] || (Reaches(out, ts[0]) && Fits(Apply(out, ts[0]), ts[1..]))
  }

  /** The output after the tokens ts. */
  function Output(out: seq<Byte>, ts: seq<Token>): seq<Byte>
    requires Fits(out, ts)
    decreases |ts|
  {
    if ts == [] then out else Output(Apply(out, ts[0]), ts[1..])
  }

  // ---- choosing symbols ----

  /** The first row from i on of a (extra bits, base) table whose range
      base .. base + 2^extra - 1 holds x: the length symbol or distance code
      an encoder writes for x. */
  function FindRow(rows: seq<(nat, nat)>, x: nat, i: nat): (r: Option<nat>)
    ensures r.Some? ==> i <= r.value < |rows| && rows[r.value].1 <= x < rows[r.value].1 + Pow2(rows[r.value].0)
    decreases |rows| - i
  {
    if i >= |rows| then None
    else if rows[i].1 <= x < rows[i].1 + Pow2(rows[i].0) then Some(i)
    else FindRow(rows, x, i + 1)
  }

  /** The last row below n of a (extra bits, base) table whose range holds
      x. Lengths are looked up from the end: 258 lies in both the row of
      symbol 284 (227 and 5 extra bits) and the row of symbol 285, and
      section 3.2.5 of RFC 1951 gives it to 285. */
  function FindLastRow(rows: seq<(nat, nat)>, x: nat, n: nat): (r: Option<nat>)
    requires n <= |rows|
    ensures r.Some? ==> r.value < n && rows[r.value].1 <= x < rows[r.value].1 + Pow2(rows[r.value].0)
    ensures r.Some? ==> forall j :: r.value < j < n ==> !(rows[j].1 <= x < rows[j].1 + Pow2(rows[j].0))
  {
    if n == 0 then None
    else if rows[n - 1].1 <= x < rows[n - 1].1 + Pow2(rows[n - 1].0) then Some(n - 1)
    else FindLastRow(rows, x, n - 1)
  }

  /** Rows i .. k follow each other without a gap, so FindLastRow, searching
      down from row k, finds every x from the base of row i to the end of
      row k, at row i or after. */
  lemma {:induction false} FindLastRowWithin(rows: seq<(nat, nat)>, x: nat, i: nat, k: nat)
    requires i <= k < |rows|
    requires forall j :: i <= j < k ==> rows[j].1 + Pow2(rows[j].0) == rows[j + 1].1
    requires rows[i].1 <= x < rows[k].1 + Pow2(rows[k].0)
    ensures FindLastRow(rows, x, k + 1).Some? && i <= FindLastRow(rows, x, k + 1).value
    decreases k - i
  {
    if !(rows[k].1 <= x) {
      FindLastRowWithin(rows, x, i, k - 1);
    }
  }

  /** Rows i .. k follow each other without a gap, so FindRow finds every x
      from the base of row i to the end of row k, at row k or before. */
  lemma {:induction false} FindRowWithin(rows: seq<(nat, nat)>, x: nat, i: nat, k: nat)
    requires i <= k < |rows|
    requires forall j :: i <= j < k ==> rows[j].1 + Pow2(rows[j].0) == rows[j + 1].1
    requires rows[i].1 <= x < rows[k].1 + Pow2(rows[k].0)
    ensures FindRow(rows, x, i).Some? && FindRow(rows, x, i).value <= k
    decreases k - i
  {
    if !(x < rows[i].1 + Pow2(rows[i].0)) {
      FindRowWithin(rows, x, i + 1, k);
    }
  }

  /** Token t can be written with the tables of c: a literal is a byte value;
      a copy's length and distance lie in rows of the length and distance
      tables that have a symbol (257-287, 0-31) and at most eight extra bits,
      the extra bits that read the same either way round. */
  predicate Encodable(c: Constants, t: Token)
  {
    match t
    case Literal(v) => v < 256
    case Copy(length, dist) =>
      var li := FindLastRow(c.lengthRows, length, |c.lengthRows|);
      var dc := FindRow(c.distanceRows, dist, 0);
      && li.Some? && li.value < 31 && c.lengthRows[li.value].0 <= 8
      && dc.Some? && dc.value < 32 && c.distanceRows[dc.value].0 <= 8
  }

  predicate AllEncodable(c: Constants, ts: seq<Token>)
    decreases |ts|
  {
    ts == [] || (Encodable(c, ts[0]) && AllEncodable(c, ts[1..]))
  }

  /** The n-bit binary form of x, least significant bit first: how extra
      bits are laid out in the stream (section 3.1.1 of RFC 1951). */
  function LsbBits(x: nat, n: nat): (bits: seq<Bit>)
    ensures |bits| == n
  {
    if n == 0 then [] else [x % 2] + LsbBits(x / 2, n - 1)
  }

  lemma {:induction false} LsbBitsValue(x: nat, n: nat)
    requires x < Pow2(n)
    ensures LsbValue(LsbBits(x, n)) == x
  {
    if n > 0 {
      LsbBitsValue(x / 2, n - 1);
      assert LsbBits(x, n)[1..] == LsbBits(x / 2, n - 1);
    }
  }

  /** The number of bits of symbol v in the fixed code. */
  function SymbolSize(v: nat): nat
    requires v < 288
  {
    RfcFixedCode(v).0
  }

  lemma SymbolBitsSize(v: nat)
    requires v < 288
    ensures |FixedSymbolBits(v)| == SymbolSize(v)
  {
  }

  /** The number of bits of token t in the fixed code. */
  function TokenSize(c: Constants, t: Token): nat
    requires Encodable(c, t)
  {
    match t
    case Literal(v) => SymbolSize(v)
    case Copy(length, dist) =>
      var li := FindLastRow(c.lengthRows, length, |c.lengthRows|).value;
      var dc := FindRow(c.distanceRows, dist, 0).value;
      CopySize(c, li, dc)
  }

  /** The number of bits of a copy: length symbol 257 + li and its extra
      bits, then distance code dc and its extra bits. */
  function CopySize(c: Constants, li: nat, dc: nat): nat
    requires li < 31 && li < |c.lengthRows| && dc < |c.distanceRows|
  {
    SymbolSize(257 + li) + c.lengthRows[li].0 + 5 + c.distanceRows[dc].0
  }

  /** The number of bits of tokens ts and end-of-block in the fixed code. */
  function TokensSize(c: Constants, ts: seq<Token>): nat
    requires AllEncodable(c, ts)
    decreases |ts|
  {
    if ts == [] then SymbolSize(256) else TokenSize(c, ts[0]) + TokensSize(c, ts[1..])
  }

  /** Length symbol 257 + li and the length's extra bits el. */
  function LengthBits(c: Constants, li: nat, el: nat): (bits: seq<Bit>)
    requires li < 31 && li < |c.lengthRows|
    ensures |bits| == SymbolSize(257 + li) + c.lengthRows[li].0
  {
    SymbolBitsSize(257 + li);
    FixedSymbolBits(257 + li) + LsbBits(el, c.lengthRows[li].0)
  }

  /** The five-bit distance code dc and the distance's extra bits ed. */
  function DistanceBits(c: Constants, dc: nat, ed: nat): (bits: seq<Bit>)
    requires dc < |c.distanceRows|
    ensures |bits| == 5 + c.distanceRows[dc].0
  {
    MsbBits(dc, 5) + LsbBits(ed, c.distanceRows[dc].0)
  }

  /** A copy in the fixed code: its length, then its distance. */
  function CopyBits(c: Constants, li: nat, el: nat, dc: nat, ed: nat): (bits: seq<Bit>)
    requires li < 31 && li < |c.lengthRows| && dc < |c.distanceRows|
  {
    LengthBits(c, li, el) + DistanceBits(c, dc, ed)
  }

  /** Token t in the fixed code: a literal's symbol; a copy with the rows
      its length and distance lie in. */
  function TokenBits(c: Constants, t: Token): (bits: seq<Bit>)
    requires Encodable(c, t)
    ensures |bits| == TokenSize(c, t)
  {
    match t
    case Literal(v) => SymbolBitsSize(v); FixedSymbolBits(v)
    case Copy(length, dist) =>
      var li := FindLastRow(c.lengthRows, length, |c.lengthRows|).value;
      var dc := FindRow(c.distanceRows, dist, 0).value;
      CopyBits(c, li, length - c.lengthRows[li].1, dc, dist - c.distanceRows[dc].1)
  }

  /** Tokens ts, then end-of-block, in the fixed code. */
  function TokensBits(c: Constants, ts: seq<Token>): (bits: seq<Bit>)
    requires AllEncodable(c, ts)
    ensures |bits| == TokensSize(c, ts)
  {
    if ts == [] then SymbolBitsSize(256); FixedSymbolBits(256)
    else
      TokenBits(c, ts[0]) + TokensBits(c, ts[1..])
  }

  // ---- reading tokens back ----

  /** The stream of `data` reads `bits` from bit p on. */
  predicate StreamHas(data: seq<Byte>, p: nat, bits: seq<Bit>)
    decreases |bits|
  {
    && p + |bits| <= 8 * |data|
    && (bits == [] || (StreamBits(data)[p] == bits[0] && StreamHas(data, p + 1, bits[1..])))
  }

  lemma {:induction false} StreamHasSplit(data: seq<Byte>, p: nat, a: seq<Bit>, b: seq<Bit>)
    requires StreamHas(data, p, a + b)
    ensures StreamHas(data, p, a) && StreamHas(data, p + |a|, b)
    decreases |a|
  {
    if a != [] {
      assert (a + b)[1..] == a[1..] + b;
      StreamHasSplit(data, p + 1, a[1..], b);
    } else {
      assert a + b == b;
    }
  }

  /** StreamHasSplit with the second part's position named. */
  lemma StreamHasSplitAt(data: seq<Byte>, p: nat, q: nat, a: seq<Bit>, b: seq<Bit>)
    requires StreamHas(data, p, a + b) && q == p + |a|
    ensures StreamHas(data, p, a) && StreamHas(data, q, b)
  {
    StreamHasSplit(data, p, a, b);
  }

  lemma {:induction false} StreamHasAt(data: seq<Byte>, p: nat, bits: seq<Bit>, k: nat)
    requires StreamHas(data, p, bits) && k < |bits|
    ensures p + k < 8 * |data| && StreamBits(data)[p + k] == bits[k]
    decreases k
  {
    if k > 0 {
      StreamHasAt(data, p + 1, bits[1..], k - 1);
    }
  }

  /** StreamHas as BitsAt. */
  lemma StreamHasBitsAt(data: seq<Byte>, p: nat, bits: seq<Bit>)
    requires StreamHas(data, p, bits)
    ensures p + |bits| <= 8 * |data| && BitsAt(data, p, |bits|) == bits
  {
    forall k | 0 <= k < |bits|
      ensures BitsAt(data, p, |bits|)[k] == bits[k]
    {
      StreamHasAt(data, p, bits, k);
      StreamBitsAt(data, p + k);
    }
  }

  /** A slice of the stream as StreamHas. */
  lemma {:induction false} SliceStreamHas(data: seq<Byte>, p: nat, bits: seq<Bit>)
    requires p + |bits| <= 8 * |data| && StreamBits(data)[p..p + |bits|] == bits
    ensures StreamHas(data, p, bits)
    decreases |bits|
  {
    if bits != [] {
      var all := StreamBits(data);
      assert all[p + 1..p + |bits|] == bits[1..];
      SliceStreamHas(data, p + 1, bits[1..]);
    }
  }

  /** The fixed code of v at p decodes to v. */
  lemma SymbolRead(c: Constants, data: seq<Byte>, p: nat, v: nat)
    requires c.fixedLengths == FixedLengths
    requires v < 288 && StreamHas(data, p, FixedSymbolBits(v))
    ensures p + SymbolSize(v) <= 8 * |data|
    ensures Decode(CanonicalTable(c.fixedLengths), StreamBits(data), p, 0, 0) == Ok((v, p + SymbolSize(v)))
  {
    SymbolBitsSize(v);
    StreamHasBitsAt(data, p, FixedSymbolBits(v));
    BitsAtSlice(data, p, SymbolSize(v));
    FixedSymbolDecodes(StreamBits(data), p, v);
  }

  /** Extra bits laid out least significant bit first at q of the stream
      read back as their value. */
  lemma ExtraBitsAt(data: seq<Byte>, q: nat, n: nat, e: nat)
    requires n <= 8 && e < Pow2(n) && StreamHas(data, q, LsbBits(e, n))
    ensures q + n <= 8 * |data| && ExtraBits(data, q, n) == Ok(e)
  {
    StreamHasBitsAt(data, q, LsbBits(e, n));
    LsbBitsValue(e, n);
    ExtraBitsValue(data, q, n);
  }

  /** Distance code dc in five bits at q of the stream. */
  lemma DistanceCodeAt(c: Constants, data: seq<Byte>, q: nat, dc: nat)
    requires c.fixedDistances == FixedDistances
    requires dc < 32 && StreamHas(data, q, MsbBits(dc, 5))
    ensures q + 5 <= 8 * |data|
    ensures Decode(CanonicalTable(c.fixedDistances), StreamBits(data), q, 0, 0) == Ok((dc, q + 5))
  {
    StreamHasBitsAt(data, q, MsbBits(dc, 5));
    assert dc < Pow2(5) by { Pow2Table(); }
    MsbBitsValue(dc, 5);
    DistanceCodeRead(data, q);
  }

  /** The bits of a length at p: its symbol, then its value. */
  lemma LengthBitsRead(c: Constants, data: seq<Byte>, p: nat, q: nat, r: nat, li: nat, length: nat)
    requires c.fixedLengths == FixedLengths
    requires li < 31 && li < |c.lengthRows| && c.lengthRows[li].0 <= 8
    requires c.lengthRows[li].1 <= length < c.lengthRows[li].1 + Pow2(c.lengthRows[li].0)
    requires q == p + SymbolSize(257 + li) && r == q + c.lengthRows[li].0
    requires StreamHas(data, p, LengthBits(c, li, length - c.lengthRows[li].1))
    ensures r <= 8 * |data|
    ensures Decode(CanonicalTable(c.fixedLengths), StreamBits(data), p, 0, 0) == Ok((257 + li, q))
    ensures LengthAt(c, data, q, 257 + li) == Ok((length, r))
  {
    var el := length - c.lengthRows[li].1;
    var sym, lbits := FixedSymbolBits(257 + li), LsbBits(el, c.lengthRows[li].0);
    SymbolBitsSize(257 + li);
    StreamHasSplitAt(data, p, q, sym, lbits);
    SymbolRead(c, data, p, 257 + li);
    ExtraBitsAt(data, q, c.lengthRows[li].0, el);
    LengthRead(c, data, q, r, li, el, length);
  }

  /** Extra bits el at q after length symbol 257 + li make the length the
      decoder reads. */
  lemma LengthRead(c: Constants, data: seq<Byte>, q: nat, r: nat, li: nat, el: nat, length: nat)
    requires q <= 8 * |data| && li < |c.lengthRows|
    requires ExtraBits(data, q, c.lengthRows[li].0) == Ok(el) && r == q + c.lengthRows[li].0
    requires length == c.lengthRows[li].1 + el
    ensures LengthAt(c, data, q, 257 + li) == Ok((length, r))
  {
  }

  /** The bits of a distance at q: its code, then its value. */
  lemma DistanceBitsRead(c: Constants, data: seq<Byte>, q: nat, q2: nat, dc: nat, dist: nat)
    requires ConstantsValid(c) && c.fixedDistances == FixedDistances
    requires dc < 32 && dc < |c.distanceRows| && c.distanceRows[dc].0 <= 8
    requires c.distanceRows[dc].1 <= dist < c.distanceRows[dc].1 + Pow2(c.distanceRows[dc].0)
    requires q2 == q + 5 + c.distanceRows[dc].0
    requires StreamHas(data, q, DistanceBits(c, dc, dist - c.distanceRows[dc].1))
    ensures q2 <= 8 * |data|
    ensures DistanceAt(c, data, q) == Ok((dist, q2))
  {
    var ed := dist - c.distanceRows[dc].1;
    var code, dbits := MsbBits(dc, 5), LsbBits(ed, c.distanceRows[dc].0);
    var q1 := q + 5;
    StreamHasSplitAt(data, q, q1, code, dbits);
    DistanceCodeAt(c, data, q, dc);
    ExtraBitsAt(data, q1, c.distanceRows[dc].0, ed);
    DistanceRead(c, data, q, q1, q2, dc, ed, dist);
  }

  /** Distance code dc at q and its extra bits ed at q1 make the distance
      the decoder reads. */
  lemma DistanceRead(c: Constants, data: seq<Byte>, q: nat, q1: nat, q2: nat, dc: nat, ed: nat, dist: nat)
    requires ConstantsValid(c) && q < q1 <= 8 * |data| && dc < |c.distanceRows|
    requires Decode(CanonicalTable(c.fixedDistances), StreamBits(data), q, 0, 0) == Ok((dc, q1))
    requires ExtraBits(data, q1, c.distanceRows[dc].0) == Ok(ed) && q2 == q1 + c.distanceRows[dc].0
    requires dist == c.distanceRows[dc].1 + ed
    ensures DistanceAt(c, data, q) == Ok((dist, q2))
  {
  }

  /** A copy read at p: the byte-by-byte copy of its length from its
      distance. */
  lemma CopyRead(c: Constants, data: seq<Byte>, p: nat, q: nat, r: nat, q2: nat, hist: seq<Byte>, li: nat,
                 length: nat, dist: nat)
    requires ConstantsValid(c) && p <= q <= r <= 8 * |data|
    requires Decode(CanonicalTable(c.fixedLengths), StreamBits(data), p, 0, 0) == Ok((257 + li, q))
    requires LengthAt(c, data, q, 257 + li) == Ok((length, r))
    requires DistanceAt(c, data, r) == Ok((dist, q2))
    requires dist <= |hist| && dist <= WindowSize
    ensures var s := SymbolStep(c, data, p, hist);
      s.Emit? && s.p == q2 && hist + s.bytes == CopyBack(hist, dist, length)
  {
    BackReferenceIsCopy(c, data, q, hist, 257 + li, length, r, dist, q2);
  }

  /** A literal's bits at p, read by the decoder. */
  lemma LiteralStep(c: Constants, data: seq<Byte>, p: nat, hist: seq<Byte>, v: nat)
    requires ConstantsValid(c) && c.fixedLengths == FixedLengths
    requires v < 256 && StreamHas(data, p, FixedSymbolBits(v))
    ensures p + SymbolSize(v) <= 8 * |data|
    ensures SymbolStep(c, data, p, hist) == Emit(Utf8(v), p + SymbolSize(v))
  {
    SymbolRead(c, data, p, v);
    SymbolDecoded(c, data, p, hist, v, p + SymbolSize(v));
  }

  /** A copy's bits at p, its length and then from r on its distance, read
      by the decoder. */
  lemma CopyStep(c: Constants, data: seq<Byte>, p: nat, q: nat, r: nat, q2: nat, hist: seq<Byte>,
                 li: nat, length: nat, dc: nat, dist: nat)
    requires ConstantsValid(c) && c.fixedLengths == FixedLengths && c.fixedDistances == FixedDistances
    requires li < 31 && li < |c.lengthRows| && c.lengthRows[li].0 <= 8
    requires c.lengthRows[li].1 <= length < c.lengthRows[li].1 + Pow2(c.lengthRows[li].0)
    requires dc < 32 && dc < |c.distanceRows| && c.distanceRows[dc].0 <= 8
    requires c.distanceRows[dc].1 <= dist < c.distanceRows[dc].1 + Pow2(c.distanceRows[dc].0)
    requires dist <= |hist| && dist <= WindowSize
    requires q == p + SymbolSize(257 + li) && r == q + c.lengthRows[li].0 && q2 == r + 5 + c.distanceRows[dc].0
    requires StreamHas(data, p, CopyBits(c, li, length - c.lengthRows[li].1, dc, dist - c.distanceRows[dc].1))
    ensures q2 <= 8 * |data|
    ensures SymbolStep(c, data, p, hist).Emit?
    ensures hist + SymbolStep(c, data, p, hist).bytes == CopyBack(hist, dist, length)
    ensures SymbolStep(c, data, p, hist).p == q2
  {
    StreamHasSplitAt(data, p, r, LengthBits(c, li, length - c.lengthRows[li].1),
      DistanceBits(c, dc, dist - c.distanceRows[dc].1));
    LengthBitsRead(c, data, p, q, r, li, length);
    DistanceBitsRead(c, data, r, q2, dc, dist);
    CopyRead(c, data, p, q, r, q2, hist, li, length, dist);
  }

  /** A copy token's bits and size, with the rows its length and distance
      lie in. */
  lemma CopyToken(c: Constants, length: nat, dist: nat, li: nat, dc: nat)
    requires Encodable(c, Copy(length, dist))
    requires li == FindLastRow(c.lengthRows, length, |c.lengthRows|).value && dc == FindRow(c.distanceRows, dist, 0).value
    ensures TokenBits(c, Copy(length, dist))
      == CopyBits(c, li, length - c.lengthRows[li].1, dc, dist - c.distanceRows[dc].1)
    ensures TokenSize(c, Copy(length, dist)) == CopySize(c, li, dc)
  {
  }

  /** One token's bits at p, read by the decoder: what it appends to the
      output, and the bit after it. */
  lemma TokenStep(c: Constants, data: seq<Byte>, p: nat, hist: seq<Byte>, t: Token)
    requires ConstantsValid(c) && c.fixedLengths == FixedLengths && c.fixedDistances == FixedDistances
    requires Encodable(c, t) && Reaches(hist, t) && StreamHas(data, p, TokenBits(c, t))
    ensures p + TokenSize(c, t) <= 8 * |data|
    ensures SymbolStep(c, data, p, hist).Emit?
    ensures hist + SymbolStep(c, data, p, hist).bytes == Apply(hist, t)
    ensures SymbolStep(c, data, p, hist).p == p + TokenSize(c, t)
  {
    match t
    case Literal(v) =>
      LiteralStep(c, data, p, hist, v);
    case Copy(length, dist) =>
      var li := FindLastRow(c.lengthRows, length, |c.lengthRows|).value;
      var dc := FindRow(c.distanceRows, dist, 0).value;
      var q := p + SymbolSize(257 + li);
      var r := q + c.lengthRows[li].0;
      CopyToken(c, length, dist, li, dc);
      CopyStep(c, data, p, q, r, r + 5 + c.distanceRows[dc].0, hist, li, length, dc, dist);
  }

  /** End-of-block in the fixed code at p ends the block after it. */
  lemma EndStep(c: Constants, data: seq<Byte>, p: nat, hist: seq<Byte>, v: nat)
    requires ConstantsValid(c) && c.fixedLengths == FixedLengths
    requires v == 256 && StreamHas(data, p, FixedSymbolBits(v))
    ensures p + SymbolSize(v) <= 8 * |data|
    ensures SymbolStep(c, data, p, hist) == EndOfBlock(p + SymbolSize(v))
  {
    SymbolRead(c, data, p, v);
    SymbolDecoded(c, data, p, hist, v, p + SymbolSize(v));
  }

  /** The bits of tokens: the first token's, then the rest's. */
  lemma TokensBitsSplit(c: Constants, data: seq<Byte>, p: nat, q: nat, ts: seq<Token>)
    requires ts != [] && AllEncodable(c, ts) && StreamHas(data, p, TokensBits(c, ts))
    requires Encodable(c, ts[0]) && q == p + TokenSize(c, ts[0])
    ensures AllEncodable(c, ts[1..])
    ensures StreamHas(data, p, TokenBits(c, ts[0])) && StreamHas(data, q, TokensBits(c, ts[1..]))
  {
    StreamHasSplitAt(data, p, q, TokenBits(c, ts[0]), TokensBits(c, ts[1..]));
  }

  /** Reading tokens from bit p of the stream until end-of-block yields what
      they append to `hist`, and ends right after their bits. */
  lemma {:induction false} TokensRead(c: Constants, data: seq<Byte>, p: nat, hist: seq<Byte>, ts: seq<Token>)
    requires ConstantsValid(c) && c.fixedLengths == FixedLengths && c.fixedDistances == FixedDistances
    requires AllEncodable(c, ts) && Fits(hist, ts) && StreamHas(data, p, TokensBits(c, ts))
    ensures p <= 8 * |data|
    ensures var r := Symbols(c, data, p, hist);
      r.err.None? && hist + r.bytes == Output(hist, ts) && r.p == p + TokensSize(c, ts)
    decreases |ts|
  {
    if ts == [] {
      EndStep(c, data, p, hist, 256);
    } else {
      var q, h := p + TokenSize(c, ts[0]), Apply(hist, ts[0]);
      TokensCons(c, hist, ts);
      TokensBitsSplit(c, data, p, q, ts);
      TokenStep(c, data, p, hist, ts[0]);
      SymbolsEmitAt(c, data, p, hist, q, h);
      TokensRead(c, data, q, h, ts[1..]);
      Inflater.AppendAssoc(hist, SymbolStep(c, data, p, hist).bytes, Symbols(c, data, q, h).bytes);
    }
  }

  /** Fits, Output and the sizes for a token followed by more tokens. */
  lemma TokensCons(c: Constants, hist: seq<Byte>, ts: seq<Token>)
    requires ts != [] && AllEncodable(c, ts) && Fits(hist, ts)
    ensures Encodable(c, ts[0]) && AllEncodable(c, ts[1..]) && Reaches(hist, ts[0])
    ensures Fits(Apply(hist, ts[0]), ts[1..]) && Output(hist, ts) == Output(Apply(hist, ts[0]), ts[1..])
    ensures TokensSize(c, ts) == TokenSize(c, ts[0]) + TokensSize(c, ts[1..])
  {
  }

  /** SymbolsEmit with the next bit q and the output h after the symbol
      named. */
  lemma SymbolsEmitAt(c: Constants, data: seq<Byte>, p: nat, hist: seq<Byte>, q: nat, h: seq<Byte>)
    requires ConstantsValid(c) && p <= 8 * |data| && SymbolStep(c, data, p, hist).Emit?
    requires SymbolStep(c, data, p, hist).p == q && hist + SymbolStep(c, data, p, hist).bytes == h
    ensures q <= 8 * |data|
    ensures var rest := Symbols(c, data, q, h);
      Symbols(c, data, p, hist) == Run(SymbolStep(c, data, p, hist).bytes + rest.bytes, rest.p, rest.err)
  {
    SymbolsEmit(c, data, p, hist);
  }

  // ---- a whole stream ----

  /** Bits packed behind the header bits 1, 1, 0 start a final fixed
      Huffman block, and the rest of them follow from stream bit 3 on. */
  lemma PackedBlock(enc: seq<Bit>, trailing: seq<Byte>)
    ensures Header(Pack([1, 1, 0] + enc) + trailing, 0) == Ok((1, 1))
    ensures StreamHas(Pack([1, 1, 0] + enc) + trailing, 3, enc)
  {
    var bits: seq<Bit> := [1, 1, 0] + enc;
    var data := Pack(bits) + trailing;
    PackedBits(bits, trailing, 0);
    PackedBits(bits, trailing, 1);
    PackedBits(bits, trailing, 2);
    StreamBitsAt(data, 0);
    StreamBitsAt(data, 1);
    StreamBitsAt(data, 2);
    FixedHeader(data);
    PackedSlice(bits, trailing, 3, |enc|);
    assert bits[3..3 + |enc|] == enc;
    SliceStreamHas(data, 3, enc);
  }

  /** A final fixed block whose symbols run from bit 3 without error is the
      whole outcome. */
  lemma FinalFixedBlock(c: Constants, data: seq<Byte>)
    requires ConstantsValid(c) && Header(data, 0) == Ok((1, 1))
    requires Symbols(c, data, 3, []).err.None?
    ensures Blocks(c, data, 0, []) == Outcome(Symbols(c, data, 3, []).bytes, None)
  {
  }

  /** A final fixed Huffman block holding the tokens ts decodes to their
      output, without error. */
  lemma FixedTokensBlock(c: Constants, ts: seq<Token>, trailing: seq<Byte>)
    requires ConstantsValid(c) && c.fixedLengths == FixedLengths && c.fixedDistances == FixedDistances
    requires AllEncodable(c, ts) && Fits([], ts)
    ensures Blocks(c, Pack([1, 1, 0] + TokensBits(c, ts)) + trailing, 0, []) == Outcome(Output([], ts), None)
  {
    var enc := TokensBits(c, ts);
    var data := Pack([1, 1, 0] + enc) + trailing;
    PackedBlock(enc, trailing);
    TokensRead(c, data, 3, [], ts);
    FinalFixedBlock(c, data);
  }

  /** A token an encoder may emit: a byte literal, or a copy of 3 to 258
      bytes from at most 1024 back (the distance rows up to 19, whose extra
      bits number at most eight). */
  predicate PlainToken(t: Token)
  {
    match t
    case Literal(v) => v < 256
    case Copy(length, dist) => 3 <= length <= 258 && 1 <= dist <= 1024
  }

  predicate Plain(ts: seq<Token>)
  {
    forall i :: 0 <= i < |ts| ==> PlainToken(ts[i])
  }

  /** Every length from 3 to 258 is written with a length symbol whose row
      has at most five extra bits; 258, and only 258, with symbol 285. */
  lemma LengthFound(length: nat)
    requires 3 <= length <= 258
    ensures var li := FindLastRow(LengthsExtraBitsDiffs, length, |LengthsExtraBitsDiffs|);
      && li.Some? && li.value <= 28 && LengthsExtraBitsDiffs[li.value].0 <= 5
      && (li.value == 28 <==> length == 258)
  {
    var rows := LengthsExtraBitsDiffs;
    if length < 258 {
      forall j | 0 <= j < 27
        ensures rows[j].1 + Pow2(rows[j].0) == rows[j + 1].1
      {
        LengthRowsAdjacent(j);
      }
      Pow2Table();
      assert FindLastRow(rows, length, 29) == FindLastRow(rows, length, 28);
      FindLastRowWithin(rows, length, 0, 27);
    }
    LengthRow(FindLastRow(rows, length, |rows|).value);
  }

  /** The first twenty distance codes carry at most eight extra bits. */
  lemma DistanceRowShort(j: nat)
    requires j < 20
    ensures DistancesExtraBitsDiffs[j].0 <= 8
  {
    if j < 10 {
      if j == 0 {} else if j == 1 {} else if j == 2 {} else if j == 3 {} else if j == 4 {}
      else if j == 5 {} else if j == 6 {} else if j == 7 {} else if j == 8 {} else {}
    } else {
      if j == 10 {} else if j == 11 {} else if j == 12 {} else if j == 13 {} else if j == 14 {}
      else if j == 15 {} else if j == 16 {} else if j == 17 {} else if j == 18 {} else {}
    }
  }

  /** Every distance from 1 to 1024 lies in one of the first twenty rows of
      the distance table. */
  lemma DistanceFound(dist: nat)
    requires 1 <= dist <= 1024
    ensures var dc := FindRow(DistancesExtraBitsDiffs, dist, 0);
      dc.Some? && dc.value < 20 && DistancesExtraBitsDiffs[dc.value].0 <= 8
  {
    var rows := DistancesExtraBitsDiffs;
    forall j | 0 <= j < 19
      ensures rows[j].1 + Pow2(rows[j].0) == rows[j + 1].1
    {
      DistanceRowsAdjacent(j);
    }
    Pow2Table();
    FindRowWithin(rows, dist, 0, 19);
    DistanceRowShort(FindRow(rows, dist, 0).value);
  }

  /** Plain tokens can all be written with the decoder's own tables. */
  lemma {:induction false} PlainEncodable(ts: seq<Token>)
    requires Plain(ts)
    ensures AllEncodable(SourceConstants, ts)
    decreases |ts|
  {
    if ts != [] {
      if ts[0].Copy? {
        LengthFound(ts[0].length);
        DistanceFound(ts[0].dist);
      }
      assert Plain(ts[1..]) by {
        forall i | 0 <= i < |ts| - 1 ensures PlainToken(ts[1..][i]) { assert ts[1..][i] == ts[i + 1]; }
      }
      PlainEncodable(ts[1..]);
    }
  }

  /** The stream an encoder writes for plain tokens ts: one final fixed
      Huffman block. */
  function Encode(ts: seq<Token>): seq<Byte>
    requires Plain(ts)
  {
    PlainEncodable(ts);
    Pack([1, 1, 0] + TokensBits(SourceConstants, ts))
  }

  /** Inflating the encoding of plain tokens, whatever bytes follow it,
      gives back exactly the output of the tokens and no error. */
  lemma FixedTokensRoundTrip(ts: seq<Token>, trailing: seq<Byte>)
    requires Plain(ts) && Fits([], ts)
    ensures Inflate(Encode(ts) + trailing) == Outcome(Output([], ts), None)
  {
    SourceConstantsValid();
    PlainEncodable(ts);
    FixedTokensBlock(SourceConstants, ts, trailing);
  }

  // ---- literals only ----

  /** Literal symbols vs as tokens. */
  function LiteralTokens(vs: seq<nat>): (ts: seq<Token>)
    ensures |ts| == |vs|
  {
    if vs == [] then [] else [Literal(vs[0])] + LiteralTokens(vs[1..])
  }

  /** Literals are plain tokens, and after output h they append their UTF-8
      bytes. */
  lemma {:induction false} LiteralTokensOutput(h: seq<Byte>, vs: seq<nat>)
    requires Literals(vs)
    ensures Plain(LiteralTokens(vs)) && Fits(h, LiteralTokens(vs))
    ensures Output(h, LiteralTokens(vs)) == h + Utf8All(vs)
    decreases |vs|
  {
    if vs != [] {
      var ts := LiteralTokens(vs);
      assert ts[0] == Literal(vs[0]) && ts[1..] == LiteralTokens(vs[1..]);
      assert Literals(vs[1..]) by {
        forall i | 0 <= i < |vs| - 1 ensures vs[1..][i] < 256 { assert vs[1..][i] == vs[i + 1]; }
      }
      LiteralTokensOutput(h + Utf8(vs[0]), vs[1..]);
      assert Plain(ts) by {
        forall i | 0 <= i < |ts| ensures PlainToken(ts[i]) {
          if i > 0 { assert ts[i] == ts[1..][i - 1]; }
        }
      }
      Inflater.AppendAssoc(h, Utf8(vs[0]), Utf8All(vs[1..]));
    }
  }

  /** Literal tokens are written exactly as literal symbols. */
  lemma {:induction false} LiteralTokensBits(c: Constants, vs: seq<nat>)
    requires Literals(vs) && AllEncodable(c, LiteralTokens(vs))
    ensures TokensBits(c, LiteralTokens(vs)) == LiteralBits(vs)
    decreases |vs|
  {
    if vs != [] {
      var ts := LiteralTokens(vs);
      assert ts[0] == Literal(vs[0]) && ts[1..] == LiteralTokens(vs[1..]);
      assert Literals(vs[1..]) by {
        forall i | 0 <= i < |vs| - 1 ensures vs[1..][i] < 256 { assert vs[1..][i] == vs[i + 1]; }
      }
      LiteralTokensBits(c, vs[1..]);
    }
  }

  /** Inflate of a final fixed Huffman block of literals, whatever bytes
      follow it: their UTF-8 bytes, without error. */
  lemma FixedLiteralRoundTrip(vs: seq<nat>, trailing: seq<Byte>)
    requires Literals(vs)
    ensures Inflate(Pack(FixedLiteralBits(vs)) + trailing) == Outcome(Utf8All(vs), None)
  {
    var ts := LiteralTokens(vs);
    LiteralTokensOutput([], vs);
    PlainEncodable(ts);
    LiteralTokensBits(SourceConstants, vs);
    FixedTokensRoundTrip(ts, trailing);
  }

  /** The two bytes 0x03 0x00 decode to nothing, without error. */
  lemma EmptyFixedBlock()
    ensures Inflate([0x03, 0x00]) == Outcome([], None)
  {
    EmptyFixedBytes();
    FixedLiteralRoundTrip([], []);
    assert Pack(FixedLiteralBits([])) + [] == [0x03, 0x00];
  }
}
