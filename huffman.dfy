/** `get_huffman_decoder(get_bits, lengths)`: the canonical Huffman code of
    section 3.2.2 of RFC 1951 built from a list of code lengths
    (`yield_codes`), kept as a map from (length, code) to symbol, and the
    bit-at-a-time decoder over it (`get_next`). */
module Huffman {
  import opened Wrappers
  import opened Bits
  import opened Readers

  /** A decoding table: (code length, code) to symbol. */
  type Table = map<(nat, nat), nat>

  // ---- the canonical code, as pure functions ----

  /** `Counter(lengths)[l]`: how many symbols have code length l. */
  function Count(lengths: seq<nat>, l: nat): nat
  {
    if lengths == [] then 0
    else Count(lengths[..|lengths| - 1], l) + (if lengths[|lengths| - 1] == l then 1 else 0)
  }

  /** `bl_count[l]` once `bl_count[0] = 0` has run: length 0 is not a code. */
  function BlCount(lengths: seq<nat>, l: nat): nat
  {
    if l == 0 then 0 else Count(lengths, l)
  }

  /** `next_code[bits]` after the first loop of `yield_codes`: the code of the
      first symbol of length `bits`. */
  function FirstCode(lengths: seq<nat>, bits: nat): nat
  {
    if bits == 0 then 0 else (FirstCode(lengths, bits - 1) + BlCount(lengths, bits - 1)) * 2
  }

  /** The code `yield_codes` gives symbol v: the first code of its length plus
      the number of earlier symbols of that length. */
  function Code(lengths: seq<nat>, v: nat): nat
    requires v < |lengths|
  {
    FirstCode(lengths, lengths[v]) + Count(lengths[..v], lengths[v])
  }

  /** The table `dict(yield_codes())` holds after the first n symbols. */
  function TableOf(lengths: seq<nat>, n: nat): Table
    requires n <= |lengths|
  {
    if n == 0 then map[]
    else if lengths[n - 1] == 0 then TableOf(lengths, n - 1)
    else TableOf(lengths, n - 1)[(lengths[n - 1], Code(lengths, n - 1)) := n - 1]
  }

  /** `codes = dict(yield_codes())`. */
  function CanonicalTable(lengths: seq<nat>): Table
  {
    TableOf(lengths, |lengths|)
  }

  /** `max(lengths)`. */
  function MaxLength(lengths: seq<nat>): (m: nat)
    requires lengths != []
    ensures forall v :: 0 <= v < |lengths| ==> lengths[v] <= m
    ensures exists v :: 0 <= v < |lengths| && lengths[v] == m
  {
    if |lengths| == 1 then lengths[0]
    else
      var m := MaxLength(lengths[..|lengths| - 1]);
      assert forall v :: 0 <= v < |lengths| - 1 ==> lengths[..|lengths| - 1][v] == lengths[v];
      if lengths[|lengths| - 1] > m then lengths[|lengths| - 1] else m
  }

  /** No code is a proper prefix of another: shifting the longer code right
      by the difference in length never gives the shorter one. */
  ghost predicate PrefixFree(codes: Table)
  {
    forall k1, k2 :: k1 in codes && k2 in codes && k1.0 < k2.0 ==>
      Shift(k2.1, k2.0 - k1.0) != k1.1
  }

  /** Codes of length 1..l, each weighted by 2^(l - its length): the number of
      l-bit strings some code is a prefix of, when the code is complete. */
  function Kraft(lengths: seq<nat>, l: nat): nat
  {
    if l == 0 then 0 else 2 * Kraft(lengths, l - 1) + Count(lengths, l)
  }

  /** The Kraft inequality of the lengths: the code lengths leave room for
      prefix-free codes. */
  predicate KraftHolds(lengths: seq<nat>)
    requires lengths != []
  {
    Kraft(lengths, MaxLength(lengths)) <= Pow2(MaxLength(lengths))
  }

  // ---- counting ----

  lemma {:induction false} CountAppend(a: seq<nat>, b: seq<nat>, l: nat)
    ensures Count(a + b, l) == Count(a, l) + Count(b, l)
  {
    if b == [] {
      assert a + b == a;
    } else {
      assert (a + b)[..|a + b| - 1] == a + b[..|b| - 1];
      CountAppend(a, b[..|b| - 1], l);
    }
  }

  /** Symbol i is counted among the symbols of its length before j > i. */
  lemma CountPrefixStep(lengths: seq<nat>, i: nat, j: nat)
    requires i < j <= |lengths|
    ensures Count(lengths[..j], lengths[i]) >= Count(lengths[..i], lengths[i]) + 1
  {
    assert lengths[..j] == lengths[..i] + [lengths[i]] + lengths[i + 1..j];
    CountAppend(lengths[..i] + [lengths[i]], lengths[i + 1..j], lengths[i]);
    CountAppend(lengths[..i], [lengths[i]], lengths[i]);
    assert Count([lengths[i]], lengths[i]) == 1 by {
      assert [lengths[i]][..0] == [];
    }
  }

  /** Symbols of the same length get strictly increasing codes. */
  lemma CodeIncreasing(lengths: seq<nat>, v1: nat, v2: nat)
    requires v1 < v2 < |lengths| && lengths[v1] == lengths[v2]
    ensures Code(lengths, v1) < Code(lengths, v2)
  {
    CountPrefixStep(lengths, v1, v2);
  }

  /** Of two symbols of the same length with none of that length between
      them, the later one gets the next code. */
  lemma CodeConsecutive(lengths: seq<nat>, v1: nat, v2: nat)
    requires v1 < v2 < |lengths| && lengths[v1] == lengths[v2]
    requires forall u :: v1 < u < v2 ==> lengths[u] != lengths[v1]
    ensures Code(lengths, v2) == Code(lengths, v1) + 1
  {
    var l := lengths[v1];
    assert lengths[..v2] == lengths[..v1] + [l] + lengths[v1 + 1..v2];
    CountAppend(lengths[..v1] + [l], lengths[v1 + 1..v2], l);
    CountAppend(lengths[..v1], [l], l);
    assert Count([l], l) == 1 by {
      assert [l][..0] == [];
    }
    CountNone(lengths[v1 + 1..v2], l);
  }

  lemma {:induction false} CountNone(s: seq<nat>, l: nat)
    requires forall u :: 0 <= u < |s| ==> s[u] != l
    ensures Count(s, l) == 0
  {
    if s != [] {
      CountNone(s[..|s| - 1], l);
    }
  }

  /** The first symbol of each length gets FirstCode of that length. */
  lemma CodeFirst(lengths: seq<nat>, v: nat)
    requires v < |lengths|
    requires forall u :: 0 <= u < v ==> lengths[u] != lengths[v]
    ensures Code(lengths, v) == FirstCode(lengths, lengths[v])
  {
    CountNone(lengths[..v], lengths[v]);
  }

  /** Symbol v comes before the last symbol of its length is counted. */
  lemma CountBefore(lengths: seq<nat>, v: nat)
    requires v < |lengths|
    ensures Count(lengths[..v], lengths[v]) < Count(lengths, lengths[v])
  {
    assert lengths[..|lengths|] == lengths;
    CountPrefixStep(lengths, v, |lengths|);
  }

  // ---- the table holds exactly the canonical codes ----

  /** Every symbol of non-zero length among the first n has its entry. */
  lemma {:induction false} TableOfHas(lengths: seq<nat>, n: nat, v: nat)
    requires v < n <= |lengths| && lengths[v] != 0
    ensures (lengths[v], Code(lengths, v)) in TableOf(lengths, n)
    ensures TableOf(lengths, n)[(lengths[v], Code(lengths, v))] == v
  {
    if v < n - 1 {
      TableOfHas(lengths, n - 1, v);
      if lengths[n - 1] == lengths[v] {
        CodeIncreasing(lengths, v, n - 1);
      }
    }
  }

  /** Every entry among the first n symbols is some symbol's canonical code. */
  lemma {:induction false} TableOfOnly(lengths: seq<nat>, n: nat, key: (nat, nat))
    requires n <= |lengths| && key in TableOf(lengths, n)
    ensures TableOf(lengths, n)[key] < n
    ensures var v := TableOf(lengths, n)[key];
      lengths[v] == key.0 != 0 && Code(lengths, v) == key.1
  {
    if n > 0 && !(lengths[n - 1] != 0 && key == (lengths[n - 1], Code(lengths, n - 1))) {
      TableOfOnly(lengths, n - 1, key);
    }
  }

  /** The table maps (lengths[v], Code(v)) to v for every symbol v of
      non-zero length, and has no other entries; in particular the keys of
      distinct symbols are distinct and length-0 symbols get none. */
  lemma CanonicalTableEntries(lengths: seq<nat>)
    ensures forall v :: 0 <= v < |lengths| && lengths[v] != 0 ==>
      (lengths[v], Code(lengths, v)) in CanonicalTable(lengths) &&
      CanonicalTable(lengths)[(lengths[v], Code(lengths, v))] == v
    ensures forall key :: key in CanonicalTable(lengths) ==>
      var v := CanonicalTable(lengths)[key];
      v < |lengths| && lengths[v] == key.0 != 0 && Code(lengths, v) == key.1
  {
    forall v | 0 <= v < |lengths| && lengths[v] != 0
      ensures (lengths[v], Code(lengths, v)) in CanonicalTable(lengths)
      ensures CanonicalTable(lengths)[(lengths[v], Code(lengths, v))] == v
    {
      TableOfHas(lengths, |lengths|, v);
    }
    forall key | key in CanonicalTable(lengths)
      ensures var v := CanonicalTable(lengths)[key];
        v < |lengths| && lengths[v] == key.0 != 0 && Code(lengths, v) == key.1
    {
      TableOfOnly(lengths, |lengths|, key);
    }
  }

  // ---- code sizes and prefix-freeness ----

  /** `next_code[l]` is twice the Kraft sum one length below. */
  lemma {:induction false} FirstCodeKraft(lengths: seq<nat>, l: nat)
    requires l >= 1
    ensures FirstCode(lengths, l) == 2 * Kraft(lengths, l - 1)
  {
    if l > 1 {
      FirstCodeKraft(lengths, l - 1);
    }
  }

  /** Every code of length l lies below Kraft(l). */
  lemma CodeBelowKraft(lengths: seq<nat>, v: nat)
    requires v < |lengths| && lengths[v] >= 1
    ensures Code(lengths, v) < Kraft(lengths, lengths[v])
  {
    FirstCodeKraft(lengths, lengths[v]);
    CountBefore(lengths, v);
  }

  /** The Kraft sum at least doubles from one length to the next. */
  lemma {:induction false} KraftGrowth(lengths: seq<nat>, l1: nat, l2: nat)
    requires l1 <= l2
    ensures Kraft(lengths, l2) >= Pow2(l2 - l1) * Kraft(lengths, l1)
  {
    if l1 < l2 {
      KraftGrowth(lengths, l1, l2 - 1);
      Twice(Pow2(l2 - 1 - l1), Kraft(lengths, l1));
    }
  }

  lemma Twice(p: nat, k: nat)
    ensures (2 * p) * k == 2 * (p * k)
  {
  }

  lemma {:induction false} Pow2Add(a: nat, b: nat)
    ensures Pow2(a + b) == Pow2(a) * Pow2(b)
  {
    if a > 0 {
      Pow2Add(a - 1, b);
      Twice(Pow2(a - 1), Pow2(b));
    }
  }

  /** Multiplication by a positive number preserves order both ways. */
  lemma {:induction false} MulMonotone(a: nat, x: nat, y: nat)
    requires x <= y
    ensures a * x <= a * y
  {
    if a > 0 {
      MulMonotone(a - 1, x, y);
    }
  }

  lemma MulCancel(a: nat, x: nat, y: nat)
    requires a > 0 && a * x <= a * y
    ensures x <= y
  {
    if x > y {
      MulMonotone(a, y + 1, x);
    }
  }

  /** Under the Kraft inequality the Kraft sum of every length l up to the
      longest stays within 2^l. */
  lemma KraftBelow(lengths: seq<nat>, l: nat)
    requires lengths != [] && KraftHolds(lengths) && l <= MaxLength(lengths)
    ensures Kraft(lengths, l) <= Pow2(l)
  {
    var m := MaxLength(lengths);
    KraftGrowth(lengths, l, m);
    Pow2Add(m - l, l);
    assert m - l + l == m;
    MulCancel(Pow2(m - l), Kraft(lengths, l), Pow2(l));
  }

  /** Under the Kraft inequality every symbol of length l > 0 gets a code
      below 2^l, so it fits in its length. */
  lemma CodeFits(lengths: seq<nat>, v: nat)
    requires lengths != [] && KraftHolds(lengths)
    requires v < |lengths| && lengths[v] >= 1
    ensures Code(lengths, v) < Pow2(lengths[v])
  {
    CodeBelowKraft(lengths, v);
    KraftBelow(lengths, lengths[v]);
  }

  /** A code of length l2 > l1, cut to its first l1 bits, is at least
      Kraft(l1), so above every code of length l1. */
  lemma CodePrefixAbove(lengths: seq<nat>, v1: nat, v2: nat)
    requires v1 < |lengths| && v2 < |lengths| && 1 <= lengths[v1] < lengths[v2]
    ensures Shift(Code(lengths, v2), lengths[v2] - lengths[v1]) != Code(lengths, v1)
  {
    var l1, l2 := lengths[v1], lengths[v2];
    var k := Kraft(lengths, l1);
    var p := Pow2(l2 - 1 - l1);
    var c2 := Code(lengths, v2);
    CodeBelowKraft(lengths, v1);
    FirstCodeKraft(lengths, l2);
    assert c2 >= 2 * Kraft(lengths, l2 - 1);
    KraftGrowth(lengths, l1, l2 - 1);
    assert Kraft(lengths, l2 - 1) >= p * k;
    Twice(p, k);
    assert Pow2(l2 - l1) == 2 * p;
    assert c2 >= k * Pow2(l2 - l1);
    ShiftLowerBound(c2, k, l2 - l1);
  }

  /** The canonical table is prefix-free, whatever the lengths. */
  lemma CanonicalPrefixFree(lengths: seq<nat>)
    ensures PrefixFree(CanonicalTable(lengths))
  {
    var t := CanonicalTable(lengths);
    CanonicalTableEntries(lengths);
    forall k1, k2 | k1 in t && k2 in t && k1.0 < k2.0
      ensures Shift(k2.1, k2.0 - k1.0) != k1.1
    {
      CodePrefixAbove(lengths, t[k1], t[k2]);
    }
  }

  // ---- decoding ----

  /** What `get_next` returns when it stands at stream bit p having read
      `length` bits that make up `code`: read the next bit, append it to the
      code and look (length + 1, code) up; the symbol and the position after
      the match, or TruncatedData once the stream runs out. */
  function Decode(codes: Table, bits: seq<Bit>, p: nat, length: nat, code: nat): (r: Result<(nat, nat)>)
    requires p <= |bits|
    ensures r.Ok? ==> p < r.value.1 <= |bits|
    ensures r.Err? ==> r.error == TruncatedData
    decreases |bits| - p
  {
    if p == |bits| then Err(TruncatedData)
    else
      var next: (nat, nat) := (length + 1, 2 * code + bits[p]);
      if next in codes then Ok((codes[next], p + 1))
      else Decode(codes, bits, p + 1, length + 1, next.1)
  }

  /** The code `get_next` has accumulated after reading n more bits from
      stream bit p, starting from `code`: each bit is appended as the new
      least significant digit (`code << 1 | bit`). */
  function Acc(bits: seq<Bit>, p: nat, n: nat, code: nat): nat
    requires p + n <= |bits|
    decreases n
  {
    if n == 0 then code else Acc(bits, p + 1, n - 1, 2 * code + bits[p])
  }

  /** Reading one more bit appends it to the accumulated code. */
  lemma {:induction false} AccSnoc(bits: seq<Bit>, p: nat, n: nat, code: nat)
    requires p + n < |bits|
    ensures Acc(bits, p, n + 1, code) == 2 * Acc(bits, p, n, code) + bits[p + n]
    decreases n
  {
    if n > 0 {
      AccSnoc(bits, p + 1, n - 1, 2 * code + bits[p]);
    }
  }

  /** Reading j bits and then m more is reading j + m bits. */
  lemma {:induction false} AccSplit(bits: seq<Bit>, p: nat, j: nat, m: nat, code: nat)
    requires p + j + m <= |bits|
    ensures Acc(bits, p, j + m, code) == Acc(bits, p + j, m, Acc(bits, p, j, code))
    decreases j
  {
    if j > 0 {
      AccSplit(bits, p + 1, j - 1, m, 2 * code + bits[p]);
    }
  }

  lemma {:induction false} ShiftCompose(x: nat, a: nat, b: nat)
    ensures Shift(x, a + b) == Shift(Shift(x, a), b)
    decreases a
  {
    if a > 0 {
      ShiftCompose(x / 2, a - 1, b);
    }
  }

  /** Shifting out the m bits read last gives back the code before them. */
  lemma {:induction false} AccShift(bits: seq<Bit>, p: nat, m: nat, code: nat)
    requires p + m <= |bits|
    ensures Shift(Acc(bits, p, m, code), m) == code
    decreases m
  {
    if m > 0 {
      var next: nat := 2 * code + bits[p];
      AccShift(bits, p + 1, m - 1, next);
      ShiftCompose(Acc(bits, p, m, code), m - 1, 1);
    }
  }

  /** What Decode returns: reading bits from p onto (length, code), the
      first key of the table met, and the symbol it maps to; no shorter run
      of the bits read is a key. */
  lemma {:induction false} DecodeFirstMatch(codes: Table, bits: seq<Bit>, p: nat, length: nat, code: nat)
    requires p <= |bits|
    requires Decode(codes, bits, p, length, code).Ok?
    ensures var (v, q) := Decode(codes, bits, p, length, code).value;
      && (length + (q - p), Acc(bits, p, q - p, code)) in codes
      && codes[(length + (q - p), Acc(bits, p, q - p, code))] == v
      && forall n :: 0 < n < q - p ==> (length + n, Acc(bits, p, n, code)) !in codes
    decreases |bits| - p
  {
    var next: (nat, nat) := (length + 1, 2 * code + bits[p]);
    var q := Decode(codes, bits, p, length, code).value.1;
    if next !in codes {
      DecodeFirstMatch(codes, bits, p + 1, length + 1, next.1);
      forall n | 0 < n < q - p
        ensures (length + n, Acc(bits, p, n, code)) !in codes
      {
        if n > 1 {
          assert Acc(bits, p, n, code) == Acc(bits, p + 1, n - 1, next.1);
        }
      }
    }
  }

  /** Round trip: when the stream at p holds, most significant bit first,
      the l-bit code c of a prefix-free table, decoding returns the symbol of
      (l, c) and consumes exactly l bits. */
  lemma DecodeCode(codes: Table, bits: seq<Bit>, p: nat, l: nat, c: nat)
    requires PrefixFree(codes) && (l, c) in codes && l >= 1
    requires p + l <= |bits| && Acc(bits, p, l, 0) == c
    ensures Decode(codes, bits, p, 0, 0) == Ok((codes[(l, c)], p + l))
  {
    DecodeCodeFrom(codes, bits, p, l, c, 0);
  }

  /** DecodeCode, after the first j bits of the code have been read. */
  lemma {:induction false} DecodeCodeFrom(codes: Table, bits: seq<Bit>, p: nat, l: nat, c: nat, j: nat)
    requires PrefixFree(codes) && (l, c) in codes && j < l
    requires p + l <= |bits| && Acc(bits, p, l, 0) == c
    ensures Decode(codes, bits, p + j, j, Acc(bits, p, j, 0)) == Ok((codes[(l, c)], p + l))
    decreases l - j
  {
    AccSnoc(bits, p, j, 0);
    var prefix := Acc(bits, p, j + 1, 0);
    if j + 1 < l {
      var rest := l - (j + 1);
      AccSplit(bits, p, j + 1, rest, 0);
      assert Acc(bits, p + j + 1, rest, prefix) == c;
      AccShift(bits, p + j + 1, rest, prefix);
      assert Shift(c, rest) == prefix;
      assert (j + 1, prefix) !in codes;
      assert Decode(codes, bits, p + j, j, Acc(bits, p, j, 0)) == Decode(codes, bits, p + j + 1, j + 1, prefix);
      DecodeCodeFrom(codes, bits, p, l, c, j + 1);
    } else {
      assert prefix == c;
      assert Decode(codes, bits, p + j, j, Acc(bits, p, j, 0)) == Ok((codes[(l, c)], p + l));
    }
  }

  // ---- the imperative builder and decoder ----

  /** One more symbol counted: lengths[..value + 1] adds lengths[value]. */
  lemma CountNext(lengths: seq<nat>, value: nat, b: nat)
    requires value < |lengths|
    ensures Count(lengths[..value + 1], b) == Count(lengths[..value], b) + (if lengths[value] == b then 1 else 0)
  {
    assert lengths[..value + 1][..value] == lengths[..value];
  }

  /** The first loop of `yield_codes`: `next_code[bits]` for every length up
      to `max_bits`, `code = (code + bl_count[bits - 1]) << 1`. */
  method FirstCodes(lengths: seq<nat>, maxBits: nat) returns (nextCode: map<nat, nat>)
    ensures forall b :: 1 <= b <= maxBits ==> b in nextCode
    ensures forall b {:trigger nextCode[b]} | b in nextCode && 1 <= b <= maxBits :: nextCode[b] == FirstCode(lengths, b)
  {
    nextCode := map[];
    var code := 0;
    var bits := 1;
    while bits <= maxBits
      invariant 1 <= bits <= maxBits + 1
      invariant code == FirstCode(lengths, bits - 1)
      invariant forall b :: 1 <= b < bits ==> b in nextCode
      invariant forall b {:trigger nextCode[b]} | b in nextCode && 1 <= b < bits :: nextCode[b] == FirstCode(lengths, b)
    {
      code := (code + BlCount(lengths, bits - 1)) * 2;
      nextCode := nextCode[bits := code];
      bits := bits + 1;
    }
  }

  /** `dict(yield_codes())` for `lengths`: after the first loop, the second
      hands out consecutive codes per length in symbol order, skipping the
      symbols of length 0. */
  method BuildCodes(lengths: seq<nat>) returns (codes: Table)
    requires lengths != []
    ensures codes == CanonicalTable(lengths)
  {
    var maxBits := MaxLength(lengths);
    var nextCode := FirstCodes(lengths, maxBits);
    codes := map[];
    var value := 0;
    while value < |lengths|
      invariant value <= |lengths|
      invariant codes == TableOf(lengths, value)
      invariant forall b :: 1 <= b <= maxBits ==> b in nextCode
      invariant forall b {:trigger nextCode[b]} | b in nextCode && 1 <= b <= maxBits ::
        nextCode[b] == FirstCode(lengths, b) + Count(lengths[..value], b)
    {
      var length := lengths[value];
      forall b | 1 <= b <= maxBits
        ensures Count(lengths[..value + 1], b) == Count(lengths[..value], b) + (if length == b then 1 else 0)
      {
        CountNext(lengths, value, b);
      }
      if length != 0 {
        assert 1 <= length <= maxBits;
        assert nextCode[length] == Code(lengths, value);
        codes := codes[(length, nextCode[length]) := value];
        nextCode := nextCode[length := nextCode[length] + 1];
      }
      value := value + 1;
    }
  }

  /** `get_bits(1)` followed by `ord`: the next stream bit, or TruncatedData
      at the end of the stream. */
  method NextCodeBit(r: Reader) returns (res: Result<Bit>)
    requires r.Valid()
    modifies r
    ensures r.Valid()
    ensures old(r.Pos()) < |StreamBits(r.Data())| ==>
      res == Ok(StreamBits(r.Data())[old(r.Pos())]) && r.Pos() == old(r.Pos()) + 1
    ensures old(r.Pos()) >= |StreamBits(r.Data())| ==> res == Err(TruncatedData)
  {
    ghost var p := r.Pos();
    var bits := r.GetBits(1);
    if bits.Err? {
      return Err(TruncatedData);
    }
    var one := BitsAt(r.Data(), p, 1);
    assert one == [StreamBit(r.Data(), p)];
    assert one[1..] == [];
    StreamBitsAt(r.Data(), p);
    return Ok(bits.value[0]);
  }

  /** One step of Decode on a bit that completes a key of the table. */
  lemma DecodeHit(codes: Table, bits: seq<Bit>, p: nat, length: nat, code: nat, bit: Bit)
    requires p < |bits| && bit == bits[p] && (length + 1, 2 * code + bit) in codes
    ensures Decode(codes, bits, p, length, code) == Ok((codes[(length + 1, 2 * code + bit)], p + 1))
  {
  }

  /** One step of Decode on a bit that does not: the walk goes on. */
  lemma DecodeMiss(codes: Table, bits: seq<Bit>, p: nat, length: nat, code: nat, bit: Bit, d: Result<(nat, nat)>)
    requires p < |bits| && bit == bits[p] && (length + 1, 2 * code + bit) !in codes
    requires Decode(codes, bits, p, length, code) == d
    ensures Decode(codes, bits, p + 1, length + 1, 2 * code + bit) == d
  {
  }

  /** `get_next()`: read bits one at a time into (length, code), first bit
      most significant, until the pair is a key of the table; return its
      symbol. Fails with TruncatedData when the stream runs out first. */
  method GetNext(r: Reader, codes: Table) returns (res: Result<nat>)
    requires r.Valid()
    modifies r
    ensures r.Valid()
    ensures var d := Decode(codes, StreamBits(r.Data()), old(r.Pos()), 0, 0);
      && (d.Ok? ==> res == Ok(d.value.0) && r.Pos() == d.value.1)
      && (d.Err? ==> res == Err(TruncatedData))
  {
    ghost var bits := StreamBits(r.Data());
    ghost var d := Decode(codes, bits, r.Pos(), 0, 0);
    r.ChunkInData();
    var length: nat := 0;
    var code: nat := 0;
    while true
      invariant r.Valid() && r.Pos() <= |bits|
      invariant Decode(codes, bits, r.Pos(), length, code) == d
      decreases |bits| - r.Pos()
    {
      var found;
      found, code := NextCodeRound(r, codes, length, code, d);
      if found.Err? {
        return Err(TruncatedData);
      }
      if found.value.Some? {
        return Ok(found.value.value);
      }
      length := length + 1;
    }
  }

  /** A round of the loop in `get_next`: one more bit appended to `code`,
      then the lookup of (length + 1, code). d is what Decode makes of the
      walk from here. */
  method NextCodeRound(r: Reader, codes: Table, length: nat, code: nat, ghost d: Result<(nat, nat)>)
    returns (found: Result<Option<nat>>, next: nat)
    requires r.Valid() && r.Pos() <= |StreamBits(r.Data())|
    requires Decode(codes, StreamBits(r.Data()), r.Pos(), length, code) == d
    modifies r
    ensures r.Valid() && r.Pos() <= |StreamBits(r.Data())|
    ensures found.Err? ==> d.Err?
    ensures found.Ok? ==> old(r.Pos()) < r.Pos()
    ensures found.Ok? && found.value.Some? ==> d == Ok((found.value.value, r.Pos()))
    ensures found.Ok? && found.value.None? ==> Decode(codes, StreamBits(r.Data()), r.Pos(), length + 1, next) == d
  {
    ghost var bits := StreamBits(r.Data());
    ghost var p := r.Pos();
    var bit := NextCodeBit(r);
    if bit.Err? {
      return Err(TruncatedData), code;
    }
    // code << 1 | bit: the shifted code ends in a 0 digit
    next := 2 * code + bit.value;
    if (length + 1, next) in codes {
      DecodeHit(codes, bits, p, length, code, bit.value);
      return Ok(Some(codes[(length + 1, next)])), next;
    }
    DecodeMiss(codes, bits, p, length, code, bit.value, d);
    return Ok(None), next;
  }
}
