/** The constant tables of `stream_inflate`: the code lengths of the fixed
    Huffman codes (section 3.2.6 of RFC 1951) and the (extra bits, base)
    pairs of the length and distance codes (section 3.2.5). */
module Tables {
  import opened Bits
  import opened Huffman

  /** `(l,) * n`. */
  function Repeat(l: nat, n: nat): (r: seq<nat>)
    ensures |r| == n && forall i :: 0 <= i < n ==> r[i] == l
  {
    seq(n, _ => l)
  }

  /** `fixed_lengths`: literal/length symbols 0-287. */
  const FixedLengths: seq<nat> := Repeat(8, 144) + Repeat(9, 112) + Repeat(7, 24) + Repeat(8, 8)

  /** `fixed_distances`: distance symbols 0-31. */
  const FixedDistances: seq<nat> := Repeat(5, 32)

  /** `lengths_extra_bits_diffs`: (extra bits, base length) of symbols 257-285. */
  const LengthsExtraBitsDiffs: seq<(nat, nat)> := [
        (0, 3), (0, 4), (0, 5), (0, 6), (0, 7), (0, 8), (0, 9), (0, 10),
        (1, 11), (1, 13), (1, 15), (1, 17),
        (2, 19), (2, 23), (2, 27), (2, 31),
        (3, 35), (3, 43), (3, 51), (3, 59),
        (4, 67), (4, 83), (4, 99), (4, 115),
        (5, 131), (5, 163), (5, 195), (5, 227),
        (0, 258)
  ]

  /** `distances_extra_bits_diffs`: (extra bits, base distance) of distance
      codes 0-29. */
  const DistancesExtraBitsDiffs: seq<(nat, nat)> := [
        (0, 1), (0, 2), (0, 3), (0, 4),
        (1, 5), (1, 7), (2, 9), (2, 13),
        (3, 17), (3, 25), (4, 33), (4, 49),
        (5, 65), (5, 97), (6, 129), (6, 193),
        (7, 257), (7, 385), (8, 513), (8, 769),
        (9, 1025), (9, 1537), (10, 2049), (10, 3073),
        (11, 4097), (11, 6145), (12, 8193), (12, 12289),
        (13, 16385), (13, 24577)
  ]

  /** The fixed literal/length code of section 3.2.6 of RFC 1951, written out
      range by range: (code length, code) of symbol v. */
  function RfcFixedCode(v: nat): (nat, nat)
    requires v < 288
  {
    if v < 144 then (8, 0x30 + v)
    else if v < 256 then (9, 0x190 + (v - 144))
    else if v < 280 then (7, v - 256)
    else (8, 0xC0 + (v - 280))
  }

  // ---- counting the fixed lengths ----

  lemma {:induction false} CountRepeat(x: nat, n: nat, l: nat)
    ensures Count(Repeat(x, n), l) == if x == l then n else 0
  {
    if n > 0 {
      assert Repeat(x, n)[..n - 1] == Repeat(x, n - 1);
      CountRepeat(x, n - 1, l);
    }
  }

  /** How many fixed literal/length symbols have each length: 24 of length 7,
      152 of length 8, 112 of length 9. */
  lemma FixedLengthCounts(l: nat)
    ensures Count(FixedLengths, l) == if l == 7 then 24 else if l == 8 then 152 else if l == 9 then 112 else 0
  {
    var a, b, c, d := Repeat(8, 144), Repeat(9, 112), Repeat(7, 24), Repeat(8, 8);
    CountAppend(a + b + c, d, l);
    CountAppend(a + b, c, l);
    CountAppend(a, b, l);
    CountRepeat(8, 144, l);
    CountRepeat(9, 112, l);
    CountRepeat(7, 24, l);
    CountRepeat(8, 8, l);
  }

  /** `next_code` after the first loop of `yield_codes` for the fixed
      lengths: 0 for length 7, 0x30 for length 8, 0x190 for length 9. */
  lemma FixedFirstCodes()
    ensures FirstCode(FixedLengths, 7) == 0
    ensures FirstCode(FixedLengths, 8) == 0x30
    ensures FirstCode(FixedLengths, 9) == 0x190
  {
    FixedLengthCounts(1);
    FixedLengthCounts(2);
    FixedLengthCounts(3);
    FixedLengthCounts(4);
    FixedLengthCounts(5);
    FixedLengthCounts(6);
    FixedLengthCounts(7);
    FixedLengthCounts(8);
    assert FirstCode(FixedLengths, 1) == 0;
    assert FirstCode(FixedLengths, 2) == 0;
    assert FirstCode(FixedLengths, 3) == 0;
    assert FirstCode(FixedLengths, 4) == 0;
    assert FirstCode(FixedLengths, 5) == 0;
    assert FirstCode(FixedLengths, 6) == 0;
  }

  /** `yield_codes` on the fixed lengths gives every symbol the code of
      section 3.2.6 of RFC 1951. */
  lemma FixedCodeIsRfc(v: nat)
    requires v < 288
    ensures (FixedLengths[v], Code(FixedLengths, v)) == RfcFixedCode(v)
  {
    var a, b, c := Repeat(8, 144), Repeat(9, 112), Repeat(7, 24);
    var l := FixedLengths[v];
    FixedFirstCodes();
    if v < 144 {
      assert FixedLengths[..v] == Repeat(8, v);
      CountRepeat(8, v, l);
    } else if v < 256 {
      assert FixedLengths[..v] == a + Repeat(9, v - 144);
      CountAppend(a, Repeat(9, v - 144), l);
      CountRepeat(8, 144, l);
      CountRepeat(9, v - 144, l);
    } else if v < 280 {
      assert FixedLengths[..v] == (a + b) + Repeat(7, v - 256);
      CountAppend(a + b, Repeat(7, v - 256), l);
      CountAppend(a, b, l);
      CountRepeat(8, 144, l);
      CountRepeat(9, 112, l);
      CountRepeat(7, v - 256, l);
    } else {
      assert FixedLengths[..v] == (a + b + c) + Repeat(8, v - 280);
      CountAppend(a + b + c, Repeat(8, v - 280), l);
      CountAppend(a + b, c, l);
      CountAppend(a, b, l);
      CountRepeat(8, 144, l);
      CountRepeat(9, 112, l);
      CountRepeat(7, 24, l);
      CountRepeat(8, v - 280, l);
    }
  }

  /** The table `get_huffman_decoder(get_bits, fixed_lengths)` builds is the
      fixed code of RFC 1951, both ways: every symbol under its RFC code and
      no other key. In particular literal 0 is the 8-bit code 0x30 and
      end-of-block (256) the 7-bit code 0. */
  lemma FixedTable()
    ensures forall v :: 0 <= v < 288 ==>
      RfcFixedCode(v) in CanonicalTable(FixedLengths) && CanonicalTable(FixedLengths)[RfcFixedCode(v)] == v
    ensures forall key :: key in CanonicalTable(FixedLengths) ==>
      CanonicalTable(FixedLengths)[key] < 288 && RfcFixedCode(CanonicalTable(FixedLengths)[key]) == key
    ensures (8, 0x30) in CanonicalTable(FixedLengths) && CanonicalTable(FixedLengths)[(8, 0x30)] == 0
    ensures (7, 0) in CanonicalTable(FixedLengths) && CanonicalTable(FixedLengths)[(7, 0)] == 256
  {
    CanonicalTableEntries(FixedLengths);
    forall v | 0 <= v < 288
      ensures RfcFixedCode(v) in CanonicalTable(FixedLengths) && CanonicalTable(FixedLengths)[RfcFixedCode(v)] == v
    {
      FixedCodeIsRfc(v);
    }
    forall key | key in CanonicalTable(FixedLengths)
      ensures CanonicalTable(FixedLengths)[key] < 288 && RfcFixedCode(CanonicalTable(FixedLengths)[key]) == key
    {
      FixedCodeIsRfc(CanonicalTable(FixedLengths)[key]);
    }
    assert RfcFixedCode(0) == (8, 0x30);
    assert RfcFixedCode(256) == (7, 0);
  }

  /** The fixed literal/length code is complete: its lengths fill the code
      space exactly (sum of 2^-length is 1). */
  lemma FixedLengthsComplete()
    ensures KraftHolds(FixedLengths) && Kraft(FixedLengths, MaxLength(FixedLengths)) == Pow2(MaxLength(FixedLengths))
  {
    assert FixedLengths[143] == 8 && FixedLengths[144] == 9;
    FixedLengthCounts(1);
    FixedLengthCounts(2);
    FixedLengthCounts(3);
    FixedLengthCounts(4);
    FixedLengthCounts(5);
    FixedLengthCounts(6);
    FixedLengthCounts(7);
    FixedLengthCounts(8);
    FixedLengthCounts(9);
    assert MaxLength(FixedLengths) == 9;
    assert Kraft(FixedLengths, 1) == 0;
    assert Kraft(FixedLengths, 2) == 0;
    assert Kraft(FixedLengths, 3) == 0;
    assert Kraft(FixedLengths, 4) == 0;
    assert Kraft(FixedLengths, 5) == 0;
    assert Kraft(FixedLengths, 6) == 0;
    assert Kraft(FixedLengths, 7) == 24;
    assert Kraft(FixedLengths, 8) == 200;
    assert Pow2(9) == 512;
  }

  /** `yield_codes` on the fixed distance lengths: code v is v itself. */
  lemma FixedDistanceCode(v: nat)
    requires v < 32
    ensures FixedDistances[v] == 5 && Code(FixedDistances, v) == v
  {
    CountRepeat(5, 32, 1);
    CountRepeat(5, 32, 2);
    CountRepeat(5, 32, 3);
    CountRepeat(5, 32, 4);
    assert FirstCode(FixedDistances, 1) == 0;
    assert FirstCode(FixedDistances, 2) == 0;
    assert FirstCode(FixedDistances, 3) == 0;
    assert FirstCode(FixedDistances, 4) == 0;
    assert FirstCode(FixedDistances, 5) == 0;
    assert FixedDistances[..v] == Repeat(5, v);
    CountRepeat(5, v, 5);
  }

  /** The fixed distance table: distance code v is the 5-bit code v, there
      is no other key, and the 32 codes fill the 5-bit code space. */
  lemma FixedDistanceTable()
    ensures forall v :: 0 <= v < 32 ==>
      (5, v) in CanonicalTable(FixedDistances) && CanonicalTable(FixedDistances)[(5, v)] == v
    ensures forall key :: key in CanonicalTable(FixedDistances) ==> key.0 == 5 && key.1 < 32
    ensures KraftHolds(FixedDistances) && Kraft(FixedDistances, 5) == Pow2(5)
  {
    CanonicalTableEntries(FixedDistances);
    forall v | 0 <= v < 32
      ensures (5, v) in CanonicalTable(FixedDistances) && CanonicalTable(FixedDistances)[(5, v)] == v
    {
      FixedDistanceCode(v);
    }
    forall key | key in CanonicalTable(FixedDistances)
      ensures key.0 == 5 && key.1 < 32
    {
      FixedDistanceCode(CanonicalTable(FixedDistances)[key]);
    }
    CountRepeat(5, 32, 1);
    CountRepeat(5, 32, 2);
    CountRepeat(5, 32, 3);
    CountRepeat(5, 32, 4);
    CountRepeat(5, 32, 5);
    assert MaxLength(FixedDistances) == 5 by {
      assert FixedDistances[0] == 5;
    }
    assert Kraft(FixedDistances, 4) == 0;
  }

  // ---- the length and distance tables ----

  /** The powers of two the extra-bit counts of the tables stand for. */
  lemma Pow2Table()
    ensures Pow2(0) == 1 && Pow2(1) == 2 && Pow2(2) == 4 && Pow2(3) == 8 && Pow2(4) == 16
    ensures Pow2(5) == 32 && Pow2(6) == 64 && Pow2(7) == 128 && Pow2(8) == 256 && Pow2(9) == 512
    ensures Pow2(10) == 1024 && Pow2(11) == 2048 && Pow2(12) == 4096 && Pow2(13) == 8192
  {
  }

  /** Each row of `lengths_extra_bits_diffs` covers lengths inside 3..258
      with at most 5 extra bits. */
  lemma LengthRow(i: nat)
    requires i < |LengthsExtraBitsDiffs|
    ensures var (extra, diff) := LengthsExtraBitsDiffs[i];
      extra <= 5 && 3 <= diff && diff + Pow2(extra) - 1 <= 258
  {
    Pow2Table();
    // one case per row
    if i < 15 {
      if i == 0 {}
      else if i == 1 {}
      else if i == 2 {}
      else if i == 3 {}
      else if i == 4 {}
      else if i == 5 {}
      else if i == 6 {}
      else if i == 7 {}
      else if i == 8 {}
      else if i == 9 {}
      else if i == 10 {}
      else if i == 11 {}
      else if i == 12 {}
      else if i == 13 {}
    } else {
      if i == 15 {}
      else if i == 16 {}
      else if i == 17 {}
      else if i == 18 {}
      else if i == 19 {}
      else if i == 20 {}
      else if i == 21 {}
      else if i == 22 {}
      else if i == 23 {}
      else if i == 24 {}
      else if i == 25 {}
      else if i == 26 {}
      else if i == 27 {}
      else if i == 28 {}
    }
  }

  /** The rows of `lengths_extra_bits_diffs` of symbols 257-284 follow each
      other without gap or overlap: together they cover 3..258 once. */
  lemma LengthRowsAdjacent(i: nat)
    requires i + 1 < 28
    ensures var (extra, diff) := LengthsExtraBitsDiffs[i];
      diff + Pow2(extra) == LengthsExtraBitsDiffs[i + 1].1
  {
    Pow2Table();
    // one case per row
    if i < 14 {
      if i == 0 {}
      else if i == 1 {}
      else if i == 2 {}
      else if i == 3 {}
      else if i == 4 {}
      else if i == 5 {}
      else if i == 6 {}
      else if i == 7 {}
      else if i == 8 {}
      else if i == 9 {}
      else if i == 10 {}
      else if i == 11 {}
      else if i == 12 {}
    } else {
      if i == 14 {}
      else if i == 15 {}
      else if i == 16 {}
      else if i == 17 {}
      else if i == 18 {}
      else if i == 19 {}
      else if i == 20 {}
      else if i == 21 {}
      else if i == 22 {}
      else if i == 23 {}
      else if i == 24 {}
      else if i == 25 {}
      else if i == 26 {}
    }
  }

  /** Each row of `distances_extra_bits_diffs` covers distances inside
      1..32768 with at most 13 extra bits. */
  lemma DistanceRow(i: nat)
    requires i < |DistancesExtraBitsDiffs|
    ensures var (extra, diff) := DistancesExtraBitsDiffs[i];
      extra <= 13 && 1 <= diff && diff + Pow2(extra) - 1 <= 32768
  {
    Pow2Table();
    // one case per row
    if i < 15 {
      if i == 0 {}
      else if i == 1 {}
      else if i == 2 {}
      else if i == 3 {}
      else if i == 4 {}
      else if i == 5 {}
      else if i == 6 {}
      else if i == 7 {}
      else if i == 8 {}
      else if i == 9 {}
      else if i == 10 {}
      else if i == 11 {}
      else if i == 12 {}
      else if i == 13 {}
    } else {
      if i == 15 {}
      else if i == 16 {}
      else if i == 17 {}
      else if i == 18 {}
      else if i == 19 {}
      else if i == 20 {}
      else if i == 21 {}
      else if i == 22 {}
      else if i == 23 {}
      else if i == 24 {}
      else if i == 25 {}
      else if i == 26 {}
      else if i == 27 {}
      else if i == 28 {}
      else if i == 29 {}
    }
  }

  /** The rows of `distances_extra_bits_diffs` follow each other without gap
      or overlap: together they cover 1..32768 once. */
  lemma DistanceRowsAdjacent(i: nat)
    requires i + 1 < |DistancesExtraBitsDiffs|
    ensures var (extra, diff) := DistancesExtraBitsDiffs[i];
      diff + Pow2(extra) == DistancesExtraBitsDiffs[i + 1].1
  {
    Pow2Table();
    // one case per row
    if i < 15 {
      if i == 0 {}
      else if i == 1 {}
      else if i == 2 {}
      else if i == 3 {}
      else if i == 4 {}
      else if i == 5 {}
      else if i == 6 {}
      else if i == 7 {}
      else if i == 8 {}
      else if i == 9 {}
      else if i == 10 {}
      else if i == 11 {}
      else if i == 12 {}
      else if i == 13 {}
    } else {
      if i == 15 {}
      else if i == 16 {}
      else if i == 17 {}
      else if i == 18 {}
      else if i == 19 {}
      else if i == 20 {}
      else if i == 21 {}
      else if i == 22 {}
      else if i == 23 {}
      else if i == 24 {}
      else if i == 25 {}
      else if i == 26 {}
      else if i == 27 {}
      else if i == 28 {}
    }
  }
}
