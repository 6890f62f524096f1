/** Bytes, bits and the way `_get_bits` packs stream bits into bytes
    (section 3.1.1 of RFC 1951: data elements are packed starting with the
    least-significant bit of each byte). */
module Bits {

  type Byte = b: int | 0 <= b < 256

  type Bit = b: int | 0 <= b < 2

  function Pow2(n: nat): (r: nat)
    ensures r >= 1
  {
    if n == 0 then 1 else 2 * Pow2(n - 1)
  }

  lemma {:induction false} Pow2Monotone(a: nat, b: nat)
    requires a <= b
    ensures Pow2(a) <= Pow2(b)
  {
    if a < b {
      Pow2Monotone(a, b - 1);
    }
  }

  /** x >> k: x with its k lowest binary digits shifted out. */
  function Shift(x: nat, k: nat): nat
  {
    if k == 0 then x else Shift(x / 2, k - 1)
  }

  /** (x >> k) & 1: binary digit k of x. */
  function Digit(x: nat, k: nat): Bit
  {
    Shift(x, k) % 2
  }

  /** Shifting out k digits of a number with at most k digits leaves 0. */
  lemma {:induction false} ShiftSmall(x: nat, k: nat)
    requires x < Pow2(k)
    ensures Shift(x, k) == 0
  {
    if k > 0 {
      ShiftSmall(x / 2, k - 1);
    }
  }

  /** A number at least y * 2^k keeps at least y after shifting out k digits. */
  lemma {:induction false} ShiftLowerBound(x: nat, y: nat, k: nat)
    requires x >= y * Pow2(k)
    ensures Shift(x, k) >= y
  {
    if k > 0 {
      var m := y * Pow2(k - 1);
      assert y * Pow2(k) == 2 * m;
      ShiftLowerBound(x / 2, y, k - 1);
    }
  }

  /** Bit `i` of byte `b`, counting from the least significant bit:
      `(b & 2 ** i) >> i`. */
  function BitOf(b: Byte, i: nat): Bit
    requires i < 8
  {
    Digit(b, i)
  }

  /** Bit `p` of the stream `data`: bit p % 8 of byte p / 8. */
  function StreamBit(data: seq<Byte>, p: nat): Bit
    requires p < 8 * |data|
  {
    BitOf(data[p / 8], p % 8)
  }

  /** The `n` stream bits that start at bit `p`. */
  function BitsAt(data: seq<Byte>, p: nat, n: nat): seq<Bit>
    requires p + n <= 8 * |data|
  {
    seq<Bit>(n, (k: int) requires 0 <= k < n => StreamBit(data, p + k))
  }

  /** The eight bits of one byte, least significant first. */
  function ByteBits(b: Byte): (r: seq<Bit>)
    ensures |r| == 8
  {
    seq(8, (i: int) requires 0 <= i < 8 => BitOf(b, i))
  }

  /** The whole stream as bits, in the order they are read: byte by byte,
      least significant bit of each byte first. */
  function StreamBits(data: seq<Byte>): (r: seq<Bit>)
    ensures |r| == 8 * |data|
  {
    if data == [] then [] else StreamBits(data[..|data| - 1]) + ByteBits(data[|data| - 1])
  }

  lemma {:induction false} StreamBitsAt(data: seq<Byte>, p: nat)
    requires p < 8 * |data|
    ensures StreamBits(data)[p] == StreamBit(data, p)
  {
    var init := data[..|data| - 1];
    if p < 8 * |init| {
      StreamBitsAt(init, p);
      assert init[p / 8] == data[p / 8];
    } else {
      assert p / 8 == |init| && p % 8 == p - 8 * |init|;
    }
  }

  /** The number whose binary digits are `bits`, least significant first. */
  function LsbValue(bits: seq<Bit>): (v: nat)
    ensures v < Pow2(|bits|)
  {
    if bits == [] then 0 else bits[0] + 2 * LsbValue(bits[1..])
  }

  /** The number whose binary digits are `bits`, most significant first: how a
      Huffman code is accumulated by `code = (code << 1) | bit`. */
  function MsbValue(bits: seq<Bit>): (v: nat)
    ensures v < Pow2(|bits|)
  {
    if bits == [] then 0 else 2 * MsbValue(bits[..|bits| - 1]) + bits[|bits| - 1]
  }

  function Zeros(n: nat): seq<Byte>
  {
    seq(n, _ => 0)
  }

  /** No padding after the packed bytes once every bit is in. */
  lemma NoPadding(packed: seq<Byte>)
    ensures packed + Zeros(0) == packed
  {
    assert Zeros(0) == [];
  }

  /** The bytes `_get_bits` returns for `bits`: bit k lands in byte k / 8 at
      position k % 8; the unused high bits of the last byte stay 0. */
  function Pack(bits: seq<Bit>): (out: seq<Byte>)
    ensures |out| == (|bits| + 7) / 8
  {
    if bits == [] then []
    else if |bits| <= 8 then
      Pow2Monotone(|bits|, 8);
      [LsbValue(bits)]
    else
      [LsbValue(bits[..8])] + Pack(bits[8..])
  }

  /** `int.from_bytes(bs, byteorder='big')`. */
  function FromBytesBig(bs: seq<Byte>): nat
  {
    if bs == [] then 0 else FromBytesBig(bs[..|bs| - 1]) * 256 + bs[|bs| - 1]
  }

  /** `chr(v).encode()`: the UTF-8 encoding of code point v < 256, one byte
      below 128 and two bytes (0xC2 or 0xC3, then a continuation byte) above. */
  function Utf8(v: nat): (r: seq<Byte>)
    requires v < 256
    ensures v < 128 ==> r == [v]
    ensures v >= 128 ==> |r| == 2 && 0xC2 <= r[0] <= 0xC3 && 0x80 <= r[1] < 0xC0
    ensures v >= 128 ==> (r[0] - 0xC0) * 64 + (r[1] - 0x80) == v
  {
    if v < 128 then [v] else [0xC0 + v / 64, 0x80 + v % 64]
  }

  /** Concatenation of a sequence of pieces: `b''.join(pieces)`. */
  function Concat(pieces: seq<seq<Byte>>): seq<Byte>
  {
    if pieces == [] then [] else Concat(pieces[..|pieces| - 1]) + pieces[|pieces| - 1]
  }

  lemma {:induction false} ConcatAppend(a: seq<seq<Byte>>, b: seq<seq<Byte>>)
    ensures Concat(a + b) == Concat(a) + Concat(b)
  {
    if b != [] {
      assert (a + b)[..|a + b| - 1] == a + b[..|b| - 1];
      ConcatAppend(a, b[..|b| - 1]);
    } else {
      assert a + b == a;
    }
  }

  lemma ConcatSnoc(a: seq<seq<Byte>>, x: seq<Byte>)
    ensures Concat(a + [x]) == Concat(a) + x
  {
    assert (a + [x])[..|a|] == a;
  }

  /** Every piece is non-empty and at most `size` bytes long. */
  predicate PiecesWithin(pieces: seq<seq<Byte>>, size: nat)
  {
    pieces == [] || (PiecesWithin(pieces[..|pieces| - 1], size) && 0 < |pieces[|pieces| - 1]| <= size)
  }

  lemma PiecesWithinSnoc(pieces: seq<seq<Byte>>, piece: seq<Byte>, size: nat)
    requires PiecesWithin(pieces, size) && 0 < |piece| <= size
    ensures PiecesWithin(pieces + [piece], size)
  {
    assert (pieces + [piece])[..|pieces|] == pieces;
  }

  /** PiecesWithin, piece by piece. */
  lemma {:induction false} PiecesWithinAt(pieces: seq<seq<Byte>>, size: nat, i: nat)
    requires PiecesWithin(pieces, size) && i < |pieces|
    ensures 0 < |pieces[i]| <= size
  {
    if i < |pieces| - 1 {
      PiecesWithinAt(pieces[..|pieces| - 1], size, i);
    }
  }

  // ---- properties of the packing ----

  /** Appending a bit at the most-significant end adds it at weight 2^|bits|. */
  lemma {:induction false} LsbValueSnoc(bits: seq<Bit>, b: Bit)
    ensures LsbValue(bits + [b]) == LsbValue(bits) + b * Pow2(|bits|)
  {
    if bits != [] {
      assert (bits + [b])[1..] == bits[1..] + [b];
      LsbValueSnoc(bits[1..], b);
    }
  }

  /** Digit k of LsbValue(bits) is bits[k]; digits beyond the sequence are 0. */
  lemma {:induction false} LsbValueDigit(bits: seq<Bit>, k: nat)
    ensures Digit(LsbValue(bits), k) == if k < |bits| then bits[k] else 0
  {
    if bits == [] {
      ShiftSmall(0, k);
    } else {
      var v := LsbValue(bits);
      assert v == bits[0] + 2 * LsbValue(bits[1..]);
      if k == 0 {
        assert Digit(v, 0) == v % 2;
      } else {
        assert v / 2 == LsbValue(bits[1..]);
        assert Digit(v, k) == Digit(v / 2, k - 1);
        LsbValueDigit(bits[1..], k - 1);
      }
    }
  }

  /** The k-th bit given to `_get_bits` lands in output byte k / 8 at bit
      k % 8; every padding bit of the last byte is 0. */
  lemma {:induction false} PackBitAt(bits: seq<Bit>, k: nat)
    requires k < 8 * |Pack(bits)|
    ensures BitOf(Pack(bits)[k / 8], k % 8) == if k < |bits| then bits[k] else 0
  {
    if |bits| <= 8 {
      LsbValueDigit(bits, k);
    } else if k < 8 {
      LsbValueDigit(bits[..8], k);
    } else {
      PackBitAt(bits[8..], k - 8);
      assert Pack(bits)[k / 8] == Pack(bits[8..])[(k - 8) / 8];
    }
  }

  /** Reading the bits of a packed stream back gives the bits. */
  lemma PackStreamBit(bits: seq<Bit>, p: nat)
    requires p < |bits|
    ensures p < 8 * |Pack(bits)| && StreamBit(Pack(bits), p) == bits[p]
  {
    PackBitAt(bits, p);
  }

  /** What appending one bit does to the packed bytes: a new byte holding it
      when the last byte is full, otherwise it is added at weight 2^(|bits| % 8)
      to the last byte. */
  lemma {:induction false} PackSnoc(bits: seq<Bit>, b: Bit)
    ensures |bits| % 8 == 0 ==> Pack(bits + [b]) == Pack(bits) + [b]
    ensures |bits| % 8 != 0 ==>
      && |Pack(bits + [b])| == |Pack(bits)| == |bits| / 8 + 1
      && Pack(bits + [b])[..|bits| / 8] == Pack(bits)[..|bits| / 8]
      && Pack(bits + [b])[|bits| / 8] == Pack(bits)[|bits| / 8] + b * Pow2(|bits| % 8)
  {
    if |bits| <= 8 {
      PackSnocShort(bits, b);
    } else {
      var tail := bits[8..];
      var head := LsbValue(bits[..8]);
      assert (bits + [b])[..8] == bits[..8];
      assert (bits + [b])[8..] == tail + [b];
      PackSnoc(tail, b);
      assert Pack(bits) == [head] + Pack(tail);
      assert Pack(bits + [b]) == [head] + Pack(tail + [b]);
      assert |bits| / 8 == |tail| / 8 + 1 && |bits| % 8 == |tail| % 8;
      if |bits| % 8 != 0 {
        assert Pack(bits + [b])[..|bits| / 8] == [head] + Pack(tail + [b])[..|tail| / 8];
        assert Pack(bits)[..|bits| / 8] == [head] + Pack(tail)[..|tail| / 8];
      }
    }
  }

  /** PackSnoc for at most one byte of bits. */
  lemma PackSnocShort(bits: seq<Bit>, b: Bit)
    requires |bits| <= 8
    ensures |bits| % 8 == 0 ==> Pack(bits + [b]) == Pack(bits) + [b]
    ensures |bits| % 8 != 0 ==>
      && |Pack(bits + [b])| == |Pack(bits)| == |bits| / 8 + 1
      && Pack(bits + [b])[..|bits| / 8] == Pack(bits)[..|bits| / 8]
      && Pack(bits + [b])[|bits| / 8] == Pack(bits)[|bits| / 8] + b * Pow2(|bits| % 8)
  {
    if bits == [] {
      assert Pack([b]) == [LsbValue([b])];
    } else if |bits| < 8 {
      LsbValueSnoc(bits, b);
      assert Pack(bits + [b]) == [LsbValue(bits + [b])];
    } else {
      assert (bits + [b])[..8] == bits;
      assert (bits + [b])[8..] == [b];
      assert Pack([b]) == [LsbValue([b])];
    }
  }

    /** Writing into the packed part of a padded buffer leaves the padding. */
  lemma UpdateBeforePadding(p: seq<Byte>, z: seq<Byte>, k: nat, v: Byte)
    requires k < |p|
    ensures (p + z)[k := v] == p[k := v] + z
  {
  }

  /** Writing into the first padding byte extends the packed part. */
  lemma UpdateFirstPadding(p: seq<Byte>, m: nat, v: Byte)
    requires m > 0
    ensures |p + Zeros(m)| == |p| + m
    ensures (p + Zeros(m))[|p| := v] == p + [v] + Zeros(m - 1)
  {
    assert Zeros(m) == [0] + Zeros(m - 1);
  }

  /** Two sequences of the same length that agree up to the last element. */
  lemma LastDiffers(p: seq<Byte>, q: seq<Byte>)
    requires |p| == |q| > 0 && p[..|p| - 1] == q[..|q| - 1]
    ensures q == p[|p| - 1 := q[|q| - 1]]
  {
    assert forall i :: 0 <= i < |p| - 1 ==> p[..|p| - 1][i] == p[i] && q[..|q| - 1][i] == q[i];
  }

  /** PackSnoc on an output buffer of `size` bytes that is zero past the
      packed bits, as in `_get_bits`: appending a bit adds it into one byte. */
  lemma PackSnocPadded(bits: seq<Bit>, b: Bit, size: nat)
    requires (|bits| + 8) / 8 <= size
    ensures var before := Pack(bits) + Zeros(size - (|bits| + 7) / 8);
            var after := Pack(bits + [b]) + Zeros(size - (|bits| + 8) / 8);
            |before| == size && |after| == size && |bits| / 8 < size &&
            after == before[|bits| / 8 := before[|bits| / 8] + b * Pow2(|bits| % 8)]
  {
    PackSnoc(bits, b);
    var k := |bits| / 8;
    if |bits| % 8 == 0 {
      UpdateFirstPadding(Pack(bits), size - (|bits| + 7) / 8, b);
    } else {
      var v := Pack(bits)[k] + b * Pow2(|bits| % 8);
      LastDiffers(Pack(bits), Pack(bits + [b]));
      UpdateBeforePadding(Pack(bits), Zeros(size - (|bits| + 7) / 8), k, v);
      assert (|bits| + 8) / 8 == (|bits| + 7) / 8;
    }
  }

  /** Up to 8 bits become one byte and `int.from_bytes` reads it back as the
      least-significant-first value RFC 1951 intends. */
  lemma ExtraBitsUpToEight(bits: seq<Bit>)
    requires |bits| <= 8
    ensures FromBytesBig(Pack(bits)) == LsbValue(bits)
  {
    if bits != [] {
      assert Pack(bits) == [LsbValue(bits)];
      assert Pack(bits)[..0] == [];
    }
  }

  /** The value of a concatenation: the second part's digits weigh 2^n more. */
  lemma {:induction false} LsbValueSplit(bits: seq<Bit>, n: nat)
    requires n <= |bits|
    ensures LsbValue(bits) == LsbValue(bits[..n]) + Pow2(n) * LsbValue(bits[n..])
  {
    if n > 0 {
      var rest := bits[1..];
      assert rest[..n - 1] == bits[1..n] == bits[..n][1..];
      assert rest[n - 1..] == bits[n..];
      LsbValueSplit(rest, n - 1);
      Distribute(bits[0], LsbValue(bits[1..n]), Pow2(n - 1), LsbValue(bits[n..]));
    }
  }

  lemma Distribute(b: int, a: int, p: int, c: int)
    ensures b + 2 * (a + p * c) == (b + 2 * a) + (2 * p) * c
  {
  }

  /** Nine to sixteen bits pack into two bytes: the first eight, then the rest. */
  lemma PackTwoBytes(bits: seq<Bit>)
    requires 8 < |bits| <= 16
    ensures Pack(bits) == [LsbValue(bits[..8]), LsbValue(bits[8..])]
  {
    var hi := bits[8..];
    Pow2Monotone(|hi|, 8);
    assert Pack(hi) == [LsbValue(hi)];
  }

  /** Two bytes read big-endian: the first is the high byte. */
  lemma FromBytesBigTwo(x: Byte, y: Byte)
    ensures FromBytesBig([x, y]) == x * 256 + y
  {
    assert [x, y][..1] == [x];
    assert [x][..0] == [];
    assert FromBytesBig([x]) == x;
  }

  /** For 9 to 16 bits `int.from_bytes(..., byteorder='big')` puts the first
      eight stream bits in the HIGH byte, whereas section 3.1.1 of RFC 1951 gives
      them the low weights. */
  lemma ExtraBitsBigEndian(bits: seq<Bit>)
    requires 8 < |bits| <= 16
    ensures FromBytesBig(Pack(bits)) == LsbValue(bits[..8]) * 256 + LsbValue(bits[8..])
    ensures LsbValue(bits) == LsbValue(bits[..8]) + 256 * LsbValue(bits[8..])
  {
    PackTwoBytes(bits);
    var p := Pack(bits);
    assert p == [p[0], p[1]];
    FromBytesBigTwo(p[0], p[1]);
    assert Pow2(8) == 256;
    LsbValueSplit(bits, 8);
  }
}
