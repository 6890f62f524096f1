/** The bit and byte readers of `get_readers`: a cursor over the chunks the
    input iterator hands out, reading single bits least-significant first and
    whole bytes after skipping to a byte boundary. */
module Readers {
  import opened Wrappers
  import opened Bits

  /** First byte at or after bit position p: where `_yield_bytes` starts once
      it has skipped the rest of a partly read byte. */
  function ByteBoundary(p: nat): (b: nat)
    ensures p <= 8 * b < p + 8
  {
    (p + 7) / 8
  }

  /** What `_get_bits(n)` returns when the reader stands at bit p of the
      stream `data`: the next n bits packed by Pack, or TruncatedData when
      fewer than n bits are left. */
  function ReadBits(data: seq<Byte>, p: nat, n: nat): (r: Result<seq<Byte>>)
    ensures r.Ok? ==> |r.value| == (n + 7) / 8
    ensures r.Err? ==> r.error == TruncatedData
  {
    if p + n <= 8 * |data| then Ok(Pack(BitsAt(data, p, n))) else Err(TruncatedData)
  }

  /** What `_get_bytes(n)` returns at bit p: the n bytes after the next byte
      boundary, or TruncatedData when fewer are left. */
  function ReadBytes(data: seq<Byte>, p: nat, n: nat): (r: Result<seq<Byte>>)
    ensures r.Ok? ==> |r.value| == n
    ensures r.Err? ==> r.error == TruncatedData
  {
    var a := ByteBoundary(p);
    if a + n <= |data| then Ok(data[a..a + n]) else Err(TruncatedData)
  }

  /** Joining a non-empty list of chunks starts with its first chunk. */
  lemma ConcatFront(chunks: seq<seq<Byte>>)
    requires chunks != []
    ensures Concat(chunks) == chunks[0] + Concat(chunks[1..])
  {
    assert chunks == [chunks[0]] + chunks[1..];
    ConcatAppend([chunks[0]], chunks[1..]);
    assert Concat([chunks[0]]) == Concat([]) + chunks[0];
  }

  class Reader {
    /** The chunks the input iterator hands out, in order. */
    const chunks: seq<seq<Byte>>
    /** The longest piece `_yield_bytes` yields (`chunk_size`). */
    const chunkSize: nat
    /** How many chunks `next(it)` has returned so far. */
    var taken: nat
    var chunk: seq<Byte>
    var offsetByte: nat
    var offsetBit: nat
    /** The bytes of the chunks taken before the current one. */
    ghost var before: seq<Byte>

    ghost predicate Valid()
      reads this
    {
      && chunkSize >= 1
      && (forall i :: 0 <= i < |chunks| ==> chunks[i] != [])
      && taken <= |chunks|
      && Data() == before + chunk + Concat(chunks[taken..])
      && offsetByte <= |chunk|
      && offsetBit <= 8
      && (offsetBit > 0 ==> offsetByte < |chunk|)
    }

    /** The whole compressed stream. */
    ghost function Data(): seq<Byte>
    {
      Concat(chunks)
    }

    /** Index in Data(), counted in bits, of the next bit to read. */
    ghost function Pos(): nat
      reads this
    {
      8 * (|before| + offsetByte) + offsetBit
    }

    /** Where the current chunk and the next one sit in Data(). */
    lemma ChunkInData()
      requires Valid()
      ensures |before| + |chunk| <= |Data()|
      ensures chunk == Data()[|before|..|before| + |chunk|]
      ensures taken == |chunks| ==> |before| + |chunk| == |Data()|
      ensures taken < |chunks| ==>
        && Data() == (before + chunk) + chunks[taken] + Concat(chunks[taken + 1..])
        && |before| + |chunk| < |Data()|
      ensures Pos() <= 8 * |Data()|
    {
      if taken < |chunks| {
        ConcatFront(chunks[taken..]);
        assert chunks[taken..][1..] == chunks[taken + 1..];
      } else {
        assert chunks[taken..] == [];
      }
    }

    constructor (chunks: seq<seq<Byte>>, chunkSize: nat)
      requires chunkSize >= 1
      requires forall i :: 0 <= i < |chunks| ==> chunks[i] != []
      ensures Valid() && Pos() == 0
      ensures this.chunks == chunks && this.chunkSize == chunkSize
    {
      this.chunks := chunks;
      this.chunkSize := chunkSize;
      taken := 0;
      chunk := [];
      offsetByte := 0;
      offsetBit := 0;
      before := [];
      new;
      assert chunks[0..] == chunks;
    }

    /** The bit the reader stands on is bit offsetBit of chunk[offsetByte]. */
    lemma BitHere()
      requires Valid() && offsetBit < 8 && offsetByte < |chunk|
      ensures Pos() < 8 * |Data()|
      ensures StreamBit(Data(), Pos()) == Digit(chunk[offsetByte], offsetBit)
    {
      ChunkInData();
      assert Pos() / 8 == |before| + offsetByte && Pos() % 8 == offsetBit;
    }

    /** Take the next chunk (`chunk = next(it)`) once the current one is used up. */
    method NextChunk()
      requires Valid() && offsetByte == |chunk| && offsetBit == 0 && taken < |chunks|
      modifies this
      ensures Valid() && Pos() == old(Pos()) && offsetBit == offsetByte == 0 < |chunk|
    {
      ChunkInData();
      before := before + chunk;
      chunk := chunks[taken];
      taken := taken + 1;
      offsetByte := 0;
    }

    /** The first two steps of each round of `_get_bits`: step past a fully
        read byte and, at the end of the chunk, take the next chunk. Fails
        exactly when the stream has no bit left. */
    method BitReady() returns (ok: bool)
      requires Valid()
      modifies this
      ensures Valid() && Pos() == old(Pos())
      ensures ok <==> Pos() < 8 * |Data()|
      ensures ok ==> offsetBit < 8 && offsetByte < |chunk|
    {
      ChunkInData();
      if offsetBit == 8 {
        offsetBit := 0;
        offsetByte := offsetByte + 1;
      }
      if offsetByte == |chunk| {
        if taken == |chunks| {
          return false;
        }
        NextChunk();
      }
      return true;
    }

    /** One round of the loop in `_get_bits`, short of the write into the
        output: step past a fully read byte, take the next chunk at the end of
        the current one, read the bit and step past it. Fails with
        TruncatedData exactly when the stream has no bit left. */
    method TakeBit(ghost p: nat) returns (r: Result<Bit>)
      requires Valid() && Pos() == p
      modifies this
      ensures Valid()
      ensures r.Ok? <==> p < 8 * |Data()|
      ensures r.Ok? ==> r.value == StreamBit(Data(), p) && Pos() == p + 1
      ensures r.Err? ==> r.error == TruncatedData
    {
      var ok := BitReady();
      if !ok {
        return Err(TruncatedData);
      }
      // (chunk[offset_byte] & 2 ** offset_bit) >> offset_bit
      var bit := Digit(chunk[offsetByte], offsetBit);
      BitHere();
      offsetBit := offsetBit + 1;
      return Ok(bit);
    }

    /** The output buffer of `_get_bits` once the k bits from bit p0 are in:
        those bits packed, then zero bytes. */
    ghost predicate Filled(buf: seq<Byte>, p0: nat, k: nat)
    {
      && p0 + k <= 8 * |Data()| && (k + 7) / 8 <= |buf|
      && buf == Pack(BitsAt(Data(), p0, k)) + Zeros(|buf| - (k + 7) / 8)
    }

    /** A whole round of the loop in `_get_bits`: TakeBit, then or the bit
        into bit k of the output, which holds the k bits read since bit p0. */
    method TakeBitInto(out: array<Byte>, k: nat, ghost p0: nat) returns (ok: bool)
      requires Valid() && Pos() == p0 + k && k < 8 * out.Length && Filled(out[..], p0, k)
      modifies this, out
      ensures Valid()
      ensures ok <==> p0 + k < 8 * |Data()|
      ensures ok ==> Pos() == p0 + k + 1 <= 8 * |Data()|
      ensures ok ==> Filled(out[..], p0, k + 1)
    {
      var bit := TakeBit(p0 + k);
      if bit.Err? {
        return false;
      }
      ghost var bits := BitsAt(Data(), p0, k);
      assert out[..] == Pack(bits) + Zeros(out.Length - (k + 7) / 8);
      SetBit(out, k, bits, bit.value);
      FilledNext(out[..], p0, k, bit.value);
      ChunkInData();
      return true;
    }

    /** The output buffer after bit k from p0 has been or-ed into it. */
    lemma FilledNext(buf: seq<Byte>, p0: nat, k: nat, bit: Bit)
      requires p0 + k < 8 * |Data()| && (k + 8) / 8 <= |buf| && bit == StreamBit(Data(), p0 + k)
      requires buf == Pack(BitsAt(Data(), p0, k) + [bit]) + Zeros(|buf| - (k + 8) / 8)
      ensures Filled(buf, p0, k + 1)
    {
      BitsAtSnoc(Data(), p0, k);
    }

    /** `_get_bits(n)`: the next n bits, bit k of them in byte k / 8 at bit
        k % 8; fails with TruncatedData once the chunks run out. */
    method GetBits(n: nat) returns (r: Result<seq<Byte>>)
      requires Valid()
      modifies this
      ensures Valid()
      ensures r == ReadBits(Data(), old(Pos()), n)
      ensures r.Ok? ==> Pos() == old(Pos()) + n
    {
      ghost var p0 := Pos();
      ChunkInData();
      var out := new Byte[(n + 7) / 8](_ => 0);
      assert out[..] == Pack([]) + Zeros(out.Length);
      var ok := FillBits(out, n, p0);
      if !ok {
        return Err(TruncatedData);
      }
      ghost var packed := Pack(BitsAt(Data(), p0, n));
      NoPadding(packed);
      assert out[..] == packed;
      return Ok(out[..]);
    }

    /** The loop of `_get_bits`: n rounds of TakeBitInto into `out`, which
        starts as zeros; fails when the stream ends first. */
    method FillBits(out: array<Byte>, n: nat, ghost p0: nat) returns (ok: bool)
      requires Valid() && Pos() == p0 <= 8 * |Data()| && out.Length == (n + 7) / 8
      requires Filled(out[..], p0, 0)
      modifies this, out
      ensures Valid()
      ensures ok <==> p0 + n <= 8 * |Data()|
      ensures ok ==> Pos() == p0 + n && Filled(out[..], p0, n)
    {
      var remaining: nat := n;
      var outOffsetBit := 0;
      while remaining > 0
        invariant Valid() && outOffsetBit + remaining == n
        invariant Pos() == p0 + outOffsetBit <= 8 * |Data()|
        invariant Filled(out[..], p0, outOffsetBit)
      {
        ok := TakeBitInto(out, outOffsetBit, p0);
        if !ok {
          return false;
        }
        remaining := remaining - 1;
        outOffsetBit := outOffsetBit + 1;
      }
      assert outOffsetBit == n;
      return true;
    }

    /** The fetch at the top of each round of `_yield_bytes`: at the end of
        the current chunk, take the next one. Fails exactly when no byte is
        left. */
    method ByteReady() returns (ok: bool)
      requires Valid() && offsetBit == 0
      modifies this
      ensures Valid() && offsetBit == 0 && |before| + offsetByte == old(|before| + offsetByte)
      ensures ok <==> |before| + offsetByte < |Data()|
      ensures ok ==> offsetByte < |chunk|
    {
      ChunkInData();
      if offsetByte == |chunk| {
        if taken == |chunks| {
          return false;
        }
        NextChunk();
      }
      return true;
    }

    /** One round of the loop in `_yield_bytes`, standing at byte `at` of the
        stream: at the end of the current chunk take the next one (failing
        with TruncatedData when there is none), then step past the next piece
        (at most `remaining` bytes, at most chunkSize, not past the chunk's
        end) and return it. */
    method NextPiece(remaining: nat, ghost at: nat) returns (r: Result<seq<Byte>>)
      requires Valid() && offsetBit == 0 && |before| + offsetByte == at && remaining > 0
      modifies this
      ensures Valid() && offsetBit == 0
      ensures r.Ok? <==> at < |Data()|
      ensures r.Err? ==> r.error == TruncatedData
      ensures r.Ok? ==>
        && 0 < |r.value| <= remaining && |r.value| <= chunkSize
        && |before| + offsetByte == at + |r.value| <= |Data()|
        && r.value == Data()[at..at + |r.value|]
    {
      var ok := ByteReady();
      if !ok {
        return Err(TruncatedData);
      }
      var toYield := Min(Min(remaining, |chunk| - offsetByte), chunkSize);
      PieceInData(offsetByte, offsetByte + toYield);
      var piece := chunk[offsetByte..offsetByte + toYield];
      offsetByte := offsetByte + toYield;
      return Ok(piece);
    }

    /** The start of `_yield_bytes`: skip the rest of a partly read byte. */
    method AlignToByte()
      requires Valid()
      modifies this
      ensures Valid() && offsetBit == 0
      ensures |before| + offsetByte == ByteBoundary(old(Pos())) <= |Data()|
    {
      ChunkInData();
      if offsetBit != 0 {
        offsetByte := offsetByte + 1;
      }
      offsetBit := 0;
      ChunkInData();
    }

    /** The loop of `_yield_bytes`, from byte `a` of the stream: yield the
        next n bytes in pieces of at most chunkSize bytes. When the chunks run
        out first, the pieces yielded so far hold every byte left, and the
        error is TruncatedData. */
    method YieldAligned(n: nat, ghost a: nat) returns (pieces: seq<seq<Byte>>, err: Option<Error>)
      requires Valid() && offsetBit == 0 && |before| + offsetByte == a <= |Data()|
      modifies this
      ensures Valid()
      ensures err.None? <==> a + n <= |Data()|
      ensures err.None? ==> Concat(pieces) == Data()[a..a + n] && Pos() == 8 * (a + n)
      ensures err.Some? ==> err == Some(TruncatedData) && Concat(pieces) == Data()[a..]
      ensures PiecesWithin(pieces, chunkSize)
    {
      pieces := [];
      var remaining: nat := n;
      while remaining > 0
        invariant Valid() && offsetBit == 0 && remaining <= n
        invariant |before| + offsetByte == a + (n - remaining) <= |Data()|
        invariant Concat(pieces) == Data()[a..a + (n - remaining)]
        invariant PiecesWithin(pieces, chunkSize)
      {
        var ok;
        pieces, remaining, ok := YieldPiece(pieces, remaining, a, a + (n - remaining), n);
        if !ok {
          return pieces, Some(TruncatedData);
        }
      }
      return pieces, None;
    }

    /** A round of the loop in `_yield_bytes`: the next piece, at most
        `remaining` bytes from byte x on, after the pieces yielded so far,
        which hold the bytes from a to x. Fails when x is the end of the
        stream. */
    method YieldPiece(pieces: seq<seq<Byte>>, remaining: nat, ghost a: nat, ghost x: nat, ghost n: nat)
      returns (more: seq<seq<Byte>>, left: nat, ok: bool)
      requires Valid() && offsetBit == 0 && |before| + offsetByte == x <= |Data()|
      requires 0 < remaining <= n && x == a + (n - remaining)
      requires Concat(pieces) == Data()[a..x] && PiecesWithin(pieces, chunkSize)
      modifies this
      ensures Valid() && offsetBit == 0
      ensures ok <==> x < |Data()|
      ensures !ok ==> more == pieces && x == |Data()|
      ensures ok ==> left < remaining && |before| + offsetByte == a + (n - left) <= |Data()|
      ensures ok ==> Concat(more) == Data()[a..a + (n - left)] && PiecesWithin(more, chunkSize)
    {
      var piece := NextPiece(remaining, x);
      if piece.Err? {
        return pieces, remaining, false;
      }
      PiecesWithinSnoc(pieces, piece.value, chunkSize);
      left := remaining - |piece.value|;
      JoinPiece(pieces, piece.value, Data(), a, x, a + (n - left));
      more := pieces + [piece.value];
      ok := true;
    }

    /** `_yield_bytes(n)`: skip the rest of a partly read byte, then yield the
        next n bytes in pieces of at most chunkSize bytes. When the chunks run
        out first, the pieces yielded so far hold every byte left, and the
        error is TruncatedData. */
    method YieldBytes(n: nat) returns (pieces: seq<seq<Byte>>, err: Option<Error>)
      requires Valid()
      modifies this
      ensures Valid()
      ensures var a := ByteBoundary(old(Pos()));
        && a <= |Data()|
        && (err.None? <==> a + n <= |Data()|)
        && (err.None? ==> Concat(pieces) == Data()[a..a + n] && Pos() == 8 * (a + n))
        && (err.Some? ==> err == Some(TruncatedData) && Concat(pieces) == Data()[a..])
      ensures PiecesWithin(pieces, chunkSize)
    {
      AlignToByte();
      pieces, err := YieldAligned(n, |before| + offsetByte);
    }

    /** A slice of the current chunk is the matching slice of the stream. */
    lemma PieceInData(i: nat, j: nat)
      requires Valid() && i <= j <= |chunk|
      ensures |before| + j <= |Data()|
      ensures chunk[i..j] == Data()[|before| + i..|before| + j]
    {
      ChunkInData();
    }

    /** `_get_bytes(n)`: the joined pieces of YieldBytes(n). */
    method GetBytes(n: nat) returns (r: Result<seq<Byte>>)
      requires Valid()
      modifies this
      ensures Valid()
      ensures r == ReadBytes(Data(), old(Pos()), n)
      ensures r.Ok? ==> Pos() == 8 * (ByteBoundary(old(Pos())) + n)
    {
      var pieces, err := YieldBytes(n);
      if err.Some? {
        return Err(err.value);
      }
      return Ok(Concat(pieces));
    }
  }

  /** Pieces holding s[a..x], and then a piece holding the bytes after them,
      hold the slice from a to the end of that piece. */
  lemma JoinPiece(pieces: seq<seq<Byte>>, piece: seq<Byte>, s: seq<Byte>, a: nat, x: nat, y: nat)
    requires a <= x <= y <= |s| && y == x + |piece|
    requires Concat(pieces) == s[a..x] && piece == s[x..y]
    ensures Concat(pieces + [piece]) == s[a..y]
  {
    ConcatSnoc(pieces, piece);
    assert s[a..x] + s[x..y] == s[a..y];
  }

  /** Reading one bit more appends that bit. */
  lemma BitsAtSnoc(data: seq<Byte>, p: nat, n: nat)
    requires p + n < 8 * |data|
    ensures BitsAt(data, p, n + 1) == BitsAt(data, p, n) + [StreamBit(data, p + n)]
  {
  }

  /** The write in `_get_bits`: or bit k of the output with `bit`. The output
      holds the first k bits packed, then zero bytes, so the target bit is 0
      and or-ing is adding. */
  method SetBit(out: array<Byte>, k: nat, ghost bits: seq<Bit>, bit: Bit)
    requires |bits| == k < 8 * out.Length
    requires out[..] == Pack(bits) + Zeros(out.Length - (k + 7) / 8)
    modifies out
    ensures out[..] == Pack(bits + [bit]) + Zeros(out.Length - (k + 8) / 8)
  {
    ghost var before := out[..];
    PackSnocPadded(bits, bit, out.Length);
    ghost var after := Pack(bits + [bit]) + Zeros(out.Length - (k + 8) / 8);
    var updated := out[k / 8] + bit * Pow2(k % 8);
    assert updated == after[k / 8];
    out[k / 8] := updated;
    assert out[..] == before[k / 8 := updated] == after;
  }

  function Min(a: int, b: int): (m: int)
    ensures m <= a && m <= b && (m == a || m == b)
  {
    if a <= b then a else b
  }
}
