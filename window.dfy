/** The backwards cache of `get_backwards_cache(size)`: the last `size` bytes
    that went through `via_cache`, from which `from_cache` copies earlier
    output forwards (the LZ77 back-reference of section 3.2.5 of RFC 1951). */
module BackwardsCache {
  import opened Wrappers
  import opened Bits

  /** `s[-size:]` in Python: the last `size` elements, or all of s when it is
      shorter; `s[-0:]` is the whole of s. */
  function Last(s: seq<Byte>, size: nat): (r: seq<Byte>)
    ensures size > 0 ==> |r| <= size
    ensures |r| <= |s| && r == s[|s| - |r|..]
    ensures |r| == if 0 < size < |s| then size else |s|
  {
    if 0 < size < |s| then s[|s| - size..] else s
  }

  /** Trimming the cache after every chunk keeps the same bytes as trimming
      once after all of them. */
  lemma LastLast(a: seq<Byte>, b: seq<Byte>, size: nat)
    ensures Last(Last(a, size) + b, size) == Last(a + b, size)
  {
    var la := Last(a, size);
    var n := |Last(la + b, size)|;
    assert n == |Last(a + b, size)|;
    assert (la + b)[|la + b| - n..] == (a + b)[|a + b| - n..];
  }

  /** The `length` bytes a back-reference reaching `|w|` bytes back produces
      when `w` is the part of the output it starts from: w repeated as often
      as needed, the last copy cut short. */
  function Periodic(w: seq<Byte>, length: nat): (r: seq<Byte>)
    requires |w| > 0
    ensures |r| == length
    decreases length
  {
    if length <= |w| then w[..length] else w + Periodic(w, length - |w|)
  }

  /** Byte i of w repeated for ever: byte i mod |w| of w. */
  function Cycle(w: seq<Byte>, i: nat): Byte
    requires |w| > 0
    decreases i
  {
    if i < |w| then w[i] else Cycle(w, i - |w|)
  }

  /** Periodic(w, length) is the first `length` bytes of w repeated for ever. */
  lemma {:induction false} PeriodicAt(w: seq<Byte>, length: nat, i: nat)
    requires |w| > 0 && i < length
    ensures Periodic(w, length)[i] == Cycle(w, i)
    decreases length
  {
    if length > |w| && i >= |w| {
      PeriodicAt(w, length - |w|, i - |w|);
    }
  }

  /** One round of the loop in `from_cache`: a repetition starts with
      `chunk[:length]` and goes on with the repetition of what is left. */
  lemma PeriodicStep(w: seq<Byte>, length: nat)
    requires |w| > 0 && length > 0
    ensures var k := if length <= |w| then length else |w|;
      Periodic(w, length) == w[..k] + Periodic(w, length - k)
  {
    if length <= |w| {
      assert Periodic(w, 0) == [];
    } else {
      assert w[..|w|] == w;
    }
  }

  /** Byte-by-byte LZ77 copy, the reference reading of section 3.2.3 of
      RFC 1951: append, `length` times, the byte `dist` back from the end. */
  function CopyBack(out: seq<Byte>, dist: nat, length: nat): (r: seq<Byte>)
    requires 0 < dist <= |out|
    ensures |r| == |out| + length
  {
    if length == 0 then out
    else
      var o := CopyBack(out, dist, length - 1);
      o + [o[|o| - dist]]
  }

  /** Repeating the last `dist` bytes is the byte-by-byte copy, overlapping
      copies (length > dist) included. */
  lemma {:induction false} CopyBackPeriodic(out: seq<Byte>, dist: nat, length: nat)
    requires 0 < dist <= |out|
    ensures CopyBack(out, dist, length) == out + Periodic(out[|out| - dist..], length)
  {
    var w := out[|out| - dist..];
    if length > 0 {
      CopyBackPeriodic(out, dist, length - 1);
      var o := CopyBack(out, dist, length - 1);
      var r := out + Periodic(w, length);
      forall i | 0 <= i < |r|
        ensures r[i] == (o + [o[|o| - dist]])[i]
      {
        if i >= |out| {
          var k := i - |out|;
          PeriodicAt(w, length, k);
          if k < length - 1 {
            PeriodicAt(w, length - 1, k);
          } else if length - 1 >= dist {
            PeriodicAt(w, length - 1, k - dist);
          }
        }
      }
    }
  }

  /** The bytes through the cache after one more piece x. */
  lemma HistorySnoc(h: seq<Byte>, done: seq<seq<Byte>>, x: seq<Byte>)
    ensures h + Concat(done) + x == h + Concat(done + [x])
  {
    ConcatSnoc(done, x);
    assert h + Concat(done) + x == h + (Concat(done) + x);
  }

  class Window {
    /** How many bytes the cache keeps (`size`; 32768 in `stream_inflate`). */
    const size: nat
    /** `cache`: the last `size` bytes that went through ViaCache. */
    var cache: seq<Byte>
    /** Every byte that went through ViaCache, in order. */
    ghost var history: seq<Byte>

    ghost predicate Valid()
      reads this
    {
      cache == Last(history, size)
    }

    constructor (size: nat)
      ensures Valid() && this.size == size && cache == [] && history == []
    {
      this.size := size;
      cache := [];
      history := [];
    }

    /** `via_cache(pieces)`: pass every piece on unchanged, appending it to
        the cache and trimming the cache to its last `size` bytes. */
    method ViaCache(pieces: seq<seq<Byte>>) returns (yielded: seq<seq<Byte>>)
      requires Valid()
      modifies this
      ensures Valid()
      ensures yielded == pieces
      ensures history == old(history) + Concat(pieces)
      ensures cache == Last(old(history) + Concat(pieces), size)
    {
      yielded := [];
      var i := 0;
      while i < |pieces|
        invariant i <= |pieces| && yielded == pieces[..i]
        invariant history == old(history) + Concat(pieces[..i])
        invariant Valid()
      {
        LastLast(history, pieces[i], size);
        assert pieces[..i + 1] == pieces[..i] + [pieces[i]];
        HistorySnoc(old(history), pieces[..i], pieces[i]);
        cache := Last(cache + pieces[i], size);
        history := history + pieces[i];
        yielded := yielded + [pieces[i]];
        i := i + 1;
      }
      assert pieces[..i] == pieces;
    }

    /** `from_cache(dist, length)`: fails when the cache holds fewer than
        `dist` bytes; otherwise yields pieces of the window that starts
        `dist` bytes back, each at most `dist` long, that together make
        `length` bytes of that window repeated. */
    method FromCache(dist: nat, length: nat) returns (r: Result<seq<seq<Byte>>>)
      requires dist >= 1
      ensures r.Err? <==> dist > |cache|
      ensures r.Err? ==> r.error == BackwardsTooFar
      ensures r.Ok? ==> Concat(r.value) == Periodic(cache[|cache| - dist..], length)
      ensures r.Ok? ==> PiecesWithin(r.value, dist)
    {
      if dist > |cache| {
        return Err(BackwardsTooFar);
      }
      var start := |cache| - dist;
      var end := Max(start + length, |cache|);
      // The slice stops at the end of the cache however far `end` reaches.
      var chunk := cache[start..Min(end, |cache|)];
      assert chunk == cache[|cache| - dist..];
      var pieces := [];
      var remaining: nat := length;
      while remaining > 0
        invariant remaining <= length && |chunk| == dist
        invariant Concat(pieces) + Periodic(chunk, remaining) == Periodic(chunk, length)
        invariant PiecesWithin(pieces, dist)
      {
        var k := Min(remaining, |chunk|);
        var toYield := chunk[..k];
        PiecesWithinSnoc(pieces, toYield, dist);
        PeriodicStep(chunk, remaining);
        assert Periodic(chunk, remaining) == toYield + Periodic(chunk, remaining - k);
        Regroup(pieces, toYield, Periodic(chunk, remaining - k));
        pieces := pieces + [toYield];
        remaining := remaining - k;
      }
      assert Periodic(chunk, 0) == [];
      return Ok(pieces);
    }
  }

  /** Moving one piece from the part still to come to the pieces yielded. */
  lemma Regroup(pieces: seq<seq<Byte>>, piece: seq<Byte>, rest: seq<Byte>)
    ensures Concat(pieces + [piece]) + rest == Concat(pieces) + (piece + rest)
  {
    ConcatSnoc(pieces, piece);
  }

  function Max(a: int, b: int): (m: int)
    ensures m >= a && m >= b && (m == a || m == b)
  {
    if a >= b then a else b
  }

  function Min(a: int, b: int): (m: int)
    ensures m <= a && m <= b && (m == a || m == b)
  {
    if a <= b then a else b
  }
}
