/** `batchify`: a sequence cut into consecutive chunks of a given size. */
module Iter {
  import opened Wrappers

  function Min(a: int, b: int): int {
    if a < b then a else b
  }

  /** The chunks `batchify` yields for a chunk size that `islice` accepts: taken
    * from the front, `size` at a time, until a chunk comes out empty. */
  function Chunks<T>(xs: seq<T>, size: nat): seq<seq<T>>
    decreases |xs|
  {
    if size == 0 || |xs| == 0 then []
    else [xs[..Min(size, |xs|)]] + Chunks(xs[Min(size, |xs|)..], size)
  }

  function Concat<T>(xss: seq<seq<T>>): seq<T> {
    if |xss| == 0 then [] else xss[0] + Concat(xss[1..])
  }

  /** `batchify(xs, size)`: pulls chunks until one is empty. A negative size is
    * refused by `islice` with ValueError. */
  method Batchify<T>(xs: seq<T>, size: int) returns (r: Result<seq<seq<T>>>)
    ensures size < 0 ==> r == Err(ValueError)
    ensures size >= 0 ==> r == Ok(Chunks(xs, size))
  {
    if size < 0 {
      return Err(ValueError);
    }
    var chunks: seq<seq<T>> := [];
    var i := 0;
    assert xs[0..] == xs;
    while true
      invariant 0 <= i <= |xs|
      invariant Chunks(xs, size) == chunks + Chunks(xs[i..], size)
      decreases |xs| - i
    {
      var end := Min(i + size, |xs|);
      var chunk := xs[i..end];
      if |chunk| == 0 {
        break;
      }
      assert xs[i..][..Min(size, |xs[i..]|)] == chunk;
      assert xs[i..][Min(size, |xs[i..]|)..] == xs[end..];
      chunks := chunks + [chunk];
      i := end;
    }
    assert Chunks(xs[i..], size) == [];
    assert chunks + [] == chunks;
    return Ok(chunks);
  }

  /** Concatenating the chunks gives back the input, in order. */
  lemma {:induction false} ConcatChunks<T>(xs: seq<T>, size: nat)
    requires size > 0
    ensures Concat(Chunks(xs, size)) == xs
    decreases |xs|
  {
    if |xs| > 0 {
      var k := Min(size, |xs|);
      ConcatChunks(xs[k..], size);
      assert Chunks(xs, size)[1..] == Chunks(xs[k..], size);
      assert xs[..k] + xs[k..] == xs;
    }
  }

  /** Every chunk is non-empty and at most `size` long, and every chunk but the last
    * is exactly `size` long. */
  lemma {:induction false} ChunkSizes<T>(xs: seq<T>, size: nat)
    ensures forall k :: 0 <= k < |Chunks(xs, size)| ==> 0 < |Chunks(xs, size)[k]| <= size
    ensures forall k :: 0 <= k < |Chunks(xs, size)| - 1 ==> |Chunks(xs, size)[k]| == size
    decreases |xs|
  {
    if size > 0 && |xs| > 0 {
      var k := Min(size, |xs|);
      ChunkSizes(xs[k..], size);
      var cs := Chunks(xs, size);
      assert cs[1..] == Chunks(xs[k..], size);
      assert forall j :: 1 <= j < |cs| ==> cs[j] == cs[1..][j - 1];
      if |cs| > 1 {
        assert |xs[k..]| > 0;
        assert k == size;
      }
    }
  }

  /** The number of chunks is `n / size` rounded up. */
  lemma {:induction false} ChunkCount<T>(xs: seq<T>, size: nat)
    requires size > 0
    ensures |Chunks(xs, size)| == (|xs| + size - 1) / size
    decreases |xs|
  {
    if |xs| > 0 {
      var k := Min(size, |xs|);
      ChunkCount(xs[k..], size);
      if k == size {
        DivStep(|xs| - 1, size);
      } else {
        DivOne(|xs| + size - 1, size);
      }
    }
  }

  lemma DivStep(a: int, b: int)
    requires a >= 0 && b > 0
    ensures (a + b) / b == a / b + 1
  {
    var q, r := a / b, a % b;
    assert a == q * b + r && 0 <= r < b;
    assert a + b == (q + 1) * b + r by {
      assert (q + 1) * b == q * b + b;
    }
    DivUnique(a + b, b, q + 1, r);
  }

  lemma DivOne(a: int, b: int)
    requires b > 0 && b <= a < 2 * b
    ensures a / b == 1
  {
    DivUnique(a, b, 1, a - b);
  }

  /** Euclidean division has one quotient. */
  lemma DivUnique(a: int, b: int, q: int, r: int)
    requires b > 0 && a == q * b + r && 0 <= r < b
    ensures a / b == q
  {
    var q', r' := a / b, a % b;
    assert a == q' * b + r' && 0 <= r' < b;
    assert (q - q') * b == r' - r;
    if q > q' {
      MulAtLeast(q - q', b);
    } else if q < q' {
      MulAtLeast(q' - q, b);
    }
  }

  lemma MulAtLeast(x: int, b: int)
    requires x >= 1 && b > 0
    ensures x * b >= b
  {
  }

  /** Ten items in chunks of two make five chunks, eleven make six. */
  lemma ChunkCountExamples<T>(ten: seq<T>, eleven: seq<T>)
    requires |ten| == 10 && |eleven| == 11
    ensures |Chunks(ten, 2)| == 5 && |Chunks(eleven, 2)| == 6
  {
    ChunkCount(ten, 2);
    ChunkCount(eleven, 2);
  }

  /** A chunk size at least the length of a non-empty input gives one chunk, the
    * whole input. */
  lemma OneChunk<T>(xs: seq<T>, size: nat)
    requires size >= |xs| > 0
    ensures Chunks(xs, size) == [xs]
  {
    assert xs[..|xs|] == xs;
    assert Chunks(xs[|xs|..], size) == [];
  }

  /** An empty input gives no chunks, and so does a chunk size of zero: the input
    * is silently dropped. */
  lemma NoChunks<T>(xs: seq<T>, empty: seq<T>, size: nat)
    requires |empty| == 0
    ensures Chunks(empty, size) == []
    ensures Chunks(xs, 0) == []
  {
  }
}
