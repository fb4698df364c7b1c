/** Fixed-size chunking of a sequence (ecr_scan_reporter/common.py). */
module Common {

  function Min(a: int, b: int): int { if a <= b then a else b }

  /** Concatenation of a sequence of chunks. */
  function Flatten<T>(cs: seq<seq<T>>): seq<T> {
    if |cs| == 0 then [] else cs[0] + Flatten(cs[1..])
  }

  /** The chunks `chunked_iterable` yields: consecutive slices of `size`
      items taken from the front until a slice comes back empty. A size of
      0 makes the very first slice empty, so nothing is yielded. */
  function Chunks<T>(s: seq<T>, size: nat): seq<seq<T>>
    decreases |s|
  {
    if size == 0 || |s| == 0 then []
    else
      var k := Min(size, |s|);
      [s[..k]] + Chunks(s[k..], size)
  }

  /** The generator loop of `chunked_iterable`: it takes `islice(it, size)`
      from a shared iterator (a cursor `pos` here) until the slice is empty. */
  method ChunkedIterable<T>(items: seq<T>, size: nat) returns (chunks: seq<seq<T>>)
    ensures chunks == Chunks(items, size)
  {
    var pos := 0;
    chunks := [];
    while true
      invariant 0 <= pos <= |items|
      invariant chunks + Chunks(items[pos..], size) == Chunks(items, size)
      decreases |items| - pos
    {
      var stop := Min(pos + size, |items|);
      var chunk := items[pos..stop];
      ChunksFrom(items, size, pos);
      if |chunk| == 0 {
        assert chunks + [] == chunks;
        break;
      }
      assert (chunks + [chunk]) + Chunks(items[stop..], size) == chunks + ([chunk] + Chunks(items[stop..], size));
      chunks := chunks + [chunk];
      pos := stop;
    }
  }

  /** The chunks of a suffix: the first slice, then the chunks of the rest. */
  lemma ChunksFrom<T>(items: seq<T>, size: nat, pos: nat)
    requires pos <= |items|
    ensures var stop := Min(pos + size, |items|);
            Chunks(items[pos..], size) ==
              if stop == pos then [] else [items[pos..stop]] + Chunks(items[stop..], size)
  {
    var stop := Min(pos + size, |items|);
    if stop != pos {
      assert items[pos..][..stop - pos] == items[pos..stop];
      assert items[pos..][stop - pos..] == items[stop..];
    }
  }

  lemma {:induction false} FlattenSnoc<T>(cs: seq<seq<T>>, c: seq<T>)
    ensures Flatten(cs + [c]) == Flatten(cs) + c
  {
    if |cs| == 0 {
      assert cs + [c] == [c];
    } else {
      assert (cs + [c])[1..] == cs[1..] + [c];
      FlattenSnoc(cs[1..], c);
    }
  }

  /** Concatenating the yielded chunks gives back the input, in order. */
  lemma {:induction false} ChunksFlatten<T>(s: seq<T>, size: nat)
    requires size >= 1
    ensures Flatten(Chunks(s, size)) == s
    decreases |s|
  {
    if |s| > 0 {
      var k := Min(size, |s|);
      ChunksFlatten(s[k..], size);
      assert s[..k] + s[k..] == s;
    }
  }

  /** Every chunk is non-empty and holds at most `size` items; every chunk
      but the last holds exactly `size`. */
  lemma {:induction false} ChunksShape<T>(s: seq<T>, size: nat)
    ensures forall j :: 0 <= j < |Chunks(s, size)| ==> 0 < |Chunks(s, size)[j]| <= size
    ensures forall j :: 0 <= j < |Chunks(s, size)| - 1 ==> |Chunks(s, size)[j]| == size
    decreases |s|
  {
    if size > 0 && |s| > 0 {
      var k := Min(size, |s|);
      ChunksShape(s[k..], size);
      var cs := Chunks(s, size);
      assert cs[1..] == Chunks(s[k..], size);
      if |s| > size {
        assert |Chunks(s[k..], size)| > 0;
      }
    }
  }

  /** Empty input yields no chunk; n items yield ceil(n / size) chunks,
      stated without division: the chunks hold at least n slots and waste
      fewer than `size` of them. */
  lemma {:induction false} ChunksCount<T>(s: seq<T>, size: nat)
    requires size >= 1
    ensures |s| == 0 <==> |Chunks(s, size)| == 0
    ensures |s| <= |Chunks(s, size)| * size < |s| + size
    decreases |s|
  {
    if |s| > 0 {
      var k := Min(size, |s|);
      ChunksCount(s[k..], size);
      MulSucc(|Chunks(s, size)|, size);
    }
  }

  lemma MulSucc(m: nat, size: nat)
    requires m >= 1
    ensures m * size == (m - 1) * size + size
  {
  }

  /** How many chunks there are depends only on the length. */
  lemma {:induction false} ChunksSameCount<T, U>(s: seq<T>, t: seq<U>, size: nat)
    requires |s| == |t|
    ensures |Chunks(s, size)| == |Chunks(t, size)|
    decreases |s|
  {
    if size > 0 && |s| > 0 {
      var k := Min(size, |s|);
      ChunksSameCount(s[k..], t[k..], size);
    }
  }

  /** A slice of a suffix is a slice of the whole. */
  lemma SliceOfSuffix<T>(s: seq<T>, k: nat, m: nat, e: nat)
    requires k <= |s| && m <= e <= |s| - k
    ensures s[k..][m..e] == s[k + m..k + e]
  {
  }

  /** Chunk j is the slice starting at j * size. */
  lemma {:induction false} ChunkAt<T>(s: seq<T>, size: nat, j: nat)
    requires size >= 1 && j < |Chunks(s, size)|
    ensures j * size < |s|
    ensures Chunks(s, size)[j] == s[j * size .. Min(j * size + size, |s|)]
    decreases j
  {
    var k := Min(size, |s|);
    if j > 0 {
      var t := s[k..];
      assert Chunks(s, size) == [s[..k]] + Chunks(t, size);
      assert k == size && |t| == |s| - size by {
        assert |Chunks(t, size)| > 0;
      }
      ChunkAt(t, size, j - 1);
      var m := (j - 1) * size;
      MulSucc(j, size);
      var e := Min(m + size, |t|);
      assert m <= e <= |t|;
      assert Min(j * size + size, |s|) == e + size;
      SliceOfSuffix(s, size, m, e);
    }
  }

  /** Where the chunk after chunk j starts: (j + 1) * size while there is
      one, the end of the input after the last. */
  lemma NextChunkStart<T>(s: seq<T>, size: nat, j: nat)
    requires size >= 1 && j < |Chunks(s, size)|
    ensures j * size + size == (j + 1) * size
    ensures j + 1 < |Chunks(s, size)| ==> (j + 1) * size < |s| && Min(j * size + size, |s|) == (j + 1) * size
    ensures j + 1 == |Chunks(s, size)| ==> Min(j * size + size, |s|) == |s|
  {
    MulSucc(j + 1, size);
    ChunksCount(s, size);
    if j + 1 < |Chunks(s, size)| {
      ChunkAt(s, size, j + 1);
    }
  }
}
