/** The list helpers of Infrastructure/Extensions.cs. */
module ListExtensions {

  /** The chunks put back together, in order. */
  function Flatten<T>(chunks: seq<seq<T>>): seq<T>
  {
    if chunks == [] then [] else Flatten(chunks[..|chunks| - 1]) + chunks[|chunks| - 1]
  }

  /** Flattening is compatible with appending chunks. */
  lemma {:induction false} FlattenAppend<T>(a: seq<seq<T>>, b: seq<seq<T>>)
    decreases |b|
    ensures Flatten(a + b) == Flatten(a) + Flatten(b)
  {
    if b != [] {
      var c := b[..|b| - 1];
      assert (a + b)[..|a + b| - 1] == a + c;
      assert (a + b)[|a + b| - 1] == b[|b| - 1];
      FlattenAppend(a, c);
      assert Flatten(b) == Flatten(c) + b[|b| - 1];
      assert Flatten(a + b) == Flatten(a + c) + b[|b| - 1];
    } else {
      assert a + b == a;
    }
  }

  function Min(a: int, b: int): int
  {
    if a <= b then a else b
  }

  /** `c` is the rounded-up quotient of `n` by `size` when `c - 1` full chunks fall short of `n` and `c` do not. */
  lemma CeilDivision(n: nat, size: nat, c: nat)
    requires size > 0 && (c - 1) * size < n <= c * size
    ensures c == (n + size - 1) / size
  {
    var m := n + size - 1;
    assert c * size <= m < (c + 1) * size;
    var q, r := m / size, m % size;
    assert m == q * size + r && 0 <= r < size;
  }

  /** What the loop of `SplitList` has built once it has reached position `i`. */
  ghost predicate ChunkedUpTo<T>(xs: seq<T>, size: int, i: int, chunks: seq<seq<T>>)
  {
    && 0 <= i
    && (xs != [] ==> size > 0 && i == |chunks| * size)
    && (xs == [] ==> chunks == [])
    && Flatten(chunks) == xs[..Min(i, |xs|)]
    && (forall k | 0 <= k < |chunks| :: 0 < |chunks[k]| <= size)
    && (forall k | 0 <= k < |chunks| - 1 :: |chunks[k]| == size)
    && (i <= |xs| ==> forall k | 0 <= k < |chunks| :: |chunks[k]| == size)
    && (chunks != [] ==> (|chunks| - 1) * size < |xs|)
  }

  /** Appending the chunk that starts at `i` moves the loop on by `size`. */
  lemma ChunkStep<T>(xs: seq<T>, size: int, i: int, chunks: seq<seq<T>>)
    requires ChunkedUpTo(xs, size, i, chunks) && i < |xs|
    ensures ChunkedUpTo(xs, size, i + size, chunks + [xs[i..i + Min(size, |xs| - i)]])
  {
    var chunk := xs[i..i + Min(size, |xs| - i)];
    var next := chunks + [chunk];
    assert |next| * size == i + size by {
      assert |next| * size == |chunks| * size + size;
    }
    assert (|next| - 1) * size < |xs|;
    FlattenAppend(chunks, [chunk]);
    assert Flatten([chunk]) == chunk by {
      assert [chunk][..0] == [];
    }
    assert xs[..i] + chunk == xs[..Min(i + size, |xs|)];
    assert forall k | 0 <= k < |chunks| :: next[k] == chunks[k];
    assert next[|chunks|] == chunk;
  }

  /**
   * `SplitList`: cuts `xs` into consecutive chunks of `size` elements, the
   * last one possibly shorter. With `size` zero the loop would not advance,
   * so a positive size is needed unless the list is empty.
   */
  method SplitList<T>(xs: seq<T>, size: int) returns (chunks: seq<seq<T>>)
    requires size > 0 || xs == []
    ensures Flatten(chunks) == xs
    ensures forall k | 0 <= k < |chunks| :: 0 < |chunks[k]| <= size
    ensures forall k | 0 <= k < |chunks| - 1 :: |chunks[k]| == size
    ensures xs == [] ==> chunks == []
    ensures size > 0 ==> |chunks| == (|xs| + size - 1) / size
  {
    chunks := [];
    var i := 0;
    while i < |xs|
      invariant ChunkedUpTo(xs, size, i, chunks)
      decreases |xs| - i
    {
      ChunkStep(xs, size, i, chunks);
      chunks := chunks + [xs[i..i + Min(size, |xs| - i)]];
      i := i + size;
    }
    ChunkedAll(xs, size, i, chunks);
  }

  /** Once the loop of `SplitList` has passed the end, the chunks are the whole list. */
  lemma ChunkedAll<T>(xs: seq<T>, size: int, i: int, chunks: seq<seq<T>>)
    requires ChunkedUpTo(xs, size, i, chunks) && i >= |xs|
    ensures Flatten(chunks) == xs
    ensures xs == [] ==> chunks == []
    ensures size > 0 ==> |chunks| == (|xs| + size - 1) / size
  {
    assert Min(i, |xs|) == |xs|;
    assert xs[..|xs|] == xs;
    if size > 0 {
      var c := |chunks|;
      if xs != [] {
        assert c * size == i;
        assert c != 0;
      }
      CeilDivision(|xs|, size, c);
    }
  }

  /** `ToConcurrentBag`: every element of the list is added to a bag, duplicates included. */
  method ToConcurrentBag<T>(list: seq<T>) returns (bag: multiset<T>)
    ensures bag == multiset(list)
  {
    bag := multiset{};
    for i := 0 to |list|
      invariant bag == multiset(list[..i])
    {
      assert list[..i + 1] == list[..i] + [list[i]];
      bag := bag + multiset{list[i]};
    }
    assert list[..|list|] == list;
  }
}
