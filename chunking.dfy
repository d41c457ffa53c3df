/** Cutting a sequence into consecutive batches: the `range(0, len(rows),
    chunk_size)` slicing of `bulk_insert` and the buffer that CSV readers flush
    every `chunk_size` rows produce the same batches. */
module Chunking {

  /** The concatenation of the batches, in order. */
  function Flatten<T>(cs: seq<seq<T>>): seq<T>
    decreases |cs|
  {
    if cs == [] then [] else cs[0] + Flatten(cs[1..])
  }

  /** Appending a batch appends its elements. */
  lemma {:induction false} FlattenAppend<T>(cs: seq<seq<T>>, c: seq<T>)
    ensures Flatten(cs + [c]) == Flatten(cs) + c
    decreases |cs|
  {
    if cs != [] {
      assert (cs + [c])[1..] == cs[1..] + [c];
      FlattenAppend(cs[1..], c);
    }
  }

  /** `cs` cuts `xs` into non-empty batches of at most `n` elements, all but the
      last of exactly `n`, whose concatenation is `xs`. */
  ghost predicate IsChunking<T>(cs: seq<seq<T>>, xs: seq<T>, n: nat) {
    && Flatten(cs) == xs
    && (forall k :: 0 <= k < |cs| ==> 0 < |cs[k]| <= n)
    && (forall k :: 0 <= k < |cs| - 1 ==> |cs[k]| == n)
  }

  /** The batches of `xs` of size `n`. */
  function Chunks<T>(xs: seq<T>, n: nat): seq<seq<T>>
    requires n > 0
    decreases |xs|
  {
    if xs == [] then []
    else if |xs| <= n then [xs]
    else [xs[..n]] + Chunks(xs[n..], n)
  }

  /** `Chunks(xs, n)` is a chunking of `xs`. */
  lemma {:induction false} ChunksIsChunking<T>(xs: seq<T>, n: nat)
    requires n > 0
    ensures IsChunking(Chunks(xs, n), xs, n)
    decreases |xs|
  {
    if xs == [] {
    } else if |xs| <= n {
      assert Flatten([xs]) == xs + Flatten<T>([]);
    } else {
      var rest := Chunks(xs[n..], n);
      ChunksIsChunking(xs[n..], n);
      assert Chunks(xs, n) == [xs[..n]] + rest;
      assert ([xs[..n]] + rest)[1..] == rest;
      assert xs[..n] + xs[n..] == xs;
    }
  }

  /** A chunking is determined by the sequence and the batch size: any chunking
      of `xs` into batches of `n` is `Chunks(xs, n)`. */
  lemma {:induction false} ChunkingIsUnique<T>(cs: seq<seq<T>>, xs: seq<T>, n: nat)
    requires n > 0
    requires IsChunking(cs, xs, n)
    ensures cs == Chunks(xs, n)
    decreases |xs|
  {
    if cs == [] {
    } else {
      assert Flatten(cs) == cs[0] + Flatten(cs[1..]);
      if |cs| == 1 {
        assert cs[1..] == [];
        assert Flatten(cs[1..]) == [];
        assert cs[0] == xs;
        assert cs == [cs[0]];
      } else {
        assert Flatten(cs[1..]) == cs[1] + Flatten(cs[2..]) by {
          assert cs[1..][0] == cs[1];
          assert cs[1..][1..] == cs[2..];
        }
        assert |cs[0]| == n;
        assert cs[0] == xs[..n];
        assert Flatten(cs[1..]) == xs[n..];
        assert IsChunking(cs[1..], xs[n..], n);
        ChunkingIsUnique(cs[1..], xs[n..], n);
        assert cs == [cs[0]] + cs[1..];
      }
    }
  }

  /** How many elements of a sequence of length `len` the slices starting
      before `i` cover. */
  function Taken(i: int, len: nat): nat
    requires 0 <= i
  {
    if i <= len then i else len
  }

  /** Where the slice `xs[i : i + n]` of a sequence of length `len` ends. */
  function SliceEnd(i: int, n: nat, len: nat): int {
    if i + n <= len then i + n else len
  }

  /** The state of `for i in range(0, len(xs), n)` once the slices starting
      before `i` are taken into `cs`: they cover a prefix of `xs`, and while the
      loop runs every one of them is full. */
  ghost predicate SlicedBefore<T>(cs: seq<seq<T>>, xs: seq<T>, i: int, n: nat) {
    && 0 <= i
    && Flatten(cs) == xs[..Taken(i, |xs|)]
    && (forall k :: 0 <= k < |cs| ==> 0 < |cs[k]| <= n)
    && (forall k :: 0 <= k < |cs| - 1 ==> |cs[k]| == n)
    && (i <= |xs| ==> forall k :: 0 <= k < |cs| ==> |cs[k]| == n)
  }

  /** Taking the next slice keeps the loop's state. */
  lemma SliceStep<T>(cs: seq<seq<T>>, xs: seq<T>, i: int, n: nat)
    requires n > 0 && i < |xs|
    requires SlicedBefore(cs, xs, i, n)
    ensures SlicedBefore(cs + [xs[i..SliceEnd(i, n, |xs|)]], xs, i + n, n)
  {
    var c := xs[i..SliceEnd(i, n, |xs|)];
    FlattenAppend(cs, c);
    assert xs[..i] + c == xs[..Taken(i + n, |xs|)];
  }

  /** When the loop ends, the slices are a chunking of `xs`. */
  lemma SliceDone<T>(cs: seq<seq<T>>, xs: seq<T>, i: int, n: nat)
    requires i >= |xs|
    requires SlicedBefore(cs, xs, i, n)
    ensures IsChunking(cs, xs, n)
  {
    assert xs[..Taken(i, |xs|)] == xs;
  }
}
