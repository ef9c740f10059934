/** Sequence helpers shared by the Go and Java models: flattening and fixed-size slicing. */
module Seqs {

  /** The in-order concatenation of a sequence of sequences. */
  function Flatten<T>(parts: seq<seq<T>>): seq<T>
  {
    if |parts| == 0 then [] else parts[0] + Flatten(parts[1..])
  }

  lemma AppendNil<T>(a: seq<T>)
    ensures a + [] == a
  {
  }

  lemma AppendAssoc<T>(a: seq<T>, b: seq<T>, c: seq<T>)
    ensures (a + b) + c == a + (b + c)
  {
  }

  lemma {:induction false} FlattenAppend<T>(a: seq<seq<T>>, b: seq<seq<T>>)
    ensures Flatten(a + b) == Flatten(a) + Flatten(b)
  {
    if |a| == 0 {
      assert a + b == b;
    } else {
      assert (a + b)[1..] == a[1..] + b;
      FlattenAppend(a[1..], b);
    }
  }

  /** Consecutive slices of at most k elements, all full except possibly the last. */
  function ChunksOf<T>(s: seq<T>, k: nat): (chunks: seq<seq<T>>)
    requires k > 0
    decreases |s|
  {
    if |s| == 0 then []
    else if |s| <= k then [s]
    else [s[..k]] + ChunksOf(s[k..], k)
  }

  /** The shape of a slicing into pieces of size k: every piece non-empty and at
      most k long, every piece but the last exactly k long. */
  ghost predicate WellChunked<T>(chunks: seq<seq<T>>, k: nat)
  {
    && (forall i :: 0 <= i < |chunks| ==> 0 < |chunks[i]| <= k)
    && (forall i :: 0 <= i < |chunks| - 1 ==> |chunks[i]| == k)
  }

  lemma {:induction false} ChunksOfSpec<T>(s: seq<T>, k: nat)
    requires k > 0
    ensures Flatten(ChunksOf(s, k)) == s
    ensures WellChunked(ChunksOf(s, k), k)
    decreases |s|
  {
    if |s| == 0 {
    } else if |s| <= k {
      assert Flatten([s]) == s + Flatten<T>([]);
    } else {
      ChunksOfSpec(s[k..], k);
      var rest := ChunksOf(s[k..], k);
      assert ChunksOf(s, k) == [s[..k]] + rest;
      assert ([s[..k]] + rest)[1..] == rest;
      assert s[..k] + s[k..] == s;
    }
  }

  /** A well-chunked slicing of s into pieces of size k is the one ChunksOf gives. */
  lemma {:induction false} ChunksOfUnique<T>(chunks: seq<seq<T>>, s: seq<T>, k: nat)
    requires k > 0
    requires WellChunked(chunks, k)
    requires Flatten(chunks) == s
    ensures chunks == ChunksOf(s, k)
    decreases |chunks|
  {
    if |chunks| == 0 {
    } else if |chunks| == 1 {
      assert Flatten(chunks) == chunks[0] + Flatten(chunks[1..]);
      assert chunks[0] == s;
    } else {
      var c := chunks[0];
      assert |c| == k;
      assert Flatten(chunks) == c + Flatten(chunks[1..]);
      assert |s| > k by { assert |chunks[1]| > 0; assert Flatten(chunks[1..]) == chunks[1] + Flatten(chunks[2..]); }
      assert s[..k] == c && s[k..] == Flatten(chunks[1..]);
      ChunksOfUnique(chunks[1..], s[k..], k);
      assert chunks == [c] + chunks[1..];
    }
  }
}
