/**
 * Order-preserving selection: `a` is a subsequence of `b` when the elements
 * of `a` occur in `b` at strictly increasing positions.
 */
module Subsequence {

  /** `idx` lists, for each element of `a`, the position in `b` it was taken from. */
  ghost predicate IsEmbedding<T>(idx: seq<int>, a: seq<T>, b: seq<T>)
  {
    && |idx| == |a|
    && (forall k :: 0 <= k < |idx| ==> 0 <= idx[k] < |b| && a[k] == b[idx[k]])
    && (forall j, k :: 0 <= j < k < |idx| ==> idx[j] < idx[k])
  }

  ghost predicate IsSubsequence<T>(a: seq<T>, b: seq<T>)
  {
    exists idx :: IsEmbedding(idx, a, b)
  }

  /** Taking nothing and keeping the next element of `b` both extend an embedding at the back. */
  lemma ExtendAtBack<T>(idx: seq<int>, a: seq<T>, b: seq<T>, x: T, keep: bool)
    requires IsEmbedding(idx, a, b)
    ensures keep ==> IsEmbedding(idx + [|b|], a + [x], b + [x])
    ensures !keep ==> IsEmbedding(idx, a, b + [x])
  {
  }

  /** Keeping, or skipping, one element in front of `b` extends an embedding at the front. */
  lemma ExtendAtFront<T>(idx: seq<int>, a: seq<T>, b: seq<T>, x: T, keep: bool)
    requires IsEmbedding(idx, a, b)
    ensures keep ==> IsEmbedding([0] + Shift(idx), [x] + a, [x] + b)
    ensures !keep ==> IsEmbedding(Shift(idx), a, [x] + b)
  {
  }

  /** Every position moved one place to the right. */
  function Shift(idx: seq<int>): (r: seq<int>)
    ensures |r| == |idx|
    ensures forall k :: 0 <= k < |idx| ==> r[k] == idx[k] + 1
  {
    seq(|idx|, k requires 0 <= k < |idx| => idx[k] + 1)
  }
}
