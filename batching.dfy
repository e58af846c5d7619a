/**
 * The chunking contract the orchestrator relies on from `prepareBatches`,
 * whose code is not part of this model: consecutive non-empty chunks of at
 * most `size` records, all but the last full, that concatenate back to the
 * input.
 */
module Batching {
  import opened Seqs

  predicate IsBatching<T(==)>(batches: seq<seq<T>>, xs: seq<T>, size: nat)
  {
    size > 0 &&
    (forall i :: 0 <= i < |batches| ==> 0 < |batches[i]| <= size) &&
    (forall i :: 0 <= i < |batches| - 1 ==> |batches[i]| == size) &&
    Flatten(batches) == xs
  }

  /** The contract fixes the number of batches: the smallest count of `size`-chunks that holds `xs`. */
  lemma {:induction false} BatchCount<T>(batches: seq<seq<T>>, xs: seq<T>, size: nat)
    requires IsBatching(batches, xs, size)
    ensures |xs| <= |batches| * size
    ensures |batches| > 0 ==> (|batches| - 1) * size < |xs|
    ensures |batches| == 0 <==> xs == []
  {
    if batches != [] {
      var rest := batches[1..];
      assert Flatten(batches) == batches[0] + Flatten(rest);
      assert IsBatching(rest, Flatten(rest), size) by {
        assert forall i :: 0 <= i < |rest| ==> rest[i] == batches[i + 1];
      }
      BatchCount(rest, Flatten(rest), size);
      if |rest| > 0 {
        assert |batches[0]| == size;
        assert |batches| * size == size + |rest| * size;
        assert (|batches| - 1) * size == size + (|rest| - 1) * size;
      }
    }
  }
}
