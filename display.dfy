/**
 * How the page lays out its review list: the first three records form the
 * "Latest Generated Batch", the rest the "Previous Reviews", the heading
 * counts the latest batch, and an empty list shows a notice instead.
 */
module Display {

  /** How many records the "Latest Generated Batch" shows at most. */
  const BatchSize: nat := 3

  function Min(a: int, b: int): int {
    if a <= b then a else b
  }

  /**
   * `xs.slice(start, end)` for non-negative bounds: both bounds are clamped
   * to the length, and an end before the start gives the empty list.
   */
  function Slice<T>(xs: seq<T>, start: nat, end: nat): (r: seq<T>)
    ensures start >= |xs| || end <= start ==> r == []
    ensures start < end && start < |xs| ==> |r| == Min(end, |xs|) - start
    ensures forall k | 0 <= k < |r| :: start + k < |xs| && r[k] == xs[start + k]
  {
    var lo := Min(start, |xs|);
    var hi := Min(end, |xs|);
    if hi <= lo then [] else xs[lo..hi]
  }

  /** `xs.slice(start)`: everything from `start` on, or nothing past the end. */
  function SliceFrom<T>(xs: seq<T>, start: nat): (r: seq<T>)
    ensures start >= |xs| ==> r == []
    ensures start < |xs| ==> |r| == |xs| - start
    ensures forall k | 0 <= k < |r| :: start + k < |xs| && r[k] == xs[start + k]
  {
    if start >= |xs| then [] else xs[start..]
  }

  /** `generatedReviews.slice(0, 3)`: the first records, as many as the heading counts. */
  function LatestBatch<T>(list: seq<T>): (latest: seq<T>)
    ensures |latest| == HeaderCount(list)
    ensures latest == list[..HeaderCount(list)]
    ensures latest != [] <==> ShowsLatestBatch(list)
  {
    Slice(list, 0, BatchSize)
  }

  /** `generatedReviews.slice(3)`: the records after the latest batch. */
  function PreviousReviews<T>(list: seq<T>): (previous: seq<T>)
    ensures |previous| == |list| - HeaderCount(list)
    ensures previous == list[HeaderCount(list)..]
    ensures previous != [] <==> ShowsPreviousReviews(list)
  {
    SliceFrom(list, BatchSize)
  }

  /** `Math.min(3, generatedReviews.length)`, the count in the heading. */
  function HeaderCount<T>(list: seq<T>): (n: nat)
    ensures n <= BatchSize && n <= |list|
    ensures n == BatchSize || n == |list|
  {
    Min(BatchSize, |list|)
  }

  /** The heading count and the latest batch are shown for a non-empty list. */
  predicate ShowsLatestBatch<T>(list: seq<T>): (shown: bool)
    ensures shown <==> HeaderCount(list) > 0
  {
    |list| > 0
  }

  /**
   * The previous reviews are shown once the list is longer than a batch, and
   * then the latest batch above them is full.
   */
  predicate ShowsPreviousReviews<T>(list: seq<T>): (shown: bool)
    ensures shown ==> ShowsLatestBatch(list) && HeaderCount(list) == BatchSize
  {
    |list| > BatchSize
  }

  /**
   * The notice that nothing was generated yet is shown for an empty list,
   * exactly when the latest batch is not.
   */
  predicate ShowsEmptyNotice<T>(list: seq<T>): (shown: bool)
    ensures shown <==> !ShowsLatestBatch(list)
  {
    |list| == 0
  }

  /**
   * Exactly one of the empty notice and the latest batch is shown, and the
   * previous reviews only ever appear below a latest batch.
   */
  lemma ShownSections<T>(list: seq<T>)
    ensures ShowsEmptyNotice(list) <==> !ShowsLatestBatch(list)
    ensures ShowsPreviousReviews(list) ==> ShowsLatestBatch(list)
    ensures ShowsEmptyNotice(list) ==> LatestBatch(list) == [] && PreviousReviews(list) == []
  {
  }

  /** The two sections together show the whole list, in order, each record once. */
  lemma SectionsPartitionList<T>(list: seq<T>)
    ensures LatestBatch(list) + PreviousReviews(list) == list
  {
    var latest := LatestBatch(list);
    var previous := PreviousReviews(list);
    if |list| <= BatchSize {
      assert latest == list[0..|list|];
    } else {
      assert latest == list[..BatchSize] && previous == list[BatchSize..];
    }
  }
}
