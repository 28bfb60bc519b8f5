/**
 * The partitioned generator (`FullyPar`): size the range that holds the
 * requested number of terms, cut `[0, n * (L / n))` into `n` equal parts,
 * list each part with the bounded generator, concatenate the lists in
 * part order and keep the first `iterations` entries.  Small requests go
 * to the dynamic generator instead.  The worker count `n` is a parameter
 * and the per-part work, done in parallel by the source, is a loop here.
 */
module FullyPar {
  import opened DigitSums
  import opened Terms
  import opened Integer
  import opened Counting
  import Dynamic
  import Bounded

  /**
   * The parts for size `lastNumber` and `numThreads` workers: adjacent
   * slices of equal width `lastNumber / numThreads` from zero.  The last
   * part ends short of `lastNumber` by the remainder of the division.
   */
  function Parts(S: Sum, lastNumber: nat, numThreads: nat): (ps: seq<Bounded.IntsInBounds>)
    requires numThreads >= 1
    ensures |ps| == numThreads
    ensures ps[0].start == 0
    ensures forall i :: 0 < i < numThreads ==> ps[i - 1].end == ps[i].start
    ensures forall i :: 0 <= i < numThreads ==> ps[i].start <= ps[i].end && ps[i].sum == S
    ensures ps[numThreads - 1].end == Reach(lastNumber, numThreads)
    ensures Reach(lastNumber, numThreads) <= lastNumber < Reach(lastNumber, numThreads) + numThreads
  {
    var width := lastNumber / numThreads;
    SliceBounds(numThreads, width);
    DivisionReach(lastNumber, numThreads);
    seq(numThreads, i requires 0 <= i < numThreads =>
      Bounded.IntsInBounds(i * width, (i + 1) * width, S))
  }

  /** Where the last part ends: the widest multiple of the worker count. */
  function Reach(lastNumber: nat, numThreads: nat): nat
    requires numThreads >= 1
  {
    numThreads * (lastNumber / numThreads)
  }

  /** The bound below which the concatenated parts list every term. */
  function Covered(lastNumber: nat, numThreads: nat): nat
    requires numThreads >= 1
  {
    Bounded.RoundDown(Reach(lastNumber, numThreads))
  }

  lemma SliceBounds(n: nat, width: nat)
    ensures forall i: nat :: i * width <= (i + 1) * width
    ensures (n - 1) * width + width == n * width
  {
    forall i: nat
      ensures i * width <= (i + 1) * width
    {
      assert (i + 1) * width == i * width + width;
    }
  }

  lemma DivisionReach(lastNumber: nat, numThreads: nat)
    requires numThreads >= 1
    ensures Reach(lastNumber, numThreads) <= lastNumber < Reach(lastNumber, numThreads) + numThreads
  {
  }

  /** Adjacent entries strictly increase. */
  predicate Ascending(xs: seq<nat>)
  {
    forall i :: 0 < i < |xs| ==> xs[i - 1] < xs[i]
  }

  /** Every entry lies in `[lo, hi)`. */
  predicate Within(xs: seq<nat>, lo: nat, hi: nat)
  {
    forall i :: 0 <= i < |xs| ==> lo <= xs[i] < hi
  }

  lemma AscendingConcat(a: seq<nat>, b: seq<nat>, lo: nat, mid: nat, hi: nat)
    requires lo <= mid <= hi
    requires Ascending(a) && Within(a, lo, mid) && Ascending(b) && Within(b, mid, hi)
    ensures Ascending(a + b) && Within(a + b, lo, hi)
  {
    forall i | 0 < i < |a + b|
      ensures (a + b)[i - 1] < (a + b)[i]
    {
      if i == |a| {
        assert (a + b)[i - 1] == a[i - 1] && (a + b)[i] == b[0];
      }
    }
  }

  /** A listing of first terms strictly increases. */
  lemma FirstTermsAscending(S: nat, xs: seq<nat>)
    requires FirstTerms(S, xs)
    ensures Ascending(xs)
  {
    forall i | 0 < i < |xs|
      ensures xs[i - 1] < xs[i]
    {
      assert IsNextAfter(S, xs[i - 1], xs[i]);
    }
  }

  /**
   * The per-part map and the flattening: run the bounded generator on each
   * part in order and concatenate.  Contiguous parts from zero give an
   * ascending list below the last part's rounded end; when the scan is
   * exact it holds every term there, each once and in order.
   */
  method ConcatParts(S: Sum, parts: seq<Bounded.IntsInBounds>, asWritten: bool) returns (flat: seq<nat>)
    requires |parts| >= 1 && parts[0].start == 0
    requires forall i :: 0 < i < |parts| ==> parts[i - 1].end == parts[i].start
    requires forall i :: 0 <= i < |parts| ==> parts[i].start <= parts[i].end && parts[i].sum == S
    ensures Ascending(flat) && Within(flat, 0, Bounded.RoundDown(parts[|parts| - 1].end))
    ensures ScanIsExact(S, asWritten) ==>
              EnumeratesRange(S, flat, 0, Bounded.RoundDown(parts[|parts| - 1].end))
  {
    flat := [];
    ghost var reached: nat := 0;
    for i := 0 to |parts|
      invariant i == 0 ==> reached == 0
      invariant i > 0 ==> reached == Bounded.RoundDown(parts[i - 1].end)
      invariant Ascending(flat) && Within(flat, 0, reached)
      invariant ScanIsExact(S, asWritten) ==> EnumeratesRange(S, flat, 0, reached)
    {
      var part := Bounded.GetInts(parts[i], asWritten);
      RoundDownMonotone(parts[i].start, parts[i].end);
      ghost var next := Bounded.RoundDown(parts[i].end);
      assert Bounded.RoundDown(parts[i].start) == reached;
      AscendingConcat(flat, part, 0, reached, next);
      if ScanIsExact(S, asWritten) {
        RangeConcat(S, flat, part, 0, reached, next);
      }
      flat := flat + part;
      reached := next;
    }
  }

  lemma RoundDownMonotone(a: nat, b: nat)
    requires a <= b
    ensures Bounded.RoundDown(a) <= Bounded.RoundDown(b)
  {
  }

  /**
   * The partitioned path: list every part with the bounded generator,
   * concatenate in part order and keep at most `iterations` entries.  The
   * result ascends below the covered bound; under an exact scan it is a
   * prefix of the term sequence, as long as the shorter of `iterations` and
   * the number of terms below the covered bound.
   */
  method Partitioned(S: Sum, iterations: nat, numThreads: nat, lastNumber: nat, asWritten: bool)
    returns (xs: seq<nat>)
    requires numThreads >= 1
    ensures |xs| <= iterations && Ascending(xs) && Within(xs, 0, Covered(lastNumber, numThreads))
    ensures ScanIsExact(S, asWritten) ==> FirstTerms(S, xs)
    ensures ScanIsExact(S, asWritten) ==>
              |xs| == Min(iterations, TermCount(S, 0, Covered(lastNumber, numThreads)))
  {
    var parts := Parts(S, lastNumber, numThreads);
    var flat := ConcatParts(S, parts, asWritten);
    ghost var covered := Covered(lastNumber, numThreads);
    assert Bounded.RoundDown(parts[numThreads - 1].end) == covered;
    xs := if |flat| <= iterations then flat else flat[..iterations];
    assert flat[..|xs|] == xs;
    if ScanIsExact(S, asWritten) {
      RangeToChain(S, 0, covered, flat);
      EnumerationLength(S, flat, 0, covered);
      ChainPrefix(S, 0, flat, |xs|);
    }
  }

  /**
   * `get_ints` as written: sized with `count_iter_end`, falling back to
   * the dynamic generator when `iterations` is at most a hundred per
   * worker, and otherwise running every part with the source's scan test.
   * The result ascends; it is the first terms on the fallback and, under an
   * exact scan, on the partitioned path, where its length is the shorter of
   * `iterations` and the number of terms below the covered bound.
   */
  method GetInts(S: Sum, iterations: nat, numThreads: nat) returns (xs: seq<nat>, ghost lastNumber: nat)
    requires iterations >= 1 && numThreads >= 1
    ensures lastNumber % 100 == 0 && Credited(S, lastNumber / 100) >= iterations
    ensures forall k :: 0 <= k < lastNumber / 100 ==> Credited(S, k) < iterations
    ensures |xs| <= iterations && Ascending(xs)
    ensures iterations <= numThreads * 100 ==> |xs| == iterations && FirstTerms(S, xs)
    ensures iterations > numThreads * 100 ==> Within(xs, 0, Covered(lastNumber, numThreads))
    ensures iterations > numThreads * 100 && ScanIsExact(S, true) ==>
              FirstTerms(S, xs) && |xs| == Min(iterations, TermCount(S, 0, Covered(lastNumber, numThreads)))
  {
    var last := CountIterEnd(S, iterations);
    lastNumber := last;
    if iterations <= numThreads * 100 {
      xs := Dynamic.GetInts(S, iterations);
      FirstTermsAscending(S, xs);
      return;
    }
    xs := Partitioned(S, iterations, numThreads, last, true);
  }

  /**
   * For digit sum 13, 103 iterations and one worker, `count_iter_end`
   * sizes the partition at 1300, and only 99 terms lie below it: the
   * as-written `get_ints` returns 99 items.
   */
  lemma AsWrittenSizingShort(end: nat)
    requires end % 100 == 0 && Credited(13, end / 100) >= 103
    requires forall k :: 0 <= k < end / 100 ==> Credited(13, k) < 103
    ensures end == 1300 && Covered(end, 1) == 1300
    ensures Min(103, TermCount(13, 0, Covered(end, 1))) == 99
  {
    var k := end / 100;
    Counts13();
    CreditedBelow13(k);
    assert k == 13;
    CountBlocksExact(13, 0, k);
    SingleCover(end);
  }

  /** With one worker the single part covers an aligned bound whole. */
  lemma SingleCover(end: nat)
    requires end % 100 == 0
    ensures Covered(end, 1) == end && 100 * (end / 100) == end
  {
  }

  lemma {:induction false} CreditedMonotone(S: nat, a: nat, b: nat)
    requires a <= b
    ensures Credited(S, a) <= Credited(S, b)
    decreases b - a
  {
    if a < b {
      CreditedMonotone(S, a, b - 1);
      CountBlocksSnoc(S, 1, b);
    }
  }

  lemma CreditedBelow13(k: nat)
    requires Credited(13, 12) == 93
    ensures k <= 12 ==> Credited(13, k) <= 93
  {
    if k <= 12 {
      CreditedMonotone(13, k, 12);
    }
  }

  /** The credited and true counts for digit sum 13 up to block 13. */
  lemma Counts13()
    ensures Credited(13, 12) == 93 && Credited(13, 13) == 103
    ensures CountBlocks(13, 0, 13) == 99
  {
    Greedy13();
    BlockCounts13();
    BlockCountsUpper13();
    assert CountBlocks(13, 12, 13) == 9;
    assert CountBlocks(13, 11, 13) == 17;
    assert CountBlocks(13, 10, 13) == 24;
    assert CountBlocks(13, 9, 13) == 29;
    assert CountBlocks(13, 8, 13) == 35;
    assert CountBlocks(13, 7, 13) == 42;
    assert CountBlocks(13, 6, 13) == 50;
    assert CountBlocks(13, 5, 13) == 59;
    assert CountBlocks(13, 4, 13) == 69;
    assert CountBlocks(13, 3, 13) == 78;
    assert CountBlocks(13, 2, 13) == 86;
    assert CountBlocks(13, 1, 13) == 93;
    CountBlocksSnoc(13, 1, 13);
  }

  /** The block formula for digit sum 13 and prefix digit sums 5 to 9, and the prefixes 5 to 13. */
  lemma BlockCountsUpper13()
    requires Greedy(13) == 49
    ensures BlockCount(13, 5) == 9 && BlockCount(13, 6) == 8 && BlockCount(13, 7) == 7
    ensures BlockCount(13, 8) == 6 && BlockCount(13, 9) == 5
    ensures DigitSum(5) == 5 && DigitSum(6) == 6 && DigitSum(7) == 7 && DigitSum(8) == 8
    ensures DigitSum(9) == 9 && DigitSum(10) == 1 && DigitSum(11) == 2
    ensures DigitSum(12) == 3 && DigitSum(13) == 4
  {
  }

  /**
   * The corrected `get_ints`: sized with `Counting.BoundFor` and running
   * every part with the corrected scan test.  It yields first terms; at or
   * below the threshold exactly `iterations` of them, above it as many as
   * `iterations` or as the covered range holds, which for an exact sum and
   * a partition that loses nothing (a single worker, say) is `iterations`.
   */
  method GetIntsCorrected(S: Sum, iterations: nat, numThreads: nat) returns (xs: seq<nat>, ghost lastNumber: nat)
    requires iterations >= 1 && numThreads >= 1
    ensures FirstTerms(S, xs)
    ensures lastNumber % 100 == 0 && CountIterationsOriginal(S, 0, lastNumber) >= iterations
    ensures iterations <= numThreads * 100 ==> |xs| == iterations
    ensures iterations > numThreads * 100 ==>
              |xs| == Min(iterations, TermCount(S, 0, Covered(lastNumber, numThreads)))
    ensures ExactSum(S) && Covered(lastNumber, numThreads) == lastNumber ==> |xs| == iterations
    ensures ExactSum(S) && numThreads == 1 ==> |xs| == iterations
  {
    var last := BoundFor(S, iterations);
    lastNumber := last;
    if iterations <= numThreads * 100 {
      xs := Dynamic.GetInts(S, iterations);
      return;
    }
    xs := Partitioned(S, iterations, numThreads, last, false);
    assert Covered(last, 1) == last;
    if ExactSum(S) && Covered(last, numThreads) == last {
      BoundIsSufficient(S, iterations, last);
    }
  }
}
