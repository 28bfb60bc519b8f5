/**
 * The copy of the engine in the binary crate.  Its generators, counters
 * and completion are the library's line for line, and its
 * `WithDigitSumAdvanced` has the body of `FutureLooking`; they are the
 * library's members here.  Its partitioned generator differs: it falls
 * back to the dynamic generator when the sized range, not the request,
 * is at most a hundred per worker.
 */
module BinaryCrate {
  import opened DigitSums
  import opened Terms
  import opened Integer
  import opened Counting
  import Dynamic
  import FullyPar

  /**
   * `FullyPar::get_ints` of the binary crate: sized with `count_iter_end`,
   * falling back to the dynamic generator when that bound is at most a
   * hundred per worker, and otherwise running every part with the source's
   * scan test.  The guarantees are the library's, keyed on the bound.
   */
  method FullyParGetInts(S: Sum, iterations: nat, numThreads: nat) returns (xs: seq<nat>, ghost lastNumber: nat)
    requires iterations >= 1 && numThreads >= 1
    ensures lastNumber % 100 == 0 && Credited(S, lastNumber / 100) >= iterations
    ensures forall k :: 0 <= k < lastNumber / 100 ==> Credited(S, k) < iterations
    ensures |xs| <= iterations && FullyPar.Ascending(xs)
    ensures lastNumber <= numThreads * 100 ==> |xs| == iterations && FirstTerms(S, xs)
    ensures lastNumber > numThreads * 100 ==> FullyPar.Within(xs, 0, FullyPar.Covered(lastNumber, numThreads))
    ensures lastNumber > numThreads * 100 && ScanIsExact(S, true) ==>
              FirstTerms(S, xs) && |xs| == Min(iterations, TermCount(S, 0, FullyPar.Covered(lastNumber, numThreads)))
  {
    var last := CountIterEnd(S, iterations);
    lastNumber := last;
    if last <= numThreads * 100 {
      xs := Dynamic.GetInts(S, iterations);
      FullyPar.FirstTermsAscending(S, xs);
      return;
    }
    xs := FullyPar.Partitioned(S, iterations, numThreads, last, true);
  }
}
