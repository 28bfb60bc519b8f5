/**
 * How the generators' outputs relate to each other: the terms of a range
 * sit in the full sequence at the index given by the number of terms
 * below the range, which for the exact sums is what `count_iterations`
 * computes.
 */
module Agreement {
  import opened DigitSums
  import opened Terms
  import opened Integer
  import opened Counting

  /** The terms of `[lo, hi)` in ascending order, one number at a time. */
  ghost function Listing(S: nat, lo: nat, hi: nat): (xs: seq<nat>)
    ensures EnumeratesRange(S, xs, lo, hi)
    ensures |xs| == TermCount(S, lo, hi)
    decreases hi - lo
  {
    if lo >= hi then []
    else
      var head := if IsTerm(S, lo) then [lo] else [];
      var rest := Listing(S, lo + 1, hi);
      RangeConcat(S, head, rest, lo, lo + 1, hi);
      head + rest
  }

  /**
   * A listing of `[lo, hi)` is the slice of the term sequence between the
   * number of terms below `lo` and the number below `hi`.
   */
  lemma RangeIsSlice(S: nat, xs: seq<nat>, ys: seq<nat>, lo: nat, hi: nat)
    requires lo <= hi
    requires FirstTerms(S, xs) && EnumeratesRange(S, ys, lo, hi)
    requires TermCount(S, 0, hi) <= |xs|
    ensures TermCount(S, 0, lo) <= TermCount(S, 0, hi)
    ensures ys == xs[TermCount(S, 0, lo)..TermCount(S, 0, hi)]
  {
    var before := Listing(S, 0, lo);
    var whole := before + ys;
    RangeConcat(S, before, ys, 0, lo, hi);
    RangeToChain(S, 0, hi, whole);
    EnumerationLength(S, whole, 0, hi);
    ChainAgree(S, 0, whole, xs);
    SliceOfPrefix(before, ys, xs);
  }

  /** When `a + b` is a prefix of `xs`, `b` is the slice of `xs` right after `a`. */
  lemma SliceOfPrefix(a: seq<nat>, b: seq<nat>, xs: seq<nat>)
    requires |a| + |b| <= |xs| && a + b == xs[..|a + b|]
    ensures b == xs[|a|..|a| + |b|]
  {
    assert b == (a + b)[|a|..];
  }

  /**
   * The bounded test's claim: for an exact sum and a hundred-aligned start,
   * the bounded listing matches the full sequence from index
   * `count_iterations(S, 0, lo)` on.
   */
  lemma BoundedMatchesSequence(S: nat, xs: seq<nat>, ys: seq<nat>, lo: nat, hi: nat)
    requires ExactSum(S) && lo % 100 == 0 && lo <= hi
    requires FirstTerms(S, xs) && EnumeratesRange(S, ys, lo, hi)
    requires TermCount(S, 0, hi) <= |xs|
    ensures CountIterationsOriginal(S, 0, lo) + |ys| <= |xs|
    ensures ys == xs[CountIterationsOriginal(S, 0, lo)..CountIterationsOriginal(S, 0, lo) + |ys|]
  {
    RangeIsSlice(S, xs, ys, lo, hi);
    CountIterationsExact(S, 0, lo);
  }
}
