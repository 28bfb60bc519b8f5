/**
 * Counting terms without listing them: the per-block formula
 * (`get_iter_number`), the reference sum over blocks
 * (`count_iterations_original`), the tracker-driven `count_iterations`,
 * and `count_iter_end`, which sizes the parallel generator's range.
 */
module Counting {
  import opened DigitSums
  import opened Terms
  import opened Integer

  function SatSub(a: nat, b: nat): nat
  {
    if a >= b then a - b else 0
  }

  function Min(a: nat, b: nat): nat
  {
    if a <= b then a else b
  }

  /**
   * The block formula: how many terms a hundred block whose prefix has
   * digit sum `d` is credited with.  Zero when the prefix alone is too
   * large; otherwise one more than what is left for the last two digits,
   * clamped from above when the first term fits below 100.
   */
  function BlockCount(S: nat, d: nat): nat
  {
    if d > S then 0
    else
      var initial := Greedy(S);
      var result := S - d + 1;
      if initial <= 100 && d + (100 - initial) / 9 < result then d + (100 - initial) / 9 + 1
      else result
  }

  /**
   * The labelled block both counting loops evaluate for one hundred
   * block, given the first term and the block's prefix digit sum.
   */
  method ChargeBlock(S: Sum, initial: nat, digitSum: nat) returns (result: nat)
    requires initial == Greedy(S)
    ensures result == BlockCount(S, digitSum)
    ensures digitSum <= S ==> 1 <= result <= S - digitSum + 1
  {
    if digitSum > S {
      return 0;
    }
    var left := S - digitSum;
    result := left + 1;
    if initial > 100 {
      return;
    }
    var right := digitSum + (100 - initial) / 9;
    if right < result {
      result := right + 1;
    }
  }

  /**
   * What `count_iter_end` credits to its first `K` blocks: block `i` is
   * charged with the formula for prefix `i + 1`.
   */
  function Credited(S: nat, K: nat): nat
  {
    CountBlocks(S, 1, K + 1)
  }

  /** Sum of the block formula over the prefixes in `[lo, hi)`. */
  function CountBlocks(S: nat, lo: nat, hi: nat): nat
    decreases hi - lo
  {
    if lo >= hi then 0 else BlockCount(S, DigitSum(lo)) + CountBlocks(S, lo + 1, hi)
  }

  /** The partial-block term that both count functions add for the block of `end`. */
  function TailCount(S: nat, end: nat): nat
  {
    var endHundred := end / 100;
    var addition := Completion(S, DigitSum(endHundred));
    Min(SatSub(end % 100, addition) / 9, SatSub(S, DigitSum(endHundred)))
  }

  /** `count_iterations_original`: the reference count the fast one is tested against. */
  function CountIterationsOriginal(S: nat, start: nat, end: nat): nat
  {
    CountBlocks(S, start / 100, end / 100) + TailCount(S, end)
  }

  /** The true number of integers in `[lo, hi)` whose digit sum is `r`. */
  function TermCount(r: int, lo: nat, hi: nat): nat
    decreases hi - lo
  {
    if lo >= hi then 0 else (if DigitSum(lo) == r then 1 else 0) + TermCount(r, lo + 1, hi)
  }

  /** The true number of two-digit endings (00 to 99) whose digit sum is `r`. */
  function PairCount(r: int): nat
  {
    if r < 0 then 0 else if r <= 9 then r + 1 else if r <= 18 then 19 - r else 0
  }

  /** The sums for which the block formula counts every block exactly. */
  predicate ExactSum(S: nat)
  {
    1 <= S <= 18 && S != 10
  }

  /**
   * `count_iterations`: walks the blocks of `[start, end)` keeping the
   * prefix digit sum with the tracker instead of recomputing it, and
   * agrees with the reference count on every input.
   */
  method CountIterations(S: Sum, start: nat, end: nat) returns (count: nat)
    ensures count == CountIterationsOriginal(S, start, end)
  {
    var initial := GetInitial(S);
    var startHundred := start / 100;
    var endHundred := end / 100;
    var assumed := DigitSum(startHundred);
    var full: nat := 0;
    var i := startHundred;
    while i < endHundred
      invariant startHundred <= i
      invariant assumed == DigitSum(i)
      invariant full + CountBlocks(S, i, endHundred) == CountBlocks(S, startHundred, endHundred)
      decreases endHundred - i
    {
      var result := ChargeBlock(S, initial, assumed);
      assumed := AdvanceAssumed(i, assumed);
      full := full + result;
      i := i + 1;
    }
    var addition := CountAddition(S, endHundred);
    var rest := SatSub(end % 100, addition);
    count := full + Min(rest / 9, SatSub(S, DigitSum(endHundred)));
  }

  /**
   * `count_iter_end` as written: the tracker is advanced before the block
   * is charged, so block `i` is credited with the count of block `i + 1`.
   * It returns `100 * K` for the least `K` at which the credited counts
   * of blocks `1..K` reach `iterations`.
   */
  method CountIterEnd(S: Sum, iterations: nat) returns (end: nat)
    ensures end % 100 == 0
    ensures Credited(S, end / 100) >= iterations
    ensures forall k :: 0 <= k < end / 100 ==> Credited(S, k) < iterations
  {
    var its := iterations;
    var i: nat := 0;
    var initial := GetInitial(S);
    var assumed := 0;
    ghost var target: nat := 1;
    while its != 0
      invariant assumed == DigitSum(i)
      invariant its == SatSub(iterations, Credited(S, i))
      invariant forall k :: 0 <= k < i ==> Credited(S, k) < iterations
      invariant i + 1 <= target && DigitSum(target) <= S
      decreases its, target - i
    {
      assumed := AdvanceAssumed(i, assumed);
      var result := ChargeBlock(S, initial, assumed);
      CreditStep(S, iterations, i, its, result);
      its := SatSub(its, result);
      if i + 1 == target {
        target := PowerAbove(i + 1);
      }
      i := i + 1;
    }
    end := i * 100;
    Hundreds(i);
  }

  /**
   * The sizing `count_iter_end` evidently intends: the least multiple of
   * 100 below which the block formula counts at least `iterations`
   * terms, charging each block with its own prefix digit sum.
   */
  method BoundFor(S: Sum, iterations: nat) returns (end: nat)
    ensures end % 100 == 0
    ensures CountIterationsOriginal(S, 0, end) >= iterations
    ensures forall k :: 0 <= k < end / 100 ==> CountIterationsOriginal(S, 0, 100 * k) < iterations
    ensures end == 0 <==> iterations == 0
  {
    var its := iterations;
    var i: nat := 0;
    var initial := GetInitial(S);
    var assumed := 0;
    ghost var target: nat := 0;
    while its != 0
      invariant assumed == DigitSum(i)
      invariant its == SatSub(iterations, CountBlocks(S, 0, i))
      invariant forall k :: 0 <= k < i ==> CountBlocks(S, 0, k) < iterations
      invariant i <= target && DigitSum(target) <= S
      decreases its, target - i
    {
      var result := ChargeBlock(S, initial, assumed);
      ChargeStep(S, iterations, i, its, result);
      assumed := AdvanceAssumed(i, assumed);
      its := SatSub(its, result);
      if i == target {
        target := PowerAbove(i);
      }
      i := i + 1;
    }
    end := i * 100;
    Hundreds(i);
    AlignedCount(S, 0, i);
    forall k | 0 <= k < end / 100
      ensures CountIterationsOriginal(S, 0, 100 * k) < iterations
    {
      AlignedCount(S, 0, k);
    }
  }

  lemma SatSubTwice(a: nat, b: nat, c: nat)
    ensures SatSub(SatSub(a, b), c) == SatSub(a, b + c)
  {
  }

  /** Charging block `i + 1` moves the remaining count from `Credited(S, i)` to `Credited(S, i + 1)`. */
  lemma CreditStep(S: nat, iterations: nat, i: nat, its: nat, result: nat)
    requires its == SatSub(iterations, Credited(S, i)) && result == BlockCount(S, DigitSum(i + 1))
    ensures SatSub(its, result) == SatSub(iterations, Credited(S, i + 1))
  {
    CountBlocksSnoc(S, 1, i + 1);
    SatSubTwice(iterations, Credited(S, i), result);
  }

  /** Charging block `i` with its own prefix sum moves the remaining count on by one block. */
  lemma ChargeStep(S: nat, iterations: nat, i: nat, its: nat, result: nat)
    requires its == SatSub(iterations, CountBlocks(S, 0, i)) && result == BlockCount(S, DigitSum(i))
    ensures SatSub(its, result) == SatSub(iterations, CountBlocks(S, 0, i + 1))
  {
    CountBlocksSnoc(S, 0, i);
    SatSubTwice(iterations, CountBlocks(S, 0, i), result);
  }

  lemma Hundreds(i: nat)
    ensures (i * 100) % 100 == 0 && (i * 100) / 100 == i
  {
  }

  /** Appending one block at the end of the range adds its formula. */
  lemma {:induction false} CountBlocksSnoc(S: nat, lo: nat, hi: nat)
    requires lo <= hi
    ensures CountBlocks(S, lo, hi + 1) == CountBlocks(S, lo, hi) + BlockCount(S, DigitSum(hi))
    decreases hi - lo
  {
    if lo < hi {
      CountBlocksSnoc(S, lo + 1, hi);
    }
  }

  lemma {:induction false} CountBlocksSplit(S: nat, a: nat, b: nat, c: nat)
    requires a <= b <= c
    ensures CountBlocks(S, a, c) == CountBlocks(S, a, b) + CountBlocks(S, b, c)
    decreases b - a
  {
    if a < b {
      CountBlocksSplit(S, a + 1, b, c);
    }
  }

  /** On hundred boundaries the count is the plain sum over blocks. */
  lemma AlignedCount(S: nat, a: nat, b: nat)
    ensures CountIterationsOriginal(S, 100 * a, 100 * b) == CountBlocks(S, a, b)
  {
    assert (100 * a) / 100 == a && (100 * b) / 100 == b && (100 * b) % 100 == 0;
  }

  /** Counting is additive over ranges split at a hundred boundary. */
  lemma CountAdditive(S: nat, a: nat, b: nat, c: nat)
    requires a <= b <= c
    requires b % 100 == 0
    ensures CountIterationsOriginal(S, a, c) ==
            CountIterationsOriginal(S, a, b) + CountIterationsOriginal(S, b, c)
  {
    CountBlocksSplit(S, a / 100, b / 100, c / 100);
  }

  lemma {:induction false} TermCountSplit(r: int, a: nat, b: nat, c: nat)
    requires a <= b <= c
    ensures TermCount(r, a, c) == TermCount(r, a, b) + TermCount(r, b, c)
    decreases b - a
  {
    if a < b {
      TermCountSplit(r, a + 1, b, c);
    }
  }

  /** Inside block `k`, counting digit sum `S` is counting two-digit sum `S - DigitSum(k)`. */
  lemma {:induction false} TermCountInBlock(S: nat, k: nat, lo: nat, hi: nat)
    requires lo <= hi <= 100
    ensures TermCount(S, 100 * k + lo, 100 * k + hi) == TermCount(S - DigitSum(k), lo, hi)
    decreases hi - lo
  {
    if lo < hi {
      DigitSumOfBlock(k, lo);
      TermCountInBlock(S, k, lo + 1, hi);
    }
  }

  /** Within the tens `a`, exactly one unit digit completes `r` when `a <= r <= a + 9`. */
  lemma {:induction false} TermCountInTens(r: int, a: nat, b: nat)
    requires a <= 9 && b <= 10
    ensures TermCount(r, 10 * a + b, 10 * a + 10) == (if a + b <= r <= a + 9 then 1 else 0)
    decreases 10 - b
  {
    if b < 10 {
      DigitSumTwoDigits(10 * a + b);
      DivMod10(a, b);
      TermCountInTens(r, a, b + 1);
    }
  }

  /** The number of tens digits `a < t` that leave a unit digit for `r`. */
  function Hits(r: int, t: nat): nat
  {
    if t == 0 then 0 else Hits(r, t - 1) + (if t - 1 <= r <= t + 8 then 1 else 0)
  }

  lemma {:induction false} TermCountBelowTens(r: int, t: nat)
    requires t <= 10
    ensures TermCount(r, 0, 10 * t) == Hits(r, t)
    decreases t
  {
    if t > 0 {
      TermCountBelowTens(r, t - 1);
      TermCountSplit(r, 0, 10 * (t - 1), 10 * t);
      TermCountInTens(r, t - 1, 0);
    }
  }

  /** The tens digits in `[max(0, r - 9), min(t - 1, r)]` are the hits. */
  lemma {:induction false} HitsClosedForm(r: int, t: nat)
    ensures var lo := if r - 9 > 0 then r - 9 else 0;
            var hi := if t - 1 < r then t - 1 else r;
            Hits(r, t) == if hi - lo + 1 > 0 then hi - lo + 1 else 0
    decreases t
  {
    if t > 0 {
      HitsClosedForm(r, t - 1);
    }
  }

  lemma HitsTen(r: int)
    ensures Hits(r, 10) == PairCount(r)
  {
    HitsClosedForm(r, 10);
  }

  /** The true number of terms in hundred block `k`. */
  lemma BlockTermCount(S: nat, k: nat)
    ensures TermCount(S, 100 * k, 100 * k + 100) == PairCount(S - DigitSum(k))
  {
    BlockTermCountTens(S, k, 10);
    HitsTen(S - DigitSum(k));
  }

  lemma BlockTermCountTens(S: nat, k: nat, t: nat)
    requires t <= 10
    ensures TermCount(S, 100 * k, 100 * k + 10 * t) == Hits(S - DigitSum(k), t)
  {
    TermCountInBlock(S, k, 0, 10 * t);
    TermCountBelowTens(S - DigitSum(k), t);
  }

  /** For the exact sums the block formula is the true count of the block. */
  lemma BlockCountExact(S: nat, d: nat)
    requires ExactSum(S)
    ensures BlockCount(S, d) == PairCount(S - d)
  {
    if S <= 9 {
      assert Greedy(S) == S;
    } else {
      assert Greedy(S) == 9 + 10 * Greedy(S - 9) == 10 * S - 81;
      assert (100 - Greedy(S)) / 9 == 18 - S;
    }
  }

  /**
   * For the exact sums, counting on hundred boundaries gives the true
   * number of terms in the range.
   */
  lemma {:induction false} CountBlocksExact(S: nat, a: nat, b: nat)
    requires ExactSum(S)
    requires a <= b
    ensures CountBlocks(S, a, b) == TermCount(S, 100 * a, 100 * b)
    decreases b - a
  {
    if a < b {
      CountBlocksExact(S, a + 1, b);
      TermCountSplit(S, 100 * a, 100 * a + 100, 100 * b);
      BlockTermCount(S, a);
      BlockCountExact(S, DigitSum(a));
    }
  }

  lemma CountIterationsExact(S: nat, start: nat, end: nat)
    requires ExactSum(S)
    requires start % 100 == 0 && end % 100 == 0 && start <= end
    ensures CountIterationsOriginal(S, start, end) == TermCount(S, start, end)
  {
    AlignedCount(S, start / 100, end / 100);
    CountBlocksExact(S, start / 100, end / 100);
  }

  /** The values asserted for digit sum 13 in the count tests. */
  lemma CountExamples()
    ensures CountIterationsOriginal(13, 0, 100) == 6
    ensures CountIterationsOriginal(13, 0, 200) == 13
  {
  }

  /**
   * Outside the exact sums the formula is off: for 10 it credits block 0
   * with 10 terms where the two digits hold 9 (19, 28, ..., 91), and from
   * 19 on it credits a block whose prefix fits with `S - d + 1` terms,
   * however few the two digits can hold.
   */
  lemma CountInexactSums(S: nat, d: nat)
    requires S >= 19 && d + 10 <= S
    ensures BlockCount(10, 0) == 10 && PairCount(10 - 0) == 9
    ensures BlockCount(S, d) == S - d + 1 > PairCount(S - d)
  {
    GreedyTwoDigits(S);
    assert Greedy(S) > 100;
  }

  /**
   * `count_iter_end` as written undershoots: for 34 terms of digit sum 13
   * it returns 400, and only 30 terms lie below 400.
   */
  lemma IterEndUndershoots(end: nat)
    requires end % 100 == 0
    requires Credited(13, end / 100) >= 34
    requires forall k :: 0 <= k < end / 100 ==> Credited(13, k) < 34
    ensures end == 400
    ensures TermCount(13, 0, end) == 30
  {
    var K := end / 100;
    Credited13();
    if K < 4 {
      CountBlocksSplit(13, 1, K + 1, 4);
    }
    assert K == 4;
    TermsBelow400();
  }

  lemma TermsBelow400()
    ensures TermCount(13, 0, 400) == 30
  {
    CountIterationsExact(13, 0, 400);
    AlignedCount(13, 0, 4);
    Credited13();
  }

  /** The credited counts of `count_iter_end` for digit sum 13, block by block. */
  lemma Credited13()
    ensures Credited(13, 0) == 0 && Credited(13, 1) == 7 && Credited(13, 2) == 15
    ensures Credited(13, 3) == 24 && Credited(13, 4) == 34
    ensures CountBlocks(13, 0, 4) == 30
  {
    Greedy13();
    BlockCounts13();
    assert CountBlocks(13, 4, 5) == 10;
    assert CountBlocks(13, 3, 5) == 19;
    assert CountBlocks(13, 2, 5) == 27;
    assert CountBlocks(13, 3, 4) == 9;
    assert CountBlocks(13, 2, 4) == 17;
    assert CountBlocks(13, 1, 4) == 24;
  }

  lemma Greedy13()
    ensures Greedy(13) == 49
  {
    assert Greedy(4) == 4;
  }

  /** The block formula for digit sum 13 and prefix digit sums 0 to 4. */
  lemma BlockCounts13()
    requires Greedy(13) == 49
    ensures BlockCount(13, 0) == 6 && BlockCount(13, 1) == 7 && BlockCount(13, 2) == 8
    ensures BlockCount(13, 3) == 9 && BlockCount(13, 4) == 10
    ensures DigitSum(0) == 0 && DigitSum(1) == 1 && DigitSum(2) == 2
    ensures DigitSum(3) == 3 && DigitSum(4) == 4
  {
  }

  /**
   * With the corrected sizing, for the exact sums at least `iterations`
   * terms lie below the bound.
   */
  lemma BoundIsSufficient(S: nat, iterations: nat, end: nat)
    requires ExactSum(S)
    requires end % 100 == 0
    requires CountIterationsOriginal(S, 0, end) >= iterations
    ensures TermCount(S, 0, end) >= iterations
  {
    CountIterationsExact(S, 0, end);
  }

  /** An exact listing of a range has as many entries as the range has terms. */
  lemma {:induction false} EnumerationLength(S: nat, xs: seq<nat>, lo: nat, hi: nat)
    requires EnumeratesRange(S, xs, lo, hi)
    ensures |xs| == TermCount(S, lo, hi)
    decreases hi - lo
  {
    if lo < hi {
      if IsTerm(S, lo) {
        assert lo in xs;
        assert xs[0] in xs;
        assert xs[0] == lo;
        var ys := xs[1..];
        forall v: nat
          ensures v in ys <==> lo + 1 <= v < hi && IsTerm(S, v)
        {
          if v in ys {
            var k :| 0 <= k < |ys| && ys[k] == v;
            assert xs[k + 1] == v && xs[0] < xs[k + 1];
          }
          if v in xs && v != lo {
            var k :| 0 <= k < |xs| && xs[k] == v;
            assert k > 0 && ys[k - 1] == v;
          }
        }
        forall a, b | 0 <= a < b < |ys|
          ensures ys[a] < ys[b]
        {
          assert ys[a] == xs[a + 1] && ys[b] == xs[b + 1];
        }
        EnumerationLength(S, ys, lo + 1, hi);
      } else {
        EnumerationLength(S, xs, lo + 1, hi);
      }
    } else {
      ListingBounds(S, xs, lo, hi);
    }
  }

  /** `count_iter_end` returns zero exactly when no iterations are asked for. */
  lemma IterEndZero(S: nat, iterations: nat, end: nat)
    requires end % 100 == 0
    requires Credited(S, end / 100) >= iterations
    requires forall k :: 0 <= k < end / 100 ==> Credited(S, k) < iterations
    ensures end == 0 <==> iterations == 0
  {
    assert Credited(S, 0) == 0;
  }
}
