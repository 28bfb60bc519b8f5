/**
 * The bounded generator (`IntsWithDigitSumInBounds`): the terms inside a
 * range, both bounds rounded down to a hundred.  It finds the least term
 * at or above the start by a prefix scan that also stops at the end,
 * then steps like the future-looking generator and stops at the first
 * candidate at or beyond the end.
 */
module Bounded {
  import opened DigitSums
  import opened Terms
  import opened Integer

  /** A range request: the bounds as given and the digit sum. */
  datatype IntsInBounds = IntsInBounds(start: nat, end: nat, sum: Sum)

  /** Rounding down to a hundred, as both bounds are before the scan. */
  function RoundDown(x: nat): (r: nat)
    ensures r % 100 == 0 && r <= x < r + 100
  {
    (x / 100) * 100
  }

  /**
   * The first candidate: `start` itself when it is a term, otherwise the
   * completion of the first block the test does not skip, the scan giving
   * up once it passes `end`.  With the corrected test, or a sum of at most
   * 18, it is the least term at or above `start`, unless there is none
   * below `end`.
   */
  method Initial(S: Sum, start: nat, end: nat, asWritten: bool) returns (initial: nat)
    requires start % 100 == 0
    ensures start <= initial
    ensures ScanIsExact(S, asWritten) ==> IsTerm(S, initial) || end < initial
    ensures ScanIsExact(S, asWritten) ==> NoTermIn(S, start, if initial < end then initial else end)
  {
    if DigitSum(start) == S {
      return start;
    }
    var startHundred := start / 100;
    var assumed := DigitSum(startHundred);
    while Skips(S, assumed, asWritten) && startHundred * 100 <= end
      invariant start / 100 <= startHundred && assumed == DigitSum(startHundred)
      invariant NoTermIn(S, start, 100 * startHundred)
      decreases end / 100 + 1 - startHundred
    {
      NoTermInBlock(S, startHundred);
      assumed := AdvanceAssumed(startHundred, assumed);
      startHundred := startHundred + 1;
    }
    var base := startHundred * 100;
    DigitSumOfBlock(startHundred, 0);
    assert DigitSum(base) == assumed;
    var addition := CountAddition(S, base);
    initial := base + addition;
    if ScanIsExact(S, asWritten) && base <= end {
      if asWritten {
        GuardsAgreeForSmallSums(S, assumed);
      }
      LeastOfBlock(S, startHundred);
      assert initial == 100 * startHundred + Greedy(S - assumed);
      NoTermJoin(S, start, base, initial);
    }
  }

  /**
   * The slow-path scan of the inner iterator: from the block after that of
   * `acc`, pass over the prefixes the test skips, tracking their digit sum,
   * and give up once a prefix passes `end`.  No term is passed over; when
   * the scan stops inside the range, the test accepts the prefix found.
   */
  method ScanBelow(S: Sum, acc: nat, end: nat, asWritten: bool) returns (q: nat, assumed: nat, inRange: bool)
    requires !IsTerm(S, acc + 9)
    ensures acc / 100 < q && assumed == DigitSum(q)
    ensures IsTerm(S, acc) ==> NoTermIn(S, acc + 1, 100 * q)
    ensures !inRange ==> end < 100 * q
    ensures inRange ==> !Skips(S, assumed, asWritten)
    ensures inRange && asWritten && S < 100 ==> q - 1 == acc / 100 || DigitSum(q - 1) > S
  {
    if IsTerm(S, acc) {
      LastOfBlock(S, acc);
    }
    q := acc / 100 + 1;
    assumed := DigitSum(q);
    ghost var bound := if end / 100 < q then q else end / 100;
    while Skips(S, assumed, asWritten)
      invariant acc / 100 < q <= bound
      invariant assumed == DigitSum(q)
      invariant IsTerm(S, acc) ==> NoTermIn(S, acc + 1, 100 * q)
      invariant asWritten && S < 100 ==> q - 1 == acc / 100 || DigitSum(q - 1) > S
      decreases bound - q
    {
      NoTermInBlock(S, q);
      assumed := AdvanceAssumed(q, assumed);
      q := q + 1;
      if q * 100 > end {
        return q, assumed, false;
      }
    }
    inRange := true;
  }

  /**
   * One step of the inner iterator: the next candidate above `acc` if it
   * lies below `end`, or `None` when the range is exhausted.  From a term,
   * with the corrected test or a sum below 100, it is the next term, and
   * `None` means there is no term left below `end`.
   */
  method NextInBounds(S: Sum, acc: nat, end: nat, asWritten: bool) returns (r: Option<nat>)
    ensures r.Some? ==> acc < r.value < end
    ensures StepIsExact(S, asWritten) && IsTerm(S, acc) && r.Some? ==> IsNextAfter(S, acc, r.value)
    ensures StepIsExact(S, asWritten) && IsTerm(S, acc) && r.None? ==> NoTermIn(S, acc + 1, end)
  {
    var next := acc + 9;
    var candidate: nat;
    if DigitSum(next) == S {
      if IsTerm(S, acc) {
        NineStep(S, acc);
      }
      candidate := next;
    } else {
      var nextHundred, assumed, inRange := ScanBelow(S, acc, end, asWritten);
      if !inRange {
        return None;
      }
      var base := nextHundred * 100;
      DigitSumOfBlock(nextHundred, 0);
      var addition := CountAddition(S, base);
      candidate := base + addition;
      if IsTerm(S, acc) && StepIsExact(S, asWritten) {
        CompletionIsNext(S, acc, nextHundred, asWritten);
      }
    }
    if candidate >= end {
      return None;
    }
    return Some(candidate);
  }

  /**
   * `get_ints`: an ascending list inside the rounded range; with the
   * corrected test, or a sum of at most 18, exactly the terms of the
   * rounded range.
   */
  method GetInts(b: IntsInBounds, asWritten: bool) returns (xs: seq<nat>)
    ensures forall i :: 0 < i < |xs| ==> xs[i - 1] < xs[i]
    ensures forall i :: 0 <= i < |xs| ==> RoundDown(b.start) <= xs[i] < RoundDown(b.end)
    ensures ScanIsExact(b.sum, asWritten) ==>
              EnumeratesRange(b.sum, xs, RoundDown(b.start), RoundDown(b.end))
  {
    var start := RoundDown(b.start);
    var end := RoundDown(b.end);
    var S := b.sum;
    ghost var exact := ScanIsExact(S, asWritten);
    var initial := Initial(S, start, end, asWritten);
    var acc := initial;
    xs := if DigitSum(initial) == S && initial < end then [initial] else [];
    var step := NextInBounds(S, acc, end, asWritten);
    while step.Some?
      invariant start <= acc
      invariant |xs| > 0 ==> xs[|xs| - 1] == acc && acc < end
      invariant forall i :: 0 < i < |xs| ==> xs[i - 1] < xs[i]
      invariant forall i :: 0 <= i < |xs| ==> start <= xs[i] < end
      invariant step.Some? ==> acc < step.value < end
      invariant exact ==> Chain(S, start, xs)
      invariant exact && |xs| > 0 ==> IsTerm(S, acc)
      invariant exact && |xs| == 0 ==> end <= acc && NoTermIn(S, start, end)
      invariant exact && IsTerm(S, acc) && step.Some? ==> IsNextAfter(S, acc, step.value)
      invariant exact && IsTerm(S, acc) && step.None? ==> NoTermIn(S, acc + 1, end)
      decreases end - acc
    {
      if exact {
        ChainExtend(S, start, xs, step.value);
      }
      xs := xs + [step.value];
      acc := step.value;
      step := NextInBounds(S, acc, end, asWritten);
    }
    if exact {
      ChainToRange(S, start, end, xs);
    }
  }
}
