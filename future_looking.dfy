/**
 * The future-looking generator (`FutureLooking`, and `WithDigitSumAdvanced`
 * in the binary crate): like the dynamic one, but the block scan walks
 * hundred prefixes one by one, keeping their digit sum in a running
 * tracker, and stops at the first block whose prefix leaves room for the
 * last two digits.
 */
module FutureLooking {
  import opened DigitSums
  import opened Terms
  import opened Integer

  /**
   * The prefix scan: from the block after that of `acc`, the first prefix
   * the test does not skip, together with its digit sum.  Every skipped
   * block holds no term, under either test, and when `acc` is a term with
   * no term nine above it, nothing lies between it and the block found.
   */
  method ScanPrefixes(S: Sum, acc: nat, asWritten: bool) returns (q: nat, assumed: nat)
    requires !IsTerm(S, acc + 9)
    ensures acc / 100 < q && assumed == DigitSum(q)
    ensures !Skips(S, assumed, asWritten)
    ensures NoTermIn(S, 100 * (acc / 100 + 1), 100 * q)
    ensures IsTerm(S, acc) ==> NoTermIn(S, acc + 1, 100 * q)
    ensures asWritten && S < 100 ==> q - 1 == acc / 100 || DigitSum(q - 1) > S
  {
    if IsTerm(S, acc) {
      LastOfBlock(S, acc);
    }
    q := acc / 100 + 1;
    assumed := DigitSum(q);
    ghost var target := FeasibleAbove(S, acc / 100);
    while Skips(S, assumed, asWritten)
      invariant acc / 100 < q <= target
      invariant assumed == DigitSum(q)
      invariant NoTermIn(S, 100 * (acc / 100 + 1), 100 * q)
      invariant IsTerm(S, acc) ==> NoTermIn(S, acc + 1, 100 * q)
      invariant asWritten && S < 100 ==> q - 1 == acc / 100 || DigitSum(q - 1) > S
      decreases target - q
    {
      NoTermInBlock(S, q);
      assumed := AdvanceAssumed(q, assumed);
      q := q + 1;
    }
  }

  /**
   * One step from `acc`, always upwards.  From a term, with the corrected
   * test it is the least term above `acc` for every sum; with the source's
   * test, for every sum below 100, where a prefix that leaves more than 18
   * for the last two digits is completed by a carry into the prefix.
   */
  method Step(S: Sum, acc: nat, asWritten: bool) returns (next: nat)
    ensures acc < next
    ensures IsTerm(S, acc) && StepIsExact(S, asWritten) ==> IsNextAfter(S, acc, next)
  {
    next := acc + 9;
    if DigitSum(next) == S {
      if IsTerm(S, acc) {
        NineStep(S, acc);
      }
      return next;
    }
    var q, assumed := ScanPrefixes(S, acc, asWritten);
    var base := q * 100;
    var addition := GreedyFill(S - assumed);
    if IsTerm(S, acc) && StepIsExact(S, asWritten) {
      CompletionIsNext(S, acc, q, asWritten);
    }
    next := base + addition;
  }

  /**
   * `get_ints`: the first `iterations` terms with the corrected test, and
   * with the source's test whenever the sum is below 100.
   */
  method GetInts(S: Sum, iterations: nat, asWritten: bool) returns (xs: seq<nat>)
    requires iterations >= 1
    ensures |xs| == iterations && xs[0] == Greedy(S)
    ensures forall i :: 0 < i < |xs| ==> xs[i - 1] < xs[i]
    ensures StepIsExact(S, asWritten) ==> FirstTerms(S, xs)
  {
    var acc := GetInitial(S);
    xs := [acc];
    for k := 1 to iterations
      invariant |xs| == k && xs[k - 1] == acc && xs[0] == Greedy(S)
      invariant forall i :: 0 < i < |xs| ==> xs[i - 1] < xs[i]
      invariant StepIsExact(S, asWritten) ==> IsTerm(S, acc) && FirstTerms(S, xs)
    {
      acc := Step(S, acc, asWritten);
      if StepIsExact(S, asWritten) {
        ChainExtend(S, 0, xs, acc);
      }
      xs := xs + [acc];
    }
  }
}
