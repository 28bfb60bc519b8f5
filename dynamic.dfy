/**
 * The dynamic generator (`WithDigitSum`): start from the first term and
 * find each next term either nine steps up in the same block, or by
 * rounding up to the next hundred, skipping blocks whose prefix digit sum
 * is too large, and completing with the greedy fill.  The fill may carry
 * past the found block when the prefix leaves more than 18; that carry
 * still lands on the next term.
 */
module Dynamic {
  import opened DigitSums
  import opened Terms
  import opened Integer

  /**
   * The block scan after a failed fast path: the first hundred boundary
   * above `acc` whose prefix digit sum does not exceed `S`.  Every block
   * passed over holds no term, and the block just before the one found is
   * either the block of `acc` or one whose prefix already exceeds `S`.
   */
  method ScanBlocks(S: Sum, acc: nat) returns (next: nat)
    requires IsTerm(S, acc) && !IsTerm(S, acc + 9)
    ensures next % 100 == 0 && acc < next
    ensures DigitSum(next / 100) <= S
    ensures NoTermIn(S, acc + 1, next)
    ensures next / 100 - 1 == acc / 100 || DigitSum(next / 100 - 1) > S
  {
    LastOfBlock(S, acc);
    ghost var p := acc / 100;
    next := NextMultipleOfHundred(acc + 1);
    NextHundred(acc);
    ghost var top := PowerAbove(p + 1);
    ghost var target := 100 * top;
    DigitSumOfBlock(top, 0);
    while DigitSum(next) > S
      invariant next % 100 == 0 && 100 * (p + 1) <= next <= target
      invariant NoTermIn(S, acc + 1, next)
      invariant next / 100 - 1 == p || DigitSum(next / 100 - 1) > S
      decreases target - next
    {
      ScanAdvance(S, acc + 1, next, top);
      next := NextMultipleOfHundred(next + 1);
    }
    DigitSumOfBlock(next / 100, 0);
  }

  /** One step of the scan: the least term greater than the term `acc`. */
  method Step(S: Sum, acc: nat) returns (next: nat)
    requires IsTerm(S, acc)
    ensures IsNextAfter(S, acc, next)
  {
    var candidate := acc + 9;
    if DigitSum(candidate) == S {
      NineStep(S, acc);
      return candidate;
    }
    TermBlockFeasible(S, acc);
    var base := ScanBlocks(S, acc);
    var q := base / 100;
    DigitSumOfBlock(q, 0);
    var remainder := S - DigitSum(base);
    var addition := GreedyFill(remainder);
    if remainder <= 18 {
      LeastOfBlock(S, q);
    } else {
      CarryCompletion(S, q);
    }
    next := base + addition;
  }

  /** `get_ints`: the first `iterations` terms, the first of them `get_initial`. */
  method GetInts(S: Sum, iterations: nat) returns (xs: seq<nat>)
    requires iterations >= 1
    ensures |xs| == iterations
    ensures FirstTerms(S, xs)
  {
    var acc := GetInitial(S);
    xs := [acc];
    for k := 1 to iterations
      invariant |xs| == k && xs[k - 1] == acc
      invariant IsTerm(S, acc) && FirstTerms(S, xs)
    {
      acc := Step(S, acc);
      ChainExtend(S, 0, xs, acc);
      xs := xs + [acc];
    }
  }
}
