/**
 * The generator specialised to digit sum 13 (`WithDigitSum13`): the first
 * term is the constant 49, and the completion of a block uses a closed
 * two-digit formula instead of the greedy loop.
 */
module Statique {
  import opened DigitSums
  import opened Terms
  import opened Integer

  const FIRST_TERM: nat := 49

  /**
   * The closed completion for digit sum 13: the last two digits that add
   * `13 - d`, a nine and the rest in the tens when that exceeds nine.
   */
  function Addition13(d: nat): (a: nat)
    requires d <= 13
    ensures a == Greedy(13 - d) && a < 100
    ensures DigitSum(a) == 13 - d
  {
    GreedyDigitSum(13 - d);
    if (13 - d) / 10 > 0 then 9 + (13 - d - 9) * 10 else 13 - d
  }

  /** One step for digit sum 13: the least term greater than the term `acc`. */
  method Step13(acc: nat) returns (next: nat)
    requires IsTerm(13, acc)
    ensures IsNextAfter(13, acc, next)
  {
    next := acc + 9;
    if DigitSum(next) == 13 {
      NineStep(13, acc);
      return next;
    }
    LastOfBlock(13, acc);
    ghost var p := acc / 100;
    next := NextMultipleOfHundred(next - 8);
    NextHundred(acc);
    ghost var top := PowerAbove(p + 1);
    ghost var target := 100 * top;
    DigitSumOfBlock(top, 0);
    while DigitSum(next) > 13
      invariant next % 100 == 0 && 100 * (p + 1) <= next <= target
      invariant NoTermIn(13, acc + 1, next)
      decreases target - next
    {
      ScanAdvance(13, acc + 1, next, top);
      next := NextMultipleOfHundred(next + 1);
    }
    var digitsSum := DigitSum(next);
    ghost var q := next / 100;
    assert next == 100 * q;
    DigitSumOfBlock(q, 0);
    assert digitsSum == DigitSum(q);
    LeastOfBlock(13, q);
    var addition := Addition13(digitsSum);
    NoTermJoin(13, acc + 1, next, next + addition);
    next := next + addition;
  }

  /** `get_ints` for digit sum 13: the first `iterations` terms, from 49. */
  method GetInts13(iterations: nat) returns (xs: seq<nat>)
    requires iterations >= 1
    ensures |xs| == iterations
    ensures FirstTerms(13, xs)
    ensures xs[0] == FIRST_TERM
  {
    FirstTermIsGreedy(13);
    assert Greedy(13) == FIRST_TERM;
    var acc := FIRST_TERM;
    xs := [acc];
    for k := 1 to iterations
      invariant |xs| == k && xs[k - 1] == acc && xs[0] == FIRST_TERM
      invariant IsTerm(13, acc) && FirstTerms(13, xs)
    {
      acc := Step13(acc);
      ChainExtend(13, 0, xs, acc);
      xs := xs + [acc];
    }
  }
}
