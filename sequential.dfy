/**
 * The slow sequential generator (`SlowSequential`): walk every natural
 * number from zero, keeping the running digit sum with the tracker, and
 * emit each number whose digit sum, taken before the increment, equals
 * the requested sum.
 */
module Sequential {
  import opened DigitSums
  import opened Terms
  import opened Integer

  /** A term larger than `n`: the first term followed by enough zeros. */
  lemma TermAbove(S: nat, n: nat) returns (t: nat)
    requires S >= 1
    ensures n < t && IsTerm(S, t)
  {
    var first := Greedy(S);
    var p := Pow10(NumDigits(n));
    Pow10Exceeds(n);
    t := first * p;
    DigitSumShift(first, NumDigits(n));
    GreedyDigitSum(S);
    MulAtLeast(first, p);
  }

  /** `get_ints`: the first `iterations` terms, by exhaustive search. */
  method GetInts(S: Sum, iterations: nat) returns (xs: seq<nat>)
    ensures |xs| == iterations
    ensures FirstTerms(S, xs)
  {
    xs := [];
    var assumed := 0;
    var elem: nat := 0;
    ghost var target := TermAbove(S, 0);
    while |xs| < iterations
      invariant assumed == DigitSum(elem)
      invariant |xs| <= iterations && FirstTerms(S, xs)
      invariant |xs| > 0 ==> xs[|xs| - 1] < elem
      invariant NoTermIn(S, if |xs| == 0 then 0 else xs[|xs| - 1] + 1, elem)
      invariant elem <= target && IsTerm(S, target)
      decreases iterations - |xs|, target - elem
    {
      var willReturn := assumed == S;
      assumed := AdvanceAssumed(elem, assumed);
      if willReturn {
        if |xs| > 0 {
          ChainExtend(S, 0, xs, elem);
        }
        xs := xs + [elem];
        target := TermAbove(S, elem);
      }
      elem := elem + 1;
    }
  }
}
