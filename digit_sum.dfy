/**
 * Digit sums of unsigned integers: the radix-generic digit iterator, the
 * decimal digit sum built on it, the "assumed" tracker that keeps a running
 * digit sum correct across an increment, and the arithmetic facts about
 * digit sums that every generator relies on.
 */
module DigitSums {

  datatype Option<T> = None | Some(value: T)

  /** One past the largest 64-bit unsigned value. */
  const U64_LIMIT: nat := 0x1_0000_0000_0000_0000

  /** Sum of the base-`radix` digits of `n`; zero has no digits. */
  function DigitSumIn(n: nat, radix: nat): nat
    requires radix >= 2
    decreases n
  {
    if n == 0 then 0 else n % radix + DigitSumIn(n / radix, radix)
  }

  /** Decimal digit sum. */
  function DigitSum(n: nat): nat
  {
    DigitSumIn(n, 10)
  }

  function Pow10(t: nat): (p: nat)
    ensures p >= 1
  {
    if t == 0 then 1 else 10 * Pow10(t - 1)
  }

  /** Number of decimal digits of `n` (zero for zero). */
  function NumDigits(n: nat): nat
    decreases n
  {
    if n == 0 then 0 else 1 + NumDigits(n / 10)
  }

  /** Number of trailing decimal nines of `n`. */
  function TrailingNines(n: nat): nat
    decreases n
  {
    if n % 10 == 9 then 1 + TrailingNines(n / 10) else 0
  }

  /**
   * The digit iterator: yields the digits of `rest` from the least
   * significant one up, dividing `rest` by the radix at each step.
   */
  class DigitIter {
    var rest: nat
    const radix: nat

    constructor (value: nat, radix: nat)
      requires radix >= 2
      ensures rest == value && this.radix == radix
    {
      rest := value;
      this.radix := radix;
    }

    /** Digit sum of the digits not yet yielded. */
    ghost function Pending(): nat
      reads this
      requires radix >= 2
    {
      DigitSumIn(rest, radix)
    }

    method Next() returns (d: Option<nat>)
      requires radix >= 2
      modifies this
      ensures old(rest) == 0 ==> d == None && rest == 0
      ensures old(rest) != 0 ==> d == Some(old(rest) % radix) && rest == old(rest) / radix
      ensures d.Some? ==> d.value < radix && rest < old(rest)
      ensures Pending() + (if d.Some? then d.value else 0) == old(Pending())
    {
      if rest == 0 {
        d := None;
      } else {
        var ret := rest % radix;
        rest := rest / radix;
        d := Some(ret);
      }
    }
  }

  /** `digits_sum`: the sum of everything the decimal digit iterator yields. */
  method DigitsSum(n: nat) returns (s: nat)
    ensures s == DigitSum(n)
  {
    var it := new DigitIter(n, 10);
    s := 0;
    while true
      invariant it.radix == 10
      invariant s + it.Pending() == DigitSum(n)
      decreases it.rest
    {
      var d := it.Next();
      match d {
        case None => break;
        case Some(digit) => s := s + digit;
      }
    }
  }

  /**
   * The tracker step repeated throughout the source: given the digit sum of
   * `elem`, add one and take nine back for every trailing nine of `elem`,
   * giving the digit sum of `elem + 1` without ever going below zero.
   */
  method AdvanceAssumed(elem: nat, assumed: nat) returns (next: nat)
    requires assumed == DigitSum(elem)
    ensures next == DigitSum(elem + 1)
  {
    IncrementDigitSum(elem);
    next := assumed + 1;
    var e := elem;
    while e % 10 == 9
      invariant next == DigitSum(elem + 1) + 9 * TrailingNines(e)
      decreases e
    {
      next := next - 9;
      e := e / 10;
    }
  }

  lemma DivMod10(a: nat, b: nat)
    requires b < 10
    ensures (10 * a + b) / 10 == a && (10 * a + b) % 10 == b
  {
  }

  /** The digit-by-digit recursion, valid for zero as well. */
  lemma DigitSumUnfold(n: nat)
    ensures DigitSum(n) == n % 10 + DigitSum(n / 10)
  {
  }

  lemma NinesMultiple(a: nat)
    requires a % 9 == 0
    ensures a == 9 * (a / 9)
  {
  }

  lemma MultipleOfNine(c: nat)
    ensures (9 * c) % 9 == 0
  {
  }

  /** A number and its digit sum agree modulo nine, and the digit sum is never larger. */
  lemma {:induction false} DigitSumCongruent(n: nat)
    ensures DigitSum(n) <= n
    ensures (n - DigitSum(n)) % 9 == 0
    decreases n
  {
    if n > 0 {
      var q := n / 10;
      DigitSumCongruent(q);
      DigitSumUnfold(n);
      var c := (q - DigitSum(q)) / 9;
      assert q - DigitSum(q) == 9 * c by {
        NinesMultiple(q - DigitSum(q));
      }
      assert n == 10 * q + n % 10;
      assert n - DigitSum(n) == 9 * (q + c);
      MultipleOfNine(q + c);
    }
  }

  /** Putting `k` in front of the `t`-digit field `m` adds the digit sums. */
  lemma {:induction false} DigitSumSplit(k: nat, m: nat, t: nat)
    requires m < Pow10(t)
    ensures DigitSum(k * Pow10(t) + m) == DigitSum(k) + DigitSum(m)
    decreases t
  {
    if t == 0 {
      assert k * Pow10(t) + m == k;
    } else {
      var p := Pow10(t - 1);
      var n := k * Pow10(t) + m;
      assert k * Pow10(t) == 10 * (k * p);
      assert n == 10 * (k * p + m / 10) + m % 10;
      DivMod10(k * p + m / 10, m % 10);
      DigitSumSplit(k, m / 10, t - 1);
      DigitSumUnfold(n);
      DigitSumUnfold(m);
    }
  }

  /** The hundred block `k` followed by its last two digits `m`. */
  lemma DigitSumOfBlock(k: nat, m: nat)
    requires m < 100
    ensures DigitSum(100 * k + m) == DigitSum(k) + DigitSum(m)
  {
    assert Pow10(2) == 100;
    DigitSumSplit(k, m, 2);
  }

  /** The digit sum of `v` split at the hundreds: the prefix and the last two digits. */
  lemma DigitSumHundreds(v: nat)
    ensures DigitSum(v) == DigitSum(v / 100) + (v % 100) / 10 + (v % 100) % 10
  {
    var k := v / 100;
    var m := v % 100;
    assert v == 100 * k + m;
    DigitSumOfBlock(k, m);
    DigitSumTwoDigits(m);
  }

  lemma DigitSumTwoDigits(m: nat)
    requires m < 100
    ensures DigitSum(m) == m / 10 + m % 10
  {
    DigitSumUnfold(m);
    DigitSumUnfold(m / 10);
    assert (m / 10) / 10 == 0;
  }

  /** Appending zeros does not change the digit sum. */
  lemma DigitSumShift(k: nat, t: nat)
    ensures DigitSum(k * Pow10(t)) == DigitSum(k)
  {
    DigitSumSplit(k, 0, t);
  }

  lemma Pow10Of19()
    ensures Pow10(19) == 10_000_000_000_000_000_000 < U64_LIMIT
  {
    assert Pow10(10) == 10_000_000_000;
  }

  lemma {:induction false} Pow10Exceeds(n: nat)
    ensures n < Pow10(NumDigits(n))
    decreases n
  {
    if n > 0 {
      Pow10Exceeds(n / 10);
    }
  }

  /** The effect of `+ 1` on the digit sum: one up, nine down per trailing nine. */
  lemma {:induction false} IncrementDigitSum(n: nat)
    ensures DigitSum(n + 1) + 9 * TrailingNines(n) == DigitSum(n) + 1
    decreases n
  {
    DigitSumUnfold(n);
    DigitSumUnfold(n + 1);
    if n % 10 == 9 {
      IncrementDigitSum(n / 10);
      DivMod10(n / 10 + 1, 0);
    } else {
      DivMod10(n / 10, n % 10 + 1);
    }
  }

  /**
   * After `n + 1` there is room below the carried digit: `n + 1` ends in
   * `TrailingNines(n)` zeros, so a smaller field adds its digit sum.
   */
  lemma CarryRoom(n: nat, j: nat)
    requires j < Pow10(TrailingNines(n))
    ensures DigitSum(n + 1 + j) == DigitSum(n + 1) + DigitSum(j)
  {
    var t := TrailingNines(n);
    var k := TrailingZeros(n);
    DigitSumSplit(k, j, t);
    DigitSumShift(k, t);
  }

  lemma TenSplit(n: nat)
    ensures n == 10 * (n / 10) + n % 10 && n % 10 < 10
  {
  }

  /** `n + 1` ends in as many zeros as `n` ends in nines. */
  lemma {:induction false} TrailingZeros(n: nat) returns (k: nat)
    ensures n + 1 == k * Pow10(TrailingNines(n))
    decreases n
  {
    if n % 10 == 9 {
      var k' := TrailingZeros(n / 10);
      var p' := Pow10(TrailingNines(n / 10));
      TenSplit(n);
      assert Pow10(TrailingNines(n)) == 10 * p';
      k := k';
      assert 10 * (k' * p') == k' * (10 * p');
    } else {
      k := n + 1;
    }
  }
}
