/**
 * The shared arithmetic of the integer engine: the greedy fill that
 * builds the smallest number of a given digit sum (`get_initial`,
 * `count_addition`), and the facts about hundred blocks that justify each
 * generator's "next term" step.  A hundred block `k` is the range
 * `[100 * k, 100 * k + 100)`; every number in it has digit sum
 * `DigitSum(k)` plus the digit sum of its last two digits.
 */
module Integer {
  import opened DigitSums
  import opened Terms

  /**
   * The greedy fill: nines from the least significant digit up, and the
   * rest of `r` in the highest digit.
   */
  function Greedy(r: nat): nat
    decreases r
  {
    if r == 0 then 0 else if r >= 9 then 9 + 10 * Greedy(r - 9) else r
  }

  /** What `count_addition` adds to a number whose digit sum is `d`. */
  function Completion(S: nat, d: nat): nat
  {
    if d > S then 0 else Greedy(S - d)
  }

  lemma {:induction false} GreedyDigitSum(r: nat)
    ensures DigitSum(Greedy(r)) == r
    decreases r
  {
    if r >= 9 {
      GreedyDigitSum(r - 9);
      DivMod10(Greedy(r - 9), 9);
      DigitSumUnfold(Greedy(r));
    } else if r > 0 {
      DigitSumUnfold(r);
    }
  }

  lemma {:induction false} GreedyStep(a: nat)
    ensures Greedy(a) < Greedy(a + 1)
    decreases a
  {
    if a >= 9 {
      GreedyStep(a - 9);
    }
  }

  lemma {:induction false} GreedyIncreasing(a: nat, b: nat)
    requires a < b
    ensures Greedy(a) < Greedy(b)
    decreases b - a
  {
    GreedyStep(a);
    if a + 1 < b {
      GreedyIncreasing(a + 1, b);
    }
  }

  /** The greedy fill is the least number with digit sum `r`. */
  lemma {:induction false} GreedyLeast(r: nat, v: nat)
    requires DigitSum(v) == r
    ensures Greedy(r) <= v
    decreases v
  {
    DigitSumCongruent(v);
    if r >= 10 {
      var q := v / 10;
      var d := v % 10;
      DigitSumUnfold(v);
      GreedyLeast(r - d, q);
      if d < 9 {
        GreedyIncreasing(r - 9, r - d);
      }
      assert v == 10 * q + d;
    }
  }

  /** A sum of at most `9 * t` fills at most `t` digits. */
  lemma {:induction false} GreedyBelowPow10(r: nat, t: nat)
    requires r <= 9 * t
    ensures Greedy(r) < Pow10(t)
    decreases t
  {
    if t > 0 && r >= 9 {
      GreedyBelowPow10(r - 9, t - 1);
    }
  }

  /** The fill stays inside the last two digits exactly when `r <= 18`. */
  lemma GreedyTwoDigits(r: nat)
    ensures Greedy(r) < 100 <==> r <= 18
  {
    if r <= 18 {
      assert Pow10(2) == 100;
      GreedyBelowPow10(r, 2);
    } else {
      assert Greedy(19) == 199;
      if r > 19 {
        GreedyIncreasing(19, r);
      }
    }
  }

  /** Beyond eighteen the fill ends in `99` and continues in the hundreds. */
  lemma GreedyCarry(r: nat)
    requires r >= 18
    ensures Greedy(r) == 99 + 100 * Greedy(r - 18)
  {
    assert Greedy(r) == 9 + 10 * Greedy(r - 9);
    assert Greedy(r - 9) == 9 + 10 * Greedy(r - 18);
  }

  /** One round of the greedy loops: the nine placed at weight `i`. */
  lemma GreedyPeel(i: nat, r: nat)
    requires r >= 9
    ensures i * Greedy(r) == 9 * i + (10 * i) * Greedy(r - 9)
  {
    var g := Greedy(r - 9);
    assert Greedy(r) == 9 + 10 * g;
    assert i * (9 + 10 * g) == 9 * i + (10 * i) * g;
  }

  /**
   * `get_initial`: the greedy fill of the whole sum, which is the first
   * term and fits in 64 bits.
   */
  method GetInitial(S: Sum) returns (first: nat)
    ensures first == Greedy(S)
    ensures IsNextAfter(S, 0, first)
    ensures first < U64_LIMIT
  {
    var sumClone: nat := S;
    first := 0;
    var i: nat := 1;
    while sumClone != 0
      invariant first + i * Greedy(sumClone) == Greedy(S)
      decreases sumClone
    {
      if sumClone >= 9 {
        GreedyPeel(i, sumClone);
        sumClone := sumClone - 9;
        first := first + 9 * i;
      } else {
        first := first + sumClone * i;
        sumClone := 0;
      }
      i := i * 10;
    }
    FirstTermIsGreedy(S);
  }

  /** The greedy fill of the whole sum is the least term, and it fits in 64 bits. */
  lemma FirstTermIsGreedy(S: Sum)
    ensures IsNextAfter(S, 0, Greedy(S))
    ensures Greedy(S) < U64_LIMIT
  {
    GreedyDigitSum(S);
    forall v: nat | 1 <= v < Greedy(S)
      ensures !IsTerm(S, v)
    {
      if IsTerm(S, v) {
        GreedyLeast(S, v);
      }
    }
    GreedyBelowPow10(S, 19);
    Pow10Of19();
  }

  /** The first terms the tests list for particular sums. */
  lemma InitialExamples()
    ensures forall s: nat :: 1 <= s <= 9 ==> Greedy(s) == s
    ensures forall s: nat :: 10 <= s <= 18 ==> Greedy(s) == 10 * (s - 9) + 9
    ensures Greedy(13) == 49 && Greedy(19) == 199 && Greedy(20) == 299
    ensures Greedy(21) == 399 && Greedy(22) == 499 && Greedy(23) == 599 && Greedy(24) == 699
    ensures Greedy(25) == 799 && Greedy(35) == 8999
  {
  }

  /**
   * The greedy loop of `count_addition`, also written out in the dynamic
   * and future-looking generators: lay `remainder` out as nines from the
   * units digit up.
   */
  method GreedyFill(remainder: nat) returns (addition: nat)
    ensures addition == Greedy(remainder)
    ensures DigitSum(addition) == remainder
    ensures forall v: nat :: DigitSum(v) == remainder ==> addition <= v
  {
    var rest: nat := remainder;
    addition := 0;
    var i: nat := 1;
    while rest != 0
      invariant addition + i * Greedy(rest) == Greedy(remainder)
      decreases rest
    {
      if rest >= 9 {
        GreedyPeel(i, rest);
        addition := addition + 9 * i;
        rest := rest - 9;
      } else {
        addition := addition + rest * i;
        rest := 0;
      }
      i := i * 10;
    }
    GreedyDigitSum(remainder);
    forall v: nat | DigitSum(v) == remainder
      ensures addition <= v
    {
      GreedyLeast(remainder, v);
    }
  }

  /**
   * `count_addition`: how much to add to `value` so that the digit sum
   * becomes `S`, or zero when `value` already has too large a digit sum.
   * On a hundred boundary whose block holds a term, the result leads to
   * the block's least term.
   */
  method CountAddition(S: Sum, value: nat) returns (addition: nat)
    ensures addition == Completion(S, DigitSum(value))
    ensures DigitSum(value) > S ==> addition == 0
    ensures DigitSum(value) <= S ==> DigitSum(addition) == S - DigitSum(value)
    ensures value % 100 == 0 && DigitSum(value) <= S <= DigitSum(value) + 18 ==>
              addition < 100 && IsTerm(S, value + addition) && NoTermIn(S, value, value + addition)
  {
    if S < DigitSum(value) {
      return 0;
    }
    var remainder := S - DigitSum(value);
    addition := GreedyFill(remainder);
    if value % 100 == 0 && DigitSum(value) <= S <= DigitSum(value) + 18 {
      var k := value / 100;
      DigitSumOfBlock(k, 0);
      LeastOfBlock(S, k);
    }
  }

  /**
   * The least term of a hundred block whose prefix leaves between 0 and
   * 18 for the last two digits is the prefix followed by the greedy fill.
   */
  lemma LeastOfBlock(S: nat, k: nat)
    requires DigitSum(k) <= S <= DigitSum(k) + 18
    ensures Greedy(S - DigitSum(k)) < 100
    ensures IsTerm(S, 100 * k + Greedy(S - DigitSum(k)))
    ensures NoTermIn(S, 100 * k, 100 * k + Greedy(S - DigitSum(k)))
  {
    var r := S - DigitSum(k);
    var g := Greedy(r);
    GreedyTwoDigits(r);
    GreedyDigitSum(r);
    DigitSumOfBlock(k, g);
    forall v: nat | 100 * k <= v < 100 * k + g
      ensures !IsTerm(S, v)
    {
      var m := v - 100 * k;
      DigitSumOfBlock(k, m);
      if DigitSum(m) == r {
        GreedyLeast(r, m);
      }
    }
  }

  /** A block whose prefix leaves less than 0 or more than 18 holds no term. */
  lemma NoTermInBlock(S: nat, k: nat)
    requires DigitSum(k) > S || S - DigitSum(k) > 18
    ensures NoTermIn(S, 100 * k, 100 * k + 100)
  {
    forall v: nat | 100 * k <= v < 100 * k + 100
      ensures !IsTerm(S, v)
    {
      var m := v - 100 * k;
      DigitSumOfBlock(k, m);
      DigitSumTwoDigits(m);
    }
  }

  /** Two-digit numbers with equal digit sums differ by a multiple of nine. */
  lemma SameSumTwoDigits(m: nat, m': nat)
    requires m < m' < 100
    requires DigitSum(m) == DigitSum(m')
    ensures m + 9 < 100 && DigitSum(m + 9) == DigitSum(m)
  {
    DigitSumTwoDigits(m);
    DigitSumTwoDigits(m');
    var a, b := m / 10, m % 10;
    var a', b' := m' / 10, m' % 10;
    assert m == 10 * a + b && m' == 10 * a' + b';
    assert a < a';
    assert m + 9 == 10 * (a + 1) + (b - 1);
    DivMod10(a + 1, b - 1);
    DigitSumTwoDigits(m + 9);
  }

  /**
   * The `+ 9` fast path: between two terms nine apart there is no other,
   * because a number and its digit sum agree modulo nine.
   */
  lemma NineStep(S: nat, acc: nat)
    requires IsTerm(S, acc) && IsTerm(S, acc + 9)
    ensures IsNextAfter(S, acc, acc + 9)
  {
    DigitSumCongruent(acc);
    NinesMultiple(acc - S);
    forall v: nat | acc + 1 <= v < acc + 9
      ensures !IsTerm(S, v)
    {
      DigitSumCongruent(v);
      NinesMultiple(v - DigitSum(v));
    }
  }

  /**
   * When `acc + 9` is not a term, `acc` is the last term of its hundred
   * block: a later one would share its two-digit sum and force `acc + 9`.
   */
  lemma LastOfBlock(S: nat, acc: nat)
    requires IsTerm(S, acc) && !IsTerm(S, acc + 9)
    ensures NoTermIn(S, acc + 1, 100 * (acc / 100 + 1))
  {
    var p := acc / 100;
    var m := acc % 100;
    DigitSumOfBlock(p, m);
    forall v: nat | acc + 1 <= v < 100 * (p + 1)
      ensures !IsTerm(S, v)
    {
      var m' := v - 100 * p;
      DigitSumOfBlock(p, m');
      if DigitSum(m') == DigitSum(m) {
        SameSumTwoDigits(m, m');
        DigitSumOfBlock(p, m + 9);
      }
    }
  }

  /**
   * The carry case of the dynamic generator: the first block `q` after a
   * run of blocks whose prefix sums are too large leaves more than 18, but
   * `q` ends in enough zeros that the fill's upper part sits inside the
   * prefix, so the completed number is still the block's least term and
   * nothing between `100 * q` and it qualifies.
   */
  lemma CarryCompletion(S: nat, q: nat)
    requires q >= 1
    requires DigitSum(q) <= S && S - DigitSum(q) > 18
    requires DigitSum(q - 1) > S || S - DigitSum(q - 1) <= 18
    ensures IsTerm(S, 100 * q + Greedy(S - DigitSum(q)))
    ensures NoTermIn(S, 100 * q, 100 * q + Greedy(S - DigitSum(q)))
  {
    var r := S - DigitSum(q);
    var g := CarryTerm(S, q);
    GreedyCarry(r);
    forall v: nat | 100 * q <= v < 100 * (q + g) + 99
      ensures !IsTerm(S, v)
    {
      CarryGapPoint(S, q, r, v);
    }
  }

  /**
   * The carried completion itself: the prefix `q` followed by the fill of
   * what the last two digits cannot hold lands on digit sum `S`, because
   * the trailing nines of `q - 1` leave room for that fill.
   */
  lemma CarryTerm(S: nat, q: nat) returns (g: nat)
    requires q >= 1
    requires DigitSum(q) <= S && S - DigitSum(q) > 18
    requires DigitSum(q - 1) > S || S - DigitSum(q - 1) <= 18
    ensures g == Greedy(S - DigitSum(q) - 18) && g < Pow10(TrailingNines(q - 1))
    ensures IsTerm(S, 100 * q + Greedy(S - DigitSum(q)))
  {
    var n := q - 1;
    IncrementDigitSum(n);
    var r := S - DigitSum(q);
    g := Greedy(r - 18);
    assert DigitSum(n + 1) == DigitSum(q);
    GreedyBelowPow10(r - 18, TrailingNines(n));
    GreedyCarry(r);
    GreedyDigitSum(r - 18);
    CarryRoom(n, g);
    NinetyNineEnding(n + 1 + g, 100 * q + Greedy(r));
  }

  /** A number ending in 99 has the digit sum of its prefix plus 18. */
  lemma NinetyNineEnding(x: nat, v: nat)
    requires v == 100 * x + 99
    ensures DigitSum(v) == DigitSum(x) + 18
  {
    DigitSumTwoDigits(99);
    DigitSumOfBlock(x, 99);
  }

  /**
   * The completion after a scan that started right after the term `acc`:
   * when the scan stopped at a prefix the test accepts, with no term passed
   * over and, under the source's test, the block before it either that of
   * `acc` or one whose prefix exceeds `S`, the completed number is the next
   * term.
   */
  lemma CompletionIsNext(S: nat, acc: nat, q: nat, asWritten: bool)
    requires IsTerm(S, acc) && StepIsExact(S, asWritten)
    requires acc / 100 < q && !Skips(S, DigitSum(q), asWritten)
    requires NoTermIn(S, acc + 1, 100 * q)
    requires asWritten ==> q - 1 == acc / 100 || DigitSum(q - 1) > S
    ensures DigitSum(q) <= S
    ensures IsNextAfter(S, acc, 100 * q + Greedy(S - DigitSum(q)))
  {
    if S - DigitSum(q) <= 18 {
      LeastOfBlock(S, q);
    } else {
      TermBlockFeasible(S, acc);
      CarryCompletion(S, q);
    }
  }

  /** One number below the carried completion: its digit sum falls short of `S`. */
  lemma CarryGapPoint(S: nat, q: nat, r: nat, v: nat)
    requires q >= 1 && r > 18 && DigitSum(q) + r == S
    requires Greedy(r - 18) < Pow10(TrailingNines(q - 1))
    requires 100 * q <= v < 100 * (q + Greedy(r - 18)) + 99
    ensures !IsTerm(S, v)
  {
    var g := Greedy(r - 18);
    var j, m := GapSplit(q, g, v);
    EndingDigits(m);
    if j < g {
      ShortPrefix(r - 18, j);
    } else {
      GreedyDigitSum(r - 18);
    }
  }

  /**
   * A number in the carried gap is `100 * (q + j) + m`, and its digit sum
   * splits into those of `q`, of `j` and of the two last digits.
   */
  lemma GapSplit(q: nat, g: nat, v: nat) returns (j: nat, m: nat)
    requires q >= 1 && g < Pow10(TrailingNines(q - 1))
    requires 100 * q <= v < 100 * (q + g) + 99
    ensures j <= g && m < 100 && (j == g ==> m < 99)
    ensures DigitSum(v) == DigitSum(q) + DigitSum(j) + m / 10 + m % 10
  {
    var k := v / 100;
    m := v % 100;
    HundredSplit(v);
    assert q <= k <= q + g;
    j := k - q;
    var n := q - 1;
    assert n + 1 + j == k && n + 1 == q;
    CarryRoom(n, j);
    DigitSumHundreds(v);
  }

  /** The two last digits add to at most 18, and to at most 17 below 99. */
  lemma EndingDigits(m: nat)
    requires m < 100
    ensures m / 10 + m % 10 <= 18
    ensures m < 99 ==> m / 10 + m % 10 <= 17
  {
  }

  /** A number below the greedy fill of `t` has a smaller digit sum. */
  lemma ShortPrefix(t: nat, j: nat)
    requires j < Greedy(t)
    ensures DigitSum(j) < t
  {
    GreedyLeast(DigitSum(j), j);
    if DigitSum(j) > t {
      GreedyIncreasing(t, DigitSum(j));
    }
  }

  lemma HundredSplit(v: nat)
    ensures v == 100 * (v / 100) + v % 100 && v % 100 < 100
  {
  }

  /**
   * The block-skipping test as the source writes it in the future-looking
   * and bounded generators: skip while the prefix digit sum exceeds `S`
   * or leaves 100 or more for the last two digits.
   */
  predicate SkipsBlockAsWritten(S: nat, assumed: nat)
  {
    assumed > S || S - assumed >= 100
  }

  /**
   * The test the block arithmetic calls for: two digits hold at most 18,
   * so a block is skipped when the prefix leaves more than that.
   */
  predicate SkipsBlock(S: nat, assumed: nat)
  {
    assumed > S || S - assumed > 18
  }

  /** The scan test in use: the source's when `asWritten`, the corrected one otherwise. */
  predicate Skips(S: nat, assumed: nat, asWritten: bool)
  {
    if asWritten then SkipsBlockAsWritten(S, assumed) else SkipsBlock(S, assumed)
  }

  /**
   * When a scan that starts right after a term ends on the next term: the
   * source's test skips exactly the blocks whose prefix exceeds `S` while
   * `S` is below 100, which is all the carrying completion needs.
   */
  predicate StepIsExact(S: nat, asWritten: bool)
  {
    !asWritten || S < 100
  }

  /**
   * When a scan from an arbitrary hundred boundary stops exactly at the
   * first block that holds a term: the two tests agree up to 18.
   */
  predicate ScanIsExact(S: nat, asWritten: bool)
  {
    !asWritten || S <= 18
  }

  /** The corrected test skips exactly the hundred blocks that hold no term. */
  lemma SkipsBlockExactly(S: nat, k: nat)
    ensures SkipsBlock(S, DigitSum(k)) <==> NoTermIn(S, 100 * k, 100 * k + 100)
  {
    if SkipsBlock(S, DigitSum(k)) {
      NoTermInBlock(S, k);
    } else {
      LeastOfBlock(S, k);
      var w := 100 * k + Greedy(S - DigitSum(k));
      assert 100 * k <= w < 100 * k + 100 && IsTerm(S, w);
    }
  }

  /** For sums up to 18 the two tests coincide. */
  lemma GuardsAgreeForSmallSums(S: nat, assumed: nat)
    requires S <= 18
    ensures SkipsBlockAsWritten(S, assumed) <==> SkipsBlock(S, assumed)
  {
  }

  /**
   * The test as written lets block 2 through for `S = 29`: its prefix
   * leaves 27, which is below 100, yet the block holds no term, and the
   * number completed there, 1199, has digit sum 20.  The bounded generator
   * drops that first candidate by its digit sum, but its next step from
   * 1199 fails the `+9` check at 1208, lets block 12 through the same way,
   * and emits 2099, whose digit sum is 20, below the window end 5200.
   */
  lemma AsWrittenGuardAdmitsEmptyBlock()
    ensures !SkipsBlockAsWritten(29, DigitSum(2))
    ensures NoTermIn(29, 200, 300)
    ensures 200 + Greedy(29 - DigitSum(2)) == 1199 && DigitSum(1199) == 20
    ensures DigitSum(1199 + 9) != 29 && 1199 / 100 + 1 == 12
    ensures !SkipsBlockAsWritten(29, DigitSum(12))
    ensures 100 * 12 + Completion(29, DigitSum(12)) == 2099
    ensures DigitSum(2099) == 20 && 2099 < 5200
  {
    NoTermInBlock(29, 2);
    EmittedNonTerm();
  }

  lemma EmittedNonTerm()
    ensures DigitSum(1208) == 11 && DigitSum(12) == 3
    ensures Greedy(26) == 899 && DigitSum(2099) == 20
  {
    assert Greedy(8) == 8;
  }

  /**
   * For `S = 110` the future-looking step after the term 2999999999999
   * stops its scan at prefix 30000000008 and completes it to
   * 3100000000799, whose digit sum is 29.
   */
  lemma AsWrittenGuardMisplacesCompletion()
    ensures DigitSum(2999999999999) == 110
    ensures !SkipsBlockAsWritten(110, DigitSum(30000000008))
    ensures SkipsBlock(110, DigitSum(30000000008))
    ensures 100 * 30000000008 + Greedy(110 - DigitSum(30000000008)) == 3100000000799
    ensures DigitSum(3100000000799) == 29
  {
    MisplacedTerm();
    MisplacedPrefix();
    MisplacedFill();
    MisplacedResult();
  }

  lemma MisplacedTerm()
    ensures DigitSum(2999999999999) == 110
  {
  }

  lemma MisplacedPrefix()
    ensures DigitSum(30000000008) == 11
  {
  }

  lemma MisplacedFill()
    ensures Greedy(99) == 99999999999
  {
  }

  lemma MisplacedResult()
    ensures DigitSum(3100000000799) == 29
  {
  }

  /**
   * Rust's `next_multiple_of(100)`, the only modulus the generators use:
   * the multiple of a hundred in `[x, x + 100)`.
   */
  function NextMultipleOfHundred(x: nat): (r: nat)
    ensures r % 100 == 0 && x <= r < x + 100
  {
    if x % 100 == 0 then x else x + (100 - x % 100)
  }

  /** Rounding a successor up to a hundred lands on the next hundred boundary. */
  lemma NextHundred(x: nat)
    ensures NextMultipleOfHundred(x + 1) == 100 * (x / 100 + 1)
    ensures NextMultipleOfHundred(x + 1) / 100 == x / 100 + 1
  {
  }

  /** A hundred boundary below `100 * top` is followed by one at most there. */
  lemma HundredBelow(x: nat, top: nat)
    requires x % 100 == 0 && x < 100 * top
    ensures 100 * (x / 100 + 1) <= 100 * top
  {
  }

  /**
   * One round of the block scan: from a hundred boundary whose prefix sum
   * exceeds `S`, below a boundary `100 * top` whose prefix sum does not,
   * the next boundary passes over no term and stays at most at `100 * top`.
   */
  lemma ScanAdvance(S: nat, lo: nat, x: nat, top: nat)
    requires x % 100 == 0 && x <= 100 * top && DigitSum(100 * top) <= S
    requires NoTermIn(S, lo, x) && DigitSum(x) > S
    ensures NextMultipleOfHundred(x + 1) % 100 == 0
    ensures x < NextMultipleOfHundred(x + 1) <= 100 * top
    ensures NoTermIn(S, lo, NextMultipleOfHundred(x + 1))
    ensures DigitSum(NextMultipleOfHundred(x + 1) / 100 - 1) > S
  {
    var k := x / 100;
    assert x == 100 * k;
    DigitSumOfBlock(k, 0);
    NoTermInBlock(S, k);
    NextHundred(x);
    HundredBelow(x, top);
    NoTermJoin(S, lo, x, x + 100);
  }

  /** A term's own block leaves between 0 and 18 for its last two digits. */
  lemma TermBlockFeasible(S: nat, acc: nat)
    requires IsTerm(S, acc)
    ensures DigitSum(acc / 100) <= S <= DigitSum(acc / 100) + 18
  {
    DigitSumOfBlock(acc / 100, acc % 100);
    DigitSumTwoDigits(acc % 100);
  }

  /** A power of ten above `q`, which as a prefix has digit sum one. */
  lemma PowerAbove(q: nat) returns (p: nat)
    ensures q < p && DigitSum(p) == 1
  {
    p := Pow10(NumDigits(q));
    Pow10Exceeds(q);
    DigitSumShift(1, NumDigits(q));
  }

  /** A block prefix above `q` that the corrected test does not skip. */
  lemma FeasibleAbove(S: nat, q: nat) returns (p: nat)
    requires S >= 1
    ensures q < p && !SkipsBlock(S, DigitSum(p))
  {
    var t := NumDigits(q);
    Pow10Exceeds(q);
    if S <= 18 {
      p := Pow10(t);
      DigitSumShift(1, t);
    } else {
      var c := Greedy(S - 18);
      var w := Pow10(t);
      GreedyDigitSum(S - 18);
      PositiveOfDigitSum(c);
      DigitSumShift(c, t);
      MulAtLeast(c, w);
      p := c * w;
    }
  }

  lemma MulAtLeast(a: nat, b: nat)
    requires a >= 1
    ensures a * b >= b
  {
  }

  lemma PositiveOfDigitSum(n: nat)
    requires DigitSum(n) >= 1
    ensures n >= 1
  {
  }
}
