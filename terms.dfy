/**
 * What every generator promises: the terms of digit sum `S` are the
 * positive integers whose decimal digits add up to `S`, listed in
 * ascending order.  A prefix of that listing, and the terms lying in a
 * half-open range, are stated here independently of any algorithm.
 */
module Terms {
  import opened DigitSums

  /**
   * The largest digit sum a 64-bit unsigned value can have (nineteen
   * nines); above it the first term no longer fits in 64 bits.
   */
  const MAX_SUM: nat := 171

  /** A requested digit sum: a non-zero byte that still has 64-bit terms. */
  type Sum = s: nat | 1 <= s <= MAX_SUM witness 1

  predicate IsTerm(S: nat, v: nat)
  {
    DigitSum(v) == S
  }

  /** No term lies in `[lo, hi)`. */
  ghost predicate NoTermIn(S: nat, lo: nat, hi: nat)
  {
    forall v: nat :: lo <= v < hi ==> !IsTerm(S, v)
  }

  /** `w` is the least term greater than `acc`. */
  ghost predicate IsNextAfter(S: nat, acc: nat, w: nat)
  {
    acc < w && IsTerm(S, w) && NoTermIn(S, acc + 1, w)
  }

  /**
   * `xs` lists consecutive terms starting with the least term at or
   * above `lo`.
   */
  ghost predicate Chain(S: nat, lo: nat, xs: seq<nat>)
  {
    (|xs| > 0 ==> lo <= xs[0] && IsTerm(S, xs[0]) && NoTermIn(S, lo, xs[0])) &&
    (forall i :: 0 < i < |xs| ==> IsNextAfter(S, xs[i - 1], xs[i]))
  }

  /** `xs` is the first `|xs|` terms of the whole sequence. */
  ghost predicate FirstTerms(S: nat, xs: seq<nat>)
  {
    Chain(S, 0, xs)
  }

  /** `xs` lists, in strictly ascending order, exactly the terms in `[lo, hi)`. */
  ghost predicate EnumeratesRange(S: nat, xs: seq<nat>, lo: nat, hi: nat)
  {
    (forall i, j :: 0 <= i < j < |xs| ==> xs[i] < xs[j]) &&
    (forall v: nat :: v in xs <==> lo <= v < hi && IsTerm(S, v))
  }

  /** Two adjacent ranges without terms make one. */
  lemma NoTermJoin(S: nat, lo: nat, mid: nat, hi: nat)
    requires NoTermIn(S, lo, mid) && NoTermIn(S, mid, hi)
    ensures NoTermIn(S, lo, hi)
  {
  }

  /** Every entry of a listing of `[lo, hi)` lies in that range. */
  lemma ListingBounds(S: nat, xs: seq<nat>, lo: nat, hi: nat)
    requires EnumeratesRange(S, xs, lo, hi)
    ensures forall i :: 0 <= i < |xs| ==> lo <= xs[i] < hi && IsTerm(S, xs[i])
    ensures hi <= lo ==> xs == []
  {
    forall i | 0 <= i < |xs|
      ensures lo <= xs[i] < hi && IsTerm(S, xs[i])
    {
      assert xs[i] in xs;
    }
    if xs != [] {
      assert xs[0] in xs;
    }
  }

  /** A chain that stops below `hi`, with no term after its end, is the whole range. */
  lemma {:induction false} ChainToRange(S: nat, lo: nat, hi: nat, xs: seq<nat>)
    requires Chain(S, lo, xs)
    requires |xs| > 0 ==> xs[|xs| - 1] < hi
    requires NoTermIn(S, if |xs| == 0 then lo else xs[|xs| - 1] + 1, hi)
    ensures EnumeratesRange(S, xs, lo, hi)
    decreases |xs|
  {
    if |xs| > 0 {
      var last := xs[|xs| - 1];
      var ys := xs[..|xs| - 1];
      assert Chain(S, lo, ys) by {
        forall i | 0 < i < |ys|
          ensures IsNextAfter(S, ys[i - 1], ys[i])
        {
          assert ys[i - 1] == xs[i - 1] && ys[i] == xs[i];
        }
      }
      if |ys| > 0 {
        assert IsNextAfter(S, xs[|xs| - 2], last);
      }
      ChainToRange(S, lo, last, ys);
      assert lo <= last by {
        if |ys| > 0 {
          assert ys[0] in ys;
        }
      }
      assert xs == ys + [last];
      forall v: nat
        ensures v in xs <==> lo <= v < hi && IsTerm(S, v)
      {
        if lo <= v < hi && IsTerm(S, v) && v != last {
          assert v < last;
          assert v in ys;
        }
      }
      forall i, j | 0 <= i < j < |xs|
        ensures xs[i] < xs[j]
      {
        if j < |xs| - 1 {
          assert xs[i] == ys[i] && xs[j] == ys[j];
        } else {
          assert xs[i] == ys[i] && ys[i] in ys;
        }
      }
    }
  }

  /** The converse: the exact listing of a range is a chain from its start. */
  lemma RangeToChain(S: nat, lo: nat, hi: nat, xs: seq<nat>)
    requires EnumeratesRange(S, xs, lo, hi)
    ensures Chain(S, lo, xs)
    ensures |xs| > 0 ==> xs[|xs| - 1] < hi
  {
    if |xs| > 0 {
      assert xs[0] in xs;
      assert xs[|xs| - 1] in xs;
      forall v: nat | lo <= v < xs[0]
        ensures !IsTerm(S, v)
      {
        forall j | 0 <= j < |xs|
          ensures xs[j] != v
        {
          if j > 0 {
            assert xs[0] < xs[j];
          }
        }
        assert v !in xs;
      }
    }
    forall i | 0 < i < |xs|
      ensures IsNextAfter(S, xs[i - 1], xs[i])
    {
      assert xs[i - 1] in xs && xs[i] in xs;
      forall v: nat | xs[i - 1] + 1 <= v < xs[i]
        ensures !IsTerm(S, v)
      {
        forall j | 0 <= j < |xs|
          ensures xs[j] != v
        {
          if j < i - 1 {
            assert xs[j] < xs[i - 1];
          } else if j > i {
            assert xs[i] < xs[j];
          }
        }
        assert v !in xs;
      }
    }
  }

  /** Listings of adjacent ranges concatenate to the listing of their union. */
  lemma RangeConcat(S: nat, a: seq<nat>, b: seq<nat>, lo: nat, mid: nat, hi: nat)
    requires lo <= mid <= hi
    requires EnumeratesRange(S, a, lo, mid)
    requires EnumeratesRange(S, b, mid, hi)
    ensures EnumeratesRange(S, a + b, lo, hi)
  {
    forall i, j | 0 <= i < j < |a + b|
      ensures (a + b)[i] < (a + b)[j]
    {
      if j < |a| {
      } else if i >= |a| {
        assert (a + b)[i] == b[i - |a|] && (a + b)[j] == b[j - |a|];
      } else {
        assert a[i] in a && b[j - |a|] in b;
      }
    }
    forall v: nat
      ensures v in a + b <==> lo <= v < hi && IsTerm(S, v)
    {
      assert v in a + b <==> v in a || v in b;
    }
  }

  /** Every prefix of a chain is a chain from the same start. */
  lemma ChainPrefix(S: nat, lo: nat, xs: seq<nat>, k: nat)
    requires Chain(S, lo, xs)
    requires k <= |xs|
    ensures Chain(S, lo, xs[..k])
  {
    forall i | 0 < i < k
      ensures IsNextAfter(S, xs[..k][i - 1], xs[..k][i])
    {
      assert xs[..k][i - 1] == xs[i - 1] && xs[..k][i] == xs[i];
    }
  }

  /** Extending a chain by the next term keeps it a chain. */
  lemma ChainExtend(S: nat, lo: nat, xs: seq<nat>, w: nat)
    requires Chain(S, lo, xs)
    requires |xs| > 0 && IsNextAfter(S, xs[|xs| - 1], w)
    ensures Chain(S, lo, xs + [w])
  {
    forall i | 0 < i < |xs + [w]|
      ensures IsNextAfter(S, (xs + [w])[i - 1], (xs + [w])[i])
    {
      if i < |xs| {
        assert (xs + [w])[i - 1] == xs[i - 1] && (xs + [w])[i] == xs[i];
      }
    }
  }

  /**
   * Chains from the same start agree entry by entry: the shorter is a
   * prefix of the longer.  Every generator that lists first terms
   * therefore lists the same values.
   */
  lemma {:induction false} ChainAgree(S: nat, lo: nat, a: seq<nat>, b: seq<nat>)
    requires Chain(S, lo, a) && Chain(S, lo, b)
    requires |a| <= |b|
    ensures a == b[..|a|]
    decreases |a|
  {
    if |a| > 0 {
      var n := |a| - 1;
      ChainPrefix(S, lo, a, n);
      ChainAgree(S, lo, a[..n], b);
      assert a[..n] == b[..n];
      if n == 0 {
        assert a[0] == b[0];
      } else {
        assert a[n - 1] == b[n - 1] by {
          assert a[..n][n - 1] == b[..n][n - 1];
        }
        assert IsNextAfter(S, a[n - 1], a[n]) && IsNextAfter(S, b[n - 1], b[n]);
        assert a[n] == b[n];
      }
      assert a == a[..n] + [a[n]];
      assert b[..|a|] == b[..n] + [b[n]];
    }
  }

  /** Two first-term listings of the same length are equal. */
  lemma FirstTermsAgree(S: nat, a: seq<nat>, b: seq<nat>)
    requires FirstTerms(S, a) && FirstTerms(S, b) && |a| == |b|
    ensures a == b
  {
    ChainAgree(S, 0, a, b);
  }
}
