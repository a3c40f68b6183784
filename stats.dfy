/**
 * Population statistics over exact reals: sums, means, the population
 * variance (denominator N, pandas `std(ddof=0)` squared), and pandas'
 * skip-missing mean. Square roots are not taken here: the analyzers compare
 * squares against the variance instead.
 */
module Stats {
  import opened Common

  function Sum(xs: seq<real>): real
  {
    if xs == [] then 0.0 else xs[0] + Sum(xs[1..])
  }

  lemma {:induction false} SumAppend(a: seq<real>, b: seq<real>)
    ensures Sum(a + b) == Sum(a) + Sum(b)
  {
    if a != [] {
      assert (a + b)[1..] == a[1..] + b;
      SumAppend(a[1..], b);
    } else {
      assert a + b == b;
    }
  }

  /** Each value within [lo, hi] puts the sum within [n·lo, n·hi]. */
  lemma {:induction false} SumBounds(xs: seq<real>, lo: real, hi: real)
    requires forall i :: 0 <= i < |xs| ==> lo <= xs[i] <= hi
    ensures |xs| as real * lo <= Sum(xs) <= |xs| as real * hi
  {
    if xs != [] {
      SumBounds(xs[1..], lo, hi);
      assert |xs| as real * lo == lo + (|xs| - 1) as real * lo;
      assert |xs| as real * hi == hi + (|xs| - 1) as real * hi;
    }
  }

  /** n copies of c sum to n·c. */
  lemma SumConstant(xs: seq<real>, c: real)
    requires forall i :: 0 <= i < |xs| ==> xs[i] == c
    ensures Sum(xs) == |xs| as real * c
  {
    SumBounds(xs, c, c);
  }

  /** All values equal to c except the one at k: the sum is (n-1)·c + xs[k]. */
  lemma {:induction false} SumAllButOne(xs: seq<real>, k: nat, c: real)
    requires k < |xs|
    requires forall i :: 0 <= i < |xs| && i != k ==> xs[i] == c
    ensures Sum(xs) == (|xs| - 1) as real * c + xs[k]
  {
    if k == 0 {
      SumConstant(xs[1..], c);
    } else {
      SumAllButOne(xs[1..], k - 1, c);
      assert (|xs| - 1) as real * c == c + (|xs| - 2) as real * c;
    }
  }

  /** A sum of non-negative terms is zero exactly when every term is. */
  lemma {:induction false} SumNonNegativeZero(xs: seq<real>)
    requires forall i :: 0 <= i < |xs| ==> xs[i] >= 0.0
    ensures Sum(xs) >= 0.0
    ensures Sum(xs) == 0.0 <==> forall i :: 0 <= i < |xs| ==> xs[i] == 0.0
  {
    if xs != [] {
      SumNonNegativeZero(xs[1..]);
      if Sum(xs) == 0.0 {
        forall i | 0 <= i < |xs| ensures xs[i] == 0.0 {
          if i > 0 { assert xs[i] == xs[1..][i - 1]; }
        }
      }
    }
  }

  function Mean(xs: seq<real>): real
    requires |xs| > 0
  {
    Sum(xs) / |xs| as real
  }

  /** The mean lies within any bounds that hold of every value. */
  lemma MeanBounds(xs: seq<real>, lo: real, hi: real)
    requires |xs| > 0
    requires forall i :: 0 <= i < |xs| ==> lo <= xs[i] <= hi
    ensures lo <= Mean(xs) <= hi
  {
    SumBounds(xs, lo, hi);
  }

  /** The mean of a constant sequence is that constant. */
  lemma MeanConstant(xs: seq<real>, c: real)
    requires |xs| > 0
    requires forall i :: 0 <= i < |xs| ==> xs[i] == c
    ensures Mean(xs) == c
  {
    MeanBounds(xs, c, c);
  }

  /** Every value moved by -c. */
  function Shift(xs: seq<real>, c: real): (ys: seq<real>)
    ensures |ys| == |xs| && forall i :: 0 <= i < |xs| ==> ys[i] == xs[i] - c
  {
    seq(|xs|, i requires 0 <= i < |xs| => xs[i] - c)
  }

  lemma {:induction false} SumShift(xs: seq<real>, c: real)
    ensures Sum(Shift(xs, c)) == Sum(xs) - |xs| as real * c
  {
    if xs != [] {
      assert Shift(xs, c)[1..] == Shift(xs[1..], c);
      SumShift(xs[1..], c);
      assert |xs| as real * c == c + (|xs| - 1) as real * c;
    }
  }

  /** Deviations from the mean sum to zero. */
  lemma SumDeviations(xs: seq<real>)
    requires |xs| > 0
    ensures Sum(Shift(xs, Mean(xs))) == 0.0
  {
    SumShift(xs, Mean(xs));
  }

  /** Squared deviations of the values from mu. */
  function SquaredDeviations(xs: seq<real>, mu: real): (ys: seq<real>)
    ensures |ys| == |xs|
    ensures forall i :: 0 <= i < |xs| ==> ys[i] == (xs[i] - mu) * (xs[i] - mu) && ys[i] >= 0.0
  {
    var ys := seq(|xs|, i requires 0 <= i < |xs| => (xs[i] - mu) * (xs[i] - mu));
    assert forall i :: 0 <= i < |xs| ==> ys[i] >= 0.0 by {
      forall i | 0 <= i < |xs| {
        SquareNonNegative(xs[i] - mu, 0.0);
      }
    }
    ys
  }

  /*
   * Sign facts about products. They are stated against a bound `zero` that
   * the caller sets to 0.0 rather than against the literal, which keeps the
   * solver's rewriting of squares compared with the constant 0 out of the
   * way of these otherwise routine steps.
   */
  lemma ProductPositive(a: real, b: real, zero: real)
    requires zero == 0.0 && a > zero && b > zero
    ensures a * b > zero
  {
  }

  lemma QuotientPositive(a: real, b: real, zero: real)
    requires zero == 0.0 && a > zero && b > zero
    ensures a / b > zero
  {
  }

  /** The square of a non-zero number is positive. */
  lemma SquarePositive(d: real, zero: real)
    requires zero == 0.0
    ensures d != 0.0 ==> d * d > zero
  {
    if d > 0.0 {
      ProductPositive(d, d, zero);
    } else if d < 0.0 {
      ProductPositive(-d, -d, zero);
    }
  }

  lemma SquareNonNegative(d: real, zero: real)
    requires zero == 0.0
    ensures d * d >= zero
  {
    SquarePositive(d, zero);
  }

  /** A sum of non-negative terms is at least each of its terms. */
  lemma {:induction false} SumAtLeastTerm(xs: seq<real>, k: nat)
    requires k < |xs|
    requires forall i :: 0 <= i < |xs| ==> xs[i] >= 0.0
    ensures Sum(xs) >= xs[k]
  {
    SumNonNegativeZero(xs[1..]);
    if k > 0 {
      SumAtLeastTerm(xs[1..], k - 1);
    }
  }

  /** Population variance: mean squared deviation from the mean (ddof = 0). */
  function PopVariance(xs: seq<real>): (v: real)
    requires |xs| > 0
    ensures v >= 0.0
  {
    var sq := SquaredDeviations(xs, Mean(xs));
    SumNonNegativeZero(sq);
    Mean(sq)
  }

  /** Two different values give a positive variance. */
  lemma VariancePositive(xs: seq<real>, j: nat)
    requires j < |xs| && xs[j] != xs[0]
    ensures PopVariance(xs) > 0.0
  {
    var mu := Mean(xs);
    var sq := SquaredDeviations(xs, mu);
    var i := if xs[0] != mu then 0 else j;
    var zero := 0.0;
    SquarePositive(xs[i] - mu, zero);
    assert sq[i] > zero;
    SumAtLeastTerm(sq, i);
    QuotientPositive(Sum(sq), |sq| as real, zero);
  }

  /** A constant sequence has zero variance. */
  lemma VarianceOfConstant(xs: seq<real>)
    requires |xs| > 0
    requires forall i :: 0 <= i < |xs| ==> xs[i] == xs[0]
    ensures PopVariance(xs) == 0.0
  {
    MeanConstant(xs, xs[0]);
    var sq := SquaredDeviations(xs, Mean(xs));
    SumConstant(sq, 0.0);
  }

  /**
   * The variance is zero exactly when all values are equal: a zero standard
   * deviation means a constant series.
   */
  lemma VarianceZeroIffConstant(xs: seq<real>)
    requires |xs| > 0
    ensures PopVariance(xs) == 0.0 <==> forall i :: 0 <= i < |xs| ==> xs[i] == xs[0]
  {
    if forall i :: 0 <= i < |xs| ==> xs[i] == xs[0] {
      VarianceOfConstant(xs);
    } else {
      var j :| 0 <= j < |xs| && xs[j] != xs[0];
      VariancePositive(xs, j);
    }
  }

  // ---------------------------------------------------------------------
  // pandas' skip-missing mean

  /** The present values, in order. */
  function Present(s: seq<Option<real>>): (ps: seq<real>)
    ensures |ps| <= |s|
    ensures |ps| == 0 <==> forall i :: 0 <= i < |s| ==> s[i].None?
  {
    if s == [] then []
    else if s[0].Some? then [s[0].value] + Present(s[1..])
    else
      var rest := Present(s[1..]);
      assert forall i :: 1 <= i < |s| ==> s[i] == s[1..][i - 1];
      rest
  }

  /** The values of a gap-free sequence. */
  function Unwrap(s: seq<Option<real>>): (xs: seq<real>)
    requires forall i :: 0 <= i < |s| ==> s[i].Some?
    ensures |xs| == |s| && forall i :: 0 <= i < |s| ==> s[i] == Some(xs[i])
  {
    seq(|s|, i requires 0 <= i < |s| && s[i].Some? => s[i].value)
  }

  /** Without gaps, the present values are all the values. */
  lemma {:induction false} PresentOfUnwrapped(s: seq<Option<real>>)
    requires forall i :: 0 <= i < |s| ==> s[i].Some?
    ensures Present(s) == Unwrap(s)
  {
    if s != [] {
      PresentOfUnwrapped(s[1..]);
      assert Unwrap(s) == [s[0].value] + Unwrap(s[1..]);
    }
  }

  /** `Series.mean()`: mean of the present values, missing when there are none. */
  function MeanSkipNa(s: seq<Option<real>>): (m: Option<real>)
    ensures m.None? <==> forall i :: 0 <= i < |s| ==> s[i].None?
  {
    var ps := Present(s);
    if |ps| == 0 then None else Some(Mean(ps))
  }
}
