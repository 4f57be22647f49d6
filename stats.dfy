/**
  The sample statistics behind pandas' `Series.std()` (ddof = 1), over exact reals.
*/
module Stats {

  function Same(e: real): real
  {
    e
  }

  /** The square of a real, written with `Same` so that the verifier treats it as an ordinary product. */
  function Sq(e: real): real
  {
    e * Same(e)
  }

  /** A square is never negative, and is zero only when its root is zero. */
  lemma SquarePositive(e: real)
    ensures Sq(e) >= 0.0
    ensures e != 0.0 ==> Sq(e) > 0.0
    ensures e == 0.0 ==> Sq(e) == 0.0
  {
  }

  function Sum(xs: seq<real>): real
  {
    if xs == [] then 0.0 else xs[0] + Sum(xs[1..])
  }

  function Mean(xs: seq<real>): real
    requires |xs| > 0
  {
    Sum(xs) / |xs| as real
  }

  /** The sum of the squared distances of the values from `m`. */
  function SquaredDeviations(xs: seq<real>, m: real): real
  {
    if xs == [] then 0.0 else Sq(xs[0] - m) + SquaredDeviations(xs[1..], m)
  }

  lemma {:induction false} SquaredDeviationsNonNegative(xs: seq<real>, m: real)
    ensures SquaredDeviations(xs, m) >= 0.0
  {
    if xs != [] {
      SquaredDeviationsNonNegative(xs[1..], m);
      SquarePositive(xs[0] - m);
    }
  }

  /** One value away from `m` makes the squared deviations positive. */
  lemma {:induction false} SquaredDeviationsPositive(xs: seq<real>, m: real, i: int)
    requires 0 <= i < |xs| && xs[i] != m
    ensures SquaredDeviations(xs, m) > 0.0
  {
    SquarePositive(xs[0] - m);
    if i == 0 {
      SquaredDeviationsNonNegative(xs[1..], m);
    } else {
      SquaredDeviationsPositive(xs[1..], m, i - 1);
    }
  }

  /** Values that all equal `m` have no squared deviation from it. */
  lemma {:induction false} SquaredDeviationsAtConstant(xs: seq<real>, m: real)
    requires forall i :: 0 <= i < |xs| ==> xs[i] == m
    ensures SquaredDeviations(xs, m) == 0.0
  {
    if xs != [] {
      SquarePositive(xs[0] - m);
      SquaredDeviationsAtConstant(xs[1..], m);
    }
  }

  /**
    The unbiased sample variance: squared deviations from the mean, divided by N - 1
    (Bessel's correction). It is the square of the sample standard deviation, and
    never negative.
  */
  function SampleVariance(xs: seq<real>): (v: real)
    requires |xs| >= 2
    ensures v >= 0.0
  {
    SquaredDeviationsNonNegative(xs, Mean(xs));
    SquaredDeviations(xs, Mean(xs)) / (|xs| - 1) as real
  }

  /** All values are equal. */
  predicate Constant(xs: seq<real>)
  {
    forall i, j :: 0 <= i < |xs| && 0 <= j < |xs| ==> xs[i] == xs[j]
  }

  lemma {:induction false} SumOfConstant(xs: seq<real>, c: real)
    requires forall i :: 0 <= i < |xs| ==> xs[i] == c
    ensures Sum(xs) == |xs| as real * c
  {
    if xs != [] {
      SumOfConstant(xs[1..], c);
    }
  }

  /** The variance is zero exactly when all the values are equal. */
  lemma VarianceZeroIffConstant(xs: seq<real>)
    requires |xs| >= 2
    ensures SampleVariance(xs) == 0.0 <==> Constant(xs)
  {
    var n, m := |xs| as real, Mean(xs);
    assert SampleVariance(xs) == SquaredDeviations(xs, m) / (n - 1.0);
    if Constant(xs) {
      SumOfConstant(xs, xs[0]);
      assert m == n * xs[0] / n;
      SquaredDeviationsAtConstant(xs, m);
    } else {
      var i, j :| 0 <= i < |xs| && 0 <= j < |xs| && xs[i] != xs[j];
      if xs[i] != m {
        SquaredDeviationsPositive(xs, m, i);
      } else {
        SquaredDeviationsPositive(xs, m, j);
      }
    }
  }
}
