/**
  The returns calculator: pandas' `Series.pct_change()` over the close prices, with
  exact real arithmetic in place of floating point.
*/
module Returns {
  import opened Wrappers

  /** Every price that serves as a divisor (all but the last) is non-zero. */
  predicate NonZeroDivisors(p: seq<real>)
  {
    forall i :: 0 <= i < |p| - 1 ==> p[i] != 0.0
  }

  lemma GrowthInverts(p: seq<real>)
    requires NonZeroDivisors(p)
    ensures forall i :: 1 <= i < |p| ==> p[i] == p[i - 1] * (1.0 + (p[i] / p[i - 1] - 1.0))
  {
    forall i | 1 <= i < |p| ensures p[i] == p[i - 1] * (1.0 + (p[i] / p[i - 1] - 1.0)) {
      var a, b := p[i - 1], p[i];
      assert a * (b / a) == b;
    }
  }

  /**
    Fractional change from each price to the next, computed as pandas does, as the
    ratio to the previous price minus one. Entry 0 has no previous price and is missing.
  */
  function PctChange(p: seq<real>): (r: seq<Option<real>>)
    requires NonZeroDivisors(p)
    ensures |r| == |p|
    ensures |p| > 0 ==> r[0] == None
    ensures forall i :: 1 <= i < |p| ==> r[i].Some?
  {
    seq(|p|, i requires 0 <= i < |p| => if i == 0 then None else Some(p[i] / p[i - 1] - 1.0))
  }

  /** Each defined return is the growth rate that takes the previous price to the current one. */
  lemma PctChangeGrowth(p: seq<real>)
    requires NonZeroDivisors(p)
    ensures forall i :: 1 <= i < |p| ==> p[i] == p[i - 1] * (1.0 + PctChange(p)[i].value)
  {
    GrowthInverts(p);
  }

  /** The ratio form pandas computes equals the difference quotient (p[i] - p[i-1]) / p[i-1]. */
  lemma PctChangeAt(p: seq<real>, i: int)
    requires NonZeroDivisors(p) && 1 <= i < |p|
    ensures PctChange(p)[i] == Some((p[i] - p[i - 1]) / p[i - 1])
  {
    var a, b := p[i - 1], p[i];
    assert a != 0.0;
    assert (b - a) / a == b / a - a / a;
    assert a / a == 1.0;
  }

  /** The growth rate is the only one that takes price i-1 to price i. */
  lemma PctChangeUnique(p: seq<real>, i: int, g: real)
    requires NonZeroDivisors(p) && 1 <= i < |p|
    requires p[i] == p[i - 1] * (1.0 + g)
    ensures PctChange(p)[i] == Some(g)
  {
    var a := p[i - 1];
    PctChangeGrowth(p);
    assert a * (1.0 + g) == a * (1.0 + PctChange(p)[i].value);
    assert a * (g - PctChange(p)[i].value) == 0.0;
  }

  /** The defined returns, indices 1 .. N-1 of `PctChange(p)`. */
  function DailyReturnValues(p: seq<real>): (g: seq<real>)
    requires NonZeroDivisors(p)
    ensures |p| > 0 ==> |g| == |p| - 1
    ensures |p| == 0 ==> g == []
  {
    if |p| == 0 then []
    else seq(|p| - 1, k requires 0 <= k < |p| - 1 => PctChange(p)[k + 1].value)
  }

  /** Prices obtained by compounding the growth rates `g` from a start price. */
  function Compound(p0: real, g: seq<real>): (p: seq<real>)
    ensures |p| == |g| + 1 && p[0] == p0
    decreases g
  {
    if g == [] then [p0] else [p0] + Compound(p0 * (1.0 + g[0]), g[1..])
  }

  lemma CompoundStep(p0: real, g: seq<real>, next: real)
    requires g != [] && next == p0 * (1.0 + g[0])
    ensures Compound(p0, g) == [p0] + Compound(next, g[1..])
  {
  }

  /** Dropping the first price drops the first return. */
  lemma DailyReturnValuesTail(p: seq<real>)
    requires NonZeroDivisors(p) && |p| >= 2
    ensures NonZeroDivisors(p[1..])
    ensures DailyReturnValues(p)[1..] == DailyReturnValues(p[1..])
  {
    var g, h := DailyReturnValues(p), DailyReturnValues(p[1..]);
    forall k | 0 <= k < |h| ensures g[1..][k] == h[k] {
      PctChangeAt(p, k + 2);
      PctChangeAt(p[1..], k + 1);
    }
  }

  /** The returns lose nothing: compounding them from the first price gives back every price. */
  lemma {:induction false} CompoundRecoversPrices(p: seq<real>)
    requires NonZeroDivisors(p) && |p| >= 1
    ensures Compound(p[0], DailyReturnValues(p)) == p
  {
    var g := DailyReturnValues(p);
    if |p| > 1 {
      assert g[0] == PctChange(p)[1].value;
      PctChangeGrowth(p);
      var next := p[0] * (1.0 + g[0]);
      assert next == p[1];
      DailyReturnValuesTail(p);
      CompoundRecoversPrices(p[1..]);
      CompoundStep(p[0], g, next);
      assert p[1..][0] == p[1];
      assert p == [p[0]] + p[1..];
    }
  }

  /** Prices with a constant ratio q from one to the next have every defined return equal to q - 1. */
  lemma ConstantRatioReturns(p: seq<real>, q: real)
    requires NonZeroDivisors(p)
    requires forall i :: 1 <= i < |p| ==> p[i] == q * p[i - 1]
    ensures forall k :: 0 <= k < |DailyReturnValues(p)| ==> DailyReturnValues(p)[k] == q - 1.0
  {
    forall k | 0 <= k < |DailyReturnValues(p)| ensures DailyReturnValues(p)[k] == q - 1.0 {
      assert p[k + 1] == p[k] * (1.0 + (q - 1.0));
      PctChangeUnique(p, k + 1, q - 1.0);
    }
  }
}
