/**
  The volatility pipeline of app.py: `calculate_daily_returns`,
  `calculate_daily_volatility`, `calculate_annualized_volatility` and
  `analyze_index_data`, over an already-parsed table.
*/
module Analyzer {
  import opened Wrappers
  import opened Columns
  import opened Returns
  import opened Stats
  import opened Tables
  import opened Frames

  /** The column the returns are stored in. */
  const ReturnsName: string := "Daily Returns"

  /** The column the daily volatility is broadcast into. */
  const VolatilityName: string := "Daily Volatility"

  /** pandas' message when `.iloc[-1]` is applied to an empty column. */
  const OutOfBoundsMessage: string := "single positional indexer is out-of-bounds"

  predicate AllNum(col: seq<Cell>)
  {
    forall i :: 0 <= i < |col| ==> col[i].Num?
  }

  /** The numbers of an all-numeric column. */
  function Prices(col: seq<Cell>): (p: seq<real>)
    requires AllNum(col)
    ensures |p| == |col| && forall i :: 0 <= i < |col| ==> col[i] == Num(p[i])
  {
    seq(|col|, i requires 0 <= i < |col| => col[i].x)
  }

  /**
    The table's close column, when it has one, holds numbers whose divisors (all but
    the last) are non-zero, so that every return is a finite real.
  */
  predicate CloseUsable(t: Table)
    requires WellFormed(t)
  {
    match ResolveCloseColumn(t.names)
    case Err(_) => true
    case Ok(name) =>
      match ColumnOf(t, name)
      case Err(_) => true
      case Ok(col) => AllNum(col) && NonZeroDivisors(Prices(col))
  }

  /** The close name is one of the table's own names, so reading it cannot fail. */
  lemma CloseColumnPresent(t: Table)
    requires WellFormed(t) && ResolveCloseColumn(t.names).Ok?
    ensures ColumnOf(t, ResolveCloseColumn(t.names).value).Ok?
  {
    var k :| IsFirstClose(t.names, k) && t.names[k] == ResolveCloseColumn(t.names).value;
  }

  /** The prices of the close column; a table that has one and is usable. */
  function ClosePrices(t: Table): (p: seq<real>)
    requires WellFormed(t) && CloseUsable(t) && ResolveCloseColumn(t.names).Ok?
    ensures NonZeroDivisors(p) && |p| == t.rows
    ensures ColumnOf(t, ResolveCloseColumn(t.names).value).Ok?
    ensures forall i :: 0 <= i < |p| ==> ColumnOf(t, ResolveCloseColumn(t.names).value).value[i] == Num(p[i])
  {
    CloseColumnPresent(t);
    Prices(ColumnOf(t, ResolveCloseColumn(t.names).value).value)
  }

  /** Every cell is a number or missing: what a column of returns holds. */
  predicate NumericOrMissing(col: seq<Cell>)
  {
    forall i :: 0 <= i < |col| ==> col[i].Num? || col[i].NaN?
  }

  /** The return series stored as cells: a missing return is NaN. */
  function ReturnsCells(r: seq<Option<real>>): (c: seq<Cell>)
    ensures |c| == |r| && NumericOrMissing(c)
    ensures forall i :: 0 <= i < |r| ==> r[i] == if c[i].Num? then Some(c[i].x) else None
  {
    seq(|r|, i requires 0 <= i < |r| => if r[i].Some? then Num(r[i].value) else NaN)
  }

  /**
    The numbers of a column in order, with missing values skipped (`skipna`). That no
    number is dropped is proved where `std` needs it, by NumbersAllNum and DefinedReturnsOnly.
  */
  function Numbers(col: seq<Cell>): (xs: seq<real>)
    ensures |xs| <= |col|
    ensures |xs| == |col| <==> AllNum(col)
    ensures forall j :: 0 <= j < |xs| ==> Num(xs[j]) in col
  {
    if col == [] then []
    else
      var rest := Numbers(col[1..]);
      assert forall j :: 0 <= j < |rest| ==> Num(rest[j]) in col[1..];
      assert AllNum(col) <==> col[0].Num? && AllNum(col[1..]) by {
        assert forall i :: 1 <= i < |col| ==> col[i] == col[1..][i - 1];
      }
      (if col[0].Num? then [col[0].x] else []) + rest
  }

  lemma {:induction false} NumbersAllNum(col: seq<Cell>)
    requires AllNum(col)
    ensures Numbers(col) == Prices(col)
  {
    if col != [] {
      NumbersAllNum(col[1..]);
    }
  }

  /**
    The standard deviation is taken over the defined returns only: the numbers of the
    returns column are exactly the N - 1 growth rates, without the missing first entry.
  */
  lemma DefinedReturnsOnly(p: seq<real>)
    requires NonZeroDivisors(p)
    ensures Numbers(ReturnsCells(PctChange(p))) == DailyReturnValues(p)
  {
    var c, g := ReturnsCells(PctChange(p)), DailyReturnValues(p);
    if |p| > 0 {
      assert c[0] == NaN;
      assert Numbers(c) == Numbers(c[1..]);
      assert AllNum(c[1..]);
      NumbersAllNum(c[1..]);
    }
  }

  /**
    `Series.std()` with one degree of freedom removed: NaN when fewer than two numbers
    remain after skipping missing values, otherwise the square root of their sample
    variance.
  */
  function Std(col: seq<Cell>): (c: Cell)
    requires NumericOrMissing(col)
    ensures c.NaN? <==> |Numbers(col)| < 2
    ensures c.Surd? ==> c.coef == 1.0 && c.radicand >= 0.0
  {
    var xs := Numbers(col);
    if |xs| < 2 then NaN else Surd(1.0, SampleVariance(xs))
  }

  /** A defined standard deviation is the non-negative real whose square is the sample variance. */
  lemma StdIsRootOfVariance(col: seq<Cell>, v: real)
    requires NumericOrMissing(col) && |Numbers(col)| >= 2
    ensures Denotes(v, Std(col)) <==> v >= 0.0 && Sq(v) == SampleVariance(Numbers(col))
  {
    var r := SampleVariance(Numbers(col));
    if v >= 0.0 && Sq(v) == r {
      assert RootOf(r, v) && v == 1.0 * v;
    }
    if Denotes(v, Std(col)) {
      var s :| RootOf(r, s) && v == 1.0 * s;
    }
  }

  /** `.iloc[-1]`: the last cell, or an IndexError on an empty column. */
  function Last(col: seq<Cell>): (r: Result<Cell>)
    ensures r.Err? <==> col == []
    ensures r.Err? ==> r.error == IndexError(OutOfBoundsMessage)
    ensures r.Ok? ==> r.value == col[|col| - 1]
  {
    if col == [] then Err(IndexError(OutOfBoundsMessage)) else Ok(col[|col| - 1])
  }

  /**
    `daily_volatility * np.sqrt(data_length)`: NaN stays NaN; otherwise the radicand
    is multiplied by the row count.
  */
  function AnnualizedVolatility(daily: Cell, n: nat): (c: Cell)
    requires !daily.Text?
    ensures c.NaN? <==> daily.NaN?
  {
    match daily
    case Num(x) => Surd(x, n as real)
    case Surd(k, r) => Surd(k, Scale(r, n))
    case NaN => NaN
  }

  /** A radicand multiplied by the row count, so that its root is multiplied by sqrt(n). */
  function Scale(r: real, n: nat): real
  {
    r * n as real
  }

  lemma ScaleZero(r: real, n: nat)
    requires n > 0
    ensures Scale(r, n) == 0.0 <==> r == 0.0
  {
  }

  lemma NonNegativeProduct(a: real, b: real)
    requires a >= 0.0 && b >= 0.0
    ensures a * b >= 0.0
  {
  }

  lemma SquareOfProduct(a: real, b: real)
    ensures Sq(a * b) == Sq(a) * Sq(b)
  {
  }

  /**
    Scaling by the full row count: if `d` is the daily volatility and `s` the square
    root of the row count, `d * s` is the annualised volatility.
  */
  lemma AnnualizedScales(daily: Cell, n: nat, d: real, s: real)
    requires !daily.Text? && Denotes(d, daily) && RootOf(n as real, s)
    ensures Denotes(d * s, AnnualizedVolatility(daily, n))
  {
    match daily
    case Num(x) =>
      assert RootOf(n as real, s) && d * s == x * s;
    case Surd(k, r) =>
      var t :| RootOf(r, t) && d == k * t;
      NonNegativeProduct(t, s);
      SquareOfProduct(t, s);
      var u := t * s;
      assert RootOf(Scale(r, n), u) && d * s == k * u;
  }

  /** The returns column, when present, holds numbers and missing values only. */
  predicate ReturnsUsable(t: Table)
    requires WellFormed(t)
  {
    match ColumnOf(t, ReturnsName)
    case Err(_) => true
    case Ok(col) => NumericOrMissing(col)
  }

  /**
    `calculate_daily_returns` on a table: a KeyError when no column mentions "close",
    otherwise the table with the returns of the first such column stored under
    'Daily Returns'.
  */
  function DailyReturns(t: Table): (r: Result<Table>)
    requires WellFormed(t) && CloseUsable(t)
    ensures r.Err? <==> ResolveCloseColumn(t.names).Err?
    ensures r.Err? ==> r.error == KeyError(NoCloseMessage)
    ensures r.Ok? ==> WellFormed(r.value) && r.value.rows == t.rows && ReturnsUsable(r.value)
    ensures r.Ok? ==> ColumnOf(r.value, ReturnsName) == Ok(ReturnsCells(PctChange(ClosePrices(t))))
    ensures r.Ok? ==> forall o :: o != ReturnsName ==> ColumnOf(r.value, o) == ColumnOf(t, o)
  {
    match ResolveCloseColumn(t.names)
    case Err(e) => Err(e)
    case Ok(_) =>
      var cells := ReturnsCells(PctChange(ClosePrices(t)));
      WithColumnSpec(t, ReturnsName, cells);
      Ok(WithColumn(t, ReturnsName, cells))
  }

  /**
    The table after `calculate_daily_volatility`: the std of the returns broadcast
    under 'Daily Volatility', every other column as it was. Without a returns column
    the KeyError is raised before the assignment and the table is unchanged.
  */
  function WithDailyVolatility(t: Table): (r: Table)
    requires WellFormed(t) && ReturnsUsable(t)
    ensures WellFormed(r) && r.rows == t.rows
    ensures ReturnsName !in t.names ==> r == t
    ensures ReturnsName in t.names ==>
              ColumnOf(r, VolatilityName) == Ok(Broadcast(Std(ColumnOf(t, ReturnsName).value), t.rows))
    ensures forall o :: o != VolatilityName ==> ColumnOf(r, o) == ColumnOf(t, o)
  {
    match ColumnOf(t, ReturnsName)
    case Err(_) => t
    case Ok(col) =>
      WithColumnSpec(t, VolatilityName, Broadcast(Std(col), t.rows));
      WithColumn(t, VolatilityName, Broadcast(Std(col), t.rows))
  }

  /**
    The value `calculate_daily_volatility` returns: a KeyError without a returns
    column, an IndexError on an empty table, otherwise the standard deviation of the
    returns.
  */
  function DailyVolatility(t: Table): (r: Result<Cell>)
    requires WellFormed(t) && ReturnsUsable(t)
    ensures r.Err? <==> ReturnsName !in t.names || t.rows == 0
    ensures ReturnsName !in t.names ==> r == Err(KeyError(ReturnsName))
    ensures ReturnsName in t.names && t.rows == 0 ==> r == Err(IndexError(OutOfBoundsMessage))
    ensures r.Ok? ==> r.value == Std(ColumnOf(t, ReturnsName).value)
  {
    match ColumnOf(t, ReturnsName)
    case Err(e) => Err(e)
    case Ok(col) => Last(Broadcast(Std(col), t.rows))
  }

  /** `analyze_index_data` on a parsed table: the steps chained as app.py chains them. */
  function Analysis(t: Table): (r: Result<Cell>)
    requires WellFormed(t) && CloseUsable(t)
    ensures r.Err? <==> ResolveCloseColumn(t.names).Err? || t.rows == 0
    ensures r.Err? ==> r.error == KeyError(NoCloseMessage) || r.error == IndexError(OutOfBoundsMessage)
    ensures r.Ok? ==> r.value.NaN? || r.value.Surd?
  {
    match DailyReturns(t)
    case Err(e) => Err(e)
    case Ok(t1) =>
      match DailyVolatility(t1)
      case Err(e) => Err(e)
      case Ok(daily) =>
        assert !daily.Text?;
        Ok(AnnualizedVolatility(daily, t1.rows))
  }

  /** The daily volatility of a usable table with a close column: the std of its returns column. */
  lemma DailyVolatilityOfReturns(t: Table)
    requires WellFormed(t) && CloseUsable(t) && ResolveCloseColumn(t.names).Ok?
    ensures DailyReturns(t).Ok?
    ensures t.rows == 0 ==> DailyVolatility(DailyReturns(t).value) == Err(IndexError(OutOfBoundsMessage))
    ensures t.rows > 0 ==>
              DailyVolatility(DailyReturns(t).value) == Ok(Std(ReturnsCells(PctChange(ClosePrices(t)))))
  {
    var t1 := DailyReturns(t).value;
    assert ColumnOf(t1, ReturnsName).Ok?;
  }

  /** With a close column, the pipeline annualises the std of the returns, or raises IndexError on no rows. */
  lemma AnalysisOfReturns(t: Table)
    requires WellFormed(t) && CloseUsable(t) && ResolveCloseColumn(t.names).Ok?
    ensures t.rows == 0 ==> Analysis(t) == Err(IndexError(OutOfBoundsMessage))
    ensures t.rows > 0 ==>
              Analysis(t) == Ok(AnnualizedVolatility(Std(ReturnsCells(PctChange(ClosePrices(t)))), t.rows))
  {
    DailyVolatilityOfReturns(t);
  }

  /** The std of the returns column of N prices: NaN for N < 3, else the root of the variance of the defined returns. */
  lemma StdOfReturns(p: seq<real>)
    requires NonZeroDivisors(p)
    ensures |p| < 3 ==> Std(ReturnsCells(PctChange(p))) == NaN
    ensures |p| >= 3 ==> Std(ReturnsCells(PctChange(p))) == Surd(1.0, SampleVariance(DailyReturnValues(p)))
  {
    DefinedReturnsOnly(p);
  }

  /** Three or more prices: the annualised volatility is sqrt(variance of the defined returns * N). */
  lemma AnalysisOfEnoughRows(t: Table)
    requires WellFormed(t) && CloseUsable(t) && ResolveCloseColumn(t.names).Ok? && t.rows >= 3
    ensures Analysis(t) == Ok(Surd(1.0, Scale(SampleVariance(DailyReturnValues(ClosePrices(t))), t.rows)))
  {
    AnalysisOfReturns(t);
    StdOfReturns(ClosePrices(t));
  }

  /** One or two prices: fewer than two defined returns, so the result is NaN. */
  lemma AnalysisOfFewRows(t: Table)
    requires WellFormed(t) && CloseUsable(t) && ResolveCloseColumn(t.names).Ok? && 1 <= t.rows <= 2
    ensures Analysis(t) == Ok(NaN)
  {
    AnalysisOfReturns(t);
    StdOfReturns(ClosePrices(t));
  }

  /**
    The closed form of the pipeline on a table with a usable close column of N prices:
    an IndexError when N = 0, NaN when N is 1 or 2 (fewer than two defined returns),
    and otherwise sqrt(variance of the N - 1 defined returns * N).
  */
  lemma AnalysisClosedForm(t: Table)
    requires WellFormed(t) && CloseUsable(t) && ResolveCloseColumn(t.names).Ok?
    ensures t.rows == 0 ==> Analysis(t) == Err(IndexError(OutOfBoundsMessage))
    ensures 1 <= t.rows <= 2 ==> Analysis(t) == Ok(NaN)
    ensures t.rows >= 3 ==>
              Analysis(t) == Ok(Surd(1.0, Scale(SampleVariance(DailyReturnValues(ClosePrices(t))), t.rows)))
  {
    if t.rows == 0 {
      AnalysisOfReturns(t);
    } else if t.rows <= 2 {
      AnalysisOfFewRows(t);
    } else {
      AnalysisOfEnoughRows(t);
    }
  }

  /**
    The pipeline fails with the "no column containing the word 'Close'" KeyError
    exactly when no column name contains "close" in any (ASCII) case.
  */
  lemma NoCloseColumnFails(t: Table)
    requires WellFormed(t) && CloseUsable(t)
    ensures Analysis(t) == Err(KeyError(NoCloseMessage)) <==>
              forall k :: 0 <= k < |t.names| ==> !MentionsClose(t.names[k])
  {
    if ResolveCloseColumn(t.names).Ok? {
      AnalysisClosedForm(t);
    }
  }

  /** The annualised volatility is never negative: it is a square root, scaled by 1. */
  lemma NeverNegative(t: Table, v: real)
    requires WellFormed(t) && CloseUsable(t)
    requires Analysis(t).Ok? && Denotes(v, Analysis(t).value)
    ensures v >= 0.0
  {
    AnalysisClosedForm(t);
    var s :| RootOf(Analysis(t).value.radicand, s) && v == 1.0 * s;
  }

  /**
    Annualised volatility is daily volatility times the square root of len(df), the
    full row count: if `d` is the sample standard deviation of the defined returns
    and `s` the square root of N, the result is `d * s`.
  */
  lemma AnnualizedIsDailyTimesRootN(t: Table, d: real, s: real)
    requires WellFormed(t) && CloseUsable(t) && ResolveCloseColumn(t.names).Ok? && t.rows >= 3
    requires d >= 0.0 && Sq(d) == SampleVariance(DailyReturnValues(ClosePrices(t)))
    requires RootOf(t.rows as real, s)
    ensures Analysis(t).Ok? && Denotes(d * s, Analysis(t).value)
  {
    var p := ClosePrices(t);
    var col := ReturnsCells(PctChange(p));
    DefinedReturnsOnly(p);
    StdIsRootOfVariance(col, d);
    AnnualizedScales(Std(col), t.rows, d, s);
    AnalysisClosedForm(t);
  }

  /** The only real a zero standard deviation denotes is 0. */
  lemma ZeroRoot(v: real)
    ensures Denotes(v, Surd(1.0, 0.0)) <==> v == 0.0
  {
    if v == 0.0 {
      SquarePositive(0.0);
      assert RootOf(0.0, 0.0) && v == 1.0 * 0.0;
    }
    if Denotes(v, Surd(1.0, 0.0)) {
      var s :| RootOf(0.0, s) && v == 1.0 * s;
      SquarePositive(s);
    }
  }

  /**
    At least three prices: the annualised volatility is zero exactly when every
    defined return is the same.
  */
  lemma ZeroVolatilityIffEqualReturns(t: Table)
    requires WellFormed(t) && CloseUsable(t) && ResolveCloseColumn(t.names).Ok? && t.rows >= 3
    ensures Analysis(t) == Ok(Surd(1.0, 0.0)) <==> Constant(DailyReturnValues(ClosePrices(t)))
  {
    var g := DailyReturnValues(ClosePrices(t));
    AnalysisOfEnoughRows(t);
    ScaleZero(SampleVariance(g), t.rows);
    VarianceZeroIffConstant(g);
  }

  /**
    Prices that grow by the same ratio every row have equal returns, so a table of at
    least three of them has annualised volatility 0.
  */
  lemma ConstantRatioZeroVolatility(t: Table, q: real)
    requires WellFormed(t) && CloseUsable(t) && ResolveCloseColumn(t.names).Ok? && t.rows >= 3
    requires forall i :: 1 <= i < t.rows ==> ClosePrices(t)[i] == q * ClosePrices(t)[i - 1]
    ensures DailyReturns(t).Ok? && DailyVolatility(DailyReturns(t).value) == Ok(Surd(1.0, 0.0))
    ensures Analysis(t) == Ok(Surd(1.0, 0.0))
    ensures forall v :: Denotes(v, Analysis(t).value) ==> v == 0.0
  {
    var p := ClosePrices(t);
    ConstantRatioReturns(p, q);
    var g := DailyReturnValues(p);
    assert Constant(g);
    VarianceZeroIffConstant(g);
    DailyVolatilityOfReturns(t);
    StdOfReturns(p);
    ZeroVolatilityIffEqualReturns(t);
    forall v | Denotes(v, Analysis(t).value) ensures v == 0.0 {
      ZeroRoot(v);
    }
  }

  /** `calculate_daily_returns(df)`: adds the 'Daily Returns' column to the frame in place. */
  method CalculateDailyReturns(df: Frame) returns (r: Result<()>)
    requires df.Valid() && CloseUsable(df.Snapshot())
    modifies df
    ensures df.Valid()
    ensures DailyReturns(old(df.Snapshot())).Err? ==>
              r == Err(DailyReturns(old(df.Snapshot())).error) && df.Snapshot() == old(df.Snapshot())
    ensures DailyReturns(old(df.Snapshot())).Ok? ==>
              r == Ok(()) && df.Snapshot() == DailyReturns(old(df.Snapshot())).value
  {
    var t := df.Snapshot();
    var close := ResolveCloseColumn(df.names);
    if close.Err? {
      return Err(close.error);
    }
    var col := df.Get(close.value);
    CloseColumnPresent(t);
    var pct := PctChange(Prices(col.value));
    df.Assign(ReturnsName, ReturnsCells(pct));
    r := Ok(());
  }

  /**
    `calculate_daily_volatility(df)`: broadcasts the std of the returns into
    'Daily Volatility', then reads its last row. On an empty frame the column is
    added before `.iloc[-1]` raises.
  */
  method CalculateDailyVolatility(df: Frame) returns (r: Result<Cell>)
    requires df.Valid() && ReturnsUsable(df.Snapshot())
    modifies df
    ensures df.Valid()
    ensures df.Snapshot() == WithDailyVolatility(old(df.Snapshot()))
    ensures r == DailyVolatility(old(df.Snapshot()))
  {
    var dailyReturns := df.Get(ReturnsName);
    if dailyReturns.Err? {
      return Err(dailyReturns.error);
    }
    var column := Broadcast(Std(dailyReturns.value), df.rows);
    df.Assign(VolatilityName, column);
    var vol := df.Get(VolatilityName);
    WithColumnSpec(old(df.Snapshot()), VolatilityName, column);
    r := Last(vol.value);
  }

  /** `analyze_index_data`: the annualised volatility of a parsed table, or the error raised. */
  method AnalyzeIndexData(t: Table) returns (r: Result<Cell>)
    requires WellFormed(t) && CloseUsable(t)
    ensures r == Analysis(t)
  {
    var df := new Frame(t);
    var returned := CalculateDailyReturns(df);
    if returned.Err? {
      return Err(returned.error);
    }
    var daily := CalculateDailyVolatility(df);
    if daily.Err? {
      return Err(daily.error);
    }
    var dataLength := df.Len();
    r := Ok(AnnualizedVolatility(daily.value, dataLength));
  }
}
