/** Worked cases of the pipeline on small tables, with exact values. */
module Cases {
  import opened Wrappers
  import opened Columns
  import opened Returns
  import opened Stats
  import opened Tables
  import opened Analyzer

  /** The header of a typical daily price download. */
  const Header: seq<string> := ["Date", "Open", "High", "Low", "Close", "Adj Close", "Volume"]

  /** The four names before "Close" are too short to contain the pattern. */
  lemma ShortNamesDoNotMatch()
    ensures forall j :: 0 <= j < 4 ==> !MentionsClose(Header[j])
  {
    forall j | 0 <= j < 4 ensures !MentionsClose(Header[j]) {
      assert |Lower(Header[j])| < |CloseWord|;
    }
  }

  /** In the usual header, "Close" comes before "Adj Close" and is the one chosen. */
  lemma UsualHeaderPicksClose()
    ensures ResolveCloseColumn(Header) == Ok("Close")
  {
    ShortNamesDoNotMatch();
    assert Lower("Close") == "close";
    assert MentionsClose(Header[4]);
    var r := ResolveCloseColumn(Header);
    var k :| IsFirstClose(Header, k) && Header[k] == r.value;
    assert k == 4;
  }

  /** Case is ignored: an upper-case header matches. */
  lemma UpperCaseMatches()
    ensures ResolveCloseColumn(["Date", "CLOSE"]) == Ok("CLOSE")
  {
    assert !MentionsClose("Date");
    assert Lower("CLOSE") == "close";
    assert MentionsClose("CLOSE");
    var r := ResolveCloseColumn(["Date", "CLOSE"]);
    var k :| IsFirstClose(["Date", "CLOSE"], k) && ["Date", "CLOSE"][k] == r.value;
  }

  /** Prices 100, 110, 121 grow by 10% each day. */
  lemma TenPercentReturns()
    ensures NonZeroDivisors([100.0, 110.0, 121.0])
    ensures PctChange([100.0, 110.0, 121.0]) == [None, Some(0.1), Some(0.1)]
  {
    var p := [100.0, 110.0, 121.0];
    PctChangeAt(p, 1);
    PctChangeAt(p, 2);
  }

  /** A table of those three prices with a date column beside them. */
  function GrowthTable(): (t: Table)
    ensures WellFormed(t) && t.rows == 3
  {
    Table(["Date", "Close"],
          [[Text("2024-01-02"), Text("2024-01-03"), Text("2024-01-04")],
           [Num(100.0), Num(110.0), Num(121.0)]], 3)
  }

  lemma GrowthTableCloses(t: Table)
    requires t == GrowthTable()
    ensures ResolveCloseColumn(t.names) == Ok("Close")
    ensures CloseUsable(t) && ClosePrices(t) == [100.0, 110.0, 121.0]
  {
    assert !MentionsClose("Date");
    assert Lower("Close") == "close";
    assert MentionsClose("Close");
    var r := ResolveCloseColumn(t.names);
    var k :| IsFirstClose(t.names, k) && t.names[k] == r.value;
    IndexOfDistinct(t.names, 1);
    TenPercentReturns();
  }

  /** Constant 10% growth: both the daily and the annualised volatility are 0. */
  lemma GrowthTableHasNoVolatility()
    ensures CloseUsable(GrowthTable()) && Analysis(GrowthTable()) == Ok(Surd(1.0, 0.0))
  {
    var t := GrowthTable();
    GrowthTableCloses(t);
    ConstantRatioZeroVolatility(t, 1.1);
  }

  /** Prices 100, 110, 99: returns +10% and -10%, sample variance 0.02, annualised radicand 0.06. */
  lemma UpDownVolatility(t: Table)
    requires t == Table(["Close"], [[Num(100.0), Num(110.0), Num(99.0)]], 3)
    ensures CloseUsable(t) && ResolveCloseColumn(t.names).Ok?
    ensures DailyReturnValues(ClosePrices(t)) == [0.1, -0.1]
    ensures SampleVariance(DailyReturnValues(ClosePrices(t))) == 0.02
    ensures Analysis(t) == Ok(Surd(1.0, 0.06))
  {
    var p := [100.0, 110.0, 99.0];
    assert Lower("Close") == "close";
    assert MentionsClose("Close");
    var r := ResolveCloseColumn(t.names);
    var k :| IsFirstClose(t.names, k) && t.names[k] == r.value;
    IndexOfDistinct(t.names, 0);
    assert ClosePrices(t) == p;
    PctChangeAt(p, 1);
    PctChangeAt(p, 2);
    var g := DailyReturnValues(p);
    assert g == [0.1, -0.1];
    assert g[1..] == [-0.1] && g[1..][1..] == [];
    assert Sum(g[1..]) == -0.1;
    assert Sum(g) == 0.0;
    assert Sq(-0.1 - 0.0) == 0.01 && Sq(0.1 - 0.0) == 0.01;
    assert SquaredDeviations(g[1..], 0.0) == 0.01;
    assert SquaredDeviations(g, 0.0) == 0.02;
    assert SampleVariance(g) == 0.02;
    AnalysisClosedForm(t);
  }

  /** Without a close column the pipeline raises the KeyError. */
  lemma NoCloseHeaderFails(t: Table)
    requires t == Table(["Date", "Price"], [[Text("2024-01-02")], [Num(100.0)]], 1)
    ensures CloseUsable(t) && Analysis(t) == Err(KeyError(NoCloseMessage))
  {
    assert Lower("Price") == "price" && "price"[1..] == "rice";
    assert "price"[0] != CloseWord[0];
    assert !Contains("rice", CloseWord);
    assert !MentionsClose("Date") && !MentionsClose("Price");
    NoCloseColumnFails(t);
  }

  /** A header with no rows reaches `.iloc[-1]` on an empty column: IndexError. */
  lemma EmptyTableFails(t: Table)
    requires t == Table(["Close"], [[]], 0)
    ensures CloseUsable(t) && Analysis(t) == Err(IndexError(OutOfBoundsMessage))
  {
    assert Lower("Close") == "close";
    assert MentionsClose("Close");
    AnalysisClosedForm(t);
  }

  /** Two prices give a single defined return, whose sample std is NaN. */
  lemma TwoRowsGiveNaN(t: Table)
    requires t == Table(["Close"], [[Num(100.0), Num(105.0)]], 2)
    ensures CloseUsable(t) && ResolveCloseColumn(t.names).Ok?
    ensures |DailyReturnValues(ClosePrices(t))| == 1
    ensures Analysis(t) == Ok(NaN)
  {
    assert Lower("Close") == "close";
    assert MentionsClose("Close");
    var r := ResolveCloseColumn(t.names);
    var k :| IsFirstClose(t.names, k) && t.names[k] == r.value;
    IndexOfDistinct(t.names, 0);
    AnalysisClosedForm(t);
  }

  /**
    Five prices 100, 105, 95, 110, 100: four defined returns, and the annualisation
    multiplies their variance by 5, the full row count, not by 4.
  */
  lemma FivePricesUseFullRowCount(t: Table)
    requires t == Table(["Close"], [[Num(100.0), Num(105.0), Num(95.0), Num(110.0), Num(100.0)]], 5)
    ensures CloseUsable(t)
    ensures DailyReturnValues(ClosePrices(t)) == [0.05, -2.0 / 21.0, 3.0 / 19.0, -1.0 / 11.0]
    ensures Analysis(t) == Ok(Surd(1.0, Scale(SampleVariance([0.05, -2.0 / 21.0, 3.0 / 19.0, -1.0 / 11.0]), 5)))
  {
    var p := [100.0, 105.0, 95.0, 110.0, 100.0];
    assert Lower("Close") == "close";
    assert MentionsClose("Close");
    var r := ResolveCloseColumn(t.names);
    var k :| IsFirstClose(t.names, k) && t.names[k] == r.value;
    IndexOfDistinct(t.names, 0);
    assert ClosePrices(t) == p;
    PctChangeAt(p, 1);
    PctChangeAt(p, 2);
    PctChangeAt(p, 3);
    PctChangeAt(p, 4);
    assert DailyReturnValues(p) == [0.05, -2.0 / 21.0, 3.0 / 19.0, -1.0 / 11.0];
    AnalysisClosedForm(t);
  }
}
