# Annualised volatility of a price history, modelled in Dafny

The application reads a CSV of historical index prices and computes one figure from
it. The computation has four steps:

1. Pick the first column whose name contains "close" in any case.
2. Compute the daily fractional returns of that column with `pct_change`.
3. Take their sample standard deviation with `std`, which uses the N − 1 denominator and skips the undefined first return.
4. Multiply that by the square root of the table's full row count.

This project models that pipeline over an already-parsed table and proves its
properties. Reals are exact, so the stated examples, such as 100, 110, 121 giving
returns 0.1 and 0.1, hold exactly.

Modules, one per file:

- `Wrappers` (wrappers.dfy): `Option`, `Result` and the two exceptions the pipeline raises, `KeyError` and `IndexError`.
- `Columns` (columns.dfy): the close-column resolver. Names are lower-cased (ASCII only) and searched for the substring "close". The leftmost match wins; with no match the result is app.py's `KeyError` message.
- `Returns` (returns.dfy): `pct_change` over the close prices. Also holds its inverse, `Compound`, which rebuilds the prices from the first price and the returns.
- `Stats` (stats.dfy): mean, squared deviations and the Bessel-corrected sample variance.
- `Tables` (tables.dfy): the DataFrame as a value (`Table`: names, columns of `Cell`s, row count), column lookup `df[name]`, and column assignment `df[name] = col`.
- `Frames` (frame.dfy): the DataFrame as an object. The class `Frame` is updated in place by `Assign`, and its methods are proved against the `Tables` functions.
- `Analyzer` (analyzer.dfy):
  - the four functions of app.py, each as a specification function on `Table`;
  - `CalculateDailyReturns` and `CalculateDailyVolatility` as methods that change a `Frame` in place;
  - `AnalyzeIndexData` as a method proved equal to the specification `Analysis`;
  - the properties of the whole pipeline.
- `Cases` (cases.dfy): worked tables with exact results.

How square roots are represented: Dafny has no real square root. A standard
deviation is therefore the cell `Surd(coef, radicand)`, which stands for the exact
value coef·√radicand. The ghost predicate `Denotes(v, c)` says that the real `v` is
the value of cell `c`; for a `Surd` this requires a non-negative root of the
radicand. The annualised volatility of N ≥ 3 prices is then
`Surd(1, SampleVariance(returns) · N)`. The lemma `AnnualizedIsDailyTimesRootN`
proves that this cell denotes d·s whenever d is the sample standard deviation of the
returns and s = √N.

Edge cases app.py settles, all modelled:

- No column mentions "close": `KeyError("No column containing the word 'Close' found in the CSV file.")`.
- The table has no rows: `pct_change` and `std` succeed (std gives NaN), the 'Daily Volatility' column is added empty, and `.iloc[-1]` then raises `IndexError("single positional indexer is out-of-bounds")`.
- One or two rows: fewer than two defined returns, so `std` is NaN and so is the annualised result (NaN · √N).
- 'Daily Returns' or 'Daily Volatility' already exists in the file: it is overwritten in place. Otherwise the column is appended.

Two behaviours of app.py worth stating on their own:
- The missing-column error is a `KeyError` carrying the message above (app.py:11).
- A table with a close column and a header only raises an `IndexError` at `.iloc[-1]` (app.py:18).

## Model

| member | source | states |
|---|---|---|
| `Columns.Lower` | app.py:9 | lower-casing keeps the length, leaves no upper-case ASCII letter, keeps every other character and moves each upper-case letter to its lower-case partner |
| `Columns.Contains` | app.py:9 | the substring search only succeeds when the name is at least as long as the pattern |
| `Columns.ContainsIffOccurs` | app.py:9 | the substring search succeeds exactly when the pattern occurs at some offset of the name |
| `Columns.MentionsCloseIgnoresCase` | app.py:9 | `str.contains('Close', case=False)`: a name matches exactly when "close" occurs in its lower-cased form, and lower-casing it first gives the same answer |
| `Columns.CloseColumns` | app.py:9 | the mask applied and `.tolist()`: no longer than the names, every entry a matching name of the table, and every name kept when all match |
| `Columns.CloseColumnsHead` | app.py:9-10 | the filtered list of matching names is empty exactly when no name matches, and otherwise starts with the leftmost matching name |
| `Columns.ResolveCloseColumn` | app.py:9-11 | fails exactly when no name contains "close" in any case, with the KeyError and app.py's message; otherwise returns the leftmost matching name |
| `Columns.FirstMatchWins` | app.py:9-12 | if the name at position j matches, resolution succeeds, and the chosen name sits at or before j |
| `Returns.PctChange` | app.py:12 | the returns have the length of the prices, entry 0 is missing and every later entry is defined |
| `Returns.PctChangeAt` | app.py:12 | the ratio form p[i] / p[i−1] − 1 that `pct_change` computes equals the difference quotient (p[i] − p[i−1]) / p[i−1] |
| `Returns.PctChangeGrowth` | app.py:12 | each return is the growth rate that takes price i−1 to price i: p[i] = p[i−1]·(1 + r[i]) |
| `Returns.PctChangeUnique` | app.py:12 | any rate g with p[i] = p[i−1]·(1 + g) is the return at i |
| `Returns.DailyReturnValues` | app.py:12 | the defined returns are the N − 1 entries after the first |
| `Returns.Compound` | app.py:12 | compounding k rates from a start price gives k + 1 prices starting with it |
| `Returns.CompoundRecoversPrices` | app.py:12 | the returns lose nothing: compounding them from the first price gives back every price |
| `Returns.ConstantRatioReturns` | app.py:12 | prices with a constant ratio q have every defined return equal to q − 1 |
| `Stats.SquaredDeviationsNonNegative` | app.py:17 | the sum of squared deviations is never negative |
| `Stats.SquaredDeviationsPositive` | app.py:17 | one value away from m makes the squared deviations from m positive |
| `Stats.SquaredDeviationsAtConstant` | app.py:17 | values all equal to m have zero squared deviation from m |
| `Stats.SampleVariance` | app.py:17 | the Bessel-corrected sample variance (squared deviations from the mean over N − 1) is never negative |
| `Stats.VarianceZeroIffConstant` | app.py:17 | the sample variance is zero exactly when all values are equal |
| `Tables.IndexOf` | app.py:12 | finds a name exactly when it is present, at the leftmost position holding it |
| `Tables.ColumnOf` | app.py:17 | `df[name]` gives the named column, of the table's row count, or KeyError(name) exactly when the name is absent |
| `Tables.Broadcast` | app.py:17 | a scalar assigned to a column fills every row |
| `Tables.WithColumn` | app.py:12-17 | `df[name] = col` (lines 12 and 17) keeps the table well formed and its row count; the name is present afterwards; the name list grows by one exactly when the name was new |
| `Tables.WithColumnSpec` | app.py:12 | assignment keeps the table well formed and its row count; the name then holds exactly the new column; every other name keeps its column; a new name is appended |
| `Frames.Frame.constructor` | app.py:35 | a frame holds the parsed table |
| `Frames.Frame.Get` | app.py:12 | reading a column is the value-level lookup and changes nothing |
| `Frames.Frame.Assign` | app.py:12 | assignment in place leaves the frame holding the value-level assignment of the old table |
| `Frames.Frame.Len` | app.py:40 | `len(df)` is the frame's row count, the length of every column |
| `Analyzer.ClosePrices` | app.py:9-12 | `df[close_column[0]]`: the column named by the resolver exists, and entry i is the number in row i of that column; one price per row, with non-zero divisors |
| `Analyzer.DefinedReturnsOnly` | app.py:17 | the numbers `std` sees in the returns column are exactly the N − 1 defined returns |
| `Analyzer.ReturnsCells` | app.py:12 | the returns stored as a column: numbers and NaN only, each cell reading back as the return it stores, a missing return as NaN |
| `Analyzer.Numbers` | app.py:17 | `std`'s skipna: only numbers of the column, in a list as long as the column exactly when every cell is a number |
| `Analyzer.Std` | app.py:17 | NaN exactly when fewer than two numbers remain after skipping missing values; otherwise a root of a non-negative radicand |
| `Analyzer.StdIsRootOfVariance` | app.py:17 | the std denotes v exactly when v ≥ 0 and v² is the sample variance of the column's numbers |
| `Analyzer.Last` | app.py:18 | `.iloc[-1]` gives the last cell, or IndexError exactly when the column is empty |
| `Analyzer.AnnualizedVolatility` | app.py:20-22 | NaN exactly when the daily volatility is NaN |
| `Analyzer.AnnualizedScales` | app.py:20-22 | if d is the daily volatility and s = √n, the annualised cell denotes d·s |
| `Analyzer.DailyReturns` | app.py:7-13 | fails exactly when no column mentions "close", with the KeyError; otherwise the table keeps its rows, holds the pct_change of the close prices under 'Daily Returns', and every other column is unchanged |
| `Analyzer.WithDailyVolatility` | app.py:17 | 'Daily Volatility' holds the std of the returns column on every row, every other column is unchanged, the table stays well formed with the same row count, and without a returns column nothing changes |
| `Analyzer.DailyVolatility` | app.py:15-18 | KeyError('Daily Returns') when that column is missing, IndexError on zero rows, and otherwise the std of the returns column |
| `Analyzer.Analysis` | app.py:35-43 | `analyze_index_data` on a parsed table fails exactly when no column mentions "close" or the table has no rows, only with the KeyError or the IndexError; otherwise the result is NaN or a root |
| `Analyzer.DailyVolatilityOfReturns` | app.py:15-18 | after the returns step, the daily volatility is the std of the returns of the close prices, or IndexError on zero rows |
| `Analyzer.AnalysisOfReturns` | app.py:38-41 | the pipeline annualises the std of the returns by the full row count, or raises IndexError on zero rows |
| `Analyzer.StdOfReturns` | app.py:17 | the std of N prices' returns is NaN for N < 3 and otherwise the root of the variance of the N − 1 defined returns |
| `Analyzer.AnalysisOfEnoughRows` | app.py:35-43 | three or more prices give √(variance of the defined returns · N) |
| `Analyzer.AnalysisOfFewRows` | app.py:35-43 | one or two prices give NaN |
| `Analyzer.AnalysisClosedForm` | app.py:35-43 | the whole pipeline: IndexError for 0 rows, NaN for 1 or 2, √(variance · N) for N ≥ 3, with N the full row count |
| `Analyzer.NoCloseColumnFails` | app.py:10-11 | the pipeline fails with the "no column containing the word 'Close'" KeyError exactly when no column name contains "close" |
| `Analyzer.NeverNegative` | app.py:17-22 | every real the annualised volatility denotes is non-negative |
| `Analyzer.AnnualizedIsDailyTimesRootN` | app.py:39-41 | the annualised volatility is the daily sample std of the defined returns times √N, with N = len(df) |
| `Analyzer.ZeroVolatilityIffEqualReturns` | app.py:17-22 | with three or more prices, the annualised volatility is zero exactly when all defined returns are equal |
| `Analyzer.ConstantRatioZeroVolatility` | app.py:12-22 | prices with a constant ratio give daily volatility √0 and annualised volatility √0, and 0 is the only real the result denotes |
| `Analyzer.CalculateDailyReturns` | app.py:7-13 | the frame afterwards holds the returns step's table, or is unchanged with the KeyError returned |
| `Analyzer.CalculateDailyVolatility` | app.py:15-18 | the frame afterwards holds the broadcast std (also on zero rows, before `.iloc[-1]` raises), and the result is the daily volatility |
| `Analyzer.AnalyzeIndexData` | app.py:24-43 | the method's result is the pipeline's specification `Analysis` of the parsed table |
| `Cases.UsualHeaderPicksClose` | app.py:9 | in Date, Open, High, Low, Close, Adj Close, Volume the column "Close" is chosen over "Adj Close" |
| `Cases.UpperCaseMatches` | app.py:9 | "CLOSE" matches, since case is ignored |
| `Cases.TenPercentReturns` | app.py:12 | prices 100, 110, 121 give returns [missing, 0.1, 0.1] |
| `Cases.GrowthTableHasNoVolatility` | app.py:35-43 | a dated table of 100, 110, 121 has annualised volatility √0 |
| `Cases.UpDownVolatility` | app.py:35-43 | prices 100, 110, 99 give returns ±0.1, variance 0.02 and annualised radicand 0.06 |
| `Cases.FivePricesUseFullRowCount` | app.py:38-41 | prices 100, 105, 95, 110, 100 give returns 0.05, −2/21, 3/19, −1/11, and the annualisation multiplies their variance by 5, not 4 |
| `Cases.NoCloseHeaderFails` | app.py:10-11 | a Date, Price table raises the KeyError |
| `Cases.EmptyTableFails` | app.py:18 | a close column with no rows raises the IndexError at `.iloc[-1]` |
| `Cases.TwoRowsGiveNaN` | app.py:17 | two prices give one defined return and a NaN volatility |

## Left out

- The Flask application: the route, the request and file checks, `render_template`, `jsonify` and `app.run` (app.py:1-5, app.py:45-71). This is web I/O.
- Saving the upload to the fixed `temp.csv` path, and the race between concurrent requests sharing that name. This is file-system I/O and concurrency.
- `pd.read_csv` (app.py:35). The model takes the parsed `Table`. Its distinct-names condition reflects how `read_csv` renames repeated headers.
- The catch-all handler that turns any exception into an error response (app.py:66-67). This is the web layer.
- IEEE floating point: rounding, infinities, and NaN propagation from a zero previous price. Arithmetic is exact over reals, and `Analyzer.CloseUsable` requires every divisor price to be non-zero.
- Analyzer.CloseUsable: also requires every close cell to be a number. This excludes pandas' forward-fill of missing prices inside `pct_change` and the TypeError raised on text cells.
- Columns.ResolveCloseColumn: case folding is ASCII only. Python's case-insensitive regex matching also folds some non-ASCII letters; for example, "ſ" (long s) matches "s". Such names are not recognised by the model.
- Analyzer.Std: requires the column to hold only numbers and missing values. The pipeline's returns column always does; a column of text would raise TypeError in pandas.
- Analyzer.AnnualizedVolatility: requires a non-text daily value. `std` never yields text.
- Square roots are not computed. A standard deviation stays the exact `Surd` cell, and its decimal value is not produced.
