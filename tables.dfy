/**
  The parsed CSV as a value: named columns of cells, all of the same length. This is
  the value a DataFrame holds; `Frame` (frame.dfy) is the object that is updated in
  place.
*/
module Tables {
  import opened Wrappers
  import opened Stats

  /**
    One cell of the table. `Num` is a number read from the file or computed by the
    analysis, `NaN` pandas' missing value and `Text` a non-numeric entry (a date, for
    instance). `Surd(coef, radicand)` is the exact real `coef * sqrt(radicand)`: a
    standard deviation, or one scaled by a square root, which has no finite decimal
    form in general.
  */
  datatype Cell = Num(x: real) | Surd(coef: real, radicand: real) | NaN | Text(s: string)

  /** Column names in order, one column of cells per name, and the row count. */
  datatype Table = Table(names: seq<string>, columns: seq<seq<Cell>>, rows: nat)

  /** `s` is the non-negative square root of `r`. */
  ghost predicate RootOf(r: real, s: real)
  {
    s >= 0.0 && Sq(s) == r
  }

  /** The real number `v` is the value of cell `c`; `NaN` and text denote no real. */
  ghost predicate Denotes(v: real, c: Cell)
  {
    match c
    case Num(x) => v == x
    case Surd(k, r) => exists s :: RootOf(r, s) && v == k * s
    case NaN => false
    case Text(_) => false
  }

  predicate Distinct(names: seq<string>)
  {
    forall i, j :: 0 <= i < j < |names| ==> names[i] != names[j]
  }

  /**
    The shape pandas guarantees: one column per name, every column `rows` long, and
    distinct names (`read_csv` renames a repeated header to "x.1", "x.2", ...).
  */
  predicate WellFormed(t: Table)
  {
    |t.names| == |t.columns| && Distinct(t.names) &&
    forall k :: 0 <= k < |t.columns| ==> |t.columns[k]| == t.rows
  }

  /** Position of `name` among the column names, scanning from the left. */
  function IndexOf(names: seq<string>, name: string): (r: Option<nat>)
    ensures r.None? <==> name !in names
    ensures r.Some? ==> r.value < |names| && names[r.value] == name && name !in names[..r.value]
  {
    if names == [] then None
    else if names[0] == name then Some(0)
    else match IndexOf(names[1..], name)
      case None => None
      case Some(k) =>
        assert names[1..][..k] == names[1..k + 1];
        Some(k + 1)
  }

  /** In a list of distinct names, a name is found exactly at its own position. */
  lemma IndexOfDistinct(names: seq<string>, k: int)
    requires Distinct(names) && 0 <= k < |names|
    ensures IndexOf(names, names[k]) == Some(k)
  {
    var r := IndexOf(names, names[k]);
    assert r.Some? && names[r.value] == names[k];
  }

  /** `df[name]`: the named column, or a KeyError carrying the name. */
  function ColumnOf(t: Table, name: string): (r: Result<seq<Cell>>)
    requires WellFormed(t)
    ensures r.Err? <==> name !in t.names
    ensures r.Err? ==> r.error == KeyError(name)
    ensures r.Ok? ==> |r.value| == t.rows &&
                      exists k :: 0 <= k < |t.names| && t.names[k] == name && r.value == t.columns[k]
  {
    match IndexOf(t.names, name)
    case None => Err(KeyError(name))
    case Some(k) => Ok(t.columns[k])
  }

  /** A scalar assigned to a column is repeated down every row. */
  function Broadcast(c: Cell, n: nat): (col: seq<Cell>)
    ensures |col| == n && forall i :: 0 <= i < n ==> col[i] == c
  {
    seq(n, _ => c)
  }

  /**
    `df[name] = col`: an existing column of that name is replaced where it stands,
    otherwise the column is appended after the others.
  */
  function WithColumn(t: Table, name: string, col: seq<Cell>): (r: Table)
    requires WellFormed(t) && |col| == t.rows
    ensures WellFormed(r) && r.rows == t.rows && name in r.names
    ensures |r.names| == if name in t.names then |t.names| else |t.names| + 1
  {
    match IndexOf(t.names, name)
    case Some(k) => Table(t.names, t.columns[k := col], t.rows)
    case None =>
      assert forall i :: 0 <= i < |t.names| ==> (t.names + [name])[i] == t.names[i];
      Table(t.names + [name], t.columns + [col], t.rows)
  }

  /**
    Assigning a column keeps the table well formed and the row count, `len(df)`, as it
    was; the name is present afterwards with exactly the new cells; every other column
    keeps its name, position and cells; and a new name goes at the end.
  */
  lemma WithColumnSpec(t: Table, name: string, col: seq<Cell>)
    requires WellFormed(t) && |col| == t.rows
    ensures WellFormed(WithColumn(t, name, col))
    ensures WithColumn(t, name, col).rows == t.rows
    ensures ColumnOf(WithColumn(t, name, col), name) == Ok(col)
    ensures name in t.names ==> WithColumn(t, name, col).names == t.names
    ensures name !in t.names ==> WithColumn(t, name, col).names == t.names + [name]
    ensures forall other :: other != name ==> ColumnOf(WithColumn(t, name, col), other) == ColumnOf(t, other)
  {
    var r := WithColumn(t, name, col);
    if name !in t.names {
      assert forall i :: 0 <= i < |t.names| ==> r.names[i] == t.names[i];
    }
    assert WellFormed(r);
    var k := |t.names|;
    if name in t.names {
      k := IndexOf(t.names, name).value;
    }
    assert r.names[k] == name && r.columns[k] == col;
    IndexOfDistinct(r.names, k);
    forall other | other != name ensures ColumnOf(r, other) == ColumnOf(t, other) {
      if other in t.names {
        var j := IndexOf(t.names, other).value;
        assert r.names[j] == other;
        IndexOfDistinct(r.names, j);
      } else {
        assert other !in r.names;
      }
    }
  }
}
