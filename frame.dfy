/**
  The DataFrame as an object: the analysis adds columns to it in place, and each
  method here is proved against the value-level operation of the same name in
  `Tables`.
*/
module Frames {
  import opened Wrappers
  import opened Tables

  class Frame {
    var names: seq<string>
    var columns: seq<seq<Cell>>
    var rows: nat

    /** The table the frame currently holds. */
    function Snapshot(): Table
      reads this
    {
      Table(names, columns, rows)
    }

    predicate Valid()
      reads this
    {
      WellFormed(Snapshot())
    }

    /** A frame holding an already-parsed table. */
    constructor (t: Table)
      requires WellFormed(t)
      ensures Valid() && Snapshot() == t
    {
      names, columns, rows := t.names, t.columns, t.rows;
    }

    /** `len(df)`: the number of rows. */
    function Len(): (n: nat)
      reads this
      requires Valid()
      ensures n == Snapshot().rows
      ensures forall k :: 0 <= k < |columns| ==> |columns[k]| == n
    {
      rows
    }

    /** `df[name]`: reads a column without changing the frame. */
    method Get(name: string) returns (r: Result<seq<Cell>>)
      requires Valid()
      ensures r == ColumnOf(Snapshot(), name)
    {
      var k := IndexOf(names, name);
      match k
      case None => r := Err(KeyError(name));
      case Some(i) => r := Ok(columns[i]);
    }

    /** `df[name] = col`: replaces the named column in place, or appends it. */
    method Assign(name: string, col: seq<Cell>)
      requires Valid() && |col| == rows
      modifies this
      ensures Valid()
      ensures Snapshot() == WithColumn(old(Snapshot()), name, col)
    {
      WithColumnSpec(Snapshot(), name, col);
      var k := IndexOf(names, name);
      match k
      case Some(i) =>
        columns := columns[i := col];
      case None =>
        names := names + [name];
        columns := columns + [col];
    }
  }
}
