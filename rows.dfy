/** The result cursor of `database/sql` as the mapping engine uses it, and the
    row materializer that turns one row into a fresh record
    (gonorm.go:84-96 and 143-155). */
module Rows {
  import opened Wrappers
  import opened Schema

  /** What the database hands back for a query: the column names (or the
      error `Columns` reports) and the rows, each already converted to the
      types of the fields it is scanned into. */
  datatype Answer = Answer(columns: Result<seq<string>, string>, rows: seq<Record>)

  /** The error `database/sql` reports for `Columns` on a closed cursor. */
  const ClosedMessage: string := "sql: Rows are closed"

  /** A fresh struct value: every field holds the zero value of its type. */
  function ZeroRecord(fields: seq<Field>): (r: Record)
    ensures |r| == |fields|
  {
    seq(|fields|, i requires 0 <= i < |fields| => fields[i].zero)
  }

  /** Column `i` is the last column that targets its field, so no later
      write overwrites it. */
  predicate LastWrite(colmap: seq<nat>, i: nat)
    requires i < |colmap|
  {
    forall k :: i < k < |colmap| ==> colmap[k] != colmap[i]
  }

  /** Writing column `i` of `row` into field `colmap[i]` of `rec`, for
      i = 0, 1, ... in column order. */
  function Fill(rec: Record, colmap: seq<nat>, row: Record): (r: Record)
    requires |row| == |colmap|
    requires forall i :: 0 <= i < |colmap| ==> colmap[i] < |rec|
    ensures |r| == |rec|
    decreases |colmap|
  {
    if colmap == [] then rec
    else
      var n := |colmap| - 1;
      Fill(rec, colmap[..n], row[..n])[colmap[n] := row[n]]
  }

  /** A column's value stays in its field when no later column targets the
      same field. */
  lemma {:induction false} FillWrites(rec: Record, colmap: seq<nat>, row: Record, i: nat)
    requires |row| == |colmap|
    requires forall i :: 0 <= i < |colmap| ==> colmap[i] < |rec|
    requires i < |colmap| && LastWrite(colmap, i)
    ensures Fill(rec, colmap, row)[colmap[i]] == row[i]
    decreases |colmap|
  {
    var n := |colmap| - 1;
    if i < n {
      assert LastWrite(colmap[..n], i);
      FillWrites(rec, colmap[..n], row[..n], i);
    }
  }

  /** A field no column targets keeps the value it had. */
  lemma {:induction false} FillKeeps(rec: Record, colmap: seq<nat>, row: Record, j: nat)
    requires |row| == |colmap|
    requires forall i :: 0 <= i < |colmap| ==> colmap[i] < |rec|
    requires j < |rec| && j !in colmap
    ensures Fill(rec, colmap, row)[j] == rec[j]
    decreases |colmap|
  {
    if colmap != [] {
      var n := |colmap| - 1;
      assert j !in colmap[..n];
      FillKeeps(rec, colmap[..n], row[..n], j);
    }
  }

  /** The record built from one row: a fresh zero value scanned through
      `colmap`. The scan writes nothing when the row does not have one value
      per column (`Rows.Scan` then fails, and the caller ignores the error). */
  function Materialize(fields: seq<Field>, colmap: seq<nat>, row: Record): (r: Record)
    requires forall i :: 0 <= i < |colmap| ==> colmap[i] < |fields|
    ensures |r| == |fields|
  {
    if |row| == |colmap| then Fill(ZeroRecord(fields), colmap, row) else ZeroRecord(fields)
  }

  /** What a materialized record holds: each column's value in its field,
      unless a later column targets the same field, and the zero value in
      every field no column targets. */
  lemma MaterializeFields(fields: seq<Field>, colmap: seq<nat>, row: Record)
    requires forall i :: 0 <= i < |colmap| ==> colmap[i] < |fields|
    ensures |row| == |colmap| ==>
              forall i :: 0 <= i < |colmap| && LastWrite(colmap, i) ==> Materialize(fields, colmap, row)[colmap[i]] == row[i]
    ensures forall j :: 0 <= j < |fields| && (j !in colmap || |row| != |colmap|) ==> Materialize(fields, colmap, row)[j] == fields[j].zero
  {
    if |row| == |colmap| {
      forall i | 0 <= i < |colmap| && LastWrite(colmap, i)
        ensures Materialize(fields, colmap, row)[colmap[i]] == row[i]
      {
        FillWrites(ZeroRecord(fields), colmap, row, i);
      }
      forall j | 0 <= j < |fields| && j !in colmap
        ensures Materialize(fields, colmap, row)[j] == fields[j].zero
      {
        FillKeeps(ZeroRecord(fields), colmap, row, j);
      }
    }
  }

  /** When every column targets a different field (the query has no repeated
      column name), each column's value lands in its field. */
  lemma MaterializeDistinct(fields: seq<Field>, colmap: seq<nat>, row: Record)
    requires forall i :: 0 <= i < |colmap| ==> colmap[i] < |fields|
    requires forall i, k :: 0 <= i < k < |colmap| ==> colmap[i] != colmap[k]
    requires |row| == |colmap|
    ensures forall i :: 0 <= i < |colmap| ==> Materialize(fields, colmap, row)[colmap[i]] == row[i]
  {
    MaterializeFields(fields, colmap, row);
    forall i | 0 <= i < |colmap|
      ensures LastWrite(colmap, i)
    {
    }
  }

  /** The records of all rows, in cursor order: one per row, each built from
      its own row alone. */
  function MaterializeAll(fields: seq<Field>, colmap: seq<nat>, rows: seq<Record>): (rs: seq<Record>)
    requires forall i :: 0 <= i < |colmap| ==> colmap[i] < |fields|
    ensures |rs| == |rows|
    ensures forall i :: 0 <= i < |rows| ==> rs[i] == Materialize(fields, colmap, rows[i])
    decreases |rows|
  {
    if rows == [] then []
    else
      var n := |rows| - 1;
      var before := MaterializeAll(fields, colmap, rows[..n]);
      assert forall i :: 0 <= i < n ==> before[i] == Materialize(fields, colmap, rows[i]) by {
        forall i | 0 <= i < n
          ensures before[i] == Materialize(fields, colmap, rows[i])
        {
          assert rows[..n][i] == rows[i];
        }
      }
      before + [Materialize(fields, colmap, rows[n])]
  }

  /** A `*sql.Rows`: the answer it was opened on, how many rows `Next` has
      moved past, and whether it has been closed. */
  class Cursor {
    const columns: Result<seq<string>, string>
    const rows: seq<Record>
    var pos: nat
    var closed: bool

    ghost predicate Valid()
      reads this
    {
      pos <= |rows|
    }

    constructor (answer: Answer)
      ensures columns == answer.columns && rows == answer.rows
      ensures pos == 0 && !closed && Valid()
    {
      columns := answer.columns;
      rows := answer.rows;
      pos := 0;
      closed := false;
    }

    /** `rows.Columns()`. */
    method Columns() returns (r: Result<seq<string>, string>)
      ensures r == if closed then Err(ClosedMessage) else columns
    {
      if closed {
        r := Err(ClosedMessage);
      } else {
        r := columns;
      }
    }

    /** `rows.Next()`: moves to the next row if there is one; running out of
        rows closes the cursor. */
    method Next() returns (more: bool)
      requires Valid()
      modifies this`pos, this`closed
      ensures Valid()
      ensures more == (!old(closed) && old(pos) < |rows|)
      ensures pos == if more then old(pos) + 1 else old(pos)
      ensures closed == (old(closed) || !more)
    {
      if closed {
        more := false;
      } else if pos < |rows| {
        pos := pos + 1;
        more := true;
      } else {
        closed := true;
        more := false;
      }
    }

    /** `rows.Scan(adds...)`, where `adds[i]` is the address of field
        `colmap[i]` of `dest`: the current row's values are written through
        those addresses in column order. With a wrong number of destinations
        nothing is written. */
    method Scan(dest: array<Value>, colmap: array<nat>)
      requires Valid() && !closed && 0 < pos
      requires forall i :: 0 <= i < colmap.Length ==> colmap[i] < dest.Length
      modifies dest
      ensures dest[..] == if colmap.Length == |rows[pos - 1]|
                          then Fill(old(dest[..]), colmap[..], rows[pos - 1])
                          else old(dest[..])
    {
      var row := rows[pos - 1];
      if colmap.Length != |row| {
        return;
      }
      for i := 0 to colmap.Length
        invariant dest[..] == Fill(old(dest[..]), colmap[..i], row[..i])
      {
        assert colmap[..i + 1][..i] == colmap[..i] && row[..i + 1][..i] == row[..i];
        dest[colmap[i]] := row[i];
      }
      assert colmap[..colmap.Length] == colmap[..] && row[..|row|] == row;
    }

    /** `rows.Close()`, run by the deferred call on every exit path. */
    method Close()
      modifies this`closed
      ensures closed
    {
      closed := true;
    }
  }

  /** The row materializer of gonorm.go:86-93: a new zero value of the record
      type, the current row scanned into the fields `colmap` names. */
  method ReadRecord(cursor: Cursor, fields: seq<Field>, colmap: array<nat>) returns (rec: Record)
    requires cursor.Valid() && !cursor.closed && 0 < cursor.pos
    requires forall i :: 0 <= i < colmap.Length ==> colmap[i] < |fields|
    ensures rec == Materialize(fields, colmap[..], cursor.rows[cursor.pos - 1])
  {
    var newval := new Value[|fields|](i requires 0 <= i < |fields| => fields[i].zero);
    assert newval[..] == ZeroRecord(fields);
    cursor.Scan(newval, colmap);
    rec := newval[..];
  }
}
