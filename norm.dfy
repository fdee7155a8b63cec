/** The collection assembler: `GetRows` and `GetRow` (gonorm.go:43-157) and
    their JSON wrappers (gonorm.go:162-187). The query itself is run by the
    database; its answer, or the error it reports, is an input here. */
module Norm {
  import opened Wrappers
  import opened Schema
  import opened Columns
  import opened Rows

  /** What `GetRows` returns for a record type and the database's answer:
      the driver's error, the first unmatched column, or one record per row
      in cursor order. */
  function FetchAll(fields: seq<Field>, outcome: Result<Answer, string>): (r: Result<seq<Record>, Error>)
    ensures r.Ok? <==> outcome.Ok? && outcome.value.columns.Ok?
                       && forall c :: 0 <= c < |outcome.value.columns.value| ==> outcome.value.columns.value[c] in Catalog(fields)
    ensures r.Ok? ==> |r.value| == |outcome.value.rows| && forall i :: 0 <= i < |r.value| ==> |r.value[i]| == |fields|
  {
    match outcome
    case Err(msg) => Err(QueryFailed(msg))
    case Ok(answer) =>
      match answer.columns
      case Err(msg) => Err(ColumnsFailed(msg))
      case Ok(cols) =>
        match Resolve(Catalog(fields), cols)
        case Err(e) => Err(e)
        case Ok(colmap) => Ok(MaterializeAll(fields, colmap, answer.rows))
  }

  /** What `GetRow` returns: the same errors, then the record of the first
      row, or no record (and no error) when there is no row. */
  function FetchOne(fields: seq<Field>, outcome: Result<Answer, string>): (r: Result<Option<Record>, Error>)
    ensures r.Ok? <==> outcome.Ok? && outcome.value.columns.Ok?
                       && forall c :: 0 <= c < |outcome.value.columns.value| ==> outcome.value.columns.value[c] in Catalog(fields)
    ensures r.Ok? ==> (r.value.None? <==> outcome.value.rows == [])
    ensures r.Ok? && r.value.Some? ==> |r.value.value| == |fields|
  {
    match outcome
    case Err(msg) => Err(QueryFailed(msg))
    case Ok(answer) =>
      match answer.columns
      case Err(msg) => Err(ColumnsFailed(msg))
      case Ok(cols) =>
        match Resolve(Catalog(fields), cols)
        case Err(e) => Err(e)
        case Ok(colmap) =>
          if answer.rows == [] then Ok(None) else Ok(Some(Materialize(fields, colmap, answer.rows[0])))
  }

  /** `GetRow` agrees with `GetRows` on the same answer: the same error, or
      the first of its records, or nothing when there are no records. */
  lemma FetchOneIsFirstOfFetchAll(fields: seq<Field>, outcome: Result<Answer, string>)
    ensures FetchOne(fields, outcome) ==
              match FetchAll(fields, outcome)
              case Err(e) => Err(e)
              case Ok(records) => Ok(if records == [] then None else Some(records[0]))
  {
  }

  /** When every column has a field, `GetRows` returns one record per row, in
      row order; in record `i`, the field a column resolves to holds that
      column's value of row `i` (unless a later column of the same name
      overwrites it), and a field no column resolves to keeps its zero value. */
  lemma FetchAllRecords(fields: seq<Field>, cols: seq<string>, rows: seq<Record>)
    requires forall c :: 0 <= c < |cols| ==> cols[c] in Catalog(fields)
    ensures FetchAll(fields, Ok(Answer(Ok(cols), rows))).Ok?
    ensures |FetchAll(fields, Ok(Answer(Ok(cols), rows))).value| == |rows|
    ensures forall i :: 0 <= i < |rows| ==> |FetchAll(fields, Ok(Answer(Ok(cols), rows))).value[i]| == |fields|
    ensures forall i, c :: 0 <= i < |rows| && 0 <= c < |cols| && |rows[i]| == |cols|
                           && (forall d :: c < d < |cols| ==> cols[d] != cols[c]) ==>
              FetchAll(fields, Ok(Answer(Ok(cols), rows))).value[i][Catalog(fields)[cols[c]]] == rows[i][c]
    ensures forall i, j :: 0 <= i < |rows| && 0 <= j < |fields|
                           && (forall c :: 0 <= c < |cols| ==> Catalog(fields)[cols[c]] != j) ==>
              FetchAll(fields, Ok(Answer(Ok(cols), rows))).value[i][j] == fields[j].zero
  {
    var catalog := Catalog(fields);
    var colmap := Resolve(catalog, cols).value;
    var records := FetchAll(fields, Ok(Answer(Ok(cols), rows))).value;
    assert records == MaterializeAll(fields, colmap, rows);
    forall i, c | 0 <= i < |rows| && 0 <= c < |cols| && |rows[i]| == |cols|
                  && (forall d :: c < d < |cols| ==> cols[d] != cols[c])
      ensures records[i][catalog[cols[c]]] == rows[i][c]
    {
      forall d | c < d < |cols|
        ensures colmap[d] != colmap[c]
      {
        if colmap[d] == colmap[c] {
          CatalogInjective(fields, cols[d], cols[c]);
        }
      }
      assert LastWrite(colmap, c);
      MaterializeFields(fields, colmap, rows[i]);
    }
    forall i, j | 0 <= i < |rows| && 0 <= j < |fields|
                  && (forall c :: 0 <= c < |cols| ==> catalog[cols[c]] != j)
      ensures records[i][j] == fields[j].zero
    {
      assert j !in colmap;
      MaterializeFields(fields, colmap, rows[i]);
    }
  }

  /** When the query's columns are the lookup names of all fields, in field
      order, and every row has one value per column, `GetRows` hands back
      the rows themselves as records. */
  lemma FetchAllAligned(fields: seq<Field>, cols: seq<string>, rows: seq<Record>)
    requires |cols| == |fields|
    requires forall c :: 0 <= c < |cols| ==> cols[c] in Catalog(fields) && Catalog(fields)[cols[c]] == c
    requires forall i :: 0 <= i < |rows| ==> |rows[i]| == |cols|
    ensures FetchAll(fields, Ok(Answer(Ok(cols), rows))) == Ok(rows)
  {
    var colmap := Resolve(Catalog(fields), cols).value;
    assert forall c :: 0 <= c < |cols| ==> colmap[c] == c;
    var records := MaterializeAll(fields, colmap, rows);
    forall i | 0 <= i < |rows|
      ensures records[i] == rows[i]
    {
      MaterializeDistinct(fields, colmap, rows[i]);
      assert forall c :: 0 <= c < |cols| ==> records[i][c] == rows[i][c];
    }
    assert records == rows;
    assert FetchAll(fields, Ok(Answer(Ok(cols), rows))) == Ok(records);
  }

  /** A field hidden by a later field with the same lookup name is never
      written: it holds its zero value in every record `GetRows` returns. */
  lemma ShadowedFieldStaysZero(fields: seq<Field>, cols: seq<string>, rows: seq<Record>, j: nat)
    requires forall c :: 0 <= c < |cols| ==> cols[c] in Catalog(fields)
    requires j < |fields| && LookupName(fields[j]) in Catalog(fields)
    requires j < Catalog(fields)[LookupName(fields[j])]
    ensures forall i :: 0 <= i < |rows| ==> FetchAll(fields, Ok(Answer(Ok(cols), rows))).value[i][j] == fields[j].zero
  {
    forall c | 0 <= c < |cols|
      ensures Catalog(fields)[cols[c]] != j
    {
      if Catalog(fields)[cols[c]] == j {
        CatalogNamesField(fields, cols[c]);
        assert false;
      }
    }
    FetchAllRecords(fields, cols, rows);
  }

  /** A query without rows is a success, not an error: `GetRows` returns the
      empty slice and `GetRow` returns no record. */
  lemma NoRowsIsEmptySuccess(fields: seq<Field>, cols: seq<string>)
    requires forall c :: 0 <= c < |cols| ==> cols[c] in Catalog(fields)
    ensures FetchAll(fields, Ok(Answer(Ok(cols), []))) == Ok([])
    ensures FetchOne(fields, Ok(Answer(Ok(cols), []))) == Ok(None)
  {
  }

  /** A column without a field fails both calls, with the position and name
      of the first such column, and no record is returned. */
  lemma UnmatchedColumnFails(fields: seq<Field>, cols: seq<string>, rows: seq<Record>, c: nat)
    requires c < |cols| && cols[c] !in Catalog(fields)
    requires forall d :: 0 <= d < c ==> cols[d] in Catalog(fields)
    ensures FetchAll(fields, Ok(Answer(Ok(cols), rows))) == Err(UnmatchedColumn(c, cols[c]))
    ensures FetchOne(fields, Ok(Answer(Ok(cols), rows))) == Err(UnmatchedColumn(c, cols[c]))
  {
  }

  /** The `for rows.Next()` loop of gonorm.go:84-96: one record per
      remaining row, appended in cursor order. */
  method CollectRows(rows: Cursor, fields: seq<Field>, colmap: array<nat>) returns (slice: seq<Record>)
    requires rows.Valid() && rows.pos == 0 && !rows.closed
    requires forall i :: 0 <= i < colmap.Length ==> colmap[i] < |fields|
    modifies rows
    ensures rows.Valid() && rows.closed && rows.pos == |rows.rows|
    ensures slice == MaterializeAll(fields, colmap[..], rows.rows)
  {
    var all := rows.rows;
    slice := [];
    var more := rows.Next();
    while more
      invariant rows.Valid()
      invariant more ==> 0 < rows.pos && !rows.closed
      invariant !more ==> rows.pos == |all| && rows.closed
      invariant slice == MaterializeAll(fields, colmap[..], all[..rows.pos - (if more then 1 else 0)])
      decreases |all| - rows.pos + (if more then 1 else 0)
    {
      var newval := ReadRecord(rows, fields, colmap);
      assert all[..rows.pos][..rows.pos - 1] == all[..rows.pos - 1];
      slice := slice + [newval];
      more := rows.Next();
    }
    assert all[..|all|] == all;
  }

  /** The `if rows.Next()` of gonorm.go:144-156: the record of the first
      row, or none when the cursor yields no row. */
  method FirstRow(rows: Cursor, fields: seq<Field>, colmap: array<nat>) returns (first: Option<Record>)
    requires rows.Valid() && rows.pos == 0 && !rows.closed
    requires forall i :: 0 <= i < colmap.Length ==> colmap[i] < |fields|
    modifies rows
    ensures rows.Valid()
    ensures rows.pos == (if rows.rows == [] then 0 else 1) && rows.closed == (rows.rows == [])
    ensures first == if rows.rows == [] then None else Some(Materialize(fields, colmap[..], rows.rows[0]))
  {
    var more := rows.Next();
    if more {
      var newval := ReadRecord(rows, fields, colmap);
      return Some(newval);
    }
    return None;
  }

  /** The steps of `GetRows` once the query has returned its cursor
      (gonorm.go:63-98): read the column names, resolve them, then collect a
      record per row. The deferred `Close` closes the cursor on every exit. */
  method RowsFromCursor(rows: Cursor, fields: seq<Field>, strflds: map<string, nat>)
    returns (r: Result<seq<Record>, Error>)
    requires rows.Valid() && rows.pos == 0 && !rows.closed
    requires strflds == Catalog(fields)
    modifies rows
    ensures rows.closed
    ensures r == FetchAll(fields, Ok(Answer(rows.columns, rows.rows)))
  {
    var cols := rows.Columns();
    if cols.Err? {
      rows.Close();
      return Err(ColumnsFailed(cols.error));
    }
    var colmap, err := ResolveColumns(strflds, cols.value);
    if err.Some? {
      rows.Close();
      return Err(err.value);
    }
    var slice := CollectRows(rows, fields, colmap);
    rows.Close();
    r := Ok(slice);
  }

  /** The steps of `GetRow` once the query has returned its cursor
      (gonorm.go:123-157): as in `RowsFromCursor`, but `Next` is called once
      and at most one record is built. The cursor is closed on every exit. */
  method RowFromCursor(rows: Cursor, fields: seq<Field>, strflds: map<string, nat>)
    returns (r: Result<Option<Record>, Error>)
    requires rows.Valid() && rows.pos == 0 && !rows.closed
    requires strflds == Catalog(fields)
    modifies rows
    ensures rows.closed
    ensures r == FetchOne(fields, Ok(Answer(rows.columns, rows.rows)))
  {
    var cols := rows.Columns();
    if cols.Err? {
      rows.Close();
      return Err(ColumnsFailed(cols.error));
    }
    var colmap, err := ResolveColumns(strflds, cols.value);
    if err.Some? {
      rows.Close();
      return Err(err.value);
    }
    var first := FirstRow(rows, fields, colmap);
    rows.Close();
    r := Ok(first);
  }

  /** `GetRows`: build the catalog and run the query; a failed query is
      returned as is, otherwise the new cursor is read by `RowsFromCursor`,
      which closes it. */
  method GetRows(fields: seq<Field>, outcome: Result<Answer, string>) returns (r: Result<seq<Record>, Error>)
    ensures r == FetchAll(fields, outcome)
  {
    var strflds := BuildCatalog(fields);
    if outcome.Err? {
      return Err(QueryFailed(outcome.error));
    }
    var rows := new Cursor(outcome.value);
    r := RowsFromCursor(rows, fields, strflds);
  }

  /** `GetRow`: the same as `GetRows`, with the cursor read by `RowFromCursor`. */
  method GetRow(fields: seq<Field>, outcome: Result<Answer, string>) returns (r: Result<Option<Record>, Error>)
    ensures r == FetchOne(fields, outcome)
  {
    var strflds := BuildCatalog(fields);
    if outcome.Err? {
      return Err(QueryFailed(outcome.error));
    }
    var rows := new Cursor(outcome.value);
    r := RowFromCursor(rows, fields, strflds);
  }

  /** `GetRowsJson`: on failure the text is the empty JSON array "[]" next to
      the error; on success it is whatever the serializer makes of the records. */
  method GetRowsJson(fields: seq<Field>, outcome: Result<Answer, string>, marshal: seq<Record> -> string)
    returns (text: string, err: Option<Error>)
    ensures FetchAll(fields, outcome).Err? ==> text == "[]" && err == Some(FetchAll(fields, outcome).error)
    ensures FetchAll(fields, outcome).Ok? ==> text == marshal(FetchAll(fields, outcome).value) && err == None
  {
    var vals := GetRows(fields, outcome);
    if vals.Err? {
      return "[]", Some(vals.error);
    }
    text := marshal(vals.value);
    err := None;
  }

  /** `GetRowJson`: on failure the text is empty next to the error; on
      success it is whatever the serializer makes of the optional record. */
  method GetRowJson(fields: seq<Field>, outcome: Result<Answer, string>, marshal: Option<Record> -> string)
    returns (text: string, err: Option<Error>)
    ensures FetchOne(fields, outcome).Err? ==> text == "" && err == Some(FetchOne(fields, outcome).error)
    ensures FetchOne(fields, outcome).Ok? ==> text == marshal(FetchOne(fields, outcome).value) && err == None
  {
    var vals := GetRow(fields, outcome);
    if vals.Err? {
      return "", Some(vals.error);
    }
    text := marshal(vals.value);
    err := None;
  }
}
