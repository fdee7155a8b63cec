/** The errors a query call reports, and the column resolver that turns the
    query's column names into field indices (gonorm.go:71-81, duplicated at
    131-141). */
module Columns {
  import opened Wrappers
  import opened Text

  /** Why a call to `GetRows` or `GetRow` failed. The driver's own errors
      are carried as their message text. */
  datatype Error =
    | QueryFailed(msg: string)          // `ent.DB.Query` returned an error
    | ColumnsFailed(msg: string)        // `rows.Columns` returned an error
    | UnmatchedColumn(index: nat, name: string)  // no field for this column

  const NoMatchPrefix: string := "No match for column "

  /** The text of the error, as the caller sees it through `err.Error()`:
      the driver's message passed on unchanged, or the fixed prefix followed
      by the column's position in decimal (see `UnmatchedMessageInjective`). */
  function Message(e: Error): (r: string)
    ensures !e.UnmatchedColumn? ==> r == e.msg
    ensures e.UnmatchedColumn? ==> |NoMatchPrefix| < |r| && r[..|NoMatchPrefix|] == NoMatchPrefix && IsDigit(r[|NoMatchPrefix|])
  {
    match e
    case QueryFailed(msg) => msg
    case ColumnsFailed(msg) => msg
    case UnmatchedColumn(i, name) => NoMatchPrefix + Decimal(i) + ": " + name
  }

  /** The message of an unmatched column determines both its position and its
      name: no two different columns share a message. */
  lemma UnmatchedMessageInjective(i: nat, a: string, j: nat, b: string)
    requires Message(UnmatchedColumn(i, a)) == Message(UnmatchedColumn(j, b))
    ensures i == j && a == b
  {
    var di, dj := Decimal(i), Decimal(j);
    var p := |NoMatchPrefix|;
    var x := Message(UnmatchedColumn(i, a));
    assert x[p..] == di + ": " + a;
    assert x[p..] == dj + ": " + b;
    if |di| < |dj| {
      ShorterNumberDiffers(di, dj, a, b);
      assert false;
    } else if |dj| < |di| {
      ShorterNumberDiffers(dj, di, b, a);
      assert false;
    }
    assert di == x[p..][..|di|] == dj;
    assert a == x[p..][|di| + 2..] == b;
    DecimalInjective(i, j);
  }

  /** After a shorter run of digits comes the ':' where a longer run still
      has a digit. */
  lemma ShorterNumberDiffers(d1: string, d2: string, a: string, b: string)
    requires AllDigits(d2) && |d1| < |d2|
    ensures d1 + ": " + a != d2 + ": " + b
  {
    assert (d1 + ": " + a)[|d1|] == ':';
    assert (d2 + ": " + b)[|d1|] == d2[|d1|];
  }

  /** What the resolution loop computes, column by column from the left: the
      catalog entry of every column, or an error naming the FIRST column the
      catalog does not know. */
  function Resolve(catalog: map<string, nat>, cols: seq<string>): (r: Result<seq<nat>, Error>)
    ensures r.Ok? <==> forall i :: 0 <= i < |cols| ==> cols[i] in catalog
    ensures r.Ok? ==> |r.value| == |cols| && forall i :: 0 <= i < |cols| ==> r.value[i] == catalog[cols[i]]
    ensures r.Err? ==> r.error.UnmatchedColumn? && r.error.index < |cols|
                       && r.error.name == cols[r.error.index] && r.error.name !in catalog
                       && forall k :: 0 <= k < r.error.index ==> cols[k] in catalog
    decreases |cols|
  {
    if cols == [] then Ok([])
    else
      var n := |cols| - 1;
      var prefix := cols[..n];
      match Resolve(catalog, prefix)
      case Err(e) => Err(e)
      case Ok(m) =>
        if cols[n] in catalog then Ok(m + [catalog[cols[n]]]) else Err(UnmatchedColumn(n, cols[n]))
  }

  /** The loop of gonorm.go:72-81: `colmap` is allocated with one slot per
      column and filled left to right; the first unknown column ends the loop
      with an error. */
  method ResolveColumns(strflds: map<string, nat>, cols: seq<string>)
    returns (colmap: array<nat>, err: Option<Error>)
    ensures colmap.Length == |cols|
    ensures err.None? ==> Resolve(strflds, cols) == Ok(colmap[..])
    ensures err.Some? ==> Resolve(strflds, cols) == Err(err.value)
  {
    colmap := new nat[|cols|];
    err := None;
    for i := 0 to |cols|
      invariant Resolve(strflds, cols[..i]) == Ok(colmap[..i])
    {
      var val := cols[i];
      if val in strflds {
        colmap[i] := strflds[val];
        assert cols[..i + 1][..i] == cols[..i];
        assert colmap[..i + 1] == colmap[..i] + [strflds[val]];
      } else {
        err := Some(UnmatchedColumn(i, val));
        return;
      }
    }
    assert cols[..|cols|] == cols;
    assert colmap[..|cols|] == colmap[..];
  }
}
