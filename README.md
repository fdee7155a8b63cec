# gonorm row mapping, modelled in Dafny

gonorm runs a SQL query and turns every returned row into a value of a
caller-supplied struct type, matching columns to struct fields by name. This
project models the mapping engine of `gonorm.go`: the four steps that
`GetRows` and `GetRow` share (they are written out twice in the source and
are modelled once here), and the error path of the two JSON wrappers.

- **Field catalog** (`Schema`): a struct type is a sequence of `Field(name,
  tag, zero)`, where `tag` is the value of the `fldnm` struct tag ("" when
  absent) and `zero` the zero value of the field's type. A field's lookup
  name is the tag trimmed of spaces and tabs, verbatim, when that is not
  empty, and otherwise the lower-cased field name. `BuildCatalog` fills the
  map `strflds` from name to field index in field order, so a later field
  with the same lookup name replaces an earlier one.
- **Column resolver** (`Columns`): `ResolveColumns` fills the array `colmap`
  with the field index of every column, left to right. It stops at the first
  column the catalog does not know, with the error "No match for column
  %d: %s".
- **Row materializer** (`Rows`): the database cursor is a `Cursor` object
  with `Columns`, `Next`, `Scan` and `Close`. `ReadRecord` makes a fresh
  zero-valued record and scans the current row into field `colmap[i]` for
  each column `i`.
- **Collection assembler** (`Norm`): `GetRows` appends one record per row
  in cursor order. `GetRow` builds at most the first record. The JSON
  wrappers return "[]" and "" with the error on failure.

Each method is proved against a specification function (`Catalog`,
`Resolve`, `Materialize`, `MaterializeAll`, `FetchAll`, `FetchOne`). The
lemmas state what those functions promise. The answer the database gives to
the query is an input, `Result<Answer, string>`. It holds either the
driver's error, or the column names (or the error `Columns` reports) and the
rows, each already converted to the field types. `Scenarios` works through
concrete struct types and queries.

## Model

| member | source | states |
|---|---|---|
| Text.TrimLeft | gonorm.go:52 | the leading part `strings.Trim` drops is all spaces and tabs, and what is left does not start with one |
| Text.TrimLeftIsSuffix | gonorm.go:52 | what is left after the leading blanks is a suffix of the tag |
| Text.TrimRight | gonorm.go:52 | the trailing part dropped is all spaces and tabs, and what is left does not end with one |
| Text.TrimRightIsPrefix | gonorm.go:52 | what is left after the trailing blanks is a prefix of the tag |
| Text.Trim | gonorm.go:52-53 | the trimmed tag is no longer than the tag, has no blank at either end, and is empty exactly when the tag is all spaces and tabs |
| Text.TrimIsInfix | gonorm.go:52-53 | the trimmed tag is the infix of the tag between a blank-only head and a blank-only tail |
| Text.TrimUnpadded | gonorm.go:53 | a tag without a blank at either end is used exactly as written |
| Text.TrimIdempotent | gonorm.go:53 | trimming an already-trimmed tag changes nothing |
| Text.ToLower | gonorm.go:50 | lower-casing keeps the length of the field name |
| Text.ToLowerAt | gonorm.go:50 | each character of the field name is folded on its own, in place |
| Text.ToLowerFolds | gonorm.go:50 | a lower-cased name has no upper-case letter, and folding it again changes nothing |
| Text.Decimal | gonorm.go:79 | `%d` of a column index is a non-empty run of decimal digits |
| Text.DecimalRoundTrip | gonorm.go:79 | reading the digits back gives the column index |
| Text.DecimalInjective | gonorm.go:79 | two different indices never print the same |
| Schema.LookupName | gonorm.go:50-54 | a lookup name taken from a non-blank tag is non-empty, no longer than the tag and has no blank at either end; one taken from the field name has the field name's length |
| Schema.TagOverridesName | gonorm.go:51-54 | a non-blank `fldnm` tag is the lookup name, trimmed but with its case kept; a tag with no surrounding blanks is used exactly as written |
| Schema.BlankTagUsesName | gonorm.go:50-54 | an absent or blank tag falls back to the lower-cased field name |
| Schema.LookupNames | gonorm.go:47-54 | one lookup name per field |
| Schema.LookupNamesAt | gonorm.go:47-54 | entry `i` is the lookup name of field `i` |
| Schema.Index | gonorm.go:56 | after `names[i] := i` for every `i` in order, every key maps to a position that carries it |
| Schema.IndexLastWins | gonorm.go:47-57 | every name is a key and maps to the last position carrying it |
| Schema.Catalog | gonorm.go:44-57 | every catalog value is a field index in `[0, NumField)` |
| Schema.CatalogNamesField | gonorm.go:47-57 | every catalog key is the lookup name of the field it maps to |
| Schema.CatalogLastWins | gonorm.go:47-57 | every field's lookup name is a key; it maps to that field or a later one, and no field after the one it maps to has the same name (the highest index wins) |
| Schema.CatalogKeys | gonorm.go:47-57 | a name is a key if and only if some field has it as lookup name |
| Schema.CatalogInjective | gonorm.go:47-57 | two keys never map to the same field |
| Schema.BuildCatalog | gonorm.go:44-57 | the `for i` loop leaves exactly the catalog in `strflds` (also gonorm.go:105-117) |
| Columns.Message | gonorm.go:61-80 | a driver error's text is passed on unchanged; an unmatched column's text starts with "No match for column " followed by a decimal digit |
| Columns.UnmatchedMessageInjective | gonorm.go:79 | the "No match for column" message determines both the column's position and its name |
| Columns.Resolve | gonorm.go:72-81 | resolution succeeds if and only if every column is a catalog key; then entry `i` is the catalog entry of column `i`; otherwise the error names the first unknown column's zero-based position and its name |
| Columns.ResolveColumns | gonorm.go:72-81 | `colmap` has one slot per column; without error it holds the resolution, and the error returned is the resolver's error (also gonorm.go:132-141) |
| Rows.ZeroRecord | gonorm.go:86 | a fresh record has one value per field |
| Rows.Fill | gonorm.go:89-93 | writing the columns through `colmap` keeps the record's length |
| Rows.FillWrites | gonorm.go:89-93 | a column's value is in its field unless a later column targets the same field |
| Rows.FillKeeps | gonorm.go:86-93 | a field no column targets keeps its value |
| Rows.Materialize | gonorm.go:86-93 | a materialized record has one value per field |
| Rows.MaterializeFields | gonorm.go:86-93 | in a new record each column's value is in field `colmap[i]` (the last column wins on a shared field), and every untargeted field holds its zero value |
| Rows.MaterializeDistinct | gonorm.go:86-93 | with no repeated target, field `colmap[i]` holds column `i`'s value for every `i` |
| Rows.MaterializeAll | gonorm.go:84-96 | one record per row, record `i` built from row `i` alone |
| Rows.Cursor.constructor | gonorm.go:59 | a new cursor is open, before the first row, over the answer's columns and rows |
| Rows.Cursor.Columns | gonorm.go:66 | `Columns` reports the answer's column names or error, or an error on a closed cursor |
| Rows.Cursor.Next | gonorm.go:84 | `Next` moves past one more row exactly when the cursor is open and a row is left; running out closes the cursor |
| Rows.Cursor.Scan | gonorm.go:93 | the current row is written into the fields `colmap` names, in column order; with a wrong number of destinations nothing is written |
| Rows.Cursor.Close | gonorm.go:63 | the deferred `Close` leaves the cursor closed |
| Rows.ReadRecord | gonorm.go:86-93 | the record built for the current row is the materialization of that row (also gonorm.go:146-153) |
| Norm.CollectRows | gonorm.go:84-96 | the `for rows.Next()` loop yields the records of all rows in cursor order and leaves the cursor exhausted and closed |
| Norm.FirstRow | gonorm.go:143-156 | the `if rows.Next()` step yields the first row's record, or none when there is no row; afterwards the cursor is past the first row and open, or closed when there was no row |
| Norm.FetchAll | gonorm.go:43-99 | `GetRows` succeeds exactly when the query and `Columns` succeed and every column is a catalog key; then it gives one record per row, each with one value per field |
| Norm.FetchOne | gonorm.go:104-157 | `GetRow` succeeds under the same condition; then it gives no record exactly when there is no row, and otherwise a record with one value per field |
| Norm.RowsFromCursor | gonorm.go:59-98 | reading an open cursor gives the `Columns` error, the first unmatched column, or one record per row in order, and the cursor is closed on every exit |
| Norm.RowFromCursor | gonorm.go:119-156 | the same errors, then the first row's record or no record, and the cursor is closed on every exit |
| Norm.GetRows | gonorm.go:43-99 | the result is the query error, or what reading the new cursor gives: exactly `FetchAll` of the answer |
| Norm.GetRow | gonorm.go:104-157 | the query error, or what reading the new cursor gives: exactly `FetchOne` of the answer |
| Norm.GetRowsJson | gonorm.go:162-172 | on any error the text is "[]" paired with that error; otherwise the serializer's text and no error |
| Norm.GetRowJson | gonorm.go:177-187 | on any error the text is "" paired with that error; otherwise the serializer's text and no error |
| Norm.FetchOneIsFirstOfFetchAll | gonorm.go:104-156 | `GetRow` gives the same error as `GetRows` on the same answer, otherwise element 0 of its records, or no record (not an error) when there are none |
| Norm.FetchAllRecords | gonorm.go:84-98 | when every column has a field: one record per row, each with one value per field; in record `i` the field of column `c` holds row `i`'s value of column `c` when no later column shares its name; fields no column resolves to keep their zero value |
| Norm.FetchAllAligned | gonorm.go:84-98 | when the columns are the fields' lookup names in field order, the records are the rows themselves |
| Norm.ShadowedFieldStaysZero | gonorm.go:47-57 | a field hidden by a later field with the same lookup name holds its zero value in every record |
| Norm.NoRowsIsEmptySuccess | gonorm.go:143-156 | with no rows `GetRows` returns the empty slice and `GetRow` returns no record, neither an error |
| Norm.UnmatchedColumnFails | gonorm.go:133-140 | a column without a field fails both calls with its position and name when it is the first such column, and no records are returned |
| Scenarios.PersonCatalog | gonorm.go:47-57 | untagged fields `Id`, `Name` are catalogued as "id" → 0 and "name" → 1 |
| Scenarios.PersonRows | gonorm.go:84-98 | columns "id", "name" with rows (1, "a"), (2, "b") give the records {1, "a"}, {2, "b"} in that order |
| Scenarios.PersonNickname | gonorm.go:72-80 | the columns "id", "nickname" fail at position 1 with the name "nickname" |
| Scenarios.ContactCatalog | gonorm.go:50-57 | a field whose tag has no blank at either end is catalogued under the tag only |
| Scenarios.ContactByTag | gonorm.go:143-155 | a field `Email` tagged "e_mail" receives column "e_mail" of the first row |
| Scenarios.TagReplacesFieldName | gonorm.go:50-54 | with tag "mail", the column "mail" matches and the column "email" does not |
| Scenarios.TagTrimmedNotFolded | gonorm.go:52-53 | the tag " \tMail\t " gives the lookup name "Mail": trimmed, and not lower-cased |

## Left out

- `NewNorm` and the `Norm` struct (gonorm.go:21-38) only wrap `sql.Open`. The model takes the database's answer to the query as an input.
- Running the query (`ent.DB.Query`) and obtaining the column names are done by the database driver. Their outcomes, success or an error message, are inputs.
- `rows.Scan` converts each column value to its field's type. The rows of the model already hold converted values. A conversion error, which the source ignores, is not modelled. The source does not check `rows.Err()` after the loop either, so an iteration error just ends the loop; an answer with fewer rows stands for it.
- `json.Marshal` is an external serializer. The JSON wrappers take it as a function parameter. Its error, which the source ignores, is not modelled.
- Reflection is not modelled: reading the struct's fields, parsing the `fldnm` entry of a struct tag (`Field.tag` is the value `Tag.Get` returns), the panic when the template value is not a struct, and the slice capacity of 100.
- Unexported fields are catalogued under their lookup names like any other field (gonorm.go:47-57, 107-117), and the model does the same. Go panics at gonorm.go:90 or :150 when a column resolves to an unexported field and `Next` has returned a row, because `.Interface()` is called on the address of that field. In that case the model's `FetchAll` and `FetchOne` succeed and put the column's value in the field. For example, `struct { id int; Name string }` with the column "id" and one row gives the record (that value, ""). With no rows, or with no column resolving to an unexported field, Go succeeds as the model does.
- Taking field addresses is not modelled. The `adds` slice of field addresses is represented by the pair (record array, `colmap`) handed to `Cursor.Scan`.
- `GetRow` hands back the `reflect.Value` that wraps the new record (gonorm.go:154), not the record itself. The model's `GetRow` returns the record. Go code that calls `GetRow` directly sees the wrapper rather than the struct. `GetRowJson` also serializes that wrapper (see the `Norm.GetRowJson` line below).
- The driver import `_ "github.com/lib/pq"` only registers a driver.
- Text.ToLower: folds only ASCII 'A'..'Z', whereas Go's `strings.ToLower` folds all of Unicode. Strings are sequences of characters, not UTF-8 bytes.
- The cursor is local to `GetRows` and `GetRow`, so their own contracts cannot mention it. That the cursor is closed on every exit is stated by `Norm.RowsFromCursor` and `Norm.RowFromCursor`, which receive the cursor once the query has succeeded.
- Norm.GetRowJson: on success with no row, the text is whatever the serializer makes of "no record" (Go's `json.Marshal(nil)` gives "null"), not an empty string. On success with a row, the model serializes the record. Go serializes the `reflect.Value` that `GetRow` returns (gonorm.go:154, 179, 185). That value has no exported fields, so by encoding/json's rules the text is `{}` whatever the row holds.
- The duplicate-name overwrite in the catalog and the ignored wrong-arity scan error are modelled as the code has them. `Cursor.Scan` writes nothing when a row's width differs from the number of destinations, and the caller ignores that error, so the record keeps its zero values. The code does not reject duplicate lookup names or surface this error, so neither does the model. Conversion errors are not modelled (see the `rows.Scan` line above).
