/** Worked examples of the mapping engine on concrete record types. */
module Scenarios {
  import opened Wrappers
  import opened Schema
  import opened Columns
  import opened Rows
  import opened Norm
  import opened Text

  /** struct { Id int; Name string } without tags. */
  function Person(): seq<Field> {
    [Field("Id", "", Int(0)), Field("Name", "", Str(""))]
  }

  /** Without tags, the columns are named after the lower-cased fields. */
  lemma PersonCatalog()
    ensures "id" in Catalog(Person()) && Catalog(Person())["id"] == 0
    ensures "name" in Catalog(Person()) && Catalog(Person())["name"] == 1
  {
    var fields := Person();
    assert LookupName(fields[0]) == "id";
    assert LookupName(fields[1]) == "name";
    CatalogLastWins(fields, 0);
    CatalogLastWins(fields, 1);
    CatalogNamesField(fields, "id");
    CatalogNamesField(fields, "name");
  }

  /** Columns "id" and "name" fill Id and Name, one record per row, in order. */
  lemma PersonRows()
    ensures FetchAll(Person(), Ok(Answer(Ok(["id", "name"]), [[Int(1), Str("a")], [Int(2), Str("b")]])))
            == Ok([[Int(1), Str("a")], [Int(2), Str("b")]])
  {
    PersonCatalog();
    FetchAllAligned(Person(), ["id", "name"], [[Int(1), Str("a")], [Int(2), Str("b")]]);
  }

  /** A column "nickname" has no field: the call fails at position 1. */
  lemma PersonNickname(rows: seq<Record>)
    ensures FetchAll(Person(), Ok(Answer(Ok(["id", "nickname"]), rows))) == Err(UnmatchedColumn(1, "nickname"))
  {
    var fields := Person();
    PersonCatalog();
    assert LookupName(fields[0]) == "id";
    assert LookupName(fields[1]) == "name";
    CatalogKeys(fields, "nickname");
    UnmatchedColumnFails(fields, ["id", "nickname"], rows, 1);
  }

  /** struct { Email string `fldnm:"e_mail"` }. */
  function Contact(tag: string): seq<Field> {
    [Field("Email", tag, Str(""))]
  }

  /** A tag without surrounding blanks is the one key of the catalog. */
  lemma ContactCatalog(tag: string)
    requires tag != [] && !IsBlank(tag[0]) && !IsBlank(tag[|tag| - 1])
    ensures tag in Catalog(Contact(tag)) && Catalog(Contact(tag))[tag] == 0
    ensures forall k :: k in Catalog(Contact(tag)) ==> k == tag
  {
  }

  /** The tag names the column: "e_mail" fills Email. */
  lemma ContactByTag()
    ensures FetchOne(Contact("e_mail"), Ok(Answer(Ok(["e_mail"]), [[Str("x@y.com")]])))
            == Ok(Some([Str("x@y.com")]))
  {
    var fields := Contact("e_mail");
    ContactCatalog("e_mail");
    var cols := ["e_mail"];
    var rows := [[Str("x@y.com")]];
    FetchAllRecords(fields, cols, rows);
    FetchOneIsFirstOfFetchAll(fields, Ok(Answer(Ok(cols), rows)));
    var records := FetchAll(fields, Ok(Answer(Ok(cols), rows))).value;
    assert records[0][0] == rows[0][0];
    assert records[0] == rows[0];
  }

  /** With the tag "mail", the column "mail" matches and "email", the
      lower-cased field name, no longer does. */
  lemma TagReplacesFieldName(rows: seq<Record>)
    ensures FetchAll(Contact("mail"), Ok(Answer(Ok(["mail"]), rows))).Ok?
    ensures FetchAll(Contact("mail"), Ok(Answer(Ok(["email"]), rows))) == Err(UnmatchedColumn(0, "email"))
  {
  }

  /** The tag is trimmed of spaces and tabs but keeps its case. */
  lemma TagTrimmedNotFolded()
    ensures LookupName(Field("Email", " \tMail\t ", Nil)) == "Mail"
  {
    var tag := " \tMail\t ";
    assert tag[1..] == "\tMail\t " && tag[1..][1..] == "Mail\t ";
    assert TrimLeft(tag) == "Mail\t ";
    assert "Mail\t "[..5] == "Mail\t" && "Mail\t"[..4] == "Mail";
    assert TrimRight("Mail\t ") == "Mail";
  }
}
