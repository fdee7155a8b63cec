/** The record type as the mapping engine sees it through reflection, and the
    field catalog built from it (gonorm.go:44-57, duplicated at 105-117). */
module Schema {
  import opened Text

  /** A column value after the driver's conversion to the field's type. */
  datatype Value = Nil | Int(i: int) | Bool(b: bool) | Str(s: string)

  /** One struct field: its declared name, the value of its `fldnm` tag (""
      when the tag is absent) and the zero value of its type. */
  datatype Field = Field(name: string, tag: string, zero: Value)

  /** One struct value: the value of each field, in declaration order. */
  type Record = seq<Value>

  /** The name a column must carry to land in this field: the trimmed tag,
      verbatim, when it is not blank; otherwise the lower-cased field name.
      A tag-given name is never empty and never starts or ends with a blank;
      a name-given one is as long as the field name. */
  function LookupName(f: Field): (r: string)
    ensures !AllBlank(f.tag) ==> r != [] && |r| <= |f.tag| && !IsBlank(r[0]) && !IsBlank(r[|r| - 1])
    ensures AllBlank(f.tag) ==> |r| == |f.name|
  {
    if |Trim(f.tag)| > 0 then Trim(f.tag) else ToLower(f.name)
  }

  /** A tag with something besides blanks wins, trimmed and with its case kept.
      This splits `LookupName`'s definition into its tag case; what the
      trimmed tag is follows from `Text.Trim` and `Text.TrimIsInfix`, and
      the unpadded-tag clause from `Text.TrimUnpadded`. */
  lemma TagOverridesName(f: Field)
    requires !AllBlank(f.tag)
    ensures LookupName(f) == Trim(f.tag)
    ensures f.tag != [] && !IsBlank(f.tag[0]) && !IsBlank(f.tag[|f.tag| - 1]) ==> LookupName(f) == f.tag
  {
  }

  /** An absent or blank tag falls back to the field name, lower-cased.
      This is `LookupName`'s other case; `Text.Trim` decides which case
      applies (its result is empty exactly when the tag is all blanks), and
      `Text.ToLowerFolds` says what the lower-cased name is. */
  lemma BlankTagUsesName(f: Field)
    requires AllBlank(f.tag)
    ensures LookupName(f) == ToLower(f.name)
  {
  }

  /** The lookup name of every field, in declaration order. */
  function LookupNames(fields: seq<Field>): (names: seq<string>)
    ensures |names| == |fields|
  {
    if fields == [] then [] else LookupNames(fields[..|fields| - 1]) + [LookupName(fields[|fields| - 1])]
  }

  lemma {:induction false} LookupNamesAt(fields: seq<Field>, i: nat)
    requires i < |fields|
    ensures LookupNames(fields)[i] == LookupName(fields[i])
  {
    var n := |fields| - 1;
    if i < n {
      LookupNamesAt(fields[..n], i);
    }
  }

  /** What filling a map with `names[i] := i` for i = 0, 1, ... leaves
      behind: every key maps to a position that carries it. */
  function Index(names: seq<string>): (m: map<string, nat>)
    ensures forall k :: k in m ==> m[k] < |names| && names[m[k]] == k
    decreases |names|
  {
    if names == [] then map[]
    else
      var n := |names| - 1;
      Index(names[..n])[names[n] := n]
  }

  /** Every name is a key, and it maps to the LAST position carrying it. */
  lemma {:induction false} IndexLastWins(names: seq<string>, i: nat)
    requires i < |names|
    ensures names[i] in Index(names)
    ensures i <= Index(names)[names[i]]
    ensures forall j :: Index(names)[names[i]] < j < |names| ==> names[j] != names[i]
    decreases |names|
  {
    var n := |names| - 1;
    if i < n && names[n] != names[i] {
      IndexLastWins(names[..n], i);
    }
  }

  /** The catalog `strflds` of gonorm.go:44-57: every value is a field index. */
  function Catalog(fields: seq<Field>): (m: map<string, nat>)
    ensures forall k :: k in m ==> m[k] < |fields|
  {
    Index(LookupNames(fields))
  }

  /** Every key of the catalog is the lookup name of the field it maps to. */
  lemma CatalogNamesField(fields: seq<Field>, k: string)
    requires k in Catalog(fields)
    ensures LookupName(fields[Catalog(fields)[k]]) == k
  {
    LookupNamesAt(fields, Catalog(fields)[k]);
  }

  /** Every field's lookup name is a key, and it maps to the LAST field with
      that name: a later field with the same name overwrites an earlier one. */
  lemma CatalogLastWins(fields: seq<Field>, i: nat)
    requires i < |fields|
    ensures LookupName(fields[i]) in Catalog(fields)
    ensures i <= Catalog(fields)[LookupName(fields[i])]
    ensures forall j :: Catalog(fields)[LookupName(fields[i])] < j < |fields| ==> LookupName(fields[j]) != LookupName(fields[i])
  {
    var names := LookupNames(fields);
    IndexLastWins(names, i);
    LookupNamesAt(fields, i);
    forall j | Index(names)[names[i]] < j < |fields|
      ensures LookupName(fields[j]) != names[i]
    {
      LookupNamesAt(fields, j);
    }
  }

  /** The keys of the catalog are exactly the lookup names of the fields. */
  lemma CatalogKeys(fields: seq<Field>, k: string)
    ensures k in Catalog(fields) <==> exists i :: 0 <= i < |fields| && LookupName(fields[i]) == k
  {
    if k in Catalog(fields) {
      CatalogNamesField(fields, k);
    } else {
      forall i | 0 <= i < |fields|
        ensures LookupName(fields[i]) != k
      {
        CatalogLastWins(fields, i);
      }
    }
  }

  /** Distinct lookup names map to distinct fields. */
  lemma CatalogInjective(fields: seq<Field>, k1: string, k2: string)
    requires k1 in Catalog(fields) && k2 in Catalog(fields)
    requires Catalog(fields)[k1] == Catalog(fields)[k2]
    ensures k1 == k2
  {
  }

  /** The loop of gonorm.go:47-57, which fills the catalog field by field. */
  method BuildCatalog(fields: seq<Field>) returns (strflds: map<string, nat>)
    ensures strflds == Catalog(fields)
  {
    strflds := map[];
    ghost var names := LookupNames(fields);
    for i := 0 to |fields|
      invariant strflds == Index(names[..i])
    {
      var nm := LookupName(fields[i]);
      assert names[..i + 1] == names[..i] + [nm] by {
        LookupNamesAt(fields, i);
      }
      strflds := strflds[nm := i];
    }
    assert names[..|fields|] == names;
  }
}
