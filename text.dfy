/** The string helpers the mapping engine takes from Go's `strings` and `fmt`
    packages: `strings.Trim(s, " \t")`, an ASCII-only `strings.ToLower`, and the
    decimal rendering of `%d` for a non-negative index. */
module Text {

  /** The cut set " \t" that the field-catalog builder trims from a tag. */
  predicate IsBlank(c: char) {
    c == ' ' || c == '\t'
  }

  predicate AllBlank(s: string) {
    forall k :: 0 <= k < |s| ==> IsBlank(s[k])
  }

  /** Drops the leading run of blanks: what is dropped is all blank, and what
      remains is a suffix of `s` that does not start with a blank. */
  function TrimLeft(s: string): (r: string)
    ensures |r| <= |s|
    ensures AllBlank(s[..|s| - |r|])
    ensures r != [] ==> !IsBlank(r[0])
  {
    if s != [] && IsBlank(s[0]) then TrimLeft(s[1..]) else s
  }

  lemma {:induction false} TrimLeftIsSuffix(s: string)
    ensures TrimLeft(s) == s[|s| - |TrimLeft(s)|..]
  {
    if s != [] && IsBlank(s[0]) {
      TrimLeftIsSuffix(s[1..]);
    }
  }

  /** Drops the trailing run of blanks: what is dropped is all blank, and what
      remains is a prefix of `s` that does not end with a blank. */
  function TrimRight(s: string): (r: string)
    ensures |r| <= |s|
    ensures AllBlank(s[|r|..])
    ensures r != [] ==> !IsBlank(r[|r| - 1])
  {
    if s != [] && IsBlank(s[|s| - 1]) then TrimRight(s[..|s| - 1]) else s
  }

  lemma {:induction false} TrimRightIsPrefix(s: string)
    ensures TrimRight(s) == s[..|TrimRight(s)|]
  {
    if s != [] && IsBlank(s[|s| - 1]) {
      TrimRightIsPrefix(s[..|s| - 1]);
    }
  }

  /** `strings.Trim(s, " \t")`: the infix of `s` left when the blanks at both
      ends are removed. It is empty exactly when `s` is all blanks. */
  function Trim(s: string): (r: string)
    ensures |r| <= |s|
    ensures r != [] ==> !IsBlank(r[0]) && !IsBlank(r[|r| - 1])
    ensures r == [] <==> AllBlank(s)
  {
    var l := TrimLeft(s);
    var r := TrimRight(l);
    TrimLeftIsSuffix(s);
    TrimRightIsPrefix(l);
    assert r == [] ==> AllBlank(s) by {
      if r == [] {
        assert s == s[..|s| - |l|] + l;
        assert l == l[|r|..];
      }
    }
    assert r != [] ==> r[0] == l[0] == s[|s| - |l|];
    r
  }

  /** Where `Trim(s)` sits inside `s`: after `Lead(s)` blanks and before a run
      of blanks that reaches the end. */
  function Lead(s: string): (n: nat)
    ensures n <= |s|
  {
    |s| - |TrimLeft(s)|
  }

  lemma TrimIsInfix(s: string)
    ensures Lead(s) + |Trim(s)| <= |s|
    ensures Trim(s) == s[Lead(s)..Lead(s) + |Trim(s)|]
    ensures AllBlank(s[..Lead(s)]) && AllBlank(s[Lead(s) + |Trim(s)|..])
  {
    var l := TrimLeft(s);
    var r := TrimRight(l);
    var i := Lead(s);
    TrimLeftIsSuffix(s);
    TrimRightIsPrefix(l);
    assert l == s[i..];
    assert r == l[..|r|];
    assert l[|r|..] == s[i + |r|..];
  }

  /** A string without blanks at its ends is its own trim; so trimming twice
      is trimming once. */
  lemma TrimUnpadded(s: string)
    requires s != [] ==> !IsBlank(s[0]) && !IsBlank(s[|s| - 1])
    ensures Trim(s) == s
  {
  }

  lemma TrimIdempotent(s: string)
    ensures Trim(Trim(s)) == Trim(s)
  {
  }

  /** ASCII case folding of one character: 'A'..'Z' become 'a'..'z'. */
  function LowerChar(c: char): char {
    if 'A' <= c <= 'Z' then (c as int + 32) as char else c
  }

  predicate IsUpper(c: char) {
    'A' <= c <= 'Z'
  }

  /** `strings.ToLower`, restricted to ASCII: every character is folded on
      its own, so the length and the position of each character are kept. */
  function ToLower(s: string): (r: string)
    ensures |r| == |s|
  {
    if s == [] then [] else [LowerChar(s[0])] + ToLower(s[1..])
  }

  lemma {:induction false} ToLowerAt(s: string, k: nat)
    requires k < |s|
    ensures ToLower(s)[k] == LowerChar(s[k])
  {
    if k > 0 {
      ToLowerAt(s[1..], k - 1);
    }
  }

  /** A lower-cased string holds no upper-case letter, and folding it again
      changes nothing. */
  lemma {:induction false} ToLowerFolds(s: string)
    ensures forall k :: 0 <= k < |s| ==> !IsUpper(ToLower(s)[k])
    ensures ToLower(ToLower(s)) == ToLower(s)
  {
    forall k | 0 <= k < |s|
      ensures !IsUpper(ToLower(s)[k]) && ToLower(ToLower(s))[k] == ToLower(s)[k]
    {
      ToLowerAt(s, k);
      ToLowerAt(ToLower(s), k);
    }
  }

  predicate IsDigit(c: char) {
    '0' <= c <= '9'
  }

  predicate AllDigits(s: string) {
    forall k :: 0 <= k < |s| ==> IsDigit(s[k])
  }

  function DigitChar(d: nat): (c: char)
    requires d < 10
    ensures IsDigit(c) && c as int - '0' as int == d
  {
    ('0' as int + d) as char
  }

  /** `%d` of a non-negative integer: its decimal digits, most significant first. */
  function Decimal(n: nat): (s: string)
    ensures s != [] && AllDigits(s)
  {
    if n < 10 then [DigitChar(n)] else Decimal(n / 10) + [DigitChar(n % 10)]
  }

  /** The number a string of decimal digits denotes. */
  function DigitsValue(s: string): nat
    requires AllDigits(s)
  {
    if s == [] then 0
    else DigitsValue(s[..|s| - 1]) * 10 + (s[|s| - 1] as int - '0' as int)
  }

  /** Reading back the decimal rendering gives the number again. */
  lemma {:induction false} DecimalRoundTrip(n: nat)
    ensures DigitsValue(Decimal(n)) == n
  {
    if n >= 10 {
      DecimalRoundTrip(n / 10);
      var s := Decimal(n);
      assert s[..|s| - 1] == Decimal(n / 10);
    }
  }

  lemma DecimalInjective(m: nat, n: nat)
    requires Decimal(m) == Decimal(n)
    ensures m == n
  {
    DecimalRoundTrip(m);
    DecimalRoundTrip(n);
  }
}
