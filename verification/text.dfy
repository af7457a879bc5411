/** The JavaScript string operations the controllers rely on: `indexOf`,
    `includes`, `lastIndexOf`, `startsWith`, `trim`, `join`, and the decimal
    rendering of integers (`Number.prototype.toString`). */
module Text {

  predicate IsAsciiAlnum(c: char) {
    ('a' <= c <= 'z') || ('A' <= c <= 'Z') || ('0' <= c <= '9')
  }

  predicate IsDigit(c: char) {
    '0' <= c <= '9'
  }

  /** The characters `String.prototype.trim` removes: ECMAScript WhiteSpace and LineTerminator. */
  predicate IsJsWhitespace(c: char) {
    c == '\U{9}' || c == '\U{A}' || c == '\U{B}' || c == '\U{C}' || c == '\U{D}' ||
    c == '\U{20}' || c == '\U{A0}' || c == '\U{1680}' || ('\U{2000}' <= c <= '\U{200A}') ||
    c == '\U{2028}' || c == '\U{2029}' || c == '\U{202F}' || c == '\U{205F}' || c == '\U{3000}' ||
    c == '\U{FEFF}'
  }

  predicate StartsWith(s: string, prefix: string) {
    |prefix| <= |s| && s[..|prefix|] == prefix
  }

  /** `pat` occurs in `text` starting at position `i`. */
  ghost predicate OccursAt(text: string, pat: string, i: int) {
    0 <= i && i + |pat| <= |text| && text[i..i + |pat|] == pat
  }

  /** The search of `indexOf` from position `from` on, every earlier position having failed. */
  function IndexFrom(text: string, pat: string, from: nat): (r: int)
    requires forall j :: 0 <= j < from ==> !OccursAt(text, pat, j)
    ensures -1 <= r <= |text|
    ensures r >= 0 ==> OccursAt(text, pat, r)
    ensures r >= 0 ==> forall j :: 0 <= j < r ==> !OccursAt(text, pat, j)
    ensures r == -1 ==> forall j :: 0 <= j <= |text| ==> !OccursAt(text, pat, j)
    decreases |text| + 1 - from
  {
    if from > |text| then -1
    else if from + |pat| <= |text| && text[from..from + |pat|] == pat then from
    else IndexFrom(text, pat, from + 1)
  }

  /** `text.indexOf(pat)`: the first position where `pat` occurs, or -1. */
  function IndexOf(text: string, pat: string): (r: int)
    ensures -1 <= r <= |text|
    ensures r >= 0 ==> OccursAt(text, pat, r)
    ensures r >= 0 ==> forall j :: 0 <= j < r ==> !OccursAt(text, pat, j)
    ensures r == -1 ==> forall j :: 0 <= j <= |text| ==> !OccursAt(text, pat, j)
  {
    IndexFrom(text, pat, 0)
  }

  /** `text.includes(pat)`. */
  predicate Contains(text: string, pat: string) {
    IndexOf(text, pat) >= 0
  }

  /** `includes` holds exactly when the pattern occurs somewhere. */
  lemma ContainsIffOccurs(text: string, pat: string)
    ensures Contains(text, pat) <==> exists i :: OccursAt(text, pat, i)
  {
  }

  /** `s.lastIndexOf(c)` for a one-character pattern. */
  function LastIndexOf(s: string, c: char): (i: int)
    ensures -1 <= i < |s|
    ensures i >= 0 ==> s[i] == c
    ensures forall j :: i < j < |s| ==> s[j] != c
  {
    if |s| == 0 then -1
    else if s[|s| - 1] == c then |s| - 1
    else LastIndexOf(s[..|s| - 1], c)
  }

  function TrimStart(s: string): (r: string)
    ensures |r| <= |s| && r == s[|s| - |r|..]
    ensures forall i :: 0 <= i < |s| - |r| ==> IsJsWhitespace(s[i])
    ensures |r| > 0 ==> !IsJsWhitespace(r[0])
  {
    if |s| > 0 && IsJsWhitespace(s[0]) then TrimStart(s[1..]) else s
  }

  function TrimEnd(s: string): (r: string)
    ensures |r| <= |s| && r == s[..|r|]
    ensures forall i :: |r| <= i < |s| ==> IsJsWhitespace(s[i])
    ensures |r| > 0 ==> !IsJsWhitespace(r[|r| - 1])
  {
    if |s| > 0 && IsJsWhitespace(s[|s| - 1]) then TrimEnd(s[..|s| - 1]) else s
  }

  /** `s.trim()`. */
  function Trim(s: string): string {
    TrimEnd(TrimStart(s))
  }

  predicate IsBlank(s: string) {
    forall i :: 0 <= i < |s| ==> IsJsWhitespace(s[i])
  }

  /** `!s.trim()` holds exactly for the strings made only of whitespace. */
  lemma TrimEmptyIffBlank(s: string)
    ensures Trim(s) == "" <==> IsBlank(s)
  {
  }

  function DigitChar(d: nat): (c: char)
    requires d < 10
    ensures IsDigit(c)
  {
    "0123456789"[d]
  }

  function DigitValue(c: char): nat
    requires IsDigit(c)
  {
    (c as int - '0' as int) as nat
  }

  predicate AllDigits(s: string) {
    forall i :: 0 <= i < |s| ==> IsDigit(s[i])
  }

  /** The decimal rendering of a natural number, as `String(n)` produces it
      for integers below 10^21. */
  function NatToString(n: nat): (r: string)
    ensures |r| > 0 && AllDigits(r)
    ensures |r| > 1 ==> r[0] != '0'
  {
    if n < 10 then [DigitChar(n)] else NatToString(n / 10) + [DigitChar(n % 10)]
  }

  /** Reads a decimal numeral back (the inverse of `NatToString`). */
  function ParseDigits(s: string): nat
    requires AllDigits(s)
  {
    if |s| == 0 then 0 else ParseDigits(s[..|s| - 1]) * 10 + DigitValue(s[|s| - 1])
  }

  lemma {:induction false} ParseNatToString(n: nat)
    ensures ParseDigits(NatToString(n)) == n
  {
    var r := NatToString(n);
    if n < 10 {
      assert r[..|r| - 1] == "";
    } else {
      ParseNatToString(n / 10);
      assert r[..|r| - 1] == NatToString(n / 10);
      assert DigitValue(r[|r| - 1]) == n % 10;
    }
  }

  /** The decimal rendering of an integer, with a leading `-` when negative. */
  function IntToString(i: int): (r: string)
    ensures |r| > 0
    ensures i >= 0 ==> AllDigits(r)
    ensures i < 0 ==> r[0] == '-' && AllDigits(r[1..])
  {
    if i < 0 then "-" + NatToString(-i) else NatToString(i)
  }

  /** `parts.join(sep)`. */
  function Join(parts: seq<string>, sep: string): (r: string)
    ensures |parts| == 1 ==> r == parts[0]
  {
    if |parts| == 0 then ""
    else if |parts| == 1 then parts[0]
    else parts[0] + sep + Join(parts[1..], sep)
  }
}
