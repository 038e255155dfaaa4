/**
 The character classes and string searches of the C and C++ libraries, in the "C"
 locale, and the decimal numbers of `std::from_chars` and `std::to_string`.
 */
module Text {
  datatype Option<+T> = None | Some(value: T)

  // ---- Characters -----------------------------------------------------------

  predicate IsSpace(c: char) {
    c == ' ' || 9 as char <= c <= 13 as char
  }

  predicate IsDigit(c: char) {
    '0' <= c <= '9'
  }

  predicate IsAlpha(c: char) {
    'a' <= c <= 'z' || 'A' <= c <= 'Z'
  }

  predicate IsAlnum(c: char) {
    IsAlpha(c) || IsDigit(c)
  }

  function Lower(c: char): char {
    if 'A' <= c <= 'Z' then (c as int + 32) as char else c
  }

  /** Two characters differ at most in case. */
  lemma SameLetterIff(a: char, b: char)
    ensures Lower(a) == Lower(b) <==>
              || a == b
              || ('A' <= a <= 'Z' && b as int == a as int + 32)
              || ('A' <= b <= 'Z' && a as int == b as int + 32)
  {
  }

  function LowerAll(s: string): (r: string)
    ensures |r| == |s|
    ensures forall i :: 0 <= i < |s| ==> r[i] == Lower(s[i])
  {
    seq(|s|, i requires 0 <= i < |s| => Lower(s[i]))
  }

  // ---- Searching ------------------------------------------------------------

  /** The length of the longest prefix of `s` whose characters all satisfy `p`. */
  function Span(s: string, p: char -> bool): (n: nat)
    ensures n <= |s|
    ensures forall i :: 0 <= i < n ==> p(s[i])
    ensures n < |s| ==> !p(s[n])
  {
    if s == "" || !p(s[0]) then 0 else 1 + Span(s[1..], p)
  }

  /** The span over `a + b` stops exactly at `b`. */
  lemma {:induction false} SpanConcat(a: string, b: string, p: char -> bool)
    requires forall i :: 0 <= i < |a| ==> p(a[i])
    requires b == "" || !p(b[0])
    ensures Span(a + b, p) == |a|
  {
    assert forall i :: 0 <= i < |a| ==> (a + b)[i] == a[i];
    assert b != "" ==> (a + b)[|a|] == b[0];
  }

  predicate At(s: string, pat: string, i: int) {
    0 <= i && i + |pat| <= |s| && s[i..i + |pat|] == pat
  }

  /** `std::string_view::find`: the first position at or after `i` where `pat` occurs. */
  function FindFrom(s: string, pat: string, i: nat): (r: Option<nat>)
    ensures r.Some? ==> i <= r.value && At(s, pat, r.value) && forall j :: i <= j < r.value ==> !At(s, pat, j)
    ensures r.None? ==> forall j :: i <= j ==> !At(s, pat, j)
    decreases |s| - i
  {
    if i + |pat| > |s| then None
    else if At(s, pat, i) then Some(i)
    else FindFrom(s, pat, i + 1)
  }

  function Find(s: string, pat: string): (r: Option<nat>)
    ensures r.Some? ==> r.value + |pat| <= |s|
  {
    FindFrom(s, pat, 0)
  }

  /** `std::string_view::rfind`: the last position where `pat` occurs. */
  function RFindUpTo(s: string, pat: string, i: int): (r: Option<nat>)
    ensures r.Some? ==> r.value < i && At(s, pat, r.value) && forall j :: r.value < j < i ==> !At(s, pat, j)
    ensures r.None? ==> forall j :: j < i ==> !At(s, pat, j)
  {
    if i <= 0 then None
    else if At(s, pat, i - 1) then Some(i - 1)
    else RFindUpTo(s, pat, i - 1)
  }

  function RFind(s: string, pat: string): Option<nat> {
    RFindUpTo(s, pat, |s| + 1)
  }

  /** The first occurrence is the only position that matches with no match before it. */
  lemma FindFromIs(s: string, pat: string, from: nat, i: nat)
    requires from <= i && At(s, pat, i)
    requires forall j :: from <= j < i ==> !At(s, pat, j)
    ensures FindFrom(s, pat, from) == Some(i)
  {
    hide FindFrom, At;
  }

  lemma FindIs(s: string, pat: string, i: nat)
    requires At(s, pat, i)
    requires forall j :: 0 <= j < i ==> !At(s, pat, j)
    ensures Find(s, pat) == Some(i)
  {
    FindFromIs(s, pat, 0, i);
  }

  // One-character patterns.

  lemma AtChar(s: string, c: char, j: int)
    ensures At(s, [c], j) <==> 0 <= j < |s| && s[j] == c
  {
    assert 0 <= j < |s| ==> s[j..j + 1] == [s[j]];
  }

  lemma FindCharAt(s: string, c: char, from: nat, i: nat)
    requires from <= i < |s| && s[i] == c
    requires forall j :: from <= j < i ==> s[j] != c
    ensures FindFrom(s, [c], from) == Some(i)
  {
    hide FindFrom, At;
    AtChar(s, c, i);
    forall j | from <= j < i
      ensures !At(s, [c], j)
    {
      AtChar(s, c, j);
    }
    FindFromIs(s, [c], from, i);
  }

  lemma FindNoChar(s: string, c: char)
    requires c !in s
    ensures Find(s, [c]).None?
  {
    forall j
      ensures !At(s, [c], j)
    {
      AtChar(s, c, j);
    }
  }

  // ---- Trimming -------------------------------------------------------------

  function Ltrim(s: string): string {
    s[Span(s, IsSpace)..]
  }

  function Rtrim(s: string): string {
    if s == "" || !IsSpace(s[|s| - 1]) then s else Rtrim(s[..|s| - 1])
  }

  function Trim(s: string): string {
    Rtrim(Ltrim(s))
  }

  // ---- Decimal numbers ------------------------------------------------------

  const INT_MAX: int := 0x7FFF_FFFF
  const INT_MIN: int := -0x8000_0000

  function DigitChar(d: nat): char
    requires d < 10
  {
    ('0' as int + d) as char
  }

  /** `std::to_string` of a non-negative number. */
  function Decimal(n: nat): (s: string)
    ensures s != "" && forall i :: 0 <= i < |s| ==> IsDigit(s[i])
  {
    if n < 10 then [DigitChar(n)] else Decimal(n / 10) + [DigitChar(n % 10)]
  }

  function DigitOf(c: char): nat
    requires IsDigit(c)
  {
    c as int - '0' as int
  }

  function DigitsValue(s: string): nat
    requires forall i :: 0 <= i < |s| ==> IsDigit(s[i])
  {
    if s == "" then 0
    else DigitsValue(s[..|s| - 1]) * 10 + DigitOf(s[|s| - 1])
  }

  lemma {:induction false} DecimalValue(n: nat)
    ensures DigitsValue(Decimal(n)) == n
  {
    if n < 10 {
      assert DigitsValue([DigitChar(n)][..0]) == 0;
    } else {
      DecimalValue(n / 10);
      assert Decimal(n)[..|Decimal(n)| - 1] == Decimal(n / 10);
    }
  }

  /**
   `std::from_chars` into an `int`: an optional minus sign and the longest run of digits;
   `None` when there is no digit or the number does not fit, which leaves the target alone.
   */
  function FromChars(s: string): Option<int> {
    var negative := s != "" && s[0] == '-';
    var rest := if negative then s[1..] else s;
    var n := Span(rest, IsDigit);
    if n == 0 then None
    else
      var v: int := DigitsValue(rest[..n]);
      var signed := if negative then -v else v;
      if INT_MIN <= signed <= INT_MAX then Some(signed) else None
  }

  /** Reading back a printed number, whatever non-digit follows it. */
  lemma {:induction false} FromCharsDecimal(n: nat, tail: string)
    requires n <= INT_MAX
    requires tail == "" || !IsDigit(tail[0])
    ensures FromChars(Decimal(n) + tail) == Some(n)
  {
    var d := Decimal(n);
    assert IsDigit((d + tail)[0]);
    SpanConcat(d, tail, IsDigit);
    assert (d + tail)[..|d|] == d;
    DecimalValue(n);
  }
}
