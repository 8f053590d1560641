/** Texts put together from pieces. */
module Strings {

  function Join(pieces: seq<string>, separator: string): string {
    if pieces == [] then []
    else if |pieces| == 1 then pieces[0]
    else pieces[0] + separator + Join(pieces[1..], separator)
  }

  lemma {:induction false} JoinSnoc(pieces: seq<string>, last: string, separator: string)
    ensures Join(pieces + [last], separator)
         == if pieces == [] then last else Join(pieces, separator) + separator + last
  {
    if |pieces| > 1 {
      JoinSnoc(pieces[1..], last, separator);
      assert (pieces + [last])[1..] == pieces[1..] + [last];
    }
  }

  predicate IsSpace(c: char) {
    c == ' ' || c == '\t' || c == '\n' || c == '\r' || c as int == 11 || c as int == 12
  }

  /** Space, tab, line feed, carriage return, vertical tab and form feed. */
  const WHITE_SPACE: string := [' ', '\t', '\n', '\r', 11 as char, 12 as char]

  function SkipSpace(s: string): string {
    if s != "" && IsSpace(s[0]) then SkipSpace(s[1..]) else s
  }

  lemma {:induction false} SpaceIsSkipped(space: string, rest: string)
    requires forall i :: 0 <= i < |space| ==> space[i] in WHITE_SPACE
    requires rest == "" || rest[0] !in WHITE_SPACE
    ensures SkipSpace(space + rest) == rest
  {
    if space == "" {
      assert space + rest == rest;
    } else {
      assert (space + rest)[1..] == space[1..] + rest;
      SpaceIsSkipped(space[1..], rest);
    }
  }

  // ----- Decimal numbers

  predicate IsDigit(c: char) {
    '0' <= c <= '9'
  }

  function DigitsOf(n: nat): string {
    var digit := '0' + (n % 10) as char;
    if n < 10 then [digit] else DigitsOf(n / 10) + [digit]
  }

  function ValueOf(digits: string): nat
    requires forall i :: 0 <= i < |digits| ==> IsDigit(digits[i])
  {
    if digits == "" then 0
    else
      assert IsDigit(digits[|digits| - 1]);
      10 * ValueOf(digits[..|digits| - 1]) + (digits[|digits| - 1] - '0') as nat
  }

  function LeadingDigits(s: string): (n: nat)
    ensures n <= |s| && forall i :: 0 <= i < n ==> IsDigit(s[i])
  {
    if s != "" && IsDigit(s[0]) then 1 + LeadingDigits(s[1..]) else 0
  }

  /** The digits of a number are its value in base ten, with no zero before it. */
  lemma {:induction false} ValueOfDigits(n: nat)
    ensures DigitsOf(n) != "" && forall i :: 0 <= i < |DigitsOf(n)| ==> IsDigit(DigitsOf(n)[i])
    ensures ValueOf(DigitsOf(n)) == n
    ensures DigitsOf(n)[0] == '0' ==> n == 0 && |DigitsOf(n)| == 1
  {
    if n >= 10 {
      ValueOfDigits(n / 10);
      assert DigitsOf(n)[..|DigitsOf(n)| - 1] == DigitsOf(n / 10);
    }
  }

  /** The base is ten, and the highest digit comes first. */
  lemma DecimalDigits()
    ensures DigitsOf(907) == "907" && ValueOf("907") == 907
  {
    ValueOfDigits(907);
    assert DigitsOf(9) == "9" && DigitsOf(90) == "90";
  }

  lemma {:induction false} DigitsLead(s: string, rest: string)
    requires forall i :: 0 <= i < |s| ==> IsDigit(s[i])
    requires rest == "" || !IsDigit(rest[0])
    ensures LeadingDigits(s + rest) == |s|
  {
    if s == "" {
      assert s + rest == rest;
    } else {
      assert (s + rest)[1..] == s[1..] + rest;
      DigitsLead(s[1..], rest);
    }
  }
}
