/** Base-10 numerals: `strconv.FormatInt(x, 10)` for the non-negative values the
    alias builder formats, and the value of a digit string, its inverse. */
module Decimal {
  predicate IsDigit(c: char) {
    '0' <= c <= '9'
  }

  /** A non-empty string of ASCII digits. */
  predicate IsNumeral(s: string) {
    |s| > 0 && forall k :: 0 <= k < |s| ==> IsDigit(s[k])
  }

  /** A numeral without leading zeros: "0", or one that does not start with '0'. */
  predicate IsCanonical(s: string) {
    IsNumeral(s) && (|s| > 1 ==> s[0] != '0')
  }

  function DigitChar(d: nat): (c: char)
    requires d < 10
    ensures IsDigit(c) && c as int - '0' as int == d
  {
    ('0' as int + d) as char
  }

  /** `strconv.FormatInt(n, 10)` for `n >= 0`: a canonical numeral, which starts with
      '0' only when it is "0". */
  function FormatInt(n: nat): (r: string)
    ensures IsCanonical(r)
    ensures r[0] == '0' <==> n == 0
    ensures n < 10 <==> |r| == 1
  {
    if n < 10 then [DigitChar(n)] else FormatInt(n / 10) + [DigitChar(n % 10)]
  }

  function DigitValue(c: char): (d: nat)
    requires IsDigit(c)
    ensures d < 10 && DigitChar(d) == c
  {
    c as int - '0' as int
  }

  /** The number a string of digits denotes. */
  function Value(s: string): nat
    requires forall k :: 0 <= k < |s| ==> IsDigit(s[k])
  {
    if s == [] then 0 else 10 * Value(s[..|s| - 1]) + DigitValue(s[|s| - 1])
  }

  /** Reading back a formatted number gives the number. */
  lemma {:induction false} ValueOfFormat(n: nat)
    ensures Value(FormatInt(n)) == n
  {
    if n >= 10 {
      ValueOfFormat(n / 10);
      var r := FormatInt(n);
      assert r[..|r| - 1] == FormatInt(n / 10);
    }
  }

  /** A numeral that does not start with '0' denotes a positive number. */
  lemma {:induction false} ValuePositive(s: string)
    requires IsNumeral(s) && s[0] != '0'
    ensures Value(s) > 0
    decreases |s|
  {
    if |s| > 1 {
      ValuePositive(s[..|s| - 1]);
    }
  }

  /** Formatting the value of a canonical numeral gives the numeral back. */
  lemma {:induction false} FormatOfValue(s: string)
    requires IsCanonical(s)
    ensures FormatInt(Value(s)) == s
    decreases |s|
  {
    var init := s[..|s| - 1];
    var d := DigitValue(s[|s| - 1]);
    if |s| == 1 {
      assert Value(s) == d;
      assert [DigitChar(d)] == s;
    } else {
      ValuePositive(init);
      FormatOfValue(init);
      var v := Value(s);
      assert v == 10 * Value(init) + d;
      assert v / 10 == Value(init) && v % 10 == d;
      assert s == init + [DigitChar(d)];
    }
  }
}
