/**
 * The JavaScript string built-ins the mass-code scheme relies on: the `\d` and
 * `[A-Z]` character classes, `parseInt(s, 10)` on digit strings,
 * `Number.prototype.toString`, `padStart(2, '0')`, the trailing-digit strip
 * `replace(/\d+$/, '')`, `startsWith`, and the binary order in which the record
 * store compares codes.
 */
module Text {

  /** `\d` (a regular expression without the `u` flag). */
  predicate IsDigit(c: char) { '0' <= c <= '9' }

  /** `[A-Z]`. */
  predicate IsUpper(c: char) { 'A' <= c <= 'Z' }

  predicate AllDigits(s: string) { forall i :: 0 <= i < |s| ==> IsDigit(s[i]) }

  predicate AllUpper(s: string) { forall i :: 0 <= i < |s| ==> IsUpper(s[i]) }

  function DigitValue(c: char): (n: nat)
    requires IsDigit(c)
    ensures n < 10
  {
    c as int - '0' as int
  }

  function DigitChar(n: nat): (c: char)
    requires n < 10
    ensures IsDigit(c) && DigitValue(c) == n
  {
    ('0' as int + n) as char
  }

  /** `parseInt(s, 10)` on a non-empty string of digits. */
  function ParseDecimal(s: string): nat
    requires AllDigits(s)
  {
    if |s| == 0 then 0 else 10 * ParseDecimal(s[..|s| - 1]) + DigitValue(s[|s| - 1])
  }

  /** `n.toString()` for a non-negative integer: its decimal digits, without leading zeros. */
  function NatToString(n: nat): (s: string)
    ensures 1 <= |s| && AllDigits(s)
    ensures ParseDecimal(s) == n
    ensures |s| == 1 <==> n < 10
  {
    if n < 10 then [DigitChar(n)]
    else
      var s := NatToString(n / 10) + [DigitChar(n % 10)];
      assert s[..|s| - 1] == NatToString(n / 10);
      s
  }

  /** `n.toString()` for an integer: a minus sign before the digits of a negative number. */
  function IntToString(n: int): string
  {
    if n < 0 then "-" + NatToString(-n) else NatToString(n)
  }

  /** `s.padStart(2, '0')`. */
  function PadStart2(s: string): (r: string)
    ensures |r| == if |s| < 2 then 2 else |s|
    ensures r[|r| - |s|..] == s
  {
    if |s| == 0 then "00" else if |s| == 1 then "0" + s else s
  }

  /** Two digits, the tens first. */
  function TwoDigits(n: nat): string
    requires n < 100
  {
    [DigitChar(n / 10), DigitChar(n % 10)]
  }

  /** Numbers below 100 are written as exactly two digits once padded. */
  lemma {:induction false} PadsToTwoDigits(n: int)
    requires 0 <= n < 100
    ensures PadStart2(IntToString(n)) == TwoDigits(n)
  {
    if n < 10 {
      assert IntToString(n) == [DigitChar(n)];
    } else {
      assert NatToString(n / 10) == [DigitChar(n / 10)];
    }
  }

  /** Two digits read back as the number they were written from. */
  lemma {:induction false} TwoDigitsRoundTrip(n: nat)
    requires n < 100
    ensures AllDigits(TwoDigits(n)) && ParseDecimal(TwoDigits(n)) == n
  {
    var s := TwoDigits(n);
    assert s[..1] == [DigitChar(n / 10)];
    assert ParseDecimal(s[..1]) == n / 10 by {
      assert s[..1][..0] == [];
    }
  }

  /** Any two digits are the padded form of the number they spell. */
  lemma {:induction false} TwoDigitsOfParse(s: string)
    requires |s| == 2 && AllDigits(s)
    ensures ParseDecimal(s) < 100 && TwoDigits(ParseDecimal(s)) == s
  {
    assert s[..1][..0] == [];
    assert ParseDecimal(s[..1]) == DigitValue(s[0]);
    var n := ParseDecimal(s);
    assert n == 10 * DigitValue(s[0]) + DigitValue(s[1]);
    assert n / 10 == DigitValue(s[0]) && n % 10 == DigitValue(s[1]);
  }

  /** A one-digit number's `toString()`. */
  lemma OneDigit(n: int)
    requires 0 <= n < 10
    ensures IntToString(n) == [DigitChar(n)]
  {
  }

  /** `s.startsWith(p)`. */
  predicate StartsWith(s: string, p: string) {
    |p| <= |s| && s[..|p|] == p
  }

  /** `s.replace(/\d+$/, '')`: `s` without its maximal run of trailing digits. */
  function StripTrailingDigits(s: string): (r: string)
    ensures StartsWith(s, r) && AllDigits(s[|r|..])
    ensures |r| == 0 || !IsDigit(r[|r| - 1])
  {
    if |s| > 0 && IsDigit(s[|s| - 1]) then
      var r := StripTrailingDigits(s[..|s| - 1]);
      assert s[|r|..] == s[..|s| - 1][|r|..] + [s[|s| - 1]];
      r
    else s
  }

  /** Binary (code unit by code unit) order of strings, a proper prefix first. */
  predicate LexLe(a: string, b: string)
    decreases |a|
  {
    |a| == 0 || (|b| > 0 && (a[0] < b[0] || (a[0] == b[0] && LexLe(a[1..], b[1..]))))
  }

  predicate LexLt(a: string, b: string) {
    LexLe(a, b) && a != b
  }

  lemma {:induction false} LexLeReflexive(a: string)
    ensures LexLe(a, a)
  {
    if |a| > 0 { LexLeReflexive(a[1..]); }
  }

  lemma {:induction false} LexLeTotal(a: string, b: string)
    ensures LexLe(a, b) || LexLe(b, a)
    decreases |a|
  {
    if |a| > 0 && |b| > 0 && a[0] == b[0] { LexLeTotal(a[1..], b[1..]); }
  }

  lemma {:induction false} LexLeAntisymmetric(a: string, b: string)
    requires LexLe(a, b) && LexLe(b, a)
    ensures a == b
    decreases |a|
  {
    if |a| > 0 {
      LexLeAntisymmetric(a[1..], b[1..]);
      assert a == [a[0]] + a[1..] && b == [b[0]] + b[1..];
    }
  }

  lemma {:induction false} LexLeTransitive(a: string, b: string, c: string)
    requires LexLe(a, b) && LexLe(b, c)
    ensures LexLe(a, c)
    decreases |a|
  {
    if |a| > 0 && a[0] == b[0] && b[0] == c[0] { LexLeTransitive(a[1..], b[1..], c[1..]); }
  }
}
