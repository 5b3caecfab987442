/**
 * The two number/string conversions the panel-ID generator relies on:
 * `parseInt(s, 10)` and `Number.prototype.toString()` on integers.
 * Numbers are mathematical integers here (see README, "Left out").
 */
module Decimal {
  import opened Common

  predicate IsDigit(c: char) {
    '0' <= c <= '9'
  }

  function DigitValue(c: char): (d: nat)
    requires IsDigit(c)
    ensures d < 10
  {
    (c as int) - ('0' as int)
  }

  function DigitChar(d: nat): (c: char)
    requires d < 10
    ensures IsDigit(c) && DigitValue(c) == d
  {
    (('0' as int) + d) as char
  }

  /** The characters `parseInt` trims before reading a number:
      ECMAScript WhiteSpace (including every Zs space) and LineTerminator. */
  predicate IsJsWhitespace(c: char) {
    var n := c as int;
    || (0x9 <= n <= 0xD) || n == 0x20 || n == 0xA0 || n == 0x1680
    || (0x2000 <= n <= 0x200A) || n == 0x2028 || n == 0x2029 || n == 0x202F
    || n == 0x205F || n == 0x3000 || n == 0xFEFF
  }

  predicate AllDigits(s: string) {
    forall i :: 0 <= i < |s| ==> IsDigit(s[i])
  }

  /** A decimal numeral as `toString` writes a non-negative integer: digits only, no leading zero. */
  predicate IsCanonicalNumeral(s: string) {
    |s| > 0 && AllDigits(s) && (|s| > 1 ==> s[0] != '0')
  }

  /** Number of white-space characters at the start of `s`. */
  function WhitespaceRun(s: string): (k: nat)
    ensures k <= |s|
    ensures k == |s| || !IsJsWhitespace(s[k])
  {
    if |s| > 0 && IsJsWhitespace(s[0]) then 1 + WhitespaceRun(s[1..]) else 0
  }

  /** Drops leading white space. */
  function TrimStart(s: string): (t: string)
    ensures t == [] || !IsJsWhitespace(t[0])
  {
    s[WhitespaceRun(s)..]
  }

  /** Length of the longest all-digit prefix of `s`. */
  function DigitRun(s: string): (k: nat)
    ensures k <= |s|
    ensures AllDigits(s[..k])
    ensures k == |s| || !IsDigit(s[k])
  {
    if |s| > 0 && IsDigit(s[0]) then
      var k := 1 + DigitRun(s[1..]);
      assert s[..k] == [s[0]] + s[1..][..k - 1];
      k
    else 0
  }

  /** The value of a string of decimal digits, most significant first. */
  function DigitsValue(ds: string): nat
    requires AllDigits(ds)
  {
    if |ds| == 0 then 0
    else DigitsValue(ds[..|ds| - 1]) * 10 + DigitValue(ds[|ds| - 1])
  }

  /** What follows an optional leading `-` or `+`. */
  function Unsigned(t: string): (u: string)
    ensures |u| <= |t|
  {
    if |t| > 0 && (t[0] == '-' || t[0] == '+') then t[1..] else t
  }

  /** The longest run of leading digits as a number; `None` when there is none. */
  function ParseDigits(u: string): (r: Option<nat>)
    ensures r.None? <==> u == [] || !IsDigit(u[0])
  {
    var k := DigitRun(u);
    if k == 0 then None else Some(DigitsValue(u[..k]))
  }

  /** `parseInt(s, 10)`: trim, optional sign, the longest run of decimal digits;
      `None` (the source's `NaN`) exactly when no digit follows the white space and sign. */
  function ParseInt(s: string): (r: Option<int>)
    ensures var u := Unsigned(TrimStart(s));
      r.None? <==> u == [] || !IsDigit(u[0])
  {
    var t := TrimStart(s);
    match ParseDigits(Unsigned(t))
    case None => None
    case Some(m) => Some(if |t| > 0 && t[0] == '-' then -(m as int) else m)
  }

  /** Shortest decimal rendering of a natural number (no leading zeros). */
  function NatToString(n: nat): (s: string)
    ensures IsCanonicalNumeral(s)
  {
    if n < 10 then [DigitChar(n)]
    else NatToString(n / 10) + [DigitChar(n % 10)]
  }

  /** `(x).toString()` for an integer-valued Number. */
  function IntToString(x: int): (s: string)
    ensures |s| > 0
    ensures x >= 0 ==> IsCanonicalNumeral(s)
    ensures x < 0 ==> s[0] == '-' && IsCanonicalNumeral(s[1..])
  {
    if x < 0 then "-" + NatToString(-x) else NatToString(x)
  }

  lemma {:induction false} DigitsValueOfNatToString(n: nat)
    ensures DigitsValue(NatToString(n)) == n
  {
    var s := NatToString(n);
    if n >= 10 {
      DigitsValueOfNatToString(n / 10);
      assert s[..|s| - 1] == NatToString(n / 10);
    }
  }

  /** A digit string followed by something that is not a digit: the run stops exactly there. */
  lemma {:induction false} DigitRunOfDigitsThen(ds: string, rest: string)
    requires AllDigits(ds)
    requires rest == [] || !IsDigit(rest[0])
    ensures DigitRun(ds + rest) == |ds|
  {
    if |ds| > 0 {
      assert (ds + rest)[1..] == ds[1..] + rest;
      DigitRunOfDigitsThen(ds[1..], rest);
    }
  }

  lemma ParseDigitsOfDigitsThen(ds: string, rest: string)
    requires |ds| > 0 && AllDigits(ds)
    requires rest == [] || !IsDigit(rest[0])
    ensures ParseDigits(ds + rest) == Some(DigitsValue(ds))
  {
    DigitRunOfDigitsThen(ds, rest);
    assert (ds + rest)[..|ds|] == ds;
  }

  /** With no white space in front and digits after a `-`, the digits are negated. */
  lemma ParseIntAppliesMinus(s: string, v: nat)
    requires |s| > 0 && s[0] == '-'
    requires ParseDigits(s[1..]) == Some(v)
    ensures ParseInt(s) == Some(-(v as int))
  {
    assert WhitespaceRun(s) == 0;
    assert TrimStart(s) == s;
  }

  /** With no white space or sign in front, the digits are the value. */
  lemma ParseIntOfLeadingDigit(s: string, v: nat)
    requires |s| > 0 && IsDigit(s[0])
    requires ParseDigits(s) == Some(v)
    ensures ParseInt(s) == Some(v)
  {
    assert WhitespaceRun(s) == 0;
    assert TrimStart(s) == s;
  }

  /** `parseInt` reads back what `toString` wrote, ignoring any trailing
      text that does not start with a digit. */
  lemma ParseIntOfIntToString(x: int, rest: string)
    requires rest == [] || !IsDigit(rest[0])
    ensures ParseInt(IntToString(x) + rest) == Some(x)
  {
    var s := IntToString(x) + rest;
    if x < 0 {
      assert s[0] == '-';
      assert ParseDigits(s[1..]) == Some(-x) by {
        var ds := NatToString(-x);
        assert s[1..] == ds + rest;
        DigitsValueOfNatToString(-x);
        ParseDigitsOfDigitsThen(ds, rest);
      }
      ParseIntAppliesMinus(s, -x);
    } else {
      assert IsDigit(s[0]);
      assert ParseDigits(s) == Some(x) by {
        DigitsValueOfNatToString(x);
        ParseDigitsOfDigitsThen(NatToString(x), rest);
      }
      ParseIntOfLeadingDigit(s, x);
    }
  }

  lemma ParseIntRoundTrip(x: int)
    ensures ParseInt(IntToString(x)) == Some(x)
  {
    ParseIntOfIntToString(x, []);
    assert IntToString(x) + [] == IntToString(x);
  }

  /** A string without any decimal digit does not parse. */
  lemma NoDigitNoNumber(s: string)
    requires forall i :: 0 <= i < |s| ==> !IsDigit(s[i])
    ensures ParseInt(s) == None
  {
    var k := WhitespaceRun(s);
    if k < |s| {
      assert TrimStart(s)[0] == s[k];
    }
    if k + 1 < |s| {
      assert TrimStart(s)[1] == s[k + 1];
    }
  }

  /** Leading white space does not change where the trimmed text starts. */
  lemma {:induction false} LeadingWhitespaceTrimmed(ws: string, s: string)
    requires forall i :: 0 <= i < |ws| ==> IsJsWhitespace(ws[i])
    ensures TrimStart(ws + s) == TrimStart(s)
  {
    if |ws| > 0 {
      var whole := ws + s;
      var tail := ws[1..] + s;
      assert whole[0] == ws[0];
      assert whole[1..] == tail;
      LeadingWhitespaceTrimmed(ws[1..], s);
      var j := WhitespaceRun(tail);
      assert WhitespaceRun(whole) == 1 + j;
      assert whole[1 + j..] == tail[j..];
    } else {
      assert ws + s == s;
    }
  }

  /** Leading white space does not change what `parseInt` reads. */
  lemma LeadingWhitespaceIgnored(ws: string, s: string)
    requires forall i :: 0 <= i < |ws| ==> IsJsWhitespace(ws[i])
    ensures ParseInt(ws + s) == ParseInt(s)
  {
    LeadingWhitespaceTrimmed(ws, s);
  }
}
