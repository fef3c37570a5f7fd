/**
 * The two JavaScript string built-ins the onion router's peel step relies on:
 * `String.prototype.slice` with a non-negative constant index, and
 * `parseInt(s, 10)` as the ECMAScript language specification defines it
 * (section 19.2.5 "parseInt ( string, radix )" of ECMA-262): skip leading
 * white space and line terminators, take an optional sign, then the longest
 * run of decimal digits; no digit at all gives NaN.
 */
module JsString {

  /** The numbers `parseInt(_, 10)` can produce here: an integer, or NaN. */
  datatype JsNumber = Finite(value: int) | NaN

  function Min(a: int, b: int): int { if a <= b then a else b }

  // ---------------------------------------------------------------------
  // slice

  /** `s.slice(0, n)`: the first `n` characters, or all of `s` when it is shorter. */
  function SliceTo(s: string, n: nat): (r: string)
    ensures r <= s
    ensures |r| == Min(n, |s|)
  {
    s[..Min(n, |s|)]
  }

  /** `s.slice(n)`: what follows the first `n` characters, empty when `s` is shorter. */
  function SliceFrom(s: string, n: nat): (r: string)
    ensures SliceTo(s, n) + r == s
  {
    s[Min(n, |s|)..]
  }

  // ---------------------------------------------------------------------
  // Decimal digits and their value

  predicate IsDigit(c: char) { '0' <= c <= '9' }

  predicate AllDigits(s: string) { forall i :: 0 <= i < |s| ==> IsDigit(s[i]) }

  function DigitValue(c: char): (d: nat)
    requires IsDigit(c)
    ensures d < 10
  {
    c as int - '0' as int
  }

  function DigitChar(d: nat): (c: char)
    requires d < 10
    ensures IsDigit(c) && DigitValue(c) == d
  {
    ('0' as int + d) as char
  }

  function Pow10(k: nat): (p: nat)
    ensures p >= 1
  {
    if k == 0 then 1 else 10 * Pow10(k - 1)
  }

  /**
   * The base-10 value of a digit string, read left to right: each further
   * digit multiplies what was read so far by ten and adds its own value.
   */
  function DecimalValue(s: string): (v: nat)
    requires AllDigits(s)
    ensures v < Pow10(|s|)
  {
    if s == [] then 0 else 10 * DecimalValue(s[..|s| - 1]) + DigitValue(s[|s| - 1])
  }

  /** `n` written in exactly `width` decimal digits, padded on the left with '0'. */
  function PaddedDecimal(n: nat, width: nat): (s: string)
    requires n < Pow10(width)
    ensures |s| == width && AllDigits(s)
  {
    if width == 0 then [] else PaddedDecimal(n / 10, width - 1) + [DigitChar(n % 10)]
  }

  function Zeros(k: nat): (s: string)
    ensures |s| == k && AllDigits(s)
  {
    if k == 0 then [] else Zeros(k - 1) + ['0']
  }

  // ---------------------------------------------------------------------
  // parseInt(s, 10)

  /** White space and line terminators (StrWhiteSpaceChar in ECMA-262). */
  predicate IsStrWhiteSpaceChar(c: char) {
    c == '\t' || c == '\U{000B}' || c == '\U{000C}' || c == ' ' || c == '\U{00A0}' ||
    c == '\U{FEFF}' || c == '\U{1680}' || ('\U{2000}' <= c <= '\U{200A}') ||
    c == '\U{202F}' || c == '\U{205F}' || c == '\U{3000}' ||
    c == '\n' || c == '\r' || c == '\U{2028}' || c == '\U{2029}'
  }

  /** `s` without its leading white space. */
  function TrimStart(s: string): string
  {
    if s != [] && IsStrWhiteSpaceChar(s[0]) then TrimStart(s[1..]) else s
  }

  /**
   * Trimming drops a prefix made only of white space, and what it leaves
   * does not start with white space.
   */
  lemma {:induction false} TrimStartDropsWhiteSpace(s: string)
    ensures |TrimStart(s)| <= |s| && TrimStart(s) == s[|s| - |TrimStart(s)|..]
    ensures forall i :: 0 <= i < |s| - |TrimStart(s)| ==> IsStrWhiteSpaceChar(s[i])
    ensures TrimStart(s) == [] || !IsStrWhiteSpaceChar(TrimStart(s)[0])
  {
    if s != [] && IsStrWhiteSpaceChar(s[0]) {
      TrimStartDropsWhiteSpace(s[1..]);
    }
  }

  /** The longest prefix of `s` made of decimal digits. */
  function LeadingDigits(s: string): (r: string)
    ensures r <= s && AllDigits(r)
    ensures |r| == |s| || !IsDigit(s[|r|])
  {
    if s != [] && IsDigit(s[0]) then [s[0]] + LeadingDigits(s[1..]) else []
  }

  /** Whether the trimmed input opens with a minus sign. */
  predicate HasMinus(t: string) { t != [] && t[0] == '-' }

  /** The trimmed input without its optional leading '+' or '-'. */
  function StripSign(t: string): string
  {
    if t != [] && (t[0] == '+' || t[0] == '-') then t[1..] else t
  }

  /** What `parseInt` does once the white space is gone: sign, then digits. */
  function ParseSigned(t: string): JsNumber
  {
    var z := LeadingDigits(StripSign(t));
    if z == [] then NaN
    else if HasMinus(t) then Finite(-(DecimalValue(z) as int))
    else Finite(DecimalValue(z))
  }

  /** `parseInt(s, 10)`; a negative zero is the integer 0. */
  function ParseInt10(s: string): JsNumber
  {
    ParseSigned(TrimStart(s))
  }

  /** Trimming leaves a string that does not open with white space alone. */
  lemma TrimStartNoWhiteSpace(s: string)
    requires s == [] || !IsStrWhiteSpaceChar(s[0])
    ensures TrimStart(s) == s
  {
  }

  // ---------------------------------------------------------------------
  // Properties

  /** Leading zeros do not change a digit string's value. */
  lemma {:induction false} DecimalValueLeadingZeros(k: nat, s: string)
    requires AllDigits(s)
    ensures AllDigits(Zeros(k) + s)
    ensures DecimalValue(Zeros(k) + s) == DecimalValue(s)
  {
    var z := Zeros(k) + s;
    assert AllDigits(z) by {
      forall i | 0 <= i < |z| ensures IsDigit(z[i]) {
        if i >= k { assert z[i] == s[i - k]; }
      }
    }
    if s == [] {
      assert z == Zeros(k);
      ZerosValue(k);
    } else {
      assert z[..|z| - 1] == Zeros(k) + s[..|s| - 1];
      assert z[|z| - 1] == s[|s| - 1];
      DecimalValueLeadingZeros(k, s[..|s| - 1]);
    }
  }

  /** A run of zeros is worth nothing. */
  lemma {:induction false} ZerosValue(k: nat)
    ensures DecimalValue(Zeros(k)) == 0
  {
    if k > 0 {
      assert Zeros(k)[..k - 1] == Zeros(k - 1);
      ZerosValue(k - 1);
    }
  }

  /** Reading back a zero-padded rendering gives the number written. */
  lemma {:induction false} DecimalValuePadded(n: nat, width: nat)
    requires n < Pow10(width)
    ensures DecimalValue(PaddedDecimal(n, width)) == n
  {
    if width > 0 {
      var s := PaddedDecimal(n, width);
      assert s[..width - 1] == PaddedDecimal(n / 10, width - 1);
      DecimalValuePadded(n / 10, width - 1);
    }
  }

  /** The digit run of a string that starts with a digit run `d` is `d` itself. */
  lemma {:induction false} LeadingDigitsOfRun(d: string, rest: string)
    requires AllDigits(d)
    requires rest == [] || !IsDigit(rest[0])
    ensures LeadingDigits(d + rest) == d
  {
    if d != [] {
      assert (d + rest)[1..] == d[1..] + rest;
      LeadingDigitsOfRun(d[1..], rest);
    }
  }

  /**
   * A string that opens with a non-empty digit run parses to that run's
   * value, whatever follows the first non-digit.
   */
  lemma ParseInt10DigitRun(d: string, rest: string)
    requires d != [] && AllDigits(d)
    requires rest == [] || !IsDigit(rest[0])
    ensures ParseInt10(d + rest) == Finite(DecimalValue(d))
  {
    var s := d + rest;
    assert s[0] == d[0] && IsDigit(s[0]);
    TrimStartNoWhiteSpace(s);
    assert StripSign(s) == s;
    LeadingDigitsOfRun(d, rest);
    assert !HasMinus(s);
  }

  /** A string made only of digits parses to its positional value. */
  lemma ParseInt10AllDigits(s: string)
    requires s != [] && AllDigits(s)
    ensures ParseInt10(s) == Finite(DecimalValue(s))
  {
    assert s + [] == s;
    ParseInt10DigitRun(s, []);
  }

  /** A minus sign before a digit run negates the value. */
  lemma ParseInt10Negative(d: string, rest: string)
    requires d != [] && AllDigits(d)
    requires rest == [] || !IsDigit(rest[0])
    ensures ParseInt10("-" + (d + rest)) == Finite(-(DecimalValue(d) as int))
  {
    var s := "-" + (d + rest);
    assert s[0] == '-';
    TrimStartNoWhiteSpace(s);
    ParseSignedMinus(s, d, rest);
  }

  lemma ParseSignedMinus(s: string, d: string, rest: string)
    requires d != [] && AllDigits(d)
    requires rest == [] || !IsDigit(rest[0])
    requires s == "-" + (d + rest)
    ensures ParseSigned(s) == Finite(-(DecimalValue(d) as int))
  {
    assert s[1..] == d + rest;
    LeadingDigitsOfRun(d, rest);
  }

  /** Leading white space is skipped. */
  lemma {:induction false} ParseInt10SkipsWhiteSpace(w: string, s: string)
    requires forall i :: 0 <= i < |w| ==> IsStrWhiteSpaceChar(w[i])
    ensures ParseInt10(w + s) == ParseInt10(s)
  {
    TrimStartSkips(w, s);
  }

  lemma {:induction false} TrimStartSkips(w: string, s: string)
    requires forall i :: 0 <= i < |w| ==> IsStrWhiteSpaceChar(w[i])
    ensures TrimStart(w + s) == TrimStart(s)
  {
    if w == [] {
      assert w + s == s;
    } else {
      var ws := w + s;
      assert ws[0] == w[0] && ws[1..] == w[1..] + s;
      TrimStartSkips(w[1..], s);
    }
  }

  /** A string without any decimal digit is NaN. */
  lemma ParseInt10NoDigit(s: string)
    requires forall i :: 0 <= i < |s| ==> !IsDigit(s[i])
    ensures ParseInt10(s) == NaN
  {
    var t := TrimStart(s);
    TrimStartDropsWhiteSpace(s);
    if t != [] {
      assert t[0] == s[|s| - |t|];
      if |t| > 1 { assert t[1] == s[|s| - |t| + 1]; }
    }
  }

  /** Leading zeros are ignored: "000…0" + d parses like d. */
  lemma ParseInt10IgnoresLeadingZeros(k: nat, d: string)
    requires d != [] && AllDigits(d)
    ensures ParseInt10(Zeros(k) + d) == ParseInt10(d)
  {
    DecimalValueLeadingZeros(k, d);
    ParseInt10AllDigits(d);
    ParseInt10AllDigits(Zeros(k) + d);
  }

  /** `parseInt` reads back a zero-padded decimal rendering of width at least one. */
  lemma ParseInt10Padded(n: nat, width: nat)
    requires 0 < width && n < Pow10(width)
    ensures ParseInt10(PaddedDecimal(n, width)) == Finite(n)
  {
    ParseInt10AllDigits(PaddedDecimal(n, width));
    DecimalValuePadded(n, width);
  }
}
