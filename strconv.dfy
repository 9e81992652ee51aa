/**
 * Base-10 conversion between 64-bit signed integers and their text form:
 * the parse done by `strconv.ParseInt(s, 10, 64)` and the rendering done by
 * `fmt.Sprintf("%v", n)` for an `int64` n.
 */
module Strconv {
  import opened Wrappers

  const MinInt64: int := -0x8000_0000_0000_0000
  const MaxInt64: int := 0x7fff_ffff_ffff_ffff

  type Int64 = x: int | MinInt64 <= x <= MaxInt64

  predicate IsDigit(c: char) {
    '0' <= c <= '9'
  }

  predicate AllDigits(s: string) {
    forall i :: 0 <= i < |s| ==> IsDigit(s[i])
  }

  predicate IsSign(c: char) {
    c == '+' || c == '-'
  }

  function DigitValue(c: char): (d: nat)
    requires IsDigit(c)
    ensures d < 10
  {
    c as int - '0' as int
  }

  function DigitChar(d: nat): (c: char)
    requires d < 10
    ensures IsDigit(c) && DigitValue(c) == d
  {
    ('0' as int + d) as char
  }

  /** The number a run of decimal digits denotes, most significant digit first. */
  function DigitsValue(s: string): nat
    requires AllDigits(s)
  {
    if s == [] then 0 else DigitsValue(s[..|s| - 1]) * 10 + DigitValue(s[|s| - 1])
  }

  /**
   * `strconv.ParseInt(s, 10, 64)`: an optional sign followed by at least one
   * decimal digit, whose value must lie in the 64-bit signed range. Every
   * failure (syntax or range) is `None`; the callers of this model discard
   * the error value.
   */
  function ParseInt(s: string): (r: Option<Int64>)
    ensures r.Some? ==> s != [] && (AllDigits(s) || (IsSign(s[0]) && |s| >= 2 && AllDigits(s[1..])))
    ensures r.Some? && r.value < 0 ==> s[0] == '-'
  {
    if s == [] then None
    else
      var mag := if IsSign(s[0]) then s[1..] else s;
      if mag == [] || !AllDigits(mag) then None
      else
        var v: int := if s[0] == '-' then -(DigitsValue(mag) as int) else DigitsValue(mag);
        if MinInt64 <= v <= MaxInt64 then Some(v) else None
  }

  /** A digit run with no redundant leading zero: "0", or digits starting with 1-9. */
  predicate CanonicalDigits(s: string) {
    |s| >= 1 && AllDigits(s) && (|s| > 1 ==> s[0] != '0')
  }

  /** The text form produced for an integer: canonical digits, with '-' only before a non-zero magnitude. */
  predicate CanonicalDecimal(s: string) {
    CanonicalDigits(s) || (|s| >= 2 && s[0] == '-' && CanonicalDigits(s[1..]) && s[1] != '0')
  }

  /** Decimal digits of a natural number, most significant first. */
  function NatDigits(n: nat): (s: string)
    ensures CanonicalDigits(s)
    ensures s[0] == '0' <==> n == 0
  {
    if n < 10 then [DigitChar(n)] else NatDigits(n / 10) + [DigitChar(n % 10)]
  }

  /** `fmt.Sprintf("%v", n)` for a signed integer: a '-' sign, then the digits of |n|. */
  function FormatInt(n: int): (s: string)
    ensures CanonicalDecimal(s)
    ensures s[0] == '-' <==> n < 0
  {
    if n < 0 then "-" + NatDigits(-n) else NatDigits(n)
  }

  lemma {:induction false} DigitsValueOfNatDigits(n: nat)
    ensures DigitsValue(NatDigits(n)) == n
  {
    if n >= 10 {
      var s := NatDigits(n);
      assert s[..|s| - 1] == NatDigits(n / 10);
      DigitsValueOfNatDigits(n / 10);
    }
  }

  /** Parsing the rendering of any 64-bit integer gives that integer back. */
  lemma ParseFormatRoundTrip(n: Int64)
    ensures ParseInt(FormatInt(n)) == Some(n)
  {
    var s := FormatInt(n);
    if n < 0 {
      var m: nat := -(n as int);
      var d := NatDigits(m);
      assert s == "-" + d;
      assert s[0] == '-' && s[1..] == d;
      DigitsValueOfNatDigits(m);
    } else {
      var d := NatDigits(n);
      assert s == d && !IsSign(s[0]);
      DigitsValueOfNatDigits(n);
    }
  }

  lemma {:induction false} DigitsValuePositive(s: string)
    requires |s| >= 1 && AllDigits(s) && s[0] != '0'
    ensures DigitsValue(s) >= 1
  {
    if |s| > 1 {
      DigitsValuePositive(s[..|s| - 1]);
    }
  }

  lemma {:induction false} NatDigitsOfDigitsValue(s: string)
    requires CanonicalDigits(s)
    ensures NatDigits(DigitsValue(s)) == s
  {
    if |s| > 1 {
      var init := s[..|s| - 1];
      DigitsValuePositive(init);
      NatDigitsOfDigitsValue(init);
    }
  }

  /**
   * The rendering is the only canonical text of its value: a canonical
   * decimal that parses renders back to itself.
   */
  lemma FormatParseRoundTrip(s: string)
    requires CanonicalDecimal(s) && ParseInt(s).Some?
    ensures FormatInt(ParseInt(s).value) == s
  {
    if s[0] == '-' {
      NatDigitsOfDigitsValue(s[1..]);
      DigitsValuePositive(s[1..]);
      assert s == "-" + s[1..];
    } else {
      NatDigitsOfDigitsValue(s);
    }
  }

  /** The empty string is not a number. */
  lemma ParseEmpty()
    ensures ParseInt("") == None
  {
  }

  /** A character other than a digit, anywhere but a leading sign, makes the parse fail. */
  lemma ParseRejectsNonDigit(s: string, i: nat)
    requires i < |s| && !IsDigit(s[i]) && !(i == 0 && IsSign(s[0]))
    ensures ParseInt(s) == None
  {
    if IsSign(s[0]) {
      assert !IsDigit(s[1..][i - 1]);
    }
  }

  /** The value an optional sign ("", "+" or "-") and a digit run denote together. */
  function SignedValue(sign: string, digits: string): int
    requires AllDigits(digits)
  {
    if sign == "-" then -(DigitsValue(digits) as int) else DigitsValue(digits)
  }

  /** A well-formed literal whose value lies in [-2^63, 2^63-1] parses, to that value, leading zeros and "+" included. */
  lemma ParseAccepts(sign: string, digits: string)
    requires sign == "" || sign == "+" || sign == "-"
    requires |digits| >= 1 && AllDigits(digits)
    requires MinInt64 <= SignedValue(sign, digits) <= MaxInt64
    ensures ParseInt(sign + digits) == Some(SignedValue(sign, digits))
  {
    var s := sign + digits;
    if sign == "" {
      assert s == digits;
      assert IsDigit(s[0]) && !IsSign(s[0]);
    } else {
      assert s[0] == sign[0] && IsSign(s[0]);
      assert s[1..] == digits;
    }
  }

  /** A well-formed literal whose value lies outside [-2^63, 2^63-1] fails with a range error. */
  lemma ParseRejectsOutOfRange(sign: string, digits: string)
    requires sign == "" || sign == "+" || sign == "-"
    requires |digits| >= 1 && AllDigits(digits)
    requires SignedValue(sign, digits) < MinInt64 || MaxInt64 < SignedValue(sign, digits)
    ensures ParseInt(sign + digits) == None
  {
    var s := sign + digits;
    if sign == "" {
      assert s == digits;
    } else {
      assert s[1..] == digits;
    }
  }
}
