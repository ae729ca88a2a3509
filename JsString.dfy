/**
 * The two string helpers of the calculator component: `getLastChar` and
 * `isNumber`, where `isNumber(str)` is `!isNaN(Number(str))`.
 *
 * `Number(str)` is NaN exactly when `str`, stripped of leading and trailing
 * white space, is neither empty nor a StringNumericLiteral of ECMAScript
 * (ToNumber applied to the String type). That grammar is written out here
 * as predicates, so `IsNumber` is defined for every string, and the lemma
 * `IsNumberOfChar` says what it means for the one-character strings that
 * `getLastChar` produces.
 */
module JsString {

  /** StrWhiteSpaceChar: WhiteSpace (TAB, VT, FF, ZWNBSP and every Unicode
      Space_Separator) or LineTerminator (LF, CR, LS, PS). */
  predicate IsWhiteSpace(c: char) {
    c == '\t' || c == '\U{000B}' || c == '\U{000C}' || c == '\U{FEFF}'
    || c == ' ' || c == '\U{00A0}' || c == '\U{1680}' || ('\U{2000}' <= c <= '\U{200A}')
    || c == '\U{202F}' || c == '\U{205F}' || c == '\U{3000}'
    || c == '\n' || c == '\r' || c == '\U{2028}' || c == '\U{2029}'
  }

  predicate IsDigit(c: char) {
    '0' <= c <= '9'
  }

  /** A one-character string that `Number` does not turn into NaN. */
  predicate IsNumericChar(c: char) {
    IsDigit(c) || IsWhiteSpace(c)
  }

  /** `getLastChar`: the last character as a string, or "" for "". */
  function LastChar(s: string): (r: string)
    ensures |r| <= 1
    ensures r == [] <==> s == []
    ensures s != [] ==> s == s[..|s| - 1] + r
  {
    if |s| > 0 then [s[|s| - 1]] else ""
  }

  /** Leading white space removed. */
  function TrimStart(s: string): (r: string)
    ensures |r| <= |s|
    ensures r != [] ==> !IsWhiteSpace(r[0])
  {
    if |s| > 0 && IsWhiteSpace(s[0]) then TrimStart(s[1..]) else s
  }

  /** Trailing white space removed. */
  function TrimEnd(s: string): (r: string)
    ensures |r| <= |s|
    ensures r != [] ==> !IsWhiteSpace(r[|r| - 1])
  {
    if |s| > 0 && IsWhiteSpace(s[|s| - 1]) then TrimEnd(s[..|s| - 1]) else s
  }

  /** TrimStart removes exactly the leading white space: what it keeps is
      a suffix, and every character it drops is white space. */
  lemma {:induction false} TrimStartMeaning(s: string)
    ensures TrimStart(s) == s[|s| - |TrimStart(s)|..]
    ensures forall i :: 0 <= i < |s| - |TrimStart(s)| ==> IsWhiteSpace(s[i])
    decreases |s|
  {
    if |s| > 0 && IsWhiteSpace(s[0]) {
      TrimStartMeaning(s[1..]);
      assert s[1..][|s| - 1 - |TrimStart(s)|..] == s[|s| - |TrimStart(s)|..];
      assert forall i :: 1 <= i < |s| - |TrimStart(s)| ==> s[1..][i - 1] == s[i];
    }
  }

  /** TrimEnd removes exactly the trailing white space: what it keeps is a
      prefix, and every character it drops is white space. */
  lemma {:induction false} TrimEndMeaning(s: string)
    ensures TrimEnd(s) == s[..|TrimEnd(s)|]
    ensures forall i :: |TrimEnd(s)| <= i < |s| ==> IsWhiteSpace(s[i])
    decreases |s|
  {
    if |s| > 0 && IsWhiteSpace(s[|s| - 1]) {
      TrimEndMeaning(s[..|s| - 1]);
      assert s[..|s| - 1][..|TrimEnd(s)|] == s[..|TrimEnd(s)|];
    }
  }

  /** Every character of t[lo..hi] is a decimal digit. */
  predicate DigitsBetween(t: string, lo: nat, hi: nat)
    requires lo <= hi <= |t|
  {
    forall i :: lo <= i < hi ==> IsDigit(t[i])
  }

  /** t[lo..hi] is DecimalDigits: one or more decimal digits. */
  predicate IsDecimalDigits(t: string, lo: nat, hi: nat)
    requires lo <= hi <= |t|
  {
    lo < hi && DigitsBetween(t, lo, hi)
  }

  /** t[lo..hi] is a SignedInteger: DecimalDigits with an optional sign. */
  predicate IsSignedInteger(t: string, lo: nat, hi: nat)
    requires lo <= hi <= |t|
  {
    IsDecimalDigits(t, lo, hi) || (lo < hi && (t[lo] == '+' || t[lo] == '-') && IsDecimalDigits(t, lo + 1, hi))
  }

  /** The index of the first `.` in t[lo..hi], or hi when there is none. */
  function FirstPoint(t: string, lo: nat, hi: nat): (p: nat)
    requires lo <= hi <= |t|
    ensures lo <= p <= hi
    ensures p < hi ==> t[p] == '.'
    ensures forall i :: lo <= i < p ==> t[i] != '.'
    decreases hi - lo
  {
    if lo == hi || t[lo] == '.' then lo else FirstPoint(t, lo + 1, hi)
  }

  /** An exponent indicator, `e` or `E`. */
  predicate IsExponentChar(c: char) {
    c == 'e' || c == 'E'
  }

  /** The index of the first exponent indicator in t[lo..], or |t| when
      there is none. */
  function FirstExponent(t: string, lo: nat): (k: nat)
    requires lo <= |t|
    ensures lo <= k <= |t|
    ensures k < |t| ==> IsExponentChar(t[k])
    ensures forall i :: lo <= i < k ==> !IsExponentChar(t[i])
    decreases |t| - lo
  {
    if lo == |t| || IsExponentChar(t[lo]) then lo else FirstExponent(t, lo + 1)
  }

  /** t[lo..hi] is the part of a StrUnsignedDecimalLiteral before its
      exponent: `DecimalDigits`, `DecimalDigits . DecimalDigits?` or
      `. DecimalDigits`. None of these holds a second `.`, so the point, if
      any, is the first one. */
  predicate IsMantissa(t: string, lo: nat, hi: nat)
    requires lo <= hi <= |t|
  {
    var p := FirstPoint(t, lo, hi);
    if p == hi then IsDecimalDigits(t, lo, hi)
    else DigitsBetween(t, lo, p) && DigitsBetween(t, p + 1, hi) && (lo < p || p + 1 < hi)
  }

  /** t[lo..] is the word `Infinity`. */
  predicate IsInfinity(t: string, lo: nat) {
    |t| == lo + 8 && t[lo] == 'I' && t[lo + 1] == 'n' && t[lo + 2] == 'f' && t[lo + 3] == 'i'
    && t[lo + 4] == 'n' && t[lo + 5] == 'i' && t[lo + 6] == 't' && t[lo + 7] == 'y'
  }

  /** t[lo..] is a StrUnsignedDecimalLiteral: `Infinity`, or a mantissa with
      an optional exponent part (`e` or `E` followed by a SignedInteger).
      A mantissa holds no exponent indicator, so the exponent part, if any,
      starts at the first one. */
  predicate IsUnsignedDecimal(t: string, lo: nat)
    requires lo <= |t|
  {
    IsInfinity(t, lo)
    || (var k := FirstExponent(t, lo);
        if k == |t| then IsMantissa(t, lo, |t|)
        else lo < k && IsMantissa(t, lo, k) && IsSignedInteger(t, k + 1, |t|))
  }

  /** The mantissa read at the first point is the grammar's mantissa:
      digits, or digits around some `.` with at least one digit. */
  lemma MantissaMeaning(t: string, lo: nat, hi: nat)
    requires lo <= hi <= |t|
    ensures IsMantissa(t, lo, hi)
        <==> IsDecimalDigits(t, lo, hi)
             || exists p :: lo <= p < hi && t[p] == '.' && DigitsBetween(t, lo, p) && DigitsBetween(t, p + 1, hi) && (lo < p || p + 1 < hi)
  {
    var q := FirstPoint(t, lo, hi);
    if q < hi {
      assert !IsDigit(t[q]);
      forall p | lo <= p < hi && t[p] == '.' && DigitsBetween(t, lo, p)
        ensures p == q
      {
      }
    }
  }

  /** A mantissa holds no exponent indicator. */
  lemma MantissaHasNoExponent(t: string, lo: nat, hi: nat, i: nat)
    requires lo <= i < hi <= |t| && IsMantissa(t, lo, hi)
    ensures !IsExponentChar(t[i])
  {
  }

  /** The decimal read at the first exponent indicator is the grammar's
      StrUnsignedDecimalLiteral: `Infinity`, a mantissa, or a mantissa, an
      `e` or `E` at some index k, and a SignedInteger. */
  lemma UnsignedDecimalMeaning(t: string, lo: nat)
    requires lo <= |t|
    ensures IsUnsignedDecimal(t, lo)
        <==> IsInfinity(t, lo) || IsMantissa(t, lo, |t|)
             || exists k :: lo < k < |t| && IsExponentChar(t[k]) && IsMantissa(t, lo, k) && IsSignedInteger(t, k + 1, |t|)
  {
    var f := FirstExponent(t, lo);
    if f < |t| {
      assert !IsMantissa(t, lo, |t|) by {
        if IsMantissa(t, lo, |t|) { MantissaHasNoExponent(t, lo, |t|, f); }
      }
      forall k | lo < k < |t| && IsExponentChar(t[k]) && IsMantissa(t, lo, k)
        ensures k == f
      {
        if f < k { MantissaHasNoExponent(t, lo, k, f); }
      }
    }
  }

  /** StrDecimalLiteral: a StrUnsignedDecimalLiteral with an optional sign. */
  predicate IsStrDecimal(t: string) {
    IsUnsignedDecimal(t, 0) || (|t| > 0 && (t[0] == '+' || t[0] == '-') && IsUnsignedDecimal(t, 1))
  }

  /** A digit of the given radix: `0`-`1`, `0`-`7`, or a hexadecimal digit
      in either case. */
  predicate IsRadixDigit(c: char, radix: nat) {
    if radix == 16 then IsDigit(c) || ('a' <= c <= 'f') || ('A' <= c <= 'F')
    else '0' <= c && (c as int) < ('0' as int) + radix
  }

  /** Every character of t from index 2 on is a digit of the radix. */
  predicate DigitsFrom2(t: string, radix: nat) {
    forall i :: 2 <= i < |t| ==> IsRadixDigit(t[i], radix)
  }

  /** NonDecimalIntegerLiteral: `0b`, `0o` or `0x` (either case) followed by
      one or more binary, octal or hexadecimal digits. */
  predicate IsNonDecimalInteger(t: string) {
    |t| >= 3 && t[0] == '0' &&
    (((t[1] == 'b' || t[1] == 'B') && DigitsFrom2(t, 2))
     || ((t[1] == 'o' || t[1] == 'O') && DigitsFrom2(t, 8))
     || ((t[1] == 'x' || t[1] == 'X') && DigitsFrom2(t, 16)))
  }

  /** StringNumericLiteral without its surrounding white space (which may
      also be all there is). */
  predicate IsNumericLiteral(t: string) {
    t == [] || IsNonDecimalInteger(t) || IsStrDecimal(t)
  }

  /** `isNumber`: `Number(s)` is not NaN. */
  predicate IsNumber(s: string) {
    IsNumericLiteral(TrimEnd(TrimStart(s)))
  }

  /** Stripping white space leaves a string alone that neither starts nor
      ends with white space. */
  lemma NumberWithoutPadding(s: string)
    requires s == [] || (!IsWhiteSpace(s[0]) && !IsWhiteSpace(s[|s| - 1]))
    ensures IsNumber(s) == IsNumericLiteral(s)
  {
    assert TrimStart(s) == s;
    assert TrimEnd(s) == s;
  }

  /** The empty string converts to 0, so it is a number. */
  lemma EmptyIsNumber()
    ensures IsNumber("")
  {
  }

  /** The only one-character numeric literals are the digits. */
  lemma NumericLiteralOfChar(c: char)
    ensures IsNumericLiteral([c]) <==> IsDigit(c)
  {
    var t := [c];
    assert t[0] == c;
  }

  /** White space on its own trims to "", anything else is kept. */
  lemma TrimOfChar(c: char)
    ensures IsWhiteSpace(c) ==> TrimEnd(TrimStart([c])) == []
    ensures !IsWhiteSpace(c) ==> TrimEnd(TrimStart([c])) == [c]
  {
    if !IsWhiteSpace(c) {
      assert TrimStart([c]) == [c];
    }
  }

  /** A lone white-space character converts to 0. */
  lemma WhiteSpaceCharIsNumber(c: char)
    requires IsWhiteSpace(c)
    ensures IsNumber([c])
  {
    TrimOfChar(c);
    assert IsNumericLiteral([]);
  }

  /** Any other lone character is a number exactly when it is a digit. */
  lemma OtherCharIsNumber(c: char)
    requires !IsWhiteSpace(c)
    ensures IsNumber([c]) <==> IsDigit(c)
  {
    TrimOfChar(c);
    NumericLiteralOfChar(c);
  }

  /** A one-character string is a number exactly when its character is a
      decimal digit (its value) or white space (which converts to 0); every
      operator glyph, letter and punctuation mark gives NaN. */
  lemma IsNumberOfChar(c: char)
    ensures IsNumber([c]) <==> IsNumericChar(c)
  {
    if IsWhiteSpace(c) {
      WhiteSpaceCharIsNumber(c);
    } else {
      OtherCharIsNumber(c);
    }
  }

  /** `isNumber(getLastChar(s))`: true for "" and otherwise decided by the
      last character alone. */
  lemma IsNumberOfLastChar(s: string)
    ensures IsNumber(LastChar(s)) <==> (s == [] || IsNumericChar(s[|s| - 1]))
  {
    if s == [] {
      EmptyIsNumber();
    } else {
      assert LastChar(s) == [s[|s| - 1]];
      IsNumberOfChar(s[|s| - 1]);
    }
  }

  /** A signed decimal with a fraction and an exponent, such as "-1.5e3",
      is a number. */
  lemma ExponentNumeralIsNumber(e: string)
    requires e == "-1.5e3"
    ensures IsNumber(e)
  {
    NumberWithoutPadding(e);
    assert FirstExponent(e, 1) == 4 by {
      assert !IsExponentChar(e[1]) && !IsExponentChar(e[2]) && !IsExponentChar(e[3]) && IsExponentChar(e[4]);
    }
    assert FirstPoint(e, 1, 4) == 2 by { assert e[1] != '.' && e[2] == '.'; }
    assert IsMantissa(e, 1, 4) by { assert DigitsBetween(e, 1, 2) && DigitsBetween(e, 3, 4); }
    assert IsSignedInteger(e, 5, 6);
  }

  /** A hexadecimal literal, such as "0x1F", is a number. */
  lemma HexNumeralIsNumber(h: string)
    requires h == "0x1F"
    ensures IsNumber(h)
  {
    NumberWithoutPadding(h);
    assert IsNonDecimalInteger(h);
  }

  /** An arithmetic expression, such as "1+1", is not a number: `Number`
      gives NaN. */
  lemma ExpressionIsNotNumber(g: string)
    requires g == "1+1"
    ensures !IsNumber(g)
  {
    NumberWithoutPadding(g);
    assert FirstExponent(g, 0) == 3 by {
      assert !IsExponentChar(g[0]) && !IsExponentChar(g[1]) && !IsExponentChar(g[2]);
    }
    assert FirstPoint(g, 0, 3) == 3 by { assert g[0] != '.' && g[1] != '.' && g[2] != '.'; }
    assert !IsDigit(g[1]);
    assert !IsNonDecimalInteger(g);
  }
}
