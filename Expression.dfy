/**
 * `calculateExpression`: the calculator's display text (or, after `=`, the
 * number it shows) turned into a number or `undefined`, in four fixed
 * steps — an empty-input exit, glyph normalisation, a textual
 * divide-by-zero guard and the removal of one trailing non-numeric
 * character — before the text goes to the expression evaluator. Errors
 * inside the `try` are written to the console and turn into `undefined`;
 * the console is a ghost counter of the errors written to it.
 */
module Expression {
  import opened JsString
  import opened MathSubset

  /** A value the component can hold: the text typed so far, the number
      the last `=` produced, or `undefined`. */
  datatype Value = Str(s: string) | Num(n: real) | Undef

  /** What a call gives its caller: a value, or an exception that escapes
      it. */
  datatype Outcome = Returned(value: Value) | Threw

  /** The console, reduced to the number of errors written to it. */
  class Console {
    ghost var errors: nat

    constructor()
      ensures errors == 0
    {
      errors := 0;
    }

    /** `console.error(err)`. */
    method Error()
      modifies this
      ensures errors == old(errors) + 1
    {
      errors := errors + 1;
    }
  }

  /** `s.replace(/a|b/g, to)`: every character of `glyphs` replaced by `to`. */
  function ReplaceChars(s: string, glyphs: set<char>, to: char): (r: string)
    ensures |r| == |s|
    ensures forall i :: 0 <= i < |s| ==> r[i] == if s[i] in glyphs then to else s[i]
  {
    if s == [] then []
    else [if s[0] in glyphs then to else s[0]] + ReplaceChars(s[1..], glyphs, to)
  }

  /** The two `replace` calls: `×` and `x` become `*`, then `÷` becomes `/`. */
  function Normalize(s: string): string {
    ReplaceChars(ReplaceChars(s, {'×', 'x'}, '*'), {'÷'}, '/')
  }

  /** The glyph a single character normalises to. */
  function NormalChar(c: char): char {
    if c == '×' || c == 'x' then '*' else if c == '÷' then '/' else c
  }

  /** `/\/0/g.test(t)`: `t` contains `/` immediately followed by `0`. */
  function HasDivideByZero(t: string): (r: bool)
    ensures r <==> exists i :: 0 <= i < |t| - 1 && t[i] == '/' && t[i + 1] == '0'
  {
    if |t| < 2 then false
    else if t[0] == '/' && t[1] == '0' then true
    else
      var r := HasDivideByZero(t[1..]);
      assert forall i :: 1 <= i < |t| ==> t[1..][i - 1] == t[i];
      r
  }

  /** `t.slice(0, -1)`: everything but the last character ("" stays ""). */
  function DropLast(t: string): (r: string)
    ensures t != [] ==> r + [t[|t| - 1]] == t
    ensures t == [] ==> r == []
  {
    if t == [] then [] else t[..|t| - 1]
  }

  /** The trailing trim: the last character is dropped when it is not a
      number. */
  function TrimTrailing(t: string): string {
    if IsNumber(LastChar(t)) then t else DropLast(t)
  }

  /** The evaluator's answer as the value `calculateExpression` returns:
      a thrown error is caught and becomes `undefined`. */
  function Caught(e: Evaluation): Value {
    match e
    case Result(v) => Num(v)
    case Empty => Undef
    case Thrown => Undef
  }

  /** What `calculateExpression(expression)` does. `!expression` holds for
      "", `undefined` and 0; any other number has no `replace`, and the
      TypeError it raises is outside the `try`. */
  function Calculate(expression: Value): (r: Outcome)
    ensures r == Threw <==> expression.Num? && expression.n != 0.0
    ensures r.Returned? ==> !r.value.Str?
  {
    match expression
    case Undef => Returned(Undef)
    case Num(n) => if n == 0.0 then Returned(Undef) else Threw
    case Str(s) =>
      if s == [] then Returned(Undef)
      else
        var t := Normalize(s);
        if HasDivideByZero(t) then Returned(Undef)
        else Returned(Caught(Evaluate(TrimTrailing(t))))
  }

  /** Whether `calculateExpression(expression)` writes an error to the
      console: the guard fired or the evaluator threw. */
  predicate LogsError(expression: Value) {
    expression.Str? && expression.s != [] &&
    (HasDivideByZero(Normalize(expression.s)) || Evaluate(TrimTrailing(Normalize(expression.s))) == Thrown)
  }

  /** `calculateExpression`, step by step, with `console.error` counted. */
  method CalculateExpression(expression: Value, console: Console) returns (c: Outcome)
    modifies console
    ensures c == Calculate(expression)
    ensures console.errors == old(console.errors) + if LogsError(expression) then 1 else 0
  {
    if expression == Undef || expression == Num(0.0) || expression == Str("") {
      return Returned(Undef);
    }
    if expression.Num? {
      return Threw;
    }
    var toEvaluate := Normalize(expression.s);
    if HasDivideByZero(toEvaluate) {
      console.Error();
      return Returned(Undef);
    }
    var lastCharacterIsNumber := IsNumber(LastChar(toEvaluate));
    if !lastCharacterIsNumber {
      toEvaluate := DropLast(toEvaluate);
    }
    var result := Evaluate(toEvaluate);
    if result == Thrown {
      console.Error();
    }
    c := Returned(Caught(result));
  }

  // ---------------------------------------------------------------------
  // Properties

  /** Normalisation rewrites `×` and `x` to `*` and `÷` to `/`, leaves
      every other character where it was, and keeps the length; no
      calculator glyph survives it. */
  lemma NormalizeMeaning(s: string)
    ensures |Normalize(s)| == |s|
    ensures forall i :: 0 <= i < |s| ==> Normalize(s)[i] == NormalChar(s[i])
    ensures forall i :: 0 <= i < |s| ==> Normalize(s)[i] != '×' && Normalize(s)[i] != 'x' && Normalize(s)[i] != '÷'
  {
    var m := ReplaceChars(s, {'×', 'x'}, '*');
    forall i | 0 <= i < |s|
      ensures Normalize(s)[i] == NormalChar(s[i])
    {
      assert m[i] == if s[i] in {'×', 'x'} then '*' else s[i];
    }
  }

  /** Normalising a string with one more character at its end. */
  lemma {:induction false} NormalizeSnoc(p: string, c: char)
    ensures Normalize(p + [c]) == Normalize(p) + [NormalChar(c)]
  {
    NormalizeMeaning(p);
    NormalizeMeaning(p + [c]);
    assert (p + [c])[|p|] == c;
    forall i | 0 <= i < |p|
      ensures Normalize(p + [c])[i] == Normalize(p)[i]
    {
      assert (p + [c])[i] == p[i];
    }
  }

  /** An empty expression, `undefined` and 0 give `undefined` straight
      away, before any normalisation or evaluation, and log nothing. */
  lemma EmptyExpression()
    ensures Calculate(Str("")) == Returned(Undef) && !LogsError(Str(""))
    ensures Calculate(Undef) == Returned(Undef) && !LogsError(Undef)
    ensures Calculate(Num(0.0)) == Returned(Undef) && !LogsError(Num(0.0))
  {
  }

  /** Only a caught error is logged, and a caught error always becomes
      `undefined`. */
  lemma LoggedErrorIsUndefined(expression: Value)
    requires LogsError(expression)
    ensures Calculate(expression) == Returned(Undef)
  {
  }

  /** The guard: once normalised text contains `/0` the result is
      `undefined` with one error logged, whatever follows the `0` and
      whatever the last character is. */
  lemma DivideByZeroGuard(s: string, i: nat)
    requires i + 1 < |Normalize(s)| && Normalize(s)[i] == '/' && Normalize(s)[i + 1] == '0'
    ensures Calculate(Str(s)) == Returned(Undef) && LogsError(Str(s))
  {
  }

  /** The trailing trim drops exactly one character, and only when that
      character is not numeric (`Number(ch)` is NaN); a numeric or absent
      last character leaves the text as it is. */
  lemma TrimTrailingMeaning(t: string)
    ensures t == [] || IsNumericChar(t[|t| - 1]) ==> TrimTrailing(t) == t
    ensures t != [] && !IsNumericChar(t[|t| - 1]) ==> TrimTrailing(t) + [t[|t| - 1]] == t
  {
    IsNumberOfLastChar(t);
  }

  /** Appending a character other than `0` neither creates nor removes a
      `/0`. */
  lemma {:induction false} GuardIgnoresLastChar(p: string, c: char)
    requires NormalChar(c) != '0'
    ensures HasDivideByZero(Normalize(p + [c])) == HasDivideByZero(Normalize(p))
  {
    var t := Normalize(p);
    var u := Normalize(p + [c]);
    NormalizeSnoc(p, c);
    if HasDivideByZero(u) {
      var i :| 0 <= i < |u| - 1 && u[i] == '/' && u[i + 1] == '0';
      assert i + 1 < |t| && t[i] == '/' && t[i + 1] == '0';
    }
    if HasDivideByZero(t) {
      var i :| 0 <= i < |t| - 1 && t[i] == '/' && t[i + 1] == '0';
      assert u[i] == '/' && u[i + 1] == '0';
    }
  }

  /** A last character that normalises to something non-numeric is the one
      the trim removes. */
  lemma TrimRemovesLastChar(p: string, c: char)
    requires !IsNumericChar(NormalChar(c))
    ensures TrimTrailing(Normalize(p + [c])) == Normalize(p)
  {
    NormalizeSnoc(p, c);
    var u := Normalize(p + [c]);
    TrimTrailingMeaning(u);
    assert u[..|u| - 1] == Normalize(p);
  }

  /** Text ending in a numeric character, or empty, is not trimmed. */
  lemma TrimKeepsNumericEnd(p: string)
    requires p == [] || IsNumericChar(p[|p| - 1])
    ensures TrimTrailing(Normalize(p)) == Normalize(p)
  {
    NormalizeMeaning(p);
    TrimTrailingMeaning(Normalize(p));
  }

  /** A trailing operator (any non-numeric character) after text that ends
      in a numeric character, or after nothing, is ignored: the result and
      the logging are those of the text without it. */
  lemma TrailingOperatorIgnored(p: string, c: char)
    requires !IsNumericChar(c)
    requires p == [] || IsNumericChar(p[|p| - 1])
    ensures Calculate(Str(p + [c])) == Calculate(Str(p))
    ensures LogsError(Str(p + [c])) == LogsError(Str(p))
  {
    assert !IsNumericChar(NormalChar(c)) && NormalChar(c) != '0';
    if p == [] {
      assert Calculate(Str(p + [c])) == Calculate(Str(p)) by {
        TrimRemovesLastChar(p, c);
        assert [] + [c] == [c];
      }
      assert LogsError(Str(p + [c])) == LogsError(Str(p)) by {
        TrimRemovesLastChar(p, c);
        assert [] + [c] == [c];
      }
    } else {
      assert Calculate(Str(p + [c])) == Calculate(Str(p)) by {
        TrimRemovesLastChar(p, c);
        GuardIgnoresLastChar(p, c);
        TrimKeepsNumericEnd(p);
      }
      assert LogsError(Str(p + [c])) == LogsError(Str(p)) by {
        TrimRemovesLastChar(p, c);
        GuardIgnoresLastChar(p, c);
        TrimKeepsNumericEnd(p);
      }
    }
  }

  // ---------------------------------------------------------------------
  // Examples

  /** Text that is already normal, ends in a digit and has no `/0` goes
      to the evaluator unchanged. */
  lemma PlainText(s: string)
    requires s != [] && IsDigit(s[|s| - 1])
    requires forall i :: 0 <= i < |s| ==> NormalChar(s[i]) == s[i]
    requires forall i :: 0 <= i < |s| - 1 ==> !(s[i] == '/' && s[i + 1] == '0')
    ensures Calculate(Str(s)) == Returned(Caught(Evaluate(s)))
    ensures LogsError(Str(s)) <==> Evaluate(s) == Thrown
  {
    assert Normalize(s) == s by {
      NormalizeMeaning(s);
    }
    TrimKeepsNumericEnd(s);
  }

  /** The sum of two digits, such as `1+1` or `1+2`. */
  lemma CalculatesDigitSum(a: char, b: char)
    requires IsDigit(a) && IsDigit(b)
    ensures Calculate(Str([a, '+', b])) == Returned(Num((DigitValue(a) + DigitValue(b)) as real))
  {
    PlainText([a, '+', b]);
    EvaluatesDigitSum(a, b);
  }

  lemma CalculatesDifference()
    ensures Calculate(Str("11-12")) == Returned(Num(-1.0))
  {
    PlainText("11-12");
    EvaluatesSubtraction();
  }

  /** A glyph text is normalised before it is evaluated. */
  lemma {:induction false} GlyphText(s: string, t: string)
    requires |s| == |t| && forall i :: 0 <= i < |s| ==> NormalChar(s[i]) == t[i]
    requires t != [] && IsDigit(t[|t| - 1])
    requires forall i :: 0 <= i < |t| - 1 ==> !(t[i] == '/' && t[i + 1] == '0')
    ensures Calculate(Str(s)) == Returned(Caught(Evaluate(t)))
  {
    assert Normalize(s) == t by {
      NormalizeMeaning(s);
    }
    assert s[|s| - 1] == t[|t| - 1];
    TrimKeepsNumericEnd(s);
  }

  lemma CalculatesProduct()
    ensures Calculate(Str("11×-12")) == Returned(Num(-132.0))
  {
    GlyphText("11×-12", "11*-12");
    EvaluatesNegativeFactor();
  }

  lemma CalculatesQuotient()
    ensures Calculate(Str("144÷12")) == Returned(Num(12.0))
  {
    GlyphText("144÷12", "144/12");
    EvaluatesDivision();
  }

  lemma CalculatesMixedOperators()
    ensures Calculate(Str("1÷1×2×2+3×22")) == Returned(Num(70.0))
  {
    GlyphText("1÷1×2×2+3×22", "1/1*2*2+3*22");
    EvaluatesMixedPrecedence();
  }

  /** The same text with a trailing `+` gives the same result. */
  lemma CalculatesTrailingOperator()
    ensures Calculate(Str("1÷1×2×2+3×22+")) == Returned(Num(70.0))
  {
    assert "1÷1×2×2+3×22" + "+" == "1÷1×2×2+3×22+";
    assert Calculate(Str("1÷1×2×2+3×22+")) == Calculate(Str("1÷1×2×2+3×22")) by {
      TrailingPlusIgnored("1÷1×2×2+3×22");
    }
    CalculatesMixedOperators();
  }

  /** A `+` typed after text that ends in a digit changes nothing. */
  lemma TrailingPlusIgnored(p: string)
    requires p == [] || IsNumericChar(p[|p| - 1])
    ensures Calculate(Str(p + "+")) == Calculate(Str(p))
  {
    assert p + "+" == p + ['+'];
    TrailingOperatorIgnored(p, '+');
  }

  /** `3×2-1÷5` is exactly 29/5, the 5.8 the display shows. */
  lemma CalculatesFraction()
    ensures Calculate(Str("3×2-1÷5")) == Returned(Num(29.0 / 5.0))
  {
    GlyphText("3×2-1÷5", "3*2-1/5");
    EvaluatesFraction();
  }

  /** `5/3` is exactly 5/3; the display shows it rounded to a double. */
  lemma CalculatesRepeatingQuotient()
    ensures Calculate(Str("5/3")) == Returned(Num(5.0 / 3.0))
  {
    PlainText("5/3");
    EvaluatesRepeatingQuotient();
  }

  /** `1÷0` is caught by the guard. */
  lemma DividesByZeroGlyph()
    ensures Calculate(Str("1÷0")) == Returned(Undef) && LogsError(Str("1÷0"))
  {
    NormalizeMeaning("1÷0");
    DivideByZeroGuard("1÷0", 1);
  }

  /** So is `1/05`, whose divisor is not zero. */
  lemma DividesByLeadingZero()
    ensures Calculate(Str("1/05")) == Returned(Undef) && LogsError(Str("1/05"))
  {
    NormalizeMeaning("1/05");
    DivideByZeroGuard("1/05", 1);
  }
}
