/**
 * The expression evaluator the calculator hands its normalised text to
 * (`evaluate` of the mathjs library), restricted to the part the calculator
 * can produce: decimal numerals, unary `-` and `+`, and the binary operators
 * `+ - * /`, with `*` and `/` binding tighter than `+` and `-`, each level
 * associating to the left, and unary signs binding tighter than both.
 * Numbers are exact rationals (`real`).
 *
 * Like the library, the evaluator first parses the text into a syntax tree
 * (`Sum` of `Term`s of `Factor`s) and then computes the tree's value. The
 * parser is a recursive descent in which every parse function returns the
 * tree of the longest prefix it recognises together with the text after it;
 * its partner is the printer (`SumText`), and the two are proved inverse in
 * both directions: every parse re-prints to the text it consumed, and the
 * printed text of every well-formed tree parses back to that tree.
 */
module MathSubset {
  import opened Wrappers
  import opened JsString

  /** What `evaluate` gives back: a number, `undefined` (the library's
      answer to an empty expression), or a thrown error. */
  datatype Evaluation = Result(value: real) | Empty | Thrown

  /** A parse of a prefix: its syntax tree and the text after it, or an
      error. */
  datatype Parse<T> = Parsed(tree: T, rest: string) | Error

  // ---------------------------------------------------------------------
  // Numerals

  predicate IsNumeral(d: string) {
    IsDecimalDigits(d, 0, |d|)
  }

  function DigitValue(c: char): nat
    requires IsDigit(c)
  {
    c as int - '0' as int
  }

  /** The value of a string of decimal digits, most significant first. */
  function DigitsValue(d: string): nat
    requires DigitsBetween(d, 0, |d|)
  {
    if d == [] then 0 else 10 * DigitsValue(d[..|d| - 1]) + DigitValue(d[|d| - 1])
  }

  /** The length of the run of digits that `s` starts with. */
  function DigitRun(s: string): (n: nat)
    ensures n <= |s| && DigitsBetween(s, 0, n)
    ensures n < |s| ==> !IsDigit(s[n])
  {
    if |s| > 0 && IsDigit(s[0]) then 1 + DigitRun(s[1..]) else 0
  }

  // ---------------------------------------------------------------------
  // Syntax trees, their values and their text

  datatype Factor = Numeral(digits: string) | Negate(operand: Factor) | Affirm(operand: Factor)
  datatype MulOp = Times | Over
  /** The `* factor` and `/ factor` steps after the first factor of a term. */
  datatype MulSteps = MulEnd | MulStep(op: MulOp, operand: Factor, next: MulSteps)
  datatype Term = Term(first: Factor, more: MulSteps)
  datatype AddOp = Plus | Minus
  /** The `+ term` and `- term` steps after the first term of a sum. */
  datatype AddSteps = AddEnd | AddStep(op: AddOp, operand: Term, next: AddSteps)
  datatype Sum = Sum(first: Term, more: AddSteps)

  predicate FactorOk(f: Factor) {
    match f
    case Numeral(d) => IsNumeral(d)
    case Negate(g) => FactorOk(g)
    case Affirm(g) => FactorOk(g)
  }

  predicate MulStepsOk(steps: MulSteps) {
    match steps
    case MulEnd => true
    case MulStep(_, f, next) => FactorOk(f) && MulStepsOk(next)
  }

  predicate TermOk(t: Term) {
    FactorOk(t.first) && MulStepsOk(t.more)
  }

  predicate AddStepsOk(steps: AddSteps) {
    match steps
    case AddEnd => true
    case AddStep(_, t, next) => TermOk(t) && AddStepsOk(next)
  }

  predicate SumOk(e: Sum) {
    TermOk(e.first) && AddStepsOk(e.more)
  }

  function FactorValue(f: Factor): real
    requires FactorOk(f)
  {
    match f
    case Numeral(d) => DigitsValue(d) as real
    case Negate(g) => -FactorValue(g)
    case Affirm(g) => FactorValue(g)
  }

  /** Folds the steps of a term into `acc` from left to right; `None` when a
      divisor is zero. */
  function MulFold(acc: real, steps: MulSteps): Option<real>
    requires MulStepsOk(steps)
    decreases steps
  {
    match steps
    case MulEnd => Some(acc)
    case MulStep(Times, f, next) => MulFold(acc * FactorValue(f), next)
    case MulStep(Over, f, next) =>
      if FactorValue(f) == 0.0 then None else MulFold(acc / FactorValue(f), next)
  }

  function TermValue(t: Term): Option<real>
    requires TermOk(t)
  {
    MulFold(FactorValue(t.first), t.more)
  }

  /** Folds the steps of a sum into `acc` from left to right. */
  function AddFold(acc: real, steps: AddSteps): Option<real>
    requires AddStepsOk(steps)
    decreases steps
  {
    match steps
    case AddEnd => Some(acc)
    case AddStep(op, t, next) =>
      match TermValue(t)
      case None => None
      case Some(v) => AddFold(if op == Plus then acc + v else acc - v, next)
  }

  function SumValue(e: Sum): Option<real>
    requires SumOk(e)
  {
    match TermValue(e.first)
    case None => None
    case Some(a) => AddFold(a, e.more)
  }

  function MulChar(op: MulOp): char {
    match op
    case Times => '*'
    case Over => '/'
  }

  function AddChar(op: AddOp): char {
    match op
    case Plus => '+'
    case Minus => '-'
  }

  function FactorText(f: Factor): string {
    match f
    case Numeral(d) => d
    case Negate(g) => ['-'] + FactorText(g)
    case Affirm(g) => ['+'] + FactorText(g)
  }

  function MulStepsText(steps: MulSteps): string {
    match steps
    case MulEnd => ""
    case MulStep(op, f, next) => [MulChar(op)] + (FactorText(f) + MulStepsText(next))
  }

  function TermText(t: Term): string {
    FactorText(t.first) + MulStepsText(t.more)
  }

  function AddStepsText(steps: AddSteps): string {
    match steps
    case AddEnd => ""
    case AddStep(op, t, next) => [AddChar(op)] + (TermText(t) + AddStepsText(next))
  }

  function SumText(e: Sum): string {
    TermText(e.first) + AddStepsText(e.more)
  }

  /** `rest` cannot extend a numeral. */
  predicate EndsNumeral(rest: string) {
    rest == [] || !IsDigit(rest[0])
  }

  /** `rest` cannot extend a term. */
  predicate EndsTerm(rest: string) {
    EndsNumeral(rest) && (rest == [] || (rest[0] != '*' && rest[0] != '/'))
  }

  /** `rest` cannot extend a sum. */
  predicate EndsSum(rest: string) {
    EndsTerm(rest) && (rest == [] || (rest[0] != '+' && rest[0] != '-'))
  }

  // ---------------------------------------------------------------------
  // The parser. Each function's contract says that a successful parse
  // consumed a non-empty prefix (or, for the step lists, a possibly empty
  // one), built a well-formed tree, and stopped where the construct cannot
  // go on; the lemmas after them show that the tree re-prints to exactly
  // the consumed prefix.

  /** A numeral, the longest run of digits, after any number of signs. */
  function ParseFactor(s: string): (r: Parse<Factor>)
    ensures r.Parsed? ==> |r.rest| < |s| && FactorOk(r.tree) && EndsNumeral(r.rest)
    decreases |s|
  {
    if |s| > 0 && s[0] == '-' then
      match ParseFactor(s[1..])
      case Parsed(f, rest) => Parsed(Negate(f), rest)
      case Error => Error
    else if |s| > 0 && s[0] == '+' then
      match ParseFactor(s[1..])
      case Parsed(f, rest) => Parsed(Affirm(f), rest)
      case Error => Error
    else
      var n := DigitRun(s);
      if n == 0 then Error
      else Parsed(Numeral(s[..n]), s[n..])
  }

  /** The steps of a term after its first factor. */
  function ParseMulSteps(s: string): (r: Parse<MulSteps>)
    ensures r.Parsed? ==> |r.rest| <= |s| && MulStepsOk(r.tree)
    ensures r.Parsed? && EndsNumeral(s) ==> EndsTerm(r.rest)
    decreases |s|
  {
    if |s| > 0 && (s[0] == '*' || s[0] == '/') then
      match ParseFactor(s[1..])
      case Error => Error
      case Parsed(f, after) =>
        match ParseMulSteps(after)
        case Error => Error
        case Parsed(next, rest) => Parsed(MulStep(if s[0] == '*' then Times else Over, f, next), rest)
    else
      Parsed(MulEnd, s)
  }

  /** A product or quotient of factors. */
  function ParseTerm(s: string): (r: Parse<Term>)
    ensures r.Parsed? ==> |r.rest| < |s| && TermOk(r.tree) && EndsTerm(r.rest)
  {
    match ParseFactor(s)
    case Error => Error
    case Parsed(f, after) =>
      match ParseMulSteps(after)
      case Error => Error
      case Parsed(steps, rest) => Parsed(Term(f, steps), rest)
  }

  /** The steps of a sum after its first term. */
  function ParseAddSteps(s: string): (r: Parse<AddSteps>)
    ensures r.Parsed? ==> |r.rest| <= |s| && AddStepsOk(r.tree)
    ensures r.Parsed? && EndsTerm(s) ==> EndsSum(r.rest)
    decreases |s|
  {
    if |s| > 0 && (s[0] == '+' || s[0] == '-') then
      match ParseTerm(s[1..])
      case Error => Error
      case Parsed(t, after) =>
        match ParseAddSteps(after)
        case Error => Error
        case Parsed(next, rest) => Parsed(AddStep(if s[0] == '+' then Plus else Minus, t, next), rest)
    else
      Parsed(AddEnd, s)
  }

  /** A sum or difference of terms. */
  function ParseSum(s: string): (r: Parse<Sum>)
    ensures r.Parsed? ==> |r.rest| < |s| && SumOk(r.tree) && EndsSum(r.rest)
  {
    match ParseTerm(s)
    case Error => Error
    case Parsed(t, after) =>
      match ParseAddSteps(after)
      case Error => Error
      case Parsed(steps, rest) => Parsed(Sum(t, steps), rest)
  }

  /** `evaluate(s)`: the empty text gives `undefined`; otherwise the whole
      text must parse as one sum, whose value is the result, and anything
      else (text left over, no parse, a zero divisor) throws. */
  function Evaluate(s: string): Evaluation
  {
    if s == [] then Empty
    else
      match ParseSum(s)
      case Error => Thrown
      case Parsed(e, rest) =>
        if rest != [] then Thrown
        else
          match SumValue(e)
          case Some(v) => Result(v)
          case None => Thrown
  }

  // ---------------------------------------------------------------------
  // A parse re-prints to the text it consumed

  lemma {:induction false} ParseFactorPrints(s: string)
    ensures ParseFactor(s).Parsed? ==> FactorText(ParseFactor(s).tree) + ParseFactor(s).rest == s
    decreases |s|
  {
    if |s| > 0 && (s[0] == '-' || s[0] == '+') {
      ParseFactorPrints(s[1..]);
      assert s == [s[0]] + s[1..];
    } else {
      var n := DigitRun(s);
      assert s[..n] + s[n..] == s;
    }
  }

  /** One `* factor` or `/ factor` step re-prints the text it was read
      from. */
  lemma MulStepText(s: string, op: MulOp, f: Factor, next: MulSteps, after: string, rest: string)
    requires |s| > 0 && MulChar(op) == s[0]
    requires FactorText(f) + after == s[1..] && MulStepsText(next) + rest == after
    ensures MulStepsText(MulStep(op, f, next)) + rest == s
  {
    calc {
      MulStepsText(MulStep(op, f, next)) + rest;
      ([s[0]] + (FactorText(f) + MulStepsText(next))) + rest;
      [s[0]] + (FactorText(f) + (MulStepsText(next) + rest));
      [s[0]] + s[1..];
      s;
    }
  }

  /** One `+ term` or `- term` step re-prints the text it was read from. */
  lemma AddStepText(s: string, op: AddOp, t: Term, next: AddSteps, after: string, rest: string)
    requires |s| > 0 && AddChar(op) == s[0]
    requires TermText(t) + after == s[1..] && AddStepsText(next) + rest == after
    ensures AddStepsText(AddStep(op, t, next)) + rest == s
  {
    calc {
      AddStepsText(AddStep(op, t, next)) + rest;
      ([s[0]] + (TermText(t) + AddStepsText(next))) + rest;
      [s[0]] + (TermText(t) + (AddStepsText(next) + rest));
      [s[0]] + s[1..];
      s;
    }
  }

  lemma {:induction false} ParseMulStepsPrints(s: string)
    ensures ParseMulSteps(s).Parsed? ==> MulStepsText(ParseMulSteps(s).tree) + ParseMulSteps(s).rest == s
    decreases |s|
  {
    if |s| > 0 && (s[0] == '*' || s[0] == '/') && ParseFactor(s[1..]).Parsed? {
      var f := ParseFactor(s[1..]).tree;
      var after := ParseFactor(s[1..]).rest;
      ParseFactorPrints(s[1..]);
      ParseMulStepsPrints(after);
      if ParseMulSteps(after).Parsed? {
        var next := ParseMulSteps(after).tree;
        var rest := ParseMulSteps(after).rest;
        var op := if s[0] == '*' then Times else Over;
        assert ParseMulSteps(s) == Parsed(MulStep(op, f, next), rest);
        MulStepText(s, op, f, next, after, rest);
      }
    }
  }

  lemma ParseTermPrints(s: string)
    ensures ParseTerm(s).Parsed? ==> TermText(ParseTerm(s).tree) + ParseTerm(s).rest == s
  {
    if ParseFactor(s).Parsed? {
      ParseFactorPrints(s);
      ParseMulStepsPrints(ParseFactor(s).rest);
    }
  }

  lemma {:induction false} ParseAddStepsPrints(s: string)
    ensures ParseAddSteps(s).Parsed? ==> AddStepsText(ParseAddSteps(s).tree) + ParseAddSteps(s).rest == s
    decreases |s|
  {
    if |s| > 0 && (s[0] == '+' || s[0] == '-') && ParseTerm(s[1..]).Parsed? {
      var t := ParseTerm(s[1..]).tree;
      var after := ParseTerm(s[1..]).rest;
      ParseTermPrints(s[1..]);
      ParseAddStepsPrints(after);
      if ParseAddSteps(after).Parsed? {
        var next := ParseAddSteps(after).tree;
        var rest := ParseAddSteps(after).rest;
        var op := if s[0] == '+' then Plus else Minus;
        assert ParseAddSteps(s) == Parsed(AddStep(op, t, next), rest);
        AddStepText(s, op, t, next, after, rest);
      }
    }
  }

  lemma ParseSumPrints(s: string)
    ensures ParseSum(s).Parsed? ==> SumText(ParseSum(s).tree) + ParseSum(s).rest == s
  {
    if ParseTerm(s).Parsed? {
      ParseTermPrints(s);
      ParseAddStepsPrints(ParseTerm(s).rest);
    }
  }

  // ---------------------------------------------------------------------
  // Printing then parsing gives the tree back

  lemma {:induction false} DigitRunOfNumeral(d: string, rest: string)
    requires DigitsBetween(d, 0, |d|) && EndsNumeral(rest)
    ensures DigitRun(d + rest) == |d|
    decreases |d|
  {
    if d != [] {
      assert (d + rest)[1..] == d[1..] + rest;
      DigitRunOfNumeral(d[1..], rest);
    }
  }

  lemma {:induction false} ParseFactorText(f: Factor, rest: string)
    requires FactorOk(f) && EndsNumeral(rest)
    ensures ParseFactor(FactorText(f) + rest) == Parsed(f, rest)
  {
    match f
    case Numeral(d) =>
      DigitRunOfNumeral(d, rest);
      assert (d + rest)[..|d|] == d;
      assert (d + rest)[|d|..] == rest;
    case Negate(g) =>
      assert (['-'] + FactorText(g) + rest)[1..] == FactorText(g) + rest;
      ParseFactorText(g, rest);
    case Affirm(g) =>
      assert (['+'] + FactorText(g) + rest)[1..] == FactorText(g) + rest;
      ParseFactorText(g, rest);
  }

  /** The text of the steps of a term, followed by something that cannot
      extend the term, cannot extend a numeral either. */
  lemma MulStepsTextEnds(steps: MulSteps, rest: string)
    requires EndsTerm(rest)
    ensures EndsNumeral(MulStepsText(steps) + rest)
  {
    if steps.MulStep? {
      assert (MulStepsText(steps) + rest)[0] == MulChar(steps.op);
    }
  }

  lemma {:induction false} ParseMulStepsText(steps: MulSteps, rest: string)
    requires MulStepsOk(steps) && EndsTerm(rest)
    ensures ParseMulSteps(MulStepsText(steps) + rest) == Parsed(steps, rest)
  {
    match steps
    case MulEnd =>
    case MulStep(op, f, next) =>
      var after := MulStepsText(next) + rest;
      var s := MulStepsText(steps) + rest;
      assert s == [MulChar(op)] + (FactorText(f) + after);
      assert s[1..] == FactorText(f) + after;
      MulStepsTextEnds(next, rest);
      ParseFactorText(f, after);
      ParseMulStepsText(next, rest);
      assert s[0] == MulChar(op) && (if s[0] == '*' then Times else Over) == op;
      assert ParseFactor(s[1..]) == Parsed(f, after);
  }

  lemma ParseTermText(t: Term, rest: string)
    requires TermOk(t) && EndsTerm(rest)
    ensures ParseTerm(TermText(t) + rest) == Parsed(t, rest)
  {
    var after := MulStepsText(t.more) + rest;
    assert TermText(t) + rest == FactorText(t.first) + after;
    MulStepsTextEnds(t.more, rest);
    ParseFactorText(t.first, after);
    ParseMulStepsText(t.more, rest);
  }

  /** The text of the steps of a sum, followed by something that cannot
      extend the sum, cannot extend a term either. */
  lemma AddStepsTextEnds(steps: AddSteps, rest: string)
    requires EndsSum(rest)
    ensures EndsTerm(AddStepsText(steps) + rest)
  {
    if steps.AddStep? {
      assert (AddStepsText(steps) + rest)[0] == AddChar(steps.op);
    }
  }

  lemma {:induction false} ParseAddStepsText(steps: AddSteps, rest: string)
    requires AddStepsOk(steps) && EndsSum(rest)
    ensures ParseAddSteps(AddStepsText(steps) + rest) == Parsed(steps, rest)
  {
    match steps
    case AddEnd =>
    case AddStep(op, t, next) =>
      var after := AddStepsText(next) + rest;
      var s := AddStepsText(steps) + rest;
      assert s == [AddChar(op)] + (TermText(t) + after);
      assert s[1..] == TermText(t) + after;
      AddStepsTextEnds(next, rest);
      ParseTermText(t, after);
      ParseAddStepsText(next, rest);
      assert s[0] == AddChar(op) && (if s[0] == '+' then Plus else Minus) == op;
      assert ParseTerm(s[1..]) == Parsed(t, after);
  }

  lemma ParseSumText(e: Sum, rest: string)
    requires SumOk(e) && EndsSum(rest)
    ensures ParseSum(SumText(e) + rest) == Parsed(e, rest)
  {
    var after := AddStepsText(e.more) + rest;
    assert SumText(e) + rest == TermText(e.first) + after;
    AddStepsTextEnds(e.more, rest);
    ParseTermText(e.first, after);
    ParseAddStepsText(e.more, rest);
  }

  lemma {:induction false} FactorTextNonEmpty(f: Factor)
    requires FactorOk(f)
    ensures FactorText(f) != []
  {
    match f
    case Numeral(d) =>
    case Negate(g) =>
    case Affirm(g) =>
  }

  // ---------------------------------------------------------------------
  // What evaluation means

  /** The text of every well-formed tree evaluates to the tree's value, or
      throws exactly when one of its divisors is zero. */
  lemma EvaluateSumText(e: Sum)
    requires SumOk(e)
    ensures Evaluate(SumText(e)) == match SumValue(e)
                                    case Some(v) => Result(v)
                                    case None => Thrown
  {
    ParseSumText(e, []);
    assert SumText(e) + [] == SumText(e);
    FactorTextNonEmpty(e.first.first);
    assert SumText(e) == FactorText(e.first.first) + (MulStepsText(e.first.more) + AddStepsText(e.more));
  }

  /** Evaluation succeeds exactly on the texts of well-formed trees with no
      zero divisor, and then gives the tree's value: multiplication and
      division bind tighter than addition and subtraction, each level folds
      from the left, and signs apply to the factor they precede. */
  lemma EvaluateMeaning(s: string, v: real)
    ensures Evaluate(s) == Result(v) <==> exists e :: SumOk(e) && SumText(e) == s && SumValue(e) == Some(v)
  {
    if Evaluate(s) == Result(v) {
      var e := ParseSum(s).tree;
      ParseSumPrints(s);
      assert SumText(e) + [] == s;
    }
    if e :| SumOk(e) && SumText(e) == s && SumValue(e) == Some(v) {
      EvaluateSumText(e);
    }
  }

  // ---------------------------------------------------------------------
  // Examples

  /** A numeral on its own, as a term with no steps. */
  function Lone(d: string): Term {
    Term(Numeral(d), MulEnd)
  }

  /** The sum of two digits, such as `1+1`. */
  lemma EvaluatesDigitSum(a: char, b: char)
    requires IsDigit(a) && IsDigit(b)
    ensures Evaluate([a, '+', b]) == Result((DigitValue(a) + DigitValue(b)) as real)
  {
    var e := Sum(Lone([a]), AddStep(Plus, Lone([b]), AddEnd));
    assert TermText(Lone([a])) == [a] && TermText(Lone([b])) == [b];
    assert AddStepsText(e.more) == ['+'] + ([b] + "");
    assert SumText(e) == [a] + ['+'] + [b];
    assert [a] + ['+'] + [b] == [a, '+', b];
    assert SumOk(e);
    assert DigitsValue([a]) == DigitValue(a) by { assert [a][..0] == []; }
    assert DigitsValue([b]) == DigitValue(b) by { assert [b][..0] == []; }
    assert TermValue(Lone([a])) == Some(DigitValue(a) as real);
    assert TermValue(Lone([b])) == Some(DigitValue(b) as real);
    assert AddFold(DigitValue(a) as real + DigitValue(b) as real, AddEnd) == Some((DigitValue(a) + DigitValue(b)) as real);
    assert AddFold(DigitValue(a) as real, e.more) == Some((DigitValue(a) + DigitValue(b)) as real);
    EvaluateSumText(e);
  }

  lemma EvaluatesSubtraction()
    ensures Evaluate("11-12") == Result(-1.0)
  {
    var e := Sum(Lone("11"), AddStep(Minus, Lone("12"), AddEnd));
    assert SumText(e) == "11-12";
    assert SumOk(e);
    assert DigitsValue("11") == 11 by { assert "11"[..1] == "1"; }
    assert DigitsValue("12") == 12 by { assert "12"[..1] == "1"; }
    assert SumValue(e) == Some(-1.0);
    EvaluateSumText(e);
  }

  /** Unary minus on the right operand of `*`. */
  lemma EvaluatesNegativeFactor()
    ensures Evaluate("11*-12") == Result(-132.0)
  {
    var e := Sum(Term(Numeral("11"), MulStep(Times, Negate(Numeral("12")), MulEnd)), AddEnd);
    assert SumText(e) == "11*-12";
    assert SumOk(e);
    assert DigitsValue("11") == 11 by { assert "11"[..1] == "1"; }
    assert DigitsValue("12") == 12 by { assert "12"[..1] == "1"; }
    assert SumValue(e) == Some(-132.0);
    EvaluateSumText(e);
  }

  lemma EvaluatesDivision()
    ensures Evaluate("144/12") == Result(12.0)
  {
    var e := Sum(Term(Numeral("144"), MulStep(Over, Numeral("12"), MulEnd)), AddEnd);
    assert SumText(e) == "144/12";
    assert SumOk(e);
    assert DigitsValue("144") == 144 by { assert "144"[..2] == "14"; assert "14"[..1] == "1"; }
    assert DigitsValue("12") == 12 by { assert "12"[..1] == "1"; }
    assert SumValue(e) == Some(12.0);
    EvaluateSumText(e);
  }

  /** `*` and `/` bind tighter than `+`. */
  lemma EvaluatesMixedPrecedence()
    ensures Evaluate("1/1*2*2+3*22") == Result(70.0)
  {
    var left := Term(Numeral("1"), MulStep(Over, Numeral("1"), MulStep(Times, Numeral("2"), MulStep(Times, Numeral("2"), MulEnd))));
    var right := Term(Numeral("3"), MulStep(Times, Numeral("22"), MulEnd));
    var e := Sum(left, AddStep(Plus, right, AddEnd));
    assert SumText(e) == "1/1*2*2+3*22";
    assert SumOk(e);
    assert DigitsValue("22") == 22 by { assert "22"[..1] == "2"; }
    assert TermValue(left) == Some(4.0);
    assert TermValue(right) == Some(66.0);
    assert SumValue(e) == Some(70.0);
    EvaluateSumText(e);
  }

  /** Exact rational results: 3*2-1/5 is 29/5. */
  lemma EvaluatesFraction()
    ensures Evaluate("3*2-1/5") == Result(29.0 / 5.0)
  {
    var left := Term(Numeral("3"), MulStep(Times, Numeral("2"), MulEnd));
    var right := Term(Numeral("1"), MulStep(Over, Numeral("5"), MulEnd));
    var e := Sum(left, AddStep(Minus, right, AddEnd));
    assert SumText(e) == "3*2-1/5";
    assert SumOk(e);
    assert TermValue(left) == Some(6.0);
    assert TermValue(right) == Some(1.0 / 5.0);
    assert SumValue(e) == Some(29.0 / 5.0);
    EvaluateSumText(e);
  }

  /** A quotient is not rounded: 5/3 stays 5/3. */
  lemma EvaluatesRepeatingQuotient()
    ensures Evaluate("5/3") == Result(5.0 / 3.0)
  {
    var e := Sum(Term(Numeral("5"), MulStep(Over, Numeral("3"), MulEnd)), AddEnd);
    assert SumText(e) == "5/3";
    assert SumOk(e);
    assert SumValue(e) == Some(5.0 / 3.0);
    EvaluateSumText(e);
  }

  /** A zero divisor throws, whatever its sign. */
  lemma ZeroDivisorThrows()
    ensures Evaluate("1/-0") == Thrown
  {
    var e := Sum(Term(Numeral("1"), MulStep(Over, Negate(Numeral("0")), MulEnd)), AddEnd);
    assert SumText(e) == "1/-0";
    EvaluateSumText(e);
  }

  /** A dangling operator is a syntax error. */
  lemma DanglingOperatorThrows()
    ensures Evaluate("1+") == Thrown
  {
    assert ParseAddSteps("+") == Error;
  }
}
