# Calculator core, modelled in Dafny

This project models the logic of the `Calculator` React component in
`src/Calculator.tsx`, which is a four-function calculator. The display holds
the text typed so far. `=` hands that text to `calculateExpression`, and the
result becomes the new display value.

Modules:

- `JsString` models the two helpers `getLastChar` and `isNumber`.
  - `isNumber(str)` is `!isNaN(Number(str))`, so it is written out as
    ECMAScript's StringNumericLiteral grammar: white-space trimming, decimal
    literals with fraction and exponent, `Infinity`, and `0b`/`0o`/`0x`
    integers. `IsNumber` is defined for every string.
  - The lemma `IsNumberOfChar` says what `IsNumber` means for one
    character: a digit or a white-space character.
- `MathSubset` is the expression evaluator `calculateExpression` calls
  (`evaluate` from mathjs), restricted to the syntax the calculator
  produces.
  - Syntax: decimal numerals, unary `-` and `+`, and `+ - * /`. `*` and `/`
    bind tighter than `+` and `-`, each level folds from the left, and
    numbers are exact rationals.
  - It parses the text into a syntax tree and then computes the tree's
    value. Parser and printer are proved inverse in both directions.
- `Expression` models `calculateExpression` in two forms:
  - a method with a ghost console that counts `console.error` calls, and
  - the function `Calculate`, which is its specification.

  It has four steps, in this order:
  1. An exit for an empty input.
  2. Glyph normalisation: `×` and `x` become `*`, and `÷` becomes `/`.
  3. A purely textual `/0` guard.
  4. Removal of one trailing non-numeric character.
- `Reducer` models the `reducer`.
  - After `=` the state holds a number or `undefined`, not text.
  - The next key appends to the number's text form.
  - `=` on a non-zero number throws, because a number has no `replace`.
    So pressing `=` twice after a non-zero result crashes the component.
- `Keyboard` models the keydown handler's choice between appending the
  key, clearing, evaluating and ignoring.
  - The three regular expressions are unanchored.
  - Any key name that contains a lower-case `c` and no character of
    `[x0-9+-/]` clears, for example `CapsLock`.
  - A function key such as `F1` types its own name.
  - The `*` key does nothing.
- `Component` holds the component's state cell: a class whose `Dispatch`
  and `KeyDown` methods change `value` as the reducer says.

Behaviours of the code that are easy to miss, all modelled as written:

- **Result type after `=`:** the value becomes the number itself, or
  `undefined`, not its display text.
- **Reducer totality:** `=` on a non-zero number throws, because a number
  has no `replace`; the exception escapes the reducer.
- **`/00`:** `/00` contains `/0`, so the divide-by-zero guard catches it,
  as it does `/05`.
- **Clear keys:** any key name that contains a lower-case `c` and no
  character of `[x0-9+-/]` clears, not only `Escape`, `Backspace` and `c`.
- **State update:** the reducer writes `''` into a missing `state.value`
  (and into a missing `action.value`) before it switches on the type.

## Model

| member | source | states |
|---|---|---|
| JsString.LastChar | src/Calculator.tsx:12 | the result is "" exactly for "", otherwise the last character, and the string is its prefix followed by the result |
| JsString.TrimStart | src/Calculator.tsx:13 | `Number` first strips leading white space: the result is no longer than the input and does not start with white space |
| JsString.TrimEnd | src/Calculator.tsx:13 | `Number` also strips trailing white space: the result is no longer than the input and does not end with white space |
| JsString.TrimStartMeaning | src/Calculator.tsx:13 | what the leading strip keeps is a suffix of the input, and every character it drops is white space |
| JsString.TrimEndMeaning | src/Calculator.tsx:13 | what the trailing strip keeps is a prefix of the input, and every character it drops is white space |
| JsString.FirstPoint | src/Calculator.tsx:13 | the index found holds the first `.` of the range, or is the range's end when there is none |
| JsString.FirstExponent | src/Calculator.tsx:13 | the index found holds the first `e` or `E` from the start index on, or is the length when there is none |
| JsString.MantissaMeaning | src/Calculator.tsx:13 | reading the mantissa at its first `.` accepts exactly the grammar's mantissas: digits, or digits around some `.` with at least one digit in all, in both directions |
| JsString.MantissaHasNoExponent | src/Calculator.tsx:13 | no character of a mantissa is an exponent indicator |
| JsString.UnsignedDecimalMeaning | src/Calculator.tsx:13 | reading the exponent at its first `e`/`E` accepts exactly the grammar's unsigned decimals: `Infinity`, a mantissa, or a mantissa, `e`/`E` and a signed integer split at some index, in both directions |
| JsString.NumberWithoutPadding | src/Calculator.tsx:13 | for text without surrounding white space, `isNumber` is exactly the numeric-literal grammar |
| JsString.EmptyIsNumber | src/Calculator.tsx:13 | `Number("")` is 0, so "" counts as a number |
| JsString.NumericLiteralOfChar | src/Calculator.tsx:13 | the only one-character numeric literals are the ten digits |
| JsString.TrimOfChar | src/Calculator.tsx:13 | a lone white-space character trims to "", and any other character is kept |
| JsString.WhiteSpaceCharIsNumber | src/Calculator.tsx:13 | a lone white-space character converts to 0, so it is a number |
| JsString.OtherCharIsNumber | src/Calculator.tsx:13 | any other lone character is a number if and only if it is a decimal digit |
| JsString.IsNumberOfChar | src/Calculator.tsx:13 | a one-character string is a number if and only if the character is a digit or white space |
| JsString.IsNumberOfLastChar | src/Calculator.tsx:12-13 | `isNumber(getLastChar(s))` holds if and only if s is empty or its last character is a digit or white space |
| JsString.ExponentNumeralIsNumber | src/Calculator.tsx:13 | a signed decimal with a fraction and an exponent ("-1.5e3") is a number |
| JsString.HexNumeralIsNumber | src/Calculator.tsx:13 | a hexadecimal literal ("0x1F") is a number |
| JsString.ExpressionIsNotNumber | src/Calculator.tsx:13 | an arithmetic expression ("1+1") is not a number |
| MathSubset.DigitRun | src/Calculator.tsx:37 | a numeral is the longest run of leading digits: all of it is digits, and the next character is not one |
| MathSubset.ParseFactor | src/Calculator.tsx:37 | a parsed factor consumed a non-empty prefix, is a well-formed tree, and cannot be extended by a digit |
| MathSubset.ParseMulSteps | src/Calculator.tsx:37 | the `*`/`/` steps consume a prefix, are well formed, and stop where no `*`, `/` or digit can follow |
| MathSubset.ParseTerm | src/Calculator.tsx:37 | a parsed term consumed a non-empty prefix, is well formed, and stops where the term cannot go on |
| MathSubset.ParseAddSteps | src/Calculator.tsx:37 | the `+`/`-` steps consume a prefix, are well formed, and stop where the sum cannot go on |
| MathSubset.ParseSum | src/Calculator.tsx:37 | a parsed sum consumed a non-empty prefix, is well formed, and stops where no operator or digit can follow |
| MathSubset.ParseFactorPrints | src/Calculator.tsx:37 | a parsed factor prints back to exactly the text it consumed |
| MathSubset.MulStepText | src/Calculator.tsx:37 | one `*`/`/` step whose factor and remaining steps print back to their text prints back to the operator followed by that text |
| MathSubset.ParseMulStepsPrints | src/Calculator.tsx:37 | parsed `*`/`/` steps print back to exactly the text they consumed |
| MathSubset.ParseTermPrints | src/Calculator.tsx:37 | a parsed term prints back to exactly the text it consumed |
| MathSubset.AddStepText | src/Calculator.tsx:37 | one `+`/`-` step whose term and remaining steps print back to their text prints back to the operator followed by that text |
| MathSubset.ParseAddStepsPrints | src/Calculator.tsx:37 | parsed `+`/`-` steps print back to exactly the text they consumed |
| MathSubset.ParseSumPrints | src/Calculator.tsx:37 | a parsed sum prints back to exactly the text it consumed |
| MathSubset.DigitRunOfNumeral | src/Calculator.tsx:37 | the digit run of a numeral followed by a non-digit is exactly the numeral |
| MathSubset.ParseFactorText | src/Calculator.tsx:37 | the printed text of every well-formed factor parses back to that factor |
| MathSubset.MulStepsTextEnds | src/Calculator.tsx:37 | the text of the `*`/`/` steps, followed by text that ends a term, cannot extend a numeral |
| MathSubset.ParseMulStepsText | src/Calculator.tsx:37 | the printed text of every list of `*`/`/` steps parses back to that list |
| MathSubset.ParseTermText | src/Calculator.tsx:37 | the printed text of every well-formed term parses back to that term |
| MathSubset.AddStepsTextEnds | src/Calculator.tsx:37 | the text of the `+`/`-` steps, followed by text that ends a sum, cannot extend a term |
| MathSubset.ParseAddStepsText | src/Calculator.tsx:37 | the printed text of every list of `+`/`-` steps parses back to that list |
| MathSubset.ParseSumText | src/Calculator.tsx:37 | the printed text of every well-formed sum parses back to that sum |
| MathSubset.FactorTextNonEmpty | src/Calculator.tsx:37 | no well-formed factor prints as "" |
| MathSubset.EvaluateSumText | src/Calculator.tsx:37 | the text of every well-formed tree evaluates to the tree's value, or throws exactly when a divisor is zero |
| MathSubset.EvaluateMeaning | src/Calculator.tsx:37 | evaluation returns v if and only if the text is the print of a well-formed tree whose value is v (precedence, left folding, unary signs) |
| MathSubset.EvaluatesDigitSum | src/Calculator.test.tsx:154-158 | the sum of two digits, such as "1+1", evaluates to the sum of their values |
| MathSubset.EvaluatesSubtraction | src/Calculator.test.tsx:163 | "11-12" evaluates to -1 |
| MathSubset.EvaluatesNegativeFactor | src/Calculator.test.tsx:169 | "11*-12" evaluates to -132 (unary minus on the right operand) |
| MathSubset.EvaluatesDivision | src/Calculator.test.tsx:175 | "144/12" evaluates to 12 |
| MathSubset.EvaluatesMixedPrecedence | src/Calculator.test.tsx:184 | "1/1*2*2+3*22" evaluates to 70 |
| MathSubset.EvaluatesFraction | src/Calculator.test.tsx:105-131 | "3*2-1/5" evaluates to exactly 29/5 |
| MathSubset.EvaluatesRepeatingQuotient | src/Calculator.test.tsx:253-262 | "5/3" evaluates to exactly 5/3 |
| MathSubset.ZeroDivisorThrows | src/Calculator.tsx:37 | a signed zero divisor ("1/-0") that passes the textual guard makes the evaluator throw |
| MathSubset.DanglingOperatorThrows | src/Calculator.tsx:37 | an operator with nothing after it ("1+") is a syntax error |
| Expression.Console.constructor | src/Calculator.tsx:41 | a fresh console has no errors |
| Expression.Console.Error | src/Calculator.tsx:41 | `console.error` adds exactly one error |
| Expression.ReplaceChars | src/Calculator.tsx:24 | a global `replace` keeps the length and replaces exactly the characters of the pattern, position by position |
| Expression.HasDivideByZero | src/Calculator.tsx:22-29 | the guard's test holds if and only if some `/` is immediately followed by `0` |
| Expression.DropLast | src/Calculator.tsx:34 | `slice(0, -1)` removes exactly the last character, and leaves "" as "" |
| Expression.Calculate | src/Calculator.tsx:15-44 | the call throws exactly for a non-zero number, and otherwise returns a number or `undefined`, never text |
| Expression.CalculateExpression | src/Calculator.tsx:15-44 | the method returns what `Calculate` specifies and logs exactly one error when `LogsError` holds, none otherwise |
| Expression.NormalizeMeaning | src/Calculator.tsx:20-24 | normalisation keeps the length, maps `×` and `x` to `*` and `÷` to `/`, leaves every other character alone, and no such glyph remains |
| Expression.NormalizeSnoc | src/Calculator.tsx:24 | normalising text with one more character appends that character's normal form |
| Expression.EmptyExpression | src/Calculator.tsx:16-18 | "", `undefined` and 0 give `undefined` and log nothing |
| Expression.LoggedErrorIsUndefined | src/Calculator.tsx:40-42 | whenever an error is logged, the result is `undefined` |
| Expression.DivideByZeroGuard | src/Calculator.tsx:27-29 | if the normalised text contains `/0` anywhere, the result is `undefined` with an error logged, whatever follows |
| Expression.TrimTrailingMeaning | src/Calculator.tsx:31-35 | the trim leaves text alone when it is empty or ends in a numeric character, and otherwise removes exactly the last character |
| Expression.GuardIgnoresLastChar | src/Calculator.tsx:27-35 | appending a character that does not normalise to `0` neither creates nor removes a `/0` |
| Expression.TrimRemovesLastChar | src/Calculator.tsx:31-35 | a last character that normalises to a non-numeric one is the one the trim removes |
| Expression.TrimKeepsNumericEnd | src/Calculator.tsx:31-35 | empty text, or text ending in a numeric character, is not trimmed |
| Expression.TrailingOperatorIgnored | src/Calculator.tsx:31-35 | a trailing non-numeric character after "" or after a numeric character changes neither the result nor the logging |
| Expression.PlainText | src/Calculator.tsx:24-37 | text that is already normal, ends in a digit and has no `/0` reaches the evaluator unchanged |
| Expression.CalculatesDigitSum | src/Calculator.test.tsx:154-158 | the sum of two digits, such as "1+1", gives their sum |
| Expression.CalculatesDifference | src/Calculator.test.tsx:163 | "11-12" gives -1 |
| Expression.GlyphText | src/Calculator.tsx:20-37 | text with calculator glyphs is evaluated in its normalised form |
| Expression.CalculatesProduct | src/Calculator.test.tsx:169 | "11×-12" gives -132 |
| Expression.CalculatesQuotient | src/Calculator.test.tsx:175 | "144÷12" gives 12 |
| Expression.CalculatesMixedOperators | src/Calculator.test.tsx:184 | "1÷1×2×2+3×22" gives 70 |
| Expression.CalculatesTrailingOperator | src/Calculator.test.tsx:188 | "1÷1×2×2+3×22+" gives 70 as well |
| Expression.TrailingPlusIgnored | src/Calculator.tsx:31-35 | a `+` typed after text that is empty or ends in a digit or white space leaves the result unchanged |
| Expression.CalculatesFraction | src/Calculator.test.tsx:105-131 | the text "3×2-1÷5" that the test's clicks type gives exactly 29/5, the 5.8 it expects |
| Expression.CalculatesRepeatingQuotient | src/Calculator.test.tsx:253-262 | the text "5/3" that the test's keys type gives exactly 5/3, which the display rounds to 1.6666666666666667 |
| Expression.DividesByZeroGlyph | src/Calculator.test.tsx:178-182 | "1÷0" gives `undefined` and logs an error |
| Expression.DividesByLeadingZero | src/Calculator.tsx:22-29 | "1/05" gives `undefined` and logs an error, although its divisor is 5 |
| Reducer.OrEmpty | src/Calculator.tsx:152 | `?? ''` turns `undefined` into "" and keeps any other value |
| Reducer.Reduce | src/Calculator.tsx:150-170 | the reducer throws exactly for `EQUALS_PRESSED` on a non-zero number, and only `EQUALS_PRESSED` can leave the value `undefined` |
| Reducer.PressAll | src/Calculator.tsx:61-62 | one `KEY_PRESSED` action per key, carrying that key, in order |
| Reducer.KeyPressedAppends | src/Calculator.tsx:151-158 | `KEY_PRESSED` appends the key to the displayed text (missing value counting as ""), and a missing key leaves text unchanged |
| Reducer.TypingConcatenates | src/Calculator.tsx:155-158 | typing a sequence of keys appends all of them, in order |
| Reducer.ClearEmpties | src/Calculator.tsx:163-166 | `CLEAR` empties the value from any state, so clearing twice equals clearing once |
| Reducer.EqualsStoresResult | src/Calculator.tsx:159-162 | `EQUALS_PRESSED` stores the result of `calculateExpression`, never text, and logs exactly when that call logs |
| Reducer.UnknownActionKeepsState | src/Calculator.tsx:167-168 | an unknown type returns the state, with a missing value turned into "", and logs nothing |
| Reducer.EqualsOnResult | src/Calculator.tsx:15-24 | `=` on a result crashes when the result is not zero, and gives `undefined` when it is zero |
| Reducer.KeyAfterResult | src/Calculator.tsx:157 | after a result, a key continues the result's text |
| Reducer.TypesOnePlusTwo | src/Calculator.test.tsx:52-64 | typing 1, +, 2 shows "1+2" |
| Reducer.EqualsOnOnePlusTwo | src/Calculator.tsx:150-170 | `EQUALS_PRESSED` on the text "1+2" stores the number 3 |
| Reducer.OnePlusTwoEquals | src/Calculator.test.tsx:86-104 | then `=` shows 3 |
| Reducer.OnePlusTwoEqualsClear | src/Calculator.test.tsx:132-150 | and `C` after that empties the display |
| Reducer.RunAppend | src/Calculator.tsx:47 | dispatching two lists of actions one after the other is dispatching their concatenation |
| Keyboard.MatchesAppend | src/Calculator.tsx:58-62 | the class test holds if and only if some character of the key is `x`, a digit, or in the range `+`..`/` |
| Keyboard.Contains | src/Calculator.tsx:59-60 | an unanchored literal match holds if and only if the pattern occurs at some index of the key |
| Keyboard.KeyToAction | src/Calculator.tsx:61-67 | an action is dispatched exactly when some test matches: an appending key gives `KEY_PRESSED` carrying the key itself, a clearing key `CLEAR` without a value, an evaluating key `EQUALS_PRESSED` without a value, each if and only if |
| Keyboard.ContainsChar | src/Calculator.tsx:59-60 | a one-character pattern matches exactly when that character occurs |
| Keyboard.ClearMeansLetterC | src/Calculator.tsx:59-64 | the clear pattern (`Escape`, `Backspace` or `c`) matches exactly the keys that contain a lower-case `c` |
| Keyboard.ClassifyMeaning | src/Calculator.tsx:58-67 | append if some class character occurs; else clear if a `c` occurs; else evaluate if `Enter` or `=` occurs; else ignore (each an if-and-only-if) |
| Keyboard.TypingKeys | src/Calculator.test.tsx:196-262 | "5", "3", "x", "/", "+" and "-" are typed |
| Keyboard.ClearingKeys | src/Calculator.test.tsx:273-317 | "c", "Escape" and "Backspace" clear |
| Keyboard.ClearsWith | src/Calculator.tsx:59-64 | a key with a `c` and no class character clears |
| Keyboard.EvaluatingKeys | src/Calculator.test.tsx:223-272 | "Enter" and "=" evaluate |
| Keyboard.IgnoredKeys | src/Calculator.tsx:58-67 | "*" and "C" are ignored |
| Keyboard.LongKeyNames | src/Calculator.tsx:58-62 | "F1" types the text "F1", and "CapsLock" clears |
| Component.Calculator.constructor | src/Calculator.tsx:47-49 | the cell starts with the value "" |
| Component.Calculator.Dispatch | src/Calculator.tsx:150-170 | the new value is the reducer's next state, a throw marks the component crashed, the console gains exactly the reducer's log, and a crashed component takes no more actions |
| Component.Calculator.KeyDown | src/Calculator.tsx:56-67 | a key with an action dispatches it as `Dispatch` says, and any other key changes nothing |

## Left out

- Rendering (JSX, the button grid, CSS, the keyboard hints) is not modelled. It is presentation only.
- The effects, listener registration and `event.preventDefault` are not modelled. They are browser plumbing; only the handler's decision and its dispatch are kept.
- Number-to-string conversion is the parameter `show` of the reducer and the component. It is not defined here, so the floating-point text of results such as "1.6666666666666667" and "5.8" is not captured.
- Floating point: numbers are exact rationals (`real`), so IEEE-754 rounding, `NaN` and `Infinity` results are not modelled.
- MathSubset.Evaluate: covers only decimal integer numerals, unary `-` and `+`, and `+ - * /`. Everything else throws in the model: fractions such as "1.5" (reachable, since `.` and `,` are typeable keys), white space, parentheses, and the rest of the mathjs language. mathjs accepts several of these.
- MathSubset.Evaluate: a zero divisor throws, where mathjs divides to an infinity. The textual guard catches every unsigned zero divisor first, so this differs only for a signed zero such as "1/-0" (see `MathSubset.ZeroDivisorThrows`).
- Expression.Calculate: inputs that are neither text, a number nor `undefined` (other falsy values such as `NaN`) are not modelled.
- The contents of the console messages are not modelled; only the number of `console.error` calls is counted.
- The reducer also writes `''` into a missing `action.value`. No one reads the action object afterwards, so the model keeps that value local.
- After an exception escapes the reducer, React unmounts the component. The model records this as `crashed`, after which the cell ignores further actions.
- Strings are sequences of code points, not UTF-16 code units. The glyphs `×` and `÷` are single units either way.
