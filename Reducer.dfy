/**
 * The component's `reducer`: one transition of the state `{value}` for an
 * action `{type, value?}`. Before it switches on the type it replaces a
 * missing action value and a missing state value by "" (the `??`
 * assignments write into both objects). `KEY_PRESSED` appends the key
 * text, `EQUALS_PRESSED` stores whatever `calculateExpression` returns (a
 * number or `undefined`, never text), `CLEAR` empties the value, and any
 * other type returns the state object itself.
 *
 * The template literal turns a number into text with JavaScript's
 * number-to-string conversion, which is a parameter `show` here.
 */
module Reducer {
  import opened Wrappers
  import opened Expression

  const KeyPressed: string := "KEY_PRESSED"
  const EqualsPressed: string := "EQUALS_PRESSED"
  const ClearPressed: string := "CLEAR"

  datatype Action = Action(kind: string, value: Option<string>)

  datatype State = State(value: Value)

  /** The reducer's answer: the next state, or the TypeError that escapes
      it when `=` is pressed on a non-zero number. */
  datatype Step = Next(state: State) | Crash

  /** `${v}`: the text a value turns into inside a template literal. */
  function Shown(v: Value, show: real -> string): string {
    match v
    case Str(s) => s
    case Num(n) => show(n)
    case Undef => "undefined"
  }

  /** `state.value ?? ''`. */
  function OrEmpty(v: Value): (r: Value)
    ensures v == Undef ==> r == Str("")
    ensures v != Undef ==> r == v
  {
    if v == Undef then Str("") else v
  }

  function Reduce(state: State, action: Action, show: real -> string): (r: Step)
    ensures r == Crash <==> action.kind == EqualsPressed && state.value.Num? && state.value.n != 0.0
    ensures r.Next? && r.state.value.Undef? ==> action.kind == EqualsPressed
  {
    var key := action.value.GetOr("");
    var v := OrEmpty(state.value);
    if action.kind == KeyPressed then
      Next(State(Str(Shown(v, show) + key)))
    else if action.kind == EqualsPressed then
      match Calculate(v)
      case Threw => Crash
      case Returned(result) => Next(State(result))
    else if action.kind == ClearPressed then
      Next(State(Str("")))
    else
      Next(State(v))
  }

  /** Whether the transition writes an error to the console. */
  predicate ReduceLogs(state: State, action: Action) {
    action.kind == EqualsPressed && LogsError(OrEmpty(state.value))
  }

  /** Dispatches a list of actions in turn; a crash ends the run. */
  function Run(state: State, actions: seq<Action>, show: real -> string): Step
    decreases |actions|
  {
    if actions == [] then Next(state)
    else
      match Reduce(state, actions[0], show)
      case Crash => Crash
      case Next(s) => Run(s, actions[1..], show)
  }

  /** One `KEY_PRESSED` action per key. */
  function PressAll(keys: seq<string>): (r: seq<Action>)
    ensures |r| == |keys|
    ensures forall i :: 0 <= i < |keys| ==> r[i] == Action(KeyPressed, Some(keys[i]))
  {
    if keys == [] then [] else [Action(KeyPressed, Some(keys[0]))] + PressAll(keys[1..])
  }

  /** The keys joined into one string. */
  function Concat(keys: seq<string>): string {
    if keys == [] then "" else keys[0] + Concat(keys[1..])
  }

  // ---------------------------------------------------------------------
  // Properties

  /** `KEY_PRESSED` appends the key to the text shown (a missing value
      counting as ""), and appends nothing when the action has no value. */
  lemma KeyPressedAppends(v: Value, key: Option<string>, show: real -> string)
    ensures Reduce(State(v), Action(KeyPressed, key), show)
         == Next(State(Str((if v == Undef then "" else Shown(v, show)) + key.GetOr(""))))
    ensures key == None && v.Str? ==> Reduce(State(v), Action(KeyPressed, key), show) == Next(State(v))
  {
    if key == None && v.Str? {
      assert v.s + "" == v.s;
    }
  }

  /** Typing keys one after another appends all of them, in order. */
  lemma {:induction false} TypingConcatenates(s: string, keys: seq<string>, show: real -> string)
    ensures Run(State(Str(s)), PressAll(keys), show) == Next(State(Str(s + Concat(keys))))
    decreases |keys|
  {
    if keys == [] {
      assert s + "" == s;
    } else {
      var actions := PressAll(keys);
      assert actions[1..] == PressAll(keys[1..]);
      assert Reduce(State(Str(s)), actions[0], show) == Next(State(Str(s + keys[0])));
      TypingConcatenates(s + keys[0], keys[1..], show);
      assert s + keys[0] + Concat(keys[1..]) == s + Concat(keys);
    }
  }

  /** `CLEAR` empties the value whatever it was, so clearing twice is the
      same as clearing once. */
  lemma ClearEmpties(state: State, value: Option<string>, show: real -> string)
    ensures Reduce(state, Action(ClearPressed, value), show) == Next(State(Str("")))
    ensures Run(state, [Action(ClearPressed, value), Action(ClearPressed, value)], show)
         == Run(state, [Action(ClearPressed, value)], show)
  {
    var twice := [Action(ClearPressed, value), Action(ClearPressed, value)];
    assert twice[1..] == [Action(ClearPressed, value)];
    assert [Action(ClearPressed, value)][1..] == [];
  }

  /** `EQUALS_PRESSED` stores `calculateExpression(value)`: a number or
      `undefined`, never text; it logs exactly when that call logs. */
  lemma EqualsStoresResult(state: State, value: Option<string>, show: real -> string)
    requires Calculate(OrEmpty(state.value)).Returned?
    ensures Reduce(state, Action(EqualsPressed, value), show)
         == Next(State(Calculate(OrEmpty(state.value)).value))
    ensures !Reduce(state, Action(EqualsPressed, value), show).state.value.Str?
    ensures ReduceLogs(state, Action(EqualsPressed, value)) == LogsError(OrEmpty(state.value))
  {
  }

  /** An unknown type returns the state, whose missing value has been
      replaced by "": a text or number value is left as it is. */
  lemma UnknownActionKeepsState(state: State, action: Action, show: real -> string)
    requires action.kind != KeyPressed && action.kind != EqualsPressed && action.kind != ClearPressed
    ensures Reduce(state, action, show) == Next(State(OrEmpty(state.value)))
    ensures state.value != Undef ==> Reduce(state, action, show) == Next(state)
    ensures !ReduceLogs(state, action)
  {
  }

  /** Pressing `=` on a result that is not zero throws: the number has no
      `replace`. Pressing it on a zero result gives `undefined`. */
  lemma EqualsOnResult(n: real, value: Option<string>, show: real -> string)
    ensures n != 0.0 ==> Reduce(State(Num(n)), Action(EqualsPressed, value), show) == Crash
    ensures n == 0.0 ==> Reduce(State(Num(n)), Action(EqualsPressed, value), show) == Next(State(Undef))
  {
  }

  /** After a result, the next key continues the text of the number. */
  lemma KeyAfterResult(n: real, key: string, show: real -> string)
    ensures Reduce(State(Num(n)), Action(KeyPressed, Some(key)), show) == Next(State(Str(show(n) + key)))
  {
  }

  // ---------------------------------------------------------------------
  // A session

  /** Typing `1`, `+`, `2` shows `1+2`. */
  lemma TypesOnePlusTwo(show: real -> string)
    ensures Run(State(Str("")), PressAll(["1", "+", "2"]), show) == Next(State(Str("1+2")))
  {
    var keys := ["1", "+", "2"];
    assert Concat(keys) == "1+2" by {
      assert keys[1..] == ["+", "2"];
      assert keys[1..][1..] == ["2"];
      assert keys[1..][1..][1..] == [];
    }
    TypingConcatenates("", keys, show);
    assert "" + "1+2" == "1+2";
  }

  /** `=` on the text `1+2` stores the number 3. */
  lemma EqualsOnOnePlusTwo(show: real -> string)
    ensures Reduce(State(Str("1+2")), Action(EqualsPressed, None), show) == Next(State(Num(3.0)))
  {
    CalculatesDigitSum('1', '2');
    assert ['1', '+', '2'] == "1+2";
  }

  /** Then `=` shows 3. */
  lemma OnePlusTwoEquals(show: real -> string)
    ensures Run(State(Str("")), PressAll(["1", "+", "2"]) + [Action(EqualsPressed, None)], show)
         == Next(State(Num(3.0)))
  {
    var equals := Action(EqualsPressed, None);
    assert Run(State(Str("1+2")), [equals], show) == Next(State(Num(3.0))) by {
      EqualsOnOnePlusTwo(show);
      assert [equals][1..] == [];
    }
    TypesOnePlusTwo(show);
    RunAppend(State(Str("")), PressAll(["1", "+", "2"]), [equals], show);
  }

  /** And `C` after that empties the display again. */
  lemma OnePlusTwoEqualsClear(show: real -> string)
    ensures Run(State(Str("")), PressAll(["1", "+", "2"]) + [Action(EqualsPressed, None), Action(ClearPressed, None)], show)
         == Next(State(Str("")))
  {
    var typed := PressAll(["1", "+", "2"]) + [Action(EqualsPressed, None)];
    var clear := Action(ClearPressed, None);
    OnePlusTwoEquals(show);
    RunAppend(State(Str("")), typed, [clear], show);
    assert [clear][1..] == [];
    assert typed + [clear] == PressAll(["1", "+", "2"]) + [Action(EqualsPressed, None), clear];
  }

  /** Running two lists of actions one after the other. */
  lemma {:induction false} RunAppend(state: State, first: seq<Action>, second: seq<Action>, show: real -> string)
    ensures Run(state, first + second, show)
         == match Run(state, first, show)
            case Crash => Crash
            case Next(s) => Run(s, second, show)
    decreases |first|
  {
    if first == [] {
      assert first + second == second;
    } else {
      assert (first + second)[0] == first[0];
      assert (first + second)[1..] == first[1..] + second;
      match Reduce(state, first[0], show)
      case Crash =>
      case Next(s) => RunAppend(s, first[1..], second, show);
    }
  }
}
