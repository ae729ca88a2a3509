/**
 * The `Calculator` component's state cell: the `value` that `useReducer`
 * holds, updated by `dispatch`, and the keydown handler that dispatches
 * the action a key stands for. The reducer writes `''` into the current
 * state object before it switches on the action type, so that write is a
 * write to the cell itself here. An exception escaping the reducer
 * unmounts the component; the cell records it in `crashed` and takes no
 * more actions.
 */
module Component {
  import opened Wrappers
  import opened Expression
  import opened Reducer
  import opened Keyboard

  class Calculator {
    var value: Value
    var crashed: bool
    /** JavaScript's number-to-string conversion. */
    const show: real -> string
    const console: Console

    /** `useReducer(reducer, { value: "" })`. */
    constructor(show: real -> string, console: Console)
      ensures value == Str("") && !crashed
      ensures this.show == show && this.console == console
    {
      value := Str("");
      crashed := false;
      this.show := show;
      this.console := console;
    }

    /** `dispatch(action)`: runs the reducer on the current state. */
    method Dispatch(action: Action)
      modifies this, console
      ensures old(crashed) ==> crashed && value == old(value)
      ensures !old(crashed) ==> (crashed <==> Reduce(State(old(value)), action, show) == Crash)
      ensures !old(crashed) && !crashed ==> Reduce(State(old(value)), action, show) == Next(State(value))
      ensures crashed && !old(crashed) ==> value == old(value)
      ensures console.errors == old(console.errors)
                                + if !old(crashed) && ReduceLogs(State(old(value)), action) then 1 else 0
    {
      if crashed {
        return;
      }
      var key := action.value.GetOr("");
      if value == Undef {
        value := Str("");
      }
      if action.kind == KeyPressed {
        value := Str(Shown(value, show) + key);
      } else if action.kind == EqualsPressed {
        var c := CalculateExpression(value, console);
        match c
        case Threw => crashed := true;
        case Returned(result) => value := result;
      } else if action.kind == ClearPressed {
        value := Str("");
      }
    }

    /** The keydown handler: the key's action is dispatched, and a key
        that stands for none changes nothing. */
    method KeyDown(key: string)
      modifies this, console
      ensures KeyToAction(key) == None ==>
                value == old(value) && crashed == old(crashed) && console.errors == old(console.errors)
      ensures KeyToAction(key).Some? && !old(crashed) ==>
                (crashed <==> Reduce(State(old(value)), KeyToAction(key).value, show) == Crash)
      ensures KeyToAction(key).Some? && !crashed ==>
                Reduce(State(old(value)), KeyToAction(key).value, show) == Next(State(value))
      ensures old(crashed) ==> crashed && value == old(value) && console.errors == old(console.errors)
      ensures KeyToAction(key).Some? ==>
                console.errors == old(console.errors)
                                  + if !old(crashed) && ReduceLogs(State(old(value)), KeyToAction(key).value) then 1 else 0
    {
      match KeyToAction(key)
      case None =>
      case Some(action) => Dispatch(action);
    }
  }
}
