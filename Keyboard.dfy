/**
 * The keydown handler's decision: which action, if any, a key name
 * dispatches. Three unanchored regular expressions are tried in order —
 * `[x0-9+-/]` (append the key), `Escape|Backspace|c` (clear) and
 * `Enter|=` (evaluate) — and a key none of them matches is ignored.
 * Unanchored means a match anywhere in the key name counts, and the class
 * `+-/` is the character range from `+` to `/`, which takes in `,` and `.`
 * but not `*`.
 */
module Keyboard {
  import opened Wrappers
  import opened Reducer

  datatype KeyAction = Append | Clear | Evaluate | Ignore

  /** A character of the class `[x0-9+-/]`. */
  predicate InAppendClass(c: char) {
    c == 'x' || ('0' <= c <= '9') || ('+' <= c <= '/')
  }

  /** `/[x0-9+-/]/.test(key)`. */
  function MatchesAppend(key: string): (r: bool)
    ensures r <==> exists i :: 0 <= i < |key| && InAppendClass(key[i])
  {
    if key == [] then false
    else if InAppendClass(key[0]) then true
    else
      var r := MatchesAppend(key[1..]);
      assert forall i :: 1 <= i < |key| ==> key[1..][i - 1] == key[i];
      r
  }

  /** `pat` occurs in `key` at index `i`. */
  predicate OccursAt(key: string, pat: string, i: nat) {
    i + |pat| <= |key| && key[i..i + |pat|] == pat
  }

  /** An unanchored match of the literal `pat` in `key`. */
  function Contains(key: string, pat: string): (r: bool)
    ensures r <==> exists i: nat :: OccursAt(key, pat, i)
    decreases |key|
  {
    if |key| < |pat| then false
    else if key[..|pat|] == pat then
      assert OccursAt(key, pat, 0);
      true
    else
      var r := Contains(key[1..], pat);
      assert forall i: nat :: OccursAt(key[1..], pat, i) <==> OccursAt(key, pat, i + 1) by {
        forall i: nat
          ensures OccursAt(key[1..], pat, i) <==> OccursAt(key, pat, i + 1)
        {
          if i + 1 + |pat| <= |key| {
            assert key[1..][i..i + |pat|] == key[i + 1..i + 1 + |pat|];
          }
        }
      }
      assert !OccursAt(key, pat, 0);
      assert forall i: nat :: OccursAt(key, pat, i) ==> i > 0 && OccursAt(key[1..], pat, i - 1);
      r
  }

  /** `/Escape|Backspace|c/.test(key)`. */
  predicate MatchesClear(key: string) {
    Contains(key, "Escape") || Contains(key, "Backspace") || Contains(key, "c")
  }

  /** `/Enter|=/.test(key)`. */
  predicate MatchesEquals(key: string) {
    Contains(key, "Enter") || Contains(key, "=")
  }

  /** The handler's `if` / `else if` chain. */
  function Classify(key: string): KeyAction {
    if MatchesAppend(key) then Append
    else if MatchesClear(key) then Clear
    else if MatchesEquals(key) then Evaluate
    else Ignore
  }

  /** The action the handler dispatches: the key itself as the value of
      `KEY_PRESSED`, `CLEAR` or `EQUALS_PRESSED` without a value, or none. */
  function KeyToAction(key: string): (r: Option<Action>)
    ensures r.Some? <==> Classify(key) != Ignore
    ensures Classify(key) == Append <==> r == Some(Action(KeyPressed, Some(key)))
    ensures Classify(key) == Clear <==> r == Some(Action(ClearPressed, None))
    ensures Classify(key) == Evaluate <==> r == Some(Action(EqualsPressed, None))
  {
    match Classify(key)
    case Append => Some(Action(KeyPressed, Some(key)))
    case Clear => Some(Action(ClearPressed, None))
    case Evaluate => Some(Action(EqualsPressed, None))
    case Ignore => None
  }

  // ---------------------------------------------------------------------
  // Properties

  /** A one-character pattern occurs exactly where that character does. */
  lemma ContainsChar(key: string, c: char)
    ensures Contains(key, [c]) <==> c in key
  {
    if c in key {
      var i :| 0 <= i < |key| && key[i] == c;
      assert key[i..i + 1] == [c];
      assert OccursAt(key, [c], i);
    }
    if Contains(key, [c]) {
      var i: nat :| OccursAt(key, [c], i);
      assert key[i] == key[i..i + 1][0] == c;
    }
  }

  /** Both `Escape` and `Backspace` contain a `c`, so the clear pattern
      matches exactly the keys that contain a lower-case `c`. */
  lemma ClearMeansLetterC(key: string)
    ensures MatchesClear(key) <==> 'c' in key
  {
    ContainsChar(key, 'c');
    assert "c" == ['c'];
    if Contains(key, "Escape") {
      var i: nat :| OccursAt(key, "Escape", i);
      assert key[i + 2] == key[i..i + 6][2] == 'c';
    }
    if Contains(key, "Backspace") {
      var i: nat :| OccursAt(key, "Backspace", i);
      assert key[i + 2] == key[i..i + 9][2] == 'c';
    }
  }

  /** The classification, the first test that matches winning:
      a key with a character of `[x0-9+-/]` appends; otherwise a key with
      a `c` clears; otherwise a key with `Enter` or `=` evaluates; any
      other key is ignored. */
  lemma ClassifyMeaning(key: string)
    ensures Classify(key) == Append <==> exists i :: 0 <= i < |key| && InAppendClass(key[i])
    ensures Classify(key) == Clear
        <==> (forall i :: 0 <= i < |key| ==> !InAppendClass(key[i])) && 'c' in key
    ensures Classify(key) == Evaluate
        <==> (forall i :: 0 <= i < |key| ==> !InAppendClass(key[i])) && 'c' !in key
             && (Contains(key, "Enter") || '=' in key)
    ensures Classify(key) == Ignore
        <==> (forall i :: 0 <= i < |key| ==> !InAppendClass(key[i])) && 'c' !in key
             && !Contains(key, "Enter") && '=' !in key
  {
    ClearMeansLetterC(key);
    ContainsChar(key, '=');
    assert "=" == ['='];
  }

  // ---------------------------------------------------------------------
  // Examples

  /** Digits, `x` and the operators `+ - /` are typed into the display. */
  lemma TypingKeys()
    ensures Classify("5") == Append && Classify("3") == Append
    ensures Classify("x") == Append && Classify("/") == Append
    ensures Classify("+") == Append && Classify("-") == Append
  {
    assert InAppendClass("5"[0]) && InAppendClass("3"[0]) && InAppendClass("x"[0]);
    assert InAppendClass("/"[0]) && InAppendClass("+"[0]) && InAppendClass("-"[0]);
  }

  /** `c`, `Escape` and `Backspace` all clear the whole display. */
  lemma ClearingKeys()
    ensures Classify("c") == Clear && Classify("Escape") == Clear && Classify("Backspace") == Clear
  {
    ClearsWith("c", 0);
    ClearsWith("Escape", 2);
    ClearsWith("Backspace", 2);
  }

  /** A key with a `c` and no character of `[x0-9+-/]` clears. */
  lemma ClearsWith(key: string, i: nat)
    requires i < |key| && key[i] == 'c'
    requires forall j :: 0 <= j < |key| ==> !InAppendClass(key[j])
    ensures Classify(key) == Clear
  {
    ClassifyMeaning(key);
  }

  /** `Enter` and `=` evaluate. */
  lemma EvaluatingKeys()
    ensures Classify("Enter") == Evaluate && Classify("=") == Evaluate
  {
    ClassifyMeaning("Enter");
    ClassifyMeaning("=");
    assert "Enter"[..5] == "Enter";
    assert OccursAt("Enter", "Enter", 0);
    assert "="[0] == '=';
  }

  /** The `*` key does nothing (multiplication is typed as `x`), and
      neither does the upper-case `C` of the on-screen clear button. */
  lemma IgnoredKeys()
    ensures Classify("*") == Ignore && Classify("C") == Ignore
  {
    ClassifyMeaning("*");
    ClassifyMeaning("C");
  }

  /** Being unanchored, the patterns also match longer key names: the
      function key `F1` types the text `F1`, and `CapsLock` clears. */
  lemma LongKeyNames()
    ensures KeyToAction("F1") == Some(Action(KeyPressed, Some("F1")))
    ensures KeyToAction("CapsLock") == Some(Action(ClearPressed, None))
  {
    assert Classify("F1") == Append by {
      assert InAppendClass("F1"[1]);
    }
    assert Classify("CapsLock") == Clear by {
      ClearsWith("CapsLock", 6);
    }
  }
}
