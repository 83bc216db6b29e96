/** The calculator widget: the display holds an expression string that the
    keys edit; "=" hands it to `safeEval`. The evaluation itself (building a
    function from the text and checking the result is a finite number) is an
    abstract `evaluate` parameter: it returns the printed number, or `None`
    where the source would throw or find a non-finite value. */
module Calculator {
  import opened Wrappers
  import Text

  const Err: string := "Err"

  /** The characters of `/^[0-9+\-*\/().\s]+$/`. */
  predicate Allowed(c: char) {
    ('0' <= c <= '9') || c in "+-*/()." || Text.IsJsWhitespace(c)
  }

  /** The whitelist: at least one character, and every one of them allowed. */
  predicate Whitelisted(s: string) {
    |s| > 0 && forall i :: 0 <= i < |s| ==> Allowed(s[i])
  }

  /** `safeEval`: text outside the whitelist never reaches the evaluator. */
  function SafeEval(input: string, evaluate: string -> Option<string>): (r: Option<string>)
    ensures input == [] ==> r == None
    ensures (exists i :: 0 <= i < |input| && !Allowed(input[i])) ==> r == None
    ensures Whitelisted(input) ==> r == evaluate(input)
  {
    if Whitelisted(input) then evaluate(input) else None
  }

  /** A click on the key whose `data-value` is `v`. */
  function Press(expr: string, v: string, evaluate: string -> Option<string>): (r: string)
    ensures v == "" ==> r == expr
    ensures v == "AC" ==> r == ""
    ensures v == "DEL" ==> |r| == if expr == "" then 0 else |expr| - 1
    ensures v == "DEL" ==> r == expr[..|r|]
    ensures v == "=" ==>
      (r == Err && SafeEval(expr, evaluate) == None)
      || (Whitelisted(expr) && evaluate(expr) == Some(r))
    ensures v !in {"", "AC", "DEL", "="} ==>
      |r| >= |v| && r[|r| - |v|..] == v
      && r[..|r| - |v|] == (if expr == Err then "" else expr)
  {
    if v == "" then expr
    else if v == "AC" then ""
    else if v == "DEL" then (if expr == "" then "" else expr[..|expr| - 1])
    else if v == "=" then
      match SafeEval(expr, evaluate)
      case None => Err
      case Some(out) => out
    else (if expr == Err then "" else expr) + v
  }

  /** DEL takes back a single-character key press, except after an error,
      which the press had already cleared. */
  lemma DelUndoesAppend(expr: string, c: char, evaluate: string -> Option<string>)
    requires c != '='
    ensures Press(Press(expr, [c], evaluate), "DEL", evaluate)
      == if expr == Err then "" else expr
  {
    var typed := Press(expr, [c], evaluate);
    assert typed == (if expr == Err then "" else expr) + [c];
  }
}
