/**
 * The operator at the console. Every ask(), askWithCompletion(), confirm()
 * and choice() consumes the next answer of a finite script; Accept stands
 * for pressing Enter on the offered default, Typed for any other line as
 * the console library hands it back. A script that runs out leaves the
 * prompt unanswered.
 */
module Console {
  import opened Wrappers
  import opened Strings
  import opened Values

  datatype Answer = Accept | Typed(text: string)

  /** ask($q, $default): the default on Enter, the typed text otherwise. */
  function Reply(a: Answer, default: Value): (r: Value)
    ensures a.Accept? ==> r == default
    ensures a.Typed? ==> r == Str(a.text)
  {
    match a
    case Accept => default
    case Typed(s) => Str(s)
  }

  /** One ask(), or None when the script is exhausted. */
  function Ask(answers: seq<Answer>, default: Value): (r: Option<(Value, seq<Answer>)>)
    ensures answers == [] <==> r.None?
    ensures r.Some? ==> r.value == (Reply(answers[0], default), answers[1..])
  {
    if answers == [] then None else Some((Reply(answers[0], default), answers[1..]))
  }

  /**
   * confirm($q, $default): Enter gives the default; a typed line means yes
   * exactly when it starts with y or Y. An empty line is pressing Enter, so
   * it is always Accept and never Typed(""); the Typed("") case is unused.
   */
  function ConfirmReply(a: Answer, default: bool): (r: bool)
    ensures a.Accept? ==> r == default
    ensures a.Typed? ==> (r <==> |a.text| > 0 && (a.text[0] == 'y' || a.text[0] == 'Y'))
  {
    match a
    case Accept => default
    case Typed(s) => |s| > 0 && (s[0] == 'y' || s[0] == 'Y')
  }

  /** A decimal index written without leading zeros, as a PHP array key. */
  predicate IsIndexOf(s: string, n: nat) {
    |s| >= 1 && (forall i :: 0 <= i < |s| ==> '0' <= s[i] <= '9') &&
    NatToString(DigitsValue(s)) == s && DigitsValue(s) < n
  }

  /** The choice a line selects: a choice spelled out, else a valid index. */
  function ChoiceOf(s: string, choices: seq<string>): (r: Option<string>)
    ensures r.Some? ==> r.value in choices
    ensures s in choices ==> r == Some(s)
  {
    if s in choices then Some(s)
    else if IsIndexOf(s, |choices|) then Some(choices[DigitsValue(s)])
    else None
  }

  /** The line a choice question reads: the typed text, or the default on Enter. */
  function LineOf(a: Answer, default: string): (r: string)
    ensures a.Accept? ==> r == default
    ensures a.Typed? ==> r == a.text
  {
    match a
    case Accept => default
    case Typed(s) => s
  }

  /**
   * choice($q, $choices, $default): the line (or, on Enter, the default) is
   * validated against the choices and the question is asked again until
   * one is valid.
   */
  function Choose(answers: seq<Answer>, choices: seq<string>, default: string): (r: Option<(string, seq<Answer>)>)
    ensures r.Some? ==> r.value.0 in choices
    ensures r.Some? ==> |r.value.1| < |answers| && r.value.1 == answers[|answers| - |r.value.1|..]
    ensures choices == [] ==> r.None?
    ensures answers != [] && ChoiceOf(LineOf(answers[0], default), choices).Some? ==>
              r == Some((ChoiceOf(LineOf(answers[0], default), choices).value, answers[1..]))
    decreases |answers|
  {
    if answers == [] then None
    else
      match ChoiceOf(LineOf(answers[0], default), choices)
      case Some(c) => Some((c, answers[1..]))
      case None =>
        var r := Choose(answers[1..], choices, default);
        if r.Some? then
          assert answers[1..][|answers[1..]| - |r.value.1|..] == answers[|answers| - |r.value.1|..];
          r
        else r
  }

  /** The j-th line is not a valid choice: the question is asked again. */
  predicate Invalid(answers: seq<Answer>, choices: seq<string>, default: string, j: nat)
    requires j < |answers|
  {
    ChoiceOf(LineOf(answers[j], default), choices).None?
  }

  /** Dropping the first answer shifts the lines by one. */
  lemma InvalidShift(answers: seq<Answer>, choices: seq<string>, default: string)
    requires answers != []
    ensures forall j :: 0 <= j < |answers| - 1 ==> Invalid(answers[1..], choices, default, j) == Invalid(answers, choices, default, j + 1)
  {
    forall j | 0 <= j < |answers| - 1 ensures Invalid(answers[1..], choices, default, j) == Invalid(answers, choices, default, j + 1) {
      assert answers[1..][j] == answers[j + 1];
    }
  }

  /** The choice is made by the first valid line, and it is that line's choice. */
  lemma {:induction false} ChooseTakesFirstValid(answers: seq<Answer>, choices: seq<string>, default: string)
    ensures var r := Choose(answers, choices, default);
            r.Some? ==>
              var k := |answers| - |r.value.1| - 1;
              0 <= k < |answers| && ChoiceOf(LineOf(answers[k], default), choices) == Some(r.value.0) &&
              forall j :: 0 <= j < k ==> Invalid(answers, choices, default, j)
    decreases |answers|
  {
    var r := Choose(answers, choices, default);
    if r.Some? && !Invalid(answers, choices, default, 0) {
      assert r == Some((ChoiceOf(LineOf(answers[0], default), choices).value, answers[1..]));
      assert |answers| - |r.value.1| - 1 == 0;
    } else if r.Some? {
      var tail := answers[1..];
      ChooseTakesFirstValid(tail, choices, default);
      InvalidShift(answers, choices, default);
      var rt := Choose(tail, choices, default);
      assert rt == r;
      var k := |answers| - |r.value.1| - 1;
      assert |tail| - |rt.value.1| - 1 == k - 1;
      assert tail[k - 1] == answers[k];
      forall j | 0 <= j < k ensures Invalid(answers, choices, default, j) {
        if j > 0 {
          assert Invalid(tail, choices, default, j - 1);
        }
      }
    }
  }

  /** Choose finds nothing exactly when no line is a valid choice. */
  lemma {:induction false} ChooseFailsOnlyOnInvalidLines(answers: seq<Answer>, choices: seq<string>, default: string)
    ensures Choose(answers, choices, default).None? <==> forall j :: 0 <= j < |answers| ==> Invalid(answers, choices, default, j)
    decreases |answers|
  {
    if answers != [] && Invalid(answers, choices, default, 0) {
      var tail := answers[1..];
      ChooseFailsOnlyOnInvalidLines(tail, choices, default);
      InvalidShift(answers, choices, default);
      assert Choose(answers, choices, default) == Choose(tail, choices, default);
      if forall j :: 0 <= j < |tail| ==> Invalid(tail, choices, default, j) {
        forall j | 0 <= j < |answers| ensures Invalid(answers, choices, default, j) {
          if j > 0 {
            assert Invalid(tail, choices, default, j - 1);
          }
        }
      }
    }
  }

  /** Accepting a valid default answers a choice with that default at once. */
  lemma AcceptedDefaultChosen(rest: seq<Answer>, choices: seq<string>, default: string)
    requires default in choices
    ensures Choose([Accept] + rest, choices, default) == Some((default, rest))
  {
    assert ([Accept] + rest)[1..] == rest;
  }
}
