/**
 The push parser (include/gpcl/json.hpp, struct parser): four states, one `put` overload
 per state, and a driver that offers a character again when it was not consumed.

 `Dispatch`, `Feed` and `Run` say what one overload, one character and a whole text do;
 the class `Parser` is the driver loop itself.
 */
module JsonParser {
  import opened JsonValues

  datatype Event =
    | ErrorEvent
    | NullEvent
    | TrueEvent
    | FalseEvent
    | IntegerEvent(n: int)
    | FloatEvent(lexeme: string)
    | StringEvent(s: string)
    | StartArrayEvent
    | EndArrayEvent
    | StartObjectEvent
    | KeyEvent(key: string)
    | EndObjectEvent

  datatype State =
    | Indeterminate
    | ParsingLiteral(chars: string)
    | ParsingNumber(chars: string)
    | ParsingString(chars: string, quoteClosed: bool)

  predicate IsSpace(ch: char) { ch == ' ' || '\t' <= ch <= '\r' }

  predicate IsDigit(ch: char) { '0' <= ch <= '9' }

  predicate IsAlpha(ch: char) { 'a' <= ch <= 'z' || 'A' <= ch <= 'Z' }

  // ----- json_cast -----

  predicate AllDigits(s: string) {
    forall i :: 0 <= i < |s| ==> IsDigit(s[i])
  }

  /** The value of a string of digits. */
  function Numeral(s: string): nat
    requires AllDigits(s)
  {
    if s == [] then 0 else Numeral(s[..|s| - 1]) * 10 + (s[|s| - 1] as int - '0' as int)
  }

  datatype Cast<+T> = Value(value: T) | BadCast

  /** Stream extraction of an `int64_t`: an optional sign, digits to the end, in range. */
  function CastInteger(s: string): Cast<int> {
    var digits := if s != [] && s[0] == '+' then s[1..] else s;
    if digits != [] && AllDigits(digits) && Numeral(digits) <= INT_MAX
    then Value(Numeral(digits)) else BadCast
  }

  /** A real is read to the end if it has one point and some digit; the lexeme stands for it. */
  function CastReal(s: string): Cast<string> {
    var t := if s != [] && s[0] == '+' then s[1..] else s;
    if exists i :: 0 <= i < |t| && t[i] == '.' && AllDigits(t[..i]) && AllDigits(t[i + 1..]) && |t| > 1
    then Value(s) else BadCast
  }

  // ----- the overloads of put -----

  /** What one overload does: the next state, what it tells the visitor, and its return value. */
  datatype Dispatched =
    | Dispatched(state: State, event: seq<Event>, consumed: bool)
    | Thrown  // json_cast has thrown

  function LiteralEvent(chars: string): Event {
    if chars == "null" then NullEvent
    else if chars == "true" then TrueEvent
    else if chars == "false" then FalseEvent
    else ErrorEvent
  }

  function Dispatch(state: State, ch: char): Dispatched {
    match state
    case Indeterminate =>
      if IsSpace(ch) then Dispatched(Indeterminate, [], true)
      else if IsAlpha(ch) then Dispatched(ParsingLiteral([ch]), [], true)
      else if IsDigit(ch) || ch == '+' then Dispatched(ParsingNumber([ch]), [], true)
      else if ch == '"' then Dispatched(ParsingString([], false), [], true)
      else if ch == '[' then Dispatched(Indeterminate, [StartArrayEvent], true)
      else if ch == ',' then Dispatched(Indeterminate, [], true)
      else if ch == ']' then Dispatched(Indeterminate, [EndArrayEvent], true)
      else if ch == '{' then Dispatched(Indeterminate, [StartObjectEvent], true)
      else if ch == '}' then Dispatched(Indeterminate, [EndObjectEvent], true)
      else Dispatched(Indeterminate, [ErrorEvent], false)
    case ParsingLiteral(chars) =>
      if IsAlpha(ch) || IsDigit(ch) then Dispatched(ParsingLiteral(chars + [ch]), [], true)
      else Dispatched(Indeterminate, [LiteralEvent(chars)], false)
    case ParsingNumber(chars) =>
      if IsDigit(ch) || ch == '.' then Dispatched(ParsingNumber(chars + [ch]), [], true)
      else if '.' in chars then
        (match CastReal(chars)
         case Value(x) => Dispatched(Indeterminate, [FloatEvent(x)], false)
         case BadCast => Thrown)
      else
        (match CastInteger(chars)
         case Value(n) => Dispatched(Indeterminate, [IntegerEvent(n)], false)
         case BadCast => Thrown)
    case ParsingString(chars, quoteClosed) =>
      if !quoteClosed then
        if ch != '"' then Dispatched(ParsingString(chars + [ch], false), [], true)
        else Dispatched(ParsingString(chars, true), [], true)
      else if IsSpace(ch) then Dispatched(state, [], true)
      else if ch == ':' then Dispatched(Indeterminate, [KeyEvent(chars)], true)
      else Dispatched(Indeterminate, [StringEvent(chars)], false)
  }

  // ----- whole characters and texts, for a visitor that throws on error_event -----

  /** The events emitted so far and the state reached; `ok` is false once an exception got out. */
  datatype Outcome = Outcome(state: State, events: seq<Event>, ok: bool)

  /** One character: dispatched once, and a second time if it was not consumed. */
  function Feed(state: State, ch: char): Outcome {
    match Dispatch(state, ch)
    case Thrown => Outcome(state, [], false)
    case Dispatched(state1, e1, consumed1) =>
      if e1 == [ErrorEvent] then Outcome(state, e1, false)
      else if consumed1 then Outcome(state1, e1, true)
      else
        match Dispatch(state1, ch)
        case Thrown => Outcome(state1, e1, false)
        case Dispatched(state2, e2, _) =>
          if e2 == [ErrorEvent] then Outcome(state1, e1 + e2, false)
          else Outcome(state2, e1 + e2, true)
  }

  /** A refused character leaves the parser idle, and an idle parser consumes or reports an error. */
  lemma AtMostTwoDispatches(state: State, ch: char)
    requires Dispatch(state, ch).Dispatched? && !Dispatch(state, ch).consumed
    requires Dispatch(state, ch).event != [ErrorEvent]
    ensures state != Indeterminate && Dispatch(state, ch).state == Indeterminate
    ensures Dispatch(Indeterminate, ch).Dispatched?
    ensures Dispatch(Indeterminate, ch).consumed <==> Dispatch(Indeterminate, ch).event != [ErrorEvent]
  {
  }

  function Then(a: Outcome, b: Outcome): Outcome {
    if a.ok then Outcome(b.state, a.events + b.events, b.ok) else a
  }

  function Run(state: State, text: string): Outcome
    decreases |text|
  {
    if text == [] then Outcome(state, [], true)
    else
      var first := Feed(state, text[0]);
      Then(first, Run(first.state, text[1..]))
  }

  /** Feeding a text in two pieces is feeding it at once. */
  lemma {:induction false} RunInTwo(state: State, a: string, b: string)
    ensures Run(state, a + b) == Then(Run(state, a), Run(Run(state, a).state, b))
    decreases |a|
  {
    hide Feed;
    if a == [] {
      assert a + b == b;
    } else {
      var first := Feed(state, a[0]);
      assert (a + b)[1..] == a[1..] + b;
      RunInTwo(first.state, a[1..], b);
    }
  }

  function Concat(pieces: seq<string>): string {
    if pieces == [] then [] else pieces[0] + Concat(pieces[1..])
  }

  /** Successive `put` calls on one parser. */
  function RunPieces(state: State, pieces: seq<string>): Outcome
    decreases |pieces|
  {
    if pieces == [] then Outcome(state, [], true)
    else
      var first := Run(state, pieces[0]);
      Then(first, RunPieces(first.state, pieces[1..]))
  }

  /** However a text is divided, the same events come out and the same state is reached. */
  lemma {:induction false} DivisionDoesNotMatter(state: State, pieces: seq<string>)
    ensures RunPieces(state, pieces) == Run(state, Concat(pieces))
    decreases |pieces|
  {
    if pieces != [] {
      RunInTwo(state, pieces[0], Concat(pieces[1..]));
      DivisionDoesNotMatter(Run(state, pieces[0]).state, pieces[1..]);
    }
  }
}
