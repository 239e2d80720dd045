/**
 The value builder (include/gpcl/json.hpp, struct value_builder), a stack machine over
 parser events, and `parse`, which runs the parser with a builder as its visitor.
 */
module JsonBuilder {
  import opened JsonValues
  import opened JsonParser

  datatype Context =
    | ValueContext(value: Json)
    | ArrayContext(items: seq<Json>)
    | ObjectContext(members: seq<Member>, key: string)

  datatype Result<+T> = Ok(value: T) | Threw

  /** `handle_value`: a complete value goes to the innermost context. */
  function HandleValue(stack: seq<Context>, v: Json): Result<seq<Context>> {
    if stack == [] then Threw
    else
      var rest, top := stack[..|stack| - 1], stack[|stack| - 1];
      match top
      case ValueContext(_) => Ok(rest + [ValueContext(v)])
      case ArrayContext(items) => Ok(rest + [ArrayContext(items + [v])])
      case ObjectContext(ms, key) =>
        if key == "" then Threw  // the assertion on the key
        else Ok(rest + [ObjectContext(Insert(ms, Member(key, v)), "")])
  }

  function HandleEvent(stack: seq<Context>, e: Event): Result<seq<Context>> {
    match e
    case NullEvent => HandleValue(stack, Null)
    case TrueEvent => HandleValue(stack, Bool(true))
    case FalseEvent => HandleValue(stack, Bool(false))
    case IntegerEvent(n) => HandleValue(stack, Int(n))
    case FloatEvent(x) => HandleValue(stack, Real(x))
    case StringEvent(s) => HandleValue(stack, Str(s))
    case StartArrayEvent => Ok(stack + [ArrayContext([])])
    case StartObjectEvent => Ok(stack + [ObjectContext([], "")])
    case EndArrayEvent =>
      if stack != [] && stack[|stack| - 1].ArrayContext?
      then HandleValue(stack[..|stack| - 1], Arr(stack[|stack| - 1].items)) else Threw
    case EndObjectEvent =>
      if stack != [] && stack[|stack| - 1].ObjectContext?
      then HandleValue(stack[..|stack| - 1], Obj(stack[|stack| - 1].members)) else Threw
    case KeyEvent(k) =>
      if stack != [] && stack[|stack| - 1].ObjectContext?
      then Ok(stack[..|stack| - 1] + [stack[|stack| - 1].(key := k)]) else Threw
    case ErrorEvent => Threw
  }

  function Build(stack: seq<Context>, events: seq<Event>): Result<seq<Context>>
    decreases |events|
  {
    if events == [] then Ok(stack)
    else
      match HandleEvent(stack, events[0])
      case Threw => Threw
      case Ok(next) => Build(next, events[1..])
  }

  lemma {:induction false} BuildInTwo(stack: seq<Context>, a: seq<Event>, b: seq<Event>)
    ensures Build(stack, a + b) ==
            match Build(stack, a) case Threw => Threw case Ok(mid) => Build(mid, b)
    decreases |a|
  {
    if a == [] {
      assert a + b == b;
    } else {
      assert (a + b)[1..] == a[1..] + b;
      match HandleEvent(stack, a[0])
      case Threw =>
      case Ok(next) => BuildInTwo(next, a[1..], b);
    }
  }

  const START: seq<Context> := [ValueContext(Null)]

  function GetValue(stack: seq<Context>): Result<Json> {
    if |stack| == 1 && stack[0].ValueContext? then Ok(stack[0].value) else Threw
  }

  /** `basic_json::parse`. */
  function Parse(text: string): Result<Json> {
    var r := Run(Indeterminate, text);
    match Build(START, r.events)
    case Threw => Threw
    case Ok(stack) => if r.ok then GetValue(stack) else Threw
  }

  class ValueBuilder {
    var stack: seq<Context>

    constructor ()
      ensures stack == START
    {
      stack := START;
    }

    /** `handle_event` and the `handle_value` overloads; false stands for an exception. */
    method Handle(e: Event) returns (ok: bool)
      modifies this
      ensures ok <==> HandleEvent(old(stack), e).Ok?
      ensures ok ==> HandleEvent(old(stack), e) == Ok(stack)
      ensures !ok ==> e == ErrorEvent ==> stack == old(stack)
    {
      ok := true;
      match e
      case NullEvent => ok := HandleComplete(Null);
      case TrueEvent => ok := HandleComplete(Bool(true));
      case FalseEvent => ok := HandleComplete(Bool(false));
      case IntegerEvent(n) => ok := HandleComplete(Int(n));
      case FloatEvent(x) => ok := HandleComplete(Real(x));
      case StringEvent(s) => ok := HandleComplete(Str(s));
      case StartArrayEvent => stack := stack + [ArrayContext([])];
      case StartObjectEvent => stack := stack + [ObjectContext([], "")];
      case EndArrayEvent =>
        if stack == [] || !stack[|stack| - 1].ArrayContext? { return false; }
        var items := stack[|stack| - 1].items;
        stack := stack[..|stack| - 1];
        ok := HandleComplete(Arr(items));
      case EndObjectEvent =>
        if stack == [] || !stack[|stack| - 1].ObjectContext? { return false; }
        var members := stack[|stack| - 1].members;
        stack := stack[..|stack| - 1];
        ok := HandleComplete(Obj(members));
      case KeyEvent(k) =>
        if stack == [] || !stack[|stack| - 1].ObjectContext? { return false; }
        stack := stack[|stack| - 1 := stack[|stack| - 1].(key := k)];
        assert stack == old(stack)[..|stack| - 1] + [stack[|stack| - 1]];
      case ErrorEvent => ok := false;
    }

    method HandleComplete(v: Json) returns (ok: bool)
      modifies this
      ensures ok <==> HandleValue(old(stack), v).Ok?
      ensures ok ==> HandleValue(old(stack), v) == Ok(stack)
    {
      if stack == [] { return false; }
      var last := |stack| - 1;
      match stack[last] {
        case ValueContext(_) =>
          stack := stack[last := ValueContext(v)];
        case ArrayContext(items) =>
          stack := stack[last := ArrayContext(items + [v])];
        case ObjectContext(ms, key) =>
          if key == "" { return false; }
          stack := stack[last := ObjectContext(Insert(ms, Member(key, v)), "")];
      }
      assert stack == old(stack)[..last] + [stack[last]];
      ok := true;
    }
  }

  class Parser {
    var state: State

    constructor ()
      ensures state == Indeterminate
    {
      state := Indeterminate;
    }

    /**
     `put(first, last, visitor)`: every character is offered to the overload of the
     current state until it is consumed.  False stands for an exception.
     */
    method Put(text: string, visitor: ValueBuilder) returns (ok: bool)
      modifies this, visitor
      ensures var r := Run(old(state), text);
              var b := Build(old(visitor.stack), r.events);
              && (ok <==> r.ok && b.Ok?)
              && (ok ==> state == r.state && b == Ok(visitor.stack))
    {
      hide Build, Feed, HandleEvent;
      var i := 0;
      ghost var events := [];
      BuildOne(visitor.stack);
      assert text[0..] == text;
      while i < |text|
        invariant 0 <= i <= |text|
        invariant Run(old(state), text) == Then(Outcome(state, events, true), Run(state, text[i..]))
        invariant Build(old(visitor.stack), events) == Ok(visitor.stack)
      {
        var ch := text[i];
        i := i + 1;
        ghost var f := Feed(state, ch);
        assert text[i - 1..][1..] == text[i..];
        BuildInTwo(old(visitor.stack), events, f.events);
        ghost var rest := Run(f.state, text[i..]);
        BuildInTwo(old(visitor.stack), events + f.events, rest.events);
        assert events + f.events + rest.events == events + (f.events + rest.events);
        ok := PutChar(ch, visitor);
        if !ok { return; }
        events := events + f.events;
      }
      assert text[i..] == [] && events + [] == events;
      ok := true;
    }

    /** The `do ... while (!consumed)` loop for one character. */
    method PutChar(ch: char, visitor: ValueBuilder) returns (ok: bool)
      modifies this, visitor
      ensures var f := Feed(old(state), ch);
              var b := Build(old(visitor.stack), f.events);
              && (ok <==> f.ok && b.Ok?)
              && (ok ==> state == f.state && b == Ok(visitor.stack))
    {
      hide Build, Dispatch;
      var consumed := false;
      ghost var seen := [];
      BuildOne(old(visitor.stack));
      while !consumed
        invariant Build(old(visitor.stack), seen) == Ok(visitor.stack)
        invariant !consumed && state == old(state) ==> seen == []
        invariant !consumed && state != old(state) ==>
          && state == Indeterminate && seen != [ErrorEvent]
          && Dispatch(old(state), ch) == Dispatched(state, seen, false)
        invariant consumed ==> Feed(old(state), ch) == Outcome(state, seen, true)
        decreases if consumed then 0 else if state == Indeterminate then 1 else 2
      {
        match Dispatch(state, ch)
        case Thrown => return false;
        case Dispatched(next, event, c) =>
          DispatchShape(state, ch);
          if event != [] {
            assert event == [event[0]];
            BuildInTwo(old(visitor.stack), seen, event);
            BuildOne(visitor.stack);
            if seen == [] && !c && event != [ErrorEvent] && Dispatch(next, ch).Dispatched? {
              BuildInTwo(old(visitor.stack), event, Dispatch(next, ch).event);
            }
            assert seen == [] ==> seen + event == event;
            ok := visitor.Handle(event[0]);
            if !ok {
              return;
            }
          }
          assert event == [] ==> seen + event == seen;
          seen := seen + event;
          state := next;
          consumed := c;
      }
      ok := true;
    }
  }

  lemma BuildOne(stack: seq<Context>)
    ensures Build(stack, []) == Ok(stack)
    ensures forall e :: Build(stack, [e]) == HandleEvent(stack, e)
  {
  }

  /** At most one event a time; a refusal comes from a busy state and ends it, unless it is the error. */
  lemma DispatchShape(state: State, ch: char)
    requires Dispatch(state, ch).Dispatched?
    ensures var d := Dispatch(state, ch);
            && |d.event| <= 1
            && (d.event == [ErrorEvent] ==> !d.consumed)
            && (!d.consumed && d.event != [ErrorEvent] ==> state != Indeterminate && d.state == Indeterminate)
            && (!d.consumed ==> |d.event| == 1)
  {
  }

  /** `basic_json::parse` as it runs: a fresh parser and builder, one `put`, then `get_value`. */
  method ParseDocument(text: string) returns (r: Result<Json>)
    ensures r == Parse(text)
  {
    var p := new Parser();
    var builder := new ValueBuilder();
    var ok := p.Put(text, builder);
    r := if ok then GetValue(builder.stack) else Threw;
  }
}
