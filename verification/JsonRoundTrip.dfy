/**
 Parsing what was serialized.

 The reader does not undo the writer's escapes, so a readable value comes back with every
 backslash doubled; nothing else the reader produces holds a quote, a negative number or
 an empty key.  Together these say exactly which values survive the round trip.
 */
module JsonRoundTrip {
  import opened JsonValues
  import opened JsonText
  import opened JsonParser
  import opened JsonBuilder
  import opened JsonLexing

  /** The value with all strings and keys as the reader sees them. */
  ghost function Escaped(v: Json): Json
    decreases v, 1
  {
    match v
    case Str(s) => Str(Escape(s))
    case Arr(items) => Arr(EscapedItems(items))
    case Obj(ms) => Obj(EscapedMembers(ms))
    case _ => v
  }

  ghost function EscapedItems(items: seq<Json>): (r: seq<Json>)
    ensures |r| == |items| && forall i :: 0 <= i < |r| ==> r[i] == Escaped(items[i])
    decreases items, 0
  {
    if items == [] then [] else [Escaped(items[0])] + EscapedItems(items[1..])
  }

  ghost function EscapedMembers(ms: seq<Member>): (r: seq<Member>)
    ensures |r| == |ms|
    ensures forall i :: 0 <= i < |r| ==> r[i] == Member(Escape(ms[i].key), Escaped(ms[i].value))
    decreases ms, 0
  {
    if ms == [] then [] else [Member(Escape(ms[0].key), Escaped(ms[0].value))] + EscapedMembers(ms[1..])
  }

  lemma {:induction false} EscapeKeepsOrder(a: string, b: string)
    requires '"' !in a && '"' !in b && Less(a, b)
    ensures Less(Escape(a), Escape(b))
  {
    if a != [] && a[0] == b[0] {
      EscapeKeepsOrder(a[1..], b[1..]);
      var x := if a[0] == '\\' then ['\\', '\\'] else [a[0]];
      LessAfter(x, Escape(a[1..]), Escape(b[1..]));
    }
  }

  lemma {:induction false} LessAfter(x: string, a: string, b: string)
    requires Less(a, b)
    ensures Less(x + a, x + b)
  {
    if x == [] {
      assert x + a == a && x + b == b;
    } else {
      LessAfter(x[1..], a, b);
      assert (x + a)[1..] == x[1..] + a && (x + b)[1..] == x[1..] + b;
    }
  }

  lemma EscapedStaysAscending(ms: seq<Member>)
    requires Ascending(ms) && forall i :: 0 <= i < |ms| ==> ReadableMember(ms[i])
    ensures Ascending(EscapedMembers(ms))
  {
    forall i, j | 0 <= i < j < |ms| ensures Less(EscapedMembers(ms)[i].key, EscapedMembers(ms)[j].key) {
      assert ReadableMember(ms[i]) && ReadableMember(ms[j]);
      EscapeKeepsOrder(ms[i].key, ms[j].key);
    }
  }

  // ----- building -----

  /** The events of a value amount to handing the value to the innermost context. */
  lemma {:induction false} EventsBuildValue(stack: seq<Context>, v: Json)
    requires Readable(v) && WellFormed(v)
    ensures Build(stack, EventsOf(v)) == HandleValue(stack, Escaped(v))
    decreases v, 1
  {
    match v
    case Arr(items) => EventsBuildArray(stack, items);
    case Obj(ms) => EventsBuildObject(stack, ms);
    case _ => BuildOne(stack);
  }

  lemma {:induction false} EventsBuildArray(stack: seq<Context>, items: seq<Json>)
    requires forall i :: 0 <= i < |items| ==> Readable(items[i]) && WellFormed(items[i])
    ensures Build(stack, EventsOf(Arr(items))) == HandleValue(stack, Arr(EscapedItems(items)))
    decreases items, 1
  {
    hide Build, HandleValue, EscapedItems, ItemEvents;
    var events := ItemEvents(items);
    var started, filled := stack + [ArrayContext([])], stack + [ArrayContext(EscapedItems(items))];
    assert [StartArrayEvent] + events + [EndArrayEvent] == [StartArrayEvent] + (events + [EndArrayEvent]);
    BuildInTwo(stack, [StartArrayEvent], events + [EndArrayEvent]);
    BuildOne(stack);
    BuildInTwo(started, events, [EndArrayEvent]);
    BuildItems(stack, [], items);
    assert [] + EscapedItems(items) == EscapedItems(items);
    BuildOne(filled);
    assert filled[..|stack|] == stack;
  }

  lemma {:induction false} EventsBuildObject(stack: seq<Context>, ms: seq<Member>)
    requires forall i :: 0 <= i < |ms| ==> ReadableMember(ms[i]) && WellFormed(ms[i].value)
    requires Ascending(ms)
    ensures Build(stack, EventsOf(Obj(ms))) == HandleValue(stack, Obj(EscapedMembers(ms)))
    decreases ms, 1
  {
    hide Build, HandleValue, EscapedMembers, MemberEvents, Ascending;
    EscapedStaysAscending(ms);
    var events := MemberEvents(ms);
    var started, filled := stack + [ObjectContext([], "")], stack + [ObjectContext(EscapedMembers(ms), "")];
    assert [StartObjectEvent] + events + [EndObjectEvent] == [StartObjectEvent] + (events + [EndObjectEvent]);
    BuildInTwo(stack, [StartObjectEvent], events + [EndObjectEvent]);
    BuildOne(stack);
    BuildInTwo(started, events, [EndObjectEvent]);
    assert [] + EscapedMembers(ms) == EscapedMembers(ms);
    BuildMembers(stack, [], ms);
    BuildOne(filled);
    assert filled[..|stack|] == stack;
  }

  lemma {:induction false} BuildItems(stack: seq<Context>, done: seq<Json>, items: seq<Json>)
    requires forall i :: 0 <= i < |items| ==> Readable(items[i]) && WellFormed(items[i])
    ensures Build(stack + [ArrayContext(done)], ItemEvents(items))
         == Ok(stack + [ArrayContext(done + EscapedItems(items))])
    decreases items, 0
  {
    if items == [] {
      assert done + [] == done;
    } else {
      var s := stack + [ArrayContext(done)];
      var v := Escaped(items[0]);
      BuildInTwo(s, EventsOf(items[0]), ItemEvents(items[1..]));
      EventsBuildValue(s, items[0]);
      assert s[..|stack|] == stack;
      BuildItems(stack, done + [v], items[1..]);
      assert done + [v] + EscapedItems(items[1..]) == done + EscapedItems(items);
    }
  }

  lemma {:induction false} BuildMembers(stack: seq<Context>, done: seq<Member>, ms: seq<Member>)
    requires forall i :: 0 <= i < |ms| ==> ReadableMember(ms[i]) && WellFormed(ms[i].value)
    requires Ascending(done + EscapedMembers(ms))
    ensures Build(stack + [ObjectContext(done, "")], MemberEvents(ms))
         == Ok(stack + [ObjectContext(done + EscapedMembers(ms), "")])
    decreases ms, 0
  {
    hide Build, Insert, Ascending, ReadableMember, WellFormed, Escape, Escaped, EscapedMembers;
    if ms == [] {
      assert EscapedMembers(ms) == [] && done + [] == done;
      BuildOne(stack + [ObjectContext(done, "")]);
    } else {
      BuildMember(stack, done, ms);
      EscapedMembersStep(ms);
      InsertNext(done, EscapedMembers(ms));
      BuildMembers(stack, done + [EscapedMembers(ms)[0]], ms[1..]);
    }
  }

  lemma EscapedMembersStep(ms: seq<Member>)
    requires ms != []
    ensures EscapedMembers(ms)[0] == Member(Escape(ms[0].key), Escaped(ms[0].value))
    ensures EscapedMembers(ms)[1..] == EscapedMembers(ms[1..])
  {
  }

  /** Members that arrive in key order are appended. */
  lemma InsertNext(done: seq<Member>, ms: seq<Member>)
    requires ms != [] && Ascending(done + ms)
    ensures Insert(done, ms[0]) == done + [ms[0]]
    ensures done + [ms[0]] + ms[1..] == done + ms
  {
    assert Ascending((done + ms)[..|done| + 1]);
    assert (done + ms)[..|done| + 1] == done + [ms[0]];
    InsertAtEnd(done, ms[0]);
  }

  lemma {:induction false} BuildMember(stack: seq<Context>, done: seq<Member>, ms: seq<Member>)
    requires ms != [] && ReadableMember(ms[0]) && WellFormed(ms[0].value)
    ensures Build(stack + [ObjectContext(done, "")], MemberEvents(ms))
         == Build(stack + [ObjectContext(Insert(done, Member(Escape(ms[0].key), Escaped(ms[0].value))), "")],
                  MemberEvents(ms[1..]))
    decreases ms[0], 2
  {
    hide Build, Insert;
    var key, v := Escape(ms[0].key), Escaped(ms[0].value);
    assert key != "";
    hide Escape;
    var s0, s1 := stack + [ObjectContext(done, "")], stack + [ObjectContext(done, key)];
    var rest := MemberEvents(ms[1..]);
    BuildInTwo(s0, [KeyEvent(key)], EventsOf(ms[0].value) + rest);
    BuildOne(s0);
    assert s0[..|stack|] == stack && s1[..|stack|] == stack;
    BuildInTwo(s1, EventsOf(ms[0].value), rest);
    EventsBuildValue(s1, ms[0].value);
    assert [KeyEvent(key)] + EventsOf(ms[0].value) + rest == [KeyEvent(key)] + (EventsOf(ms[0].value) + rest);
  }

  /** What comes back: the value with its backslashes doubled. */
  lemma ParseOfText(v: Json, style: Style)
    requires (v.Arr? || v.Obj?) && Readable(v) && WellFormed(v) && NoReals(v)
    ensures Parse(Text(v, style, 0)) == Ok(Escaped(v))
  {
    TextEmits(v, style, 0);
    EventsBuildValue(START, v);
    assert START[..0] == [];
  }

  // ----- what the reader can produce -----

  /** No quote in strings, no negative numbers, no empty keys. */
  ghost predicate Clean(v: Json)
    decreases v
  {
    match v
    case Int(n) => 0 <= n
    case Str(s) => '"' !in s
    case Arr(items) => forall i :: 0 <= i < |items| ==> Clean(items[i])
    case Obj(ms) => forall i :: 0 <= i < |ms| ==> CleanMember(ms[i])
    case _ => true
  }

  ghost predicate CleanMember(m: Member)
    decreases m
  {
    m.key != "" && '"' !in m.key && Clean(m.value)
  }

  ghost predicate CleanEvent(e: Event) {
    match e
    case IntegerEvent(n) => 0 <= n
    case StringEvent(s) => '"' !in s
    case KeyEvent(k) => '"' !in k
    case _ => true
  }

  ghost predicate CleanState(s: State) {
    s.ParsingString? ==> '"' !in s.chars
  }

  ghost predicate CleanStack(stack: seq<Context>) {
    forall i :: 0 <= i < |stack| ==>
      match stack[i]
      case ValueContext(v) => Clean(v)
      case ArrayContext(items) => Clean(Arr(items))
      case ObjectContext(ms, key) => Clean(Obj(ms)) && '"' !in key
  }

  ghost predicate CleanEvents(es: seq<Event>) {
    forall i :: 0 <= i < |es| ==> CleanEvent(es[i])
  }

  lemma DispatchIsClean(state: State, ch: char)
    requires CleanState(state) && Dispatch(state, ch).Dispatched?
    ensures CleanState(Dispatch(state, ch).state) && CleanEvents(Dispatch(state, ch).event)
  {
    hide CastReal;
  }

  lemma FeedIsClean(state: State, ch: char)
    requires CleanState(state)
    ensures CleanState(Feed(state, ch).state) && CleanEvents(Feed(state, ch).events)
  {
    hide Dispatch;
    var d := Dispatch(state, ch);
    if d.Dispatched? {
      DispatchIsClean(state, ch);
      if Dispatch(d.state, ch).Dispatched? { DispatchIsClean(d.state, ch); }
    }
  }

  lemma {:induction false} RunIsClean(state: State, text: string)
    requires CleanState(state)
    ensures CleanEvents(Run(state, text).events)
    decreases |text|
  {
    hide Feed, CleanEvent, CleanState;
    if text != [] {
      FeedIsClean(state, text[0]);
      RunIsClean(Feed(state, text[0]).state, text[1..]);
    }
  }

  lemma {:induction false} InsertIsClean(ms: seq<Member>, m: Member)
    requires Clean(Obj(ms)) && CleanMember(m)
    ensures Clean(Obj(Insert(ms, m)))
    decreases |ms|
  {
    if ms != [] && !Less(m.key, ms[0].key) && Less(ms[0].key, m.key) {
      assert Clean(Obj(ms[1..]));
      InsertIsClean(ms[1..], m);
    }
  }

  lemma HandleValueIsClean(stack: seq<Context>, v: Json)
    requires CleanStack(stack) && Clean(v) && HandleValue(stack, v).Ok?
    ensures CleanStack(HandleValue(stack, v).value)
  {
    var top := stack[|stack| - 1];
    if top.ObjectContext? {
      InsertIsClean(top.members, Member(top.key, v));
    }
  }

  lemma HandleEventIsClean(stack: seq<Context>, e: Event)
    requires CleanStack(stack) && CleanEvent(e) && HandleEvent(stack, e).Ok?
    ensures CleanStack(HandleEvent(stack, e).value)
  {
    hide HandleValue;
    match e
    case NullEvent => HandleValueIsClean(stack, Null);
    case TrueEvent => HandleValueIsClean(stack, Bool(true));
    case FalseEvent => HandleValueIsClean(stack, Bool(false));
    case IntegerEvent(n) => HandleValueIsClean(stack, Int(n));
    case FloatEvent(x) => HandleValueIsClean(stack, Real(x));
    case StringEvent(s) => HandleValueIsClean(stack, Str(s));
    case EndArrayEvent => HandleValueIsClean(stack[..|stack| - 1], Arr(stack[|stack| - 1].items));
    case EndObjectEvent => HandleValueIsClean(stack[..|stack| - 1], Obj(stack[|stack| - 1].members));
    case _ =>
  }

  lemma {:induction false} BuildIsClean(stack: seq<Context>, events: seq<Event>)
    requires CleanStack(stack) && CleanEvents(events)
    requires Build(stack, events).Ok?
    ensures CleanStack(Build(stack, events).value)
    decreases |events|
  {
    if events != [] {
      HandleEventIsClean(stack, events[0]);
      BuildIsClean(HandleEvent(stack, events[0]).value, events[1..]);
    }
  }

  /** Whatever text is parsed, the result is clean. */
  lemma ParseIsClean(text: string)
    requires Parse(text).Ok?
    ensures Clean(Parse(text).value)
  {
    RunIsClean(Indeterminate, text);
    BuildIsClean(START, Run(Indeterminate, text).events);
  }

  // ----- the round trip -----

  /** No backslash in any string or key. */
  ghost predicate Plain(v: Json)
    decreases v
  {
    match v
    case Str(s) => '\\' !in s
    case Arr(items) => forall i :: 0 <= i < |items| ==> Plain(items[i])
    case Obj(ms) => forall i :: 0 <= i < |ms| ==> PlainMember(ms[i])
    case _ => true
  }

  ghost predicate PlainMember(m: Member)
    decreases m
  {
    '\\' !in m.key && Plain(m.value)
  }

  lemma {:induction false} EscapeGrows(s: string)
    ensures |s| <= |Escape(s)|
    ensures '"' !in s ==> (Escape(s) == s <==> '\\' !in s)
    ensures '"' !in s && '\\' in s ==> |s| < |Escape(s)|
  {
    if s != [] {
      EscapeGrows(s[1..]);
    }
  }

  lemma {:induction false} EscapedIsSame(v: Json)
    requires Readable(v)
    ensures Escaped(v) == v <==> Plain(v)
    decreases v
  {
    match v
    case Str(s) => EscapeGrows(s);
    case Arr(items) =>
      forall i | 0 <= i < |items| ensures Escaped(items[i]) == items[i] <==> Plain(items[i]) {
        EscapedIsSame(items[i]);
      }
      assert Escaped(v) == v <==> forall i :: 0 <= i < |items| ==> Escaped(items[i]) == items[i];
    case Obj(ms) =>
      forall i | 0 <= i < |ms|
        ensures EscapedMembers(ms)[i] == ms[i] <==> PlainMember(ms[i])
      {
        assert ReadableMember(ms[i]);
        EscapeGrows(ms[i].key);
        EscapedIsSame(ms[i].value);
      }
      assert Escaped(v) == v <==> forall i :: 0 <= i < |ms| ==> EscapedMembers(ms)[i] == ms[i];
    case _ =>
  }

  lemma {:induction false} CleanIsReadable(v: Json)
    requires WellFormed(v) && NoReals(v)
    ensures Clean(v) <==> Readable(v)
    decreases v
  {
    match v
    case Arr(items) =>
      forall i | 0 <= i < |items| ensures Clean(items[i]) <==> Readable(items[i]) { CleanIsReadable(items[i]); }
    case Obj(ms) =>
      forall i | 0 <= i < |ms| ensures CleanMember(ms[i]) <==> ReadableMember(ms[i]) {
        CleanIsReadable(ms[i].value);
      }
    case _ =>
  }

  /** A scalar on its own is never reported, so the reader answers null. */
  lemma ScalarsAreNotReported(v: Json, style: Style)
    requires !v.Arr? && !v.Obj? && Readable(v) && NoReals(v)
    ensures Parse(Text(v, style, 0)) == Ok(Null)
  {
    hide Run, Parse, Quoted, Digits;
    match v {
      case Null => WordEmits("null", NullEvent);
      case Bool(b) => if b { WordEmits("true", TrueEvent); } else { WordEmits("false", FalseEvent); }
      case Int(n) => NumberEmits(n);
      case Str(s) => RunQuotedText(s);
    }
    NothingReported(Text(v, style, 0));
  }

  lemma NothingReported(text: string)
    requires Run(Indeterminate, text).ok && Run(Indeterminate, text).events == []
    ensures Parse(text) == Ok(Null)
  {
    hide Run;
    assert Build(START, []) == Ok(START);
  }

  /**
   Which values the round trip gives back: null, and every array or object of null,
   booleans, non-negative integers, strings without quotes and backslashes, and keys
   that are also not empty.
   */
  lemma RoundTrip(v: Json, style: Style)
    requires WellFormed(v) && NoReals(v)
    ensures Parse(Text(v, style, 0)) == Ok(v) <==>
            v.Null? || ((v.Arr? || v.Obj?) && Readable(v) && Plain(v))
  {
    CleanIsReadable(v);
    if Readable(v) {
      if v.Arr? || v.Obj? {
        ParseOfText(v, style);
        EscapedIsSame(v);
      } else {
        ScalarsAreNotReported(v, style);
      }
    } else if Parse(Text(v, style, 0)).Ok? {
      ParseIsClean(Text(v, style, 0));
    }
  }
}
