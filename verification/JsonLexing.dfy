/**
 What the parser makes of serialized text.

 A container's text leaves the parser idle; a scalar's text leaves its event pending until
 the next character.  `Emits` covers both, and the lemmas here say how it composes.
 */
module JsonLexing {
  import opened JsonValues
  import opened JsonText
  import opened JsonParser

  /** The event a busy state will emit at the next delimiter. */
  ghost function Pending(state: State): seq<Event> {
    match state
    case Indeterminate => []
    case ParsingLiteral(chars) => [LiteralEvent(chars)]
    case ParsingNumber(chars) =>
      if '.' !in chars && CastInteger(chars).Value? then [IntegerEvent(CastInteger(chars).value)] else [ErrorEvent]
    case ParsingString(chars, closed) => if closed then [StringEvent(chars)] else [ErrorEvent]
  }

  ghost predicate Settled(text: string, events: seq<Event>) {
    Run(Indeterminate, text) == Outcome(Indeterminate, events, true)
  }

  ghost predicate Emits(text: string, events: seq<Event>) {
    var r := Run(Indeterminate, text);
    r.ok && Pending(r.state) != [ErrorEvent] && r.events + Pending(r.state) == events
  }

  lemma SettledEmits(text: string, events: seq<Event>)
    requires Settled(text, events)
    ensures Emits(text, events)
  {
  }

  lemma AfterSettled(a: string, ea: seq<Event>, b: string, eb: seq<Event>)
    requires Settled(a, ea)
    ensures Settled(b, eb) ==> Settled(a + b, ea + eb)
    ensures Emits(b, eb) ==> Emits(a + b, ea + eb)
  {
    RunInTwo(Indeterminate, a, b);
  }

  lemma RunOne(state: State, ch: char)
    ensures Run(state, [ch]) == Feed(state, ch)
  {
    hide Feed;
    var f := Feed(state, ch);
    assert [ch][1..] == [];
    assert Run(f.state, []) == Outcome(f.state, [], true);
    assert f.events + [] == f.events;
  }

  lemma FeedDelimiter(state: State, d: char)
    requires Pending(state) != [ErrorEvent] && d in ",]}"
    ensures Feed(state, d) == Outcome(Indeterminate, Pending(state) + Feed(Indeterminate, d).events, true)
  {
    hide CastInteger, LiteralEvent;
    if state == Indeterminate {
      assert [] + Feed(Indeterminate, d).events == Feed(Indeterminate, d).events;
    }
  }

  lemma FeedSpace(state: State, ch: char)
    requires Pending(state) != [ErrorEvent] && IsSpace(ch)
    ensures var f := Feed(state, ch);
            f.ok && Pending(f.state) != [ErrorEvent] && f.events + Pending(f.state) == Pending(state)
  {
    hide CastInteger, LiteralEvent;
  }

  /** A delimiter flushes what is pending and is then taken by the idle parser. */
  lemma Delimiter(a: string, ea: seq<Event>, d: char)
    requires Emits(a, ea) && d in ",]}"
    ensures Settled(a + [d], ea + Feed(Indeterminate, d).events)
  {
    hide Feed, Pending;
    var r := Run(Indeterminate, a);
    RunInTwo(Indeterminate, a, [d]);
    RunOne(r.state, d);
    FeedDelimiter(r.state, d);
    var p, q := Pending(r.state), Feed(Indeterminate, d).events;
    assert r.events + (p + q) == r.events + p + q;
  }

  ghost predicate AllSpace(w: string) {
    forall i :: 0 <= i < |w| ==> IsSpace(w[i])
  }

  lemma {:induction false} SpacesOnly(w: string)
    requires AllSpace(w)
    ensures Settled(w, [])
  {
    if w != [] {
      SpacesOnly(w[1..]);
    }
  }

  /** Space after a scalar may flush it or not; either way the same event comes out. */
  lemma {:induction false} SpacesAfter(a: string, ea: seq<Event>, w: string)
    requires Emits(a, ea) && AllSpace(w)
    ensures Emits(a + w, ea)
    decreases |w|
  {
    hide Run, Feed, Pending;
    if w == [] {
      assert a + w == a;
    } else {
      var r := Run(Indeterminate, a);
      RunInTwo(Indeterminate, a, [w[0]]);
      RunOne(r.state, w[0]);
      FeedSpace(r.state, w[0]);
      var f := Feed(r.state, w[0]);
      assert r.events + f.events + Pending(f.state) == r.events + (f.events + Pending(f.state));
      SpacesAfter(a + [w[0]], ea, w[1..]);
      assert a + w == a + [w[0]] + w[1..];
    }
  }

  // ----- scalars -----

  lemma {:induction false} RunLetters(chars: string, w: string)
    requires forall i :: 0 <= i < |w| ==> IsAlpha(w[i])
    ensures Run(ParsingLiteral(chars), w) == Outcome(ParsingLiteral(chars + w), [], true)
    decreases |w|
  {
    if w == [] {
      assert chars + w == chars;
    } else {
      RunLetters(chars + [w[0]], w[1..]);
      assert chars + w == chars + [w[0]] + w[1..];
    }
  }

  lemma {:induction false} RunDigits(chars: string, w: string)
    requires AllDigits(w)
    ensures Run(ParsingNumber(chars), w) == Outcome(ParsingNumber(chars + w), [], true)
    decreases |w|
  {
    if w == [] {
      assert chars + w == chars;
    } else {
      RunDigits(chars + [w[0]], w[1..]);
      assert chars + w == chars + [w[0]] + w[1..];
    }
  }

  lemma {:induction false} RunQuoted(chars: string, w: string)
    requires '"' !in w
    ensures Run(ParsingString(chars, false), w) == Outcome(ParsingString(chars + w, false), [], true)
    decreases |w|
  {
    if w == [] {
      assert chars + w == chars;
    } else {
      RunQuoted(chars + [w[0]], w[1..]);
      assert chars + w == chars + [w[0]] + w[1..];
    }
  }

  lemma FeedLetter(ch: char)
    requires IsAlpha(ch)
    ensures Feed(Indeterminate, ch) == Outcome(ParsingLiteral([ch]), [], true)
  {
  }

  lemma WordEmits(w: string, e: Event)
    requires w != [] && forall i :: 0 <= i < |w| ==> IsAlpha(w[i])
    requires LiteralEvent(w) == e != ErrorEvent
    ensures Emits(w, [e]) && Run(Indeterminate, w).events == []
  {
    hide Feed, LiteralEvent, IsAlpha;
    FeedLetter(w[0]);
    RunLetters([w[0]], w[1..]);
    assert [w[0]] + w[1..] == w;
    assert Run(Indeterminate, w) == Outcome(ParsingLiteral(w), [], true);
  }

  lemma {:induction false} DigitsRoundTrip(n: nat)
    ensures AllDigits(Digits(n)) && Digits(n) != [] && Numeral(Digits(n)) == n
  {
    if n >= 10 {
      DigitsRoundTrip(n / 10);
      assert Digits(n)[..|Digits(n)| - 1] == Digits(n / 10);
    }
  }

  lemma FeedDigit(ch: char)
    requires IsDigit(ch)
    ensures Feed(Indeterminate, ch) == Outcome(ParsingNumber([ch]), [], true)
  {
  }

  lemma NumberEmits(n: nat)
    requires n <= INT_MAX
    ensures Emits(Digits(n), [IntegerEvent(n)]) && Run(Indeterminate, Digits(n)).events == []
  {
    hide Digits, Numeral, Feed;
    var w := Digits(n);
    DigitsRoundTrip(n);
    FeedDigit(w[0]);
    RunDigits([w[0]], w[1..]);
    assert [w[0]] + w[1..] == w;
    assert Run(Indeterminate, w) == Outcome(ParsingNumber(w), [], true);
    assert w[0] != '+' && '.' !in w;
  }

  lemma {:induction false} EscapeAddsNoQuote(s: string)
    requires '"' !in s
    ensures '"' !in Escape(s)
  {
    if s != [] {
      EscapeAddsNoQuote(s[1..]);
    }
  }

  /** The quotes around a string, and the colon behind a key. */
  lemma FeedQuote(chars: string)
    ensures Feed(Indeterminate, '"') == Outcome(ParsingString([], false), [], true)
    ensures Feed(ParsingString(chars, false), '"') == Outcome(ParsingString(chars, true), [], true)
    ensures Feed(ParsingString(chars, true), ':') == Outcome(Indeterminate, [KeyEvent(chars)], true)
  {
  }

  /** The text up to the closing quote: the characters come back escaped. */
  lemma RunQuotedText(s: string)
    requires '"' !in s
    ensures Run(Indeterminate, Quoted(s)) == Outcome(ParsingString(Escape(s), true), [], true)
  {
    hide Run, Feed, Escape;
    EscapeAddsNoQuote(s);
    RunQuoted([], Escape(s));
    assert [] + Escape(s) == Escape(s);
    RunInTwo(Indeterminate, "\"", Escape(s));
    RunInTwo(Indeterminate, "\"" + Escape(s), "\"");
    RunOne(Indeterminate, '"');
    RunOne(ParsingString(Escape(s), false), '"');
    FeedQuote(Escape(s));
  }

  lemma KeySettles(k: string)
    requires '"' !in k
    ensures Settled(Quoted(k) + ":", [KeyEvent(Escape(k))])
  {
    hide Run, Feed, Escape, Quoted;
    RunQuotedText(k);
    RunInTwo(Indeterminate, Quoted(k), ":");
    RunOne(ParsingString(Escape(k), true), ':');
    FeedQuote(Escape(k));
  }

  // ----- whole values -----

  /** Values the parser can read back, up to backslashes. */
  ghost predicate Readable(v: Json)
    decreases v
  {
    match v
    case Null => true
    case Bool(_) => true
    case Int(n) => 0 <= n <= INT_MAX
    case Real(_) => false
    case Str(s) => '"' !in s
    case Arr(items) => forall i :: 0 <= i < |items| ==> Readable(items[i])
    case Obj(ms) => forall i :: 0 <= i < |ms| ==> ReadableMember(ms[i])
  }

  ghost predicate ReadableMember(m: Member)
    decreases m
  {
    m.key != "" && '"' !in m.key && Readable(m.value)
  }

  /** The events of a value whose strings come back escaped. */
  ghost function EventsOf(v: Json): seq<Event>
    decreases v, 1
  {
    match v
    case Null => [NullEvent]
    case Bool(b) => [if b then TrueEvent else FalseEvent]
    case Int(n) => [IntegerEvent(n)]
    case Real(x) => [FloatEvent(x)]
    case Str(s) => [StringEvent(Escape(s))]
    case Arr(items) => [StartArrayEvent] + ItemEvents(items) + [EndArrayEvent]
    case Obj(ms) => [StartObjectEvent] + MemberEvents(ms) + [EndObjectEvent]
  }

  ghost function ItemEvents(items: seq<Json>): seq<Event>
    decreases items, 0
  {
    if items == [] then [] else EventsOf(items[0]) + ItemEvents(items[1..])
  }

  ghost function MemberEvents(ms: seq<Member>): seq<Event>
    decreases ms, 0
  {
    if ms == [] then []
    else [KeyEvent(Escape(ms[0].key))] + EventsOf(ms[0].value) + MemberEvents(ms[1..])
  }

  lemma {:induction false} ReadableHasNoReals(v: Json)
    requires Readable(v)
    ensures NoReals(v)
    decreases v
  {
    match v
    case Arr(items) =>
      forall i | 0 <= i < |items| ensures NoReals(items[i]) { ReadableHasNoReals(items[i]); }
    case Obj(ms) =>
      forall i | 0 <= i < |ms| ensures NoReals(ms[i].value) {
        assert ReadableMember(ms[i]);
        ReadableHasNoReals(ms[i].value);
      }
    case _ =>
  }

  lemma NewlineIsSpace(style: Style, indent: nat)
    ensures AllSpace(NewlineText(style, indent))
  {
    if style.Pretty? { RepeatIsSpace(indent); }
  }

  lemma {:induction false} RepeatIsSpace(n: nat)
    ensures AllSpace(Repeat(INDENT_ITEM, n))
  {
    if n > 0 { RepeatIsSpace(n - 1); }
  }

  /** `[`, `,` or the like from an idle parser, then a line break. */
  lemma OpenSettles(ch: char, style: Style, indent: nat)
    requires ch in ",[{"
    ensures Settled([ch] + NewlineText(style, indent), Feed(Indeterminate, ch).events)
  {
    RunOne(Indeterminate, ch);
    NewlineIsSpace(style, indent);
    SpacesOnly(NewlineText(style, indent));
    AfterSettled([ch], Feed(Indeterminate, ch).events, NewlineText(style, indent), []);
    assert Feed(Indeterminate, ch).events + [] == Feed(Indeterminate, ch).events;
  }

  /** The text of a value gives the events of the value, and a container leaves the parser idle. */
  lemma {:induction false} TextEmits(v: Json, style: Style, indent: nat)
    requires Readable(v) && NoReals(v)
    ensures Emits(Text(v, style, indent), EventsOf(v))
    ensures v.Arr? || v.Obj? ==> Settled(Text(v, style, indent), EventsOf(v))
    decreases v, 1
  {
    match v
    case Null => WordEmits("null", NullEvent);
    case Bool(b) => if b { WordEmits("true", TrueEvent); } else { WordEmits("false", FalseEvent); }
    case Int(n) => NumberEmits(n);
    case Str(s) => RunQuotedText(s);
    case Arr(items) =>
      ArrayEmits(items, style, indent);
      SettledEmits(Text(v, style, indent), EventsOf(v));
    case Obj(ms) =>
      ObjectEmits(ms, style, indent);
      SettledEmits(Text(v, style, indent), EventsOf(v));
  }

  lemma CommaThen(a: string, ea: seq<Event>, t: string, et: seq<Event>, style: Style, indent: nat)
    requires Emits(a, ea) && Emits(t, et)
    ensures Emits(a + ("," + NewlineText(style, indent) + t), ea + et)
  {
    hide Run, Pending, NewlineText;
    var w := NewlineText(style, indent);
    Delimiter(a, ea, ',');
    assert ea + Feed(Indeterminate, ',').events == ea;
    NewlineIsSpace(style, indent);
    SpacesOnly(w);
    AfterSettled(a + ",", ea, w, []);
    assert ea + [] == ea;
    AfterSettled(a + "," + w, ea, t, et);
    assert a + "," + w + t == a + ("," + w + t);
  }

  /** The end of a container: a line break, then the closing bracket. */
  lemma CloseSettles(a: string, ea: seq<Event>, ch: char, style: Style, indent: nat)
    requires Emits(a, ea) && ch in "]}"
    ensures Settled(a + NewlineText(style, indent) + [ch], ea + Feed(Indeterminate, ch).events)
  {
    hide Emits, Settled, Feed, NewlineText;
    NewlineIsSpace(style, indent);
    SpacesAfter(a, ea, NewlineText(style, indent));
    Delimiter(a + NewlineText(style, indent), ea, ch);
  }

  lemma Brackets()
    ensures Feed(Indeterminate, '[').events == [StartArrayEvent] && Settled("[", [StartArrayEvent])
    ensures Feed(Indeterminate, ']').events == [EndArrayEvent] && Settled("]", [EndArrayEvent])
    ensures Feed(Indeterminate, '{').events == [StartObjectEvent] && Settled("{", [StartObjectEvent])
    ensures Feed(Indeterminate, '}').events == [EndObjectEvent] && Settled("}", [EndObjectEvent])
  {
    RunOne(Indeterminate, '[');
    RunOne(Indeterminate, ']');
    RunOne(Indeterminate, '{');
    RunOne(Indeterminate, '}');
  }

  lemma {:induction false} ArrayEmits(items: seq<Json>, style: Style, indent: nat)
    requires forall i :: 0 <= i < |items| ==> Readable(items[i]) && NoReals(items[i])
    ensures Settled(Text(Arr(items), style, indent), EventsOf(Arr(items)))
    decreases items, 2
  {
    hide Emits, Settled, Run, Feed, Readable, NewlineText, Deeper;
    Brackets();
    if items == [] {
      AfterSettled("[", [StartArrayEvent], "]", [EndArrayEvent]);
      assert "[" + "]" == Text(Arr(items), style, indent);
      assert [StartArrayEvent] + [EndArrayEvent] == EventsOf(Arr(items));
    } else {
      var d := Deeper(style, indent);
      var t0, e0 := "[" + NewlineText(style, d), [StartArrayEvent];
      OpenSettles('[', style, d);
      var t1, e1 := Text(items[0], style, d), EventsOf(items[0]);
      TextEmits(items[0], style, d);
      AfterSettled(t0, e0, t1, e1);
      MoreItemsEmit(t0 + t1, e0 + e1, items[1..], style, d);
      var t2, e2 := t0 + t1 + MoreItems(items[1..], style, d), e0 + e1 + ItemEvents(items[1..]);
      CloseSettles(t2, e2, ']', style, indent);
      assert e2 == e0 + ItemEvents(items);
    }
  }

  lemma {:induction false} MoreItemsEmit(a: string, ea: seq<Event>, items: seq<Json>, style: Style, indent: nat)
    requires Emits(a, ea)
    requires forall i :: 0 <= i < |items| ==> Readable(items[i]) && NoReals(items[i])
    ensures Emits(a + MoreItems(items, style, indent), ea + ItemEvents(items))
    decreases items, 1
  {
    hide Emits;
    if items == [] {
      assert a + "" == a && ea + [] == ea;
    } else {
      var t, e := Text(items[0], style, indent), EventsOf(items[0]);
      TextEmits(items[0], style, indent);
      CommaThen(a, ea, t, e, style, indent);
      var head := "," + NewlineText(style, indent) + t;
      MoreItemsEmit(a + head, ea + e, items[1..], style, indent);
      assert a + head + MoreItems(items[1..], style, indent) == a + (head + MoreItems(items[1..], style, indent));
      assert ea + e + ItemEvents(items[1..]) == ea + (e + ItemEvents(items[1..]));
    }
  }

  lemma {:induction false} MemberEmits(m: Member, style: Style, indent: nat)
    requires ReadableMember(m) && NoReals(m.value)
    ensures Emits(MemberText(m, style, indent), [KeyEvent(Escape(m.key))] + EventsOf(m.value))
    decreases m, 0
  {
    var k, e := Quoted(m.key) + ":", [KeyEvent(Escape(m.key))];
    KeySettles(m.key);
    TextEmits(m.value, style, indent);
    SpacesOnly(SpaceText(style));
    hide Emits, Settled;
    AfterSettled(k, e, SpaceText(style), []);
    assert e + [] == e;
    AfterSettled(k + SpaceText(style), e, Text(m.value, style, indent), EventsOf(m.value));
  }

  lemma {:induction false} ObjectEmits(ms: seq<Member>, style: Style, indent: nat)
    requires forall i :: 0 <= i < |ms| ==> ReadableMember(ms[i]) && NoReals(ms[i].value)
    ensures Settled(Text(Obj(ms), style, indent), EventsOf(Obj(ms)))
    decreases ms, 2
  {
    hide Emits, Settled, Run, Feed;
    Brackets();
    if ms == [] {
      AfterSettled("{", [StartObjectEvent], "}", [EndObjectEvent]);
      assert "{" + "}" == Text(Obj(ms), style, indent);
      assert [StartObjectEvent] + [EndObjectEvent] == EventsOf(Obj(ms));
    } else {
      var d := Deeper(style, indent);
      var t0, e0 := "{" + NewlineText(style, d), [StartObjectEvent];
      OpenSettles('{', style, d);
      var t1, e1 := MemberText(ms[0], style, d), [KeyEvent(Escape(ms[0].key))] + EventsOf(ms[0].value);
      MemberEmits(ms[0], style, d);
      AfterSettled(t0, e0, t1, e1);
      MoreMembersEmit(t0 + t1, e0 + e1, ms[1..], style, d);
      var t2, e2 := t0 + t1 + MoreMembers(ms[1..], style, d), e0 + e1 + MemberEvents(ms[1..]);
      CloseSettles(t2, e2, '}', style, indent);
      assert e2 == e0 + MemberEvents(ms);
    }
  }

  lemma {:induction false} MoreMembersEmit(a: string, ea: seq<Event>, ms: seq<Member>, style: Style, indent: nat)
    requires Emits(a, ea)
    requires forall i :: 0 <= i < |ms| ==> ReadableMember(ms[i]) && NoReals(ms[i].value)
    ensures Emits(a + MoreMembers(ms, style, indent), ea + MemberEvents(ms))
    decreases ms, 1
  {
    hide Emits;
    if ms == [] {
      assert a + "" == a && ea + [] == ea;
    } else {
      var t, e := MemberText(ms[0], style, indent), [KeyEvent(Escape(ms[0].key))] + EventsOf(ms[0].value);
      MemberEmits(ms[0], style, indent);
      CommaThen(a, ea, t, e, style, indent);
      var head := "," + NewlineText(style, indent) + t;
      MoreMembersEmit(a + head, ea + e, ms[1..], style, indent);
      assert a + head + MoreMembers(ms[1..], style, indent) == a + (head + MoreMembers(ms[1..], style, indent));
      assert ea + e + MemberEvents(ms[1..]) == ea + (e + MemberEvents(ms[1..]));
    }
  }
}
