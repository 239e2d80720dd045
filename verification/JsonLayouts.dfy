/**
 All the ways to write a value down.

 A layout is a JSON text as it stands on paper: which space there is between any two tokens,
 with how many zeros a number starts, in which order the members of an object come and whether
 a key comes twice.  `Spell` is the text of a layout, and `Means` says which value it stands for,
 by sections 2 to 7 of RFC 8259 and the rule of `std::map::insert` that the first of equal keys
 counts.  The parser reads every layout as what it means.
 */
module JsonLayouts {
  import opened Basics
  import opened JsonValues
  import opened JsonText
  import opened JsonParser
  import opened JsonBuilder
  import opened JsonLexing

  datatype Layout =
    | Word(v: Json)                                  // null, true or false
    | Number(plus: bool, digits: string)             // the reader admits a plus sign
    | Quote(s: string)
    | List(pad: string, elements: seq<Element>)      // `pad` is the space in an empty one
    | Table(pad: string, entries: seq<Entry>)

  /** An element with the space around it. */
  datatype Element = Element(before: string, layout: Layout, after: string)

  /** A member with the space around its key and its value. */
  datatype Entry = Entry(before: string, key: string, gap: string, lead: string, layout: Layout, after: string)

  /** White space of section 2. */
  predicate Blank(w: string) { forall i :: 0 <= i < |w| ==> w[i] in " \t\n\r" }

  function PowerOfTen(n: nat): nat { if n == 0 then 1 else 10 * PowerOfTen(n - 1) }

  /** The value of digits by their places. */
  function PlaceValue(d: string): nat
    requires AllDigits(d)
  {
    if d == [] then 0 else (d[0] as int - '0' as int) * PowerOfTen(|d| - 1) + PlaceValue(d[1..])
  }

  /** Neither quotes nor backslashes. */
  predicate Unescaped(s: string) { '"' !in s && '\\' !in s }

  ghost predicate Proper(l: Layout)
    decreases l
  {
    match l
    case Word(v) => v.Null? || v.Bool?
    case Number(_, d) => d != [] && AllDigits(d) && PlaceValue(d) <= INT_MAX
    case Quote(s) => Unescaped(s)
    case List(pad, es) => Blank(pad) && forall i :: 0 <= i < |es| ==> ProperElement(es[i])
    case Table(pad, es) => Blank(pad) && forall i :: 0 <= i < |es| ==> ProperEntry(es[i])
  }

  ghost predicate ProperElement(e: Element)
    decreases e
  {
    Blank(e.before) && Proper(e.layout) && Blank(e.after)
  }

  ghost predicate ProperEntry(e: Entry)
    decreases e
  {
    && Blank(e.before) && e.key != "" && Unescaped(e.key) && Blank(e.gap)
    && Blank(e.lead) && Proper(e.layout) && Blank(e.after)
  }

  // ----- texts -----

  ghost function Spell(l: Layout): string
    decreases l, 1
  {
    match l
    case Word(v) => if v == Null then "null" else if v == Bool(true) then "true" else "false"
    case Number(plus, d) => if plus then "+" + d else d
    case Quote(s) => "\"" + s + "\""
    case List(pad, es) => if es == [] then "[" + pad + "]" else "[" + SpellElements(es) + "]"
    case Table(pad, es) => if es == [] then "{" + pad + "}" else "{" + SpellEntries(es) + "}"
  }

  ghost function SpellElement(e: Element): string
    decreases e, 0
  {
    e.before + Spell(e.layout) + e.after
  }

  ghost function SpellElements(es: seq<Element>): string
    decreases es, 0
  {
    if es == [] then "" else SpellElement(es[0]) + (if |es| == 1 then "" else "," + SpellElements(es[1..]))
  }

  ghost function SpellEntry(e: Entry): string
    decreases e, 0
  {
    e.before + "\"" + e.key + "\"" + e.gap + ":" + e.lead + Spell(e.layout) + e.after
  }

  ghost function SpellEntries(es: seq<Entry>): string
    decreases es, 0
  {
    if es == [] then "" else SpellEntry(es[0]) + (if |es| == 1 then "" else "," + SpellEntries(es[1..]))
  }

  // ----- values -----

  /** Entry `i` is the first with key `k`. */
  ghost predicate FirstWith(es: seq<Entry>, i: nat, k: string) {
    i < |es| && es[i].key == k && forall h :: 0 <= h < i ==> es[h].key != k
  }

  ghost predicate HasKey(ms: seq<Member>, k: string) { exists j :: 0 <= j < |ms| && ms[j].key == k }

  ghost predicate Means(l: Layout, v: Json)
    decreases l
  {
    match l
    case Word(w) => v == w
    case Number(_, d) => AllDigits(d) && v == Int(PlaceValue(d))
    case Quote(s) => v == Str(s)
    case List(_, es) =>
      v.Arr? && |v.items| == |es| && forall i :: 0 <= i < |es| ==> ElementMeans(es[i], v.items[i])
    case Table(_, es) =>
      && v.Obj? && Ascending(v.members)
      && (forall i :: 0 <= i < |es| ==> HasKey(v.members, es[i].key))
      && (forall j :: 0 <= j < |v.members| ==>
            exists i: nat :: FirstWith(es, i, v.members[j].key) && EntryMeans(es[i], v.members[j].value))
  }

  ghost predicate ElementMeans(e: Element, v: Json)
    decreases e
  {
    Means(e.layout, v)
  }

  ghost predicate EntryMeans(e: Entry, v: Json)
    decreases e
  {
    Means(e.layout, v)
  }

  // ----- what the parser makes of them -----

  ghost function Events(l: Layout): seq<Event>
    decreases l, 1
  {
    match l
    case Word(v) => [if v == Null then NullEvent else if v == Bool(true) then TrueEvent else FalseEvent]
    case Number(_, d) => [IntegerEvent(if AllDigits(d) then PlaceValue(d) else 0)]
    case Quote(s) => [StringEvent(s)]
    case List(_, es) => [StartArrayEvent] + ElementEvents(es) + [EndArrayEvent]
    case Table(_, es) => [StartObjectEvent] + EntryEvents(es) + [EndObjectEvent]
  }

  ghost function ElementEvents(es: seq<Element>): seq<Event>
    decreases es, 0
  {
    if es == [] then [] else Events(es[0].layout) + ElementEvents(es[1..])
  }

  ghost function EntryEvents(es: seq<Entry>): seq<Event>
    decreases es, 0
  {
    if es == [] then [] else [KeyEvent(es[0].key)] + Events(es[0].layout) + EntryEvents(es[1..])
  }

  lemma BlankIsSpace(w: string)
    requires Blank(w)
    ensures AllSpace(w)
  {
  }

  /** Places and the running value of the parser agree. */
  lemma {:induction false} PlaceValueIsNumeral(d: string)
    requires AllDigits(d)
    ensures PlaceValue(d) == Numeral(d)
  {
    if d != [] {
      var n := |d| - 1;
      var most, last := d[..n], d[n];
      PlaceValueIsNumeral(most);
      PlaceValueAppend(most, last);
      assert d == most + [last];
    }
  }

  lemma {:induction false} PlaceValueAppend(d: string, ch: char)
    requires AllDigits(d) && IsDigit(ch)
    ensures PlaceValue(d + [ch]) == 10 * PlaceValue(d) + (ch as int - '0' as int)
  {
    var digit := ch as int - '0' as int;
    if d == [] {
      assert d + [ch] == [ch] && [ch][1..] == [];
      assert PowerOfTen(0) == 1 && PlaceValue([ch]) == digit;
    } else {
      var r := d + [ch];
      assert r[1..] == d[1..] + [ch];
      PlaceValueAppend(d[1..], ch);
      var first, p := d[0] as int - '0' as int, PowerOfTen(|d| - 1);
      assert PowerOfTen(|d|) == 10 * p;
      assert first * (10 * p) == 10 * (first * p);
    }
  }

  lemma DigitsEmit(d: string)
    requires d != [] && AllDigits(d) && PlaceValue(d) <= INT_MAX
    ensures Emits(d, [IntegerEvent(PlaceValue(d))])
  {
    hide PlaceValue, Numeral, Feed;
    PlaceValueIsNumeral(d);
    FeedDigit(d[0]);
    RunDigits([d[0]], d[1..]);
    assert [d[0]] + d[1..] == d;
    assert Run(Indeterminate, d) == Outcome(ParsingNumber(d), [], true);
    assert d[0] != '+' && '.' !in d;
  }

  lemma SignedEmit(d: string)
    requires d != [] && AllDigits(d) && PlaceValue(d) <= INT_MAX
    ensures Emits("+" + d, [IntegerEvent(PlaceValue(d))])
  {
    hide PlaceValue, Numeral, Feed;
    PlaceValueIsNumeral(d);
    FeedPlus();
    RunOne(Indeterminate, '+');
    RunDigits("+", d);
    RunInTwo(Indeterminate, "+", d);
    assert ("+" + d)[1..] == d && '.' !in "+" + d;
  }

  lemma FeedPlus()
    ensures Feed(Indeterminate, '+') == Outcome(ParsingNumber("+"), [], true)
  {
  }

  lemma UnescapedIsPlain(s: string)
    requires Unescaped(s)
    ensures Escape(s) == s && Quoted(s) == "\"" + s + "\""
  {
    EscapeOfUnescaped(s);
  }

  lemma {:induction false} EscapeOfUnescaped(s: string)
    requires Unescaped(s)
    ensures Escape(s) == s
  {
    if s != [] {
      EscapeOfUnescaped(s[1..]);
      assert s == [s[0]] + s[1..];
    }
  }

  lemma {:induction false} SpellEmits(l: Layout)
    requires Proper(l)
    ensures Emits(Spell(l), Events(l))
    ensures l.List? || l.Table? ==> Settled(Spell(l), Events(l))
    decreases l, 1
  {
    match l
    case Word(v) => WordEmits(Spell(l), Events(l)[0]);
    case Number(plus, d) => if plus { SignedEmit(d); } else { DigitsEmit(d); }
    case Quote(s) =>
      UnescapedIsPlain(s);
      RunQuotedText(s);
    case List(pad, es) =>
      ListEmits(pad, es);
      SettledEmits(Spell(l), Events(l));
    case Table(pad, es) =>
      TableEmits(pad, es);
      SettledEmits(Spell(l), Events(l));
  }

  /** Space behind something settled. */
  lemma SettledSpace(a: string, ea: seq<Event>, w: string)
    requires Settled(a, ea) && Blank(w)
    ensures Settled(a + w, ea)
  {
    BlankIsSpace(w);
    SpacesOnly(w);
    AfterSettled(a, ea, w, []);
    assert ea + [] == ea;
  }

  lemma {:induction false} ListEmits(pad: string, es: seq<Element>)
    requires Blank(pad) && forall i :: 0 <= i < |es| ==> ProperElement(es[i])
    ensures Settled(Spell(List(pad, es)), Events(List(pad, es)))
    decreases es, 2
  {
    hide Emits, Settled, Run, Feed, Blank;
    Brackets();
    var open := [StartArrayEvent];
    if es == [] {
      SettledSpace("[", open, pad);
      AfterSettled("[" + pad, open, "]", [EndArrayEvent]);
      assert open + [] + [EndArrayEvent] == open + [EndArrayEvent];
    } else {
      ElementsEmit("[", open, es);
      Delimiter("[" + SpellElements(es), open + ElementEvents(es), ']');
    }
  }

  lemma {:induction false} ElementEmits(a: string, ea: seq<Event>, e: Element)
    requires Settled(a, ea) && ProperElement(e)
    ensures Emits(a + SpellElement(e), ea + Events(e.layout))
    decreases e, 1
  {
    hide Emits, Settled, Run, Feed, Blank, Spell, Events;
    var t, et := Spell(e.layout), Events(e.layout);
    SettledSpace(a, ea, e.before);
    SpellEmits(e.layout);
    AfterSettled(a + e.before, ea, t, et);
    BlankIsSpace(e.after);
    SpacesAfter(a + e.before + t, ea + et, e.after);
    assert a + e.before + t + e.after == a + SpellElement(e);
  }

  lemma {:induction false} ElementsEmit(a: string, ea: seq<Event>, es: seq<Element>)
    requires Settled(a, ea) && es != [] && forall i :: 0 <= i < |es| ==> ProperElement(es[i])
    ensures Emits(a + SpellElements(es), ea + ElementEvents(es))
    decreases es, 1
  {
    hide Emits, Settled, Run, Feed, ProperElement, SpellElement, Events;
    var t, et := SpellElement(es[0]), Events(es[0].layout);
    ElementEmits(a, ea, es[0]);
    if |es| == 1 {
      assert es[1..] == [] && et + [] == et && t + "" == t;
    } else {
      var more, later := SpellElements(es[1..]), ElementEvents(es[1..]);
      Comma(a + t, ea + et);
      ElementsEmit(a + t + ",", ea + et, es[1..]);
      assert a + t + "," + more == a + (t + ("," + more));
      assert ea + et + later == ea + (et + later);
    }
  }

  lemma Comma(a: string, ea: seq<Event>)
    requires Emits(a, ea)
    ensures Settled(a + ",", ea)
  {
    hide Emits, Settled, Run;
    Delimiter(a, ea, ',');
    assert ea + Feed(Indeterminate, ',').events == ea;
  }

  lemma {:induction false} TableEmits(pad: string, es: seq<Entry>)
    requires Blank(pad) && forall i :: 0 <= i < |es| ==> ProperEntry(es[i])
    ensures Settled(Spell(Table(pad, es)), Events(Table(pad, es)))
    decreases es, 2
  {
    hide Emits, Settled, Run, Feed, Blank;
    Brackets();
    var open := [StartObjectEvent];
    if es == [] {
      SettledSpace("{", open, pad);
      AfterSettled("{" + pad, open, "}", [EndObjectEvent]);
      assert open + [] + [EndObjectEvent] == open + [EndObjectEvent];
    } else {
      EntriesEmit("{", open, es);
      Delimiter("{" + SpellEntries(es), open + EntryEvents(es), '}');
    }
  }

  /** A key, with any space in front of its colon. */
  lemma SpacedKeySettles(k: string, gap: string)
    requires Unescaped(k) && Blank(gap)
    ensures Settled("\"" + k + "\"" + gap + ":", [KeyEvent(k)])
  {
    hide Run, Feed, Escape, Quoted;
    UnescapedIsPlain(k);
    RunQuotedText(k);
    var t := "\"" + k + "\"";
    RunInTwo(Indeterminate, t, gap);
    BlankIsSpace(gap);
    GapIsSkipped(k, gap);
    RunInTwo(Indeterminate, t + gap, ":");
    RunOne(ParsingString(k, true), ':');
    FeedQuote(k);
  }

  lemma {:induction false} GapIsSkipped(chars: string, w: string)
    requires AllSpace(w)
    ensures Run(ParsingString(chars, true), w) == Outcome(ParsingString(chars, true), [], true)
  {
    if w != [] { GapIsSkipped(chars, w[1..]); }
  }

  lemma {:induction false} EntryEmits(a: string, ea: seq<Event>, e: Entry)
    requires Settled(a, ea) && ProperEntry(e)
    ensures Emits(a + SpellEntry(e), ea + ([KeyEvent(e.key)] + Events(e.layout)))
    decreases e, 1
  {
    hide Emits, Settled, Run, Feed, Blank, Spell, Events;
    var key := "\"" + e.key + "\"" + e.gap + ":";
    var t, et := Spell(e.layout), Events(e.layout);
    SettledSpace(a, ea, e.before);
    SpacedKeySettles(e.key, e.gap);
    var b, eb := a + e.before + key, ea + [KeyEvent(e.key)];
    AfterSettled(a + e.before, ea, key, [KeyEvent(e.key)]);
    SettledSpace(b, eb, e.lead);
    SpellEmits(e.layout);
    AfterSettled(b + e.lead, eb, t, et);
    BlankIsSpace(e.after);
    SpacesAfter(b + e.lead + t, eb + et, e.after);
    assert b + e.lead + t + e.after == a + SpellEntry(e);
    assert eb + et == ea + ([KeyEvent(e.key)] + et);
  }

  lemma {:induction false} EntriesEmit(a: string, ea: seq<Event>, es: seq<Entry>)
    requires Settled(a, ea) && es != [] && forall i :: 0 <= i < |es| ==> ProperEntry(es[i])
    ensures Emits(a + SpellEntries(es), ea + EntryEvents(es))
    decreases es, 1
  {
    hide Emits, Settled, Run, Feed, ProperEntry, SpellEntry, Events;
    var key := [KeyEvent(es[0].key)];
    var t, et := SpellEntry(es[0]), key + Events(es[0].layout);
    EntryEmits(a, ea, es[0]);
    if |es| == 1 {
      assert es[1..] == [] && et + [] == et && t + "" == t;
    } else {
      var more, later := SpellEntries(es[1..]), EntryEvents(es[1..]);
      Comma(a + t, ea + et);
      EntriesEmit(a + t + ",", ea + et, es[1..]);
      assert a + t + "," + more == a + (t + ("," + more));
      assert ea + et + later == ea + (et + later);
    }
  }

  // ----- and what the builder makes of it -----

  /** The value the builder arrives at. */
  ghost function Tree(l: Layout): Json
    decreases l, 1
  {
    match l
    case Word(v) => v
    case Number(_, d) => Int(if AllDigits(d) then PlaceValue(d) else 0)
    case Quote(s) => Str(s)
    case List(_, es) => Arr(Trees(es))
    case Table(_, es) => Obj(Gathered([], es))
  }

  ghost function Trees(es: seq<Element>): (r: seq<Json>)
    ensures |r| == |es| && forall i :: 0 <= i < |es| ==> r[i] == Tree(es[i].layout)
    decreases es, 0
  {
    if es == [] then [] else [Tree(es[0].layout)] + Trees(es[1..])
  }

  ghost function Gathered(done: seq<Member>, es: seq<Entry>): seq<Member>
    decreases es, 0
  {
    if es == [] then done else Gathered(Insert(done, Member(es[0].key, Tree(es[0].layout))), es[1..])
  }

  lemma {:induction false} LayoutBuilds(stack: seq<Context>, l: Layout)
    requires Proper(l)
    ensures Build(stack, Events(l)) == HandleValue(stack, Tree(l))
    decreases l, 1
  {
    match l
    case List(pad, es) => ListBuilds(stack, pad, es);
    case Table(pad, es) => TableBuilds(stack, pad, es);
    case _ => BuildOne(stack);
  }

  lemma {:induction false} ListBuilds(stack: seq<Context>, pad: string, es: seq<Element>)
    requires forall i :: 0 <= i < |es| ==> ProperElement(es[i])
    ensures Build(stack, Events(List(pad, es))) == HandleValue(stack, Arr(Trees(es)))
    decreases es, 1
  {
    hide Build, HandleValue, Trees, ElementEvents, ProperElement;
    var events := ElementEvents(es);
    var started, filled := stack + [ArrayContext([])], stack + [ArrayContext(Trees(es))];
    assert [StartArrayEvent] + events + [EndArrayEvent] == [StartArrayEvent] + (events + [EndArrayEvent]);
    BuildInTwo(stack, [StartArrayEvent], events + [EndArrayEvent]);
    BuildOne(stack);
    BuildInTwo(started, events, [EndArrayEvent]);
    ElementsBuild(stack, [], es);
    assert [] + Trees(es) == Trees(es);
    BuildOne(filled);
    assert filled[..|stack|] == stack;
  }

  lemma {:induction false} ElementsBuild(stack: seq<Context>, done: seq<Json>, es: seq<Element>)
    requires forall i :: 0 <= i < |es| ==> ProperElement(es[i])
    ensures Build(stack + [ArrayContext(done)], ElementEvents(es)) == Ok(stack + [ArrayContext(done + Trees(es))])
    decreases es, 0
  {
    hide Build, Tree, Events;
    var s := stack + [ArrayContext(done)];
    if es == [] {
      BuildOne(s);
      assert done + [] == done;
    } else {
      assert ProperElement(es[0]);
      var v := Tree(es[0].layout);
      BuildInTwo(s, Events(es[0].layout), ElementEvents(es[1..]));
      LayoutBuilds(s, es[0].layout);
      assert s[..|stack|] == stack;
      ElementsBuild(stack, done + [v], es[1..]);
      assert done + [v] + Trees(es[1..]) == done + ([v] + Trees(es[1..]));
    }
  }

  lemma {:induction false} TableBuilds(stack: seq<Context>, pad: string, es: seq<Entry>)
    requires forall i :: 0 <= i < |es| ==> ProperEntry(es[i])
    ensures Build(stack, Events(Table(pad, es))) == HandleValue(stack, Obj(Gathered([], es)))
    decreases es, 1
  {
    hide Build, HandleValue, Gathered, EntryEvents, ProperEntry;
    var events := EntryEvents(es);
    var started, filled := stack + [ObjectContext([], "")], stack + [ObjectContext(Gathered([], es), "")];
    assert [StartObjectEvent] + events + [EndObjectEvent] == [StartObjectEvent] + (events + [EndObjectEvent]);
    BuildInTwo(stack, [StartObjectEvent], events + [EndObjectEvent]);
    BuildOne(stack);
    BuildInTwo(started, events, [EndObjectEvent]);
    EntriesBuild(stack, [], es);
    BuildOne(filled);
    assert filled[..|stack|] == stack;
  }

  lemma {:induction false} EntriesBuild(stack: seq<Context>, done: seq<Member>, es: seq<Entry>)
    requires forall i :: 0 <= i < |es| ==> ProperEntry(es[i])
    ensures Build(stack + [ObjectContext(done, "")], EntryEvents(es))
         == Ok(stack + [ObjectContext(Gathered(done, es), "")])
    decreases es, 0
  {
    hide Build, Tree, Events, Insert;
    var s := stack + [ObjectContext(done, "")];
    if es == [] {
      BuildOne(s);
    } else {
      assert ProperEntry(es[0]);
      var key, rest := es[0].key, EntryEvents(es[1..]);
      var named := stack + [ObjectContext(done, key)];
      assert s[..|stack|] == stack && named[..|stack|] == stack;
      BuildInTwo(s, [KeyEvent(key)], Events(es[0].layout) + rest);
      BuildOne(s);
      BuildInTwo(named, Events(es[0].layout), rest);
      LayoutBuilds(named, es[0].layout);
      EntriesBuild(stack, Insert(done, Member(key, Tree(es[0].layout))), es[1..]);
      assert [KeyEvent(key)] + Events(es[0].layout) + rest == [KeyEvent(key)] + (Events(es[0].layout) + rest);
    }
  }

  // ----- which is what the layout means -----

  /** The first entry with a key, as a value. */
  ghost function FirstValue(es: seq<Entry>, k: string): Option<Json>
    decreases es, 2
  {
    if es == [] then None
    else if es[0].key == k then Some(Tree(es[0].layout))
    else FirstValue(es[1..], k)
  }

  lemma {:induction false} GatheredFinds(done: seq<Member>, es: seq<Entry>, k: string)
    requires Ascending(done)
    ensures Ascending(Gathered(done, es))
    ensures Find(Gathered(done, es), k) == if Find(done, k).Some? then Find(done, k) else FirstValue(es, k)
    decreases |es|
  {
    if es != [] {
      hide Insert, Tree;
      var m := Member(es[0].key, Tree(es[0].layout));
      InsertIs(done, m);
      GatheredFinds(Insert(done, m), es[1..], k);
    }
  }

  lemma {:induction false} FirstValueIs(es: seq<Entry>, i: nat, k: string)
    requires FirstWith(es, i, k)
    ensures FirstValue(es, k) == Some(Tree(es[i].layout))
    decreases i
  {
    if i > 0 {
      assert es[0].key != k;
      assert forall h :: 0 <= h < i - 1 ==> es[1..][h].key == es[h + 1].key;
      FirstValueIs(es[1..], i - 1, k);
    }
  }

  lemma {:induction false} NoFirstValue(es: seq<Entry>, k: string)
    requires forall i :: 0 <= i < |es| ==> es[i].key != k
    ensures FirstValue(es, k).None?
    decreases |es|
  {
    if es != [] { NoFirstValue(es[1..], k); }
  }

  lemma {:induction false} TreeIsMeant(l: Layout, v: Json)
    requires Proper(l) && Means(l, v)
    ensures Tree(l) == v
    decreases l
  {
    match l
    case List(_, es) =>
      forall i | 0 <= i < |es| ensures Tree(es[i].layout) == v.items[i] {
        assert ElementMeans(es[i], v.items[i]) && ProperElement(es[i]);
        TreeIsMeant(es[i].layout, v.items[i]);
      }
      assert Trees(es) == v.items;
    case Table(_, es) =>
      forall k ensures Find(Gathered([], es), k) == Find(v.members, k) {
        GatheredFinds([], es, k);
        EntryIsMeant(es, v.members, k);
      }
      GatheredFinds([], es, "");
      MapsAreEqual(Gathered([], es), v.members);
    case _ =>
  }

  lemma {:induction false} EntryIsMeant(es: seq<Entry>, ms: seq<Member>, k: string)
    requires forall i :: 0 <= i < |es| ==> ProperEntry(es[i])
    requires forall i :: 0 <= i < |es| ==> HasKey(ms, es[i].key)
    requires forall j :: 0 <= j < |ms| ==>
      exists i: nat :: FirstWith(es, i, ms[j].key) && EntryMeans(es[i], ms[j].value)
    ensures FirstValue(es, k) == Find(ms, k)
    decreases es
  {
    FindIn(ms, k);
    if Find(ms, k).Some? {
      var m := Member(k, Find(ms, k).value);
      var j :| 0 <= j < |ms| && ms[j] == m;
      var i: nat :| FirstWith(es, i, ms[j].key) && EntryMeans(es[i], ms[j].value);
      FirstValueIs(es, i, k);
      TreeIsMeant(es[i].layout, m.value);
    } else {
      forall i | 0 <= i < |es| ensures es[i].key != k {
        var j :| 0 <= j < |ms| && ms[j].key == es[i].key;
        assert ms[j] in ms;
      }
      NoFirstValue(es, k);
    }
  }

  /** Every layout means something, and so is read. */
  lemma {:induction false} EveryLayoutMeans(l: Layout)
    requires Proper(l)
    ensures Means(l, Tree(l))
    decreases l
  {
    match l
    case List(_, es) =>
      forall i | 0 <= i < |es| ensures ElementMeans(es[i], Tree(l).items[i]) {
        assert ProperElement(es[i]);
        EveryLayoutMeans(es[i].layout);
      }
    case Table(_, es) =>
      var ms := Gathered([], es);
      GatheredFinds([], es, "");
      forall i | 0 <= i < |es| ensures HasKey(ms, es[i].key) {
        GatheredFinds([], es, es[i].key);
        SomeFirstValue(es, i);
        FindIn(ms, es[i].key);
      }
      forall j | 0 <= j < |ms|
        ensures exists i: nat :: FirstWith(es, i, ms[j].key) && EntryMeans(es[i], ms[j].value)
      {
        var k := ms[j].key;
        GatheredFinds([], es, k);
        FindAt(ms, j);
        var i := FirstEntry(es, k);
        assert ProperEntry(es[i]);
        EveryLayoutMeans(es[i].layout);
      }
    case _ =>
  }

  lemma {:induction false} SomeFirstValue(es: seq<Entry>, i: nat)
    requires i < |es|
    ensures FirstValue(es, es[i].key).Some?
    decreases i
  {
    if i > 0 { SomeFirstValue(es[1..], i - 1); }
  }

  lemma {:induction false} FirstEntry(es: seq<Entry>, k: string) returns (i: nat)
    requires FirstValue(es, k).Some?
    ensures FirstWith(es, i, k) && FirstValue(es, k) == Some(Tree(es[i].layout))
    decreases |es|
  {
    i := 0;
    if es[0].key != k {
      var h := FirstEntry(es[1..], k);
      i := h + 1;
    }
  }

  lemma FindAt(ms: seq<Member>, j: nat)
    requires Ascending(ms) && j < |ms|
    ensures Find(ms, ms[j].key) == Some(ms[j].value)
    decreases |ms|
  {
    if j > 0 {
      AscendingTail(ms);
      assert ms[1..][j - 1] == ms[j] && ms[j] in ms[1..];
      FindAt(ms[1..], j - 1);
    }
  }

  /** However an array or object is written down, with any space around it, it is read as what it means. */
  lemma ParseOfLayout(before: string, l: Layout, after: string, v: Json)
    requires Blank(before) && Blank(after) && (l.List? || l.Table?) && Proper(l) && Means(l, v)
    ensures Parse(before + Spell(l) + after) == Ok(v)
  {
    hide Spell, Events, Blank;
    BlankIsSpace(before);
    SpacesOnly(before);
    SpellEmits(l);
    AfterSettled(before, [], Spell(l), Events(l));
    assert [] + Events(l) == Events(l);
    SettledSpace(before + Spell(l), Events(l), after);
    LayoutBuilds(START, l);
    TreeIsMeant(l, v);
    assert START[..0] == [];
  }

  // ----- what the parser refuses -----

  /** Nothing but space, letters, digits, a plus sign, quotes, brackets and commas can follow a token. */
  predicate Stray(ch: char) { !IsSpace(ch) && !IsAlpha(ch) && !IsDigit(ch) && ch !in "+\"[],{}" }

  /** Once the parser has refused something, no text behind it helps. */
  lemma RefusedForGood(a: string, b: string)
    requires !Run(Indeterminate, a).ok
    ensures Parse(a + b) == Threw
  {
    RunInTwo(Indeterminate, a, b);
  }

  /** A minus sign, for one, is refused, and so is every other stray character between tokens. */
  lemma StrayThrows(a: string, ea: seq<Event>, ch: char, b: string)
    requires Settled(a, ea) && Stray(ch)
    ensures Parse(a + [ch] + b) == Threw
  {
    RunInTwo(Indeterminate, a, [ch]);
    RunOne(Indeterminate, ch);
    RefusedForGood(a + [ch], b);
  }

  /** So is a word that is none of the three names. */
  lemma UnknownWordThrows(a: string, ea: seq<Event>, w: string, d: char, b: string)
    requires Settled(a, ea) && w != [] && w !in ["null", "true", "false"] && d in ",]} "
    requires forall i :: 0 <= i < |w| ==> IsAlpha(w[i])
    ensures Parse(a + w + [d] + b) == Threw
  {
    hide Run, IsAlpha;
    WordIsRead(w);
    RunInTwo(Indeterminate, a, w);
    RunInTwo(Indeterminate, a + w, [d]);
    RunOne(ParsingLiteral(w), d);
    UnknownWordIsRefused(w, d);
    RefusedForGood(a + w + [d], b);
  }

  lemma WordIsRead(w: string)
    requires w != [] && forall i :: 0 <= i < |w| ==> IsAlpha(w[i])
    ensures Run(Indeterminate, w) == Outcome(ParsingLiteral(w), [], true)
  {
    hide Feed, IsAlpha;
    FeedLetter(w[0]);
    RunLetters([w[0]], w[1..]);
    assert [w[0]] + w[1..] == w;
  }

  lemma UnknownWordIsRefused(w: string, d: char)
    requires w !in ["null", "true", "false"] && d in ",]} "
    ensures !Feed(ParsingLiteral(w), d).ok
  {
  }

  /** So is a number that does not fit into 64 bits. */
  lemma BigNumberThrows(a: string, ea: seq<Event>, n: string, d: char, b: string)
    requires Settled(a, ea) && n != [] && AllDigits(n) && PlaceValue(n) > INT_MAX && d in ",]} "
    ensures Parse(a + n + [d] + b) == Threw
  {
    hide Run, PlaceValue, Numeral;
    PlaceValueIsNumeral(n);
    NumberIsRead(n);
    RunInTwo(Indeterminate, a, n);
    RunInTwo(Indeterminate, a + n, [d]);
    RunOne(ParsingNumber(n), d);
    BigNumberIsRefused(n, d);
    RefusedForGood(a + n + [d], b);
  }

  lemma NumberIsRead(n: string)
    requires n != [] && AllDigits(n)
    ensures Run(Indeterminate, n) == Outcome(ParsingNumber(n), [], true)
  {
    hide Feed;
    FeedDigit(n[0]);
    RunDigits([n[0]], n[1..]);
    assert [n[0]] + n[1..] == n;
  }

  lemma BigNumberIsRefused(n: string, d: char)
    requires n != [] && AllDigits(n) && Numeral(n) > INT_MAX && d in ",]} "
    ensures !Feed(ParsingNumber(n), d).ok
  {
    hide Numeral;
    assert n[0] != '+' && '.' !in n;
  }

  /** The kinds of the open brackets, and what an event does to them; none if it does not fit. */
  ghost function Nested(open: seq<bool>, e: Event): Option<seq<bool>> {
    match e
    case StartArrayEvent => Some(open + [true])
    case StartObjectEvent => Some(open + [false])
    case EndArrayEvent => if open != [] && open[|open| - 1] then Some(open[..|open| - 1]) else None
    case EndObjectEvent => if open != [] && !open[|open| - 1] then Some(open[..|open| - 1]) else None
    case _ => Some(open)
  }

  /** Brackets that match: `events` lead from the open ones to `end`. */
  ghost predicate Matched(open: seq<bool>, events: seq<Event>, end: seq<bool>)
    decreases |events|
  {
    if events == [] then open == end
    else Nested(open, events[0]).Some? && Matched(Nested(open, events[0]).value, events[1..], end)
  }

  /** The builder's stack: one value context at the bottom, and a context for each open bracket. */
  ghost predicate Mirrors(stack: seq<Context>, open: seq<bool>) {
    && |stack| == |open| + 1 && stack[0].ValueContext?
    && forall i :: 0 <= i < |open| ==> if open[i] then stack[i + 1].ArrayContext? else stack[i + 1].ObjectContext?
  }

  lemma HandlingNests(stack: seq<Context>, open: seq<bool>, e: Event)
    requires Mirrors(stack, open) && HandleEvent(stack, e).Ok?
    ensures Nested(open, e).Some? && Mirrors(HandleEvent(stack, e).value, Nested(open, e).value)
  {
    hide Insert;
  }

  lemma {:induction false} BuildingNests(stack: seq<Context>, open: seq<bool>, events: seq<Event>)
    returns (end: seq<bool>)
    requires Mirrors(stack, open) && Build(stack, events).Ok?
    ensures Matched(open, events, end) && Mirrors(Build(stack, events).value, end)
    decreases |events|
  {
    end := open;
    if events != [] {
      HandlingNests(stack, open, events[0]);
      hide HandleEvent, Mirrors, Nested;
      end := BuildingNests(HandleEvent(stack, events[0]).value, Nested(open, events[0]).value, events[1..]);
    }
  }

  /** A text that is parsed has its brackets matched and all of them closed. */
  lemma ParsedIsMatched(text: string)
    requires Parse(text).Ok?
    ensures Run(Indeterminate, text).ok && Matched([], Run(Indeterminate, text).events, [])
  {
    hide Run, Build, Matched;
    var events := Run(Indeterminate, text).events;
    var end := BuildingNests(START, [], events);
    assert |end| == 0;
  }

  /** In an object every value needs a key: the text behind `{` is not a value, nor is the key empty. */
  lemma KeylessThrows(a: string, ea: seq<Event>, stack: seq<Context>, ms: seq<Member>, l: Layout, d: char, b: string)
    requires Settled(a, ea) && Build(START, ea) == Ok(stack + [ObjectContext(ms, "")]) && Proper(l) && d in ",]}"
    ensures Parse(a + Spell(l) + [d] + b) == Threw
  {
    hide Spell, Events, Build, Feed;
    var t, et := Spell(l), Events(l);
    SpellEmits(l);
    AfterSettled(a, ea, t, et);
    Delimiter(a + t, ea + et, d);
    var ed := Feed(Indeterminate, d).events;
    RunInTwo(Indeterminate, a + t + [d], b);
    var rest := Run(Indeterminate, b);
    LayoutBuilds(stack + [ObjectContext(ms, "")], l);
    BuildInTwo(START, ea, et);
    BuildInTwo(START, ea + et, ed);
    BuildInTwo(START, ea + et + ed, rest.events);
  }
}
