/**
 What the serializer writes is JSON.

 `ReadDocument` is a reader by the grammar of RFC 8259 (sections 2 to 7), apart from the
 library's own: it wants exactly one comma between elements, reads the sign of a number and the
 escapes of a string, and refuses control characters in strings.  Numbers with a fraction or an
 exponent are not integers and are refused.
 */
module JsonStrict {
  import opened Basics
  import opened JsonValues
  import opened JsonText
  import opened JsonParser
  import opened JsonLayouts

  datatype Read<+T> = Got(value: T, rest: string) | Bad

  function SkipBlank(s: string): (r: string)
    ensures |r| <= |s|
  {
    if s != [] && s[0] in " \t\n\r" then SkipBlank(s[1..]) else s
  }

  predicate Starts(s: string, ch: char) { s != [] && s[0] == ch }

  /** One of the three names of section 3. */
  function ReadName(s: string, name: string, v: Json): Read<Json> {
    if |name| <= |s| && s[..|name|] == name then Got(v, s[|name|..]) else Bad
  }

  /** The digits at the front, and what follows them. */
  function TakeDigits(s: string): (r: (string, string))
    ensures r.0 + r.1 == s && AllDigits(r.0)
  {
    if s != [] && IsDigit(s[0]) then var (d, t) := TakeDigits(s[1..]); ([s[0]] + d, t) else ([], s)
  }

  /** Section 6: no leading zeros, and here no fraction and no exponent. */
  function ReadNumber(s: string): (r: Read<Json>)
    ensures r.Got? ==> |r.rest| < |s|
  {
    var negative := Starts(s, '-');
    var (d, t) := TakeDigits(if negative then s[1..] else s);
    var n: int := PlaceValue(d);
    if d == [] || (d[0] == '0' && |d| > 1) || (t != [] && t[0] in ".eE") then Bad
    else Got(Int(if negative then -n else n), t)
  }

  function HexDigit(ch: char): Option<nat> {
    if '0' <= ch <= '9' then Some(ch as int - '0' as int)
    else if 'a' <= ch <= 'f' then Some(ch as int - 'a' as int + 10)
    else if 'A' <= ch <= 'F' then Some(ch as int - 'A' as int + 10)
    else None
  }

  /** The four digits behind a backslash and `u`, for characters that need no second unit. */
  function HexChar(s: string): Option<char>
    requires |s| == 4
  {
    match (HexDigit(s[0]), HexDigit(s[1]), HexDigit(s[2]), HexDigit(s[3]))
    case (Some(a), Some(b), Some(c), Some(d)) =>
      var n := ((a * 16 + b) * 16 + c) * 16 + d;
      if n < 0xD800 || 0xE000 <= n < 0x10000 then Some(n as char) else None
    case _ => None
  }

  /** Section 7: the character of an escape, by the one behind the backslash. */
  function Escaped(ch: char): Option<char> {
    if ch == '"' || ch == '\\' || ch == '/' then Some(ch)
    else if ch == 'b' then Some(8 as char)
    else if ch == 'f' then Some(12 as char)
    else if ch == 'n' then Some('\n')
    else if ch == 'r' then Some('\r')
    else if ch == 't' then Some('\t')
    else None
  }

  /** The rest of a string, behind its opening quote. */
  function ReadChars(s: string): (r: Read<string>)
    ensures r.Got? ==> |r.rest| < |s|
  {
    if s == [] || s[0] < ' ' then Bad
    else if s[0] == '"' then Got([], s[1..])
    else if s[0] != '\\' then Put(s[0], ReadChars(s[1..]))
    else if |s| >= 2 && Escaped(s[1]).Some? then Put(Escaped(s[1]).value, ReadChars(s[2..]))
    else if |s| >= 6 && s[1] == 'u' && HexChar(s[2..6]).Some? then Put(HexChar(s[2..6]).value, ReadChars(s[6..]))
    else Bad
  }

  function Put(ch: char, r: Read<string>): Read<string> {
    match r
    case Got(t, rest) => Got([ch] + t, rest)
    case Bad => Bad
  }

  function ReadValue(s: string): (r: Read<Json>)
    ensures r.Got? ==> |r.rest| < |s|
    decreases |s|, 0
  {
    if Starts(s, 'n') then ReadName(s, "null", Null)
    else if Starts(s, 't') then ReadName(s, "true", Bool(true))
    else if Starts(s, 'f') then ReadName(s, "false", Bool(false))
    else if Starts(s, '"') then
      match ReadChars(s[1..])
      case Got(t, rest) => Got(Str(t), rest)
      case Bad => Bad
    else if Starts(s, '[') then
      var t := SkipBlank(s[1..]);
      if Starts(t, ']') then Got(Arr([]), t[1..])
      else
        match ReadItems(t)
        case Got(items, rest) => Got(Arr(items), rest)
        case Bad => Bad
    else if Starts(s, '{') then
      var t := SkipBlank(s[1..]);
      if Starts(t, '}') then Got(Obj([]), t[1..])
      else
        match ReadMembers(t)
        case Got(ms, rest) => Got(Obj(ms), rest)
        case Bad => Bad
    else ReadNumber(s)
  }

  /** Elements up to the closing bracket; there is at least one. */
  function ReadItems(s: string): (r: Read<seq<Json>>)
    ensures r.Got? ==> |r.rest| < |s|
    decreases |s|, 1
  {
    match ReadValue(s)
    case Bad => Bad
    case Got(v, rest) =>
      var t := SkipBlank(rest);
      if Starts(t, ']') then Got([v], t[1..])
      else if Starts(t, ',') then
        match ReadItems(SkipBlank(t[1..]))
        case Got(items, end) => Got([v] + items, end)
        case Bad => Bad
      else Bad
  }

  /** A member: a string, a colon, a value. */
  function ReadMember(s: string): (r: Read<Member>)
    ensures r.Got? ==> |r.rest| < |s|
    decreases |s|, 1
  {
    if !Starts(s, '"') then Bad
    else
      match ReadChars(s[1..])
      case Bad => Bad
      case Got(key, rest) =>
        var t := SkipBlank(rest);
        if !Starts(t, ':') then Bad
        else
          match ReadValue(SkipBlank(t[1..]))
          case Got(v, end) => Got(Member(key, v), end)
          case Bad => Bad
  }

  function ReadMembers(s: string): (r: Read<seq<Member>>)
    ensures r.Got? ==> |r.rest| < |s|
    decreases |s|, 2
  {
    match ReadMember(s)
    case Bad => Bad
    case Got(m, rest) =>
      var t := SkipBlank(rest);
      if Starts(t, '}') then Got([m], t[1..])
      else if Starts(t, ',') then
        match ReadMembers(SkipBlank(t[1..]))
        case Got(ms, end) => Got([m] + ms, end)
        case Bad => Bad
      else Bad
  }

  function ReadDocument(text: string): Option<Json> {
    match ReadValue(SkipBlank(text))
    case Got(v, rest) => if SkipBlank(rest) == [] then Some(v) else None
    case Bad => None
  }

  // ----- strings and numbers -----

  /** No control characters, which the serializer writes as they are. */
  predicate Printable(s: string) { forall i :: 0 <= i < |s| ==> s[i] >= ' ' }

  /** One character of a string, as it is written. */
  lemma {:induction false} ReadOfOne(ch: char, more: string)
    ensures ReadChars(Escape([ch]) + more) == if ch >= ' ' then Put(ch, ReadChars(more)) else Bad
  {
    assert [ch][1..] == [] && Escape([]) == [];
    if ch == '"' || ch == '\\' {
      assert Escape([ch]) == ['\\', ch];
      assert (['\\', ch] + more)[2..] == more;
    } else {
      assert Escape([ch]) == [ch];
      assert ([ch] + more)[1..] == more;
    }
  }

  lemma {:induction false} EscapeStep(s: string, tail: string)
    requires s != []
    ensures Escape(s) + tail == Escape([s[0]]) + (Escape(s[1..]) + tail)
  {
    assert [s[0]][1..] == [] && Escape([]) == [];
  }

  lemma {:induction false} ReadOfEscape(s: string, rest: string)
    ensures ReadChars(Escape(s) + ("\"" + rest)) == if Printable(s) then Got(s, rest) else Bad
  {
    var tail := "\"" + rest;
    if s == [] {
      assert Escape(s) + tail == tail && tail[1..] == rest;
    } else {
      hide ReadChars, Escape;
      ReadOfEscape(s[1..], rest);
      EscapeStep(s, tail);
      ReadOfOne(s[0], Escape(s[1..]) + tail);
      assert Printable(s) <==> s[0] >= ' ' && Printable(s[1..]);
      assert s == [s[0]] + s[1..];
    }
  }

  lemma ReadOfQuoted(s: string, rest: string)
    ensures Starts(Quoted(s) + rest, '"')
    ensures ReadChars((Quoted(s) + rest)[1..]) == if Printable(s) then Got(s, rest) else Bad
  {
    hide ReadChars;
    ReadOfEscape(s, rest);
    assert (Quoted(s) + rest)[1..] == Escape(s) + ("\"" + rest);
  }

  /** Nothing that would go on with a number. */
  predicate Ends(rest: string) { rest != [] ==> !IsDigit(rest[0]) && rest[0] !in ".eE" }

  lemma {:induction false} TakeOfDigits(d: string, rest: string)
    requires AllDigits(d) && Ends(rest)
    ensures TakeDigits(d + rest) == (d, rest)
  {
    if d == [] {
      assert d + rest == rest;
    } else {
      TakeOfDigits(d[1..], rest);
      assert (d + rest)[1..] == d[1..] + rest && d == [d[0]] + d[1..];
    }
  }

  lemma {:induction false} DigitsAreCanonical(n: nat)
    ensures var d := Digits(n); d != [] && AllDigits(d) && PlaceValue(d) == n && (d[0] == '0' ==> n == 0 && |d| == 1)
  {
    if n >= 10 {
      DigitsAreCanonical(n / 10);
      PlaceValueAppend(Digits(n / 10), '0' + (n % 10) as char);
    } else {
      var none: string := [];
      PlaceValueAppend(none, '0' + n as char);
      assert none + ['0' + n as char] == Digits(n);
    }
  }

  lemma {:induction false} ReadOfDigits(d: string, negative: bool, rest: string)
    requires Ends(rest) && d != [] && AllDigits(d) && (d[0] == '0' ==> |d| == 1)
    ensures var n: int := PlaceValue(d);
            ReadNumber((if negative then "-" + d else d) + rest) == Got(Int(if negative then -n else n), rest)
  {
    hide TakeDigits, PlaceValue, AllDigits;
    TakeOfDigits(d, rest);
    FirstIsDigit(d);
    var t := (if negative then "-" + d else d) + rest;
    assert negative ==> t[1..] == d + rest;
    assert Starts(t, '-') <==> negative;
  }

  lemma FirstIsDigit(d: string)
    requires d != [] && AllDigits(d)
    ensures IsDigit(d[0]) && d[0] != '-'
  {
  }

  lemma ReadOfDecimal(n: int, rest: string)
    requires Ends(rest)
    ensures ReadNumber(Decimal(n) + rest) == Got(Int(n), rest)
    ensures var t := Decimal(n) + rest; t != [] && (t[0] == '-' || IsDigit(t[0]))
  {
    hide Digits, PlaceValue, ReadNumber, AllDigits;
    var d := Digits(if n < 0 then -n else n);
    DigitsAreCanonical(if n < 0 then -n else n);
    FirstIsDigit(d);
    ReadOfDigits(d, n < 0, rest);
  }

  // ----- whole values -----

  /** No control characters in any string or key. */
  ghost predicate AllPrintable(v: Json)
    decreases v
  {
    match v
    case Str(s) => Printable(s)
    case Arr(items) => forall i :: 0 <= i < |items| ==> AllPrintable(items[i])
    case Obj(ms) => forall i :: 0 <= i < |ms| ==> PrintableMember(ms[i])
    case _ => true
  }

  ghost predicate PrintableMember(m: Member)
    decreases m
  {
    Printable(m.key) && AllPrintable(m.value)
  }

  /** The text starts with something that is no space. */
  predicate Solid(s: string) { s != [] && s[0] !in " \t\n\r" }

  lemma {:induction false} SkipRepeated(n: nat, x: string)
    requires Solid(x)
    ensures SkipBlank(Repeat(INDENT_ITEM, n) + x) == x
  {
    if n == 0 {
      assert Repeat(INDENT_ITEM, n) + x == x;
    } else {
      SkipRepeated(n - 1, x);
      RepeatInFront(n);
      var r := Repeat(INDENT_ITEM, n - 1) + x;
      assert Repeat(INDENT_ITEM, n) + x == " " + (" " + (" " + (" " + r)));
      SkipOne(' ', r);
      SkipOne(' ', " " + r);
      SkipOne(' ', " " + (" " + r));
      SkipOne(' ', " " + (" " + (" " + r)));
    }
  }

  lemma SkipOne(ch: char, x: string)
    requires ch in " \t\n\r"
    ensures SkipBlank([ch] + x) == SkipBlank(x)
  {
    assert ([ch] + x)[1..] == x;
  }

  lemma {:induction false} RepeatInFront(n: nat)
    requires n > 0
    ensures Repeat(INDENT_ITEM, n) == INDENT_ITEM + Repeat(INDENT_ITEM, n - 1)
  {
    if n > 1 { RepeatInFront(n - 1); }
  }

  lemma SkipNewline(style: Style, indent: nat, x: string)
    requires Solid(x)
    ensures SkipBlank(NewlineText(style, indent) + x) == x
  {
    if style.Compressed? {
      assert NewlineText(style, indent) + x == x;
    } else {
      var r := Repeat(INDENT_ITEM, indent) + x;
      assert NewlineText(style, indent) + x == "\n" + r && ("\n" + r)[1..] == r;
      SkipRepeated(indent, x);
    }
  }

  /** What follows a value: it ends a number. */
  lemma AfterValue(style: Style, indent: nat, x: string)
    requires x != [] && x[0] in ",]}"
    ensures Ends(NewlineText(style, indent) + x) && Solid(x)
  {
    if style.Pretty? { assert (NewlineText(style, indent) + x)[0] == '\n'; }
  }

  lemma TextIsSolid(v: Json, style: Style, indent: nat, rest: string)
    requires NoReals(v)
    ensures var t := Text(v, style, indent) + rest; Solid(t) && t[0] !in "]}," && !Starts(t, ']') && !Starts(t, '}')
  {
    hide Digits, Escape, MoreItems, MoreMembers, MemberText;
    match v
    case Int(n) => DigitsAreCanonical(if n < 0 then -n else n);
    case _ =>
  }

  /** The strict reader gives every value back, unless a string of it has a control character. */
  lemma {:induction false} ReadOfText(v: Json, style: Style, indent: nat, rest: string)
    requires NoReals(v) && Ends(rest)
    ensures ReadValue(Text(v, style, indent) + rest) == if AllPrintable(v) then Got(v, rest) else Bad
    decreases v, 2
  {
    hide ReadChars, ReadNumber, ReadItems, ReadMembers, SkipBlank, Quoted, Decimal;
    var t := Text(v, style, indent) + rest;
    match v
    case Null => assert t[..4] == "null" && t[4..] == rest;
    case Bool(b) =>
      if b { assert t[..4] == "true" && t[4..] == rest; } else { assert t[..5] == "false" && t[5..] == rest; }
    case Int(n) => ReadOfDecimal(n, rest);
    case Str(s) => ReadOfQuoted(s, rest);
    case Arr(items) => ReadOfArray(items, style, indent, rest);
    case Obj(ms) => ReadOfObject(ms, style, indent, rest);
  }

  lemma {:induction false} ReadOfArray(items: seq<Json>, style: Style, indent: nat, rest: string)
    requires forall i :: 0 <= i < |items| ==> NoReals(items[i])
    ensures ReadValue(Text(Arr(items), style, indent) + rest) ==
            if AllPrintable(Arr(items)) then Got(Arr(items), rest) else Bad
    decreases items, 3
  {
    hide SkipBlank, ReadItems, NewlineText, MoreItems, Deeper;
    var t := Text(Arr(items), style, indent) + rest;
    assert Starts(t, '[');
    if items == [] {
      assert t[1..] == "]" + rest && ("]" + rest)[1..] == rest;
      SolidIsKept("]" + rest);
    } else {
      var d := Deeper(style, indent);
      var tail := NewlineText(style, indent) + ("]" + rest);
      var body := Text(items[0], style, d) + (MoreItems(items[1..], style, d) + tail);
      Unbracketed("[", NewlineText(style, d), Text(items[0], style, d), MoreItems(items[1..], style, d),
                  NewlineText(style, indent), "]", rest);
      assert t[1..] == NewlineText(style, d) + body;
      TextIsSolid(items[0], style, d, MoreItems(items[1..], style, d) + tail);
      SkipNewline(style, d, body);
      ReadOfItems(items, style, d, indent, rest);
    }
  }

  /** The text of a container behind its opening bracket. */
  lemma Unbracketed(open: string, a: string, b: string, c: string, d: string, close: string, rest: string)
    requires |open| == 1
    ensures (open + a + b + c + d + close + rest)[1..] == a + (b + (c + (d + (close + rest))))
  {
    assert open + a + b + c + d + close + rest == open + (a + (b + (c + (d + (close + rest)))));
  }

  lemma SolidIsKept(s: string)
    requires Solid(s)
    ensures SkipBlank(s) == s
  {
  }

  lemma {:induction false} ReadOfItems(items: seq<Json>, style: Style, d: nat, indent: nat, rest: string)
    requires items != [] && forall i :: 0 <= i < |items| ==> NoReals(items[i])
    ensures var tail := NewlineText(style, indent) + ("]" + rest);
            ReadItems(Text(items[0], style, d) + (MoreItems(items[1..], style, d) + tail)) ==
            if forall i :: 0 <= i < |items| ==> AllPrintable(items[i]) then Got(items, rest) else Bad
    decreases items, 0
  {
    hide SkipBlank, ReadValue, NewlineText, Text;
    var tail := NewlineText(style, indent) + ("]" + rest);
    var after := MoreItems(items[1..], style, d) + tail;
    assert items == [items[0]] + items[1..];
    if |items| == 1 {
      assert items == [items[0]] && items[1..] == [] && after == tail;
      assert AllPrintable(items[0]) <==> forall i :: 0 <= i < |items| ==> AllPrintable(items[i]);
      AfterValue(style, indent, "]" + rest);
      SkipNewline(style, indent, "]" + rest);
      ReadOfText(items[0], style, d, after);
      assert ("]" + rest)[1..] == rest;
    } else {
      var more := items[1..];
      var next := Text(more[0], style, d) + (MoreItems(more[1..], style, d) + tail);
      assert after == "," + (NewlineText(style, d) + next);
      ReadOfText(items[0], style, d, after);
      SolidIsKept(after);
      assert after[1..] == NewlineText(style, d) + next;
      TextIsSolid(more[0], style, d, MoreItems(more[1..], style, d) + tail);
      SkipNewline(style, d, next);
      ReadOfItems(more, style, d, indent, rest);
    }
  }

  lemma {:induction false} ReadOfObject(ms: seq<Member>, style: Style, indent: nat, rest: string)
    requires forall i :: 0 <= i < |ms| ==> NoReals(ms[i].value)
    ensures ReadValue(Text(Obj(ms), style, indent) + rest) ==
            if AllPrintable(Obj(ms)) then Got(Obj(ms), rest) else Bad
    decreases ms, 3
  {
    hide SkipBlank, ReadMembers, NewlineText, MoreMembers, MemberText, Deeper;
    var t := Text(Obj(ms), style, indent) + rest;
    assert Starts(t, '{');
    if ms == [] {
      assert t[1..] == "}" + rest && ("}" + rest)[1..] == rest;
      SolidIsKept("}" + rest);
    } else {
      var d := Deeper(style, indent);
      var tail := NewlineText(style, indent) + ("}" + rest);
      var body := MemberText(ms[0], style, d) + (MoreMembers(ms[1..], style, d) + tail);
      Unbracketed("{", NewlineText(style, d), MemberText(ms[0], style, d), MoreMembers(ms[1..], style, d),
                  NewlineText(style, indent), "}", rest);
      assert t[1..] == NewlineText(style, d) + body;
      MemberIsSolid(ms[0], style, d, MoreMembers(ms[1..], style, d) + tail);
      SkipNewline(style, d, body);
      ReadOfMembers(ms, style, d, indent, rest);
    }
  }

  lemma MemberIsSolid(m: Member, style: Style, indent: nat, rest: string)
    requires NoReals(m.value)
    ensures var t := MemberText(m, style, indent) + rest; Solid(t) && !Starts(t, '}') && !Starts(t, ']')
  {
    assert (MemberText(m, style, indent) + rest)[0] == '"';
  }

  lemma {:induction false} ReadOfMember(m: Member, style: Style, d: nat, rest: string)
    requires NoReals(m.value) && Ends(rest)
    ensures ReadMember(MemberText(m, style, d) + rest) == if PrintableMember(m) then Got(m, rest) else Bad
    decreases m, 3
  {
    hide SkipBlank, ReadValue, ReadChars, Text, Quoted;
    var value := Text(m.value, style, d) + rest;
    var colon := ":" + (SpaceText(style) + value);
    assert MemberText(m, style, d) + rest == Quoted(m.key) + colon;
    ReadOfQuoted(m.key, colon);
    SolidIsKept(colon);
    assert colon[1..] == SpaceText(style) + value;
    TextIsSolid(m.value, style, d, rest);
    SkipSpaceText(style, value);
    ReadOfText(m.value, style, d, rest);
  }

  lemma SkipSpaceText(style: Style, x: string)
    requires Solid(x)
    ensures SkipBlank(SpaceText(style) + x) == x
  {
    if style.Compressed? { assert SpaceText(style) + x == x; } else { assert (" " + x)[1..] == x; }
  }

  lemma {:induction false} ReadOfMembers(ms: seq<Member>, style: Style, d: nat, indent: nat, rest: string)
    requires ms != [] && forall i :: 0 <= i < |ms| ==> NoReals(ms[i].value)
    ensures var tail := NewlineText(style, indent) + ("}" + rest);
            ReadMembers(MemberText(ms[0], style, d) + (MoreMembers(ms[1..], style, d) + tail)) ==
            if forall i :: 0 <= i < |ms| ==> PrintableMember(ms[i]) then Got(ms, rest) else Bad
    decreases ms, 0
  {
    hide SkipBlank, ReadMember, NewlineText, MemberText;
    var tail := NewlineText(style, indent) + ("}" + rest);
    var after := MoreMembers(ms[1..], style, d) + tail;
    assert ms == [ms[0]] + ms[1..];
    if |ms| == 1 {
      assert ms == [ms[0]] && ms[1..] == [] && after == tail;
      assert PrintableMember(ms[0]) <==> forall i :: 0 <= i < |ms| ==> PrintableMember(ms[i]);
      AfterValue(style, indent, "}" + rest);
      SkipNewline(style, indent, "}" + rest);
      ReadOfMember(ms[0], style, d, after);
      assert ("}" + rest)[1..] == rest;
    } else {
      var more := ms[1..];
      var next := MemberText(more[0], style, d) + (MoreMembers(more[1..], style, d) + tail);
      assert after == "," + (NewlineText(style, d) + next);
      ReadOfMember(ms[0], style, d, after);
      SolidIsKept(after);
      assert after[1..] == NewlineText(style, d) + next;
      MemberIsSolid(more[0], style, d, MoreMembers(more[1..], style, d) + tail);
      SkipNewline(style, d, next);
      ReadOfMembers(more, style, d, indent, rest);
    }
  }

  /** What is written is the JSON text of the value, exactly when no string has a control character. */
  lemma TextIsJson(v: Json, style: Style)
    requires NoReals(v)
    ensures ReadDocument(Text(v, style, 0)) == if AllPrintable(v) then Some(v) else None
  {
    hide SkipBlank, ReadValue, Text;
    var text := Text(v, style, 0);
    TextIsSolid(v, style, 0, "");
    assert text + "" == text;
    SolidIsKept(text);
    ReadOfText(v, style, 0, "");
    NothingToSkip();
  }

  lemma NothingToSkip()
    ensures SkipBlank("") == ""
  {
  }

  // ----- how it is laid out -----

  /** What follows a string, from behind its opening quote. */
  function AfterString(s: string): (r: Option<string>)
    ensures r.Some? ==> |r.value| < |s|
  {
    if s == [] then None
    else if s[0] == '"' then Some(s[1..])
    else if s[0] != '\\' then AfterString(s[1..])
    else if |s| >= 2 then AfterString(s[2..])
    else None
  }

  lemma {:induction false} AfterOne(ch: char, more: string)
    ensures AfterString(Escape([ch]) + more) == AfterString(more)
  {
    assert [ch][1..] == [] && Escape([]) == [];
    if ch == '"' || ch == '\\' {
      assert Escape([ch]) == ['\\', ch];
      assert (['\\', ch] + more)[2..] == more;
    } else {
      assert Escape([ch]) == [ch];
      assert ([ch] + more)[1..] == more;
    }
  }

  lemma {:induction false} AfterQuoted(s: string, rest: string)
    ensures AfterString(Escape(s) + ("\"" + rest)) == Some(rest)
  {
    var tail := "\"" + rest;
    if s == [] {
      assert Escape(s) + tail == tail && tail[1..] == rest;
    } else {
      hide AfterString, Escape;
      AfterQuoted(s[1..], rest);
      EscapeStep(s, tail);
      AfterOne(s[0], Escape(s[1..]) + tail);
    }
  }

  /** No space outside strings. */
  predicate Tight(s: string)
    decreases |s|
  {
    s == [] ||
      if s[0] == '"' then AfterString(s[1..]).Some? && Tight(AfterString(s[1..]).value)
      else s[0] !in " \t\n\r" && Tight(s[1..])
  }

  /** Neither space nor anything with a meaning of its own. */
  predicate Bare(w: string) { forall i :: 0 <= i < |w| ==> w[i] !in " \t\n\r\"[]{},:" }

  lemma {:induction false} TightBehind(w: string, rest: string)
    requires Bare(w)
    ensures Tight(w + rest) == Tight(rest)
  {
    if w == [] {
      assert w + rest == rest;
    } else {
      TightBehind(w[1..], rest);
      assert (w + rest)[1..] == w[1..] + rest;
    }
  }

  lemma TightMark(ch: char, rest: string)
    requires ch in "[]{},:"
    ensures Tight([ch] + rest) == Tight(rest)
  {
    assert ([ch] + rest)[1..] == rest;
  }

  lemma TightQuoted(s: string, rest: string)
    ensures Tight(Quoted(s) + rest) == Tight(rest)
  {
    AfterQuoted(s, rest);
    hide AfterString, Escape;
    assert (Quoted(s) + rest)[1..] == Escape(s) + ("\"" + rest);
  }

  lemma {:induction false} DigitsAreBare(n: nat)
    ensures Bare(Digits(n))
  {
    DigitsAreCanonical(n);
    forall i | 0 <= i < |Digits(n)| ensures Digits(n)[i] !in " \t\n\r\"[]{},:" { assert IsDigit(Digits(n)[i]); }
  }

  lemma DecimalIsBare(n: int)
    ensures Bare(Decimal(n)) && Decimal(n) != []
  {
    DigitsAreBare(if n < 0 then -n else n);
    DigitsAreCanonical(if n < 0 then -n else n);
  }

  /** The compressed style has no space outside strings. */
  lemma {:induction false} TightText(v: Json, indent: nat, rest: string)
    requires NoReals(v)
    ensures Tight(Text(v, Compressed, indent) + rest) == Tight(rest)
    decreases v, 2
  {
    hide Tight, Decimal, Quoted;
    match v
    case Null => TightBehind("null", rest);
    case Bool(b) => TightBehind(if b then "true" else "false", rest);
    case Int(n) =>
      DecimalIsBare(n);
      TightBehind(Decimal(n), rest);
    case Str(s) => TightQuoted(s, rest);
    case Arr(items) => TightArray(items, indent, rest);
    case Obj(ms) => TightObject(ms, indent, rest);
  }

  lemma {:induction false} TightArray(items: seq<Json>, indent: nat, rest: string)
    requires forall i :: 0 <= i < |items| ==> NoReals(items[i])
    ensures Tight(Text(Arr(items), Compressed, indent) + rest) == Tight(rest)
    decreases items, 1
  {
    hide Tight, MoreItems;
    TightMark(']', rest);
    if items == [] {
      TightMark('[', "]" + rest);
      assert "[]" + rest == "[" + ("]" + rest);
    } else {
      var first, more := Text(items[0], Compressed, indent), MoreItems(items[1..], Compressed, indent);
      TightMark('[', first + (more + ("]" + rest)));
      TightText(items[0], indent, more + ("]" + rest));
      TightItems(items[1..], indent, "]" + rest);
      assert Text(Arr(items), Compressed, indent) + rest == "[" + (first + (more + ("]" + rest)));
    }
  }

  lemma {:induction false} TightItems(items: seq<Json>, indent: nat, rest: string)
    requires forall i :: 0 <= i < |items| ==> NoReals(items[i])
    ensures Tight(MoreItems(items, Compressed, indent) + rest) == Tight(rest)
    decreases items, 0
  {
    hide Tight, Text;
    if items == [] {
      assert "" + rest == rest;
    } else {
      var first, more := Text(items[0], Compressed, indent), MoreItems(items[1..], Compressed, indent);
      TightMark(',', first + (more + rest));
      TightText(items[0], indent, more + rest);
      TightItems(items[1..], indent, rest);
      assert MoreItems(items, Compressed, indent) + rest == "," + (first + (more + rest));
    }
  }

  lemma {:induction false} TightObject(ms: seq<Member>, indent: nat, rest: string)
    requires forall i :: 0 <= i < |ms| ==> NoReals(ms[i].value)
    ensures Tight(Text(Obj(ms), Compressed, indent) + rest) == Tight(rest)
    decreases ms, 1
  {
    hide Tight, MoreMembers, MemberText;
    TightMark('}', rest);
    if ms == [] {
      TightMark('{', "}" + rest);
      assert "{}" + rest == "{" + ("}" + rest);
    } else {
      var first, more := MemberText(ms[0], Compressed, indent), MoreMembers(ms[1..], Compressed, indent);
      TightMark('{', first + (more + ("}" + rest)));
      TightMember(ms[0], indent, more + ("}" + rest));
      TightMembers(ms[1..], indent, "}" + rest);
      assert Text(Obj(ms), Compressed, indent) + rest == "{" + (first + (more + ("}" + rest)));
    }
  }

  lemma {:induction false} TightMember(m: Member, indent: nat, rest: string)
    requires NoReals(m.value)
    ensures Tight(MemberText(m, Compressed, indent) + rest) == Tight(rest)
    decreases m, 3
  {
    hide Tight, Text, Quoted;
    var value := Text(m.value, Compressed, indent);
    TightQuoted(m.key, ":" + (value + rest));
    TightMark(':', value + rest);
    TightText(m.value, indent, rest);
    assert MemberText(m, Compressed, indent) + rest == Quoted(m.key) + (":" + (value + rest));
  }

  lemma {:induction false} TightMembers(ms: seq<Member>, indent: nat, rest: string)
    requires forall i :: 0 <= i < |ms| ==> NoReals(ms[i].value)
    ensures Tight(MoreMembers(ms, Compressed, indent) + rest) == Tight(rest)
    decreases ms, 0
  {
    hide Tight, MemberText;
    if ms == [] {
      assert "" + rest == rest;
    } else {
      var first, more := MemberText(ms[0], Compressed, indent), MoreMembers(ms[1..], Compressed, indent);
      TightMark(',', first + (more + rest));
      TightMember(ms[0], indent, more + rest);
      TightMembers(ms[1..], indent, rest);
      assert MoreMembers(ms, Compressed, indent) + rest == "," + (first + (more + rest));
    }
  }

  lemma CompressedIsTight(v: Json)
    requires NoReals(v)
    ensures Tight(Text(v, Compressed, 0))
  {
    hide Text;
    TightText(v, 0, "");
    assert Text(v, Compressed, 0) + "" == Text(v, Compressed, 0);
  }

  function Spaces(s: string): (n: nat)
    ensures n <= |s|
  {
    if Starts(s, ' ') then 1 + Spaces(s[1..]) else 0
  }

  predicate Closes(s: string) { Starts(s, ']') || Starts(s, '}') }

  /** How many brackets a line is inside of; the bracket that it closes at its beginning does not count. */
  function Level(line: string, depth: nat): nat { if Closes(line) && depth > 0 then depth - 1 else depth }

  /**
   The pretty layout, from a place inside `depth` brackets: outside strings a line break follows
   every comma and every opening bracket that is not closed at once, and comes in front of every
   other closing one; each line begins with four spaces for each bracket it is inside of; one
   space follows each colon, and there is no other.  `start` is a place at the beginning of a line
   or behind an opening bracket.
   */
  predicate Laid(s: string, depth: nat, start: bool)
    decreases |s|
  {
    if s == [] then depth == 0
    else if s[0] == '"' then AfterString(s[1..]).Some? && Laid(AfterString(s[1..]).value, depth, false)
    else if s[0] in "[{" then (Starts(s[1..], '\n') || Closes(s[1..])) && Laid(s[1..], depth + 1, true)
    else if s[0] in "]}" then start && depth > 0 && Laid(s[1..], depth - 1, false)
    else if s[0] == ',' then Starts(s[1..], '\n') && Laid(s[1..], depth, false)
    else if s[0] == ':' then Starts(s[1..], ' ') && Solid(s[2..]) && Laid(s[2..], depth, false)
    else if s[0] == '\n' then
      var n := Spaces(s[1..]);
      var line := s[1 + n..];
      Solid(line) && n == 4 * Level(line, depth) && Laid(line, depth, true)
    else s[0] !in " \t\r" && Laid(s[1..], depth, false)
  }

  lemma {:induction false} LaidBehind(w: string, rest: string, depth: nat, start: bool)
    requires Bare(w) && w != []
    ensures Laid(w + rest, depth, start) == Laid(rest, depth, false)
    decreases |w|
  {
    var t := w + rest;
    assert t[1..] == w[1..] + rest && t[0] == w[0];
    assert w[0] !in " \t\n\r\"[]{},:";
    if |w| > 1 {
      LaidBehind(w[1..], rest, depth, false);
    } else {
      assert w[1..] + rest == rest;
    }
  }

  lemma LaidQuoted(s: string, rest: string, depth: nat, start: bool)
    ensures Laid(Quoted(s) + rest, depth, start) == Laid(rest, depth, false)
  {
    AfterQuoted(s, rest);
    hide AfterString, Escape;
    assert (Quoted(s) + rest)[1..] == Escape(s) + ("\"" + rest);
  }

  lemma LaidClose(ch: char, rest: string, depth: nat)
    requires ch in "]}"
    ensures Laid([ch] + rest, depth + 1, true) == Laid(rest, depth, false)
  {
    assert ([ch] + rest)[1..] == rest;
  }

  lemma LaidOpen(ch: char, rest: string, depth: nat, start: bool)
    requires ch in "[{" && (Starts(rest, '\n') || Closes(rest))
    ensures Laid([ch] + rest, depth, start) == Laid(rest, depth + 1, true)
  {
    assert ([ch] + rest)[1..] == rest;
  }

  lemma LaidComma(rest: string, depth: nat)
    requires Starts(rest, '\n')
    ensures Laid("," + rest, depth, false) == Laid(rest, depth, false)
  {
    assert ("," + rest)[1..] == rest;
  }

  lemma LaidColon(rest: string, depth: nat)
    requires Solid(rest)
    ensures Laid(":" + (" " + rest), depth, false) == Laid(rest, depth, false)
  {
    var t := ":" + (" " + rest);
    assert t[1..] == " " + rest && t[2..] == rest;
  }

  lemma {:induction false} SpacesOfRepeat(n: nat, x: string)
    requires Solid(x)
    ensures Spaces(Repeat(INDENT_ITEM, n) + x) == 4 * n && |Repeat(INDENT_ITEM, n)| == 4 * n
  {
    if n == 0 {
      assert Repeat(INDENT_ITEM, n) + x == x;
    } else {
      SpacesOfRepeat(n - 1, x);
      RepeatInFront(n);
      var r := Repeat(INDENT_ITEM, n - 1) + x;
      assert Repeat(INDENT_ITEM, n) + x == " " + (" " + (" " + (" " + r)));
      OneSpace(r);
      OneSpace(" " + r);
      OneSpace(" " + (" " + r));
      OneSpace(" " + (" " + (" " + r)));
    }
  }

  lemma OneSpace(x: string)
    ensures Spaces(" " + x) == 1 + Spaces(x)
  {
    assert (" " + x)[1..] == x;
  }

  lemma LaidNewline(n: nat, line: string, depth: nat, start: bool)
    requires Solid(line) && n == Level(line, depth)
    ensures var t := NewlineText(Pretty, n) + line;
            Starts(t, '\n') && Laid(t, depth, start) == Laid(line, depth, true)
  {
    hide Spaces, Repeat;
    var spaces := Repeat(INDENT_ITEM, n);
    var t := NewlineText(Pretty, n) + line;
    SpacesOfRepeat(n, line);
    assert t == "\n" + (spaces + line);
    assert t[1..] == spaces + line && t[1 + 4 * n..] == line;
  }

  /** The pretty style is laid out like that. */
  lemma {:induction false} LaidText(v: Json, d: nat, rest: string, start: bool)
    requires NoReals(v)
    ensures Laid(Text(v, Pretty, d) + rest, d, start) == Laid(rest, d, false)
    decreases v, 2
  {
    hide Laid, Decimal, Quoted;
    match v
    case Null => LaidBehind("null", rest, d, start);
    case Bool(b) => LaidBehind(if b then "true" else "false", rest, d, start);
    case Int(n) =>
      DecimalIsBare(n);
      LaidBehind(Decimal(n), rest, d, start);
    case Str(s) => LaidQuoted(s, rest, d, start);
    case Arr(items) => LaidArray(items, d, rest, start);
    case Obj(ms) => LaidObject(ms, d, rest, start);
  }

  lemma {:induction false} LaidArray(items: seq<Json>, d: nat, rest: string, start: bool)
    requires forall i :: 0 <= i < |items| ==> NoReals(items[i])
    ensures Laid(Text(Arr(items), Pretty, d) + rest, d, start) == Laid(rest, d, false)
    decreases items, 1
  {
    hide Laid, MoreItems, NewlineText;
    var close := "]" + rest;
    LaidClose(']', rest, d);
    if items == [] {
      LaidOpen('[', close, d, start);
      assert "[]" + rest == "[" + close;
    } else {
      var first, more := Text(items[0], Pretty, d + 1), MoreItems(items[1..], Pretty, d + 1);
      var tail := NewlineText(Pretty, d) + close;
      var body := first + (more + tail);
      TextIsSolid(items[0], Pretty, d + 1, more + tail);
      LaidNewline(d + 1, body, d + 1, true);
      LaidOpen('[', NewlineText(Pretty, d + 1) + body, d, start);
      LaidText(items[0], d + 1, more + tail, true);
      LaidItems(items[1..], d + 1, tail);
      LaidNewline(d, close, d + 1, false);
      Unbracketed("[", NewlineText(Pretty, d + 1), first, more, NewlineText(Pretty, d), "]", rest);
      assert Text(Arr(items), Pretty, d) + rest == "[" + (NewlineText(Pretty, d + 1) + body);
    }
  }

  lemma {:induction false} LaidItems(items: seq<Json>, d: nat, rest: string)
    requires forall i :: 0 <= i < |items| ==> NoReals(items[i])
    ensures Laid(MoreItems(items, Pretty, d) + rest, d, false) == Laid(rest, d, false)
    decreases items, 0
  {
    hide Laid, Text, NewlineText;
    if items == [] {
      assert "" + rest == rest;
    } else {
      var first, more := Text(items[0], Pretty, d), MoreItems(items[1..], Pretty, d);
      var body := first + (more + rest);
      TextIsSolid(items[0], Pretty, d, more + rest);
      LaidNewline(d, body, d, false);
      LaidComma(NewlineText(Pretty, d) + body, d);
      LaidText(items[0], d, more + rest, true);
      LaidItems(items[1..], d, rest);
      assert MoreItems(items, Pretty, d) + rest == "," + (NewlineText(Pretty, d) + body);
    }
  }

  lemma {:induction false} LaidObject(ms: seq<Member>, d: nat, rest: string, start: bool)
    requires forall i :: 0 <= i < |ms| ==> NoReals(ms[i].value)
    ensures Laid(Text(Obj(ms), Pretty, d) + rest, d, start) == Laid(rest, d, false)
    decreases ms, 1
  {
    hide Laid, MoreMembers, MemberText, NewlineText;
    var close := "}" + rest;
    LaidClose('}', rest, d);
    if ms == [] {
      LaidOpen('{', close, d, start);
      assert "{}" + rest == "{" + close;
    } else {
      var first, more := MemberText(ms[0], Pretty, d + 1), MoreMembers(ms[1..], Pretty, d + 1);
      var tail := NewlineText(Pretty, d) + close;
      var body := first + (more + tail);
      MemberIsSolid(ms[0], Pretty, d + 1, more + tail);
      LaidNewline(d + 1, body, d + 1, true);
      LaidOpen('{', NewlineText(Pretty, d + 1) + body, d, start);
      LaidMember(ms[0], d + 1, more + tail, true);
      LaidMembers(ms[1..], d + 1, tail);
      LaidNewline(d, close, d + 1, false);
      Unbracketed("{", NewlineText(Pretty, d + 1), first, more, NewlineText(Pretty, d), "}", rest);
      assert Text(Obj(ms), Pretty, d) + rest == "{" + (NewlineText(Pretty, d + 1) + body);
    }
  }

  lemma {:induction false} LaidMember(m: Member, d: nat, rest: string, start: bool)
    requires NoReals(m.value)
    ensures Laid(MemberText(m, Pretty, d) + rest, d, start) == Laid(rest, d, false)
    decreases m, 3
  {
    hide Laid, Text, Quoted;
    var value := Text(m.value, Pretty, d) + rest;
    LaidQuoted(m.key, ":" + (" " + value), d, start);
    TextIsSolid(m.value, Pretty, d, rest);
    LaidColon(value, d);
    LaidText(m.value, d, rest, false);
    assert MemberText(m, Pretty, d) + rest == Quoted(m.key) + (":" + (" " + value));
  }

  lemma {:induction false} LaidMembers(ms: seq<Member>, d: nat, rest: string)
    requires forall i :: 0 <= i < |ms| ==> NoReals(ms[i].value)
    ensures Laid(MoreMembers(ms, Pretty, d) + rest, d, false) == Laid(rest, d, false)
    decreases ms, 0
  {
    hide Laid, MemberText, NewlineText;
    if ms == [] {
      assert "" + rest == rest;
    } else {
      var first, more := MemberText(ms[0], Pretty, d), MoreMembers(ms[1..], Pretty, d);
      var body := first + (more + rest);
      MemberIsSolid(ms[0], Pretty, d, more + rest);
      LaidNewline(d, body, d, false);
      LaidComma(NewlineText(Pretty, d) + body, d);
      LaidMember(ms[0], d, more + rest, true);
      LaidMembers(ms[1..], d, rest);
      assert MoreMembers(ms, Pretty, d) + rest == "," + (NewlineText(Pretty, d) + body);
    }
  }

  lemma PrettyIsLaid(v: Json)
    requires NoReals(v)
    ensures Laid(Text(v, Pretty, 0), 0, true)
  {
    hide Text;
    LaidText(v, 0, "", true);
    assert Text(v, Pretty, 0) + "" == Text(v, Pretty, 0);
  }
}
