/**
 The serializer (include/gpcl/json.hpp, serializer and serializing_visitor): compressed
 on one line, or pretty with one member a line.
 */
module JsonText {
  import opened JsonValues

  datatype Style = Compressed | Pretty

  const INDENT_ITEM := "    "

  function Repeat(s: string, n: nat): string {
    if n == 0 then "" else Repeat(s, n - 1) + s
  }

  function NewlineText(style: Style, indent: nat): string {
    if style.Compressed? then "" else "\n" + Repeat(INDENT_ITEM, indent)
  }

  function SpaceText(style: Style): string {
    if style.Compressed? then "" else " "
  }

  /** The indentation inside brackets; the compressed style does not count it. */
  function Deeper(style: Style, indent: nat): nat {
    if style.Compressed? then indent else indent + 1
  }

  function Digits(n: nat): string {
    if n < 10 then ['0' + n as char] else Digits(n / 10) + ['0' + (n % 10) as char]
  }

  /** `os << n` for an integer. */
  function Decimal(n: int): string {
    if n < 0 then "-" + Digits(-n) else Digits(n)
  }

  /** The body of `std::quoted`: a backslash in front of every quote and backslash. */
  function Escape(s: string): string {
    if s == [] then []
    else (if s[0] == '"' || s[0] == '\\' then ['\\', s[0]] else [s[0]]) + Escape(s[1..])
  }

  function Quoted(s: string): string { "\"" + Escape(s) + "\"" }

  function Text(v: Json, style: Style, indent: nat): string
    requires NoReals(v)
    decreases v, 1
  {
    match v
    case Null => "null"
    case Bool(b) => if b then "true" else "false"
    case Int(n) => Decimal(n)
    case Str(s) => Quoted(s)
    case Arr(items) =>
      if items == [] then "[]"
      else
        var d := Deeper(style, indent);
        "[" + NewlineText(style, d) + Text(items[0], style, d) + MoreItems(items[1..], style, d)
        + NewlineText(style, indent) + "]"
    case Obj(ms) =>
      if ms == [] then "{}"
      else
        var d := Deeper(style, indent);
        "{" + NewlineText(style, d) + MemberText(ms[0], style, d) + MoreMembers(ms[1..], style, d)
        + NewlineText(style, indent) + "}"
  }

  function MoreItems(items: seq<Json>, style: Style, indent: nat): string
    requires forall i :: 0 <= i < |items| ==> NoReals(items[i])
    decreases items, 0
  {
    if items == [] then ""
    else "," + NewlineText(style, indent) + Text(items[0], style, indent) + MoreItems(items[1..], style, indent)
  }

  function MemberText(m: Member, style: Style, indent: nat): string
    requires NoReals(m.value)
    decreases m, 0
  {
    Quoted(m.key) + ":" + SpaceText(style) + Text(m.value, style, indent)
  }

  function MoreMembers(ms: seq<Member>, style: Style, indent: nat): string
    requires forall i :: 0 <= i < |ms| ==> NoReals(ms[i].value)
    decreases ms, 0
  {
    if ms == [] then ""
    else "," + NewlineText(style, indent) + MemberText(ms[0], style, indent) + MoreMembers(ms[1..], style, indent)
  }

  class Serializer {
    const style: Style
    var out: string
    var indent: nat

    constructor (style: Style)
      ensures this.style == style && out == "" && indent == 0
    {
      this.style := style;
      out := "";
      indent := 0;
    }

    method Newline()
      modifies this`out
      ensures out == old(out) + NewlineText(style, indent)
    {
      if style.Compressed? { return; }
      out := out + "\n";
      var i := 0;
      while i != indent
        invariant 0 <= i <= indent
        invariant out == old(out) + ("\n" + Repeat(INDENT_ITEM, i))
      {
        out := out + INDENT_ITEM;
        i := i + 1;
      }
    }

    /** The constructor of `indent_sentry`. */
    method EnterIndent()
      modifies this
      ensures indent == Deeper(style, old(indent)) && out == old(out) + NewlineText(style, indent)
    {
      if style.Compressed? { return; }
      indent := indent + 1;
      Newline();
    }

    /** The destructor of `indent_sentry`. */
    method LeaveIndent(ghost was: nat)
      requires indent == Deeper(style, was)
      modifies this
      ensures indent == was && out == old(out) + NewlineText(style, was)
    {
      if style.Compressed? { return; }
      indent := indent - 1;
      Newline();
    }

    method Visit(v: Json)
      requires NoReals(v)
      modifies this
      ensures out == old(out) + Text(v, style, indent) && indent == old(indent)
      decreases v, 2
    {
      match v
      case Null => out := out + "null";
      case Bool(b) => out := out + if b then "true" else "false";
      case Int(n) => out := out + Decimal(n);
      case Str(s) => out := out + Quoted(s);
      case Arr(items) => VisitArray(v);
      case Obj(ms) => VisitObject(v);
    }

    method VisitArray(v: Json)
      requires v.Arr? && NoReals(v)
      modifies this
      ensures out == old(out) + Text(v, style, indent) && indent == old(indent)
      decreases v, 1
    {
      out := out + "[";
      var items := v.items;
      if items != [] {
        EnterIndent();
        Visit(items[0]);
        VisitMoreItems(items);
        LeaveIndent(old(indent));
        ghost var d := Deeper(style, indent);
        Append(old(out), "[", NewlineText(style, d), Text(items[0], style, d), MoreItems(items[1..], style, d),
               NewlineText(style, indent), "]");
      }
      out := out + "]";
    }

    method VisitMoreItems(items: seq<Json>)
      requires items != [] && forall i :: 0 <= i < |items| ==> NoReals(items[i])
      modifies this
      ensures out == old(out) + MoreItems(items[1..], style, indent) && indent == old(indent)
      decreases items, 0
    {
      var i := 1;
      while i != |items|
        invariant 1 <= i <= |items| && indent == old(indent)
        invariant old(out) + MoreItems(items[1..], style, indent) == out + MoreItems(items[i..], style, indent)
      {
        ghost var was := out;
        out := out + ",";
        Newline();
        Visit(items[i]);
        assert items[i..][1..] == items[i + 1..];
        Append(was, ",", NewlineText(style, indent), Text(items[i], style, indent),
               MoreItems(items[i + 1..], style, indent), "", "");
        i := i + 1;
      }
    }

    method VisitObject(v: Json)
      requires v.Obj? && NoReals(v)
      modifies this
      ensures out == old(out) + Text(v, style, indent) && indent == old(indent)
      decreases v, 1
    {
      out := out + "{";
      var ms := v.members;
      if ms != [] {
        EnterIndent();
        VisitMember(ms[0]);
        VisitMoreMembers(ms);
        LeaveIndent(old(indent));
        ghost var d := Deeper(style, indent);
        Append(old(out), "{", NewlineText(style, d), MemberText(ms[0], style, d), MoreMembers(ms[1..], style, d),
               NewlineText(style, indent), "}");
      }
      out := out + "}";
    }

    method VisitMoreMembers(ms: seq<Member>)
      requires ms != [] && forall i :: 0 <= i < |ms| ==> NoReals(ms[i].value)
      modifies this
      ensures out == old(out) + MoreMembers(ms[1..], style, indent) && indent == old(indent)
      decreases ms, 0
    {
      var i := 1;
      while i != |ms|
        invariant 1 <= i <= |ms| && indent == old(indent)
        invariant old(out) + MoreMembers(ms[1..], style, indent) == out + MoreMembers(ms[i..], style, indent)
      {
        ghost var was := out;
        out := out + ",";
        Newline();
        VisitMember(ms[i]);
        assert ms[i..][1..] == ms[i + 1..];
        Append(was, ",", NewlineText(style, indent), MemberText(ms[i], style, indent),
               MoreMembers(ms[i + 1..], style, indent), "", "");
        i := i + 1;
      }
    }

    method VisitMember(m: Member)
      requires NoReals(m.value)
      modifies this
      ensures out == old(out) + MemberText(m, style, indent) && indent == old(indent)
      decreases m, 0
    {
      out := out + Quoted(m.key) + ":";
      if style.Pretty? { out := out + " "; }
      Visit(m.value);
      Append(old(out), Quoted(m.key), ":", SpaceText(style), Text(m.value, style, indent), "", "");
    }
  }

  lemma Append(o: string, a: string, b: string, c: string, d: string, e: string, f: string)
    ensures o + a + b + c + d + e + f == o + (a + b + c + d + e + f)
    ensures e == f == "" ==> o + a + b + c + d == o + (a + b + c + d)
  {
  }

  /** `operator<<` on a stream with the given style. */
  method Serialize(v: Json, style: Style) returns (text: string)
    requires NoReals(v)
    ensures text == Text(v, style, 0)
  {
    var ser := new Serializer(style);
    ser.Visit(v);
    text := ser.out;
  }
}
