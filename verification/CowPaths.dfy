/**
 Mutable access along a path (`at`, `operator[]`), on shared values and on plain trees.

 `Touch` is the walk of `at` and `operator[]` through `cow_visitor`: every level on the
 way is made inline, and `operator[]` adds a missing key.  `Deep...` is the same walk on a
 tree that is not shared with anything.
 */
module CowPaths {
  import opened JsonValues
  import opened Cow

  datatype Step =
    | At(i: nat)          // at(index), operator[](index)
    | AtKey(key: string)  // at(key)
    | Sub(key: string)    // operator[](key)

  function KeyIndex(keys: seq<string>, k: string): (i: nat)
    ensures i <= |keys|
    ensures i < |keys| ==> keys[i] == k
    ensures i == |keys| <==> k !in keys
  {
    if keys == [] then 0 else if keys[0] == k then 0 else 1 + KeyIndex(keys[1..], k)
  }

  function FieldKeys(fs: seq<Field>): (r: seq<string>)
    ensures |r| == |fs| && forall i :: 0 <= i < |r| ==> r[i] == fs[i].key
  {
    seq(|fs|, i requires 0 <= i < |fs| => fs[i].key)
  }

  function MemberKeys(ms: seq<Member>): (r: seq<string>)
    ensures |r| == |ms| && forall i :: 0 <= i < |r| ==> r[i] == ms[i].key
  {
    seq(|ms|, i requires 0 <= i < |ms| => ms[i].key)
  }

  /** `std::map::insert` on the stored fields. */
  function InsertField(fs: seq<Field>, f: Field): (r: seq<Field>)
    ensures forall i :: 0 <= i < |r| ==> r[i] == f || r[i] in fs
  {
    if fs == [] then [f]
    else if Less(f.key, fs[0].key) then [f] + fs
    else if Less(fs[0].key, f.key) then [fs[0]] + InsertField(fs[1..], f)
    else fs
  }

  // ----- one level down -----

  /** The child a step leads to, as an index, after a missing key was added; none if it throws. */
  datatype Child = Child(content: Content, index: nat) | NoChild

  function Descend(c: Content, s: Step): (r: Child)
    ensures r.Child? && r.content.ArrContent? ==> r.index < |r.content.items|
    ensures r.Child? && r.content.ObjContent? ==> r.index < |r.content.fields|
    ensures r.Child? ==> !r.content.StrContent?
  {
    match c
    case ArrContent(items) => if s.At? && s.i < |items| then Child(c, s.i) else NoChild
    case ObjContent(fields) =>
      if s.At? then NoChild
      else
        var i := KeyIndex(FieldKeys(fields), s.key);
        if i < |fields| then Child(c, i)
        else if s.AtKey? then NoChild
        else
          var grown := InsertField(fields, Field(s.key, Scalar(Null)));
          var j := KeyIndex(FieldKeys(grown), s.key);
          if j < |grown| then Child(ObjContent(grown), j) else NoChild
    case StrContent(_) => NoChild
  }

  function ChildOf(c: Content, i: nat): Value
    requires c.ArrContent? ==> i < |c.items|
    requires c.ObjContent? ==> i < |c.fields|
    requires !c.StrContent?
  {
    if c.ArrContent? then c.items[i] else c.fields[i].value
  }

  function WithChild(c: Content, i: nat, v: Value): Content
    requires c.ArrContent? ==> i < |c.items|
    requires c.ObjContent? ==> i < |c.fields|
    requires !c.StrContent?
  {
    if c.ArrContent? then ArrContent(c.items[i := v])
    else ObjContent(c.fields[i := Field(c.fields[i].key, v)])
  }

  datatype DeepChild = DeepChild(j: Json, index: nat) | NoDeepChild

  /** The same on a tree. */
  ghost function DeepDescend(j: Json, s: Step): (r: DeepChild)
    ensures r.DeepChild? ==> r.j.Arr? || r.j.Obj?
    ensures r.DeepChild? && r.j.Arr? ==> r.index < |r.j.items|
    ensures r.DeepChild? && r.j.Obj? ==> r.index < |r.j.members|
  {
    match j
    case Arr(items) => if s.At? && s.i < |items| then DeepChild(j, s.i) else NoDeepChild
    case Obj(ms) =>
      if s.At? then NoDeepChild
      else
        var i := KeyIndex(MemberKeys(ms), s.key);
        if i < |ms| then DeepChild(j, i)
        else if s.AtKey? then NoDeepChild
        else
          var grown := Insert(ms, Member(s.key, Null));
          var i := KeyIndex(MemberKeys(grown), s.key);
          if i < |grown| then DeepChild(Obj(grown), i) else NoDeepChild
    case _ => NoDeepChild
  }

  ghost function DeepChildOf(j: Json, i: nat): (c: Json)
    requires j.Arr? || j.Obj?
    requires j.Arr? ==> i < |j.items|
    requires j.Obj? ==> i < |j.members|
  {
    if j.Arr? then j.items[i] else j.members[i].value
  }

  ghost function DeepWithChild(j: Json, i: nat, c: Json): Json
    requires j.Arr? || j.Obj?
    requires j.Arr? ==> i < |j.items|
    requires j.Obj? ==> i < |j.members|
  {
    if j.Arr? then Arr(j.items[i := c]) else Obj(j.members[i := Member(j.members[i].key, c)])
  }

  // ----- the walks -----

  /** Walks down `path`; with `into` the value at its end is made inline as well. */
  function Touch(boxes: Boxes, v: Value, path: seq<Step>, into: bool): (r: (Boxes, Value, bool))
    requires Grounded(boxes) && Fits(v, |boxes|)
    decreases |path|
  {
    if path == [] then
      if into then var (b1, u) := Unshare(boxes, v); (b1, u, true) else (boxes, v, true)
    else
      UnshareShows(boxes, v);
      var (b1, u) := Unshare(boxes, v);
      if !u.Inline? then (b1, u, false)
      else
        match Descend(u.content, path[0])
        case NoChild => (b1, u, false)
        case Child(c, i) =>
          DescendFits(u.content, path[0], |b1|);
          var (b2, w, ok) := Touch(b1, ChildOf(c, i), path[1..], into);
          (b2, Inline(WithChild(c, i, w)), ok)
  }

  ghost function DeepTouch(j: Json, path: seq<Step>): (Json, bool)
    decreases |path|
  {
    if path == [] then (j, true)
    else
      match DeepDescend(j, path[0])
      case NoDeepChild => (j, false)
      case DeepChild(k, i) =>
        var (c, ok) := DeepTouch(DeepChildOf(k, i), path[1..]);
        (DeepWithChild(k, i, c), ok)
  }

  lemma DescendFits(c: Content, s: Step, n: nat)
    requires ContentFits(c, n) && Descend(c, s).Child?
    ensures var r := Descend(c, s); ContentFits(r.content, n) && Fits(ChildOf(r.content, r.index), n)
  {
  }

  lemma {:induction false} InsertFieldShows(boxes: Boxes, fs: seq<Field>, f: Field, n: nat)
    requires Grounded(boxes) && n <= |boxes| && Fits(f.value, n)
    requires forall i :: 0 <= i < |fs| ==> Fits(fs[i].value, n)
    ensures forall i :: 0 <= i < |InsertField(fs, f)| ==> Fits(InsertField(fs, f)[i].value, n)
    ensures ShowFields(boxes, InsertField(fs, f), n)
         == Insert(ShowFields(boxes, fs, n), Member(f.key, Show(boxes, f.value, n)))
    decreases |fs|
  {
    if fs != [] && !Less(f.key, fs[0].key) && Less(fs[0].key, f.key) {
      InsertFieldShows(boxes, fs[1..], f, n);
    }
  }

  /** A step on shared content and on the tree it shows agree. */
  lemma DescendShows(boxes: Boxes, c: Content, s: Step, n: nat)
    requires Grounded(boxes) && n <= |boxes| && ContentFits(c, n)
    ensures var r := Descend(c, s);
            var d := DeepDescend(ShowContent(boxes, c, n), s);
            && (r.Child? <==> d.DeepChild?)
            && (r.Child? ==>
                 && r.index == d.index && ContentFits(r.content, n)
                 && ShowContent(boxes, r.content, n) == d.j
                 && Show(boxes, ChildOf(r.content, r.index), n) == DeepChildOf(d.j, d.index))
  {
    hide InsertField, Insert, KeyIndex, Less, FieldKeys, MemberKeys;
    if c.ObjContent? && !s.At? {
      var fs := c.fields;
      KeysShow(boxes, fs, n);
      var f := Field(s.key, Scalar(Null));
      InsertFieldShows(boxes, fs, f, n);
      KeysShow(boxes, InsertField(fs, f), n);
    }
  }

  /** Showing changes no key. */
  lemma KeysShow(boxes: Boxes, fs: seq<Field>, n: nat)
    requires Grounded(boxes) && n <= |boxes| && forall i :: 0 <= i < |fs| ==> Fits(fs[i].value, n)
    ensures FieldKeys(fs) == MemberKeys(ShowFields(boxes, fs, n))
  {
  }

  /** Replacing a child shows as replacing the subtree. */
  lemma WithChildShows(boxes: Boxes, c: Content, i: nat, v: Value, n: nat)
    requires Grounded(boxes) && n <= |boxes| && ContentFits(c, n) && Fits(v, n)
    requires c.ArrContent? ==> i < |c.items|
    requires c.ObjContent? ==> i < |c.fields|
    requires !c.StrContent?
    ensures ContentFits(WithChild(c, i, v), n)
    ensures ShowContent(boxes, WithChild(c, i, v), n)
         == DeepWithChild(ShowContent(boxes, c, n), i, Show(boxes, v, n))
  {
    if c.ArrContent? {
      assert ShowItems(boxes, c.items[i := v], n) == ShowItems(boxes, c.items, n)[i := Show(boxes, v, n)];
    } else {
      var f := Field(c.fields[i].key, v);
      assert ShowFields(boxes, c.fields[i := f], n)
          == ShowFields(boxes, c.fields, n)[i := Member(f.key, Show(boxes, v, n))];
    }
  }

  /** Walking shared values looks like walking trees. */
  lemma {:induction false} TouchShows(boxes: Boxes, v: Value, path: seq<Step>, into: bool)
    requires Grounded(boxes) && Fits(v, |boxes|)
    ensures var (bs, w, ok) := Touch(boxes, v, path, into);
            var (j, ok') := DeepTouch(Show(boxes, v, |boxes|), path);
            Extends(boxes, bs) && Fits(w, |bs|) && Show(bs, w, |bs|) == j && ok == ok'
    decreases |path|
  {
    UnshareShows(boxes, v);
    if path != [] {
      var (b1, u) := Unshare(boxes, v);
      if u.Inline? {
        DescendShows(b1, u.content, path[0], |b1|);
        var r := Descend(u.content, path[0]);
        if r.Child? {
          var child := ChildOf(r.content, r.index);
          DescendFits(u.content, path[0], |b1|);
          TouchShows(b1, child, path[1..], into);
          var (b2, w, ok) := Touch(b1, child, path[1..], into);
          ContentIsStable(b1, b2, r.content, |b1|, |b2|);
          WithChildShows(b2, r.content, r.index, w, |b2|);
        }
      }
    }
  }
}
