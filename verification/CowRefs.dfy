/**
 References into copy-on-write values.

 A mutable reference is what `at` and `operator[]` return after they have made everything on
 the way inline; a read-only one is what their const overloads return, which look into shared
 boxes.  `Deep...` are the same on plain trees.
 */
module CowRefs {
  import opened Basics
  import opened JsonValues
  import opened Cow
  import opened CowPaths

  // ----- reading and writing at the end of a path -----

  /** A key that was looked up with `operator[]` is there now, and `at` finds it. */
  function AsAt(s: Step): Step { if s.Sub? then AtKey(s.key) else s }

  /** The place a path leads to, however it is spelled: `at(k)` and `[k]` name the same child. */
  function Place(p: seq<Step>): (r: seq<Step>)
    ensures |r| == |p| && forall i :: 0 <= i < |p| ==> r[i] == AsAt(p[i])
  {
    seq(|p|, i requires 0 <= i < |p| => AsAt(p[i]))
  }

  /** `q` leads to a place strictly inside the one `p` leads to. */
  predicate Inside(p: seq<Step>, q: seq<Step>) { Place(p) < Place(q) }

  /** What is found at the end of a path, without unsharing anything. */
  function Peek(boxes: Boxes, v: Value, path: seq<Step>): Option<Value>
    requires Grounded(boxes) && Fits(v, |boxes|)
    decreases |path|
  {
    if path == [] then Some(v)
    else if v.Scalar? then None
    else
      var c := if v.Inline? then v.content else boxes[v.box];
      match Descend(c, AsAt(path[0]))
      case NoChild => None
      case Child(d, i) =>
        OpenFits(boxes, v);
        DescendFits(c, AsAt(path[0]), |boxes|);
        Peek(boxes, ChildOf(d, i), path[1..])
  }

  function Open(boxes: Boxes, v: Value): Content
    requires !v.Scalar? && (v.Shared? ==> v.box < |boxes|)
  {
    if v.Inline? then v.content else boxes[v.box]
  }

  lemma OpenFits(boxes: Boxes, v: Value)
    requires Grounded(boxes) && Fits(v, |boxes|) && !v.Scalar?
    ensures ContentFits(Open(boxes, v), |boxes|)
    ensures ShowContent(boxes, Open(boxes, v), |boxes|) == Show(boxes, v, |boxes|)
  {
    if v.Shared? { ContentIsStable(boxes, boxes, boxes[v.box], v.box, |boxes|); }
  }

  ghost function DeepLook(j: Json, path: seq<Step>): Option<Json>
    decreases |path|
  {
    if path == [] then Some(j)
    else
      match DeepDescend(j, AsAt(path[0]))
      case NoDeepChild => None
      case DeepChild(k, i) => DeepLook(DeepChildOf(k, i), path[1..])
  }

  lemma {:induction false} PeekShows(boxes: Boxes, v: Value, path: seq<Step>)
    requires Grounded(boxes) && Fits(v, |boxes|)
    ensures var r := Peek(boxes, v, path);
            var d := DeepLook(Show(boxes, v, |boxes|), path);
            && (r.Some? <==> d.Some?)
            && (r.Some? ==> Fits(r.value, |boxes|) && Show(boxes, r.value, |boxes|) == d.value)
    decreases |path|
  {
    if path != [] && !v.Scalar? {
      var c, s := Open(boxes, v), AsAt(path[0]);
      OpenFits(boxes, v);
      DescendShows(boxes, c, s, |boxes|);
      if Descend(c, s).Child? {
        DescendFits(c, s, |boxes|);
        PeekShows(boxes, ChildOf(Descend(c, s).content, Descend(c, s).index), path[1..]);
      }
    }
  }

  /** Everything on the way down `path` is inline. */
  predicate Reached(v: Value, path: seq<Step>)
    decreases |path|
  {
    path == [] || (v.Inline? &&
      match Descend(v.content, AsAt(path[0]))
      case NoChild => false
      case Child(c, i) => Reached(ChildOf(c, i), path[1..]))
  }

  /** The value a walk has led to. */
  function Look(v: Value, path: seq<Step>): Value
    requires Reached(v, path)
    decreases |path|
  {
    if path == [] then v
    else
      var r := Descend(v.content, AsAt(path[0]));
      Look(ChildOf(r.content, r.index), path[1..])
  }

  lemma {:induction false} LookIsPeek(boxes: Boxes, v: Value, path: seq<Step>)
    requires Grounded(boxes) && Fits(v, |boxes|) && Reached(v, path)
    ensures Peek(boxes, v, path) == Some(Look(v, path))
    decreases |path|
  {
    if path != [] {
      var r := Descend(v.content, AsAt(path[0]));
      DescendFits(v.content, AsAt(path[0]), |boxes|);
      LookIsPeek(boxes, ChildOf(r.content, r.index), path[1..]);
    }
  }

  /** Writes through the reference that a walk has returned. */
  function Put(v: Value, path: seq<Step>, w: Value): Value
    requires Reached(v, path)
    decreases |path|
  {
    if path == [] then w
    else
      var r := Descend(v.content, AsAt(path[0]));
      Inline(WithChild(r.content, r.index, Put(ChildOf(r.content, r.index), path[1..], w)))
  }

  ghost function DeepPut(j: Json, path: seq<Step>, c: Json): Json
    decreases |path|
  {
    if path == [] then c
    else
      match DeepDescend(j, AsAt(path[0]))
      case NoDeepChild => j
      case DeepChild(k, i) => DeepWithChild(k, i, DeepPut(DeepChildOf(k, i), path[1..], c))
  }

  lemma {:induction false} PutShows(boxes: Boxes, v: Value, path: seq<Step>, w: Value)
    requires Grounded(boxes) && Fits(v, |boxes|) && Fits(w, |boxes|) && Reached(v, path)
    ensures Fits(Put(v, path, w), |boxes|)
    ensures Show(boxes, Put(v, path, w), |boxes|)
         == DeepPut(Show(boxes, v, |boxes|), path, Show(boxes, w, |boxes|))
    decreases |path|
  {
    if path != [] {
      var n := |boxes|;
      var s := AsAt(path[0]);
      DescendShows(boxes, v.content, s, n);
      DescendFits(v.content, s, n);
      var r := Descend(v.content, s);
      PutShows(boxes, ChildOf(r.content, r.index), path[1..], w);
      WithChildShows(boxes, r.content, r.index, Put(ChildOf(r.content, r.index), path[1..], w), n);
    }
  }

  /** Replacing the child does not move it. */
  lemma DescendAgain(c: Content, s: Step, w: Value)
    requires Descend(c, s).Child?
    ensures var r := Descend(c, s);
            var d := WithChild(r.content, r.index, w);
            Descend(d, AsAt(s)) == Child(d, r.index) && ChildOf(d, r.index) == w
  {
    var r := Descend(c, s);
    if c.ObjContent? {
      var d := WithChild(r.content, r.index, w);
      assert FieldKeys(d.fields) == FieldKeys(r.content.fields);
    }
  }

  lemma {:induction false} TouchReaches(boxes: Boxes, v: Value, path: seq<Step>, into: bool)
    requires Grounded(boxes) && Fits(v, |boxes|) && Touch(boxes, v, path, into).2
    ensures var w := Touch(boxes, v, path, into).1;
            Reached(w, path) && (into ==> !Look(w, path).Shared?)
    decreases |path|
  {
    if path != [] {
      UnshareShows(boxes, v);
      var (b1, u) := Unshare(boxes, v);
      var r := Descend(u.content, path[0]);
      DescendFits(u.content, path[0], |b1|);
      var child := ChildOf(r.content, r.index);
      TouchReaches(b1, child, path[1..], into);
      DescendAgain(u.content, path[0], Touch(b1, child, path[1..], into).1);
    }
  }

  /** Everything down to the end of the path, the end included, is inline and no scalar. */
  predicate HeldInline(v: Value, path: seq<Step>) { Reached(v, path) && Look(v, path).Inline? }

  /** No child of the content is held inline. */
  ghost predicate Flat(c: Content) {
    match c
    case StrContent(_) => true
    case ArrContent(items) => forall i :: 0 <= i < |items| ==> !items[i].Inline?
    case ObjContent(fields) => forall i :: 0 <= i < |fields| ==> !fields[i].value.Inline?
  }

  /** A copy of some content holds nothing inline. */
  lemma CopyIsFlat(boxes: Boxes, c: Content)
    ensures Flat(CopyContent(boxes, c).1)
  {
    match c
    case StrContent(_) =>
    case ArrContent(items) => ItemsAreFlat(boxes, items);
    case ObjContent(fields) => FieldsAreFlat(boxes, fields);
  }

  lemma {:induction false} ItemsAreFlat(boxes: Boxes, items: seq<Value>)
    ensures Flat(ArrContent(CloneItems(boxes, items).1))
    decreases |items|
  {
    if items != [] {
      var (b1, first) := Clone(boxes, items[0]);
      ItemsAreFlat(b1, items[1..]);
    }
  }

  lemma {:induction false} FieldsAreFlat(boxes: Boxes, fields: seq<Field>)
    ensures Flat(ObjContent(CloneFields(boxes, fields).1))
    decreases |fields|
  {
    if fields != [] {
      var (b1, first) := Clone(boxes, fields[0].value);
      FieldsAreFlat(b1, fields[1..]);
    }
  }

  /** A walk makes the way inline but not its end: that is inline only if all of it was before. */
  lemma {:induction false} HeldInlineAfter(boxes: Boxes, v: Value, path: seq<Step>)
    requires Grounded(boxes) && Fits(v, |boxes|) && Touch(boxes, v, path, false).2
    ensures HeldInline(Touch(boxes, v, path, false).1, path) <==> HeldInline(v, path)
    decreases |path|
  {
    if path != [] {
      UnshareShows(boxes, v);
      var (b1, u) := Unshare(boxes, v);
      var r := Descend(u.content, path[0]);
      DescendFits(u.content, path[0], |b1|);
      var child := ChildOf(r.content, r.index);
      HeldInlineAfter(b1, child, path[1..]);
      DescendAgain(u.content, path[0], Touch(b1, child, path[1..], false).1);
      if v.Shared? {
        CopyIsFlat(boxes, boxes[v.box]);
        NewChildIsNull(u.content, path[0]);
      } else if Descend(u.content, AsAt(path[0])) != r {
        NewChildIsNull(u.content, path[0]);
      }
    }
  }

  /** A child that was there is a child of the content; a child that was not is null. */
  lemma NewChildIsNull(c: Content, s: Step)
    requires Descend(c, s).Child?
    ensures var r := Descend(c, s);
            if Descend(c, AsAt(s)).Child? then r == Descend(c, AsAt(s)) && r.content == c
            else ChildOf(r.content, r.index) == Scalar(Null)
  {
    var r := Descend(c, s);
    if !Descend(c, AsAt(s)).Child? {
      var f := r.content.fields[r.index];
      assert f.key == s.key;
      forall i | 0 <= i < |c.fields| ensures c.fields[i] != f { assert FieldKeys(c.fields)[i] == c.fields[i].key; }
    }
  }

  /** A way that is inline already is walked without any effect. */
  lemma {:induction false} TouchAgain(boxes: Boxes, v: Value, p: seq<Step>)
    requires Grounded(boxes) && Fits(v, |boxes|) && Reached(v, p)
    ensures Touch(boxes, v, p, false) == (boxes, v, true)
    decreases |p|
  {
    if p != [] {
      var r := Descend(v.content, AsAt(p[0]));
      var child := ChildOf(r.content, r.index);
      DescendFits(v.content, p[0], |boxes|);
      TouchAgain(boxes, child, p[1..]);
      assert WithChild(r.content, r.index, child) == r.content;
    }
  }

  lemma {:induction false} PrefixReached(v: Value, p: seq<Step>, q: seq<Step>)
    requires Reached(v, q) && Place(p) <= Place(q)
    ensures Reached(v, p)
    decreases |p|
  {
    if p != [] {
      assert Place(p)[0] == Place(q)[0];
      var r := Descend(v.content, AsAt(q[0]));
      assert Place(p[1..]) == Place(p)[1..] && Place(q[1..]) == Place(q)[1..];
      PrefixReached(ChildOf(r.content, r.index), p[1..], q[1..]);
    }
  }

  lemma WayIsClear(boxes: Boxes, v: Value, p: seq<Step>, q: seq<Step>)
    requires Grounded(boxes) && Fits(v, |boxes|) && Reached(v, q) && Inside(p, q)
    ensures Touch(boxes, v, p, false) == (boxes, v, true)
  {
    PrefixReached(v, p, q);
    TouchAgain(boxes, v, p);
  }

  // ----- read-only references and what keeps them alive -----

  /** No `operator[]` with a key: its const overload always throws. */
  predicate NoSub(q: seq<Step>) { forall i :: 0 <= i < |q| ==> !q[i].Sub? }

  /** The const overloads: they look into boxes and leave them shared. */
  function View(boxes: Boxes, v: Value, q: seq<Step>): Option<Value>
    requires Grounded(boxes) && Fits(v, |boxes|)
  {
    if NoSub(q) then Peek(boxes, v, q) else None
  }

  /** The box whose content holds the place `q`; none if the place is in the handle's own storage. */
  function Container(boxes: Boxes, v: Value, q: seq<Step>): Option<nat>
    requires Grounded(boxes) && Fits(v, |boxes|) && Peek(boxes, v, q).Some?
    decreases |q|
  {
    if q == [] then None
    else
      OpenFits(boxes, v);
      var r := Descend(Open(boxes, v), AsAt(q[0]));
      DescendFits(Open(boxes, v), AsAt(q[0]), |boxes|);
      match Container(boxes, ChildOf(r.content, r.index), q[1..])
      case Some(b) => Some(b)
      case None => if v.Shared? then Some(v.box) else None
  }

  lemma {:induction false} NoContainer(boxes: Boxes, v: Value, q: seq<Step>)
    requires Grounded(boxes) && Fits(v, |boxes|) && Peek(boxes, v, q).Some?
    ensures Container(boxes, v, q).None? <==> Reached(v, q)
    decreases |q|
  {
    if q != [] {
      OpenFits(boxes, v);
      var r := Descend(Open(boxes, v), AsAt(q[0]));
      DescendFits(Open(boxes, v), AsAt(q[0]), |boxes|);
      NoContainer(boxes, ChildOf(r.content, r.index), q[1..]);
    }
  }

  /** A `shared_ptr` to box `b` can be reached from the value. */
  predicate Holds(boxes: Boxes, v: Value, b: nat, n: nat)
    requires Grounded(boxes) && n <= |boxes| && Fits(v, n)
    decreases n, v, 2
  {
    match v
    case Scalar(_) => false
    case Inline(c) => ContentHolds(boxes, c, b, n)
    case Shared(k) => k == b || ContentHolds(boxes, boxes[k], b, k)
  }

  predicate ContentHolds(boxes: Boxes, c: Content, b: nat, n: nat)
    requires Grounded(boxes) && n <= |boxes| && ContentFits(c, n)
    decreases n, c, 1
  {
    match c
    case StrContent(_) => false
    case ArrContent(items) => exists i :: 0 <= i < |items| && Holds(boxes, items[i], b, n)
    case ObjContent(fields) => exists i :: 0 <= i < |fields| && Holds(boxes, fields[i].value, b, n)
  }

  /** Boxes that do not exist yet do not matter. */
  lemma {:induction false} HoldsIsStable(old_: Boxes, new_: Boxes, v: Value, b: nat, n: nat, m: nat)
    requires Grounded(old_) && Extends(old_, new_) && n <= |old_| && n <= m <= |new_| && Fits(v, n)
    ensures Fits(v, m) && (Holds(old_, v, b, n) <==> Holds(new_, v, b, m))
    decreases n, v, 2
  {
    ShowIsStable(old_, new_, v, n, m);
    match v
    case Scalar(_) =>
    case Inline(c) => ContentHoldsIsStable(old_, new_, c, b, n, m);
    case Shared(k) => ContentHoldsIsStable(old_, new_, old_[k], b, k, k);
  }

  lemma {:induction false} ContentHoldsIsStable(old_: Boxes, new_: Boxes, c: Content, b: nat, n: nat, m: nat)
    requires Grounded(old_) && Extends(old_, new_) && n <= |old_| && n <= m <= |new_| && ContentFits(c, n)
    ensures ContentFits(c, m) && (ContentHolds(old_, c, b, n) <==> ContentHolds(new_, c, b, m))
    decreases n, c, 1
  {
    ContentIsStable(old_, new_, c, n, m);
    match c
    case StrContent(_) =>
    case ArrContent(items) =>
      forall i | 0 <= i < |items| ensures Holds(old_, items[i], b, n) <==> Holds(new_, items[i], b, m) {
        HoldsIsStable(old_, new_, items[i], b, n, m);
      }
    case ObjContent(fields) =>
      forall i | 0 <= i < |fields|
        ensures Holds(old_, fields[i].value, b, n) <==> Holds(new_, fields[i].value, b, m)
      {
        HoldsIsStable(old_, new_, fields[i].value, b, n, m);
      }
  }

  /** A handle keeps every box on the way to a place alive. */
  lemma {:induction false} ContainerIsHeld(boxes: Boxes, v: Value, q: seq<Step>)
    requires Grounded(boxes) && Fits(v, |boxes|) && Peek(boxes, v, q).Some? && Container(boxes, v, q).Some?
    ensures Holds(boxes, v, Container(boxes, v, q).value, |boxes|)
    decreases |q|
  {
    OpenFits(boxes, v);
    var c := Open(boxes, v);
    var r := Descend(c, AsAt(q[0]));
    DescendFits(c, AsAt(q[0]), |boxes|);
    var b := Container(boxes, v, q).value;
    if Container(boxes, ChildOf(r.content, r.index), q[1..]).Some? {
      ContainerIsHeld(boxes, ChildOf(r.content, r.index), q[1..]);
      assert ContentHolds(boxes, c, b, |boxes|);
      if v.Shared? { ContentHoldsIsStable(boxes, boxes, c, b, v.box, |boxes|); }
    }
  }

  // ----- references into plain trees -----

  /** Taking a mutable reference with `at` shows nothing; only `operator[]` may add a key. */
  lemma {:induction false} AtShowsNothing(j: Json, path: seq<Step>)
    requires forall i :: 0 <= i < |path| ==> !path[i].Sub?
    ensures DeepTouch(j, path).0 == j
    decreases |path|
  {
    if path != [] {
      var d := DeepDescend(j, path[0]);
      if d.DeepChild? {
        AtShowsNothing(DeepChildOf(d.j, d.index), path[1..]);
        var c := DeepTouch(DeepChildOf(d.j, d.index), path[1..]).0;
        if d.j.Arr? {
          assert d.j.items[d.index := c] == d.j.items;
        } else {
          assert d.j.members[d.index := Member(d.j.members[d.index].key, c)] == d.j.members;
        }
      }
    }
  }

  lemma {:induction false} FindIsIndex(ms: seq<Member>, k: string)
    ensures var i := KeyIndex(MemberKeys(ms), k);
            Find(ms, k) == if i < |ms| then Some(ms[i].value) else None
    decreases |ms|
  {
    if ms != [] {
      assert MemberKeys(ms)[1..] == MemberKeys(ms[1..]);
      FindIsIndex(ms[1..], k);
    }
  }

  lemma {:induction false} InsertKeepsOthers(ms: seq<Member>, m: Member, k: string)
    requires k != m.key
    ensures Find(Insert(ms, m), k) == Find(ms, k)
    decreases |ms|
  {
    if ms != [] && !Less(m.key, ms[0].key) && Less(ms[0].key, m.key) {
      InsertKeepsOthers(ms[1..], m, k);
    }
  }

  lemma {:induction false} ReplaceKeepsOthers(ms: seq<Member>, i: nat, c: Json, k: string)
    requires i < |ms| && ms[i].key != k
    ensures Find(ms[i := Member(ms[i].key, c)], k) == Find(ms, k)
    decreases |ms|
  {
    if i > 0 {
      assert ms[i := Member(ms[i].key, c)][1..] == ms[1..][i - 1 := Member(ms[i].key, c)];
      ReplaceKeepsOthers(ms[1..], i - 1, c, k);
    }
  }

  lemma LookInObject(j: Json, q: seq<Step>)
    requires j.Obj? && q != []
    ensures DeepLook(j, q) ==
      if q[0].At? then None
      else match Find(j.members, q[0].key) case None => None case Some(c) => DeepLook(c, q[1..])
  {
    if !q[0].At? { FindIsIndex(j.members, q[0].key); }
  }

  /**
   Taking a second reference, at `p`, leaves what the first one, at `q`, refers to: if `q`
   is on the way to `p` the walk goes on from there, and otherwise nothing changes at `q`.
   */
  lemma {:induction false} TouchKeepsReferences(j: Json, p: seq<Step>, q: seq<Step>)
    requires DeepLook(j, q).Some?
    ensures DeepLook(DeepTouch(j, p).0, q) == Some(SeenAt(DeepLook(j, q).value, p, q))
    decreases |p|
  {
    if p == [] || q == [] {
      assert q == [] ==> p[|q|..] == p;
    } else {
      PlaceStep(p, q);
      var d := DeepDescend(j, p[0]);
      if !d.DeepChild? {
        assert AsAt(p[0]) != AsAt(q[0]);
      } else if j.Arr? {
        if q[0] == p[0] { TouchKeepsReferences(DeepChildOf(d.j, d.index), p[1..], q[1..]); }
      } else {
        ReferenceInObject(j, p, q);
      }
    }
  }

  /** What a reference at `q` shows of `c` after the walk along `p`. */
  ghost function SeenAt(c: Json, p: seq<Step>, q: seq<Step>): Json {
    if Place(q) <= Place(p) then DeepTouch(c, p[|q|..]).0 else c
  }

  lemma PlaceStep(p: seq<Step>, q: seq<Step>)
    requires p != [] && q != []
    ensures Place(q) <= Place(p) <==> AsAt(q[0]) == AsAt(p[0]) && Place(q[1..]) <= Place(p[1..])
    ensures |q| <= |p| ==> p[1..][|q[1..]|..] == p[|q|..]
  {
    assert Place(p) == [AsAt(p[0])] + Place(p[1..]);
    assert Place(q) == [AsAt(q[0])] + Place(q[1..]);
  }

  lemma {:induction false} ReferenceInObject(j: Json, p: seq<Step>, q: seq<Step>)
    requires p != [] && q != [] && j.Obj? && DeepDescend(j, p[0]).DeepChild? && DeepLook(j, q).Some?
    ensures DeepLook(DeepTouch(j, p).0, q) == Some(SeenAt(DeepLook(j, q).value, p, q))
    decreases |p|, 0
  {
    hide DeepLook, Place, Find, Insert;
    var d := DeepDescend(j, p[0]);
    var child := DeepChildOf(d.j, d.index);
    var after := DeepTouch(j, p).0;
    PlaceStep(p, q);
    LookInObject(j, q);
    LookInObject(after, q);
    FindIsIndex(j.members, p[0].key);
    if q[0].key != p[0].key {
      InsertKeepsOthers(j.members, Member(p[0].key, Null), q[0].key);
      ReplaceKeepsOthers(d.j.members, d.index, DeepTouch(child, p[1..]).0, q[0].key);
    } else {
      assert d.j == j && Find(j.members, q[0].key) == Some(child);
      TouchKeepsReferences(child, p[1..], q[1..]);
      FindIsIndex(after.members, q[0].key);
      assert MemberKeys(after.members) == MemberKeys(j.members);
    }
  }

  /** Walking to something that is there shows nothing. */
  lemma {:induction false} LookMeansTouch(j: Json, p: seq<Step>)
    requires DeepLook(j, p).Some?
    ensures DeepTouch(j, p) == (j, true)
    decreases |p|
  {
    if p != [] {
      var d := DeepDescend(j, p[0]);
      var child := DeepChildOf(d.j, d.index);
      LookMeansTouch(child, p[1..]);
      if j.Arr? {
        assert j.items[d.index := child] == j.items;
      } else {
        assert j.members[d.index := Member(j.members[d.index].key, child)] == j.members;
      }
    }
  }

  lemma {:induction false} TouchThenLook(j: Json, q: seq<Step>)
    requires DeepTouch(j, q).1
    ensures DeepLook(DeepTouch(j, q).0, q).Some?
    decreases |q|
  {
    if q != [] {
      var d := DeepDescend(j, q[0]);
      var child := DeepChildOf(d.j, d.index);
      TouchThenLook(child, q[1..]);
      var after := DeepTouch(j, q).0;
      if d.j.Obj? {
        assert MemberKeys(after.members) == MemberKeys(d.j.members);
      }
    }
  }

  /** Putting back what is there changes nothing. */
  lemma {:induction false} PutOfLook(j: Json, p: seq<Step>)
    requires DeepLook(j, p).Some?
    ensures DeepPut(j, p, DeepLook(j, p).value) == j
    decreases |p|
  {
    if p != [] {
      var d := DeepDescend(j, AsAt(p[0]));
      var child := DeepChildOf(d.j, d.index);
      PutOfLook(child, p[1..]);
      if j.Arr? {
        assert j.items[d.index := child] == j.items;
      } else {
        assert j.members[d.index := Member(j.members[d.index].key, child)] == j.members;
      }
    }
  }

  /** What was put at a place is found there. */
  lemma {:induction false} LookOfPut(j: Json, p: seq<Step>, c: Json)
    requires DeepLook(j, p).Some?
    ensures DeepLook(DeepPut(j, p, c), p) == Some(c)
    decreases |p|
  {
    if p != [] {
      var d := DeepDescend(j, AsAt(p[0]));
      var child := DeepChildOf(d.j, d.index);
      LookOfPut(child, p[1..], c);
      var after := DeepPut(j, p, c);
      if j.Obj? { assert MemberKeys(after.members) == MemberKeys(j.members); }
    }
  }

  /** A place depends on its spelling no more than its path does. */
  lemma {:induction false} LookAtPlace(j: Json, p: seq<Step>, q: seq<Step>)
    requires Place(p) == Place(q)
    ensures DeepLook(j, p) == DeepLook(j, q)
    decreases |p|
  {
    if p != [] {
      assert Place(p)[0] == Place(q)[0];
      assert Place(p[1..]) == Place(p)[1..] && Place(q[1..]) == Place(q)[1..];
      var d := DeepDescend(j, AsAt(p[0]));
      if d.DeepChild? { LookAtPlace(DeepChildOf(d.j, d.index), p[1..], q[1..]); }
    }
  }

  /** A walk or a look that passes a place goes on from there. */
  lemma {:induction false} ThroughPlace(j: Json, p: seq<Step>, q: seq<Step>)
    requires DeepLook(j, q).Some? && Place(q) <= Place(p)
    ensures DeepLook(j, p) == DeepLook(DeepLook(j, q).value, p[|q|..])
    ensures DeepTouch(j, p).1 == DeepTouch(DeepLook(j, q).value, p[|q|..]).1
    decreases |q|
  {
    if q == [] {
      assert p[|q|..] == p;
    } else {
      PlaceStep(p, q);
      var d := DeepDescend(j, AsAt(q[0]));
      assert DeepDescend(j, p[0]) == d && AsAt(p[0]) == AsAt(q[0]);
      ThroughPlace(DeepChildOf(d.j, d.index), p[1..], q[1..]);
    }
  }

  /** A walk that succeeds changes the tree exactly when it adds the last key of its path. */
  lemma WalkAdds(j: Json, p: seq<Step>)
    requires DeepTouch(j, p).1
    ensures DeepTouch(j, p).0 == j <==> DeepLook(j, p).Some?
  {
    if DeepLook(j, p).Some? { LookMeansTouch(j, p); } else { TouchThenLook(j, p); }
  }

  /** When a walk along `p` changes what is shown at `q`: it adds a key below that place. */
  lemma LookAfterWalk(j: Json, p: seq<Step>, q: seq<Step>)
    requires DeepLook(j, q).Some? && DeepTouch(j, p).1
    ensures DeepLook(DeepTouch(j, p).0, q) == DeepLook(j, q) <==> !(Place(q) < Place(p) && DeepLook(j, p).None?)
  {
    TouchKeepsReferences(j, p, q);
    if Place(q) <= Place(p) {
      ThroughPlace(j, p, q);
      WalkAdds(DeepLook(j, q).value, p[|q|..]);
      if Place(q) == Place(p) { LookAtPlace(j, p, q); }
    }
  }

  /** A walk that had to add a key finds null there. */
  lemma {:induction false} WalkAddsNull(j: Json, p: seq<Step>)
    requires DeepTouch(j, p).1 && DeepLook(j, p).None? && WellFormed(j)
    ensures DeepLook(DeepTouch(j, p).0, p) == Some(Null)
    decreases |p|
  {
    var d := DeepDescend(j, p[0]);
    var child := DeepChildOf(d.j, d.index);
    var after := DeepTouch(j, p).0;
    if d.j.Obj? { assert MemberKeys(after.members) == MemberKeys(d.j.members); }
    if DeepDescend(j, AsAt(p[0])).DeepChild? {
      if j.Obj? { assert j.members[d.index] in j.members; }
      WalkAddsNull(child, p[1..]);
    } else {
      NewKeyIsNull(j, p[0]);
      assert |p| == 1;
    }
  }

  lemma NewKeyIsNull(j: Json, s: Step)
    requires DeepDescend(j, s).DeepChild? && !DeepDescend(j, AsAt(s)).DeepChild? && WellFormed(j)
    ensures var d := DeepDescend(j, s); DeepChildOf(d.j, d.index) == Null
  {
    var d := DeepDescend(j, s);
    var m := Member(s.key, Null);
    FindIsIndex(j.members, s.key);
    InsertIs(j.members, m);
    FindIsIndex(d.j.members, s.key);
  }

  /** What is put at a place shows there, and nothing beside it changes. */
  lemma {:induction false} LookAroundPut(j: Json, p: seq<Step>, c: Json, q: seq<Step>)
    requires DeepLook(j, p).Some?
    ensures Place(p) <= Place(q) ==> DeepLook(DeepPut(j, p, c), q) == DeepLook(c, q[|p|..])
    ensures !(Place(p) <= Place(q)) && !(Place(q) <= Place(p)) ==> DeepLook(DeepPut(j, p, c), q) == DeepLook(j, q)
    decreases |p|
  {
    if p == [] {
      assert q[|p|..] == q;
    } else if q != [] {
      PlaceStep(p, q);
      PlaceStep(q, p);
      var d := DeepDescend(j, AsAt(p[0]));
      var child := DeepChildOf(d.j, d.index);
      LookAroundPut(child, p[1..], c, q[1..]);
      var put := DeepPut(child, p[1..], c);
      if j.Arr? {
        assert DeepPut(j, p, c) == Arr(j.items[d.index := put]);
      } else {
        LookAroundMember(j, p[0], put, q);
      }
    }
  }

  /** A member replaced: what is found under its key and under the others. */
  lemma LookAroundMember(j: Json, s: Step, put: Json, q: seq<Step>)
    requires j.Obj? && DeepDescend(j, AsAt(s)).DeepChild? && q != []
    ensures var d := DeepDescend(j, AsAt(s));
            DeepLook(DeepWithChild(j, d.index, put), q) ==
            if AsAt(q[0]) == AsAt(s) then DeepLook(put, q[1..]) else DeepLook(j, q)
  {
    var d := DeepDescend(j, AsAt(s));
    var after := DeepWithChild(j, d.index, put);
    LookInObject(j, q);
    LookInObject(after, q);
    if !q[0].At? {
      hide DeepLook;
      if q[0].key != s.key {
        ReplaceKeepsOthers(j.members, d.index, put, q[0].key);
      } else {
        assert MemberKeys(after.members) == MemberKeys(j.members);
        FindIsIndex(after.members, q[0].key);
      }
    }
  }
}
