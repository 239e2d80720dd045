/**
 Programs over copy-on-write values.

 A session is a set of named values over one store of shared boxes.  Every operation is
 given twice: on the session, as the library does it, and on a map of plain trees, where
 every copy is a deep copy.  `Execute` shows that a program cannot tell the difference, up to
 the first edit whose source is destroyed or left behind; `EditFate` says which edits those are.
 */
module CowSession {
  import opened Basics
  import opened JsonValues
  import opened Cow
  import opened CowPaths
  import opened CowRefs

  // ----- the operations -----

  datatype Edit =
    | Assign                 // target = source
    | PushBack               // target.push_back(source)
    | InsertAs(key: string)  // target.insert(key, source)

  /** How the source of an edit is reached: by the mutable overloads or by the const ones. */
  datatype Access = Mutable | ReadOnly

  /** What an edit makes of its target and a copy; the target was made inline unless it is assigned to. */
  function Attach(target: Value, e: Edit, copy: Value): Option<Value> {
    match e
    case Assign => Some(copy)
    case PushBack =>
      if target.Inline? && target.content.ArrContent?
      then Some(Inline(ArrContent(target.content.items + [copy]))) else None
    case InsertAs(k) =>
      if target.Inline? && target.content.ObjContent?
      then Some(Inline(ObjContent(InsertField(target.content.fields, Field(k, copy))))) else None
  }

  ghost function DeepApply(target: Json, e: Edit, source: Json): Option<Json> {
    match e
    case Assign => Some(source)
    case PushBack => if target.Arr? then Some(Arr(target.items + [source])) else None
    case InsertAs(k) => if target.Obj? then Some(Obj(Insert(target.members, Member(k, source)))) else None
  }

  lemma {:induction false} AttachShows(boxes: Boxes, target: Value, e: Edit, copy: Value)
    requires Grounded(boxes) && Fits(target, |boxes|) && Fits(copy, |boxes|)
    requires e.Assign? || !target.Shared?
    ensures var r := Attach(target, e, copy);
            var d := DeepApply(Show(boxes, target, |boxes|), e, Show(boxes, copy, |boxes|));
            && (r.Some? <==> d.Some?)
            && (r.Some? ==> Fits(r.value, |boxes|) && Show(boxes, r.value, |boxes|) == d.value)
  {
    if e.PushBack? && target.Inline? && target.content.ArrContent? {
      var items := target.content.items;
      assert ShowItems(boxes, items + [copy], |boxes|)
          == ShowItems(boxes, items, |boxes|) + [Show(boxes, copy, |boxes|)];
    }
    if e.InsertAs? && target.Inline? && target.content.ObjContent? {
      InsertFieldShows(boxes, target.content.fields, Field(e.key, copy), |boxes|);
    }
  }

  /** A value built from a literal holds everything inline. */
  function Lift(j: Json): Value
    decreases j, 1
  {
    match j
    case Str(s) => Inline(StrContent(s))
    case Arr(items) => Inline(ArrContent(LiftItems(items)))
    case Obj(ms) => Inline(ObjContent(LiftMembers(ms)))
    case _ => Scalar(j)
  }

  function LiftItems(items: seq<Json>): (r: seq<Value>)
    ensures |r| == |items| && forall i :: 0 <= i < |r| ==> r[i] == Lift(items[i])
    decreases items, 0
  {
    if items == [] then [] else [Lift(items[0])] + LiftItems(items[1..])
  }

  function LiftMembers(ms: seq<Member>): (r: seq<Field>)
    ensures |r| == |ms| && forall i :: 0 <= i < |r| ==> r[i] == Field(ms[i].key, Lift(ms[i].value))
    decreases ms, 0
  {
    if ms == [] then [] else [Field(ms[0].key, Lift(ms[0].value))] + LiftMembers(ms[1..])
  }

  lemma {:induction false} LiftShows(boxes: Boxes, j: Json, n: nat)
    requires Grounded(boxes) && n <= |boxes|
    ensures Fits(Lift(j), n) && Show(boxes, Lift(j), n) == j
    decreases j
  {
    match j
    case Arr(items) =>
      forall i | 0 <= i < |items| ensures Fits(Lift(items[i]), n) && Show(boxes, Lift(items[i]), n) == items[i] {
        LiftShows(boxes, items[i], n);
      }
      assert ShowItems(boxes, LiftItems(items), n) == items;
    case Obj(ms) =>
      forall i | 0 <= i < |ms|
        ensures Fits(Lift(ms[i].value), n) && Show(boxes, Lift(ms[i].value), n) == ms[i].value
      {
        LiftShows(boxes, ms[i].value, n);
      }
      assert ShowFields(boxes, LiftMembers(ms), n) == ms;
    case _ =>
  }

  /** `erase(key)` on fields and on members. */
  function EraseField(fs: seq<Field>, k: string): (r: seq<Field>)
    ensures forall i :: 0 <= i < |r| ==> r[i] in fs
  {
    if fs == [] then [] else if fs[0].key == k then fs[1..] else [fs[0]] + EraseField(fs[1..], k)
  }

  ghost function EraseMember(ms: seq<Member>, k: string): seq<Member> {
    if ms == [] then [] else if ms[0].key == k then ms[1..] else [ms[0]] + EraseMember(ms[1..], k)
  }

  /** `erase` takes away the member with the key, and nothing else. */
  lemma {:induction false} EraseIs(ms: seq<Member>, k: string)
    requires Ascending(ms)
    ensures Ascending(EraseMember(ms, k))
    ensures forall m :: m in EraseMember(ms, k) <==> m in ms && m.key != k
    ensures forall l :: Find(EraseMember(ms, k), l) == if l == k then None else Find(ms, l)
  {
    if ms != [] {
      AscendingTail(ms);
      assert ms == [ms[0]] + ms[1..];
      if ms[0].key == k {
        FindIn(ms[1..], k);
      } else {
        EraseIs(ms[1..], k);
        var r := [ms[0]] + EraseMember(ms[1..], k);
        forall i, j | 0 <= i < j < |r| ensures Less(r[i].key, r[j].key) {
          if i == 0 { assert r[j] in EraseMember(ms[1..], k); }
        }
      }
    }
  }

  lemma {:induction false} EraseFieldShows(boxes: Boxes, fs: seq<Field>, k: string, n: nat)
    requires Grounded(boxes) && n <= |boxes| && forall i :: 0 <= i < |fs| ==> Fits(fs[i].value, n)
    ensures forall i :: 0 <= i < |EraseField(fs, k)| ==> Fits(EraseField(fs, k)[i].value, n)
    ensures ShowFields(boxes, EraseField(fs, k), n) == EraseMember(ShowFields(boxes, fs, n), k)
    decreases |fs|
  {
    if fs != [] && fs[0].key != k {
      EraseFieldShows(boxes, fs[1..], k, n);
    }
  }

  // ----- the same on trees -----

  /** Named trees: what a program sees if every copy is deep. */
  type World = map<string, Json>

  ghost function DeepTouchVar(m: World, x: string, p: seq<Step>): (World, bool)
    requires x in m
  {
    var (j, ok) := DeepTouch(m[x], p); (m[x := j], ok)
  }

  /** Taking the reference to a source; the const overloads change nothing. */
  ghost function DeepSource(m: World, y: string, q: seq<Step>, via: Access): (World, bool)
    requires y in m
  {
    if via.Mutable? then DeepTouchVar(m, y, q) else (m, NoSub(q) && DeepLook(m[y], q).Some?)
  }

  /** An assignment evaluates its right side first, a call evaluates the object first. */
  ghost function DeepWalks(m: World, x: string, p: seq<Step>, e: Edit, via: Access, y: string, q: seq<Step>):
      (r: (World, bool))
    requires x in m && y in m
    ensures r.0.Keys == m.Keys
  {
    var (m1, ok) := if e.Assign? then DeepSource(m, y, q, via) else DeepTouchVar(m, x, p);
    if !ok then (m1, false)
    else if e.Assign? then DeepTouchVar(m1, x, p) else DeepSource(m1, y, q, via)
  }

  ghost function DeepEdit(m: World, x: string, p: seq<Step>, e: Edit, via: Access, y: string, q: seq<Step>):
      (World, bool)
    requires x in m && y in m
  {
    var (m2, ok) := DeepWalks(m, x, p, e, via, y, q);
    if ok && DeepLook(m2[y], q).Some? then DeepWrite(m2, x, p, e, DeepLook(m2[y], q).value) else (m2, false)
  }

  ghost function DeepWrite(m: World, x: string, p: seq<Step>, e: Edit, source: Json): (World, bool)
    requires x in m
  {
    if DeepLook(m[x], p).None? then (m, false)
    else
      match DeepApply(DeepLook(m[x], p).value, e, source)
      case Some(w) => (m[x := DeepPut(m[x], p, w)], true)
      case None => (m, false)
  }

  /** An assignment of what the source showed before the walk to the target. */
  ghost function DeepEarly(m: World, x: string, p: seq<Step>, y: string, q: seq<Step>): (World, bool)
    requires x in m && y in m && DeepLook(m[y], q).Some?
  {
    DeepWrite(DeepTouchVar(m, x, p).0, x, p, Assign, DeepLook(m[y], q).value)
  }

  ghost function DeepSet(m: World, x: string, p: seq<Step>, j: Json): (World, bool)
    requires x in m
  {
    var (m1, ok) := DeepTouchVar(m, x, p);
    if ok then (m1[x := DeepPut(m1[x], p, j)], true) else (m1, false)
  }

  ghost function DeepErase(m: World, x: string, p: seq<Step>, k: string): (World, bool)
    requires x in m
  {
    var (m1, ok) := DeepTouchVar(m, x, p);
    var target := DeepLook(m1[x], p);
    if ok && target.Some? && target.value.Obj?
    then (m1[x := DeepPut(m1[x], p, Obj(EraseMember(target.value.members, k)))], true) else (m1, false)
  }

  /** Where a path goes on with one step more. */
  lemma PlaceOfMore(p: seq<Step>, s: Step, q: seq<Step>)
    ensures Place(p + [s]) == Place(p) + [AsAt(s)]
    ensures Place(p) <= Place(q) && |p| < |q| ==> q[|p|..] == [q[|p|]] + q[|p| + 1..]
    ensures Place(p) <= Place(q) && |p| < |q| ==> (Place(p + [s]) <= Place(q) <==> AsAt(q[|p|]) == AsAt(s))
  {
    assert Place(p + [s]) == Place(p) + [AsAt(s)];
  }

  /** After `erase(k)` at a place nothing is found under the key there, and all else shows what it showed. */
  lemma EraseShows(m: World, x: string, p: seq<Step>, k: string, q: seq<Step>)
    requires x in m && DeepErase(m, x, p, k).1 && WellFormed(DeepTouch(m[x], p).0)
    ensures var was, now := DeepTouch(m[x], p).0, DeepErase(m, x, p, k).0[x];
            && DeepLook(now, p + [AtKey(k)]).None?
            && (!(Place(q) <= Place(p)) && !(Place(p + [AtKey(k)]) <= Place(q)) ==>
                 DeepLook(now, q) == DeepLook(was, q))
  {
    var was, now := DeepTouch(m[x], p).0, DeepErase(m, x, p, k).0[x];
    var target := DeepLook(was, p).value;
    var left := Obj(EraseMember(target.members, k));
    hide DeepTouch, DeepLook, DeepPut;
    LookIsWellFormed(was, p);
    EraseIs(target.members, k);
    var erased := p + [AtKey(k)];
    PlaceOfMore(p, AtKey(k), erased);
    PlaceOfMore(p, AtKey(k), q);
    LookAroundPut(was, p, left, erased);
    LookAroundPut(was, p, left, q);
    assert erased[|p|..] == [AtKey(k)];
    LookInObject(left, [AtKey(k)]);
    if Place(p) <= Place(q) && |p| < |q| {
      ThroughPlace(was, q, p);
      LookInObject(left, q[|p|..]);
      LookInObject(target, q[|p|..]);
    }
  }

  lemma {:induction false} LookIsWellFormed(j: Json, p: seq<Step>)
    requires WellFormed(j) && DeepLook(j, p).Some?
    ensures WellFormed(DeepLook(j, p).value)
    decreases |p|
  {
    if p != [] {
      var d := DeepDescend(j, AsAt(p[0]));
      LookIsWellFormed(DeepChildOf(d.j, d.index), p[1..]);
    }
  }

  /** The place an edit fills. */
  ghost function Filled(target: Json, e: Edit, p: seq<Step>): seq<Step> {
    match e
    case Assign => p
    case PushBack => if target.Arr? then p + [At(|target.items|)] else p
    case InsertAs(k) => p + [AtKey(k)]
  }

  /**
   After an edit the source is found at the place it fills, unless `insert` found the key taken,
   and what is not on the way to that place, nor at it or below, shows what it showed.
   */
  lemma EditShows(m: World, x: string, p: seq<Step>, e: Edit, source: Json, q: seq<Step>)
    requires x in m && DeepWrite(m, x, p, e, source).1 && WellFormed(m[x])
    ensures var was, now := m[x], DeepWrite(m, x, p, e, source).0[x];
            var at := Filled(DeepLook(was, p).value, e, p);
            var taken := e.InsertAs? && DeepLook(was, at).Some?;
            && DeepLook(now, at) == (if taken then DeepLook(was, at) else Some(source))
            && (!(Place(q) <= Place(p)) && !(Place(at) <= Place(q)) ==> DeepLook(now, q) == DeepLook(was, q))
  {
    var was, target := m[x], DeepLook(m[x], p).value;
    var written := DeepApply(target, e, source).value;
    var at := Filled(target, e, p);
    hide DeepLook, DeepPut, Insert;
    LookAroundPut(was, p, written, at);
    LookAroundPut(was, p, written, q);
    if e.Assign? {
      assert at[|p|..] == [];
      LookNowhere(written);
    } else {
      var s := at[|p|];
      assert at == p + [s] && at[|p|..] == [s];
      PlaceOfMore(p, s, at);
      PlaceOfMore(p, s, q);
      ThroughPlace(was, at, p);
      LookIsWellFormed(was, p);
      WrittenShows(target, e, source, [s]);
      if Place(p) <= Place(q) && |p| < |q| {
        ThroughPlace(was, q, p);
        WrittenShows(target, e, source, q[|p|..]);
      }
    }
  }

  lemma LookNowhere(j: Json)
    ensures DeepLook(j, []) == Some(j)
  {
  }

  /** What is found in an array or object that has received something. */
  lemma WrittenShows(target: Json, e: Edit, source: Json, q: seq<Step>)
    requires !e.Assign? && DeepApply(target, e, source).Some? && WellFormed(target) && q != []
    ensures var now := DeepApply(target, e, source).value;
            var s := if e.PushBack? then At(|target.items|) else AtKey(e.key);
            && (AsAt(q[0]) != s ==> DeepLook(now, q) == DeepLook(target, q))
            && (q == [s] ==>
                 if e.InsertAs? && DeepLook(target, q).Some? then DeepLook(now, q) == DeepLook(target, q)
                 else DeepLook(now, q) == Some(source))
  {
    var now := DeepApply(target, e, source).value;
    if e.InsertAs? {
      InsertIs(target.members, Member(e.key, source));
      LookInObject(now, q);
      LookInObject(target, q);
      LookNowhere(source);
    } else if q[0].At? && q[0].i < |target.items| {
      assert now.items[q[0].i] == target.items[q[0].i];
    }
  }

  lemma TouchAgainShows(m: World, x: string, p: seq<Step>)
    requires x in m && DeepLook(m[x], p).Some?
    ensures DeepTouchVar(m, x, p) == (m, true)
  {
    LookMeansTouch(m[x], p);
    assert m[x := m[x]] == m;
  }

  /** Once both walks of an edit have succeeded, source and target are there. */
  lemma EditFindsBoth(m: World, x: string, p: seq<Step>, y: string, q: seq<Step>)
    requires x in m && y in m
    requires DeepTouchVar(m, y, q).1 && DeepTouchVar(DeepTouchVar(m, y, q).0, x, p).1
    ensures var m2 := DeepTouchVar(DeepTouchVar(m, y, q).0, x, p).0;
            DeepLook(m2[x], p).Some? && DeepLook(m2[y], q).Some?
  {
    hide DeepTouch, DeepLook;
    var m1 := DeepTouchVar(m, y, q).0;
    TouchThenLook(m[y], q);
    TouchThenLook(m1[x], p);
    if x == y { TouchKeepsReferences(m1[x], p, q); }
  }

  /** An assignment to the very place it reads from does nothing more. */
  lemma WriteSelf(m: World, x: string, p: seq<Step>, q: seq<Step>)
    requires x in m && Place(p) == Place(q) && DeepLook(m[x], q).Some?
    ensures DeepWrite(m, x, p, Assign, DeepLook(m[x], q).value) == (m, true)
  {
    LookAtPlace(m[x], p, q);
    PutOfLook(m[x], p);
    assert m[x := m[x]] == m;
  }

  /** What a read-only source shows after the walk to the target, and what the outcome depends on. */
  lemma SourceAfterWalk(m: World, x: string, p: seq<Step>, y: string, q: seq<Step>)
    requires x in m && y in m && DeepLook(m[y], q).Some? && DeepTouchVar(m, x, p).1
    ensures var m1 := DeepTouchVar(m, x, p).0;
            var outdated := x == y && Place(q) < Place(p) && DeepLook(m[x], p).None?;
            && y in m1 && x in m1 && DeepLook(m1[x], p).Some? && DeepLook(m1[y], q).Some?
            && (!outdated ==> DeepLook(m1[y], q) == DeepLook(m[y], q))
            && (outdated ==> DeepEarly(m, x, p, y, q) != DeepWrite(m1, x, p, Assign, DeepLook(m1[y], q).value))
            && DeepEarly(m, x, p, y, q) == DeepWrite(m1, x, p, Assign, DeepLook(m[y], q).value)
  {
    var m1 := DeepTouchVar(m, x, p).0;
    TouchThenLook(m[x], p);
    if x == y {
      LookAfterWalk(m[x], p, q);
      TouchKeepsReferences(m[x], p, q);
    }
    hide DeepTouch, DeepPut, DeepLook;
    var c, d := DeepLook(m[y], q).value, DeepLook(m1[y], q).value;
    LookOfPut(m1[x], p, c);
    LookOfPut(m1[x], p, d);
    assert DeepEarly(m, x, p, y, q).0[x] == DeepPut(m1[x], p, c);
    assert DeepWrite(m1, x, p, Assign, d).0[x] == DeepPut(m1[x], p, d);
  }

  /** The deep assignment from a read-only source is the early one, unless that is outdated. */
  lemma DeepReadOnly(m: World, x: string, p: seq<Step>, y: string, q: seq<Step>)
    requires x in m && y in m && NoSub(q) && DeepLook(m[y], q).Some?
    ensures DeepWalks(m, x, p, Assign, ReadOnly, y, q) == DeepTouchVar(m, x, p)
    ensures !DeepTouchVar(m, x, p).1 ==> DeepEdit(m, x, p, Assign, ReadOnly, y, q) == DeepTouchVar(m, x, p)
    ensures DeepTouchVar(m, x, p).1 ==>
      (DeepEdit(m, x, p, Assign, ReadOnly, y, q) == DeepEarly(m, x, p, y, q)
       <==> !(x == y && Place(q) < Place(p) && DeepLook(m[x], p).None?))
  {
    hide DeepTouchVar, DeepWrite, DeepLook, Place;
    if DeepTouchVar(m, x, p).1 { SourceAfterWalk(m, x, p, y, q); }
  }

  lemma CallFindsBoth(m: World, x: string, p: seq<Step>, via: Access, y: string, q: seq<Step>)
    requires x in m && y in m && DeepTouchVar(m, x, p).1 && DeepSource(DeepTouchVar(m, x, p).0, y, q, via).1
    ensures var m2 := DeepSource(DeepTouchVar(m, x, p).0, y, q, via).0;
            x in m2 && y in m2 && DeepLook(m2[x], p).Some? && DeepLook(m2[y], q).Some?
  {
    if via.Mutable? { EditFindsBoth(m, y, q, x, p); } else { TouchThenLook(m[x], p); }
  }

  // ----- which edits lose their source -----

  /**
   A sound edit copies what its source shows.  A dangling one reads the source after the
   storage that held it was destroyed.  An outdated one reads a box that the walk to the
   target has left behind, and so misses the key which that walk has added.
   */
  datatype Fate = Sound | Dangling | Outdated

  ghost predicate Stored(boxes: Boxes, vars: map<string, Value>) {
    Grounded(boxes) && forall x :: x in vars ==> Fits(vars[x], |boxes|)
  }

  /** What the handles look like. */
  ghost function ShownOf(boxes: Boxes, vars: map<string, Value>): World
    requires Stored(boxes, vars)
  {
    map x | x in vars :: Show(boxes, vars[x], |boxes|)
  }

  /** Some handle keeps the box alive. */
  predicate Live(boxes: Boxes, vars: map<string, Value>, b: nat)
    requires Stored(boxes, vars)
  {
    exists x :: x in vars && Holds(boxes, vars[x], b, |boxes|)
  }

  lemma StillStored(boxes: Boxes, vars: map<string, Value>, bs: Boxes, x: string, w: Value)
    requires Stored(boxes, vars) && Extends(boxes, bs) && Fits(w, |bs|)
    ensures Stored(bs, vars[x := w])
  {
    forall z | z in vars ensures Fits(vars[z], |bs|) { ShowIsStable(boxes, bs, vars[z], |boxes|, |bs|); }
  }

  /** The position of the held type among the alternatives of `data_type`. */
  function Alternative(boxes: Boxes, v: Value): nat
    requires v.Shared? ==> v.box < |boxes|
    requires v.Scalar? ==> !v.j.Str? && !v.j.Arr? && !v.j.Obj?
  {
    match v
    case Scalar(j) => if j.Null? then 0 else if j.Bool? then 1 else if j.Int? then 2 else 3
    case Inline(c) => if c.StrContent? then 4 else if c.ObjContent? then 6 else 8
    case Shared(b) => if boxes[b].StrContent? then 5 else if boxes[b].ObjContent? then 7 else 9
  }

  /** The handles when an assignment reads its source: the target is reset unless it holds that alternative. */
  function Reset(boxes: Boxes, vars: map<string, Value>, x: string, p: seq<Step>, source: Value):
      (r: map<string, Value>)
    requires Stored(boxes, vars) && x in vars && Reached(vars[x], p) && Fits(source, |boxes|)
    ensures Stored(boxes, r) && r.Keys == vars.Keys && forall z :: z in vars && z != x ==> r[z] == vars[z]
  {
    LookFits(vars[x], p, |boxes|);
    PutFits(vars[x], p, Scalar(Null), |boxes|);
    if Alternative(boxes, Look(vars[x], p)) == Alternative(boxes, source) then vars
    else vars[x := Put(vars[x], p, Scalar(Null))]
  }

  /** The store when an assignment reads its source, from the state before the walk to the target. */
  function AtReading(boxes: Boxes, vars: map<string, Value>, x: string, p: seq<Step>, source: Value):
      (r: (Boxes, map<string, Value>))
    requires Stored(boxes, vars) && x in vars && Fits(source, |boxes|) && Touch(boxes, vars[x], p, false).2
    ensures Stored(r.0, r.1) && Extends(boxes, r.0) && r.1.Keys == vars.Keys
    ensures forall z :: z in vars && z != x ==> r.1[z] == vars[z]
  {
    var (bs, w, ok) := Touch(boxes, vars[x], p, false);
    TouchShows(boxes, vars[x], p, false);
    TouchReaches(boxes, vars[x], p, false);
    StillStored(boxes, vars, bs, x, w);
    ShowIsStable(boxes, bs, source, |boxes|, |bs|);
    (bs, Reset(bs, vars[x := w], x, p, source))
  }

  function AssignFate(boxes: Boxes, vars: map<string, Value>, x: string, p: seq<Step>, via: Access,
                      y: string, q: seq<Step>): Fate
    requires Stored(boxes, vars) && x in vars && y in vars
  {
    if via.Mutable? then
      if x == y && Inside(p, q) && Touch(boxes, vars[y], q, false).2 && !HeldInline(vars[y], q) then Dangling else Sound
    else if View(boxes, vars[y], q).None? || !Touch(boxes, vars[x], p, false).2 then Sound
    else
      var source := View(boxes, vars[y], q).value;
      PeekShows(boxes, vars[y], q);
      match Container(boxes, vars[y], q)
      case None => if x == y && Inside(p, q) && !source.Inline? then Dangling else Sound
      case Some(b) =>
        var (bs, handles) := AtReading(boxes, vars, x, p, source);
        if !Live(bs, handles, b) then Dangling
        else if x == y && Place(q) < Place(p) && Peek(boxes, vars[x], p).None? then Outdated
        else Sound
  }

  /** `push_back` makes its target inline between taking the reference and copying; both walks are done. */
  function PushFate(boxes: Boxes, vars: map<string, Value>, x: string, p: seq<Step>, y: string, q: seq<Step>): Fate
    requires Stored(boxes, vars) && x in vars && y in vars
  {
    if Peek(boxes, vars[y], q).None? || Container(boxes, vars[y], q).None? then Sound
    else
      var (bs, w, ok) := Touch(boxes, vars[x], p, true);
      TouchShows(boxes, vars[x], p, true);
      StillStored(boxes, vars, bs, x, w);
      if ok && Appendable(Peek(bs, w, p)) && !Live(bs, vars[x := w], Container(boxes, vars[y], q).value)
      then Dangling else Sound
  }

  predicate Appendable(target: Option<Value>) {
    target.Some? && target.value.Inline? && target.value.content.ArrContent?
  }

  /** The same from the state before the walk to the target. */
  function CallFate(boxes: Boxes, vars: map<string, Value>, x: string, p: seq<Step>, y: string, q: seq<Step>): Fate
    requires Stored(boxes, vars) && x in vars && y in vars
  {
    var (bs, w, ok) := Touch(boxes, vars[x], p, false);
    TouchShows(boxes, vars[x], p, false);
    StillStored(boxes, vars, bs, x, w);
    if ok && NoSub(q) then PushFate(bs, vars[x := w], x, p, y, q) else Sound
  }

  /** What becomes of an edit, from the state before it; `insert` makes its copy at once. */
  function EditFate(boxes: Boxes, vars: map<string, Value>, x: string, p: seq<Step>, e: Edit, via: Access,
                    y: string, q: seq<Step>): Fate
    requires Stored(boxes, vars) && x in vars && y in vars
  {
    if e.Assign? then AssignFate(boxes, vars, x, p, via, y, q)
    else if e.PushBack? && via.ReadOnly? then CallFate(boxes, vars, x, p, y, q)
    else Sound
  }

  lemma {:induction false} LookFits(v: Value, p: seq<Step>, n: nat)
    requires Fits(v, n) && Reached(v, p)
    ensures Fits(Look(v, p), n)
    decreases |p|
  {
    if p != [] {
      var r := Descend(v.content, AsAt(p[0]));
      DescendFits(v.content, AsAt(p[0]), n);
      LookFits(ChildOf(r.content, r.index), p[1..], n);
    }
  }

  lemma {:induction false} PutFits(v: Value, p: seq<Step>, w: Value, n: nat)
    requires Fits(v, n) && Reached(v, p) && Fits(w, n)
    ensures Fits(Put(v, p, w), n)
    decreases |p|
  {
    if p != [] {
      var r := Descend(v.content, AsAt(p[0]));
      DescendFits(v.content, AsAt(p[0]), n);
      PutFits(ChildOf(r.content, r.index), p[1..], w, n);
    }
  }

  // ----- programs -----

  datatype Op =
    | Declare(x: string, j: Json)
    | CopyOf(x: string, y: string)
    | Drop(x: string)
    | Mutate(x: string, p: seq<Step>, e: Edit, via: Access, y: string, q: seq<Step>)
    | SetTo(x: string, p: seq<Step>, j: Json)
    | EraseKey(x: string, p: seq<Step>, k: string)

  /** The names are declared. */
  predicate Allowed(names: set<string>, op: Op) {
    match op
    case Declare(_, _) => true
    case CopyOf(_, y) => y in names
    case Drop(x) => x in names
    case Mutate(x, _, _, _, y, _) => x in names && y in names
    case SetTo(x, _, _) => x in names
    case EraseKey(x, _, _) => x in names
  }

  ghost function DeepStep(m: World, op: Op): (World, bool)
    requires Allowed(m.Keys, op)
  {
    match op
    case Declare(x, j) => (m[x := j], true)
    case CopyOf(x, y) => (m[x := m[y]], true)
    case Drop(x) => (m - {x}, true)
    case Mutate(x, p, e, via, y, q) => DeepEdit(m, x, p, e, via, y, q)
    case SetTo(x, p, j) => DeepSet(m, x, p, j)
    case EraseKey(x, p, k) => DeepErase(m, x, p, k)
  }

  /** What becomes of an operation, from the state before it. */
  function FateOf(boxes: Boxes, vars: map<string, Value>, op: Op): Fate
    requires Stored(boxes, vars) && Allowed(vars.Keys, op)
  {
    match op
    case Mutate(x, p, e, via, y, q) => EditFate(boxes, vars, x, p, e, via, y, q)
    case _ => Sound
  }

  /** Operations that are not allowed are skipped, the others run in order. */
  ghost function DeepRun(m: World, ops: seq<Op>): (World, seq<bool>)
    decreases |ops|
  {
    if ops == [] then (m, [])
    else
      var (m1, ok) := if Allowed(m.Keys, ops[0]) then DeepStep(m, ops[0]) else (m, false);
      var (m2, oks) := DeepRun(m1, ops[1..]);
      (m2, [ok] + oks)
  }

  /** One operation more. */
  lemma {:induction false} RunOneMore(m: World, ops: seq<Op>, op: Op)
    ensures var (m1, oks) := DeepRun(m, ops);
            var (m2, ok) := if Allowed(m1.Keys, op) then DeepStep(m1, op) else (m1, false);
            DeepRun(m, ops + [op]) == (m2, oks + [ok])
    decreases |ops|
  {
    hide DeepStep;
    if ops == [] {
      assert ops + [op] == [op] && [op][1..] == [];
      assert DeepRun(m, []) == (m, []);
      var (m1, ok) := if Allowed(m.Keys, op) then DeepStep(m, op) else (m, false);
      assert DeepRun(m1, []) == (m1, []);
      var none: seq<bool> := [];
      assert [ok] + none == none + [ok];
      assert DeepRun(m, [op]) == (m1, [ok] + none);
    } else {
      var (m1, ok) := if Allowed(m.Keys, ops[0]) then DeepStep(m, ops[0]) else (m, false);
      RunOneMore(m1, ops[1..], op);
      assert (ops + [op])[1..] == ops[1..] + [op];
      var (m2, later) := DeepRun(m1, ops[1..]);
      var (m3, last) := if Allowed(m2.Keys, op) then DeepStep(m2, op) else (m2, false);
      assert [ok] + (later + [last]) == [ok] + later + [last];
    }
  }

  class Session {
    var boxes: Boxes
    var vars: map<string, Value>

    ghost predicate Valid()
      reads this
    {
      Stored(boxes, vars)
    }

    /** What the named values look like. */
    ghost function Shown(): World
      reads this
      requires Valid()
    {
      ShownOf(boxes, vars)
    }

    constructor ()
      ensures Valid() && boxes == [] && vars == map[]
    {
      boxes := [];
      vars := map[];
    }

    /** All that changes is that `x` shows `j`. */
    method Store(bs: Boxes, x: string, w: Value)
      requires Valid() && Extends(boxes, bs) && Fits(w, |bs|)
      modifies this
      ensures Valid() && Shown() == old(Shown())[x := Show(bs, w, |bs|)]
      ensures boxes == bs && vars == old(vars)[x := w]
    {
      forall z | z in vars
        ensures Fits(vars[z], |bs|) && Show(bs, vars[z], |bs|) == Show(boxes, vars[z], |boxes|)
      {
        ShowIsStable(boxes, bs, vars[z], |boxes|, |bs|);
      }
      boxes := bs;
      vars := vars[x := w];
    }

    /** `value x(y)`. */
    method Copy(x: string, y: string)
      requires Valid() && y in vars
      modifies this
      ensures Valid() && Shown() == old(Shown())[x := old(Shown()[y])]
      ensures var (bs, w) := Clone(old(boxes), old(vars[y])); boxes == bs && vars == old(vars)[x := w]
    {
      CloneShows(boxes, vars[y]);
      var (bs, w) := Clone(boxes, vars[y]);
      Store(bs, x, w);
    }

    method TouchVar(x: string, p: seq<Step>, into: bool) returns (ok: bool)
      requires Valid() && x in vars
      modifies this
      ensures Valid() && vars.Keys == old(vars.Keys)
      ensures (Shown(), ok) == DeepTouchVar(old(Shown()), x, p)
      ensures (boxes, vars[x], ok) == Touch(old(boxes), old(vars[x]), p, into) && Extends(old(boxes), boxes)
      ensures ok ==> Reached(vars[x], p) && (into ==> !Look(vars[x], p).Shared?)
      ensures forall z :: z in vars && z != x ==> vars[z] == old(vars[z])
    {
      TouchShows(boxes, vars[x], p, into);
      var (bs, w, ok') := Touch(boxes, vars[x], p, into);
      if ok' { TouchReaches(boxes, vars[x], p, into); }
      Store(bs, x, w);
      ok := ok';
    }

    /** The value that is copied goes to new boxes where it is inline; nothing else changes. */
    method CopyValue(source: Value) returns (copy: Value)
      requires Valid() && Fits(source, |boxes|)
      modifies this`boxes
      ensures Valid() && Extends(old(boxes), boxes) && Shown() == old(Shown())
      ensures Fits(copy, |boxes|) && Show(boxes, copy, |boxes|) == Show(old(boxes), source, |old(boxes)|)
    {
      hide Clone;
      CloneShows(boxes, source);
      var (bs, w) := Clone(boxes, source);
      forall z | z in vars
        ensures Fits(vars[z], |bs|) && Show(bs, vars[z], |bs|) == Show(boxes, vars[z], |boxes|)
      {
        ShowIsStable(boxes, bs, vars[z], |boxes|, |bs|);
      }
      boxes := bs;
      copy := w;
    }

    /** The target receives the copy. */
    method AttachCopy(x: string, p: seq<Step>, e: Edit, copy: Value) returns (ok: bool)
      requires Valid() && x in vars && Fits(copy, |boxes|)
      requires Reached(vars[x], p) && (e.Assign? || !Look(vars[x], p).Shared?)
      modifies this
      ensures Valid() && vars.Keys == old(vars.Keys)
      ensures (Shown(), ok) == DeepWrite(old(Shown()), x, p, e, Show(old(boxes), copy, |old(boxes)|))
    {
      hide Attach, DeepApply, Put, Look, Peek, Reached;
      LookIsPeek(boxes, vars[x], p);
      PeekShows(boxes, vars[x], p);
      var target := Look(vars[x], p);
      AttachShows(boxes, target, e, copy);
      match Attach(target, e, copy)
      case None => ok := false;
      case Some(w) =>
        ok := true;
        PutShows(boxes, vars[x], p, w);
        Store(boxes, x, Put(vars[x], p, w));
    }

    /** The source is copied and the target receives the copy. */
    method CopyInto(x: string, p: seq<Step>, e: Edit, source: Value) returns (ok: bool)
      requires Valid() && x in vars && Fits(source, |boxes|)
      requires Reached(vars[x], p) && (e.Assign? || !Look(vars[x], p).Shared?)
      modifies this
      ensures Valid() && vars.Keys == old(vars.Keys)
      ensures (Shown(), ok) == DeepWrite(old(Shown()), x, p, e, Show(old(boxes), source, |old(boxes)|))
    {
      hide DeepWrite, Reached, Look;
      var copy := CopyValue(source);
      ok := AttachCopy(x, p, e, copy);
    }

    /** `value::operator=` when both references lead into handles' own storage. */
    method AssignInPlace(x: string, p: seq<Step>, y: string, q: seq<Step>) returns (ok: bool)
      requires Valid() && x in vars && y in vars && Reached(vars[x], p) && DeepLook(Shown()[y], q).Some?
      modifies this
      ensures Valid() && vars.Keys == old(vars.Keys)
      ensures (Shown(), ok) == DeepWrite(old(Shown()), x, p, Assign, DeepLook(old(Shown())[y], q).value)
    {
      hide DeepWrite, Reached, Look, Peek, DeepLook, Place;
      if x == y && Place(p) == Place(q) {
        WriteSelf(Shown(), x, p, q);
        return true;
      }
      PeekShows(boxes, vars[y], q);
      ok := CopyInto(x, p, Assign, Peek(boxes, vars[y], q).value);
    }

    /**
     `x.at(p...) = y.at(q...)`, `x.at(p...).push_back(y.at(q...))` and the like, with the
     source reached by mutable or by const overloads.
     */
    method Modify(x: string, p: seq<Step>, e: Edit, via: Access, y: string, q: seq<Step>)
      returns (ok: bool, fate: Fate)
      requires Valid() && x in vars && y in vars
      modifies this
      ensures Valid() && vars.Keys == old(vars.Keys)
      ensures fate == EditFate(old(boxes), old(vars), x, p, e, via, y, q)
      ensures fate.Sound? ==> (Shown(), ok) == DeepEdit(old(Shown()), x, p, e, via, y, q)
      ensures fate.Dangling? ==> (Shown(), true) == DeepWalks(old(Shown()), x, p, e, via, y, q)
      ensures fate.Outdated? ==> DeepLook(old(Shown())[y], q).Some?
      ensures fate.Outdated? ==> (Shown(), ok) == DeepEarly(old(Shown()), x, p, y, q)
      ensures fate.Outdated? ==> (Shown(), ok) != DeepEdit(old(Shown()), x, p, e, via, y, q)
    {
      if e.Assign? {
        if via.Mutable? {
          ok, fate := AssignMutable(x, p, y, q);
        } else {
          ok, fate := AssignReadOnly(x, p, y, q);
        }
      } else {
        ok, fate := Call(x, p, e, via, y, q);
      }
    }

    /** An assignment from a mutable reference. */
    method AssignMutable(x: string, p: seq<Step>, y: string, q: seq<Step>) returns (ok: bool, fate: Fate)
      requires Valid() && x in vars && y in vars
      modifies this
      ensures Valid() && vars.Keys == old(vars.Keys)
      ensures fate == AssignFate(old(boxes), old(vars), x, p, Mutable, y, q) && !fate.Outdated?
      ensures fate.Sound? ==> (Shown(), ok) == DeepEdit(old(Shown()), x, p, Assign, Mutable, y, q)
      ensures fate.Dangling? ==> (Shown(), true) == DeepWalks(old(Shown()), x, p, Assign, Mutable, y, q)
    {
      hide DeepWalks, DeepWrite, Reached, Look, Peek, DeepLook, Place, Touch;
      fate := Sound;
      ok := AssignWalks(x, p, y, q);
      if !ok { return; }
      if x == y && Inside(p, q) {
        LookIsPeek(boxes, vars[y], q);
        if !Peek(boxes, vars[y], q).value.Inline? { return ok, Dangling; }
      }
      ok := AssignInPlace(x, p, y, q);
    }

    /** Both walks of an assignment from a mutable reference, the source first. */
    method AssignWalks(x: string, p: seq<Step>, y: string, q: seq<Step>) returns (ok: bool)
      requires Valid() && x in vars && y in vars
      modifies this
      ensures Valid() && vars.Keys == old(vars.Keys)
      ensures (Shown(), ok) == DeepWalks(old(Shown()), x, p, Assign, Mutable, y, q)
      ensures ok ==> Reached(vars[x], p) && DeepLook(Shown()[y], q).Some?
      ensures x == y && Inside(p, q) ==> ok == Touch(old(boxes), old(vars[y]), q, false).2
      ensures ok && x == y && Inside(p, q) ==>
        Reached(vars[y], q) && (HeldInline(vars[y], q) <==> HeldInline(old(vars[y]), q))
    {
      hide DeepTouchVar, Touch, Reached, Look, HeldInline, DeepLook, Place;
      ghost var m := Shown();
      ok := TouchVar(y, q, false);
      if !ok { return; }
      HeldInlineAfter(old(boxes), old(vars[y]), q);
      ghost var v, bs := vars[y], boxes;
      ok := TouchVar(x, p, false);
      if x == y && Inside(p, q) { WayIsClear(bs, v, p, q); }
      if ok { EditFindsBoth(m, x, p, y, q); }
    }

    /** An assignment from a read-only reference, which may lead into a box. */
    method AssignReadOnly(x: string, p: seq<Step>, y: string, q: seq<Step>) returns (ok: bool, fate: Fate)
      requires Valid() && x in vars && y in vars
      modifies this
      ensures Valid() && vars.Keys == old(vars.Keys)
      ensures fate == AssignFate(old(boxes), old(vars), x, p, ReadOnly, y, q)
      ensures fate.Sound? ==> (Shown(), ok) == DeepEdit(old(Shown()), x, p, Assign, ReadOnly, y, q)
      ensures fate.Dangling? ==> (Shown(), true) == DeepWalks(old(Shown()), x, p, Assign, ReadOnly, y, q)
      ensures fate.Outdated? ==> DeepLook(old(Shown())[y], q).Some?
      ensures fate.Outdated? ==> (Shown(), ok) == DeepEarly(old(Shown()), x, p, y, q)
      ensures fate.Outdated? ==> (Shown(), ok) != DeepEdit(old(Shown()), x, p, Assign, ReadOnly, y, q)
    {
      PeekShows(boxes, vars[y], q);
      if View(boxes, vars[y], q).None? {
        ok, fate := false, Sound;
      } else if Container(boxes, vars[y], q).None? {
        ok, fate := AssignFromHandle(x, p, y, q);
      } else {
        ok, fate := AssignFromBox(x, p, y, q);
      }
    }

    /** The source lies in a handle's own storage. */
    method AssignFromHandle(x: string, p: seq<Step>, y: string, q: seq<Step>) returns (ok: bool, fate: Fate)
      requires Valid() && x in vars && y in vars
      requires View(boxes, vars[y], q).Some? && Container(boxes, vars[y], q).None?
      modifies this
      ensures Valid() && vars.Keys == old(vars.Keys)
      ensures fate == AssignFate(old(boxes), old(vars), x, p, ReadOnly, y, q) && !fate.Outdated?
      ensures fate.Sound? ==> (Shown(), ok) == DeepEdit(old(Shown()), x, p, Assign, ReadOnly, y, q)
      ensures fate.Dangling? ==> (Shown(), true) == DeepWalks(old(Shown()), x, p, Assign, ReadOnly, y, q)
    {
      hide DeepTouchVar, Touch, DeepWrite, Reached, Look, Peek, DeepLook, Place, Live, Container, AtReading;
      fate := Sound;
      ghost var m := Shown();
      PeekShows(boxes, vars[y], q);
      var source := View(boxes, vars[y], q).value;
      ok := TouchVar(x, p, false);
      if !ok { return; }
      SourceAfterWalk(m, x, p, y, q);
      if x == y && Inside(p, q) && !source.Inline? { return ok, Dangling; }
      ok := AssignInPlace(x, p, y, q);
    }

    /** The source lies in a box, where the walk to the target does not change it. */
    method AssignFromBox(x: string, p: seq<Step>, y: string, q: seq<Step>) returns (ok: bool, fate: Fate)
      requires Valid() && x in vars && y in vars
      requires View(boxes, vars[y], q).Some? && Container(boxes, vars[y], q).Some?
      modifies this
      ensures Valid() && vars.Keys == old(vars.Keys)
      ensures fate == AssignFate(old(boxes), old(vars), x, p, ReadOnly, y, q)
      ensures fate.Sound? ==> (Shown(), ok) == DeepEdit(old(Shown()), x, p, Assign, ReadOnly, y, q)
      ensures fate.Dangling? ==> (Shown(), true) == DeepWalks(old(Shown()), x, p, Assign, ReadOnly, y, q)
      ensures fate.Outdated? ==> DeepLook(old(Shown())[y], q).Some?
      ensures fate.Outdated? ==> (Shown(), ok) == DeepEarly(old(Shown()), x, p, y, q)
      ensures fate.Outdated? ==> (Shown(), ok) != DeepEdit(old(Shown()), x, p, Assign, ReadOnly, y, q)
    {
      hide DeepTouchVar, DeepWrite, DeepEdit, DeepWalks;
      hide Touch, Reached, Look, Peek, DeepLook, Place, Reset, Live, Container;
      fate := Sound;
      PeekShows(boxes, vars[y], q);
      PeekShows(boxes, vars[x], p);
      DeepReadOnly(Shown(), x, p, y, q);
      var source, box := View(boxes, vars[y], q).value, Container(boxes, vars[y], q).value;
      var missing := Peek(boxes, vars[x], p).None?;
      ok := TouchVar(x, p, false);
      if !ok { return; }
      assert vars == old(vars)[x := vars[x]];
      ShowIsStable(old(boxes), boxes, source, |old(boxes)|, |boxes|);
      if !Live(boxes, Reset(boxes, vars, x, p, source), box) { return ok, Dangling; }
      if x == y && Place(q) < Place(p) && missing { fate := Outdated; }
      ok := CopyInto(x, p, Assign, source);
    }

    /** The reference to the source of a call. */
    method TakeSource(y: string, q: seq<Step>, via: Access) returns (ok: bool)
      requires Valid() && y in vars
      modifies this
      ensures Valid() && vars.Keys == old(vars.Keys)
      ensures (Shown(), ok) == DeepSource(old(Shown()), y, q, via)
      ensures via.ReadOnly? ==> boxes == old(boxes) && vars == old(vars) && (ok ==> NoSub(q))
      ensures via.ReadOnly? && !ok && NoSub(q) ==>
        forall x, p :: x in vars ==> PushFate(boxes, vars, x, p, y, q).Sound?
      ensures via.Mutable? && ok ==> forall x, p :: x in vars ==> PushFate(boxes, vars, x, p, y, q).Sound?
    {
      hide Peek, DeepLook, Touch, Reached, Container;
      if via.Mutable? {
        ok := TouchVar(y, q, false);
        if ok {
          LookIsPeek(boxes, vars[y], q);
          NoContainer(boxes, vars[y], q);
        }
      } else {
        PeekShows(boxes, vars[y], q);
        ok := View(boxes, vars[y], q).Some?;
      }
    }

    /** `push_back` and `insert`. */
    method Call(x: string, p: seq<Step>, e: Edit, via: Access, y: string, q: seq<Step>) returns (ok: bool, fate: Fate)
      requires Valid() && x in vars && y in vars && !e.Assign?
      modifies this
      ensures Valid() && vars.Keys == old(vars.Keys)
      ensures fate == EditFate(old(boxes), old(vars), x, p, e, via, y, q) && !fate.Outdated?
      ensures fate.Sound? ==> (Shown(), ok) == DeepEdit(old(Shown()), x, p, e, via, y, q)
      ensures fate.Dangling? ==> (Shown(), true) == DeepWalks(old(Shown()), x, p, e, via, y, q)
    {
      hide DeepWalks, DeepWrite, DeepLook, PushFate;
      fate := Sound;
      ok := CallWalks(x, p, e, via, y, q);
      if !ok { return; }
      if e.InsertAs? {
        ok := InsertCopy(x, p, e, y, q);
      } else {
        ok, fate := PushCopy(x, p, y, q);
      }
    }

    /** Both walks of a call, the object first. */
    method CallWalks(x: string, p: seq<Step>, e: Edit, via: Access, y: string, q: seq<Step>) returns (ok: bool)
      requires Valid() && x in vars && y in vars && !e.Assign?
      modifies this
      ensures Valid() && vars.Keys == old(vars.Keys)
      ensures (Shown(), ok) == DeepWalks(old(Shown()), x, p, e, via, y, q)
      ensures ok ==> DeepLook(Shown()[x], p).Some? && DeepLook(Shown()[y], q).Some?
      ensures via.Mutable? && ok ==> PushFate(boxes, vars, x, p, y, q).Sound?
      ensures via.ReadOnly? ==>
        CallFate(old(boxes), old(vars), x, p, y, q) == if ok then PushFate(boxes, vars, x, p, y, q) else Sound
    {
      hide DeepTouchVar, Touch, DeepLook, DeepSource, Reached, Look, PushFate;
      ghost var m := Shown();
      ok := TouchVar(x, p, false);
      if !ok { return; }
      assert vars == old(vars)[x := vars[x]];
      ok := TakeSource(y, q, via);
      if ok { CallFindsBoth(m, x, p, via, y, q); }
    }

    /** `insert`: the pair with the copy is made before the target is made inline. */
    method InsertCopy(x: string, p: seq<Step>, e: Edit, y: string, q: seq<Step>) returns (ok: bool)
      requires Valid() && x in vars && y in vars && e.InsertAs?
      requires DeepLook(Shown()[x], p).Some? && DeepLook(Shown()[y], q).Some?
      modifies this
      ensures Valid() && vars.Keys == old(vars.Keys)
      ensures (Shown(), ok) == DeepWrite(old(Shown()), x, p, e, DeepLook(old(Shown())[y], q).value)
    {
      hide DeepTouchVar, Touch, DeepWrite, Reached, Look, Peek, DeepLook;
      PeekShows(boxes, vars[y], q);
      var copy := CopyValue(Peek(boxes, vars[y], q).value);
      ghost var bs := boxes;
      TouchAgainShows(Shown(), x, p);
      ok := TouchVar(x, p, true);
      ShowIsStable(bs, boxes, copy, |bs|, |boxes|);
      ok := AttachCopy(x, p, e, copy);
    }

    /** `push_back`: the target is made inline first; a source in a box is still read there. */
    method PushCopy(x: string, p: seq<Step>, y: string, q: seq<Step>) returns (ok: bool, fate: Fate)
      requires Valid() && x in vars && y in vars
      requires DeepLook(Shown()[x], p).Some? && DeepLook(Shown()[y], q).Some?
      modifies this
      ensures Valid() && vars.Keys == old(vars.Keys)
      ensures fate == PushFate(old(boxes), old(vars), x, p, y, q) && !fate.Outdated?
      ensures fate.Dangling? ==> Shown() == old(Shown())
      ensures fate.Sound? ==>
        (Shown(), ok) == DeepWrite(old(Shown()), x, p, PushBack, DeepLook(old(Shown())[y], q).value)
    {
      hide DeepTouchVar, Touch, DeepWrite, Reached, Look, Peek, DeepLook, Container, Live;
      fate := Sound;
      PeekShows(boxes, vars[y], q);
      var source := Peek(boxes, vars[y], q).value;
      var box := Container(boxes, vars[y], q);
      TouchAgainShows(Shown(), x, p);
      ok := TouchVar(x, p, true);
      assert vars == old(vars)[x := vars[x]];
      ShowIsStable(old(boxes), boxes, source, |old(boxes)|, |boxes|);
      if box.None? {
        PeekShows(boxes, vars[y], q);
        source := Peek(boxes, vars[y], q).value;
      } else if Appendable(Peek(boxes, vars[x], p)) && !Live(boxes, vars, box.value) {
        return ok, Dangling;
      }
      ok := CopyInto(x, p, PushBack, source);
    }

    /** `x.at(p...) = literal`. */
    method Set(x: string, p: seq<Step>, j: Json) returns (ok: bool)
      requires Valid() && x in vars
      modifies this
      ensures Valid() && (Shown(), ok) == DeepSet(old(Shown()), x, p, j)
    {
      ok := TouchVar(x, p, false);
      if ok {
        LiftShows(boxes, j, |boxes|);
        PutShows(boxes, vars[x], p, Lift(j));
        Store(boxes, x, Put(vars[x], p, Lift(j)));
      }
    }

    /** `x.at(p...).erase(k)`. */
    method Erase(x: string, p: seq<Step>, k: string) returns (ok: bool)
      requires Valid() && x in vars
      modifies this
      ensures Valid() && (Shown(), ok) == DeepErase(old(Shown()), x, p, k)
    {
      ok := TouchVar(x, p, true);
      if ok {
        LookIsPeek(boxes, vars[x], p);
        PeekShows(boxes, vars[x], p);
        var target := Look(vars[x], p);
        ok := target.Inline? && target.content.ObjContent?;
        if ok {
          EraseFieldShows(boxes, target.content.fields, k, |boxes|);
          var w := Inline(ObjContent(EraseField(target.content.fields, k)));
          PutShows(boxes, vars[x], p, w);
          Store(boxes, x, Put(vars[x], p, w));
        }
      }
    }

    method Step(op: Op) returns (ok: bool, fate: Fate)
      requires Valid() && Allowed(vars.Keys, op)
      modifies this
      ensures Valid() && fate == FateOf(old(boxes), old(vars), op)
      ensures fate.Sound? ==> (Shown(), ok) == DeepStep(old(Shown()), op)
      ensures !fate.Sound? ==> op.Mutate?
      ensures fate.Dangling? ==> (Shown(), true) == DeepWalks(old(Shown()), op.x, op.p, op.e, op.via, op.y, op.q)
      ensures fate.Outdated? ==> DeepLook(old(Shown())[op.y], op.q).Some?
      ensures fate.Outdated? ==> (Shown(), ok) == DeepEarly(old(Shown()), op.x, op.p, op.y, op.q)
    {
      hide EditFate, DeepEdit, DeepWalks, DeepEarly, DeepSet, DeepErase;
      ok, fate := true, Sound;
      match op
      case Declare(x, j) =>
        LiftShows(boxes, j, |boxes|);
        Store(boxes, x, Lift(j));
      case CopyOf(x, y) => Copy(x, y);
      case Drop(x) =>
        vars := vars - {x};
        assert Shown() == old(Shown()) - {x};
      case Mutate(x, p, e, via, y, q) => ok, fate := Modify(x, p, e, via, y, q);
      case SetTo(x, p, j) => ok := Set(x, p, j);
      case EraseKey(x, p, k) => ok := Erase(x, p, k);
    }

    /**
     Every program shows what it would show if all its copies were deep, up to the first edit
     that loses its source.  `before` is the store in front of that edit.
     */
    method Execute(ops: seq<Op>) returns (oks: seq<bool>, fate: Fate, ghost before: (Boxes, map<string, Value>))
      requires Valid()
      modifies this
      ensures Valid()
      ensures fate.Sound? ==> (Shown(), oks) == DeepRun(old(Shown()), ops)
      ensures !fate.Sound? ==> |oks| < |ops| && LostAt(before.0, before.1, old(Shown()), ops, oks, fate, Shown())
    {
      hide DeepRun, DeepStep, LostAt;
      oks, fate := [], Sound;
      before := (boxes, vars);
      var i := 0;
      NothingRun(Shown(), ops);
      while i < |ops|
        invariant 0 <= i == |oks| <= |ops| && Valid() && fate.Sound?
        invariant (Shown(), oks) == DeepRun(old(Shown()), ops[..i])
      {
        var ok := false;
        before := (boxes, vars);
        assert vars.Keys == Shown().Keys;
        RunOneMore(old(Shown()), ops[..i], ops[i]);
        assert ops[..i] + [ops[i]] == ops[..i + 1];
        if Allowed(vars.Keys, ops[i]) {
          ok, fate := Step(ops[i]);
          if !fate.Sound? {
            Lost(before.0, before.1, old(Shown()), ops, oks, fate, Shown(), ok);
            return;
          }
        }
        oks := oks + [ok];
        i := i + 1;
      }
      assert ops[..i] == ops;
    }
  }

  lemma NothingRun(m: World, ops: seq<Op>)
    ensures DeepRun(m, ops[..0]) == (m, [])
  {
  }

  /**
   The operation behind `oks` is the first that loses its source: until then the program was
   the deep one, and now the handles show what the walks of that operation, or an assignment
   of the old value, have left.
   */
  ghost predicate LostAt(boxes: Boxes, vars: map<string, Value>, m: World, ops: seq<Op>, oks: seq<bool>,
                         fate: Fate, after: World)
    requires |oks| < |ops|
  {
    var op := ops[|oks|];
    && Stored(boxes, vars) && DeepRun(m, ops[..|oks|]) == (ShownOf(boxes, vars), oks)
    && op.Mutate? && op.x in vars && op.y in vars
    && fate == EditFate(boxes, vars, op.x, op.p, op.e, op.via, op.y, op.q) && !fate.Sound?
    && var was := ShownOf(boxes, vars);
       && (fate.Dangling? ==> (after, true) == DeepWalks(was, op.x, op.p, op.e, op.via, op.y, op.q))
       && (fate.Outdated? ==>
            DeepLook(was[op.y], op.q).Some? && after == DeepEarly(was, op.x, op.p, op.y, op.q).0)
  }

  lemma Lost(boxes: Boxes, vars: map<string, Value>, m: World, ops: seq<Op>, oks: seq<bool>, fate: Fate,
             after: World, ok: bool)
    requires |oks| < |ops| && Stored(boxes, vars) && DeepRun(m, ops[..|oks|]) == (ShownOf(boxes, vars), oks)
    requires var op := ops[|oks|];
             var was := ShownOf(boxes, vars);
             && op.Mutate? && op.x in vars && op.y in vars
             && fate == EditFate(boxes, vars, op.x, op.p, op.e, op.via, op.y, op.q) && !fate.Sound?
             && (fate.Dangling? ==> (after, true) == DeepWalks(was, op.x, op.p, op.e, op.via, op.y, op.q))
             && (fate.Outdated? ==> DeepLook(was[op.y], op.q).Some?)
             && (fate.Outdated? ==> (after, ok) == DeepEarly(was, op.x, op.p, op.y, op.q))
    ensures LostAt(boxes, vars, m, ops, oks, fate, after)
  {
  }

  // ----- when a source is lost -----

  /**
   A read-only source of an assignment does not dangle while a handle other than the target's
   holds its box; that handle may be the one it was reached from.
   */
  lemma HeldElsewhere(boxes: Boxes, vars: map<string, Value>, x: string, p: seq<Step>, y: string, q: seq<Step>,
                      z: string)
    requires Stored(boxes, vars) && x in vars && y in vars && z in vars && z != x
    requires View(boxes, vars[y], q).Some? && Container(boxes, vars[y], q).Some?
    requires Holds(boxes, vars[z], Container(boxes, vars[y], q).value, |boxes|)
    ensures !AssignFate(boxes, vars, x, p, ReadOnly, y, q).Dangling?
  {
    hide Holds, Container, Peek, Place;
    if Touch(boxes, vars[x], p, false).2 {
      PeekShows(boxes, vars[y], q);
      var (bs, handles) := AtReading(boxes, vars, x, p, View(boxes, vars[y], q).value);
      HoldsIsStable(boxes, bs, vars[z], Container(boxes, vars[y], q).value, |boxes|, |bs|);
    }
  }

  /** An edit loses its source only if that is in the handle it changes. */
  lemma OtherHandlesAreSafe(boxes: Boxes, vars: map<string, Value>, x: string, p: seq<Step>, e: Edit, via: Access,
                            y: string, q: seq<Step>)
    requires Stored(boxes, vars) && x in vars && y in vars && x != y
    ensures EditFate(boxes, vars, x, p, e, via, y, q).Sound?
  {
    hide Holds, Container, Peek, Place;
    if via.ReadOnly? && e.Assign? && View(boxes, vars[y], q).Some? && Container(boxes, vars[y], q).Some? {
      ContainerIsHeld(boxes, vars[y], q);
      HeldElsewhere(boxes, vars, x, p, y, q, y);
    }
    if via.ReadOnly? && e.PushBack? {
      var (bs, w, ok) := Touch(boxes, vars[x], p, false);
      TouchShows(boxes, vars[x], p, false);
      StillStored(boxes, vars, bs, x, w);
      OtherHandlesPush(bs, vars[x := w], x, p, y, q);
    }
  }

  lemma OtherHandlesPush(boxes: Boxes, vars: map<string, Value>, x: string, p: seq<Step>, y: string, q: seq<Step>)
    requires Stored(boxes, vars) && x in vars && y in vars && x != y
    ensures PushFate(boxes, vars, x, p, y, q).Sound?
  {
    hide Holds, Container, Peek, Touch;
    if Peek(boxes, vars[y], q).Some? && Container(boxes, vars[y], q).Some? {
      var (bs, w, ok) := Touch(boxes, vars[x], p, true);
      TouchShows(boxes, vars[x], p, true);
      StillStored(boxes, vars, bs, x, w);
      ContainerIsHeld(boxes, vars[y], q);
      HoldsIsStable(boxes, bs, vars[y], Container(boxes, vars[y], q).value, |boxes|, |bs|);
      assert vars[x := w][y] == vars[y];
    }
  }

  /** The box of an array that one handle holds, as after parsing. */
  const PAIR: Content := ArrContent([Scalar(Int(1)), Scalar(Int(2))])
  const ONE_BOX: Boxes := [PAIR]
  const ONE_HOLDER: map<string, Value> := map["x" := Shared(0)]

  lemma OneBox()
    ensures Stored(ONE_BOX, ONE_HOLDER) && Unshare(ONE_BOX, Shared(0)) == (ONE_BOX, Inline(PAIR))
    ensures View(ONE_BOX, Shared(0), [At(0)]) == Some(Scalar(Int(1)))
    ensures Container(ONE_BOX, Shared(0), [At(0)]) == Some(0)
    ensures Fits(Inline(PAIR), 1) && !Holds(ONE_BOX, Inline(PAIR), 0, 1)
  {
    var items := PAIR.items;
    assert items[1..] == [Scalar(Int(2))] && items[1..][1..] == [];
    assert CloneItems(ONE_BOX, []) == (ONE_BOX, []);
    assert CloneItems(ONE_BOX, items[1..]).1 == items[1..];
    assert CloneItems(ONE_BOX, items).1 == items;
    var q: seq<Step> := [At(0)];
    assert q[1..] == [] && Descend(PAIR, At(0)) == Child(PAIR, 0);
    assert Peek(ONE_BOX, Shared(0), q) == Some(items[0]);
  }

  /** `x.push_back(std::as_const(x).at(0))` dangles there: making `x` inline destroys the box. */
  lemma PushOwnElement()
    ensures Stored(ONE_BOX, ONE_HOLDER)
    ensures EditFate(ONE_BOX, ONE_HOLDER, "x", [], PushBack, ReadOnly, "x", [At(0)]) == Dangling
  {
    OneBox();
    hide Unshare, Holds, Container, View;
    assert ONE_HOLDER["x" := Shared(0)] == ONE_HOLDER;
    assert Touch(ONE_BOX, Shared(0), [], false) == (ONE_BOX, Shared(0), true);
    assert Touch(ONE_BOX, Shared(0), [], true) == (ONE_BOX, Inline(PAIR), true);
    assert Peek(ONE_BOX, Inline(PAIR), []) == Some(Inline(PAIR));
    assert !Live(ONE_BOX, ONE_HOLDER["x" := Inline(PAIR)], 0);
  }

  /** A program that comes to that store: a literal, a copy of it, and the end of the original. */
  method OneHolderIsReached() returns (session: Session)
    ensures session.boxes == ONE_BOX && session.vars == ONE_HOLDER
  {
    session := new Session();
    var j := Arr([Int(1), Int(2)]);
    LiftedPair(j);
    LiftShows(session.boxes, j, |session.boxes|);
    session.Store(session.boxes, "t", Lift(j));
    session.Copy("x", "t");
    session.vars := session.vars - {"t"};
  }

  lemma LiftedPair(j: Json)
    requires j == Arr([Int(1), Int(2)])
    ensures Lift(j) == Inline(PAIR) && Clone([], Inline(PAIR)) == (ONE_BOX, Shared(0))
  {
    var items := PAIR.items;
    assert LiftItems(j.items) == items;
    assert items[1..] == [Scalar(Int(2))] && items[1..][1..] == [];
    assert CloneItems([], []) == ([], []);
    assert CloneItems([], items[1..]).1 == items[1..];
    assert CloneItems([], items).1 == items;
    assert CopyContent([], PAIR) == ([], PAIR);
    var none: Boxes := [];
    assert none + [PAIR] == ONE_BOX;
  }

  /** So does `x.at(1) = std::as_const(x).at(0)`, whose source is not inside its target. */
  lemma AssignSibling()
    ensures Stored(ONE_BOX, ONE_HOLDER)
    ensures EditFate(ONE_BOX, ONE_HOLDER, "x", [At(1)], Assign, ReadOnly, "x", [At(0)]) == Dangling
  {
    OneBox();
    hide Unshare, Holds, Container, View;
    var p: seq<Step> := [At(1)];
    assert p[1..] == [] && Descend(PAIR, At(1)) == Child(PAIR, 1);
    assert Touch(ONE_BOX, Scalar(Int(2)), [], false) == (ONE_BOX, Scalar(Int(2)), true);
    assert PAIR.items[1 := Scalar(Int(2))] == PAIR.items;
    assert Touch(ONE_BOX, Shared(0), p, false) == (ONE_BOX, Inline(PAIR), true);
    assert Look(Inline(PAIR), p) == Look(Scalar(Int(2)), []) == Scalar(Int(2));
    var (bs, handles) := AtReading(ONE_BOX, ONE_HOLDER, "x", p, Scalar(Int(1)));
    assert bs == ONE_BOX && handles == map["x" := Inline(PAIR)];
    assert !Live(bs, handles, 0);
  }

  /** An array in a box, held by an array that is held inline. */
  const INNER: Boxes := [ArrContent([Scalar(Int(5))])]
  const OUTER: Content := ArrContent([Shared(0)])

  /** `x.at(0) = std::as_const(x).at(0).at(0)` dangles on it: the reset of the target drops the box. */
  lemma AssignThroughReset()
    ensures Stored(INNER, map["x" := Inline(OUTER)])
    ensures EditFate(INNER, map["x" := Inline(OUTER)], "x", [At(0)], Assign, ReadOnly, "x", [At(0), At(0)]) == Dangling
  {
    var p: seq<Step>, q: seq<Step> := [At(0)], [At(0), At(0)];
    var v, vars := Inline(OUTER), map["x" := Inline(OUTER)];
    InnerView(q);
    hide View, Container;
    assert p[1..] == [] && Descend(OUTER, At(0)) == Child(OUTER, 0);
    assert Touch(INNER, Shared(0), [], false) == (INNER, Shared(0), true);
    assert OUTER.items[0 := Shared(0)] == OUTER.items;
    assert Touch(INNER, v, p, false) == (INNER, v, true);
    assert Look(v, p) == Look(Shared(0), []) == Shared(0);
    assert Put(Shared(0), [], Scalar(Null)) == Scalar(Null) && OUTER.items[0 := Scalar(Null)] == [Scalar(Null)];
    assert Put(v, p, Scalar(Null)) == Inline(ArrContent([Scalar(Null)]));
    assert vars["x" := v] == vars;
    var (bs, handles) := AtReading(INNER, vars, "x", p, Scalar(Int(5)));
    assert bs == INNER && handles == map["x" := Inline(ArrContent([Scalar(Null)]))];
    assert !Live(bs, handles, 0);
  }

  lemma InnerView(q: seq<Step>)
    requires q == [At(0), At(0)]
    ensures View(INNER, Inline(OUTER), q) == Some(Scalar(Int(5))) && Container(INNER, Inline(OUTER), q) == Some(0)
  {
    var rest := q[1..];
    assert rest == [At(0)] && rest[1..] == [];
    assert Descend(OUTER, At(0)) == Child(OUTER, 0) && Descend(INNER[0], At(0)) == Child(INNER[0], 0);
    assert Peek(INNER, Scalar(Int(5)), []) == Some(Scalar(Int(5)));
    assert Peek(INNER, Shared(0), rest) == Some(Scalar(Int(5))) && Container(INNER, Shared(0), rest) == Some(0);
  }

  /** Two spellings of a key do not hide that a source is inside its target. */
  lemma SpellingDoesNotMatter()
    ensures Inside([Sub("k")], [AtKey("k"), At(0)])
  {
    assert Place([AtKey("k"), At(0)])[..1] == Place([Sub("k")]);
  }

  /** `x["k"] = x.at("k").at(0)` dangles on `{"k": [1]}`: the number is read after its array is gone. */
  lemma AssignFromInside(j: Json)
    requires j == Obj([Member("k", Arr([Int(1)]))])
    ensures Stored([], map["x" := Lift(j)])
    ensures EditFate([], map["x" := Lift(j)], "x", [Sub("k")], Assign, Mutable, "x", [AtKey("k"), At(0)]) == Dangling
  {
    hide Lift, Show, DeepTouch, Touch, Reached, Look, Place;
    LiftShows([], j, 0);
    TouchShows([], Lift(j), [AtKey("k"), At(0)], false);
    NumberInside(j);
    SpellingDoesNotMatter();
  }

  lemma NumberInside(j: Json)
    requires j == Obj([Member("k", Arr([Int(1)]))])
    ensures DeepTouch(j, [AtKey("k"), At(0)]).1 && !HeldInline(Lift(j), [AtKey("k"), At(0)])
  {
    var q: seq<Step> := [AtKey("k"), At(0)];
    var items := j.members[0].value;
    assert MemberKeys(j.members) == ["k"] && q[1..] == [At(0)] && [At(0)][1..] == [];
    assert DeepDescend(j, q[0]) == DeepChild(j, 0);
    assert DeepDescend(items, At(0)) == DeepChild(items, 0);
    assert DeepTouch(items, [At(0)]).1;
    var v, w := Lift(j), Lift(items);
    assert LiftItems([Int(1)]) == [Lift(Int(1))];
    assert LiftMembers(j.members) == [Field("k", w)];
    assert v == Inline(ObjContent([Field("k", w)])) && w == Inline(ArrContent([Scalar(Int(1))]));
    assert FieldKeys(v.content.fields) == ["k"];
    assert Descend(v.content, q[0]) == Child(v.content, 0) && Descend(w.content, At(0)) == Child(w.content, 0);
    if Reached(v, q) {
      assert Look(v, q) == Look(w, [At(0)]) == Scalar(Int(1));
    }
  }

  /** The object `{"a": {}}`, all of it in boxes, with two holders. */
  const NESTED: Boxes := [ObjContent([]), ObjContent([Field("a", Shared(0))])]
  const TWO_HOLDERS: map<string, Value> := map["x" := Shared(1), "z" := Shared(1)]

  /** `x["a"]["b"] = std::as_const(x).at("a")` misses the new key there, which `x` alone would show. */
  lemma AssignOutdated()
    ensures Stored(NESTED, TWO_HOLDERS)
    ensures EditFate(NESTED, TWO_HOLDERS, "x", [Sub("a"), Sub("b")], Assign, ReadOnly, "x", [AtKey("a")]) == Outdated
  {
    var p: seq<Step>, q: seq<Step> := [Sub("a"), Sub("b")], [AtKey("a")];
    hide Show, DeepTouch, DeepLook, View, Container, Holds, Touch, Peek, AtReading;
    NestedView(q);
    NestedWalk(p, Obj([Member("a", Obj([]))]));
    TouchShows(NESTED, Shared(1), p, false);
    PeekShows(NESTED, Shared(1), p);
    assert Place(p)[..1] == Place(q);
    HeldElsewhere(NESTED, TWO_HOLDERS, "x", p, "x", q, "z");
  }

  lemma {:induction false} NestedView(q: seq<Step>)
    requires q == [AtKey("a")]
    ensures Stored(NESTED, TWO_HOLDERS) && View(NESTED, Shared(1), q).Some?
    ensures Container(NESTED, Shared(1), q) == Some(1) && Holds(NESTED, Shared(1), 1, 2)
  {
    var outer := NESTED[1];
    assert q[1..] == [] && FieldKeys(outer.fields) == ["a"] && Descend(outer, AtKey("a")) == Child(outer, 0);
    assert Peek(NESTED, Shared(0), []) == Some(Shared(0));
  }

  lemma {:induction false} NestedWalk(p: seq<Step>, j: Json)
    requires p == [Sub("a"), Sub("b")] && j == Obj([Member("a", Obj([]))])
    ensures Show(NESTED, Shared(1), 2) == j && DeepTouch(j, p).1 && DeepLook(j, p).None?
  {
    assert ShowFields(NESTED, NESTED[1].fields, 1) == j.members;
    var empty, rest := Obj([]), p[1..];
    assert rest == [Sub("b")] && rest[1..] == [];
    assert MemberKeys(j.members) == ["a"] && DeepDescend(j, p[0]) == DeepDescend(j, AsAt(p[0])) == DeepChild(j, 0);
    var grown := [Member("b", Null)];
    assert Insert([], Member("b", Null)) == grown && MemberKeys(grown) == ["b"] && MemberKeys([]) == [];
    assert DeepDescend(empty, Sub("b")) == DeepChild(Obj(grown), 0) && DeepDescend(empty, AtKey("b")) == NoDeepChild;
    assert DeepTouch(Null, []).1;
    assert DeepTouch(empty, rest).1 && DeepLook(empty, rest).None?;
  }
}
