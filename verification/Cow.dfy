/**
 Copy-on-write JSON values (include/gpcl/json.hpp, clone_visitor, cow_visitor and class
 value).

 A string, array or object is held inline or through a `shared_ptr` to a constant.
 Copying a value moves inline content into new shared boxes and shares boxes that exist
 already; a mutable access to a shared box replaces it by an inline copy.  `Show` is what
 a value looks like from outside: the tree with all sharing removed.
 */
module Cow {
  import opened JsonValues

  datatype Value =
    | Scalar(j: Json)
    | Inline(content: Content)
    | Shared(box: nat)

  datatype Content =
    | StrContent(s: string)
    | ArrContent(items: seq<Value>)
    | ObjContent(fields: seq<Field>)

  datatype Field = Field(key: string, value: Value)

  /** The constants made by `allocate_shared`, by allocation order. */
  type Boxes = seq<Content>

  // ----- well-formed stores -----

  /** All boxes mentioned in the value are among the first `n`. */
  ghost predicate Fits(v: Value, n: nat)
    decreases v, 1
  {
    match v
    case Scalar(j) => !j.Str? && !j.Arr? && !j.Obj?
    case Inline(c) => ContentFits(c, n)
    case Shared(b) => b < n
  }

  ghost predicate ContentFits(c: Content, n: nat)
    decreases c, 0
  {
    match c
    case StrContent(_) => true
    case ArrContent(items) => forall i :: 0 <= i < |items| ==> Fits(items[i], n)
    case ObjContent(fields) => forall i :: 0 <= i < |fields| ==> Fits(fields[i].value, n)
  }

  /** Boxes refer to older boxes only. */
  ghost predicate Grounded(boxes: Boxes) {
    forall b :: 0 <= b < |boxes| ==> ContentFits(boxes[b], b)
  }

  // ----- the deep view -----

  ghost function Show(boxes: Boxes, v: Value, n: nat): Json
    requires Grounded(boxes) && n <= |boxes| && Fits(v, n)
    decreases n, v, 2
  {
    match v
    case Scalar(j) => j
    case Inline(c) => ShowContent(boxes, c, n)
    case Shared(b) => ShowContent(boxes, boxes[b], b)
  }

  ghost function ShowContent(boxes: Boxes, c: Content, n: nat): Json
    requires Grounded(boxes) && n <= |boxes| && ContentFits(c, n)
    decreases n, c, 1
  {
    match c
    case StrContent(s) => Str(s)
    case ArrContent(items) => Arr(ShowItems(boxes, items, n))
    case ObjContent(fields) => Obj(ShowFields(boxes, fields, n))
  }

  ghost function ShowItems(boxes: Boxes, items: seq<Value>, n: nat): (r: seq<Json>)
    requires Grounded(boxes) && n <= |boxes|
    requires forall i :: 0 <= i < |items| ==> Fits(items[i], n)
    ensures |r| == |items| && forall i :: 0 <= i < |r| ==> r[i] == Show(boxes, items[i], n)
    decreases n, items, 0
  {
    if items == [] then [] else [Show(boxes, items[0], n)] + ShowItems(boxes, items[1..], n)
  }

  ghost function ShowFields(boxes: Boxes, fields: seq<Field>, n: nat): (r: seq<Member>)
    requires Grounded(boxes) && n <= |boxes|
    requires forall i :: 0 <= i < |fields| ==> Fits(fields[i].value, n)
    ensures |r| == |fields|
    ensures forall i :: 0 <= i < |r| ==> r[i] == Member(fields[i].key, Show(boxes, fields[i].value, n))
    decreases n, fields, 0
  {
    if fields == [] then []
    else [Member(fields[0].key, Show(boxes, fields[0].value, n))] + ShowFields(boxes, fields[1..], n)
  }

  /** What a value shows does not depend on boxes it does not reach. */
  lemma {:induction false} ShowIsStable(old_: Boxes, new_: Boxes, v: Value, n: nat, m: nat)
    requires Grounded(old_) && Grounded(new_) && old_ <= new_
    requires n <= |old_| && n <= m <= |new_| && Fits(v, n)
    ensures Fits(v, m) && Show(old_, v, n) == Show(new_, v, m)
    decreases n, v, 1
  {
    match v
    case Scalar(_) =>
    case Inline(c) => ContentIsStable(old_, new_, c, n, m);
    case Shared(b) => ContentIsStable(old_, new_, old_[b], b, b);
  }

  lemma {:induction false} ContentIsStable(old_: Boxes, new_: Boxes, c: Content, n: nat, m: nat)
    requires Grounded(old_) && Grounded(new_) && old_ <= new_
    requires n <= |old_| && n <= m <= |new_| && ContentFits(c, n)
    ensures ContentFits(c, m) && ShowContent(old_, c, n) == ShowContent(new_, c, m)
    decreases n, c, 0
  {
    match c
    case StrContent(_) =>
    case ArrContent(items) =>
      forall i | 0 <= i < |items|
        ensures Fits(items[i], m) && Show(old_, items[i], n) == Show(new_, items[i], m)
      {
        ShowIsStable(old_, new_, items[i], n, m);
      }
      assert ShowItems(old_, items, n) == ShowItems(new_, items, m);
    case ObjContent(fields) =>
      forall i | 0 <= i < |fields|
        ensures Fits(fields[i].value, m) && Show(old_, fields[i].value, n) == Show(new_, fields[i].value, m)
      {
        ShowIsStable(old_, new_, fields[i].value, n, m);
      }
      assert ShowFields(old_, fields, n) == ShowFields(new_, fields, m);
  }

  // ----- clone_visitor and cow_visitor -----

  /** The copy constructor: inline content goes to a new box, a box is shared. */
  function Clone(boxes: Boxes, v: Value): (Boxes, Value)
    decreases v, 2
  {
    match v
    case Inline(c) =>
      var (bs, copy) := CopyContent(boxes, c);
      (bs + [copy], Shared(|bs|))
    case _ => (boxes, v)
  }

  /** Copying a string, vector or map: the elements are copy-constructed in order. */
  function CopyContent(boxes: Boxes, c: Content): (Boxes, Content)
    decreases c, 1
  {
    match c
    case StrContent(_) => (boxes, c)
    case ArrContent(items) => var (bs, copies) := CloneItems(boxes, items); (bs, ArrContent(copies))
    case ObjContent(fields) => var (bs, copies) := CloneFields(boxes, fields); (bs, ObjContent(copies))
  }

  function CloneItems(boxes: Boxes, items: seq<Value>): (Boxes, seq<Value>)
    decreases items, 0
  {
    if items == [] then (boxes, [])
    else
      var (b1, first) := Clone(boxes, items[0]);
      var (b2, rest) := CloneItems(b1, items[1..]);
      (b2, [first] + rest)
  }

  function CloneFields(boxes: Boxes, fields: seq<Field>): (Boxes, seq<Field>)
    decreases fields, 0
  {
    if fields == [] then (boxes, [])
    else
      var (b1, first) := Clone(boxes, fields[0].value);
      var (b2, rest) := CloneFields(b1, fields[1..]);
      (b2, [Field(fields[0].key, first)] + rest)
  }

  /** `dest_ = *x`: a shared box becomes an inline copy of its content. */
  function Unshare(boxes: Boxes, v: Value): (Boxes, Value)
    requires v.Shared? ==> v.box < |boxes|
  {
    match v
    case Shared(b) => var (bs, copy) := CopyContent(boxes, boxes[b]); (bs, Inline(copy))
    case _ => (boxes, v)
  }

  ghost predicate Extends(boxes: Boxes, bs: Boxes) {
    Grounded(bs) && boxes <= bs
  }

  lemma {:induction false} NewBox(boxes: Boxes, c: Content)
    requires Grounded(boxes) && ContentFits(c, |boxes|)
    ensures Extends(boxes, boxes + [c])
  {
    hide ContentFits;
    var grown := boxes + [c];
    forall b | 0 <= b < |grown| ensures ContentFits(grown[b], b) {
      assert b < |boxes| ==> grown[b] == boxes[b];
    }
  }

  lemma {:induction false} CloneShows(boxes: Boxes, v: Value)
    requires Grounded(boxes) && Fits(v, |boxes|)
    ensures var (bs, w) := Clone(boxes, v);
            Extends(boxes, bs) && Fits(w, |bs|) && Show(bs, w, |bs|) == Show(boxes, v, |boxes|)
    decreases v, 2
  {
    match v
    case Inline(c) =>
      CopyShows(boxes, c);
      var (bs, copy) := CopyContent(boxes, c);
      NewBox(bs, copy);
      ContentIsStable(bs, bs + [copy], copy, |bs|, |bs|);
    case _ =>
  }

  lemma {:induction false} CopyShows(boxes: Boxes, c: Content)
    requires Grounded(boxes) && ContentFits(c, |boxes|)
    ensures var (bs, d) := CopyContent(boxes, c);
            Extends(boxes, bs) && ContentFits(d, |bs|) && ShowContent(bs, d, |bs|) == ShowContent(boxes, c, |boxes|)
    decreases c, 1
  {
    match c
    case StrContent(_) =>
    case ArrContent(items) => CloneItemsShow(boxes, items);
    case ObjContent(fields) => CloneFieldsShow(boxes, fields);
  }

  lemma {:induction false} CloneItemsShow(boxes: Boxes, items: seq<Value>)
    requires Grounded(boxes) && forall i :: 0 <= i < |items| ==> Fits(items[i], |boxes|)
    ensures var (bs, copies) := CloneItems(boxes, items);
            && Extends(boxes, bs)
            && (forall i :: 0 <= i < |copies| ==> Fits(copies[i], |bs|))
            && ShowItems(bs, copies, |bs|) == ShowItems(boxes, items, |boxes|)
    decreases items, 0
  {
    if items != [] {
      var (b1, first) := Clone(boxes, items[0]);
      CloneShows(boxes, items[0]);
      forall i | 1 <= i < |items|
        ensures Fits(items[i], |b1|) && Show(b1, items[i], |b1|) == Show(boxes, items[i], |boxes|)
      {
        ShowIsStable(boxes, b1, items[i], |boxes|, |b1|);
      }
      CloneItemsShow(b1, items[1..]);
      var (b2, rest) := CloneItems(b1, items[1..]);
      ShowIsStable(b1, b2, first, |b1|, |b2|);
      var copies := [first] + rest;
      forall i | 0 <= i < |copies| ensures Fits(copies[i], |b2|) {
        if i > 0 { assert copies[i] == rest[i - 1]; }
      }
      assert copies[1..] == rest;
    }
  }

  lemma {:induction false} CloneFieldsShow(boxes: Boxes, fields: seq<Field>)
    requires Grounded(boxes) && forall i :: 0 <= i < |fields| ==> Fits(fields[i].value, |boxes|)
    ensures var (bs, copies) := CloneFields(boxes, fields);
            && Extends(boxes, bs)
            && (forall i :: 0 <= i < |copies| ==> Fits(copies[i].value, |bs|))
            && ShowFields(bs, copies, |bs|) == ShowFields(boxes, fields, |boxes|)
    decreases fields, 0
  {
    if fields != [] {
      var (b1, first) := Clone(boxes, fields[0].value);
      CloneShows(boxes, fields[0].value);
      forall i | 1 <= i < |fields|
        ensures Fits(fields[i].value, |b1|) && Show(b1, fields[i].value, |b1|) == Show(boxes, fields[i].value, |boxes|)
      {
        ShowIsStable(boxes, b1, fields[i].value, |boxes|, |b1|);
      }
      CloneFieldsShow(b1, fields[1..]);
      var (b2, rest) := CloneFields(b1, fields[1..]);
      ShowIsStable(b1, b2, first, |b1|, |b2|);
      var copies := [Field(fields[0].key, first)] + rest;
      forall i | 0 <= i < |copies| ensures Fits(copies[i].value, |b2|) {
        if i > 0 { assert copies[i] == rest[i - 1]; }
      }
      assert copies[1..] == rest;
    }
  }

  lemma UnshareShows(boxes: Boxes, v: Value)
    requires Grounded(boxes) && Fits(v, |boxes|)
    ensures var (bs, w) := Unshare(boxes, v);
            && Extends(boxes, bs) && Fits(w, |bs|) && !w.Shared?
            && Show(bs, w, |bs|) == Show(boxes, v, |boxes|)
  {
    if v.Shared? {
      ContentIsStable(boxes, boxes, boxes[v.box], v.box, |boxes|);
      CopyShows(boxes, boxes[v.box]);
    }
  }
}
