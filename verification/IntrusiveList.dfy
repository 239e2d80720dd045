/**
 Intrusive lists (include/gpcl/intrusive_list.hpp): any number of lists over one pool of
 nodes.  A list is a ring of nodes that begins with its head; a node that is in no list is a
 ring of its own.  `World` holds the whole family of rings.
 */
module IntrusiveLists {
  import opened Basics
  import opened Rings

  // ----- families of rings -----

  type Family<T(0)> = map<Node<T>, seq<Node<T>>>

  /** Every node is in just one ring, and each ring is filed under its first node. */
  ghost predicate Shape<T(0)>(rings: Family<T>, nodes: set<Node<T>>) {
    && (forall h :: h in rings ==> rings[h] != [] && rings[h][0] == h)
    && (forall h, n :: h in rings && n in rings[h] ==> n in nodes)
    && (forall h, k, n :: h in rings && k in rings && n in rings[h] && n in rings[k] ==> h == k)
    && (forall n :: n in nodes ==> exists h :: h in rings && n in rings[h])
  }

  /** `s` without `x`. */
  ghost function Minus<T(0)>(s: seq<Node<T>>, x: Node<T>): (r: seq<Node<T>>)
    ensures (forall y :: y in r ==> y in s && y != x) && (forall y :: y in s && y != x ==> y in r)
    ensures x !in s ==> r == s
  {
    if s == [] then [] else (if s[0] == x then [] else [s[0]]) + Minus(s[1..], x)
  }

  lemma {:induction false} MinusAt<T(0)>(s: seq<Node<T>>, i: nat)
    requires Distinct(s) && i < |s|
    ensures Minus(s, s[i]) == s[..i] + s[i + 1..]
  {
    var t := s[1..];
    assert s == [s[0]] + t;
    if i == 0 {
      assert s[0] !in t;
    } else {
      assert t[i - 1] == s[i] && s[0] != s[i];
      MinusAt(t, i - 1);
      assert t[..i - 1] == s[1..i] && t[i..] == s[i + 1..];
      assert [s[0]] + s[1..i] == s[..i];
    }
  }

  /** `x` may be put into a list: it is an element of some list, or on its own. */
  ghost predicate Element<T(0)>(rings: Family<T>, x: Node<T>) { x in rings ==> rings[x] == [x] }

  /** `x` has left its ring and is nowhere. */
  ghost function Detached<T(0)>(rings: Family<T>, x: Node<T>): Family<T> {
    map h | h in rings && h != x :: Minus(rings[h], x)
  }

  /** `x` is on its own. */
  ghost function Erased<T(0)>(rings: Family<T>, x: Node<T>): Family<T> {
    Detached(rings, x)[x := [x]]
  }

  ghost function PushedBack<T(0)>(rings: Family<T>, head: Node<T>, x: Node<T>): Family<T>
    requires head in rings && head != x
  {
    var d := Detached(rings, x);
    d[head := d[head] + [x]]
  }

  ghost function PushedFront<T(0)>(rings: Family<T>, head: Node<T>, x: Node<T>): Family<T>
    requires head in rings && rings[head] != [] && rings[head][0] == head && head != x
  {
    var d := Detached(rings, x);
    d[head := [head, x] + d[head][1..]]
  }

  lemma ShapeDetached<T(0)>(rings: Family<T>, nodes: set<Node<T>>, x: Node<T>)
    requires Shape(rings, nodes) && x in nodes && Element(rings, x)
    ensures Shape(Detached(rings, x), nodes - {x})
  {
    var d := Detached(rings, x);
    forall h | h in d ensures d[h] != [] && d[h][0] == h {
      var r := rings[h];
      assert h in rings && r[0] == h;
      assert d[h] == [h] + Minus(r[1..], x);
    }
    forall n | n in nodes - {x} ensures exists h :: h in d && n in d[h] {
      var h :| h in rings && n in rings[h];
      assert h in d && n in d[h];
    }
  }

  /** `x`, which was nowhere, enters the ring at `head`. */
  lemma ShapeAttached<T(0)>(rings: Family<T>, nodes: set<Node<T>>, head: Node<T>, x: Node<T>, r: seq<Node<T>>)
    requires Shape(rings, nodes) && x !in nodes && (head in rings || head == x)
    requires r != [] && r[0] == head
    requires forall n :: n in r <==> n == x || (head in rings && n in rings[head])
    ensures Shape(rings[head := r], nodes + {x})
  {
    var d := rings[head := r];
    forall n | n in nodes + {x} ensures exists h :: h in d && n in d[h] {
      if n == x {
        assert head in d && n in d[head];
      } else {
        var h: Node<T> :| h in rings && n in rings[h];
        assert h in d && n in d[h];
      }
    }
  }

  /** The ring and the place of a node. */
  lemma Find<T(0)>(rings: Family<T>, nodes: set<Node<T>>, x: Node<T>) returns (h: Node<T>, i: nat)
    requires Shape(rings, nodes) && x in nodes
    ensures h in rings && i < |rings[h]| && rings[h][i] == x
  {
    h :| h in rings && x in rings[h];
    i :| i < |rings[h]| && rings[h][i] == x;
  }

  lemma OthersAreApart<T(0)>(rings: Family<T>, nodes: set<Node<T>>, h: Node<T>)
    requires Shape(rings, nodes) && h in rings
    ensures rings[h] != [] && rings[h][0] == h
    ensures forall i :: 0 <= i < |rings[h]| ==> rings[h][i] in nodes
    ensures forall k :: k in rings && k != h ==> Apart(rings[k], rings[h])
  {
  }

  lemma Spread<T(0)>(r: seq<Node<T>>, k: nat, x: Node<T>)
    requires 1 <= k <= |r|
    ensures var s := r[..k] + [x] + r[k..]; s[0] == r[0] && forall n :: n in s <==> n == x || n in r
  {
    assert r == r[..k] + r[k..];
  }

  lemma NowhereFacts<T(0)>(rings: Family<T>, nodes: set<Node<T>>, x: Node<T>)
    requires Shape(rings, nodes) && x !in nodes
    ensures x !in rings && forall h, i :: h in rings && 0 <= i < |rings[h]| ==> rings[h][i] != x
  {
    forall h, i | h in rings && 0 <= i < |rings[h]| ensures rings[h][i] != x { assert rings[h][i] in rings[h]; }
  }

  /** The elements of the list from position `k` on are on their own. */
  ghost function ClearedFrom<T(0)>(rings: Family<T>, head: Node<T>, k: nat): Family<T>
    requires head in rings && 1 <= k <= |rings[head]|
  {
    var out := rings[head][k..];
    map h | h in rings.Keys + (set n | n in out) ::
      if h == head then rings[head][..k] else if h in out then [h] else rings[h]
  }

  /** The last of `k` nodes of a ring is not a head and in no other ring. */
  lemma ElementFacts<T(0)>(rings: Family<T>, nodes: set<Node<T>>, head: Node<T>, k: nat)
    requires Shape(rings, nodes) && head in rings && 1 < k <= |rings[head]| && Distinct(rings[head])
    ensures var r := rings[head]; var x := r[k - 1];
            && x != head && x !in rings && x !in r[k..] && r[k - 1..] == [x] + r[k..] && Minus(r[..k], x) == r[..k - 1]
            && forall h :: h in rings && h != head ==> Minus(rings[h], x) == rings[h]
  {
    hide Distinct, Minus;
    var r := rings[head];
    var x := r[k - 1];
    LastOfPart(r, k);
    assert x in r && x != r[0];
  }

  lemma LastOfPart<T(0)>(r: seq<Node<T>>, k: nat)
    requires Distinct(r) && 1 < k <= |r|
    ensures var x := r[k - 1]; x != r[0] && x !in r[k..] && r[k - 1..] == [x] + r[k..] && Minus(r[..k], x) == r[..k - 1]
  {
    var part := r[..k];
    MinusAt(part, k - 1);
    assert part[..k - 1] + part[k..] == r[..k - 1];
  }

  /** What a family has under one node after clearing, and after an erasure. */
  lemma ClearedAt<T(0)>(rings: Family<T>, head: Node<T>, k: nat, h: Node<T>)
    requires head in rings && 1 <= k <= |rings[head]|
    ensures var c, out := ClearedFrom(rings, head, k), rings[head][k..];
            && (h in c <==> h in rings || h in out)
            && (h in c ==> c[h] == if h == head then rings[head][..k] else if h in out then [h] else rings[h])
  {
  }

  lemma ErasedAt<T(0)>(rings: Family<T>, x: Node<T>, h: Node<T>)
    ensures var e := Erased(rings, x);
            && (h in e <==> h == x || h in rings)
            && (h in e ==> e[h] == if h == x then [x] else Minus(rings[h], x))
  {
  }

  lemma ClearStep<T(0)>(rings: Family<T>, nodes: set<Node<T>>, head: Node<T>, k: nat)
    requires Shape(rings, nodes) && head in rings && 1 < k <= |rings[head]| && Distinct(rings[head])
    ensures Erased(ClearedFrom(rings, head, k), rings[head][k - 1]) == ClearedFrom(rings, head, k - 1)
    ensures Element(ClearedFrom(rings, head, k), rings[head][k - 1])
  {
    hide Shape, Distinct, Minus, Erased, ClearedFrom;
    var c, d, x := ClearedFrom(rings, head, k), ClearedFrom(rings, head, k - 1), rings[head][k - 1];
    ElementFacts(rings, nodes, head, k);
    ClearedAt(rings, head, k, x);
    var e := Erased(c, x);
    forall h | h in e ensures h in d && e[h] == d[h] { ClearedEntry(rings, nodes, head, k, h); }
    forall h | h in d ensures h in e { ClearedEntry(rings, nodes, head, k, h); }
  }

  lemma ClearedEntry<T(0)>(rings: Family<T>, nodes: set<Node<T>>, head: Node<T>, k: nat, h: Node<T>)
    requires Shape(rings, nodes) && head in rings && 1 < k <= |rings[head]| && Distinct(rings[head])
    ensures var e, d := Erased(ClearedFrom(rings, head, k), rings[head][k - 1]), ClearedFrom(rings, head, k - 1);
            (h in e <==> h in d) && (h in d ==> e[h] == d[h])
  {
    hide Shape, Distinct, Minus, Erased, ClearedFrom;
    var r := rings[head];
    var x := r[k - 1];
    ElementFacts(rings, nodes, head, k);
    ClearedAt(rings, head, k, h);
    ClearedAt(rings, head, k - 1, h);
    ErasedAt(ClearedFrom(rings, head, k), x, h);
    assert h in r[k - 1..] <==> h == x || h in r[k..];
    assert h != x ==> Minus([h], x) == [h];
  }

  lemma NothingCleared<T(0)>(rings: Family<T>, head: Node<T>)
    requires head in rings && rings[head] != []
    ensures ClearedFrom(rings, head, |rings[head]|) == rings
  {
    var c := ClearedFrom(rings, head, |rings[head]|);
    assert rings[head][|rings[head]|..] == [] && rings[head][..|rings[head]|] == rings[head];
    forall h | h in rings ensures h in c && c[h] == rings[h] { }
  }

  lemma ClearedHere<T(0)>(rings: Family<T>, head: Node<T>, k: nat)
    requires head in rings && 1 <= k <= |rings[head]|
    ensures head in ClearedFrom(rings, head, k) && ClearedFrom(rings, head, k)[head] == rings[head][..k]
  {
  }

  /** Clearing a list does not change another. */
  lemma ClearedOnly<T(0)>(rings: Family<T>, nodes: set<Node<T>>, head: Node<T>, other: Node<T>)
    requires Shape(rings, nodes) && head in rings && other in rings && head != other
    ensures var c := ClearedFrom(rings, head, 1);
            head in c && c[head] == [head] && other in c && c[other] == rings[other]
  {
    assert other in rings[other];
    assert rings[head] == [head] + rings[head][1..];
  }

  /** What clearing does: the head and each of its elements are on their own, and nothing else changes. */
  lemma ClearedIs<T(0)>(rings: Family<T>, nodes: set<Node<T>>, head: Node<T>)
    requires Shape(rings, nodes) && head in rings
    ensures var c := ClearedFrom(rings, head, 1);
            && (forall n :: n in rings[head] ==> n in c && c[n] == [n])
            && (forall h :: h in rings && h != head ==> h in c && c[h] == rings[h])
            && (forall h :: h in c ==> h in rings || h in rings[head])
  {
    var r := rings[head];
    assert r == [head] + r[1..];
    forall h | h in rings && h != head ensures h !in r[1..] { assert h in rings[h]; }
  }

  /** The ring of the head `a` under the head `b`, which was on its own, and the other way round. */
  ghost function HandedOver<T(0)>(rings: Family<T>, a: Node<T>, b: Node<T>): Family<T>
    requires a in rings && rings[a] != []
  {
    rings[b := [b] + rings[a][1..]][a := [a]]
  }

  lemma ShapeHandedOver<T(0)>(rings: Family<T>, nodes: set<Node<T>>, a: Node<T>, b: Node<T>)
    requires Shape(rings, nodes) && a in rings && b in rings && a != b && rings[b] == [b] && Distinct(rings[a])
    ensures Shape(HandedOver(rings, a, b), nodes)
  {
    var d := HandedOver(rings, a, b);
    assert rings[a] == [a] + rings[a][1..] && a !in rings[a][1..];
    assert b in rings[b];
    forall n | n in nodes ensures exists h :: h in d && n in d[h] {
      var h: Node<T> :| h in rings && n in rings[h];
      if n == b {
        assert b in d && n in d[b];
      } else if n == a {
        assert a in d && n in d[a];
      } else if h == a {
        assert b in d && n in d[b];
      } else {
        assert h in d && n in d[h];
      }
    }
  }

  lemma NothingHandedOver<T(0)>(rings: Family<T>, a: Node<T>, b: Node<T>)
    requires a in rings && b in rings && rings[a] == [a] && rings[b] == [b]
    ensures HandedOver(rings, a, b) == rings
  {
    assert [b] + rings[a][1..] == [b];
  }

  /** One element goes from the list `a` to the end of the list `b`. */
  lemma MoveToBack<T(0)>(rings: Family<T>, nodes: set<Node<T>>, a: Node<T>, b: Node<T>, i: nat)
    requires Shape(rings, nodes) && a in rings && b in rings && a != b && Distinct(rings[a]) && 1 <= i < |rings[a]|
    ensures var r := rings[a];
            && Element(rings, r[i]) && Element(Erased(rings, r[i]), r[i]) && r[i] in nodes && r[i] != a && r[i] != b
            && PushedBack(Erased(rings, r[i]), b, r[i]) == rings[a := r[..i] + r[i + 1..]][b := rings[b] + [r[i]]]
  {
    var r := rings[a];
    var x := r[i];
    assert x in r && r[0] == a && x != a && x !in rings;
    MinusAt(r, i);
    hide Minus;
    DetachedTwice(rings, x);
    DetachedFrom(rings, nodes, a, x);
  }

  lemma DetachedTwice<T(0)>(rings: Family<T>, x: Node<T>)
    ensures Detached(Erased(rings, x), x) == Detached(rings, x)
  {
    hide Minus;
    var d, e := Detached(rings, x), Detached(Erased(rings, x), x);
    forall h | h in d ensures h in e && e[h] == d[h] {
      assert Minus(Minus(rings[h], x), x) == Minus(rings[h], x);
    }
  }

  /** Only the ring that holds the node changes. */
  lemma DetachedFrom<T(0)>(rings: Family<T>, nodes: set<Node<T>>, a: Node<T>, x: Node<T>)
    requires Shape(rings, nodes) && a in rings && x in rings[a] && x !in rings
    ensures Detached(rings, x) == rings[a := Minus(rings[a], x)]
  {
    hide Minus;
    var d := Detached(rings, x);
    forall h | h in rings ensures h in d && (h != a ==> d[h] == rings[h]) {
      assert h != a ==> x !in rings[h];
    }
  }

  /**
   What a push does: the node is now the last or the first element, the other elements of the
   list keep their order, the ring it came from loses it, and all others are as they were.
   */
  lemma PushMoves<T(0)>(rings: Family<T>, nodes: set<Node<T>>, head: Node<T>, x: Node<T>, a: Node<T>, i: nat)
    requires Shape(rings, nodes) && head in rings && Element(rings, x) && x != head
    requires a in rings && i < |rings[a]| && rings[a][i] == x && Distinct(rings[a])
    ensures var back, front := PushedBack(rings, head, x), PushedFront(rings, head, x);
            var kept := if a == head then rings[a][1..i] + rings[a][i + 1..] else rings[head][1..];
            && head in back && back[head] == [head] + kept + [x]
            && head in front && front[head] == [head, x] + kept
            && (a != head && a != x ==>
                 && a in back && back[a] == rings[a][..i] + rings[a][i + 1..]
                 && a in front && front[a] == back[a])
            && (forall h :: h in rings && h != head && h != a ==>
                 h in back && back[h] == rings[h] && h in front && front[h] == rings[h])
            && back.Keys == front.Keys == rings.Keys - {x}
  {
    hide Minus;
    MinusAt(rings[a], i);
    assert x in rings[a];
    var r := rings[head];
    assert r == [head] + r[1..];
    if a == head {
      assert i > 0 && r[..i] + r[i + 1..] == [head] + (r[1..i] + r[i + 1..]);
    }
    forall h | h in rings && h != a ensures Minus(rings[h], x) == rings[h] { assert x !in rings[h]; }
    hide Shape;
    assert Detached(rings, x).Keys == rings.Keys - {x};
  }

  /** The family with the elements `s` in the list `a` and `t` in the list `b`. */
  ghost function Holding<T(0)>(rings: Family<T>, a: Node<T>, s: seq<Node<T>>, b: Node<T>, t: seq<Node<T>>): Family<T> {
    rings[a := [a] + s][b := [b] + t]
  }

  lemma HoldingNothing<T(0)>(rings: Family<T>, a: Node<T>, s: seq<Node<T>>, b: Node<T>)
    requires a != b && b !in rings
    ensures Holding(rings, a, s, b, []) == rings[a := [a] + s][b := [b]]
    ensures a in rings && rings[a] == [a] + s ==> Holding(rings, a, s, b, []) == rings[b := [b]]
  {
    assert [b] + [] == [b];
  }

  lemma HoldingHere<T(0)>(rings: Family<T>, a: Node<T>, s: seq<Node<T>>, b: Node<T>, t: seq<Node<T>>)
    requires a != b
    ensures var d := Holding(rings, a, s, b, t); a in d && b in d && d[a] == [a] + s && d[b] == [b] + t
    ensures Holding(rings, a, s, b, t) == Holding(rings, b, t, a, s)
  {
  }

  ghost function Reversed<X>(s: seq<X>): (r: seq<X>)
    ensures |r| == |s| && forall i :: 0 <= i < |s| ==> r[i] == s[|s| - 1 - i]
  {
    seq(|s|, i requires 0 <= i < |s| => s[|s| - 1 - i])
  }

  // ----- the links -----

  class World<T(0)> {
    ghost var nodes: set<Node<T>>
    ghost var rings: Family<T>

    ghost predicate Valid()
      reads this, nodes
    {
      Shape(rings, nodes) && Linked(rings, nodes)
    }

    constructor ()
      ensures Valid() && nodes == {} && rings == map[]
    {
      nodes, rings := {}, map[];
    }
  }

  /** The pointers of the nodes are those of the rings. */
  ghost predicate Linked<T(0)>(rings: Family<T>, nodes: set<Node<T>>)
    reads nodes
    requires Shape(rings, nodes)
  {
    forall h :: h in rings ==> IsRing(rings[h])
  }

  /** The default constructor of a node: it is on its own. */
  method NewNode<T(0)>(ghost w: World<T>) returns (x: Node<T>)
    requires w.Valid()
    modifies w
    ensures w.Valid() && fresh(x) && Element(w.rings, x)
    ensures w.nodes == old(w.nodes) + {x} && w.rings == old(w.rings)[x := [x]]
  {
    hide Shape, IsRing;
    x := new Node.Alone();
    AloneIsRing(x);
    ShapeAttached(w.rings, w.nodes, x, x, [x]);
    w.rings, w.nodes := w.rings[x := [x]], w.nodes + {x};
  }

  /** A family without a node that was on its own. */
  lemma NodeIsGone<T(0)>(rings: Family<T>, nodes: set<Node<T>>, x: Node<T>)
    requires x !in rings && Shape(rings[x := [x]], nodes) && Linked(rings[x := [x]], nodes)
    ensures Shape(rings, nodes - {x}) && Linked(rings, nodes - {x})
  {
    var d := rings[x := [x]];
    forall n | n in nodes - {x} ensures exists h :: h in rings && n in rings[h] {
      var h: Node<T> :| h in d && n in d[h];
      assert h in rings && n in rings[h];
    }
    assert x in d && x in d[x];
    forall h, n | h in rings && n in rings[h] ensures n in nodes - {x} {
      assert h in d && n in d[h];
    }
    forall h | h in rings ensures rings[h] != [] && rings[h][0] == h && IsRing(rings[h]) {
      assert h in d && d[h] == rings[h];
    }
    forall h, k, n | h in rings && k in rings && n in rings[h] && n in rings[k] ensures h == k {
      assert h in d && k in d && n in d[h] && n in d[k];
    }
  }

  /** The destructor of a node, which asserts that it is in no list. */
  method DestroyNode<T(0)>(x: Node<T>, ghost w: World<T>, ghost rest: Family<T>)
    requires w.Valid() && x !in rest && w.rings == rest[x := [x]]
    modifies w
    ensures w.Valid() && w.rings == rest && w.nodes == old(w.nodes) - {x}
  {
    hide Shape;
    assert IsRing(w.rings[x]) && x.prev == x && x.next == x;
    NodeIsGone(rest, w.nodes, x);
    w.rings, w.nodes := rest, w.nodes - {x};
  }

  /** `delete_entry` in the ring `r`: the neighbours are joined, the node keeps its old pointers. */
  method Unlink<T(0)>(x: Node<T>, ghost r: seq<Node<T>>, ghost i: nat)
    requires IsRing(r) && i < |r| && r[i] == x
    modifies r
    ensures i > 0 ==> IsRing(Minus(r, x))
  {
    assert x.next in r && x.prev in r by {
      assert x.next == RingAt(r, i + 1) && x.prev == r[if i == 0 then |r| - 1 else i - 1];
    }
    x.next.prev := x.prev;
    x.prev.next := x.next;
    if i > 0 { Cut(r, i, i + 1); MinusAt(r, i); }
  }

  /** `delete_entry`. */
  method DeleteEntry<T(0)>(x: Node<T>, ghost w: World<T>)
    requires w.Valid() && x in w.nodes && Element(w.rings, x)
    modifies w, w.nodes
    ensures w.nodes == old(w.nodes) - {x} && w.rings == Detached(old(w.rings), x)
    ensures w.Valid()
  {
    hide Shape, IsRing, Minus, Element;
    ghost var rings := w.rings;
    ghost var h, i := Find(rings, w.nodes, x);
    ShapeDetached(rings, w.nodes, x);
    OthersAreApart(rings, w.nodes, h);
    assert x in rings[h] && (i == 0 ==> h == x);
    Unlink(x, rings[h], i);
    forall k | k in rings && k != h ensures IsRing(rings[k]) && x !in rings[k] {
      ghost var q := rings[k];
      assert old(IsRing(q)) && Apart(q, rings[h]);
      forall i | 0 <= i < |q| ensures unchanged(q[i]) { assert q[i] in q; }
    }
    w.rings, w.nodes := Detached(rings, x), w.nodes - {x};
    forall k | k in w.rings ensures IsRing(w.rings[k]) {
      assert k != h ==> w.rings[k] == rings[k];
    }
  }

  /** `insert_between` in the ring `r`. */
  method LinkIn<T(0)>(x: Node<T>, prev: Node<T>, next: Node<T>, ghost r: seq<Node<T>>, ghost k: nat)
    requires IsRing(r) && 1 <= k <= |r| && x !in r && prev == r[k - 1] && next == RingAt(r, k)
    modifies r, x
    ensures IsRing(r[..k] + [x] + r[k..])
  {
    assert prev in r && next in r;
    next.prev := x;
    x.next := next;
    x.prev := prev;
    prev.next := x;
    Inserted(r, k, x);
  }

  /** `insert_between` of a node that is nowhere. */
  method InsertBetween<T(0)>(x: Node<T>, prev: Node<T>, next: Node<T>,
                             ghost h: Node<T>, ghost k: nat, ghost w: World<T>)
    requires w.Valid() && x !in w.nodes && h in w.rings && 1 <= k <= |w.rings[h]|
    requires prev == w.rings[h][k - 1] && next == RingAt(w.rings[h], k)
    modifies w, w.nodes, x
    ensures w.Valid() && w.nodes == old(w.nodes) + {x}
    ensures var r := old(w.rings[h]); w.rings == old(w.rings)[h := r[..k] + [x] + r[k..]]
  {
    hide Shape, IsRing;
    ghost var rings, nodes := w.rings, w.nodes;
    ghost var r := rings[h];
    ghost var r' := r[..k] + [x] + r[k..];
    OthersAreApart(rings, nodes, h);
    NowhereFacts(rings, nodes, x);
    Spread(r, k, x);
    ShapeAttached(rings, nodes, h, x, r');
    LinkIn(x, prev, next, r, k);
    forall q | q in rings && q != h ensures IsRing(rings[q]) {
      ghost var s := rings[q];
      assert old(IsRing(s)) && Apart(s, r);
      forall i | 0 <= i < |s| ensures unchanged(s[i]) { assert s[i] in s; }
    }
    w.rings, w.nodes := rings[h := r'], nodes + {x};
  }

  class IntrusiveList<T(0)> {
    const head: Node<T>
    ghost const world: World<T>

    ghost predicate Valid()
      reads this, world, world.nodes
    {
      world.Valid() && head in world.rings
    }

    /** The elements in order. */
    ghost function Elements(): seq<Node<T>>
      reads this, world, world.nodes
      requires Valid()
    {
      world.rings[head][1..]
    }

    /** A new empty list in a world. */
    constructor (ghost world: World<T>)
      requires world.Valid()
      modifies world
      ensures Valid() && this.world == world && fresh(head)
      ensures world.nodes == old(world.nodes) + {head} && world.rings == old(world.rings)[head := [head]]
    {
      this.world := world;
      var h := NewNode(world);
      head := h;
    }

    method Empty() returns (b: bool)
      requires Valid()
      ensures b <==> Elements() == []
    {
      assert IsRing(world.rings[head]);
      b := head.next == head;
    }

    method PushBack(x: Node<T>)
      requires Valid() && x in world.nodes && Element(world.rings, x) && x != head
      modifies world, world.nodes
      ensures Valid() && world.nodes == old(world.nodes)
      ensures world.rings == PushedBack(old(world.rings), head, x)
    {
      hide Shape, Element, Minus;
      DeleteEntry(x, world);
      ghost var r := world.rings[head];
      OthersAreApart(world.rings, world.nodes, head);
      assert IsRing(r);
      InsertBetween(x, head.prev, head, head, |r|, world);
      assert r[..|r|] + [x] + r[|r|..] == r + [x];
    }

    method PushFront(x: Node<T>)
      requires Valid() && x in world.nodes && Element(world.rings, x) && x != head
      modifies world, world.nodes
      ensures Valid() && world.nodes == old(world.nodes)
      ensures world.rings == PushedFront(old(world.rings), head, x)
    {
      hide Shape, Element, Minus;
      OthersAreApart(world.rings, world.nodes, head);
      DeleteEntry(x, world);
      ghost var r := world.rings[head];
      OthersAreApart(world.rings, world.nodes, head);
      assert IsRing(r);
      InsertBetween(x, head, head.next, head, 1, world);
      assert r[..1] + [x] + r[1..] == [head, x] + r[1..];
    }

    method Erase(x: Node<T>)
      requires Valid() && x in world.nodes && Element(world.rings, x) && x != head
      modifies world, world.nodes
      ensures Valid() && world.nodes == old(world.nodes)
      ensures world.rings == Erased(old(world.rings), x)
    {
      hide Shape, IsRing, Element, Minus;
      DeleteEntry(x, world);
      ghost var rings, nodes := world.rings, world.nodes;
      NowhereFacts(rings, nodes, x);
      Init(x);
      ShapeAttached(rings, nodes, x, x, [x]);
      world.rings, world.nodes := world.rings[x := [x]], world.nodes + {x};
    }

    method Back() returns (x: Node<T>)
      requires Valid() && Elements() != []
      ensures x == Elements()[|Elements()| - 1]
    {
      assert IsRing(world.rings[head]);
      x := head.prev;
    }

    method Front() returns (x: Node<T>)
      requires Valid() && Elements() != []
      ensures x == Elements()[0]
    {
      assert IsRing(world.rings[head]);
      x := head.next;
    }

    /** `clear`, also the destructor: every element is on its own afterwards. */
    method Clear()
      requires Valid()
      modifies world, world.nodes
      ensures Valid() && world.nodes == old(world.nodes)
      ensures world.rings == ClearedFrom(old(world.rings), head, 1)
    {
      hide Shape, ClearedFrom, Erased, Element;
      ghost var rings, nodes := world.rings, world.nodes;
      ghost var k := |rings[head]|;
      OthersAreApart(rings, nodes, head);
      NothingCleared(rings, head);
      assert IsRing(rings[head]);
      while true
        invariant 1 <= k <= |rings[head]| && Valid() && world.nodes == nodes
        invariant world.rings == ClearedFrom(rings, head, k)
        decreases k
      {
        ClearedHere(rings, head, k);
        var empty := Empty();
        if empty { break; }
        var x := Back();
        OthersAreApart(world.rings, nodes, head);
        ClearStep(rings, nodes, head, k);
        Erase(x);
        k := k - 1;
      }
    }

    /** `erase(x)` and `to.push_back(x)`, as the loops of `reverse` do. */
    method MoveTo(x: Node<T>, to: IntrusiveList<T>,
                  ghost i: nat, ghost rings: Family<T>, ghost s: seq<Node<T>>, ghost t: seq<Node<T>>)
      requires Valid() && to.Valid() && to.world == world && to.head != head
      requires world.rings == Holding(rings, head, s, to.head, t) && i < |s| && x == s[i]
      modifies world, world.nodes
      ensures Valid() && to.Valid() && world.nodes == old(world.nodes)
      ensures world.rings == Holding(rings, head, s[..i] + s[i + 1..], to.head, t + [x])
    {
      hide Shape, IsRing, PushedBack, Element, Minus;
      ghost var r := [head] + s;
      assert world.rings[head] == r;
      RingIsDistinct(r);
      MoveToBack(world.rings, world.nodes, head, to.head, i + 1);
      Erase(x);
      to.PushBack(x);
      assert r[..i + 1] + r[i + 2..] == [head] + (s[..i] + s[i + 1..]);
      assert [to.head] + t + [x] == [to.head] + (t + [x]);
    }

    method Reverse()
      requires Valid()
      modifies world, world.nodes
      ensures Valid() && world.nodes == old(world.nodes)
      ensures world.rings == old(world.rings)[head := [head] + Reversed(old(Elements()))]
    {
      hide Shape, IsRing, Linked, Reversed, Holding;
      ghost var rings, nodes, s := world.rings, world.nodes, Elements();
      OthersAreApart(rings, nodes, head);
      assert rings[head] == [head] + s;
      var stack := new IntrusiveList<T>(world);
      NowhereFacts(rings, nodes, stack.head);
      HoldingNothing(rings, head, s, stack.head);
      HoldingNothing(rings, head, Reversed(s), stack.head);
      PourInto(stack, rings, s);
      PourBack(stack, rings, s);
      DestroyNode(stack.head, world, rings[head := [head] + Reversed(s)]);
    }

    /** The first loop of `reverse`. */
    method PourInto(stack: IntrusiveList<T>, ghost rings: Family<T>, ghost s: seq<Node<T>>)
      requires Valid() && stack.Valid() && stack.world == world && stack.head != head
      requires world.rings == Holding(rings, head, s, stack.head, [])
      modifies world, world.nodes
      ensures Valid() && stack.Valid() && world.nodes == old(world.nodes)
      ensures world.rings == Holding(rings, head, [], stack.head, s)
    {
      hide Shape, IsRing, Holding, Linked;
      ghost var k := 0;
      HoldingHere(rings, head, s, stack.head, []);
      assert s[0..] == s && s[..0] == [];
      var empty := Empty();
      while !empty
        invariant 0 <= k <= |s| && (empty <==> k == |s|)
        invariant Valid() && stack.Valid() && world.nodes == old(world.nodes)
        invariant world.rings == Holding(rings, head, s[k..], stack.head, s[..k])
        decreases |s| - k
      {
        HoldingHere(rings, head, s[k..], stack.head, s[..k]);
        var x := Front();
        MoveTo(x, stack, 0, rings, s[k..], s[..k]);
        assert s[k..][..0] + s[k..][1..] == s[k + 1..] && s[..k] + [x] == s[..k + 1];
        k := k + 1;
        HoldingHere(rings, head, s[k..], stack.head, s[..k]);
        empty := Empty();
      }
      assert s[k..] == [] && s[..k] == s;
    }

    /** The second loop of `reverse`. */
    method PourBack(stack: IntrusiveList<T>, ghost rings: Family<T>, ghost s: seq<Node<T>>)
      requires Valid() && stack.Valid() && stack.world == world && stack.head != head
      requires world.rings == Holding(rings, head, [], stack.head, s)
      modifies world, world.nodes
      ensures Valid() && stack.Valid() && world.nodes == old(world.nodes)
      ensures world.rings == Holding(rings, head, Reversed(s), stack.head, [])
    {
      hide Shape, IsRing, Holding, Linked, Reversed;
      ghost var k, n, r := 0, |s|, Reversed(s);
      HoldingHere(rings, head, [], stack.head, s);
      var empty := stack.Empty();
      assert s[..n] == s && r[..0] == [];
      while !empty
        invariant 0 <= k <= n && (empty <==> k == n)
        invariant Valid() && stack.Valid() && world.nodes == old(world.nodes)
        invariant world.rings == Holding(rings, stack.head, s[..n - k], head, r[..k])
        decreases n - k
      {
        HoldingHere(rings, stack.head, s[..n - k], head, r[..k]);
        var x := stack.Back();
        stack.MoveTo(x, this, n - k - 1, rings, s[..n - k], r[..k]);
        assert s[..n - k][..n - k - 1] + s[..n - k][n - k..] == s[..n - k - 1] && r[..k] + [x] == r[..k + 1];
        k := k + 1;
        HoldingHere(rings, stack.head, s[..n - k], head, r[..k]);
        empty := stack.Empty();
      }
      assert s[..n - k] == [] && r[..k] == r;
      HoldingHere(rings, stack.head, [], head, r);
    }

    /** Move assignment: the elements go into no list, and the ring of `other` changes its head. */
    method MoveAssign(other: IntrusiveList<T>)
      requires Valid() && other.Valid() && other.world == world && (other.head == head ==> other == this)
      modifies world, world.nodes
      ensures Valid() && other.Valid() && world.nodes == old(world.nodes)
      ensures world.rings == if other == this then old(world.rings)
                             else HandedOver(ClearedFrom(old(world.rings), head, 1), other.head, head)
    {
      if other == this { return; }
      hide Shape, ClearedFrom;
      Clear();
      ClearedOnly(old(world.rings), old(world.nodes), head, other.head);
      OthersAreApart(world.rings, world.nodes, other.head);
      var empty := other.Empty();
      if !empty {
        ReplaceHead(other.head, head, world);
      } else {
        NothingHandedOver(world.rings, other.head, head);
      }
    }
  }

  /** `init`: the node on its own. */
  method Init<T(0)>(x: Node<T>)
    modifies x
    ensures x.prev == x && x.next == x && IsRing([x])
  {
    x.prev := x;
    x.next := x;
    AloneIsRing(x);
  }

  /** `replace_entry` in the ring `r`. */
  method Substitute<T(0)>(was: Node<T>, node: Node<T>, ghost r: seq<Node<T>>, ghost i: nat)
    requires IsRing(r) && i < |r| && |r| > 1 && r[i] == was && node !in r
    modifies r, node
    ensures IsRing(r[i := node]) && IsRing([was])
  {
    assert was.next in r && was.prev in r by {
      assert was.next == RingAt(r, i + 1) && was.prev == r[if i == 0 then |r| - 1 else i - 1];
    }
    node.next := was.next;
    node.next.prev := node;
    node.prev := was.prev;
    node.prev.next := node;
    Init(was);
    ghost var e := r[i := node];
    forall t | 0 <= t < |e| - 1 ensures Joined(e[t], e[t + 1]) { }
    assert Joined(e[|e| - 1], e[0]);
  }

  /** `replace_entry` of the head `a` of a list with elements by the head `b` of an empty one. */
  method ReplaceHead<T(0)>(a: Node<T>, b: Node<T>, ghost w: World<T>)
    requires w.Valid() && a in w.rings && b in w.rings && a != b && w.rings[b] == [b] && |w.rings[a]| > 1
    modifies w, w.nodes
    ensures w.Valid() && w.nodes == old(w.nodes) && w.rings == HandedOver(old(w.rings), a, b)
  {
    hide Shape, IsRing;
    ghost var rings, nodes := w.rings, w.nodes;
    ghost var r := rings[a];
    OthersAreApart(rings, nodes, a);
    OthersAreApart(rings, nodes, b);
    assert b in rings[b] && Apart(rings[b], r) && Apart(r, rings[b]);
    RingIsDistinct(r);
    ShapeHandedOver(rings, nodes, a, b);
    Substitute(a, b, r, 0);
    assert r[0 := b] == [b] + r[1..];
    forall k | k in rings && k != a && k != b ensures IsRing(rings[k]) {
      ghost var q := rings[k];
      assert old(IsRing(q)) && Apart(q, r) && Apart(q, rings[b]);
      forall i | 0 <= i < |q| ensures unchanged(q[i]) { assert q[i] in q; }
    }
    w.rings := HandedOver(rings, a, b);
  }

  lemma RingIsDistinct<T(0)>(r: seq<Node<T>>)
    requires IsRing(r)
    ensures Distinct(r)
  {
  }

  lemma AloneIsRing<T(0)>(x: Node<T>)
    requires x.prev == x && x.next == x
    ensures IsRing([x])
  {
  }
}
