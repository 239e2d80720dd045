/**
 Doubly linked nodes and the rings they form.

 Both list classes of the library thread their elements on circular chains of
 `prev`/`next` pointers closed by a sentinel.  This module has the node, the
 predicate that says a sequence of nodes is such a ring, and the facts about
 cutting and joining chains that the pointer surgery rests on.
 */
module Rings {
  import opened Basics

  class Node<T(0)> {
    var prev: Node<T>
    var next: Node<T>
    var val: T

    /** A node on its own, linked to itself: a sentinel, or an element in no list. */
    constructor Alone()
      ensures prev == this && next == this
    {
      prev := this;
      next := this;
    }

    constructor Between(p: Node<T>, n: Node<T>, v: T)
      ensures prev == p && next == n && val == v
    {
      prev := p;
      next := n;
      val := v;
    }
  }

  ghost predicate Apart<X>(s: seq<X>, t: seq<X>) {
    forall x :: x in s ==> x !in t
  }

  lemma DistinctParts<X>(a: seq<X>, b: seq<X>)
    ensures Distinct(a + b) <==> Distinct(a) && Distinct(b) && Apart(a, b)
  {
    var s := a + b;
    if Distinct(s) {
      assert forall i :: 0 <= i < |a| ==> a[i] == s[i];
      assert forall i :: 0 <= i < |b| ==> b[i] == s[|a| + i];
    }
    if Distinct(a) && Distinct(b) && Apart(a, b) {
      forall i, j | 0 <= i < j < |s| ensures s[i] != s[j] {
        if j < |a| {
        } else if |a| <= i {
          assert s[i] == b[i - |a|] && s[j] == b[j - |a|];
        } else {
          assert s[i] in a && s[j] in b;
        }
      }
    }
  }

  lemma DistinctInserted<X>(r: seq<X>, k: nat, s: seq<X>)
    requires k <= |r| && Distinct(r) && Distinct(s) && Apart(r, s)
    ensures Distinct(r[..k] + s + r[k..])
  {
    assert r == r[..k] + r[k..];
    DistinctParts(r[..k], r[k..]);
    DistinctParts(r[..k], s);
    DistinctParts(r[..k] + s, r[k..]);
  }

  lemma DistinctSwapped<X>(a: seq<X>, m: seq<X>, s: seq<X>, b: seq<X>)
    requires Distinct(a + (m + (s + b)))
    ensures Distinct(a + s + m + b)
  {
    DistinctParts(a, m + (s + b));
    DistinctParts(m, s + b);
    DistinctParts(s, b);
    DistinctParts(a, s);
    DistinctParts(a + s, m);
    DistinctParts(a + s + m, b);
  }

  /** Consecutive nodes of `s` point at each other. */
  ghost predicate Chain<T(0)>(s: seq<Node<T>>)
    reads s
  {
    && (forall i {:trigger s[i].next} :: 0 <= i < |s| - 1 ==> s[i].next == s[i + 1])
    && (forall i {:trigger s[i].prev} :: 0 < i < |s| ==> s[i].prev == s[i - 1])
  }

  /** A ring opened in front of the positions in `cuts`; position `|s|` is where it closes. */
  ghost predicate Opened<T(0)>(s: seq<Node<T>>, cuts: set<nat>)
    reads s
  {
    && 0 < |s| && Distinct(s)
    && (forall i {:trigger s[i].next} :: 0 <= i < |s| - 1 && i + 1 !in cuts ==> s[i].next == s[i + 1])
    && (forall i {:trigger s[i].prev} :: 0 < i < |s| && i !in cuts ==> s[i].prev == s[i - 1])
    && (|s| !in cuts ==> Joined(s[|s| - 1], s[0]))
  }

  /** `a` and `b` point at each other. */
  ghost predicate Joined<T(0)>(a: Node<T>, b: Node<T>)
    reads a, b
  {
    a.next == b && b.prev == a
  }

  /** The nodes of `r`, in this order, form one closed ring. */
  ghost predicate IsRing<T(0)>(r: seq<Node<T>>)
    reads r
  {
    && 0 < |r|
    && Distinct(r)
    && Chain(r)
    && Joined(r[|r| - 1], r[0])
  }

  /** A chain of two parts is a chain of each part and a joint between them. */
  lemma ChainOfParts<T(0)>(a: seq<Node<T>>, b: seq<Node<T>>)
    requires 0 < |a| && 0 < |b|
    ensures Chain(a + b) <==> Chain(a) && Chain(b) && Joined(a[|a| - 1], b[0])
  {
    var s := a + b;
    if Chain(s) {
      assert s[|a| - 1].next == s[|a|];
      assert s[|a|].prev == s[|a| - 1];
      assert forall i {:trigger b[i].next} :: 0 <= i < |b| - 1 ==>
        b[i] == s[|a| + i] && s[|a| + i].next == s[|a| + i + 1];
      assert forall i {:trigger b[i].prev} :: 0 < i < |b| ==> b[i] == s[|a| + i] && s[|a| + i].prev == s[|a| + i - 1];
      assert forall i {:trigger a[i].next} :: 0 <= i < |a| - 1 ==> a[i] == s[i] && s[i].next == s[i + 1];
      assert forall i {:trigger a[i].prev} :: 0 < i < |a| ==> a[i] == s[i] && s[i].prev == s[i - 1];
    }
  }

  lemma OpenedPart<T(0)>(s: seq<Node<T>>, cuts: set<nat>, lo: nat, hi: nat)
    requires Opened(s, cuts) && lo <= hi <= |s|
    requires forall c :: c in cuts ==> c <= lo || hi <= c
    ensures Chain(s[lo..hi])
  {
    var p := s[lo..hi];
    assert forall i {:trigger p[i].next} :: 0 <= i < |p| - 1 ==> p[i] == s[lo + i] && s[lo + i].next == s[lo + i + 1];
    assert forall i {:trigger p[i].prev} :: 0 < i < |p| ==> p[i] == s[lo + i] && s[lo + i].prev == s[lo + i - 1];
  }

  /** The other way round: two chains that meet at both ends close into a ring. */
  lemma RingOfParts<T(0)>(a: seq<Node<T>>, b: seq<Node<T>>)
    requires 0 < |a| && Chain(a) && Chain(b) && Distinct(a + b)
    requires b != [] ==> Joined(a[|a| - 1], b[0]) && Joined(b[|b| - 1], a[0])
    requires b == [] ==> Joined(a[|a| - 1], a[0])
    ensures IsRing(a + b)
  {
    if b == [] {
      assert a + b == a;
    } else {
      ChainOfParts(a, b);
    }
  }

  /** Two neighbouring segments of `r`, `[k, i)` and `[i, j)`, the other way round. */
  ghost function Exchange<X>(r: seq<X>, k: nat, i: nat, j: nat): (e: seq<X>)
    requires k <= i <= j <= |r|
    ensures |e| == |r|
    ensures forall t :: 0 <= t < k || j <= t < |r| ==> e[t] == r[t]
    ensures forall t :: k <= t < k + j - i ==> e[t] == r[t + i - k]
    ensures forall t :: k + j - i <= t < j ==> e[t] == r[t - (j - i)]
    ensures Distinct(r) ==> Distinct(e)
  {
    assert r == r[..k] + (r[k..i] + (r[i..j] + r[j..]));
    if Distinct(r) then DistinctSwapped(r[..k], r[k..i], r[i..j], r[j..]);
      r[..k] + r[i..j] + r[k..i] + r[j..]
    else r[..k] + r[i..j] + r[k..i] + r[j..]
  }

  /** A ring opened in three places and relinked with two segments exchanged. */
  lemma Exchanged<T(0)>(r: seq<Node<T>>, k: nat, i: nat, j: nat)
    requires 1 <= k < i < j <= |r| && Opened(r, {k, i, j})
    requires Joined(r[k - 1], r[i]) && Joined(r[j - 1], r[k])
    requires Joined(r[i - 1], if j < |r| then r[j] else r[0])
    ensures IsRing(Exchange(r, k, i, j))
  {
    hide Exchange;
    var e, d := Exchange(r, k, i, j), j - i;
    forall t | 0 <= t < |e| - 1 ensures Joined(e[t], e[t + 1]) {
      if t < k - 1 || j <= t {
        assert r[t].next == r[t + 1] && r[t + 1].prev == r[t];
      } else if k <= t < k + d - 1 {
        assert r[t + i - k].next == r[t + 1 + i - k] && r[t + 1 + i - k].prev == r[t + i - k];
      } else if k + d <= t < j - 1 {
        assert r[t - d].next == r[t + 1 - d] && r[t + 1 - d].prev == r[t - d];
      }
    }
  }

  /** A ring is determined by the node it starts with. */
  lemma RingIsUnique<T(0)>(a: seq<Node<T>>, b: seq<Node<T>>)
    requires IsRing(a) && IsRing(b) && a[0] == b[0]
    ensures a == b
  {
    var n := if |a| <= |b| then |a| else |b|;
    RunsTogether(a, b, n);
    assert a[n - 1].next == b[n - 1].next;
    assert |a| == |b|;
  }

  lemma {:induction false} RunsTogether<T(0)>(a: seq<Node<T>>, b: seq<Node<T>>, n: nat)
    requires Chain(a) && Chain(b) && a != [] && b != [] && a[0] == b[0]
    requires n <= |a| && n <= |b|
    ensures forall i :: 0 <= i < n ==> a[i] == b[i]
  {
    if n > 1 {
      RunsTogether(a, b, n - 1);
      assert a[n - 2].next == b[n - 2].next;
    }
  }

  /** Any ring that starts with a node of ring `r` is as long as `r`. */
  lemma OnlyRing<T(0)>(r: seq<Node<T>>, i: nat)
    requires IsRing(r) && i < |r|
    ensures forall q :: IsRing(q) && q[0] == r[i] ==> |q| == |r|
  {
    var t := r[i..] + r[..i];
    assert r == r[..i] + r[i..];
    DistinctParts(r[..i], r[i..]);
    DistinctParts(r[i..], r[..i]);
    if i > 0 {
      ChainOfParts(r[..i], r[i..]);
      RingOfParts(r[i..], r[..i]);
    } else {
      assert t == r;
    }
    forall q | IsRing(q) && q[0] == r[i] ensures |q| == |r| {
      RingIsUnique(q, t);
    }
  }

  /** Position `k` of a ring; the position after the last is the first again. */
  ghost function RingAt<X>(r: seq<X>, k: nat): X
    requires 0 < |r|
  {
    if k < |r| then r[k] else r[0]
  }

  /** Linking `n` in between the two ends of a ring opened in front of position `k`. */
  lemma Inserted<T(0)>(r: seq<Node<T>>, k: nat, n: Node<T>)
    requires 1 <= k <= |r| && Opened(r, {k}) && n !in r
    requires Joined(r[k - 1], n) && Joined(n, RingAt(r, k))
    ensures IsRing(r[..k] + [n] + r[k..])
  {
    InsertedRange(r, k, [n]);
  }

  lemma InsertedRange<T(0)>(r: seq<Node<T>>, k: nat, s: seq<Node<T>>)
    requires 1 <= k <= |r| && Opened(r, {k})
    requires s != [] && Distinct(s) && Apart(r, s) && Chain(s)
    requires Joined(r[k - 1], s[0]) && Joined(s[|s| - 1], RingAt(r, k))
    ensures IsRing(r[..k] + s + r[k..])
  {
    var e, n := r[..k] + s + r[k..], |s|;
    DistinctInserted(r, k, s);
    hide Distinct;
    assert forall t :: 0 <= t < k ==> e[t] == r[t];
    assert forall t :: k <= t < k + n ==> e[t] == s[t - k];
    assert forall t :: k + n <= t < |e| ==> e[t] == r[t - n];
    forall t | 0 <= t < |e| - 1 ensures Joined(e[t], e[t + 1]) {
      if t < k - 1 {
        assert r[t].next == r[t + 1] && r[t + 1].prev == r[t];
      } else if k <= t < k + n - 1 {
        assert s[t - k].next == s[t - k + 1] && s[t - k + 1].prev == s[t - k];
      } else if k + n <= t {
        assert r[t - n].next == r[t - n + 1] && r[t - n + 1].prev == r[t - n];
      }
    }
  }

  /** Joining the two ends left when the nodes at `k` up to `l` are skipped. */
  lemma Cut<T(0)>(r: seq<Node<T>>, k: nat, l: nat)
    requires 1 <= k <= l <= |r| && Opened(r, {k, l})
    requires Joined(r[k - 1], RingAt(r, l))
    ensures IsRing(r[..k] + r[l..])
  {
    CutOut(r, {k, l}, k, l);
  }

  /** The same if the ring was opened among the skipped nodes as well. */
  lemma CutOut<T(0)>(r: seq<Node<T>>, cuts: set<nat>, k: nat, l: nat)
    requires 1 <= k <= l <= |r| && Opened(r, cuts) && l in cuts && forall c :: c in cuts ==> k <= c <= l
    requires Joined(r[k - 1], RingAt(r, l))
    ensures IsRing(r[..k] + r[l..])
  {
    hide Distinct, Chain, IsRing;
    var a, m, b := r[..k], r[k..l], r[l..];
    OpenedPart(r, cuts, 0, k);
    OpenedPart(r, cuts, l, |r|);
    assert r == a + (m + b);
    DistinctParts(a, m + b);
    DistinctParts(m, b);
    DistinctParts(a, b);
    RingOfParts(a, b);
  }

  /** A ring under a new first node. */
  lemma NewSentinel<T(0)>(x: Node<T>, q: seq<Node<T>>, r: seq<Node<T>>)
    requires |q| > 1 && Distinct(q) && x in r && Apart(r, q)
    requires Chain(q[1..]) && Joined(x, q[1]) && Joined(q[|q| - 1], x)
    ensures IsRing([x] + q[1..])
  {
    assert q == [q[0]] + q[1..];
    DistinctParts([q[0]], q[1..]);
    DistinctParts([x], q[1..]);
    RingOfParts([x], q[1..]);
  }
}
