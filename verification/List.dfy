/**
 The circular doubly linked list with a sentinel head (include/gpcl/list.hpp).

 The ghost field `ring` is the list as a sequence of node objects, the sentinel first;
 `Valid` ties it to the pointers and to `size`.  An iterator is a node together with its
 ghost position in `ring`; the position after the last element is `end()`.
 */
module Lists {
  import opened Basics
  import opened Rings
  import opened StableSort

  class List<T(0)> {
    const head: Node<T>
    var size: nat
    ghost var ring: seq<Node<T>>

    /** The links and the size are those of a list with the nodes `r`, sentinel first. */
    ghost predicate Represents(r: seq<Node<T>>)
      reads this, r
    {
      IsRing(r) && r[0] == head && size == |r| - 1
    }

    ghost predicate Valid()
      reads this, ring
    {
      Represents(ring)
    }

    /** The node of an iterator at position `k`. */
    ghost function At(k: nat): Node<T>
      reads this
      requires 0 < |ring|
    {
      RingAt(ring, k)
    }

    /** The elements in order. */
    ghost function Values(): seq<T>
      reads this, ring
      requires ring != []
    {
      ValuesOf(ring[1..])
    }

    constructor ()
      ensures Valid() && ring == [head] && fresh(head)
    {
      head := new Node.Alone();
      size := 0;
      new;
      ring := [head];
    }

    /**
     The move constructor: splices all of `other` into a new list.  That is an empty range
     if `other` is empty, and then neither list is one.
     */
    constructor MoveFrom(other: List<T>)
      requires other.Valid()
      modifies other, other.ring
      ensures fresh(head)
      ensures old(other.size) > 0 ==>
        && Valid() && ring == [head] + old(other.ring[1..])
        && other.Valid() && other.ring == [other.head]
      ensures old(other.size) == 0 ==> forall r :: !Represents(r)
      ensures old(other.size) == 0 ==> forall r :: !other.Represents(r)
      ensures forall n :: n in old(other.ring) ==> n.val == old(n.val)
    {
      head := new Node.Alone();
      size := 0;
      new;
      ring := [head];
      SpliceAll(other);
    }

    /** `splice(end(), std::move(other))`. */
    method SpliceAll(other: List<T>)
      requires Valid() && other.Valid() && (this != other ==> Apart(ring, other.ring))
      requires this == other ==> size == 0
      modifies this, ring, other, other.ring
      ensures this == other ==> Valid() && ring == old(ring)
      ensures this != other && old(other.size) > 0 ==>
        && Valid() && ring == old(ring) + old(other.ring[1..])
        && other.Valid() && other.ring == [other.head]
      ensures this != other && old(other.size) == 0 ==> forall r :: !Represents(r)
      ensures this != other && old(other.size) == 0 ==> forall r :: !other.Represents(r)
      ensures forall n :: n in old(ring) || n in old(other.ring) ==> n.val == old(n.val)
    {
      ghost var r, q := ring, other.ring;
      var first := other.Next(other.head, 0);
      Splice(head, other, first, other.head, |ring|, 1, |other.ring|);
      assert r[..|r|] == r && r[|r|..] == [] && q[..1] == [other.head] && q[|q|..] == [];
    }

    /** Move assignment with equal allocators: `clear`, then the same splice. */
    method MoveAssign(other: List<T>)
      requires Valid() && other.Valid() && (this != other ==> Apart(ring, other.ring))
      modifies this, ring, other, other.ring
      ensures this == other ==> Valid() && ring == [head]
      ensures this != other && old(other.size) > 0 ==>
        && Valid() && ring == [head] + old(other.ring[1..])
        && other.Valid() && other.ring == [other.head]
      ensures this != other && old(other.size) == 0 ==> forall r :: !Represents(r)
      ensures this != other && old(other.size) == 0 ==> forall r :: !other.Represents(r)
    {
      hide IsRing;
      RingHasFirst(ring);
      var first := Next(head, 0);
      ghost var q := other.ring;
      forall i | this != other && 0 <= i < |q| ensures q[i] !in ring { assert q[i] in q; }
      Truncate(first, 1);
      if this != other {
        forall i | 0 <= i < |q| ensures unchanged(q[i]) { }
        assert old(IsRing(q)) && ring == [head] && head !in q;
      }
      SpliceAll(other);
    }

    method Emplace(pos: Node<T>, v: T, ghost k: nat) returns (it: Node<T>)
      requires Valid() && 1 <= k <= |ring| && pos == At(k)
      modifies this, ring
      ensures Valid() && fresh(it) && it.val == v
      ensures ring == old(ring[..k]) + [it] + old(ring[k..])
      ensures forall n :: n in old(ring) ==> n.val == old(n.val)
    {
      it := new Node.Between(pos.prev, pos, v);
      pos.prev.next := it;
      pos.prev := it;
      size := size + 1;
      Inserted(ring, k, it);
      ring := ring[..k] + [it] + ring[k..];
    }

    method Erase(pos: Node<T>, ghost k: nat) returns (it: Node<T>)
      requires Valid() && 1 <= k < |ring| && pos == ring[k]
      modifies this, ring
      ensures Valid() && it == At(k)
      ensures ring == old(ring[..k]) + old(ring[k + 1..])
      ensures forall n :: n in old(ring) ==> n.val == old(n.val)
    {
      var prev, next := pos.prev, pos.next;
      size := size - 1;
      prev.next := next;
      next.prev := prev;
      Cut(ring, k, k + 1);
      ring := ring[..k] + ring[k + 1..];
      it := next;
    }

    /** `destroyed` lists the nodes given to `destroy_node`, in that order. */
    method EraseRange(first: Node<T>, last: Node<T>, ghost k: nat, ghost l: nat)
      returns (it: Node<T>, ghost destroyed: seq<Node<T>>)
      requires Valid() && 1 <= k <= l <= |ring| && first == At(k) && last == At(l)
      modifies this, ring
      ensures Valid() && it == last && it == At(k)
      ensures ring == old(ring[..k]) + old(ring[l..])
      ensures destroyed == old(ring[k..l])
      ensures forall n :: n in old(ring) ==> n.val == old(n.val)
    {
      var prev := first.prev;
      destroyed := DestroyNodes(first, last, k, l);
      prev.next := last;
      last.prev := prev;
      Cut(ring, k, l);
      hide IsRing;
      ring := ring[..k] + ring[l..];
      it := last;
    }

    /** The loop of the range `erase`: the links are only read. */
    method DestroyNodes(first: Node<T>, last: Node<T>, ghost k: nat, ghost l: nat)
      returns (ghost destroyed: seq<Node<T>>)
      requires Valid() && 1 <= k <= l <= |ring| && first == At(k) && last == At(l)
      modifies this`size
      ensures destroyed == ring[k..l]
      ensures size == |ring| - 1 - (l - k)
    {
      var node := first;
      ghost var c := k;
      destroyed := [];
      while node != last
        invariant k <= c <= l && node == At(c)
        invariant destroyed == ring[k..c]
        invariant size == |ring| - 1 - (c - k)
        decreases l - c
      {
        var tmp := node.next;
        destroyed := destroyed + [node];
        node := tmp;
        size := size - 1;
        c := c + 1;
      }
    }

    /**
     Inserts copies of `vals` in front of `pos`, last one first.  `failAt` is the number
     of element constructions that succeed before one throws; the handler then erases
     what was inserted.
     */
    method InsertRange(pos: Node<T>, vals: seq<T>, failAt: nat, ghost k: nat)
      returns (ok: bool, it: Node<T>, ghost made: seq<Node<T>>)
      requires Valid() && 1 <= k <= |ring| && pos == At(k)
      modifies this, ring
      ensures Valid() && it == At(k)
      ensures ok <==> |vals| <= failAt
      ensures ring == old(ring[..k]) + made + old(ring[k..])
      ensures fresh(made) && ValuesOf(made) == if ok then vals else []
      ensures forall n :: n in old(ring) ==> n.val == old(n.val)
    {
      var n;
      n, it, made := InsertUntil(pos, vals, failAt, k);
      ok := n == |vals|;
      if !ok {
        it := EraseNext(it, n, k);
        made := [];
      }
    }

    /** The insertion loop: it stops early when construction number `failAt` throws. */
    method InsertUntil(pos: Node<T>, vals: seq<T>, failAt: nat, ghost k: nat)
      returns (n: nat, it: Node<T>, ghost made: seq<Node<T>>)
      requires Valid() && 1 <= k <= |ring| && pos == At(k)
      modifies this, ring
      ensures Valid() && it == At(k)
      ensures n == |made| == if |vals| <= failAt then |vals| else failAt
      ensures ring == old(ring[..k]) + made + old(ring[k..])
      ensures fresh(made) && ValuesOf(made) == vals[|vals| - n..]
      ensures forall x :: x in old(ring) ==> x.val == old(x.val)
    {
      hide IsRing, ValuesOf;
      it := pos;
      n := 0;
      made := [];
      while n < |vals| && n < failAt
        invariant n == |made| <= |vals| && n <= failAt
        invariant Valid() && fresh(made)
        invariant ring == old(ring[..k]) + made + old(ring[k..])
        invariant it == At(k)
        invariant ValuesOf(made) == vals[|vals| - n..]
        invariant forall x :: x in old(ring) ==> x.val == old(x.val)
      {
        ghost var before := ring;
        it := Emplace(it, vals[|vals| - 1 - n], k);
        GrownAt(old(ring), before, made, it, k);
        made := [it] + made;
        n := n + 1;
      }
    }

    /** Erases `count` elements one by one from `pos` on. */
    method EraseNext(pos: Node<T>, count: nat, ghost k: nat) returns (it: Node<T>)
      requires Valid() && 1 <= k <= k + count <= |ring| && pos == At(k)
      modifies this, ring
      ensures Valid() && it == At(k)
      ensures ring == old(ring[..k]) + old(ring[k + count..])
      ensures forall x :: x in old(ring) ==> x.val == old(x.val)
    {
      hide IsRing;
      it := pos;
      var n := count;
      while 0 < n
        invariant Valid() && 0 <= n <= count
        invariant ring == old(ring[..k]) + old(ring[k + count - n..])
        invariant it == At(k)
        invariant forall x :: x in old(ring) ==> x.val == old(x.val)
      {
        it := Erase(it, k);
        n := n - 1;
      }
    }

    /** `operator++` of an iterator at position `k`. */
    method Next(it: Node<T>, ghost k: nat) returns (n: Node<T>)
      requires Valid() && k < |ring| && it == ring[k]
      ensures n == At(k + 1)
    {
      n := it.next;
    }

    /** `std::distance` over the links. */
    method Distance(first: Node<T>, last: Node<T>, ghost k: nat, ghost l: nat) returns (n: nat)
      requires Valid() && 1 <= k <= l <= |ring| && first == At(k) && last == At(l)
      ensures n == l - k
    {
      n := 0;
      var node := first;
      while node != last
        invariant k + n <= l && node == At(k + n)
        decreases l - k - n
      {
        node := node.next;
        n := n + 1;
      }
    }

    /**
     Moves the nodes of `[first, last)` from `other` in front of `pos`.  Between two lists
     the range goes in at `k`; within one list it changes places with the nodes between
     it and `pos`.  An empty range does no harm only in front of itself.  Taken from another
     list it joins both lists to one ring, elsewhere in the same list it cuts the ring in
     two.  A `pos` inside the range, its first node included, takes the range out of the
     list or leaves links that do not match.  In all these cases the links are then those
     of no list of that size.
     */
    method Splice(pos: Node<T>, other: List<T>, first: Node<T>, last: Node<T>,
                  ghost k: nat, ghost i: nat, ghost j: nat)
      requires Valid() && other.Valid() && (this != other ==> Apart(ring, other.ring))
      requires 1 <= k <= |ring| && pos == At(k)
      requires 1 <= i <= j <= |other.ring| && first == other.At(i) && last == other.At(j)
      modifies this, ring, other, other.ring
      ensures this != other && i < j ==>
        && Valid() && other.Valid()
        && ring == old(ring[..k]) + old(other.ring[i..j]) + old(ring[k..])
        && other.ring == old(other.ring[..i]) + old(other.ring[j..])
      ensures this == other && MovesWithin(k, i, j) ==> Valid() && ring == MovedWithin(old(ring), k, i, j)
      ensures this == other && !MovesWithin(k, i, j) ==> forall r :: !Represents(r)
      ensures this != other && i == j ==> forall r :: !Represents(r)
      ensures this != other && i == j ==> forall r :: !other.Represents(r)
      ensures forall n :: n in old(ring) || n in old(other.ring) ==> n.val == old(n.val)
    {
      if this != other {
        SpliceFrom(pos, other, first, last, k, i, j);
      } else {
        SpliceWithin(pos, first, last, k, i, j);
      }
    }

    method SpliceFrom(pos: Node<T>, other: List<T>, first: Node<T>, last: Node<T>,
                      ghost k: nat, ghost i: nat, ghost j: nat)
      requires Valid() && other.Valid() && this != other && Apart(ring, other.ring)
      requires 1 <= k <= |ring| && pos == At(k)
      requires 1 <= i <= j <= |other.ring| && first == other.At(i) && last == other.At(j)
      modifies this, ring, other, other.ring
      ensures i < j ==>
        && Valid() && other.Valid()
        && ring == old(ring[..k]) + old(other.ring[i..j]) + old(ring[k..])
        && other.ring == old(other.ring[..i]) + old(other.ring[j..])
      ensures i == j ==> forall r :: !Represents(r)
      ensures i == j ==> forall r :: !other.Represents(r)
      ensures forall n :: n in old(ring) || n in old(other.ring) ==> n.val == old(n.val)
    {
      hide IsRing;
      var count := other.Distance(first, last, i, j);
      other.size := other.size - count;
      size := size + count;
      MoveAcross(pos, first, last, ring, other.ring, k, i, j);
      if i < j {
        ring := ring[..k] + other.ring[i..j] + ring[k..];
        other.ring := other.ring[..i] + other.ring[j..];
      } else {
        ghost var merged := MergedRing(ring, other.ring, k, i);
        OnlyRing(merged, 0);
        OnlyRing(merged, k + |other.ring| - i);
      }
    }

    method SpliceWithin(pos: Node<T>, first: Node<T>, last: Node<T>, ghost k: nat, ghost i: nat, ghost j: nat)
      requires Valid() && 1 <= k <= |ring| && pos == At(k)
      requires 1 <= i <= j <= |ring| && first == At(i) && last == At(j)
      modifies this, ring
      ensures MovesWithin(k, i, j) ==> Valid() && ring == MovedWithin(old(ring), k, i, j)
      ensures !MovesWithin(k, i, j) ==> forall r :: !Represents(r)
      ensures forall n :: n in old(ring) ==> n.val == old(n.val)
    {
      hide IsRing, Opened, Exchange, MovedWithin;
      OpenSame(pos, first, last, ring, k, i, j);
      if MovesWithin(k, i, j) {
        RingMoved(ring, k, i, j);
        ring := MovedWithin(ring, k, i, j);
      } else if i == k {
        LinksMismatch(ring, i, j);
        forall r ensures !Represents(r) {
          if r != [] && r[0] == head && |r| == |ring| { NoSuchRing(r, ring, i); }
        }
      } else {
        ghost var rest := RingCut(ring, k, i, j);
        OnlyRing(rest, 0);
      }
    }

    /**
     Exchanges the elements of two lists by exchanging the places of the sentinels.  That
     works exactly when neither list is empty; with an empty list the sentinel of the list
     that should become empty ends up linked to the other one.
     */
    method Swap(other: List<T>)
      requires Valid() && other.Valid() && (this != other ==> Apart(ring, other.ring))
      modifies this, ring, other, other.ring
      ensures this == other ==> Valid() && ring == old(ring)
      ensures this != other && old(size > 0 && other.size > 0) ==>
        && Valid() && ring == [head] + old(other.ring[1..])
        && other.Valid() && other.ring == [other.head] + old(ring[1..])
      ensures this != other && old(size == 0 || other.size == 0) ==>
        forall r, q :: !(Represents(r) && other.Represents(q))
      ensures forall n :: n in old(ring) || n in old(other.ring) ==> n.val == old(n.val)
    {
      hide IsRing, Chain, Joined;
      ghost var r, q := ring, other.ring;
      RingHasFirst(r);
      RingHasFirst(q);
      SwapNodes(head, other.head, r, q);
      size, other.size := other.size, size;
      if this != other {
        if size == 0 {
          NeitherEmptyNorFull();
        } else if other.size == 0 {
          other.NeitherEmptyNorFull();
        } else {
          ring, other.ring := [head] + q[1..], [other.head] + r[1..];
        }
      }
    }

    lemma NeitherEmptyNorFull()
      requires size == 0 && head.next != head
      ensures forall r :: !Represents(r)
    {
    }

    /** Reads the elements of `[first, last)`. */
    method Read(first: Node<T>, last: Node<T>, ghost k: nat, ghost l: nat) returns (vs: seq<T>)
      requires Valid() && 1 <= k <= l <= |ring| && first == At(k) && last == At(l)
      ensures vs == ValuesOf(ring[k..l])
      ensures forall i :: k <= i < l ==> vs[i - k] == ring[i].val
    {
      vs := [];
      var node := first;
      while node != last
        invariant k + |vs| <= l && node == At(k + |vs|)
        invariant vs == ValuesOf(ring[k..k + |vs|])
        decreases l - k - |vs|
      {
        vs := vs + [node.val];
        node := node.next;
      }
    }

    /**
     Copy assignment with equal allocators: values over the common prefix, then insert or
     erase.  When construction number `failAt` of a new element throws, the list keeps its
     length, with the values of the common prefix assigned.
     */
    method CopyAssign(other: List<T>, failAt: nat) returns (ok: bool)
      requires Valid() && other.Valid() && (this != other ==> Apart(ring, other.ring))
      modifies this, ring
      ensures Valid() && (ok <==> |old(other.ring)| <= |old(ring)| + failAt)
      ensures |ring| == if ok then |old(other.ring)| else |old(ring)|
      ensures forall i :: 1 <= i < |ring| ==> ring[i].val == old(other.ring[i].val)
      ensures forall i :: 0 <= i < |ring| && i < |old(ring)| ==> ring[i] == old(ring)[i]
    {
      hide IsRing;
      ghost var m := |other.ring|;
      ok := true;
      var first, otherFirst, c := AssignCommon(other);
      if size < other.size {
        ok := AppendFrom(other, otherFirst, failAt);
      } else {
        Truncate(first, m);
      }
    }

    /** `insert(end(), other_first, other.end())`. */
    method AppendFrom(other: List<T>, otherFirst: Node<T>, failAt: nat) returns (ok: bool)
      requires Valid() && other.Valid() && |ring| < |other.ring| && otherFirst == other.At(|ring|)
      modifies this, ring
      ensures Valid() && (ok <==> |old(other.ring)| <= |old(ring)| + failAt)
      ensures |ring| == if ok then |old(other.ring)| else |old(ring)|
      ensures forall i :: 0 <= i < |old(ring)| ==> ring[i] == old(ring)[i] && ring[i].val == old(ring[i].val)
      ensures forall i :: |old(ring)| <= i < |ring| ==> ring[i].val == old(other.ring[i].val)
    {
      hide IsRing, ValuesOf;
      var rest := other.Read(otherFirst, other.head, |ring|, |other.ring|);
      ok := Append(rest, failAt);
    }

    /** `insert(end(), ...)`. */
    method Append(vals: seq<T>, failAt: nat) returns (ok: bool)
      requires Valid()
      modifies this, ring
      ensures Valid() && (ok <==> |vals| <= failAt) && |ring| == |old(ring)| + if ok then |vals| else 0
      ensures forall i :: 0 <= i < |old(ring)| ==> ring[i] == old(ring)[i] && ring[i].val == old(ring[i].val)
      ensures forall i :: |old(ring)| <= i < |ring| ==> ring[i].val == vals[i - |old(ring)|]
    {
      hide IsRing;
      ghost var was := ring;
      var it;
      ghost var made;
      ok, it, made := InsertRange(head, vals, failAt, |ring|);
      assert ring == was + made;
      forall i | 0 <= i < |was| ensures ring[i] == was[i] && ring[i].val == old(was[i].val) { assert was[i] in was; }
      forall i | |was| <= i < |ring| ensures ring[i].val == vals[i - |was|] { assert ring[i] == made[i - |was|]; }
    }

    /** `erase(first, end())`. */
    method Truncate(first: Node<T>, ghost m: nat)
      requires Valid() && 1 <= m <= |ring| && first == At(m)
      modifies this, ring
      ensures Valid() && ring == old(ring[..m])
      ensures forall i :: 0 <= i < m ==> ring[i].val == old(ring[i].val)
    {
      hide IsRing;
      ghost var was := ring;
      var it, destroyed := EraseRange(first, head, m, |ring|);
      assert ring == was[..m];
      forall i | 0 <= i < m ensures ring[i].val == old(was[i].val) { assert was[i] in was; }
    }

    /** The loop of copy assignment, which stops at the shorter list's end. */
    method AssignCommon(other: List<T>) returns (first: Node<T>, otherFirst: Node<T>, ghost c: nat)
      requires Valid() && other.Valid() && (this != other ==> Apart(ring, other.ring))
      modifies ring`val
      ensures Valid() && other.Valid()
      ensures c == if |ring| <= |other.ring| then |ring| else |other.ring|
      ensures first == At(c) && otherFirst == other.At(c)
      ensures forall i :: 1 <= i < c ==> ring[i].val == old(other.ring[i].val)
      ensures forall i :: c <= i < |other.ring| ==> other.ring[i].val == old(other.ring[i].val)
    {
      first, otherFirst := head.next, other.head.next;
      c := 1;
      while first != head && otherFirst != other.head
        invariant 1 <= c <= |ring| && c <= |other.ring|
        invariant first == At(c) && otherFirst == other.At(c)
        invariant forall i :: 1 <= i < c ==> ring[i].val == old(other.ring[i].val)
        invariant forall i :: c <= i < |other.ring| ==> other.ring[i].val == old(other.ring[i].val)
        decreases |ring| - c
      {
        assert first in ring && first == ring[c] && otherFirst == other.ring[c];
        first.val := otherFirst.val;
        first, otherFirst := first.next, otherFirst.next;
        c := c + 1;
      }
    }

    /**
     Sorts by relinking.  `perm` tells which old position each node comes from.  Every
     list is rearranged without loss; if `less` is a strict weak order on the elements
     then the arrangement is the stable sort.
     */
    method Sort(less: (T, T) -> bool) returns (ghost perm: seq<nat>)
      requires Valid()
      modifies this, ring
      ensures Valid() && Rearranged(ring, old(ring), perm)
      ensures forall n :: n in old(ring) ==> n.val == old(n.val)
      ensures StrictWeakOrder(old(Values()), less) ==> IsStableSort(perm, old(Values()), less)
    {
      hide IsRing, StrictWeakOrder, Scanning, InOrder, Rearranged;
      ghost var keys := ValuesOf(ring[1..]);
      ghost var ordered := StrictWeakOrder(keys, less);
      perm := Identity(|keys|);
      ScanFromTheStart(keys, less);
      NotRearranged(ring);
      var i := Next(head, 0);
      ghost var p := 0;
      while i != head
        invariant Valid() && Rearranged(ring, old(ring), perm)
        invariant p <= |keys| == |perm| == |ring| - 1 && Bounded(perm, |keys|)
        invariant i == At(p + 1)
        invariant forall n :: n in old(ring) ==> n.val == old(n.val)
        invariant ordered ==> Scanning(perm, keys, less, p, p + 1)
        decreases |keys| - p
      {
        i, perm := Select(i, less, old(ring), keys, perm, p);
        i := Next(i, p + 1);
        p := p + 1;
      }
      HeadIsEnd(p + 1);
      RearrangedContents(ring, old(ring), perm);
      if ordered { ScannedAll(perm, keys, less, p); }
    }

    lemma HeadIsEnd(k: nat)
      requires Valid() && 1 <= k <= |ring| && At(k) == head
      ensures k == |ring|
    {
    }

    /** `splice(i, *this, j++)`. */
    method PullBefore(i: Node<T>, j: Node<T>, ghost was: seq<Node<T>>, ghost s: seq<nat>, ghost p: nat, ghost q: nat)
      returns (next: Node<T>, ghost perm: seq<nat>)
      requires Valid() && Rearranged(ring, was, s) && p < q < |s|
      requires i == ring[p + 1] && j == ring[q + 1]
      modifies this, was
      ensures perm == Pull(s, p, q) && Rearranged(ring, was, perm)
      ensures Valid() && ring[p + 1] == j && next == At(q + 2)
      ensures forall n :: n in was ==> n.val == old(n.val)
    {
      hide IsRing, Exchange, Pull;
      RearrangedContents(ring, was, s);
      RearrangedByPull(ring, was, s, p, q);
      next := Next(j, q + 1);
      Splice(i, this, j, next, p + 1, q + 1, q + 2);
      perm := Pull(s, p, q);
    }

    /** One round of the outer loop: the slot at `p` receives a least element of the rest. */
    method Select(slot: Node<T>, less: (T, T) -> bool,
                  ghost was: seq<Node<T>>, ghost keys: seq<T>, ghost s: seq<nat>, ghost p: nat)
      returns (i: Node<T>, ghost perm: seq<nat>)
      requires Valid() && Rearranged(ring, was, s) && p < |keys| == |s|
      requires slot == ring[p + 1] && was != [] && keys == ValuesOf(was[1..])
      requires StrictWeakOrder(keys, less) ==> Scanning(s, keys, less, p, p + 1)
      modifies this, was
      ensures Valid() && Rearranged(ring, was, perm) && Bounded(perm, |keys|) && |perm| == |s| == |ring| - 1
      ensures i == ring[p + 1]
      ensures StrictWeakOrder(keys, less) ==> Scanning(perm, keys, less, p + 1, p + 2)
      ensures forall n :: n in was ==> n.val == old(n.val)
    {
      ghost var ordered := StrictWeakOrder(keys, less);
      hide IsRing, StrictWeakOrder, Scanning, Pull;
      i, perm := slot, s;
      ghost var q := p + 1;
      var j := Next(i, p + 1);
      while j != head
        invariant Valid() && Rearranged(ring, was, perm) && |perm| == |s|
        invariant p < q <= |s| && i == ring[p + 1] && j == At(q + 1)
        invariant forall n :: n in was ==> n.val == old(n.val)
        invariant ordered ==> Scanning(perm, keys, less, p, q)
        decreases |s| - q
      {
        assert i == was[perm[p] + 1] && j == was[perm[q] + 1];
        assert i.val == keys[perm[p]] && j.val == keys[perm[q]];
        if less(j.val, i.val) {
          if ordered { PullKeepsScanning(perm, keys, less, p, q); }
          var tmp := j;
          j, perm := PullBefore(i, j, was, perm, p, q);
          i := tmp;
        } else {
          if ordered { SkipKeepsScanning(perm, keys, less, p, q); }
          j := Next(j, q + 1);
        }
        q := q + 1;
      }
      HeadIsEnd(q + 1);
      if ordered { ScannedToTheEnd(perm, keys, less, p); }
    }
  }

  /** `r` is `was` with its elements, the sentinel aside, rearranged as `perm` says. */
  ghost predicate Rearranged<X>(r: seq<X>, was: seq<X>, perm: seq<nat>) {
    && |r| == |was| == |perm| + 1
    && r[0] == was[0]
    && Bounded(perm, |perm|)
    && multiset(perm) == multiset(Identity(|perm|))
    && forall t :: 0 <= t < |perm| ==> r[t + 1] == was[perm[t] + 1]
  }

  lemma NotRearranged<X>(r: seq<X>)
    requires r != []
    ensures Rearranged(r, r, Identity(|r| - 1))
  {
  }

  lemma RearrangedContents<X>(r: seq<X>, was: seq<X>, perm: seq<nat>)
    requires Rearranged(r, was, perm)
    ensures multiset(perm) == multiset(Identity(|perm|))
    ensures forall i :: 0 <= i < |r| ==> r[i] in was
    ensures forall i :: 0 <= i < |was| ==> was[i] in r
  {
    forall i | 0 <= i < |was| ensures was[i] in r {
      if i > 0 {
        assert Identity(|perm|)[i - 1] in multiset(perm);
        var t :| 0 <= t < |perm| && perm[t] == i - 1;
        assert r[t + 1] == was[i];
      }
    }
    forall t | 0 <= t < |r| ensures r[t] in was {
      if t > 0 { assert r[(t - 1) + 1] == was[perm[t - 1] + 1]; }
    }
  }

  lemma RearrangedByPull<X>(r: seq<X>, was: seq<X>, perm: seq<nat>, p: nat, q: nat)
    requires Rearranged(r, was, perm) && p < q < |perm|
    ensures Rearranged(MovedWithin(r, p + 1, q + 1, q + 2), was, Pull(perm, p, q))
  {
    hide Exchange, Pull;
  }

  /** `list_node::swap`: two nodes of different rings change places. */
  method SwapNodes<T(0)>(x: Node<T>, y: Node<T>, ghost r: seq<Node<T>>, ghost q: seq<Node<T>>)
    requires IsRing(r) && IsRing(q) && r[0] == x && q[0] == y
    requires x != y ==> Apart(r, q)
    modifies r`prev, r`next, q`prev, q`next
    ensures x == y ==> IsRing(r)
    ensures x != y && |r| > 1 && |q| > 1 ==> IsRing([x] + q[1..]) && IsRing([y] + r[1..])
    ensures x != y && |r| == 1 ==> y.next == x
    ensures x != y && |q| == 1 ==> x.next == y
  {
    hide Chain, Joined, IsRing, Opened;
    SwapLinks(x, y, r, q);
    if x != y && |r| > 1 && |q| > 1 {
      OpenedPart(r, {1, |r|}, 1, |r|);
      OpenedPart(q, {1, |q|}, 1, |q|);
      OpenedIsDistinct(r, {1, |r|});
      OpenedIsDistinct(q, {1, |q|});
      NewSentinel(x, q, r);
      NewSentinel(y, r, q);
    }
  }

  lemma RingHasFirst<T(0)>(r: seq<Node<T>>)
    requires IsRing(r)
    ensures r != [] && r[0] in r
  {
  }

  lemma OpenedIsDistinct<T(0)>(r: seq<Node<T>>, cuts: set<nat>)
    requires Opened(r, cuts)
    ensures Distinct(r)
  {
  }

  /** The eight writes: the rings without their first nodes are chains as before. */
  method SwapLinks<T(0)>(x: Node<T>, y: Node<T>, ghost r: seq<Node<T>>, ghost q: seq<Node<T>>)
    requires IsRing(r) && IsRing(q) && r[0] == x && q[0] == y
    requires x != y ==> Apart(r, q)
    modifies r`prev, r`next, q`prev, q`next
    ensures x == y ==> IsRing(r)
    ensures x != y ==> Opened(r, {1, |r|}) && Opened(q, {1, |q|})
    ensures x != y && |r| > 1 && |q| > 1 ==>
      Joined(x, q[1]) && Joined(q[|q| - 1], x) && Joined(y, r[1]) && Joined(r[|r| - 1], y)
    ensures x != y && |r| == 1 ==> y.next == x
    ensures x != y && |q| == 1 ==> x.next == y
  {
    if x == y { return; }
    assert x in r && y in q && r[|r| - 1] in r && q[|q| - 1] in q;
    assert |r| > 1 ==> r[1] in r;
    assert |q| > 1 ==> q[1] in q;
    var prev, next := x.prev, x.next;
    var otherPrev, otherNext := y.prev, y.next;
    x.prev := otherPrev;
    x.next := otherNext;
    prev.next := y;
    next.prev := y;
    otherPrev.next := x;
    otherNext.prev := x;
    y.prev := prev;
    y.next := next;
  }

  /** The six pointer writes of `splice`. */
  method Relink<T(0)>(pos: Node<T>, first: Node<T>, last: Node<T>)
    returns (ghost prev: Node<T>, ghost nodeLast: Node<T>, ghost posPrev: Node<T>)
    requires first != last ==> first.prev != last.prev
    requires pos != last && pos != first ==> pos.prev != first.prev && pos.prev != last.prev
    modifies first`prev, last`prev, pos`prev, first.prev`next, last.prev`next, pos.prev`next
    ensures prev == old(first.prev) && nodeLast == old(last.prev)
    ensures posPrev == if pos == last then prev else old(pos.prev)
    ensures pos != first || first == last ==> Joined(posPrev, first) && Joined(nodeLast, pos)
    ensures pos == last == first ==> Joined(prev, last)
    ensures first != last && pos != last && pos != first ==> Joined(prev, last)
    ensures pos == first && first != last ==> prev.next == first && first.prev == nodeLast
  {
    var node, next := first, last;
    var prev' := node.prev;
    var nodeLast' := next.prev;

    prev'.next := next;
    next.prev := prev';

    var posPrev' := pos.prev;
    node.prev := posPrev';
    nodeLast'.next := pos;

    posPrev'.next := node;
    pos.prev := nodeLast';
    prev, nodeLast, posPrev := prev', nodeLast', posPrev';
  }

  /** A segment of ring `q` linked into ring `r`; with an empty segment the rings merge. */
  method MoveAcross<T(0)>(pos: Node<T>, first: Node<T>, last: Node<T>,
                          ghost r: seq<Node<T>>, ghost q: seq<Node<T>>, ghost k: nat, ghost i: nat, ghost j: nat)
    requires IsRing(r) && IsRing(q) && Apart(r, q)
    requires 1 <= k <= |r| && pos == RingAt(r, k)
    requires 1 <= i <= j <= |q| && first == RingAt(q, i) && last == RingAt(q, j)
    modifies r, q
    ensures i < j ==> IsRing(r[..k] + q[i..j] + r[k..]) && IsRing(q[..i] + q[j..])
    ensures i == j ==> IsRing(r[..k] + (q[i..] + q[..i]) + r[k..])
    ensures forall n :: n in r || n in q ==> n.val == old(n.val)
  {
    hide IsRing, Opened, Chain, Distinct;
    OpenBoth(pos, first, last, r, q, k, i, j);
    if i < j {
      Cut(q, i, j);
      InsertedSegment(r, q, k, i, j);
    } else {
      Merged(r, q, k, i);
    }
  }

  /** What the writes do to the two rings: both are opened, and the ends are joined crosswise. */
  method OpenBoth<T(0)>(pos: Node<T>, first: Node<T>, last: Node<T>,
                        ghost r: seq<Node<T>>, ghost q: seq<Node<T>>, ghost k: nat, ghost i: nat, ghost j: nat)
    requires IsRing(r) && IsRing(q) && Apart(r, q)
    requires 1 <= k <= |r| && pos == RingAt(r, k)
    requires 1 <= i <= j <= |q| && first == RingAt(q, i) && last == RingAt(q, j)
    modifies r, q
    ensures Opened(r, {k}) && Opened(q, {i, j})
    ensures Joined(r[k - 1], first) && Joined(q[j - 1], pos) && (i < j ==> Joined(q[i - 1], last))
    ensures forall n :: n in r || n in q ==> n.val == old(n.val)
  {
    assert pos in r && r[k - 1] in r;
    assert first in q && last in q && q[i - 1] in q && q[j - 1] in q;
    ghost var prev, nodeLast, posPrev := Relink(pos, first, last);
  }

  lemma InsertedSegment<T(0)>(r: seq<Node<T>>, q: seq<Node<T>>, k: nat, i: nat, j: nat)
    requires 1 <= k <= |r| && 1 <= i < j <= |q|
    requires Opened(r, {k}) && Opened(q, {i, j}) && Apart(r, q)
    requires Joined(r[k - 1], q[i]) && Joined(q[j - 1], RingAt(r, k))
    ensures IsRing(r[..k] + q[i..j] + r[k..])
  {
    OpenedPart(q, {i, j}, i, j);
    InsertedRange(r, k, q[i..j]);
  }

  /** The ring that an empty range leaves holds both sentinels and is too long for either list. */
  lemma MergedRing<T(0)>(r: seq<Node<T>>, q: seq<Node<T>>, k: nat, i: nat) returns (m: seq<Node<T>>)
    requires 1 <= k <= |r| && 1 <= i <= |q|
    ensures m == r[..k] + (q[i..] + q[..i]) + r[k..]
    ensures |m| == |r| + |q| && m[0] == r[0] && m[k + |q| - i] == q[0]
  {
    m := r[..k] + (q[i..] + q[..i]) + r[k..];
  }

  lemma GrownAt<X>(was: seq<X>, r: seq<X>, made: seq<X>, x: X, k: nat)
    requires k <= |was| && r == was[..k] + made + was[k..]
    ensures r[..k] + [x] + r[k..] == was[..k] + ([x] + made) + was[k..]
  {
  }

  lemma Rotated<T(0)>(q: seq<Node<T>>, i: nat)
    requires 1 <= i <= |q| && Opened(q, {i, i})
    ensures Chain(q[i..] + q[..i]) && Distinct(q[i..] + q[..i])
    ensures (q[i..] + q[..i])[0] == RingAt(q, i) && (q[i..] + q[..i])[|q| - 1] == q[i - 1]
  {
    var s, d := q[i..] + q[..i], |q| - i;
    assert forall t :: 0 <= t < d ==> s[t] == q[i + t];
    assert forall t :: d <= t < |s| ==> s[t] == q[t - d];
    forall t | 0 <= t < |s| - 1 ensures Joined(s[t], s[t + 1]) {
      if t < d - 1 {
        assert q[i + t].next == q[i + t + 1] && q[i + t + 1].prev == q[i + t];
      } else if d <= t {
        assert q[t - d].next == q[t - d + 1] && q[t - d + 1].prev == q[t - d];
      }
    }
  }

  lemma Merged<T(0)>(r: seq<Node<T>>, q: seq<Node<T>>, k: nat, i: nat)
    requires 1 <= k <= |r| && 1 <= i <= |q|
    requires Opened(r, {k}) && Opened(q, {i, i}) && Apart(r, q)
    requires Joined(r[k - 1], RingAt(q, i)) && Joined(q[i - 1], RingAt(r, k))
    ensures IsRing(r[..k] + (q[i..] + q[..i]) + r[k..])
  {
    Rotated(q, i);
    InsertedRange(r, k, q[i..] + q[..i]);
  }

  /** `pos` does not lie in the range; an empty range lies at `pos` itself. */
  predicate MovesWithin(k: nat, i: nat, j: nat) { if i < j then k < i || j <= k else k == i }

  /** The segment `[i, j)` of `r` moved in front of position `k`. */
  ghost function MovedWithin<X>(r: seq<X>, k: nat, i: nat, j: nat): seq<X>
    requires k <= |r| && i <= j <= |r| && MovesWithin(k, i, j)
  {
    if k < i then Exchange(r, k, i, j) else if j < k then Exchange(r, i, j, k) else r
  }

  /** How the writes join the ends when range and `pos` are in one ring. */
  ghost predicate JoinedWithin<T(0)>(r: seq<Node<T>>, k: nat, i: nat, j: nat)
    reads r
    requires 1 <= k <= |r| && 1 <= i <= j <= |r|
  {
    if k == i < j then r[i - 1].next == r[i] && r[i].prev == r[j - 1]
    else
      && Joined(if k == j then r[i - 1] else r[k - 1], RingAt(r, i)) && Joined(r[j - 1], RingAt(r, k))
      && (i < j && k != j ==> Joined(r[i - 1], RingAt(r, j)))
  }

  method OpenSame<T(0)>(pos: Node<T>, first: Node<T>, last: Node<T>,
                        ghost r: seq<Node<T>>, ghost k: nat, ghost i: nat, ghost j: nat)
    requires IsRing(r) && 1 <= k <= |r| && pos == RingAt(r, k)
    requires 1 <= i <= j <= |r| && first == RingAt(r, i) && last == RingAt(r, j)
    modifies r
    ensures Opened(r, {k, i, j}) && JoinedWithin(r, k, i, j)
    ensures forall n :: n in r ==> n.val == old(n.val)
  {
    assert pos in r && first in r && last in r && r[k - 1] in r && r[i - 1] in r && r[j - 1] in r;
    ghost var prev, nodeLast, posPrev := Relink(pos, first, last);
  }

  lemma RingMoved<T(0)>(r: seq<Node<T>>, k: nat, i: nat, j: nat)
    requires 1 <= k <= |r| && 1 <= i <= j <= |r| && Opened(r, {k, i, j}) && JoinedWithin(r, k, i, j)
    requires MovesWithin(k, i, j)
    ensures var m := MovedWithin(r, k, i, j); IsRing(m) && |m| == |r| && m[0] == r[0]
  {
    hide Opened, Exchange, IsRing;
    if k < i {
      Exchanged(r, k, i, j);
    } else if j < k {
      assert {k, i, j} == {i, j, k};
      Exchanged(r, i, j, k);
    } else {
      assert {k, i, j} == {i, j};
      ClosedAgain(r, i, j);
    }
  }

  lemma ClosedAgain<T(0)>(r: seq<Node<T>>, i: nat, j: nat)
    requires 1 <= i <= j <= |r| && Opened(r, {i, j})
    requires Joined(r[i - 1], RingAt(r, i)) && Joined(r[j - 1], RingAt(r, j))
    ensures IsRing(r)
  {
  }

  /** What is left in the ring of the sentinel; it is shorter than before. */
  lemma RingCut<T(0)>(r: seq<Node<T>>, k: nat, i: nat, j: nat) returns (rest: seq<Node<T>>)
    requires 1 <= k <= |r| && 1 <= i <= j <= |r| && Opened(r, {k, i, j}) && JoinedWithin(r, k, i, j)
    requires !MovesWithin(k, i, j) && k != i
    ensures IsRing(rest) && rest != [] && rest[0] == r[0] && |rest| < |r|
  {
    hide Opened, IsRing;
    var lo, hi := if k < i then k else i, if k < i then i else if i == j then k else j;
    CutOut(r, {k, i, j}, lo, hi);
    rest := r[..lo] + r[hi..];
  }

  lemma LinksMismatch<T(0)>(r: seq<Node<T>>, i: nat, j: nat)
    requires 1 <= i < j <= |r| && Opened(r, {i, i, j}) && JoinedWithin(r, i, i, j)
    ensures r[i].prev != r[i - 1] && forall t :: 0 <= t < i ==> r[t].next == r[t + 1]
  {
  }

  /** A ring that follows `r` up to a node whose `prev` leads elsewhere does not exist. */
  lemma NoSuchRing<T(0)>(q: seq<Node<T>>, r: seq<Node<T>>, i: nat)
    requires q != [] && r != [] && q[0] == r[0] && |q| == |r| && 1 <= i < |r|
    requires r[i].prev != r[i - 1] && forall t :: 0 <= t < i ==> r[t].next == r[t + 1]
    ensures !IsRing(q)
  {
    if IsRing(q) { FollowsNext(q, r, i); }
  }

  lemma {:induction false} FollowsNext<T(0)>(q: seq<Node<T>>, r: seq<Node<T>>, i: nat)
    requires Chain(q) && q != [] && r != [] && q[0] == r[0] && i < |q| && i < |r|
    requires forall t :: 0 <= t < i ==> r[t].next == r[t + 1]
    ensures forall t :: 0 <= t <= i ==> q[t] == r[t]
  {
    if i > 0 {
      FollowsNext(q, r, i - 1);
      assert q[i - 1].next == q[i] && r[i - 1].next == r[i];
    }
  }

  ghost function ValuesOf<T(0)>(s: seq<Node<T>>): (vs: seq<T>)
    reads s
    ensures |vs| == |s| && forall i :: 0 <= i < |s| ==> vs[i] == s[i].val
  {
    seq(|s|, i requires 0 <= i < |s| reads s => s[i].val)
  }
}
