/**
 What a stable sort is, apart from any algorithm.

 A rearrangement of a sequence of keys is a sequence `p` of indices: the element now at
 position `t` is the one that was at `p[t]`.  Keys are compared with the caller's `less`.
 */
module StableSort {

  /** `less` is a strict weak order on the keys at hand. */
  ghost predicate StrictWeakOrder<T>(keys: seq<T>, less: (T, T) -> bool) {
    && (forall a :: a in keys ==> !less(a, a))
    && (forall a, b, c :: a in keys && b in keys && c in keys ==>
          && (less(a, b) && less(b, c) ==> less(a, c))
          && (less(a, b) ==> less(a, c) || less(c, b)))
  }

  ghost predicate Bounded(p: seq<nat>, n: nat) {
    forall t :: 0 <= t < |p| ==> p[t] < n
  }

  ghost function Identity(n: nat): (p: seq<nat>)
    ensures |p| == n && forall i :: 0 <= i < n ==> p[i] == i
  {
    seq(n, i => i)
  }

  /** Element `i` belongs in front of element `j`: it is less, or it ties and came first. */
  ghost predicate Precedes<T>(i: nat, j: nat, keys: seq<T>, less: (T, T) -> bool)
    requires i < |keys| && j < |keys|
  {
    !less(keys[j], keys[i]) && (less(keys[i], keys[j]) || i < j)
  }

  ghost predicate InOrder<T>(p: seq<nat>, keys: seq<T>, less: (T, T) -> bool)
    requires Bounded(p, |keys|)
  {
    forall a, b :: 0 <= a < b < |p| ==> Precedes(p[a], p[b], keys, less)
  }

  /** `p` is a permutation that sorts the keys and leaves ties in their old order. */
  ghost predicate IsStableSort<T>(p: seq<nat>, keys: seq<T>, less: (T, T) -> bool) {
    && multiset(p) == multiset(Identity(|keys|))
    && Bounded(p, |keys|)
    && InOrder(p, keys, less)
  }

  lemma FirstOfAll<T>(p: seq<nat>, q: seq<nat>, keys: seq<T>, less: (T, T) -> bool)
    requires StrictWeakOrder(keys, less)
    requires p != [] && multiset(p) == multiset(q)
    requires Bounded(p, |keys|) && Bounded(q, |keys|)
    requires InOrder(p, keys, less) && InOrder(q, keys, less)
    ensures q != [] && p[0] == q[0]
  {
    assert p[0] in multiset(p);
    assert q[0] in multiset(q);
    var i :| 0 <= i < |p| && p[i] == q[0];
    var j :| 0 <= j < |q| && q[j] == p[0];
  }

  lemma TailOf(p: seq<nat>)
    requires p != []
    ensures p == [p[0]] + p[1..] && multiset(p[1..]) == multiset(p) - multiset{p[0]}
  {
    assert p == [p[0]] + p[1..];
  }

  lemma TailInOrder<T>(p: seq<nat>, keys: seq<T>, less: (T, T) -> bool)
    requires p != [] && Bounded(p, |keys|) && InOrder(p, keys, less)
    ensures Bounded(p[1..], |keys|) && InOrder(p[1..], keys, less)
  {
  }

  /** Two arrangements of the same elements that are both in order are the same. */
  lemma {:induction false} OneOrder<T>(p: seq<nat>, q: seq<nat>, keys: seq<T>, less: (T, T) -> bool)
    requires StrictWeakOrder(keys, less)
    requires multiset(p) == multiset(q)
    requires Bounded(p, |keys|) && Bounded(q, |keys|)
    requires InOrder(p, keys, less) && InOrder(q, keys, less)
    ensures p == q
    decreases |p|
  {
    hide StrictWeakOrder, InOrder;
    if p == [] {
      assert |multiset(q)| == |q|;
    } else {
      FirstOfAll(p, q, keys, less);
      TailOf(p);
      TailOf(q);
      TailInOrder(p, keys, less);
      TailInOrder(q, keys, less);
      OneOrder(p[1..], q[1..], keys, less);
    }
  }

  // ----- the reference: insertion, from the right -----

  /** Index `i` put in front of the first element of `p` whose key is not less. */
  ghost function Insert<T>(i: nat, p: seq<nat>, keys: seq<T>, less: (T, T) -> bool): (r: seq<nat>)
    requires i < |keys| && Bounded(p, |keys|)
    ensures multiset(r) == multiset(p) + multiset{i}
    ensures Bounded(r, |keys|)
  {
    if p == [] || !less(keys[p[0]], keys[i]) then [i] + p
    else
      assert p == [p[0]] + p[1..];
      [p[0]] + Insert(i, p[1..], keys, less)
  }

  /** The insertion sort of the elements from `from` on. */
  ghost function SortFrom<T>(from: nat, keys: seq<T>, less: (T, T) -> bool): (p: seq<nat>)
    requires from <= |keys|
    ensures Bounded(p, |keys|)
    decreases |keys| - from
  {
    if from == |keys| then [] else Insert(from, SortFrom(from + 1, keys, less), keys, less)
  }

  lemma {:induction false} InsertKeepsOrder<T>(i: nat, p: seq<nat>, keys: seq<T>, less: (T, T) -> bool)
    requires StrictWeakOrder(keys, less)
    requires i < |keys| && Bounded(p, |keys|)
    requires forall t :: 0 <= t < |p| ==> i < p[t]
    requires InOrder(p, keys, less)
    ensures InOrder(Insert(i, p, keys, less), keys, less)
  {
    if p == [] {
    } else if !less(keys[p[0]], keys[i]) {
      InFrontOfAll(i, p, keys, less);
    } else {
      var rest := Insert(i, p[1..], keys, less);
      InsertKeepsOrder(i, p[1..], keys, less);
      forall t | 0 <= t < |rest| ensures rest[t] == i || rest[t] in p[1..] {
        assert rest[t] in multiset(rest);
      }
      BehindTheFirst(i, p, rest, keys, less);
    }
  }

  lemma InFrontOfAll<T>(i: nat, p: seq<nat>, keys: seq<T>, less: (T, T) -> bool)
    requires StrictWeakOrder(keys, less)
    requires i < |keys| && Bounded(p, |keys|) && (forall t :: 0 <= t < |p| ==> i < p[t])
    requires InOrder(p, keys, less) && p != [] && !less(keys[p[0]], keys[i])
    ensures Bounded([i] + p, |keys|) && InOrder([i] + p, keys, less)
  {
    var r := [i] + p;
    forall a, b | 0 <= a < b < |r| ensures Precedes(r[a], r[b], keys, less) {
      if a == 0 && b > 1 {
        assert Precedes(p[0], p[b - 1], keys, less);
      } else if a > 0 {
        assert r[a] == p[a - 1] && r[b] == p[b - 1];
      }
    }
  }

  lemma BehindTheFirst<T>(i: nat, p: seq<nat>, rest: seq<nat>, keys: seq<T>, less: (T, T) -> bool)
    requires StrictWeakOrder(keys, less) && i < |keys| && Bounded(p, |keys|) && InOrder(p, keys, less)
    requires p != [] && less(keys[p[0]], keys[i])
    requires Bounded(rest, |keys|) && InOrder(rest, keys, less)
    requires forall t :: 0 <= t < |rest| ==> rest[t] == i || rest[t] in p[1..]
    ensures Bounded([p[0]] + rest, |keys|) && InOrder([p[0]] + rest, keys, less)
  {
    var r := [p[0]] + rest;
    forall a, b | 0 <= a < b < |r| ensures Precedes(r[a], r[b], keys, less) {
      if a > 0 {
        assert r[a] == rest[a - 1] && r[b] == rest[b - 1];
      } else if rest[b - 1] != i {
        var t :| 0 <= t < |p[1..]| && p[1..][t] == rest[b - 1];
        assert Precedes(p[0], p[t + 1], keys, less);
      }
    }
  }

  lemma {:induction false} SortFromSorts<T>(from: nat, keys: seq<T>, less: (T, T) -> bool)
    requires StrictWeakOrder(keys, less) && from <= |keys|
    ensures InOrder(SortFrom(from, keys, less), keys, less)
    ensures multiset(SortFrom(from, keys, less)) == multiset(Identity(|keys|)[from..])
    decreases |keys| - from
  {
    hide StrictWeakOrder, InOrder, Insert;
    if from < |keys| {
      var rest := SortFrom(from + 1, keys, less);
      SortFromSorts(from + 1, keys, less);
      AllAbove(rest, |keys|, from);
      InsertKeepsOrder(from, rest, keys, less);
    } else {
      assert Identity(|keys|)[from..] == [];
      NothingInOrder(keys, less);
    }
  }

  lemma NothingInOrder<T>(keys: seq<T>, less: (T, T) -> bool)
    ensures InOrder([], keys, less)
  {
  }

  /** A rearrangement of the indices above `from`. */
  lemma AllAbove(rest: seq<nat>, n: nat, from: nat)
    requires from < n && multiset(rest) == multiset(Identity(n)[from + 1..])
    ensures forall t :: 0 <= t < |rest| ==> from < rest[t]
    ensures multiset(Identity(n)[from..]) == multiset(rest) + multiset{from}
  {
    var above := Identity(n)[from + 1..];
    assert Identity(n)[from..] == [from] + above;
    forall t | 0 <= t < |rest| ensures from < rest[t] {
      assert rest[t] in multiset(rest);
      assert rest[t] in above;
    }
  }

  /** Insertion sort is a stable sort, and the only one: the predicate pins down the result. */
  lemma StableSortIsInsertionSort<T>(p: seq<nat>, keys: seq<T>, less: (T, T) -> bool)
    requires StrictWeakOrder(keys, less)
    ensures IsStableSort(p, keys, less) <==> p == SortFrom(0, keys, less)
  {
    SortFromSorts(0, keys, less);
    assert Identity(|keys|)[0..] == Identity(|keys|);
    if IsStableSort(p, keys, less) {
      OneOrder(p, SortFrom(0, keys, less), keys, less);
    }
  }

  // ----- the moves that list::sort makes -----

  /** The element at `q` moved in front of the one at `p`. */
  ghost function Pull<X>(s: seq<X>, p: nat, q: nat): (r: seq<X>)
    requires p <= q < |s|
    ensures |r| == |s| && r[p] == s[q]
    ensures forall t :: 0 <= t < p || q < t < |s| ==> r[t] == s[t]
    ensures forall t :: p < t <= q ==> r[t] == s[t - 1]
    ensures multiset(r) == multiset(s)
  {
    assert s == s[..p] + s[p..q] + [s[q]] + s[q + 1..];
    s[..p] + [s[q]] + s[p..q] + s[q + 1..]
  }

  /**
   What holds when the scan of `sort` has its slot at `p` and looks at `q`: no tie has
   changed places, nothing in front of `p` is greater than anything behind it, and the
   slot holds a least element of those seen.
   */
  ghost predicate Scanning<T>(s: seq<nat>, keys: seq<T>, less: (T, T) -> bool, p: nat, q: nat)
    requires Bounded(s, |keys|)
  {
    && (forall a, b :: 0 <= a < b < |s| ==> less(keys[s[a]], keys[s[b]]) || s[a] < s[b])
    && (forall a, b :: 0 <= a < b < |s| && a < p ==> !less(keys[s[b]], keys[s[a]]))
    && (forall b :: p < b < q && b < |s| ==> !less(keys[s[b]], keys[s[p]]))
  }

  lemma SkipKeepsScanning<T>(s: seq<nat>, keys: seq<T>, less: (T, T) -> bool, p: nat, q: nat)
    requires Bounded(s, |keys|) && p < q < |s| && Scanning(s, keys, less, p, q)
    requires !less(keys[s[q]], keys[s[p]])
    ensures Scanning(s, keys, less, p, q + 1)
  {
  }

  lemma ScannedToTheEnd<T>(s: seq<nat>, keys: seq<T>, less: (T, T) -> bool, p: nat)
    requires Bounded(s, |keys|) && p < |s| && Scanning(s, keys, less, p, |s|)
    ensures Scanning(s, keys, less, p + 1, p + 2)
  {
  }

  lemma ScanFromTheStart<T>(keys: seq<T>, less: (T, T) -> bool)
    ensures Scanning(Identity(|keys|), keys, less, 0, 1)
  {
  }

  lemma ScannedAll<T>(s: seq<nat>, keys: seq<T>, less: (T, T) -> bool, p: nat)
    requires Bounded(s, |keys|) && |s| <= p && Scanning(s, keys, less, p, p + 1)
    ensures InOrder(s, keys, less)
  {
  }

  lemma PullKeepsScanning<T>(s: seq<nat>, keys: seq<T>, less: (T, T) -> bool, p: nat, q: nat)
    requires StrictWeakOrder(keys, less) && Bounded(s, |keys|)
    requires p < q < |s| && Scanning(s, keys, less, p, q)
    requires less(keys[s[q]], keys[s[p]])
    ensures Bounded(Pull(s, p, q), |keys|)
    ensures Scanning(Pull(s, p, q), keys, less, p, q + 1)
  {
    var r := Pull(s, p, q);
    forall b | p <= b < q ensures less(keys[s[q]], keys[s[b]]) {
      assert keys[s[b]] in keys && keys[s[p]] in keys && keys[s[q]] in keys;
      assert b == p || !less(keys[s[b]], keys[s[p]]);
    }
    forall a, b | 0 <= a < b < |r|
      ensures less(keys[r[a]], keys[r[b]]) || r[a] < r[b]
      ensures a < p ==> !less(keys[r[b]], keys[r[a]])
    {
    }
    forall b | p < b < q + 1 ensures !less(keys[r[b]], keys[r[p]]) {
      assert less(keys[s[q]], keys[s[b - 1]]);
      assert keys[s[b - 1]] in keys && keys[s[q]] in keys;
    }
  }
}
