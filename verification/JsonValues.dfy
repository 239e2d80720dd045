/**
 JSON values as the library stores them (include/gpcl/json.hpp): an object is a
 `std::map`, here the sequence of its members in key order.
 */
module JsonValues {
  import opened Basics

  datatype Json =
    | Null
    | Bool(b: bool)
    | Int(n: int)
    | Real(lexeme: string)  // a parsed real; its numeric value is not modelled
    | Str(s: string)
    | Arr(items: seq<Json>)
    | Obj(members: seq<Member>)

  datatype Member = Member(key: string, value: Json)

  const INT_MIN := -0x8000_0000_0000_0000
  const INT_MAX := 0x7fff_ffff_ffff_ffff

  /** Lexicographic order of strings, as `std::less<std::string>`. */
  predicate Less(a: string, b: string) {
    b != [] && (a == [] || a[0] < b[0] || (a[0] == b[0] && Less(a[1..], b[1..])))
  }

  lemma {:induction false} LessIsTransitive(a: string, b: string, c: string)
    requires Less(a, b) && Less(b, c)
    ensures Less(a, c)
  {
    if a != [] && a[0] == b[0] == c[0] {
      LessIsTransitive(a[1..], b[1..], c[1..]);
    }
  }

  lemma {:induction false} LessIsIrreflexive(a: string)
    ensures !Less(a, a)
  {
    if a != [] {
      LessIsIrreflexive(a[1..]);
    }
  }

  /** The first place where the strings differ decides; a proper prefix comes first. */
  lemma {:induction false} LessIsLexicographic(a: string, b: string)
    ensures Less(a, b) <==>
      exists k: nat :: k <= |a| && k < |b| && a[..k] == b[..k] && (k == |a| || a[k] < b[k])
  {
    if Less(a, b) {
      var k := FirstDifference(a, b);
      assert k <= |a| && k < |b| && a[..k] == b[..k] && (k == |a| || a[k] < b[k]);
    }
    if k: nat :| k <= |a| && k < |b| && a[..k] == b[..k] && (k == |a| || a[k] < b[k]) {
      DifferenceDecides(a, b, k);
    }
  }

  lemma {:induction false} FirstDifference(a: string, b: string) returns (k: nat)
    requires Less(a, b)
    ensures k <= |a| && k < |b| && a[..k] == b[..k] && (k == |a| || a[k] < b[k])
  {
    k := 0;
    if a != [] && a[0] == b[0] {
      k := FirstDifference(a[1..], b[1..]);
      assert a[..k + 1] == [a[0]] + a[1..][..k] && b[..k + 1] == [b[0]] + b[1..][..k];
      k := k + 1;
    }
  }

  lemma {:induction false} DifferenceDecides(a: string, b: string, k: nat)
    requires k <= |a| && k < |b| && a[..k] == b[..k] && (k == |a| || a[k] < b[k])
    ensures Less(a, b)
  {
    if k > 0 {
      assert a[0] == a[..k][0] == b[..k][0] == b[0];
      assert a[1..][..k - 1] == a[..k][1..] && b[1..][..k - 1] == b[..k][1..];
      DifferenceDecides(a[1..], b[1..], k - 1);
    }
  }

  lemma {:induction false} LessIsTotal(a: string, b: string)
    requires a != b
    ensures Less(a, b) || Less(b, a)
  {
    if a != [] && b != [] && a[0] == b[0] {
      assert a == [a[0]] + a[1..] && b == [b[0]] + b[1..];
      LessIsTotal(a[1..], b[1..]);
    }
  }

  /** The keys of a map: each below all that follow. */
  ghost predicate Ascending(ms: seq<Member>) {
    forall i, j :: 0 <= i < j < |ms| ==> Less(ms[i].key, ms[j].key)
  }

  /** `std::map::insert`: a key that is already there keeps its old value. */
  function Insert(ms: seq<Member>, m: Member): seq<Member> {
    if ms == [] then [m]
    else if Less(m.key, ms[0].key) then [m] + ms
    else if Less(ms[0].key, m.key) then [ms[0]] + Insert(ms[1..], m)
    else ms
  }

  lemma {:induction false} InsertAtEnd(ms: seq<Member>, m: Member)
    requires Ascending(ms + [m])
    ensures Insert(ms, m) == ms + [m]
  {
    if ms != [] {
      assert (ms + [m])[0] == ms[0] && (ms + [m])[|ms|] == m;
      if Less(m.key, ms[0].key) {
        LessIsTransitive(m.key, ms[0].key, m.key);
        LessIsIrreflexive(m.key);
        assert false;
      }
      assert (ms + [m])[1..] == ms[1..] + [m];
      assert Ascending(ms[1..] + [m]) by {
        forall i, j | 0 <= i < j < |ms| ensures Less((ms[1..] + [m])[i].key, (ms[1..] + [m])[j].key) {
          assert (ms[1..] + [m])[i] == (ms + [m])[i + 1] && (ms[1..] + [m])[j] == (ms + [m])[j + 1];
        }
      }
      InsertAtEnd(ms[1..], m);
    }
  }

  /** The value under a key. */
  ghost function Find(ms: seq<Member>, k: string): Option<Json> {
    if ms == [] then None else if ms[0].key == k then Some(ms[0].value) else Find(ms[1..], k)
  }

  lemma {:induction false} FindIn(ms: seq<Member>, k: string)
    ensures Find(ms, k).Some? ==> Member(k, Find(ms, k).value) in ms
    ensures Find(ms, k).None? <==> forall m :: m in ms ==> m.key != k
  {
    if ms != [] {
      FindIn(ms[1..], k);
      assert ms == [ms[0]] + ms[1..];
    }
  }

  lemma AscendingTail(ms: seq<Member>)
    requires Ascending(ms) && ms != []
    ensures Ascending(ms[1..]) && forall m :: m in ms[1..] ==> Less(ms[0].key, m.key) && m.key != ms[0].key
  {
    forall m | m in ms[1..] ensures Less(ms[0].key, m.key) && m.key != ms[0].key {
      var i :| 0 <= i < |ms[1..]| && ms[1..][i] == m;
      assert ms[i + 1] == m;
      LessIsIrreflexive(m.key);
    }
  }

  /** What is found under the key of `m` once it was inserted: the old value if there was one. */
  ghost function Found(ms: seq<Member>, m: Member): Json {
    if Find(ms, m.key).Some? then Find(ms, m.key).value else m.value
  }

  /** What `insert` does to a map: the new member is there if its key was not, all others stay. */
  lemma {:induction false} InsertIs(ms: seq<Member>, m: Member)
    requires Ascending(ms)
    ensures Ascending(Insert(ms, m))
    ensures forall x :: x in ms ==> x in Insert(ms, m)
    ensures forall x :: x in Insert(ms, m) ==> x in ms || x == m
    ensures Find(ms, m.key).None? ==> m in Insert(ms, m)
    ensures Find(ms, m.key).Some? ==> Insert(ms, m) == ms
    ensures forall k :: Find(Insert(ms, m), k) == if k == m.key then Some(Found(ms, m)) else Find(ms, k)
  {
    if ms != [] {
      AscendingTail(ms);
      assert ms == [ms[0]] + ms[1..];
      if Less(m.key, ms[0].key) {
        InsertInFront(ms, m);
      } else if Less(ms[0].key, m.key) {
        InsertIs(ms[1..], m);
        InsertBehind(ms, m, Insert(ms[1..], m));
      } else {
        if m.key != ms[0].key { LessIsTotal(m.key, ms[0].key); }
      }
    }
  }

  lemma InsertInFront(ms: seq<Member>, m: Member)
    requires Ascending(ms) && ms != [] && Less(m.key, ms[0].key)
    ensures Ascending([m] + ms) && Find(ms, m.key).None?
  {
    var r := [m] + ms;
    forall i, j | 0 <= i < j < |r| ensures Less(r[i].key, r[j].key) {
      if i == 0 && j > 1 { LessIsTransitive(m.key, ms[0].key, ms[j - 1].key); }
    }
    LessIsIrreflexive(m.key);
    forall x | x in ms ensures x.key != m.key {
      var i :| 0 <= i < |ms| && ms[i] == x;
      assert Less(r[0].key, r[i + 1].key);
    }
    FindIn(ms, m.key);
  }

  lemma InsertBehind(ms: seq<Member>, m: Member, rest: seq<Member>)
    requires Ascending(ms) && ms != [] && Less(ms[0].key, m.key) && Ascending(rest)
    requires forall x :: x in rest ==> x in ms[1..] || x == m
    ensures Ascending([ms[0]] + rest) && ms[0].key != m.key
  {
    AscendingTail(ms);
    LessIsIrreflexive(m.key);
    var r := [ms[0]] + rest;
    forall i, j | 0 <= i < j < |r| ensures Less(r[i].key, r[j].key) {
      if i == 0 { assert rest[j - 1] in rest; }
    }
  }

  /** A map is determined by what is found under each key. */
  lemma {:induction false} MapsAreEqual(a: seq<Member>, b: seq<Member>)
    requires Ascending(a) && Ascending(b) && forall k :: Find(a, k) == Find(b, k)
    ensures a == b
  {
    assert a != [] ==> Find(a, a[0].key).Some?;
    assert b != [] ==> Find(b, b[0].key).Some?;
    if a != [] && b != [] {
      SameFirst(a, b);
      AscendingTail(a);
      AscendingTail(b);
      forall k ensures Find(a[1..], k) == Find(b[1..], k) {
        FindIn(a[1..], k);
        FindIn(b[1..], k);
        assert Find(a, k) == Find(b, k);
      }
      MapsAreEqual(a[1..], b[1..]);
      assert a == [a[0]] + a[1..] && b == [b[0]] + b[1..];
    }
  }

  lemma FirstIsLeast(ms: seq<Member>, k: string)
    requires Ascending(ms) && ms != [] && Find(ms, k).Some? && k != ms[0].key
    ensures Less(ms[0].key, k)
  {
    AscendingTail(ms);
    FindIn(ms[1..], k);
  }

  lemma SameFirst(a: seq<Member>, b: seq<Member>)
    requires Ascending(a) && Ascending(b) && a != [] && b != [] && forall k :: Find(a, k) == Find(b, k)
    ensures a[0] == b[0]
  {
    hide Ascending;
    assert Find(a, a[0].key) == Some(a[0].value) && Find(b, b[0].key) == Some(b[0].value);
    if a[0].key != b[0].key {
      FirstIsLeast(a, b[0].key);
      FirstIsLeast(b, a[0].key);
      LessIsTransitive(a[0].key, b[0].key, a[0].key);
      LessIsIrreflexive(a[0].key);
      assert false;
    }
  }

  /** What every value of the C++ type satisfies: 64-bit integers and ordered, unique keys. */
  ghost predicate WellFormed(v: Json)
    decreases v
  {
    match v
    case Int(n) => INT_MIN <= n <= INT_MAX
    case Arr(items) => forall i :: 0 <= i < |items| ==> WellFormed(items[i])
    case Obj(ms) => Ascending(ms) && forall i :: 0 <= i < |ms| ==> WellFormed(ms[i].value)
    case _ => true
  }

  predicate NoReals(v: Json)
    decreases v
  {
    match v
    case Real(_) => false
    case Arr(items) => forall i :: 0 <= i < |items| ==> NoReals(items[i])
    case Obj(ms) => forall i :: 0 <= i < |ms| ==> NoReals(ms[i].value)
    case _ => true
  }
}
