/**
 Splitting a string at a delimiter (include/gpcl/string_utils.hpp): `split`, which searches
 for the next delimiter, and `split_old`, which steps through the input once.
 */
module Split {

  /** `d` stands in `s` at position `p`. */
  predicate Match<C(==)>(s: seq<C>, d: seq<C>, p: nat) {
    p + |d| <= |s| && forall i :: 0 <= i < |d| ==> s[p + i] == d[i]
  }

  /** `std::search`: the first place where `d` stands in `s`, or the end. */
  ghost function Find<C>(s: seq<C>, d: seq<C>): (p: nat)
    ensures p <= |s| && (p < |s| ==> Match(s, d, p))
    ensures forall q: nat :: q < p ==> !Match(s, d, q)
  {
    if s == [] || Match(s, d, 0) then 0
    else
      var p := Find(s[1..], d) + 1;
      MatchInSuffix(s, d, 1);
      p
  }

  /** A match in the rest of a string is a match further on in the string. */
  lemma MatchInSuffix<C>(s: seq<C>, d: seq<C>, k: nat)
    requires k <= |s|
    ensures forall q: nat :: k <= q ==> (Match(s, d, q) <==> Match(s[k..], d, q - k))
  {
    var t := s[k..];
    forall q: nat | k <= q ensures Match(s, d, q) <==> Match(t, d, q - k) {
    }
  }

  /** What `split` is for: cut at the first delimiter, then go on behind it. */
  ghost function Pieces<C>(s: seq<C>, d: seq<C>): (ps: seq<seq<C>>)
    requires d != []
    ensures ps != []
    decreases |s|
  {
    var p := Find(s, d);
    if p == |s| then [s] else [s[..p]] + Pieces(s[p + |d|..], d)
  }

  ghost function Join<C>(ps: seq<seq<C>>, d: seq<C>): seq<C>
    requires ps != []
  {
    if |ps| == 1 then ps[0] else ps[0] + d + Join(ps[1..], d)
  }

  ghost predicate Contains<C>(s: seq<C>, d: seq<C>) { exists p: nat :: Match(s, d, p) }

  /** `p` is what stands in front of the first delimiter of `p + d`. */
  ghost predicate Leads<C>(p: seq<C>, d: seq<C>) { Find(p + d, d) == |p| }

  /** Pieces that splitting can give: no delimiter begins before its time. */
  ghost predicate Clean<C>(ps: seq<seq<C>>, d: seq<C>) {
    && ps != [] && !Contains(ps[|ps| - 1], d)
    && forall i :: 0 <= i < |ps| - 1 ==> Leads(ps[i], d)
  }

  /** The first match is determined by what `Find` promises. */
  lemma FindIs<C>(s: seq<C>, d: seq<C>, p: nat)
    requires d != [] && p <= |s| && (p < |s| ==> Match(s, d, p)) && forall q: nat :: q < p ==> !Match(s, d, q)
    ensures Find(s, d) == p
  {
    var f := Find(s, d);
    assert f < p ==> f < |s|;
  }

  /** A match depends on the characters it covers only. */
  lemma MatchInPrefix<C>(s: seq<C>, t: seq<C>, d: seq<C>, q: nat)
    requires q + |d| <= |s|
    ensures Match(s + t, d, q) <==> Match(s, d, q)
  {
  }

  /** What stands in front of the first delimiter does not depend on what comes after it. */
  lemma LeadsAnywhere<C>(p: seq<C>, d: seq<C>, rest: seq<C>)
    requires d != []
    ensures Find(p + d + rest, d) == |p| <==> Leads(p, d)
  {
    var s := p + d + rest;
    assert Match(s, d, |p|) && Match(p + d, d, |p|);
    forall q: nat | q < |p| ensures Match(s, d, q) <==> Match(p + d, d, q) { MatchInPrefix(p + d, rest, d, q); }
    if Leads(p, d) { FindIs(s, d, |p|); }
    if Find(s, d) == |p| { FindIs(p + d, d, |p|); }
  }

  /** A piece in front of a delimiter does not contain the delimiter. */
  lemma LeadsIsFree<C>(p: seq<C>, d: seq<C>)
    requires d != [] && Leads(p, d)
    ensures !Contains(p, d)
  {
    forall q: nat ensures !Match(p, d, q) {
      if Match(p, d, q) { MatchInPrefix(p, d, d, q); }
    }
  }

  lemma FindNothing<C>(s: seq<C>, d: seq<C>)
    requires d != []
    ensures Find(s, d) == |s| <==> !Contains(s, d)
  {
    if !Contains(s, d) { FindIs(s, d, |s|); }
    if Find(s, d) == |s| {
      forall q: nat ensures !Match(s, d, q) { }
    }
  }

  lemma Around<C>(s: seq<C>, d: seq<C>, p: nat)
    requires Match(s, d, p)
    ensures s == s[..p] + d + s[p + |d|..]
  {
    assert s[p..p + |d|] == d;
  }

  /** Joining the pieces restores the input, and no piece contains the delimiter. */
  lemma {:induction false} JoinOfPieces<C>(s: seq<C>, d: seq<C>)
    requires d != []
    ensures Join(Pieces(s, d), d) == s && Clean(Pieces(s, d), d)
    ensures forall i :: 0 <= i < |Pieces(s, d)| ==> !Contains(Pieces(s, d)[i], d)
    decreases |s|
  {
    hide Find;
    var p, ps := Find(s, d), Pieces(s, d);
    FindNothing(s, d);
    if p < |s| {
      var rest := s[p + |d|..];
      JoinOfPieces(rest, d);
      var qs := Pieces(rest, d);
      Around(s, d, p);
      LeadsAnywhere(s[..p], d, rest);
      LeadsIsFree(s[..p], d);
      assert ps == [s[..p]] + qs && ps[1..] == qs;
      assert forall i :: 0 < i < |ps| ==> ps[i] == qs[i - 1];
    }
  }

  /** Splitting what was joined gives the pieces back just when no delimiter begins too early. */
  lemma {:induction false} PiecesOfJoin<C>(ps: seq<seq<C>>, d: seq<C>)
    requires d != [] && ps != []
    ensures Pieces(Join(ps, d), d) == ps <==> Clean(ps, d)
  {
    if Pieces(Join(ps, d), d) == ps { JoinOfPieces(Join(ps, d), d); }
    if Clean(ps, d) { CleanIsRestored(ps, d); }
  }

  lemma {:induction false} CleanIsRestored<C>(ps: seq<seq<C>>, d: seq<C>)
    requires d != [] && Clean(ps, d)
    ensures Pieces(Join(ps, d), d) == ps
  {
    hide Find, Match;
    var s := Join(ps, d);
    if |ps| == 1 {
      FindNothing(s, d);
    } else {
      var rest := ps[1..];
      assert forall i :: 0 <= i < |rest| ==> rest[i] == ps[i + 1];
      CleanIsRestored(rest, d);
      LeadsAnywhere(ps[0], d, Join(rest, d));
      assert Leads(ps[0], d);
      var p := |ps[0]|;
      assert s[..p] == ps[0] && s[p + |d|..] == Join(rest, d);
      assert ps == [ps[0]] + rest;
    }
  }

  // ----- the two loops -----

  /** A `sub_string`: two positions in the input. */
  datatype Slice = Slice(first: nat, last: nat)

  ghost predicate Within(r: seq<Slice>, n: nat) {
    forall i :: 0 <= i < |r| ==> r[i].first <= r[i].last <= n
  }

  /** The strings that slices stand for. */
  ghost function Texts<C>(s: seq<C>, r: seq<Slice>): (ts: seq<seq<C>>)
    requires Within(r, |s|)
    ensures |ts| == |r| && forall i :: 0 <= i < |r| ==> ts[i] == s[r[i].first..r[i].last]
  {
    seq(|r|, i requires 0 <= i < |r| => s[r[i].first..r[i].last])
  }

  /** Where the pieces of `s` from `first` on lie. */
  ghost function Cuts<C>(s: seq<C>, d: seq<C>, first: nat): (r: seq<Slice>)
    requires d != [] && first <= |s|
    ensures r != [] && Within(r, |s|)
    decreases |s| - first
  {
    var pos := first + Find(s[first..], d);
    if pos == |s| then [Slice(first, |s|)]
    else MatchInSuffix(s, d, first); [Slice(first, pos)] + Cuts(s, d, pos + |d|)
  }

  /** The slices are those of the pieces. */
  lemma {:induction false} CutsArePieces<C>(s: seq<C>, d: seq<C>, first: nat)
    requires d != [] && first <= |s|
    ensures Texts(s, Cuts(s, d, first)) == Pieces(s[first..], d)
    decreases |s| - first
  {
    hide Find, Match, Texts;
    var t := s[first..];
    var p := Find(t, d);
    var pos := first + p;
    FirstCut(s, d, first, pos);
    FirstPiece(t, d);
    if pos == |s| {
      assert Cuts(s, d, first) == [Slice(first, |s|)] && Texts(s, Cuts(s, d, first))[0] == t;
    } else {
      var next := pos + |d|;
      CutsArePieces(s, d, next);
      assert t[..p] == s[first..pos] && t[p + |d|..] == s[next..];
      TextsOfParts(s, Slice(first, pos), Cuts(s, d, next));
    }
  }

  lemma FirstPiece<C>(t: seq<C>, d: seq<C>)
    requires d != []
    ensures var p := Find(t, d);
            && (p == |t| ==> Pieces(t, d) == [t])
            && (p < |t| ==> p + |d| <= |t| && Pieces(t, d) == [t[..p]] + Pieces(t[p + |d|..], d))
  {
    hide Find;
  }

  lemma TextsOfParts<C>(s: seq<C>, a: Slice, r: seq<Slice>)
    requires Within(r, |s|) && a.first <= a.last <= |s|
    ensures Within([a] + r, |s|) && Texts(s, [a] + r) == [s[a.first..a.last]] + Texts(s, r)
  {
  }

  /** What is left when empty slices are skipped. */
  ghost function Kept(r: seq<Slice>, skip: bool): seq<Slice> {
    if r == [] then [] else (if Stays(r[0], skip) then [r[0]] else []) + Kept(r[1..], skip)
  }

  predicate Stays(a: Slice, skip: bool) { !skip || a.first != a.last }

  lemma {:induction false} KeptOfParts(a: seq<Slice>, b: seq<Slice>, skip: bool)
    ensures Kept(a + b, skip) == Kept(a, skip) + Kept(b, skip)
  {
    if a == [] {
      assert a + b == b;
    } else {
      KeptOfParts(a[1..], b, skip);
      assert (a + b)[1..] == a[1..] + b && (a + b)[0] == a[0];
    }
  }

  /** The places in `r`, from `i` on, of the slices that stay. */
  ghost function Places(r: seq<Slice>, skip: bool, i: nat): (at: seq<nat>)
    requires i <= |r|
    ensures forall t :: 0 <= t < |at| ==> i <= at[t] < |r| && Stays(r[at[t]], skip)
    ensures forall t, u :: 0 <= t < u < |at| ==> at[t] < at[u]
    decreases |r| - i
  {
    if i == |r| then [] else (if Stays(r[i], skip) then [i] else []) + Places(r, skip, i + 1)
  }

  lemma {:induction false} PlaceOf(r: seq<Slice>, skip: bool, i: nat, j: nat) returns (t: nat)
    requires i <= j < |r| && Stays(r[j], skip)
    ensures t < |Places(r, skip, i)| && Places(r, skip, i)[t] == j
    decreases j - i
  {
    t := 0;
    if i < j {
      var u := PlaceOf(r, skip, i + 1, j);
      t := if Stays(r[i], skip) then u + 1 else u;
    }
  }

  lemma {:induction false} KeptAt(r: seq<Slice>, skip: bool, i: nat)
    requires i <= |r|
    ensures var k, at := Kept(r[i..], skip), Places(r, skip, i);
            |k| == |at| && forall t :: 0 <= t < |at| ==> k[t] == r[at[t]]
    decreases |r| - i
  {
    if i < |r| {
      KeptAt(r, skip, i + 1);
      assert r[i..][1..] == r[i + 1..];
    }
  }

  /**
   Without skipping all slices are kept.  With it, the kept ones are in their old order, and
   just those that are not empty are there, each once.
   */
  lemma KeptIs(r: seq<Slice>, skip: bool)
    ensures var k, at := Kept(r, skip), Places(r, skip, 0);
            && |k| == |at| && (forall t :: 0 <= t < |at| ==> k[t] == r[at[t]])
            && (forall t, u :: 0 <= t < u < |at| ==> at[t] < at[u])
            && (forall j: nat :: j < |r| ==> (j in at <==> !skip || r[j].first != r[j].last))
    ensures !skip ==> Kept(r, skip) == r
  {
    assert r[0..] == r;
    KeptAt(r, skip, 0);
    forall j: nat | j < |r| && Stays(r[j], skip) ensures j in Places(r, skip, 0) {
      var t := PlaceOf(r, skip, 0, j);
    }
    if !skip { AllAreKept(r); }
  }

  lemma {:induction false} AllAreKept(r: seq<Slice>)
    ensures Kept(r, false) == r
  {
    if r != [] { AllAreKept(r[1..]); }
  }

  /** `rb.add(substr)` unless it is empty and empty ones are skipped. */
  method Add(r: seq<Slice>, first: nat, last: nat, skip: bool) returns (r': seq<Slice>)
    ensures r' == r + Kept([Slice(first, last)], skip)
  {
    r' := r;
    if first != last || !skip {
      assert Stays(Slice(first, last), skip);
      r' := r + [Slice(first, last)];
    }
  }

  lemma FoundFrom<C>(s: seq<C>, d: seq<C>, first: nat, pos: nat)
    requires d != [] && first <= pos <= |s| && (pos < |s| ==> Match(s, d, pos))
    requires forall q: nat :: first <= q < pos ==> !Match(s, d, q)
    ensures Find(s[first..], d) == pos - first
  {
    hide Match, Find;
    var t := s[first..];
    MatchInSuffix(s, d, first);
    forall q: nat | q < pos - first ensures !Match(t, d, q) { assert !Match(s, d, first + q); }
    FindIs(t, d, pos - first);
  }

  /** `std::search` from `first` on. */
  method Search<C(==)>(s: seq<C>, first: nat, d: seq<C>) returns (pos: nat)
    requires first <= |s| && d != []
    ensures first <= pos <= |s| && pos - first == Find(s[first..], d)
  {
    hide Match, Find;
    pos := first;
    while pos < |s|
      invariant first <= pos <= |s| && forall q: nat :: first <= q < pos ==> !Match(s, d, q)
    {
      if Match(s, d, pos) { break; }
      pos := pos + 1;
    }
    FoundFrom(s, d, first, pos);
  }

  /** What the loops keep: the slices found and those of the rest are those of the input. */
  ghost predicate Halfway<C>(s: seq<C>, d: seq<C>, skip: bool, r: seq<Slice>, first: nat)
    requires d != [] && first <= |s|
  {
    r + Kept(Cuts(s, d, first), skip) == Kept(Cuts(s, d, 0), skip)
  }

  lemma NextPiece<C>(s: seq<C>, d: seq<C>, skip: bool, r: seq<Slice>, first: nat, pos: nat)
    requires d != [] && first <= pos <= |s| && Halfway(s, d, skip, r, first) && pos - first == Find(s[first..], d)
    ensures var r' := r + Kept([Slice(first, pos)], skip);
            && (pos == |s| ==> r' == Kept(Cuts(s, d, 0), skip))
            && (pos < |s| ==> pos + |d| <= |s| && Halfway(s, d, skip, r', pos + |d|))
  {
    hide Kept, Cuts, Find, Match;
    FirstCut(s, d, first, pos);
    if pos < |s| {
      var rest := Cuts(s, d, pos + |d|);
      KeptOfParts([Slice(first, pos)], rest, skip);
      Regrouped(r, Kept([Slice(first, pos)], skip), Kept(rest, skip));
    }
  }

  lemma FirstCut<C>(s: seq<C>, d: seq<C>, first: nat, pos: nat)
    requires d != [] && first <= pos <= |s| && pos - first == Find(s[first..], d)
    ensures pos == |s| ==> Cuts(s, d, first) == [Slice(first, pos)]
    ensures pos < |s| ==> pos + |d| <= |s| && Cuts(s, d, first) == [Slice(first, pos)] + Cuts(s, d, pos + |d|)
  {
    hide Find;
    MatchInSuffix(s, d, first);
  }

  lemma Regrouped<X>(a: seq<X>, b: seq<X>, c: seq<X>)
    ensures a + (b + c) == a + b + c
  {
  }

  method SplitNew<C(==)>(s: seq<C>, d: seq<C>, skip: bool) returns (r: seq<Slice>)
    requires d != []
    ensures r == Kept(Cuts(s, d, 0), skip)
  {
    hide Kept, Cuts, Find, Match;
    var first := 0;
    r := [];
    assert Halfway(s, d, skip, r, first);
    while true
      invariant first <= |s| && Halfway(s, d, skip, r, first)
      decreases |s| - first
    {
      var pos := Search(s, first, d);
      NextPiece(s, d, skip, r, first, pos);
      r := Add(r, first, pos, skip);
      if pos == |s| { break; }
      first := pos + |d|;
    }
  }

  lemma TooShort<C>(s: seq<C>, d: seq<C>, start: nat, first: nat)
    requires d != [] && start <= first <= |s| && |s| - first < |d|
    requires forall q: nat :: start <= q < first ==> !Match(s, d, q)
    ensures Find(s[start..], d) == |s| - start
  {
    FoundFrom(s, d, start, |s|);
  }

  /** The same slices by another loop. */
  method SplitOld<C(==)>(s: seq<C>, d: seq<C>, skip: bool) returns (r: seq<Slice>)
    requires d != []
    ensures r == Kept(Cuts(s, d, 0), skip)
  {
    hide Kept, Cuts, Find, Match;
    var first, start, left := 0, 0, |s|;
    r := [];
    assert Halfway(s, d, skip, r, start);
    while left >= |d|
      invariant 0 <= start <= first <= |s| && left == |s| - first
      invariant Halfway(s, d, skip, r, start)
      invariant forall q: nat :: start <= q < first ==> !Match(s, d, q)
    {
      if Match(s, d, first) {
        FoundFrom(s, d, start, first);
        NextPiece(s, d, skip, r, start, first);
        r := Add(r, start, first, skip);
        first := first + |d|;
        start := first;
        left := left - |d|;
        continue;
      }
      first := first + 1;
      left := left - 1;
    }
    TooShort(s, d, start, first);
    NextPiece(s, d, skip, r, start, |s|);
    r := Add(r, start, |s|, skip);
  }
}
