/**
 Durations (include/gpcl/time.hpp): seconds in 64 bits and nanoseconds below a second, with
 the wrap-around of unsigned arithmetic.
 */
module Durations {

  const U64 := 0x1_0000_0000_0000_0000
  const GIGA := 1_000_000_000

  datatype Duration = Duration(secs: nat, nanos: nat)

  datatype Result = Ok(value: Duration) | Overflow

  /** Both fields are in range, as the constructor asserts. */
  predicate Valid(d: Duration) { d.secs < U64 && d.nanos < GIGA }

  const ZERO := Duration(0, 0)
  const MAX := Duration(U64 - 1, GIGA - 1)

  /** The length in nanoseconds, unbounded. */
  ghost function Length(d: Duration): nat { d.secs * GIGA + d.nanos }

  ghost predicate Representable(total: nat) { total < U64 * GIGA }

  /** `operator<`. */
  predicate Less(a: Duration, b: Duration) { a.secs < b.secs || (a.secs == b.secs && a.nanos < b.nanos) }

  /** Unsigned addition. */
  function Add64(x: nat, y: nat): (r: nat)
    requires x < U64 && y < U64
    ensures r == if x + y < U64 then x + y else x + y - U64
  {
    (x + y) % U64
  }

  /** The whole seconds in the sum of two nanoseconds fields, and the rest. */
  function Carry(nanos: nat): (r: (nat, nat))
    requires nanos < 2 * GIGA
    ensures r == if nanos < GIGA then (0, nanos) else (1, nanos - GIGA)
  {
    (nanos / GIGA, nanos % GIGA)
  }

  /** `checked_add`: the carry is added after the seconds. */
  function CheckedAdd(a: Duration, b: Duration): (r: Result)
    requires Valid(a) && Valid(b)
    ensures r.Ok? ==> Valid(r.value)
  {
    var (carry, nanos) := Carry(a.nanos + b.nanos);
    var secs := Add64(Add64(a.secs, b.secs), carry);
    if secs < a.secs || secs < b.secs then Overflow else Ok(Duration(secs, nanos))
  }

  /** `saturating_add`: the carry is added before the seconds. */
  function SaturatingAdd(a: Duration, b: Duration): (r: Duration)
    requires Valid(a) && Valid(b)
    ensures Valid(r)
  {
    var (carry, nanos) := Carry(a.nanos + b.nanos);
    var secs := Add64(Add64(carry, a.secs), b.secs);
    if secs < a.secs || secs < b.secs then MAX else Duration(secs, nanos)
  }

  function Difference(a: Duration, b: Duration): (r: Duration)
    requires Valid(a) && Valid(b) && !Less(a, b)
    ensures Valid(r)
  {
    if a.nanos < b.nanos then Duration(a.secs - b.secs - 1, GIGA + a.nanos - b.nanos)
    else Duration(a.secs - b.secs, a.nanos - b.nanos)
  }

  function CheckedSub(a: Duration, b: Duration): (r: Result)
    requires Valid(a) && Valid(b)
    ensures r.Ok? ==> Valid(r.value)
  {
    if Less(a, b) then Overflow else Ok(Difference(a, b))
  }

  function SaturatingSub(a: Duration, b: Duration): (r: Duration)
    requires Valid(a) && Valid(b)
    ensures Valid(r)
  {
    if Less(a, b) then ZERO else Difference(a, b)
  }

  /** The one family of sums whose overflow goes unnoticed. */
  predicate SlipsThrough(a: Duration, b: Duration) {
    a.secs == U64 - 1 && b.secs == U64 - 1 && a.nanos + b.nanos >= GIGA
  }

  /** `operator<` is the order of the lengths, and equal lengths are equal durations. */
  lemma OrderOfLengths(a: Duration, b: Duration)
    requires Valid(a) && Valid(b)
    ensures Less(a, b) <==> Length(a) < Length(b)
    ensures a == b <==> Length(a) == Length(b)
  {
  }

  lemma ValidIsRepresentable(d: Duration)
    requires Valid(d)
    ensures Representable(Length(d)) && Length(d) <= Length(MAX)
  {
  }

  /** A sum is exact when it can be represented, and an overflow otherwise, with one exception. */
  lemma AddIsExact(a: Duration, b: Duration)
    requires Valid(a) && Valid(b)
    ensures Representable(Length(a) + Length(b)) ==>
      CheckedAdd(a, b).Ok? && Length(CheckedAdd(a, b).value) == Length(a) + Length(b)
    ensures !Representable(Length(a) + Length(b)) ==> (CheckedAdd(a, b).Overflow? <==> !SlipsThrough(a, b))
    ensures SlipsThrough(a, b) ==> CheckedAdd(a, b) == Ok(Duration(U64 - 1, a.nanos + b.nanos - GIGA))
  {
    hide Add64, Carry;
  }

  /** The saturating sum is the checked one, with the largest duration for an overflow. */
  lemma SaturatingAddIsCheckedAdd(a: Duration, b: Duration)
    requires Valid(a) && Valid(b)
    ensures SaturatingAdd(a, b) == match CheckedAdd(a, b) case Ok(d) => d case Overflow => MAX
  {
    hide Add64, Carry;
  }

  /** The difference is exact, or there is none. */
  lemma SubIsExact(a: Duration, b: Duration)
    requires Valid(a) && Valid(b)
    ensures CheckedSub(a, b).Ok? <==> Length(b) <= Length(a)
    ensures CheckedSub(a, b).Ok? ==> Length(CheckedSub(a, b).value) == Length(a) - Length(b)
    ensures Length(SaturatingSub(a, b)) == if Length(b) <= Length(a) then Length(a) - Length(b) else 0
  {
    OrderOfLengths(a, b);
  }

  /** Subtracting what was added gives the first summand back, except where the sum slipped through. */
  lemma SubUndoesAdd(a: Duration, b: Duration)
    requires Valid(a) && Valid(b) && CheckedAdd(a, b).Ok?
    ensures CheckedSub(CheckedAdd(a, b).value, b) == Ok(a) <==> !SlipsThrough(a, b)
  {
    var c := CheckedAdd(a, b).value;
    AddIsExact(a, b);
    SubIsExact(c, b);
    if !SlipsThrough(a, b) {
      OrderOfLengths(CheckedSub(c, b).value, a);
    }
  }

  /** The other way round there is no exception. */
  lemma AddUndoesSub(a: Duration, b: Duration)
    requires Valid(a) && Valid(b) && CheckedSub(a, b).Ok?
    ensures CheckedAdd(CheckedSub(a, b).value, b) == Ok(a)
  {
    var c := CheckedSub(a, b).value;
    SubIsExact(a, b);
    ValidIsRepresentable(a);
    AddIsExact(c, b);
    OrderOfLengths(CheckedAdd(c, b).value, a);
  }
}
