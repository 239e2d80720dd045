/**
 The growing array (include/gpcl/dynarray.hpp): raw cells that are constructed and destroyed
 one by one, with element constructors and an allocator that may throw.
 */
module Dynarray {

  /** A cell holds no object, an object, or an object whose value was moved away. */
  datatype Cell<T> = Raw | Live(value: T) | Hollow

  /** What `move_if_noexcept` makes of the element type. */
  datatype Relocation = Copies | MovesSafely | MovesRiskily

  datatype Outcome = Done | NoMemory | Threw | Dangling

  /** Just the first `k` cells hold objects. */
  ghost predicate Filled<T>(s: seq<Cell<T>>, k: nat) {
    k <= |s| && forall i :: 0 <= i < |s| ==> (s[i].Raw? <==> k <= i)
  }

  /** The first `k` cells have lost their values. */
  ghost function HollowOut<T>(s: seq<Cell<T>>, k: nat): (r: seq<Cell<T>>)
    requires k <= |s|
    ensures |r| == |s| && forall i :: 0 <= i < |s| ==> r[i] == if i < k then Hollow else s[i]
  {
    seq(|s|, i requires 0 <= i < |s| => if i < k then Hollow else s[i])
  }

  lemma HollowPrefix<T>(s: seq<Cell<T>>, k: nat, n: nat)
    requires k <= n <= |s|
    ensures HollowOut(s, k)[..n] == HollowOut(s[..n], k)
    ensures Filled(s, n) ==> Filled(HollowOut(s, k), n)
  {
  }

  /** `n` more cells that hold `c`. */
  ghost function Padded<T>(s: seq<Cell<T>>, n: nat, c: Cell<T>): (r: seq<Cell<T>>)
    requires |s| <= n
    ensures |r| == n && r[..|s|] == s && forall i :: |s| <= i < n ==> r[i] == c
  {
    s + seq(n - |s|, _ => c)
  }

  /** The capacity that `grow` asks for: the next multiple of the old one. */
  function GrownCapacity(n: nat, capacity: nat): (c: nat)
    ensures c >= n && c >= capacity
    ensures n <= capacity ==> c == capacity
    ensures 0 < capacity < n ==> c < n + capacity
  {
    if capacity == 0 then n
    else if capacity < n then
      var q := (n + capacity - 1) / capacity;
      RoundedUp(n, capacity, q);
      q * capacity
    else capacity
  }

  lemma RoundedUp(n: nat, d: nat, q: nat)
    requires 0 < d && q == (n + d - 1) / d
    ensures n <= q * d < n + d
  {
    assert n + d - 1 == q * d + (n + d - 1) % d;
  }

  /** One element more than fits doubles the capacity. */
  lemma GrowthDoubles(capacity: nat)
    ensures GrownCapacity(capacity + 1, capacity) == if capacity == 0 then 1 else 2 * capacity
  {
    if capacity > 0 {
      assert capacity + 1 + capacity - 1 == 2 * capacity;
      assert 2 * capacity / capacity == 2;
    }
  }

  class DynArray<T> {
    const relocation: Relocation
    var cells: array<Cell<T>>  // p_
    var size: nat
    var capacity: nat
    ghost var buffers: set<array<Cell<T>>>  // allocated and not given back
    ghost var constructed: nat
    ghost var destroyed: nat
    ghost var relocated: nat

    ghost predicate Valid()
      reads this, cells
    {
      && capacity == cells.Length && buffers == {cells} && Filled(cells[..], size)
      && constructed == destroyed + size
    }

    ghost function Contents(): seq<Cell<T>>
      reads this, cells
      requires size <= cells.Length
    {
      cells[..size]
    }

    constructor (relocation: Relocation)
      ensures Valid() && Contents() == [] && capacity == 0 && this.relocation == relocation && fresh(cells)
      ensures constructed == 0 && relocated == 0
    {
      this.relocation := relocation;
      var none := new Cell<T>[0];
      cells := none;
      size, capacity := 0, 0;
      buffers, constructed, destroyed, relocated := {none}, 0, 0, 0;
    }

    /** Objects are constructed in raw cells only. */
    method Construct(a: array<Cell<T>>, i: nat, c: Cell<T>)
      requires i < a.Length && a[i].Raw? && !c.Raw?
      modifies a, this`constructed
      ensures a[..] == old(a[..])[i := c] && constructed == old(constructed) + 1
    {
      a[i] := c;
      constructed := constructed + 1;
    }

    /** Only objects that are there are destroyed. */
    method Destroy(a: array<Cell<T>>, i: nat)
      requires i < a.Length && !a[i].Raw?
      modifies a, this`destroyed
      ensures a[..] == old(a[..])[i := Raw] && destroyed == old(destroyed) + 1
    {
      a[i] := Raw;
      destroyed := destroyed + 1;
    }

    method Allocate(n: nat) returns (a: array<Cell<T>>)
      modifies this`buffers
      ensures fresh(a) && a.Length == n && Filled(a[..], 0) && buffers == old(buffers) + {a}
    {
      a := new Cell<T>[n](_ => Raw);
      buffers := buffers + {a};
    }

    /** A buffer is given back once, with its true capacity and without objects in it. */
    method Deallocate(a: array<Cell<T>>, n: nat)
      requires a in buffers && n == a.Length && Filled(a[..], 0)
      modifies this`buffers
      ensures buffers == old(buffers) - {a}
    {
      buffers := buffers - {a};
    }

    /** `keep_first_n`. */
    method KeepFirst(n: nat)
      requires n <= size && Filled(cells[..], size)
      modifies this`size, this`destroyed, cells
      ensures size == n && cells[..n] == old(cells[..n]) && Filled(cells[..], n)
      ensures destroyed == old(destroyed) + old(size) - n
    {
      while size > n
        invariant n <= size <= old(size) && destroyed == old(destroyed) + old(size) - size
        invariant Filled(cells[..], size) && cells[..size] == old(cells[..])[..size]
      {
        Destroy(cells, size - 1);
        size := size - 1;
      }
    }

    /** The first loop of `reserve`: the elements are constructed again in the new buffer. */
    method Relocate(from: array<Cell<T>>, count: nat, luck: nat) returns (o: Outcome)
      requires from != cells && size == 0 && count <= cells.Length
      requires Filled(from[..], count) && Filled(cells[..], 0)
      modifies this`size, this`constructed, cells, from
      ensures o == (if luck < count && relocation != MovesSafely then Threw else Done)
      ensures size == (if o.Done? then count else luck) && constructed == old(constructed) + size
      ensures Filled(cells[..], size) && cells[..size] == old(from[..])[..size]
      ensures from[..] == if relocation.Copies? then old(from[..]) else HollowOut(old(from[..]), size)
    {
      o := Done;
      while count != size
        invariant size <= count && constructed == old(constructed) + size
        invariant relocation != MovesSafely ==> size <= luck
        invariant Filled(cells[..], size) && cells[..size] == old(from[..])[..size]
        invariant from[..] == if relocation.Copies? then old(from[..]) else HollowOut(old(from[..]), size)
        decreases count - size
      {
        if size == luck && relocation != MovesSafely { return Threw; }
        Construct(cells, size, from[size]);
        if !relocation.Copies? { from[size] := Hollow; }
        size := size + 1;
      }
    }

    /** The second loop of `reserve`: the old objects are destroyed. */
    method DestroyAll(from: array<Cell<T>>, count: nat)
      requires Filled(from[..], count)
      modifies this`destroyed, from
      ensures Filled(from[..], 0) && destroyed == old(destroyed) + count
    {
      var left := count;
      while left > 0
        invariant 0 <= left <= count && destroyed == old(destroyed) + count - left
        invariant Filled(from[..], left)
      {
        Destroy(from, left - 1);
        left := left - 1;
      }
    }

    /**
     `reserve`; `memory` says whether the allocator has any, `luck` how many element
     constructors return before one throws.  A constructor that throws leaves what was there,
     except that elements that were moved already are hollow.  An allocator that throws
     leaves an array that forgot its elements and believes in a capacity it does not have.
     */
    method Reserve(n: nat, memory: bool, luck: nat) returns (o: Outcome)
      requires Valid()
      modifies this, cells
      ensures o == ReserveOutcome(n, old(capacity), old(size), memory, luck)
      ensures Valid() <==> !o.NoMemory?
      ensures o.Done? ==>
        && Valid() && Contents() == old(Contents())
        && capacity == (if n <= old(capacity) then old(capacity) else n)
      ensures o.Done? ==> relocated == old(relocated) + (if n <= old(capacity) then 0 else old(size))
      ensures o.Done? && n <= old(capacity) ==> cells == old(cells) && cells[..] == old(cells[..])
      ensures o.Done? && n > old(capacity) ==> fresh(cells) && Filled(old(cells)[..], 0)
      ensures o.Threw? ==>
        && Valid() && cells == old(cells) && capacity == old(capacity) && relocated == old(relocated)
        && Contents() == if relocation.Copies? then old(Contents()) else HollowOut(old(Contents()), luck)
      ensures o.NoMemory? ==>
        && cells == old(cells) && cells[..] == old(cells[..]) && size == 0 && capacity == n > cells.Length
        && constructed == old(constructed) && destroyed == old(destroyed)
    {
      hide HollowOut;
      if n <= capacity { return Done; }
      ghost var was := cells[..];
      var backup, backupSize, backupCapacity := cells, size, capacity;
      capacity, size := n, 0;
      if !memory { return NoMemory; }
      cells := Allocate(capacity);
      o := Relocate(backup, backupSize, luck);
      if o.Done? {
        DestroyAll(backup, backupSize);
        Deallocate(backup, backupCapacity);
        relocated := relocated + size;
      } else {
        KeepFirst(0);
        Deallocate(cells, capacity);
        HollowPrefix(was, luck, backupSize);
        cells, size, capacity := backup, backupSize, backupCapacity;
      }
    }

    function ReserveOutcome(n: nat, capacity: nat, size: nat, memory: bool, luck: nat): Outcome {
      if n <= capacity then Done
      else if !memory then NoMemory
      else if luck < size && relocation != MovesSafely then Threw
      else Done
    }

    /** `grow`. */
    method Grow(n: nat, memory: bool, luck: nat) returns (o: Outcome)
      requires Valid()
      modifies this, cells
      ensures o == ReserveOutcome(GrownCapacity(n, old(capacity)), old(capacity), old(size), memory, luck)
      ensures o.Done? ==> Valid() && Contents() == old(Contents()) && capacity == GrownCapacity(n, old(capacity))
      ensures o.Done? ==> relocated == old(relocated) + (if n <= old(capacity) then 0 else old(size))
      ensures o.Done? && n <= old(capacity) ==> cells == old(cells) && cells[..] == old(cells[..])
      ensures o.Done? && n > old(capacity) ==> fresh(cells) && Filled(old(cells)[..], 0)
      ensures o.Threw? ==>
        && Valid() && cells == old(cells) && capacity == old(capacity)
        && Contents() == if relocation.Copies? then old(Contents()) else HollowOut(old(Contents()), luck)
      ensures o.NoMemory? ==> size == 0 && cells == old(cells) && cells[..] == old(cells[..]) && capacity > cells.Length
    {
      o := Done;
      if capacity == 0 && n != 0 {
        o := Reserve(n, memory, luck);
      } else if capacity < n {
        RoundedUp(n, capacity, (n + capacity - 1) / capacity);
        o := Reserve((n + capacity - 1) / capacity * capacity, memory, luck);
      }
    }

    /** What is left of the luck after a buffer was replaced; safe moves use none of it. */
    function Left(luck: nat, n: nat, capacity: nat, size: nat): nat {
      if n <= capacity || relocation.MovesSafely? || luck < size then luck else luck - size
    }

    /** What a throwing constructor leaves of the elements. */
    ghost function AfterThrow(s: seq<Cell<T>>, n: nat, capacity: nat, luck: nat): seq<Cell<T>> {
      if relocation.MovesRiskily? && capacity < n && luck < |s| then HollowOut(s, luck) else s
    }

    /** `resize(n)` and `resize(n, x)`; `c` is the new object. */
    method Resize(n: nat, c: Cell<T>, memory: bool, luck: nat) returns (o: Outcome)
      requires Valid() && !c.Raw?
      modifies this, cells
      ensures var reserved := ReserveOutcome(n, old(capacity), old(size), memory, luck);
              o == if reserved.Done? && n > old(size) + Left(luck, n, old(capacity), old(size)) then Threw else reserved
      ensures o.Done? ==>
        && Valid()
        && Contents() == if n <= old(size) then old(Contents())[..n] else Padded(old(Contents()), n, c)
      ensures o.Threw? ==> Valid() && Contents() == AfterThrow(old(Contents()), n, old(capacity), luck)
      ensures o.NoMemory? ==> size == 0 && cells == old(cells) && cells[..] == old(cells[..]) && capacity > cells.Length
    {
      var left := Left(luck, n, capacity, size);
      o := Reserve(n, memory, luck);
      if !o.Done? { return; }
      if n <= size {
        KeepFirst(n);
      } else {
        o := ConstructUpTo(n, c, left);
      }
    }

    /** The loop of `resize` and what it does when a constructor throws. */
    method ConstructUpTo(n: nat, c: Cell<T>, luck: nat) returns (o: Outcome)
      requires Valid() && size < n <= capacity && !c.Raw?
      modifies this`size, this`constructed, this`destroyed, cells
      ensures Valid() && o == if n > old(size) + luck then Threw else Done
      ensures Contents() == if o.Done? then Padded(old(Contents()), n, c) else old(Contents())
    {
      o := Done;
      var was := size;
      while size < n
        invariant was <= size <= n && size <= was + luck && Valid()
        invariant Contents() == Padded(old(Contents()), size, c)
      {
        if size == was + luck {
          KeepFirst(was);
          return Threw;
        }
        Construct(cells, size, c);
        size := size + 1;
      }
    }

    /** `emplace_back` of an object that does not live in the array. */
    method EmplaceBack(c: Cell<T>, memory: bool, luck: nat) returns (o: Outcome)
      requires Valid() && !c.Raw?
      modifies this, cells
      ensures var n := old(size) + 1;
              var grown := ReserveOutcome(GrownCapacity(n, old(capacity)), old(capacity), old(size), memory, luck);
              o == if grown.Done? && Left(luck, n, old(capacity), old(size)) == 0 then Threw else grown
      ensures o.Done? ==>
        && Valid() && Contents() == old(Contents()) + [c]
        && capacity == GrownCapacity(old(size) + 1, old(capacity))
        && relocated == old(relocated) + (if old(size) == old(capacity) then old(size) else 0)
        && (cells == old(cells) || fresh(cells))
      ensures o.Threw? ==> Valid() && Contents() == AfterThrow(old(Contents()), old(size) + 1, old(capacity), luck)
      ensures o.NoMemory? ==> size == 0 && cells == old(cells) && cells[..] == old(cells[..]) && capacity > cells.Length
    {
      var left := Left(luck, size + 1, capacity, size);
      o := Grow(size + 1, memory, luck);
      if !o.Done? { return; }
      if left == 0 { return Threw; }
      Construct(cells, size, c);
      size := size + 1;
    }

    /** `push_back` of the element at `i` itself: after growth the reference is dangling. */
    method PushBackOwn(i: nat, memory: bool, luck: nat) returns (o: Outcome)
      requires Valid() && i < size
      modifies this, cells
      ensures o.Done? ==> Valid() && Contents() == old(Contents()) + [old(Contents())[i]]
      ensures o.Dangling? <==>
        old(size) == old(capacity) && memory && (luck < old(size) ==> relocation.MovesSafely?)
      ensures o.Done? <==> old(size) < old(capacity) && luck > 0
      ensures o.Dangling? ==> Valid() && Contents() == old(Contents())
      ensures o.Threw? ==> Valid() && Contents() == AfterThrow(old(Contents()), old(size) + 1, old(capacity), luck)
    {
      var source := cells;
      o := Grow(size + 1, memory, luck);
      if !o.Done? { return; }
      if source[i].Raw? { return Dangling; }
      if luck == 0 { return Threw; }
      Construct(cells, size, source[i]);
      size := size + 1;
    }

    /** `release`, the destructor: everything that was constructed has been destroyed. */
    method Release()
      requires Valid()
      modifies this, cells
      ensures buffers == {} && destroyed == constructed == old(constructed) && Filled(old(cells)[..], 0)
      ensures size == 0 && capacity == 0
    {
      KeepFirst(0);
      Deallocate(cells, capacity);
      cells := new Cell<T>[0];
      capacity := 0;
    }
  }

  ghost function LiveAll<T>(xs: seq<T>): (r: seq<Cell<T>>)
    ensures |r| == |xs| && forall i :: 0 <= i < |xs| ==> r[i] == Live(xs[i])
  {
    seq(|xs|, i requires 0 <= i < |xs| => Live(xs[i]))
  }

  /** Filling an array from empty relocates fewer than two elements for each one added. */
  method Fill<T>(xs: seq<T>, relocation: Relocation) returns (d: DynArray<T>)
    ensures fresh(d) && d.Valid() && d.Contents() == LiveAll(xs)
    ensures xs != [] ==> d.relocated < 2 * |xs| && d.capacity < 2 * |xs|
    ensures xs != [] ==> d.relocated == d.capacity - 1
  {
    d := new DynArray<T>(relocation);
    for k := 0 to |xs|
      invariant fresh(d) && fresh(d.cells) && d.Valid() && d.Contents() == LiveAll(xs[..k])
      invariant if k == 0 then d.capacity == 0 && d.relocated == 0
                else d.relocated == d.capacity - 1 && d.capacity < 2 * k
    {
      GrowthDoubles(d.capacity);
      var o := d.EmplaceBack(Live(xs[k]), true, d.size + 1);
    }
    assert xs[..|xs|] == xs;
  }
}
