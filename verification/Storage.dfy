/**
 Simple segregated storage (include/gpcl/simple_segregated_storage.hpp): a free list
 threaded through raw memory.

 Memory is a map from addresses to words; address 0 is the null pointer.  The first word
 of a free chunk is the address of the next one.
 */
module Storage {
  import opened Basics

  class Memory {
    var words: map<int, int>

    constructor ()
    {
      words := map[];
    }
  }

  /** `chunks[i]`, or `end` behind the last one. */
  ghost function NodeAt(chunks: seq<int>, i: nat, end: int): int
    requires i <= |chunks|
  {
    if i < |chunks| then chunks[i] else end
  }

  /** In memory each of `chunks` points to the next, the last one to `end`. */
  ghost predicate Linked(words: map<int, int>, chunks: seq<int>, end: int) {
    forall i :: 0 <= i < |chunks| ==> chunks[i] in words && words[chunks[i]] == NodeAt(chunks, i + 1, end)
  }

  lemma LinkedIsMapped(words: map<int, int>, chunks: seq<int>, end: int)
    requires Linked(words, chunks, end)
    ensures forall i :: 0 <= i < |chunks| ==> chunks[i] in words
  {
  }

  ghost predicate Sorted(s: seq<int>) {
    forall i, j :: 0 <= i < j < |s| ==> s[i] < s[j]
  }

  // ----- segregate -----

  /** How many chunks `segregate` makes. */
  function ChunkTotal(sz: nat, partition: nat): (n: nat)
    requires partition > 0
    ensures n >= 1
  {
    if (sz - 1) / partition <= 1 then 1 else (sz - 1) / partition
  }

  /** `n` chunks in a row from `block` on. */
  ghost function Row(block: int, partition: nat, n: nat): (r: seq<int>)
    ensures |r| == n && forall i :: 0 <= i < n ==> r[i] == block + i * partition
  {
    seq(n, i => block + i * partition)
  }

  /** All chunks lie inside the block, and two of them do not overlap. */
  lemma RowInBounds(block: int, sz: nat, partition: nat, i: nat, j: nat)
    requires 0 < partition <= sz && i < j <= ChunkTotal(sz, partition)
    ensures block <= block + i * partition && block + (i + 1) * partition <= block + j * partition <= block + sz
  {
    hide ChunkTotal;
    TotalFits(sz, partition);
    Scaled(0, i, partition);
    Scaled(i + 1, j, partition);
    Scaled(j, ChunkTotal(sz, partition), partition);
  }

  lemma Scaled(a: nat, b: nat, d: nat)
    requires a <= b
    ensures a * d <= b * d
  {
    assert b * d == a * d + (b - a) * d;
  }

  lemma TotalFits(sz: nat, partition: nat)
    requires 0 < partition <= sz
    ensures ChunkTotal(sz, partition) * partition <= sz
  {
    var q := (sz - 1) / partition;
    assert sz - 1 == q * partition + (sz - 1) % partition;
    assert 1 * partition == partition;
  }

  lemma QuotientIs(x: nat, d: nat, q: nat)
    requires d > 0 && q * d <= x < (q + 1) * d
    ensures x / d == q
  {
    var r := x / d;
    assert r * d <= x < (r + 1) * d;
    assert r < q ==> (r + 1) * d <= q * d;
    assert q < r ==> (q + 1) * d <= r * d;
  }

  lemma RowsAreDistinct(block: int, partition: nat, n: nat)
    requires partition > 0
    ensures Distinct(Row(block, partition, n)) && Sorted(Row(block, partition, n))
  {
    forall i, j | 0 <= i < j < n ensures block + i * partition < block + j * partition {
      assert (i + 1) * partition <= j * partition;
    }
  }

  /** Two memories agree outside `cells`. */
  ghost predicate SameOutside(w: map<int, int>, w': map<int, int>, cells: seq<int>) {
    forall a {:trigger a in w'} {:trigger a in w} :: a !in cells ==> (a in w' <==> a in w) && (a in w ==> w'[a] == w[a])
  }

  lemma LinkedElsewhere(w: map<int, int>, w': map<int, int>, cells: seq<int>, chunks: seq<int>, end: int)
    requires SameOutside(w, w', cells) && Linked(w, chunks, end)
    requires forall i :: 0 <= i < |chunks| ==> chunks[i] !in cells
    ensures Linked(w', chunks, end)
  {
    forall i | 0 <= i < |chunks|
      ensures chunks[i] in w' && w'[chunks[i]] == NodeAt(chunks, i + 1, end)
    {
      var c := chunks[i];
      assert c !in cells && c in w && c in w';
    }
  }

  /**
   `segregate`: threads a list through a block and ends it with `end`.  The chunks are as
   many as the loop's bound allows, one fewer than fit when the size is an exact multiple.
   */
  method Segregate(m: Memory, block: int, sz: nat, partition: nat, end: int) returns (first: int, ghost row: seq<int>)
    requires block != 0 && 0 < partition <= sz
    modifies m
    ensures first == block && row == Row(block, partition, ChunkTotal(sz, partition))
    ensures Linked(m.words, row, end) && SameOutside(old(m.words), m.words, row)
  {
    hide Row, ChunkTotal, Linked, SameOutside, Steps;
    var chunk := block;
    var blockEnd := block + sz - partition;
    ghost var done: seq<int> := [];
    FirstStep(m.words, block, partition);
    while chunk + partition < blockEnd
      invariant (done + [chunk])[0] == block && Steps(done + [chunk], partition)
      invariant |done| > 0 ==> chunk + partition < block + sz
      invariant Linked(m.words, done, chunk) && SameOutside(old(m.words), m.words, done)
      decreases blockEnd - chunk
    {
      OneStepMore(done, chunk, partition);
      OneLinkMore(old(m.words), m.words, done, chunk, chunk + partition);
      m.words := m.words[chunk := chunk + partition];
      done := done + [chunk];
      chunk := m.words[chunk];
    }
    row := done + [chunk];
    OneStepMore(done, chunk, partition);
    OneLinkMore(old(m.words), m.words, done, chunk, end);
    m.words := m.words[chunk := end];
    first := block;
    RowFromSteps(row, block, partition);
    RowTotal(row, block, sz, partition);
  }

  /** Each chunk follows the one before it. */
  ghost predicate Steps(row: seq<int>, partition: nat) {
    && (forall t :: 0 <= t < |row| - 1 ==> row[t + 1] == row[t] + partition)
    && (forall s, t :: 0 <= s < t < |row| ==> row[s] < row[t])
  }

  lemma FirstStep(w: map<int, int>, block: int, partition: nat)
    ensures Steps([] + [block], partition) && Linked(w, [], block) && SameOutside(w, w, [])
  {
  }

  lemma OneStepMore(done: seq<int>, chunk: int, partition: nat)
    requires Steps(done + [chunk], partition) && partition > 0
    ensures Steps(done + [chunk] + [chunk + partition], partition)
    ensures chunk !in done
  {
    var row := done + [chunk];
    assert row[|done|] == chunk;
    forall t | 0 <= t < |done| ensures done[t] < chunk { assert row[t] == done[t]; }
  }

  lemma OneLinkMore(was: map<int, int>, w: map<int, int>, done: seq<int>, chunk: int, next: int)
    requires Linked(w, done, chunk) && SameOutside(was, w, done) && chunk !in done
    ensures var w', r := w[chunk := next], done + [chunk]; Linked(w', r, next) && SameOutside(was, w', r)
  {
    var w', r := w[chunk := next], done + [chunk];
    forall i | 0 <= i < |r| ensures r[i] in w' && w'[r[i]] == NodeAt(r, i + 1, next) {
      if i < |done| { assert r[i] == done[i] && done[i] != chunk; }
    }
  }

  lemma {:induction false} RowFromSteps(row: seq<int>, block: int, partition: nat)
    requires |row| > 0 && row[0] == block && Steps(row, partition)
    ensures row == Row(block, partition, |row|)
  {
    if |row| > 1 {
      var most := row[..|row| - 1];
      RowFromSteps(most, block, partition);
      assert row[|row| - 1] == row[|row| - 2] + partition;
      assert most[|row| - 2] == block + (|row| - 2) * partition;
      assert (|row| - 1) * partition == (|row| - 2) * partition + partition;
      assert row == most + [row[|row| - 1]];
    }
  }

  lemma RowTotal(row: seq<int>, block: int, sz: nat, partition: nat)
    requires |row| > 0 && row == Row(block, partition, |row|) && 0 < partition <= sz
    requires row[|row| - 1] + partition + partition >= block + sz
    requires |row| > 1 ==> row[|row| - 1] + partition < block + sz
    ensures |row| == ChunkTotal(sz, partition)
  {
    var n := |row|;
    assert row[n - 1] == block + (n - 1) * partition;
    assert n * partition == (n - 1) * partition + partition;
    assert (n + 1) * partition == n * partition + partition;
    if n > 1 || partition < sz {
      QuotientIs(sz - 1, partition, n);
    }
  }

  // ----- the free list -----

  /** A place where a chunk pointer is stored: `free_list_` itself or the word of a chunk. */
  datatype Slot = HeadSlot | NextSlot(chunk: int)

  /** Where `upper_bound(p)` inserts into a free list: never in front of a non-empty list. */
  ghost function UpperBound(chunks: seq<int>, p: int): (i: nat)
    ensures i <= |chunks| && (i == 0 <==> chunks == [])
  {
    if chunks == [] then 0 else UpperBoundFrom(chunks, p, 1)
  }

  ghost function UpperBoundFrom(chunks: seq<int>, p: int, i: nat): (j: nat)
    requires 1 <= i <= |chunks|
    ensures i <= j <= |chunks| && (j < |chunks| ==> chunks[j] > p)
    ensures forall t :: i <= t < j ==> chunks[t] <= p
    decreases |chunks| - i
  {
    if i == |chunks| || chunks[i] > p then i else UpperBoundFrom(chunks, p, i + 1)
  }

  /** `n + 1` chunks in a row, both in the list and in memory, from position `i` on. */
  ghost predicate Adjacent(chunks: seq<int>, i: nat, n: nat, partition: nat) {
    i + n < |chunks| && forall t :: i <= t < i + n ==> NextTo(chunks, t, partition)
  }

  ghost predicate NextTo(chunks: seq<int>, t: int, partition: nat) {
    0 <= t && t + 1 < |chunks| && chunks[t + 1] == chunks[t] + partition
  }

  /** A row of chunks linked in at position `i`. */
  lemma LinkedIn(w: map<int, int>, chunks: seq<int>, row: seq<int>, i: nat)
    requires i <= |chunks| && row != [] && Linked(w, row, NodeAt(chunks, i, 0))
    requires forall t :: 0 <= t < |chunks| && t != i - 1 ==> chunks[t] in w && w[chunks[t]] == NodeAt(chunks, t + 1, 0)
    requires i > 0 ==> chunks[i - 1] in w && w[chunks[i - 1]] == row[0]
    ensures Linked(w, chunks[..i] + row + chunks[i..], 0)
  {
    var r, n := chunks[..i] + row + chunks[i..], |row|;
    forall t | 0 <= t < |r| ensures r[t] in w && w[r[t]] == NodeAt(r, t + 1, 0) {
      if t < i {
        assert r[t] == chunks[t];
      } else if t < i + n {
        assert r[t] == row[t - i];
      } else {
        assert r[t] == chunks[t - n];
      }
    }
  }

  lemma DistinctIn(chunks: seq<int>, row: seq<int>, i: nat)
    requires i <= |chunks| && Distinct(chunks) && Distinct(row)
    requires forall t :: 0 <= t < |row| ==> row[t] !in chunks
    ensures Distinct(chunks[..i] + row + chunks[i..])
  {
    var r, n := chunks[..i] + row + chunks[i..], |row|;
    forall s, t | 0 <= s < t < |r| ensures r[s] != r[t] {
      var x := if s < i then chunks[s] else if s < i + n then row[s - i] else chunks[s - n];
      var y := if t < i then chunks[t] else if t < i + n then row[t - i] else chunks[t - n];
      assert r[s] == x && r[t] == y;
      if s < i && i <= t < i + n { assert x in chunks && y !in chunks; }
      if i <= s < i + n && i + n <= t { assert y in chunks && x !in chunks; }
    }
  }

  class SegregatedStorage {
    const memory: Memory
    var freeList: int
    ghost var chunks: seq<int>

    ghost predicate Valid()
      reads this, memory
    {
      && freeList == NodeAt(chunks, 0, 0)
      && Linked(memory.words, chunks, 0)
      && Distinct(chunks)
      && (forall i :: 0 <= i < |chunks| ==> chunks[i] > 0)
    }

    constructor (memory: Memory)
      ensures Valid() && chunks == [] && this.memory == memory
    {
      this.memory := memory;
      freeList := 0;
      chunks := [];
    }

    /** The slot that holds the pointer to position `i` of the list. */
    ghost function SlotAt(i: nat): Slot
      reads this
      requires i <= |chunks|
    {
      if i == 0 then HeadSlot else NextSlot(chunks[i - 1])
    }

    method ReadSlot(slot: Slot, ghost i: nat) returns (p: int)
      requires Valid() && i <= |chunks| && slot == SlotAt(i)
      ensures p == NodeAt(chunks, i, 0)
    {
      match slot
      case HeadSlot => p := freeList;
      case NextSlot(c) => p := memory.words[c];
    }

    method Empty() returns (b: bool)
      requires Valid()
      ensures b <==> chunks == []
    {
      b := freeList == 0;
    }

    /** `malloc`: takes the first chunk. */
    method Malloc() returns (p: int)
      requires Valid() && chunks != []
      modifies this
      ensures Valid() && p == old(chunks)[0] && chunks == old(chunks)[1..]
    {
      p := freeList;
      freeList := memory.words[freeList];
      chunks := chunks[1..];
    }

    /** `free`: puts a chunk in front. */
    method Free(chunk: int)
      requires Valid() && chunk > 0 && chunk !in chunks
      modifies this, memory
      ensures Valid() && chunks == [chunk] + old(chunks)
      ensures SameOutside(old(memory.words), memory.words, [chunk])
    {
      memory.words := memory.words[chunk := freeList];
      LinkedElsewhere(old(memory.words), memory.words, [chunk], chunks, 0);
      freeList := chunk;
      chunks := [chunk] + chunks;
    }

    method UpperBoundSlot(p: int) returns (slot: Slot)
      requires Valid() && p > 0
      ensures slot == SlotAt(UpperBound(chunks, p))
    {
      slot := HeadSlot;
      var cur := freeList;
      ghost var i := 0;
      while cur != 0
        invariant i <= |chunks| && cur == NodeAt(chunks, i, 0) && slot == SlotAt(i)
        invariant i > 0 ==> UpperBound(chunks, p) == UpperBoundFrom(chunks, p, i)
        invariant 0 < i < |chunks| ==> chunks[i] <= p
        decreases |chunks| - i
      {
        assert i < |chunks| && cur == chunks[i];
        assert UpperBound(chunks, p) == UpperBoundFrom(chunks, p, i + 1);
        hide UpperBound;
        var next := memory.words[cur];
        assert next == NodeAt(chunks, i + 1, 0);
        slot := NextSlot(cur);
        if next > p {
          return;
        }
        cur := next;
        i := i + 1;
      }
    }

    method WriteSlot(slot: Slot, p: int)
      requires slot.NextSlot? ==> slot.chunk in memory.words
      modifies this`freeList, memory
      ensures slot.HeadSlot? ==> freeList == p && memory.words == old(memory.words)
      ensures slot.NextSlot? ==> freeList == old(freeList) && memory.words == old(memory.words)[slot.chunk := p]
    {
      match slot
      case HeadSlot => freeList := p;
      case NextSlot(c) => memory.words := memory.words[c := p];
    }

    /** `ordered_free`: the chunk goes where `upper_bound` says. */
    method OrderedFree(chunk: int)
      requires Valid() && chunk > 0 && chunk !in chunks
      modifies this, memory
      ensures Valid()
      ensures var i := UpperBound(old(chunks), chunk); chunks == old(chunks)[..i] + [chunk] + old(chunks)[i..]
      ensures SameOutside(old(memory.words), memory.words, [chunk] + old(chunks))
    {
      ghost var i := UpperBound(chunks, chunk);
      var slot := UpperBoundSlot(chunk);
      var p := ReadSlot(slot, i);
      memory.words := memory.words[chunk := p];
      LinkRow(slot, chunk, [chunk], i, old(memory.words));
    }

    /** Stores the first of a row in a slot whose old content ends the row. */
    method LinkRow(slot: Slot, first: int, ghost row: seq<int>, ghost i: nat, ghost was: map<int, int>)
      requires row != [] && first == row[0] && i <= |chunks| && slot == SlotAt(i)
      requires freeList == NodeAt(chunks, 0, 0) && Linked(was, chunks, 0) && Distinct(chunks)
      requires forall t :: 0 <= t < |chunks| ==> chunks[t] > 0
      requires Linked(memory.words, row, NodeAt(chunks, i, 0)) && SameOutside(was, memory.words, row)
      requires Distinct(row) && forall t :: 0 <= t < |row| ==> row[t] > 0 && row[t] !in chunks
      modifies this, memory
      ensures Valid() && chunks == old(chunks)[..i] + row + old(chunks)[i..]
      ensures SameOutside(was, memory.words, row + old(chunks))
    {
      LinkedElsewhere(was, memory.words, row, chunks, 0);
      WriteSlot(slot, first);
      LinkedIn(memory.words, chunks, row, i);
      DistinctIn(chunks, row, i);
      chunks := chunks[..i] + row + chunks[i..];
    }

    /** `add_block`: the chunks of the block go in front of the list. */
    method AddBlock(block: int, sz: nat, partition: nat)
      requires Valid() && block > 0 && 0 < partition <= sz
      requires forall t :: 0 <= t < ChunkTotal(sz, partition) ==>
        Row(block, partition, ChunkTotal(sz, partition))[t] !in chunks
      modifies this, memory
      ensures Valid() && chunks == Row(block, partition, ChunkTotal(sz, partition)) + old(chunks)
      ensures SameOutside(old(memory.words), memory.words, chunks)
    {
      hide Linked, SameOutside, Distinct, Sorted, Row, ChunkTotal;
      var first, row := Segregate(memory, block, sz, partition, freeList);
      RowsAreDistinct(block, partition, ChunkTotal(sz, partition));
      RowIsPositive(block, partition, ChunkTotal(sz, partition));
      LinkRow(HeadSlot, first, row, 0, old(memory.words));
      assert chunks == row + old(chunks);
    }

    /** `add_ordered_block`: the chunks of the block go where `upper_bound` says. */
    method AddOrderedBlock(block: int, sz: nat, partition: nat)
      requires Valid() && block > 0 && 0 < partition <= sz
      requires forall t :: 0 <= t < ChunkTotal(sz, partition) ==>
        Row(block, partition, ChunkTotal(sz, partition))[t] !in chunks
      modifies this, memory
      ensures Valid()
      ensures var i := UpperBound(old(chunks), block);
              chunks == old(chunks)[..i] + Row(block, partition, ChunkTotal(sz, partition)) + old(chunks)[i..]
      ensures SameOutside(old(memory.words), memory.words,
                          Row(block, partition, ChunkTotal(sz, partition)) + old(chunks))
    {
      hide Linked, SameOutside, Distinct, Sorted, Row, ChunkTotal, UpperBound;
      ghost var i := UpperBound(chunks, block);
      var slot := UpperBoundSlot(block);
      var end := ReadSlot(slot, i);
      var first, row := Segregate(memory, block, sz, partition, end);
      RowsAreDistinct(block, partition, ChunkTotal(sz, partition));
      RowIsPositive(block, partition, ChunkTotal(sz, partition));
      LinkRow(slot, first, row, i, old(memory.words));
    }

    /**
     `malloc_n`: takes `n` chunks in a row.  It needs one more chunk behind them, and finds
     the first place in the list where there are that many.
     */
    method MallocN(n: nat, partition: nat) returns (p: int, ghost i: nat)
      requires Valid() && partition > 0
      modifies this, memory
      ensures Valid()
      ensures p == 0 ==> chunks == old(chunks) && memory.words == old(memory.words)
      ensures p == 0 <==> n == 0 || forall k: nat :: !Adjacent(old(chunks), k, n, partition)
      ensures p != 0 ==>
        && Adjacent(old(chunks), i, n, partition)
        && (forall k: nat :: k < i ==> !Adjacent(old(chunks), k, n, partition))
        && p == old(chunks)[i] && chunks == old(chunks)[..i] + old(chunks)[i + n..]
        && SameOutside(old(memory.words), memory.words, old(chunks))
    {
      var found, start, next;
      found, start, next, i := FindRun(n, partition);
      p := 0;
      if found {
        p := ReadSlot(start, i);
        Unlink(start, next, i, n);
      }
    }

    /** The loop of `malloc_n`; `next` is what follows the chunks that were found. */
    method FindRun(n: nat, partition: nat) returns (found: bool, start: Slot, next: int, ghost i: nat)
      requires Valid() && partition > 0
      ensures i <= |chunks| && start == SlotAt(i)
      ensures found <==> n > 0 && exists k: nat :: Adjacent(chunks, k, n, partition)
      ensures found ==> Adjacent(chunks, i, n, partition) && next == chunks[i + n]
      ensures found ==> forall k: nat :: k < i ==> !Adjacent(chunks, k, n, partition)
    {
      hide Linked, Distinct, Adjacent;
      var slot, m := HeadSlot, 0;
      start, i := HeadSlot, 0;
      ghost var j := 0;
      var cur := freeList;
      while cur != 0
        invariant i <= j <= |chunks| && slot == SlotAt(j) && start == SlotAt(i) && cur == NodeAt(chunks, j, 0)
        invariant m == j - i && (n > 0 ==> m < n)
        invariant forall t :: i <= t < j ==> NextTo(chunks, t, partition)
        invariant n > 0 ==> forall k: nat :: k < i ==> !Adjacent(chunks, k, n, partition)
        decreases |chunks| - j
      {
        slot := NextSlot(cur);
        next := ReadSlot(slot, j + 1);
        assert NextTo(chunks, j, partition) <==> next - cur == partition;
        if next - cur != partition {
          if n > 0 { GapEndsRuns(chunks, i, j, n, partition); }
          m := 0;
          start := slot;
          i := j + 1;
        } else {
          m := m + 1;
          if m == n {
            AdjacentHere(chunks, i, n, partition);
            return true, start, next, i;
          }
        }
        cur := next;
        j := j + 1;
      }
      found, next := false, 0;
      if n > 0 { TooShortForRuns(chunks, i, n, partition); }
    }

    /** `*start = *p`: the chunks at `i` up to `i + n` leave the list. */
    method Unlink(start: Slot, next: int, ghost i: nat, ghost n: nat)
      requires Valid() && i + n < |chunks| && start == SlotAt(i) && next == chunks[i + n]
      modifies this, memory
      ensures Valid() && chunks == old(chunks)[..i] + old(chunks)[i + n..]
      ensures SameOutside(old(memory.words), memory.words, old(chunks))
    {
      hide Linked, Distinct, SameOutside;
      LinkedIsMapped(memory.words, chunks, 0);
      WriteSlot(start, next);
      LinkedWithout(old(memory.words), memory.words, chunks, i, n);
      DistinctWithout(chunks, i, n);
      chunks := chunks[..i] + chunks[i + n..];
    }
  }

  lemma RowIsPositive(block: int, partition: nat, n: nat)
    requires block > 0
    ensures forall t :: 0 <= t < n ==> Row(block, partition, n)[t] > 0
  {
    forall t | 0 <= t < n ensures Row(block, partition, n)[t] > 0 {
      assert t * partition >= 0;
    }
  }

  /** No run that long can start at or in front of a gap that comes too early. */
  lemma GapEndsRuns(chunks: seq<int>, i: nat, j: nat, n: nat, partition: nat)
    requires i <= j < |chunks| && j - i < n
    requires !NextTo(chunks, j, partition)
    requires forall k: nat :: k < i ==> !Adjacent(chunks, k, n, partition)
    ensures forall k: nat :: k < j + 1 ==> !Adjacent(chunks, k, n, partition)
  {
    forall k: nat | i <= k < j + 1 ensures !Adjacent(chunks, k, n, partition) {
      assert k <= j < k + n;
    }
  }

  lemma AdjacentHere(chunks: seq<int>, i: nat, n: nat, partition: nat)
    requires n > 0 && forall t :: i <= t < i + n ==> NextTo(chunks, t, partition)
    ensures Adjacent(chunks, i, n, partition)
  {
    assert NextTo(chunks, i + n - 1, partition);
  }

  lemma TooShortForRuns(chunks: seq<int>, i: nat, n: nat, partition: nat)
    requires |chunks| <= i + n
    requires forall k: nat :: k < i ==> !Adjacent(chunks, k, n, partition)
    ensures forall k: nat :: !Adjacent(chunks, k, n, partition)
  {
  }

  lemma LinkedWithout(w: map<int, int>, w': map<int, int>, chunks: seq<int>, i: nat, n: nat)
    requires Linked(w, chunks, 0) && Distinct(chunks) && i + n < |chunks|
    requires w' == if i == 0 then w else w[chunks[i - 1] := chunks[i + n]]
    ensures Linked(w', chunks[..i] + chunks[i + n..], 0)
    ensures SameOutside(w, w', chunks)
  {
    hide Distinct;
    var r := chunks[..i] + chunks[i + n..];
    forall t | 0 <= t < |r| ensures r[t] in w' && w'[r[t]] == NodeAt(r, t + 1, 0) {
      var u := if t < i then t else t + n;
      assert r[t] == chunks[u] && (t + 1 < |r| ==> r[t + 1] == chunks[if t == i - 1 then i + n else u + 1]);
      LinkWithout(w, w', chunks, i, n, u);
    }
  }

  /** Where a chunk that stays leads to after the `n` chunks from position `i` on have left. */
  lemma LinkWithout(w: map<int, int>, w': map<int, int>, chunks: seq<int>, i: nat, n: nat, u: nat)
    requires Linked(w, chunks, 0) && Distinct(chunks) && i + n < |chunks| && u < |chunks|
    requires w' == if i == 0 then w else w[chunks[i - 1] := chunks[i + n]]
    ensures chunks[u] in w' && w'[chunks[u]] == NodeAt(chunks, if u == i - 1 then i + n else u + 1, 0)
  {
    assert u != i - 1 && i > 0 ==> chunks[u] != chunks[i - 1];
  }

  lemma DistinctWithout(chunks: seq<int>, i: nat, n: nat)
    requires Distinct(chunks) && i + n <= |chunks|
    ensures Distinct(chunks[..i] + chunks[i + n..])
  {
    var r := chunks[..i] + chunks[i + n..];
    assert forall t :: 0 <= t < i ==> r[t] == chunks[t];
    assert forall t :: i <= t < |r| ==> r[t] == chunks[t + n];
  }

  /**
   Inserting a sorted row by `upper_bound` keeps a sorted free list sorted exactly when the
   list is empty or the row lies above its head.
   */
  lemma OrderedInsertion(chunks: seq<int>, row: seq<int>)
    requires Sorted(chunks) && Sorted(row) && row != []
    requires forall t :: 0 <= t < |chunks| ==> chunks[t] < row[0] || row[|row| - 1] < chunks[t]
    ensures var i := UpperBound(chunks, row[0]);
            Sorted(chunks[..i] + row + chunks[i..]) <==> chunks == [] || chunks[0] < row[0]
  {
    var i, n := UpperBound(chunks, row[0]), |row|;
    var r := chunks[..i] + row + chunks[i..];
    if chunks == [] {
      assert r == row;
    } else if chunks[0] < row[0] {
      forall s, t | 0 <= s < t < |r| ensures r[s] < r[t] {
        var x := if s < i then chunks[s] else if s < i + n then row[s - i] else chunks[s - n];
        var y := if t < i then chunks[t] else if t < i + n then row[t - i] else chunks[t - n];
        assert r[s] == x && r[t] == y;
        if s < i && i <= t < i + n { assert x < row[0] <= y; }
        if i <= s < i + n && i + n <= t { assert chunks[i] <= y && x <= row[n - 1]; }
      }
    } else {
      assert r[0] == chunks[0] && r[i] == row[0];
    }
  }
}
