/**
 The bookkeeping behind the pool allocator: which chunks the blocks were carved into, where
 each of them is now, and what the trailers at the ends of the blocks say.
 */
module PoolBooks {
  import opened Basics
  import opened Storage

  /** A block as the user allocator returned it. */
  datatype Extent = Extent(ptr: int, size: nat)

  const WORD := 8
  const TRAILER := 16  // sizeof(block_info): a pointer and a size

  /** `block_info_offset`: where the trailer of a block starts. */
  function Offset(size: nat): (off: nat)
    requires size >= TRAILER
    ensures off + TRAILER <= size < off + TRAILER + WORD && off % WORD == 0
  {
    (size - TRAILER) / WORD * WORD
  }

  /** `chunk_count`: the chunks an array of `n` objects takes. */
  function ChunkCount(n: nat, requested: nat, chunk: nat): (k: nat)
    requires chunk > 0
    ensures k * chunk >= n * requested
    ensures k > 0 ==> (k - 1) * chunk < n * requested
  {
    var k := (n * requested + chunk - 1) / chunk;
    CeilingDivision(n * requested, chunk, k);
    k
  }

  lemma CeilingDivision(x: nat, d: nat, k: nat)
    requires d > 0 && k == (x + d - 1) / d
    ensures k * d >= x && (k > 0 ==> (k - 1) * d < x)
  {
    assert k * d <= x + d - 1 < (k + 1) * d;
    assert (k + 1) * d == k * d + d;
    assert k > 0 ==> (k - 1) * d == k * d - d;
  }

  /** The doubling loop of `request_new_block`. */
  function Grown(sz: nat, least: nat): (r: nat)
    requires sz > 0
    ensures r >= least && r >= sz && (r > sz ==> r < 2 * least)
    decreases if sz < least then least - sz else 0
  {
    if sz < least then Grown(sz * 2, least) else sz
  }

  function PowerOfTwo(k: nat): nat { if k == 0 then 1 else 2 * PowerOfTwo(k - 1) }

  lemma Doubling(sz: nat, k: nat)
    ensures sz * 2 * PowerOfTwo(k) == sz * PowerOfTwo(k + 1)
  {
    var p := PowerOfTwo(k);
    assert PowerOfTwo(k + 1) == 2 * p;
    assert sz * (2 * p) == sz * 2 * p;
  }

  /** The size is doubled as often as needed, and no more often. */
  lemma {:induction false} GrownDoubles(sz: nat, least: nat) returns (k: nat)
    requires sz > 0
    ensures Grown(sz, least) == sz * PowerOfTwo(k) && (k > 0 ==> sz * PowerOfTwo(k - 1) < least)
    decreases if sz < least then least - sz else 0
  {
    k := 0;
    if sz < least {
      var h := GrownDoubles(sz * 2, least);
      k := h + 1;
      Doubling(sz, h);
      if h > 0 { Doubling(sz, h - 1); } else { assert sz * PowerOfTwo(0) == sz; }
    }
  }

  // ----- cells -----

  /** Chunk number `t` from `p` on. */
  ghost function At(p: int, t: nat, chunk: nat): int { p + t * chunk }

  /** How many chunks a block was carved into. */
  ghost function Carved(b: Extent, chunk: nat): nat
    requires chunk > 0 && b.size >= TRAILER
  {
    ChunkTotal(Offset(b.size), chunk)
  }

  ghost predicate BlockOk(b: Extent, chunk: nat) {
    b.ptr > 0 && b.size >= TRAILER && Offset(b.size) >= chunk > 0
  }

  ghost predicate Separate(a: Extent, b: Extent) {
    a.ptr + a.size <= b.ptr || b.ptr + b.size <= a.ptr
  }

  ghost predicate BlocksOk(blocks: seq<Extent>, chunk: nat) {
    && (forall i :: 0 <= i < |blocks| ==> BlockOk(blocks[i], chunk))
    && (forall i, j :: 0 <= i < j < |blocks| ==> Separate(blocks[i], blocks[j]))
  }

  /** `c` is the address of a chunk that some block was carved into. */
  ghost predicate IsCell(blocks: seq<Extent>, c: int, chunk: nat)
    requires BlocksOk(blocks, chunk)
  {
    exists i, t: nat :: 0 <= i < |blocks| && t < Carved(blocks[i], chunk) && c == At(blocks[i].ptr, t, chunk)
  }

  /** A chunk lies in the chunk area of its block, in front of the trailer. */
  lemma CellBounds(b: Extent, t: nat, chunk: nat)
    requires BlockOk(b, chunk) && t < Carved(b, chunk)
    ensures b.ptr <= At(b.ptr, t, chunk) && At(b.ptr, t, chunk) + chunk <= b.ptr + Offset(b.size)
  {
    RowInBounds(b.ptr, Offset(b.size), chunk, t, t + 1);
    assert (t + 1) * chunk == t * chunk + chunk;
  }

  /** Two different chunks do not overlap. */
  lemma CellsAreApart(blocks: seq<Extent>, c: int, d: int, chunk: nat)
    requires BlocksOk(blocks, chunk) && IsCell(blocks, c, chunk) && IsCell(blocks, d, chunk) && c != d
    ensures c + chunk <= d || d + chunk <= c
  {
    var i, s: nat :| 0 <= i < |blocks| && s < Carved(blocks[i], chunk) && c == At(blocks[i].ptr, s, chunk);
    var j, t: nat :| 0 <= j < |blocks| && t < Carved(blocks[j], chunk) && d == At(blocks[j].ptr, t, chunk);
    CellBounds(blocks[i], s, chunk);
    CellBounds(blocks[j], t, chunk);
    if i == j {
      if s < t { SpacedOut(s, t, chunk); } else { SpacedOut(t, s, chunk); }
    } else if i < j {
      assert Separate(blocks[i], blocks[j]);
    } else {
      assert Separate(blocks[j], blocks[i]);
    }
  }

  lemma SpacedOut(s: nat, t: nat, chunk: nat)
    requires s <= t
    ensures s < t ==> s * chunk + chunk <= t * chunk
  {
    if s < t {
      assert (s + 1) * chunk <= t * chunk;
      assert (s + 1) * chunk == s * chunk + chunk;
    }
  }

  /** Where the trailer of block `i` is. */
  ghost function TrailerOf(b: Extent): int
    requires b.size >= TRAILER
  {
    b.ptr + Offset(b.size)
  }

  /** No chunk reaches into a trailer. */
  lemma CellsMissTrailers(blocks: seq<Extent>, c: int, i: nat, chunk: nat)
    requires BlocksOk(blocks, chunk) && IsCell(blocks, c, chunk) && i < |blocks|
    ensures c + chunk <= TrailerOf(blocks[i]) || TrailerOf(blocks[i]) + TRAILER <= c
  {
    var j, t: nat :| 0 <= j < |blocks| && t < Carved(blocks[j], chunk) && c == At(blocks[j].ptr, t, chunk);
    CellBounds(blocks[j], t, chunk);
    if i < j {
      assert Separate(blocks[i], blocks[j]);
    } else if j < i {
      assert Separate(blocks[j], blocks[i]);
    }
  }

  // ----- the books -----

  /** What became of every chunk: free, part of an array in use, or lost. */
  datatype Books = Books(blocks: seq<Extent>, free: seq<int>, live: map<int, nat>, dropped: set<int>)

  /** `c` is the chunk number `t` of the array at `p`. */
  ghost predicate InArray(c: int, p: int, n: nat, chunk: nat) {
    exists t: nat :: t < n && c == At(p, t, chunk)
  }

  ghost predicate IsLive(live: map<int, nat>, c: int, chunk: nat) {
    exists p :: p in live && InArray(c, p, live[p], chunk)
  }

  /** No two arrays share a chunk. */
  ghost predicate Disjoint(live: map<int, nat>, chunk: nat) {
    forall p, q, c ::
      p in live && q in live && InArray(c, p, live[p], chunk) && InArray(c, q, live[q], chunk) ==> p == q
  }

  /**
   Every chunk carved from a block is in exactly one place, nothing else is anywhere, and
   no two arrays share a chunk.
   */
  ghost predicate Balanced(k: Books, chunk: nat) {
    && chunk > 0 && BlocksOk(k.blocks, chunk) && Distinct(k.free)
    && (forall c :: IsCell(k.blocks, c, chunk) <==> c in k.free || IsLive(k.live, c, chunk) || c in k.dropped)
    && (forall c :: c in k.free ==> !IsLive(k.live, c, chunk) && c !in k.dropped)
    && (forall c :: c in k.dropped ==> !IsLive(k.live, c, chunk))
    && (forall p :: p in k.live ==> k.live[p] > 0)
    && Disjoint(k.live, chunk)
  }

  lemma StartIsInArray(p: int, n: nat, chunk: nat)
    requires n > 0
    ensures InArray(p, p, n, chunk)
  {
    assert p == At(p, 0, chunk);
  }

  /** Chunks leave the free list and become an array. */
  lemma TakeKeepsBooks(k: Books, free: seq<int>, p: int, n: nat, chunk: nat)
    requires Balanced(k, chunk) && n > 0 && Distinct(free)
    requires forall c :: InArray(c, p, n, chunk) ==> c in k.free
    requires forall c :: c in free <==> c in k.free && !InArray(c, p, n, chunk)
    ensures p !in k.live
    ensures Balanced(k.(free := free, live := k.live[p := n]), chunk)
  {
    StartIsInArray(p, n, chunk);
    if p in k.live {
      StartIsInArray(p, k.live[p], chunk);
    }
    var live := k.live[p := n];
    forall c ensures IsLive(live, c, chunk) <==> IsLive(k.live, c, chunk) || InArray(c, p, n, chunk) {
      if InArray(c, p, n, chunk) { assert p in live && InArray(c, p, live[p], chunk); }
      if IsLive(k.live, c, chunk) {
        var q :| q in k.live && InArray(c, q, k.live[q], chunk);
        assert q in live && InArray(c, q, live[q], chunk);
      }
      if IsLive(live, c, chunk) {
        var q :| q in live && InArray(c, q, live[q], chunk);
        if q != p { assert q in k.live && InArray(c, q, k.live[q], chunk); }
      }
    }
    forall q, r, c | q in live && r in live && InArray(c, q, live[q], chunk) && InArray(c, r, live[r], chunk)
      ensures q == r
    {
      assert r != p ==> r in k.live && InArray(c, r, k.live[r], chunk);
      assert q != p ==> q in k.live && InArray(c, q, k.live[q], chunk);
    }
  }

  /** An array is given back: its first `m` chunks become free, the others are lost. */
  lemma GiveKeepsBooks(k: Books, free: seq<int>, dropped: set<int>, p: int, m: nat, chunk: nat)
    requires Balanced(k, chunk) && p in k.live && m <= k.live[p] && Distinct(free)
    requires forall c :: c in free <==> c in k.free || InArray(c, p, m, chunk)
    requires forall c :: c in dropped <==>
      c in k.dropped || (InArray(c, p, k.live[p], chunk) && !InArray(c, p, m, chunk))
    ensures Balanced(Books(k.blocks, free, k.live - {p}, dropped), chunk)
  {
    var n, live := k.live[p], k.live - {p};
    forall c ensures IsLive(live, c, chunk) <==> IsLive(k.live, c, chunk) && !InArray(c, p, n, chunk) {
      if IsLive(k.live, c, chunk) {
        var q :| q in k.live && InArray(c, q, k.live[q], chunk);
        if q != p { assert q in live && InArray(c, q, live[q], chunk); }
      }
      if IsLive(live, c, chunk) {
        var q :| q in live && InArray(c, q, live[q], chunk);
        assert q in k.live && InArray(c, q, k.live[q], chunk);
      }
    }
    forall c | InArray(c, p, m, chunk) ensures InArray(c, p, n, chunk) {
      var t: nat :| t < m && c == At(p, t, chunk);
    }
    forall c | InArray(c, p, n, chunk) ensures IsLive(k.live, c, chunk) {
    }
  }

  /** A new block is carved and all its chunks are free. */
  lemma GrowKeepsBooks(k: Books, free: seq<int>, b: Extent, chunk: nat)
    requires Balanced(k, chunk) && BlockOk(b, chunk) && Distinct(free)
    requires forall i :: 0 <= i < |k.blocks| ==> Separate(b, k.blocks[i])
    requires forall c :: c in free <==> c in k.free || InArray(c, b.ptr, Carved(b, chunk), chunk)
    ensures Balanced(k.(blocks := [b] + k.blocks, free := free), chunk)
  {
    var blocks := [b] + k.blocks;
    assert BlocksOk(blocks, chunk);
    forall c
      ensures IsCell(blocks, c, chunk) <==> IsCell(k.blocks, c, chunk) || InArray(c, b.ptr, Carved(b, chunk), chunk)
    {
      GrownCells(k.blocks, b, c, chunk);
    }
    forall c | InArray(c, b.ptr, Carved(b, chunk), chunk) ensures !IsCell(k.blocks, c, chunk) {
      NewCellsAreNew(k.blocks, b, c, chunk);
    }
  }

  lemma GrownCells(blocks: seq<Extent>, b: Extent, c: int, chunk: nat)
    requires BlocksOk(blocks, chunk) && BlockOk(b, chunk) && BlocksOk([b] + blocks, chunk)
    ensures IsCell([b] + blocks, c, chunk) <==> IsCell(blocks, c, chunk) || InArray(c, b.ptr, Carved(b, chunk), chunk)
  {
    var all := [b] + blocks;
    if IsCell(blocks, c, chunk) {
      var i, t: nat :| 0 <= i < |blocks| && t < Carved(blocks[i], chunk) && c == At(blocks[i].ptr, t, chunk);
      assert all[i + 1] == blocks[i];
    }
    if InArray(c, b.ptr, Carved(b, chunk), chunk) {
      var t: nat :| t < Carved(b, chunk) && c == At(b.ptr, t, chunk);
      assert all[0] == b;
    }
    if IsCell(all, c, chunk) {
      var i, t: nat :| 0 <= i < |all| && t < Carved(all[i], chunk) && c == At(all[i].ptr, t, chunk);
      if i > 0 { assert all[i] == blocks[i - 1]; }
    }
  }

  lemma NewCellsAreNew(blocks: seq<Extent>, b: Extent, c: int, chunk: nat)
    requires BlocksOk(blocks, chunk) && BlockOk(b, chunk) && InArray(c, b.ptr, Carved(b, chunk), chunk)
    requires forall i :: 0 <= i < |blocks| ==> Separate(b, blocks[i])
    ensures !IsCell(blocks, c, chunk)
  {
    var t: nat :| t < Carved(b, chunk) && c == At(b.ptr, t, chunk);
    CellBounds(b, t, chunk);
    if IsCell(blocks, c, chunk) {
      var i, s: nat :| 0 <= i < |blocks| && s < Carved(blocks[i], chunk) && c == At(blocks[i].ptr, s, chunk);
      CellBounds(blocks[i], s, chunk);
    }
  }

  // ----- trailers -----

  ghost function PtrAt(blocks: seq<Extent>, i: nat): int { if i < |blocks| then blocks[i].ptr else 0 }

  ghost function SizeAt(blocks: seq<Extent>, i: nat): int { if i < |blocks| then blocks[i].size else 0 }

  /** The trailer of block `i` names the block that was there before it. */
  ghost predicate TrailerOk(words: map<int, int>, blocks: seq<Extent>, i: nat)
    requires i < |blocks| && blocks[i].size >= TRAILER
  {
    var t := TrailerOf(blocks[i]);
    && t in words && words[t] == PtrAt(blocks, i + 1)
    && t + WORD in words && words[t + WORD] == SizeAt(blocks, i + 1)
  }

  ghost predicate Trailers(words: map<int, int>, blocks: seq<Extent>, chunk: nat) {
    BlocksOk(blocks, chunk) && forall i :: 0 <= i < |blocks| ==> TrailerOk(words, blocks, i)
  }

  /** A word at `c` is not part of a trailer. */
  ghost predicate Misses(c: int, blocks: seq<Extent>, chunk: nat)
    requires BlocksOk(blocks, chunk)
  {
    forall i :: 0 <= i < |blocks| ==> c != TrailerOf(blocks[i]) && c != TrailerOf(blocks[i]) + WORD
  }

  lemma CellMisses(blocks: seq<Extent>, c: int, chunk: nat)
    requires BlocksOk(blocks, chunk) && IsCell(blocks, c, chunk)
    ensures Misses(c, blocks, chunk)
  {
    forall i | 0 <= i < |blocks| ensures c != TrailerOf(blocks[i]) && c != TrailerOf(blocks[i]) + WORD {
      CellsMissTrailers(blocks, c, i, chunk);
    }
  }

  lemma TrailersKept(w: map<int, int>, w': map<int, int>, cells: seq<int>, blocks: seq<Extent>, chunk: nat)
    requires Trailers(w, blocks, chunk) && SameOutside(w, w', cells)
    requires forall c :: c in cells ==> Misses(c, blocks, chunk)
    ensures Trailers(w', blocks, chunk)
  {
    forall i | 0 <= i < |blocks| ensures TrailerOk(w', blocks, i) {
      var t := TrailerOf(blocks[i]);
      assert TrailerOk(w, blocks, i);
      assert t !in cells && t + WORD !in cells;
      assert t in w && t + WORD in w;
    }
  }

  /** While the pool keeps its books, only chunks that are or were free may have changed. */
  lemma BooksKeepTrailers(w: map<int, int>, w': map<int, int>, cells: seq<int>, k: Books, chunk: nat)
    requires Balanced(k, chunk) && Trailers(w, k.blocks, chunk) && SameOutside(w, w', cells)
    requires forall c :: c in cells ==> IsCell(k.blocks, c, chunk)
    ensures Trailers(w', k.blocks, chunk)
  {
    forall c | c in cells ensures Misses(c, k.blocks, chunk) { CellMisses(k.blocks, c, chunk); }
    hide Balanced, SameOutside, IsCell, Misses;
    TrailersKept(w, w', cells, k.blocks, chunk);
  }

  /** Writing the trailer of a new first block completes the list. */
  lemma TrailerAdded(w: map<int, int>, w': map<int, int>, blocks: seq<Extent>, b: Extent, chunk: nat)
    requires BlocksOk([b] + blocks, chunk) && Trailers(w, blocks, chunk) && BlockOk(b, chunk)
    requires var t := TrailerOf(b); w' == w[t := PtrAt(blocks, 0)][t + WORD := SizeAt(blocks, 0)]
    ensures Trailers(w', [b] + blocks, chunk)
  {
    var all, t := [b] + blocks, TrailerOf(b);
    forall i | 0 <= i < |all| ensures TrailerOk(w', all, i) {
      if i > 0 {
        assert all[i] == blocks[i - 1] && TrailerOk(w, blocks, i - 1) && Separate(all[0], all[i]);
      }
    }
  }

  lemma FreeMissesTrailer(k: Books, b: Extent, chunk: nat)
    requires Balanced(k, chunk) && k.blocks != [] && k.blocks[0] == b && BlockOk(b, chunk)
    ensures forall i :: 0 <= i < |k.free| ==> k.free[i] !in [TrailerOf(b), TrailerOf(b) + WORD]
  {
    forall i | 0 <= i < |k.free| ensures k.free[i] !in [TrailerOf(b), TrailerOf(b) + WORD] {
      var c := k.free[i];
      assert c in k.free;
      CellsMissTrailers(k.blocks, c, 0, chunk);
    }
  }

  /** The chunks of the grown pool miss the trailers of the old blocks. */
  lemma CarvedMisses(grown: Books, blocks: seq<Extent>, b: Extent, chunk: nat)
    requires Balanced(grown, chunk) && BlocksOk(blocks, chunk) && grown.blocks == [b] + blocks
    ensures forall c :: c in grown.free ==> Misses(c, blocks, chunk)
  {
    forall c | c in grown.free ensures Misses(c, blocks, chunk) {
      CellMisses(grown.blocks, c, chunk);
      forall i | 0 <= i < |blocks| ensures c != TrailerOf(blocks[i]) && c != TrailerOf(blocks[i]) + WORD {
        assert grown.blocks[i + 1] == blocks[i];
      }
    }
  }

  /** The members of a list into which a row was inserted. */
  lemma Inserted(chunks: seq<int>, row: seq<int>, i: nat)
    requires i <= |chunks|
    ensures forall c :: c in chunks[..i] + row + chunks[i..] <==> c in chunks || c in row
    ensures i == 0 ==> chunks[..i] + row + chunks[i..] == row + chunks
  {
    assert chunks == chunks[..i] + chunks[i..];
  }

  lemma RowIsArray(p: int, n: nat, chunk: nat)
    ensures forall c :: c in Row(p, chunk, n) <==> InArray(c, p, n, chunk)
  {
    forall c ensures c in Row(p, chunk, n) <==> InArray(c, p, n, chunk) {
      if InArray(c, p, n, chunk) {
        var t: nat :| t < n && c == At(p, t, chunk);
        assert c == Row(p, chunk, n)[t];
      }
      if c in Row(p, chunk, n) {
        var t: nat :| t < n && c == Row(p, chunk, n)[t];
        assert c == At(p, t, chunk);
      }
    }
  }

  lemma CarvedIsFree(k: Books, b: Extent, chunk: nat)
    requires Balanced(k, chunk) && BlockOk(b, chunk)
    requires forall c :: InArray(c, b.ptr, Carved(b, chunk), chunk) ==> c in k.free
    ensures k.free != []
  {
    StartIsInArray(b.ptr, Carved(b, chunk), chunk);
  }

  /** The chunks of a new block are in no list yet. */
  lemma NewRowIsNew(k: Books, b: Extent, chunk: nat)
    requires Balanced(k, chunk) && BlockOk(b, chunk)
    requires forall i :: 0 <= i < |k.blocks| ==> Separate(b, k.blocks[i])
    ensures forall t :: 0 <= t < Carved(b, chunk) ==> Row(b.ptr, chunk, Carved(b, chunk))[t] !in k.free
  {
    forall t | 0 <= t < Carved(b, chunk) ensures Row(b.ptr, chunk, Carved(b, chunk))[t] !in k.free {
      var c := At(b.ptr, t, chunk);
      assert InArray(c, b.ptr, Carved(b, chunk), chunk);
      NewCellsAreNew(k.blocks, b, c, chunk);
    }
  }

  // ----- small facts about the books -----

  lemma SingleArray(p: int, chunk: nat)
    ensures forall c :: InArray(c, p, 1, chunk) <==> c == p
  {
    forall c ensures InArray(c, p, 1, chunk) <==> c == p {
      assert At(p, 0, chunk) == p;
      if InArray(c, p, 1, chunk) { var t: nat :| t < 1 && c == At(p, t, chunk); }
    }
  }

  lemma FirstTaken(k: Books, chunk: nat)
    requires Balanced(k, chunk) && k.free != []
    ensures Distinct(k.free[1..])
    ensures forall c :: c in k.free[1..] <==> c in k.free && c != k.free[0]
  {
    assert k.free == [k.free[0]] + k.free[1..];
  }

  lemma FreeAreCells(k: Books, chunk: nat)
    requires Balanced(k, chunk)
    ensures forall c :: c in k.free ==> IsCell(k.blocks, c, chunk)
    ensures forall p, c :: p in k.live && InArray(c, p, k.live[p], chunk) ==> IsCell(k.blocks, c, chunk)
  {
  }

  lemma LiveIsNotFree(k: Books, p: int, chunk: nat)
    requires Balanced(k, chunk) && p in k.live
    ensures p > 0 && p !in k.free && k.live[p] > 0
    ensures forall c :: InArray(c, p, k.live[p], chunk) ==> c !in k.free
  {
    StartIsInArray(p, k.live[p], chunk);
    assert IsLive(k.live, p, chunk);
    var i, t: nat :| 0 <= i < |k.blocks| && t < Carved(k.blocks[i], chunk) && p == At(k.blocks[i].ptr, t, chunk);
    CellBounds(k.blocks[i], t, chunk);
  }

  lemma {:induction false} RunIsArray(chunks: seq<int>, i: nat, n: nat, chunk: nat, t: nat)
    requires Adjacent(chunks, i, n, chunk) && t <= n
    ensures chunks[i + t] == At(chunks[i], t, chunk)
  {
    if t > 0 {
      RunIsArray(chunks, i, n, chunk, t - 1);
      assert NextTo(chunks, i + t - 1, chunk);
      assert t * chunk == (t - 1) * chunk + chunk;
    }
  }

  lemma RunTaken(free: seq<int>, rest: seq<int>, i: nat, n: nat, chunk: nat)
    requires Distinct(free) && n > 0 && Adjacent(free, i, n, chunk) && rest == free[..i] + free[i + n..]
    ensures forall c :: InArray(c, free[i], n, chunk) ==> c in free
    ensures forall c :: c in rest <==> c in free && !InArray(c, free[i], n, chunk)
  {
    forall c ensures InArray(c, free[i], n, chunk) <==> c in free[i..i + n] {
      if InArray(c, free[i], n, chunk) {
        var t: nat :| t < n && c == At(free[i], t, chunk);
        RunIsArray(free, i, n, chunk, t);
        assert c == free[i..i + n][t];
      }
      if c in free[i..i + n] {
        var t: nat :| t < n && c == free[i..i + n][t];
        RunIsArray(free, i, n, chunk, t);
      }
    }
    assert free == free[..i] + free[i..i + n] + free[i + n..];
  }

  lemma CountIsPositive(n: nat, requested: nat, chunk: nat)
    requires n > 0 && requested > 0 && chunk > 0
    ensures ChunkCount(n, requested, chunk) > 0
  {
    assert n * requested > 0;
  }

  /** A whole number of chunks is carved into one chunk less, but at least one. */
  lemma ExactMultiple(count: nat, chunk: nat)
    requires chunk > 0 && count > 0
    ensures chunk <= chunk * count
    ensures ChunkTotal(chunk * count, chunk) == if count >= 2 then count - 1 else 1
  {
    assert chunk * count - 1 == (count - 1) * chunk + (chunk - 1);
    QuotientIs(chunk * count - 1, chunk, count - 1);
  }

  lemma PartOfArray(p: int, m: nat, n: nat, chunk: nat)
    requires m <= n
    ensures forall c :: InArray(c, p, m, chunk) ==> InArray(c, p, n, chunk)
  {
  }

  lemma LastIsDropped(p: int, count: nat, chunk: nat)
    requires chunk > 0 && count > 0
    ensures var m := if count >= 2 then count - 1 else 1;
            forall c :: InArray(c, p, count, chunk) && !InArray(c, p, m, chunk)
                        <==> count >= 2 && c == At(p, count - 1, chunk)
  {
    var m := if count >= 2 then count - 1 else 1;
    forall c
      ensures InArray(c, p, count, chunk) && !InArray(c, p, m, chunk) <==> count >= 2 && c == At(p, count - 1, chunk)
    {
      if InArray(c, p, count, chunk) && !InArray(c, p, m, chunk) {
        var t: nat :| t < count && c == At(p, t, chunk);
        assert t >= m;
      }
      if count >= 2 && c == At(p, count - 1, chunk) && InArray(c, p, m, chunk) {
        var t: nat :| t < m && c == At(p, t, chunk);
        SpacedOut(t, count - 1, chunk);
        assert false;
      }
    }
  }

  /** Which chunk of an array of `n` an offset `x` falls into. */
  lemma ChunkOf(x: nat, n: nat, chunk: nat) returns (t: nat)
    requires chunk > 0 && x < n * chunk
    ensures t < n && t * chunk <= x < t * chunk + chunk
  {
    t := x / chunk;
    assert x == t * chunk + x % chunk;
    SpacedOut(if n <= t then n else t, if n <= t then t else n, chunk);
  }

  /** An address inside an array in use lies in one of its chunks, which is a carved one. */
  lemma InsideChunk(k: Books, p: int, a: int, chunk: nat) returns (d: int)
    requires Balanced(k, chunk) && p in k.live && p <= a < p + k.live[p] * chunk
    ensures InArray(d, p, k.live[p], chunk) && IsCell(k.blocks, d, chunk) && d <= a < d + chunk
  {
    var t := ChunkOf(a - p, k.live[p], chunk);
    d := At(p, t, chunk);
    assert InArray(d, p, k.live[p], chunk) && IsLive(k.live, d, chunk);
  }

  /** An address inside an array in use is neither a free chunk nor part of a trailer. */
  lemma InsideArray(k: Books, p: int, a: int, chunk: nat)
    requires Balanced(k, chunk) && p in k.live && p <= a < p + k.live[p] * chunk
    ensures a !in k.free && Misses(a, k.blocks, chunk)
  {
    LiveMissesTheRest(k, p, a, chunk);
    forall i | 0 <= i < |k.blocks| ensures a != TrailerOf(k.blocks[i]) && a != TrailerOf(k.blocks[i]) + WORD {
      var d := InsideChunk(k, p, a, chunk);
      CellsMissTrailers(k.blocks, d, i, chunk);
    }
  }

  /**
   Whatever address lies in an array in use lies in no other array in use, in no free or
   lost chunk and in no trailer.
   */
  lemma LiveMissesTheRest(k: Books, p: int, a: int, chunk: nat)
    requires Balanced(k, chunk) && p in k.live && p <= a < p + k.live[p] * chunk
    ensures forall q :: q in k.live && q != p ==> !(q <= a < q + k.live[q] * chunk)
    ensures forall c :: c in k.free || c in k.dropped ==> !(c <= a < c + chunk)
    ensures forall i :: 0 <= i < |k.blocks| ==> !(TrailerOf(k.blocks[i]) <= a < TrailerOf(k.blocks[i]) + TRAILER)
  {
    var d := InsideChunk(k, p, a, chunk);
    forall q | q in k.live && q != p ensures !(q <= a < q + k.live[q] * chunk) {
      if q <= a < q + k.live[q] * chunk {
        var e := InsideChunk(k, q, a, chunk);
        if d != e { CellsAreApart(k.blocks, d, e, chunk); }
        assert false;
      }
    }
    forall c | c in k.free || c in k.dropped ensures !(c <= a < c + chunk) {
      assert IsLive(k.live, d, chunk) && c != d;
      CellsAreApart(k.blocks, c, d, chunk);
    }
    forall i | 0 <= i < |k.blocks| ensures !(TrailerOf(k.blocks[i]) <= a < TrailerOf(k.blocks[i]) + TRAILER) {
      CellsMissTrailers(k.blocks, d, i, chunk);
    }
  }

  // ----- how many chunks -----

  ghost function Total(blocks: seq<Extent>, chunk: nat): nat
    requires BlocksOk(blocks, chunk)
  {
    if blocks == [] then 0 else Carved(blocks[0], chunk) + Total(blocks[1..], chunk)
  }

  ghost function Pick(s: set<int>): (p: int)
    requires s != {}
    ensures p in s
  {
    assert (forall p :: p !in s) ==> s == {};
    var p :| p in s; p
  }

  ghost function InUse(live: map<int, nat>): nat
    decreases |live|
  {
    if live.Keys == {} then 0 else
      var p := Pick(live.Keys);
      assert |live - {p}| < |live| by {
        assert live.Keys == (live - {p}).Keys + {p};
        assert |live.Keys| == |(live - {p}).Keys| + 1;
      }
      live[p] + InUse(live - {p})
  }

  ghost function Cells(p: int, n: nat, chunk: nat): set<int> { set t | 0 <= t < n :: At(p, t, chunk) }

  lemma {:induction false} CellsCount(p: int, n: nat, chunk: nat)
    requires chunk > 0
    ensures |Cells(p, n, chunk)| == n
    ensures forall c :: c in Cells(p, n, chunk) <==> InArray(c, p, n, chunk)
  {
    if n > 0 {
      CellsCount(p, n - 1, chunk);
      var last := At(p, n - 1, chunk);
      assert Cells(p, n, chunk) == Cells(p, n - 1, chunk) + {last};
      forall t: nat | t < n - 1 ensures At(p, t, chunk) != last { SpacedOut(t, n - 1, chunk); }
    }
  }

  /** The carved chunks, as a set as large as the blocks say. */
  lemma {:induction false} CellSet(blocks: seq<Extent>, chunk: nat) returns (all: set<int>)
    requires BlocksOk(blocks, chunk) && chunk > 0
    ensures |all| == Total(blocks, chunk) && forall c :: c in all <==> IsCell(blocks, c, chunk)
  {
    if blocks == [] { return {}; }
    var b, rest := blocks[0], blocks[1..];
    assert [b] + rest == blocks;
    var others := CellSet(rest, chunk);
    var own := Cells(b.ptr, Carved(b, chunk), chunk);
    CellsCount(b.ptr, Carved(b, chunk), chunk);
    all := own + others;
    forall c ensures c in all <==> IsCell(blocks, c, chunk) { GrownCells(rest, b, c, chunk); }
    forall c | c in own ensures c !in others { NewCellsAreNew(rest, b, c, chunk); }
    assert own * others == {};
  }

  /** The chunks in use, as a set as large as the arrays are long. */
  lemma {:induction false} LiveSet(live: map<int, nat>, chunk: nat) returns (used: set<int>)
    requires Disjoint(live, chunk) && chunk > 0
    ensures |used| == InUse(live) && forall c :: c in used <==> IsLive(live, c, chunk)
    decreases |live|
  {
    if live.Keys == {} { return {}; }
    var p := Pick(live.Keys);
    var rest := live - {p};
    assert live.Keys == rest.Keys + {p};
    assert |live.Keys| == |rest.Keys| + 1;
    var others := LiveSet(rest, chunk);
    var own := Cells(p, live[p], chunk);
    CellsCount(p, live[p], chunk);
    used := own + others;
    forall c ensures IsLive(live, c, chunk) <==> IsLive(rest, c, chunk) || InArray(c, p, live[p], chunk) {
      LiveWithout(live, p, c, chunk);
    }
    forall c | c in own ensures c !in others { }
    assert own * others == {};
  }

  lemma LiveWithout(live: map<int, nat>, p: int, c: int, chunk: nat)
    requires p in live
    ensures IsLive(live, c, chunk) <==> IsLive(live - {p}, c, chunk) || InArray(c, p, live[p], chunk)
  {
    var rest := live - {p};
    if IsLive(live, c, chunk) {
      var q :| q in live && InArray(c, q, live[q], chunk);
      if q != p { assert q in rest && InArray(c, q, rest[q], chunk); }
    }
    if IsLive(rest, c, chunk) {
      var q :| q in rest && InArray(c, q, rest[q], chunk);
      assert q in live && InArray(c, q, live[q], chunk);
    }
  }

  lemma {:induction false} DistinctCount(s: seq<int>) returns (m: set<int>)
    requires Distinct(s)
    ensures |m| == |s| && forall c :: c in m <==> c in s
  {
    if s == [] { return {}; }
    var rest := DistinctCount(s[1..]);
    var first := s[0];
    m := rest + {first};
    assert s == [first] + s[1..];
    assert first !in s[1..] && first !in rest;
  }

  /** Conservation: what was carved is what is free, in use or lost. */
  lemma NothingIsLostUncounted(k: Books, chunk: nat)
    requires Balanced(k, chunk)
    ensures Total(k.blocks, chunk) == |k.free| + InUse(k.live) + |k.dropped|
  {
    var all := CellSet(k.blocks, chunk);
    var used := LiveSet(k.live, chunk);
    var free := DistinctCount(k.free);
    forall c ensures c in all <==> c in free + used + k.dropped {
      assert IsCell(k.blocks, c, chunk) <==> c in k.free || IsLive(k.live, c, chunk) || c in k.dropped;
    }
    forall c: int | c in free ensures c !in used && c !in k.dropped { assert c in k.free; }
    forall c: int | c in k.dropped ensures c !in used { }
    assert all == free + used + k.dropped && free !! used && (free + used) !! k.dropped;
  }

  // ----- a new block and the runs of free chunks -----

  /** A chunk of another block is never next to a chunk of this one: a trailer is in between. */
  lemma BlocksDoNotTouch(blocks: seq<Extent>, b: Extent, c: int, t: nat, chunk: nat)
    requires BlocksOk(blocks, chunk) && BlockOk(b, chunk) && IsCell(blocks, c, chunk) && t < Carved(b, chunk)
    requires forall i :: 0 <= i < |blocks| ==> Separate(b, blocks[i])
    ensures c + chunk != At(b.ptr, t, chunk) && At(b.ptr, t, chunk) + chunk != c
  {
    var i, s: nat :| 0 <= i < |blocks| && s < Carved(blocks[i], chunk) && c == At(blocks[i].ptr, s, chunk);
    CellBounds(blocks[i], s, chunk);
    CellBounds(b, t, chunk);
  }

  ghost predicate HasRun(free: seq<int>, n: nat, chunk: nat) { exists k: nat :: Adjacent(free, k, n, chunk) }

  /** The first `n` chunks that have one more behind them, from `p` on, have left the list. */
  ghost predicate FirstRunTaken(free: seq<int>, rest: seq<int>, p: int, n: nat, chunk: nat) {
    exists i: nat ::
      && Adjacent(free, i, n, chunk) && (forall k: nat :: k < i ==> !Adjacent(free, k, n, chunk))
      && p == free[i] && rest == free[..i] + free[i + n..]
  }

  lemma FirstRunAt(free: seq<int>, rest: seq<int>, i: nat, n: nat, chunk: nat)
    requires Adjacent(free, i, n, chunk) && forall k: nat :: k < i ==> !Adjacent(free, k, n, chunk)
    requires rest == free[..i] + free[i + n..]
    ensures FirstRunTaken(free, rest, free[i], n, chunk)
  {
  }

  /** The free list after the `n` chunks from `p` on were inserted at position `i`. */
  ghost function WithRow(free: seq<int>, p: int, n: nat, i: nat, chunk: nat): seq<int>
    requires i <= |free|
  {
    free[..i] + Row(p, chunk, n) + free[i..]
  }

  /** A run that is not in the old list needs a new block with one chunk more than it takes. */
  lemma RunsAfterGrowth(k: Books, b: Extent, i: nat, n: nat, chunk: nat)
    requires Balanced(k, chunk) && BlockOk(b, chunk) && i <= |k.free| && n > 0 && !HasRun(k.free, n, chunk)
    requires forall i :: 0 <= i < |k.blocks| ==> Separate(b, k.blocks[i])
    ensures HasRun(WithRow(k.free, b.ptr, Carved(b, chunk), i, chunk), n, chunk) <==> Carved(b, chunk) > n
  {
    var m := Carved(b, chunk);
    var r := WithRow(k.free, b.ptr, m, i, chunk);
    assert i > 0 ==> !NextTo(r, i - 1, chunk) by {
      if i > 0 { assert k.free[i - 1] in k.free; BlocksDoNotTouch(k.blocks, b, k.free[i - 1], 0, chunk); }
    }
    assert !NextTo(r, i + m - 1, chunk) by {
      if i < |k.free| { assert k.free[i] in k.free; BlocksDoNotTouch(k.blocks, b, k.free[i], m - 1, chunk); }
    }
    if m > n { RowIsARun(k.free, b.ptr, m, i, n, chunk); }
    if HasRun(r, n, chunk) {
      var a: nat :| Adjacent(r, a, n, chunk);
      RunInOnePart(k.free, b.ptr, m, i, n, chunk, a);
    }
  }

  lemma RowIsARun(free: seq<int>, p: int, m: nat, i: nat, n: nat, chunk: nat)
    requires i <= |free| && m > n
    ensures HasRun(WithRow(free, p, m, i, chunk), n, chunk)
  {
    var r := WithRow(free, p, m, i, chunk);
    forall t | i <= t < i + n ensures NextTo(r, t, chunk) {
      assert r[t] == p + (t - i) * chunk && r[t + 1] == p + (t + 1 - i) * chunk;
      assert (t + 1 - i) * chunk == (t - i) * chunk + chunk;
    }
    assert Adjacent(r, i, n, chunk);
  }

  lemma RunInOnePart(free: seq<int>, p: int, m: nat, i: nat, n: nat, chunk: nat, a: nat)
    requires i <= |free| && m > 0 && n > 0 && !HasRun(free, n, chunk)
    requires var r := WithRow(free, p, m, i, chunk);
             (i > 0 ==> !NextTo(r, i - 1, chunk)) && !NextTo(r, i + m - 1, chunk) && Adjacent(r, a, n, chunk)
    ensures m > n
  {
    var r := WithRow(free, p, m, i, chunk);
    assert !(a <= i - 1 < a + n) && !(a <= i + m - 1 < a + n);
    if a + n < i {
      forall t | a <= t < a + n ensures NextTo(free, t, chunk) { assert NextTo(r, t, chunk); }
      assert Adjacent(free, a, n, chunk);
    } else if a >= i + m {
      forall t | a - m <= t < a - m + n ensures NextTo(free, t, chunk) { assert NextTo(r, t + m, chunk); }
      assert Adjacent(free, a - m, n, chunk);
    }
  }

  /** The chunks in a block of `units` chunk sizes: the trailer takes a part of the last ones. */
  lemma CarvedUnits(units: nat, chunk: nat)
    requires chunk > 0 && chunk % WORD == 0 && units * chunk >= chunk + 2 * TRAILER
    ensures Offset(units * chunk) >= chunk
    ensures ChunkTotal(Offset(units * chunk), chunk) == units - (if chunk == 8 then 3 else if chunk == 16 then 2 else 1)
  {
    var size, lost := units * chunk, if chunk == 8 then 3 else if chunk == 16 then 2 else 1;
    MultipleOfWord(units, chunk);
    assert Offset(size) == size - TRAILER;
    assert units > lost by {
      SpacedOut(if units <= lost then units else lost, lost, chunk);
    }
    assert (units - lost) * chunk == size - lost * chunk && (units - lost + 1) * chunk == size - lost * chunk + chunk;
    QuotientIs(size - TRAILER - 1, chunk, units - lost);
  }

  lemma MultipleOfWord(units: nat, chunk: nat)
    requires chunk % WORD == 0
    ensures units * chunk % WORD == 0
  {
    var q := chunk / WORD;
    assert units * chunk == WORD * (units * q) by { assert chunk == WORD * q; }
  }

  /** Which blocks hold a run of `n` chunks and one more. */
  lemma LargeEnough(units: nat, n: nat, chunk: nat)
    requires chunk > 0 && chunk % WORD == 0 && n > 0 && units * chunk >= n * chunk + 2 * TRAILER
    ensures Offset(units * chunk) >= chunk
    ensures ChunkTotal(Offset(units * chunk), chunk) <= n <==>
      (chunk == 16 && units == n + 2) || (chunk > 24 && units == n + 1)
  {
    hide Offset, ChunkTotal;
    AtLeastOne(n, chunk);
    CarvedUnits(units, chunk);
    if chunk > 24 { AtLeast(units, n, chunk, 1); } else { AtLeast(units, n, chunk, 2); }
    if chunk == 8 { AtLeast(units, n, chunk, 4); }
  }

  lemma AtLeastOne(n: nat, chunk: nat)
    requires n > 0
    ensures n * chunk >= chunk
  {
  }

  lemma AtLeast(units: nat, n: nat, chunk: nat, more: nat)
    requires units * chunk > (n + more) * chunk - chunk
    ensures units >= n + more
  {
    if units < n + more { SpacedOut(units, n + more, chunk); }
  }

  lemma {:induction false} GrownUnits(units: nat, least: nat, chunk: nat) returns (n: nat)
    requires units > 0 && chunk > 0 && units * chunk > 0
    ensures Grown(units * chunk, least) == n * chunk
    decreases if units * chunk < least then least - units * chunk else 0
  {
    n := units;
    if units * chunk < least {
      assert 2 * units * chunk == units * chunk * 2;
      n := GrownUnits(2 * units, least, chunk);
    }
  }

  /**
   When a block that was requested for `n` chunks does not serve a request for them: the
   block just fits them, and the search wants one chunk more.
   */
  lemma WhenTooSmall(next: nat, n: nat, chunk: nat)
    requires next > 0 && n > 0 && chunk > 0 && chunk % WORD == 0 && next * chunk > 0
    ensures var size := Grown(next * chunk, n * chunk + 2 * TRAILER);
            ChunkTotal(Offset(size), chunk) <= n <==>
              (chunk == 16 && size == (n + 2) * chunk) || (chunk > 24 && size == (n + 1) * chunk)
  {
    var units := GrownUnits(next, n * chunk + 2 * TRAILER, chunk);
    LargeEnough(units, n, chunk);
    SameProduct(units, n + 1, chunk);
    SameProduct(units, n + 2, chunk);
  }

  lemma SameProduct(a: nat, b: nat, chunk: nat)
    requires chunk > 0
    ensures a * chunk == b * chunk <==> a == b
  {
    if a < b { SpacedOut(a, b, chunk); }
    if b < a { SpacedOut(b, a, chunk); }
  }

  /** The first block of a pool of 32-byte objects is too small for an array of 31. */
  lemma FirstBlockTooSmall()
    ensures ChunkTotal(Offset(Grown(32 * 32, 31 * 32 + 2 * TRAILER)), 32) <= 31
  {
    WhenTooSmall(32, 31, 32);
  }
}
