/**
 The pool allocator (include/gpcl/pool.hpp): blocks from a user allocator, each carved into
 chunks for the segregated storage and ended by a trailer that names the block before it.
 */
module Pool {
  import opened Basics
  import opened Storage
  import opened PoolBooks

  class MemoryPool {
    const requestedSize: nat
    const chunkSize: nat
    const memory: Memory
    const storage: SegregatedStorage
    var nextSize: nat
    var blockPtr: int
    var blockSize: nat
    ghost var books: Books

    ghost predicate Valid()
      reads this, memory, storage
    {
      && requestedSize > 0 && chunkSize > 0 && chunkSize % WORD == 0 && nextSize > 0
      && storage.memory == memory && storage.Valid() && books.free == storage.chunks
      && Balanced(books, chunkSize)
      && Trailers(memory.words, books.blocks, chunkSize)
      && blockPtr == PtrAt(books.blocks, 0) && blockSize == SizeAt(books.blocks, 0)
    }

    /** `chunkSize` is a common multiple of the object size and the word sizes. */
    constructor (requestedSize: nat, chunkSize: nat)
      requires requestedSize > 0 && chunkSize > 0 && chunkSize % requestedSize == 0 && chunkSize % WORD == 0
      ensures Valid() && books == Books([], [], map[], {})
      ensures this.requestedSize == requestedSize && this.chunkSize == chunkSize && nextSize == 32
      ensures fresh(memory) && fresh(storage)
    {
      this.requestedSize := requestedSize;
      this.chunkSize := chunkSize;
      var m := new Memory();
      memory := m;
      storage := new SegregatedStorage(m);
      nextSize := 32;
      blockPtr := 0;
      blockSize := 0;
      books := Books([], [], map[], {});
    }

    /** The size `request_new_block(least)` asks the user allocator for. */
    ghost function BlockBytes(least: nat): nat
      reads this
      requires chunkSize > 0 && nextSize > 0
    {
      Grown(nextSize * chunkSize, least + 2 * TRAILER)
    }

    /** What the user allocator may answer: null, or memory that overlaps no block of the pool. */
    ghost predicate Answer(given: int, least: nat)
      reads this
      requires chunkSize > 0 && nextSize > 0
    {
      given == 0 || (given > 0 && forall i :: 0 <= i < |books.blocks| ==>
        Separate(Extent(given, BlockBytes(least)), books.blocks[i]))
    }

    /** The free list after a block was carved into it. */
    ghost function Refilled(free: seq<int>, b: Extent, ordered: bool): seq<int>
      requires BlockOk(b, chunkSize)
    {
      WithRow(free, b.ptr, Carved(b, chunkSize), if ordered then UpperBound(free, b.ptr) else 0, chunkSize)
    }

    /** `request_new_block`; `given` is the user allocator's answer. */
    method RequestNewBlock(least: nat, ordered: bool, given: int) returns (ok: bool)
      requires Valid() && least >= chunkSize && Answer(given, least)
      modifies this, storage, memory
      ensures Valid() && nextSize == 2 * old(nextSize)
      ensures ok <==> given != 0
      ensures !ok ==> books == old(books)
      ensures ok ==> books.live == old(books.live) && books.dropped == old(books.dropped)
      ensures ok ==> books.blocks == [Extent(given, old(BlockBytes(least)))] + old(books.blocks)
      ensures ok ==>
        books.free != [] && books.free == Refilled(old(books.free), Extent(given, old(BlockBytes(least))), ordered)
    {
      hide Balanced, Trailers, Linked, Distinct, WithRow, Grown, ChunkTotal;
      var sz := nextSize * chunkSize;
      assert sz > 0 by { assert nextSize * chunkSize >= chunkSize; }
      sz := DoubleUntil(sz, least + 2 * TRAILER);
      nextSize := nextSize * 2;
      if given == 0 { return false; }
      ghost var b := Extent(given, sz);
      assert BlockOk(b, chunkSize);
      AddBlock(given, sz, ordered);
      ok := true;
    }

    /** The loop that doubles the size. */
    method DoubleUntil(start: nat, least: nat) returns (sz: nat)
      requires start > 0
      ensures sz == Grown(start, least)
    {
      sz := start;
      while sz < least
        invariant sz > 0 && Grown(start, least) == Grown(sz, least)
        decreases if sz < least then least - sz else 0
      {
        sz := sz * 2;
      }
    }

    /** `add_block`: carves the block and writes its trailer. */
    method AddBlock(ptr: int, sz: nat, ordered: bool)
      requires Valid() && BlockOk(Extent(ptr, sz), chunkSize)
      requires forall i :: 0 <= i < |books.blocks| ==> Separate(Extent(ptr, sz), books.blocks[i])
      modifies this, storage, memory
      ensures Valid() && nextSize == old(nextSize)
      ensures books.live == old(books.live) && books.dropped == old(books.dropped)
      ensures books.blocks == [Extent(ptr, sz)] + old(books.blocks) && books.free != []
      ensures books.free == Refilled(old(books.free), Extent(ptr, sz), ordered)
    {
      hide Balanced, SameOutside, Misses, InArray, Linked, Distinct, WithRow, BlocksOk;
      ghost var b, k := Extent(ptr, sz), books;
      var chunksSize := Offset(sz);
      ghost var w := memory.words;
      Carve(ptr, chunksSize, ordered, b);
      GrowKeepsBooks(k, storage.chunks, b, chunkSize);
      ghost var grown := k.(blocks := [b] + k.blocks, free := storage.chunks);
      CarvedMisses(grown, k.blocks, b, chunkSize);
      CarvedIsFree(grown, b, chunkSize);
      TrailersKept(w, memory.words, storage.chunks, k.blocks, chunkSize);
      WriteTrailer(ptr, chunksSize, grown, b);
      blockPtr := ptr;
      blockSize := sz;
      books := grown;
    }

    /** Hands the chunk area of a new block to the storage. */
    method Carve(ptr: int, chunksSize: nat, ordered: bool, ghost b: Extent)
      requires Valid() && BlockOk(b, chunkSize) && ptr == b.ptr && chunksSize == Offset(b.size)
      requires forall i :: 0 <= i < |books.blocks| ==> Separate(b, books.blocks[i])
      modifies storage, memory
      ensures storage.Valid()
      ensures forall c :: c in storage.chunks <==> c in books.free || InArray(c, b.ptr, Carved(b, chunkSize), chunkSize)
      ensures SameOutside(old(memory.words), memory.words, storage.chunks)
      ensures storage.chunks == Refilled(old(storage.chunks), b, ordered)
    {
      hide Balanced, Linked, BlocksOk, Trailers, InArray, UpperBound, Distinct, Row;
      ghost var n := Carved(b, chunkSize);
      ghost var row := Row(ptr, chunkSize, n);
      NewRowIsNew(books, b, chunkSize);
      if ordered {
        storage.AddOrderedBlock(ptr, chunksSize, chunkSize);
        Inserted(old(storage.chunks), row, UpperBound(old(storage.chunks), ptr));
      } else {
        storage.AddBlock(ptr, chunksSize, chunkSize);
        Inserted(old(storage.chunks), row, 0);
      }
      RowIsArray(ptr, n, chunkSize);
    }

    method WriteTrailer(ptr: int, chunksSize: nat, ghost grown: Books, ghost b: Extent)
      requires storage.memory == memory && storage.Valid() && Balanced(grown, chunkSize)
      requires grown.free == storage.chunks && grown.blocks == [b] + books.blocks
      requires ptr == b.ptr && BlockOk(b, chunkSize) && chunksSize == Offset(b.size)
      requires blockPtr == PtrAt(books.blocks, 0) && blockSize == SizeAt(books.blocks, 0)
      requires Trailers(memory.words, books.blocks, chunkSize)
      modifies memory
      ensures storage.Valid() && Trailers(memory.words, grown.blocks, chunkSize)
    {
      ghost var t := TrailerOf(b);
      ghost var w := memory.words;
      memory.words := memory.words[ptr + chunksSize := blockPtr][ptr + chunksSize + WORD := blockSize];
      TrailerAdded(w, memory.words, books.blocks, b, chunkSize);
      FreeMissesTrailer(grown, b, chunkSize);
      hide Balanced, Trailers, BlocksOk;
      LinkedElsewhere(w, memory.words, [t, t + WORD], storage.chunks, 0);
    }

    /** The first free chunk becomes an array of one. */
    method TakeOne() returns (p: int)
      requires Valid() && books.free != []
      modifies this, storage
      ensures Valid() && p > 0 && p !in old(books.live)
      ensures books == old(books).(free := old(books.free)[1..], live := old(books.live)[p := 1])
      ensures p == old(books.free)[0]
      ensures unchanged(this`nextSize)
    {
      hide Balanced, Trailers, Linked;
      ghost var k := books;
      p := storage.Malloc();
      SingleArray(p, chunkSize);
      FirstTaken(k, chunkSize);
      TakeKeepsBooks(k, storage.chunks, p, 1, chunkSize);
      books := k.(free := storage.chunks, live := k.live[p := 1]);
    }

    /** `malloc` and `ordered_malloc` of one object; they differ in how a new block is added. */
    method Malloc(ordered: bool, given: int) returns (p: int)
      requires Valid() && Answer(given, chunkSize)
      modifies this, storage, memory
      ensures Valid()
      ensures p == 0 <==> old(books.free) == [] && given == 0
      ensures p == 0 ==> books == old(books)
      ensures p != 0 ==>
        && p !in old(books.live) && books.live == old(books.live)[p := 1] && books.dropped == old(books.dropped)
        && books.blocks == (if old(books.free) != [] then old(books.blocks)
                            else [Extent(given, old(BlockBytes(chunkSize)))] + old(books.blocks))
        && [p] + books.free == (if old(books.free) != [] then old(books.free)
                                else Refilled([], Extent(given, old(BlockBytes(chunkSize))), ordered))
    {
      var empty := storage.Empty();
      if empty {
        var ok := RequestNewBlock(chunkSize, ordered, given);
        if !ok { return 0; }
      }
      p := TakeOne();
    }

    /** `storage_.malloc_n(count)`: the chunks found become an array. */
    method TakeRun(count: nat) returns (p: int)
      requires Valid() && count > 0
      modifies this, storage, memory
      ensures Valid() && unchanged(this`nextSize)
      ensures p == 0 <==> !HasRun(old(books.free), count, chunkSize)
      ensures p == 0 ==> books == old(books)
      ensures p != 0 ==>
        && p !in old(books.live) && books.live == old(books.live)[p := count]
        && books.dropped == old(books.dropped) && books.blocks == old(books.blocks)
        && FirstRunTaken(old(books.free), books.free, p, count, chunkSize)
    {
      hide Balanced, Trailers, Linked, Adjacent, InArray, Distinct, SameOutside, IsCell, FirstRunTaken;
      ghost var k, w := books, memory.words;
      ghost var i;
      p, i := storage.MallocN(count, chunkSize);
      if p != 0 {
        FirstRunAt(k.free, storage.chunks, i, count, chunkSize);
        RunTaken(k.free, storage.chunks, i, count, chunkSize);
        TakeKeepsBooks(k, storage.chunks, p, count, chunkSize);
        FreeAreCells(k, chunkSize);
        BooksKeepTrailers(w, memory.words, k.free, k, chunkSize);
        books := k.(free := storage.chunks, live := k.live[p := count]);
      }
    }

    /** `ordered_malloc(n)`: tries the free list, then a new block, then the free list again. */
    method MallocArray(n: nat, given: int) returns (p: int)
      requires Valid() && n > 0 && Answer(given, ChunkCount(n, requestedSize, chunkSize) * chunkSize)
      modifies this, storage, memory
      ensures Valid() && books.dropped == old(books.dropped)
      ensures var count := ChunkCount(n, requestedSize, chunkSize);
              var grows := !HasRun(old(books.free), count, chunkSize) && given != 0;
              var b := Extent(given, old(BlockBytes(count * chunkSize)));
              && books.blocks == (if grows then [b] + old(books.blocks) else old(books.blocks))
              && var free := if grows then Refilled(old(books.free), b, true) else old(books.free);
                 if p == 0 then books.free == free else FirstRunTaken(free, books.free, p, count, chunkSize)
      ensures var count := ChunkCount(n, requestedSize, chunkSize);
              && (p == 0 <==> !HasRun(old(books.free), count, chunkSize) && (given == 0 || old(TooSmall(count))))
              && (p == 0 ==> books.live == old(books.live))
              && (p != 0 ==> p !in old(books.live) && books.live == old(books.live)[p := count])
    {
      var count := ChunkCount(n, requestedSize, chunkSize);
      CountIsPositive(n, requestedSize, chunkSize);
      hide Balanced, Trailers, HasRun, ChunkCount, Linked, Distinct, WithRow, Grown, Offset, ChunkTotal, FirstRunTaken;
      p := TakeRun(count);
      if p != 0 { return; }
      assert count * chunkSize >= chunkSize;
      ghost var k, b := books, Extent(given, BlockBytes(count * chunkSize));
      var ok := RequestNewBlock(count * chunkSize, true, given);
      if ok { RunsAfterGrowth(k, b, UpperBound(k.free, given), count, chunkSize); }
      p := TakeRun(count);
    }

    /** The block that would be requested cannot hold `count` chunks and one more. */
    ghost predicate TooSmall(count: nat)
      reads this
      requires chunkSize > 0 && nextSize > 0
    {
      ChunkTotal(Offset(BlockBytes(count * chunkSize)), chunkSize) <= count
    }

    /** `free` and `ordered_free` of one object. */
    method Free(p: int, ordered: bool)
      requires Valid() && p in books.live && books.live[p] == 1
      modifies this, storage, memory
      ensures Valid() && unchanged(this`nextSize)
      ensures books.live == old(books.live) - {p} && books.dropped == old(books.dropped)
      ensures books.blocks == old(books.blocks)
      ensures books.free ==
        WithRow(old(books.free), p, 1, if ordered then UpperBound(old(books.free), p) else 0, chunkSize)
    {
      hide Balanced, Trailers, Linked, InArray, UpperBound, Distinct, SameOutside, IsCell;
      ghost var k, w := books, memory.words;
      LiveIsNotFree(k, p, chunkSize);
      SingleArray(p, chunkSize);
      FreeAreCells(k, chunkSize);
      PutBack(p, ordered);
      GiveKeepsBooks(k, storage.chunks, k.dropped, p, 1, chunkSize);
      BooksKeepTrailers(w, memory.words, [p] + k.free, k, chunkSize);
      books := Books(k.blocks, storage.chunks, k.live - {p}, k.dropped);
    }

    /** One chunk back to the storage. */
    method PutBack(p: int, ordered: bool)
      requires storage.Valid() && storage.memory == memory && p > 0 && p !in storage.chunks
      modifies storage, memory
      ensures storage.Valid()
      ensures forall c :: c in storage.chunks <==> c in old(storage.chunks) || c == p
      ensures storage.chunks ==
        WithRow(old(storage.chunks), p, 1, if ordered then UpperBound(old(storage.chunks), p) else 0, chunkSize)
      ensures SameOutside(old(memory.words), memory.words, [p] + old(storage.chunks))
    {
      hide Linked, UpperBound, Distinct;
      assert Row(p, chunkSize, 1) == [p];
      if ordered {
        storage.OrderedFree(p);
        Inserted(old(storage.chunks), [p], UpperBound(old(storage.chunks), p));
      } else {
        storage.Free(p);
        Inserted(old(storage.chunks), [p], 0);
      }
    }

    /** `ordered_free(ptr, n)`: of two chunks or more the last one is lost. */
    method FreeArray(p: int, n: nat)
      requires Valid() && p in books.live && books.live[p] == ChunkCount(n, requestedSize, chunkSize)
      modifies this, storage, memory
      ensures Valid() && unchanged(this`nextSize)
      ensures books.live == old(books.live) - {p} && books.blocks == old(books.blocks)
      ensures var count := old(books.live[p]);
              && books.dropped == old(books.dropped) + (if count >= 2 then {At(p, count - 1, chunkSize)} else {})
              && books.free == WithRow(old(books.free), p, if count >= 2 then count - 1 else 1,
                                       UpperBound(old(books.free), p), chunkSize)
    {
      hide Balanced, Trailers, Linked, InArray, UpperBound, Distinct;
      hide Row, ChunkTotal, SameOutside, IsCell, At, ChunkCount;
      ghost var k, w := books, memory.words;
      var count := ChunkCount(n, requestedSize, chunkSize);
      ghost var m := if count >= 2 then count - 1 else 1;
      ghost var dropped := k.dropped + if count >= 2 then {At(p, count - 1, chunkSize)} else {};
      ghost var row := Row(p, chunkSize, m);
      LiveIsNotFree(k, p, chunkSize);
      ExactMultiple(count, chunkSize);
      LastIsDropped(p, count, chunkSize);
      RowIsArray(p, m, chunkSize);
      FreeAreCells(k, chunkSize);
      PartOfArray(p, m, count, chunkSize);
      storage.AddOrderedBlock(p, chunkSize * count, chunkSize);
      Inserted(k.free, row, UpperBound(k.free, p));
      GiveKeepsBooks(k, storage.chunks, dropped, p, m, chunkSize);
      BooksKeepTrailers(w, memory.words, row + k.free, k, chunkSize);
      books := Books(k.blocks, storage.chunks, k.live - {p}, dropped);
    }

    /** The owner of an array may write anything anywhere in it. */
    method UserWrite(p: int, a: int, v: int)
      requires Valid() && p in books.live && p <= a < p + books.live[p] * chunkSize
      modifies memory
      ensures Valid() && memory.words == old(memory.words)[a := v]
    {
      ghost var w := memory.words;
      InsideArray(books, p, a, chunkSize);
      memory.words := memory.words[a := v];
      hide Balanced, Trailers, Linked, InArray, Misses, Distinct;
      LinkedElsewhere(w, memory.words, [a], storage.chunks, 0);
      TrailersKept(w, memory.words, [a], books.blocks, chunkSize);
    }

    /** The destructor: walks the trailers and gives every block back. */
    method Destroy() returns (freed: seq<int>)
      requires Valid()
      ensures |freed| == |books.blocks|
      ensures forall i :: 0 <= i < |freed| ==> freed[i] == books.blocks[i].ptr
      ensures forall i, j :: 0 <= i < j < |freed| ==> freed[i] != freed[j]
    {
      freed := [];
      var ptr, size := blockPtr, blockSize;
      while ptr != 0
        invariant |freed| <= |books.blocks|
        invariant ptr == PtrAt(books.blocks, |freed|) && size == SizeAt(books.blocks, |freed|)
        invariant forall i :: 0 <= i < |freed| ==> freed[i] == books.blocks[i].ptr
        decreases |books.blocks| - |freed|
      {
        ghost var i := |freed|;
        assert TrailerOk(memory.words, books.blocks, i) && BlockOk(books.blocks[i], chunkSize);
        var next, nextSize := memory.words[ptr + Offset(size)], memory.words[ptr + Offset(size) + WORD];
        freed := freed + [ptr];
        ptr, size := next, nextSize;
      }
      forall i, j | 0 <= i < j < |freed| ensures freed[i] != freed[j] {
        assert Separate(books.blocks[i], books.blocks[j]) && BlockOk(books.blocks[i], chunkSize);
      }
    }
  }
}
