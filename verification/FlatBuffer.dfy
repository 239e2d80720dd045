/**
 The flat buffer (include/gpcl/flat_buffer.hpp): one block of bytes with a readable part
 between `input` and `output` and a writable part behind it.  The pointers of the source are
 offsets from `start_` here.
 */
module FlatBuffer {

  const MAX_SIZE := 0x7fff_ffff  // INT_MAX
  const WORDS := 0x1_0000_0000_0000_0000  // values of a size_t

  function Min(a: nat, b: nat): nat { if a <= b then a else b }

  /** The sum of two `size_t`s. */
  function Sum(a: nat, b: nat): (r: nat)
    requires a < WORDS && b < WORDS
    ensures r == if a + b < WORDS then a + b else a + b - WORDS
  {
    (a + b) % WORDS
  }

  /** What `prepare` does: it gives a region, throws, or writes outside the new block. */
  datatype Prepared = Region(offset: nat, length: nat) | LengthError | Overrun

  class Buffer {
    var block: array<char>  // start_ up to end_
    var input: nat
    var output: nat
    ghost var committed: seq<char>  // all bytes ever committed
    ghost var consumed: nat         // how many of them were consumed

    /** The readable bytes are the committed ones behind those that were consumed. */
    ghost predicate Valid()
      reads this, block
    {
      && input <= output <= block.Length <= MAX_SIZE
      && consumed <= |committed|
      && block[input..output] == committed[consumed..]
    }

    /** `data()`. */
    ghost function Data(): seq<char>
      reads this, block
      requires Valid()
    {
      block[input..output]
    }

    constructor ()
      ensures Valid() && committed == [] && consumed == 0 && fresh(block)
    {
      block := new char[0];
      input, output, committed, consumed := 0, 0, [], 0;
    }

    /** `memmove` to the front of the block, byte by byte from below. */
    method MoveDown(size: nat)
      requires input + size <= block.Length
      modifies block
      ensures block[..size] == old(block[input..input + size])
    {
      ghost var source := block[input..input + size];
      var i := 0;
      while i < size
        invariant 0 <= i <= size
        invariant forall t :: 0 <= t < i ==> block[t] == source[t]
        invariant forall t :: input + i <= t < block.Length ==> block[t] == old(block[t])
      {
        assert block[input + i] == source[i];
        block[i] := block[input + i];
        i := i + 1;
      }
    }

    /** A larger block with the readable bytes at its front (`memcpy`). */
    method Reallocate(capacity: nat, size: nat) returns (b: array<char>)
      requires size <= capacity && input + size <= block.Length
      ensures fresh(b) && b.Length == capacity && b[..size] == block[input..input + size]
    {
      b := new char[capacity];
      forall i | 0 <= i < size { b[i] := block[input + i]; }
    }

    /** `prepare(n)`: room for `n` bytes behind the readable ones, which stay as they are. */
    method Prepare(n: nat) returns (r: Prepared)
      requires Valid() && n < WORDS
      modifies this, block
      ensures Valid() && committed == old(committed) && consumed == old(consumed) && Data() == old(Data())
      ensures r == if |Data()| + n >= WORDS then Overrun
                   else if |Data()| + n > MAX_SIZE then LengthError
                   else Region(output, n)
      ensures r.Region? ==> output + n <= block.Length
      ensures r.Region? && |Data()| + n <= old(block.Length) ==> block == old(block)
      ensures r.Region? && |Data()| + n > old(block.Length) ==> fresh(block) && block.Length == |Data()| + n
      ensures r.Region? && old(output) + n <= old(block.Length) ==> input == old(input) && output == old(output)
      ensures r.Region? && old(output) + n > old(block.Length) ==> input == 0
      ensures !r.Region? ==>
        block == old(block) && block[..] == old(block[..]) && input == old(input) && output == old(output)
    {
      hide Sum;
      var size := output - input;
      if Sum(size, n) > MAX_SIZE { return LengthError; }
      if block.Length - output < n {
        if block.Length - output + input >= n {
          MoveDown(size);
          input, output := 0, size;
        } else {
          if Sum(size, n) < size { return Overrun; }
          block := Reallocate(Sum(size, n), size);
          input, output := 0, size;
        }
      }
      r := Region(output, n);
    }

    /** The user fills the prepared region; nothing can be read of it yet. */
    method Write(i: nat, c: char)
      requires Valid() && output <= i < block.Length
      modifies block
      ensures Valid() && Data() == old(Data()) && block[..] == old(block[..])[i := c]
    {
      block[i] := c;
      assert block[input..output] == old(block[input..output]);
    }

    /** `commit(n)`: at most what the block holds becomes readable. */
    method Commit(n: nat)
      requires Valid()
      modifies this
      ensures Valid() && block == old(block) && consumed == old(consumed)
      ensures committed == old(committed) + block[old(output)..Min(old(output) + n, block.Length)]
      ensures Data() == old(Data()) + block[old(output)..Min(old(output) + n, block.Length)]
    {
      ghost var was := output;
      output := output + n;
      if output > block.Length { output := block.Length; }
      committed := committed + block[was..output];
      assert block[input..output] == block[input..was] + block[was..output];
    }

    /** `consume(n)`: at most what is readable goes. */
    method Consume(n: nat)
      requires Valid()
      modifies this
      ensures Valid() && block == old(block) && committed == old(committed)
      ensures consumed == old(consumed) + Min(n, |old(Data())|)
      ensures Data() == old(Data())[Min(n, |old(Data())|)..]
    {
      ghost var was := input;
      input := input + n;
      if input > output { input := output; }
      consumed := consumed + (input - was);
      assert block[input..output] == block[was..output][input - was..];
    }

    /** The user fills the region from its beginning. */
    method Fill(bytes: seq<char>)
      requires Valid() && output + |bytes| <= block.Length
      modifies block
      ensures Valid() && Data() == old(Data()) && block[output..output + |bytes|] == bytes
    {
      var i := 0;
      while i < |bytes|
        invariant i <= |bytes| && Valid() && Data() == old(Data())
        invariant block[output..output + i] == bytes[..i]
      {
        ghost var was := block[output..output + i];
        Write(output + i, bytes[i]);
        assert block[..][output..output + i] == was;
        assert block[output..output + (i + 1)] == was + [bytes[i]];
        i := i + 1;
      }
    }

    /** Prepare, fill, commit: the bytes arrive behind those that wait, or nothing changes. */
    method Feed(bytes: seq<char>) returns (r: Prepared)
      requires Valid() && |bytes| < WORDS
      modifies this, block
      ensures Valid() && consumed == old(consumed) && (block == old(block) || fresh(block))
      ensures r.Region? <==> |old(Data())| + |bytes| <= MAX_SIZE
      ensures Data() == if r.Region? then old(Data()) + bytes else old(Data())
      ensures committed == if r.Region? then old(committed) + bytes else old(committed)
    {
      r := Prepare(|bytes|);
      if !r.Region? { return; }
      FillAndCommit(bytes);
    }

    /** The region is there: what was filled in is appended. */
    method FillAndCommit(bytes: seq<char>)
      requires Valid() && output + |bytes| <= block.Length
      modifies this, block
      ensures Valid() && block == old(block) && consumed == old(consumed)
      ensures Data() == old(Data()) + bytes && committed == old(committed) + bytes
    {
      Fill(bytes);
      Commit(|bytes|);
    }
  }
}
