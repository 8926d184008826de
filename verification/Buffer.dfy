/** The growable block of bytes behind the decoder. */
module Buffers {
  import opened Bytes
  import opened Decoding
  import opened Wrappers

  class Buffer {
    /** The buffer itself. */
    var block: array<byte>
    /** Where the used bytes end.  While the block is taken away this still describes the block that
        was taken, and may lie beyond the one that stands in for it. */
    var offset: nat

    ghost predicate Valid()
      reads this
    {
      offset <= block.Length && WholeBlocks(block.Length)
    }

    /** The used bytes. */
    function Data(): seq<byte>
      requires offset <= block.Length
      reads this, block
    {
      block[..offset]
    }

    constructor ()
      ensures Valid() && fresh(block)
      ensures block.Length == BLOCK_SIZE && Data() == []
    {
      block := new byte[BLOCK_SIZE](_ => 0);
      offset := 0;
    }

    /** Marks `numBytes` more bytes as used, or all there are. */
    method ExtendUsed(numBytes: nat)
      requires Valid()
      modifies this`offset
      ensures Valid()
      ensures old(offset) + numBytes <= block.Length ==> Data() == old(Data()) + block[old(offset)..][..numBytes]
      ensures old(offset) + numBytes > block.Length ==> Data() == block[..]
    {
      offset := offset + numBytes;
      if offset > block.Length {
        offset := block.Length;
      }
    }

    /** Makes room for one more byte, and for `required` bytes in all; fails, changing nothing,
        exactly when that would exceed the limit. */
    method EnsureCapacity(required: nat) returns (ok: bool)
      requires Valid()
      modifies this`block
      ensures Valid() && Data() == old(Data())
      ensures ok <==> !(required > MAX_CAPACITY || offset == old(block.Length) == MAX_CAPACITY)
      ensures !ok ==> block == old(block)
      ensures ok ==> offset < block.Length && required <= block.Length
      ensures ok ==> Ensured(offset, old(block.Length), required) == Some(block.Length)
      ensures block == old(block) || fresh(block)
    {
      EnsuredIsEnough(offset, block.Length, required);
      var freeBytes := block.Length - offset;
      var extraBytesNeeded := if required > block.Length then required - block.Length else 0;
      if freeBytes == 0 || extraBytesNeeded > 0 {
        var increase := if extraBytesNeeded > BLOCK_SIZE then extraBytesNeeded else BLOCK_SIZE;
        GrowthIsEnsured(offset, block.Length, required);
        ok := Grow(increase);
        if !ok {
          return;
        }
      }
      assert offset < block.Length;
      ok := true;
    }

    /** Adds `numBytes` bytes, rounded up to whole blocks, unless that exceeds the limit. */
    method Grow(numBytes: nat) returns (ok: bool)
      requires Valid()
      modifies this`block
      ensures Valid() && Data() == old(Data())
      ensures ok <==> RoundUp(old(block.Length) + numBytes) <= MAX_CAPACITY
      ensures ok ==> block.Length == RoundUp(old(block.Length) + numBytes)
      ensures !ok ==> block == old(block)
      ensures block == old(block) || fresh(block)
    {
      var minSize := block.Length + numBytes;
      var n := minSize % BLOCK_SIZE;
      var newSize := if n == 0 then minSize else minSize + (BLOCK_SIZE - n);
      RoundUpByRemainder(minSize);
      if newSize > MAX_CAPACITY {
        return false;
      }
      var old_ := block;
      block := new byte[newSize](i requires 0 <= i reads old_ => if i < old_.Length then old_[i] else 0);
      ok := true;
    }

    /** Hands out the block, leaving an empty one in its place: until the block comes back, or the
        buffer is reset, `offset` does not describe the block that is there. */
    method TakeBlock() returns (taken: array<byte>)
      requires Valid()
      modifies this`block
      ensures taken == old(block) && taken[..] == old(block[..])
      ensures fresh(block) && block.Length == BLOCK_SIZE
      ensures offset <= taken.Length && taken[..offset] == old(Data())
    {
      taken := block;
      block := new byte[BLOCK_SIZE](_ => 0);
    }

    /** A new block with the given bytes and room behind them.  It checks no bound; that the result is
        within the limit is the caller's business. */
    method ResetWithData(data: seq<byte>)
      modifies this
      ensures offset == |data| < block.Length && Data() == data
      ensures block.Length == ResetCapacity(|data|)
      ensures |data| < MAX_CAPACITY ==> Valid()
      ensures fresh(block)
    {
      var minSize := |data|;
      var n := minSize % BLOCK_SIZE;
      var newSize := if n == 0 then minSize + BLOCK_SIZE else minSize + (BLOCK_SIZE - n);
      ResetByRemainder(minSize);
      if |data| < MAX_CAPACITY {
        ResetCapacityFits(|data|);
      }
      block := new byte[newSize](i requires 0 <= i => if i < |data| then data[i] else 0);
      offset := |data|;
    }

    /** Puts back the block that was taken. */
    method ReturnBlock(taken: array<byte>)
      requires offset <= taken.Length && WholeBlocks(taken.Length)
      modifies this`block
      ensures block == taken && Valid()
    {
      block := taken;
    }
  }

  /** Both ways of rounding come to the next multiple of the block size. */
  lemma RoundUpByRemainder(n: nat)
    ensures RoundUp(n) == (if n % BLOCK_SIZE == 0 then n else n + (BLOCK_SIZE - n % BLOCK_SIZE))
  {
  }

  lemma ResetByRemainder(n: nat)
    ensures ResetCapacity(n) == (n / BLOCK_SIZE + 1) * BLOCK_SIZE
    ensures ResetCapacity(n) == (if n % BLOCK_SIZE == 0 then n + BLOCK_SIZE else n + (BLOCK_SIZE - n % BLOCK_SIZE))
  {
  }

  /** What growing by the chosen increase gives is the capacity that was to be ensured. */
  lemma GrowthIsEnsured(used: nat, size: nat, required: nat)
    requires WholeBlocks(size) && used <= size
    requires used == size || required > size
    ensures var extra := if required > size then required - size else 0;
            var grown := RoundUp(size + if extra > BLOCK_SIZE then extra else BLOCK_SIZE);
            Ensured(used, size, required) == if grown <= MAX_CAPACITY then Some(grown) else None
  {
    if required > size {
      IncreaseIsRounding(size, required);
      if required <= MAX_CAPACITY {
        RoundUpIsLeast(required, MAX_CAPACITY);
      }
    } else {
      RoundUpIs(size + BLOCK_SIZE, size + BLOCK_SIZE);
    }
  }

  /** Rounding gives the only multiple within a block's reach. */
  lemma RoundUpIs(n: nat, size: nat)
    requires size % BLOCK_SIZE == 0 && n <= size < n + BLOCK_SIZE
    ensures RoundUp(n) == size
  {
    RoundUpIsLeast(n, size);
  }

  /** Growing by at least a block to hold `required` bytes gives exactly `required` rounded up. */
  lemma IncreaseIsRounding(size: nat, required: nat)
    requires size % BLOCK_SIZE == 0 && size < required
    ensures RoundUp(size + (if required - size > BLOCK_SIZE then required - size else BLOCK_SIZE)) == RoundUp(required)
  {
    if required - size <= BLOCK_SIZE {
      RoundUpIs(size + BLOCK_SIZE, size + BLOCK_SIZE);
      RoundUpIs(required, size + BLOCK_SIZE);
    }
  }
}
