/**
 The allocator object of process_pool.cpp: a bitmap of 32 bit words scanned and changed in place.
 */
module ProcessPool {
  import opened PoolSpec
  import opened Wrappers

  /** The bits of a memory word, lowest first. */
  type Word = w: seq<bool> | |w| == 32 witness seq(32, i => false)

  /** All words as one sequence of bits. */
  ghost function Bits(words: seq<Word>): (bits: seq<bool>)
    ensures |bits| == 32 * |words|
  {
    seq(32 * |words|, i requires 0 <= i < 32 * |words| => words[i / 32][i % 32])
  }

  class ProcessPool {
    const poolBase: nat
    const poolSize: nat
    /** The bitmap, and the memory that follows it. */
    const memory: array<Word>
    var allocatedBlocks: map<nat, nat>

    ghost function Value(): Pool
      reads this, memory
    {
      Pool(poolBase, poolSize / BLOCK_SIZE, Bits(memory[..]), allocatedBlocks)
    }

    /** The pool is made of whole blocks, and the bitmap of whole words. */
    ghost predicate Consistent()
      reads this, memory
    {
      poolSize % (32 * BLOCK_SIZE) == 0 && Valid(Value())
    }

    /** The bitmap is cleared; what follows it stays as it is. */
    constructor (poolBase: nat, poolSize: nat, memory: array<Word>)
      requires poolBase % BLOCK_SIZE == 0 && poolSize % (32 * BLOCK_SIZE) == 0
               && 32 * memory.Length >= 2 * (poolSize / BLOCK_SIZE)
      modifies memory
      ensures Consistent() && allocatedBlocks == map[]
      ensures this.poolBase == poolBase && this.poolSize == poolSize && this.memory == memory
      ensures memory[poolSize / BLOCK_SIZE / 32..] == old(memory[poolSize / BLOCK_SIZE / 32..])
    {
      this.poolBase, this.poolSize, this.memory, this.allocatedBlocks := poolBase, poolSize, memory, map[];
      new;
      hide Valid, PowerOfTwo, Bits, Free;
      var words := poolSize / BLOCK_SIZE / 32;
      assert 32 * words == poolSize / BLOCK_SIZE;
      ClearWords(memory, words);
      EmptyValid(Value());
    }

    static method ClearWords(memory: array<Word>, words: nat)
      requires words <= memory.Length
      modifies memory
      ensures Free(Bits(memory[..]), 0, 32 * words) && memory[words..] == old(memory[words..])
    {
      for i := 0 to words
        invariant forall k :: 0 <= k < i ==> memory[k] == seq(32, j => false)
        invariant memory[words..] == old(memory[words..])
      {
        memory[i] := seq(32, j => false);
      }
      forall i | 0 <= i < 32 * words ensures !Bits(memory[..])[i] {
        assert memory[i / 32] == seq(32, j => false);
      }
    }

    method TestBit(bit: nat) returns (b: bool)
      requires bit < 32 * memory.Length
      ensures b == Bits(memory[..])[bit]
    {
      b := memory[bit / 32][bit % 32];
    }

    method SetBit(bit: nat, ghost before: seq<bool>)
      requires bit < 32 * memory.Length && before == Bits(memory[..])
      modifies memory
      ensures Bits(memory[..]) == before[bit := true]
    {
      memory[bit / 32] := memory[bit / 32][bit % 32 := true];
      SameBits(before[bit := true], memory[..]);
    }

    method ClearBit(bit: nat, ghost before: seq<bool>)
      requires bit < 32 * memory.Length && before == Bits(memory[..])
      modifies memory
      ensures Bits(memory[..]) == before[bit := false]
    {
      memory[bit / 32] := memory[bit / 32][bit % 32 := false];
      SameBits(before[bit := false], memory[..]);
    }

    static lemma SameBits(bits: seq<bool>, words: seq<Word>)
      requires |bits| == 32 * |words| && forall i :: 0 <= i < |bits| ==> bits[i] == words[i / 32][i % 32]
      ensures Bits(words) == bits
    {
    }

    /** Whether n bits from i on are all clear. */
    method TestRun(i: nat, n: nat) returns (notEmpty: bool)
      requires i + n <= 32 * memory.Length
      ensures notEmpty <==> !Free(Bits(memory[..]), i, n)
    {
      notEmpty := false;
      var j := 0;
      while j < n
        invariant j <= n && !notEmpty && Free(Bits(memory[..]), i, j)
      {
        var b := TestBit(i + j);
        if b {
          return true;
        }
        j := j + 1;
      }
    }

    static lemma FillStep(bits: seq<bool>, i: nat, k: nat, value: bool)
      requires i + k < |bits|
      ensures |Fill(bits, i, k, value)| == |bits|
              && Fill(bits, i, k, value)[i + k := value] == Fill(bits, i, k + 1, value)
    {
    }

    static lemma FillNone(bits: seq<bool>, i: nat)
      requires i <= |bits|
      ensures Fill(bits, i, 0, true) == Fill(bits, i, 0, false) == bits
    {
    }

    method SetRun(i: nat, n: nat)
      requires i + n <= 32 * memory.Length
      modifies memory
      ensures Bits(memory[..]) == Fill(old(Bits(memory[..])), i, n, true)
    {
      hide Fill, Bits;
      ghost var before := Bits(memory[..]);
      FillNone(before, i);
      for j := 0 to n
        invariant Bits(memory[..]) == Fill(before, i, j, true)
      {
        SetBit(i + j, Bits(memory[..]));
        FillStep(before, i, j, true);
      }
    }

    method ClearRun(i: nat, n: nat)
      requires i + n <= 32 * memory.Length
      modifies memory
      ensures Bits(memory[..]) == Fill(old(Bits(memory[..])), i, n, false)
    {
      hide Fill, Bits;
      ghost var before := Bits(memory[..]);
      FillNone(before, i);
      for bit := i to i + n
        invariant Bits(memory[..]) == Fill(before, i, bit - i, false)
      {
        ClearBit(bit, Bits(memory[..]));
        FillStep(before, i, bit - i, false);
      }
    }

    /** The scan of allocate. */
    method Search(size: nat) returns (found: Option<nat>)
      requires Readable(Value()) && poolSize % BLOCK_SIZE == 0 && Fits(Value(), size)
      ensures found == Find(Value(), size) && (found.Some? ==> found.value <= poolSize / BLOCK_SIZE)
    {
      hide Free, Bits, PowerOfTwo;
      ghost var p := Value();
      SizeInBlocks(p, size);
      var offset := 0;
      if poolBase % size != 0 {
        offset := size - poolBase % size;
      }
      var sizeBit := size / BLOCK_SIZE;
      var i := offset / BLOCK_SIZE;
      while i <= poolSize / BLOCK_SIZE
        invariant Find(p, size) == Scan(p.bits, i, sizeBit, p.blocks)
        decreases p.blocks + 1 - i
      {
        var notEmpty := TestRun(i, sizeBit);
        if !notEmpty {
          return Some(i);
        }
        i := i + sizeBit;
      }
      return None;
    }

    /** Without the memory behind the bitmap reading as occupied, what is handed out may lie outside the pool. */
    method Allocate(size: nat) returns (r: Outcome)
      requires Consistent()
      modifies this, memory
      ensures (Value(), r) == PoolSpec.Allocate(old(Value()), size)
      ensures old(TailOccupied(Value())) ==> Consistent() && TailOccupied(Value())
    {
      ghost var p := Value();
      assert Readable(p);
      hide Valid, TailOccupied, PoolSpec.Allocate;
      if TailOccupied(p) {
        AllocateValid(p, size);
      }
      r := Take(size);
    }

    method Take(size: nat) returns (r: Outcome)
      requires Readable(Value()) && poolSize % BLOCK_SIZE == 0
      modifies this, memory
      ensures (Value(), r) == PoolSpec.Allocate(old(Value()), size)
    {
      hide Free, Fill, Find, Bits;
      ghost var p := Value();
      var ok := IsPowerOfTwo(size);
      if !ok || size > poolSize || size < BLOCK_SIZE {
        return RuntimeError;
      }
      SizeInBlocks(p, size);
      var found := Search(size);
      if found.None? {
        return BadAlloc;
      }
      SetRun(found.value, size / BLOCK_SIZE);
      var result := poolBase + found.value * BLOCK_SIZE;
      allocatedBlocks := allocatedBlocks[result := size];
      return Granted(result);
    }

    /** size & (size - 1) is zero, for a size that is not. */
    static method IsPowerOfTwo(size: nat) returns (b: bool)
      ensures b == PowerOfTwo(size)
    {
      var x := size;
      while x > 1 && x % 2 == 0
        invariant PowerOfTwo(x) == PowerOfTwo(size)
      {
        x := x / 2;
      }
      b := x == 1;
    }

    method Deallocate(ptr: nat) returns (ok: bool)
      requires Consistent()
      modifies this, memory
      ensures ok == (ptr in old(allocatedBlocks)) && Consistent()
      ensures Value() == if ok then Given(old(Value()), ptr) else old(Value())
      ensures old(TailOccupied(Value())) ==> TailOccupied(Value())
    {
      hide Fill, TailOccupied, LiveOk, BitmapOk;
      if ptr !in allocatedBlocks {
        return false;
      }
      GivenValid(Value(), ptr);
      var size := allocatedBlocks[ptr] / BLOCK_SIZE;
      var firstBit := (ptr - poolBase) / BLOCK_SIZE;
      ClearRun(firstBit, size);
      allocatedBlocks := allocatedBlocks - {ptr};
      return true;
    }
  }
}
