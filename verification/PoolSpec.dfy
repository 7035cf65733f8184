/**
 The allocator of process images on values: a bitmap with a bit for every block of the pool, and the memory that
 follows it.
 */
module PoolSpec {
  import opened CArith
  import opened Wrappers

  /** In bytes. */
  const BLOCK_SIZE := 1024

  /** `base` is an address, `blocks` the size of the pool in blocks, and `live` gives the size in bytes of every block
      handed out, by address.  The first `blocks` bits are the bitmap; the others lie behind it in memory. */
  datatype Pool = Pool(base: nat, blocks: nat, bits: seq<bool>, live: map<nat, nat>)

  predicate PowerOfTwo(x: nat) {
    x == 1 || (x > 1 && x % 2 == 0 && PowerOfTwo(x / 2))
  }

  /** The sizes that are not refused. */
  predicate Fits(p: Pool, size: nat) {
    PowerOfTwo(size) && BLOCK_SIZE <= size <= p.blocks * BLOCK_SIZE
  }

  /** The first block whose address is a multiple of the size. */
  function StartBit(p: Pool, size: nat): nat
    requires size > 0
  {
    (if p.base % size != 0 then size - p.base % size else 0) / BLOCK_SIZE
  }

  predicate Free(bits: seq<bool>, i: nat, n: nat)
    requires i + n <= |bits|
  {
    forall j :: i <= j < i + n ==> !bits[j]
  }

  /** Bits behind the bitmap can be read far enough for every size. */
  predicate Readable(p: Pool) {
    |p.bits| >= 2 * p.blocks
  }

  /** j is i, or any number of steps of n after it. */
  predicate OnGrid(i: int, n: nat, j: int)
    requires n > 0
  {
    j >= i && (j - i) % n == 0
  }

  /** The scan for n blocks: every n-th position from i up to, and including, the end of the pool. */
  function Scan(bits: seq<bool>, i: nat, n: nat, end: nat): Option<nat>
    requires n > 0 && end + n <= |bits|
    decreases end - i
  {
    if i > end then None
    else if Free(bits, i, n) then Some(i)
    else Scan(bits, i + n, n, end)
  }

  function Find(p: Pool, size: nat): Option<nat>
    requires Readable(p) && Fits(p, size)
  {
    Scan(p.bits, StartBit(p, size), size / BLOCK_SIZE, p.blocks)
  }

  /** n bits from i on get the same value. */
  function Fill(bits: seq<bool>, i: nat, n: nat, value: bool): (r: seq<bool>)
    requires i + n <= |bits|
  {
    bits[..i] + seq(n, j => value) + bits[i + n..]
  }

  function Address(p: Pool, i: nat): nat {
    p.base + i * BLOCK_SIZE
  }

  /** The pool after `size` bytes were handed out at block i. */
  function Taken(p: Pool, i: nat, size: nat): Pool
    requires i + size / BLOCK_SIZE <= |p.bits|
  {
    p.(bits := Fill(p.bits, i, size / BLOCK_SIZE, true), live := p.live[Address(p, i) := size])
  }

  /** The first bit of a block. */
  function BitOf(p: Pool, ptr: nat): int {
    (ptr - p.base) / BLOCK_SIZE
  }

  /** The pool after a live block was given back. */
  function Given(p: Pool, ptr: nat): Pool
    requires ptr in p.live && 0 <= BitOf(p, ptr) && BitOf(p, ptr) + p.live[ptr] / BLOCK_SIZE <= |p.bits|
  {
    p.(bits := Fill(p.bits, BitOf(p, ptr), p.live[ptr] / BLOCK_SIZE, false), live := p.live - {ptr})
  }

  // ---------------------------------------------------------------- what always holds

  /** Block i of the pool belongs to the live block at ptr. */
  predicate Covers(p: Pool, ptr: nat, i: nat) {
    ptr in p.live && ptr <= Address(p, i) < ptr + p.live[ptr]
  }

  /** The pool starts at a multiple of the block size. */
  predicate Aligned(p: Pool) {
    p.base % BLOCK_SIZE == 0
  }

  /** Live blocks are aligned to their size, inside the pool, and apart from each other. */
  predicate LiveOk(p: Pool) {
    && (forall ptr :: ptr in p.live ==>
          && PowerOfTwo(p.live[ptr]) && p.live[ptr] >= BLOCK_SIZE && ptr % p.live[ptr] == 0
          && p.base <= ptr && ptr + p.live[ptr] <= Address(p, p.blocks))
    && forall x, y :: x in p.live && y in p.live && x < y ==> x + p.live[x] <= y
  }

  /** A bit of the bitmap is set exactly when its block is in use. */
  ghost predicate BitmapOk(p: Pool)
    requires p.blocks <= |p.bits|
  {
    forall i :: 0 <= i < p.blocks ==> (p.bits[i] <==> exists ptr :: Covers(p, ptr, i))
  }

  ghost predicate Valid(p: Pool) {
    Readable(p) && Aligned(p) && LiveOk(p) && BitmapOk(p)
  }

  /** The memory behind the bitmap reads as occupied. */
  predicate TailOccupied(p: Pool) {
    forall i :: p.blocks <= i < |p.bits| ==> p.bits[i]
  }

  // ---------------------------------------------------------------- alignment

  /** A power of two is a multiple of every smaller one. */
  lemma {:induction false} PowersDivide(a: nat, b: nat)
    requires PowerOfTwo(a) && PowerOfTwo(b) && a <= b
    ensures a > 0 && b % a == 0
  {
    if a > 1 {
      PowersDivide(a / 2, b / 2);
      var h, q := a / 2, b / 2 / (a / 2);
      assert b / 2 == h * q + b / 2 % h;
      assert b == 2 * (h * q) == a * q;
      ModOfMultiple(a, q);
    }
  }

  lemma ModOfMultiple(a: nat, k: nat)
    requires a > 0
    ensures (a * k) % a == 0 && (a * k) / a == k
  {
    assert a * (k + 1) == a * k + a;
    QuotientIs(a * k, a, k);
    assert (a * k) == a * ((a * k) / a) + (a * k) % a;
  }

  lemma BlockSizePower()
    ensures PowerOfTwo(BLOCK_SIZE)
  {
  }

  lemma SizeInBlocks(p: Pool, size: nat)
    requires Fits(p, size)
    ensures size / BLOCK_SIZE > 0 && size == size / BLOCK_SIZE * BLOCK_SIZE && size / BLOCK_SIZE <= p.blocks
  {
    BlockSizePower();
    PowersDivide(BLOCK_SIZE, size);
  }

  lemma ModPlus(a: int, m: int, k: int)
    requires m > 0
    ensures (a + m * k) % m == a % m
  {
    var q := a / m;
    assert m * (q + k) == m * q + m * k;
    QuotientIs(a + m * k, m, q + k);
  }

  /** The positions the scan looks at are those whose address is a multiple of the size. */
  lemma CandidateIff(p: Pool, size: nat, i: nat)
    requires Aligned(p) && Fits(p, size)
    ensures size / BLOCK_SIZE > 0 && (Address(p, i) % size == 0 <==> OnGrid(StartBit(p, size), size / BLOCK_SIZE, i))
  {
    SizeInBlocks(p, size);
    var n, start := size / BLOCK_SIZE, StartBit(p, size);
    StartAligned(p, size);
    var a, k := Address(p, start), i - start;
    assert Address(p, i) == a + k * BLOCK_SIZE;
    var c := a / size;
    assert a == size * c;
    ModPlus(k * BLOCK_SIZE, size, c);
    BlockMultiple(k, n);
    if k < 0 && Address(p, i) % size == 0 {
      var j := Address(p, i) / size;
      assert Address(p, i) == size * j;
      assert size * (c - j) == size * c - size * j;
      Multiple(size, c - j);
      assert false;
    }
  }

  lemma BlockMultiple(k: int, n: nat)
    requires n > 0
    ensures (k * BLOCK_SIZE) % (n * BLOCK_SIZE) == 0 <==> k % n == 0
  {
    var q, m := k / n, k % n;
    assert k == n * q + m;
    assert k * BLOCK_SIZE == (n * BLOCK_SIZE) * q + m * BLOCK_SIZE by {
      assert (n * q) * BLOCK_SIZE == (n * BLOCK_SIZE) * q;
    }
    QuotientIs(k * BLOCK_SIZE, n * BLOCK_SIZE, q);
  }

  /** The scan starts at the first multiple of the size that is not before the pool. */
  lemma StartAligned(p: Pool, size: nat)
    requires Aligned(p) && Fits(p, size)
    ensures Address(p, StartBit(p, size)) % size == 0 && Address(p, StartBit(p, size)) < p.base + size
  {
    SizeInBlocks(p, size);
    var n, r := size / BLOCK_SIZE, p.base % size;
    var c := p.base / size;
    assert p.base == size * c + r;
    assert size * c == BLOCK_SIZE * (n * c) by {
      assert (BLOCK_SIZE * n) * c == BLOCK_SIZE * (n * c);
    }
    assert r % BLOCK_SIZE == 0 by { ModPlus(r, BLOCK_SIZE, n * c); }
    var start := StartBit(p, size);
    if r != 0 {
      assert start * BLOCK_SIZE == size - r;
      assert Address(p, start) == size * c + size == size * (c + 1);
      ModOfMultiple(size, c + 1);
    }
  }

  // ---------------------------------------------------------------- the scan

  lemma {:induction false} ScanIff(bits: seq<bool>, i: nat, n: nat, end: nat)
    requires n > 0 && end + n <= |bits|
    ensures match Scan(bits, i, n, end)
            case Some(k) => k <= end && OnGrid(i, n, k) && Free(bits, k, n)
                            && forall j: nat :: j < k && OnGrid(i, n, j) ==> !Free(bits, j, n)
            case None => forall j: nat :: j <= end && OnGrid(i, n, j) ==> !Free(bits, j, n)
    decreases end - i
  {
    hide Free, OnGrid;
    forall j: nat ensures OnGrid(i, n, j) <==> j == i || OnGrid(i + n, n, j) {
      GridStep(i, n, j);
    }
    if i <= end && !Free(bits, i, n) {
      ScanIff(bits, i + n, n, end);
    } else {
      forall j: nat ensures OnGrid(i, n, j) ==> j >= i {
        GridStep(i, n, j);
      }
    }
  }

  lemma GridStep(i: int, n: nat, j: int)
    requires n > 0
    ensures OnGrid(i, n, j) <==> j == i || OnGrid(i + n, n, j)
    ensures OnGrid(i, n, j) ==> j >= i
  {
    ModPlus(j - (i + n), n, 1);
    if i < j < i + n {
      QuotientIs(j - i, n, 0);
    }
    if j == i {
      QuotientIs(0, n, 0);
    }
  }

  /** With the memory behind the bitmap reading as occupied the scan finds the first aligned free run of the pool,
      and fails exactly when there is none. */
  lemma FindIff(p: Pool, size: nat)
    requires Readable(p) && Aligned(p) && Fits(p, size) && TailOccupied(p)
    ensures var n := size / BLOCK_SIZE;
            match Find(p, size)
            case Some(i) => i + n <= p.blocks && Address(p, i) % size == 0 && Free(p.bits, i, n)
                            && forall j: nat :: j < i && Address(p, j) % size == 0 ==> !Free(p.bits, j, n)
            case None => forall j: nat :: j + n <= p.blocks && Address(p, j) % size == 0 ==> !Free(p.bits, j, n)
  {
    var n, start := size / BLOCK_SIZE, StartBit(p, size);
    SizeInBlocks(p, size);
    ScanIff(p.bits, start, n, p.blocks);
    forall j: nat ensures Address(p, j) % size == 0 <==> OnGrid(start, n, j) {
      CandidateIff(p, size, j);
    }
    if Find(p, size).Some? && Find(p, size).value + n > p.blocks {
      TailBlocks(p, Find(p, size).value, n);
    }
  }

  lemma TailBlocks(p: Pool, i: nat, n: nat)
    requires TailOccupied(p) && i <= p.blocks < i + n <= |p.bits|
    ensures !Free(p.bits, i, n)
  {
    assert p.bits[p.blocks];
  }

  /** In general the scan leaves the pool exactly when no aligned run in it is free and the memory behind the bitmap
      reads as free from the last aligned position on. */
  lemma LeavesPoolIff(p: Pool, size: nat)
    requires Readable(p) && Aligned(p) && Fits(p, size)
    ensures var n := size / BLOCK_SIZE;
            (Find(p, size).Some? && Find(p, size).value + n > p.blocks)
            <==> (forall j: nat :: j + n <= p.blocks && Address(p, j) % size == 0 ==> !Free(p.bits, j, n))
                 && (exists j: nat :: j <= p.blocks < j + n && Address(p, j) % size == 0 && Free(p.bits, j, n))
  {
    var n, start := size / BLOCK_SIZE, StartBit(p, size);
    SizeInBlocks(p, size);
    ScanIff(p.bits, start, n, p.blocks);
    hide Free;
    forall j: nat ensures Address(p, j) % size == 0 <==> OnGrid(start, n, j) {
      CandidateIff(p, size, j);
    }
  }

  /** A full pool of 32 blocks with free memory behind its bitmap hands out the block after its end. */
  lemma LeavesPoolExample(p: Pool)
    requires p == Pool(0, 32, seq(64, j => j < 32), map[0 := 0x8000])
    ensures Valid(p) && Find(p, BLOCK_SIZE) == Some(32)
  {
    BlockSizePower();
    assert PowerOfTwo(2048) && PowerOfTwo(4096) && PowerOfTwo(8192) && PowerOfTwo(0x4000) && PowerOfTwo(0x8000);
    forall i | 0 <= i < p.blocks ensures p.bits[i] && Covers(p, 0, i) {}
    ScanIff(p.bits, 0, 1, 32);
    var r := Find(p, BLOCK_SIZE);
    assert Free(p.bits, 32, 1);
    if r.Some? {
      assert !p.bits[r.value];
    }
  }

  // ---------------------------------------------------------------- taking and giving back

  lemma FillIs(bits: seq<bool>, i: nat, n: nat, value: bool)
    requires i + n <= |bits|
    ensures |Fill(bits, i, n, value)| == |bits|
    ensures forall j :: 0 <= j < |bits| ==> Fill(bits, i, n, value)[j] == if i <= j < i + n then value else bits[j]
  {
  }

  /** Addresses of live blocks are addresses of blocks. */
  lemma LiveAligned(p: Pool, ptr: nat)
    requires Aligned(p) && LiveOk(p) && ptr in p.live
    ensures ptr % BLOCK_SIZE == 0 && ptr == Address(p, BitOf(p, ptr)) && p.live[ptr] % BLOCK_SIZE == 0
            && p.live[ptr] > 0
    ensures 0 <= BitOf(p, ptr) && BitOf(p, ptr) + p.live[ptr] / BLOCK_SIZE <= p.blocks
  {
    hide PowerOfTwo;
    var size := p.live[ptr];
    BlockSizePower();
    PowersDivide(BLOCK_SIZE, size);
    MultipleOfBlock(ptr, size);
    BlocksInside(p.base, p.blocks, ptr, size);
  }

  lemma BlocksInside(base: nat, blocks: nat, ptr: nat, size: nat)
    requires base % BLOCK_SIZE == 0 && ptr % BLOCK_SIZE == 0 && size % BLOCK_SIZE == 0
    requires base <= ptr && ptr + size <= base + blocks * BLOCK_SIZE
    ensures var i := (ptr - base) / BLOCK_SIZE;
            ptr == base + i * BLOCK_SIZE && 0 <= i && i + size / BLOCK_SIZE <= blocks
  {
  }

  lemma MultipleOfBlock(ptr: nat, size: nat)
    requires size > 0 && size % BLOCK_SIZE == 0 && ptr % size == 0
    ensures ptr % BLOCK_SIZE == 0
  {
    var c, n := ptr / size, size / BLOCK_SIZE;
    assert ptr == size * c;
    assert size * c == BLOCK_SIZE * (n * c) by {
      assert (BLOCK_SIZE * n) * c == BLOCK_SIZE * (n * c);
    }
  }

  /** A free run overlaps no live block. */
  lemma FreeApart(p: Pool, i: nat, n: nat, x: nat)
    requires Valid(p) && n > 0 && i + n <= p.blocks && Free(p.bits, i, n) && x in p.live
    ensures x + p.live[x] <= Address(p, i) || Address(p, i + n) <= x
  {
    if x < Address(p, i + n) && Address(p, i) < x + p.live[x] {
      var j := Shared(p, i, n, x);
    }
  }

  lemma Shared(p: Pool, i: nat, n: nat, x: nat) returns (j: nat)
    requires Valid(p) && n > 0 && i + n <= p.blocks && x in p.live
    requires x < Address(p, i + n) && Address(p, i) < x + p.live[x]
    ensures i <= j < i + n && p.bits[j]
  {
    LiveAligned(p, x);
    j := if x <= Address(p, i) then i else BitOf(p, x);
    assert Covers(p, x, j);
  }

  /** Handing out a free aligned run keeps everything in order, and the block is new and apart from all others. */
  lemma TakenValid(p: Pool, i: nat, size: nat)
    requires Valid(p) && Fits(p, size) && i + size / BLOCK_SIZE <= p.blocks
    requires Free(p.bits, i, size / BLOCK_SIZE) && Address(p, i) % size == 0
    ensures Valid(Taken(p, i, size)) && Address(p, i) !in p.live
    ensures TailOccupied(p) ==> TailOccupied(Taken(p, i, size))
  {
    var n, q, a := size / BLOCK_SIZE, Taken(p, i, size), Address(p, i);
    SizeInBlocks(p, size);
    FillIs(p.bits, i, n, true);
    forall x | x in p.live ensures x + p.live[x] <= a || a + size <= x {
      FreeApart(p, i, n, x);
    }
    TakenLive(p, i, size);
    TakenBitmap(p, i, size);
  }

  lemma TakenLive(p: Pool, i: nat, size: nat)
    requires Valid(p) && Fits(p, size) && i + size / BLOCK_SIZE <= p.blocks && Address(p, i) % size == 0
    requires Address(p, i) !in p.live && size == size / BLOCK_SIZE * BLOCK_SIZE
    requires forall x :: x in p.live ==> x + p.live[x] <= Address(p, i) || Address(p, i) + size <= x
    ensures LiveOk(Taken(p, i, size))
  {
  }

  lemma TakenBitmap(p: Pool, i: nat, size: nat)
    requires Valid(p) && Fits(p, size) && i + size / BLOCK_SIZE <= p.blocks
    requires Address(p, i) !in p.live && size == size / BLOCK_SIZE * BLOCK_SIZE
    ensures BitmapOk(Taken(p, i, size))
  {
    var n, q, a := size / BLOCK_SIZE, Taken(p, i, size), Address(p, i);
    FillIs(p.bits, i, n, true);
    hide Fill, LiveOk, PowerOfTwo;
    forall j | 0 <= j < q.blocks ensures q.bits[j] <==> exists ptr :: Covers(q, ptr, j) {
      assert Covers(q, a, j) <==> i <= j < i + n;
      assert forall ptr :: ptr != a ==> (Covers(q, ptr, j) <==> Covers(p, ptr, j));
      if p.bits[j] {
        var ptr :| Covers(p, ptr, j);
        assert Covers(q, ptr, j);
      }
    }
  }

  /** Giving a block back keeps everything in order and leaves all other blocks. */
  lemma GivenValid(p: Pool, ptr: nat)
    requires Valid(p) && ptr in p.live
    ensures 0 <= BitOf(p, ptr) && BitOf(p, ptr) + p.live[ptr] / BLOCK_SIZE <= p.blocks
    ensures Valid(Given(p, ptr)) && (TailOccupied(p) ==> TailOccupied(Given(p, ptr)))
  {
    LiveAligned(p, ptr);
    FillIs(p.bits, BitOf(p, ptr), p.live[ptr] / BLOCK_SIZE, false);
    GivenBitmap(p, ptr);
    hide PowerOfTwo, BitmapOk, Fill;
  }

  lemma GivenBitmap(p: Pool, ptr: nat)
    requires Valid(p) && ptr in p.live
    requires 0 <= BitOf(p, ptr) && BitOf(p, ptr) + p.live[ptr] / BLOCK_SIZE <= p.blocks
    ensures |Given(p, ptr).bits| == |p.bits| && BitmapOk(Given(p, ptr))
  {
    var i, n, q := BitOf(p, ptr), p.live[ptr] / BLOCK_SIZE, Given(p, ptr);
    LiveAligned(p, ptr);
    FillIs(p.bits, i, n, false);
    hide Fill, PowerOfTwo;
    forall j | 0 <= j < q.blocks ensures q.bits[j] <==> exists x :: Covers(q, x, j) {
      assert Covers(p, ptr, j) <==> i <= j < i + n;
      assert forall x :: x != ptr ==> (Covers(q, x, j) <==> Covers(p, x, j));
      if q.bits[j] {
        var x :| Covers(p, x, j);
        assert Covers(q, x, j);
      }
    }
  }

  /** deallocate undoes allocate, to the bit. */
  lemma GiveBackUndoes(p: Pool, i: nat, size: nat)
    requires Valid(p) && Fits(p, size) && i + size / BLOCK_SIZE <= p.blocks
    requires Free(p.bits, i, size / BLOCK_SIZE) && Address(p, i) % size == 0
    ensures var q := Taken(p, i, size);
            BitOf(q, Address(p, i)) == i && Given(q, Address(p, i)) == p
  {
    TakenValid(p, i, size);
    hide Fill, Valid, PowerOfTwo, Free;
    FillBack(p.bits, i, size / BLOCK_SIZE);
    assert Taken(p, i, size).live - {Address(p, i)} == p.live;
  }

  lemma FillBack(bits: seq<bool>, i: nat, n: nat)
    requires i + n <= |bits| && Free(bits, i, n)
    ensures |Fill(bits, i, n, true)| == |bits| && Fill(Fill(bits, i, n, true), i, n, false) == bits
  {
  }

  /** A pool without blocks. */
  lemma EmptyValid(p: Pool)
    requires Readable(p) && Aligned(p) && p.live == map[] && Free(p.bits, 0, p.blocks)
    ensures Valid(p)
  {
  }

  // ---------------------------------------------------------------- whole runs

  datatype Outcome = Granted(ptr: nat) | RuntimeError | BadAlloc

  function Allocate(p: Pool, size: nat): (Pool, Outcome)
    requires Readable(p)
  {
    if !Fits(p, size) then (p, RuntimeError)
    else
      match Find(p, size)
      case None => (p, BadAlloc)
      case Some(i) => ScanFits(p, size); (Taken(p, i, size), Granted(Address(p, i)))
  }

  lemma ScanFits(p: Pool, size: nat)
    requires Readable(p) && Fits(p, size)
    ensures Find(p, size).Some? ==> Find(p, size).value <= p.blocks
  {
    SizeInBlocks(p, size);
    ScanIff(p.bits, StartBit(p, size), size / BLOCK_SIZE, p.blocks);
  }

  /** A free run of the right size, at an address that is a multiple of it. */
  predicate Room(p: Pool, size: nat, i: nat)
    requires Readable(p) && Fits(p, size)
  {
    SizeInBlocks(p, size);
    i + size / BLOCK_SIZE <= p.blocks && Address(p, i) % size == 0 && Free(p.bits, i, size / BLOCK_SIZE)
  }

  /** What the allocator promises: an invalid size is refused; memory runs out only when there is no room; and a
      block handed out is aligned to its size, inside the pool, and apart from every live block. */
  lemma AllocateOk(p: Pool, size: nat)
    requires Valid(p) && TailOccupied(p)
    ensures var (q, r) := Allocate(p, size);
            && Valid(q) && TailOccupied(q)
            && (r == RuntimeError <==> !Fits(p, size))
            && (r == BadAlloc <==> Fits(p, size) && forall i: nat :: !Room(p, size, i))
            && (r.Granted? ==>
                  && r.ptr % size == 0 && p.base <= r.ptr && r.ptr + size <= Address(p, p.blocks)
                  && (forall x :: x in p.live ==> x + p.live[x] <= r.ptr || r.ptr + size <= x)
                  && q.live == p.live[r.ptr := size] && r.ptr !in p.live)
            && (!r.Granted? ==> q == p)
  {
    hide PowerOfTwo, BitmapOk, Fill, Scan, Free;
    if Fits(p, size) {
      SizeInBlocks(p, size);
      FindIff(p, size);
      if Find(p, size).Some? {
        var i := Find(p, size).value;
        TakenValid(p, i, size);
        forall x | x in p.live ensures x + p.live[x] <= Address(p, i) || Address(p, i) + size <= x {
          FreeApart(p, i, size / BLOCK_SIZE, x);
        }
        assert Room(p, size, i);
      }
    }
  }

  function Pow2(k: nat): (x: nat)
    ensures x > 0
  {
    if k == 0 then 1 else 2 * Pow2(k - 1)
  }

  lemma {:induction false} PowerIff(x: nat)
    ensures PowerOfTwo(x) <==> exists k: nat :: x == Pow2(k)
  {
    if x == 1 {
      assert x == Pow2(0);
    } else if x > 1 && x % 2 == 0 {
      var h := x / 2;
      PowerIff(h);
      if PowerOfTwo(h) {
        var k: nat :| h == Pow2(k);
        assert x == Pow2(k + 1);
      } else {
        forall k: nat ensures x != Pow2(k) {
          assert k > 0 ==> Pow2(k) == 2 * Pow2(k - 1) && Pow2(k - 1) != h;
        }
      }
    } else {
      forall k: nat ensures x != Pow2(k) {
        assert k > 0 ==> Pow2(k) == 2 * Pow2(k - 1);
      }
    }
  }

  /** Which sizes are refused: all but the powers of two from one block to the whole pool. */
  lemma RefusedIff(p: Pool, size: nat)
    requires Readable(p)
    ensures Allocate(p, size).1 == RuntimeError <==>
            !(exists k: nat :: size == Pow2(k)) || size < 1024 || size > 1024 * p.blocks
  {
    PowerIff(size);
  }

  lemma AllocateValid(p: Pool, size: nat)
    requires Valid(p) && TailOccupied(p)
    ensures Valid(Allocate(p, size).0) && TailOccupied(Allocate(p, size).0)
  {
    hide Valid, TailOccupied;
    AllocateOk(p, size);
  }

  datatype Op = Alloc(size: nat) | Dealloc(ptr: nat)

  /** An address that is not a live block is refused. */
  ghost function Next(p: Pool, op: Op): (q: Pool)
    requires Valid(p) && TailOccupied(p)
    ensures Valid(q) && TailOccupied(q) && q.base == p.base && q.blocks == p.blocks
  {
    match op
    case Alloc(size) => AllocateOk(p, size); Allocate(p, size).0
    case Dealloc(ptr) => if ptr in p.live then GivenValid(p, ptr); Given(p, ptr) else p
  }

  /** In every run live blocks are aligned, inside the pool and disjoint, and the bitmap is exactly their union. */
  ghost function Run(p: Pool, ops: seq<Op>): (q: Pool)
    requires Valid(p) && TailOccupied(p)
    ensures Valid(q) && TailOccupied(q) && q.base == p.base && q.blocks == p.blocks
  {
    if ops == [] then p else Next(Run(p, ops[..|ops| - 1]), ops[|ops| - 1])
  }
}
