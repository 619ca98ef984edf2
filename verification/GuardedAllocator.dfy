/**
 The mock library's allocator: every block carries a header and two guards around its payload, all
 inside one allocation that is large enough wherever the payload has to start to be aligned.
 */
module GuardedAllocator {
  import opened MachineWords
  import opened Options
  import opened LittleEndian

  const GUARD_SIZE: nat := 16
  const GUARD_PATTERN: u8 := 0xEF
  const ALLOC_PATTERN: u8 := 0xBA
  const FREE_PATTERN: u8 := 0xCD
  /** The size of `MallocBlockInfo` with 64-bit pointers. */
  const INFO_SIZE: nat := 72

  // Addresses.

  function PopCount(x: nat): nat { if x == 0 then 0 else x % 2 + PopCount(x / 2) }

  /** The test made of an alignment; the builtin it uses counts the bits of a 32-bit number. */
  predicate Accepted(alignment: u64) { PopCount(alignment % TWO32) == 1 }

  function AllocateSize(alignment: u64, size: u64): u64 {
    (size as int + 2 * GUARD_SIZE + INFO_SIZE + alignment as int) % TWO64
  }

  /** `~(alignment - 1)` */
  function AlignMask(alignment: u64): nat { (TWO64 - alignment as int) % TWO64 }

  function PayloadAddress(block: u64, alignment: u64): nat {
    BitAnd((block as int + GUARD_SIZE + INFO_SIZE + alignment as int) % TWO64, AlignMask(alignment))
  }

  lemma {:induction false} OneBit(x: nat)
    requires PopCount(x) == 1
    ensures exists k: nat :: x == Pow2(k)
  {
    if x % 2 == 1 {
      NoBits(x / 2);
      assert x == Pow2(0);
    } else {
      OneBit(x / 2);
      var k: nat :| x / 2 == Pow2(k);
      assert x == Pow2(k + 1);
    }
  }

  lemma {:induction false} NoBits(x: nat)
    requires PopCount(x) == 0
    ensures x == 0
  {
    if x != 0 {
      NoBits(x / 2);
    }
  }

  /** A mask whose low k bits are clear acts on the quotient by 2^k. */
  lemma {:induction false} BitAndHigh(x: nat, k: nat, y: nat, q: nat, r: nat)
    requires x == q * Pow2(k) + r && r < Pow2(k)
    ensures BitAnd(x, Pow2(k) * y) == Pow2(k) * BitAnd(q, y)
    decreases k
  {
    hide BitAnd;
    if k > 0 {
      var m, b := Pow2(k - 1), BitAnd(q, y);
      assert Pow2(k) == 2 * m;
      MulRegroups(m, y);
      MulRegroups(m, b);
      HalfOf(x, q, m, r);
      BitAndHigh(x / 2, k - 1, y, q, r / 2);
      BitAndEven(x, m * y);
    }
  }

  lemma MulRegroups(m: nat, y: nat)
    ensures (2 * m) * y == 2 * (m * y)
  {
  }

  lemma HalfOf(x: nat, q: nat, m: nat, r: nat)
    requires x == q * (2 * m) + r
    ensures x / 2 == q * m + r / 2
  {
    var qm := q * m;
    assert q * (2 * m) == 2 * qm;
  }

  lemma MaskIs(k: nat)
    requires k < 64
    ensures Pow2(k) < TWO64 && AlignMask(Pow2(k)) == Pow2(k) * (Pow2(64 - k) - 1)
    ensures Pow2(k) * Pow2(64 - k) == TWO64
  {
    hide Pow2;
    Pow2Literals();
    Pow2Adds(k, 64 - k);
    Pow2AtLeast(64 - k);
    var p, h := Pow2(k), Pow2(64 - k);
    assert p * h >= p * 2;
    assert p * (h - 1) == p * h - p;
  }

  lemma QuotientFits(x: nat, p: nat, h: nat, q: nat, r: nat)
    requires x == q * p + r && x < p * h
    ensures q < h
  {
    assert q >= h ==> q * p >= h * p;
  }

  lemma AlignDown(x: u64, k: nat)
    requires k < 64
    ensures Pow2(k) < TWO64 && BitAnd(x, AlignMask(Pow2(k))) == Pow2(k) * (x / Pow2(k))
  {
    hide Pow2, BitAnd, AlignMask;
    MaskIs(k);
    var p, h := Pow2(k), Pow2(64 - k);
    var q, r := x / p, x % p;
    assert x == q * p + r;
    BitAndHigh(x, k, h - 1, q, r);
    QuotientFits(x, p, h, q, r);
    BitAndOnes(q, 64 - k);
    RemainderIs(q, h, 0, q);
  }

  lemma {:induction false} Pow2AtLeast(n: nat)
    requires n > 0
    ensures Pow2(n) >= 2
  {
    if n > 1 {
      Pow2AtLeast(n - 1);
    }
  }

  predicate Aligned(address: nat, alignment: nat) { alignment > 0 && address % alignment == 0 }

  /** The block the system allocator returned lies in the address space, and its size did not wrap. */
  predicate Fits(block: u64, alignment: u64, size: u64) {
    AllocateSize(alignment, size) > size && block as int + AllocateSize(alignment, size) as int <= TWO64
  }

  /** An accepted alignment is not zero, and too small to make the size wrap unnoticed. */
  lemma AcceptedBelow(alignment: u64)
    requires Accepted(alignment)
    ensures 0 < alignment as int <= TWO64 - TWO31
  {
    hide PopCount, Pow2;
    var low := alignment % TWO32;
    OneBit(low);
    var k: nat :| low == Pow2(k);
    SmallPower(k);
    Pow2Grows(k, 31);
    Pow2Literals();
    Pow2Adds(31, 1);
    Pow2One();
    LowHalfBound(alignment);
  }

  lemma LowHalfBound(alignment: u64)
    requires alignment % TWO32 <= TWO31
    ensures alignment <= TWO64 - TWO31
  {
    var q, r := alignment / TWO32, alignment % TWO32;
    assert alignment == TWO32 * q + r && TWO64 == TWO32 * TWO32;
  }

  /** Two complementary masks take a number apart. */
  lemma {:induction false} MasksSplit(x: nat, y: nat, k: nat)
    requires x < Pow2(k) && y < Pow2(k)
    ensures BitAnd(x, y) + BitAnd(x, Pow2(k) - 1 - y) == x
    decreases k
  {
    if k > 0 {
      MasksSplit(x / 2, y / 2, k - 1);
      var z := Pow2(k) - 1 - y;
      assert z / 2 == Pow2(k - 1) - 1 - y / 2 && z % 2 == 1 - y % 2;
    }
  }

  lemma {:induction false} BitAndAtMost(x: nat, y: nat)
    ensures BitAnd(x, y) <= y
    decreases x + y
  {
    if y == 0 {
      BitAndZero(x);
    } else if x != 0 {
      BitAndAtMost(x / 2, y / 2);
    }
  }

  /** Rounding down with any nonzero alignment loses less than the alignment. */
  lemma MaskedNear(x: u64, alignment: u64)
    requires alignment > 0
    ensures x as int - alignment as int < BitAnd(x, AlignMask(alignment)) <= x
    ensures BitAnd(x, AlignMask(alignment)) <= TWO64 - alignment as int
  {
    hide BitAnd, Pow2;
    Pow2Literals();
    MasksSplit(x, alignment - 1, 64);
    BitAndAtMost(x, alignment - 1);
    BitAndAtMost(x, TWO64 - alignment);
    RemainderIs(TWO64 - alignment, TWO64, 0, TWO64 - alignment);
  }

  /**
   Header, guards and payload lie inside the allocation for every accepted alignment; the payload is
   aligned for those below 2^32.
   */
  lemma PayloadFits(block: u64, alignment: u64, size: u64)
    requires Accepted(alignment) && Fits(block, alignment, size)
    ensures var p := PayloadAddress(block, alignment);
            && block as int <= p - GUARD_SIZE - INFO_SIZE
            && p + size as int + GUARD_SIZE <= block as int + AllocateSize(alignment, size) as int
            && (alignment < TWO32 ==> Aligned(p, alignment))
  {
    hide BitAnd, PopCount, Pow2, AllocateSize, Accepted, AlignMask;
    AcceptedBelow(alignment);
    NoWrap(alignment, size);
    var x := block as int + GUARD_SIZE + INFO_SIZE + alignment as int;
    RemainderIs(x, TWO64, 0, x);
    MaskedNear(x, alignment);
    if alignment < TWO32 {
      PayloadIs(block, alignment);
      RoundedDown(x, alignment);
    }
  }

  lemma PayloadIs(block: u64, alignment: u64)
    requires Accepted(alignment) && alignment < TWO32
             && block as int + GUARD_SIZE + INFO_SIZE + alignment as int < TWO64
    ensures alignment > 0
    ensures PayloadAddress(block, alignment)
            == alignment * ((block as int + GUARD_SIZE + INFO_SIZE + alignment as int) / alignment)
  {
    hide BitAnd, PopCount, Pow2, AlignMask;
    RemainderIs(alignment, TWO32, 0, alignment);
    OneBit(alignment);
    var k: nat :| alignment == Pow2(k);
    SmallPower(k);
    var x := block as int + GUARD_SIZE + INFO_SIZE + alignment as int;
    RemainderIs(x, TWO64, 0, x);
    AlignDown(x, k);
  }

  lemma RoundedDown(x: nat, m: nat)
    requires m > 0
    ensures (m * (x / m)) % m == 0 && x - m < m * (x / m) <= x
  {
    var q, r := x / m, x % m;
    assert x == q * m + r;
    RemainderIs(q * m, m, q, 0);
  }

  lemma SmallPower(k: nat)
    requires Pow2(k) < TWO32
    ensures k < 32 && Pow2(k) > 0
  {
    hide Pow2;
    if k >= 32 {
      Pow2Literals();
      Pow2Grows(32, k);
    }
  }

  // Alignments of 2^32 and more: the test sees only their low half.

  /** An accepted alignment from 2^32 on is no power of two. */
  lemma LargeIsNoPower(alignment: u64, k: nat)
    requires Accepted(alignment) && alignment >= TWO32
    ensures alignment != Pow2(k)
  {
    hide PopCount, Pow2;
    NoBitsInZero();
    if alignment == Pow2(k) {
      LowHalfOfPower(k);
    }
  }

  /** A number that shares no bit with its predecessor is a power of two. */
  lemma {:induction false} SharesNoBit(a: nat)
    requires a > 0 && BitAnd(a, a - 1) == 0
    ensures exists k: nat :: a == Pow2(k)
  {
    if a % 2 == 1 {
      BitAndSame(a / 2);
      assert a == Pow2(0);
    } else {
      SharesNoBit(a / 2);
      var k: nat :| a / 2 == Pow2(k);
      assert a == Pow2(k + 1);
    }
  }

  lemma {:induction false} BitAndSame(x: nat)
    ensures BitAnd(x, x) == x
  {
    if x != 0 {
      BitAndSame(x / 2);
    }
  }

  lemma {:induction false} BitAndTwice(x: nat, y: nat)
    ensures BitAnd(BitAnd(x, y), y) == BitAnd(x, y)
    decreases x + y
  {
    if x != 0 || y != 0 {
      BitAndTwice(x / 2, y / 2);
    }
  }

  /** What the mask keeps has none of the bits it clears. */
  lemma MaskedOut(x: u64, alignment: u64)
    requires alignment > 0
    ensures BitAnd(BitAnd(x, AlignMask(alignment)), alignment - 1) == 0
  {
    hide BitAnd, Pow2;
    Pow2Literals();
    var mask := AlignMask(alignment);
    RemainderIs(TWO64 - alignment, TWO64, 0, TWO64 - alignment);
    BitAndTwice(x, mask);
    BitAndBounded(x, mask, 64);
    MasksSplit(BitAnd(x, mask), alignment - 1, 64);
  }

  lemma MultipleBetween(p: nat, a: nat)
    requires 0 < p < 2 * a && p % a == 0
    ensures p == a
  {
    var q := p / a;
    assert p == q * a;
    assert q >= 2 ==> q * a >= 2 * a;
  }

  /**
   For an accepted alignment from 2^32 on, every block low enough to put the payload below twice the
   alignment is misaligned: the one multiple there is the alignment itself, which has bits that the mask clears.
   */
  lemma LowBlockMisaligned(block: u64, alignment: u64, size: u64)
    requires Accepted(alignment) && alignment >= TWO32 && Fits(block, alignment, size)
    requires block as int + GUARD_SIZE + INFO_SIZE < alignment as int
    ensures !Aligned(PayloadAddress(block, alignment), alignment)
  {
    hide BitAnd, PopCount, Pow2, AllocateSize, Accepted, AlignMask;
    AcceptedBelow(alignment);
    NoWrap(alignment, size);
    var x := block as int + GUARD_SIZE + INFO_SIZE + alignment as int;
    RemainderIs(x, TWO64, 0, x);
    MaskedNear(x, alignment);
    MaskedOut(x, alignment);
    var p := PayloadAddress(block, alignment);
    if p % alignment == 0 {
      MultipleBetween(p, alignment);
      SharesNoBit(alignment);
      var k: nat :| alignment == Pow2(k);
      LargeIsNoPower(alignment, k);
    }
  }

  /** Addresses that the system allocator returns on a 64-bit machine. */
  predicate Returnable(block: u64) { block != 0 && block % 16 == 0 }

  /**
   All payloads of an accepted alignment are aligned if and only if the bits counted were all its bits,
   whether over all blocks or only over those the system allocator returns.
   */
  lemma AlignedIff(alignment: u64)
    requires Accepted(alignment)
    ensures (forall block: u64, size: u64 | Fits(block, alignment, size) ::
             Aligned(PayloadAddress(block, alignment), alignment))
            <==> alignment < TWO32
    ensures (forall block: u64, size: u64 | Fits(block, alignment, size) && Returnable(block) ::
             Aligned(PayloadAddress(block, alignment), alignment))
            <==> alignment < TWO32
  {
    hide BitAnd, PopCount, Pow2, Accepted, PayloadAddress, AllocateSize;
    AcceptedBelow(alignment);
    if alignment < TWO32 {
      forall block: u64, size: u64 | Fits(block, alignment, size)
        ensures Aligned(PayloadAddress(block, alignment), alignment)
      {
        PayloadFits(block, alignment, size);
      }
    } else {
      NoWrap(alignment, 0);
      assert Fits(16, alignment, 0) && Returnable(16);
      LowBlockMisaligned(16, alignment, 0);
    }
  }

  lemma NoBitsInZero()
    ensures PopCount(0) == 0
  {
  }

  lemma LowHalfOfPower(k: nat)
    requires Pow2(k) >= TWO32
    ensures Pow2(k) % TWO32 == 0
  {
    hide Pow2;
    Pow2Literals();
    if k < 32 {
      Pow2Grows(k, 31);
      Pow2Adds(31, 1);
      Pow2One();
    } else {
      Pow2Adds(32, k - 32);
      RemainderIs(Pow2(k), TWO32, Pow2(k - 32), 0);
    }
  }

  // Memory. A block holds, from its header on: header, guard, payload, guard.

  /** Where the words of the header are, counted back from the payload. */
  const BLOCK_AT: nat := INFO_SIZE + GUARD_SIZE
  const ALLOCATED_AT: nat := BLOCK_AT - 8
  const SIZE_AT: nat := BLOCK_AT - 16
  const NODE_AT: nat := BLOCK_AT - 40
  const NEXT_AT: nat := NODE_AT - 16
  const PREV_AT: nat := NODE_AT - 24

  /** Where a block is, and the nodes before and after its own in the list of all blocks. */
  datatype Place = Place(block: u64, next: u64, prev: u64)

  ghost predicate Filled(m: seq<u8>, at: nat, len: nat, b: u8) {
    at + len <= |m| && forall i :: at <= i < at + len ==> m[i] == b
  }

  function WordAt(m: seq<u8>, at: nat): nat
    requires at + 8 <= |m|
  {
    LE(m[at..at + 8])
  }

  /** Both guards around a payload are as they were written. */
  ghost predicate Intact(m: seq<u8>, payload: nat, size: nat) {
    && payload >= GUARD_SIZE
    && Filled(m, payload - GUARD_SIZE, GUARD_SIZE, GUARD_PATTERN)
    && Filled(m, payload + size, GUARD_SIZE, GUARD_PATTERN)
  }

  /** The header describes the block and its place in the list. */
  ghost predicate Headed(m: seq<u8>, at: Place, payload: nat, size: u64) {
    && BLOCK_AT <= payload <= |m|
    && WordAt(m, payload - BLOCK_AT) == at.block && WordAt(m, payload - ALLOCATED_AT) == |m|
    && WordAt(m, payload - SIZE_AT) == size
    && WordAt(m, payload - NEXT_AT) == at.next && WordAt(m, payload - PREV_AT) == at.prev
  }

  /** A block in use: the header describes it and the guards are intact. */
  ghost predicate WellFormed(m: seq<u8>, at: Place, payload: nat, size: u64) {
    && Headed(m, at, payload, size) && Intact(m, payload, size)
    && payload + size as int + GUARD_SIZE <= |m| && at.block as int + |m| <= TWO64
  }

  method MemSet(mem: array<u8>, at: nat, b: u8, len: nat)
    requires at + len <= mem.Length
    modifies mem
    ensures forall i :: 0 <= i < mem.Length ==> mem[i] == if at <= i < at + len then b else old(mem[i])
  {
    for k := 0 to len
      invariant forall i :: 0 <= i < mem.Length ==> mem[i] == if at <= i < at + k then b else old(mem[i])
    {
      mem[at + k] := b;
    }
  }

  method StoreWord(mem: array<u8>, at: nat, w: u64)
    requires at + 8 <= mem.Length
    modifies mem
    ensures WordAt(mem[..], at) == w
    ensures forall i :: 0 <= i < mem.Length && !(at <= i < at + 8) ==> mem[i] == old(mem[i])
  {
    hide Bytes, LE, Pow2;
    var b := Bytes(w, 8);
    for k := 0 to 8
      invariant forall i :: 0 <= i < k ==> mem[at + i] == b[i]
      invariant forall i :: 0 <= i < mem.Length && !(at <= i < at + 8) ==> mem[i] == old(mem[i])
    {
      mem[at + k] := b[k];
    }
    assert mem[..][at..at + 8] == b;
    Pow2Literals();
    BytesOf(w, 8);
  }

  /** A word is what it was if its bytes are. */
  lemma SameWord(m: seq<u8>, m': seq<u8>, at: nat)
    requires at + 8 <= |m| == |m'| && forall i :: at <= i < at + 8 ==> m'[i] == m[i]
    ensures WordAt(m', at) == WordAt(m, at)
  {
    assert m'[at..at + 8] == m[at..at + 8];
  }

  method WriteHeader(mem: array<u8>, payload: nat, at: Place, size: u64)
    requires BLOCK_AT <= payload <= mem.Length < TWO64
    modifies mem
    ensures Headed(mem[..], at, payload, size)
    ensures forall i :: payload - GUARD_SIZE <= i < mem.Length ==> mem[i] == old(mem[i])
  {
    hide WordAt;
    StoreWord(mem, payload - ALLOCATED_AT, mem.Length);
    ghost var m1 := mem[..];
    StoreWord(mem, payload - SIZE_AT, size);
    ghost var m2 := mem[..];
    SameWord(m1, m2, payload - ALLOCATED_AT);
    StoreWord(mem, payload - BLOCK_AT, at.block);
    ghost var m3 := mem[..];
    SameWord(m2, m3, payload - ALLOCATED_AT);
    SameWord(m2, m3, payload - SIZE_AT);
    WriteLinks(mem, payload, at);
    SameWord(m3, mem[..], payload - ALLOCATED_AT);
    SameWord(m3, mem[..], payload - SIZE_AT);
    SameWord(m3, mem[..], payload - BLOCK_AT);
  }

  method WriteLinks(mem: array<u8>, payload: nat, at: Place)
    requires BLOCK_AT <= payload <= mem.Length
    modifies mem
    ensures WordAt(mem[..], payload - NEXT_AT) == at.next && WordAt(mem[..], payload - PREV_AT) == at.prev
    ensures forall i :: 0 <= i < mem.Length && !(payload - NEXT_AT <= i < payload - GUARD_SIZE) ==>
              mem[i] == old(mem[i])
  {
    hide WordAt;
    StoreWord(mem, payload - NEXT_AT, at.next);
    ghost var m := mem[..];
    StoreWord(mem, payload - PREV_AT, at.prev);
    SameWord(m, mem[..], payload - NEXT_AT);
  }

  /** A word written outside the block, into a neighbour in the list. */
  datatype Link = Link(address: int, word: int)

  /** Where a node keeps its links. */
  const NODE_NEXT: nat := 16
  const NODE_PREV: nat := 24

  /**
   `mem` is the memory the system allocator returns, at address `block`; `head` and `last` are the head of the
   list of blocks and the node before it. Fails if the alignment is not accepted or the size overflows;
   otherwise returns the offset of the payload, and what it wrote to the neighbours of the new last node.
   */
  method MemAlign(alignment: u64, size: u64, block: u64, mem: array<u8>, head: u64, last: u64)
    returns (r: Option<nat>, links: seq<Link>)
    requires mem.Length == AllocateSize(alignment, size) && block as int + mem.Length <= TWO64
    modifies mem
    ensures r.Some? <==> Accepted(alignment) && size as int + 2 * GUARD_SIZE + INFO_SIZE + alignment as int < TWO64
    ensures r.None? ==> links == [] && mem[..] == old(mem[..])
    ensures r.Some? ==>
              && WellFormed(mem[..], Place(block, head, last), r.value, size)
              && Filled(mem[..], r.value, size, ALLOC_PATTERN)
              && (alignment < TWO32 ==> Aligned(block as int + r.value, alignment))
              && var node := block as int + r.value - NODE_AT;
                 links == [Link(last as int + NODE_NEXT, node), Link(head as int + NODE_PREV, node)]
  {
    hide PopCount, PayloadAddress, BitAnd, WordAt, Accepted, AllocateSize;
    if !Accepted(alignment) {
      return None, [];
    }
    AcceptedBelow(alignment);
    var allocateSize := AllocateSize(alignment, size);
    NoWrap(alignment, size);
    if allocateSize <= size {
      return None, [];
    }
    PayloadFits(block, alignment, size);
    var payload := PayloadAddress(block, alignment) - block as int;
    MemSet(mem, payload - GUARD_SIZE, GUARD_PATTERN, GUARD_SIZE);
    MemSet(mem, payload + size, GUARD_PATTERN, GUARD_SIZE);
    MemSet(mem, payload, ALLOC_PATTERN, size);
    WriteHeader(mem, payload, Place(block, head, last), size);
    var node := block as int + payload - NODE_AT;
    return Some(payload), [Link(last as int + NODE_NEXT, node), Link(head as int + NODE_PREV, node)];
  }

  lemma NoWrap(alignment: u64, size: u64)
    requires alignment as int < TWO64 - 2 * GUARD_SIZE - INFO_SIZE
    ensures AllocateSize(alignment, size) > size <==>
              size as int + 2 * GUARD_SIZE + INFO_SIZE + alignment as int < TWO64
    ensures AllocateSize(alignment, size) > size ==>
              AllocateSize(alignment, size) as int == size as int + 2 * GUARD_SIZE + INFO_SIZE + alignment as int
  {
    var x := size as int + 2 * GUARD_SIZE + INFO_SIZE + alignment as int;
    RemainderIs(x, TWO64, if x < TWO64 then 0 else 1, if x < TWO64 then x else x - TWO64);
  }

  /** `(char)(guard[j] - MALLOC_GUARD_PATTERN)` */
  function Diff(b: u8): u8 { (b as int - GUARD_PATTERN as int) % 256 }

  /** What freeing a block comes to; strayed if the header sends it outside the block or to wrong neighbours. */
  datatype Freeing = Freed | Reported | Strayed

  /** Some byte of a guard is in the block and not as it was written. */
  ghost predicate Differs(m: seq<u8>, at: nat) {
    exists i :: at <= i < at + GUARD_SIZE && i < |m| && m[i] != GUARD_PATTERN
  }

  /** Byte by byte: it stops at the first difference, or leaves the block if there is none before its end. */
  method GuardIntact(mem: array<u8>, at: nat) returns (r: Freeing)
    ensures r == Freed <==> Filled(mem[..], at, GUARD_SIZE, GUARD_PATTERN)
    ensures r == Reported <==> Differs(mem[..], at)
    ensures r == Strayed <==> !Differs(mem[..], at) && at + GUARD_SIZE > mem.Length
  {
    for j := 0 to GUARD_SIZE
      invariant at + j <= mem.Length || j == 0
      invariant forall i :: at <= i < at + j ==> mem[i] == GUARD_PATTERN
    {
      if at + j >= mem.Length {
        return Strayed;
      }
      if Diff(mem[at + j]) != 0 {
        assert mem[..][at + j] != GUARD_PATTERN;
        return Reported;
      }
    }
    return Freed;
  }

  /** The second guard is where the stored size says, in 64-bit address arithmetic. */
  function SecondGuard(m: seq<u8>, payload: nat): nat
    requires BLOCK_AT <= payload <= |m|
  {
    (payload + WordAt(m, payload - SIZE_AT)) % TWO64
  }

  /** The words that are followed after the guards: to the neighbours, to the block, and as far as it reaches. */
  predicate Leads(m: seq<u8>, at: Place, payload: nat)
    requires BLOCK_AT <= payload <= |m|
  {
    && WordAt(m, payload - NEXT_AT) == at.next && WordAt(m, payload - PREV_AT) == at.prev
    && WordAt(m, payload - BLOCK_AT) == at.block && WordAt(m, payload - ALLOCATED_AT) <= |m|
  }

  ghost function FreeOutcome(m: seq<u8>, at: Place, payload: nat): Freeing
    requires BLOCK_AT <= payload <= |m|
  {
    var g := SecondGuard(m, payload);
    if Differs(m, payload - GUARD_SIZE) || Differs(m, g) then Reported
    else if g + GUARD_SIZE > |m| || !Leads(m, at, payload) then Strayed
    else Freed
  }

  /**
   Everything it needs it reads from the block. If it frees, it links the neighbours to each other and overwrites
   the allocation; what happens once it strays is not modelled.
   */
  method TestFree(mem: array<u8>, at: Place, payload: nat) returns (r: Freeing, links: seq<Link>)
    requires BLOCK_AT <= payload <= mem.Length
    modifies mem
    ensures r == old(FreeOutcome(mem[..], at, payload))
    ensures if r == Freed then
              && links == [Link(at.prev as int + NODE_NEXT, at.next), Link(at.next as int + NODE_PREV, at.prev)]
              && var n := old(WordAt(mem[..], payload - ALLOCATED_AT));
                 n <= mem.Length && Filled(mem[..], 0, n, FREE_PATTERN) && mem[n..] == old(mem[n..])
            else links == [] && mem[..] == old(mem[..])
  {
    hide LE, Filled, Differs;
    var m := mem[..];
    r := GuardIntact(mem, payload - GUARD_SIZE);
    if r != Freed {
      return r, [];
    }
    r := GuardIntact(mem, SecondGuard(m, payload));
    if r != Freed {
      return r, [];
    }
    if !Leads(m, at, payload) {
      return Strayed, [];
    }
    var next, prev := WordAt(m, payload - NEXT_AT), WordAt(m, payload - PREV_AT);
    Overwrite(mem, WordAt(m, payload - ALLOCATED_AT));
    return Freed, [Link(prev + NODE_NEXT, next), Link(next + NODE_PREV, prev)];
  }

  method Overwrite(mem: array<u8>, n: nat)
    requires n <= mem.Length
    modifies mem
    ensures Filled(mem[..], 0, n, FREE_PATTERN) && mem[n..] == old(mem[n..])
  {
    MemSet(mem, 0, FREE_PATTERN, n);
  }

  // One byte written at a wrong place.

  predicate InWord(k: nat, at: nat) { at <= k < at + 8 }

  ghost predicate InGuard(k: nat, payload: nat, size: nat)
    requires payload >= GUARD_SIZE
  {
    payload - GUARD_SIZE <= k < payload || payload + size <= k < payload + size + GUARD_SIZE
  }

  /** Changing a byte changes the word it is in, and no other. */
  lemma WriteInWord(m: seq<u8>, k: nat, b: u8, at: nat)
    requires k < |m| && at + 8 <= |m|
    ensures WordAt(m[k := b], at) == WordAt(m, at) <==> b == m[k] || !InWord(k, at)
  {
    hide LE;
    var m' := m[k := b];
    assert b == m[k] ==> m' == m;
    if !InWord(k, at) {
      SameWord(m, m', at);
    } else if WordAt(m', at) == WordAt(m, at) {
      LEInjective(m'[at..at + 8], m[at..at + 8]);
      assert m'[at..at + 8][k - at] == b && m[at..at + 8][k - at] == m[k];
    }
  }

  lemma GuardDiffers(m: seq<u8>, at: nat)
    requires at + GUARD_SIZE <= |m|
    ensures Differs(m, at) <==> !Filled(m, at, GUARD_SIZE, GUARD_PATTERN)
  {
  }

  /** Whatever is written anywhere but in the header, freeing reports it if and only if a guard changed. */
  lemma ReportedIffGuardChanged(m: seq<u8>, at: Place, payload: nat, size: u64)
    requires Headed(m, at, payload, size)
    requires payload + size as int + GUARD_SIZE <= |m| && at.block as int + |m| <= TWO64
    ensures FreeOutcome(m, at, payload) == if Intact(m, payload, size) then Freed else Reported
  {
    hide WordAt, Filled, Differs;
    GuardDiffers(m, payload - GUARD_SIZE);
    GuardDiffers(m, payload + size);
    RemainderIs(payload + size, TWO64, 0, payload + size);
  }

  lemma GuardWritten(m: seq<u8>, k: nat, b: u8, at: nat)
    requires k < |m| && Filled(m, at, GUARD_SIZE, GUARD_PATTERN)
    ensures Differs(m[k := b], at) <==> b != m[k] && at <= k < at + GUARD_SIZE
  {
    assert m[k := b][k] == b;
  }

  /**
   What freeing makes of a block after one byte was written somewhere in it. A changed guard byte is
   reported. A changed size moves the second guard, and the bytes there decide: the first that differs is
   reported, unless the block ends before it. A changed link or block address strays; a changed allocation
   size strays if it is too large. Anything else goes unnoticed.
   */
  lemma WriteOutcome(m: seq<u8>, at: Place, payload: nat, size: u64, k: nat, b: u8)
    requires WellFormed(m, at, payload, size) && k < |m|
    ensures var m' := m[k := b];
            var g := SecondGuard(m', payload);
            FreeOutcome(m', at, payload) ==
              if b == m[k] then Freed
              else if InGuard(k, payload, size) then Reported
              else if InWord(k, payload - SIZE_AT) then
                if Differs(m', g) then Reported
                else if g + GUARD_SIZE > |m| then Strayed
                else Freed
              else if InWord(k, payload - NEXT_AT) || InWord(k, payload - PREV_AT) then Strayed
              else if InWord(k, payload - BLOCK_AT) then Strayed
              else if InWord(k, payload - ALLOCATED_AT) && WordAt(m', payload - ALLOCATED_AT) > |m| then Strayed
              else Freed
  {
    hide WordAt, Filled, Differs;
    WriteInWord(m, k, b, payload - SIZE_AT);
    WriteInWord(m, k, b, payload - NEXT_AT);
    WriteInWord(m, k, b, payload - PREV_AT);
    WriteInWord(m, k, b, payload - BLOCK_AT);
    WriteInWord(m, k, b, payload - ALLOCATED_AT);
    GuardWritten(m, k, b, payload - GUARD_SIZE);
    GuardWritten(m, k, b, payload + size);
    RemainderIs(payload + size, TWO64, 0, payload + size);
  }

  /** A word whose low byte is raised by one. */
  lemma LowByteRaised(m: seq<u8>, k: nat, w: nat)
    requires k + 8 <= |m| && WordAt(m, k) == w && w % 256 < 255
    ensures WordAt(m[k := w % 256 + 1], k) == w + 1
  {
    hide LE;
    var m' := m[k := w % 256 + 1];
    LEStep(m[k..k + 8]);
    LEStep(m'[k..k + 8]);
    assert m'[k..k + 8][1..] == m[k..k + 8][1..];
  }

  /** A guard looked for one byte too far. */
  lemma GuardPassed(m: seq<u8>, at: nat)
    requires at + GUARD_SIZE < |m| && Filled(m, at, GUARD_SIZE, GUARD_PATTERN)
    ensures Differs(m, at + 1) <==> m[at + GUARD_SIZE] != GUARD_PATTERN
  {
  }

  /** A size one too large is reported although no guard byte changed, unless the next byte looks like a guard. */
  lemma SizeByteReported(m: seq<u8>, at: Place, payload: nat, size: u64)
    requires WellFormed(m, at, payload, size) && size % 256 < 255 && payload + size as int + GUARD_SIZE < |m|
    ensures var m' := m[payload - SIZE_AT := size % 256 + 1];
            && Intact(m', payload, size)
            && (FreeOutcome(m', at, payload) == Reported <==> m[payload + size + GUARD_SIZE] != GUARD_PATTERN)
  {
    hide WordAt, FreeOutcome, Differs;
    var k, b: u8 := payload - SIZE_AT, size % 256 + 1;
    var m' := m[k := b];
    LowByteRaised(m, k, size);
    WriteInWord(m, k, b, k);
    WriteOutcome(m, at, payload, size, k, b);
    RemainderIs(payload + size + 1, TWO64, 0, payload + size + 1);
    GuardPassed(m', payload + size);
  }
}
