/**
 The AVX2 operations of the lookup, lane by lane. The four 256-bit blocks of a hash slot are
 sixteen 64-bit lanes; lane 4b + l is lane l of block b, and lane 0 of every block is a dummy.
 */
module Lanes {
  import opened MachineWords

  const ONES: u64 := 0xffff_ffff_ffff_ffff

  type Vec = v: seq<u64> | |v| == 16 witness seq(16, _ => 0)

  predicate Dummy(i: int) { i % 4 == 0 }

  /** `_mm256_set_epi64x(0, 0, 0, UINT64_MAX)` in every block. */
  function DummyMask(i: nat): u64 { if Dummy(i) then ONES else 0 }

  /** `_mm256_cmpeq_epi64` on one lane. */
  function CmpEq(x: u64, y: u64): u64 { if x == y then ONES else 0 }

  /** `_mm256_blendv_epi8` on n bytes: the top bit of each mask byte selects the byte of b. */
  function BlendBytes(a: nat, b: nat, mask: nat, n: nat): nat
    decreases n, a
  {
    if n == 0 then 0
    else (if mask % 256 >= 128 then b % 256 else a % 256) + 256 * BlendBytes(a / 256, b / 256, mask / 256, n - 1)
  }

  lemma {:induction false} BlendNone(a: nat, b: nat, n: nat)
    requires a < Pow2(8 * n)
    ensures BlendBytes(a, b, 0, n) == a
    decreases n
  {
    if n > 0 {
      ByteSplits(n);
      BlendNone(a / 256, b / 256, n - 1);
    }
  }

  lemma {:induction false} BlendAll(a: nat, b: nat, n: nat)
    requires b < Pow2(8 * n)
    ensures BlendBytes(a, b, Pow2(8 * n) - 1, n) == b
    decreases n
  {
    if n > 0 {
      ByteSplits(n);
      BlendAll(a / 256, b / 256, n - 1);
    }
  }

  lemma ByteSplits(n: nat)
    requires n > 0
    ensures Pow2(8 * n) == 256 * Pow2(8 * (n - 1))
  {
    hide Pow2;
    Pow2Adds(8, 8 * (n - 1));
    Pow2Literals();
  }

  /** A blend under a comparison result takes whole lanes. */
  lemma BlendLane(a: u64, b: u64, x: u64, y: u64)
    ensures BlendBytes(a, b, CmpEq(x, y), 8) == if x == y then b else a
  {
    hide BlendBytes, Pow2;
    Pow2Literals();
    BlendNone(a, b, 8);
    BlendAll(a, b, 8);
  }

  function Blend(a: u64, b: u64, x: u64, y: u64): u64 {
    BlendLane(a, b, x, y);
    BlendBytes(a, b, CmpEq(x, y), 8)
  }

  lemma BlendIs(a: u64, b: u64, x: u64, y: u64)
    ensures Blend(a, b, x, y) == if x == y then b else a
  {
    hide BlendBytes;
    BlendLane(a, b, x, y);
  }

  // The bitwise identities used: with no bits, with all bits, with itself.

  lemma {:induction false} OrSelf(x: nat)
    ensures BitOr(x, x) == x && BitOr(x, 0) == x && BitOr(0, x) == x
  {
    if x != 0 {
      OrSelf(x / 2);
    }
  }

  lemma {:induction false} OrAll(x: nat, k: nat)
    requires x < Pow2(k)
    ensures BitOr(x, Pow2(k) - 1) == Pow2(k) - 1
    decreases k
  {
    if k == 0 {
      OrSelf(x);
    } else {
      OrAll(x / 2, k - 1);
      OrOdd(x, Pow2(k - 1) - 1);
    }
  }

  lemma OrOdd(x: nat, y: nat)
    ensures BitOr(x, 2 * y + 1) == 2 * BitOr(x / 2, y) + 1
  {
  }

  lemma {:induction false} XorAll(k: nat)
    ensures BitXor(0, Pow2(k) - 1) == Pow2(k) - 1 && BitXor(Pow2(k) - 1, Pow2(k) - 1) == 0
    decreases k
  {
    if k > 0 {
      XorAll(k - 1);
    }
  }

  lemma {:induction false} XorIsZero(x: nat, y: nat)
    ensures BitXor(x, y) == 0 <==> x == y
    decreases x + y
  {
    if x != 0 || y != 0 {
      XorIsZero(x / 2, y / 2);
    }
  }

  /** Values a dummy lane may hold. */
  predicate AllOrNothing(x: nat) { x == 0 || x == ONES }

  lemma DummyWord(x: u64)
    ensures BitOr(x, ONES) == ONES && BitOr(x, 0) == x && BitAnd(x, ONES) == x && BitAnd(x, 0) == 0 && BitXor(x, 0) == x
    ensures AllOrNothing(x) ==> AllOrNothing(BitXor(x, ONES))
    ensures BitXor(0, ONES) == ONES
  {
    hide BitOr, BitAnd, BitXor, Pow2;
    Pow2Literals();
    OrAll(x, 64);
    OrSelf(x);
    BitAndOnes(x, 64);
    RemainderIs(x, TWO64, 0, x);
    BitAndZero(x);
    BitXorZero(x);
    XorAll(64);
  }

  lemma OrBounded(x: u64, y: u64)
    ensures BitOr(x, y) < TWO64
  {
    hide BitOr, Pow2;
    Pow2Literals();
    BitOrBounded(x, y, 64);
  }

  function Or(x: u64, y: u64): u64 {
    OrBounded(x, y);
    BitOr(x, y)
  }

  function Xor(x: u64, y: u64): u64 {
    XorBounded(x, y);
    BitXor(x, y)
  }

  lemma XorBounded(x: u64, y: u64)
    ensures BitXor(x, y) < TWO64
  {
    hide BitXor, Pow2;
    Pow2Literals();
    BitXorBounded(x, y, 64);
  }
}
