/**
 Field elements as five 64-bit limbs in radix 2^51, and the straight-line limb arithmetic of
 the 64-bit curve25519-donna: every 64- and 128-bit operation wraps exactly where C wraps.
 */
module Limbs {
  import opened MachineWords
  import opened Field25519

  datatype Felem = Felem(l0: u64, l1: u64, l2: u64, l3: u64, l4: u64)

  const TWO102: nat := 0x40_0000_0000_0000_0000_0000_0000
  const TWO153: nat := 0x200_0000_0000_0000_0000_0000_0000_0000_0000_0000
  const TWO204: nat := 0x1000_0000_0000_0000_0000_0000_0000_0000_0000_0000_0000_0000_0000
  const TWO55: nat := 0x80_0000_0000_0000
  const TWO110: nat := 0x4000_0000_0000_0000_0000_0000_0000
  const TWO115: nat := 0x8_0000_0000_0000_0000_0000_0000_0000

  /** Bound on limbs between ladder steps. */
  const STORED: nat := TWO51

  /** Bound on the limbs of a difference: the largest factor the ladder multiplies. */
  const WIDE: nat := 0x48_0000_0000_0000

  function Val(f: Felem): nat {
    f.l0 + TWO51 * f.l1 + TWO102 * f.l2 + TWO153 * f.l3 + TWO204 * f.l4
  }

  function Fe(f: Felem): Fp { Val(f) % P }

  predicate AtMost(f: Felem, b: nat) {
    f.l0 <= b && f.l1 <= b && f.l2 <= b && f.l3 <= b && f.l4 <= b
  }

  function U64(x: int): u64 { x % TWO64 }

  function U128(x: int): u128 { x % TWO128 }

  /** `((uint128_t) x) * y` */
  function Prod(x: int, y: int): int { x * y }

  /** `(limb) t & 0x7ffffffffffff` */
  function Low51(t: nat): u64 {
    MaskIsRemainder(t);
    BitAnd(t % TWO64, 0x7_ffff_ffff_ffff)
  }

  lemma MaskIsRemainder(t: nat)
    ensures BitAnd(t % TWO64, 0x7_ffff_ffff_ffff) == t % TWO51
  {
    assert t % TWO64 % TWO51 == t % TWO51;
    Pow2Literals();
    BitAndOnes(t % TWO64, 51);
  }

  lemma Low51Is(t: nat)
    ensures Low51(t) == t % TWO51
  {
    MaskIsRemainder(t);
  }

  /** `(limb) (t >> 51)` */
  function High51(t: nat): u64 { U64(t / TWO51) }

  // Multiplication.

  /** Accumulators of the five columns, before carrying. */
  datatype Columns = Columns(t0: u128, t1: u128, t2: u128, t3: u128, t4: u128)

  function MulColumns(s: Felem, r: Felem): Columns {
    var r1, r2, r3, r4 := U64(r.l1 * 19), U64(r.l2 * 19), U64(r.l3 * 19), U64(r.l4 * 19);
    Columns(
      U128(Prod(r.l0, s.l0) + Prod(r4, s.l1) + Prod(r1, s.l4) + Prod(r2, s.l3) + Prod(r3, s.l2)),
      U128(Prod(r.l0, s.l1) + Prod(r.l1, s.l0) + Prod(r4, s.l2) + Prod(r2, s.l4) + Prod(r3, s.l3)),
      U128(Prod(r.l0, s.l2) + Prod(r.l2, s.l0) + Prod(r.l1, s.l1) + Prod(r4, s.l3) + Prod(r3, s.l4)),
      U128(Prod(r.l0, s.l3) + Prod(r.l3, s.l0) + Prod(r.l1, s.l2) + Prod(r.l2, s.l1) + Prod(r4, s.l4)),
      U128(Prod(r.l0, s.l4) + Prod(r.l4, s.l0) + Prod(r.l3, s.l1) + Prod(r.l1, s.l3) + Prod(r.l2, s.l2)))
  }

  function SquareColumns(r: Felem): Columns {
    var d0, d1, d2, d419 := U64(r.l0 * 2), U64(r.l1 * 2), U64(r.l2 * 2 * 19), U64(r.l4 * 19);
    var d4 := U64(d419 * 2);
    Columns(
      U128(Prod(r.l0, r.l0) + Prod(d4, r.l1) + Prod(d2, r.l3)),
      U128(Prod(d0, r.l1) + Prod(d4, r.l2) + Prod(r.l3, U64(r.l3 * 19))),
      U128(Prod(d0, r.l2) + Prod(r.l1, r.l1) + Prod(d4, r.l3)),
      U128(Prod(d0, r.l3) + Prod(d1, r.l2) + Prod(r.l4, d419)),
      U128(Prod(d0, r.l4) + Prod(d1, r.l3) + Prod(r.l2, r.l2)))
  }

  /** Carries the columns back into limbs; the top carry comes round multiplied by 19. */
  function Carry(t: Columns): Felem {
    var r0, c0 := Low51(t.t0), High51(t.t0);
    var t1 := U128(t.t1 + c0);
    var r1, c1 := Low51(t1), High51(t1);
    var t2 := U128(t.t2 + c1);
    var r2, c2 := Low51(t2), High51(t2);
    var t3 := U128(t.t3 + c2);
    var r3, c3 := Low51(t3), High51(t3);
    var t4 := U128(t.t4 + c3);
    var r4, c4 := Low51(t4), High51(t4);
    WrapTop(Felem(r0, r1, r2, r3, r4), c4)
  }

  function WrapTop(r: Felem, c: u64): Felem {
    var s0 := U64(r.l0 + U64(c * 19));
    var s1 := U64(r.l1 + s0 / TWO51);
    Felem(Low51(s0), Low51(s1), U64(r.l2 + s1 / TWO51), r.l3, r.l4)
  }

  function MulLimbs(s: Felem, r: Felem): Felem { Carry(MulColumns(s, r)) }

  function SquareLimbs(r: Felem): Felem { Carry(SquareColumns(r)) }

  // The columns without wrap-around.

  ghost function ColumnSums(s: Felem, r: Felem): (int, int, int, int, int) {
    (Prod(r.l0, s.l0) + 19 * (Prod(r.l4, s.l1) + Prod(r.l1, s.l4) + Prod(r.l2, s.l3) + Prod(r.l3, s.l2)),
     Prod(r.l0, s.l1) + Prod(r.l1, s.l0) + 19 * (Prod(r.l4, s.l2) + Prod(r.l2, s.l4) + Prod(r.l3, s.l3)),
     Prod(r.l0, s.l2) + Prod(r.l2, s.l0) + Prod(r.l1, s.l1) + 19 * (Prod(r.l4, s.l3) + Prod(r.l3, s.l4)),
     Prod(r.l0, s.l3) + Prod(r.l3, s.l0) + Prod(r.l1, s.l2) + Prod(r.l2, s.l1) + 19 * (Prod(r.l4, s.l4)),
     Prod(r.l0, s.l4) + Prod(r.l4, s.l0) + Prod(r.l3, s.l1) + Prod(r.l1, s.l3) + Prod(r.l2, s.l2))
  }

  lemma ProdAtMost(x: nat, y: nat, b: nat)
    requires x <= b && y <= b
    ensures 0 <= Prod(x, y) <= Prod(b, b)
  {
  }

  lemma ProdOfTwo55()
    ensures Prod(TWO55 - 1, TWO55 - 1) < TWO110
  {
  }

  lemma ProdScales(k: int, x: int, y: int)
    ensures Prod(k * x, y) == k * Prod(x, y) && Prod(y, k * x) == k * Prod(x, y)
  {
  }

  lemma ProdsAtMost(x: nat, s: Felem, b: nat)
    requires x <= b && AtMost(s, b)
    ensures 0 <= Prod(x, s.l0) <= Prod(b, b) && 0 <= Prod(x, s.l1) <= Prod(b, b) && 0 <= Prod(x, s.l2) <= Prod(b, b)
    ensures 0 <= Prod(x, s.l3) <= Prod(b, b) && 0 <= Prod(x, s.l4) <= Prod(b, b)
  {
    hide Prod;
    ProdAtMost(x, s.l0, b);
    ProdAtMost(x, s.l1, b);
    ProdAtMost(x, s.l2, b);
    ProdAtMost(x, s.l3, b);
    ProdAtMost(x, s.l4, b);
  }

  /** No column exceeds 77 products of two limbs. */
  lemma ColumnSumsAtMost(s: Felem, r: Felem, b: nat)
    requires AtMost(s, b) && AtMost(r, b)
    ensures var (t0, t1, t2, t3, t4) := ColumnSums(s, r);
            && 0 <= t0 <= 77 * Prod(b, b) && 0 <= t1 <= 59 * Prod(b, b) && 0 <= t2 <= 41 * Prod(b, b)
            && 0 <= t3 <= 23 * Prod(b, b) && 0 <= t4 <= 5 * Prod(b, b)
  {
    hide Prod;
    ProdsAtMost(r.l0, s, b);
    ProdsAtMost(r.l1, s, b);
    ProdsAtMost(r.l2, s, b);
    ProdsAtMost(r.l3, s, b);
    ProdsAtMost(r.l4, s, b);
  }

  lemma ProdsScale(x: int, s: Felem)
    ensures Prod(x * 19, s.l1) == 19 * Prod(x, s.l1) && Prod(x * 19, s.l2) == 19 * Prod(x, s.l2)
    ensures Prod(x * 19, s.l3) == 19 * Prod(x, s.l3) && Prod(x * 19, s.l4) == 19 * Prod(x, s.l4)
  {
    hide Prod;
    ProdScales(19, x, s.l1);
    ProdScales(19, x, s.l2);
    ProdScales(19, x, s.l3);
    ProdScales(19, x, s.l4);
  }

  /** Below 2^55, the documented range, the accumulators do not wrap. */
  lemma MulColumnsExact(s: Felem, r: Felem)
    requires AtMost(s, TWO55 - 1) && AtMost(r, TWO55 - 1)
    ensures var t, c := MulColumns(s, r), ColumnSums(s, r);
            t.t0 == c.0 && t.t1 == c.1 && t.t2 == c.2 && t.t3 == c.3 && t.t4 == c.4
  {
    hide Prod;
    ProdOfTwo55();
    ColumnSumsAtMost(s, r, TWO55 - 1);
    ProdsScale(r.l1, s);
    ProdsScale(r.l2, s);
    ProdsScale(r.l3, s);
    ProdsScale(r.l4, s);
  }

  /** A squaring is limb for limb a multiplication by itself, on the whole documented range. */
  lemma SquareIsMul(r: Felem)
    requires AtMost(r, TWO55 - 1)
    ensures SquareLimbs(r) == MulLimbs(r, r)
  {
    SquareColumnsAgree(r);
    hide *;
    assert SquareColumns(r) == MulColumns(r, r);
    SquareLimbsIs(r);
  }

  lemma SquareLimbsIs(r: Felem)
    ensures SquareLimbs(r) == Carry(SquareColumns(r)) && MulLimbs(r, r) == Carry(MulColumns(r, r))
  {
  }

  /** None of the multiples taken of the limbs wraps. */
  lemma FactorsExact(r: Felem)
    requires AtMost(r, TWO55 - 1)
    ensures U64(r.l0 * 2) == r.l0 * 2 && U64(r.l1 * 2) == r.l1 * 2 && U64(r.l2 * 2 * 19) == r.l2 * 38
    ensures U64(r.l1 * 19) == r.l1 * 19 && U64(r.l2 * 19) == r.l2 * 19
    ensures U64(r.l3 * 19) == r.l3 * 19 && U64(r.l4 * 19) == r.l4 * 19 && U64(r.l4 * 19 * 2) == r.l4 * 38
  {
    hide U64;
    FitsU64(r.l0 * 2); FitsU64(r.l1 * 2); FitsU64(r.l2 * 2 * 19); FitsU64(r.l4 * 19 * 2);
    FitsU64(r.l1 * 19); FitsU64(r.l2 * 19); FitsU64(r.l3 * 19); FitsU64(r.l4 * 19);
  }

  /** Twice a product is the product both ways round, with the factor on either side. */
  lemma TwiceEitherWay(x: int, y: int)
    ensures Prod(x * 2, y) == Prod(x, y) + Prod(y, x)
    ensures Prod(x * 38, y) == Prod(x * 19, y) + Prod(y * 19, x)
    ensures Prod(x, x * 19) == Prod(x * 19, x)
  {
  }

  lemma SquareColumnsAgree(r: Felem)
    requires AtMost(r, TWO55 - 1)
    ensures SquareColumns(r) == MulColumns(r, r)
  {
    hide Prod, U64, U128;
    FactorsExact(r);
    TwiceEitherWay(r.l4, r.l1); TwiceEitherWay(r.l2, r.l3); TwiceEitherWay(r.l0, r.l1); TwiceEitherWay(r.l4, r.l2);
    TwiceEitherWay(r.l3, r.l3); TwiceEitherWay(r.l0, r.l2); TwiceEitherWay(r.l4, r.l3); TwiceEitherWay(r.l0, r.l3);
    TwiceEitherWay(r.l1, r.l2); TwiceEitherWay(r.l0, r.l4); TwiceEitherWay(r.l3, r.l1); TwiceEitherWay(r.l1, r.l3);
    TwiceEitherWay(r.l4, r.l4);
  }

  lemma ProdCommutes(x: int, y: int)
    ensures Prod(x, y) == Prod(y, x)
  {
  }

  // Carrying.

  ghost function ColumnVal(t0: int, t1: int, t2: int, t3: int, t4: int): int {
    t0 + TWO51 * t1 + TWO102 * t2 + TWO153 * t3 + TWO204 * t4
  }

  /** No column, with the carry into it, reaches 2^115, and the top carry comes round in 64 bits. */
  ghost predicate CarriesFit(t0: int, t1: int, t2: int, t3: int, t4: int) {
    var s1 := t1 + t0 / TWO51;
    var s2 := t2 + s1 / TWO51;
    var s3 := t3 + s2 / TWO51;
    var s4 := t4 + s3 / TWO51;
    && t0 < TWO115 && s1 < TWO115 && s2 < TWO115 && s3 < TWO115
    && t0 % TWO51 + 19 * (s4 / TWO51) < TWO64
  }

  /** What carrying drops: the bits of the five carries beyond 64, and the wrap of the last sum. */
  datatype Loss = Loss(k0: nat, k1: nat, k2: nat, k3: nat, k4: nat)

  ghost function LossVal(k: Loss): nat {
    TWO64 * k.k4 + TWO115 * k.k0 + TWO51 * TWO115 * k.k1 + TWO102 * TWO115 * k.k2 + TWO153 * TWO115 * k.k3
  }

  lemma Split51(x: nat)
    ensures x == Low51(x) + TWO51 * (x / TWO51) && 0 <= Low51(x) < TWO51
    ensures x < TWO64 ==> x / TWO51 < 0x2000
    ensures x < 2 * TWO51 ==> x / TWO51 <= 1
  {
    hide Low51;
    Low51Is(x);
  }

  lemma FitsU64(x: nat)
    requires x < TWO64
    ensures U64(x) == x
  {
  }

  lemma CarryStep(t: nat, c: u64) returns (r: u64, d: u64, k: nat)
    requires t < 77 * TWO110
    ensures U128(t + c) == t + c && r == Low51(t + c) && d == High51(t + c)
    ensures t + c == r + TWO51 * d + TWO115 * k && r < TWO51
    ensures k <= 2 && (k == 0 <==> t + c < TWO115)
    ensures t <= 5 * TWO110 ==> k == 0 && d < 0x4000_0000_0000_0000
  {
    hide Low51;
    Low51Is(t + c);
    r, d, k := Low51(t + c), High51(t + c), (t + c) / TWO51 / TWO64;
  }

  lemma WrapTopIs(r: Felem, c: u64)
    ensures var s0 := U64(r.l0 + U64(c * 19));
            var s1 := U64(r.l1 + s0 / TWO51);
            WrapTop(r, c) == Felem(Low51(s0), Low51(s1), U64(r.l2 + s1 / TWO51), r.l3, r.l4)
  {
    hide U64, Low51;
  }

  lemma WrapOnce(x: u64, c: u64)
    requires x < TWO51 && c < 0x4000_0000_0000_0000
    ensures (x + 19 * c) / TWO64 <= 4
    ensures x + 19 * c == U64(x + U64(c * 19)) + TWO64 * ((x + 19 * c) / TWO64)
  {
  }

  lemma WrapTopAccount(r: Felem, c: u64) returns (k: nat)
    requires AtMost(r, TWO51 - 1) && c < 0x4000_0000_0000_0000
    ensures k == (r.l0 + 19 * c) / TWO64 <= 4
    ensures Val(WrapTop(r, c)) + TWO64 * k == Val(r) + 19 * c
    ensures AtMost(WrapTop(r, c), TWO51)
  {
    hide U64, Low51, WrapTop, Val;
    k := (r.l0 + 19 * c) / TWO64;
    WrapOnce(r.l0, c);
    var s0 := U64(r.l0 + U64(c * 19));
    Split51(s0);
    var s1 := r.l1 + s0 / TWO51;
    FitsU64(s1);
    Split51(s1);
    FitsU64(r.l2 + s1 / TWO51);
    WrapTopIs(r, c);
    WrapTopSum(r, c, k, Low51(s0), s0 / TWO51, Low51(s1), s1 / TWO51);
  }

  lemma WrapTopSum(r: Felem, c: u64, k: nat, r0: u64, h0: nat, r1: u64, h1: nat)
    requires r.l0 + 19 * c == r0 + TWO51 * h0 + TWO64 * k && r.l1 + h0 == r1 + TWO51 * h1 && r.l2 + h1 < TWO64
    ensures Val(Felem(r0, r1, r.l2 + h1, r.l3, r.l4)) + TWO64 * k == Val(r) + 19 * c
  {
  }

  /** Accounts for every bit: the value carried out, multiples of P, and what the casts dropped. */
  lemma CarryAccount(t: Columns) returns (k: Loss, q: nat)
    requires t.t0 < 77 * TWO110 && t.t1 < 77 * TWO110 && t.t2 < 77 * TWO110
    requires t.t3 < 77 * TWO110 && t.t4 <= 5 * TWO110
    ensures Val(Carry(t)) + P * q + LossVal(k) == ColumnVal(t.t0, t.t1, t.t2, t.t3, t.t4)
    ensures k.k0 <= 2 && k.k1 <= 2 && k.k2 <= 2 && k.k3 <= 2 && k.k4 <= 4
    ensures AtMost(Carry(t), TWO51)
    ensures k == Loss(0, 0, 0, 0, 0) <==> CarriesFit(t.t0, t.t1, t.t2, t.t3, t.t4)
  {
    hide *;
    var r, c0, c1, c2, c3, k0;
    r, c0, c1, c2, c3, q, k0 := CarryChain(t);
    var k4 := WrapTopAccount(r, q);
    k := k0.(k4 := k4);
    CarrySum(t, r, c0, c1, c2, c3, q, k);
    LossIff(t, r, c0, c1, c2, c3, q, k);
  }

  lemma CarryChain(t: Columns) returns (r: Felem, c0: nat, c1: nat, c2: nat, c3: nat, q: u64, k: Loss)
    requires t.t0 < 77 * TWO110 && t.t1 < 77 * TWO110 && t.t2 < 77 * TWO110
    requires t.t3 < 77 * TWO110 && t.t4 <= 5 * TWO110
    ensures Carry(t) == WrapTop(r, q)
    ensures t.t0 == r.l0 + TWO51 * c0 + TWO115 * k.k0
    ensures t.t1 + c0 == r.l1 + TWO51 * c1 + TWO115 * k.k1
    ensures t.t2 + c1 == r.l2 + TWO51 * c2 + TWO115 * k.k2
    ensures t.t3 + c2 == r.l3 + TWO51 * c3 + TWO115 * k.k3
    ensures t.t4 + c3 == r.l4 + TWO51 * q
    ensures k.k0 == 0 <==> t.t0 < TWO115
    ensures k.k1 == 0 <==> t.t1 + c0 < TWO115
    ensures k.k2 == 0 <==> t.t2 + c1 < TWO115
    ensures k.k3 == 0 <==> t.t3 + c2 < TWO115
    ensures q < 0x4000_0000_0000_0000 && AtMost(r, TWO51 - 1)
    ensures k.k0 <= 2 && k.k1 <= 2 && k.k2 <= 2 && k.k3 <= 2
  {
    hide U128, High51, Low51, WrapTop;
    var r0, r1, r2, r3, r4, k0, k1, k2, k3, k4;
    r0, c0, k0 := CarryStep(t.t0, 0);
    r1, c1, k1 := CarryStep(t.t1, c0);
    r2, c2, k2 := CarryStep(t.t2, c1);
    r3, c3, k3 := CarryStep(t.t3, c2);
    r4, q, k4 := CarryStep(t.t4, c3);
    r := Felem(r0, r1, r2, r3, r4);
    k := Loss(k0, k1, k2, k3, 0);
  }

  lemma LossIff(t: Columns, r: Felem, c0: nat, c1: nat, c2: nat, c3: nat, q: nat, k: Loss)
    requires t.t0 == r.l0 + TWO51 * c0 + TWO115 * k.k0
    requires t.t1 + c0 == r.l1 + TWO51 * c1 + TWO115 * k.k1
    requires t.t2 + c1 == r.l2 + TWO51 * c2 + TWO115 * k.k2
    requires t.t3 + c2 == r.l3 + TWO51 * c3 + TWO115 * k.k3
    requires t.t4 + c3 == r.l4 + TWO51 * q
    requires AtMost(r, TWO51 - 1)
    requires k.k0 == 0 <==> t.t0 < TWO115
    requires k.k1 == 0 <==> t.t1 + c0 < TWO115
    requires k.k2 == 0 <==> t.t2 + c1 < TWO115
    requires k.k3 == 0 <==> t.t3 + c2 < TWO115
    requires k.k4 == (r.l0 + 19 * q) / TWO64
    ensures k == Loss(0, 0, 0, 0, 0) <==> CarriesFit(t.t0, t.t1, t.t2, t.t3, t.t4)
  {
    ZeroQuotient(r.l0 + 19 * q);
    Quotient51(t.t0, c0, r.l0, k.k0);
    Quotient51(t.t1 + c0, c1, r.l1, k.k1);
    Quotient51(t.t2 + c1, c2, r.l2, k.k2);
    Quotient51(t.t3 + c2, c3, r.l3, k.k3);
    Quotient51(t.t4 + c3, q, r.l4, 0);
  }

  lemma Quotient51(x: nat, d: nat, r: nat, k: nat)
    requires x == r + TWO51 * d + TWO115 * k && r < TWO51
    ensures k == 0 ==> d == x / TWO51 && r == x % TWO51
  {
  }

  lemma ZeroQuotient(x: nat)
    ensures x / TWO64 == 0 <==> x < TWO64
  {
  }

  lemma CarrySum(t: Columns, r: Felem, c0: nat, c1: nat, c2: nat, c3: nat, q: nat, k: Loss)
    requires t.t0 == r.l0 + TWO51 * c0 + TWO115 * k.k0
    requires t.t1 + c0 == r.l1 + TWO51 * c1 + TWO115 * k.k1
    requires t.t2 + c1 == r.l2 + TWO51 * c2 + TWO115 * k.k2
    requires t.t3 + c2 == r.l3 + TWO51 * c3 + TWO115 * k.k3
    requires t.t4 + c3 == r.l4 + TWO51 * q
    ensures Val(r) + 19 * q + P * q + LossVal(k) - TWO64 * k.k4 == ColumnVal(t.t0, t.t1, t.t2, t.t3, t.t4)
  {
  }

  // Multiplication is multiplication in the field, exactly when no carry is lost.

  /** The schoolbook product, folded at 2^255. */
  lemma ProductExpands(s: Felem, r: Felem) returns (h: int)
    ensures var (t0, t1, t2, t3, t4) := ColumnSums(s, r);
            Val(s) * Val(r) == ColumnVal(t0, t1, t2, t3, t4) + P * h
  {
    h := Prod(r.l4, s.l1) + Prod(r.l1, s.l4) + Prod(r.l2, s.l3) + Prod(r.l3, s.l2)
         + TWO51 * (Prod(r.l4, s.l2) + Prod(r.l2, s.l4) + Prod(r.l3, s.l3))
         + TWO102 * (Prod(r.l4, s.l3) + Prod(r.l3, s.l4))
         + TWO153 * Prod(r.l4, s.l4);
    var v := Val(s);
    assert v * Val(r) == Prod(r.l0, v) + TWO51 * Prod(r.l1, v) + TWO102 * Prod(r.l2, v) + TWO153 * Prod(r.l3, v)
           + TWO204 * Prod(r.l4, v) by {
      Row(v, r);
    }
    hide Prod;
    Row(r.l0, s);
    Row(r.l1, s);
    Row(r.l2, s);
    Row(r.l3, s);
    Row(r.l4, s);
  }

  lemma Row(x: int, s: Felem)
    ensures Prod(x, Val(s))
         == Prod(x, s.l0) + TWO51 * Prod(x, s.l1) + TWO102 * Prod(x, s.l2) + TWO153 * Prod(x, s.l3)
            + TWO204 * Prod(x, s.l4)
    ensures Prod(x, Val(s)) == Prod(Val(s), x) == x * Val(s)
  {
  }

  ghost predicate MulCarriesFit(s: Felem, r: Felem) {
    var (t0, t1, t2, t3, t4) := ColumnSums(s, r);
    CarriesFit(t0, t1, t2, t3, t4)
  }

  /** A loss within the bounds of one multiplication vanishes modulo P only when there is none. */
  lemma LossVisible(k: Loss)
    requires k.k0 <= 2 && k.k1 <= 2 && k.k2 <= 2 && k.k3 <= 2 && k.k4 <= 4
    ensures LossVal(k) % P == 0 <==> k == Loss(0, 0, 0, 0, 0)
  {
    var folded := TWO64 * k.k4 + TWO115 * k.k0 + TWO51 * TWO115 * k.k1 + TWO102 * TWO115 * k.k2 + 19 * 0x2000 * k.k3;
    assert LossVal(k) == folded + P * (0x2000 * k.k3);
    ReduceMultiple(folded, 0x2000 * k.k3);
    assert 0 <= folded < P;
  }

  /** A product that is accounted for up to a loss is right exactly when the loss vanishes. */
  lemma LossDecides(a: nat, b: nat, out: nat, loss: nat, q: int)
    requires out + P * q + loss == a * b
    ensures out % P == Mul(a % P, b % P) <==> loss % P == 0
  {
    MulReduces(a, b);
    ReduceMultiple(out + loss, q);
    SameResidue(out, loss);
  }

  /**
   On limbs below 2^55 the product is right if and only if no carry is lost; the result is
   stored form either way.
   */
  lemma MulCorrectIff(s: Felem, r: Felem)
    requires AtMost(s, TWO55 - 1) && AtMost(r, TWO55 - 1)
    ensures Fe(MulLimbs(s, r)) == Mul(Fe(s), Fe(r)) <==> MulCarriesFit(s, r)
    ensures AtMost(MulLimbs(s, r), STORED)
  {
    hide Prod, Val, LossVal, ColumnVal, Carry, MulColumns, CarriesFit, Mul;
    MulColumnsExact(s, r);
    ProdOfTwo55();
    ColumnSumsAtMost(s, r, TWO55 - 1);
    var k, q := CarryAccount(MulColumns(s, r));
    var h := ProductExpands(s, r);
    LossDecides(Val(s), Val(r), Val(MulLimbs(s, r)), LossVal(k), q + h);
    LossVisible(k);
  }

  lemma SameResidue(x: nat, d: nat)
    ensures (x + d) % P == x % P <==> d % P == 0
  {
  }

  /** The bound that does hold in the ladder: factors up to 2^54 + 2^51 lose nothing. */
  lemma WideFactorsFit(s: Felem, r: Felem)
    requires AtMost(s, WIDE) && AtMost(r, WIDE)
    ensures MulCarriesFit(s, r)
  {
    hide Prod;
    ProdOfWide();
    ColumnSumsAtMost(s, r, WIDE);
  }

  lemma ProdOfWide()
    ensures Prod(WIDE, WIDE) == 0x1440_0000_0000_0000_0000_0000_0000
  {
  }

  lemma MulCorrect(s: Felem, r: Felem)
    requires AtMost(s, WIDE) && AtMost(r, WIDE)
    ensures Fe(MulLimbs(s, r)) == Mul(Fe(s), Fe(r))
    ensures AtMost(MulLimbs(s, r), STORED)
  {
    hide Fe, MulLimbs, Mul, MulCarriesFit;
    WideFactorsFit(s, r);
    MulCorrectIff(s, r);
  }

  /** The comment at the multiplication admits limbs up to 2^55 - 1, where the product is wrong. */
  lemma DocumentedBoundFails()
    ensures var f := Felem(TWO55 - 1, TWO55 - 1, TWO55 - 1, TWO55 - 1, TWO55 - 1);
            AtMost(f, TWO55 - 1) && Fe(MulLimbs(f, f)) != Mul(Fe(f), Fe(f))
  {
    var f := Felem(TWO55 - 1, TWO55 - 1, TWO55 - 1, TWO55 - 1, TWO55 - 1);
    assert !MulCarriesFit(f, f);
    hide *;
    assert AtMost(f, TWO55 - 1) by { AtMostAll(TWO55 - 1); }
    MulCorrectIff(f, f);
  }

  lemma AtMostAll(x: u64)
    ensures AtMost(Felem(x, x, x, x, x), x)
  {
  }

  // Addition, subtraction and multiplication by a small scalar.

  function SumLimbs(f: Felem, g: Felem): Felem {
    Felem(U64(f.l0 + g.l0), U64(f.l1 + g.l1), U64(f.l2 + g.l2), U64(f.l3 + g.l3), U64(f.l4 + g.l4))
  }

  lemma SumCorrect(f: Felem, g: Felem, a: nat, b: nat)
    requires AtMost(f, a) && AtMost(g, b) && a + b < TWO64
    ensures AtMost(SumLimbs(f, g), a + b)
    ensures Fe(SumLimbs(f, g)) == Add(Fe(f), Fe(g))
  {
    hide U64, Fe, Add, Val;
    FitsU64(f.l0 + g.l0); FitsU64(f.l1 + g.l1); FitsU64(f.l2 + g.l2); FitsU64(f.l3 + g.l3); FitsU64(f.l4 + g.l4);
    SumVal(f, g, SumLimbs(f, g));
    FeIs(f);
    FeIs(g);
    FeIs(SumLimbs(f, g));
    AddReduces(Val(f), Val(g));
  }

  lemma SumVal(f: Felem, g: Felem, h: Felem)
    requires h.l0 == f.l0 + g.l0 && h.l1 == f.l1 + g.l1 && h.l2 == f.l2 + g.l2 && h.l3 == f.l3 + g.l3
             && h.l4 == f.l4 + g.l4
    ensures Val(h) == Val(f) + Val(g)
  {
  }

  lemma FeIs(f: Felem)
    ensures Fe(f) == Val(f) % P
  {
  }

  const TWO54M152: nat := 0x3f_ffff_ffff_ff68
  const TWO54M8: nat := 0x3f_ffff_ffff_fff8

  /** `in - out`, kept positive by adding 8P limb by limb. */
  function DifferenceLimbs(inp: Felem, out: Felem): Felem {
    Felem(U64(inp.l0 + TWO54M152 - out.l0), U64(inp.l1 + TWO54M8 - out.l1), U64(inp.l2 + TWO54M8 - out.l2),
          U64(inp.l3 + TWO54M8 - out.l3), U64(inp.l4 + TWO54M8 - out.l4))
  }

  lemma DifferenceVal(inp: Felem, out: Felem, d: Felem)
    requires d.l0 == inp.l0 + TWO54M152 - out.l0 && d.l1 == inp.l1 + TWO54M8 - out.l1
             && d.l2 == inp.l2 + TWO54M8 - out.l2
    requires d.l3 == inp.l3 + TWO54M8 - out.l3 && d.l4 == inp.l4 + TWO54M8 - out.l4
    ensures Val(d) == Val(inp) - Val(out) + P * 8
  {
  }

  lemma DifferenceCorrect(inp: Felem, out: Felem)
    requires AtMost(inp, STORED) && AtMost(out, TWO54M152)
    ensures AtMost(DifferenceLimbs(inp, out), WIDE)
    ensures Fe(DifferenceLimbs(inp, out)) == Sub(Fe(inp), Fe(out))
  {
    hide U64, Fe, Sub, Val;
    FitsU64(inp.l0 + TWO54M152 - out.l0); FitsU64(inp.l1 + TWO54M8 - out.l1); FitsU64(inp.l2 + TWO54M8 - out.l2);
    FitsU64(inp.l3 + TWO54M8 - out.l3); FitsU64(inp.l4 + TWO54M8 - out.l4);
    DifferenceVal(inp, out, DifferenceLimbs(inp, out));
    FeIs(inp);
    FeIs(out);
    FeIs(DifferenceLimbs(inp, out));
    SubReduces(Val(inp), Val(out));
    ReduceMultiple(Val(inp) - Val(out), 8);
  }

  /** The running accumulators of a scalar product, each with the carry of the one before. */
  function ScalarColumns(f: Felem, k: u64): Columns {
    var a0 := U128(Prod(f.l0, k));
    var a1 := U128(Prod(f.l1, k) + High51(a0));
    var a2 := U128(Prod(f.l2, k) + High51(a1));
    var a3 := U128(Prod(f.l3, k) + High51(a2));
    var a4 := U128(Prod(f.l4, k) + High51(a3));
    Columns(a0, a1, a2, a3, a4)
  }

  function ScalarLimbs(f: Felem, k: u64): Felem {
    var a := ScalarColumns(f, k);
    Felem(U64(Low51(a.t0) + (a.t4 / TWO51) * 19), Low51(a.t1), Low51(a.t2), Low51(a.t3), Low51(a.t4))
  }

  lemma ProdBelow(x: nat, k: nat)
    requires x <= TWO55
    ensures 0 <= Prod(x, k) <= TWO55 * k
  {
  }

  lemma ScalarStep(x: nat, k: nat, c: nat) returns (r: u64, d: u64)
    requires x < TWO55 && k < TWO55 && c <= 17 * k
    ensures U128(Prod(x, k) + c) == Prod(x, k) + c
    ensures var a := Prod(x, k) + c; r == Low51(a) && d == High51(a) == a / TWO51 && a == r + TWO51 * d
    ensures r < TWO51 && d <= 17 * k
  {
    hide Prod, Low51;
    ProdBelow(x, k);
    var a := Prod(x, k) + c;
    Low51Is(a);
    r, d := Low51(a), High51(a);
  }

  lemma ScalarCorrect(f: Felem, k: u64)
    requires AtMost(f, TWO55 - 1) && k < TWO55
    ensures Fe(ScalarLimbs(f, k)) == Mul(Fe(f), k % P)
    ensures ScalarLimbs(f, k).l0 < TWO51 + 323 * k
    ensures AtMost(ScalarLimbs(f, k).(l0 := 0), TWO51 - 1)
  {
    hide Prod, Low51, High51, U128, U64, Fe, Mul, Val;
    var r0, c0 := ScalarStep(f.l0, k, 0);
    var r1, c1 := ScalarStep(f.l1, k, c0);
    var r2, c2 := ScalarStep(f.l2, k, c1);
    var r3, c3 := ScalarStep(f.l3, k, c2);
    var r4, c4 := ScalarStep(f.l4, k, c3);
    FitsU64(r0 + c4 * 19);
    var out := Felem(r0 + c4 * 19, r1, r2, r3, r4);
    assert ScalarLimbs(f, k) == out;
    hide ScalarLimbs;
    ScalarSum(f, k, Felem(r0, r1, r2, r3, r4), c0, c1, c2, c3, c4);
    FeIs(f);
    FeIs(out);
    LossDecides(Val(f), k, Val(out), 0, c4);
  }

  lemma ScalarSum(f: Felem, k: u64, r: Felem, c0: nat, c1: nat, c2: nat, c3: nat, c4: nat)
    requires Prod(f.l0, k) == r.l0 + TWO51 * c0
    requires Prod(f.l1, k) + c0 == r.l1 + TWO51 * c1
    requires Prod(f.l2, k) + c1 == r.l2 + TWO51 * c2
    requires Prod(f.l3, k) + c2 == r.l3 + TWO51 * c3
    requires Prod(f.l4, k) + c3 == r.l4 + TWO51 * c4
    requires r.l0 + c4 * 19 < TWO64
    ensures Val(f) * k == Val(r.(l0 := r.l0 + c4 * 19)) + P * c4
  {
    Row(k, f);
    ProdCommutes(k, f.l0); ProdCommutes(k, f.l1); ProdCommutes(k, f.l2); ProdCommutes(k, f.l3); ProdCommutes(k, f.l4);
    hide Prod;
  }
}
