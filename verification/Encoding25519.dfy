/**
 Between 32-byte strings and limbs: expansion of a little-endian string, and contraction of
 limbs to the one canonical encoding below P.
 */
module Encoding25519 {
  import opened MachineWords
  import opened Field25519
  import opened LittleEndian
  import opened Limbs

  const TWO255: nat := 0x8000_0000_0000_0000_0000_0000_0000_0000_0000_0000_0000_0000_0000_0000_0000_0000
  const TWO96: nat := 0x1_0000_0000_0000_0000_0000_0000
  const TWO152: nat := 0x100_0000_0000_0000_0000_0000_0000_0000_0000_0000
  const TWO192: nat := 0x1_0000_0000_0000_0000_0000_0000_0000_0000_0000_0000_0000_0000

  lemma Pow2Windows()
    ensures Pow2(0) == 1 && Pow2(48) == 0x1_0000_0000_0000 && Pow2(96) == TWO96 && Pow2(152) == TWO152
    ensures Pow2(192) == TWO192 && Pow2(128) == TWO128 && Pow2(255) == TWO255 && Pow2(256) == 2 * TWO255
  {
    hide Pow2;
    LEEmpty();
    Pow2Literals();
    Pow2Product(48, 48, 0x1_0000_0000_0000, 0x1_0000_0000_0000);
    Pow2Product(96, 56, TWO96, 0x100_0000_0000_0000);
    Pow2Product(96, 96, TWO96, TWO96);
    Pow2Product(64, 64, TWO64, TWO64);
    Pow2Product(192, 12, TWO192, 0x1000);
    Pow2Product(204, 51, TWO204, TWO51);
    Pow2Product(192, 64, TWO192, TWO64);
  }

  // Expansion.

  function ExpandLimbs(b: seq<u8>): Felem
    requires |b| == 32
  {
    Felem(Low51(LoadLimb(b[0..8])), Low51(LoadLimb(b[6..14]) / 8), Low51(LoadLimb(b[12..20]) / 0x40),
          Low51(LoadLimb(b[19..27]) / 2), Low51(LoadLimb(b[24..32]) / 0x1000))
  }

  /** The five radix-2^51 digits of a number, and what lies above them. */
  lemma FiveDigits(v: nat)
    ensures v % TWO255 == v % TWO51 + TWO51 * (v / TWO51 % TWO51) + TWO102 * (v / TWO102 % TWO51)
                          + TWO153 * (v / TWO153 % TWO51) + TWO204 * (v / TWO204 % TWO51)
  {
    var v1 := v / TWO51;
    var v2 := v1 / TWO51;
    var v3 := v2 / TWO51;
    var v4 := v3 / TWO51;
    var v5 := v4 / TWO51;
    var d0, d1, d2, d3, d4 := v % TWO51, v1 % TWO51, v2 % TWO51, v3 % TWO51, v4 % TWO51;
    RemainderIs(v, TWO102, v2, d0 + TWO51 * d1);
    RemainderIs(v, TWO153, v3, d0 + TWO51 * d1 + TWO102 * d2);
    RemainderIs(v, TWO204, v4, d0 + TWO51 * d1 + TWO102 * d2 + TWO153 * d3);
    RemainderIs(v, TWO255, v5, d0 + TWO51 * d1 + TWO102 * d2 + TWO153 * d3 + TWO204 * d4);
  }

  /** Dropping bits 64 and up does not disturb the 51 bits kept by each load. */
  lemma LoadedDigits(v: nat)
    ensures v % TWO64 % TWO51 == v % TWO51
    ensures v / 0x1_0000_0000_0000 % TWO64 / 8 % TWO51 == v / TWO51 % TWO51
    ensures v / TWO96 % TWO64 / 0x40 % TWO51 == v / TWO102 % TWO51
    ensures v / TWO152 % TWO64 / 2 % TWO51 == v / TWO153 % TWO51
    ensures v / TWO192 % TWO64 / 0x1000 % TWO51 == v / TWO204 % TWO51
  {
    KeptBits(v, 1, 0x2000);
    KeptBits(v / 0x1_0000_0000_0000, 8, 0x400);
    KeptBits(v / TWO96, 0x40, 0x80);
    KeptBits(v / TWO152, 2, 0x1000);
    KeptBits(v / TWO192, 0x1000, 2);
    DivideTwice(v, 0x1_0000_0000_0000, 8);
    DivideTwice(v, TWO96, 0x40);
    DivideTwice(v, TWO152, 2);
    DivideTwice(v, TWO192, 0x1000);
  }

  lemma KeptBits(x: nat, m: nat, h: nat)
    requires m > 0 && m * (TWO51 * h) == TWO64
    ensures x % TWO64 / m % TWO51 == x / m % TWO51
  {
    var q, r := x / TWO64, x % TWO64;
    var a, b := r / m, r % m;
    assert TWO64 * q == m * (TWO51 * h * q) by {
      assert (m * (TWO51 * h)) * q == m * ((TWO51 * h) * q);
    }
    RemainderIs(x, m, TWO51 * h * q + a, b);
    RemainderIs(x / m, TWO51, h * q + a / TWO51, a % TWO51);
  }

  lemma DivideTwice(v: nat, a: nat, b: nat)
    requires a > 0 && b > 0
    ensures a * b > 0 && v / a / b == v / (a * b)
  {
    var q, r := v / a, v % a;
    Nest(v, a, b, q, r, q / b, q % b);
    RemainderIs(v, a * b, q / b, a * (q % b) + r);
  }

  lemma Nest(v: nat, a: nat, b: nat, q: nat, r: nat, q': nat, r': nat)
    requires v == a * q + r && q == b * q' + r' && r < a && r' < b
    ensures v == q' * (a * b) + (a * r' + r)
    ensures 0 <= a * r' + r < a * b
  {
    MulDistributes(a, b * q', r');
    MulRotates(a, b, q');
    MulDistributes(a, r', b - 1 - r');
    MulDistributes(a, b - 1, 1);
  }

  lemma MulDistributes(a: nat, x: nat, y: nat)
    ensures a * (x + y) == a * x + a * y && a * y >= 0
  {
  }

  lemma MulRotates(a: nat, b: nat, c: nat)
    ensures a * (b * c) == c * (a * b)
  {
  }

  /** Expansion reads 255 bits and ignores the last one. */
  lemma ExpandCorrect(b: seq<u8>)
    requires |b| == 32
    ensures Val(ExpandLimbs(b)) == LE(b) % TWO255
    ensures AtMost(ExpandLimbs(b), TWO51 - 1)
  {
    hide LE, Pow2, LoadLimb, Low51;
    var v := LE(b);
    LoadAt(b, 0); LoadAt(b, 6); LoadAt(b, 12); LoadAt(b, 19); LoadAt(b, 24);
    Pow2Windows();
    Low51Is(LoadLimb(b[0..8]));
    Low51Is(LoadLimb(b[6..14]) / 8);
    Low51Is(LoadLimb(b[12..20]) / 0x40);
    Low51Is(LoadLimb(b[19..27]) / 2);
    Low51Is(LoadLimb(b[24..32]) / 0x1000);
    LoadedDigits(v);
    FiveDigits(v);
  }

  lemma LoadAt(b: seq<u8>, k: nat)
    requires k + 8 <= |b|
    ensures LoadLimb(b[k..k + 8]) == LE(b) / Pow2(8 * k) % TWO64
  {
    hide LE, Pow2, Or8;
    Window(b, k);
    LoadLimbIs(b[k..k + 8]);
  }

  // Contraction.

  /** `t & 0x7ffffffffffff` on a 128-bit accumulator. */
  function Mask51(t: nat): nat { BitAnd(t, 0x7_ffff_ffff_ffff) }

  lemma Mask51Is(t: nat)
    ensures Mask51(t) == t % TWO51
  {
    hide Pow2, BitAnd;
    Pow2Literals();
    BitAndOnes(t, 51);
  }

  /** Carries from limb to limb; the carry out of the top is returned. */
  function Ripple(t: Columns): (Columns, nat) {
    var t1 := U128(t.t1 + t.t0 / TWO51);
    var t2 := U128(t.t2 + t1 / TWO51);
    var t3 := U128(t.t3 + t2 / TWO51);
    var t4 := U128(t.t4 + t3 / TWO51);
    (Columns(U128(Mask51(t.t0)), U128(Mask51(t1)), U128(Mask51(t2)), U128(Mask51(t3)), U128(Mask51(t4))), t4 / TWO51)
  }

  /** One carry pass, folding 2^255 to 19. */
  function Pass(t: Columns): Columns {
    var (d, q) := Ripple(t);
    d.(t0 := U128(d.t0 + 19 * q))
  }

  function AddColumns(t: Columns, a0: nat, a: nat): Columns {
    Columns(U128(t.t0 + a0), U128(t.t1 + a), U128(t.t2 + a), U128(t.t3 + a), U128(t.t4 + a))
  }

  /** Canonical digits: two passes, a test addition of 19, and its removal modulo 2^255. */
  function ContractColumns(f: Felem): Columns {
    var t := Pass(Pass(Columns(f.l0, f.l1, f.l2, f.l3, f.l4)));
    var offset := Pass(t.(t0 := U128(t.t0 + 19)));
    Ripple(AddColumns(offset, TWO51 - 19, TWO51 - 1)).0
  }

  ghost function CVal(t: Columns): nat { ColumnVal(t.t0, t.t1, t.t2, t.t3, t.t4) }

  ghost predicate Small(t: Columns, b: nat) { t.t0 < b && t.t1 < b && t.t2 < b && t.t3 < b && t.t4 < b }

  const TWO65: nat := 0x2_0000_0000_0000_0000

  lemma RippleStep(t: nat, c: nat) returns (d: nat, q: nat)
    requires t < TWO65 && c < TWO65
    ensures U128(t + c) == t + c && q == (t + c) / TWO51 < 0x1_0000
    ensures d == U128(Mask51(t + c)) < TWO51 && t + c == d + TWO51 * q
  {
    hide Mask51;
    Mask51Is(t + c);
    d, q := (t + c) % TWO51, (t + c) / TWO51;
  }

  /** A ripple splits the value at 2^255 into digits and overflow. */
  lemma RippleSplits(t: Columns)
    requires Small(t, TWO65)
    ensures var (d, q) := Ripple(t);
            Small(d, TWO51) && CVal(t) == CVal(d) + TWO255 * q && CVal(d) < TWO255 && q < 0x1_0000
  {
    hide U128, Mask51, CVal;
    var d0, q0 := RippleStep(t.t0, 0);
    var d1, q1 := RippleStep(t.t1, q0);
    var d2, q2 := RippleStep(t.t2, q1);
    var d3, q3 := RippleStep(t.t3, q2);
    var d4, q4 := RippleStep(t.t4, q3);
    RippleSum(t, Columns(d0, d1, d2, d3, d4), q0, q1, q2, q3, q4);
  }

  lemma RippleSum(t: Columns, d: Columns, q0: nat, q1: nat, q2: nat, q3: nat, q4: nat)
    requires t.t0 == d.t0 + TWO51 * q0 && t.t1 + q0 == d.t1 + TWO51 * q1 && t.t2 + q1 == d.t2 + TWO51 * q2
    requires t.t3 + q2 == d.t3 + TWO51 * q3 && t.t4 + q3 == d.t4 + TWO51 * q4 && Small(d, TWO51)
    ensures CVal(t) == CVal(d) + TWO255 * q4 && CVal(d) < TWO255
  {
  }

  /** A pass lowers the value by P for every 2^255 it holds. */
  lemma PassFolds(t: Columns) returns (q: nat)
    requires Small(t, TWO65)
    ensures Small(Pass(t), TWO64) && q == CVal(t) / TWO255 < 0x1_0000
    ensures CVal(Pass(t)) == CVal(t) - P * q == CVal(t) % TWO255 + 19 * q
  {
    hide Ripple, CVal;
    RippleSplits(t);
    q := Ripple(t).1;
    var d := Ripple(t).0;
    RemainderIs(CVal(t), TWO255, q, CVal(d));
    FoldedVal(d, q);
  }

  lemma FoldedVal(d: Columns, q: nat)
    requires Small(d, TWO51) && q < 0x1_0000
    ensures U128(d.t0 + 19 * q) == d.t0 + 19 * q
    ensures CVal(d.(t0 := U128(d.t0 + 19 * q))) == CVal(d) + 19 * q
  {
  }

  /** Two passes bring any five 64-bit limbs below 2^255. */
  lemma TwoPasses(t: Columns)
    requires Small(t, TWO64)
    ensures Small(Pass(Pass(t)), TWO64) && CVal(Pass(Pass(t))) < TWO255 && CVal(Pass(Pass(t))) % P == CVal(t) % P
  {
    hide Pass, CVal;
    var q1 := PassFolds(t);
    var q2 := PassFolds(Pass(t));
    ReduceMultiple(CVal(Pass(Pass(t))), q1 + q2);
  }

  /** The offset value is the canonical representative plus 19. */
  lemma TestAddition(v: nat)
    requires v < TWO255
    ensures (v + 19) % TWO255 + 19 * ((v + 19) / TWO255) == v % P + 19
  {
    if v < P {
      RemainderIs(v + 19, TWO255, 0, v + 19);
    } else {
      RemainderIs(v + 19, TWO255, 1, v - P);
    }
  }

  lemma ContractCanonical(f: Felem)
    ensures Small(ContractColumns(f), TWO51) && CVal(ContractColumns(f)) == Val(f) % P
  {
    hide Pass, CVal, Ripple;
    var t0 := Columns(f.l0, f.l1, f.l2, f.l3, f.l4);
    assert CVal(t0) == Val(f) by { ColumnsOfLimbs(f); }
    TwoPasses(t0);
    var t := Pass(Pass(t0));
    AddNineteen(t);
    var t' := t.(t0 := U128(t.t0 + 19));
    var q := PassFolds(t');
    TestAddition(CVal(t));
    var offset := Pass(t');
    AddTop(offset);
    var top := AddColumns(offset, TWO51 - 19, TWO51 - 1);
    RippleSplits(top);
    var r := Ripple(top);
    assert CVal(top) == Val(f) % P + TWO255;
    UniqueQuotient(TWO255, 1, Val(f) % P, r.1, CVal(r.0));
  }

  lemma ColumnsOfLimbs(f: Felem)
    ensures CVal(Columns(f.l0, f.l1, f.l2, f.l3, f.l4)) == Val(f)
  {
  }

  lemma AddNineteen(t: Columns)
    requires Small(t, TWO64)
    ensures Small(t.(t0 := U128(t.t0 + 19)), TWO65) && CVal(t.(t0 := U128(t.t0 + 19))) == CVal(t) + 19
  {
  }

  lemma AddTop(t: Columns)
    requires Small(t, TWO64)
    ensures Small(AddColumns(t, TWO51 - 19, TWO51 - 1), TWO65)
    ensures CVal(AddColumns(t, TWO51 - 19, TWO51 - 1)) == CVal(t) + TWO255 - 19
  {
    hide U128;
    FitsU128(t.t0 + (TWO51 - 19));
    FitsU128(t.t1 + (TWO51 - 1));
    FitsU128(t.t2 + (TWO51 - 1));
    FitsU128(t.t3 + (TWO51 - 1));
    FitsU128(t.t4 + (TWO51 - 1));
  }

  lemma FitsU128(x: nat)
    requires x < TWO128
    ensures U128(x) == x
  {
  }

  // Packing five digits into four words.

  function ContractWords(t: Columns): (u64, u64, u64, u64) {
    (U64(BitOr(t.t0, TWO51 * t.t1)),
     U64(BitOr(t.t1 / 0x2000, 0x40_0000_0000 * t.t2)),
     U64(BitOr(t.t2 / 0x400_0000, 0x200_0000 * t.t3)),
     U64(BitOr(t.t3 / 0x80_0000_0000, 0x1000 * t.t4)))
  }

  lemma PackWord(x: nat, y: nat, k: nat, p: nat, h: nat)
    requires p == Pow2(k) && x < p && p * h == TWO64 && h > 0
    ensures U64(BitOr(x, p * y)) == x + p * (y % h)
  {
    hide BitOr, Pow2;
    BitOrDisjoint(x, y, k);
    var q, r := y / h, y % h;
    PackedSplit(x, y, p, h, q, r);
    RemainderIs(x + p * y, TWO64, q, x + p * r);
  }

  lemma PackedSplit(x: nat, y: nat, p: nat, h: nat, q: nat, r: nat)
    requires p * h == TWO64 && y == q * h + r && r < h && x < p
    ensures x + p * y == q * TWO64 + (x + p * r) && x + p * r < TWO64
  {
    MulDistributes(p, q * h, r);
    MulRotates(p, h, q);
    assert q * h == h * q;
    MulDistributes(p, r, h - 1 - r);
    MulDistributes(p, h - 1, 1);
  }

  lemma WordsOfDigits(t: Columns)
    requires Small(t, TWO51)
    ensures var (w0, w1, w2, w3) := ContractWords(t);
            w0 + TWO64 * w1 + TWO128 * w2 + TWO192 * w3 == CVal(t)
  {
    hide BitOr, Pow2, U64;
    Pow2Literals();
    PackWord(t.t0, t.t1, 51, TWO51, 0x2000);
    PackWord(t.t1 / 0x2000, t.t2, 38, 0x40_0000_0000, 0x400_0000);
    PackWord(t.t2 / 0x400_0000, t.t3, 25, 0x200_0000, 0x80_0000_0000);
    PackWord(t.t3 / 0x80_0000_0000, t.t4, 12, 0x1000, 0x10_0000_0000_0000);
    RemainderIs(t.t4, 0x10_0000_0000_0000, 0, t.t4);
  }

  lemma BytesOfWords(w0: u64, w1: u64, w2: u64, w3: u64, v: nat)
    requires v == w0 + TWO64 * w1 + TWO128 * w2 + TWO192 * w3
    ensures Bytes(w0, 8) + Bytes(w1, 8) + Bytes(w2, 8) + Bytes(w3, 8) == Bytes(v, 32)
  {
    hide Bytes, LE, Pow2;
    Pow2Literals();
    Pow2Windows();
    var b0, b1, b2, b3 := Bytes(w0, 8), Bytes(w1, 8), Bytes(w2, 8), Bytes(w3, 8);
    BytesOf(w0, 8); BytesOf(w1, 8); BytesOf(w2, 8); BytesOf(w3, 8);
    LEAppend(b0, b1);
    LEAppend(b0 + b1, b2);
    LEAppend(b0 + b1 + b2, b3);
    BytesOf(v, 32);
    LEInjective(b0 + b1 + b2 + b3, Bytes(v, 32));
  }
}
