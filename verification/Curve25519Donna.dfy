/**
 The routines of curve25519-donna on limb buffers: outputs are written through references, may
 alias inputs where the program lets them, and `fmonty` destroys its operands.
 */
module Curve25519Donna {
  import opened MachineWords
  import opened Field25519
  import opened LittleEndian
  import opened Limbs
  import opened Encoding25519
  import opened X25519

  ghost function F(a: array<u64>): Felem
    reads a
    requires a.Length == 5
  {
    Felem(a[0], a[1], a[2], a[3], a[4])
  }

  method MemCpy(dst: array<u64>, src: array<u64>)
    requires dst.Length == 5 && src.Length == 5
    modifies dst
    ensures F(dst) == old(F(src))
  {
    var s0, s1, s2, s3, s4 := src[0], src[1], src[2], src[3], src[4];
    dst[0], dst[1], dst[2], dst[3], dst[4] := s0, s1, s2, s3, s4;
  }

  method FSum(output: array<u64>, inp: array<u64>)
    requires output.Length == 5 && inp.Length == 5
    modifies output
    ensures F(output) == SumLimbs(old(F(output)), old(F(inp)))
  {
    hide U64;
    output[0] := U64(output[0] as int + inp[0] as int);
    output[1] := U64(output[1] as int + inp[1] as int);
    output[2] := U64(output[2] as int + inp[2] as int);
    output[3] := U64(output[3] as int + inp[3] as int);
    output[4] := U64(output[4] as int + inp[4] as int);
  }

  method FDifferenceBackwards(out: array<u64>, inp: array<u64>)
    requires out.Length == 5 && inp.Length == 5
    modifies out
    ensures F(out) == DifferenceLimbs(old(F(inp)), old(F(out)))
  {
    hide U64;
    out[0] := U64(inp[0] + TWO54M152 - out[0]);
    out[1] := U64(inp[1] + TWO54M8 - out[1]);
    out[2] := U64(inp[2] + TWO54M8 - out[2]);
    out[3] := U64(inp[3] + TWO54M8 - out[3]);
    out[4] := U64(inp[4] + TWO54M8 - out[4]);
  }

  method FScalarProduct(output: array<u64>, inp: array<u64>, scalar: u64)
    requires output.Length == 5 && inp.Length == 5
    modifies output
    ensures F(output) == ScalarLimbs(old(F(inp)), scalar)
  {
    hide U64, U128, High51, Low51, Prod;
    var a := U128(Prod(inp[0], scalar));
    var out0 := Low51(a);
    output[0] := out0;
    a := U128(Prod(inp[1], scalar) + High51(a));
    output[1] := Low51(a);
    a := U128(Prod(inp[2], scalar) + High51(a));
    output[2] := Low51(a);
    a := U128(Prod(inp[3], scalar) + High51(a));
    output[3] := Low51(a);
    a := U128(Prod(inp[4], scalar) + High51(a));
    output[4] := Low51(a);
    output[0] := U64(output[0] + (a / TWO51) * 19);
  }

  /** All limbs are read before any is written, so `output` may be an operand. */
  method FMul(output: array<u64>, in2: array<u64>, inp: array<u64>)
    requires output.Length == 5 && in2.Length == 5 && inp.Length == 5
    modifies output
    ensures F(output) == MulLimbs(old(F(in2)), old(F(inp)))
  {
    hide MulLimbs;
    var r := Felem(inp[0], inp[1], inp[2], inp[3], inp[4]);
    var s := Felem(in2[0], in2[1], in2[2], in2[3], in2[4]);
    var t := MulLimbs(s, r);
    output[0], output[1], output[2], output[3], output[4] := t.l0, t.l1, t.l2, t.l3, t.l4;
  }

  /** How often the do-while loop runs: a count of zero wraps to the largest limb. */
  function Rounds(count: u64): nat { if count == 0 then TWO64 else count }

  function SquareRounds(f: Felem, n: nat): Felem
    decreases n, f.l0
  {
    if n == 0 then f else SquareLimbs(SquareRounds(f, n - 1))
  }

  method FSquareTimes(output: array<u64>, inp: array<u64>, count: u64)
    requires output.Length == 5 && inp.Length == 5
    modifies output
    ensures F(output) == SquareRounds(old(F(inp)), Rounds(count))
  {
    hide SquareLimbs;
    var f := Felem(inp[0], inp[1], inp[2], inp[3], inp[4]);
    var r := SquareLimbs(f);
    var left := U64(count - 1);
    ghost var done: nat := 1;
    while left != 0
      invariant done + left as nat == Rounds(count)
      invariant r == SquareRounds(f, done)
      decreases left
    {
      r := SquareLimbs(r);
      left := left - 1;
      done := done + 1;
    }
    output[0], output[1], output[2], output[3], output[4] := r.l0, r.l1, r.l2, r.l3, r.l4;
  }

  /** Squaring n times raises to the power 2^n and keeps limbs in stored form. */
  lemma {:induction false} SquareRoundsCorrect(f: Felem, n: nat)
    requires AtMost(f, WIDE)
    ensures Fe(SquareRounds(f, n)) == Pow(Fe(f), Pow2(n))
    ensures AtMost(SquareRounds(f, n), WIDE) && (n > 0 ==> AtMost(SquareRounds(f, n), STORED))
    decreases n
  {
    hide Fe, SquareLimbs, MulLimbs, Pow, Mul;
    if n == 0 {
      PowStep(Fe(f), 1);
      PowZero(Fe(f));
      MulOne(Fe(f));
    } else {
      SquareRoundsCorrect(f, n - 1);
      var g := SquareRounds(f, n - 1);
      SquareIsMul(g);
      MulCorrect(g, g);
      PowAdds(Fe(f), Pow2(n - 1), Pow2(n - 1));
      SquareIs(Pow(Fe(f), Pow2(n - 1)));
    }
  }

  lemma PowZero(x: Fp)
    ensures Pow(x, 0) == 1
  {
  }

  // Conditional swap.

  /** One word of each operand after the masked exclusive or. */
  function SwapWords(x: u64, y: u64, iswap: u64): (nat, nat) {
    var d := BitAnd(U64(-(iswap as int)), BitXor(x, y));
    (BitXor(x, d), BitXor(y, d))
  }

  lemma SwapWordsCorrect(x: u64, y: u64, iswap: u64)
    ensures iswap == 1 ==> SwapWords(x, y, iswap) == (y, x)
    ensures iswap == 0 ==> SwapWords(x, y, iswap) == (x, y)
  {
    hide BitAnd, BitXor, Pow2;
    var e := BitXor(x, y);
    if iswap == 1 {
      Pow2Literals();
      BitXorBounded(x, y, 64);
      BitAndCommutes(TWO64 - 1, e);
      BitAndOnes(e, 64);
      RemainderIs(e, TWO64, 0, e);
      BitXorSwaps(x, y);
    } else if iswap == 0 {
      BitAndZero(e);
      BitAndCommutes(0, e);
      BitXorZero(x);
      BitXorZero(y);
    }
  }

  /** All pairs of words are swapped exactly for one, and left alone exactly for zero. */
  lemma SwapsIff(iswap: u64)
    ensures (forall x: u64, y: u64 :: SwapWords(x, y, iswap) == (y, x)) <==> iswap == 1
    ensures (forall x: u64, y: u64 :: SwapWords(x, y, iswap) == (x, y)) <==> iswap == 0
  {
    hide SwapWords;
    forall x: u64, y: u64 | true
      ensures iswap == 1 ==> SwapWords(x, y, iswap) == (y, x)
      ensures iswap == 0 ==> SwapWords(x, y, iswap) == (x, y)
    {
      SwapWordsCorrect(x, y, iswap);
    }
    SwapOnesZero(iswap);
  }

  lemma SwapOnesZero(iswap: u64)
    ensures SwapWords(TWO64 - 1, 0, iswap).1 == (TWO64 - iswap) % TWO64
  {
    hide BitAnd, BitXor, Pow2;
    var ones, swap := TWO64 - 1, U64(-(iswap as int));
    BitXorZero(ones);
    Pow2Literals();
    BitAndOnes(swap, 64);
    RemainderIs(swap, TWO64, 0, swap);
    BitXorZero(swap);
    BitXorSwaps(swap, 0);
  }

  lemma SwapWordsBounded(x: u64, y: u64, iswap: u64)
    ensures SwapWords(x, y, iswap).0 < TWO64 && SwapWords(x, y, iswap).1 < TWO64
  {
    hide BitAnd, BitXor, Pow2;
    Pow2Literals();
    BitXorBounded(x, y, 64);
    var d := BitAnd(U64(-(iswap as int)), BitXor(x, y));
    BitAndBounded(U64(-(iswap as int)), BitXor(x, y), 64);
    BitXorBounded(x, d, 64);
    BitXorBounded(y, d, 64);
  }

  /** Word by word, whatever the flag. */
  method SwapConditional(a: array<u64>, b: array<u64>, iswap: u64)
    requires a.Length == 5 && b.Length == 5 && a != b
    modifies a, b
    ensures forall i :: 0 <= i < 5 ==> (a[i], b[i]) == SwapWords(old(a[i]), old(b[i]), iswap)
    ensures iswap == 1 ==> F(a) == old(F(b)) && F(b) == old(F(a))
    ensures iswap == 0 ==> F(a) == old(F(a)) && F(b) == old(F(b))
  {
    hide SwapWords;
    for i := 0 to 5
      invariant forall k :: 0 <= k < i ==> (a[k], b[k]) == SwapWords(old(a[k]), old(b[k]), iswap)
      invariant forall k :: i <= k < 5 ==> a[k] == old(a[k]) && b[k] == old(b[k])
    {
      SwapWordsBounded(a[i], b[i], iswap);
      var (x, y) := SwapWords(a[i], b[i], iswap);
      a[i], b[i] := x, y;
    }
    SwapWordsCorrect(old(a[0]), old(b[0]), iswap);
    SwapWordsCorrect(old(a[1]), old(b[1]), iswap);
    SwapWordsCorrect(old(a[2]), old(b[2]), iswap);
    SwapWordsCorrect(old(a[3]), old(b[3]), iswap);
    SwapWordsCorrect(old(a[4]), old(b[4]), iswap);
  }

  // One ladder step.

  ghost predicate Apart(a: array<u64>, b: array<u64>, c: array<u64>, d: array<u64>,
                        e: array<u64>, f: array<u64>, g: array<u64>, h: array<u64>)
  {
    && a != b && a != c && a != d && a != e && a != f && a != g && a != h
    && b != c && b != d && b != e && b != f && b != g && b != h
    && c != d && c != e && c != f && c != g && c != h
    && d != e && d != f && d != g && d != h
    && e != f && e != g && e != h && f != g && f != h && g != h
  }

  /** The arrangement of products in `fmonty` against the step formulas. */
  lemma MontyIsStep(a: Fp, b: Fp, c: Fp, d: Fp, u: Fp)
    ensures var cb, da := Mul(c, b), Mul(a, d);
            var aa, bb := Square(a), Square(b);
            var e := Sub(aa, bb);
            && Square(Add(cb, da)) == Square(Add(Mul(d, a), cb))
            && Mul(Square(Sub(cb, da)), u) == Mul(u, Square(Sub(Mul(d, a), cb)))
            && Mul(e, Add(Mul(e, 121665), aa)) == Mul(e, Add(aa, Mul(121665, e)))
  {
    hide Add, Sub, Mul, Square;
    var cb, da := Mul(c, b), Mul(a, d);
    var e := Sub(Square(a), Square(b));
    MulCommutes(a, d);
    AddCommutes(cb, da);
    SquareOfDifference(cb, da);
    MulCommutes(Square(Sub(cb, da)), u);
    MulCommutes(e, 121665);
    AddCommutes(Mul(e, 121665), Square(a));
  }

  lemma AddCommutes(x: Fp, y: Fp)
    ensures Add(x, y) == Add(y, x)
  {
  }

  lemma ScaledSumAtMost(e: Felem, aa: Felem)
    requires AtMost(e, WIDE) && AtMost(aa, STORED)
    ensures AtMost(SumLimbs(ScalarLimbs(e, 121665), aa), WIDE)
    ensures Fe(SumLimbs(ScalarLimbs(e, 121665), aa)) == Add(Mul(Fe(e), 121665), Fe(aa))
  {
    hide SumLimbs, ScalarLimbs, Fe, Add, Mul;
    ScalarCorrect(e, 121665);
    SumCorrect(ScalarLimbs(e, 121665), aa, TWO51 + 0x400_0000, STORED);
  }

  lemma SquareCorrect(f: Felem)
    requires AtMost(f, WIDE)
    ensures AtMost(SquareRounds(f, 1), STORED) && Fe(SquareRounds(f, 1)) == Square(Fe(f))
  {
    hide SquareLimbs, MulLimbs, Fe, Mul;
    SquareRoundOnce(f);
    SquareIsMul(f);
    MulCorrect(f, f);
  }

  lemma SquareRoundOnce(f: Felem)
    ensures SquareRounds(f, 1) == SquareLimbs(f)
  {
    hide SquareLimbs;
    assert SquareRounds(f, 0) == f;
  }

  ghost function FieldOf(x: array<u64>, z: array<u64>, x': array<u64>, z': array<u64>): Ladder
    reads x, z, x', z'
    requires x.Length == 5 && z.Length == 5 && x'.Length == 5 && z'.Length == 5
  {
    Ladder(Fe(F(x)), Fe(F(z)), Fe(F(x')), Fe(F(z')))
  }

  ghost predicate Stored(a: array<u64>)
    reads a
  {
    a.Length == 5 && AtMost(F(a), STORED)
  }

  /** The three-line idiom of `fmonty`: (x, z) becomes (x + z, x - z). */
  method SumAndDifference(x: array<u64>, z: array<u64>)
    requires x.Length == 5 && z.Length == 5 && x != z
    modifies x, z
    ensures F(x) == SumLimbs(old(F(x)), old(F(z)))
    ensures F(z) == DifferenceLimbs(old(F(x)), old(F(z)))
  {
    hide SumLimbs, DifferenceLimbs;
    var origx := new u64[5];
    MemCpy(origx, x);
    FSum(x, z);
    FDifferenceBackwards(z, origx);
  }

  /** The part of `fmonty` that yields Q + Q', from the sums and differences. */
  method FMontyAdd(x3: array<u64>, z3: array<u64>, x: array<u64>, z: array<u64>,
                   xprime: array<u64>, zprime: array<u64>, qmqp: array<u64>)
    requires x3.Length == 5 && z3.Length == 5 && x.Length == 5 && z.Length == 5
    requires xprime.Length == 5 && zprime.Length == 5 && qmqp.Length == 5
    requires x3 != z3 && x3 != qmqp
    modifies x3, z3
    ensures var cb, da := old(MulLimbs(F(xprime), F(z))), old(MulLimbs(F(x), F(zprime)));
            && F(x3) == SquareRounds(SumLimbs(cb, da), 1)
            && F(z3) == MulLimbs(SquareRounds(DifferenceLimbs(cb, da), 1), old(F(qmqp)))
  {
    hide SumLimbs, DifferenceLimbs, MulLimbs, SquareRounds;
    var xxprime, zzprime, zzzprime := new u64[5], new u64[5], new u64[5];
    FMul(xxprime, xprime, z);
    FMul(zzprime, x, zprime);
    SumAndDifference(xxprime, zzprime);
    FSquareTimes(x3, xxprime, 1);
    FSquareTimes(zzzprime, zzprime, 1);
    FMul(z3, zzzprime, qmqp);
  }

  /** The part of `fmonty` that yields 2Q. */
  method FMontyDouble(x2: array<u64>, z2: array<u64>, x: array<u64>, z: array<u64>)
    requires x2.Length == 5 && z2.Length == 5 && x.Length == 5 && z.Length == 5 && x2 != z2
    modifies x2, z2
    ensures var aa, bb := old(SquareRounds(F(x), 1)), old(SquareRounds(F(z), 1));
            var e := DifferenceLimbs(aa, bb);
            F(x2) == MulLimbs(aa, bb) && F(z2) == MulLimbs(e, SumLimbs(ScalarLimbs(e, 121665), aa))
  {
    hide SumLimbs, DifferenceLimbs, MulLimbs, SquareRounds, ScalarLimbs;
    var zzz, xx, zz := new u64[5], new u64[5], new u64[5];
    FSquareTimes(xx, x, 1);
    FSquareTimes(zz, z, 1);
    FMul(x2, xx, zz);
    FDifferenceBackwards(zz, xx);
    FScalarProduct(zzz, zz, 121665);
    FSum(zzz, xx);
    FMul(z2, zz, zzz);
  }

  /** From Q, Q' and Q - Q' to 2Q and Q + Q'; nothing is lost and the results are stored form again. */
  method FMonty(x2: array<u64>, z2: array<u64>, x3: array<u64>, z3: array<u64>,
                x: array<u64>, z: array<u64>, xprime: array<u64>, zprime: array<u64>, qmqp: array<u64>)
    requires x2.Length == 5 && z2.Length == 5 && x3.Length == 5 && z3.Length == 5
    requires Stored(x) && Stored(z) && Stored(xprime) && Stored(zprime) && Stored(qmqp)
    requires Apart(x2, z2, x3, z3, x, z, xprime, zprime) && qmqp !in {x2, z2, x3, z3, x, z, xprime, zprime}
    modifies x2, z2, x3, z3, x, z, xprime, zprime
    ensures Stored(x2) && Stored(z2) && Stored(x3) && Stored(z3)
    ensures FieldOf(x2, z2, x3, z3) == Step(old(FieldOf(x, z, xprime, zprime)), old(Fe(F(qmqp))))
  {
    hide SumLimbs, DifferenceLimbs, MulLimbs, SquareRounds, ScalarLimbs, Fe, AtMost, Step;
    MontyCorrect(F(x), F(z), F(xprime), F(zprime), F(qmqp));
    SumAndDifference(x, z);
    SumAndDifference(xprime, zprime);
    FMontyAdd(x3, z3, x, z, xprime, zprime, qmqp);
    FMontyDouble(x2, z2, x, z);
  }

  /** The values left by `fmonty`, over limbs: bounds and field meaning. */
  lemma MontyCorrect(x: Felem, z: Felem, x': Felem, z': Felem, q: Felem)
    requires AtMost(x, STORED) && AtMost(z, STORED) && AtMost(x', STORED) && AtMost(z', STORED) && AtMost(q, STORED)
    ensures var a, b, c, d := SumLimbs(x, z), DifferenceLimbs(x, z), SumLimbs(x', z'), DifferenceLimbs(x', z');
            var cb, da := MulLimbs(c, b), MulLimbs(a, d);
            var x3 := SquareRounds(SumLimbs(cb, da), 1);
            var z3 := MulLimbs(SquareRounds(DifferenceLimbs(cb, da), 1), q);
            var aa, bb := SquareRounds(a, 1), SquareRounds(b, 1);
            var e := DifferenceLimbs(aa, bb);
            var x2 := MulLimbs(aa, bb);
            var z2 := MulLimbs(e, SumLimbs(ScalarLimbs(e, 121665), aa));
            && AtMost(x2, STORED) && AtMost(z2, STORED) && AtMost(x3, STORED) && AtMost(z3, STORED)
            && Ladder(Fe(x2), Fe(z2), Fe(x3), Fe(z3)) == Step(Ladder(Fe(x), Fe(z), Fe(x'), Fe(z')), Fe(q))
  {
    hide SumLimbs, DifferenceLimbs, MulLimbs, SquareRounds, ScalarLimbs, Fe, Add, Sub, Mul, Square, AtMost;
    var a, b, c, d := SumLimbs(x, z), DifferenceLimbs(x, z), SumLimbs(x', z'), DifferenceLimbs(x', z');
    SumOfStored(x, z);
    SumOfStored(x', z');
    DifferenceOfStored(x, z);
    DifferenceOfStored(x', z');
    var cb, da := MulLimbs(c, b), MulLimbs(a, d);
    MulCorrect(c, b);
    MulCorrect(a, d);
    SumOfStored(cb, da);
    DifferenceOfStored(cb, da);
    SquareCorrect(SumLimbs(cb, da));
    SquareCorrect(DifferenceLimbs(cb, da));
    StoredIsWide(q);
    StoredIsWide(SquareRounds(DifferenceLimbs(cb, da), 1));
    MulCorrect(SquareRounds(DifferenceLimbs(cb, da), 1), q);
    var aa, bb := SquareRounds(a, 1), SquareRounds(b, 1);
    SquareCorrect(a);
    SquareCorrect(b);
    StoredIsWide(aa);
    StoredIsWide(bb);
    MulCorrect(aa, bb);
    DifferenceOfStored(aa, bb);
    var e := DifferenceLimbs(aa, bb);
    ScaledSumAtMost(e, aa);
    MulCorrect(e, SumLimbs(ScalarLimbs(e, 121665), aa));
    MontyIsStep(Fe(a), Fe(b), Fe(c), Fe(d), Fe(q));
  }

  lemma StoredIsWide(f: Felem)
    requires AtMost(f, STORED)
    ensures AtMost(f, WIDE) && AtMost(f, TWO54M152)
  {
  }

  lemma SumOfStored(f: Felem, g: Felem)
    requires AtMost(f, STORED) && AtMost(g, STORED)
    ensures AtMost(SumLimbs(f, g), WIDE) && Fe(SumLimbs(f, g)) == Add(Fe(f), Fe(g))
  {
    hide SumLimbs, Fe, Add;
    SumCorrect(f, g, STORED, STORED);
  }

  lemma DifferenceOfStored(f: Felem, g: Felem)
    requires AtMost(f, STORED) && AtMost(g, STORED)
    ensures AtMost(DifferenceLimbs(f, g), WIDE) && Fe(DifferenceLimbs(f, g)) == Sub(Fe(f), Fe(g))
  {
    hide DifferenceLimbs, Fe, Sub;
    StoredIsWide(g);
    DifferenceCorrect(f, g);
  }

  // Reading the scalar from its most significant bit down.

  lemma Pow2Small(j: nat)
    requires j <= 7
    ensures Pow2(j) == if j == 0 then 1 else if j == 1 then 2 else if j == 2 then 4 else if j == 3 then 8
                       else if j == 4 then 16 else if j == 5 then 32 else if j == 6 then 64 else 128
  {
  }

  /** After j left shifts the top bit of a byte is its bit 7 - j. */
  lemma TopBitOfShift(x: u8, j: nat)
    requires j <= 7
    ensures x as int * Pow2(j) % 256 / 128 == x / Pow2(7 - j) % 2
  {
    hide Pow2;
    var p, e := Pow2(j), Pow2(7 - j);
    Pow2Adds(j, 7 - j);
    Pow2Small(7);
    var a, r := x as int / e, x as int % e;
    ShiftSplit(x, p, e, a, r);
    RemainderIs(x as int * p, 256, a / 2, 128 * (a % 2) + p * r);
    RemainderIs(128 * (a % 2) + p * r, 128, a % 2, p * r);
  }

  lemma ShiftSplit(x: nat, p: nat, e: nat, a: nat, r: nat)
    requires p * e == 128 && x == a * e + r && r < e
    ensures x * p == 256 * (a / 2) + (128 * (a % 2) + p * r) && 0 <= p * r < 128
  {
    MulDistributes(p, a * e, r);
    MulRotates(p, e, a);
    assert a * e == e * a;
    MulDistributes(p, r, e - 1 - r);
    MulDistributes(p, e - 1, 1);
  }

  lemma ByteBit(x: u8, h: nat, b: nat)
    requires b <= 7
    ensures (x + 256 * h) / Pow2(b) % 2 == x / Pow2(b) % 2
  {
    hide Pow2;
    var p, e := Pow2(b), Pow2(7 - b);
    Pow2Adds(b, 7 - b);
    Pow2Small(7);
    ByteBitAt(x, h, p, e);
  }

  lemma ByteBitAt(x: nat, h: nat, p: nat, e: nat)
    requires p > 0 && p * e == 128
    ensures (x + 256 * h) / p % 2 == x / p % 2
  {
    var a, r := x / p, x % p;
    HighPart(x, h, p, e, a, r);
    var eh := e * h;
    RemainderIs(x + 256 * h, p, 2 * eh + a, r);
  }

  lemma HighPart(x: nat, h: nat, p: nat, e: nat, a: nat, r: nat)
    requires p * e == 128 && x == a * p + r
    ensures x + 256 * h == (2 * (e * h) + a) * p + r
  {
    MulRotates(p, e, h);
    var eh := e * h;
    MulDistributes(p, eh, eh);
    MulDistributes(p, eh + eh, a);
  }

  /** Bit 8m + b of a little-endian number is bit b of byte m. */
  lemma ScalarBit(n: seq<u8>, m: nat, b: nat)
    requires m < |n| && b <= 7
    ensures Bit(LE(n), 8 * m + b) == n[m] / Pow2(b) % 2
  {
    hide Pow2, LE;
    var lo, hi := n[..m], n[m..];
    assert n == lo + hi && hi[1..] == n[m + 1..];
    LEAppend(lo, hi);
    LEStep(hi);
    RemainderIs(LE(n), Pow2(8 * m), LE(hi), LE(lo));
    DivideTwice(LE(n), Pow2(8 * m), Pow2(b));
    Pow2Adds(8 * m, b);
    ByteBit(n[m], LE(hi[1..]), b);
  }

  /** `limb a[5] = {limb0}` */
  method SetFelem(a: array<u64>, limb0: u64)
    requires a.Length == 5
    modifies a
    ensures F(a) == Felem(limb0, 0, 0, 0, 0)
  {
    a[0], a[1], a[2], a[3], a[4] := limb0, 0, 0, 0, 0;
  }

  lemma UnitAndZero()
    ensures Fe(Felem(1, 0, 0, 0, 0)) == 1 && Fe(Felem(0, 0, 0, 0, 0)) == 0
    ensures AtMost(Felem(1, 0, 0, 0, 0), STORED) && AtMost(Felem(0, 0, 0, 0, 0), STORED)
  {
  }

  /** Swap, step, swap back. */
  method LadderTurn(nqx: array<u64>, nqz: array<u64>, nqpqx: array<u64>, nqpqz: array<u64>,
                    nqx2: array<u64>, nqz2: array<u64>, nqpqx2: array<u64>, nqpqz2: array<u64>,
                    q: array<u64>, bit: u64)
    requires nqx2.Length == 5 && nqz2.Length == 5 && nqpqx2.Length == 5 && nqpqz2.Length == 5
    requires Stored(nqx) && Stored(nqz) && Stored(nqpqx) && Stored(nqpqz) && Stored(q) && bit <= 1
    requires Apart(nqx2, nqz2, nqpqx2, nqpqz2, nqx, nqz, nqpqx, nqpqz)
    requires q !in {nqx2, nqz2, nqpqx2, nqpqz2, nqx, nqz, nqpqx, nqpqz}
    modifies nqx, nqz, nqpqx, nqpqz, nqx2, nqz2, nqpqx2, nqpqz2
    ensures Stored(nqx2) && Stored(nqz2) && Stored(nqpqx2) && Stored(nqpqz2)
    ensures FieldOf(nqx2, nqz2, nqpqx2, nqpqz2)
            == SwapStepSwap(old(FieldOf(nqx, nqz, nqpqx, nqpqz)), bit, old(Fe(F(q))))
  {
    hide Step, Fe, AtMost;
    SwapConditional(nqx, nqpqx, bit);
    SwapConditional(nqz, nqpqz, bit);
    FMonty(nqx2, nqz2, nqpqx2, nqpqz2, nqx, nqz, nqpqx, nqpqz, q);
    SwapConditional(nqx2, nqpqx2, bit);
    SwapConditional(nqz2, nqpqz2, bit);
  }

  /** The eight buffers of `cmult` and the pointers to them that trade places after every step. */
  class Work {
    var nqx: array<u64>
    var nqz: array<u64>
    var nqpqx: array<u64>
    var nqpqz: array<u64>
    var nqx2: array<u64>
    var nqz2: array<u64>
    var nqpqx2: array<u64>
    var nqpqz2: array<u64>

    ghost predicate Valid()
      reads this, nqx, nqz, nqpqx, nqpqz
    {
      && nqx2.Length == 5 && nqz2.Length == 5 && nqpqx2.Length == 5 && nqpqz2.Length == 5
      && Apart(nqx2, nqz2, nqpqx2, nqpqz2, nqx, nqz, nqpqx, nqpqz)
      && Stored(nqx) && Stored(nqz) && Stored(nqpqx) && Stored(nqpqz)
    }

    ghost predicate Avoids(q: array<u64>)
      reads this
    {
      q !in {nqx2, nqz2, nqpqx2, nqpqz2, nqx, nqz, nqpqx, nqpqz}
    }

    ghost function State(): Ladder
      reads this, nqx, nqz, nqpqx, nqpqz
      requires Valid()
    {
      FieldOf(nqx, nqz, nqpqx, nqpqz)
    }

    constructor ()
      ensures fresh(nqx) && fresh(nqz) && fresh(nqpqx) && fresh(nqpqz)
      ensures fresh(nqx2) && fresh(nqz2) && fresh(nqpqx2) && fresh(nqpqz2)
      ensures Apart(nqx2, nqz2, nqpqx2, nqpqz2, nqx, nqz, nqpqx, nqpqz)
      ensures nqx.Length == 5 && nqz.Length == 5 && nqpqx.Length == 5 && nqpqz.Length == 5
      ensures nqx2.Length == 5 && nqz2.Length == 5 && nqpqx2.Length == 5 && nqpqz2.Length == 5
    {
      nqpqx, nqpqz, nqx, nqz := new u64[5], new u64[5], new u64[5], new u64[5];
      nqpqx2, nqpqz2, nqx2, nqz2 := new u64[5], new u64[5], new u64[5], new u64[5];
    }

    /** The initial contents: (1 : 0) and (q : 1). */
    method Init(q: array<u64>)
      requires Apart(nqx2, nqz2, nqpqx2, nqpqz2, nqx, nqz, nqpqx, nqpqz)
      requires nqx.Length == 5 && nqz.Length == 5 && nqpqx.Length == 5 && nqpqz.Length == 5
      requires nqx2.Length == 5 && nqz2.Length == 5 && nqpqx2.Length == 5 && nqpqz2.Length == 5
      requires Stored(q) && Avoids(q)
      modifies nqx, nqz, nqpqx, nqpqz, nqx2, nqz2, nqpqx2, nqpqz2
      ensures Valid() && State() == Start(Fe(F(q)))
    {
      hide Fe, AtMost;
      UnitAndZero();
      SetFelem(nqpqx2, 0);
      SetFelem(nqpqz2, 1);
      SetFelem(nqx2, 0);
      SetFelem(nqz2, 1);
      SetFelem(nqpqz, 1);
      SetFelem(nqx, 1);
      SetFelem(nqz, 0);
      MemCpy(nqpqx, q);
    }

    /** One turn of the inner loop: swap, step, swap back, exchange the two sets of pointers. */
    method Turn(q: array<u64>, bit: u64)
      requires Valid() && Stored(q) && Avoids(q) && bit <= 1
      modifies this, nqx, nqz, nqpqx, nqpqz, nqx2, nqz2, nqpqx2, nqpqz2
      ensures nqx == old(nqx2) && nqz == old(nqz2) && nqpqx == old(nqpqx2) && nqpqz == old(nqpqz2)
      ensures nqx2 == old(nqx) && nqz2 == old(nqz) && nqpqx2 == old(nqpqx) && nqpqz2 == old(nqpqz)
      ensures Valid() && State() == SwapStepSwap(old(State()), bit, old(Fe(F(q))))
    {
      hide Step, Fe, AtMost, F, SwapStepSwap;
      LadderTurn(nqx, nqz, nqpqx, nqpqz, nqx2, nqz2, nqpqx2, nqpqz2, q, bit);
      Exchange();
    }

    method Exchange()
      modifies this
      ensures nqx == old(nqx2) && nqz == old(nqz2) && nqpqx == old(nqpqx2) && nqpqz == old(nqpqz2)
      ensures nqx2 == old(nqx) && nqz2 == old(nqz) && nqpqx2 == old(nqpqx) && nqpqz2 == old(nqpqz)
    {
      nqx, nqx2 := nqx2, nqx;
      nqz, nqz2 := nqz2, nqz;
      nqpqx, nqpqx2 := nqpqx2, nqpqx;
      nqpqz, nqpqz2 := nqpqz2, nqpqz;
    }

    /** The inner loop: the eight bits of one byte of the scalar, most significant first. */
    method Byte(q: array<u64>, x: u8, ghost n: seq<u8>, ghost i: nat)
      requires Valid() && Stored(q) && Avoids(q) && |n| == 32 && i < 32 && x == n[31 - i]
      modifies this, nqx, nqz, nqpqx, nqpqz, nqx2, nqz2, nqpqx2, nqpqz2
      ensures nqx == old(nqx) && nqz == old(nqz) && nqpqx == old(nqpqx) && nqpqz == old(nqpqz)
      ensures nqx2 == old(nqx2) && nqz2 == old(nqz2) && nqpqx2 == old(nqpqx2) && nqpqz2 == old(nqpqz2)
      ensures Valid()
      ensures DonnaLoop(LE(n), old(Fe(F(q))), 256 - 8 * i, old(State()))
           == DonnaLoop(LE(n), old(Fe(F(q))), 256 - 8 * i - 8, State())
    {
      hide Fe, F, LE, SwapStepSwap, DonnaLoop, AtMost, Bit, Pow2;
      var byte := x;
      Pow2Zero();
      for j := 0 to 8
        invariant if j % 2 == 0
                  then nqx == old(nqx) && nqz == old(nqz) && nqpqx == old(nqpqx) && nqpqz == old(nqpqz)
                       && nqx2 == old(nqx2) && nqz2 == old(nqz2) && nqpqx2 == old(nqpqx2) && nqpqz2 == old(nqpqz2)
                  else nqx == old(nqx2) && nqz == old(nqz2) && nqpqx == old(nqpqx2) && nqpqz == old(nqpqz2)
                       && nqx2 == old(nqx) && nqz2 == old(nqz) && nqpqx2 == old(nqpqx) && nqpqz2 == old(nqpqz)
        invariant Valid()
        invariant byte as int == x as int * Pow2(j) % 256
        invariant DonnaLoop(LE(n), old(Fe(F(q))), 256 - 8 * i, old(State()))
               == DonnaLoop(LE(n), old(Fe(F(q))), 256 - 8 * i - j, State())
      {
        var bit: u64 := byte / 128;
        BitOfScalar(n, i, j, byte);
        DonnaTurn(LE(n), Fe(F(q)), 256 - 8 * i - j, State());
        Turn(q, bit);
        byte := byte as int * 2 % 256;
      }
    }

    /** The outer loop: all bytes of the scalar, most significant first. */
    method Bytes(q: array<u64>, n: array<u8>)
      requires Valid() && Stored(q) && Avoids(q) && n.Length == 32
      modifies this, nqx, nqz, nqpqx, nqpqz, nqx2, nqz2, nqpqx2, nqpqz2
      ensures nqx == old(nqx) && nqz == old(nqz) && Valid()
      ensures DonnaLoop(LE(n[..]), old(Fe(F(q))), 256, old(State())) == DonnaLoop(LE(n[..]), old(Fe(F(q))), 0, State())
    {
      hide Fe, LE, DonnaLoop, AtMost;
      for i := 0 to 32
        invariant nqx == old(nqx) && nqz == old(nqz) && nqpqx == old(nqpqx) && nqpqz == old(nqpqz)
        invariant nqx2 == old(nqx2) && nqz2 == old(nqz2) && nqpqx2 == old(nqpqx2) && nqpqz2 == old(nqpqz2)
        invariant Valid()
        invariant DonnaLoop(LE(n[..]), old(Fe(F(q))), 256, old(State()))
               == DonnaLoop(LE(n[..]), old(Fe(F(q))), 256 - 8 * i, State())
      {
        Byte(q, n[31 - i], n[..], i);
      }
    }
  }

  /** The scalar multiple, in projective form, over all 256 bits of the scalar. */
  method CMult(resultx: array<u64>, resultz: array<u64>, n: array<u8>, q: array<u64>)
    requires resultx.Length == 5 && resultz.Length == 5 && resultx != resultz
    requires n.Length == 32 && Stored(q)
    modifies resultx, resultz
    ensures Stored(resultx) && Stored(resultz)
    ensures var s := old(DonnaLoop(LE(n[..]), Fe(F(q)), 256, Start(Fe(F(q)))));
            Fe(F(resultx)) == s.x2 && Fe(F(resultz)) == s.z2
  {
    hide Fe, LE, DonnaLoop, AtMost, Start;
    var w := new Work();
    w.Init(q);
    w.Bytes(q, n);
    DonnaEnd(LE(n[..]), Fe(F(q)), w.State());
    MemCpy(resultx, w.nqx);
    MemCpy(resultz, w.nqz);
  }

  /** The bit taken in turn (i, j), and the byte as shifted for the next turn. */
  lemma BitOfScalar(n: seq<u8>, i: nat, j: nat, byte: u8)
    requires |n| == 32 && i < 32 && j < 8 && byte as int == n[31 - i] as int * Pow2(j) % 256
    ensures byte / 128 == Bit(LE(n), 256 - 8 * i - j - 1)
    ensures byte as int * 2 % 256 == n[31 - i] as int * Pow2(j + 1) % 256
  {
    hide Pow2, Bit, LE;
    TopBitOfShift(n[31 - i], j);
    ScalarBit(n, 31 - i, 7 - j);
    assert 8 * (31 - i) + (7 - j) == 256 - 8 * i - j - 1;
    ShiftByte(n[31 - i], j, byte);
  }

  lemma DonnaTurn(k: nat, u: Fp, t: nat, s: Ladder)
    requires t > 0
    ensures DonnaLoop(k, u, t, s) == DonnaLoop(k, u, t - 1, SwapStepSwap(s, Bit(k, t - 1), u))
  {
    hide Step, CSwap, Bit, SwapStepSwap;
  }

  lemma DonnaEnd(k: nat, u: Fp, s: Ladder)
    ensures DonnaLoop(k, u, 0, s) == s
  {
  }

  lemma ShiftByte(x: u8, j: nat, byte: u8)
    requires byte as int == x as int * Pow2(j) % 256
    ensures byte as int * 2 % 256 == x as int * Pow2(j + 1) % 256
  {
    var p := x as int * Pow2(j);
    assert x as int * Pow2(j + 1) == 2 * p;
    ModDoubles(p);
  }

  lemma ModDoubles(p: int)
    ensures p % 256 * 2 % 256 == 2 * p % 256
  {
  }

  // Inversion.

  /** The buffer holds base^e in stored form. */
  ghost predicate Holds(a: array<u64>, base: Fp, e: nat)
    reads a
  {
    a.Length == 5 && AtMost(F(a), STORED) && Fe(F(a)) == Pow(base, e)
  }

  method MulPowers(out: array<u64>, in2: array<u64>, inp: array<u64>, ghost base: Fp, ghost e2: nat, ghost e: nat)
    requires Holds(in2, base, e2) && Holds(inp, base, e) && out.Length == 5
    modifies out
    ensures Holds(out, base, e2 + e)
  {
    hide AtMost, Fe, Mul, Pow, MulLimbs;
    StoredIsWide(F(in2));
    StoredIsWide(F(inp));
    MulCorrect(F(in2), F(inp));
    PowAdds(base, e2, e);
    FMul(out, in2, inp);
  }

  method SquarePowers(out: array<u64>, inp: array<u64>, count: u64, ghost base: Fp, ghost e: nat)
    requires Holds(inp, base, e) && out.Length == 5 && count > 0
    modifies out
    ensures Holds(out, base, Shl(e, count))
  {
    hide AtMost, Fe, Mul, Pow, SquareRounds, Pow2;
    StoredIsWide(F(inp));
    SquareRoundsCorrect(F(inp), count);
    PowMultiplies(base, e, Pow2(count));
    FSquareTimes(out, inp, count);
  }

  lemma {:induction false} PowMultiplies(x: Fp, a: nat, b: nat)
    ensures Pow(Pow(x, a), b) == Pow(x, a * b)
    decreases b
  {
    hide Pow, Mul;
    if b == 0 {
      PowZero(Pow(x, a));
      PowZero(x);
    } else {
      PowMultiplies(x, a, b - 1);
      PowStep(Pow(x, a), b);
      PowAdds(x, a, a * (b - 1));
      assert a + a * (b - 1) == a * b;
    }
  }

  /** A run of k ones. */
  ghost function Ones(k: nat): nat { Pow2(k) - 1 }

  ghost function Shl(e: nat, k: nat): nat { e * Pow2(k) }

  lemma OnesExtend(j: nat, k: nat)
    ensures Shl(Ones(j), k) + Ones(k) == Ones(j + k)
  {
    hide Pow2;
    Pow2Adds(j, k);
    var p := Pow2(k);
    assert (Pow2(j) - 1) * p == Pow2(j) * p - p;
  }

  /** The start of the chain: the powers 11 and 31. */
  method FirstPowers(a: array<u64>, t0: array<u64>, b: array<u64>, z: array<u64>, ghost x: Fp)
    requires a != t0 && a != b && t0 != b && z != a && z != t0 && z != b
    requires a.Length == 5 && t0.Length == 5 && b.Length == 5 && Holds(z, x, 1)
    modifies a, t0, b
    ensures Holds(a, x, 11) && Holds(b, x, Ones(5))
  {
    hide AtMost, Fe, Pow, F, Ones, Shl;
    ChainLiterals();
    SquarePowers(a, z, 1, x, 1);
    SquarePowers(t0, a, 2, x, 2);
    MulPowers(b, t0, z, x, 8, 1);
    MulPowers(a, b, a, x, 9, 2);
    SquarePowers(t0, a, 1, x, 11);
    MulPowers(b, t0, b, x, 22, 9);
  }

  /** The addition chain for z^(P - 2), with results overwriting their own operands. */
  method CRecip(out: array<u64>, z: array<u64>)
    requires out.Length == 5 && Stored(z)
    modifies out
    ensures Stored(out) && Fe(F(out)) == old(Pow(Fe(F(z)), P - 2))
  {
    hide AtMost, Fe, Pow, F, Ones, Shl;
    ghost var x := Fe(F(z));
    PowOnce(x);
    ChainLiterals();
    var a, t0, b, c := new u64[5], new u64[5], new u64[5], new u64[5];
    FirstPowers(a, t0, b, z, x);
    RunsOfOnes(t0, b, c, x);
    SquarePowers(t0, t0, 5, x, Ones(250));
    MulPowers(out, t0, a, x, Shl(Ones(250), 5), 11);
  }

  lemma PowOnce(x: Fp)
    ensures Pow(x, 1) == x
  {
    hide Pow, Mul;
    PowStep(x, 1);
    PowZero(x);
    MulOne(x);
  }

  lemma ChainLiterals()
    ensures Shl(1, 1) == 2 && Shl(2, 2) == 8 && Shl(11, 1) == 22 && Ones(5) == 31
    ensures Shl(Ones(250), 5) + 11 == P - 2
  {
    hide Pow2;
    Pow2Small(1);
    Pow2Small(2);
    Pow2Small(5);
    Pow2Windows();
    Pow2Adds(250, 5);
  }

  /** The middle of the chain: from 2^5 - 1 to 2^250 - 1 ones. */
  method RunsOfOnes(t0: array<u64>, b: array<u64>, c: array<u64>, ghost x: Fp)
    requires t0 != b && t0 != c && b != c
    requires t0.Length == 5 && c.Length == 5 && Holds(b, x, Ones(5))
    modifies t0, b, c
    ensures Holds(t0, x, Ones(250))
  {
    hide AtMost, Fe, Pow, F, Ones, Shl;
    SquarePowers(t0, b, 5, x, Ones(5));
    OnesExtend(5, 5);
    MulPowers(b, t0, b, x, Shl(Ones(5), 5), Ones(5));
    SquarePowers(t0, b, 10, x, Ones(10));
    OnesExtend(10, 10);
    MulPowers(c, t0, b, x, Shl(Ones(10), 10), Ones(10));
    SquarePowers(t0, c, 20, x, Ones(20));
    OnesExtend(20, 20);
    MulPowers(t0, t0, c, x, Shl(Ones(20), 20), Ones(20));
    SquarePowers(t0, t0, 10, x, Ones(40));
    OnesExtend(40, 10);
    MulPowers(b, t0, b, x, Shl(Ones(40), 10), Ones(10));
    SquarePowers(t0, b, 50, x, Ones(50));
    OnesExtend(50, 50);
    MulPowers(c, t0, b, x, Shl(Ones(50), 50), Ones(50));
    SquarePowers(t0, c, 100, x, Ones(100));
    OnesExtend(100, 100);
    MulPowers(t0, t0, c, x, Shl(Ones(100), 100), Ones(100));
    SquarePowers(t0, t0, 50, x, Ones(200));
    OnesExtend(200, 50);
    MulPowers(t0, t0, b, x, Shl(Ones(200), 50), Ones(50));
  }

  // Byte strings in and out.

  method FExpand(output: array<u64>, inp: array<u8>)
    requires output.Length == 5 && inp.Length == 32
    modifies output
    ensures Stored(output) && Val(F(output)) == LE(inp[..]) % TWO255
  {
    hide LE, Val;
    var b := inp[..];
    ExpandCorrect(b);
    var f := ExpandLimbs(b);
    output[0], output[1], output[2], output[3], output[4] := f.l0, f.l1, f.l2, f.l3, f.l4;
  }

  /** The bytes `fcontract` writes for the limbs `fexpand` reads. */
  function Reencoded(b: seq<u8>): seq<u8>
    requires |b| == 32
  {
    var (w0, w1, w2, w3) := ContractWords(ContractColumns(ExpandLimbs(b)));
    Bytes(w0, 8) + Bytes(w1, 8) + Bytes(w2, 8) + Bytes(w3, 8)
  }

  /** Contracting what was expanded reduces the low 255 bits modulo the prime, and keeps canonical encodings. */
  lemma ContractAfterExpand(b: seq<u8>)
    requires |b| == 32
    ensures Reencoded(b) == Bytes(LE(b) % TWO255 % P, 32) && LE(Reencoded(b)) == LE(b) % TWO255 % P
    ensures Reencoded(b) == b <==> LE(b) < P
  {
    hide Bytes, LE, ContractColumns, ContractWords, Val, CVal, ExpandLimbs, Pow2;
    var f := ExpandLimbs(b);
    ExpandCorrect(b);
    ContractCanonical(f);
    var t := ContractColumns(f);
    WordsOfDigits(t);
    var (w0, w1, w2, w3) := ContractWords(t);
    BytesOfWords(w0, w1, w2, w3, CVal(t));
    BelowTwo256(CVal(t));
    BytesOf(CVal(t), 32);
    if LE(b) < P {
      LEInjective(Reencoded(b), b);
    }
  }

  lemma BelowTwo256(x: nat)
    requires x < P
    ensures x < Pow2(8 * 32) && x % TWO255 % P == x
  {
    hide Pow2;
    Pow2Literals();
    Pow2Adds(128, 128);
    Pow2Adds(64, 64);
  }

  method StoreLimb(out: array<u8>, at: nat, w: u64)
    requires at + 8 <= out.Length
    modifies out
    ensures out[..] == old(out[..at]) + Bytes(w, 8) + old(out[at + 8..])
  {
    hide Bytes;
    StoreBytes(w);
    out[at] := w % 256;
    out[at + 1] := w / 0x100 % 256;
    out[at + 2] := w / 0x1_0000 % 256;
    out[at + 3] := w / 0x100_0000 % 256;
    out[at + 4] := w / 0x1_0000_0000 % 256;
    out[at + 5] := w / 0x100_0000_0000 % 256;
    out[at + 6] := w / 0x1_0000_0000_0000 % 256;
    out[at + 7] := w / 0x100_0000_0000_0000 % 256;
  }

  method StoreLimbs(out: array<u8>, w0: u64, w1: u64, w2: u64, w3: u64)
    requires out.Length == 32
    modifies out
    ensures out[..] == Bytes(w0, 8) + Bytes(w1, 8) + Bytes(w2, 8) + Bytes(w3, 8)
  {
    hide Bytes;
    StoreLimb(out, 0, w0);
    assert out[..8] == Bytes(w0, 8);
    StoreLimb(out, 8, w1);
    assert out[..16] == Bytes(w0, 8) + Bytes(w1, 8);
    StoreLimb(out, 16, w2);
    assert out[..24] == Bytes(w0, 8) + Bytes(w1, 8) + Bytes(w2, 8);
    StoreLimb(out, 24, w3);
  }

  /** The unique encoding below P, whatever the five 64-bit limbs. */
  method FContract(output: array<u8>, input: array<u64>)
    requires output.Length == 32 && input.Length == 5
    modifies output
    ensures output[..] == Bytes(old(Val(F(input))) % P, 32)
  {
    hide Bytes, ContractColumns, ContractWords, Val, CVal;
    var f := Felem(input[0], input[1], input[2], input[3], input[4]);
    ContractCanonical(f);
    var t := ContractColumns(f);
    WordsOfDigits(t);
    var (w0, w1, w2, w3) := ContractWords(t);
    BytesOfWords(w0, w1, w2, w3, Val(f) % P);
    StoreLimbs(output, w0, w1, w2, w3);
  }

  // The whole function.

  /** `e[0] &= 248; e[31] &= 127; e[31] |= 64` */
  function Clamp(b: seq<u8>): (c: seq<u8>)
    requires |b| == 32
    ensures |c| == 32
  {
    ClampedBytes(b[0], b[31]);
    b[0 := BitAnd(b[0], 248)][31 := BitOr(BitAnd(b[31], 127), 64)]
  }

  lemma ClampedBytes(x: u8, y: u8)
    ensures BitAnd(x, 248) < 256 && BitOr(BitAnd(y, 127), 64) < 128
  {
    hide BitAnd, BitOr;
    Pow2Literals();
    Pow2Small(7);
    BitAndBounded(x, 248, 8);
    BitAndBounded(y, 127, 7);
    BitOrBounded(BitAnd(y, 127), 64, 7);
  }

  /** A clamped scalar is below 2^255, so the first of the 256 bits read is always clear. */
  lemma ClampedScalar(b: seq<u8>)
    requires |b| == 32
    ensures LE(Clamp(b)) < Pow2(255)
  {
    hide LE, Pow2, BitAnd, BitOr;
    var c := Clamp(b);
    ClampedBytes(b[0], b[31]);
    var lo, hi := c[..31], c[31..];
    assert c == lo + hi && hi == [c[31]] && hi[1..] == [] && c[31] < 128;
    LEAppend(lo, hi);
    LEStep(hi);
    LEEmpty();
    Pow2Adds(248, 7);
    Pow2Small(7);
    HighByteFits(Pow2(248), LE(lo), LE(hi));
  }

  lemma HighByteFits(p: nat, lo: nat, hi: nat)
    requires lo < p && hi < 128
    ensures lo + p * hi < p * 128
  {
    assert p * hi <= p * 127;
  }

  /** The last two field operations: z becomes x / z. */
  method Divide(z: array<u64>, x: array<u64>)
    requires Stored(z) && Stored(x) && x != z
    modifies z
    ensures z.Length == 5 && Fe(F(z)) == old(Mul(Fe(F(x)), Pow(Fe(F(z)), P - 2)))
  {
    hide Fe, Pow, Mul, AtMost, MulLimbs;
    var zmone := new u64[5];
    CRecip(zmone, z);
    StoredIsWide(F(x));
    StoredIsWide(F(zmone));
    MulCorrect(F(x), F(zmone));
    FMul(z, x, zmone);
  }

  /** X25519 on byte strings, section 5 of RFC 7748: clamp the scalar, mask the top bit of u, encode. */
  ghost function Rfc7748(secret: seq<u8>, u: seq<u8>): seq<u8>
    requires |secret| == 32
  {
    Bytes(X25519.X25519(LE(Clamp(secret)), LE(u) % TWO255 % P), 32)
  }

  lemma DonnaIsRfc7748(secret: seq<u8>, u: seq<u8>)
    requires |secret| == 32 && FermatHolds()
    ensures Bytes(DonnaX25519(LE(Clamp(secret)), LE(u) % TWO255 % P), 32) == Rfc7748(secret, u)
  {
    hide Clamp, LE, Bytes, X25519.X25519, DonnaX25519, FermatHolds, Pow2;
    ClampedScalar(secret);
    DonnaIsX25519(LE(Clamp(secret)), LE(u) % TWO255 % P);
  }

  /** Scalar multiplication on byte strings, for every secret and every base point. */
  method Curve25519(mypublic: array<u8>, secret: array<u8>, basepoint: array<u8>)
    requires mypublic.Length == 32 && secret.Length == 32 && basepoint.Length == 32
    modifies mypublic
    ensures mypublic[..] == Bytes(DonnaX25519(LE(Clamp(old(secret[..]))), LE(old(basepoint[..])) % TWO255 % P), 32)
    ensures FermatHolds() ==> mypublic[..] == Rfc7748(old(secret[..]), old(basepoint[..]))
  {
    hide Rfc7748, FermatHolds, Bytes, LE, Fe, Pow, Mul, DonnaLoop, AtMost, BitAnd, BitOr, Val, MulLimbs, Start;
    ghost var s, u := secret[..], LE(basepoint[..]) % TWO255 % P;
    var bp, x, z := new u64[5], new u64[5], new u64[5];
    var e := new u8[32];
    for i := 0 to 32
      invariant forall j :: 0 <= j < i ==> e[j] == s[j]
      invariant secret[..] == s && basepoint[..] == old(basepoint[..])
    {
      e[i] := secret[i];
    }
    assert e[..] == s;
    ClampedBytes(s[0], s[31]);
    e[0] := BitAnd(e[0], 248);
    e[31] := BitOr(BitAnd(e[31], 127), 64);
    assert e[..] == Clamp(s);
    FExpand(bp, basepoint);
    FeIs(F(bp));
    CMult(x, z, e, bp);
    Divide(z, x);
    FeIs(F(z));
    FContract(mypublic, z);
    if FermatHolds() {
      DonnaIsRfc7748(s, old(basepoint[..]));
    }
  }
}
