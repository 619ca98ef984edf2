/**
 The X25519 function of section 5 of RFC 7748, and the proof that the ladder of
 curve25519-donna, which swaps back after every step and runs one step more, computes it.
 */
module X25519 {
  import opened MachineWords
  import opened Field25519

  /** Two points in projective x-coordinates, (x2 : z2) and (x3 : z3). */
  datatype Ladder = Ladder(x2: Fp, z2: Fp, x3: Fp, z3: Fp)

  ghost function Bit(k: nat, t: nat): nat { k / Pow2(t) % 2 }

  /** One step of the Montgomery ladder, with the names of RFC 7748. */
  function Step(s: Ladder, u: Fp): Ladder {
    var a, b, c, d := Add(s.x2, s.z2), Sub(s.x2, s.z2), Add(s.x3, s.z3), Sub(s.x3, s.z3);
    var aa, bb := Square(a), Square(b);
    var e := Sub(aa, bb);
    var da, cb := Mul(d, a), Mul(c, b);
    Ladder(Mul(aa, bb), Mul(e, Add(aa, Mul(121665, e))), Square(Add(da, cb)), Mul(u, Square(Sub(da, cb))))
  }

  function CSwap(swap: nat, s: Ladder): Ladder {
    if swap == 1 then Ladder(s.x3, s.z3, s.x2, s.z2) else s
  }

  function Start(u: Fp): Ladder { Ladder(1, 0, u, 1) }

  // The loops decrease in t alone; naming k as well keeps their constant bounds from being unrolled.

  // RFC 7748: each iteration first applies the exclusive or of this bit and the last one.

  ghost function RfcLoop(k: nat, u: Fp, t: nat, s: Ladder, swap: nat): Ladder
    decreases t, k
  {
    if t == 0 then CSwap(swap, s)
    else
      var bit := Bit(k, t - 1);
      RfcLoop(k, u, t - 1, Step(CSwap(if swap == bit then 0 else 1, s), u), bit)
  }

  ghost function Affine(s: Ladder): Fp { Mul(s.x2, Pow(s.z2, P - 2)) }

  /** X25519 on a decoded scalar and a decoded u-coordinate. */
  ghost function X25519(k: nat, u: Fp): Fp { Affine(RfcLoop(k, u, 255, Start(u), 0)) }

  // curve25519-donna: swap, step, swap back; 256 iterations.

  function SwapStepSwap(s: Ladder, bit: nat, u: Fp): Ladder { CSwap(bit, Step(CSwap(bit, s), u)) }

  ghost function DonnaLoop(k: nat, u: Fp, t: nat, s: Ladder): Ladder
    decreases t, k
  {
    if t == 0 then s else DonnaLoop(k, u, t - 1, SwapStepSwap(s, Bit(k, t - 1), u))
  }

  ghost function DonnaX25519(k: nat, u: Fp): Fp { Affine(DonnaLoop(k, u, 256, Start(u))) }

  /** Deferring the swaps changes nothing. */
  lemma {:induction false} LoopsAgree(k: nat, u: Fp, t: nat, s: Ladder, swap: nat)
    requires swap <= 1
    ensures RfcLoop(k, u, t, s, swap) == DonnaLoop(k, u, t, CSwap(swap, s))
    decreases t
  {
    hide *;
    if t == 0 {
      LoopsEnd(k, u, s, swap);
    } else {
      RfcLoopStep(k, u, t, s, swap);
      DonnaLoopStep(k, u, t, CSwap(swap, s));
      var bit := BitIs01(k, t - 1);
      LoopsAgree(k, u, t - 1, Step(CSwap(if swap == bit then 0 else 1, s), u), bit);
      SwapTwice(swap, bit, s);
    }
  }

  lemma LoopsEnd(k: nat, u: Fp, s: Ladder, swap: nat)
    ensures RfcLoop(k, u, 0, s, swap) == CSwap(swap, s) && DonnaLoop(k, u, 0, s) == s
    ensures DonnaLoop(k, u, 0, CSwap(swap, s)) == CSwap(swap, s)
  {
  }

  lemma RfcLoopStep(k: nat, u: Fp, t: nat, s: Ladder, swap: nat)
    requires t > 0
    ensures var bit := Bit(k, t - 1);
            RfcLoop(k, u, t, s, swap) == RfcLoop(k, u, t - 1, Step(CSwap(if swap == bit then 0 else 1, s), u), bit)
  {
    hide Step, CSwap, Bit;
  }

  lemma DonnaLoopStep(k: nat, u: Fp, t: nat, s: Ladder)
    requires t > 0
    ensures var bit := Bit(k, t - 1);
            DonnaLoop(k, u, t, s) == DonnaLoop(k, u, t - 1, CSwap(bit, Step(CSwap(bit, s), u)))
  {
    hide Step, CSwap, Bit;
  }

  lemma SwapTwice(swap: nat, bit: nat, s: Ladder)
    requires swap <= 1 && bit <= 1
    ensures CSwap(if swap == bit then 0 else 1, s) == CSwap(bit, CSwap(swap, s))
  {
  }

  lemma BitIs01(k: nat, t: nat) returns (bit: nat)
    ensures bit == Bit(k, t) <= 1
  {
    bit := Bit(k, t);
  }

  // The extra iteration only rescales one point.

  ghost predicate Scaled(s: Ladder, s': Ladder, l: Fp, m: Fp) {
    s'.x2 == Mul(l, s.x2) && s'.z2 == Mul(l, s.z2) && s'.x3 == Mul(m, s.x3) && s'.z3 == Mul(m, s.z3)
  }

  lemma SquareIs(x: Fp)
    ensures Square(x) == Mul(x, x)
  {
  }

  lemma SumsScale(x: Fp, y: Fp, l: Fp)
    ensures Add(Mul(l, x), Mul(l, y)) == Mul(l, Add(x, y))
    ensures Sub(Mul(l, x), Mul(l, y)) == Mul(l, Sub(x, y))
  {
    hide *;
    MulDistributesAdd(l, x, y);
    MulDistributesSub(l, x, y);
  }

  lemma StepScales(s: Ladder, s': Ladder, l: Fp, m: Fp, u: Fp)
    requires Scaled(s, s', l, m)
    ensures Scaled(Step(s, u), Step(s', u), Mul(Square(l), Square(l)), Square(Mul(m, l)))
  {
    hide Add, Sub, Mul, Square;
    var ll, n := Square(l), Mul(m, l);
    var a, b, c, d := Add(s.x2, s.z2), Sub(s.x2, s.z2), Add(s.x3, s.z3), Sub(s.x3, s.z3);
    var aa, bb := Square(a), Square(b);
    var e := Sub(aa, bb);
    var da, cb := Mul(d, a), Mul(c, b);
    SumsScale(s.x2, s.z2, l);
    SumsScale(s.x3, s.z3, m);
    MulInterchange(l, a, l, a);
    SquareIs(l); SquareIs(a); SquareIs(Mul(l, a));
    MulInterchange(l, b, l, b);
    SquareIs(l); SquareIs(b); SquareIs(Mul(l, b));
    SumsScale(aa, bb, ll);
    MulInterchange(ll, aa, ll, bb);
    MulInterchange(m, d, l, a);
    MulInterchange(m, c, l, b);
    SumsScale(da, cb, n);
    MulInterchange(n, Add(da, cb), n, Add(da, cb));
    SquareIs(n); SquareIs(Add(da, cb)); SquareIs(Mul(n, Add(da, cb)));
    MulInterchange(n, Sub(da, cb), n, Sub(da, cb));
    SquareIs(n); SquareIs(Sub(da, cb)); SquareIs(Mul(n, Sub(da, cb)));
    MulSwapsLeft(121665, ll, e);
    SumsScale(aa, Mul(121665, e), ll);
    MulInterchange(ll, e, ll, Add(aa, Mul(121665, e)));
    MulSwapsLeft(u, Square(n), Square(Sub(da, cb)));
  }

  lemma MulSwapsLeft(x: Fp, l: Fp, y: Fp)
    ensures Mul(x, Mul(l, y)) == Mul(l, Mul(x, y))
  {
    hide *;
    MulAssociates(x, l, y);
    MulCommutes(x, l);
    MulAssociates(l, x, y);
  }

  /** Factors that inversion by powering cancels: those of multiplicative order dividing P - 1. */
  ghost predicate Cancels(l: Fp) { Pow(l, P - 1) == 1 }

  lemma CancelsMul(l: Fp, m: Fp)
    requires Cancels(l) && Cancels(m)
    ensures Cancels(Mul(l, m))
  {
    PowOfProduct(l, m, P - 1);
    MulOne(1);
  }

  lemma CancelsSquare(l: Fp)
    requires Cancels(l)
    ensures Cancels(Square(l))
  {
    SquareIs(l);
    CancelsMul(l, l);
  }

  lemma SwapStepSwapScales(s: Ladder, s': Ladder, l: Fp, m: Fp, bit: nat, u: Fp) returns (l': Fp, m': Fp)
    requires Scaled(s, s', l, m) && Cancels(l) && Cancels(m)
    ensures Scaled(SwapStepSwap(s, bit, u), SwapStepSwap(s', bit, u), l', m') && Cancels(l') && Cancels(m')
  {
    hide Step, Mul, Square, Cancels;
    l', m' := if bit == 1 then m else l, if bit == 1 then l else m;
    StepScales(CSwap(bit, s), CSwap(bit, s'), l', m', u);
    CancelsSquare(l');
    CancelsMul(m', l');
    CancelsMul(Square(l'), Square(l'));
    CancelsSquare(Mul(m', l'));
    l', m' := Mul(Square(l'), Square(l')), Square(Mul(m', l'));
    if bit == 1 {
      l', m' := m', l';
    }
  }

  lemma {:induction false} LoopScales(k: nat, u: Fp, t: nat, s: Ladder, s': Ladder, l: Fp, m: Fp)
    requires Scaled(s, s', l, m) && Cancels(l) && Cancels(m)
    ensures Affine(DonnaLoop(k, u, t, s)) == Affine(DonnaLoop(k, u, t, s'))
    decreases t
  {
    if t == 0 {
      AffineScales(s, s', l, m);
    } else {
      hide Scaled, Cancels, SwapStepSwap, Affine;
      var l', m' := SwapStepSwapScales(s, s', l, m, Bit(k, t - 1), u);
      LoopScales(k, u, t - 1, SwapStepSwap(s, Bit(k, t - 1), u), SwapStepSwap(s', Bit(k, t - 1), u), l', m');
    }
  }

  lemma AffineScales(s: Ladder, s': Ladder, l: Fp, m: Fp)
    requires Scaled(s, s', l, m) && Cancels(l)
    ensures Affine(s) == Affine(s')
  {
    PowOfProduct(l, s.z2, P - 2);
    PowStep(l, P - 1);
    hide Mul, Pow;
    MulInterchange(l, s.x2, Pow(l, P - 2), Pow(s.z2, P - 2));
    MulOne(Mul(s.x2, Pow(s.z2, P - 2)));
  }

  // The point with u = 0.

  ghost predicate OnAxis(s: Ladder) {
    (s.x2 == 0 || s.z2 == 0) && (s.x3 == 0 || s.z3 == 0)
  }

  lemma StepOnAxis(s: Ladder)
    requires OnAxis(s)
    ensures Step(s, 0).z2 == 0 && Step(s, 0).z3 == 0
  {
    var a, b := Add(s.x2, s.z2), Sub(s.x2, s.z2);
    assert Square(a) == Square(b) by {
      if s.x2 == 0 {
        SquareOfDifference(0, s.z2);
        assert a == Sub(s.z2, 0) && b == Sub(0, s.z2);
      } else {
        assert a == b;
      }
    }
    assert Sub(Square(a), Square(b)) == 0;
    hide Add, Sub, Square, Mul;
    MulOne(Add(Square(a), Mul(121665, 0)));
    MulOne(Square(Sub(Mul(Sub(s.x3, s.z3), a), Mul(Add(s.x3, s.z3), b))));
  }

  lemma {:induction false} LoopOnAxis(k: nat, t: nat, s: Ladder)
    requires OnAxis(s) && (t == 0 ==> s.z2 == 0 && s.z3 == 0)
    ensures Affine(DonnaLoop(k, 0, t, s)) == 0
    decreases t
  {
    if t == 0 {
      PowStep(0, P - 2);
      hide *;
      MulOne(Pow(0, P - 3));
      AffineIs(s);
      MulOne(s.x2);
    } else {
      var bit := Bit(k, t - 1);
      hide Step, Affine;
      StepOnAxis(CSwap(bit, s));
      LoopOnAxis(k, t - 1, SwapStepSwap(s, bit, 0));
    }
  }

  lemma AffineIs(s: Ladder)
    ensures Affine(s) == Mul(s.x2, Pow(s.z2, P - 2))
  {
  }

  /** Fermat's little theorem for this prime. */
  ghost predicate FermatHolds() { forall a: Fp :: a != 0 ==> Cancels(a) }

  /** The first of the 256 iterations leaves (1 : 0) and turns (u : 1) into 4u (u : 1). */
  lemma FirstStep(u: Fp)
    ensures Scaled(Start(u), Step(Start(u), u), 1, Mul(4, u))
  {
    var c, d := Add(u, 1), Sub(u, 1);
    hide Add, Sub, Mul, Square, Step, Start;
    FirstStepIs(u, c, d);
    SumAndDifference(u);
    SmallSquares();
    StartIs(u);
    MulInterchange(2, u, 2, u);
    SquareIs(2); SquareIs(u); SquareIs(Mul(2, u));
    SquareIs(u);
    MulAssociates(4, u, u);
    MulCommutes(4, u);
    MulOne(Mul(4, u));
    MulOne(1);
  }

  lemma StartIs(u: Fp)
    ensures Start(u) == Ladder(1, 0, u, 1)
  {
  }

  lemma SumAndDifference(u: Fp)
    ensures Add(Sub(u, 1), Add(u, 1)) == Mul(2, u) && Sub(Sub(u, 1), Add(u, 1)) == Sub(0, 2)
  {
    var v, w := u + 1, u - 1;
    assert Add(u, 1) == v % P && Sub(u, 1) == w % P && Mul(2, u) == (w + v) % P && Sub(0, 2) == (w - v) % P;
    AddReduces(w, v);
    SubReduces(w, v);
  }

  lemma SmallSquares()
    ensures Square(1) == 1 && Square(2) == 4 && Square(Sub(0, 2)) == 4
  {
    SquareOfDifference(0, 2);
    assert Sub(2, 0) == 2;
  }

  lemma FirstStepIs(u: Fp, c: Fp, d: Fp)
    requires c == Add(u, 1) && d == Sub(u, 1)
    ensures Step(Start(u), u) == Ladder(1, 0, Square(Add(d, c)), Mul(u, Square(Sub(d, c))))
  {
    SmallSquares();
    assert Sub(1, 1) == 0 && Add(1, 0) == 1 && Sub(1, 0) == 1;
    hide Add, Sub, Mul, Square;
    MulOne(1);
    MulOne(c);
    MulOne(d);
    MulOne(121665);
    MulOne(Add(1, 0));
  }

  /** The ladder of curve25519-donna is X25519, on every scalar below 2^255 and every u. */
  lemma DonnaIsX25519(k: nat, u: Fp)
    requires FermatHolds() && k < Pow2(255)
    ensures DonnaX25519(k, u) == X25519(k, u)
  {
    hide Step, Affine, Scaled, Start, RfcLoop, FermatHolds;
    LoopsAgree(k, u, 255, Start(u), 0);
    var s := Start(u);
    assert CSwap(0, s) == s;
    assert X25519(k, u) == Affine(DonnaLoop(k, u, 255, s));
    if u == 0 {
      StartOnAxis();
      LoopOnAxis(k, 256, s);
      LoopOnAxis(k, 255, s);
    } else {
      TopBitClear(k);
      assert DonnaLoop(k, u, 256, s) == DonnaLoop(k, u, 255, Step(s, u));
      FirstStep(u);
      FermatUnits(u);
      hide DonnaLoop;
      LoopScales(k, u, 255, s, Step(s, u), 1, Mul(4, u));
    }
  }

  lemma StartOnAxis()
    ensures OnAxis(Start(0))
  {
  }

  lemma TopBitClear(k: nat)
    requires k < Pow2(255)
    ensures Bit(k, 255) == 0
  {
    hide Pow2;
    RemainderIs(k, Pow2(255), 0, k);
  }

  lemma FermatUnits(u: Fp)
    requires FermatHolds() && u != 0
    ensures Cancels(1) && Cancels(Mul(4, u))
  {
    assert Mul(4, u) != 0;
    hide Cancels, Mul;
  }
}
