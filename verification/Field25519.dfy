/**
 The prime field of Curve25519: integers modulo P = 2^255 - 19, with the ring laws the
 Montgomery ladder and the inversion chain rely on.
 */
module Field25519 {

  const P: nat := 0x7fff_ffff_ffff_ffff_ffff_ffff_ffff_ffff_ffff_ffff_ffff_ffff_ffff_ffff_ffff_ffed

  type Fp = x: nat | x < P

  function Add(x: Fp, y: Fp): Fp { (x + y) % P }

  function Sub(x: Fp, y: Fp): Fp { (x - y) % P }

  function Mul(x: Fp, y: Fp): Fp { (x * y) % P }

  function Square(x: Fp): Fp { Mul(x, x) }

  /** The power x^e; the second measure keeps constant exponents from being unrolled. */
  ghost function Pow(x: Fp, e: nat): Fp
    decreases e, x
  {
    if e == 0 then 1 else Mul(x, Pow(x, e - 1))
  }

  // Reduction commutes with the ring operations.

  lemma ReduceMultiple(x: int, k: int)
    ensures (x + P * k) % P == x % P
  {
  }

  lemma AddReduces(x: int, y: int)
    ensures Add(x % P, y % P) == (x + y) % P
  {
  }

  lemma SubReduces(x: int, y: int)
    ensures Sub(x % P, y % P) == (x - y) % P
  {
  }

  lemma MulReduces(x: int, y: int)
    ensures Mul(x % P, y % P) == (x * y) % P
  {
    var a, b := x % P, y % P;
    var j, k := x / P, y / P;
    assert x == a + P * j && y == b + P * k;
    ReduceMultiple(a * b, a * k + j * y);
    ExpandProduct(a, b, j, k);
  }

  lemma ExpandProduct(a: int, b: int, j: int, k: int)
    ensures (a + P * j) * (b + P * k) == a * b + P * (a * k + j * (b + P * k))
  {
  }

  // Ring laws.

  lemma MulCommutes(x: Fp, y: Fp)
    ensures Mul(x, y) == Mul(y, x)
  {
  }

  lemma MulAssociates(x: Fp, y: Fp, z: Fp)
    ensures Mul(Mul(x, y), z) == Mul(x, Mul(y, z))
  {
    var s, t := x * y, y * z;
    assert s * z == x * t;
    assert x % P == x && z % P == z && Mul(x, y) == s % P && Mul(y, z) == t % P;
    hide *;
    MulReduces(s, z);
    MulReduces(x, t);
  }

  lemma MulDistributesAdd(x: Fp, y: Fp, z: Fp)
    ensures Mul(x, Add(y, z)) == Add(Mul(x, y), Mul(x, z))
  {
    var u, v, w := x * y, x * z, y + z;
    assert x * w == u + v;
    assert x % P == x && Add(y, z) == w % P && Mul(x, y) == u % P && Mul(x, z) == v % P;
    hide *;
    MulReduces(x, w);
    AddReduces(u, v);
  }

  lemma MulDistributesSub(x: Fp, y: Fp, z: Fp)
    ensures Mul(x, Sub(y, z)) == Sub(Mul(x, y), Mul(x, z))
  {
    var u, v, w := x * y, x * z, y - z;
    assert x * w == u - v;
    assert x % P == x && Sub(y, z) == w % P && Mul(x, y) == u % P && Mul(x, z) == v % P;
    hide *;
    MulReduces(x, w);
    SubReduces(u, v);
  }

  lemma MulOne(x: Fp)
    ensures Mul(1, x) == x && Mul(x, 1) == x && Mul(0, x) == 0 && Mul(x, 0) == 0
  {
  }

  /** A square does not see the sign of a difference. */
  lemma SquareOfDifference(x: Fp, y: Fp)
    ensures Square(Sub(x, y)) == Square(Sub(y, x))
  {
    var d := x - y;
    MulReduces(d, d);
    MulReduces(-d, -d);
    assert d * d == -d * -d;
    assert y - x == -d;
  }

  /** (ab)(cd) = (ac)(bd) */
  lemma MulInterchange(a: Fp, b: Fp, c: Fp, d: Fp)
    ensures Mul(Mul(a, b), Mul(c, d)) == Mul(Mul(a, c), Mul(b, d))
  {
    hide *;
    calc {
      Mul(Mul(a, b), Mul(c, d));
      { MulAssociates(a, b, Mul(c, d)); }
      Mul(a, Mul(b, Mul(c, d)));
      { MulAssociates(b, c, d); MulCommutes(b, c); MulAssociates(c, b, d); }
      Mul(a, Mul(c, Mul(b, d)));
      { MulAssociates(a, c, Mul(b, d)); }
      Mul(Mul(a, c), Mul(b, d));
    }
  }

  // Laws of powers.

  lemma {:induction false} PowAdds(x: Fp, a: nat, b: nat)
    ensures Pow(x, a + b) == Mul(Pow(x, a), Pow(x, b))
    decreases a
  {
    if a == 0 {
      MulOne(Pow(x, b));
    } else {
      PowAdds(x, a - 1, b);
      PowStep(x, a + b);
      PowStep(x, a);
      hide *;
      assert a + b - 1 == a - 1 + b;
      MulAssociates(x, Pow(x, a - 1), Pow(x, b));
    }
  }

  lemma PowStep(x: Fp, e: nat)
    requires e > 0
    ensures Pow(x, e) == Mul(x, Pow(x, e - 1))
  {
  }

  /** Squaring doubles the exponent. */
  lemma {:induction false} PowOfProduct(x: Fp, y: Fp, e: nat)
    ensures Pow(Mul(x, y), e) == Mul(Pow(x, e), Pow(y, e))
    decreases e
  {
    if e == 0 {
      MulOne(1);
    } else {
      PowOfProduct(x, y, e - 1);
      PowStep(Mul(x, y), e);
      PowStep(x, e);
      PowStep(y, e);
      hide *;
      MulInterchange(x, y, Pow(x, e - 1), Pow(y, e - 1));
    }
  }
}
