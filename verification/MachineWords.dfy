/**
 Fixed-width machine integers, written out over the unbounded naturals: wrap-around is an
 explicit remainder, and the bitwise operators are defined bit by bit.
 */
module MachineWords {

  const TWO31: nat := 0x8000_0000
  const TWO32: nat := 0x1_0000_0000
  const TWO51: nat := 0x8_0000_0000_0000
  const TWO63: nat := 0x8000_0000_0000_0000
  const TWO64: nat := 0x1_0000_0000_0000_0000
  const TWO128: nat := 0x1_0000_0000_0000_0000_0000_0000_0000_0000

  type u8 = x: nat | x < 256
  type u32 = x: nat | x < TWO32
  type u64 = x: nat | x < TWO64
  type u128 = x: nat | x < TWO128

  function Pow2(k: nat): (r: nat)
    ensures r > 0
  {
    if k == 0 then 1 else 2 * Pow2(k - 1)
  }

  lemma {:induction false} Pow2Adds(j: nat, k: nat)
    ensures Pow2(j + k) == Pow2(j) * Pow2(k)
  {
    if j > 0 {
      Pow2Adds(j - 1, k);
      assert Pow2(j + k) == 2 * (Pow2(j - 1) * Pow2(k));
    }
  }

  // The bitwise operators of C on unsigned integers of any width.

  function BitAnd(x: nat, y: nat): nat {
    if x == 0 then 0 else 2 * BitAnd(x / 2, y / 2) + (if x % 2 == 1 && y % 2 == 1 then 1 else 0)
  }

  function BitOr(x: nat, y: nat): nat
    decreases x + y
  {
    if x == 0 && y == 0 then 0
    else 2 * BitOr(x / 2, y / 2) + (if x % 2 == 1 || y % 2 == 1 then 1 else 0)
  }

  function BitXor(x: nat, y: nat): nat
    decreases x + y
  {
    if x == 0 && y == 0 then 0
    else 2 * BitXor(x / 2, y / 2) + (if x % 2 != y % 2 then 1 else 0)
  }

  /** Masking with k ones keeps the low k bits. */
  lemma BitAndOnes(x: nat, k: nat)
    ensures BitAnd(x, Pow2(k) - 1) == x % Pow2(k)
  {
    var q := SplitAt(x, k);
    RemainderIs(x, Pow2(k), q, BitAnd(x, Pow2(k) - 1));
  }

  lemma {:induction false} SplitAt(x: nat, k: nat) returns (q: nat)
    ensures x == q * Pow2(k) + BitAnd(x, Pow2(k) - 1)
    ensures BitAnd(x, Pow2(k) - 1) < Pow2(k)
    decreases k
  {
    if k == 0 {
      BitAndZero(x);
      q := x;
    } else {
      var m := Pow2(k - 1);
      assert Pow2(k) == 2 * m;
      hide *;
      q := SplitAt(x / 2, k - 1);
      BitAndOdd(x, m - 1);
      DoubleSplit(x, q, m, BitAnd(x / 2, m - 1));
    }
  }

  lemma {:induction false} BitAndZero(x: nat)
    ensures BitAnd(x, 0) == 0
  {
    if x != 0 {
      BitAndZero(x / 2);
    }
  }

  lemma DoubleSplit(x: nat, q: nat, m: nat, r: nat)
    requires x / 2 == q * m + r
    ensures x == q * (2 * m) + (2 * r + x % 2)
  {
    var qm := q * m;
    assert q * (2 * m) == 2 * qm;
  }

  lemma BitAndOdd(x: nat, y: nat)
    ensures BitAnd(x, 2 * y + 1) == 2 * BitAnd(x / 2, y) + x % 2
  {
  }

  /** Quotient and remainder are the only pair that fits. */
  lemma RemainderIs(x: int, m: nat, q: int, r: nat)
    requires m > 0 && x == q * m + r && r < m
    ensures x / m == q && x % m == r
  {
    UniqueQuotient(m, q, r, x / m, x % m);
  }

  lemma UniqueQuotient(m: nat, q: int, r: nat, q': int, r': nat)
    requires r < m && r' < m && q * m + r == q' * m + r'
    ensures q == q' && r == r'
  {
    var d := q - q';
    assert d * m == r' - r;
    assert d >= 1 ==> d * m >= m;
    assert d <= -1 ==> -d * m >= m;
  }

  /** A disjunction of bit ranges that do not meet is a sum. */
  lemma {:induction false} BitOrDisjoint(x: nat, y: nat, k: nat)
    requires x < Pow2(k)
    ensures BitOr(x, Pow2(k) * y) == x + Pow2(k) * y
    decreases k, x + y
  {
    if k == 0 {
      BitOrZero(y);
    } else if x != 0 || y != 0 {
      var m := Pow2(k - 1);
      assert Pow2(k) * y == 2 * (m * y);
      BitOrDisjoint(x / 2, y, k - 1);
    }
  }

  lemma {:induction false} BitOrZero(y: nat)
    ensures BitOr(0, y) == y
  {
    if y != 0 {
      BitOrZero(y / 2);
    }
  }

  /** Exclusive or with the difference of two words turns one into the other. */
  lemma {:induction false} BitXorSwaps(x: nat, y: nat)
    ensures BitXor(x, BitXor(x, y)) == y
    ensures BitXor(y, BitXor(x, y)) == x
    decreases x + y
  {
    if x != 0 || y != 0 {
      BitXorSwaps(x / 2, y / 2);
    }
  }

  lemma {:induction false} BitXorZero(x: nat)
    ensures BitXor(x, 0) == x
  {
    if x != 0 {
      BitXorZero(x / 2);
    }
  }

  lemma {:induction false} BitXorBounded(x: nat, y: nat, k: nat)
    requires x < Pow2(k) && y < Pow2(k)
    ensures BitXor(x, y) < Pow2(k)
    decreases k
  {
    if k > 0 {
      BitXorBounded(x / 2, y / 2, k - 1);
    }
  }

  lemma {:induction false} BitOrBounded(x: nat, y: nat, k: nat)
    requires x < Pow2(k) && y < Pow2(k)
    ensures BitOr(x, y) < Pow2(k)
    decreases k
  {
    if k > 0 {
      BitOrBounded(x / 2, y / 2, k - 1);
    }
  }

  lemma {:induction false} BitAndBounded(x: nat, y: nat, k: nat)
    requires y < Pow2(k)
    ensures BitAnd(x, y) < Pow2(k)
    decreases k
  {
    if k == 0 {
      BitAndZero(x);
    } else {
      BitAndBounded(x / 2, y / 2, k - 1);
    }
  }

  lemma {:induction false} BitAndCommutes(x: nat, y: nat)
    ensures BitAnd(x, y) == BitAnd(y, x)
  {
    if x == 0 {
      BitAndZero(y);
    } else if y == 0 {
      BitAndZero(x);
    } else {
      BitAndCommutes(x / 2, y / 2);
    }
  }

  lemma Pow2Product(j: nat, k: nat, a: nat, b: nat)
    requires Pow2(j) == a && Pow2(k) == b
    ensures Pow2(j + k) == a * b
  {
    Pow2Adds(j, k);
  }

  lemma Pow2Zero()
    ensures Pow2(0) == 1
  {
  }

  lemma Pow2One()
    ensures Pow2(1) == 2
  {
  }

  lemma {:induction false} Pow2Grows(j: nat, k: nat)
    requires j <= k
    ensures Pow2(j) <= Pow2(k)
    decreases k - j
  {
    if j < k {
      Pow2Grows(j, k - 1);
    }
  }

  lemma BitAndEven(x: nat, y: nat)
    ensures BitAnd(x, 2 * y) == 2 * BitAnd(x / 2, y)
  {
  }

  /** The powers of two that occur as shift widths. */
  lemma Pow2Literals()
    ensures Pow2(8) == 0x100 && Pow2(12) == 0x1000 && Pow2(13) == 0x2000 && Pow2(16) == 0x1_0000
    ensures Pow2(24) == 0x100_0000 && Pow2(25) == 0x200_0000 && Pow2(26) == 0x400_0000
    ensures Pow2(32) == 0x1_0000_0000 && Pow2(38) == 0x40_0000_0000 && Pow2(39) == 0x80_0000_0000
    ensures Pow2(40) == 0x100_0000_0000 && Pow2(48) == 0x1_0000_0000_0000 && Pow2(51) == TWO51
    ensures Pow2(56) == 0x100_0000_0000_0000 && Pow2(64) == TWO64
  {
    assert Pow2(1) == 2;
    hide *;
    Pow2Product(1, 1, 0x2, 0x2);
    Pow2Product(2, 2, 0x4, 0x4);
    Pow2Product(4, 4, 0x10, 0x10);
    Pow2Product(8, 4, 0x100, 0x10);
    Pow2Product(12, 1, 0x1000, 0x2);
    Pow2Product(8, 8, 0x100, 0x100);
    Pow2Product(16, 8, 0x1_0000, 0x100);
    Pow2Product(24, 1, 0x100_0000, 0x2);
    Pow2Product(25, 1, 0x200_0000, 0x2);
    Pow2Product(16, 16, 0x1_0000, 0x1_0000);
    Pow2Product(26, 12, 0x400_0000, 0x1000);
    Pow2Product(38, 1, 0x40_0000_0000, 0x2);
    Pow2Product(32, 8, 0x1_0000_0000, 0x100);
    Pow2Product(40, 8, 0x100_0000_0000, 0x100);
    Pow2Product(38, 13, 0x40_0000_0000, 0x2000);
    Pow2Product(48, 8, 0x1_0000_0000_0000, 0x100);
    Pow2Product(32, 32, 0x1_0000_0000, 0x1_0000_0000);
  }
}
