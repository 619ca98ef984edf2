/** Little-endian byte strings, read and written eight bytes at a time. */
module LittleEndian {
  import opened MachineWords

  function LE(b: seq<u8>): nat {
    if b == [] then 0 else b[0] + 256 * LE(b[1..])
  }

  lemma {:induction false} LEAppend(a: seq<u8>, b: seq<u8>)
    ensures LE(a + b) == LE(a) + Pow2(8 * |a|) * LE(b)
    ensures LE(a) < Pow2(8 * |a|)
  {
    hide Pow2, LE;
    if a == [] {
      assert a + b == b;
      LEEmpty();
    } else {
      LEAppend(a[1..], b);
      assert (a + b)[1..] == a[1..] + b;
      LEStep(a);
      LEStep(a + b);
      var p, v := Pow2(8 * |a[1..]|), LE(b);
      Pow2Literals();
      Pow2Adds(8, 8 * |a[1..]|);
      assert 8 + 8 * |a[1..]| == 8 * |a|;
      assert (256 * p) * v == 256 * (p * v);
    }
  }

  lemma LEEmpty()
    ensures LE([]) == 0 && Pow2(0) == 1
  {
  }

  lemma LEStep(b: seq<u8>)
    requires b != []
    ensures LE(b) == b[0] + 256 * LE(b[1..])
  {
  }

  /** Any eight bytes are sixty-four bits of the whole. */
  lemma Window(b: seq<u8>, k: nat)
    requires k + 8 <= |b|
    ensures LE(b[k..k + 8]) == LE(b) / Pow2(8 * k) % TWO64
    ensures LE(b[k..k + 8]) < TWO64
  {
    hide LE, Pow2;
    var lo, mid, hi := b[..k], b[k..k + 8], b[k + 8..];
    assert b == lo + (mid + hi);
    LEAppend(lo, mid + hi);
    LEAppend(mid, hi);
    Pow2Literals();
    RemainderIs(LE(b), Pow2(8 * k), LE(mid + hi), LE(lo));
    RemainderIs(LE(mid + hi), TWO64, LE(hi), LE(mid));
  }

  /** The n low bytes of x. */
  function Bytes(x: nat, n: nat): (b: seq<u8>)
    ensures |b| == n
  {
    if n == 0 then [] else [x % 256] + Bytes(x / 256, n - 1)
  }

  lemma {:induction false} BytesOf(x: nat, n: nat)
    requires x < Pow2(8 * n)
    ensures LE(Bytes(x, n)) == x
    decreases n
  {
    if n > 0 {
      Pow2Adds(8, 8 * (n - 1));
      Pow2Literals();
      BytesOf(x / 256, n - 1);
      assert Bytes(x, n)[1..] == Bytes(x / 256, n - 1);
    }
  }

  /** A number has one encoding of each length. */
  lemma {:induction false} LEInjective(a: seq<u8>, b: seq<u8>)
    requires |a| == |b| && LE(a) == LE(b)
    ensures a == b
  {
    if a != [] {
      assert a[0] == LE(a) % 256 && b[0] == LE(b) % 256;
      LEInjective(a[1..], b[1..]);
      assert a == [a[0]] + a[1..] && b == [b[0]] + b[1..];
    }
  }

  // Loading a 64-bit word as a disjunction of shifted bytes.

  function Or8(b0: nat, b1: nat, b2: nat, b3: nat, b4: nat, b5: nat, b6: nat, b7: nat): nat {
    BitOr(BitOr(BitOr(BitOr(BitOr(BitOr(BitOr(
      b0, 0x100 * b1), 0x1_0000 * b2), 0x100_0000 * b3), 0x1_0000_0000 * b4),
      0x100_0000_0000 * b5), 0x1_0000_0000_0000 * b6), 0x100_0000_0000_0000 * b7)
  }

  function LoadLimb(b: seq<u8>): u64
    requires |b| == 8
  {
    LoadLimbIs(b);
    Or8(b[0], b[1], b[2], b[3], b[4], b[5], b[6], b[7])
  }

  lemma LoadLimbIs(b: seq<u8>)
    requires |b| == 8
    ensures Or8(b[0], b[1], b[2], b[3], b[4], b[5], b[6], b[7]) == LE(b) < TWO64
  {
    hide LE, Or8;
    LE8(b);
    Or8IsSum(b[0], b[1], b[2], b[3], b[4], b[5], b[6], b[7]);
  }

  function Sum8(b0: nat, b1: nat, b2: nat, b3: nat, b4: nat, b5: nat, b6: nat, b7: nat): nat {
    b0 + 0x100 * b1 + 0x1_0000 * b2 + 0x100_0000 * b3 + 0x1_0000_0000 * b4
    + 0x100_0000_0000 * b5 + 0x1_0000_0000_0000 * b6 + 0x100_0000_0000_0000 * b7
  }

  lemma Or8IsSum(b0: nat, b1: nat, b2: nat, b3: nat, b4: nat, b5: nat, b6: nat, b7: nat)
    requires b0 < 256 && b1 < 256 && b2 < 256 && b3 < 256 && b4 < 256 && b5 < 256 && b6 < 256 && b7 < 256
    ensures Or8(b0, b1, b2, b3, b4, b5, b6, b7) == Sum8(b0, b1, b2, b3, b4, b5, b6, b7)
  {
    hide BitOr, Pow2;
    Pow2Literals();
    var v1 := b0 + 0x100 * b1;
    BitOrDisjoint(b0, b1, 8);
    var v2 := v1 + 0x1_0000 * b2;
    BitOrDisjoint(v1, b2, 16);
    var v3 := v2 + 0x100_0000 * b3;
    BitOrDisjoint(v2, b3, 24);
    var v4 := v3 + 0x1_0000_0000 * b4;
    BitOrDisjoint(v3, b4, 32);
    var v5 := v4 + 0x100_0000_0000 * b5;
    BitOrDisjoint(v4, b5, 40);
    var v6 := v5 + 0x1_0000_0000_0000 * b6;
    BitOrDisjoint(v5, b6, 48);
    BitOrDisjoint(v6, b7, 56);
  }

  lemma LE8(b: seq<u8>)
    requires |b| == 8
    ensures LE(b) == Sum8(b[0], b[1], b[2], b[3], b[4], b[5], b[6], b[7])
  {
    hide LE, Pow2;
    var b1, b2, b3, b4, b5, b6, b7 := b[1..], b[2..], b[3..], b[4..], b[5..], b[6..], b[7..];
    assert b1[1..] == b2 && b2[1..] == b3 && b3[1..] == b4 && b4[1..] == b5 && b5[1..] == b6 && b6[1..] == b7
           && b7[1..] == [];
    LEEmpty();
    LEStep(b); LEStep(b1); LEStep(b2); LEStep(b3); LEStep(b4); LEStep(b5); LEStep(b6); LEStep(b7);
  }

  /** Byte i of a word as `store_limb` extracts it. */
  lemma StoreBytes(w: u64)
    ensures Bytes(w, 8) == [w % 256, w / 0x100 % 256, w / 0x1_0000 % 256, w / 0x100_0000 % 256, w / 0x1_0000_0000 % 256,
                            w / 0x100_0000_0000 % 256, w / 0x1_0000_0000_0000 % 256, w / 0x100_0000_0000_0000 % 256]
  {
    hide Bytes;
    var w1 := w / 256;
    var w2 := w1 / 256;
    var w3 := w2 / 256;
    var w4 := w3 / 256;
    var w5 := w4 / 256;
    var w6 := w5 / 256;
    var w7 := w6 / 256;
    assert w2 == w / 0x1_0000 && w3 == w / 0x100_0000 && w4 == w / 0x1_0000_0000;
    assert w5 == w / 0x100_0000_0000 && w6 == w / 0x1_0000_0000_0000 && w7 == w / 0x100_0000_0000_0000;
    BytesStep(w, 7); BytesStep(w1, 6); BytesStep(w2, 5); BytesStep(w3, 4);
    BytesStep(w4, 3); BytesStep(w5, 2); BytesStep(w6, 1); BytesStep(w7, 0);
  }

  lemma BytesStep(x: nat, n: nat)
    ensures Bytes(x, n + 1) == [x % 256] + Bytes(x / 256, n) && Bytes(x, 0) == []
  {
  }
}
