/**
 The shared secrets of the protocol as the enclave computes them: the primitive is `curve25519_donna`, so the
 public keys and secrets of a negotiation are X25519 of section 5 of RFC 7748.
 */
module DiffieHellman {
  import opened MachineWords
  import LittleEndian
  import opened Field25519
  import opened Encoding25519
  import X25519
  import Donna = Curve25519Donna
  import opened Crypto
  import opened PendingRequests
  import opened Protocol
  import opened Client

  /** What `curve25519_donna` writes, for a scalar and a point of 32 bytes. */
  ghost function DonnaDh(k: Bytes, u: Bytes): (s: Bytes)
    ensures |s| == 32
  {
    if |k| == 32 && |u| == 32 then
      LittleEndian.Bytes(X25519.DonnaX25519(LittleEndian.LE(Donna.Clamp(k)), LittleEndian.LE(u) % TWO255 % P), 32)
    else Zeros(32)
  }

  /** The primitives with this one for the shared secrets. */
  ghost function WithDonna(c: Primitives): Primitives { c.(dh := (k: Bytes, u: Bytes) => DonnaDh(k, u)) }

  /** X25519 is commutative on clamped scalars and the base point. */
  ghost predicate Commutes() {
    forall a, b :: IsClamped(a) && IsClamped(b) ==>
      DonnaDh(a, DonnaDh(b, Basepoint())) == DonnaDh(b, DonnaDh(a, Basepoint()))
  }

  /** Of what is assumed about shared secrets only commutativity is left. */
  lemma DonnaShares(c: Primitives)
    requires Ideal(c)
    ensures Ideal(WithDonna(c)) && (SharedSecrets(WithDonna(c)) <==> Commutes())
  {
    hide DonnaDh, IsClamped;
    var d := WithDonna(c);
    assert forall k, u :: d.dh(k, u) == DonnaDh(k, u);
    assert forall a, b :: d.dh(a, d.dh(b, Basepoint())) == DonnaDh(a, DonnaDh(b, Basepoint()));
    assert d.sha256 == c.sha256 && d.seal == c.seal && d.open == c.open;
  }

  /** Clamping leaves clamped scalars alone. */
  lemma ClampFixed(b: Bytes)
    requires IsClamped(b)
    ensures Donna.Clamp(b) == b
  {
    hide BitAnd, BitOr, Pow2;
    ClearLowBits(b[0]);
    KeepTopBits(b[31]);
    Donna.ClampedBytes(b[0], b[31]);
  }

  lemma ClearLowBits(x: u8)
    requires x % 8 == 0
    ensures BitAnd(x, 248) == x
  {
    hide Pow2, BitAnd;
    var q := x / 8;
    TwiceMasked(q, 31);
    TwiceMasked(2 * q, 62);
    TwiceMasked(4 * q, 124);
    Pow2Five();
    BitAndOnes(q, 5);
    RemainderIs(q, 32, 0, q);
  }

  lemma TwiceMasked(x: nat, y: nat)
    ensures BitAnd(2 * x, 2 * y) == 2 * BitAnd(x, y)
  {
    hide BitAnd;
    BitAndEven(2 * x, y);
  }

  lemma Pow2Five()
    ensures Pow2(5) == 32
  {
  }

  lemma KeepTopBits(y: u8)
    requires 64 <= y < 128
    ensures BitOr(BitAnd(y, 127), 64) == y
  {
    hide Pow2, BitAnd, BitOr;
    Donna.Pow2Small(7);
    Donna.Pow2Small(6);
    BitAndOnes(y, 7);
    RemainderIs(y, 128, 0, y);
    BitOrDisjoint(y - 64, 1, 6);
    OrOnce(y - 64);
  }

  /** A bit that is set can be set again. */
  lemma {:induction false} OrOnce(x: nat)
    requires x < 64 && BitOr(x, 64) == x + 64
    ensures BitOr(x + 64, 64) == x + 64
  {
    hide Pow2;
    Donna.Pow2Small(6);
    OrTwice(x, 64);
  }

  lemma {:induction false} OrTwice(x: nat, y: nat)
    ensures BitOr(BitOr(x, y), y) == BitOr(x, y)
    decreases x + y
  {
    if x != 0 || y != 0 {
      OrTwice(x / 2, y / 2);
    }
  }

  lemma BasepointIsNine()
    ensures LittleEndian.LE(Basepoint()) == 9 && 9 % TWO255 % P == 9
  {
    hide LittleEndian.LE;
    LittleEndian.LEStep(Basepoint());
    assert Basepoint()[1..] == Zeros(31);
    ZerosValue(31);
  }

  lemma {:induction false} ZerosValue(n: nat)
    ensures LittleEndian.LE(Zeros(n)) == 0
  {
    if n > 0 {
      assert Zeros(n)[1..] == Zeros(n - 1);
      ZerosValue(n - 1);
    }
  }

  /** A generated public key is X25519 of the private key and the base point nine. */
  lemma GeneratedIsX25519(c: Primitives, randState: Bytes, x: Bytes)
    requires Ideal(c) && X25519.FermatHolds()
    ensures var k := MakeKeyPair(WithDonna(c), ReadRand(WithDonna(c), randState, x).1);
            IsClamped(k.priv) && k.pub == LittleEndian.Bytes(X25519.X25519(LittleEndian.LE(k.priv), 9), 32)
  {
    hide ReadRand, MakeKeyPair, X25519.FermatHolds, X25519.X25519, X25519.DonnaX25519, IsClamped, Basepoint, Ideal,
         Donna.Clamp;
    var d := WithDonna(c);
    DonnaShares(c);
    GeneratedMatched(d, randState, x);
    var k := MakeKeyPair(d, ReadRand(d, randState, x).1);
    SecretIsX25519(k.priv, Basepoint());
    BasepointIsNine();
    BasepointLength();
  }

  lemma BasepointLength()
    ensures |Basepoint()| == 32
  {
  }

  /** A shared secret is X25519 of the private key and the other side's public key. */
  lemma SecretIsX25519(k: Bytes, u: Bytes)
    requires IsClamped(k) && X25519.FermatHolds()
    ensures |u| == 32 ==>
              DonnaDh(k, u)
              == LittleEndian.Bytes(X25519.X25519(LittleEndian.LE(k), LittleEndian.LE(u) % TWO255 % P), 32)
  {
    hide X25519.FermatHolds, X25519.X25519, X25519.DonnaX25519, LittleEndian.LE, LittleEndian.Bytes, Donna.Clamp;
    ClampFixed(k);
    Donna.DonnaIsRfc7748(k, u);
  }
}
