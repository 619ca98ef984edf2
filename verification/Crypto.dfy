/**
 The cryptographic primitives as parameters, HMAC (RFC 2104) and HKDF (RFC 5869) over them, and
 the enclave's own HMAC and HKDF code, which hashes through buffers that overlap its output.
 */
module Crypto {
  import opened MachineWords
  import opened Options

  type Bytes = seq<u8>

  datatype Sealed = Sealed(data: Bytes, mac: Bytes)

  /** SHA-256, AES-256-GCM and X25519, of which only the laws in `Ideal` are used. */
  datatype Primitives = Primitives(
    sha256: Bytes -> Bytes,
    seal: (Bytes, Bytes, Bytes, Bytes) -> Sealed,
    open: (Bytes, Bytes, Bytes, Sealed) -> Option<Bytes>,
    dh: (Bytes, Bytes) -> Bytes)

  /** Digests have 32 bytes; opening undoes sealing and accepts nothing else. Arguments: key, IV, AAD, text. */
  ghost predicate Ideal(c: Primitives) {
    && (forall x :: |c.sha256(x)| == 32)
    && (forall k, iv, aad, x :: |c.seal(k, iv, aad, x).data| == |x| && |c.seal(k, iv, aad, x).mac| == 16)
    && (forall k, iv, aad, y, x :: c.open(k, iv, aad, y) == Some(x) <==> y == c.seal(k, iv, aad, x))
  }

  // RFC 2104 and RFC 5869.

  const BLOCK: nat := 64

  function Xor8(x: u8, y: u8): u8 {
    Xor8Bounded(x, y);
    BitXor(x, y)
  }

  lemma Xor8Bounded(x: u8, y: u8)
    ensures BitXor(x, y) < 256
  {
    hide BitXor, Pow2;
    Pow2Literals();
    BitXorBounded(x, y, 8);
  }

  /** A key no longer than a block, padded with zeros and combined with a pad byte. */
  function KeyPad(key: Bytes, pad: u8): Bytes
    requires |key| <= BLOCK
  {
    seq<u8>(BLOCK, i requires 0 <= i < BLOCK => Xor8(pad, if i < |key| then key[i] else 0))
  }

  function HmacBlock(c: Primitives, key: Bytes, text: Bytes): Bytes
    requires |key| <= BLOCK
  {
    c.sha256(KeyPad(key, 0x5c) + c.sha256(KeyPad(key, 0x36) + text))
  }

  /** HMAC: a key longer than a block is hashed first. */
  function Hmac(c: Primitives, key: Bytes, text: Bytes): Bytes {
    if |key| > BLOCK then
      (if |c.sha256(key)| <= BLOCK then HmacBlock(c, c.sha256(key), text) else [])
    else HmacBlock(c, key, text)
  }

  function HkdfExtract(c: Primitives, salt: Bytes, ikm: Bytes): Bytes { Hmac(c, salt, ikm) }

  /** T(i) of section 2.3 of RFC 5869, with empty info. */
  function HkdfBlock(c: Primitives, prk: Bytes, i: nat): Bytes
    requires i < 256
  {
    if i == 0 then [] else Hmac(c, prk, HkdfBlock(c, prk, i - 1) + [i])
  }

  /** The first 64 bytes of output keying material. */
  function HkdfExpand64(c: Primitives, prk: Bytes): Bytes { HkdfBlock(c, prk, 1) + HkdfBlock(c, prk, 2) }

  /** A long salt and its digest give the same extraction. */
  lemma LongSalt(c: Primitives, salt: Bytes, ikm: Bytes)
    requires Ideal(c) && |salt| > BLOCK
    ensures HkdfExtract(c, salt, ikm) == HkdfExtract(c, c.sha256(salt), ikm)
  {
  }

  lemma HmacLength(c: Primitives, key: Bytes, text: Bytes)
    requires Ideal(c)
    ensures |Hmac(c, key, text)| == 32
  {
    hide KeyPad;
  }

  // The enclave's implementation.

  /** A pointer and a length. */
  datatype Slice = Slice(data: array<u8>, at: nat, len: nat) {
    ghost predicate Valid()
    {
      at + len <= data.Length
    }

    ghost function Read(): Bytes
      reads data
      requires Valid()
    {
      data[at..at + len]
    }
  }

  ghost predicate AllValid(bufs: seq<Slice>) {
    forall i :: 0 <= i < |bufs| ==> bufs[i].Valid()
  }

  ghost function Objects(bufs: seq<Slice>): set<array<u8>> {
    set i | 0 <= i < |bufs| :: bufs[i].data
  }

  ghost function Concat(bufs: seq<Slice>): Bytes
    reads Objects(bufs)
    requires AllValid(bufs)
  {
    if bufs == [] then [] else
      assert bufs[0].Valid();
      bufs[0].Read() + Concat(bufs[1..])
  }

  /** Hashes the buffers in turn, then writes the digest; the output may lie inside an input. */
  method Sha256(c: Primitives, out: array<u8>, at: nat, bufs: seq<Slice>)
    requires Ideal(c) && AllValid(bufs) && at + 32 <= out.Length
    modifies out
    ensures out[at..at + 32] == c.sha256(old(Concat(bufs)))
    ensures out[..at] == old(out[..at]) && out[at + 32..] == old(out[at + 32..])
  {
    var context: Bytes := [];
    for i := 0 to |bufs|
      invariant out[..] == old(out[..])
      invariant forall j :: 0 <= j < |bufs| ==> bufs[j].data[..] == old(bufs[j].data[..])
      invariant context + old(Concat(bufs[i..])) == old(Concat(bufs))
    {
      assert bufs[i].Valid();
      context := context + bufs[i].data[bufs[i].at..bufs[i].at + bufs[i].len];
    }
    assert bufs[|bufs|..] == [];
    assert context == old(Concat(bufs));
    var digest := c.sha256(context);
    for k := 0 to 32
      invariant forall j :: 0 <= j < k ==> out[at + j] == digest[j]
      invariant out[..at] == old(out[..at]) && out[at + 32..] == old(out[at + 32..])
    {
      out[at + k] := digest[k];
    }
    assert out[at..at + 32] == digest;
  }

  method Fill(a: array<u8>, b: u8)
    modifies a
    ensures forall i :: 0 <= i < a.Length ==> a[i] == b
  {
    for i := 0 to a.Length
      invariant forall j :: 0 <= j < i ==> a[j] == b
    {
      a[i] := b;
    }
  }

  /** The two pads, combined in place with the bytes of the key. */
  method KeyPads(key: Slice, ipad: array<u8>, opad: array<u8>)
    requires key.Valid() && key.len <= BLOCK
    requires ipad.Length == opad.Length == BLOCK && ipad != opad && key.data != ipad && key.data != opad
    modifies ipad, opad
    ensures ipad[..] == KeyPad(key.Read(), 0x36) && opad[..] == KeyPad(key.Read(), 0x5c)
  {
    hide Xor8;
    Fill(ipad, 0x36);
    Fill(opad, 0x5c);
    Xor8Zero(0x36);
    Xor8Zero(0x5c);
    for k := 0 to key.len
      invariant forall j :: 0 <= j < BLOCK ==> ipad[j] == if j < k then Xor8(0x36, key.data[key.at + j]) else 0x36
      invariant forall j :: 0 <= j < BLOCK ==> opad[j] == if j < k then Xor8(0x5c, key.data[key.at + j]) else 0x5c
    {
      ipad[k] := Xor8(ipad[k], key.data[key.at + k]);
      opad[k] := Xor8(opad[k], key.data[key.at + k]);
    }
  }

  lemma Xor8Zero(x: u8)
    ensures Xor8(x, 0) == x
  {
    hide BitXor;
    BitXorZero(x);
  }

  twostate lemma ConcatUnchanged(bufs: seq<Slice>)
    requires AllValid(bufs)
    requires forall i :: 0 <= i < |bufs| ==> bufs[i].data[..] == old(bufs[i].data[..])
    ensures Concat(bufs) == old(Concat(bufs))
  {
    if bufs != [] {
      assert bufs[0].Valid();
      ConcatUnchanged(bufs[1..]);
    }
  }

  /** Inner digest into the output, outer digest over it. */
  method HashPads(c: Primitives, out: array<u8>, at: nat, ipad: array<u8>, opad: array<u8>, rest: seq<Slice>)
    requires Ideal(c) && AllValid(rest) && at + 32 <= out.Length
    requires ipad.Length == opad.Length == BLOCK && out != opad
    modifies out
    ensures out[at..at + 32] == c.sha256(old(opad[..]) + c.sha256(old(ipad[..]) + old(Concat(rest))))
    ensures out[..at] == old(out[..at]) && out[at + 32..] == old(out[at + 32..])
  {
    var inner := [Slice(ipad, 0, 64)] + rest;
    assert inner[1..] == rest && inner[0].Read() == ipad[..];
    assert Concat(inner) == ipad[..] + Concat(rest);
    Sha256(c, out, at, inner);
    var outer := [Slice(opad, 0, 64), Slice(out, at, 32)];
    ConcatTwo(outer[0], outer[1]);
    assert Concat(outer) == opad[..] + out[at..at + 32];
    Sha256(c, out, at, outer);
  }

  lemma ConcatTwo(a: Slice, b: Slice)
    requires a.Valid() && b.Valid()
    ensures AllValid([a, b]) && Concat([a, b]) == a.Read() + b.Read()
  {
    ConcatOne(b);
    assert [a, b][1..] == [b];
  }

  lemma ConcatOne(a: Slice)
    requires a.Valid()
    ensures AllValid([a]) && Concat([a]) == a.Read()
  {
    assert [a][1..] == [];
  }

  /** The first buffer is the key. The output may overlap any input: it is written only after all are read. */
  method HmacSha256(c: Primitives, out: array<u8>, at: nat, bufs: seq<Slice>)
    requires Ideal(c) && AllValid(bufs) && bufs != [] && at + 32 <= out.Length
    modifies out
    ensures bufs[0].Valid() && AllValid(bufs[1..])
    ensures out[at..at + 32] == Hmac(c, old(bufs[0].Read()), old(Concat(bufs[1..])))
    ensures out[..at] == old(out[..at]) && out[at + 32..] == old(out[at + 32..])
  {
    hide KeyPad;
    var ipad, opad, keyHash := new u8[64], new u8[64], new u8[32];
    var key := bufs[0];
    if key.len > BLOCK {
      ConcatOne(key);
      Sha256(c, keyHash, 0, [key]);
      key := Slice(keyHash, 0, 32);
    }
    KeyPads(key, ipad, opad);
    ConcatUnchanged(bufs[1..]);
    HashPads(c, out, at, ipad, opad, bufs[1..]);
  }

  // HKDF.

  /** The working buffer: 32 bytes of T(n), then n, in one block of memory. */
  predicate IsHkdfBuf(buf: array<u8>) { buf.Length == 33 }

  /** One round of HKDF-Expand, its input ending in the byte that follows its output. */
  method RaHkdfRound(c: Primitives, prk: Bytes, buf: array<u8>)
    requires Ideal(c) && IsHkdfBuf(buf)
    modifies buf
    ensures buf[32] as int == (old(buf[32]) as int + 1) % 256
    ensures buf[..32] == Hmac(c, prk, if buf[32] == 1 then [1] else old(buf[..32]) + [buf[32]])
  {
    hide Hmac;
    buf[32] := (buf[32] as int + 1) % 256;
    var prkData := new u8[|prk|](i requires 0 <= i < |prk| => prk[i]);
    assert prkData[..] == prk;
    var text := if buf[32] == 1 then Slice(buf, 32, 1) else Slice(buf, 0, 33);
    var bufs := [Slice(prkData, 0, |prk|), text];
    assert bufs[1..] == [text];
    ConcatOne(text);
    ghost var n, t := buf[32], buf[..32];
    assert t == old(buf[..32]) && prkData[0..|prk|] == prk;
    assert text.Read() == if n == 1 then [1] else t + [n];
    HmacSha256(c, buf, 0, bufs);
    assert buf[0..32] == buf[..32];
    assert buf[32] == buf[32..][0] == n;
  }

  /** The client and server keys of a request: two rounds from a counter of zero. */
  method DeriveRequestKeys(c: Primitives, prk: Bytes) returns (clientKey: Bytes, serverKey: Bytes)
    requires Ideal(c)
    ensures clientKey == HkdfBlock(c, prk, 1) && serverKey == HkdfBlock(c, prk, 2)
  {
    hide Hmac;
    var buf := new u8[33];
    buf[32] := 0;
    RaHkdfRound(c, prk, buf);
    clientKey := buf[..32];
    HkdfStart(c, prk);
    RaHkdfRound(c, prk, buf);
    serverKey := buf[..32];
  }

  lemma HkdfStart(c: Primitives, prk: Bytes)
    ensures HkdfBlock(c, prk, 1) == Hmac(c, prk, [1])
    ensures HkdfBlock(c, prk, 2) == Hmac(c, prk, HkdfBlock(c, prk, 1) + [2])
  {
    hide Hmac;
    assert HkdfBlock(c, prk, 0) + [1] == [1];
  }
}
