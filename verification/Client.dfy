/** The client: key agreement from a raw salt, a sealed query, and the decoding of the reply. */
module Client {
  import opened MachineWords
  import opened Options
  import LittleEndian
  import opened Crypto
  import opened PendingRequests
  import opened Protocol

  type Key32 = b: Bytes | |b| == 32 witness Zeros(32)

  /** Shared secrets have 32 bytes, and both sides compute the same one. */
  ghost predicate SharedSecrets(c: Primitives) {
    && (forall k, u :: |c.dh(k, u)| == 32)
    && (forall a, b :: IsClamped(a) && IsClamped(b) ==> c.dh(a, c.dh(b, Basepoint())) == c.dh(b, c.dh(a, Basepoint())))
  }

  /** The assumptions about the primitives can hold together. */
  lemma HypothesesConsistent() returns (c: Primitives)
    ensures Ideal(c) && SharedSecrets(c)
  {
    c := Primitives(
      (x: Bytes) => Zeros(32),
      (k: Bytes, iv: Bytes, aad: Bytes, x: Bytes) => Sealed(x, Zeros(16)),
      (k: Bytes, iv: Bytes, aad: Bytes, y: Sealed) => if y.mac == Zeros(16) then Some(y.data) else None,
      (k: Bytes, u: Bytes) => Zeros(32));
  }

  /** `random` bytes and `StaticSecret::new`: a clamped secret and its public key. */
  datatype Keys = Keys(priv: Bytes, pub: Key32)

  ghost predicate HonestKeys(c: Primitives, k: Keys) { Matched(c, KeyPair(k.priv, k.pub)) }

  // Key agreement.

  /** The client's extraction: the three public keys themselves are the salt. */
  function AgreedPrk(c: Primitives, keys: Keys, ephemeralPub: Bytes, staticPub: Bytes): Bytes {
    HkdfExtract(c, keys.pub + ephemeralPub + staticPub, c.dh(keys.priv, ephemeralPub) + c.dh(keys.priv, staticPub))
  }

  method CopyInto(a: array<u8>, at: nat, src: Bytes)
    requires at + |src| <= a.Length
    modifies a
    ensures a[..] == old(a[..at]) + src + old(a[at + |src|..])
  {
    for i := 0 to |src|
      invariant forall k :: 0 <= k < a.Length ==> a[k] == if at <= k < at + i then src[k - at] else old(a[k])
    {
      a[at + i] := src[i];
    }
  }

  method KeyAgreement(c: Primitives, keys: Keys, ephemeralPub: Key32, staticPub: Key32)
    returns (clientKey: Bytes, serverKey: Bytes)
    requires Ideal(c) && SharedSecrets(c)
    ensures var prk := AgreedPrk(c, keys, ephemeralPub, staticPub);
            clientKey == HkdfBlock(c, prk, 1) && serverKey == HkdfBlock(c, prk, 2)
  {
    hide Hmac, IsClamped;
    var secret, salt := new u8[64], new u8[96];
    CopyInto(secret, 0, c.dh(keys.priv, ephemeralPub));
    CopyInto(secret, 32, c.dh(keys.priv, staticPub));
    CopyInto(salt, 0, keys.pub);
    CopyInto(salt, 32, ephemeralPub);
    CopyInto(salt, 64, staticPub);
    assert salt[..] == keys.pub + ephemeralPub + staticPub;
    assert secret[..] == c.dh(keys.priv, ephemeralPub) + c.dh(keys.priv, staticPub);
    var prk := HkdfExtract(c, salt[..], secret[..]);
    var okm := HkdfExpand64(c, prk);
    HkdfStart(c, prk);
    HmacLength(c, prk, [1]);
    clientKey := okm[..32];
    serverKey := okm[32..];
  }

  /** Both sides derive the same two keys, the enclave from a hashed salt and its own private keys. */
  lemma KeysAgree(c: Primitives, keys: Keys, ephemeral: KeyPair, statik: KeyPair)
    requires Ideal(c) && SharedSecrets(c) && HonestKeys(c, keys) && Matched(c, ephemeral) && Matched(c, statik)
    ensures AgreedPrk(c, keys, ephemeral.pub, statik.pub) == RequestPrk(c, keys.pub, ephemeral, statik)
  {
    hide HkdfExtract, Hmac, IsClamped;
    var salt := keys.pub + ephemeral.pub + statik.pub;
    var ikm := c.dh(keys.priv, ephemeral.pub) + c.dh(keys.priv, statik.pub);
    LongSalt(c, salt, ikm);
    ExtractIsHmac(c, c.sha256(salt), ikm);
  }

  lemma ExtractIsHmac(c: Primitives, salt: Bytes, ikm: Bytes)
    ensures HkdfExtract(c, salt, ikm) == Hmac(c, salt, ikm)
  {
  }

  // Sealing and opening.

  datatype Message = Message(iv: Iv, mac: Bytes, data: Bytes)

  method EncryptData(c: Primitives, iv: Iv, key: Bytes, data: Bytes, aad: Bytes) returns (m: Message)
    requires Ideal(c)
    ensures m.iv == iv && c.open(key, iv, aad, Sealed(m.data, m.mac)) == Some(data)
  {
    var y := c.seal(key, iv, aad, data);
    m := Message(iv, y.mac, y.data);
  }

  /** Opens a text with its tag appended, in place, and cuts the tag off again. */
  method OpenTagged(c: Primitives, key: Bytes, iv: Bytes, aad: Bytes, data: Bytes, mac: Bytes)
    returns (r: Option<Bytes>)
    requires Ideal(c) && |mac| == 16
    ensures r == c.open(key, iv, aad, Sealed(data, mac))
  {
    var len := |data|;
    var buf := data + mac;
    var y := Sealed(buf[..|buf| - 16], buf[|buf| - 16..]);
    assert y == Sealed(data, mac);
    match c.open(key, iv, aad, y)
    case None => return None;
    case Some(x) =>
      buf := x + buf[|x|..];
      buf := buf[..len];
      assert buf == x;
      return Some(buf);
  }

  // The query.

  /** `write_u64::<BigEndian>` */
  function BigEndian(x: u64): (b: Bytes)
    ensures |b| == 8
  {
    var le := LittleEndian.Bytes(x, 8);
    [le[7], le[6], le[5], le[4], le[3], le[2], le[1], le[0]]
  }

  function PhoneData(phones: seq<u64>): (b: Bytes)
    ensures |b| == 8 * |phones|
  {
    if phones == [] then [] else PhoneData(phones[..|phones| - 1]) + BigEndian(phones[|phones| - 1])
  }

  datatype Envelope = Envelope(requestId: Bytes, message: Message)

  datatype DiscoveryRequest = DiscoveryRequest(addressCount: nat, commitment: Bytes, query: Message, envelope: Envelope)

  /** What the client draws at random. */
  datatype Draws = Draws(nonce: Key32, queryKey: Key32, iv1: Iv, iv2: Iv)

  method WritePhones(phones: seq<u64>) returns (data: Bytes)
    ensures data == PhoneData(phones)
  {
    data := [];
    for i := 0 to |phones|
      invariant data == PhoneData(phones[..i])
    {
      data := data + BigEndian(phones[i]);
      assert phones[..i + 1][..i] == phones[..i];
    }
    assert phones[..|phones|] == phones;
  }

  /** The plaintext of a query. */
  function QueryText(nonce: Bytes, phones: seq<u64>): Bytes { nonce + PhoneData(phones) }

  /** A request the enclave can read with the two keys of the negotiation. */
  ghost predicate Honest(c: Primitives, clientKey: Bytes, id: Bytes, d: Draws, phones: seq<u64>, r: DiscoveryRequest) {
    && r.envelope.requestId == id
    && c.open(clientKey, r.envelope.message.iv, id, Sealed(r.envelope.message.data, r.envelope.message.mac))
       == Some(d.queryKey)
    && c.open(d.queryKey, r.query.iv, [], Sealed(r.query.data, r.query.mac)) == Some(QueryText(d.nonce, phones))
    && r.commitment == c.sha256(QueryText(d.nonce, phones))
    && r.addressCount == |phones| % TWO32
  }

  /** Fails exactly if the encrypted request id does not open under the agreed key. */
  method MakeRequest(c: Primitives, keys: Keys, negotiation: Response, d: Draws, phones: seq<u64>)
    returns (r: Option<(Bytes, DiscoveryRequest)>)
    requires Ideal(c) && SharedSecrets(c)
    requires |negotiation.ephemeralPub| == |negotiation.staticPub| == 32 && |negotiation.id.mac| == 16
    ensures var prk := AgreedPrk(c, keys, negotiation.ephemeralPub, negotiation.staticPub);
            match c.open(ServerKey(c, prk), negotiation.iv, [], negotiation.id)
            case None => r == None
            case Some(id) =>
              r.Some? && r.value.0 == ServerKey(c, prk) && Honest(c, ClientKey(c, prk), id, d, phones, r.value.1)
  {
    hide AgreedPrk, Hmac, PhoneData, HkdfBlock;
    var clientKey, serverKey := KeyAgreement(c, keys, negotiation.ephemeralPub, negotiation.staticPub);
    var id := OpenTagged(c, serverKey, negotiation.iv, [], negotiation.id.data, negotiation.id.mac);
    if id.None? {
      return None;
    }
    var phoneData := WritePhones(phones);
    var text := d.nonce + phoneData;
    var commitment := c.sha256(text);
    var envelope := EncryptData(c, d.iv1, clientKey, d.queryKey, id.value);
    var query := EncryptData(c, d.iv2, d.queryKey, text, []);
    return Some((serverKey, DiscoveryRequest(|phones| % TWO32, commitment, query, Envelope(id.value, envelope))));
  }

  // The reply.

  /** Whole 16-byte pieces; a shorter rest is dropped. */
  method DecodeResponse(c: Primitives, serverKey: Bytes, iv: Bytes, data: Bytes, mac: Bytes)
    returns (r: Option<seq<Bytes>>)
    requires Ideal(c) && |mac| == 16
    ensures match c.open(serverKey, iv, [], Sealed(data, mac))
            case None => r == None
            case Some(x) =>
              && r.Some? && |r.value| == |x| / 16
              && forall i :: 0 <= i < |r.value| ==> r.value[i] == x[16 * i..16 * i + 16]
  {
    var text := OpenTagged(c, serverKey, iv, [], data, mac);
    if text.None? {
      return None;
    }
    var uuids: seq<Bytes> := [];
    var rest := text.value;
    while |rest| >= 16
      invariant 16 * |uuids| + |rest| == |text.value| && rest == text.value[16 * |uuids|..]
      invariant forall i :: 0 <= i < |uuids| ==> uuids[i] == text.value[16 * i..16 * i + 16]
    {
      uuids := uuids + [rest[..16]];
      rest := rest[16..];
    }
    return Some(uuids);
  }
}
