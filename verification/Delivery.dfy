/**
 Client, enclave and server together: what an honest client seals is what the server is given, and what
 the client decodes are the answers to the phones it asked about.
 */
module Delivery {
  import opened MachineWords
  import opened Options
  import LittleEndian
  import opened Crypto
  import opened PendingRequests
  import opened Protocol
  import opened ProtocolRuns
  import opened Chains
  import opened Lookup
  import opened LookupRetry
  import LookupTheorems
  import opened Client
  import opened Service

  // Tokens.

  /** A request id as the enclave lays it out in memory: encrypted number, IV, tag. */
  function ParseToken(b: Bytes): Token
    requires |b| == 36
  {
    Token(b[..8], b[8..20], b[20..])
  }

  lemma TokenRoundTrip(c: Primitives, idKey: Bytes, id: u64, iv: Iv)
    requires Ideal(c)
    ensures var t := MakeToken(c, idKey, id, iv);
            OpenToken(c, idKey, t) == Some(id) && |TokenBytes(t)| == 36 && ParseToken(TokenBytes(t)) == t
  {
    hide Pow2;
    var b := LittleEndian.Bytes(id, 8);
    var y := c.seal(idKey, iv, [], b);
    assert c.open(idKey, iv, [], y) == Some(b);
    assert |y.data| == |b|;
    Pow2Literals();
    LittleEndian.BytesOf(id, 8);
    SmallRemainder(id);
  }

  lemma SmallRemainder(id: u64)
    ensures id % TWO64 == id
  {
  }

  // What no step changes.

  ghost predicate Extends(w: World, w': World) {
    && w'.s.initialized && w'.s.idKey == w.s.idKey && w'.s.table.order == w.s.table.order
    && forall e :: e in w.log ==> e in w'.log
  }

  lemma StepExtends(c: Primitives, w: World, a: Action)
    requires w.s.initialized
    ensures Extends(w, Step(c, w, a))
  {
    hide ReadRand, MakeKeyPair, RequestPrk, ServerKey, OpenToken, OpenMessage, Pow2, BitAnd, Zeros, ReplyIv;
  }

  lemma {:induction false} RunExtends(c: Primitives, before: seq<Action>, after: seq<Action>)
    requires Run(c, before).s.initialized
    ensures Extends(Run(c, before), Run(c, before + after))
    decreases |after|
  {
    hide Run, Step;
    if after == [] {
      assert before + after == before;
    } else {
      var n := |after| - 1;
      var init := before + after[..n];
      assert before + after == init + [after[n]];
      RunExtends(c, before, after[..n]);
      RunStep(c, init, after[n]);
      StepExtends(c, Run(c, init), after[n]);
    }
  }

  // The negotiation.

  /** What an honest client asks for, when nothing fails. */
  function AskedBy(keys: Keys, x: Bytes, iv: Iv): Action {
    DoNegotiate(Some(keys.pub), true, Some(x), Some(iv), true, true)
  }

  function Negotiated(c: Primitives, w: World, keys: Keys, x: Bytes, iv: Iv): Effect {
    Negotiate(c, w.s, Some(keys.pub), true, Some(x), Some(iv), true, true)
  }

  /** The client learns the token of its request, and the enclave has filed it under the client's own key. */
  lemma NegotiationAgrees(c: Primitives, before: seq<Action>, keys: Keys, x: Bytes, iv: Iv)
    requires Ideal(c) && SharedSecrets(c) && HonestKeys(c, keys) && |before| < TWO64 && Run(c, before).s.initialized
    ensures var e := Negotiated(c, Run(c, before), keys, x, iv);
            && e.st == Ok && e.response.Some?
            && var prk := AgreedPrk(c, keys, e.response.value.ephemeralPub, e.response.value.staticPub);
            && OnTable(Added(e.s.table.last, prk)) in e.log
            && c.open(ServerKey(c, prk), e.response.value.iv, [], e.response.value.id)
               == Some(TokenBytes(MakeToken(c, e.s.idKey, e.s.table.last, iv)))
  {
    hide Run, ReadRand, MakeKeyPair, Protocol.Matched, RequestPrk, AgreedPrk, ServerKey, MakeToken, Pow2, BitAnd,
         Zeros, TokenBytes, TableLog;
    var s := Run(c, before).s;
    RunInv(c, before);
    KeyPairsMatched(c, before);
    GeneratedMatched(c, s.randState, x);
    KeysAgree(c, keys, MakeKeyPair(c, ReadRand(c, s.randState, x).1), s.keypair);
  }

  // Delivery.

  /** Issued, not consumed, and fewer than 2^order issued since. */
  ghost predicate Live(w: World, id: u64) {
    OnTable(Removed(id)) !in w.log && w.s.table.last < id as int + Pow2(w.s.table.order)
  }

  /** A live request is found, with the key it was filed under. */
  lemma LiveEntry(c: Primitives, actions: seq<Action>, id: u64, prk: Bytes)
    requires Ideal(c) && |actions| < TWO64 && Run(c, actions).s.initialized
    requires OnTable(Added(id, prk)) in Run(c, actions).log && Live(Run(c, actions), id)
    ensures var t := Run(c, actions).s.table; t.WellSized() && t.Found(id) && t.Get(id).prk == prk
  {
    hide Run, KeyInv, SlotInv, CallInv, EncryptInv, FromInv, TableLog, Pow2, BitAnd;
    RunInv(c, actions);
    var w := Run(c, actions);
    TableLogHas(w.log);
    var h := TableLog(w.log);
    assert Added(id, prk) in h;
    FoundIff(c, actions, id);
    var i, j :| 0 <= i < |h| && 0 <= j < |h| && h[i] == Added(id, prk) && h[j] == Added(id, w.s.table.Get(id).prk);
  }

  lemma {:induction false} LastExtends(c: Primitives, before: seq<Action>, after: seq<Action>)
    requires Ideal(c) && |before| + |after| < TWO64
    ensures Run(c, before).s.table.last <= Run(c, before + after).s.table.last
    decreases |after|
  {
    hide Run, Step, Inv;
    if after == [] {
      assert before + after == before;
    } else {
      var n := |after| - 1;
      var init := before + after[..n];
      assert before + after == init + [after[n]];
      LastExtends(c, before, after[..n]);
      RunInv(c, init);
      RunStep(c, init, after[n]);
      LastGrows(c, Run(c, init), after[n]);
    }
  }

  /** A request that is live was live at every earlier point from its issue on. */
  lemma LiveBefore(c: Primitives, before: seq<Action>, after: seq<Action>, id: u64)
    requires Ideal(c) && |before| + |after| < TWO64 && Run(c, before).s.initialized
    requires Live(Run(c, before + after), id)
    ensures Live(Run(c, before), id)
  {
    hide Run, Pow2;
    RunExtends(c, before, after);
    LastExtends(c, before, after);
  }

  /**
   A fingerprint, then anything at all, then a call with the same header and message. As long as the request is
   live, the call delivers the message the fingerprint saw, or rejects it if the fingerprint did; otherwise it
   finds no request. A request that a fingerprint does not find is never live again.
   */
  lemma FingerprintStands(c: Primitives, before: seq<Action>, after: seq<Action>, id: u64, h: nat, h': nat,
                          header: Header, data: Bytes, result: Protocol.Status, tag: nat,
                          handled: (Protocol.Status, nat))
    requires Ideal(c) && |before| + |after| < TWO64 && 1 <= id <= Run(c, before).s.table.last
    requires CallChecks(Run(c, before).s, h, Some(header), Some(data)) == Ok
    requires OpenToken(c, Run(c, before).s.idKey, header.token) == Some(id)
    requires CallChecks(Run(c, before + after).s, h', Some(header), Some(data)) == Ok
    ensures var w := Run(c, before + after);
            var f := Fingerprint(c, Run(c, before).s, h, Some(header), Some(data), result);
            var e := ServerCall(c, w.s, h', Some(header), Some(data), tag, handled);
            && (f == (NotFound, None) ==> !Live(w, id))
            && if !Live(w, id) then e.st == NotFound && e.log == [] && e.s == w.s
               else if f.1.Some? then
                 && e.from.Some? && e.st == handled.0
                 && e.log == [OnTable(Removed(id)), Call(h', w.s.servers[h'].ptr, id, f.1.value, handled.1)]
               else f.0 == e.st == MacMismatch && e.log == [OnTable(Removed(id))]
  {
    hide Run, OpenToken, OpenMessage, ServerKey, Pow2, BitAnd;
    var w := Run(c, before + after);
    RunExtends(c, before, after);
    LastExtends(c, before, after);
    FoundIff(c, before, id);
    FoundIff(c, before + after, id);
    if Live(w, id) {
      LiveBefore(c, before, after, id);
      LiveEntry(c, before + after, id, Run(c, before).s.table.Get(id).prk);
    }
  }

  /** The header the host passes on for an envelope. */
  function HeaderOf(e: Envelope): Header
    requires |e.requestId| == 36
  {
    Header(e.message.iv, e.message.mac, ParseToken(e.requestId))
  }

  /** On a state that has the request, a call with an honest envelope delivers what was sealed. */
  lemma Delivered(c: Primitives, s: State, id: u64, iv: Iv, d: Draws, phones: seq<u64>, r: DiscoveryRequest,
                  h: nat, tag: nat, handled: (Protocol.Status, nat))
    requires Ideal(c) && s.initialized && s.table.WellSized() && s.table.Found(id)
    requires h < |s.servers| == MAX_SERVERS && s.servers[h].valid
    requires Honest(c, ClientKey(c, s.table.Get(id).prk), TokenBytes(MakeToken(c, s.idKey, id, iv)), d, phones, r)
    ensures |r.envelope.requestId| == 36
    ensures var e := ServerCall(c, s, h, Some(HeaderOf(r.envelope)), Some(r.envelope.message.data), tag, handled);
            && e.log == [OnTable(Removed(id)), Call(h, s.servers[h].ptr, id, d.queryKey, handled.1)]
            && e.from == Some(From(true, tag, ServerKey(c, s.table.Get(id).prk), id)) && e.st == handled.0
  {
    hide ClientKey, ServerKey, MakeToken, OpenToken, Pow2, BitAnd, Zeros, ParseToken, TokenBytes;
    TokenRoundTrip(c, s.idKey, id, iv);
    var m := r.envelope.message;
    var y := Sealed(m.data, m.mac);
    assert y == c.seal(ClientKey(c, s.table.Get(id).prk), m.iv, r.envelope.requestId, d.queryKey);
    assert |y.data| == |d.queryKey|;
    ShortUncut(m.data);
  }

  /**
   Whatever happens between the negotiation and the call, key rotations included: as long as the request is
   live, the server is given exactly the query key the client sealed, and the client's own reply key.
   */
  lemma HonestDelivery(c: Primitives, before: seq<Action>, keys: Keys, x: Bytes, iv: Iv, after: seq<Action>,
                       d: Draws, phones: seq<u64>, r: DiscoveryRequest, h: nat, tag: nat,
                       handled: (Protocol.Status, nat))
    requires Ideal(c) && SharedSecrets(c) && HonestKeys(c, keys) && |before| + 1 + |after| < TWO64
    requires Run(c, before).s.initialized
    requires var e, w := Negotiated(c, Run(c, before), keys, x, iv), Run(c, before + [AskedBy(keys, x, iv)] + after);
             && Live(w, e.s.table.last) && h < MAX_SERVERS && h < |w.s.servers| && w.s.servers[h].valid
             && e.response.Some?
             && var prk := AgreedPrk(c, keys, e.response.value.ephemeralPub, e.response.value.staticPub);
                Honest(c, ClientKey(c, prk), TokenBytes(MakeToken(c, e.s.idKey, e.s.table.last, iv)), d, phones, r)
    ensures |r.envelope.requestId| == 36
    ensures var e, w := Negotiated(c, Run(c, before), keys, x, iv), Run(c, before + [AskedBy(keys, x, iv)] + after);
            var prk := AgreedPrk(c, keys, e.response.value.ephemeralPub, e.response.value.staticPub);
            var call := ServerCall(c, w.s, h, Some(HeaderOf(r.envelope)), Some(r.envelope.message.data), tag, handled);
            && call.log == [OnTable(Removed(e.s.table.last)),
                            Call(h, w.s.servers[h].ptr, e.s.table.last, d.queryKey, handled.1)]
            && call.from == Some(From(true, tag, ServerKey(c, prk), e.s.table.last))
  {
    hide Run, Negotiate, AgreedPrk, ClientKey, ServerKey, MakeToken, TokenBytes, Live, Honest, ServerCall, Pow2,
         ParseToken, TableInv, KeyInv, CallInv, EncryptInv, FromInv, Running;
    var w0, a := Run(c, before), AskedBy(keys, x, iv);
    var e := Negotiated(c, w0, keys, x, iv);
    var prk := AgreedPrk(c, keys, e.response.value.ephemeralPub, e.response.value.staticPub);
    NegotiationAgrees(c, before, keys, x, iv);
    RunStep(c, before, a);
    var w1 := Run(c, before + [a]);
    assert OnTable(Added(e.s.table.last, prk)) in w1.log;
    StepExtends(c, w0, a);
    RunExtends(c, before + [a], after);
    var all := before + [a] + after;
    LiveEntry(c, all, e.s.table.last, prk);
    RunInv(c, all);
    Delivered(c, Run(c, all).s, e.s.table.last, iv, d, phones, r, h, tag, handled);
  }

  // The query as the server reads it.

  /** The word a phone becomes: written most significant byte first, read least significant first. */
  function AsRead(p: u64): Phone { DecodePhone(BigEndian(p)) }

  lemma LEOfBytes(b: Bytes)
    requires |b| == 8
    ensures LittleEndian.Bytes(DecodePhone(b), 8) == b
  {
    hide Pow2;
    Pow2Literals();
    var x := DecodePhone(b);
    LittleEndian.BytesOf(x, 8);
    LittleEndian.LEInjective(LittleEndian.Bytes(x, 8), b);
  }

  /** Reading what was written reverses the bytes, and twice is the identity. */
  lemma AsReadReverses(p: u64)
    ensures LittleEndian.Bytes(AsRead(p), 8) == BigEndian(p)
    ensures forall i :: 0 <= i < 8 ==> LittleEndian.Bytes(AsRead(p), 8)[i] == LittleEndian.Bytes(p, 8)[7 - i]
    ensures AsRead(AsRead(p)) == p
  {
    hide Pow2, LittleEndian.LE, LittleEndian.Bytes;
    LEOfBytes(BigEndian(p));
    assert BigEndian(AsRead(p)) == LittleEndian.Bytes(p, 8);
    Pow2Literals();
    LittleEndian.BytesOf(p, 8);
  }

  /** A phone is read as itself exactly if its bytes read the same both ways; the phone one is not. */
  lemma AsReadSameIff(p: u64)
    ensures AsRead(p) == p <==> BigEndian(p) == LittleEndian.Bytes(p, 8)
    ensures AsRead(1) == 0x100_0000_0000_0000
  {
    hide Pow2, LittleEndian.LE, DecodePhone;
    AsReadReverses(p);
    LEOfBytes(LittleEndian.Bytes(p, 8));
    ReadsBack(p);
    OneReversed();
  }

  lemma ReadsBack(p: u64)
    ensures DecodePhone(LittleEndian.Bytes(p, 8)) == p
  {
    hide Pow2, LittleEndian.LE, LittleEndian.Bytes;
    Pow2Literals();
    LittleEndian.BytesOf(p, 8);
  }

  lemma OneReversed()
    ensures AsRead(1) == 0x100_0000_0000_0000
  {
    hide Pow2, LittleEndian.LE, DecodePhone;
    var p: u64 := 0x100_0000_0000_0000;
    assert BigEndian(1) == LittleEndian.Bytes(p, 8);
    ReadsBack(p);
  }

  function AllAsRead(phones: seq<u64>): (r: seq<Phone>)
    ensures |r| == |phones|
  {
    seq(|phones|, i requires 0 <= i < |phones| => AsRead(phones[i]))
  }

  lemma {:induction false} PhoneDataAt(phones: seq<u64>, i: nat)
    requires i < |phones|
    ensures PhoneData(phones)[8 * i..8 * i + 8] == BigEndian(phones[i])
  {
    hide BigEndian;
    if i < |phones| - 1 {
      PhoneDataAt(phones[..|phones| - 1], i);
    }
  }

  lemma QueryDecodes(nonce: Bytes, phones: seq<u64>)
    requires |nonce| == NONCE_SIZE
    ensures DecodePhones(QueryText(nonce, phones)[NONCE_SIZE..]) == AllAsRead(phones)
  {
    hide BigEndian, PhoneData, DecodePhone;
    var data := PhoneData(phones);
    assert QueryText(nonce, phones)[NONCE_SIZE..] == data;
    forall i | 0 <= i < |phones|
      ensures DecodePhones(data)[i] == AllAsRead(phones)[i]
    {
      PhoneDataAt(phones, i);
    }
  }

  /** What the host passes to the server with an envelope. */
  function ArgsOf(r: DiscoveryRequest): CallArgs
    requires r.addressCount < TWO32
  {
    CallArgs(r.addressCount, Some(r.query.data), r.query.iv, r.query.mac, r.commitment)
  }

  /**
   An honest query that fits is accepted, with the client's phones in the client's order. One of 2^32 phones
   or more is refused whatever the room, because its count is cut to 32 bits.
   */
  lemma HonestQueryAccepted(c: Primitives, clientKey: Bytes, id: Bytes, d: Draws, phones: seq<u64>,
                            r: DiscoveryRequest, room: int)
    requires Ideal(c) && Honest(c, clientKey, id, d, phones, r)
    ensures r.addressCount < TWO32
    ensures DecodeRequest(c, ArgsOf(r), d.queryKey, room) ==
              if |phones| % TWO32 == 0 || |phones| % TWO32 > room then Refused(BadParameter)
              else if |phones| >= TWO32 then Refused(InvalidRequestSize)
              else Phones(AllAsRead(phones))
  {
    hide QueryText, DecodePhones, AllAsRead;
    var text := QueryText(d.nonce, phones);
    TextLength(d.nonce, phones);
    var y := c.seal(d.queryKey, r.query.iv, [], text);
    assert Sealed(r.query.data, r.query.mac) == y && |y.data| == |text|;
    if |phones| < TWO32 {
      hide DecodePhoneList;
      QueryDecodes(d.nonce, phones);
      SealedAccepted(c, ArgsOf(r), d.queryKey, text);
    }
  }

  lemma TextLength(nonce: Bytes, phones: seq<u64>)
    ensures |QueryText(nonce, phones)| == |nonce| + 8 * |phones|
  {
  }

  // The answers.

  /** The right UUID for a phone or none at all. */
  predicate SoundAnswer(u: Uuid, db: seq<Entry>, p: Phone) { u == LastUuid(db, p) || u == NoUuid }

  lemma ChunkSound(out: seq<Uuid>, db: seq<Entry>, query: seq<Phone>, words: Draw, i: nat)
    requires i < |query| == |out| && ChunkAnswered(out, db, query, words) && query[i] != 0
    ensures SoundAnswer(out[i], db, query[i])
    ensures (forall a: nat :: SucceedsAt(query, words, a) ==>
             LookupTheorems.WithinCapacity(AttemptKey(query, words[a].value), query))
            ==> out[i] == LastUuid(db, query[i])
  {
    hide Overflows, NextPowerOfTwo, AttemptKey, LastUuid, Answer, LookupTheorems.WithinCapacity;
    var a: nat :| SucceedsAt(query, words, a) && AllCorrect(out, db, query, AttemptKey(query, words[a].value));
    var key := AttemptKey(query, words[a].value);
    LookupTheorems.Sound(out[i], db, query, key, query[i]);
    if LookupTheorems.WithinCapacity(key, query) {
      LookupTheorems.Complete(db, query, key);
    }
  }

  /** No attempt that succeeds on any chunk puts more than twelve phones into a slot. */
  ghost predicate AllWithinCapacity(query: seq<Phone>, words: seq<Draw>)
    requires |words| == Chunks(|query|)
  {
    forall k, a: nat :: 0 <= k < |words| && SucceedsAt(Chunk(query, k), words[k], a) ==>
      LookupTheorems.WithinCapacity(AttemptKey(Chunk(query, k), words[k][a].value), Chunk(query, k))
  }

  /** Every answer of a batch is right or zero; all are right if no slot is overfull. */
  lemma BatchSound(out: seq<Uuid>, db: seq<Entry>, query: seq<Phone>, words: seq<Draw>, n: nat)
    requires n < |query| == |out| && |words| == Chunks(|query|)
    requires AllAnswered(out, db, query, words, |words|) && query[n] != 0
    ensures SoundAnswer(out[n], db, query[n])
    ensures AllWithinCapacity(query, words) ==> out[n] == LastUuid(db, query[n])
  {
    hide SucceedsAt, AttemptKey, LastUuid, LookupTheorems.WithinCapacity, SoundAnswer, ChunkAnswered;
    var k := n / MAX_HASH_TABLE_SIZE;
    var i := n - MAX_HASH_TABLE_SIZE * k;
    assert Chunk(out, k)[i] == out[n] && Chunk(query, k)[i] == query[n];
    ChunkSound(Chunk(out, k), db, Chunk(query, k), words[k], i);
  }

  // The directory. Phones and the two words of each UUID are stored with their bytes reversed.

  function StoredUuid(u: Uuid): Uuid { Uuid(AsRead(u.d0), AsRead(u.d1)) }

  function Stored(dir: seq<Entry>): seq<Entry> {
    if dir == [] then []
    else
      var e := dir[|dir| - 1];
      Stored(dir[..|dir| - 1]) + [Entry(AsRead(e.phone), StoredUuid(e.uuid))]
  }

  /** Looking up a phone as the server reads it finds what the directory has for the phone. */
  lemma {:induction false} StoredLookup(dir: seq<Entry>, p: u64)
    ensures LastUuid(Stored(dir), AsRead(p)) == StoredUuid(LastUuid(dir, p))
  {
    hide AsRead;
    if dir == [] {
      AsReadZero();
    } else {
      var n, e := |dir| - 1, dir[|dir| - 1];
      StoredLookup(dir[..n], p);
      AsReadReverses(e.phone);
      AsReadReverses(p);
      assert Stored(dir)[..|Stored(dir)| - 1] == Stored(dir[..n]);
    }
  }

  /** The sixteen bytes of a UUID, most significant first. */
  function WireUuid(u: Uuid): Bytes { BigEndian(u.d0) + BigEndian(u.d1) }

  /** What the server copies out of the directory is what the client is to receive. */
  lemma StoredOnWire(u: Uuid)
    ensures UuidBytes(StoredUuid(u)) == WireUuid(u)
    ensures StoredUuid(u) == NoUuid <==> u == NoUuid
  {
    hide AsRead, BigEndian, LittleEndian.Bytes;
    AsReadReverses(u.d0);
    AsReadReverses(u.d1);
    NonzeroAsRead(u.d0);
    NonzeroAsRead(u.d1);
  }

  /** The j-th sixteen bytes are the UUID of the j-th phone in the directory or zeros. */
  ghost predicate Answers(data: Bytes, dir: seq<Entry>, phones: seq<u64>, j: nat, complete: bool)
    requires j < |phones| && |data| == 16 * |phones|
  {
    exists u :: && data[16 * j..16 * j + 16] == WireUuid(u)
                && SoundAnswer(u, dir, phones[j]) && (complete ==> u == LastUuid(dir, phones[j]))
  }

  lemma AnswerArrives(data: Bytes, dir: seq<Entry>, phones: seq<u64>, j: nat, complete: bool, v: Uuid)
    requires j < |phones| && |data| == 16 * |phones| && data[16 * j..16 * j + 16] == UuidBytes(v)
    requires SoundAnswer(v, Stored(dir), AsRead(phones[j]))
             && (complete ==> v == LastUuid(Stored(dir), AsRead(phones[j])))
    ensures Answers(data, dir, phones, j, complete)
  {
    hide AsRead, LastUuid, WireUuid, UuidBytes, StoredUuid, Stored;
    var u := LastUuid(dir, phones[j]);
    StoredLookup(dir, phones[j]);
    StoredOnWire(u);
    StoredOnWire(NoUuid);
    var w := if v == StoredUuid(u) then u else NoUuid;
    assert data[16 * j..16 * j + 16] == WireUuid(w) && SoundAnswer(w, dir, phones[j]);
  }

  /**
   The reply to request i of a batch, opened by its client: the j-th sixteen bytes are the UUID the directory
   has for the j-th phone the client asked about, or zeros; the UUID unless some slot was overfull.
   */
  lemma {:induction false} ClientAnswered(c: Primitives, server: Server, out: seq<Uuid>, dir: seq<Entry>,
                                          words: seq<Draw>, sent: seq<bool>, i: nat, phones: seq<u64>, j: nat,
                                          iv: Iv, ocall: Protocol.Status)
    requires Ideal(c) && server.Valid() && i < |server.accepted| == |sent| && j < |phones| && phones[j] != 0
    requires server.accepted[i].phones == AllAsRead(phones) && server.accepted[i].from.valid
    requires |out| == |server.queryPhones| == Offset(server.requests, |server.requests|) && |words| == Chunks(|out|)
    requires AllAnswered(out, Stored(dir), server.queryPhones, words, |words|)
    requires OutcomeOf(server.requests, out, sent, i).Replied?
    ensures var data, from := OutcomeOf(server.requests, out, sent, i).data, server.accepted[i].from;
            var reply := ServerReply(c, from, Some(data), |data|, Some(iv), true, ocall);
            && |data| == 16 * |phones| && reply.sent.Some?
            && c.open(from.key, reply.sent.value.0, [], reply.sent.value.1) == Some(data)
            && Answers(data, dir, phones, j, AllWithinCapacity(server.queryPhones, words))
  {
    hide AllAnswered, AllWithinCapacity, SoundAnswer, LastUuid, AsRead, UuidBytes, UuidData, RequestsOf, Offset,
         Reached, PhonesOf, ReplyIv, TooLong, Answers, Stored;
    var accepted, requests := server.accepted, server.requests;
    var data := OutcomeOf(requests, out, sent, i).data;
    OwnPhones(accepted, i);
    var o := Offset(requests, i);
    var mine := Share(requests, out, i);
    assert data == UuidData(mine);
    UuidDataAt(mine, j);
    assert mine[j] == out[o + j];
    assert server.queryPhones[o + j] == accepted[i].phones[j] == AsRead(phones[j]);
    NonzeroAsRead(phones[j]);
    BatchSound(out, Stored(dir), server.queryPhones, words, o + j);
    AnswerArrives(data, dir, phones, j, AllWithinCapacity(server.queryPhones, words), mine[j]);
  }

  // From end to end.

  /** The agreed key of an honest negotiation, as the client computes it. */
  ghost function ClientPrk(c: Primitives, before: seq<Action>, keys: Keys, x: Bytes, iv: Iv): Bytes
    requires Negotiated(c, Run(c, before), keys, x, iv).response.Some?
  {
    var resp := Negotiated(c, Run(c, before), keys, x, iv).response.value;
    AgreedPrk(c, keys, resp.ephemeralPub, resp.staticPub)
  }

  /**
   A whole discovery. A client negotiates after any run, seals a query, and while its request is live the
   envelope reaches a server, which queues the phones it decodes as request i of a batch with any others. When
   the batch is looked up in the stored directory and the reply sent, what the client opens with the server key
   it derived itself are the directory's UUIDs of the phones it asked about.
   */
  lemma {:induction false} Discovered(c: Primitives, before: seq<Action>, keys: Keys, x: Bytes, iv: Iv,
                                      after: seq<Action>, d: Draws, phones: seq<u64>, r: DiscoveryRequest, h: nat,
                                      tag: nat, handled: (Protocol.Status, nat), server: Server, room: int, i: nat,
                                      out: seq<Uuid>, dir: seq<Entry>, words: seq<Draw>, sent: seq<bool>, j: nat,
                                      replyIv: Iv, ocall: Protocol.Status)
    requires Ideal(c) && SharedSecrets(c) && HonestKeys(c, keys) && |before| + 1 + |after| < TWO64
    requires Run(c, before).s.initialized && Negotiated(c, Run(c, before), keys, x, iv).response.Some?
    requires var e, w := Negotiated(c, Run(c, before), keys, x, iv), Run(c, before + [AskedBy(keys, x, iv)] + after);
             && Live(w, e.s.table.last) && h < MAX_SERVERS && h < |w.s.servers| && w.s.servers[h].valid
             && Honest(c, ClientKey(c, ClientPrk(c, before, keys, x, iv)),
                       TokenBytes(MakeToken(c, e.s.idKey, e.s.table.last, iv)), d, phones, r)
    requires |r.envelope.requestId| == 36 && r.addressCount < TWO32
    requires var w := Run(c, before + [AskedBy(keys, x, iv)] + after);
             var call := ServerCall(c, w.s, h, Some(HeaderOf(r.envelope)), Some(r.envelope.message.data), tag, handled);
             && call.from.Some? && |call.log| == 2 && call.log[1].Call? && server.Valid()
             && i < |server.accepted| == |sent|
             && server.accepted[i].from == call.from.value
             && DecodeRequest(c, ArgsOf(r), call.log[1].msg, room) == Phones(server.accepted[i].phones)
    requires |out| == |server.queryPhones| == Offset(server.requests, |server.requests|) && |words| == Chunks(|out|)
    requires AllAnswered(out, Stored(dir), server.queryPhones, words, |words|)
    requires OutcomeOf(server.requests, out, sent, i).Replied? && j < |phones| && phones[j] != 0
    ensures var data := OutcomeOf(server.requests, out, sent, i).data;
            var reply := ServerReply(c, server.accepted[i].from, Some(data), |data|, Some(replyIv), true, ocall);
            && reply.sent.Some? && |data| == 16 * |phones|
            && c.open(ServerKey(c, ClientPrk(c, before, keys, x, iv)), reply.sent.value.0, [], reply.sent.value.1)
               == Some(data)
            && Answers(data, dir, phones, j, AllWithinCapacity(server.queryPhones, words))
  {
    hide Run, Negotiate, AgreedPrk, ClientKey, ServerKey, MakeToken, TokenBytes, Live, Honest, ServerCall, ParseToken,
         AllAnswered, AllWithinCapacity, Answers, DecodeRequest, AllAsRead, Offset, OutcomeOf, ServerReply, Stored;
    HonestDelivery(c, before, keys, x, iv, after, d, phones, r, h, tag, handled);
    var id := TokenBytes(MakeToken(c, Negotiated(c, Run(c, before), keys, x, iv).s.idKey,
                                   Negotiated(c, Run(c, before), keys, x, iv).s.table.last, iv));
    HonestQueryAccepted(c, ClientKey(c, ClientPrk(c, before, keys, x, iv)), id, d, phones, r, room);
    ClientAnswered(c, server, out, dir, words, sent, i, phones, j, replyIv, ocall);
  }

  lemma NonzeroAsRead(p: u64)
    ensures AsRead(p) == 0 <==> p == 0
  {
    hide LittleEndian.LE, LittleEndian.Bytes;
    AsReadReverses(p);
    AsReadZero();
  }

  lemma AsReadZero()
    ensures AsRead(0) == 0
  {
    LEZeros(BigEndian(0));
  }

  lemma {:induction false} LEZeros(b: Bytes)
    requires forall i :: 0 <= i < |b| ==> b[i] == 0
    ensures LittleEndian.LE(b) == 0
  {
    if b != [] {
      LEZeros(b[1..]);
    }
  }
}
