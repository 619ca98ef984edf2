/**
 The enclave's request protocol as a state machine. Each entry point is one atomic step; random
 bytes, the results of SGX calls and of the server's callbacks are inputs of the step.
 */
module Protocol {
  import opened MachineWords
  import opened Options
  import LittleEndian
  import opened Crypto
  import opened PendingRequests
  import Donna = Curve25519Donna

  /** Status codes; `Failed` is one passed through from an SGX call or a callback. */
  datatype Status =
    | Ok | InvalidState | InvalidParameter | Unexpected | OutOfMemory | MacMismatch | NotFound
    | Failed(code: nat)

  const MAX_SERVERS: nat := 256

  // Key pairs.

  datatype KeyPair = KeyPair(priv: Bytes, pub: Bytes)

  function Basepoint(): Bytes { [9] + Zeros(31) }

  function Clamp(b: Bytes): Bytes { if |b| == 32 then Donna.Clamp(b) else b }

  /** The chained generator: its next state and the bytes it yields. */
  function ReadRand(c: Primitives, randState: Bytes, x: Bytes): (Bytes, Bytes) {
    var prk := Hmac(c, randState, x);
    (HkdfBlock(c, prk, 1), HkdfBlock(c, prk, 2))
  }

  function MakeKeyPair(c: Primitives, secret: Bytes): KeyPair {
    KeyPair(Clamp(secret), c.dh(Clamp(secret), Basepoint()))
  }

  /** A multiple of the cofactor in the range of X25519 scalars. */
  predicate IsClamped(b: Bytes) { |b| == 32 && b[0] % 8 == 0 && 64 <= b[31] < 128 }

  /** A clamped private key and the public key computed from it. */
  predicate Matched(c: Primitives, k: KeyPair) { IsClamped(k.priv) && k.pub == c.dh(k.priv, Basepoint()) }

  lemma ClampClamps(b: Bytes)
    requires |b| == 32
    ensures IsClamped(Clamp(b))
  {
    hide BitAnd, BitOr;
    Donna.ClampedBytes(b[0], b[31]);
    BitAndEven(b[0], 124);
    BitAndEven(b[0] / 2, 62);
    BitAndEven(b[0] / 2 / 2, 31);
    BitOrAtLeast(BitAnd(b[31], 127), 64);
  }

  lemma {:induction false} BitOrAtLeast(x: nat, y: nat)
    ensures BitOr(x, y) >= y
    decreases x + y
  {
    if x != 0 || y != 0 {
      BitOrAtLeast(x / 2, y / 2);
    }
  }

  lemma GeneratedMatched(c: Primitives, randState: Bytes, x: Bytes)
    requires Ideal(c)
    ensures Matched(c, MakeKeyPair(c, ReadRand(c, randState, x).1))
  {
    hide Clamp, IsClamped, Hmac;
    var prk := Hmac(c, randState, x);
    HkdfStart(c, prk);
    HmacLength(c, prk, HkdfBlock(c, prk, 1) + [2]);
    ClampClamps(HkdfBlock(c, prk, 2));
  }

  // Requests.

  datatype Token = Token(data: Bytes, iv: Bytes, mac: Bytes)

  function TokenBytes(t: Token): Bytes { t.data + t.iv + t.mac }

  datatype Header = Header(iv: Bytes, mac: Bytes, token: Token)

  datatype Response = Response(staticPub: Bytes, ephemeralPub: Bytes, iv: Bytes, id: Sealed)

  /** AES-GCM IVs have twelve bytes. */
  type Iv = b: Bytes | |b| == 12 witness Zeros(12)

  function ZeroIv(): Iv { Zeros(12) }

  /** The pseudo-random key of a request: hashed salt over three public keys, two shared secrets. */
  function RequestPrk(c: Primitives, clientPub: Bytes, ephemeral: KeyPair, statik: KeyPair): Bytes {
    Hmac(c, c.sha256(clientPub + ephemeral.pub + statik.pub),
         c.dh(ephemeral.priv, clientPub) + c.dh(statik.priv, clientPub))
  }

  function ClientKey(c: Primitives, prk: Bytes): Bytes { HkdfBlock(c, prk, 1) }

  function ServerKey(c: Primitives, prk: Bytes): Bytes { HkdfBlock(c, prk, 2) }

  function MakeToken(c: Primitives, idKey: Bytes, id: u64, iv: Bytes): Token {
    var y := c.seal(idKey, iv, [], LittleEndian.Bytes(id, 8));
    Token(y.data, iv, y.mac)
  }

  function OpenToken(c: Primitives, idKey: Bytes, t: Token): Option<u64> {
    match c.open(idKey, t.iv, [], Sealed(t.data, t.mac))
    case None => None
    case Some(b) => Some(LittleEndian.LE(b) % TWO64)
  }

  // State.

  datatype Desc = Desc(valid: bool, ptr: nat)

  datatype State = State(
    initialized: bool, randState: Bytes, keypair: KeyPair, newKeypair: KeyPair,
    table: Table, idKey: Bytes, servers: seq<Desc>)

  /** Callbacks and uses of request keys, in the order they happen. */
  datatype Event =
    | OnTable(e: TableEvent)
    | Init(h: nat, ptr: nat)
    | Call(h: nat, ptr: nat, id: u64, msg: Bytes, ptr': nat)
    | Terminate(h: nat, ptr: nat)
    | Encrypt(id: u64, key: Bytes, iv: Iv)

  /** A sender record held by the server; `id` names the request it answers. */
  datatype From = From(valid: bool, tag: nat, key: Bytes, id: u64)

  function NoFrom(): From { From(false, 0, Zeros(32), 0) }

  datatype Effect = Effect(s: State, st: Status, log: seq<Event>, from: Option<From>, response: Option<Response>)

  function Fails(s: State, st: Status): Effect { Effect(s, st, [], None, None) }

  function Starting(): State {
    State(false, Zeros(32), KeyPair(Zeros(32), Zeros(32)), KeyPair(Zeros(32), Zeros(32)),
          Table(0, [], 0), Zeros(32), seq(MAX_SERVERS, _ => Desc(false, 0)))
  }

  // Entry points. A table of the wrong size does not occur once initialised; the tests on it keep the steps total.

  /** Initialisation; what failed attempts have already written stays written. */
  function NodeInit(c: Primitives, s: State, mappedInside: bool, order: Option<nat>,
                    x1: Option<Bytes>, x2: Option<Bytes>, idKey: Option<Bytes>, memory: bool): Effect
  {
    if s.initialized then Fails(s, InvalidState)
    else if !mappedInside then Fails(s, Unexpected)
    else if order.None? || order.value > 63 then Fails(s, InvalidParameter)
    else if x1.None? then Fails(s, Failed(0))
    else
      var r1 := ReadRand(c, s.randState, x1.value);
      var s1 := s.(randState := r1.0, keypair := MakeKeyPair(c, r1.1));
      if x2.None? then Fails(s1, Failed(0))
      else
        var r2 := ReadRand(c, s1.randState, x2.value);
        var s2 := s1.(randState := r2.0, newKeypair := MakeKeyPair(c, r2.1));
        if idKey.None? then Fails(s2, Failed(0))
        else
          var s3 := s2.(idKey := idKey.value);
          if !memory then Fails(s3.(table := Table(order.value, [], s3.table.last)), OutOfMemory)
          else
            var table := Table(order.value, EmptyTable(order.value).entries, s3.table.last);
            Effect(s3.(initialized := true, table := table), Ok, [], None, None)
  }

  function GetNextReport(c: Primitives, s: State, report: bool, x: Option<Bytes>, created: bool): Effect {
    if !s.initialized then Fails(s, InvalidState)
    else if !report then Fails(s, InvalidParameter)
    else if x.None? then Fails(s, Failed(0))
    else
      var r := ReadRand(c, s.randState, x.value);
      var s1 := s.(randState := r.0);
      if !created then Fails(s1, Failed(1)) else Fails(s1.(newKeypair := MakeKeyPair(c, r.1)), Ok)
  }

  function SetCurrentQuote(s: State): Effect {
    if !s.initialized then Fails(s, InvalidState) else Fails(s.(keypair := s.newKeypair), Ok)
  }

  /**
   Negotiation. `iv` is the random IV of the token; `sealed1` and `sealed2` say whether the two
   encryptions succeeded. From the table on, a failure leaves its entry behind.
   */
  function Negotiate(c: Primitives, s: State, clientPub: Option<Bytes>, response: bool,
                     x: Option<Bytes>, iv: Option<Iv>, sealed1: bool, sealed2: bool): Effect
  {
    if !s.initialized || !s.table.WellSized() then Fails(s, InvalidState)
    else if clientPub.None? || !response then Fails(s, InvalidParameter)
    else if x.None? then Fails(s, Failed(0))
    else
      var r := ReadRand(c, s.randState, x.value);
      var ephemeral := MakeKeyPair(c, r.1);
      var prk := RequestPrk(c, clientPub.value, ephemeral, s.keypair);
      var s1 := s.(randState := r.0, table := s.table.Add(prk));
      var id := s1.table.last;
      var added := OnTable(Added(id, prk));
      if iv.None? then Effect(s1, Failed(0), [added], None, None)
      else if !sealed1 then Effect(s1, Unexpected, [added], None, None)
      else
        var key := ServerKey(c, prk);
        var log := [added, Encrypt(id, key, ZeroIv())];
        if !sealed2 then Effect(s1, Unexpected, log, None, None)
        else
          var token := MakeToken(c, s.idKey, id, iv.value);
          var resp := Response(s.keypair.pub, ephemeral.pub, ZeroIv(), c.seal(key, ZeroIv(), [], TokenBytes(token)));
          Effect(s1, Ok, log, None, Some(resp))
  }

  function ServerStart(s: State, h: nat, init: Option<nat>): Effect {
    if !s.initialized then Fails(s, InvalidState)
    else if h >= MAX_SERVERS || h >= |s.servers| then Fails(s, InvalidParameter)
    else if s.servers[h].valid then Fails(s, InvalidState)
    else if init.None? then Fails(s, Failed(2))
    else Effect(s.(servers := s.servers[h := Desc(true, init.value)]), Ok, [Init(h, init.value)], None, None)
  }

  /** The checks shared by a call and a fingerprint, up to a token that opens. */
  function CallChecks(s: State, h: nat, header: Option<Header>, data: Option<Bytes>): Status {
    if !s.initialized || !s.table.WellSized() then InvalidState
    else if h >= MAX_SERVERS || h >= |s.servers| then InvalidParameter
    else if !s.servers[h].valid then InvalidState
    else if header.None? then InvalidParameter
    else if data.None? || data.value == [] then InvalidParameter
    else Ok
  }

  /** What is left of a message when its length is passed on as a 32-bit number. */
  function Cut32(data: Bytes): Bytes { data[..|data| % TWO32] }

  lemma ShortUncut(data: Bytes)
    requires |data| < TWO32
    ensures Cut32(data) == data
  {
  }

  function OpenMessage(c: Primitives, prk: Bytes, header: Header, data: Bytes): Option<Bytes> {
    c.open(ClientKey(c, prk), header.iv, TokenBytes(header.token), Sealed(Cut32(data), header.mac))
  }

  /** A message: its request is consumed before it is opened. `handled` is the callback's status and new state. */
  function ServerCall(c: Primitives, s: State, h: nat, header: Option<Header>, data: Option<Bytes>, tag: nat,
                      handled: (Status, nat)): Effect
  {
    var st := CallChecks(s, h, header, data);
    if st != Ok then Fails(s, st)
    else
      match OpenToken(c, s.idKey, header.value.token)
      case None => Fails(s, MacMismatch)
      case Some(id) =>
        if !s.table.Found(id) then Fails(s, NotFound)
        else
          var prk := s.table.Get(id).prk;
          var s1 := s.(table := s.table.Remove(id));
          match OpenMessage(c, prk, header.value, data.value)
          case None => Effect(s1, MacMismatch, [OnTable(Removed(id))], None, None)
          case Some(msg) =>
            var s2 := s1.(servers := s1.servers[h := Desc(true, handled.1)]);
            Effect(s2, handled.0, [OnTable(Removed(id)), Call(h, s.servers[h].ptr, id, msg, handled.1)],
                   Some(From(true, tag, ServerKey(c, prk), id)), None)
  }

  /** The message a fingerprint call gets to see, with its status; the state stays as it is. */
  function Fingerprint(c: Primitives, s: State, h: nat, header: Option<Header>, data: Option<Bytes>, result: Status)
    : (Status, Option<Bytes>)
  {
    var st := CallChecks(s, h, header, data);
    if st != Ok then (st, None)
    else
      match OpenToken(c, s.idKey, header.value.token)
      case None => (MacMismatch, None)
      case Some(id) =>
        if !s.table.Found(id) then (NotFound, None)
        else
          match OpenMessage(c, s.table.Get(id).prk, header.value, data.value)
          case None => (MacMismatch, None)
          case Some(msg) => (result, Some(msg))
  }

  function ServerStop(s: State, h: nat, terminated: Status): Effect {
    if !s.initialized then Fails(s, InvalidState)
    else if h >= MAX_SERVERS || h >= |s.servers| then Fails(s, InvalidParameter)
    else if !s.servers[h].valid then Fails(s, InvalidState)
    else Effect(s.(servers := s.servers[h := Desc(false, 0)]), terminated, [Terminate(h, s.servers[h].ptr)], None, None)
  }

  // Replies. The record is erased on every path.

  /** `iv[0] |= 1` */
  function ReplyIv(iv: Iv): Iv {
    OddByte(iv[0]);
    iv[0 := BitOr(iv[0], 1)]
  }

  lemma OddByte(x: u8)
    ensures BitOr(x, 1) < 256 && BitOr(x, 1) % 2 == 1
  {
    hide Pow2;
    Pow2Literals();
    BitOrBounded(x, 1, 8);
  }

  datatype Reply = Reply(st: Status, log: seq<Event>, sent: Option<(Bytes, Sealed)>)

  /** A reply of `data` under the key of the record; the record afterwards is `NoFrom`. */
  function ServerReply(c: Primitives, from: From, data: Option<Bytes>, size: nat, iv: Option<Iv>, sealed: bool,
                       ocall: Status): Reply
  {
    if !from.valid then Reply(InvalidState, [], None)
    else if data.None? && size != 0 then Reply(InvalidParameter, [], None)
    else if iv.None? then Reply(Failed(0), [], None)
    else
      var text := if data.None? then [] else data.value;
      var log := [Encrypt(from.id, from.key, ReplyIv(iv.value))];
      if !sealed then Reply(Unexpected, log, None)
      else Reply(ocall, log, Some((ReplyIv(iv.value), c.seal(from.key, ReplyIv(iv.value), [], text))))
  }
}
