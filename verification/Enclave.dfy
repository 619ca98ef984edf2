/**
 The enclave's globals and entry points as they run: tables and descriptors updated in place, early
 returns on every error. Each entry point is proved to take the step of the protocol it stands for.
 */
module Enclave {
  import opened MachineWords
  import opened Options
  import opened Crypto
  import opened PendingRequests
  import opened Protocol
  import opened ProtocolRuns

  /** HMAC of byte strings, through the buffers the in-place code works on. */
  method HmacOf(c: Primitives, key: Bytes, text: Bytes) returns (h: Bytes)
    requires Ideal(c)
    ensures h == Hmac(c, key, text)
  {
    hide Hmac;
    var k := new u8[|key|](i requires 0 <= i < |key| => key[i]);
    var t := new u8[|text|](i requires 0 <= i < |text| => text[i]);
    assert k[0..|key|] == key && t[0..|text|] == text;
    var out := new u8[32];
    var bufs := [Slice(k, 0, |key|), Slice(t, 0, |text|)];
    assert bufs[1..] == [bufs[1]];
    ConcatOne(bufs[1]);
    HmacSha256(c, out, 0, bufs);
    h := out[0..32];
  }

  method EmptyEntries(order: nat) returns (a: array<Pending>)
    ensures fresh(a) && a.Length == Pow2(order) && a[..] == EmptyTable(order).entries
  {
    hide Zeros;
    a := new Pending[Pow2(order)](_ => NoRequest());
  }

  /** A sender record in the server's hands. */
  class Sender {
    var record: From

    constructor (record: From)
      ensures this.record == record
    {
      this.record := record;
    }
  }

  ghost function Records(senders: seq<Sender>): seq<From>
    reads senders
  {
    seq(|senders|, k requires 0 <= k < |senders| reads senders => senders[k].record)
  }

  ghost predicate Distinct(senders: seq<Sender>) {
    forall i, j :: 0 <= i < j < |senders| ==> senders[i] != senders[j]
  }

  /** The bytes behind a pointer that may be null. */
  ghost function DataOf(buf: array?<u8>): Option<Bytes>
    reads if buf == null then {} else {buf}
  {
    if buf == null then None else Some(buf[..])
  }

  ghost function ReplyData(buf: array?<u8>, size: u32): Option<Bytes>
    requires buf != null ==> size <= buf.Length
    reads if buf == null then {} else {buf}
  {
    if buf == null then None else Some(buf[..size])
  }

  lemma RecordAt(senders: seq<Sender>, k: nat)
    requires k < |senders|
    ensures |Records(senders)| == |senders| && Records(senders)[k] == senders[k].record
  {
  }

  method EraseRecord(from: Sender, ghost k: nat, ghost senders: seq<Sender>)
    requires Distinct(senders) && k < |senders| && senders[k] == from
    modifies from
    ensures from.record == NoFrom() && |Records(senders)| == |senders|
    ensures Records(senders) == old(Records(senders))[k := NoFrom()]
  {
    hide Zeros;
    from.record := NoFrom();
  }

  method Erase(buf: array<u8>, n: nat)
    requires n <= buf.Length
    modifies buf
    ensures buf[..n] == Zeros(n) && buf[n..] == old(buf[n..])
  {
    for i := 0 to n
      invariant forall j :: 0 <= j < buf.Length ==> buf[j] == if j < i then 0 else old(buf[j])
    {
      buf[i] := 0;
    }
  }

  method Overwrite(buf: array<u8>, data: Bytes)
    requires |data| <= buf.Length
    modifies buf
    ensures buf[..|data|] == data && buf[|data|..] == old(buf[|data|..])
  {
    for i := 0 to |data|
      invariant forall j :: 0 <= j < buf.Length ==> buf[j] == if j < i then data[j] else old(buf[j])
    {
      buf[i] := data[i];
    }
  }

  /** Decryption in place; what does not authenticate is zeroed. */
  method OpenInPlace(c: Primitives, key: Bytes, iv: Bytes, aad: Bytes, mac: Bytes, buf: array<u8>, n: nat)
    returns (ok: bool)
    requires Ideal(c) && n <= buf.Length
    modifies buf
    ensures buf[n..] == old(buf[n..])
    ensures match c.open(key, iv, aad, Sealed(old(buf[..n]), mac))
            case None => !ok && buf[..n] == Zeros(n)
            case Some(x) => ok && buf[..n] == x
  {
    var y := Sealed(buf[..n], mac);
    match c.open(key, iv, aad, y)
    case None =>
      Erase(buf, n);
      return false;
    case Some(x) =>
      assert y == c.seal(key, iv, aad, x);
      Overwrite(buf, x);
      return true;
  }

  /**
   The enclave's globals. `actions` are the calls made so far and `trace` what was done in them, recorded
   where it is done: table changes, callbacks, and uses of request keys.
   */
  class Node {
    const c: Primitives
    var initialized: bool
    var randState: Bytes
    var keypair: KeyPair
    var newKeypair: KeyPair
    var pending: array<Pending>
    var order: nat
    var last: u64
    var idKey: Bytes
    const servers: array<Desc>
    ghost var actions: seq<Action>
    ghost var trace: seq<Event>
    ghost var senders: seq<Sender>

    ghost function Abs(): State
      reads this, pending, servers
    {
      State(initialized, randState, keypair, newKeypair, Table(order, pending[..], last), idKey, servers[..])
    }

    ghost predicate Sized()
      reads this
    {
      Ideal(c) && servers.Length == MAX_SERVERS && (initialized ==> pending.Length == Pow2(order))
    }

    /** Globals, sender records and trace are those of the run so far. */
    ghost predicate Valid()
      reads this, pending, servers, senders
    {
      && Sized()
      && Run(c, actions) == World(Abs(), Records(senders), trace) && Distinct(senders)
    }

    /** The run is short of 2^64 steps, its tokens were all its own, and its requests have different keys. */
    ghost predicate Sane()
      reads this
    {
      |actions| < TWO64 && TokensIssued(c, actions) && KeysDiffer(c, trace)
    }

    method NewSender(record: From) returns (from: Sender)
      requires Distinct(senders)
      modifies this`senders
      ensures fresh(from) && from.record == record && senders == old(senders) + [from]
      ensures Distinct(senders) && Records(senders) == old(Records(senders)) + [record]
    {
      from := new Sender(record);
      senders := senders + [from];
    }

    constructor (c: Primitives)
      requires Ideal(c)
      ensures Valid() && this.c == c && actions == [] && trace == [] && senders == [] && fresh(pending)
              && fresh(servers)
    {
      this.c := c;
      initialized, randState, idKey := false, Zeros(32), Zeros(32);
      keypair, newKeypair := KeyPair(Zeros(32), Zeros(32)), KeyPair(Zeros(32), Zeros(32));
      pending, order, last := new Pending[0], 0, 0;
      servers := new Desc[MAX_SERVERS](_ => Desc(false, 0));
      actions, trace, senders := [], [], [];
    }

    /** Mixes fresh bytes into the chained state and draws 32 bytes. */
    method DrawRand(x: Bytes) returns (b: Bytes)
      requires Sized()
      modifies this`randState
      ensures (randState, b) == ReadRand(c, old(randState), x)
    {
      hide Hmac, HkdfBlock;
      var prk := HmacOf(c, randState, x);
      randState, b := DeriveRequestKeys(c, prk);
    }

    method GenerateKeyPair(x: Option<Bytes>) returns (k: Option<KeyPair>)
      requires Sized()
      modifies this`randState
      ensures x.None? ==> k == None && randState == old(randState)
      ensures x.Some? ==> randState == ReadRand(c, old(randState), x.value).0
                          && k == Some(MakeKeyPair(c, ReadRand(c, old(randState), x.value).1))
    {
      hide ReadRand;
      if x.None? {
        return None;
      }
      var secret := DrawRand(x.value);
      var priv := Clamp(secret);
      k := Some(KeyPair(priv, c.dh(priv, Basepoint())));
    }

    method InitLocked(inside: bool, order_: Option<nat>, x1: Option<Bytes>, x2: Option<Bytes>, idKey_: Option<Bytes>,
                      memory: bool) returns (st: Status)
      requires Sized()
      modifies this`initialized, this`randState, this`keypair, this`newKeypair, this`idKey, this`order, this`pending
      ensures Sized() && (pending == old(pending) || fresh(pending))
      ensures var e := NodeInit(c, old(Abs()), inside, order_, x1, x2, idKey_, memory); Abs() == e.s && st == e.st
    {
      hide ReadRand, MakeKeyPair, Pow2, EmptyTable, Zeros, Ideal;
      if initialized {
        return InvalidState;
      }
      if !inside {
        return Unexpected;
      }
      if order_.None? || order_.value > 63 {
        return InvalidParameter;
      }
      var k1 := GenerateKeyPair(x1);
      if k1.None? {
        return Failed(0);
      }
      keypair := k1.value;
      var k2 := GenerateKeyPair(x2);
      if k2.None? {
        return Failed(0);
      }
      newKeypair := k2.value;
      if idKey_.None? {
        return Failed(0);
      }
      idKey := idKey_.value;
      order := order_.value;
      if !memory {
        pending := new Pending[0];
        return OutOfMemory;
      }
      pending := EmptyEntries(order);
      initialized := true;
      return Ok;
    }

    method InitNode(inside: bool, order_: Option<nat>, x1: Option<Bytes>, x2: Option<Bytes>, idKey_: Option<Bytes>,
                    memory: bool)
      returns (st: Status)
      requires Valid()
      modifies this
      ensures Valid() && senders == old(senders) && (pending == old(pending) || fresh(pending))
      ensures actions == old(actions) + [DoInit(inside, order_, x1, x2, idKey_, memory)]
      ensures st == NodeInit(c, old(Abs()), inside, order_, x1, x2, idKey_, memory).st
    {
      hide Run, Records, Distinct, NodeInit, Pow2;
      ghost var a := DoInit(inside, order_, x1, x2, idKey_, memory);
      RunStep(c, actions, a);
      NoTrace(c, Run(c, actions), a);
      actions := actions + [a];
      st := InitLocked(inside, order_, x1, x2, idKey_, memory);
    }

    method ReportLocked(report: bool, x: Option<Bytes>, created: bool) returns (st: Status)
      requires Sized()
      modifies this`randState, this`newKeypair
      ensures Sized()
      ensures var e := GetNextReport(c, old(Abs()), report, x, created); Abs() == e.s && st == e.st
    {
      hide ReadRand, MakeKeyPair, Pow2;
      if !initialized {
        return InvalidState;
      }
      if !report {
        return InvalidParameter;
      }
      var k := GenerateKeyPair(x);
      if k.None? {
        return Failed(0);
      }
      if !created {
        return Failed(1);
      }
      newKeypair := k.value;
      return Ok;
    }

    method NextReport(report: bool, x: Option<Bytes>, created: bool) returns (st: Status)
      requires Valid()
      modifies this
      ensures Valid() && senders == old(senders) && pending == old(pending)
      ensures actions == old(actions) + [DoReport(report, x, created)]
      ensures st == GetNextReport(c, old(Abs()), report, x, created).st
    {
      hide Run, Records, Distinct, GetNextReport, Pow2;
      ghost var a := DoReport(report, x, created);
      RunStep(c, actions, a);
      NoTrace(c, Run(c, actions), a);
      actions := actions + [a];
      st := ReportLocked(report, x, created);
    }

    method CurrentQuote() returns (st: Status)
      requires Valid()
      modifies this
      ensures Valid() && senders == old(senders) && pending == old(pending)
      ensures actions == old(actions) + [DoQuote] && st == SetCurrentQuote(old(Abs())).st
    {
      hide Run, Records, Distinct, Pow2, Ideal;
      RunStep(c, actions, DoQuote);
      NoTrace(c, Run(c, actions), DoQuote);
      actions := actions + [DoQuote];
      if !initialized {
        return InvalidState;
      }
      keypair := newKeypair;
      return Ok;
    }

    // Pending requests.

    /** Takes the next id and writes its entry, then seals the id as a token. */
    method AddPendingRequest(prk: Bytes, iv: Option<Iv>, sealed: bool) returns (st: Status, token: Option<Token>)
      requires Sized() && initialized
      modifies this`last, this`trace, pending
      ensures Sized() && Table(order, pending[..], last) == old(Table(order, pending[..], last)).Add(prk)
      ensures trace == old(trace) + [OnTable(Added(last, prk))]
      ensures st == (if iv.None? then Failed(0) else if !sealed then Unexpected else Ok)
      ensures st == Ok ==> token == Some(MakeToken(c, idKey, last, iv.value))
    {
      hide BitAnd, Pow2, MakeToken;
      ghost var t := Table(order, pending[..], last);
      last := (last as int + 1) % TWO64;
      IndexInRange(t, last);
      var i := BitAnd(last, Pow2(order) - 1);
      pending[i] := Pending(last, prk);
      trace := trace + [OnTable(Added(last, prk))];
      token := None;
      if iv.None? {
        return Failed(0), None;
      }
      if !sealed {
        return Unexpected, None;
      }
      return Ok, Some(MakeToken(c, idKey, last, iv.value));
    }

    method GetPendingRequest(token: Token) returns (st: Status, p: Option<Pending>)
      requires Sized() && initialized
      ensures var t := Table(order, pending[..], last);
              match OpenToken(c, idKey, token)
              case None => st == MacMismatch && p == None
              case Some(id) => if t.Found(id) then st == Ok && p == Some(t.Get(id)) else st == NotFound && p == None
    {
      hide BitAnd, Pow2, OpenToken;
      match OpenToken(c, idKey, token)
      case None => return MacMismatch, None;
      case Some(id) =>
        IndexInRange(Table(order, pending[..], last), id);
        var i := BitAnd(id, Pow2(order) - 1);
        if pending[i].id == id {
          return Ok, Some(pending[i]);
        }
        return NotFound, None;
    }

    /** As `GetPendingRequest`, but zeroes the entry it returns. */
    method RemovePendingRequest(token: Token) returns (st: Status, p: Option<Pending>)
      requires Sized() && initialized
      modifies this`trace, pending
      ensures var t := old(Table(order, pending[..], last));
              match OpenToken(c, idKey, token)
              case None => st == MacMismatch && p == None && pending[..] == t.entries && trace == old(trace)
              case Some(id) =>
                if t.Found(id) then
                  && st == Ok && p == Some(t.Get(id)) && Table(order, pending[..], last) == t.Remove(id)
                  && trace == old(trace) + [OnTable(Removed(id))]
                else st == NotFound && p == None && pending[..] == t.entries && trace == old(trace)
    {
      hide BitAnd, Pow2, OpenToken, Zeros;
      match OpenToken(c, idKey, token)
      case None => return MacMismatch, None;
      case Some(id) =>
        IndexInRange(Table(order, pending[..], last), id);
        var i := BitAnd(id, Pow2(order) - 1);
        if pending[i].id == id {
          p := Some(pending[i]);
          pending[i] := NoRequest();
          trace := trace + [OnTable(Removed(id))];
          return Ok, p;
        }
        return NotFound, None;
    }

    /** The pseudo-random key of a negotiation, from the static and an ephemeral key pair. */
    method DerivePrk(clientPub: Bytes, ephemeral: KeyPair, statik: KeyPair) returns (prk: Bytes)
      requires Sized()
      ensures prk == RequestPrk(c, clientPub, ephemeral, statik)
    {
      hide Hmac;
      var ephemeralDh := c.dh(ephemeral.priv, clientPub);
      var staticDh := c.dh(statik.priv, clientPub);
      var salt := c.sha256(clientPub + ephemeral.pub + statik.pub);
      prk := HmacOf(c, salt, ephemeralDh + staticDh);
    }

    /** Encrypts under the key of a request; `id` says whose key it is. */
    method SealReply(key: Bytes, iv: Iv, text: Bytes, ghost id: u64) returns (y: Sealed)
      modifies this`trace
      ensures y == c.seal(key, iv, [], text) && trace == old(trace) + [Encrypt(id, key, iv)]
    {
      y := c.seal(key, iv, [], text);
      trace := trace + [Encrypt(id, key, iv)];
    }

    method NegotiateLocked(clientPub: Option<Bytes>, response: bool, x: Option<Bytes>, iv: Option<Iv>,
                           sealed1: bool, sealed2: bool) returns (st: Status, r: Option<Response>)
      requires Sized()
      modifies this`randState, this`last, this`trace, pending
      ensures Sized()
      ensures var e := Negotiate(c, old(Abs()), clientPub, response, x, iv, sealed1, sealed2);
              Abs() == e.s && st == e.st && r == e.response && trace == old(trace) + e.log
    {
      hide ReadRand, MakeKeyPair, Pow2, RequestPrk, MakeToken, BitAnd, Ideal, Zeros, TokenBytes, HkdfBlock, Hmac;
      ghost var s := Abs();
      if !initialized {
        return InvalidState, None;
      }
      if clientPub.None? || !response {
        return InvalidParameter, None;
      }
      var ephemeral := GenerateKeyPair(x);
      if ephemeral.None? {
        return Failed(0), None;
      }
      var statik := keypair;
      var prk := DerivePrk(clientPub.value, ephemeral.value, statik);
      var _, serverKey := DeriveRequestKeys(c, prk);
      var added, token := AddPendingRequest(prk, iv, sealed1);
      assert Abs() == s.(randState := randState, table := s.table.Add(prk));
      if added != Ok {
        return added, None;
      }
      var id := SealReply(serverKey, ZeroIv(), TokenBytes(token.value), last);
      if !sealed2 {
        return Unexpected, None;
      }
      return Ok, Some(Response(statik.pub, ephemeral.value.pub, ZeroIv(), id));
    }

    /** The response is the one encryption under the new request's key so far. */
    method NegotiateRequest(clientPub: Option<Bytes>, response: bool, x: Option<Bytes>, iv: Option<Iv>,
                            sealed1: bool, sealed2: bool) returns (st: Status, r: Option<Response>)
      requires Valid()
      modifies this, pending
      ensures Valid() && senders == old(senders) && pending == old(pending)
      ensures actions == old(actions) + [DoNegotiate(clientPub, response, x, iv, sealed1, sealed2)]
      ensures var e := Negotiate(c, old(Abs()), clientPub, response, x, iv, sealed1, sealed2);
              st == e.st && r == e.response && trace == old(trace) + e.log
      ensures r.Some? && Sane() ==>
                var use := trace[|trace| - 1];
                && use.Encrypt? && NewNonce(old(trace), use.key, use.iv)
                && exists text :: r.value.iv == use.iv && r.value.id == c.seal(use.key, use.iv, [], text)
    {
      hide Run, Records, Distinct, Negotiate, Pow2, TokensIssued, KeysDiffer, NewNonce;
      ghost var a := DoNegotiate(clientPub, response, x, iv, sealed1, sealed2);
      RunStep(c, actions, a);
      NoSender(c, Run(c, actions), a);
      actions := actions + [a];
      st, r := NegotiateLocked(clientPub, response, x, iv, sealed1, sealed2);
      if r.Some? && Sane() {
        NegotiatedOnce(c, old(actions), a);
      }
    }

    // Server slots.

    method StartServer(h: nat, init: Option<nat>) returns (st: Status)
      requires Valid()
      modifies this, servers
      ensures Valid() && senders == old(senders) && pending == old(pending)
      ensures actions == old(actions) + [DoStart(h, init)] && st == ServerStart(old(Abs()), h, init).st
    {
      hide Run, Records, Distinct, Pow2, Ideal;
      RunStep(c, actions, DoStart(h, init));
      actions := actions + [DoStart(h, init)];
      assert trace + [] == trace;
      if !initialized {
        return InvalidState;
      }
      if h >= MAX_SERVERS {
        return InvalidParameter;
      }
      if servers[h].valid {
        return InvalidState;
      }
      if init.None? {
        return Failed(2);
      }
      trace := trace + [Init(h, init.value)];
      servers[h] := Desc(true, init.value);
      return Ok;
    }

    /** The descriptor is cleared before the callback runs. */
    method StopServer(h: nat, terminated: Status) returns (st: Status, ptr: Option<nat>)
      requires Valid()
      modifies this, servers
      ensures Valid() && senders == old(senders) && pending == old(pending)
      ensures actions == old(actions) + [DoStop(h, terminated)] && st == ServerStop(old(Abs()), h, terminated).st
      ensures trace == old(trace) + if ptr.Some? then [Terminate(h, ptr.value)] else []
    {
      hide Run, Records, Distinct, Pow2, Ideal;
      RunStep(c, actions, DoStop(h, terminated));
      actions := actions + [DoStop(h, terminated)];
      assert trace + [] == trace;
      if !initialized {
        return InvalidState, None;
      }
      if h >= MAX_SERVERS {
        return InvalidParameter, None;
      }
      if !servers[h].valid {
        return InvalidState, None;
      }
      ptr := Some(servers[h].ptr);
      servers[h] := Desc(false, 0);
      trace := trace + [Terminate(h, ptr.value)];
      return terminated, ptr;
    }

    // Messages.

    /** The message and sender record handed to the callback, if it gets that far; the buffer keeps no plaintext. */
    method CallLocked(h: nat, header: Option<Header>, buf: array?<u8>, tag: nat, handled: (Status, nat))
      returns (st: Status, msg: Option<Bytes>, from: Option<From>)
      requires Sized()
      modifies this`trace, servers, pending, if buf == null then {} else {buf}
      ensures Sized()
      ensures var e := ServerCall(c, old(Abs()), h, header, old(DataOf(buf)), tag, handled);
              && Abs() == e.s && st == e.st && from == e.from && (msg.Some? <==> from.Some?)
              && (msg.Some? ==> |e.log| == 2 && e.log[1].Call? && e.log[1].msg == msg.value)
              && trace == old(trace) + e.log
              && (buf != null ==> Wiped(buf[..], old(buf[..]), e.log != []))
    {
      hide Pow2, BitAnd, OpenToken, Zeros, Ideal, TokenBytes, HkdfBlock, Hmac;
      ghost var s, data := Abs(), DataOf(buf);
      if !initialized {
        return InvalidState, None, None;
      }
      if h >= MAX_SERVERS {
        return InvalidParameter, None, None;
      }
      if !servers[h].valid {
        return InvalidState, None, None;
      }
      if header.None? {
        return InvalidParameter, None, None;
      }
      if buf == null || buf.Length == 0 {
        return InvalidParameter, None, None;
      }
      assert CallChecks(s, h, header, data) == Ok;
      var removed, p := RemovePendingRequest(header.value.token);
      if removed != Ok {
        assert Abs() == s;
        return removed, None, None;
      }
      ghost var id := OpenToken(c, idKey, header.value.token).value;
      assert Abs() == s.(table := s.table.Remove(id));
      var clientKey, serverKey := DeriveRequestKeys(c, p.value.prk);
      var n := buf.Length % TWO32;
      var ok := OpenInPlace(c, clientKey, header.value.iv, TokenBytes(header.value.token), header.value.mac, buf, n);
      if !ok {
        return MacMismatch, None, None;
      }
      msg := Some(buf[..n]);
      trace := trace + [Call(h, servers[h].ptr, p.value.id, buf[..n], handled.1)];
      servers[h] := Desc(true, handled.1);
      Erase(buf, n);
      return handled.0, msg, Some(From(true, tag, serverKey, p.value.id));
    }

    /** A message is handed over with a sender record of its own, for a request never handed over before. */
    method CallServer(h: nat, header: Option<Header>, buf: array?<u8>, tag: nat, handled: (Status, nat))
      returns (st: Status, msg: Option<Bytes>, from: Sender?)
      requires Valid()
      modifies this, servers, pending, if buf == null then {} else {buf}
      ensures Valid() && pending == old(pending)
      ensures actions == old(actions) + [DoCall(h, header, old(DataOf(buf)), tag, handled)]
      ensures var e := ServerCall(c, old(Abs()), h, header, old(DataOf(buf)), tag, handled);
              && st == e.st && trace == old(trace) + e.log && (msg.Some? <==> from != null)
              && (if from == null then e.from == None && senders == old(senders)
                  else fresh(from) && e.from == Some(from.record) && senders == old(senders) + [from])
              && (msg.Some? ==> |e.log| == 2 && e.log[1].Call? && e.log[1].msg == msg.value)
              && (buf != null ==> Wiped(buf[..], old(buf[..]), e.log != []))
      ensures from != null && |actions| < TWO64 && TokensIssued(c, actions) ==>
                forall d :: d in old(trace) && d.Call? ==> d.id != from.record.id
    {
      hide Run, ServerCall, Pow2, TokensIssued, Wiped, Ideal, Records, Distinct;
      ghost var s, data := Abs(), DataOf(buf);
      ghost var a := DoCall(h, header, data, tag, handled);
      RunStep(c, actions, a);
      Calls(c, Run(c, actions), a);
      actions := actions + [a];
      var record;
      st, msg, record := CallLocked(h, header, buf, tag, handled);
      from := null;
      if record.Some? {
        from := NewSender(record.value);
        if |actions| < TWO64 && TokensIssued(c, actions) {
          CallIsFirst(c, old(actions), a, trace[|trace| - 1]);
        }
      }
    }

    /** As a call, but the request stays pending and no global changes. */
    method RatelimitFingerprint(h: nat, header: Option<Header>, buf: array?<u8>, result: Status)
      returns (st: Status, msg: Option<Bytes>)
      requires Sized()
      modifies if buf == null then {} else {buf}
      ensures (st, msg) == Fingerprint(c, Abs(), h, header, old(DataOf(buf)), result)
      ensures buf != null ==> Wiped(buf[..], old(buf[..]), Opens(c, Abs(), h, header, old(DataOf(buf))))
    {
      hide Pow2, BitAnd, OpenToken, Zeros, Ideal, TokenBytes, HkdfBlock, Hmac;
      ghost var data := DataOf(buf);
      if !initialized {
        return InvalidState, None;
      }
      if h >= MAX_SERVERS {
        return InvalidParameter, None;
      }
      if !servers[h].valid {
        return InvalidState, None;
      }
      if header.None? {
        return InvalidParameter, None;
      }
      if buf == null || buf.Length == 0 {
        return InvalidParameter, None;
      }
      assert CallChecks(Abs(), h, header, data) == Ok;
      var got, p := GetPendingRequest(header.value.token);
      if got != Ok {
        return got, None;
      }
      var clientKey, _ := DeriveRequestKeys(c, p.value.prk);
      var n := buf.Length % TWO32;
      var ok := OpenInPlace(c, clientKey, header.value.iv, TokenBytes(header.value.token), header.value.mac, buf, n);
      if !ok {
        return MacMismatch, None;
      }
      msg := Some(buf[..n]);
      Erase(buf, n);
      return result, msg;
    }

    // Replies.

    /** Encrypts in place and sends what it encrypted. */
    method ReplyNoErase(from: Sender, buf: array?<u8>, size: u32, iv: Option<Iv>, sealed: bool, ocall: Status)
      returns (st: Status, sent: Option<(Bytes, Sealed)>)
      requires Sized() && (buf != null ==> size <= buf.Length)
      modifies this`trace, if buf == null then {} else {buf}
      ensures var r := ServerReply(c, from.record, old(ReplyData(buf, size)), size, iv, sealed, ocall);
              st == r.st && sent == r.sent && trace == old(trace) + r.log
      ensures buf != null ==> buf[size..] == old(buf[size..])
    {
      hide ReplyIv, Pow2;
      if !from.record.valid {
        return InvalidState, None;
      }
      if buf == null && size != 0 {
        return InvalidParameter, None;
      }
      if iv.None? {
        return Failed(0), None;
      }
      var replyIv := ReplyIv(iv.value);
      var text := if buf == null then [] else buf[..size];
      var y := SealReply(from.record.key, replyIv, text, from.record.id);
      if !sealed {
        return Unexpected, None;
      }
      if buf != null {
        Overwrite(buf, y.data);
      }
      return ocall, Some((replyIv, y));
    }

    /** The record is erased on every path, and so is the buffer. */
    method ReplyAndErase(from: Sender, ghost k: nat, buf: array?<u8>, size: u32, iv: Option<Iv>, sealed: bool,
                         ocall: Status)
      returns (st: Status, sent: Option<(Bytes, Sealed)>)
      requires Valid() && k < |senders| && senders[k] == from && (buf != null ==> size <= buf.Length)
      modifies this, from, if buf == null then {} else {buf}
      ensures Valid() && pending == old(pending) && senders == old(senders) && from.record == NoFrom()
      ensures actions == old(actions) + [DoReply(k, old(ReplyData(buf, size)), size, iv, sealed, ocall)]
      ensures var r := ServerReply(c, old(from.record), old(ReplyData(buf, size)), size, iv, sealed, ocall);
              st == r.st && sent == r.sent && trace == old(trace) + r.log
      ensures buf != null ==> buf[..size] == Zeros(size) && buf[size..] == old(buf[size..])
    {
      hide Run, Records, Distinct, ServerReply, Pow2, Ideal, Zeros;
      ghost var a := DoReply(k, ReplyData(buf, size), size, iv, sealed, ocall);
      RunStep(c, actions, a);
      RecordAt(senders, k);
      actions := actions + [a];
      st, sent := ReplyNoErase(from, buf, size, iv, sealed, ocall);
      if buf != null {
        Erase(buf, size);
      }
      EraseRecord(from, k, senders);
    }

    /** The key was not used with this IV before. Without a record nothing is sent, but the buffer is erased. */
    method Reply(from: Sender?, ghost k: nat, buf: array?<u8>, size: u32, iv: Option<Iv>, sealed: bool, ocall: Status)
      returns (st: Status, sent: Option<(Bytes, Sealed)>)
      requires Valid() && (from != null ==> k < |senders| && senders[k] == from) && (buf != null ==> size <= buf.Length)
      modifies this, if from == null then {} else {from}, if buf == null then {} else {buf}
      ensures Valid() && pending == old(pending) && senders == old(senders)
      ensures if from == null then
                st == InvalidParameter && sent == None && actions == old(actions) && trace == old(trace)
              else
                && from.record == NoFrom()
                && actions == old(actions) + [DoReply(k, old(ReplyData(buf, size)), size, iv, sealed, ocall)]
                && var r := ServerReply(c, old(from.record), old(ReplyData(buf, size)), size, iv, sealed, ocall);
                   st == r.st && sent == r.sent && trace == old(trace) + r.log
      ensures buf != null ==> buf[..size] == Zeros(size) && buf[size..] == old(buf[size..])
      ensures sent.Some? && Sane() ==>
                var use := trace[|trace| - 1];
                && use.Encrypt? && NewNonce(old(trace), use.key, use.iv)
                && exists text :: sent.value == (use.iv, c.seal(use.key, use.iv, [], text))
    {
      hide Run, Records, Distinct, ServerReply, Pow2, TokensIssued, KeysDiffer, NewNonce, Ideal, Zeros;
      if from == null {
        if buf != null {
          Erase(buf, size);
        }
        return InvalidParameter, None;
      }
      RecordAt(senders, k);
      st, sent := ReplyAndErase(from, k, buf, size, iv, sealed, ocall);
      if sent.Some? && Sane() {
        RepliedOnce(c, old(actions), actions[|actions| - 1]);
      }
    }

    method NoReply(from: Sender?, ghost k: nat, ocall: Status) returns (st: Status)
      requires Valid() && (from != null ==> k < |senders| && senders[k] == from)
      modifies this, if from == null then {} else {from}
      ensures Valid() && pending == old(pending) && senders == old(senders) && trace == old(trace)
      ensures actions == old(actions) + if from == null then [] else [DoNoReply(k)]
      ensures if from == null then st == InvalidParameter
              else if old(from.record).valid then st == ocall && from.record == NoFrom()
              else st == InvalidState && from.record == old(from.record)
    {
      hide Run, Records, Distinct, Pow2, Ideal, Zeros;
      if from == null {
        return InvalidParameter;
      }
      RunStep(c, actions, DoNoReply(k));
      RecordAt(senders, k);
      actions := actions + [DoNoReply(k)];
      if !from.record.valid {
        return InvalidState;
      }
      EraseRecord(from, k, senders);
      return ocall;
    }
  }

  /** These entry points change nothing but the globals. */
  lemma NoTrace(c: Primitives, w: World, a: Action)
    requires a.DoInit? || a.DoReport? || a.DoQuote?
    ensures Step(c, w, a) == World(Step(c, w, a).s, w.froms, w.log)
  {
    hide ReadRand, MakeKeyPair, EmptyTable, Zeros, Pow2;
  }

  /** A message gets as far as being decrypted: a server is up and the request is pending. */
  ghost predicate Opens(c: Primitives, s: State, h: nat, header: Option<Header>, data: Option<Bytes>) {
    && CallChecks(s, h, header, data) == Ok
    && var id := OpenToken(c, s.idKey, header.value.token);
       id.Some? && s.table.Found(id.value)
  }

  /** Nothing but zeros is left of what was decrypted, or the buffer was not touched. */
  ghost predicate Wiped(now: Bytes, before: Bytes, touched: bool) {
    && |now| == |before|
    && var n := |before| % TWO32;
       if touched then now == Zeros(n) + before[n..] else now == before
  }

  ghost predicate NewNonce(before: seq<Event>, key: Bytes, iv: Iv) {
    forall d :: d in before && d.Encrypt? && d.key == key ==> d.iv != iv
  }

  /** The encryption of a negotiation is new, and is what the response carries. */
  lemma NegotiatedOnce(c: Primitives, before: seq<Action>, a: Action)
    requires a.DoNegotiate? && Ideal(c) && |before| + 1 < TWO64 && TokensIssued(c, before + [a])
    requires KeysDiffer(c, Run(c, before + [a]).log)
    ensures var e := Negotiate(c, Run(c, before).s, a.pub, a.response, a.x, a.iv, a.sealed1, a.sealed2);
            e.response.Some? ==>
              && |e.log| == 2 && e.log[1].Encrypt? && NewNonce(Run(c, before).log, e.log[1].key, e.log[1].iv)
              && e.response.value.iv == e.log[1].iv
              && exists text :: e.response.value.id == c.seal(e.log[1].key, e.log[1].iv, [], text)
  {
    hide Run, TokensIssued, KeysDiffer, ReadRand, MakeKeyPair, RequestPrk, ServerKey, MakeToken, BitAnd, Pow2,
         TokenBytes;
    var w := Run(c, before);
    var e := Negotiate(c, w.s, a.pub, a.response, a.x, a.iv, a.sealed1, a.sealed2);
    RunStep(c, before, a);
    NoSender(c, w, a);
    if e.response.Some? {
      assert w.log + e.log == w.log + [e.log[0]] + [e.log[1]];
      EncryptIsFirst(c, before, a, [e.log[0]], e.log[1]);
    }
  }

  /** The encryption of a reply is new, and is what is sent. */
  lemma RepliedOnce(c: Primitives, before: seq<Action>, a: Action)
    requires a.DoReply? && Ideal(c) && |before| + 1 < TWO64 && TokensIssued(c, before + [a])
    requires KeysDiffer(c, Run(c, before + [a]).log) && a.k < |Run(c, before).froms|
    ensures var r := ServerReply(c, Run(c, before).froms[a.k], a.data, a.size, a.iv, a.sealed, a.ocall);
            r.sent.Some? ==>
              && |r.log| == 1 && r.log[0].Encrypt? && NewNonce(Run(c, before).log, r.log[0].key, r.log[0].iv)
              && exists text :: r.sent.value == (r.log[0].iv, c.seal(r.log[0].key, r.log[0].iv, [], text))
  {
    hide Run, TokensIssued, KeysDiffer, ReplyIv, Zeros;
    var w := Run(c, before);
    var r := ServerReply(c, w.froms[a.k], a.data, a.size, a.iv, a.sealed, a.ocall);
    RunStep(c, before, a);
    if r.sent.Some? {
      assert w.log + r.log == w.log + [] + [r.log[0]];
      EncryptIsFirst(c, before, a, [], r.log[0]);
    }
  }

  lemma Calls(c: Primitives, w: World, a: Action)
    requires a.DoCall?
    ensures var e := ServerCall(c, w.s, a.h, a.header, a.data, a.tag, a.handled);
            && Step(c, w, a) == World(e.s, if e.from.Some? then w.froms + [e.from.value] else w.froms, w.log + e.log)
            && (e.from.Some? ==> |e.log| == 2 && e.log[1].Call? && e.log == [OnTable(Removed(e.log[1].id)), e.log[1]]
                                 && e.log[1].id == e.from.value.id)
  {
    hide OpenToken, OpenMessage, ServerKey, BitAnd, Pow2;
  }

  lemma NoSender(c: Primitives, w: World, a: Action)
    requires a.DoNegotiate?
    ensures var e := Negotiate(c, w.s, a.pub, a.response, a.x, a.iv, a.sealed1, a.sealed2);
            Step(c, w, a) == World(e.s, w.froms, w.log + e.log)
  {
    hide ReadRand, MakeKeyPair, RequestPrk, ServerKey, MakeToken, BitAnd, Pow2, TokenBytes;
  }
}
