/**
 Properties of the request protocol over whole runs: any sequence of entry points and replies, in
 any order, with any inputs.
 */
module ProtocolRuns {
  import opened MachineWords
  import opened Options
  import opened Crypto
  import opened PendingRequests
  import opened Protocol

  /** The enclave, the sender records the server holds, and everything that has happened. */
  datatype World = World(s: State, froms: seq<From>, log: seq<Event>)

  datatype Action =
    | DoInit(inside: bool, order: Option<nat>, x1: Option<Bytes>, x2: Option<Bytes>, idKey: Option<Bytes>, memory: bool)
    | DoReport(report: bool, x: Option<Bytes>, created: bool)
    | DoQuote
    | DoNegotiate(pub: Option<Bytes>, response: bool, x: Option<Bytes>, iv: Option<Iv>, sealed1: bool, sealed2: bool)
    | DoStart(h: nat, init: Option<nat>)
    | DoCall(h: nat, header: Option<Header>, data: Option<Bytes>, tag: nat, handled: (Status, nat))
    | DoFingerprint(h: nat, header: Option<Header>, data: Option<Bytes>, result: Status)
    | DoStop(h: nat, terminated: Status)
    | DoReply(k: nat, data: Option<Bytes>, size: nat, iv: Option<Iv>, sealed: bool, ocall: Status)
    | DoNoReply(k: nat)

  function After(w: World, e: Effect): World {
    World(e.s, if e.from.Some? then w.froms + [e.from.value] else w.froms, w.log + e.log)
  }

  function Step(c: Primitives, w: World, a: Action): World {
    match a
    case DoInit(inside, order, x1, x2, idKey, memory) =>
      After(w, NodeInit(c, w.s, inside, order, x1, x2, idKey, memory))
    case DoReport(report, x, created) => After(w, GetNextReport(c, w.s, report, x, created))
    case DoQuote => After(w, SetCurrentQuote(w.s))
    case DoNegotiate(pub, response, x, iv, sealed1, sealed2) =>
      After(w, Negotiate(c, w.s, pub, response, x, iv, sealed1, sealed2))
    case DoStart(h, init) => After(w, ServerStart(w.s, h, init))
    case DoCall(h, header, data, tag, handled) => After(w, ServerCall(c, w.s, h, header, data, tag, handled))
    case DoFingerprint(h, header, data, result) => w
    case DoStop(h, terminated) => After(w, ServerStop(w.s, h, terminated))
    case DoReply(k, data, size, iv, sealed, ocall) =>
      if k >= |w.froms| then w
      else World(w.s, w.froms[k := NoFrom()], w.log + ServerReply(c, w.froms[k], data, size, iv, sealed, ocall).log)
    case DoNoReply(k) =>
      if k >= |w.froms| || !w.froms[k].valid then w else World(w.s, w.froms[k := NoFrom()], w.log)
  }

  ghost function Run(c: Primitives, actions: seq<Action>): World {
    if actions == [] then World(Starting(), [], [])
    else Step(c, Run(c, actions[..|actions| - 1]), actions[|actions| - 1])
  }

  lemma RunStep(c: Primitives, before: seq<Action>, a: Action)
    ensures Run(c, before + [a]) == Step(c, Run(c, before), a)
  {
    hide Step;
    assert (before + [a])[..|before|] == before;
  }

  // What the log says.

  ghost function TableLog(log: seq<Event>): seq<TableEvent> {
    if log == [] then []
    else
      var before, e := TableLog(log[..|log| - 1]), log[|log| - 1];
      if e.OnTable? then before + [e.e] else before
  }

  /** What an event makes of the state a server slot is running with. */
  ghost function Moves(now: Option<nat>, e: Event, h: nat): Option<nat> {
    if e.Init? && e.h == h then Some(e.ptr)
    else if e.Call? && e.h == h then Some(e.ptr')
    else if e.Terminate? && e.h == h then None
    else now
  }

  /** The state a server slot is running with, according to the callbacks so far. */
  ghost function Running(log: seq<Event>, h: nat): Option<nat> {
    if log == [] then None else Moves(Running(log[..|log| - 1], h), log[|log| - 1], h)
  }

  ghost function View(d: Desc): Option<nat> { if d.valid then Some(d.ptr) else None }

  /** A callback is made only in its place: init when idle, call and terminate with the running state. */
  ghost predicate Legal(before: seq<Event>, e: Event) {
    match e
    case Init(h, ptr) => Running(before, h) == None
    case Call(h, ptr, id, msg, ptr') => Running(before, h) == Some(ptr)
    case Terminate(h, ptr) => Running(before, h) == Some(ptr)
    case _ => true
  }

  ghost predicate OddIv(iv: Iv) { iv[0] % 2 == 1 }

  // The invariant.

  ghost predicate TableInv(w: World) {
    if w.s.initialized then Refines(w.s.table, TableLog(w.log))
    else w.log == [] && w.froms == [] && w.s.table.last == 0
  }

  ghost predicate KeyInv(c: Primitives, s: State) {
    s.initialized ==> Matched(c, s.keypair) && Matched(c, s.newKeypair)
  }

  ghost predicate SlotInv(w: World) {
    && |w.s.servers| == MAX_SERVERS
    && (forall h :: 0 <= h < MAX_SERVERS ==>
          Running(w.log, h) == View(w.s.servers[h]))
    && (forall i :: 0 <= i < |w.log| ==> Legal(w.log[..i], w.log[i]))
  }

  /** Each request reaches the server at most once, after it was consumed. */
  ghost predicate CallInv(log: seq<Event>) {
    && (forall e :: e in log && e.Call? ==> OnTable(Removed(e.id)) in log)
    && (forall i, j :: 0 <= i < j < |log| && log[i].Call? && log[j].Call? ==> log[i].id != log[j].id || log[i].id == 0)
  }

  /** The key of a request encrypts once under the zero IV and at most once under an odd one. */
  ghost predicate EncryptInv(c: Primitives, log: seq<Event>) {
    && (forall e :: e in log && e.Encrypt? && e.id != 0 ==>
          && (e.iv == ZeroIv() || (OddIv(e.iv) && OnTable(Removed(e.id)) in log))
          && exists prk :: OnTable(Added(e.id, prk)) in log && e.key == ServerKey(c, prk))
    && (forall i, j :: 0 <= i < j < |log| && log[i].Encrypt? && log[j].Encrypt? && log[i].id == log[j].id != 0 ==>
          log[i].iv == ZeroIv() && OddIv(log[j].iv))
  }

  /** A valid sender record is the only one for its request, and the request was not answered yet. */
  ghost predicate FromInv(c: Primitives, w: World) {
    && (forall k :: 0 <= k < |w.froms| && w.froms[k].valid && w.froms[k].id != 0 ==>
          && OnTable(Removed(w.froms[k].id)) in w.log
          && (exists prk :: OnTable(Added(w.froms[k].id, prk)) in w.log && w.froms[k].key == ServerKey(c, prk))
          && (forall e :: e in w.log && e.Encrypt? && e.id == w.froms[k].id ==> e.iv == ZeroIv()))
    && (forall k, l :: 0 <= k < l < |w.froms| && w.froms[k].valid && w.froms[l].valid ==>
          w.froms[k].id != w.froms[l].id || w.froms[k].id == 0)
  }

  ghost predicate Inv(c: Primitives, w: World) {
    TableInv(w) && KeyInv(c, w.s) && SlotInv(w) && CallInv(w.log) && EncryptInv(c, w.log) && FromInv(c, w)
  }

  // Appending one event.

  lemma TableLogAppend(log: seq<Event>, e: Event)
    ensures TableLog(log + [e]) == if e.OnTable? then TableLog(log) + [e.e] else TableLog(log)
  {
    assert (log + [e])[..|log|] == log;
  }

  lemma {:induction false} TableLogHas(log: seq<Event>)
    ensures forall x :: x in TableLog(log) <==> OnTable(x) in log
  {
    if log != [] {
      TableLogHas(log[..|log| - 1]);
      assert log == log[..|log| - 1] + [log[|log| - 1]];
    }
  }

  lemma RunningAppend(log: seq<Event>, e: Event, h: nat)
    ensures Running(log + [e], h) == Moves(Running(log, h), e, h)
  {
    assert (log + [e])[..|log|] == log;
  }

  /** Slots after an event: those of other handles are as they were. */
  lemma SlotStep(w: World, s': State, froms: seq<From>, e: Event)
    requires SlotInv(w) && |s'.servers| == MAX_SERVERS && Legal(w.log, e)
    requires forall h :: 0 <= h < MAX_SERVERS ==> View(s'.servers[h]) == Moves(View(w.s.servers[h]), e, h)
    ensures SlotInv(World(s', froms, w.log + [e]))
  {
    hide Running;
    var log := w.log + [e];
    forall h | 0 <= h < MAX_SERVERS
      ensures Running(log, h) == View(s'.servers[h])
    {
      RunningAppend(w.log, e, h);
    }
    forall i | 0 <= i < |log|
      ensures Legal(log[..i], log[i])
    {
      if i < |w.log| {
        assert log[..i] == w.log[..i];
      } else {
        assert log[..i] == w.log;
      }
    }
  }

  // One step at a time.

  lemma QuietStep(c: Primitives, w: World, s': State)
    requires Inv(c, w) && KeyInv(c, s') && s'.initialized == w.s.initialized
    requires s'.table == w.s.table && s'.servers == w.s.servers
    ensures Inv(c, World(s', w.froms, w.log))
  {
    hide Refines, Running, TableLog, Matched;
  }

  /** Neither calls nor encryptions change with the table. */
  lemma TableEvent(c: Primitives, w: World, s': State, e: Event)
    requires e.OnTable? && CallInv(w.log) && EncryptInv(c, w.log) && FromInv(c, w)
    ensures var w' := World(s', w.froms, w.log + [e]); CallInv(w'.log) && EncryptInv(c, w'.log) && FromInv(c, w')
  {
    hide ServerKey;
  }

  lemma AddStep(c: Primitives, w: World, s': State, prk: Bytes)
    requires Inv(c, w) && KeyInv(c, s') && w.s.initialized && s'.initialized && w.s.table.last < TWO64 - 1
    requires w.s.table.WellSized() && s'.table == w.s.table.Add(prk) && s'.servers == w.s.servers
    ensures Inv(c, World(s', w.froms, w.log + [OnTable(Added(w.s.table.last + 1, prk))]))
  {
    hide Refines, Running, TableLog, Matched, CallInv, EncryptInv, FromInv, ServerKey;
    var e := OnTable(Added(w.s.table.last + 1, prk));
    AddRefines(w.s.table, TableLog(w.log), prk);
    TableLogAppend(w.log, e);
    TableEvent(c, w, s', e);
    SlotStep(w, s', w.froms, e);
  }

  lemma RemoveStep(c: Primitives, w: World, s': State, id: u64)
    requires Inv(c, w) && KeyInv(c, s') && w.s.initialized && s'.initialized
    requires w.s.table.WellSized() && w.s.table.Found(id) && s'.table == w.s.table.Remove(id)
             && s'.servers == w.s.servers
    ensures Inv(c, World(s', w.froms, w.log + [OnTable(Removed(id))]))
  {
    hide Refines, Running, TableLog, Matched, CallInv, EncryptInv, FromInv, ServerKey;
    RemoveRefines(w.s.table, TableLog(w.log), id);
    TableLogAppend(w.log, OnTable(Removed(id)));
    TableEvent(c, w, s', OnTable(Removed(id)));
    SlotStep(w, s', w.froms, OnTable(Removed(id)));
  }

  /** The first use of a request's key, right after it was added. */
  lemma EncryptZeroStep(c: Primitives, w: World, id: u64, prk: Bytes)
    requires Inv(c, w) && w.s.initialized && id != 0 && OnTable(Added(id, prk)) in w.log
    requires forall e :: e in w.log && e.Encrypt? ==> e.id != id
    ensures Inv(c, World(w.s, w.froms, w.log + [Encrypt(id, ServerKey(c, prk), ZeroIv())]))
  {
    hide Refines, Running, TableLog, Matched, ServerKey;
    var e := Encrypt(id, ServerKey(c, prk), ZeroIv());
    TableLogAppend(w.log, e);
    SlotStep(w, w.s, w.froms, e);
  }

  lemma StartStep(c: Primitives, w: World, h: nat, ptr: nat)
    requires Inv(c, w) && w.s.initialized && h < MAX_SERVERS && !w.s.servers[h].valid
    ensures Inv(c, World(w.s.(servers := w.s.servers[h := Desc(true, ptr)]), w.froms, w.log + [Init(h, ptr)]))
  {
    hide Refines, Running, TableLog, Matched;
    TableLogAppend(w.log, Init(h, ptr));
    SlotStep(w, w.s.(servers := w.s.servers[h := Desc(true, ptr)]), w.froms, Init(h, ptr));
  }

  lemma StopStep(c: Primitives, w: World, h: nat)
    requires Inv(c, w) && w.s.initialized && h < MAX_SERVERS && w.s.servers[h].valid
    ensures Inv(c, World(w.s.(servers := w.s.servers[h := Desc(false, 0)]), w.froms,
                         w.log + [Terminate(h, w.s.servers[h].ptr)]))
  {
    hide Refines, Running, TableLog, Matched;
    var e := Terminate(h, w.s.servers[h].ptr);
    TableLogAppend(w.log, e);
    SlotStep(w, w.s.(servers := w.s.servers[h := Desc(false, 0)]), w.froms, e);
  }

  /** Nothing was done yet for this request: not called, not answered, no record. */
  ghost predicate Untouched(w: World, id: u64) {
    && (forall e :: e in w.log && e.Call? ==> e.id != id)
    && (forall e :: e in w.log && e.Encrypt? && e.id == id ==> e.iv == ZeroIv())
    && (forall k :: 0 <= k < |w.froms| && w.froms[k].valid ==> w.froms[k].id != id)
  }

  lemma CallStep(c: Primitives, w: World, h: nat, id: u64, msg: Bytes, ptr': nat, tag: nat, prk: Bytes)
    requires Inv(c, w) && w.s.initialized && h < MAX_SERVERS && w.s.servers[h].valid
    requires OnTable(Removed(id)) in w.log && (id != 0 ==> Untouched(w, id) && OnTable(Added(id, prk)) in w.log)
    ensures Inv(c, World(w.s.(servers := w.s.servers[h := Desc(true, ptr')]),
                         w.froms + [From(true, tag, ServerKey(c, prk), id)],
                         w.log + [Call(h, w.s.servers[h].ptr, id, msg, ptr')]))
  {
    hide Refines, Running, TableLog, Matched, ServerKey;
    var e := Call(h, w.s.servers[h].ptr, id, msg, ptr');
    TableLogAppend(w.log, e);
    SlotStep(w, w.s.(servers := w.s.servers[h := Desc(true, ptr')]),
             w.froms + [From(true, tag, ServerKey(c, prk), id)], e);
  }

  lemma EraseStep(c: Primitives, w: World, k: nat)
    requires Inv(c, w) && k < |w.froms|
    ensures Inv(c, World(w.s, w.froms[k := NoFrom()], w.log))
  {
    hide Refines, Running, TableLog, Matched, ServerKey, Zeros;
  }

  lemma ReplyStep(c: Primitives, w: World, k: nat, iv: Iv)
    requires Inv(c, w) && k < |w.froms| && w.froms[k].valid && OddIv(iv)
    ensures Inv(c, World(w.s, w.froms[k := NoFrom()], w.log + [Encrypt(w.froms[k].id, w.froms[k].key, iv)]))
  {
    hide Refines, Running, TableLog, Matched, ServerKey, Zeros;
    var e := Encrypt(w.froms[k].id, w.froms[k].key, iv);
    TableLogAppend(w.log, e);
    SlotStep(w, w.s, w.froms[k := NoFrom()], e);
  }

  // Whole entry points.

  lemma InitKeepsInv(c: Primitives, w: World, inside: bool, order: Option<nat>,
                     x1: Option<Bytes>, x2: Option<Bytes>, idKey: Option<Bytes>, memory: bool)
    requires Ideal(c) && Inv(c, w)
    ensures Inv(c, After(w, NodeInit(c, w.s, inside, order, x1, x2, idKey, memory)))
  {
    hide Refines, Running, TableLog, MakeKeyPair, ReadRand, EmptyTable, CallInv, EncryptInv, FromInv;
    var e := NodeInit(c, w.s, inside, order, x1, x2, idKey, memory);
    assert w.log + [] == w.log;
    if !w.s.initialized {
      if e.st == Ok {
        var r1 := ReadRand(c, w.s.randState, x1.value);
        GeneratedMatched(c, w.s.randState, x1.value);
        GeneratedMatched(c, r1.0, x2.value);
        EmptyRefines(order.value);
        EmptyLog();
        assert e.s.table == EmptyTable(order.value);
      }
      SameLog(c, w, e.s);
    }
  }

  lemma EmptyLog()
    ensures TableLog([]) == [] && forall order :: EmptyTable(order).last == 0 && EmptyTable(order).order == order
  {
  }

  lemma SameLog(c: Primitives, w: World, s': State)
    requires Inv(c, w) && w.log == [] && w.froms == [] && s'.servers == w.s.servers
    ensures CallInv([]) && EncryptInv(c, []) && FromInv(c, World(s', [], [])) && SlotInv(World(s', [], []))
  {
    hide Refines, Running, TableLog;
  }

  lemma NegotiateKeepsInv(c: Primitives, w: World, pub: Option<Bytes>, response: bool, x: Option<Bytes>, iv: Option<Iv>,
                          sealed1: bool, sealed2: bool)
    requires Ideal(c) && Inv(c, w) && w.s.table.last < TWO64 - 1
    ensures Inv(c, After(w, Negotiate(c, w.s, pub, response, x, iv, sealed1, sealed2)))
  {
    hide Refines, Running, TableLog, MakeKeyPair, ReadRand, RequestPrk, ServerKey, MakeToken, CallInv, EncryptInv,
         FromInv, SlotInv;
    var e := Negotiate(c, w.s, pub, response, x, iv, sealed1, sealed2);
    assert w.log + [] == w.log;
    if e.log != [] {
      var prk := e.log[0].e.prk;
      var id: u64 := w.s.table.last + 1;
      AddedTable(w.s.table, prk);
      AddStep(c, w, e.s, prk);
      var w1 := World(e.s, w.froms, w.log + [OnTable(Added(id, prk))]);
      if |e.log| == 2 {
        FreshId(c, w, id, prk);
        EncryptZeroStep(c, w1, id, prk);
        assert w.log + e.log == w1.log + [e.log[1]];
      }
    }
  }

  lemma AddedTable(t: Table, prk: Bytes)
    requires t.WellSized() && t.last < TWO64 - 1
    ensures t.Add(prk).last == t.last + 1
  {
    hide BitAnd, Pow2;
  }

  /** The id issued next has not been used for anything. */
  lemma FreshId(c: Primitives, w: World, id: u64, prk: Bytes)
    requires Inv(c, w) && w.s.initialized && id == w.s.table.last + 1
    ensures forall e :: e in w.log + [OnTable(Added(id, prk))] && e.Encrypt? ==> e.id != id
  {
    hide Running, TableLog, Matched, ServerKey;
    TableLogHas(w.log);
    forall e | e in w.log + [OnTable(Added(id, prk))] && e.Encrypt?
      ensures e.id != id
    {
      if e.id != 0 {
        var p :| OnTable(Added(e.id, p)) in w.log && e.key == ServerKey(c, p);
        assert Added(e.id, p) in TableLog(w.log);
      }
    }
  }

  /** A request still in the table was never called or answered. */
  lemma FoundUntouched(c: Primitives, w: World, id: u64)
    requires Inv(c, w) && w.s.initialized && w.s.table.Found(id) && id != 0
    ensures Untouched(w, id) && OnTable(Added(id, w.s.table.Get(id).prk)) in w.log && 1 <= id <= w.s.table.last
  {
    hide Running, Matched, ServerKey, BitAnd, Pow2, TableLog;
    TableLogHas(w.log);
    IndexInRange(w.s.table, id);
    assert InPlace(w.s.table, w.s.table.Index(id), id);
    assert Removed(id) !in TableLog(w.log);
  }

  lemma CallKeepsInv(c: Primitives, w: World, h: nat, header: Option<Header>, data: Option<Bytes>, tag: nat,
                     handled: (Status, nat))
    requires Ideal(c) && Inv(c, w)
    ensures Inv(c, After(w, ServerCall(c, w.s, h, header, data, tag, handled)))
  {
    hide Refines, Running, TableLog, ServerKey, CallInv, EncryptInv, FromInv, OpenMessage, OpenToken, Matched, KeyInv;
    var e := ServerCall(c, w.s, h, header, data, tag, handled);
    assert w.log + [] == w.log;
    if e.log != [] {
      var id := OpenToken(c, w.s.idKey, header.value.token).value;
      var prk := w.s.table.Get(id).prk;
      var s1 := w.s.(table := w.s.table.Remove(id));
      SameKeys(c, w.s, s1);
      if id != 0 {
        FoundUntouched(c, w, id);
      }
      RemoveStep(c, w, s1, id);
      var w1 := World(s1, w.froms, w.log + [OnTable(Removed(id))]);
      if |e.log| == 2 {
        CallStep(c, w1, h, id, e.log[1].msg, handled.1, tag, prk);
        assert w.log + e.log == w1.log + [e.log[1]];
      }
    }
  }

  lemma SameKeys(c: Primitives, s: State, s': State)
    requires KeyInv(c, s) && s'.keypair == s.keypair && s'.newKeypair == s.newKeypair && s'.initialized == s.initialized
    ensures KeyInv(c, s')
  {
    hide Matched;
  }

  lemma QuietKeepsInv(c: Primitives, w: World, a: Action)
    requires Ideal(c) && Inv(c, w) && (a.DoReport? || a.DoQuote?)
    ensures Inv(c, Step(c, w, a))
  {
    hide Inv, MakeKeyPair, ReadRand, TableInv, SlotInv, CallInv, EncryptInv, FromInv, Matched;
    InvHasKeys(c, w);
    var s' := Step(c, w, a).s;
    assert Step(c, w, a) == World(s', w.froms, w.log + []) && w.log + [] == w.log;
    if a.DoReport? && a.x.Some? {
      GeneratedMatched(c, w.s.randState, a.x.value);
    }
    QuietStep(c, w, s');
  }

  lemma InvHasKeys(c: Primitives, w: World)
    requires Inv(c, w)
    ensures KeyInv(c, w.s) && |w.s.servers| == MAX_SERVERS
  {
    hide KeyInv, TableInv, CallInv, EncryptInv, FromInv;
  }

  lemma StartStopKeepInv(c: Primitives, w: World, a: Action)
    requires Inv(c, w) && (a.DoStart? || a.DoStop?)
    ensures Inv(c, Step(c, w, a))
  {
    hide Inv, KeyInv;
    InvHasKeys(c, w);
    assert w.log + [] == w.log;
    if a.DoStart? && ServerStart(w.s, a.h, a.init).log != [] {
      StartStep(c, w, a.h, a.init.value);
    } else if a.DoStop? && ServerStop(w.s, a.h, a.terminated).log != [] {
      StopStep(c, w, a.h);
    }
  }

  lemma ReplyKeepsInv(c: Primitives, w: World, a: Action)
    requires Inv(c, w) && (a.DoReply? || a.DoNoReply?)
    ensures Inv(c, Step(c, w, a))
  {
    hide Inv, ReplyIv;
    if a.k < |w.froms| {
      assert w.log + [] == w.log;
      EraseStep(c, w, a.k);
      if a.DoReply? && a.iv.Some? && w.froms[a.k].valid {
        ReplyIvOdd(a.iv.value);
        ReplyStep(c, w, a.k, ReplyIv(a.iv.value));
      }
    }
  }

  lemma ReplyIvOdd(iv: Iv)
    ensures OddIv(ReplyIv(iv)) && ReplyIv(iv) != ZeroIv()
  {
    hide BitOr;
    OddByte(iv[0]);
  }

  /** Every step keeps the invariant, as long as the request counter has not run out. */
  lemma StepKeepsInv(c: Primitives, w: World, a: Action)
    requires Ideal(c) && Inv(c, w) && w.s.table.last < TWO64 - 1
    ensures Inv(c, Step(c, w, a))
  {
    hide Inv, NodeInit, Negotiate, ServerCall, GetNextReport, SetCurrentQuote, ServerStart, ServerStop, ServerReply;
    match a
    case DoInit(inside, order, x1, x2, idKey, memory) => InitKeepsInv(c, w, inside, order, x1, x2, idKey, memory);
    case DoReport(_, _, _) => QuietKeepsInv(c, w, a);
    case DoQuote => QuietKeepsInv(c, w, a);
    case DoNegotiate(pub, response, x, iv, sealed1, sealed2) =>
      NegotiateKeepsInv(c, w, pub, response, x, iv, sealed1, sealed2);
    case DoStart(_, _) => StartStopKeepInv(c, w, a);
    case DoCall(h, header, data, tag, handled) => CallKeepsInv(c, w, h, header, data, tag, handled);
    case DoFingerprint(_, _, _, _) =>
    case DoStop(_, _) => StartStopKeepInv(c, w, a);
    case DoReply(_, _, _, _, _, _) => ReplyKeepsInv(c, w, a);
    case DoNoReply(_) => ReplyKeepsInv(c, w, a);
  }

  lemma LastGrows(c: Primitives, w: World, a: Action)
    requires w.s.table.last < TWO64 - 1
    ensures w.s.table.last <= Step(c, w, a).s.table.last <= w.s.table.last + 1
  {
    hide Hmac, HkdfBlock, BitAnd, Pow2, Clamp, MakeKeyPair, ReadRand, RequestPrk, OpenToken, OpenMessage, MakeToken;
    EmptyLog();
  }

  /** Before the counter can run out, every reachable world satisfies the invariant. */
  lemma {:induction false} RunInv(c: Primitives, actions: seq<Action>)
    requires Ideal(c) && |actions| < TWO64
    ensures Inv(c, Run(c, actions)) && Run(c, actions).s.table.last <= |actions|
    decreases |actions|
  {
    hide Inv, Step;
    if actions == [] {
      StartingInv(c);
    } else {
      var before, a := actions[..|actions| - 1], actions[|actions| - 1];
      RunInv(c, before);
      StepKeepsInv(c, Run(c, before), a);
      LastGrows(c, Run(c, before), a);
    }
  }

  lemma StartingInv(c: Primitives)
    ensures Inv(c, World(Starting(), [], [])) && Starting().table.last == 0
  {
    hide Refines, Zeros;
  }

  // What follows for every run.

  /** The table is a map of the last 2^order ids: found exactly if issued, not consumed, not overwritten. */
  lemma FoundIff(c: Primitives, actions: seq<Action>, id: u64)
    requires Ideal(c) && |actions| < TWO64 && Run(c, actions).s.initialized
    requires 1 <= id <= Run(c, actions).s.table.last
    ensures var w := Run(c, actions);
            && w.s.table.WellSized()
            && (w.s.table.Found(id) <==>
                  OnTable(Removed(id)) !in w.log && w.s.table.last < id + Pow2(w.s.table.order))
            && (w.s.table.Found(id) ==> OnTable(Added(id, w.s.table.Get(id).prk)) in w.log)
  {
    hide Run, KeyInv, SlotInv, CallInv, EncryptInv, FromInv, TableLog, Pow2, BitAnd;
    RunInv(c, actions);
    TableLogHas(Run(c, actions).log);
  }

  /** Every nonzero entry is at its index and among the last 2^order issued, orphans included. */
  lemma EntriesInPlace(c: Primitives, actions: seq<Action>, i: nat)
    requires Ideal(c) && |actions| < TWO64 && Run(c, actions).s.initialized && i < |Run(c, actions).s.table.entries|
    ensures var t := Run(c, actions).s.table;
            t.entries[i].id != 0 ==>
              t.entries[i].id % Pow2(t.order) == i && t.entries[i].id <= t.last < t.entries[i].id + Pow2(t.order)
  {
    hide Run, KeyInv, SlotInv, CallInv, EncryptInv, FromInv, TableLog, Pow2;
    RunInv(c, actions);
    assert InPlace(Run(c, actions).s.table, i, Run(c, actions).s.table.entries[i].id);
  }

  // Tokens. Only the id zero, which an empty entry answers to, could come back, and no token carries it.

  /** A token that a call presents and that opens is one this run has issued. */
  ghost predicate Issued(c: Primitives, w: World, a: Action) {
    a.DoCall? && a.header.Some? ==>
      match OpenToken(c, w.s.idKey, a.header.value.token)
      case None => true
      case Some(id) => exists prk :: OnTable(Added(id, prk)) in w.log
  }

  ghost predicate TokensIssued(c: Primitives, actions: seq<Action>)
    decreases |actions|
  {
    actions == [] ||
      var n := |actions| - 1;
      TokensIssued(c, actions[..n]) && Issued(c, Run(c, actions[..n]), actions[n])
  }

  /** The id zero was never used. */
  ghost predicate NoZero(w: World) {
    && (forall e :: e in w.log && (e.Call? || e.Encrypt?) ==> e.id != 0)
    && (forall k :: 0 <= k < |w.froms| && w.froms[k].valid ==> w.froms[k].id != 0)
  }

  lemma AddedNonzero(c: Primitives, w: World, id: u64, prk: Bytes)
    requires Inv(c, w) && OnTable(Added(id, prk)) in w.log
    ensures id != 0
  {
    hide Running, Matched, ServerKey, BitAnd, Pow2, TableLog, KeyInv, SlotInv, CallInv, EncryptInv, FromInv;
    TableLogHas(w.log);
    assert Added(id, prk) in TableLog(w.log);
  }

  lemma CallNoZero(c: Primitives, w: World, a: Action)
    requires Inv(c, w) && NoZero(w) && a.DoCall? && Issued(c, w, a)
    ensures NoZero(Step(c, w, a))
  {
    hide Inv, ServerKey, OpenMessage, OpenToken, BitAnd, Pow2;
    var e := ServerCall(c, w.s, a.h, a.header, a.data, a.tag, a.handled);
    if e.log != [] {
      var id := OpenToken(c, w.s.idKey, a.header.value.token).value;
      var prk :| OnTable(Added(id, prk)) in w.log;
      AddedNonzero(c, w, id, prk);
    }
  }

  lemma NegotiateNoZero(c: Primitives, w: World, a: Action)
    requires NoZero(w) && w.s.table.last < TWO64 - 1 && a.DoNegotiate?
    ensures NoZero(Step(c, w, a))
  {
    hide MakeKeyPair, ReadRand, RequestPrk, ServerKey, MakeToken, BitAnd, Pow2, TokenBytes;
    var e := Negotiate(c, w.s, a.pub, a.response, a.x, a.iv, a.sealed1, a.sealed2);
    if e.log != [] {
      AddedTable(w.s.table, e.log[0].e.prk);
    }
  }

  lemma StepNoZero(c: Primitives, w: World, a: Action)
    requires Inv(c, w) && NoZero(w) && Issued(c, w, a) && w.s.table.last < TWO64 - 1
    ensures NoZero(Step(c, w, a))
  {
    hide Inv, Issued, MakeKeyPair, ReadRand, EmptyTable, ReplyIv, Zeros, Pow2, ServerCall, Negotiate;
    if a.DoCall? {
      CallNoZero(c, w, a);
    } else if a.DoNegotiate? {
      NegotiateNoZero(c, w, a);
    }
  }

  lemma {:induction false} RunNoZero(c: Primitives, actions: seq<Action>)
    requires Ideal(c) && |actions| < TWO64 && TokensIssued(c, actions)
    ensures NoZero(Run(c, actions))
    decreases |actions|
  {
    hide Inv, Step, Issued;
    if actions != [] {
      var before, a := actions[..|actions| - 1], actions[|actions| - 1];
      RunNoZero(c, before);
      RunInv(c, before);
      StepNoZero(c, Run(c, before), a);
    }
  }

  /** No request reaches the server twice, if every token presented was issued; the id zero aside, in any case. */
  lemma CalledAtMostOnce(c: Primitives, actions: seq<Action>, i: nat, j: nat)
    requires Ideal(c) && |actions| < TWO64 && i < j < |Run(c, actions).log|
    requires Run(c, actions).log[i].Call? && Run(c, actions).log[j].Call?
    requires TokensIssued(c, actions) || Run(c, actions).log[i].id != 0
    ensures Run(c, actions).log[i].id != Run(c, actions).log[j].id
  {
    hide Run, TableInv, KeyInv, SlotInv, EncryptInv, FromInv, TokensIssued;
    RunInv(c, actions);
    if TokensIssued(c, actions) {
      RunNoZero(c, actions);
      assert Run(c, actions).log[i] in Run(c, actions).log;
    }
  }

  /** A call consumes its request whatever becomes of the message. */
  lemma CallConsumes(c: Primitives, s: State, h: nat, header: Header, data: Bytes, tag: nat, handled: (Status, nat),
                     id: u64)
    requires CallChecks(s, h, Some(header), Some(data)) == Ok
    requires OpenToken(c, s.idKey, header.token) == Some(id) && s.table.Found(id) && id != 0
    ensures var e := ServerCall(c, s, h, Some(header), Some(data), tag, handled);
            && e.s.table.WellSized() && !e.s.table.Found(id)
            && e.log != [] && e.log[0] == OnTable(Removed(id))
            && (OpenMessage(c, s.table.Get(id).prk, header, data) == None ==> e.st == MacMismatch && e.from == None)
  {
    hide OpenToken, OpenMessage, BitAnd, Pow2, ServerKey;
    IndexInRange(s.table, id);
    IndexInRange(s.table.Remove(id), id);
  }

  /** A fingerprint sees exactly the message the call will deliver, and the call is still to come. */
  lemma FingerprintForesees(c: Primitives, s: State, h: nat, header: Option<Header>, data: Option<Bytes>,
                            result: Status, tag: nat, handled: (Status, nat))
    ensures var f, e := Fingerprint(c, s, h, header, data, result), ServerCall(c, s, h, header, data, tag, handled);
            && (f.1.Some? <==> e.from.Some?)
            && (f.1.Some? ==> |e.log| == 2 && e.log[1].Call? && e.log[1].msg == f.1.value)
            && (f.1.None? ==> f.0 == e.st)
  {
    hide OpenToken, OpenMessage, BitAnd, Pow2, ServerKey;
  }

  /** Callbacks of a handle come as init, calls, terminate: each with the state the last one left. */
  lemma CallbacksInOrder(c: Primitives, actions: seq<Action>, i: nat)
    requires Ideal(c) && |actions| < TWO64 && i < |Run(c, actions).log|
    ensures Legal(Run(c, actions).log[..i], Run(c, actions).log[i])
  {
    hide Run, TableInv, KeyInv, CallInv, EncryptInv, FromInv, Running;
    RunInv(c, actions);
  }

  /** Whatever the rotations, the key pairs in use are clamped and matched. */
  lemma KeyPairsMatched(c: Primitives, actions: seq<Action>)
    requires Ideal(c) && |actions| < TWO64 && Run(c, actions).s.initialized
    ensures Matched(c, Run(c, actions).s.keypair) && Matched(c, Run(c, actions).s.newKeypair)
  {
    hide Run, TableInv, SlotInv, CallInv, EncryptInv, FromInv, Matched;
    RunInv(c, actions);
  }

  /** Different requests derive different server keys. */
  ghost predicate KeysDiffer(c: Primitives, log: seq<Event>) {
    forall a, b, p, q :: OnTable(Added(a, p)) in log && OnTable(Added(b, q)) in log && a != b ==>
      ServerKey(c, p) != ServerKey(c, q)
  }

  /** No server key is ever used twice with the same IV. */
  lemma NonceUnique(c: Primitives, actions: seq<Action>, i: nat, j: nat)
    requires Ideal(c) && |actions| < TWO64 && i < j < |Run(c, actions).log| && KeysDiffer(c, Run(c, actions).log)
    requires Run(c, actions).log[i].Encrypt? && Run(c, actions).log[j].Encrypt?
    requires TokensIssued(c, actions) || (Run(c, actions).log[i].id != 0 && Run(c, actions).log[j].id != 0)
    requires Run(c, actions).log[i].key == Run(c, actions).log[j].key
    ensures Run(c, actions).log[i].iv == ZeroIv() && OddIv(Run(c, actions).log[j].iv)
    ensures Run(c, actions).log[i].iv != Run(c, actions).log[j].iv
  {
    hide Run, TableInv, KeyInv, SlotInv, CallInv, FromInv, ServerKey, TokensIssued;
    RunInv(c, actions);
    var log := Run(c, actions).log;
    assert log[i] in log && log[j] in log;
    if TokensIssued(c, actions) {
      RunNoZero(c, actions);
    }
    var p :| OnTable(Added(log[i].id, p)) in log && log[i].key == ServerKey(c, p);
    var q :| OnTable(Added(log[j].id, q)) in log && log[j].key == ServerKey(c, q);
  }

  /** Each request's key is used at most twice: once to negotiate, once to reply. */
  lemma KeyUsedTwiceAtMost(c: Primitives, actions: seq<Action>, i: nat, j: nat, k: nat)
    requires Ideal(c) && |actions| < TWO64 && i < j < k < |Run(c, actions).log|
    requires Run(c, actions).log[i].Encrypt? && Run(c, actions).log[j].Encrypt? && Run(c, actions).log[k].Encrypt?
    requires Run(c, actions).log[i].id == Run(c, actions).log[j].id
    requires TokensIssued(c, actions) || Run(c, actions).log[i].id != 0
    ensures Run(c, actions).log[k].id != Run(c, actions).log[j].id
  {
    hide Run, TableInv, KeyInv, SlotInv, CallInv, FromInv, ServerKey, TokensIssued;
    RunInv(c, actions);
    if TokensIssued(c, actions) {
      RunNoZero(c, actions);
      assert Run(c, actions).log[i] in Run(c, actions).log;
    }
  }

  // The same, seen from one step.

  /** A request that is handed to the server now was not handed to it before. */
  lemma CallIsFirst(c: Primitives, actions: seq<Action>, a: Action, e: Event)
    requires Ideal(c) && |actions| + 1 < TWO64 && TokensIssued(c, actions + [a])
    requires e.Call? && Run(c, actions + [a]).log == Run(c, actions).log + [OnTable(Removed(e.id)), e]
    ensures forall d :: d in Run(c, actions).log && d.Call? ==> d.id != e.id
  {
    hide Run, TokensIssued;
    var old', new' := Run(c, actions).log, Run(c, actions + [a]).log;
    forall i | 0 <= i < |old'| && old'[i].Call?
      ensures old'[i].id != e.id
    {
      assert new'[i] == old'[i] && new'[|old'| + 1] == e;
      CalledAtMostOnce(c, actions + [a], i, |old'| + 1);
    }
  }

  /** A key that encrypts now did not encrypt under this IV before. */
  lemma EncryptIsFirst(c: Primitives, actions: seq<Action>, a: Action, prefix: seq<Event>, e: Event)
    requires Ideal(c) && |actions| + 1 < TWO64 && TokensIssued(c, actions + [a])
    requires e.Encrypt? && Run(c, actions + [a]).log == Run(c, actions).log + prefix + [e]
    requires KeysDiffer(c, Run(c, actions + [a]).log)
    ensures forall d :: d in Run(c, actions).log && d.Encrypt? && d.key == e.key ==> d.iv != e.iv
  {
    hide Run, TokensIssued, KeysDiffer;
    var old', new' := Run(c, actions).log, Run(c, actions + [a]).log;
    forall i | 0 <= i < |old'| && old'[i].Encrypt? && old'[i].key == e.key
      ensures old'[i].iv != e.iv
    {
      assert new'[i] == old'[i] && new'[|new'| - 1] == e;
      NonceUnique(c, actions + [a], i, |new'| - 1);
    }
  }

  /** The one id an empty table answers to is zero, which is never issued before the counter wraps. */
  lemma ZeroFoundIffEmpty(t: Table)
    requires t.WellSized() && |t.entries| > 0
    ensures t.Found(0) <==> t.entries[0].id == 0
    ensures t.last < TWO64 - 1 ==> t.Add([]).last != 0
  {
    hide BitAnd, Pow2;
    IndexInRange(t, 0);
    RemainderIs(0, Pow2(t.order), 0, 0);
    AddedTableAny(t);
  }

  lemma AddedTableAny(t: Table)
    requires t.WellSized()
    ensures t.last < TWO64 - 1 ==> t.Add([]).last == t.last + 1
  {
    hide BitAnd, Pow2;
  }
}
