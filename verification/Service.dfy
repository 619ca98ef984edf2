/**
 The contact discovery server: requests are decoded and queued while the batch is open, then all their
 phones are looked up in chunks and every request is answered with its own share of the results.
 */
module Service {
  import opened MachineWords
  import opened Options
  import LittleEndian
  import opened Crypto
  import opened Chains
  import opened Lookup
  import opened LookupRetry
  import opened Protocol

  const NONCE_SIZE: nat := 32
  const KEY_SIZE: nat := 32

  datatype ServiceError =
    | BadParameter | InvalidRequestSize | QueryMacMismatch | CommitmentMismatch
    | LookupFailed(st: SgxStatus) | ReplyFailed

  // Decoding.

  /** `query` is absent if its memory is not outside the enclave. */
  datatype CallArgs = CallArgs(phoneCount: u32, query: Option<Bytes>, iv: Bytes, mac: Bytes, commitment: Bytes)

  /** Eight bytes as a word of the machine, which is little-endian. */
  function DecodePhone(b: Bytes): Phone
    requires |b| == 8
  {
    LittleEndian.Window(b, 0);
    assert b[0..8] == b;
    LittleEndian.LE(b)
  }

  function DecodePhones(b: Bytes): (phones: seq<Phone>)
    ensures |phones| == |b| / 8
  {
    seq(|b| / 8, i requires 0 <= i < |b| / 8 => DecodePhone(b[8 * i..8 * i + 8]))
  }

  datatype Decoded = Refused(e: ServiceError) | Phones(phones: seq<Phone>)

  function DecodePhoneList(c: Primitives, args: CallArgs, key: Bytes): Decoded {
    if args.query.None? then Refused(BadParameter)
    else if |args.query.value| < NONCE_SIZE then Refused(InvalidRequestSize)
    else
      var len := |args.query.value| - NONCE_SIZE;
      if |key| != KEY_SIZE || len % 8 != 0 || len / 8 != args.phoneCount then Refused(InvalidRequestSize)
      else
        match c.open(key, args.iv, [], Sealed(args.query.value, args.mac))
        case None => Refused(QueryMacMismatch)
        case Some(text) =>
          if c.sha256(text) != args.commitment then Refused(CommitmentMismatch)
          else if |text| < NONCE_SIZE then Phones([])
          else Phones(DecodePhones(text[NONCE_SIZE..]))
  }

  function DecodeRequest(c: Primitives, args: CallArgs, key: Bytes, room: int): Decoded {
    if args.phoneCount == 0 || args.phoneCount > room then Refused(BadParameter) else DecodePhoneList(c, args, key)
  }

  /** The query is `text` sealed under the key, committed to, with as many phones as announced. */
  ghost predicate SealedQuery(c: Primitives, args: CallArgs, key: Bytes, text: Bytes) {
    && args.query.Some? && |key| == KEY_SIZE && |text| == NONCE_SIZE + 8 * args.phoneCount
    && Sealed(args.query.value, args.mac) == c.seal(key, args.iv, [], text)
    && c.sha256(text) == args.commitment
  }

  /** A request is accepted exactly when it fits and its query is what some text seals to, with the text's phones. */
  lemma AcceptedIff(c: Primitives, args: CallArgs, key: Bytes, room: int)
    requires Ideal(c)
    ensures DecodeRequest(c, args, key, room).Phones? <==>
              0 < args.phoneCount <= room && exists text :: SealedQuery(c, args, key, text)
    ensures DecodeRequest(c, args, key, room).Phones? ==> |DecodeRequest(c, args, key, room).phones| == args.phoneCount
  {
    hide DecodePhoneList, SealedQuery, Ideal;
    if text :| SealedQuery(c, args, key, text) {
      SealedAccepted(c, args, key, text);
    }
    if DecodePhoneList(c, args, key).Phones? {
      var text := AcceptedSealed(c, args, key);
    }
  }

  lemma SealedAccepted(c: Primitives, args: CallArgs, key: Bytes, text: Bytes)
    requires Ideal(c) && SealedQuery(c, args, key, text)
    ensures DecodePhoneList(c, args, key) == Phones(DecodePhones(text[NONCE_SIZE..]))
  {
    hide DecodePhones;
    var y := c.seal(key, args.iv, [], text);
    assert |y.data| == |text|;
    assert c.open(key, args.iv, [], y) == Some(text);
  }

  lemma AcceptedSealed(c: Primitives, args: CallArgs, key: Bytes) returns (text: Bytes)
    requires Ideal(c) && DecodePhoneList(c, args, key).Phones?
    ensures SealedQuery(c, args, key, text)
    ensures |DecodePhoneList(c, args, key).phones| == args.phoneCount
  {
    hide DecodePhones;
    var y := Sealed(args.query.value, args.mac);
    text := c.open(key, args.iv, [], y).value;
    assert y == c.seal(key, args.iv, [], text);
    assert |y.data| == |text|;
  }

  // The batch.

  /** A queued request: where its reply goes and how many of the queued phones are its own. */
  datatype Queued = Queued(from: From, count: u32)

  /** Where the phones of request i begin. */
  function Offset(requests: seq<Queued>, i: nat): nat
    requires i <= |requests|
  {
    if i == 0 then 0 else Offset(requests, i - 1) + requests[i - 1].count
  }

  lemma {:induction false} OffsetAppend(requests: seq<Queued>, q: Queued, i: nat)
    requires i <= |requests|
    ensures Offset(requests + [q], i) == Offset(requests, i)
    decreases i
  {
    if i > 0 {
      OffsetAppend(requests, q, i - 1);
    }
  }

  lemma {:induction false} OffsetGrows(requests: seq<Queued>, i: nat, j: nat)
    requires i <= j <= |requests|
    ensures Offset(requests, i) <= Offset(requests, j)
    decreases j
  {
    if i < j {
      OffsetGrows(requests, i, j - 1);
    }
  }

  type PhoneList = s: seq<Phone> | |s| < TWO32 witness []

  /** An accepted request with the phones it asked about. */
  datatype Accepted = Accepted(from: From, phones: PhoneList)

  ghost function RequestsOf(accepted: seq<Accepted>): (requests: seq<Queued>)
    ensures |requests| == |accepted|
  {
    seq(|accepted|, i requires 0 <= i < |accepted| => Queued(accepted[i].from, |accepted[i].phones|))
  }

  ghost function PhonesOf(accepted: seq<Accepted>): seq<Phone> {
    if accepted == [] then [] else PhonesOf(accepted[..|accepted| - 1]) + accepted[|accepted| - 1].phones
  }

  /** The phones between the offsets of a request are its own. */
  lemma {:induction false} OwnPhones(accepted: seq<Accepted>, i: nat)
    requires i < |accepted|
    ensures var o := Offset(RequestsOf(accepted), i);
            && Offset(RequestsOf(accepted), i + 1) == o + |accepted[i].phones| <= |PhonesOf(accepted)|
            && PhonesOf(accepted)[o..o + |accepted[i].phones|] == accepted[i].phones
    decreases |accepted|
  {
    hide RequestsOf, Offset;
    var n := |accepted| - 1;
    var init, a := accepted[..n], accepted[n];
    RequestsAppend(init, a);
    assert accepted == init + [a];
    var q := Queued(a.from, |a.phones|);
    if i < n {
      OwnPhones(init, i);
      OffsetAppend(RequestsOf(init), q, i);
      OffsetAppend(RequestsOf(init), q, i + 1);
    } else {
      OffsetTotal(init);
      OffsetAppend(RequestsOf(init), q, n);
      OffsetStep(RequestsOf(accepted), n);
    }
  }

  lemma OffsetStep(requests: seq<Queued>, i: nat)
    requires i < |requests|
    ensures Offset(requests, i + 1) == Offset(requests, i) + requests[i].count
  {
  }

  lemma RequestsAppend(accepted: seq<Accepted>, a: Accepted)
    ensures RequestsOf(accepted + [a]) == RequestsOf(accepted) + [Queued(a.from, |a.phones|)]
  {
  }

  lemma PhonesAppend(accepted: seq<Accepted>, a: Accepted)
    ensures PhonesOf(accepted + [a]) == PhonesOf(accepted) + a.phones
  {
    assert (accepted + [a])[..|accepted|] == accepted;
  }

  lemma {:induction false} OffsetTotal(accepted: seq<Accepted>)
    ensures Offset(RequestsOf(accepted), |accepted|) == |PhonesOf(accepted)|
  {
    hide RequestsOf, Offset;
    if accepted == [] {
      OffsetZero([]);
      assert RequestsOf([]) == [];
    } else {
      var n := |accepted| - 1;
      var init, a := accepted[..n], accepted[n];
      assert accepted == init + [a];
      OffsetTotal(init);
      RequestsAppend(init, a);
      OffsetAppend(RequestsOf(init), Queued(a.from, |a.phones|), n);
      OffsetStep(RequestsOf(accepted), n);
    }
  }

  lemma OffsetZero(requests: seq<Queued>)
    ensures Offset(requests, 0) == 0
  {
  }

  // Lookup in chunks.

  function Chunks(n: nat): nat { (n + MAX_HASH_TABLE_SIZE - 1) / MAX_HASH_TABLE_SIZE }

  function ChunkEnd(n: nat, k: nat): nat {
    if MAX_HASH_TABLE_SIZE * (k + 1) <= n then MAX_HASH_TABLE_SIZE * (k + 1) else n
  }

  function Chunk<T>(s: seq<T>, k: nat): seq<T>
    requires MAX_HASH_TABLE_SIZE * k <= |s|
  {
    s[MAX_HASH_TABLE_SIZE * k..ChunkEnd(|s|, k)]
  }

  /** The keys drawn for each chunk, one per attempt. */
  type Draw = ws: seq<Option<Phone -> u32>> | |ws| == ATTEMPTS witness seq(ATTEMPTS, _ => None)

  ghost predicate ChunkAnswered(out: seq<Uuid>, db: seq<Entry>, query: seq<Phone>, words: Draw) {
    exists i: nat :: SucceedsAt(query, words, i) && AllCorrect(out, db, query, AttemptKey(query, words[i].value))
  }

  /** Some attempt at the chunk does not overflow. */
  ghost predicate CanAnswer(query: seq<Phone>, words: Draw) { exists i: nat :: SucceedsAt(query, words, i) }

  ghost predicate AllAnswered(out: seq<Uuid>, db: seq<Entry>, query: seq<Phone>, words: seq<Draw>, n: nat)
    requires |out| == |query| && n <= |words| && MAX_HASH_TABLE_SIZE * (n - 1) <= |query|
  {
    forall k :: 0 <= k < n ==> ChunkAnswered(Chunk(out, k), db, Chunk(query, k), words[k])
  }

  method LookupChunk(db: seq<Entry>, query: seq<Phone>, words: Draw) returns (st: SgxStatus, out: seq<Uuid>)
    requires 0 < |query| <= MAX_HASH_TABLE_SIZE
    ensures st == SgxSuccess <==> CanAnswer(query, words)
    ensures st == SgxSuccess ==> |out| == |query| && ChunkAnswered(out, db, query, words)
    ensures st != SgxInvalidParameter
  {
    hide SucceedsAt, AllCorrect, AttemptKey;
    var results := new Uuid[|query|](_ => NoUuid);
    st := HashLookupRetry(db, query, results, words);
    out := results[..];
  }

  /** Chunks are not empty, not too long, and follow each other. */
  lemma ChunkBounds(n: nat)
    ensures forall k :: 0 <= k < Chunks(n) ==>
              && MAX_HASH_TABLE_SIZE * k < ChunkEnd(n, k) <= n
              && ChunkEnd(n, k) <= MAX_HASH_TABLE_SIZE * k + MAX_HASH_TABLE_SIZE
              && ChunkEnd(n, k) == if k + 1 < Chunks(n) then MAX_HASH_TABLE_SIZE * (k + 1) else n
    ensures Chunks(n) == 0 <==> n == 0
  {
  }

  /** Chunk k of a result of length n, as soon as it is there. */
  ghost function Part<T>(s: seq<T>, n: nat, k: nat): seq<T>
    requires MAX_HASH_TABLE_SIZE * k <= ChunkEnd(n, k) <= |s|
  {
    s[MAX_HASH_TABLE_SIZE * k..ChunkEnd(n, k)]
  }

  lemma SliceOfFront<T>(a: seq<T>, b: seq<T>, lo: nat, hi: nat)
    requires lo <= hi <= |a|
    ensures (a + b)[lo..hi] == a[lo..hi]
  {
  }

  method LookupAll(db: seq<Entry>, query: seq<Phone>, words: seq<Draw>) returns (st: SgxStatus, out: seq<Uuid>)
    requires |words| == Chunks(|query|)
    ensures st == SgxSuccess <==> forall k :: 0 <= k < |words| ==> CanAnswer(Chunk(query, k), words[k])
    ensures st == SgxSuccess ==> |out| == |query| && AllAnswered(out, db, query, words, |words|)
    ensures st != SgxInvalidParameter
  {
    hide ChunkAnswered, CanAnswer, Chunks, ChunkEnd;
    out := [];
    ChunkBounds(|query|);
    for k := 0 to Chunks(|query|)
      invariant |out| == if k < Chunks(|query|) then MAX_HASH_TABLE_SIZE * k else |query|
      invariant forall j :: 0 <= j < k ==> ChunkEnd(|query|, j) <= |query| && CanAnswer(Chunk(query, j), words[j])
      invariant forall j :: 0 <= j < k ==> ChunkAnswered(Part(out, |query|, j), db, Chunk(query, j), words[j])
    {
      assert ChunkEnd(|query|, k) <= |query|;
      var s, part := LookupChunk(db, Chunk(query, k), words[k]);
      if s != SgxSuccess {
        return s, [];
      }
      forall j | 0 <= j < k
        ensures Part(out + part, |query|, j) == Part(out, |query|, j)
      {
        SliceOfFront(out, part, MAX_HASH_TABLE_SIZE * j, ChunkEnd(|query|, j));
      }
      assert (out + part)[|out|..|out| + |part|] == part;
      out := out + part;
    }
    return SgxSuccess, out;
  }

  // Replies.

  function UuidBytes(u: Uuid): (b: Bytes)
    ensures |b| == 16
  {
    LittleEndian.Bytes(u.d0, 8) + LittleEndian.Bytes(u.d1, 8)
  }

  function UuidData(us: seq<Uuid>): (b: Bytes)
    ensures |b| == 16 * |us|
  {
    if us == [] then [] else UuidData(us[..|us| - 1]) + UuidBytes(us[|us| - 1])
  }

  lemma {:induction false} UuidDataAt(us: seq<Uuid>, i: nat)
    requires i < |us|
    ensures UuidData(us)[16 * i..16 * i + 16] == UuidBytes(us[i])
  {
    if i < |us| - 1 {
      UuidDataAt(us[..|us| - 1], i);
    }
  }

  /** What becomes of a request when the batch ends. */
  datatype Outcome = Replied(from: From, data: Bytes, ok: bool) | NoReply(from: From)

  /** The length of a reply is a 32-bit number. */
  predicate TooLong(q: Queued) { 16 * q.count as int >= TWO32 }

  /** All replies before request i were sent. */
  ghost predicate Reached(requests: seq<Queued>, sent: seq<bool>, i: nat)
    requires i <= |requests| <= |sent|
  {
    forall j :: 0 <= j < i ==> !TooLong(requests[j]) && sent[j]
  }

  /** The answers to the phones of request i. */
  function Share(requests: seq<Queued>, out: seq<Uuid>, i: nat): seq<Uuid>
    requires i < |requests| && Offset(requests, |requests|) == |out|
  {
    OffsetGrows(requests, i + 1, |requests|);
    out[Offset(requests, i)..Offset(requests, i + 1)]
  }

  ghost function OutcomeOf(requests: seq<Queued>, out: seq<Uuid>, sent: seq<bool>, i: nat): Outcome
    requires i < |requests| <= |sent| && Offset(requests, |requests|) == |out|
  {
    if !Reached(requests, sent, i) || TooLong(requests[i]) then NoReply(requests[i].from)
    else Replied(requests[i].from, UuidData(Share(requests, out, i)), sent[i])
  }

  /** Splits the results from the front; the first reply that fails drops the requests after it. */
  method ReplyAll(requests: seq<Queued>, out: seq<Uuid>, sent: seq<bool>) returns (ok: bool, outcomes: seq<Outcome>)
    requires |requests| == |sent| && Offset(requests, |requests|) == |out|
    ensures ok <==> Reached(requests, sent, |requests|)
    ensures |outcomes| == |requests| && forall i :: 0 <= i < |requests| ==> outcomes[i].from == requests[i].from
    ensures forall i :: 0 <= i < |requests| ==> outcomes[i] == OutcomeOf(requests, out, sent, i)
  {
    hide UuidData, TooLong;
    outcomes := [];
    ok := true;
    var rest := out;
    for i := 0 to |requests|
      invariant |outcomes| == i && ok == Reached(requests, sent, i)
      invariant ok ==> Offset(requests, i) <= |out| && rest == out[Offset(requests, i)..]
      invariant forall j :: 0 <= j < i ==> outcomes[j] == OutcomeOf(requests, out, sent, j)
    {
      if ok {
        OffsetGrows(requests, i + 1, |requests|);
        var mine := rest[..requests[i].count];
        assert mine == Share(requests, out, i);
        rest := rest[requests[i].count..];
        if TooLong(requests[i]) {
          outcomes := outcomes + [NoReply(requests[i].from)];
          ok := false;
        } else {
          outcomes := outcomes + [Replied(requests[i].from, UuidData(mine), sent[i])];
          ok := sent[i];
        }
      } else {
        outcomes := outcomes + [NoReply(requests[i].from)];
      }
    }
  }

  // The server.

  /** `db` is absent if its memory is not outside the enclave. */
  datatype StopArgs = StopArgs(phoneCount: u64, db: Option<seq<Entry>>)

  class Server {
    var requests: seq<Queued>
    var queryPhones: seq<Phone>
    const capacity: nat
    ghost var accepted: seq<Accepted>

    /** The queue is that of the requests accepted so far, and their phones fit. */
    ghost predicate Valid()
      reads this
    {
      requests == RequestsOf(accepted) && queryPhones == PhonesOf(accepted) && |queryPhones| <= capacity
    }

    constructor (capacity: nat)
      ensures Valid() && accepted == [] && this.capacity == capacity
    {
      this.capacity := capacity;
      requests, queryPhones, accepted := [], [], [];
    }

    method HandleCall(c: Primitives, args: Option<CallArgs>, msg: Bytes, from: From) returns (e: Option<ServiceError>)
      requires Ideal(c) && Valid()
      modifies this
      ensures Valid()
      ensures var d := if args.None? then Refused(BadParameter)
                       else DecodeRequest(c, args.value, msg, capacity - |old(queryPhones)|);
              match d
              case Refused(x) => e == Some(x) && accepted == old(accepted)
              case Phones(phones) =>
                e == None && |phones| < TWO32 && accepted == old(accepted) + [Accepted(from, phones)]
    {
      hide DecodeRequest, RequestsOf, PhonesOf;
      if args.None? {
        return Some(BadParameter);
      }
      AcceptedIff(c, args.value, msg, capacity - |queryPhones|);
      match DecodeRequest(c, args.value, msg, capacity - |queryPhones|)
      case Refused(x) => return Some(x);
      case Phones(phones) =>
        RequestsAppend(accepted, Accepted(from, phones));
        PhonesAppend(accepted, Accepted(from, phones));
        queryPhones := queryPhones + phones;
        requests := requests + [Queued(from, |phones|)];
        accepted := accepted + [Accepted(from, phones)];
        return None;
    }

    /** The arguments are usable and the sizes representable. */
    predicate Usable(args: Option<StopArgs>)
      reads this
    {
      args.Some? && 16 * args.value.phoneCount as int < TWO64 && args.value.db.Some? && 16 * |queryPhones| < TWO64
    }

    ghost predicate Lost(outcomes: seq<Outcome>)
      reads this
    {
      |outcomes| == |requests| && forall i :: 0 <= i < |requests| ==> outcomes[i] == NoReply(requests[i].from)
    }

    /** `sent` says which replies the host accepts. Every queued request has exactly one outcome. */
    method Terminate(args: Option<StopArgs>, words: seq<Draw>, sent: seq<bool>)
      returns (e: Option<ServiceError>, outcomes: seq<Outcome>, out: seq<Uuid>)
      requires Valid() && |words| == Chunks(|queryPhones|) && |sent| == |requests|
      ensures |outcomes| == |requests| && forall i :: 0 <= i < |requests| ==> outcomes[i].from == requests[i].from
      ensures !Usable(args) ==> e == Some(BadParameter) && Lost(outcomes)
      ensures Usable(args) && !(forall k :: 0 <= k < |words| ==> CanAnswer(Chunk(queryPhones, k), words[k])) ==>
                e == Some(LookupFailed(SgxUnexpected)) && Lost(outcomes)
      ensures Usable(args) && (forall k :: 0 <= k < |words| ==> CanAnswer(Chunk(queryPhones, k), words[k])) ==>
                && Offset(requests, |requests|) == |queryPhones|
                && |out| == |queryPhones| && AllAnswered(out, args.value.db.value, queryPhones, words, |words|)
                && (e == None <==> Reached(requests, sent, |requests|)) && (e.Some? ==> e.value == ReplyFailed)
                && |outcomes| == |requests|
                && forall i :: 0 <= i < |requests| ==> outcomes[i] == OutcomeOf(requests, out, sent, i)
    {
      hide CanAnswer, AllAnswered, OutcomeOf, Reached, RequestsOf, PhonesOf;
      OffsetTotal(accepted);
      var queued := requests;
      var lost := seq(|queued|, i requires 0 <= i < |queued| => NoReply(queued[i].from));
      if args.None? {
        return Some(BadParameter), lost, [];
      }
      if 8 * args.value.phoneCount as int >= TWO64 || 16 * args.value.phoneCount as int >= TWO64 {
        return Some(BadParameter), lost, [];
      }
      if args.value.db.None? {
        return Some(BadParameter), lost, [];
      }
      if 16 * |queryPhones| >= TWO64 {
        return Some(BadParameter), lost, [];
      }
      var st, found := LookupAll(args.value.db.value, queryPhones, words);
      if st != SgxSuccess {
        return Some(LookupFailed(st)), lost, [];
      }
      var ok, done := ReplyAll(requests, found, sent);
      return if ok then None else Some(ReplyFailed), done, found;
    }
  }
}
