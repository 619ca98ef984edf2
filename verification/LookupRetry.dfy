/** The caller of the lookup: sizes the tables, and retries with fresh keys on the same tables. */
module LookupRetry {
  import opened MachineWords
  import opened Options
  import opened Lanes
  import opened Chains
  import opened Lookup

  const MAX_HASH_TABLE_SIZE: nat := 8192
  const ATTEMPTS: nat := 128

  datatype SgxStatus = SgxSuccess | SgxInvalidParameter | SgxUnexpected

  /** The least power of two that is at least n and at least p. */
  function PowerFrom(n: nat, p: nat): nat
    requires p > 0
    decreases n - p
  {
    if n <= p then p else PowerFrom(n, 2 * p)
  }

  function NextPowerOfTwo(n: nat): nat { PowerFrom(n, 1) }

  lemma {:induction false} PowerFromIs(n: nat, k: nat) returns (j: nat)
    ensures PowerFrom(n, Pow2(k)) == Pow2(j) >= n && k <= j
    ensures j > k ==> Pow2(j) < 2 * n
    decreases n - Pow2(k)
  {
    if n <= Pow2(k) {
      j := k;
    } else {
      j := PowerFromIs(n, k + 1);
    }
  }

  /** Tables of up to 8192 slots are sizes the lookup accepts. */
  lemma TableSizeValid(n: nat)
    requires NextPowerOfTwo(n) <= MAX_HASH_TABLE_SIZE
    ensures ValidOrder(NextPowerOfTwo(n)) && n <= NextPowerOfTwo(n)
  {
    hide Pow2, PowerFrom, IsPowerOfTwo, TrailingZeros;
    assert Pow2(0) == 1 by { Pow2Zero(); }
    var j := PowerFromIs(n, 0);
    PowersAccepted(j);
    if j >= 32 {
      Pow2Grows(32, j);
      Pow2Literals();
    }
  }

  lemma TooLargeIff(n: nat)
    ensures NextPowerOfTwo(n) > MAX_HASH_TABLE_SIZE <==> n > MAX_HASH_TABLE_SIZE
  {
    hide Pow2, PowerFrom;
    Pow2Zero();
    Pow2Literals();
    var j := PowerFromIs(n, 0);
    if n <= MAX_HASH_TABLE_SIZE && j > 13 {
      Pow2Grows(14, j);
      Pow2One();
      Pow2Product(13, 1, 0x2000, 2);
    } else if j <= 13 {
      Pow2Grows(j, 13);
    }
  }

  /** The key of one attempt. */
  ghost function AttemptKey(query: seq<Phone>, word: Phone -> u32): Key {
    Key(word, TrailingZeros(NextPowerOfTwo(|query|)))
  }

  /** Attempt i succeeded, all before it overflowed. */
  ghost predicate SucceedsAt(query: seq<Phone>, words: seq<Option<Phone -> u32>>, i: nat) {
    && i < |words|
    && (forall j :: 0 <= j <= i ==> words[j].Some?)
    && !Overflows(AttemptKey(query, words[i].value), query, NextPowerOfTwo(|query|))
    && forall j :: 0 <= j < i ==> Overflows(AttemptKey(query, words[j].value), query, NextPowerOfTwo(|query|))
  }

  ghost predicate AllCorrect(out: seq<Uuid>, db: seq<Entry>, query: seq<Phone>, key: Key) {
    |out| == |query| && forall i :: 0 <= i < |query| ==> Correct(out[i], db, query, key, query[i])
  }

  /**
   `words` are the hashes of the keys drawn, one per attempt. One pair of tables serves all attempts:
   a failed attempt leaves its chains behind, and the next is right all the same.
   */
  method HashLookupRetry(db: seq<Entry>, query: seq<Phone>, out: array<Uuid>, words: seq<Option<Phone -> u32>>)
    returns (st: SgxStatus)
    requires |words| == ATTEMPTS
    modifies out
    ensures st == SgxInvalidParameter <==> |query| > MAX_HASH_TABLE_SIZE || (query != [] && out.Length != |query|)
    ensures st == SgxUnexpected <==>
              0 < |query| == out.Length <= MAX_HASH_TABLE_SIZE && !exists i: nat :: SucceedsAt(query, words, i)
    ensures st == SgxSuccess && query != [] ==>
              exists i: nat :: SucceedsAt(query, words, i)
                && AllCorrect(out[..], db, query, AttemptKey(query, words[i].value))
    ensures query == [] ==> st == SgxSuccess && out[..] == old(out[..])
  {
    hide NextPowerOfTwo, ValidOrder, Overflows, TrailingZeros, Correct, CleanVec;
    TooLargeIff(|query|);
    var size := NextPowerOfTwo(|query|);
    if size > MAX_HASH_TABLE_SIZE {
      return SgxInvalidParameter;
    }
    if query == [] {
      return SgxSuccess;
    }
    if out.Length != |query| {
      return SgxInvalidParameter;
    }
    for i := 0 to out.Length {
      out[i] := Uuid(ONES, ONES);
    }
    TableSizeValid(|query|);
    var slots := new Vec[size](_ => EmptySlot);
    var results := new SlotResult[size](_ => SlotResult(EmptySlot, EmptySlot));
    EmptyIsClean(results[..]);
    for attempt := 0 to ATTEMPTS
      invariant Clean(results[..])
      invariant forall j :: 0 <= j < attempt ==>
                  words[j].Some? && Overflows(AttemptKey(query, words[j].value), query, size)
    {
      var res := HashLookup(db, query, out, slots, results, words[attempt]);
      match res
      case Success =>
        assert SucceedsAt(query, words, attempt);
        assert AllCorrect(out[..], db, query, AttemptKey(query, words[attempt].value));
        return SgxSuccess;
      case InvalidParameter => return SgxUnexpected;
      case RdRand => return SgxUnexpected;
      case HashTableOverflow =>
    }
    return SgxUnexpected;
  }

  lemma EmptyIsClean(results: seq<SlotResult>)
    requires forall s :: 0 <= s < |results| ==> results[s] == SlotResult(EmptySlot, EmptySlot)
    ensures Clean(results)
  {
  }
}
