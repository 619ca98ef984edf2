/**
 The oblivious lookup: build the chains of all slots from the query, stream the whole database
 through them, collect the answers lane by lane, and erase the result tables.
 */
module Lookup {
  import opened MachineWords
  import opened Options
  import opened Lanes
  import opened Chains

  datatype Uuid = Uuid(d0: u64, d1: u64)

  const NoUuid: Uuid := Uuid(0, 0)

  datatype Entry = Entry(phone: Phone, uuid: Uuid)

  /** Result lanes of a slot, one vector for each half of a UUID. */
  datatype SlotResult = SlotResult(lo: Vec, hi: Vec)

  datatype Status = Success | InvalidParameter | RdRand | HashTableOverflow

  // What a lookup is meant to return.

  /** The UUID of the last database entry for a phone, or zero. */
  function LastUuid(db: seq<Entry>, p: Phone): Uuid {
    if db == [] then NoUuid
    else if db[|db| - 1].phone == p then db[|db| - 1].uuid
    else LastUuid(db[..|db| - 1], p)
  }

  /** The answer for one phone of a query: its UUID if it found a lane, otherwise zero. */
  function Answer(db: seq<Entry>, ab: seq<Phone>, key: Key, p: Phone): Uuid {
    if p in Kept(key, key.Slot(p), ab) then LastUuid(db, p) else NoUuid
  }

  // One database entry.

  function PassLane(r: u64, word: u64, p: Phone, lane: u64, i: nat): u64 {
    Blend(Xor(r, DummyMask(i)), word, Or(p, DummyMask(i)), lane)
  }

  function PassVec(r: Vec, word: u64, p: Phone, slot: Vec): Vec {
    seq(16, i requires 0 <= i < 16 => PassLane(r[i], word, p, slot[i], i))
  }

  function PassEntry(r: SlotResult, slot: Vec, e: Entry): SlotResult {
    SlotResult(PassVec(r.lo, e.uuid.d0, e.phone, slot), PassVec(r.hi, e.uuid.d1, e.phone, slot))
  }

  /** A usable lane takes the word of a matching entry; a dummy lane is flipped whatever the entry. */
  lemma PassLaneIs(r: u64, word: u64, p: Phone, lane: u64, i: nat)
    ensures !Dummy(i) ==> PassLane(r, word, p, lane, i) == if p == lane then word else r
    ensures Dummy(i) && lane == 0 ==> PassLane(r, word, p, lane, i) == Xor(r, ONES)
    ensures Dummy(i) && lane == 0 && AllOrNothing(r) ==> AllOrNothing(PassLane(r, word, p, lane, i))
  {
    hide Blend, BitOr, BitXor, BitAnd;
    BlendIs(Xor(r, DummyMask(i)), word, Or(p, DummyMask(i)), lane);
    DummyWord(r);
    DummyWord(p);
  }

  /** The database in order, each entry against the slot it hashes to. */
  ghost function PassDb(results: seq<SlotResult>, slots: seq<Vec>, key: Key, db: seq<Entry>): (r: seq<SlotResult>)
    requires |results| == |slots| == Pow2(key.order)
    ensures |r| == |results|
  {
    if db == [] then results
    else
      var r, e := PassDb(results, slots, key, db[..|db| - 1]), db[|db| - 1];
      SlotIs(key, e.phone);
      var s := key.Slot(e.phone);
      r[s := PassEntry(r[s], slots[s], e)]
  }

  // The database pass, in blocks of four with prefetching, then the tail.

  const CACHE_LINE_PHONES: nat := 4
  const CACHE_LINE_UUIDS: nat := 2
  const PREFETCH_PHONES_DIST: nat := 8

  /** Touches entries ahead of the pass; the bound is the stated safety condition. */
  method PrefetchUnchecked(db: seq<Entry>, index: nat)
    requires index + CACHE_LINE_UUIDS <= |db|
  {
  }

  method HashPhone(e: Entry, key: Key, slots: array<Vec>, results: array<SlotResult>)
    requires slots.Length == results.Length == Pow2(key.order)
    modifies results
    ensures key.Slot(e.phone) < slots.Length
    ensures var s := key.Slot(e.phone); results[..] == old(results[..])[s := PassEntry(old(results[s]), slots[s], e)]
  {
    hide PassEntry, BitAnd, Pow2;
    SlotIs(key, e.phone);
    var s := key.Slot(e.phone);
    results[s] := PassEntry(results[s], slots[s], e);
  }

  lemma PassDbStep(results: seq<SlotResult>, slots: seq<Vec>, key: Key, db: seq<Entry>, n: nat)
    requires |results| == |slots| == Pow2(key.order) && n < |db|
    ensures key.Slot(db[n].phone) < |slots|
    ensures var r, s := PassDb(results, slots, key, db[..n]), key.Slot(db[n].phone);
            PassDb(results, slots, key, db[..n + 1]) == r[s := PassEntry(r[s], slots[s], db[n])]
  {
    hide PassEntry, BitAnd, Pow2;
    SlotIs(key, db[n].phone);
    assert db[..n + 1][..n] == db[..n];
  }

  method ConstructHash(db: seq<Entry>, key: Key, slots: array<Vec>, results: array<SlotResult>)
    requires slots.Length == results.Length == Pow2(key.order)
    modifies results
    ensures results[..] == PassDb(old(results[..]), slots[..], key, db)
  {
    hide PassDb, BitAnd, Pow2, PassEntry;
    ghost var start, chains := results[..], slots[..];
    PassDbStart(start, chains, key, db);
    var n := 0;
    while n + PREFETCH_PHONES_DIST + CACHE_LINE_PHONES < |db|
      invariant n <= |db| && slots[..] == chains
      invariant results[..] == PassDb(start, chains, key, db[..n])
    {
      PrefetchUnchecked(db, n + PREFETCH_PHONES_DIST);
      for k := n to n + CACHE_LINE_PHONES
        invariant slots[..] == chains && results[..] == PassDb(start, chains, key, db[..k])
      {
        PassDbStep(start, chains, key, db, k);
        HashPhone(db[k], key, slots, results);
      }
      n := n + CACHE_LINE_PHONES;
    }
    for k := n to |db|
      invariant slots[..] == chains && results[..] == PassDb(start, chains, key, db[..k])
    {
      PassDbStep(start, chains, key, db, k);
      HashPhone(db[k], key, slots, results);
    }
  }

  lemma PassDbStart(results: seq<SlotResult>, slots: seq<Vec>, key: Key, db: seq<Entry>)
    requires |results| == |slots| == Pow2(key.order)
    ensures PassDb(results, slots, key, db[..0]) == results && db[..|db|] == db
  {
  }

  // What the lanes hold after the pass.

  ghost predicate CleanVec(r: Vec) {
    forall i :: 0 <= i < 16 ==> if Dummy(i) then AllOrNothing(r[i]) else r[i] == 0
  }

  /** Between lookups: usable result lanes are zero, dummy lanes all zeros or all ones. */
  ghost predicate Clean(results: seq<SlotResult>) {
    forall s :: 0 <= s < |results| ==> CleanVec(results[s].lo) && CleanVec(results[s].hi)
  }

  ghost predicate DummiesZero(slots: seq<Vec>) {
    forall s, i :: 0 <= s < |slots| && 0 <= i < 16 && Dummy(i) ==> slots[s][i] == 0
  }

  /** What a result lane must hold for the phone in the lane of slot s. */
  ghost function Found(db: seq<Entry>, key: Key, s: nat, v: Phone): Uuid {
    if key.Slot(v) == s then LastUuid(db, v) else NoUuid
  }

  ghost predicate Matched(r: SlotResult, slot: Vec, db: seq<Entry>, key: Key, s: nat) {
    forall i :: 0 <= i < 16 ==>
      if Dummy(i) then AllOrNothing(r.lo[i]) && AllOrNothing(r.hi[i])
      else r.lo[i] == Found(db, key, s, slot[i]).d0 && r.hi[i] == Found(db, key, s, slot[i]).d1
  }

  /** Every lane ends up with the last match of its phone, never with another phone's UUID. */
  lemma {:induction false} PassDbMatches(results: seq<SlotResult>, slots: seq<Vec>, key: Key, db: seq<Entry>, s: nat)
    requires |results| == |slots| == Pow2(key.order) && s < |slots| && Clean(results) && DummiesZero(slots)
    ensures Matched(PassDb(results, slots, key, db)[s], slots[s], db, key, s)
    decreases |db|
  {
    hide PassEntry, BitAnd, Pow2, PassDb, Matched;
    if db == [] {
      PassDbStart(results, slots, key, db);
      assert db[..0] == db;
      MatchedInitially(results[s], slots[s], key, s);
    } else {
      var n := |db| - 1;
      var before, e := db[..n], db[n];
      PassDbMatches(results, slots, key, before, s);
      PassDbStep(results, slots, key, db, n);
      assert db[..n + 1] == db && db == before + [e];
      var r := PassDb(results, slots, key, before)[s];
      if key.Slot(e.phone) == s {
        MatchedHit(r, slots[s], before, key, s, e);
      } else {
        MatchedElsewhere(r, slots[s], before, key, s, e);
      }
    }
  }

  lemma MatchedInitially(r: SlotResult, slot: Vec, key: Key, s: nat)
    requires CleanVec(r.lo) && CleanVec(r.hi)
    ensures Matched(r, slot, [], key, s)
  {
    hide BitAnd, Pow2;
  }

  lemma LastUuidStep(db: seq<Entry>, e: Entry, v: Phone)
    ensures LastUuid(db + [e], v) == if e.phone == v then e.uuid else LastUuid(db, v)
  {
    assert (db + [e])[..|db|] == db;
  }

  lemma MatchedHit(r: SlotResult, slot: Vec, db: seq<Entry>, key: Key, s: nat, e: Entry)
    requires Matched(r, slot, db, key, s) && key.Slot(e.phone) == s
    requires forall i :: 0 <= i < 16 && Dummy(i) ==> slot[i] == 0
    ensures Matched(PassEntry(r, slot, e), slot, db + [e], key, s)
  {
    hide BitAnd, Pow2, PassLane, LastUuid;
    forall i | 0 <= i < 16
      ensures if Dummy(i) then AllOrNothing(PassEntry(r, slot, e).lo[i]) && AllOrNothing(PassEntry(r, slot, e).hi[i])
              else PassEntry(r, slot, e).lo[i] == Found(db + [e], key, s, slot[i]).d0
                   && PassEntry(r, slot, e).hi[i] == Found(db + [e], key, s, slot[i]).d1
    {
      PassLaneIs(r.lo[i], e.uuid.d0, e.phone, slot[i], i);
      PassLaneIs(r.hi[i], e.uuid.d1, e.phone, slot[i], i);
      LastUuidStep(db, e, slot[i]);
    }
  }

  lemma MatchedElsewhere(r: SlotResult, slot: Vec, db: seq<Entry>, key: Key, s: nat, e: Entry)
    requires Matched(r, slot, db, key, s) && key.Slot(e.phone) != s
    ensures Matched(r, slot, db + [e], key, s)
  {
    hide BitAnd, Pow2, LastUuid;
    forall i | 0 <= i < 16
      ensures Found(db + [e], key, s, slot[i]) == Found(db, key, s, slot[i])
    {
      LastUuidStep(db, e, slot[i]);
    }
  }

  // Collecting.

  /** `slot & non_dummy_mask`: dummy lanes read as zero. */
  function Visible(slot: Vec, i: nat): nat
    requires i < 16
  {
    BitAnd(slot[i], if Dummy(i) then 0 else ONES)
  }

  lemma VisibleIs(slot: Vec, i: nat)
    requires i < 16
    ensures Visible(slot, i) == if Dummy(i) then 0 else slot[i]
  {
    hide BitAnd, BitOr, BitXor;
    DummyWord(slot[i]);
  }

  /** Lane l of the four blocks, blended in block order. */
  function CollectLane(r: Vec, slot: Vec, p: Phone, l: nat): u64
    requires l < 4
  {
    VisibleIs(slot, l); VisibleIs(slot, 4 + l); VisibleIs(slot, 8 + l); VisibleIs(slot, 12 + l);
    var b0 := Blend(0, r[l], p, Visible(slot, l));
    var b1 := Blend(b0, r[4 + l], p, Visible(slot, 4 + l));
    var b2 := Blend(b1, r[8 + l], p, Visible(slot, 8 + l));
    Blend(b2, r[12 + l], p, Visible(slot, 12 + l))
  }

  function Collect(r: Vec, slot: Vec, p: Phone): u64 {
    Or(Or(Or(CollectLane(r, slot, p, 0), CollectLane(r, slot, p, 1)), CollectLane(r, slot, p, 2)),
       CollectLane(r, slot, p, 3))
  }

  ghost predicate Holds(slot: Vec, p: Phone) { exists i :: 0 <= i < 16 && Visible(slot, i) == p }

  lemma CollectLaneIs(r: Vec, slot: Vec, p: Phone, w: u64, l: nat)
    requires l < 4
    requires forall i :: 0 <= i < 16 && i % 4 == l && Visible(slot, i) == p ==> r[i] == w
    ensures CollectLane(r, slot, p, l)
         == if Visible(slot, l) == p || Visible(slot, 4 + l) == p || Visible(slot, 8 + l) == p
              || Visible(slot, 12 + l) == p
            then w else 0
  {
    hide Blend, Visible;
    VisibleIs(slot, l); VisibleIs(slot, 4 + l); VisibleIs(slot, 8 + l); VisibleIs(slot, 12 + l);
    var b0 := Blend(0, r[l], p, Visible(slot, l));
    var b1 := Blend(b0, r[4 + l], p, Visible(slot, 4 + l));
    var b2 := Blend(b1, r[8 + l], p, Visible(slot, 8 + l));
    BlendIs(0, r[l], p, Visible(slot, l));
    BlendIs(b0, r[4 + l], p, Visible(slot, 4 + l));
    BlendIs(b1, r[8 + l], p, Visible(slot, 8 + l));
    BlendIs(b2, r[12 + l], p, Visible(slot, 12 + l));
  }

  /** When all lanes showing p agree on w, the collected word is w, not a mixture. */
  lemma CollectIs(r: Vec, slot: Vec, p: Phone, w: u64)
    requires forall i :: 0 <= i < 16 && Visible(slot, i) == p ==> r[i] == w
    ensures Collect(r, slot, p) == if Holds(slot, p) then w else 0
  {
    hide CollectLane, Visible, BitOr;
    CollectLaneIs(r, slot, p, w, 0);
    CollectLaneIs(r, slot, p, w, 1);
    CollectLaneIs(r, slot, p, w, 2);
    CollectLaneIs(r, slot, p, w, 3);
    OrSelf(w);
    OrSelf(0);
    if !Holds(slot, p) {
      NoLane(slot, p);
    }
  }

  lemma NoLane(slot: Vec, p: Phone)
    requires !Holds(slot, p)
    ensures forall i :: 0 <= i < 16 ==> Visible(slot, i) != p
  {
    hide Visible;
  }

  // The chains as written to the table.

  ghost predicate Sealed(v: Vec, key: Key, s: nat, ab: seq<Phone>) {
    var n, d := Inserts(key, s, ab), FirstSeen(key, s, ab);
    forall i :: 0 <= i < 16 ==>
      if Dummy(i) then v[i] == 0
      else if Rank(i) < n then 0 <= Rank(i) < |d| && v[i] == d[Rank(i)]
      else v[i] == ONES
  }

  lemma SealIs(c: Chain, key: Key, s: nat, ab: seq<Phone>)
    requires ChainInv(c, key, s, ab)
    ensures Sealed(Seal(c), key, s, ab)
  {
    hide FirstSeen, Inserts;
  }

  /** The chain of one slot, over the whole query. */
  method BuildChain(key: Key, s: nat, ab: seq<Phone>) returns (v: Vec, idx: u32)
    requires key.order < 32 && s < Pow2(key.order) && |ab| < TWO63
    ensures Sealed(v, key, s, ab) && idx == Inserts(key, s, ab) % TWO32
  {
    hide FirstSeen, Inserts, Insert, ChainInv, BitAnd, Pow2, Sealed, SlotMatches;
    var c := NoChain;
    ChainInvInitially(key, s);
    ChainInvFacts(c, key, s, []);
    for n := 0 to |ab|
      invariant ChainInv(c, key, s, ab[..n]) && |c.masks| == 16
    {
      SlotIs(key, ab[n]);
      OrderBound(key.order);
      SlotMatchesIs(key.Slot(ab[n]), s);
      InsertKeepsInv(c, key, s, ab[..n], ab[n]);
      assert ab[..n] + [ab[n]] == ab[..n + 1];
      c := Insert(c, ab[n], SlotMatches(key.Slot(ab[n]), s));
      ChainInvFacts(c, key, s, ab[..n + 1]);
    }
    assert ab[..|ab|] == ab;
    ChainInvFacts(c, key, s, ab);
    SealIs(c, key, s, ab);
    v, idx := Seal(c), c.idx;
  }

  lemma ChainInvFacts(c: Chain, key: Key, s: nat, ab: seq<Phone>)
    requires ChainInv(c, key, s, ab)
    ensures |c.masks| == 16 && c.idx == Inserts(key, s, ab) % TWO32
  {
    hide FirstSeen, Inserts;
  }

  lemma OrderBound(order: nat)
    requires order < 32
    ensures Pow2(order) < TWO32
  {
    hide Pow2;
    Pow2Literals();
    Pow2Adds(order, 32 - order);
    var p, q := Pow2(order), Pow2(31 - order);
    Pow2Adds(1, 31 - order);
    assert Pow2(1) == 2 by { Pow2One(); }
    assert p * (2 * q) == 2 * (p * q);
    assert p * q >= p;
  }

  // What collecting yields.

  /** A query phone shows in a sealed slot exactly when it found a lane there. */
  lemma ShownIffKept(v: Vec, key: Key, s: nat, ab: seq<Phone>, p: Phone)
    requires Sealed(v, key, s, ab) && p != 0 && p in ab && key.Slot(p) == s
    ensures Holds(v, p) <==> p in Kept(key, s, ab)
  {
    hide FirstSeen, Inserts, BitAnd, Pow2, Visible;
    var n, d, kept := Inserts(key, s, ab), FirstSeen(key, s, ab), Kept(key, s, ab);
    InsertsCount(key, s, ab);
    FirstSeenIs(key, s, ab);
    if p in kept {
      var k :| 0 <= k < |kept| && kept[k] == p;
      VisibleIs(v, LaneOf(k));
      assert Visible(v, LaneOf(k)) == p;
    }
    if i :| 0 <= i < 16 && Visible(v, i) == p {
      VisibleIs(v, i);
      assert !Dummy(i) && 0 <= Rank(i) < CAPACITY;
      if Rank(i) < n {
        assert kept[Rank(i)] == p;
      }
    }
  }

  lemma CollectNonzero(r: SlotResult, v: Vec, db: seq<Entry>, key: Key, s: nat, ab: seq<Phone>, p: Phone)
    requires Matched(r, v, db, key, s) && Sealed(v, key, s, ab) && p != 0 && p in ab
    ensures var u := if key.Slot(p) == s then Answer(db, ab, key, p) else NoUuid;
            Collect(r.lo, v, p) == u.d0 && Collect(r.hi, v, p) == u.d1
  {
    hide BitAnd, Pow2, Visible, Sealed, Collect, LastUuid, Kept, Holds;
    var w := Found(db, key, s, p);
    forall i | 0 <= i < 16 && Visible(v, i) == p
      ensures r.lo[i] == w.d0 && r.hi[i] == w.d1
    {
      VisibleIs(v, i);
    }
    CollectIs(r.lo, v, p, w.d0);
    CollectIs(r.hi, v, p, w.d1);
    if key.Slot(p) == s {
      ShownIffKept(v, key, s, ab, p);
    }
  }

  /** The reserved phone zero only ever sees dummy lanes. */
  lemma CollectZero(r: Vec, v: Vec, key: Key, s: nat, ab: seq<Phone>)
    requires Sealed(v, key, s, ab) && forall i :: 0 <= i < 16 && Dummy(i) ==> AllOrNothing(r[i])
    ensures AllOrNothing(Collect(r, v, 0))
  {
    hide Visible, FirstSeen, Inserts, BitOr, Blend;
    forall i | 0 <= i < 16
      ensures Visible(v, i) == 0 <==> Dummy(i)
    {
      VisibleIs(v, i);
      FirstSeenIs(key, s, ab);
      if !Dummy(i) && Rank(i) < Inserts(key, s, ab) {
        assert FirstSeen(key, s, ab)[Rank(i)] in FirstSeen(key, s, ab);
      }
    }
    CollectLaneIs(r, v, 0, 0, 1);
    CollectLaneIs(r, v, 0, 0, 2);
    CollectLaneIs(r, v, 0, 0, 3);
    var b2 := Blend(Blend(Blend(0, r[0], 0, Visible(v, 0)), r[4], 0, Visible(v, 4)), r[8], 0, Visible(v, 8));
    BlendIs(b2, r[12], 0, Visible(v, 12));
    assert CollectLane(r, v, 0, 0) == r[12];
    OrSelf(r[12]);
    OrSelf(0);
  }

  // Table sizes.

  predicate IsPowerOfTwo(n: nat) { n == 1 || (n > 0 && n % 2 == 0 && IsPowerOfTwo(n / 2)) }

  function TrailingZeros(n: nat): nat {
    if n == 0 then 64 else if n % 2 == 1 then 0 else 1 + TrailingZeros(n / 2)
  }

  lemma {:induction false} PowerOfTwoOrder(n: nat)
    requires IsPowerOfTwo(n)
    ensures n == Pow2(TrailingZeros(n))
  {
    if n != 1 {
      PowerOfTwoOrder(n / 2);
    }
  }

  lemma {:induction false} PowersAccepted(k: nat)
    ensures IsPowerOfTwo(Pow2(k)) && TrailingZeros(Pow2(k)) == k
  {
    hide IsPowerOfTwo, TrailingZeros;
    if k == 0 {
      OneAccepted();
    } else {
      PowersAccepted(k - 1);
      DoubleAccepted(Pow2(k - 1));
    }
  }

  lemma OneAccepted()
    ensures IsPowerOfTwo(1) && TrailingZeros(1) == 0
  {
  }

  lemma DoubleAccepted(m: nat)
    requires m > 0
    ensures IsPowerOfTwo(m) ==> IsPowerOfTwo(2 * m)
    ensures TrailingZeros(2 * m) == 1 + TrailingZeros(m)
  {
    assert 2 * m / 2 == m;
  }

  /** The order of a table the lookup accepts. */
  function ValidOrder(n: nat): bool { IsPowerOfTwo(n) && TrailingZeros(n) < 32 }

  // Erasing.

  function EraseVec(r: Vec): Vec {
    seq(16, i requires 0 <= i < 16 => EraseLane(r[i], i))
  }

  function EraseLane(x: u64, i: nat): u64 {
    EraseLaneIs(x, i);
    BitXor(BitAnd(x, DummyMask(i)), DummyMask(i))
  }

  lemma EraseLaneIs(x: u64, i: nat)
    ensures BitXor(BitAnd(x, DummyMask(i)), DummyMask(i)) == if Dummy(i) then Xor(x, ONES) else 0
    ensures Dummy(i) && AllOrNothing(x) ==> AllOrNothing(Xor(x, ONES))
  {
    hide BitAnd, BitOr, BitXor;
    DummyWord(x);
    DummyWord(0);
  }

  lemma EraseCleans(r: Vec)
    requires forall i :: 0 <= i < 16 && Dummy(i) ==> AllOrNothing(r[i])
    ensures CleanVec(EraseVec(r))
  {
    hide BitAnd, BitXor;
    forall i | 0 <= i < 16
      ensures if Dummy(i) then AllOrNothing(EraseVec(r)[i]) else EraseVec(r)[i] == 0
    {
      EraseLaneIs(r[i], i);
    }
  }

  const EmptySlot: Vec := seq(16, _ => 0)

  ghost predicate AllSealed(slots: seq<Vec>, key: Key, ab: seq<Phone>, n: nat)
    requires n <= |slots|
  {
    forall s :: 0 <= s < n ==> Sealed(slots[s], key, s, ab)
  }

  ghost predicate Overflows(key: Key, ab: seq<Phone>, n: nat) {
    exists s :: 0 <= s < n && Inserts(key, s, ab) % TWO32 > CHAIN_LENGTH
  }

  /** Builds every chain; reports whether any counter passed the chain length. */
  method BuildChains(key: Key, ab: seq<Phone>, slots: array<Vec>) returns (overflowed: bool)
    requires key.order < 32 && slots.Length == Pow2(key.order) && |ab| < TWO63
    modifies slots
    ensures AllSealed(slots[..], key, ab, slots.Length)
    ensures overflowed <==> Overflows(key, ab, slots.Length)
  {
    hide Sealed, Inserts, FirstSeen, Pow2;
    overflowed := false;
    for s := 0 to slots.Length
      invariant AllSealed(slots[..], key, ab, s)
      invariant overflowed <==> Overflows(key, ab, s)
    {
      var v, idx := BuildChain(key, s, ab);
      slots[s] := v;
      overflowed := overflowed || idx > CHAIN_LENGTH;
    }
  }

  ghost predicate AllMatched(results: seq<SlotResult>, slots: seq<Vec>, db: seq<Entry>, key: Key)
    requires |results| == |slots|
  {
    forall s :: 0 <= s < |slots| ==> Matched(results[s], slots[s], db, key, s)
  }

  /** The right answer for a nonzero phone; for zero, words of dummy lanes. */
  ghost predicate Correct(u: Uuid, db: seq<Entry>, ab: seq<Phone>, key: Key, p: Phone) {
    if p == 0 then AllOrNothing(u.d0) && AllOrNothing(u.d1) else u == Answer(db, ab, key, p)
  }

  /** Scans all slots for one phone, or-ing what they yield. */
  method CollectPhone(p: Phone, slots: array<Vec>, results: array<SlotResult>,
                      ghost db: seq<Entry>, ghost key: Key, ghost ab: seq<Phone>) returns (u: Uuid)
    requires slots.Length == results.Length == Pow2(key.order) && p in ab
    requires AllSealed(slots[..], key, ab, slots.Length)
    ensures AllMatched(results[..], slots[..], db, key) ==> Correct(u, db, ab, key, p)
  {
    hide Sealed, Matched, Pow2, BitAnd, BitOr, Collect, Answer;
    u := NoUuid;
    ghost var matched := AllMatched(results[..], slots[..], db, key);
    for s := 0 to slots.Length
      invariant matched && p == 0 ==> AllOrNothing(u.d0) && AllOrNothing(u.d1)
      invariant matched && p != 0 ==> u == if key.Slot(p) < s then Answer(db, ab, key, p) else NoUuid
    {
      var lo, hi := Collect(results[s].lo, slots[s], p), Collect(results[s].hi, slots[s], p);
      if matched {
        assert Matched(results[..][s], slots[..][s], db, key, s) && Sealed(slots[..][s], key, s, ab);
        CollectStep(results[s], slots[s], db, key, s, ab, p, u, lo, hi);
      }
      u := Uuid(Or(u.d0, lo), Or(u.d1, hi));
    }
    SlotIs(key, p);
  }

  lemma CollectStep(r: SlotResult, v: Vec, db: seq<Entry>, key: Key, s: nat, ab: seq<Phone>, p: Phone,
                    u: Uuid, lo: u64, hi: u64)
    requires Matched(r, v, db, key, s) && Sealed(v, key, s, ab) && p in ab
    requires lo == Collect(r.lo, v, p) && hi == Collect(r.hi, v, p)
    requires if p == 0 then AllOrNothing(u.d0) && AllOrNothing(u.d1)
             else u == if key.Slot(p) < s then Answer(db, ab, key, p) else NoUuid
    ensures if p == 0 then AllOrNothing(Or(u.d0, lo)) && AllOrNothing(Or(u.d1, hi))
            else Uuid(Or(u.d0, lo), Or(u.d1, hi)) == if key.Slot(p) <= s then Answer(db, ab, key, p) else NoUuid
  {
    hide Sealed, Pow2, BitAnd, BitOr, Collect, Answer, Found;
    OrSelf(0);
    OrSelf(ONES);
    if p == 0 {
      CollectZero(r.lo, v, key, s, ab);
      CollectZero(r.hi, v, key, s, ab);
    } else {
      CollectNonzero(r, v, db, key, s, ab, p);
      OrSelf(Answer(db, ab, key, p).d0);
      OrSelf(Answer(db, ab, key, p).d1);
    }
  }

  /** Overwrites both tables so that nothing of the query or the answers remains. */
  method EraseTables(slots: array<Vec>, results: array<SlotResult>)
    modifies slots, results
    ensures forall s :: 0 <= s < slots.Length ==> slots[s] == EmptySlot
    ensures forall s :: 0 <= s < results.Length ==>
              results[s] == SlotResult(EraseVec(old(results[s].lo)), EraseVec(old(results[s].hi)))
  {
    hide EraseVec;
    for s := 0 to results.Length
      invariant forall t :: 0 <= t < s ==>
                  results[t] == SlotResult(EraseVec(old(results[t].lo)), EraseVec(old(results[t].hi)))
      invariant forall t :: s <= t < results.Length ==> results[t] == old(results[t])
    {
      results[s] := SlotResult(EraseVec(results[s].lo), EraseVec(results[s].hi));
    }
    ghost var erased := results[..];
    for s := 0 to slots.Length
      invariant forall t :: 0 <= t < s ==> slots[t] == EmptySlot
      invariant results[..] == erased
    {
      slots[s] := EmptySlot;
    }
  }

  lemma SealedDummies(slots: seq<Vec>, key: Key, ab: seq<Phone>)
    requires AllSealed(slots, key, ab, |slots|)
    ensures DummiesZero(slots)
  {
    hide FirstSeen, Inserts;
    forall s, i | 0 <= s < |slots| && 0 <= i < 16 && Dummy(i)
      ensures slots[s][i] == 0
    {
      assert Sealed(slots[s], key, s, ab);
    }
  }

  lemma MatchedErased(r: SlotResult, v: Vec, db: seq<Entry>, key: Key, s: nat)
    requires Matched(r, v, db, key, s)
    ensures CleanVec(EraseVec(r.lo)) && CleanVec(EraseVec(r.hi))
  {
    hide EraseVec, Found;
    EraseCleans(r.lo);
    EraseCleans(r.hi);
  }

  /**
   The lookup. `word` is the hash the random key gives, or nothing if the generator failed. The
   result tables may be in any state; the answers are promised when they are clean, and clean is
   how every call leaves them.
   */
  method HashLookup(db: seq<Entry>, ab: seq<Phone>, out: array<Uuid>, slots: array<Vec>, results: array<SlotResult>,
                    word: Option<Phone -> u32>) returns (st: Status)
    requires out.Length == |ab| < TWO63 && slots.Length == results.Length
    modifies out, slots, results
    ensures st == InvalidParameter <==> !ValidOrder(slots.Length)
    ensures st == RdRand <==> ValidOrder(slots.Length) && word.None?
    ensures st == HashTableOverflow <==>
              && ValidOrder(slots.Length) && word.Some?
              && Overflows(Key(word.value, TrailingZeros(slots.Length)), ab, slots.Length)
    ensures st != Success ==> results[..] == old(results[..]) && out[..] == old(out[..])
    ensures st == Success && old(Clean(results[..])) ==>
              forall i :: 0 <= i < |ab| ==> Correct(out[i], db, ab, Key(word.value, TrailingZeros(slots.Length)), ab[i])
    ensures old(Clean(results[..])) ==> Clean(results[..])
    ensures st == Success ==> forall s :: 0 <= s < slots.Length ==> slots[s] == EmptySlot
  {
    hide IsPowerOfTwo, TrailingZeros, Pow2, Overflows, PassDb, Matched, Sealed, CleanVec, EraseVec, Correct, AllSealed;
    if !ValidOrder(slots.Length) {
      return InvalidParameter;
    }
    if word.None? {
      return RdRand;
    }
    PowerOfTwoOrder(slots.Length);
    var key := Key(word.value, TrailingZeros(slots.Length));
    var overflowed := BuildChains(key, ab, slots);
    if overflowed {
      return HashTableOverflow;
    }
    ghost var chains := slots[..];
    ghost var clean := Clean(results[..]);
    SealedDummies(chains, key, ab);
    if clean {
      AllPassed(results[..], chains, key, db);
    }
    ConstructHash(db, key, slots, results);
    ghost var passed := results[..];
    assert clean ==> AllMatched(passed, chains, db, key);
    for i := 0 to |ab|
      invariant slots[..] == chains && results[..] == passed
      invariant clean ==> forall j :: 0 <= j < i ==> Correct(out[j], db, ab, key, ab[j])
    {
      var u := CollectPhone(ab[i], slots, results, db, key, ab);
      out[i] := u;
    }
    ghost var answers := out[..];
    EraseTables(slots, results);
    if clean {
      AllErased(passed, chains, db, key, results[..]);
    }
    assert out[..] == answers;
    return Success;
  }

  lemma AllPassed(results: seq<SlotResult>, slots: seq<Vec>, key: Key, db: seq<Entry>)
    requires |results| == |slots| == Pow2(key.order) && Clean(results) && DummiesZero(slots)
    ensures AllMatched(PassDb(results, slots, key, db), slots, db, key)
  {
    hide Clean, DummiesZero, Matched, PassDb, Pow2;
    forall s | 0 <= s < |slots|
      ensures Matched(PassDb(results, slots, key, db)[s], slots[s], db, key, s)
    {
      PassDbMatches(results, slots, key, db, s);
    }
  }

  lemma AllErased(results: seq<SlotResult>, slots: seq<Vec>, db: seq<Entry>, key: Key, erased: seq<SlotResult>)
    requires |results| == |slots| == |erased| && AllMatched(results, slots, db, key)
    requires forall s :: 0 <= s < |erased| ==> erased[s] == SlotResult(EraseVec(results[s].lo), EraseVec(results[s].hi))
    ensures Clean(erased)
  {
    hide Matched, EraseVec, CleanVec;
    forall s | 0 <= s < |erased|
      ensures CleanVec(erased[s].lo) && CleanVec(erased[s].hi)
    {
      MatchedErased(results[s], slots[s], db, key, s);
    }
  }
}
