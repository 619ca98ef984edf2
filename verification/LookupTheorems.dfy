/** What the lookup guarantees for every database, query and hash key, and exactly when. */
module LookupTheorems {
  import opened MachineWords
  import opened Chains
  import opened Lookup

  /** No slot is given more distinct phones than it has lanes. */
  ghost predicate WithinCapacity(key: Key, ab: seq<Phone>) {
    forall s :: 0 <= s < Pow2(key.order) ==> |FirstSeen(key, s, ab)| <= CAPACITY
  }

  /** Within capacity a lookup does not overflow and answers every phone from the database. */
  lemma Complete(db: seq<Entry>, ab: seq<Phone>, key: Key)
    requires WithinCapacity(key, ab)
    ensures !Overflows(key, ab, Pow2(key.order))
    ensures forall p :: p in ab && p != 0 ==> Answer(db, ab, key, p) == LastUuid(db, p)
  {
    hide FirstSeen, Inserts, Pow2, BitAnd, LastUuid;
    forall s | 0 <= s < Pow2(key.order)
      ensures Inserts(key, s, ab) % TWO32 <= CHAIN_LENGTH
    {
      InsertsCount(key, s, ab);
    }
    forall p | p in ab && p != 0
      ensures Answer(db, ab, key, p) == LastUuid(db, p)
    {
      SlotIs(key, p);
      FirstSeenIs(key, key.Slot(p), ab);
    }
  }

  /** Whatever the load, a lookup never answers another phone's UUID or a mixture, but the right one or zero. */
  lemma {:induction false} Sound(u: Uuid, db: seq<Entry>, ab: seq<Phone>, key: Key, p: Phone)
    requires Correct(u, db, ab, key, p) && p != 0
    ensures u == LastUuid(db, p) || u == NoUuid
    ensures u != NoUuid ==> exists e :: e in db && e.phone == p && e.uuid == u
    ensures p in Kept(key, key.Slot(p), ab) ==> u == LastUuid(db, p)
  {
    hide FirstSeen, BitAnd;
    LastUuidInDb(db, p);
  }

  lemma {:induction false} LastUuidInDb(db: seq<Entry>, p: Phone)
    ensures LastUuid(db, p) != NoUuid ==> exists e :: e in db && e.phone == p && e.uuid == LastUuid(db, p)
  {
    if db != [] {
      var e := db[|db| - 1];
      if e.phone == p {
        assert e in db;
      } else {
        LastUuidInDb(db[..|db| - 1], p);
      }
    }
  }

  /** The last occurrence wins: nothing after it in the database is for the same phone. */
  lemma {:induction false} LastUuidIsLast(db: seq<Entry>, p: Phone, n: nat)
    requires n < |db| && db[n].phone == p && forall m :: n < m < |db| ==> db[m].phone != p
    ensures LastUuid(db, p) == db[n].uuid
  {
    if n < |db| - 1 {
      LastUuidIsLast(db[..|db| - 1], p, n);
    }
  }

  /** Exactly the phones beyond the first twelve of their slot are lost. */
  lemma {:induction false} LostPhones(key: Key, s: nat, ab: seq<Phone>, k: nat)
    requires k < |FirstSeen(key, s, ab)|
    ensures FirstSeen(key, s, ab)[k] in Kept(key, s, ab) <==> k < CAPACITY
  {
    hide FirstSeen;
    var d := FirstSeen(key, s, ab);
    FirstSeenIs(key, s, ab);
    if k < CAPACITY {
      assert d[k] == Kept(key, s, ab)[k];
    }
  }

  /** Every query phone is answered from every database if and only if no slot is over capacity. */
  lemma AnsweredIffWithinCapacity(ab: seq<Phone>, key: Key)
    ensures (forall db, p | p in ab && p != 0 :: Answer(db, ab, key, p) == LastUuid(db, p)) <==> WithinCapacity(key, ab)
  {
    hide FirstSeen, Pow2, BitAnd, LastUuid;
    if WithinCapacity(key, ab) {
      forall db, p | p in ab && p != 0
        ensures Answer(db, ab, key, p) == LastUuid(db, p)
      {
        Complete(db, ab, key);
      }
    } else {
      var s :| 0 <= s < Pow2(key.order) && |FirstSeen(key, s, ab)| > CAPACITY;
      var p := FirstSeen(key, s, ab)[CAPACITY];
      FirstSeenIs(key, s, ab);
      LostPhones(key, s, ab, CAPACITY);
      var db := [Entry(p, Uuid(1, 0))];
      LastUuidIsLast(db, p, 0);
      assert p in ab && p != 0 && Answer(db, ab, key, p) != LastUuid(db, p);
    }
  }

  /** Seventeen distinct phones in one slot are always reported, on queries below 2^32. */
  lemma SeventeenOverflow(key: Key, ab: seq<Phone>, s: nat)
    requires |ab| < TWO32 && s < Pow2(key.order) && |FirstSeen(key, s, ab)| > CHAIN_LENGTH
    ensures Overflows(key, ab, Pow2(key.order))
  {
    hide FirstSeen, Pow2;
    InsertsCount(key, s, ab);
    assert Inserts(key, s, ab) % TWO32 > CHAIN_LENGTH;
  }

  // Thirteen to sixteen distinct phones: accepted, and some go unanswered.

  /** Distinct nonzero phones of one slot. */
  ghost predicate Crowd(key: Key, s: nat, ps: seq<Phone>) {
    && (forall i :: 0 <= i < |ps| ==> Belongs(key, s, ps[i]))
    && (forall i, j :: 0 <= i < j < |ps| ==> ps[i] != ps[j])
  }

  /** A crowd is seen as it is and counted once each. */
  lemma {:induction false} CrowdSeen(key: Key, s: nat, ps: seq<Phone>)
    requires Crowd(key, s, ps)
    ensures FirstSeen(key, s, ps) == ps && Inserts(key, s, ps) == |ps|
    decreases |ps|
  {
    hide BitAnd, Pow2, FirstSeen, Inserts, Belongs;
    if ps == [] {
      NothingSeen(key, s);
    } else {
      var n := |ps| - 1;
      CrowdSeen(key, s, ps[..n]);
      assert ps == ps[..n] + [ps[n]] && ps[n] !in ps[..n];
      SeenStep(key, s, ps[..n], ps[n]);
    }
  }

  lemma NothingSeen(key: Key, s: nat)
    ensures FirstSeen(key, s, []) == [] && Inserts(key, s, []) == 0
  {
  }

  /** Phones of other slots are not counted. */
  lemma {:induction false} OthersIgnored(key: Key, s: nat, ab: seq<Phone>)
    requires forall i :: 0 <= i < |ab| ==> !Belongs(key, s, ab[i])
    ensures Inserts(key, s, ab) == 0
    decreases |ab|
  {
    hide BitAnd, Pow2, FirstSeen, Belongs, Kept;
    if ab != [] {
      OthersIgnored(key, s, ab[..|ab| - 1]);
    }
  }

  /** On a table filled by one crowd only its own slot can overflow. */
  lemma OneSlotFilled(key: Key, s: nat, ab: seq<Phone>)
    requires forall i :: 0 <= i < |ab| ==> ab[i] == 0 || Belongs(key, s, ab[i])
    ensures Overflows(key, ab, Pow2(key.order)) ==> Inserts(key, s, ab) % TWO32 > CHAIN_LENGTH
  {
    hide BitAnd, Pow2, FirstSeen, Inserts;
    forall t | 0 <= t < Pow2(key.order) && t != s
      ensures Inserts(key, t, ab) == 0
    {
      OthersIgnored(key, t, ab);
    }
  }

  /**
   For every key, slot and thirteen to sixteen of its phones: the lookup succeeds, answers the first twelve from
   every database, and the others not at all.
   */
  lemma GapBelowThreshold(key: Key, s: nat, ps: seq<Phone>, k: nat, db: seq<Entry>)
    requires Crowd(key, s, ps) && CAPACITY < |ps| <= CHAIN_LENGTH && k < |ps|
    ensures !Overflows(key, ps, Pow2(key.order))
    ensures Answer(db, ps, key, ps[k]) == if k < CAPACITY then LastUuid(db, ps[k]) else NoUuid
  {
    hide FirstSeen, Inserts, Pow2, BitAnd, LastUuid;
    CrowdSeen(key, s, ps);
    OneSlotFilled(key, s, ps);
    LostPhones(key, s, ps, k);
  }

  // The 32-bit counter.

  /** A phone without a lane is counted again each time it occurs. */
  lemma {:induction false} RepeatsCounted(key: Key, s: nat, ab: seq<Phone>, p: Phone, k: nat)
    requires Belongs(key, s, p) && p in FirstSeen(key, s, ab) && p !in Kept(key, s, ab)
    ensures FirstSeen(key, s, ab + seq(k, _ => p)) == FirstSeen(key, s, ab)
    ensures Inserts(key, s, ab + seq(k, _ => p)) == Inserts(key, s, ab) + k
    decreases k
  {
    hide FirstSeen, Inserts, Belongs;
    if k == 0 {
      assert ab + seq(k, _ => p) == ab;
    } else {
      RepeatsCounted(key, s, ab, p, k - 1);
      assert ab + seq(k, _ => p) == (ab + seq(k - 1, _ => p)) + [p];
      SeenStep(key, s, ab + seq(k - 1, _ => p), p);
    }
  }

  /** Phone zero is never counted. */
  lemma {:induction false} ZerosIgnored(key: Key, s: nat, ab: seq<Phone>, k: nat)
    ensures FirstSeen(key, s, ab + seq(k, _ => 0)) == FirstSeen(key, s, ab)
    ensures Inserts(key, s, ab + seq(k, _ => 0)) == Inserts(key, s, ab)
    decreases k
  {
    hide FirstSeen, Inserts;
    if k == 0 {
      assert ab + seq(k, _ => 0) == ab;
    } else {
      ZerosIgnored(key, s, ab, k - 1);
      assert ab + seq(k, _ => 0) == (ab + seq(k - 1, _ => 0)) + [0];
      SeenStep(key, s, ab + seq(k - 1, _ => 0), 0);
    }
  }

  /** A crowd, its thirteenth phone over and over, and zeros: any length from 2^32 on. */
  function Wrapping(ps: seq<Phone>, len: nat): seq<Phone>
    requires 13 <= |ps| < TWO32 <= len
  {
    ps + seq(TWO32 - |ps|, _ => ps[12]) + seq(len - TWO32, _ => 0)
  }

  /** 2^32 insertions wrap the counter to zero, and the overflow goes unreported. */
  lemma CounterWraps(key: Key, s: nat, ps: seq<Phone>, len: nat)
    requires Crowd(key, s, ps) && CAPACITY < |ps| < TWO32 <= len
    ensures |Wrapping(ps, len)| == len && FirstSeen(key, s, Wrapping(ps, len)) == ps
    ensures Inserts(key, s, Wrapping(ps, len)) == TWO32 && !Overflows(key, Wrapping(ps, len), Pow2(key.order))
  {
    hide FirstSeen, Inserts, BitAnd, Pow2, Belongs, Overflows;
    var p, k := ps[12], TWO32 - |ps|;
    CrowdSeen(key, s, ps);
    LostPhones(key, s, ps, 12);
    RepeatsCounted(key, s, ps, p, k);
    ZerosIgnored(key, s, ps + seq(k, _ => p), len - TWO32);
    assert Wrapping(ps, len) == ps + seq(k, _ => p) + seq(len - TWO32, _ => 0);
    OneSlotFilled(key, s, Wrapping(ps, len));
  }

  /**
   For every key and every slot with enough phones: that many are reported on all queries of a length if and only
   if the length is below 2^32.
   */
  lemma ReportedIff(key: Key, s: nat, ps: seq<Phone>, len: nat)
    requires Crowd(key, s, ps) && s < Pow2(key.order) && CHAIN_LENGTH < |ps| < TWO32 && |ps| <= len
    ensures (forall ab | |ab| == len && |FirstSeen(key, s, ab)| == |ps| :: Overflows(key, ab, Pow2(key.order)))
            <==> len < TWO32
  {
    hide FirstSeen, Inserts, BitAnd, Pow2, Overflows, Crowd, Wrapping;
    forall ab | |ab| == len && |FirstSeen(key, s, ab)| == |ps|
      ensures len < TWO32 ==> Overflows(key, ab, Pow2(key.order))
    {
      if len < TWO32 {
        SeventeenOverflow(key, ab, s);
      }
    }
    if len >= TWO32 {
      CounterWraps(key, s, ps, len);
    }
  }
}
