/**
 Building the chain of one hash slot without branches: every query phone is written into all
 lanes not yet filled, and sign bits of counters decide which lanes keep it.
 */
module Chains {
  import opened MachineWords
  import opened Lanes

  type Phone = u64

  /** A hash key: the low word of the keyed permutation of a phone, and the order of the table. */
  datatype Key = Key(word: Phone -> u32, order: nat) {
    /** `(1u32 << order) as i32 - 1`; both the shift and, for order 31, the subtraction wrap. */
    function Mask(): u32 { (I32(Pow2(order % 32) % TWO32) - 1) % TWO32 }

    function Slot(p: Phone): nat { BitAnd(word(p), Mask()) }
  }

  /** The bits of a 32-bit word read as a signed number. */
  function I32(x: u32): int { if x < TWO31 then x else x - TWO32 }

  /** The mask has the low bits set, the sign bit of order 31 included in the wrap-around. */
  lemma MaskIs(key: Key)
    ensures key.Mask() == Pow2(key.order % 32) - 1 < TWO31
  {
    hide Pow2;
    var k := key.order % 32;
    Pow2Literals();
    Pow2Grows(k, 31);
    Pow2Adds(31, 1);
    Pow2One();
    RemainderIs(Pow2(k), TWO32, 0, Pow2(k));
    RemainderIs(Pow2(k) - 1, TWO32, 0, Pow2(k) - 1);
  }

  /** Every index is inside the table, and for the orders a lookup accepts it is the remainder by the table size. */
  lemma SlotIs(key: Key, p: Phone)
    ensures key.Slot(p) < Pow2(key.order)
    ensures key.order < 32 ==> key.Slot(p) == key.word(p) % Pow2(key.order)
  {
    hide Pow2, BitAnd;
    MaskIs(key);
    var k := key.order % 32;
    BitAndOnes(key.word(p), k);
    Pow2Grows(k, key.order);
  }

  const CAPACITY: nat := 12
  const CHAIN_LENGTH: nat := 16

  // What the chain is meant to hold.

  /** The phone belongs in this slot; zero is reserved. */
  predicate Belongs(key: Key, slot: nat, p: Phone) { p != 0 && key.Slot(p) == slot }

  /** The distinct phones of a slot, in order of first appearance. */
  function FirstSeen(key: Key, slot: nat, ab: seq<Phone>): (d: seq<Phone>)
    ensures |d| <= |ab|
  {
    if ab == [] then []
    else
      var d, p := FirstSeen(key, slot, ab[..|ab| - 1]), ab[|ab| - 1];
      if Belongs(key, slot, p) && p !in d then d + [p] else d
  }

  function AtMostCapacity(d: seq<Phone>): seq<Phone> { if |d| <= CAPACITY then d else d[..CAPACITY] }

  /** The phones that find a lane: the first twelve. */
  function Kept(key: Key, slot: nat, ab: seq<Phone>): seq<Phone> { AtMostCapacity(FirstSeen(key, slot, ab)) }

  /** Insertions counted by the program: every occurrence of a phone that has no lane yet. */
  function Inserts(key: Key, slot: nat, ab: seq<Phone>): (n: nat)
    ensures n <= |ab|
  {
    if ab == [] then 0
    else
      var before, p := ab[..|ab| - 1], ab[|ab| - 1];
      Inserts(key, slot, before) + if Belongs(key, slot, p) && p !in Kept(key, slot, before) then 1 else 0
  }

  /** First-seen phones are exactly the phones of the slot that occur, each once. */
  lemma {:induction false} FirstSeenIs(key: Key, slot: nat, ab: seq<Phone>)
    ensures forall p :: p in FirstSeen(key, slot, ab) <==> p in ab && Belongs(key, slot, p)
    ensures forall i, j {:trigger FirstSeen(key, slot, ab)[i], FirstSeen(key, slot, ab)[j]} ::
              0 <= i < j < |FirstSeen(key, slot, ab)| ==> FirstSeen(key, slot, ab)[i] != FirstSeen(key, slot, ab)[j]
  {
    if ab != [] {
      FirstSeenIs(key, slot, ab[..|ab| - 1]);
      assert ab == ab[..|ab| - 1] + [ab[|ab| - 1]];
    }
  }

  /** Up to capacity the counter is the number of distinct phones; beyond, it never undercounts. */
  lemma {:induction false} InsertsCount(key: Key, slot: nat, ab: seq<Phone>)
    ensures |FirstSeen(key, slot, ab)| <= Inserts(key, slot, ab)
    ensures |FirstSeen(key, slot, ab)| <= CAPACITY ==> Inserts(key, slot, ab) == |FirstSeen(key, slot, ab)|
    ensures Inserts(key, slot, ab) <= CAPACITY ==> Inserts(key, slot, ab) == |FirstSeen(key, slot, ab)|
  {
    if ab != [] {
      InsertsCount(key, slot, ab[..|ab| - 1]);
    }
  }

  // The registers of the inner loop.

  datatype Chain = Chain(lanes: Vec, masks: seq<int>, idx: u32)

  /** Two's complement reading of a 64-bit sum. */
  function I64(x: int): int { (x + TWO63) % TWO64 - TWO63 }

  /** Rank of a usable lane in filling order: lanes 3, 2, 1 of block 0, then of block 1, ... */
  function Rank(i: nat): int { 3 * (i / 4) + 3 - i % 4 }

  const NoChain: Chain :=
    Chain(seq(16, _ => 0), seq(16, i requires i >= 0 => if Dummy(i) then 0 else -1 - Rank(i)), 0)

  /** `(((a ^ b) - 1) as u64 >> 32) & 1`: one exactly when the indices agree. */
  function SlotMatches(a: nat, b: nat): nat { (BitXor(a, b) - 1) % TWO64 / TWO32 % 2 }

  lemma SlotMatchesIs(a: nat, b: nat)
    requires a < TWO32 && b < TWO32
    ensures SlotMatches(a, b) == if a == b then 1 else 0
  {
    hide BitXor, Pow2;
    Pow2Literals();
    XorIsZero(a, b);
    BitXorBounded(a, b, 32);
    var x := BitXor(a, b);
    if a != b {
      RemainderIs(x - 1, TWO64, 0, x - 1);
    }
  }

  /** `_mm256_blendv_pd` on one lane: the sign of the mask selects. */
  function BlendSign(old_: u64, new_: u64, mask: int): u64 { if mask < 0 then new_ else old_ }

  function Insert(c: Chain, p: Phone, matches: nat): Chain
    requires |c.masks| == 16
  {
    var notInChain := forall i :: 0 <= i < 16 ==> c.lanes[i] != p;
    var insert := if notInChain then matches % 2 else 0;
    Chain(seq(16, i requires 0 <= i < 16 => BlendSign(c.lanes[i], p, c.masks[i])),
          seq(16, i requires 0 <= i < 16 => I64(c.masks[i] + insert)),
          (c.idx + insert) % TWO32)
  }

  /** Lanes never filled get the invalid all-ones value. */
  function Seal(c: Chain): Vec
    requires |c.masks| == 16
  {
    seq(16, i requires 0 <= i < 16 => BlendSign(c.lanes[i], ONES, c.masks[i]))
  }

  ghost function Last(ab: seq<Phone>): Phone { if ab == [] then 0 else ab[|ab| - 1] }

  /**
   After any prefix: filled lanes hold the first distinct phones in order, all others the phone
   processed last, and the counters say which is which.
   */
  ghost predicate ChainInv(c: Chain, key: Key, slot: nat, ab: seq<Phone>) {
    var n, d := Inserts(key, slot, ab), FirstSeen(key, slot, ab);
    && |c.masks| == 16
    && c.idx == n % TWO32
    && (forall i :: 0 <= i < 16 ==> c.masks[i] == if Dummy(i) then n else n - 1 - Rank(i))
    && (forall i :: 0 <= i < 16 ==>
          if Dummy(i) then c.lanes[i] == 0
          else if Rank(i) < n then Rank(i) < |d| && c.lanes[i] == d[Rank(i)]
          else c.lanes[i] == Last(ab))
  }

  lemma ChainInvInitially(key: Key, slot: nat)
    ensures ChainInv(NoChain, key, slot, [])
  {
  }

  /** Rank is a bijection from the usable lanes to 0..11. */
  function LaneOf(k: nat): (i: nat)
    requires k < CAPACITY
    ensures i < 16 && !Dummy(i) && Rank(i) == k
  {
    4 * (k / 3) + 3 - k % 3
  }

  /** The leftover phone in unfilled lanes never misleads the duplicate test. */
  lemma DuplicateTest(c: Chain, key: Key, slot: nat, ab: seq<Phone>, p: Phone)
    requires ChainInv(c, key, slot, ab) && key.Slot(p) == slot
    ensures (exists i :: 0 <= i < 16 && c.lanes[i] == p) <==> p == 0 || p in Kept(key, slot, ab)
  {
    hide FirstSeen, Inserts, BitAnd, Pow2, Rank, Dummy, LaneOf;
    var n, d, kept := Inserts(key, slot, ab), FirstSeen(key, slot, ab), Kept(key, slot, ab);
    InsertsCount(key, slot, ab);
    FirstSeenIs(key, slot, ab);
    if p == 0 {
      FirstIsDummy();
      assert c.lanes[0] == p;
    } else {
      if p in kept {
        var k :| 0 <= k < |kept| && kept[k] == p;
        assert c.lanes[LaneOf(k)] == p;
      }
      if i :| 0 <= i < 16 && c.lanes[i] == p {
        RankInRange(i);
        assert !Dummy(i);
        if Rank(i) < n {
          assert kept[Rank(i)] == p;
        } else {
          assert ab != [] && p in ab && p in d;
        }
      }
    }
  }

  lemma FirstIsDummy()
    ensures Dummy(0)
  {
  }

  lemma SeenStep(key: Key, slot: nat, ab: seq<Phone>, p: Phone)
    ensures var d := FirstSeen(key, slot, ab);
            FirstSeen(key, slot, ab + [p]) == if Belongs(key, slot, p) && p !in d then d + [p] else d
    ensures Inserts(key, slot, ab + [p])
         == Inserts(key, slot, ab) + if Belongs(key, slot, p) && p !in Kept(key, slot, ab) then 1 else 0
  {
    hide BitAnd, Pow2;
    assert (ab + [p])[..|ab|] == ab;
  }

  lemma InsertKeepsInv(c: Chain, key: Key, slot: nat, ab: seq<Phone>, p: Phone)
    requires ChainInv(c, key, slot, ab) && |ab| < TWO63 - 1
    ensures ChainInv(Insert(c, p, if key.Slot(p) == slot then 1 else 0), key, slot, ab + [p])
  {
    hide FirstSeen, Inserts, BitAnd, Pow2, I64, Rank, Dummy;
    var c' := Insert(c, p, if key.Slot(p) == slot then 1 else 0);
    var n, d := Inserts(key, slot, ab), FirstSeen(key, slot, ab);
    var n', d' := Inserts(key, slot, ab + [p]), FirstSeen(key, slot, ab + [p]);
    SeenStep(key, slot, ab, p);
    InsertsCount(key, slot, ab);
    var insert := InsertFlag(c, key, slot, ab, p);
    assert c'.idx == n' % TWO32 by {
      IdxStep(n, insert);
    }
    forall i | 0 <= i < 16
      ensures c'.masks[i] == c.masks[i] + insert
      ensures !Dummy(i) ==> 0 <= Rank(i) < CAPACITY
    {
      RankInRange(i);
      I64Is(c.masks[i] + insert);
    }
  }

  /** The increment the program computes is the increment of the insertion count. */
  lemma InsertFlag(c: Chain, key: Key, slot: nat, ab: seq<Phone>, p: Phone) returns (insert: nat)
    requires ChainInv(c, key, slot, ab)
    ensures insert == if (forall i :: 0 <= i < 16 ==> c.lanes[i] != p) && key.Slot(p) == slot then 1 else 0
    ensures insert == if Belongs(key, slot, p) && p !in Kept(key, slot, ab) then 1 else 0
  {
    hide FirstSeen, Inserts, BitAnd, Pow2, ChainInv, Kept;
    insert := if Belongs(key, slot, p) && p !in Kept(key, slot, ab) then 1 else 0;
    if key.Slot(p) == slot {
      DuplicateTest(c, key, slot, ab, p);
    }
  }

  lemma RankInRange(i: nat)
    requires i < 16
    ensures Dummy(i) || 0 <= Rank(i) < CAPACITY
  {
  }

  lemma IdxStep(n: nat, insert: nat)
    ensures (n % TWO32 + insert) % TWO32 == (n + insert) % TWO32
  {
  }

  lemma I64Is(x: int)
    requires 0 <= x + TWO63 < TWO64
    ensures I64(x) == x
  {
  }
}
