/**
 The table of pending requests: a ring of 2^order entries indexed by the low bits of a counter.
 Adding overwrites whatever is in the way; removing zeroes an entry.
 */
module PendingRequests {
  import opened MachineWords
  import opened Crypto

  datatype Pending = Pending(id: u64, prk: Bytes)

  function Zeros(n: nat): (z: Bytes)
    ensures |z| == n && forall i :: 0 <= i < n ==> z[i] == 0
  {
    if n == 0 then [] else [0] + Zeros(n - 1)
  }

  /** An entry zeroed by allocation or removal. */
  function NoRequest(): Pending { Pending(0, Zeros(32)) }

  datatype Table = Table(order: nat, entries: seq<Pending>, last: u64) {

    predicate WellSized() { |entries| == Pow2(order) }

    /** `id & ((1 << order) - 1)` */
    function Index(id: u64): nat { BitAnd(id, Pow2(order) - 1) }

    function NextId(): u64 { (last + 1) % TWO64 }

    function Add(prk: Bytes): Table
      requires WellSized()
    {
      IndexInRange(this, NextId());
      Table(order, entries[Index(NextId()) := Pending(NextId(), prk)], NextId())
    }

    function Get(id: u64): Pending
      requires WellSized()
    {
      IndexInRange(this, id);
      entries[Index(id)]
    }

    predicate Found(id: u64)
      requires WellSized()
    {
      Get(id).id == id
    }

    function Remove(id: u64): Table
      requires WellSized()
    {
      IndexInRange(this, id);
      Table(order, entries[Index(id) := NoRequest()], last)
    }
  }

  lemma IndexInRange(t: Table, id: u64)
    ensures t.Index(id) == id % Pow2(t.order) < Pow2(t.order)
  {
    hide BitAnd, Pow2;
    BitAndOnes(id, t.order);
  }

  function EmptyTable(order: nat): Table { Table(order, seq(Pow2(order), _ => NoRequest()), 0) }

  /** What happened to the table, oldest first. */
  datatype TableEvent = Added(id: u64, prk: Bytes) | Removed(id: u64)

  ghost predicate InPlace(t: Table, i: nat, id: u64) {
    id == 0 || (id % Pow2(t.order) == i && id <= t.last < id + Pow2(t.order))
  }

  /**
   The ring against its history: every nonzero entry sits at its index and is one of the last 2^order;
   an issued id is found exactly when it was not removed and fewer than 2^order were added since, and
   then with the key it was added with.
   */
  ghost predicate Refines(t: Table, h: seq<TableEvent>) {
    && t.WellSized()
    && (forall i :: 0 <= i < |t.entries| ==> InPlace(t, i, t.entries[i].id))
    && (forall id: u64 :: 1 <= id <= t.last ==>
          (t.Found(id) <==> Removed(id) !in h && t.last < id + Pow2(t.order)))
    && (forall id: u64 :: 1 <= id <= t.last && t.Found(id) ==> Added(id, t.Get(id).prk) in h)
    && (forall e :: e in h && (e.Added? || e.id != 0) ==> 1 <= e.id <= t.last)
    && (forall i, j :: 0 <= i < j < |h| && h[i].id == h[j].id != 0 ==> h[i].Added? && h[j].Removed?)
  }

  lemma EmptyRefines(order: nat)
    ensures Refines(EmptyTable(order), [])
  {
    hide BitAnd, Pow2;
    forall id: u64 | true
      ensures EmptyTable(order).Index(id) < Pow2(order)
    {
      IndexInRange(EmptyTable(order), id);
    }
  }

  /** Two numbers less than m apart leave the same remainder only if they are equal. */
  lemma SameResidue(x: nat, y: nat, m: nat)
    requires m > 0 && x % m == y % m && x <= y < x + m
    ensures x == y
  {
    var q, r := x / m, x % m;
    var q', r' := y / m, y % m;
    assert x == q * m + r && y == q' * m + r';
    var d := q' - q;
    assert d * m == y - x;
    assert d >= 1 ==> d * m >= m;
    assert d <= -1 ==> d * m < 0;
  }

  lemma NextRound(x: nat, m: nat)
    requires m > 0
    ensures (x + m) % m == x % m
  {
    RemainderIs(x + m, m, x / m + 1, x % m);
  }

  lemma AddRefines(t: Table, h: seq<TableEvent>, prk: Bytes)
    requires Refines(t, h) && t.last < TWO64 - 1
    ensures Refines(t.Add(prk), h + [Added(t.last + 1, prk)])
  {
    hide BitAnd, Pow2;
    var m := Pow2(t.order);
    var n: u64 := t.last + 1;
    var t', h' := t.Add(prk), h + [Added(n, prk)];
    forall id: u64 | true
      ensures t.Index(id) == t'.Index(id) == id % m < m
    {
      IndexInRange(t, id);
      IndexInRange(t', id);
    }
    assert t'.entries == t.entries[n % m := Pending(n, prk)];
    forall id: u64 | 1 <= id <= n
      ensures t'.Found(id) <==> Removed(id) !in h' && t'.last < id + m
      ensures t'.Found(id) ==> Added(id, t'.Get(id).prk) in h'
    {
      if id < n {
        if id % m == n % m && n < id + m {
          SameResidue(id, n, m);
        }
        if n == id + m {
          NextRound(id, m);
        }
      } else {
        assert h'[|h|] == Added(n, prk);
      }
    }
    forall i | 0 <= i < |t'.entries|
      ensures InPlace(t', i, t'.entries[i].id)
    {
      var id := t'.entries[i].id;
      if i != n % m && id != 0 && n == id + m {
        NextRound(id, m);
      }
    }
  }

  lemma RemoveRefines(t: Table, h: seq<TableEvent>, id: u64)
    requires Refines(t, h) && t.Found(id)
    ensures Refines(t.Remove(id), h + [Removed(id)])
  {
    hide BitAnd, Pow2;
    var m := Pow2(t.order);
    var t', h' := t.Remove(id), h + [Removed(id)];
    forall x: u64 | true
      ensures t.Index(x) == t'.Index(x) == x % m < m
    {
      IndexInRange(t, x);
      IndexInRange(t', x);
    }
    assert t'.entries == t.entries[id % m := NoRequest()];
    assert t.entries[id % m].id == id;
    forall x: u64 | 1 <= x <= t'.last
      ensures t'.Found(x) <==> Removed(x) !in h' && t'.last < x + m
      ensures t'.Found(x) ==> Added(x, t'.Get(x).prk) in h'
    {
      if x == id {
        assert h'[|h|] == Removed(id);
      }
    }
  }
}
