/**
 The queues of values a test registers for mocked functions and parameters: nested maps from symbol
 names to lists of values with counts, and what retrievals from them yield.
 */
module SymbolMaps {
  import opened Options

  /** A value to return, and how often still; a negative count means always. */
  datatype Item = Item(value: nat, refcount: int)

  // One queue.

  /** One retrieval: the first value is counted down and goes when its count is up. */
  function Taken(q: seq<Item>): seq<Item>
    requires q != []
  {
    if q[0].refcount == 1 then q[1..] else [Item(q[0].value, q[0].refcount - 1)] + q[1..]
  }

  /** The n-th value a queue yields: each as often as its count says, in order. */
  function Nth(q: seq<Item>, n: nat): Option<nat> {
    if q == [] then None
    else if q[0].refcount < 0 || n < q[0].refcount then Some(q[0].value)
    else Nth(q[1..], n - q[0].refcount)
  }

  predicate Counted(q: seq<Item>) { forall i :: 0 <= i < |q| ==> q[i].refcount != 0 }

  predicate Endless(q: seq<Item>) { q != [] && (q[0].refcount < 0 || Endless(q[1..])) }

  /** How many values a queue yields, if it is not endless. */
  function Total(q: seq<Item>): nat
    requires !Endless(q)
  {
    if q == [] then 0 else q[0].refcount + Total(q[1..])
  }

  lemma TakenShifts(q: seq<Item>, n: nat)
    requires Counted(q) && q != []
    ensures Counted(Taken(q)) && Nth(q, 0) == Some(q[0].value) && Nth(Taken(q), n) == Nth(q, n + 1)
    ensures Endless(Taken(q)) == Endless(q) && (!Endless(q) ==> Total(q) == Total(Taken(q)) + 1)
  {
    assert q[0].refcount != 1 ==> Taken(q)[1..] == q[1..];
  }

  lemma {:induction false} NthAppend(q: seq<Item>, x: Item, n: nat)
    requires x.refcount != 0
    ensures Endless(q) ==> Nth(q + [x], n) == Nth(q, n)
    ensures !Endless(q) ==> Nth(q + [x], n) == if n < Total(q) then Nth(q, n) else Nth([x], n - Total(q))
    ensures Endless(q + [x]) == (Endless(q) || x.refcount < 0)
    ensures !Endless(q + [x]) ==> Total(q + [x]) == Total(q) + x.refcount
  {
    if q == [] {
      assert q + [x] == [x] && [x][1..] == [];
    } else {
      assert (q + [x])[1..] == q[1..] + [x];
      NthAppend(q[1..], x, if q[0].refcount < 0 || n < q[0].refcount then 0 else n - q[0].refcount);
    }
  }

  lemma {:induction false} NthEnds(q: seq<Item>, n: nat)
    ensures Nth(q, n) == None <==> !Endless(q) && n >= Total(q)
    decreases |q|
  {
    if q != [] && q[0].refcount >= 0 && n >= q[0].refcount {
      NthEnds(q[1..], n - q[0].refcount);
    }
  }

  /** One queue yields what another yields from its m-th value on. */
  ghost predicate Shifted(q: seq<Item>, all: seq<Item>, m: nat) {
    forall n: nat :: Nth(q, n) == Nth(all, m + n)
  }

  lemma ShiftedAt(q: seq<Item>, all: seq<Item>, m: nat, n: nat)
    requires Shifted(q, all, m)
    ensures Nth(q, n) == Nth(all, m + n)
  {
    hide Nth;
  }

  lemma ShiftedIf(q: seq<Item>, all: seq<Item>, m: nat)
    requires forall n: nat :: Nth(q, n) == Nth(all, m + n)
    ensures Shifted(q, all, m)
  {
    hide Nth;
  }

  /** What is left of everything registered after m retrievals. */
  ghost predicate Remains(q: seq<Item>, all: seq<Item>, m: nat) {
    && Counted(q)
    && Shifted(q, all, m)
    && Endless(q) == Endless(all) && (!Endless(q) ==> Total(all) == m + Total(q))
  }

  lemma RemainsAfterTake(q: seq<Item>, all: seq<Item>, m: nat)
    requires Remains(q, all, m) && q != []
    ensures Remains(Taken(q), all, m + 1) && Nth(all, m) == Some(q[0].value)
  {
    hide Nth, Endless, Total, Taken, Counted, Shifted;
    TakenShifts(q, 0);
    ShiftedAt(q, all, m, 0);
    forall n: nat | true
      ensures Nth(Taken(q), n) == Nth(all, m + 1 + n)
    {
      TakenShifts(q, n);
      ShiftedAt(q, all, m, n + 1);
    }
    ShiftedIf(Taken(q), all, m + 1);
  }

  lemma RemainsAfterAdd(q: seq<Item>, all: seq<Item>, m: nat, x: Item)
    requires Remains(q, all, m) && x.refcount != 0
    ensures Remains(q + [x], all + [x], m)
  {
    hide Nth, Endless, Total, Shifted;
    forall n: nat | true
      ensures Nth(q + [x], n) == Nth(all + [x], m + n)
    {
      NthAppend(q, x, n);
      NthAppend(all, x, m + n);
      ShiftedAt(q, all, m, n);
    }
    ShiftedIf(q + [x], all + [x], m);
    NthAppend(q, x, 0);
    NthAppend(all, x, 0);
  }

  // Nested maps.

  datatype Tree = Queue(items: seq<Item>) | Map(entries: seq<Entry>)

  datatype Entry = Entry(name: string, child: Tree)

  predicate Empty(t: Tree) { if t.Queue? then t.items == [] else t.entries == [] }

  function EmptyTree(depth: nat): Tree { if depth == 0 then Queue([]) else Map([]) }

  /** Maps to the given depth, then queues. */
  predicate Shaped(t: Tree, depth: nat) {
    if depth == 0 then t.Queue?
    else t.Map? && forall i :: 0 <= i < |t.entries| ==> Shaped(t.entries[i].child, depth - 1)
  }

  /** In addition every name occurs once per level and nothing below a name is empty. */
  ghost predicate Tidy(t: Tree, depth: nat) {
    if depth == 0 then t.Queue? && Counted(t.items)
    else
      && t.Map?
      && (forall i, j :: 0 <= i < j < |t.entries| ==> t.entries[i].name != t.entries[j].name)
      && (forall i :: 0 <= i < |t.entries| ==> !Empty(t.entries[i].child) && Tidy(t.entries[i].child, depth - 1))
  }

  lemma {:induction false} TidyShaped(t: Tree, depth: nat)
    requires Tidy(t, depth)
    ensures Shaped(t, depth)
    decreases depth
  {
    if depth > 0 {
      forall i | 0 <= i < |t.entries|
        ensures Shaped(t.entries[i].child, depth - 1)
      {
        TidyShaped(t.entries[i].child, depth - 1);
      }
    }
  }

  /** The first entry for a name, or the number of entries. */
  function Find(entries: seq<Entry>, name: string): (k: nat)
    ensures k <= |entries| && (k < |entries| ==> entries[k].name == name)
    ensures forall i :: 0 <= i < k ==> entries[i].name != name
  {
    if entries == [] || entries[0].name == name then 0 else Find(entries[1..], name) + 1
  }

  /** Replaces entry k, or appends if there is none. */
  function Put(entries: seq<Entry>, k: nat, e: Entry): seq<Entry> {
    if k < |entries| then entries[k := e] else entries + [e]
  }

  function Cut(entries: seq<Entry>, k: nat): seq<Entry>
    requires k < |entries|
  {
    entries[..k] + entries[k + 1..]
  }

  /** The child of entry k, or a new one. */
  function ChildAt(t: Tree, k: nat, depth: nat): (child: Tree)
    requires t.Map? && Shaped(t, depth + 1)
    ensures Shaped(child, depth)
  {
    EmptyShaped(depth);
    if k < |t.entries| then t.entries[k].child else EmptyTree(depth)
  }

  function Add(t: Tree, names: seq<string>, x: Item): (r: Tree)
    requires Shaped(t, |names|)
    decreases |names|
  {
    if names == [] then Queue(t.items + [x])
    else
      var k := Find(t.entries, names[0]);
      Map(Put(t.entries, k, Entry(names[0], Add(ChildAt(t, k, |names| - 1), names[1..], x))))
  }

  lemma EmptyShaped(depth: nat)
    ensures Shaped(EmptyTree(depth), depth)
  {
  }

  /** The old count of the value retrieved, or zero if there is none; names left empty go. */
  function Get(t: Tree, names: seq<string>): (r: (Tree, int, nat))
    requires Shaped(t, |names|)
    decreases |names|
  {
    if names == [] then
      if t.items == [] then (t, 0, 0) else (Queue(Taken(t.items)), t.items[0].refcount, t.items[0].value)
    else
      var k := Find(t.entries, names[0]);
      if k < |t.entries| then
        var (child, rc, value) := Get(t.entries[k].child, names[1..]);
        (Map(if Empty(child) then Cut(t.entries, k) else Put(t.entries, k, Entry(names[0], child))), rc, value)
      else (t, 0, 0)
  }

  /** The queue a path of names leads to. */
  function Lookup(t: Tree, path: seq<string>): seq<Item>
    requires Shaped(t, |path|)
    decreases |path|
  {
    if path == [] then t.items
    else
      var k := Find(t.entries, path[0]);
      if k < |t.entries| then Lookup(t.entries[k].child, path[1..]) else []
  }

  lemma {:induction false} EmptyLookup(t: Tree, path: seq<string>)
    requires Shaped(t, |path|) && Empty(t)
    ensures Lookup(t, path) == []
  {
  }

  lemma PutTidy(t: Tree, depth: nat, e: Entry)
    requires Tidy(t, depth + 1) && Tidy(e.child, depth) && !Empty(e.child)
    ensures var r := Map(Put(t.entries, Find(t.entries, e.name), e)); Tidy(r, depth + 1) && !Empty(r)
  {
    hide Find;
    var k := Find(t.entries, e.name);
    var es := Put(t.entries, k, e);
    forall i | 0 <= i < |es|
      ensures !Empty(es[i].child) && Tidy(es[i].child, depth)
      ensures i < |t.entries| ==> es[i].name == t.entries[i].name
    {
      assert i != k ==> es[i] == t.entries[i];
    }
  }

  lemma PutFind(entries: seq<Entry>, e: Entry, name: string)
    ensures var k := Find(entries, e.name);
            var es := Put(entries, k, e);
            && (e.name == name ==> Find(es, name) == k < |es| && es[k] == e)
            && (e.name != name ==> if Find(entries, name) < |entries| then
                                     Find(es, name) == Find(entries, name) < |es|
                                       && es[Find(es, name)] == entries[Find(es, name)]
                                   else Find(es, name) == |es|)
  {
    hide Find;
    var k := Find(entries, e.name);
    var es := Put(entries, k, e);
    forall i | 0 <= i < |entries|
      ensures es[i].name == entries[i].name
    {
    }
    assert es[k] == e;
  }

  lemma CutFind(entries: seq<Entry>, k: nat, name: string)
    requires k < |entries| && forall i, j :: 0 <= i < j < |entries| ==> entries[i].name != entries[j].name
    ensures var es := Cut(entries, k);
            && (entries[k].name == name ==> Find(es, name) == |es|)
            && (entries[k].name != name ==> if Find(entries, name) < |entries| then
                                              Find(es, name) < |es|
                                                && es[Find(es, name)] == entries[Find(entries, name)]
                                            else Find(es, name) == |es|)
  {
    hide Find;
    var es := Cut(entries, k);
    forall i | 0 <= i < |es|
      ensures es[i] == entries[if i < k then i else i + 1]
    {
    }
    var g := Find(entries, name);
    if g < |entries| && g != k {
      assert es[if g < k then g else g - 1] == entries[g];
    }
  }

  lemma CutTidy(t: Tree, depth: nat, k: nat)
    requires Tidy(t, depth + 1) && k < |t.entries|
    ensures Tidy(Map(Cut(t.entries, k)), depth + 1)
  {
    var es := Cut(t.entries, k);
    forall i | 0 <= i < |es|
      ensures es[i] == t.entries[if i < k then i else i + 1]
    {
    }
  }

  /** Lookup by the first name of a path. */
  lemma LookupStep(t: Tree, path: seq<string>)
    requires path != [] && Shaped(t, |path|)
    ensures var k := Find(t.entries, path[0]);
            Lookup(t, path) == if k < |t.entries| then Lookup(t.entries[k].child, path[1..]) else []
  {
  }

  lemma TidyChild(t: Tree, depth: nat, k: nat)
    requires Tidy(t, depth + 1) && Shaped(t, depth + 1)
    ensures Tidy(ChildAt(t, k, depth), depth)
    ensures k < |t.entries| ==> !Empty(t.entries[k].child)
  {
  }

  lemma SamePath(a: seq<string>, b: seq<string>)
    requires a != [] && |a| == |b|
    ensures a == b <==> a[0] == b[0] && a[1..] == b[1..]
  {
    assert a == [a[0]] + a[1..] && b == [b[0]] + b[1..];
  }

  /** Adding appends to the queue of its path and touches no other. */
  lemma {:induction false} AddIs(t: Tree, names: seq<string>, x: Item, path: seq<string>)
    requires Tidy(t, |names|) && Shaped(t, |names|) && |path| == |names| && x.refcount != 0
    ensures Tidy(Add(t, names, x), |names|) && !Empty(Add(t, names, x)) && Shaped(Add(t, names, x), |names|)
    ensures Lookup(Add(t, names, x), path) == if path == names then Lookup(t, path) + [x] else Lookup(t, path)
    decreases |names|
  {
    if names == [] {
      assert path == names;
    } else {
      AddDeeper(t, names, x, path);
    }
  }

  lemma {:induction false} AddDeeper(t: Tree, names: seq<string>, x: Item, path: seq<string>)
    requires Tidy(t, |names|) && Shaped(t, |names|) && |path| == |names| > 0 && x.refcount != 0
    ensures Tidy(Add(t, names, x), |names|) && !Empty(Add(t, names, x)) && Shaped(Add(t, names, x), |names|)
    ensures Lookup(Add(t, names, x), path) == if path == names then Lookup(t, path) + [x] else Lookup(t, path)
    decreases |names|, 0
  {
    hide Tidy, Lookup, Find, Put, ChildAt, Empty;
    var d := |names| - 1;
    var k := Find(t.entries, names[0]);
    var child := ChildAt(t, k, d);
    TidyChild(t, d, k);
    AddIs(child, names[1..], x, path[1..]);
    var e := Entry(names[0], Add(child, names[1..], x));
    PutTidy(t, d, e);
    var r := Map(Put(t.entries, k, e));
    TidyShaped(r, d + 1);
    PutFind(t.entries, e, path[0]);
    SamePath(path, names);
    LookupStep(t, path);
    LookupStep(r, path);
    NewChild(t, k, d, path[1..]);
  }

  lemma NewChild(t: Tree, k: nat, depth: nat, path: seq<string>)
    requires t.Map? && Shaped(t, depth + 1) && |path| == depth
    ensures k < |t.entries| ==> ChildAt(t, k, depth) == t.entries[k].child
    ensures k >= |t.entries| ==> Lookup(ChildAt(t, k, depth), path) == []
  {
  }

  lemma PutSame(t: Tree, k: nat)
    requires t.Map? && k < |t.entries|
    ensures Map(Put(t.entries, k, Entry(t.entries[k].name, t.entries[k].child))) == t
  {
  }

  lemma NamesDiffer(t: Tree, depth: nat)
    requires Tidy(t, depth + 1)
    ensures forall i, j :: 0 <= i < j < |t.entries| ==> t.entries[i].name != t.entries[j].name
  {
  }

  /**
   Retrieving yields the first value of the queue of its path, counts it down, and touches no other queue.
   Below a name there is always a value, so the retrieval fails exactly when the queue is empty.
   */
  lemma {:induction false} GetIs(t: Tree, names: seq<string>, path: seq<string>)
    requires Tidy(t, |names|) && Shaped(t, |names|) && |path| == |names|
    ensures var q, r := Lookup(t, names), Get(t, names);
            && Tidy(r.0, |names|) && Shaped(r.0, |names|)
            && (if q == [] then r.1 == 0 && r.0 == t else r.1 == q[0].refcount != 0 && r.2 == q[0].value)
            && Lookup(r.0, path) == if path == names && q != [] then Taken(q) else Lookup(t, path)
    decreases |names|
  {
    if names == [] {
      assert path == names;
      if t.items != [] {
        TakenShifts(t.items, 0);
      }
    } else {
      GetDeeper(t, names, path);
    }
  }

  lemma {:induction false} GetDeeper(t: Tree, names: seq<string>, path: seq<string>)
    requires Tidy(t, |names|) && Shaped(t, |names|) && |path| == |names| > 0
    ensures var q, r := Lookup(t, names), Get(t, names);
            && Tidy(r.0, |names|) && Shaped(r.0, |names|)
            && (if q == [] then r.1 == 0 && r.0 == t else r.1 == q[0].refcount != 0 && r.2 == q[0].value)
            && Lookup(r.0, path) == if path == names && q != [] then Taken(q) else Lookup(t, path)
    decreases |names|, 0
  {
    hide Tidy, Lookup, Find, Put, Cut, Empty, Taken;
    var d := |names| - 1;
    var k := Find(t.entries, names[0]);
    LookupStep(t, names);
    LookupStep(t, path);
    SamePath(path, names);
    if k < |t.entries| {
      var child := t.entries[k].child;
      TidyChild(t, d, k);
      GetIs(child, names[1..], path[1..]);
      PutSame(t, k);
      var after := Get(child, names[1..]).0;
      var r := Get(t, names).0;
      if Empty(after) {
        CutTidy(t, d, k);
        NamesDiffer(t, d);
        CutFind(t.entries, k, path[0]);
        TidyShaped(r, d + 1);
        EmptyLookup(after, path[1..]);
      } else {
        var e := Entry(names[0], after);
        PutTidy(t, d, e);
        PutFind(t.entries, e, path[0]);
        TidyShaped(r, d + 1);
      }
      LookupStep(r, path);
    }
  }

  // Whole tests.

  datatype Op = Register(path: seq<string>, value: nat, count: int) | Retrieve(path: seq<string>)

  /** Counts are positive or minus one, and all paths have the depth of the map. */
  predicate Legal(ops: seq<Op>, depth: nat) {
    forall op :: op in ops ==> |op.path| == depth && (op.Register? ==> op.count > 0 || op.count == -1)
  }

  lemma EmptyTidy(depth: nat)
    ensures Tidy(EmptyTree(depth), depth) && Shaped(EmptyTree(depth), depth)
  {
  }

  ghost function Apply(t: Tree, op: Op): (r: Tree)
    requires Tidy(t, |op.path|) && Shaped(t, |op.path|) && (op.Register? ==> op.count != 0)
    ensures Tidy(r, |op.path|) && Shaped(r, |op.path|)
  {
    if op.Register? then
      AddIs(t, op.path, Item(op.value, op.count), op.path);
      Add(t, op.path, Item(op.value, op.count))
    else
      GetIs(t, op.path, op.path);
      Get(t, op.path).0
  }

  /** The map after any sequence of registrations and retrievals. */
  ghost function State(ops: seq<Op>, depth: nat): (t: Tree)
    requires Legal(ops, depth)
    ensures Tidy(t, depth) && Shaped(t, depth)
    decreases |ops|
  {
    if ops == [] then
      EmptyTidy(depth);
      EmptyTree(depth)
    else
      assert ops[|ops| - 1] in ops;
      Apply(State(ops[..|ops| - 1], depth), ops[|ops| - 1])
  }

  /** Everything registered for a path, in order. */
  ghost function Registered(ops: seq<Op>, path: seq<string>): seq<Item> {
    if ops == [] then []
    else
      var before, op := Registered(ops[..|ops| - 1], path), ops[|ops| - 1];
      if op.Register? && op.path == path then before + [Item(op.value, op.count)] else before
  }

  /** How many retrievals for a path have succeeded. */
  ghost function Retrieved(ops: seq<Op>, depth: nat, path: seq<string>): nat
    requires Legal(ops, depth) && |path| == depth
    decreases |ops|
  {
    if ops == [] then 0
    else
      var n := |ops| - 1;
      var before := Retrieved(ops[..n], depth, path);
      if ops[n] == Retrieve(path) && Get(State(ops[..n], depth), path).1 != 0 then before + 1 else before
  }

  /** The queue of a path is what is left of everything registered for it. */
  lemma {:induction false} QueueRemains(ops: seq<Op>, depth: nat, path: seq<string>)
    requires Legal(ops, depth) && |path| == depth
    ensures Remains(Lookup(State(ops, depth), path), Registered(ops, path), Retrieved(ops, depth, path))
    decreases |ops|
  {
    hide Remains, Tidy, Shaped, Add, Get, Lookup, Taken, Nth;
    if ops == [] {
      NothingRemains(depth, path);
    } else {
      var n := |ops| - 1;
      var t, op := State(ops[..n], depth), ops[n];
      assert op in ops;
      QueueRemains(ops[..n], depth, path);
      var q, all, m := Lookup(t, path), Registered(ops[..n], path), Retrieved(ops[..n], depth, path);
      match op
      case Register(p, value, count) =>
        AddIs(t, p, Item(value, count), path);
        RemainsAfterAdd(q, all, m, Item(value, count));
      case Retrieve(p) =>
        GetIs(t, p, path);
        if p == path && q != [] {
          RemainsAfterTake(q, all, m);
        }
    }
  }

  lemma NothingRemains(depth: nat, path: seq<string>)
    requires |path| == depth && Shaped(EmptyTree(depth), depth)
    ensures Remains(Lookup(EmptyTree(depth), path), [], 0)
  {
  }

  /**
   Whatever was registered and retrieved before, on whatever paths: the next retrieval yields the value that
   the registrations of its path, each repeated as often as asked, have at that position; it fails if there is none.
   */
  lemma RetrievalsInOrder(ops: seq<Op>, depth: nat, path: seq<string>)
    requires Legal(ops, depth) && |path| == depth
    ensures var r, x := Get(State(ops, depth), path), Nth(Registered(ops, path), Retrieved(ops, depth, path));
            (r.1 == 0 <==> x == None) && (x.Some? ==> r.2 == x.value)
  {
    hide Tidy, Shaped, Get, Lookup, Taken, Nth, State, Retrieved, Endless, Total, Shifted;
    QueueRemains(ops, depth, path);
    var q := Lookup(State(ops, depth), path);
    GetIs(State(ops, depth), path, path);
    ShiftedAt(q, Registered(ops, path), Retrieved(ops, depth, path), 0);
    FirstOf(q);
  }

  lemma FirstOf(q: seq<Item>)
    requires Counted(q)
    ensures Nth(q, 0) == if q == [] then None else Some(q[0].value)
  {
  }

  // The end of a test.

  /** An always-returned value that was returned at least once is no leftover. */
  function Dropped(q: seq<Item>): seq<Item> { if q != [] && q[0].refcount < -1 then q[1..] else q }

  function RemoveAlways(t: Tree, depth: nat): (r: Tree)
    requires Shaped(t, depth)
    decreases depth, 0
  {
    if depth == 0 then Queue(Dropped(t.items)) else Map(Pruned(t.entries, depth - 1))
  }

  function Pruned(entries: seq<Entry>, depth: nat): seq<Entry>
    requires forall i :: 0 <= i < |entries| ==> Shaped(entries[i].child, depth)
    decreases depth, |entries| + 1
  {
    if entries == [] then []
    else
      var child := RemoveAlways(entries[0].child, depth);
      (if Empty(child) then [] else [Entry(entries[0].name, child)]) + Pruned(entries[1..], depth)
  }

  function Leftovers(entries: seq<Entry>): nat {
    if entries == [] then 0 else (if Empty(entries[0].child) then 0 else 1) + Leftovers(entries[1..])
  }

  ghost predicate Distinct(entries: seq<Entry>) {
    forall i, j :: 0 <= i < j < |entries| ==> entries[i].name != entries[j].name
  }

  lemma ConsFind(e: Entry, rest: seq<Entry>, name: string)
    ensures Find([e] + rest, name) == if e.name == name then 0 else Find(rest, name) + 1
  {
    assert ([e] + rest)[1..] == rest;
  }

  /** Pruning keeps the names with something left, and nothing else. */
  lemma {:induction false} PrunedFind(entries: seq<Entry>, depth: nat, name: string)
    requires Distinct(entries) && forall i :: 0 <= i < |entries| ==> Shaped(entries[i].child, depth)
    ensures var k, es := Find(entries, name), Pruned(entries, depth);
            if k < |entries| && !Empty(RemoveAlways(entries[k].child, depth)) then
              Find(es, name) < |es| && es[Find(es, name)] == Entry(name, RemoveAlways(entries[k].child, depth))
            else Find(es, name) == |es|
    decreases |entries|
  {
    hide RemoveAlways, Shaped, Empty, Find;
    if entries != [] {
      PrunedFind(entries[1..], depth, name);
      var e := Entry(entries[0].name, RemoveAlways(entries[0].child, depth));
      var rest := Pruned(entries[1..], depth);
      ConsFind(entries[0], entries[1..], name);
      ConsFind(e, rest, name);
      assert entries == [entries[0]] + entries[1..] && [] + rest == rest;
    }
  }

  lemma {:induction false} RemoveAlwaysTidy(t: Tree, depth: nat)
    requires Tidy(t, depth) && Shaped(t, depth)
    ensures Tidy(RemoveAlways(t, depth), depth) && Shaped(RemoveAlways(t, depth), depth)
    decreases depth, 0
  {
    if depth > 0 {
      PrunedTidy(t.entries, depth - 1);
    }
    TidyShaped(RemoveAlways(t, depth), depth);
  }

  lemma {:induction false} PrunedTidy(entries: seq<Entry>, depth: nat)
    requires Tidy(Map(entries), depth + 1) && Shaped(Map(entries), depth + 1)
    ensures Tidy(Map(Pruned(entries, depth)), depth + 1)
    decreases depth, |entries| + 1
  {
    hide RemoveAlways, Find;
    if entries != [] {
      var child := RemoveAlways(entries[0].child, depth);
      RemoveAlwaysTidy(entries[0].child, depth);
      PrunedTidy(entries[1..], depth);
      var rest := Pruned(entries[1..], depth);
      PrunedFind(entries[1..], depth, entries[0].name);
      ConsTidy(Entry(entries[0].name, child), rest, depth);
      assert [] + rest == rest;
    }
  }

  lemma ConsTidy(e: Entry, rest: seq<Entry>, depth: nat)
    requires Tidy(Map(rest), depth + 1) && Tidy(e.child, depth)
    ensures !Empty(e.child) && Find(rest, e.name) == |rest| ==> Tidy(Map([e] + rest), depth + 1)
  {
    hide Find;
    if !Empty(e.child) && Find(rest, e.name) == |rest| {
      var es := [e] + rest;
      forall i | 0 <= i < |es|
        ensures !Empty(es[i].child) && Tidy(es[i].child, depth)
      {
        assert i > 0 ==> es[i] == rest[i - 1];
      }
    }
  }

  /** At the end every queue has lost its returned always-value, if that was first. */
  lemma {:induction false} RemoveAlwaysIs(t: Tree, depth: nat, path: seq<string>)
    requires Tidy(t, depth) && Shaped(t, depth) && |path| == depth
    ensures Shaped(RemoveAlways(t, depth), depth)
    ensures Lookup(RemoveAlways(t, depth), path) == Dropped(Lookup(t, path))
    decreases depth
  {
    RemoveAlwaysTidy(t, depth);
    if depth > 0 {
      RemovedBelow(t, depth, path);
    }
  }

  lemma {:induction false} RemovedBelow(t: Tree, depth: nat, path: seq<string>)
    requires depth > 0 && Tidy(t, depth) && Shaped(t, depth) && |path| == depth && Shaped(RemoveAlways(t, depth), depth)
    ensures Lookup(RemoveAlways(t, depth), path) == Dropped(Lookup(t, path))
    decreases depth, 0
  {
    hide Lookup, Find, Pruned, Dropped, Empty;
    NamesDiffer(t, depth - 1);
    PrunedFind(t.entries, depth - 1, path[0]);
    LookupStep(t, path);
    LookupStep(RemoveAlways(t, depth), path);
    var k := Find(t.entries, path[0]);
    if k < |t.entries| {
      var child := t.entries[k].child;
      RemoveAlwaysIs(child, depth - 1, path[1..]);
      if Empty(RemoveAlways(child, depth - 1)) {
        EmptyLookup(RemoveAlways(child, depth - 1), path[1..]);
      }
    } else {
      DroppedNothing();
    }
  }

  lemma DroppedNothing()
    ensures Dropped([]) == []
  {
  }

  lemma {:induction false} LeftoversAll(entries: seq<Entry>)
    requires forall i :: 0 <= i < |entries| ==> !Empty(entries[i].child)
    ensures Leftovers(entries) == |entries|
  {
    if entries != [] {
      LeftoversAll(entries[1..]);
    }
  }

  /** Where there is an entry there is a value. */
  lemma {:induction false} SomeValue(t: Tree, depth: nat) returns (path: seq<string>)
    requires Tidy(t, depth) && Shaped(t, depth) && !Empty(t)
    ensures |path| == depth && Lookup(t, path) != []
    decreases depth
  {
    if depth == 0 {
      path := [];
    } else {
      var e := t.entries[0];
      var rest := SomeValue(e.child, depth - 1);
      path := [e.name] + rest;
      assert path[1..] == rest;
    }
  }

  /** A test has no leftovers exactly when each queue is used up, up to one always-value that was returned. */
  lemma NoLeftoversIff(t: Tree, depth: nat)
    requires depth > 0 && Tidy(t, depth) && Shaped(t, depth)
    ensures Leftovers(RemoveAlways(t, depth).entries) == 0 <==>
              forall path | |path| == depth :: Dropped(Lookup(t, path)) == []
  {
    hide Lookup, Find, Pruned, Dropped, Leftovers, RemoveAlways;
    var r := RemoveAlways(t, depth);
    RemoveAlwaysTidy(t, depth);
    LeftoversAll(r.entries);
    forall path | |path| == depth
      ensures Lookup(r, path) == Dropped(Lookup(t, path))
    {
      RemoveAlwaysIs(t, depth, path);
    }
    if Empty(r) {
      forall path | |path| == depth
        ensures Lookup(r, path) == []
      {
        EmptyLookup(r, path);
      }
    } else {
      var path := SomeValue(r, depth);
    }
  }

  // The cleanup after a test.

  /** Every value still registered, in the order of the lists. */
  function Held(t: Tree, depth: nat): seq<nat>
    requires Shaped(t, depth)
    decreases depth, 0
  {
    if depth == 0 then seq(|t.items|, i requires 0 <= i < |t.items| => t.items[i].value)
    else HeldBelow(t.entries, depth - 1)
  }

  function HeldBelow(entries: seq<Entry>, depth: nat): seq<nat>
    requires forall i :: 0 <= i < |entries| ==> Shaped(entries[i].child, depth)
    decreases depth, |entries| + 1
  {
    if entries == [] then [] else Held(entries[0].child, depth) + HeldBelow(entries[1..], depth)
  }

  lemma {:induction false} HeldUnder(entries: seq<Entry>, depth: nat, k: nat, v: nat)
    requires k < |entries| && forall i :: 0 <= i < |entries| ==> Shaped(entries[i].child, depth)
    requires v in Held(entries[k].child, depth)
    ensures v in HeldBelow(entries, depth)
  {
    hide Held, Shaped;
    if k > 0 {
      HeldUnder(entries[1..], depth, k - 1, v);
    }
  }

  lemma {:induction false} HeldUnderSome(entries: seq<Entry>, depth: nat, v: nat) returns (k: nat)
    requires forall i :: 0 <= i < |entries| ==> Shaped(entries[i].child, depth)
    requires v in HeldBelow(entries, depth)
    ensures k < |entries| && v in Held(entries[k].child, depth)
  {
    hide Held, Shaped;
    if v in Held(entries[0].child, depth) {
      k := 0;
    } else {
      k := HeldUnderSome(entries[1..], depth, v);
      k := k + 1;
    }
  }

  lemma DistinctFind(t: Tree, depth: nat, k: nat)
    requires Tidy(t, depth + 1) && k < |t.entries|
    ensures Find(t.entries, t.entries[k].name) == k
  {
    hide Find;
  }

  lemma {:induction false} HeldSomewhere(t: Tree, depth: nat, v: nat) returns (path: seq<string>, i: nat)
    requires Tidy(t, depth) && Shaped(t, depth) && v in Held(t, depth)
    ensures |path| == depth && i < |Lookup(t, path)| && Lookup(t, path)[i].value == v
    decreases depth
  {
    hide Find, HeldBelow;
    if depth == 0 {
      path := [];
      i :| 0 <= i < |t.items| && t.items[i].value == v;
    } else {
      var k := HeldUnderSome(t.entries, depth - 1, v);
      var rest;
      rest, i := HeldSomewhere(t.entries[k].child, depth - 1, v);
      path := [t.entries[k].name] + rest;
      DistinctFind(t, depth - 1, k);
      assert path[1..] == rest;
    }
  }

  lemma {:induction false} InQueueHeld(t: Tree, path: seq<string>, i: nat)
    requires Shaped(t, |path|) && i < |Lookup(t, path)|
    ensures Lookup(t, path)[i].value in Held(t, |path|)
    decreases |path|
  {
    hide Find, HeldBelow;
    if path == [] {
      assert Held(t, 0)[i] == t.items[i].value;
    } else {
      var k := Find(t.entries, path[0]);
      InQueueHeld(t.entries[k].child, path[1..], i);
      HeldUnder(t.entries, |path| - 1, k, Lookup(t, path)[i].value);
    }
  }

  /** A value is among those to free exactly if it is still in some queue. */
  lemma HeldIff(t: Tree, depth: nat, v: nat)
    requires Tidy(t, depth) && Shaped(t, depth)
    ensures v in Held(t, depth) <==>
              exists path, i | |path| == depth && 0 <= i < |Lookup(t, path)| :: Lookup(t, path)[i].value == v
  {
    hide Tidy, Shaped, Held, Lookup;
    if v in Held(t, depth) {
      var path, i := HeldSomewhere(t, depth, v);
    }
    forall path, i | |path| == depth && 0 <= i < |Lookup(t, path)| && Lookup(t, path)[i].value == v
      ensures v in Held(t, depth)
    {
      InQueueHeld(t, path, i);
    }
  }
}
