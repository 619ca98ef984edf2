/** The nested symbol maps as they are on the heap: lists of symbols, each with a list of its own. */
module MockMaps {
  import opened Options
  import opened SymbolMaps
  import opened CircularList

  /** Which nodes make up a map: its list, for each symbol in it the map below, and all nodes of all of them. */
  datatype Shape = Shape(head: ListNode, nodes: seq<ListNode>, kids: seq<Shape>, foot: set<ListNode>)

  /** The list of a map and the maps below lie in different places. */
  ghost predicate Apart(s: Shape) {
    && s.head in s.foot && (forall i :: 0 <= i < |s.nodes| ==> s.nodes[i] in s.foot)
    && (forall i :: 0 <= i < |s.kids| ==> s.kids[i].foot <= s.foot && s.head !in s.kids[i].foot)
    && (forall i, j :: 0 <= i < |s.nodes| && 0 <= j < |s.kids| ==> s.nodes[i] !in s.kids[j].foot)
    && (forall i, j :: 0 <= i < j < |s.kids| ==> s.kids[i].foot !! s.kids[j].foot)
  }

  /** A node points at the symbol of an entry, whose list is the given one. */
  ghost predicate Names(node: ListNode, kid: Shape, e: Entry)
    reads node
  {
    node.value.Symbol? && node.value.m.head == kid.head && node.value.m.name == e.name
  }

  /** The nodes are linked as they should be and hold the tree. */
  ghost predicate Represents(s: Shape, t: Tree, depth: nat)
    reads s.foot
    decreases depth
  {
    && Apart(s) && Ring(s.head, s.nodes)
    && if depth == 0 then
         s.kids == [] && t == Queue(Items(s.nodes)) && forall i :: 0 <= i < |s.nodes| ==> s.nodes[i].value.Number?
       else
         && t.Map? && |s.kids| == |s.nodes| == |t.entries|
         && forall i :: 0 <= i < |s.kids| ==>
              Names(s.nodes[i], s.kids[i], t.entries[i]) && Represents(s.kids[i], t.entries[i].child, depth - 1)
  }

  function Replaced(s: Shape, k: nat, kid: Shape): Shape
    requires k < |s.kids|
  {
    Shape(s.head, s.nodes, s.kids[k := kid], s.foot + kid.foot)
  }

  twostate predicate Kept(objects: set<ListNode>)
    reads objects
  {
    unchanged(objects)
  }

  /** Changing one child and nothing else of a map. */
  twostate lemma ReplaceKid(s: Shape, new t: Tree, new depth: nat, new k: nat, new kid: Shape, new child: Tree)
    requires depth > 0 && old(Represents(s, t, depth)) && k < |s.kids|
    requires Represents(kid, child, depth - 1) && kid.head == s.kids[k].head
    requires Kept(s.foot - s.kids[k].foot) && kid.foot !! (s.foot - s.kids[k].foot)
    ensures t.Map? && |t.entries| == |s.kids|
    ensures Represents(Replaced(s, k, kid), Map(t.entries[k := Entry(t.entries[k].name, child)]), depth)
  {
    hide Ring;
    var r, t' := Replaced(s, k, kid), Map(t.entries[k := Entry(t.entries[k].name, child)]);
    forall i | 0 <= i < |s.kids|
      ensures Names(r.nodes[i], r.kids[i], t'.entries[i]) && Represents(r.kids[i], t'.entries[i].child, depth - 1)
    {
      assert s.nodes[i] in s.foot - s.kids[k].foot;
      if i != k {
        assert s.kids[i].foot <= s.foot - s.kids[k].foot;
      }
    }
    assert Ring(s.head, s.nodes);
  }

  /** The nodes of the maps below. */
  ghost function Lower(s: Shape): set<ListNode> { s.foot - {s.head} - set n | n in s.nodes }

  /** What relinking the list of a map leaves as it was. */
  twostate predicate Relinked(s: Shape)
    reads s.foot
  {
    && Kept(Lower(s))
    && forall i :: 0 <= i < |s.nodes| ==> s.nodes[i] in s.foot && s.nodes[i].value == old(s.nodes[i].value)
  }

  twostate lemma SameBelow(s: Shape, new t: Tree, new depth: nat)
    requires depth > 0 && old(Represents(s, t, depth)) && Relinked(s)
    ensures t.Map? && |s.kids| == |s.nodes| == |t.entries| && Apart(s)
    ensures forall i :: 0 <= i < |s.kids| ==>
              Names(s.nodes[i], s.kids[i], t.entries[i]) && Represents(s.kids[i], t.entries[i].child, depth - 1)
  {
    hide Ring;
    forall i | 0 <= i < |s.kids|
      ensures Names(s.nodes[i], s.kids[i], t.entries[i]) && Represents(s.kids[i], t.entries[i].child, depth - 1)
    {
      assert s.kids[i].foot <= Lower(s);
    }
  }

  function Appended(s: Shape, node: ListNode, kid: Shape): Shape {
    Shape(s.head, s.nodes + [node], s.kids + [kid], s.foot + {node} + kid.foot)
  }

  /** A symbol added at the end of the list. */
  twostate lemma AppendKid(s: Shape, new t: Tree, new depth: nat, new node: ListNode, new kid: Shape, new e: Entry)
    requires depth > 0 && old(Represents(s, t, depth)) && Relinked(s) && Ring(s.head, s.nodes + [node])
    requires node !in s.foot && kid.foot !! s.foot && node !in kid.foot
    requires Names(node, kid, e) && Represents(kid, e.child, depth - 1)
    ensures t.Map? && Represents(Appended(s, node, kid), Map(t.entries + [e]), depth)
  {
    hide Ring, Relinked;
    SameBelow(s, t, depth);
    var r, es := Appended(s, node, kid), t.entries + [e];
    forall i | 0 <= i < |r.kids|
      ensures Names(r.nodes[i], r.kids[i], es[i]) && Represents(r.kids[i], es[i].child, depth - 1)
    {
    }
  }

  ghost function Shortened(s: Shape, k: nat): Shape
    requires k < |s.kids| == |s.nodes|
  {
    Shape(s.head, Without(s.nodes, k), s.kids[..k] + s.kids[k + 1..], s.foot)
  }

  lemma CutLength(es: seq<Entry>, k: nat)
    requires k < |es|
    ensures |Cut(es, k)| == |es| - 1
  {
  }

  lemma CutAt(s: Shape, es: seq<Entry>, k: nat, i: nat)
    requires k < |s.kids| == |s.nodes| == |es| && i < |s.kids| - 1
    ensures var r, j := Shortened(s, k), if i < k then i else i + 1;
            && i < |r.kids| == |r.nodes| == |Cut(es, k)|
            && r.nodes[i] == s.nodes[j] && r.kids[i] == s.kids[j] && Cut(es, k)[i] == es[j]
  {
  }

  lemma CutApart(s: Shape, k: nat)
    requires Apart(s) && k < |s.kids| == |s.nodes|
    ensures Apart(Shortened(s, k))
  {
    hide Shortened, Cut;
    var r := Shortened(s, k);
    var es := seq(|s.kids|, _ => Entry("", Queue([])));
    CutLengths(s, k);
    forall i | 0 <= i < |r.kids|
      ensures r.nodes[i] == s.nodes[if i < k then i else i + 1] && r.kids[i] == s.kids[if i < k then i else i + 1]
    {
      CutAt(s, es, k, i);
    }
  }

  lemma CutLengths(s: Shape, k: nat)
    requires k < |s.kids| == |s.nodes|
    ensures var r := Shortened(s, k);
            && |r.kids| == |r.nodes| == |s.kids| - 1
            && r.head == s.head && r.foot == s.foot && r.nodes == Without(s.nodes, k)
  {
  }

  /** A symbol taken out of the list. */
  twostate lemma CutKid(s: Shape, new t: Tree, new depth: nat, new k: nat)
    requires depth > 0 && old(Represents(s, t, depth)) && Relinked(s) && k < |s.kids| == |s.nodes|
    requires Ring(s.head, Without(s.nodes, k))
    ensures t.Map? && k < |t.entries| && Represents(Shortened(s, k), Map(Cut(t.entries, k)), depth)
  {
    hide Ring, Relinked, Shortened, Cut, Apart, Without, Names;
    SameBelow(s, t, depth);
    var r, es := Shortened(s, k), Cut(t.entries, k);
    CutLengths(s, k);
    CutApart(s, k);
    CutLength(t.entries, k);
    forall i | 0 <= i < |r.kids|
      ensures Names(r.nodes[i], r.kids[i], es[i]) && Represents(r.kids[i], es[i].child, depth - 1)
    {
      CutAt(s, t.entries, k, i);
    }
  }

  lemma {:induction false} RepresentsShaped(s: Shape, t: Tree, depth: nat)
    requires Represents(s, t, depth)
    ensures Shaped(t, depth) && (Empty(t) <==> s.nodes == [])
    decreases depth
  {
    hide Ring;
    if depth > 0 {
      forall i | 0 <= i < |t.entries|
        ensures Shaped(t.entries[i].child, depth - 1)
      {
        RepresentsShaped(s.kids[i], t.entries[i].child, depth - 1);
      }
    }
  }

  lemma EmptyRepresents(head: ListNode, depth: nat)
    requires Ring(head, [])
    ensures Represents(Shape(head, [], [], {head}), EmptyTree(depth), depth)
  {
  }

  // The operations.

  method FindSymbol(head: ListNode, name: string, ghost s: Shape, ghost t: Tree, ghost depth: nat)
    returns (node: ListNode?, ghost k: nat)
    requires depth > 0 && Represents(s, t, depth) && s.head == head
    ensures t.Map? && |s.nodes| == |s.kids| == |t.entries| && k == Find(t.entries, name)
    ensures if k < |t.entries| then node == s.nodes[k] else node == null
  {
    hide Ring, Find, Apart;
    node, k := FindFirst(head, (v: Payload) => v.Symbol? && v.m.name == name, s.nodes);
  }

  /** A new symbol with an empty list, at the end. */
  method AddSymbol(head: ListNode, name: string, ghost s: Shape, ghost t: Tree, ghost depth: nat)
    returns (node: ListNode, ghost r: Shape)
    requires depth > 0 && Represents(s, t, depth) && s.head == head
    modifies s.foot
    ensures fresh(r.foot - s.foot) && r.head == head
    ensures t.Map? && |r.nodes| == |t.entries| + 1 && node == r.nodes[|t.entries|]
    ensures Represents(r, Map(t.entries + [Entry(name, EmptyTree(depth - 1))]), depth)
  {
    hide Ring, EmptyTree;
    var m := new SymbolMapValue(name);
    Links(head, s.nodes, |s.nodes|);
    node := AddValue(head, Symbol(m), 1, s.nodes);
    ghost var kid := Shape(m.head, [], [], {m.head});
    EmptyRepresents(m.head, depth - 1);
    AppendKid(s, t, depth, node, kid, Entry(name, EmptyTree(depth - 1)));
    r := Appended(s, node, kid);
  }

  /** With no names left, the value goes into the list itself. */
  method AddNumber(head: ListNode, x: Item, ghost s: Shape, ghost t: Tree) returns (ghost r: Shape)
    requires Represents(s, t, 0) && s.head == head
    modifies s.foot
    ensures fresh(r.foot - s.foot) && r.head == head && Represents(r, Queue(t.items + [x]), 0)
  {
    Links(head, s.nodes, |s.nodes|);
    var node := AddValue(head, Number(x.value), x.refcount, s.nodes);
    r := Shape(head, s.nodes + [node], [], s.foot + {node});
    assert Items(r.nodes) == t.items + [x];
  }

  /** The map with a symbol for a name, new or not. */
  ghost function Ensured(t: Tree, name: string, depth: nat): Tree
    requires t.Map?
  {
    if Find(t.entries, name) < |t.entries| then t else Map(t.entries + [Entry(name, EmptyTree(depth))])
  }

  method FindOrAddSymbol(head: ListNode, name: string, ghost s: Shape, ghost t: Tree, ghost depth: nat)
    returns (node: ListNode, ghost k: nat, ghost r: Shape)
    requires depth > 0 && Represents(s, t, depth) && s.head == head
    modifies s.foot
    ensures fresh(r.foot - s.foot) && r.head == head && t.Map? && k == Find(t.entries, name)
    ensures k < |r.nodes| == |r.kids| && node == r.nodes[k] && Represents(r, Ensured(t, name, depth - 1), depth)
  {
    hide Ring, Find, Apart, EmptyTree;
    var found;
    found, k := FindSymbol(head, name, s, t, depth);
    if found == null {
      node, r := AddSymbol(head, name, s, t, depth);
    } else {
      node, r := found, s;
    }
  }

  /** What a map says about one of its symbols. */
  lemma Kid(s: Shape, t: Tree, depth: nat, k: nat)
    requires depth > 0 && Represents(s, t, depth) && k < |s.kids|
    ensures t.Map? && |t.entries| == |s.kids| == |s.nodes| && s.kids[k].foot <= s.foot
    ensures s.nodes[k].value.Symbol? && s.nodes[k].value.m.head == s.kids[k].head
    ensures Represents(s.kids[k], t.entries[k].child, depth - 1) && Shaped(t.entries[k].child, depth - 1)
  {
    hide Ring;
    RepresentsShaped(s, t, depth);
  }

  lemma AddIsPut(t: Tree, names: seq<string>, x: Item)
    requires names != [] && Shaped(t, |names|) && t.Map?
    ensures var k, t1 := Find(t.entries, names[0]), Ensured(t, names[0], |names| - 1);
            && k < |t1.entries| && Shaped(t1.entries[k].child, |names| - 1)
            && Add(t, names, x)
               == Map(t1.entries[k := Entry(t1.entries[k].name, Add(t1.entries[k].child, names[1..], x))])
  {
    hide Find;
    EmptyShaped(|names| - 1);
  }

  method AddSymbolValue(head: ListNode, names: seq<string>, x: Item, ghost s: Shape, ghost t: Tree)
    returns (ghost r: Shape)
    requires Represents(s, t, |names|) && s.head == head && Shaped(t, |names|)
    modifies s.foot
    ensures fresh(r.foot - s.foot) && r.head == head && Represents(r, Add(t, names, x), |names|)
    decreases |names|
  {
    if |names| == 0 {
      r := AddNumber(head, x, s, t);
    } else {
      r := AddUnderSymbol(head, names, x, s, t);
    }
  }

  method AddUnderSymbol(head: ListNode, names: seq<string>, x: Item, ghost s: Shape, ghost t: Tree)
    returns (ghost r: Shape)
    requires names != [] && Represents(s, t, |names|) && s.head == head && Shaped(t, |names|)
    modifies s.foot
    ensures fresh(r.foot - s.foot) && r.head == head && Represents(r, Add(t, names, x), |names|)
    decreases |names|, 0
  {
    hide Ring, Find, Apart, EmptyTree, Shaped, Represents, Add, Ensured;
    var node, k, s1 := FindOrAddSymbol(head, names[0], s, t, |names|);
    ghost var t1 := Ensured(t, names[0], |names| - 1);
    Kid(s1, t1, |names|, k);
    AddIsPut(t, names, x);
    label Found:
    ghost var kid, child := s1.kids[k], t1.entries[k].child;
    ghost var kid' := AddSymbolValue(node.value.m.head, names[1..], x, kid, child);
    ReplaceKid@Found(s1, t1, |names|, k, kid', Add(child, names[1..], x));
    r := Replaced(s1, k, kid');
  }

  /** With no names left, the value comes from the list itself, which is never empty here. */
  method TakeNumber(head: ListNode, ghost s: Shape, ghost t: Tree) returns (rc: int, value: nat, ghost r: Shape)
    requires Represents(s, t, 0) && s.head == head && t.items != []
    modifies s.foot
    ensures r.foot == s.foot && r.head == head && Represents(r, Queue(Taken(t.items)), 0)
    ensures rc == t.items[0].refcount && value == t.items[0].value
  {
    hide Ring, Taken;
    assert s.nodes[0].value.Number?;
    var payload;
    ghost var left;
    rc, payload, left := TakeFirst(head, s.nodes);
    value := payload.n;
    r := Shape(head, left, [], s.foot);
  }

  /** Unlinks a symbol from its list. */
  method RemoveSymbol(node: ListNode, ghost s: Shape, ghost t: Tree, ghost depth: nat, ghost k: nat)
    requires depth > 0 && Represents(s, t, depth) && k < |s.kids| == |s.nodes| && node == s.nodes[k]
    modifies s.foot
    ensures t.Map? && k < |t.entries| && Represents(s.kids[k], t.entries[k].child, depth - 1)
    ensures Represents(Shortened(s, k), Map(Cut(t.entries, k)), depth)
  {
    hide Ring, Shortened, Cut;
    Links(s.head, s.nodes, k);
    Links(s.head, s.nodes, k + 1);
    Remove(node, s.head, s.nodes, k);
    SameBelow(s, t, depth);
    CutKid(s, t, depth, k);
  }

  lemma GetIsChild(t: Tree, names: seq<string>)
    requires names != [] && Shaped(t, |names|) && t.Map?
    ensures var k := Find(t.entries, names[0]);
            if k < |t.entries| then
              && Shaped(t.entries[k].child, |names| - 1)
              && var (child, rc, value) := Get(t.entries[k].child, names[1..]);
                 var es := t.entries[k := Entry(t.entries[k].name, child)];
                 Get(t, names) == (Map(if Empty(child) then Cut(es, k) else es), rc, value)
            else Get(t, names) == (t, 0, 0)
  {
    hide Find;
    var k := Find(t.entries, names[0]);
    if k < |t.entries| {
      var child := Get(t.entries[k].child, names[1..]).0;
      assert Cut(t.entries[k := Entry(t.entries[k].name, child)], k) == Cut(t.entries, k);
    }
  }

  lemma HasRing(s: Shape, t: Tree, depth: nat)
    requires Represents(s, t, depth)
    ensures Ring(s.head, s.nodes) && (Empty(t) <==> s.nodes == [])
  {
    hide Ring, Apart;
  }

  /** Every list below a symbol holds a value, so the one that is asked for has a first. */
  method GetSymbolValue(head: ListNode, names: seq<string>, ghost s: Shape, ghost t: Tree)
    returns (rc: int, value: nat, ghost r: Shape)
    requires Represents(s, t, |names|) && s.head == head && Shaped(t, |names|) && Tidy(t, |names|)
             && (names == [] ==> !Empty(t))
    modifies s.foot
    ensures r.foot == s.foot && r.head == head && Represents(r, Get(t, names).0, |names|)
    ensures rc == Get(t, names).1 && value == Get(t, names).2
    decreases |names|
  {
    if |names| == 0 {
      rc, value, r := TakeNumber(head, s, t);
    } else {
      rc, value, r := GetUnderSymbol(head, names, s, t);
    }
  }

  method GetUnderSymbol(head: ListNode, names: seq<string>, ghost s: Shape, ghost t: Tree)
    returns (rc: int, value: nat, ghost r: Shape)
    requires names != [] && Represents(s, t, |names|) && s.head == head && Shaped(t, |names|) && Tidy(t, |names|)
    modifies s.foot
    ensures r.foot == s.foot && r.head == head && Represents(r, Get(t, names).0, |names|)
    ensures rc == Get(t, names).1 && value == Get(t, names).2
    decreases |names|, 0
  {
    hide Ring, Find, Apart, Shaped, Represents, Get, Tidy, Empty, Cut;
    var node, k := FindSymbol(head, names[0], s, t, |names|);
    GetIsChild(t, names);
    if node == null {
      return 0, 0, s;
    }
    Kid(s, t, |names|, k);
    TidyKid(t, |names|, k);
    var list := node.value.m.head;
    ghost var kid, child := s.kids[k], t.entries[k].child;
    ghost var child', kid' := Get(child, names[1..]).0, kid;
    label Found:
    rc, value, kid' := GetSymbolValue(list, names[1..], kid, child);
    ReplaceKid@Found(s, t, |names|, k, kid', child');
    r := Replaced(s, k, kid');
    assert r.foot == s.foot;
    HasRing(kid', child', |names| - 1);
    var empty := IsEmpty(list, kid'.nodes);
    if empty {
      RemoveSymbol(node, r, Map(t.entries[k := Entry(t.entries[k].name, child')]), |names|, k);
      r := Shortened(r, k);
    }
  }

  lemma TidyKid(t: Tree, depth: nat, k: nat)
    requires depth > 0 && Tidy(t, depth) && k < |t.entries|
    ensures Tidy(t.entries[k].child, depth - 1) && !Empty(t.entries[k].child)
  {
  }

  // The end of a test.

  /** The first value of a list goes if it is always returned and has been returned. */
  method DropReturned(head: ListNode, ghost s: Shape, ghost t: Tree) returns (ghost r: Shape)
    requires Represents(s, t, 0) && s.head == head && t.items != []
    modifies s.foot
    ensures r.foot == s.foot && r.head == head && Represents(r, Queue(Dropped(t.items)), 0)
  {
    hide Ring;
    Links(head, s.nodes, 0);
    var node := head.next;
    r := s;
    if node.refcount < -1 {
      Unlink(node, head, s.nodes);
      r := Shape(head, s.nodes[1..], [], s.foot);
    }
  }

  lemma EmptyStays(t: Tree, depth: nat)
    requires Shaped(t, depth) && Empty(t)
    ensures RemoveAlways(t, depth) == t
  {
  }

  /** What one turn does to the list below a symbol. */
  method RemoveBelow(list: ListNode, depth: nat, ghost s: Shape, ghost t: Tree) returns (ghost r: Shape)
    requires Represents(s, t, depth) && s.head == list && Shaped(t, depth)
    modifies s.foot
    ensures r.foot == s.foot && r.head == list && Represents(r, RemoveAlways(t, depth), depth)
    decreases depth, 2
  {
    hide Ring, Represents, RemoveAlways, Apart;
    HasRing(s, t, depth);
    var empty := IsEmpty(list, s.nodes);
    r := s;
    if empty {
      EmptyStays(t, depth);
    } else if depth == 0 {
      r := DropReturned(list, s, t);
      RemoveAlwaysQueue(t);
    } else {
      r := RemoveAlwaysValues(list, depth, s, t);
    }
  }

  lemma RemoveAlwaysQueue(t: Tree)
    requires t.Queue?
    ensures RemoveAlways(t, 0) == Queue(Dropped(t.items))
  {
  }

  /** One turn: the list below the symbol is cleared of its always-values, and the symbol goes if nothing is left. */
  method RemoveAlwaysAt(node: ListNode, depth: nat, ghost s: Shape, ghost t: Tree, ghost k: nat)
    returns (ghost r: Shape)
    requires depth > 0 && Represents(s, t, depth) && Shaped(t, depth) && k < |s.kids| == |s.nodes| && node == s.nodes[k]
    modifies s.foot
    ensures r.foot == s.foot && r.head == s.head && t.Map? && k < |t.entries| && Shaped(t.entries[k].child, depth - 1)
    ensures var child := RemoveAlways(t.entries[k].child, depth - 1);
            if Empty(child) then r.nodes == Without(s.nodes, k) && Represents(r, Map(Cut(t.entries, k)), depth)
            else r.nodes == s.nodes && Represents(r, Map(t.entries[k := Entry(t.entries[k].name, child)]), depth)
    decreases depth, 0
  {
    hide Ring, Represents, RemoveAlways, Apart, Shaped, Cut, Empty, Without;
    Kid(s, t, depth, k);
    var list := node.value.m.head;
    ghost var child := RemoveAlways(t.entries[k].child, depth - 1);
    label Before:
    ghost var kid := RemoveBelow(list, depth - 1, s.kids[k], t.entries[k].child);
    ReplaceKid@Before(s, t, depth, k, kid, child);
    r := Replaced(s, k, kid);
    assert r.foot == s.foot;
    HasRing(kid, child, depth - 1);
    var empty := IsEmpty(list, kid.nodes);
    if empty {
      CutReplaced(t.entries, k, Entry(t.entries[k].name, child));
      RemoveSymbol(node, r, Map(t.entries[k := Entry(t.entries[k].name, child)]), depth, k);
      CutLengths(r, k);
      r := Shortened(r, k);
    }
  }

  lemma CutReplaced(es: seq<Entry>, k: nat, e: Entry)
    requires k < |es|
    ensures Cut(es[k := e], k) == Cut(es, k)
  {
  }

  lemma PruneStep(done: seq<Entry>, left: seq<Entry>, depth: nat)
    requires left != [] && forall i :: 0 <= i < |left| ==> Shaped(left[i].child, depth)
    ensures var es, k, child := done + left, |done|, RemoveAlways(left[0].child, depth);
            var e := Entry(left[0].name, child);
            && es[k] == left[0] && Cut(es, k) == done + left[1..] && es[k := e] == done + [e] + left[1..]
            && done + Pruned(left, depth) == (if Empty(child) then done else done + [e]) + Pruned(left[1..], depth)
  {
    hide RemoveAlways, Empty, Shaped;
  }

  lemma MapShaped(entries: seq<Entry>, depth: nat)
    ensures Shaped(Map(entries), depth + 1) <==> forall i :: 0 <= i < |entries| ==> Shaped(entries[i].child, depth)
  {
  }

  /** The next node is looked up before the turn, which may unlink the current one. */
  method RemoveAlwaysValues(head: ListNode, depth: nat, ghost s: Shape, ghost t: Tree) returns (ghost r: Shape)
    requires depth > 0 && Represents(s, t, depth) && s.head == head && Shaped(t, depth)
    modifies s.foot
    ensures r.foot == s.foot && r.head == head && Represents(r, RemoveAlways(t, depth), depth)
    decreases depth, 1
  {
    hide Ring, Represents, Pruned, Apart, Shaped, Cut, Empty, Without;
    Entries(s, t, depth);
    MapShaped(t.entries, depth - 1);
    Links(head, s.nodes, 0);
    var current := head.next;
    ghost var done, left: seq<Entry> := [], t.entries;
    assert done + left == t.entries && done + Pruned(left, depth - 1) == Pruned(t.entries, depth - 1);
    r := s;
    while current != head
      invariant r.foot == s.foot && r.head == head && Represents(r, Map(done + left), depth)
      invariant |r.nodes| == |r.kids| == |done| + |left| && Ring(head, r.nodes)
                && current == At(head, r.nodes, |done| + 1)
      invariant forall i :: 0 <= i < |left| ==> Shaped(left[i].child, depth - 1)
      invariant Shaped(Map(done + left), depth) && done + Pruned(left, depth - 1) == Pruned(t.entries, depth - 1)
      decreases |left|
    {
      ghost var k, es := |done|, done + left;
      NotHead(head, r.nodes, k);
      Links(head, r.nodes, k + 1);
      var next := current.next;
      PruneStep(done, left, depth - 1);
      ghost var nodes := r.nodes;
      r := RemoveAlwaysAt(current, depth, r, Map(es), k);
      ghost var child := RemoveAlways(left[0].child, depth - 1);
      done, left := if Empty(child) then done else done + [Entry(left[0].name, child)], left[1..];
      Entries(r, Map(done + left), depth);
      NextAt(head, nodes, k);
      current := next;
    }
    HeadOnly(head, r.nodes, |done|);
    PrunedNothing(depth - 1);
    assert done + left == done && done + [] == done;
  }

  lemma PrunedNothing(depth: nat)
    ensures Pruned([], depth) == []
  {
  }

  lemma Entries(s: Shape, t: Tree, depth: nat)
    requires depth > 0 && Represents(s, t, depth)
    ensures t.Map? && |s.nodes| == |s.kids| == |t.entries| && Ring(s.head, s.nodes) && Shaped(t, depth)
  {
    hide Ring, Apart;
    RepresentsShaped(s, t, depth);
  }

  lemma NotHead(head: ListNode, nodes: seq<ListNode>, k: nat)
    requires Ring(head, nodes) && k <= |nodes| && At(head, nodes, k + 1) != head
    ensures k < |nodes| && At(head, nodes, k + 1) == nodes[k]
  {
  }

  lemma HeadOnly(head: ListNode, nodes: seq<ListNode>, k: nat)
    requires Ring(head, nodes) && k <= |nodes| && At(head, nodes, k + 1) == head
    ensures k == |nodes|
  {
  }

  /** The node after node k, whether that goes or stays. */
  lemma NextAt(head: ListNode, nodes: seq<ListNode>, k: nat)
    requires k < |nodes|
    ensures |Without(nodes, k)| == |nodes| - 1
    ensures At(head, nodes, k + 2) == At(head, Without(nodes, k), k + 1)
  {
  }

  /** How many symbols still have values. */
  method CountLeftovers(head: ListNode, ghost s: Shape, ghost t: Tree, ghost depth: nat) returns (n: nat)
    requires depth > 0 && Represents(s, t, depth) && s.head == head
    ensures t.Map? && n == Leftovers(t.entries)
  {
    hide Ring, Represents, Empty, Apart, Shaped;
    Entries(s, t, depth);
    Links(head, s.nodes, 0);
    var current := head.next;
    ghost var k := 0;
    n := 0;
    while current != head
      invariant k <= |s.nodes| && current == At(head, s.nodes, k + 1)
      invariant n + Leftovers(t.entries[k..]) == Leftovers(t.entries)
      decreases |s.nodes| - k
    {
      NotHead(head, s.nodes, k);
      Kid(s, t, depth, k);
      HasRing(s.kids[k], t.entries[k].child, depth - 1);
      var empty := IsEmpty(current.value.m.head, s.kids[k].nodes);
      if !empty {
        n := n + 1;
      }
      Links(head, s.nodes, k + 1);
      assert t.entries[k..][0] == t.entries[k] && t.entries[k..][1..] == t.entries[k + 1..];
      current, k := current.next, k + 1;
    }
    HeadOnly(head, s.nodes, k);
  }

  // The cleanup after a test.

  /** Nodes that a map no longer uses may change. */
  twostate lemma SameElsewhere(s: Shape, new t: Tree, new depth: nat, new gone: set<ListNode>)
    requires depth > 0 && old(Represents(s, t, depth)) && Kept(s.foot - gone)
    requires s.head !in gone && (forall i :: 0 <= i < |s.nodes| ==> s.nodes[i] !in gone)
    requires forall i :: 0 <= i < |s.kids| ==> s.kids[i].foot !! gone
    ensures Represents(s, t, depth)
  {
    hide Ring;
    forall i | 0 <= i < |s.kids|
      ensures Names(s.nodes[i], s.kids[i], t.entries[i]) && Represents(s.kids[i], t.entries[i].child, depth - 1)
    {
      assert s.kids[i].foot <= s.foot - gone;
    }
    assert Ring(s.head, s.nodes);
  }

  lemma RestApart(s: Shape, t: Tree, depth: nat)
    requires depth > 0 && Represents(s, t, depth) && s.kids != []
    ensures |s.kids| == |s.nodes| && s.kids[0].foot <= s.foot
    ensures var r, gone := Shortened(s, 0), s.kids[0].foot;
            && r.head !in gone && (forall i :: 0 <= i < |r.nodes| ==> r.nodes[i] !in gone)
            && forall i :: 0 <= i < |r.kids| ==> r.kids[i].foot !! gone
  {
    hide Ring;
    assert Apart(s);
  }

  lemma CutFirst(es: seq<Entry>)
    requires es != []
    ensures Cut(es, 0) == es[1..]
  {
  }

  /** Frees the values of one list. */
  method FreeNumbers(head: ListNode, ghost s: Shape, ghost t: Tree) returns (freed: seq<nat>, ghost r: Shape)
    requires Represents(s, t, 0) && s.head == head && Shaped(t, 0)
    modifies s.foot
    ensures r.foot == s.foot && r.head == head && Represents(r, EmptyTree(0), 0) && freed == Held(t, 0)
  {
    var cleaned := Free(head, s.nodes);
    freed := seq(|cleaned|, i requires 0 <= i < |cleaned| => if cleaned[i].Number? then cleaned[i].n else 0);
    r := Shape(head, [], [], s.foot);
  }

  /** Unlinks the first symbol, then frees what is below it. */
  method FreeSymbol(head: ListNode, depth: nat, ghost s: Shape, ghost t: Tree) returns (freed: seq<nat>, ghost r: Shape)
    requires depth > 0 && Represents(s, t, depth) && s.head == head && Shaped(t, depth) && s.kids != []
    modifies s.foot
    ensures r.foot == s.foot && r.head == head && t.Map? && t.entries != [] && Represents(r, Map(t.entries[1..]), depth)
    ensures Shaped(t.entries[0].child, depth - 1) && freed == Held(t.entries[0].child, depth - 1)
    decreases depth, 0
  {
    hide Ring, Represents, Apart, Shaped, Cut, Shortened, Held;
    Kid(s, t, depth, 0);
    RestApart(s, t, depth);
    HasRing(s, t, depth);
    Links(head, s.nodes, 0);
    var node := head.next;
    var list := node.value.m.head;
    RemoveSymbol(node, s, t, depth, 0);
    CutFirst(t.entries);
    CutLengths(s, 0);
    r := Shortened(s, 0);
    label Unlinked:
    ghost var kid;
    freed, kid := FreeMap(list, depth - 1, s.kids[0], t.entries[0].child);
    SameElsewhere@Unlinked(r, Map(t.entries[1..]), depth, s.kids[0].foot);
  }

  lemma HeldStep(entries: seq<Entry>, depth: nat)
    requires entries != [] && forall i :: 0 <= i < |entries| ==> Shaped(entries[i].child, depth)
    ensures HeldBelow(entries, depth) == Held(entries[0].child, depth) + HeldBelow(entries[1..], depth)
  {
  }

  lemma NothingHeld(depth: nat)
    ensures HeldBelow([], depth) == [] && EmptyTree(depth + 1) == Map([])
  {
  }

  /** Frees a map: every value in it once, in the order of the lists. */
  method FreeMap(head: ListNode, depth: nat, ghost s: Shape, ghost t: Tree) returns (freed: seq<nat>, ghost r: Shape)
    requires Represents(s, t, depth) && s.head == head && Shaped(t, depth)
    modifies s.foot
    ensures r.foot == s.foot && r.head == head && Represents(r, EmptyTree(depth), depth) && freed == Held(t, depth)
    decreases depth, 2
  {
    if depth == 0 {
      freed, r := FreeNumbers(head, s, t);
    } else {
      freed, r := FreeSymbols(head, depth, s, t);
    }
  }

  method FreeSymbols(head: ListNode, depth: nat, ghost s: Shape, ghost t: Tree)
    returns (freed: seq<nat>, ghost r: Shape)
    requires depth > 0 && Represents(s, t, depth) && s.head == head && Shaped(t, depth)
    modifies s.foot
    ensures r.foot == s.foot && r.head == head && Represents(r, EmptyTree(depth), depth) && freed == Held(t, depth)
    decreases depth, 1
  {
    hide Ring, Represents, Apart, Shaped, HeldBelow, EmptyTree;
    Entries(s, t, depth);
    MapShaped(t.entries, depth - 1);
    freed, r := [], s;
    ghost var left := t.entries;
    var empty := IsEmpty(head, r.nodes);
    while !empty
      invariant r.foot == s.foot && r.head == head && Represents(r, Map(left), depth) && Shaped(Map(left), depth)
      invariant |r.kids| == |r.nodes| == |left| && (empty <==> left == [])
      invariant forall i :: 0 <= i < |left| ==> Shaped(left[i].child, depth - 1)
      invariant freed + HeldBelow(left, depth - 1) == HeldBelow(t.entries, depth - 1)
      decreases |left|
    {
      HeldStep(left, depth - 1);
      var more;
      more, r := FreeSymbol(head, depth, r, Map(left));
      freed, left := freed + more, left[1..];
      Entries(r, Map(left), depth);
      empty := IsEmpty(head, r.nodes);
    }
    NothingHeld(depth - 1);
  }

  // The library.

  /** A map of registered values, with everything that was done to it in the current test. */
  class Mocks {
    const depth: nat
    const head: ListNode
    ghost var shape: Shape
    ghost var ops: seq<Op>
    ghost var ended: bool

    ghost predicate Valid()
      reads this, shape.foot
    {
      depth > 0 && shape.head == head && Legal(ops, depth) && Represents(shape, Values(), depth)
    }

    /** At its end a test loses the always-values that were returned. */
    ghost function Values(): (t: Tree)
      requires Legal(ops, depth)
      reads this
      ensures Shaped(t, depth)
    {
      if ended then
        RemoveAlwaysTidy(State(ops, depth), depth);
        RemoveAlways(State(ops, depth), depth)
      else State(ops, depth)
    }

    constructor (depth: nat)
      requires depth > 0
      ensures Valid() && this.depth == depth && ops == [] && !ended && fresh(shape.foot)
    {
      this.depth := depth;
      var h := new ListNode();
      head, shape, ops, ended := h, Shape(h, [], [], {h}), [], false;
      EmptyRepresents(h, depth);
    }

    /** Refuses any count that is neither positive nor minus one. */
    method WillReturn(path: seq<string>, value: nat, count: int) returns (ok: bool)
      requires Valid() && !ended && |path| == depth
      modifies this, shape.foot
      ensures Valid() && !ended && fresh(shape.foot - old(shape.foot)) && ok == (count > 0 || count == -1)
      ensures ops == old(ops) + if ok then [Register(path, value, count)] else []
    {
      hide Represents, Add;
      ok := count > 0 || count == -1;
      if ok {
        ghost var op := Register(path, value, count);
        StateStep(ops, op, depth);
        shape := AddSymbolValue(head, path, Item(value, count), shape, State(ops, depth));
        ops := ops + [op];
      }
    }

    /** The next value registered for the path, each as often as asked, in order of registration. */
    method Mock(path: seq<string>) returns (r: Option<nat>)
      requires Valid() && !ended && |path| == depth
      modifies this, shape.foot
      ensures Valid() && !ended && fresh(shape.foot - old(shape.foot)) && ops == old(ops) + [Retrieve(path)]
      ensures r == Nth(Registered(old(ops), path), Retrieved(old(ops), depth, path))
    {
      hide Represents, Get, Nth, Registered, Retrieved, Tidy, Shaped;
      StateStep(ops, Retrieve(path), depth);
      RetrievalsInOrder(ops, depth, path);
      var rc, value;
      rc, value, shape := GetSymbolValue(head, path, shape, State(ops, depth));
      ops := ops + [Retrieve(path)];
      r := if rc != 0 then Some(value) else None;
    }

    /** A test passes exactly if each queue is used up, up to one always-value that was returned. */
    method FailIfLeftover() returns (failed: bool)
      requires Valid() && !ended
      modifies this, shape.foot
      ensures Valid() && ended && ops == old(ops) && shape.foot == old(shape.foot)
      ensures failed <==> exists path :: |path| == depth && Dropped(Lookup(State(ops, depth), path)) != []
    {
      hide Represents, Leftovers, RemoveAlways, Tidy, Shaped, Dropped, Lookup, Legal;
      shape := RemoveAlwaysValues(head, depth, shape, State(ops, depth));
      ended := true;
      var n := CountLeftovers(head, shape, Values(), depth);
      NoLeftoversIff(State(ops, depth), depth);
      failed := n != 0;
    }

    /** Frees every value still registered, once each, and leaves the map empty for the next test. */
    method Teardown() returns (freed: seq<nat>)
      requires Valid()
      modifies this, shape.foot
      ensures Valid() && !ended && ops == [] && shape.foot == old(shape.foot) && freed == Held(old(Values()), depth)
    {
      hide Represents, RemoveAlways, Tidy, Shaped, Held;
      freed, shape := FreeMap(head, depth, shape, Values());
      ops, ended := [], false;
    }
  }

  lemma StateStep(ops: seq<Op>, op: Op, depth: nat)
    requires Legal(ops, depth) && Legal([op], depth)
    ensures Legal(ops + [op], depth)
    ensures |op.path| == depth && State(ops + [op], depth) == Apply(State(ops, depth), op)
  {
    hide Apply, Tidy, Shaped;
    var all := ops + [op];
    assert op in [op];
    assert all[..|all| - 1] == ops && all[|all| - 1] == op;
  }
}
