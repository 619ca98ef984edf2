/**
 The circular doubly linked lists of the mock library: a head node that holds no value, and nodes
 spliced in at its tail and out anywhere.
 */
module CircularList {
  import opened SymbolMaps

  /** What a node points at: a number to return, or a symbol with a list of its own. */
  datatype Payload = Nothing | Number(n: nat) | Symbol(m: SymbolMapValue)

  class SymbolMapValue {
    const name: string
    const head: ListNode

    constructor (name: string)
      ensures this.name == name && fresh(head) && Ring(head, [])
    {
      this.name := name;
      head := new ListNode();
    }
  }

  class ListNode {
    var value: Payload
    var refcount: int
    var next: ListNode
    var prev: ListNode

    /** An empty list with this node as its head. */
    constructor ()
      ensures value == Nothing && refcount == 1 && Ring(this, [])
    {
      value, refcount := Nothing, 1;
      next, prev := this, this;
    }

    ghost function Carries(): Item
      reads this
    {
      Item(if value.Number? then value.n else 0, refcount)
    }
  }

  /** The nodes in a circle, with the head at both ends. */
  function At(head: ListNode, nodes: seq<ListNode>, i: nat): ListNode
    requires i <= |nodes| + 1
  {
    if i == 0 || i > |nodes| then head else nodes[i - 1]
  }

  /** `nodes` follow the head in this order, and links in both directions agree. */
  ghost predicate Ring(head: ListNode, nodes: seq<ListNode>)
    reads head, nodes
  {
    && head !in nodes
    && (forall i, j :: 0 <= i < j < |nodes| ==> nodes[i] != nodes[j])
    && (forall i :: 0 <= i <= |nodes| ==> At(head, nodes, i).next == At(head, nodes, i + 1))
    && (forall i :: 0 <= i <= |nodes| ==> At(head, nodes, i + 1).prev == At(head, nodes, i))
  }

  lemma Links(head: ListNode, nodes: seq<ListNode>, i: nat)
    requires Ring(head, nodes) && i <= |nodes|
    ensures At(head, nodes, i).next == At(head, nodes, i + 1) && At(head, nodes, i + 1).prev == At(head, nodes, i)
  {
  }

  ghost function Items(nodes: seq<ListNode>): (items: seq<Item>)
    reads nodes
    ensures |items| == |nodes|
  {
    seq(|nodes|, i requires 0 <= i < |nodes| reads nodes => nodes[i].Carries())
  }

  /** Splices a node in before the head, at the tail. */
  method Append(head: ListNode, node: ListNode, ghost nodes: seq<ListNode>)
    requires Ring(head, nodes) && node != head && node !in nodes
    modifies node`next, node`prev, head`prev, head.prev`next
    ensures Ring(head, nodes + [node])
  {
    ghost var after := nodes + [node];
    assert head == At(head, nodes, |nodes| + 1) && head.prev == At(head, nodes, |nodes|);
    node.next := head;
    node.prev := head.prev;
    head.prev.next := node;
    head.prev := node;
    forall i | 0 <= i <= |after|
      ensures At(head, after, i).next == At(head, after, i + 1)
      ensures At(head, after, i + 1).prev == At(head, after, i)
    {
      assert i < |nodes| ==>
               At(head, nodes, i) == At(head, after, i) && At(head, nodes, i + 1) == At(head, after, i + 1);
    }
  }

  method AddValue(head: ListNode, value: Payload, refcount: int, ghost nodes: seq<ListNode>) returns (node: ListNode)
    requires Ring(head, nodes)
    modifies head`prev, head.prev`next
    ensures fresh(node) && Ring(head, nodes + [node]) && node.value == value && node.refcount == refcount
  {
    node := new ListNode();
    node.value, node.refcount := value, refcount;
    Append(head, node, nodes);
  }

  ghost function Without(nodes: seq<ListNode>, k: nat): seq<ListNode>
    requires k < |nodes|
  {
    nodes[..k] + nodes[k + 1..]
  }

  /** Links the neighbours of a node to each other; the node itself keeps its fields. */
  method Remove(node: ListNode, ghost head: ListNode, ghost nodes: seq<ListNode>, ghost k: nat)
    requires Ring(head, nodes) && k < |nodes| && nodes[k] == node
    modifies node.prev`next, node.next`prev
    ensures Ring(head, Without(nodes, k))
  {
    ghost var after := Without(nodes, k);
    assert node == At(head, nodes, k + 1) && node.prev == At(head, nodes, k) && node.next == At(head, nodes, k + 2);
    node.prev.next := node.next;
    node.next.prev := node.prev;
    forall i | 0 <= i <= |after|
      ensures At(head, after, i).next == At(head, after, i + 1)
      ensures At(head, after, i + 1).prev == At(head, after, i)
    {
      assert i < k ==> At(head, after, i) == At(head, nodes, i) && At(head, after, i + 1) == At(head, nodes, i + 1);
      assert i == k ==> At(head, after, i) == At(head, nodes, i) && At(head, after, i + 1) == At(head, nodes, i + 2);
      assert i > k ==> At(head, after, i) == At(head, nodes, i + 1) && At(head, after, i + 1) == At(head, nodes, i + 2);
    }
  }

  method IsEmpty(head: ListNode, ghost nodes: seq<ListNode>) returns (b: bool)
    requires Ring(head, nodes)
    ensures b <==> nodes == []
  {
    Links(head, nodes, 0);
    b := head.next == head;
  }

  /** The first node whose value satisfies the predicate. */
  method FindFirst(head: ListNode, p: Payload -> bool, ghost nodes: seq<ListNode>)
    returns (found: ListNode?, ghost k: nat)
    requires Ring(head, nodes)
    ensures k <= |nodes| && forall i :: 0 <= i < k ==> !p(nodes[i].value)
    ensures if found == null then k == |nodes| else k < |nodes| && found == nodes[k] && p(found.value)
  {
    Links(head, nodes, 0);
    var current := head.next;
    k := 0;
    while current != head
      invariant k <= |nodes| && current == At(head, nodes, k + 1)
      invariant forall i :: 0 <= i < k ==> !p(nodes[i].value)
      decreases |nodes| - k
    {
      if p(current.value) {
        return current, k;
      }
      assert current.next == At(head, nodes, k + 2);
      current := current.next;
      k := k + 1;
    }
    return null, k;
  }

  method First(head: ListNode, ghost nodes: seq<ListNode>) returns (first: ListNode?)
    requires Ring(head, nodes)
    ensures first == if nodes == [] then null else nodes[0]
  {
    Links(head, nodes, 0);
    var empty := IsEmpty(head, nodes);
    if empty {
      return null;
    }
    return head.next;
  }

  method CountDown(node: ListNode, ghost head: ListNode, ghost nodes: seq<ListNode>)
    requires Ring(head, nodes) && nodes != [] && node == nodes[0]
    modifies node`refcount
    ensures Ring(head, nodes) && node.refcount == old(node.refcount) - 1
    ensures Items(nodes) == old(Items(nodes))[0 := node.Carries()]
  {
    node.refcount := node.refcount - 1;
  }

  /** Retrieval from a list of values: the first is counted down, and taken out when its count is up. */
  method TakeFirst(head: ListNode, ghost nodes: seq<ListNode>)
    returns (rc: int, value: Payload, ghost left: seq<ListNode>)
    requires Ring(head, nodes) && nodes != []
    modifies head, nodes
    ensures Ring(head, left) && forall i :: 0 <= i < |left| ==> left[i] in nodes && left[i].value == old(left[i].value)
    ensures var q := old(Items(nodes)); rc == q[0].refcount && value == old(nodes[0].value) && Items(left) == Taken(q)
  {
    hide Ring;
    var node := First(head, nodes);
    value, rc := node.value, node.refcount;
    CountDown(node, head, nodes);
    left := nodes;
    if node.refcount == 0 {
      Unlink(node, head, nodes);
      left := nodes[1..];
    }
  }

  /** Takes the first node out; what the others carry stays. */
  method Unlink(node: ListNode, ghost head: ListNode, ghost nodes: seq<ListNode>)
    requires Ring(head, nodes) && nodes != [] && node == nodes[0]
    modifies head`next, head`prev, nodes`next, nodes`prev
    ensures Ring(head, nodes[1..]) && Items(nodes[1..]) == old(Items(nodes))[1..]
  {
    hide Ring;
    Links(head, nodes, 0);
    Links(head, nodes, 1);
    assert node.next == head || (|nodes| > 1 && node.next == nodes[1]);
    assert Without(nodes, 0) == nodes[1..];
    Remove(node, head, nodes, 0);
  }

  ghost function Values(nodes: seq<ListNode>): (values: seq<Payload>)
    reads nodes
    ensures |values| == |nodes|
  {
    seq(|nodes|, i requires 0 <= i < |nodes| reads nodes => nodes[i].value)
  }

  /** Takes every node out, from the front, and passes on each value for cleanup, in order. */
  method Free(head: ListNode, ghost nodes: seq<ListNode>) returns (cleaned: seq<Payload>)
    requires Ring(head, nodes)
    modifies head, nodes
    ensures Ring(head, []) && cleaned == old(Values(nodes))
  {
    hide Ring;
    ghost var n := 0;
    cleaned := [];
    var empty := IsEmpty(head, nodes);
    while !empty
      invariant n <= |nodes| && Ring(head, nodes[n..]) && (empty <==> n == |nodes|)
      invariant cleaned == old(Values(nodes))[..n]
      invariant forall i :: 0 <= i < |nodes| ==> nodes[i].value == old(nodes[i].value)
      decreases |nodes| - n
    {
      Links(head, nodes[n..], 0);
      var node := head.next;
      Unlink(node, head, nodes[n..]);
      cleaned := cleaned + [node.value];
      assert nodes[n..][1..] == nodes[n + 1..];
      n := n + 1;
      empty := IsEmpty(head, nodes[n..]);
    }
    assert nodes[n..] == [];
  }
}
