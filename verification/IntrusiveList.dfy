/** src/base/intrusive_list.cc: a doubly linked list whose links live in the elements. */
module IntrusiveList {
  import opened Wrappers

  class ListNode {
    var prev: ListNode?
    var next: ListNode?

    /** The links of a node outside any list are arbitrary: it may have been in one before. */
    constructor (prev: ListNode?, next: ListNode?)
      ensures this.prev == prev && this.next == next
    {
      this.prev, this.next := prev, next;
    }
  }

  class ListOps {
    var front: ListNode?
    var size: nat
    /** The elements, front first: the pure sequence the list stands for. */
    ghost var elements: seq<ListNode>

    /** `prev` and `next` agree with the sequence, and `size` is its length. */
    ghost predicate Valid()
      reads this, elements
    {
      size == |elements| && Distinct(elements) &&
      (front == if elements == [] then null else elements[0]) &&
      (forall i {:trigger elements[i].prev} :: 0 <= i < |elements| ==>
         elements[i].prev == if i == 0 then null else elements[i - 1]) &&
      forall i {:trigger elements[i].next} :: 0 <= i < |elements| ==>
        elements[i].next == if i + 1 == |elements| then null else elements[i + 1]
    }

    constructor ()
      ensures Valid() && elements == []
    {
      front, size, elements := null, 0, [];
    }

    /** Whatever links `node` still carries, it ends up at the front. */
    method PushFront(node: ListNode)
      requires Valid() && node !in elements
      modifies this, elements, node
      ensures Valid() && elements == [node] + old(elements)
    {
      node.prev := null;
      node.next := front;
      if front != null {
        front.prev := node;
      }
      front := node;
      size := size + 1;
      elements := [node] + elements;
    }

    /** The removed node keeps its links. */
    method PopFront()
      requires Valid() && elements != []
      modifies this, elements
      ensures Valid() && elements == old(elements)[1..]
      ensures old(elements)[0].prev == null && old(elements)[0].next == old(elements[0].next)
    {
      front := front.next;
      if front != null {
        front.prev := null;
      }
      size := size - 1;
      elements := elements[1..];
    }

    /** Unlinks a member, wherever it is; the removed node keeps its links. */
    method Erase(node: ListNode, ghost k: nat)
      requires Valid() && k < |elements| && elements[k] == node
      modifies this, elements
      ensures Valid() && elements == old(elements)[..k] + old(elements)[k + 1..]
      ensures node.prev == old(node.prev) && node.next == old(node.next)
    {
      var prev, next := node.prev, node.next;
      if node == front {
        front := next;
      }
      if prev != null {
        prev.next := next;
      }
      if next != null {
        next.prev := prev;
      }
      size := size - 1;
      elements := elements[..k] + elements[k + 1..];
    }

    /** Iterating from `front` along `next` meets every element once, in order, and ends: there is no cycle. */
    method Iterate() returns (visited: seq<ListNode>)
      requires Valid()
      ensures visited == elements && |visited| == size
    {
      visited := [];
      var node := front;
      while node != null
        invariant |visited| <= |elements| && visited == elements[..|visited|]
        invariant node == if |visited| == |elements| then null else elements[|visited|]
        decreases |elements| - |visited|
      {
        assert elements[|visited|].next == node.next;
        visited := visited + [node];
        node := node.next;
      }
    }
  }

  /** One operation, on the pure sequence. */
  datatype Op = Push(node: ListNode) | Pop | Remove(node: ListNode)

  /** What a caller may ask for: to push a node that is out, or to take out one that is in. */
  predicate Allowed(s: seq<ListNode>, op: Op) {
    match op
    case Push(node) => node !in s
    case Pop => s != []
    case Remove(node) => node in s
  }

  function IndexIn(s: seq<ListNode>, node: ListNode): (k: nat)
    requires node in s
    ensures k < |s| && s[k] == node && node !in s[..k]
  {
    if s[0] == node then 0 else 1 + IndexIn(s[1..], node)
  }

  function Apply(s: seq<ListNode>, op: Op): seq<ListNode>
    requires Allowed(s, op)
  {
    match op
    case Push(node) => [node] + s
    case Pop => s[1..]
    case Remove(node) => var k := IndexIn(s, node); s[..k] + s[k + 1..]
  }

  predicate AllAllowed(s: seq<ListNode>, ops: seq<Op>)
    decreases |ops|
  {
    ops == [] || (Allowed(s, ops[0]) && AllAllowed(Apply(s, ops[0]), ops[1..]))
  }

  function ApplyAll(s: seq<ListNode>, ops: seq<Op>): seq<ListNode>
    requires AllAllowed(s, ops)
    decreases |ops|
  {
    if ops == [] then s else ApplyAll(Apply(s, ops[0]), ops[1..])
  }

  ghost function NodesOf(ops: seq<Op>): set<object> {
    set i | 0 <= i < |ops| && !ops[i].Pop? :: ops[i].node
  }

  /** Any sequence of operations, nodes coming back with stale links included, follows the pure sequence. */
  method Perform(list: ListOps, ops: seq<Op>)
    requires list.Valid() && AllAllowed(list.elements, ops) && list !in NodesOf(ops)
    modifies list, list.elements, NodesOf(ops)
    ensures list.Valid() && list.elements == ApplyAll(old(list.elements), ops)
    decreases |ops|
  {
    if ops != [] {
      match ops[0] {
        case Push(node) => list.PushFront(node);
        case Pop => list.PopFront();
        case Remove(node) => list.Erase(node, IndexIn(list.elements, node));
      }
      Perform(list, ops[1..]);
    }
  }
}
