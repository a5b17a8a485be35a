// The node of the threaded AVL tree (avl.h) and the circular list through it (list.h).
module AvlNodes {

  // Keys are compared only through the tree's comparator.
  type Key = string

  // struct avl_node.  Its list_head is its first member, so a list_head and the node around it are one
  // object here; the list head of a tree is an AvlNode whose tree fields are never used.
  // `data` is the payload of the larger struct in which the node is embedded.
  class AvlNode {
    var next: AvlNode?
    var prev: AvlNode?
    var parent: AvlNode?
    var left: AvlNode?
    var right: AvlNode?
    const key: Key
    const data: string
    var balance: int
    var leader: bool

    constructor (key: Key, data: string)
      ensures this.key == key && this.data == data
    {
      this.key := key;
      this.data := data;
      next, prev, parent, left, right := null, null, null, null, null;
      balance, leader := 0, false;
    }
  }

  ghost function Elems(s: seq<AvlNode>): set<AvlNode> {
    set x | x in s
  }

  ghost predicate Distinct(s: seq<AvlNode>) {
    forall i, j :: 0 <= i < j < |s| ==> s[i] != s[j]
  }

  // Position i of the circle head, s[0], ..., s[|s|-1], head.
  ghost function Cell(head: AvlNode, s: seq<AvlNode>, i: int): AvlNode {
    if 1 <= i <= |s| then s[i - 1] else head
  }

  // The circular list headed by `head` carries exactly the nodes of s, in this order.  (Here and in other predicates the
  // comparison with true makes one fact of the body: the verifier would otherwise prove every conjunct by itself wherever
  // the predicate has to be shown.)
  ghost predicate Ring(head: AvlNode, s: seq<AvlNode>)
    reads {head} + Elems(s)`next, {head} + Elems(s)`prev
  {
    (&& head !in s
     && Distinct(s)
     && (forall i :: 0 <= i <= |s| ==> Cell(head, s, i).next == Cell(head, s, i + 1))
     && (forall i :: 1 <= i <= |s| + 1 ==> Cell(head, s, i).prev == Cell(head, s, i - 1))) == true
  }

  lemma RingLinks(head: AvlNode, s: seq<AvlNode>, i: nat)
    requires Ring(head, s) && i <= |s|
    ensures Cell(head, s, i).next == Cell(head, s, i + 1) && Cell(head, s, i + 1).prev == Cell(head, s, i)
    ensures i < |s| ==> s[i] != head
    ensures i > 0 ==> s[i - 1] != head
  {}

  lemma RingForward(head: AvlNode, s: seq<AvlNode>)
    requires Ring(head, s)
    ensures forall j :: 0 <= j < |s| ==> s[j].next == Cell(head, s, j + 2)
    ensures head.next == Cell(head, s, 1) && head !in s && (s == [] ==> head.next == head)
  {
    assert Cell(head, s, 0).next == Cell(head, s, 1);
    forall j | 0 <= j < |s| ensures s[j].next == Cell(head, s, j + 2) {
      assert Cell(head, s, j + 1).next == Cell(head, s, j + 2);
    }
  }

  lemma EmptyRing(head: AvlNode)
    ensures Ring(head, []) <==> head.next == head && head.prev == head
  {
    assert Cell(head, [], 0).next == head.next && Cell(head, [], 1).prev == head.prev;
  }

  lemma RingDistinct(head: AvlNode, s: seq<AvlNode>)
    requires Ring(head, s)
    ensures Distinct(s)
  {}

  lemma {:induction false} DistinctPlus(s: seq<AvlNode>, x: AvlNode, k: nat)
    requires Distinct(s) && x !in s && k <= |s|
    ensures Distinct(s[..k] + [x] + s[k..])
  {}

  lemma {:induction false} DistinctMinus(s: seq<AvlNode>, k: nat)
    requires Distinct(s) && k < |s|
    ensures Distinct(s[..k] + s[k + 1..]) && s[k] !in s[..k] && s[k] !in s[k + 1..]
  {}

  method InitListHead(head: AvlNode)
    modifies head`next, head`prev
    ensures Ring(head, [])
  {
    head.next, head.prev := head, head;
  }

  // _list_add: puts node between the neighbours prev and next, here positions k and k + 1 of the circle.
  method ListAddBetween(node: AvlNode, prev: AvlNode, next: AvlNode,
                        ghost head: AvlNode, ghost s: seq<AvlNode>, ghost k: nat)
    requires Ring(head, s) && node != head && node !in s
    requires k <= |s| && prev == Cell(head, s, k) && next == Cell(head, s, k + 1)
    modifies {head, node} + Elems(s)`next, {head, node} + Elems(s)`prev
    ensures Ring(head, s[..k] + [node] + s[k..])
  {
    next.prev := node;
    node.next := next;
    node.prev := prev;
    prev.next := node;
    ghost var s' := s[..k] + [node] + s[k..];
    assert Cell(head, s', k + 1) == node;
    assert forall i :: 0 <= i <= k ==> Cell(head, s', i) == Cell(head, s, i);
    assert forall i :: k + 1 < i <= |s'| + 1 ==> Cell(head, s', i) == Cell(head, s, i - 1);
    DistinctPlus(s, node, k);
  }

  // list_add: right after the node at position k.
  method ListAdd(node: AvlNode, at: AvlNode, ghost head: AvlNode, ghost s: seq<AvlNode>, ghost k: nat)
    requires Ring(head, s) && node != head && node !in s
    requires k <= |s| && at == Cell(head, s, k)
    modifies {head, node} + Elems(s)`next, {head, node} + Elems(s)`prev
    ensures Ring(head, s[..k] + [node] + s[k..])
  {
    assert Cell(head, s, k).next == Cell(head, s, k + 1);
    ListAddBetween(node, at, at.next, head, s, k);
  }

  // list_add_tail: right before the node at position k + 1.
  method ListAddTail(node: AvlNode, at: AvlNode, ghost head: AvlNode, ghost s: seq<AvlNode>, ghost k: nat)
    requires Ring(head, s) && node != head && node !in s
    requires k <= |s| && at == Cell(head, s, k + 1)
    modifies {head, node} + Elems(s)`next, {head, node} + Elems(s)`prev
    ensures Ring(head, s[..k] + [node] + s[k..])
  {
    assert Cell(head, s, k + 1).prev == Cell(head, s, k);
    ListAddBetween(node, at.prev, at, head, s, k);
  }

  method ListDel(node: AvlNode, ghost head: AvlNode, ghost s: seq<AvlNode>, ghost k: nat)
    requires Ring(head, s) && k < |s| && node == s[k]
    modifies {head} + Elems(s)`next, {head} + Elems(s)`prev
    ensures Ring(head, s[..k] + s[k + 1..])
    ensures node.next == null && node.prev == null
  {
    DistinctMinus(s, k);
    assert Cell(head, s, k + 1).next == Cell(head, s, k + 2) && Cell(head, s, k + 1).prev == Cell(head, s, k);
    node.next.prev := node.prev;
    node.prev.next := node.next;
    node.next, node.prev := null, null;
    ghost var s' := s[..k] + s[k + 1..];
    assert forall i :: 0 <= i <= k ==> Cell(head, s', i) == Cell(head, s, i);
    assert forall i :: k < i <= |s'| + 1 ==> Cell(head, s', i) == Cell(head, s, i + 1);
  }
}
