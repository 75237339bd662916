/** The intrusive doubly linked list of list.c, with key-value nodes. */
module LinkedList {
  import opened TableSpec

  class Node {
    var prev: Node?
    var next: Node?
    const key: Key
    var value: Key
    ghost var owner: List?  // the one list this node is linked into

    constructor (key: Key, value: Key)
      ensures this.key == key && this.value == value
      ensures prev == null && next == null && owner == null
    {
      this.key, this.value := key, value;
      prev, next, owner := null, null, null;
    }
  }

  // ----- chains of nodes

  ghost predicate Distinct(s: seq<Node>) {
    forall i, j :: 0 <= i < j < |s| ==> s[i] != s[j]
  }

  /** The links of the nodes of s, in both directions, are those of a list in this order. */
  ghost predicate Linked(s: seq<Node>)
    reads s
  {
    && (forall i {:trigger s[i].prev} :: 0 <= i < |s| ==> s[i].prev == if i == 0 then null else s[i - 1])
    && (forall i {:trigger s[i].next} :: 0 <= i < |s| ==> s[i].next == if i + 1 == |s| then null else s[i + 1])
  }

  lemma DistinctWithout(s: seq<Node>, i: nat)
    requires i < |s| && Distinct(s)
    ensures Distinct(s[..i] + s[i + 1..]) && s[i] !in s[..i] + s[i + 1..]
  {
    var t := s[..i] + s[i + 1..];
    assert forall k :: 0 <= k < |t| ==> t[k] == if k < i then s[k] else s[k + 1];
  }

  lemma DistinctWith(s: seq<Node>, i: nat, elem: Node)
    requires i <= |s| && Distinct(s) && elem !in s
    ensures Distinct(s[..i] + [elem] + s[i..])
  {
    var t := s[..i] + [elem] + s[i..];
    assert forall k :: 0 <= k < |t| ==> t[k] == if k < i then s[k] else if k == i then elem else s[k - 1];
  }

  /** The pointer writes that take `node` out from between its neighbours. */
  method Unsplice(node: Node, ghost s: seq<Node>, ghost i: nat)
    requires Distinct(s) && Linked(s) && i < |s| && node == s[i]
    modifies s`prev, s`next
    ensures Linked(s[..i] + s[i + 1..]) && node.prev == null && node.next == null
  {
    ghost var t := s[..i] + s[i + 1..];
    if node.next != null {
      node.next.prev := node.prev;
    }
    if node.prev != null {
      node.prev.next := node.next;
    }
    node.next := null;
    node.prev := null;
    assert forall k {:trigger t[k]} :: 0 <= k < |t| ==> t[k] == if k < i then s[k] else s[k + 1];
  }

  /** The pointer writes that put `elem` behind the node at position i - 1. */
  method SpliceAfter(node: Node, elem: Node, ghost s: seq<Node>, ghost i: nat)
    requires Distinct(s) && Linked(s) && 0 < i <= |s| && node == s[i - 1] && elem !in s
    modifies s`prev, s`next, elem`prev, elem`next
    ensures Linked(s[..i] + [elem] + s[i..])
  {
    ghost var t := s[..i] + [elem] + s[i..];
    elem.next := node.next;
    if elem.next != null {
      elem.next.prev := elem;
    }
    node.next := elem;
    elem.prev := node;
    assert forall k {:trigger t[k]} :: 0 <= k < |t| ==> t[k] == if k < i then s[k] else if k == i then elem else s[k - 1];
  }

  /** The pointer writes that put `elem` in front. */
  method SpliceFirst(head: Node?, elem: Node, ghost s: seq<Node>)
    requires Distinct(s) && Linked(s) && elem !in s && head == if s == [] then null else s[0]
    modifies s`prev, elem`prev, elem`next
    ensures Linked([elem] + s)
  {
    if head == null {
      elem.next := null;
      elem.prev := null;
    } else {
      elem.prev := null;
      elem.next := head;
      head.prev := elem;
    }
    assert forall k {:trigger ([elem] + s)[k]} :: 0 < k <= |s| ==> ([elem] + s)[k] == s[k - 1];
  }

  class List {
    var head: Node?
    var size: nat
    ghost var nodes: seq<Node>  // the nodes in list order
    ghost var view: seq<KV>     // their entries

    /** Links, size, entries and ownership marks all agree with `nodes`. */
    ghost predicate Valid()
      reads this, nodes
    {
      && size == |nodes| == |view|
      && head == (if nodes == [] then null else nodes[0])
      && Distinct(nodes)
      && Linked(nodes)
      && (forall n :: n in nodes ==> n.owner == this)
      && (forall i :: 0 <= i < |nodes| ==> view[i] == KV(nodes[i].key, nodes[i].value))
    }

    constructor ()
      ensures Valid() && nodes == [] && view == []
    {
      head, size, nodes, view := null, 0, [], [];
    }

    method Get(index: nat) returns (node: Node?)
      requires Valid()
      ensures if index < |nodes| then node == nodes[index] else node == null
    {
      if index >= size {
        return null;
      }
      node := head;
      for i := 0 to index
        invariant node == nodes[i]
      {
        assert node.next == nodes[i + 1];
        node := node.next;
      }
    }

    method Insert(index: nat, elem: Node)
      requires Valid() && index <= |nodes| && elem.owner == null
      modifies this, nodes, elem
      ensures Valid() && nodes == old(nodes)[..index] + [elem] + old(nodes)[index..]
      ensures view == old(view)[..index] + [KV(elem.key, old(elem.value))] + old(view)[index..]
    {
      ghost var s := nodes;
      DistinctWith(s, index, elem);
      if index == 0 {
        assert s[..0] + [elem] + s[0..] == [elem] + s;
        var first := head;
        head := elem;
        Note(index, elem);
        SpliceFirst(first, elem, s);
      } else {
        var node := Get(index - 1);
        Note(index, elem);
        SpliceAfter(node, elem, s, index);
      }
    }

    /** Count `elem` in at the given position. */
    method Note(index: nat, elem: Node)
      requires size == |nodes| == |view| && index <= |nodes|
      requires forall n :: n in nodes ==> n.owner == this
      requires forall i :: 0 <= i < |nodes| ==> view[i] == KV(nodes[i].key, nodes[i].value)
      modifies this`size, this`nodes, this`view, elem`owner
      ensures size == |nodes| == |view|
      ensures nodes == old(nodes)[..index] + [elem] + old(nodes)[index..]
      ensures view == old(view)[..index] + [KV(elem.key, elem.value)] + old(view)[index..]
      ensures forall n :: n in nodes ==> n.owner == this
      ensures forall i :: 0 <= i < |nodes| ==> view[i] == KV(nodes[i].key, nodes[i].value)
    {
      size := size + 1;
      elem.owner := this;
      nodes := nodes[..index] + [elem] + nodes[index..];
      view := view[..index] + [KV(elem.key, elem.value)] + view[index..];
    }

    method Append(elem: Node)
      requires Valid() && elem.owner == null
      modifies this, nodes, elem
      ensures Valid()
      ensures nodes == old(nodes) + [elem] && view == old(view) + [KV(elem.key, old(elem.value))]
    {
      Insert(size, elem);
    }

    method NodeRemove(node: Node, ghost index: nat)
      requires Valid() && index < |nodes| && nodes[index] == node
      modifies this, nodes
      ensures Valid()
      ensures nodes == old(nodes)[..index] + old(nodes)[index + 1..]
      ensures view == old(view)[..index] + old(view)[index + 1..]
      ensures node.owner == null && node.prev == null && node.next == null && node.value == old(node.value)
    {
      DistinctWithout(nodes, index);
      if head == node {
        head := node.next;
      }
      ghost var s := nodes;
      Forget(index, node);
      Unsplice(node, s, index);
    }

    /** Count the node at the given position out. */
    method Forget(ghost index: nat, node: Node)
      requires size == |nodes| == |view| && index < |nodes| && node == nodes[index] && Distinct(nodes)
      requires forall n :: n in nodes ==> n.owner == this
      requires forall i :: 0 <= i < |nodes| ==> view[i] == KV(nodes[i].key, nodes[i].value)
      modifies this`size, this`nodes, this`view, node`owner
      ensures size == |nodes| == |view| && node.owner == null
      ensures nodes == old(nodes)[..index] + old(nodes)[index + 1..]
      ensures view == old(view)[..index] + old(view)[index + 1..]
      ensures forall n :: n in nodes ==> n.owner == this
      ensures forall i :: 0 <= i < |nodes| ==> view[i] == KV(nodes[i].key, nodes[i].value)
    {
      DistinctWithout(nodes, index);
      size := size - 1;
      node.owner := null;
      nodes := nodes[..index] + nodes[index + 1..];
      view := view[..index] + view[index + 1..];
    }

    method SetValue(node: Node, value: Key, ghost index: nat)
      requires Valid() && index < |nodes| && nodes[index] == node
      modifies this, node
      ensures Valid() && nodes == old(nodes) && view == old(view)[index := KV(node.key, value)]
    {
      node.value := value;
      view := view[index := KV(node.key, value)];
    }

    method Clear()
      requires Valid()
      modifies this, nodes
      ensures Valid() && nodes == [] && view == []
    {
      var node := head;
      ghost var i := 0;
      while node != null
        invariant i <= |nodes| && nodes == old(nodes)
        invariant forall k :: 0 <= k < |nodes| ==> nodes[k].next == old(nodes[k].next)
        invariant node == if i == |nodes| then null else nodes[i]
        decreases |nodes| - i
      {
        var next := node.next;
        node.owner := null;  // destroyed
        node := next;
        i := i + 1;
      }
      head := null;
      size := 0;
      nodes, view := [], [];
    }
  }
}
