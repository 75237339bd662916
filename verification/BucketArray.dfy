/**
  The bucket array of a hashtable: disjoint linked lists, and the pointer surgery
  hashtable.c does on them.  Each method states its effect on `views`, the array as
  a sequence of entry sequences.
 */
module BucketArray {
  import opened Basics
  import opened TableSpec
  import opened LinkedList

  twostate predicate SameNode(n: Node)
    reads n
  {
    n.prev == old(n.prev) && n.next == old(n.next) && n.value == old(n.value) && n.owner == old(n.owner)
  }

  twostate predicate SameList(l: List)
    reads l
  {
    l.head == old(l.head) && l.size == old(l.size) && l.nodes == old(l.nodes) && l.view == old(l.view)
  }

  /** A list none of whose objects changed is still well formed and the same list. */
  twostate lemma Untouched(l: List)
    requires old(l.Valid()) && SameList(l)
    requires forall n :: n in l.nodes ==> SameNode(n)
    ensures l.Valid()
  {
    assert forall i :: 0 <= i < |l.nodes| ==> l.nodes[i] in l.nodes;
  }

  class Buckets {
    const lists: array<List>
    ghost var repr: set<object>  // the array, its lists and their nodes
    ghost var views: seq<seq<KV>>

    /** Well-formed, pairwise different lists.  No node is in two of them, by ownership. */
    ghost predicate Valid()
      reads this, repr
    {
      && lists in repr && this !in repr
      && |views| == lists.Length
      && (forall i :: 0 <= i < lists.Length ==> lists[i] in repr)
      && (forall i :: 0 <= i < lists.Length ==> forall n :: n in lists[i].nodes ==> n in repr)
      && (forall i :: 0 <= i < lists.Length ==> lists[i].Valid())
      && (forall i, j :: 0 <= i < j < lists.Length ==> lists[i] != lists[j])
      && (forall i :: 0 <= i < lists.Length ==> views[i] == lists[i].view)
    }

    constructor (order: nat)
      ensures Valid() && fresh(repr) && views == EmptyBuckets(order)
    {
      hide Linked, Distinct, Pow2;
      var n := Pow2(order);
      var dummy := new List();
      var a := new List[n](_ => dummy);
      ghost var r: set<object> := {a};
      for i := 0 to n
        invariant a in r && fresh(r)
        invariant forall j :: 0 <= j < i ==> a[j] in r && a[j].Valid() && a[j].nodes == []
        invariant forall j, k :: 0 <= j < k < i ==> a[j] != a[k]
      {
        var l := new List();
        a[i] := l;
        r := r + {l};
      }
      lists, repr, views := a, r, EmptyBuckets(order);
    }

    /** Append a loose node to bucket i. */
    method Append(i: nat, node: Node)
      requires Valid() && i < |views| && node.owner == null && node !in repr
      modifies this, repr, node
      ensures Valid() && repr == old(repr) + {node}
      ensures views == old(views)[i := old(views)[i] + [KV(node.key, old(node.value))]]
    {
      hide Linked, Distinct;
      var l := lists[i];
      repr := repr + {node};
      views := views[i := views[i] + [KV(node.key, node.value)]];
      l.Insert(l.size, node);
      forall j | 0 <= j < lists.Length && j != i
        ensures lists[j].Valid()
      {
        Untouched(lists[j]);
      }
    }

    /** Unlink the node at position j of bucket i; it is left loose. */
    method Unlink(l: List, node: Node, ghost i: nat, ghost j: nat)
      requires Valid() && i < |views| && l == lists[i] && j < |l.nodes| && l.nodes[j] == node
      modifies this, repr
      ensures Valid() && repr == old(repr) - {node}
      ensures views == old(views)[i := old(views)[i][..j] + old(views)[i][j + 1..]]
      ensures node.owner == null && node.value == old(node.value)
    {
      hide Linked, Distinct;
      repr := repr - {node};
      views := views[i := views[i][..j] + views[i][j + 1..]];
      l.NodeRemove(node, j);
      forall k | 0 <= k < lists.Length && k != i
        ensures lists[k].Valid()
      {
        Untouched(lists[k]);
      }
    }

    /** Replace the value of the node at position j of bucket i. */
    method SetValue(l: List, node: Node, value: Key, ghost i: nat, ghost j: nat)
      requires Valid() && i < |views| && l == lists[i] && j < |lists[i].nodes| && lists[i].nodes[j] == node
      modifies this, repr
      ensures Valid() && repr == old(repr)
      ensures views == old(views)[i := old(views)[i][j := KV(node.key, value)]]
    {
      views := views[i := views[i][j := KV(node.key, value)]];
      l.SetValue(node, value, j);
      forall k | 0 <= k < lists.Length && k != i
        ensures lists[k].Valid()
      {
        Untouched(lists[k]);
      }
    }

    method ClearBucket(i: nat)
      requires Valid() && i < |views|
      modifies this, repr
      ensures Valid() && repr == old(repr)
      ensures views == old(views)[i := []]
    {
      var l := lists[i];
      views := views[i := []];
      l.Clear();
      forall k | 0 <= k < lists.Length && k != i
        ensures lists[k].Valid()
      {
        Untouched(lists[k]);
      }
    }

    ghost predicate Apart(target: Buckets)
      reads this, target
    {
      target != this && target !in repr && this !in target.repr && repr !! target.repr
    }

    method UnlinkHead(i: nat) returns (entry: Node)
      requires Valid() && i < |views| && views[i] != []
      modifies this, repr
      ensures Valid() && entry in old(repr) && repr == old(repr) - {entry} && entry.owner == null
      ensures views == old(views)[i := old(views)[i][1..]]
      ensures KV(entry.key, entry.value) == old(views)[i][0]
    {
      entry := lists[i].head;
      assert entry == lists[i].nodes[0];
      assert views[i][..0] + views[i][1..] == views[i][1..];
      Unlink(lists[i], entry, i, 0);
    }

    /** Move the first entry of bucket i to the bucket of `target` that its hash names. */
    method MoveHead(hash: HashFn, order: nat, target: Buckets, i: nat)
      requires Valid() && target.Valid() && i < |views| && views[i] != [] && |target.views| == Pow2(order)
      requires Apart(target)
      modifies this, repr, target, target.repr
      ensures Valid() && target.Valid() && Apart(target)
      ensures repr <= old(repr) && target.repr <= old(repr) + old(target.repr)
      ensures |views| == |old(views)| && forall j :: 0 <= j < |views| && j != i ==> views[j] == old(views)[j]
      ensures views[i] == old(views)[i][1..]
      ensures var kv := old(views)[i][0];
              var k := Slot(hash, kv.key, order);
              target.views == old(target.views)[k := old(target.views)[k] + [kv]]
    {
      var entry := UnlinkHead(i);
      var index := Slot(hash, entry.key, order);
      target.Append(index, entry);
    }

    method IsEmpty(i: nat) returns (empty: bool)
      requires Valid() && i < |views|
      ensures empty <==> views[i] == []
    {
      empty := lists[i].head == null;
    }

    /** Move every entry of bucket i to the bucket of `target` that its hash names. */
    method Drain(hash: HashFn, order: nat, target: Buckets, i: nat)
      requires Valid() && target.Valid() && i < |views| && |target.views| == Pow2(order)
      requires Apart(target)
      modifies this, repr, target, target.repr
      ensures Valid() && target.Valid() && Apart(target)
      ensures repr <= old(repr) && target.repr <= old(repr) + old(target.repr)
      ensures |views| == |old(views)| && forall j :: 0 <= j < |views| && j != i ==> views[j] == old(views)[j]
      ensures target.views == Distribute(hash, order, old(views)[i], old(target.views))
    {
      hide List.Valid, Pow2;
      ghost var bs := views;
      ghost var all := Distribute(hash, order, views[i], target.views);
      var empty := IsEmpty(i);
      while !empty
        invariant Valid() && target.Valid() && Apart(target)
        invariant repr <= old(repr) && target.repr <= old(repr) + old(target.repr)
        invariant |target.views| == Pow2(order)
        invariant |views| == |bs| && forall j :: 0 <= j < |views| && j != i ==> views[j] == bs[j]
        invariant empty <==> views[i] == []
        invariant Distribute(hash, order, views[i], target.views) == all
        decreases |views[i]|
      {
        MoveHead(hash, order, target, i);
        empty := IsEmpty(i);
      }
    }

    /** Move every entry of every bucket. */
    method DrainAll(hash: HashFn, order: nat, target: Buckets)
      requires Valid() && target.Valid() && |target.views| == Pow2(order) && Apart(target)
      modifies this, repr, target, target.repr
      ensures target.Valid() && target.repr <= old(repr) + old(target.repr)
      ensures target.views == Distribute(hash, order, Flatten(old(views)), old(target.views))
    {
      ghost var bs := views;
      ghost var all := Distribute(hash, order, Flatten(bs), target.views);
      assert bs[0..] == bs;
      for i := 0 to lists.Length
        invariant Valid() && target.Valid() && Apart(target)
        invariant repr <= old(repr) && target.repr <= old(repr) + old(target.repr)
        invariant |views| == |bs| && (forall j :: i <= j < |bs| ==> views[j] == bs[j]) && |target.views| == Pow2(order)
        invariant Distribute(hash, order, Flatten(bs[i..]), target.views) == all
      {
        assert bs[i..][0] == bs[i] && bs[i..][1..] == bs[i + 1..];
        DistributeConcat(hash, order, bs[i], Flatten(bs[i + 1..]), target.views);
        Drain(hash, order, target, i);
      }
    }
  }
}
