/**
  hashtable.c on the heap.  Each method is proved against the value-level table of
  TableSpec, so all that is proved of runs there holds of these objects.
  Every allocation is asked of the memory, and each method says exactly when it succeeds.
 */
module Hashtable {
  import opened Basics
  import T = TableSpec
  import opened LinkedList
  import opened BucketArray
  import opened Allocation
  import opened TableMemory

  type Key = T.Key

  /** __builtin_clz: the zeros in front of the highest bit of a 32-bit word. */
  method CountLeadingZeros(size: nat) returns (n: int)
    ensures n <= 32 && size < Pow2(32 - n) && (size > 0 ==> n < 32 && Pow2(31 - n) <= size)
  {
    n := 32;
    while Pow2(32 - n) <= size
      invariant n <= 32 && (n < 32 ==> Pow2(31 - n) <= size)
      decreases size - Pow2(32 - n)
    {
      n := n - 1;
    }
  }

  /** The 32 - clz build and the loop build of jaeger_hashtable_minimal_order. */
  method MinimalOrder(size: nat, builtin: bool) returns (order: nat)
    ensures order == T.MinimalOrder(size, builtin)
  {
    if size < T.INIT_ORDER {
      return T.INIT_ORDER;
    }
    if builtin {
      var zeros := CountLeadingZeros(size);
      T.BitLengthUnique(size, 32 - zeros);
      return 32 - zeros;
    }
    order := 0;
    while Pow2(order) < size
      invariant T.CeilLog2From(size, order) == T.CeilLog2From(size, 0)
      decreases size - Pow2(order)
    {
      order := order + 1;
    }
  }

  class Hashtable {
    const hash: T.HashFn
    var size: nat
    var order: nat
    var buckets: Buckets?
    ghost var repr: set<object>  // the buckets and everything they are made of

    ghost predicate Valid()
      reads this, repr
    {
      && this !in repr
      && buckets != null && buckets in repr && repr == {buckets} + buckets.repr
      && buckets.Valid()
      && |buckets.views| == Pow2(order)
    }

    ghost function View(): (t: T.Table)
      requires Valid()
      reads this, repr
      ensures T.Shaped(t)
    {
      T.Table(size, order, buckets.views)
    }

    /** The static initialiser: no buckets yet. */
    constructor (hash: T.HashFn)
      ensures this.hash == hash && buckets == null
    {
      this.hash := hash;
      size, order, buckets, repr := 0, 0, null, {};
    }

    method Reset()
      modifies this
      ensures buckets == null && size == 0
    {
      size, order, buckets, repr := 0, 0, null, {};
    }

    /** Take over a bucket array and its order. */
    method Adopt(b: Buckets, order: nat)
      requires b.Valid() && this !in b.repr && |b.views| == Pow2(order)
      modifies this
      ensures Valid() && repr == {b} + b.repr && View() == T.Table(old(size), order, b.views)
    {
      this.order := order;
      buckets := b;
      repr := {b} + b.repr;
    }

    method Init(m: Memory) returns (ok: bool, rest: Memory)
      modifies this
      ensures ok == Enough(m, 1) && rest == Allocation.After(m, 1)
      ensures ok ==> Valid() && fresh(repr) && View() == T.InitTable
      ensures !ok ==> buckets == null
    {
      Reset();
      ok, rest := Alloc(m);
      if !ok {
        return;
      }
      var b := new Buckets(T.INIT_ORDER);
      Adopt(b, T.INIT_ORDER);
    }

    method Clear()
      requires Valid()
      modifies this, repr
      ensures Valid() && repr == old(repr) && View() == T.Clear(old(View()))
    {
      for i := 0 to Pow2(order)
        invariant Valid() && repr == old(repr) && order == old(order)
        invariant forall j :: 0 <= j < i ==> buckets.views[j] == []
      {
        buckets.ClearBucket(i);
      }
      size := 0;
    }

    method Destroy()
      requires Valid()
      modifies this, repr
      ensures buckets == null && size == 0 && order == old(order)
    {
      Clear();
      buckets := null;
    }

    /** Move all entries into a new bucket array of the given order. */
    method Redistribute(newOrder: nat) returns (b: Buckets)
      requires Valid()
      modifies repr
      ensures b.Valid() && fresh(b) && this !in b.repr && fresh(b.repr - old(repr))
      ensures b.views == T.Distribute(hash, newOrder, T.Flatten(old(buckets.views)), T.EmptyBuckets(newOrder))
    {
      ghost var bs := buckets.views;
      b := new Buckets(newOrder);
      ghost var empty := b.views;
      assert buckets.views == bs && empty == T.EmptyBuckets(newOrder);
      buckets.DrainAll(hash, newOrder, b);
      assert b.views == T.Distribute(hash, newOrder, T.Flatten(bs), empty);
    }

    method Rehash(m: Memory) returns (ok: bool, rest: Memory)
      requires Valid()
      modifies this, repr
      ensures ok == Enough(m, 1) && rest == Allocation.After(m, 1)
      ensures Valid() && fresh(repr - old(repr))
      ensures View() == if ok then T.Grow(hash, old(View())) else old(View())
    {
      hide Enough, Allocation.After, T.Distribute, T.Flatten, Linked, Distinct;
      ok, rest := Alloc(m);
      if !ok {
        return;
      }
      var newOrder := order + 1;
      var newBuckets := Redistribute(newOrder);
      Adopt(newBuckets, newOrder);
    }

    method InternalLookup(key: Key) returns (node: Node?, bucket: List, ghost i: nat, ghost j: nat)
      requires Valid()
      ensures i == T.Slot(hash, key, order) && bucket == buckets.lists[i] && bucket in repr
      ensures j == T.FindIndex(buckets.views[i], key)
      ensures |bucket.nodes| == |buckets.views[i]|
      ensures node == if j < |bucket.nodes| then bucket.nodes[j] else null
      ensures node != null ==> node in repr && node.key == key && node.value == buckets.views[i][j].value
    {
      i := T.Slot(hash, key, order);
      var index := T.Slot(hash, key, order);
      bucket := buckets.lists[index];
      node := bucket.head;
      j := 0;
      while node != null
        invariant j <= |bucket.nodes| && node == if j < |bucket.nodes| then bucket.nodes[j] else null
        invariant forall k :: 0 <= k < j ==> bucket.view[k].key != key
        decreases |bucket.nodes| - j
      {
        if node.key == key {
          break;
        }
        node := node.next;
        j := j + 1;
      }
    }

    method Find(key: Key) returns (value: Option<Key>)
      requires Valid()
      ensures value == T.Find(hash, View(), key)
    {
      var node, bucket, i, j := InternalLookup(key);
      value := if node == null then None else Some(node.value);
    }

    /** The part of a put after the growth check. */
    method Store(key: Key, value: Key, m: Memory) returns (ok: bool, rest: Memory)
      requires Valid()
      modifies this, repr
      ensures ok == Enough(m, StoreCost(hash, old(View()), key))
      ensures rest == Allocation.After(m, StoreCost(hash, old(View()), key))
      ensures Valid() && fresh(repr - old(repr))
      ensures View() == if ok then T.Store(hash, old(View()), key, value) else old(View())
    {
      hide Enough, Allocation.After, Linked, Distinct, T.Store, T.FindIndex;
      var node, bucket, i, j := InternalLookup(key);
      ok, rest := AllocMany(m, if node != null then 1 else 3);  // the value, or key, value and node
      if ok {
        Enter(node, bucket, key, value, i, j);
      }
    }

    /** Replace the value of the node that was found, or append a new one. */
    method Enter(node: Node?, bucket: List, key: Key, value: Key, ghost i: nat, ghost j: nat)
      requires Valid()
      requires i == T.Slot(hash, key, order) && bucket == buckets.lists[i] && j == T.FindIndex(buckets.views[i], key)
      requires |bucket.nodes| == |buckets.views[i]| && node == if j < |bucket.nodes| then bucket.nodes[j] else null
      modifies this, repr
      ensures Valid() && fresh(repr - old(repr))
      ensures View() == T.Store(hash, old(View()), key, value)
    {
      hide Linked, Distinct;
      if node != null {
        buckets.SetValue(bucket, node, value, i, j);
        return;
      }
      var entry := new Node(key, value);
      var index := T.Slot(hash, key, order);
      buckets.Append(index, entry);
      repr := {buckets} + buckets.repr;
      size := size + 1;
    }

    /**
      A put succeeds exactly when the allocations on its way do.  One that fails leaves the map
      alone: the table has grown if it had to and there was memory for that.
     */
    method Put(key: Key, value: Key, m: Memory) returns (ok: bool, rest: Memory)
      requires Valid()
      modifies this, repr
      ensures Valid() && fresh(repr - old(repr))
      ensures ok == Enough(m, PutCost(hash, old(View()), key))
      ensures rest == Allocation.After(m, PutCost(hash, old(View()), key))
      ensures ok ==> View() == T.Put(hash, old(View()), key, value)
      ensures !ok ==> View() == if Enough(m, 1) then T.GrowIfNeeded(hash, old(View())) else old(View())
    {
      hide T.Store, T.Grow, StoreCost, Linked, Distinct, Enough, Allocation.After;
      ghost var t := View();
      T.PutShaped(hash, t, key, value);
      TakeNone(m);
      rest := m;
      if size + 1 >= Pow2(order) {
        ok, rest := Rehash(m);
        TakeStep(m, 1, StoreCost(hash, T.GrowIfNeeded(hash, t), key));
        if !ok {
          return;
        }
      }
      ok, rest := Store(key, value, rest);
    }

    /** Put every entry of a list that lies, with its nodes, in a region r outside this table. */
    method PutList(list: List, ghost r: set<object>, m: Memory) returns (ok: bool, rest: Memory)
      requires Valid() && list.Valid() && list in r && (forall n :: n in list.nodes ==> n in r)
      requires this !in r && r !! repr
      modifies this, repr
      ensures Valid() && fresh(repr - old(repr)) && r !! repr
      ensures ok ==> View() == T.PutAll(hash, old(View()), list.view)
      ensures ok == Enough(m, PutAllCost(hash, old(View()), list.view))
      ensures rest == Allocation.After(m, PutAllCost(hash, old(View()), list.view))
    {
      hide T.Put, T.PutAll, PutCost, PutAllCost, Left, Distinct, Pow2;
      ghost var cost := PutAllCost(hash, View(), list.view);
      rest := m;
      LeftAll(m, cost);
      ghost var items := list.view;
      ghost var target := T.PutAll(hash, View(), items);
      var entry := list.head;
      ghost var j := 0;
      assert items[0..] == items;
      ok := true;
      while entry != null
        invariant Valid() && fresh(repr - old(repr)) && r !! repr && ok
        invariant list.Valid() && list.view == items && (forall n :: n in list.nodes ==> n in r)
        invariant j <= |list.nodes| && entry == if j < |list.nodes| then list.nodes[j] else null
        invariant T.PutAll(hash, View(), items[j..]) == target
        invariant Left(m, cost, rest, PutAllCost(hash, View(), items[j..]))
        decreases |list.nodes| - j
      {
        assert items[j] == T.KV(entry.key, entry.value);
        T.PutAllFrom(hash, View(), items, j);
        PutAllCostFrom(hash, View(), items, j);
        LeftStep(m, cost, rest, PutCost(hash, View(), entry.key), PutAllCost(hash, T.Put(hash, View(), entry.key, entry.value), items[j + 1..]));
        ok, rest := Put(entry.key, entry.value, rest);
        if !ok {
          return;
        }
        entry := entry.next;
        j := j + 1;
      }
      assert items[j..] == [];
      T.PutAllNone(hash, View());
      CostNothing(hash, View());
      LeftDone(m, cost, rest);
    }

    method Remove(key: Key)
      requires Valid()
      modifies this, repr
      ensures Valid() && repr <= old(repr)
      ensures View() == T.Remove(hash, old(View()), key)
    {
      hide Linked, Distinct, Pow2, T.Slot, T.FindIndex;
      var node, bucket, i, j := InternalLookup(key);
      if node != null {
        buckets.Unlink(bucket, node, i, j);
        repr := {buckets} + buckets.repr;
      }
    }

    /** Put every entry of `src`, bucket by bucket. */
    method PutTable(src: Hashtable, m: Memory) returns (ok: bool, rest: Memory)
      requires Valid() && src.Valid() && src != this && src !in repr && this !in src.repr && repr !! src.repr
      modifies this, repr
      ensures Valid() && fresh(repr - old(repr))
      ensures ok ==> View() == T.PutAll(hash, old(View()), T.Items(src.View()))
      ensures ok == Enough(m, PutAllCost(hash, old(View()), T.Items(src.View())))
      ensures rest == Allocation.After(m, PutAllCost(hash, old(View()), T.Items(src.View())))
    {
      hide T.PutAll, T.Flatten, PutAllCost, Left, Distinct, Linked, Pow2;
      ghost var bs := src.buckets.views;
      ghost var target := T.PutAll(hash, View(), T.Flatten(bs));
      ghost var cost := PutAllCost(hash, View(), T.Flatten(bs));
      assert bs[0..] == bs;
      ok, rest := true, m;
      LeftAll(m, cost);
      for i := 0 to Pow2(src.order)
        invariant Valid() && fresh(repr - old(repr)) && src.repr !! repr && ok
        invariant T.PutAll(hash, View(), T.Flatten(bs[i..])) == target
        invariant Left(m, cost, rest, PutAllCost(hash, View(), T.Flatten(bs[i..])))
      {
        var list := src.buckets.lists[i];
        assert list.Valid() && list.view == bs[i];
        T.FlattenFrom(bs, i);
        T.PutAllConcat(hash, View(), bs[i], T.Flatten(bs[i + 1..]));
        PutAllCostConcat(hash, View(), bs[i], T.Flatten(bs[i + 1..]));
        LeftStep(m, cost, rest, PutAllCost(hash, View(), bs[i]), PutAllCost(hash, T.PutAll(hash, View(), bs[i]), T.Flatten(bs[i + 1..])));
        ok, rest := PutList(list, src.repr, rest);
        if !ok {
          return;
        }
      }
      assert bs[|bs|..] == [];
      T.FlattenNone();
      T.PutAllNone(hash, View());
      CostNothing(hash, View());
      LeftDone(m, cost, rest);
    }

    /** Copy `src` into this table, whatever this table held before. */
    method CopyFrom(src: Hashtable, builtin: bool, m: Memory) returns (ok: bool, rest: Memory)
      requires src.Valid() && src != this && this !in src.repr && src.hash == hash
      modifies this
      ensures ok ==> Valid() && fresh(repr) && View() == T.Copy(hash, old(src.View()), builtin)
      ensures !ok ==> buckets == null
      ensures ok == Enough(m, CopyCost(hash, old(src.View()), builtin))
      ensures rest == Allocation.After(m, CopyCost(hash, old(src.View()), builtin))
    {
      hide Enough, Allocation.After, PutAllCost, T.PutAll, T.MinimalOrder, T.Flatten, Linked, Distinct, Pow2;
      if src.size == 0 {
        ok, rest := Init(m);
        return;
      }
      ghost var before := src.View();
      var minimal := MinimalOrder(src.size, builtin);
      Reset();
      ok, rest := Alloc(m);
      TakeStep(m, 1, PutAllCost(hash, T.CopyStart(before.size, builtin), T.Items(before)));
      if !ok {
        return;
      }
      ok, rest := FillFrom(src, minimal, rest);
    }

    /** Fill a fresh bucket array of the given order from `src`, or leave no buckets. */
    method FillFrom(src: Hashtable, minimal: nat, m: Memory) returns (ok: bool, rest: Memory)
      requires src.Valid() && src != this && this !in src.repr && src.hash == hash && size == 0
      modifies this
      ensures ok ==> Valid() && fresh(repr)
      ensures !ok ==> buckets == null
      ensures var start, items := T.Table(0, minimal, T.EmptyBuckets(minimal)), T.Items(old(src.View()));
              && ok == Enough(m, PutAllCost(hash, start, items))
              && rest == Allocation.After(m, PutAllCost(hash, start, items))
              && (ok ==> View() == T.PutAll(hash, start, items))
    {
      hide Enough, Allocation.After, PutAllCost, T.PutAll, T.Items, Linked, Distinct, Pow2;
      ghost var before := src.View();
      var b := new Buckets(minimal);
      Adopt(b, minimal);
      assert src.Valid() && src.View() == before;
      ghost var owned := repr;
      assert fresh(owned);
      ok, rest := PutTable(src, m);
      assert repr == owned * repr + (repr - owned);
      if !ok {
        Destroy();
      }
    }
  }
}
