/**
  Whole runs of hashtable operations: every run refines a run of a plain map,
  the size field is accounted for, and the copy's sizing is characterised.
 */
module TableRuns {
  import opened Basics
  import opened TableSpec

  /** PutFailed is a put that returned false: out of memory before or after the table grew. */
  datatype Op =
    | DoPut(key: Key, value: Key)
    | PutFailed(grown: bool)
    | DoRemove(key: Key)
    | DoRehash
    | DoClear
    | DoCopy(builtin: bool)

  function Apply(hash: HashFn, t: Table, op: Op): (r: Table)
    requires Shaped(t)
    ensures Shaped(r)
  {
    match op
    case DoPut(k, v) => Put(hash, t, k, v)
    case PutFailed(grown) => if grown then GrowIfNeeded(hash, t) else t
    case DoRemove(k) => Remove(hash, t, k)
    case DoRehash => Grow(hash, t)
    case DoClear => Clear(t)
    case DoCopy(builtin) => Copy(hash, t, builtin)
  }

  function Run(hash: HashFn, ops: seq<Op>): (t: Table)
    ensures Shaped(t)
  {
    if ops == [] then InitTable
    else Apply(hash, Run(hash, ops[..|ops| - 1]), ops[|ops| - 1])
  }

  /** The same operation on a plain map. */
  function ApplyMap(m: map<Key, Key>, op: Op): map<Key, Key> {
    match op
    case DoPut(k, v) => m[k := v]
    case DoRemove(k) => m - {k}
    case DoClear => map[]
    case _ => m
  }

  function RunMap(ops: seq<Op>): map<Key, Key> {
    if ops == [] then map[] else ApplyMap(RunMap(ops[..|ops| - 1]), ops[|ops| - 1])
  }

  lemma MapWithout(m: map<Key, Key>, k: Key)
    ensures |m - {k}| + (if k in m then 1 else 0) == |m|
  {
    if k in m {
      assert (m - {k})[k := m[k]] == m;
    } else {
      assert m - {k} == m;
    }
  }

  /** Outstanding effective removes after one more operation. */
  function StaleAfter(m: map<Key, Key>, stale: nat, op: Op): nat {
    match op
    case DoRemove(k) => if k in m then stale + 1 else stale
    case DoClear => 0
    case DoCopy(_) => 0
    case _ => stale
  }

  /** Removes that hit a present key since the last init, clear or copy. */
  function Stale(ops: seq<Op>): nat {
    if ops == [] then 0
    else StaleAfter(RunMap(ops[..|ops| - 1]), Stale(ops[..|ops| - 1]), ops[|ops| - 1])
  }

  ghost predicate Refines(hash: HashFn, t: Table, m: map<Key, Key>, stale: nat) {
    Inv(hash, t) && Contents(t) == m && t.size == |m| + stale
  }

  lemma {:induction false} StepRefines(hash: HashFn, t: Table, stale: nat, op: Op)
    requires Refines(hash, t, Contents(t), stale)
    ensures Refines(hash, Apply(hash, t, op), ApplyMap(Contents(t), op), StaleAfter(Contents(t), stale, op))
  {
    hide Put, Grow, Remove, Clear, Copy, Inv, Contents;
    match op
    case DoPut(k, v) => PutIsMapUpdate(hash, t, k, v);
    case PutFailed(grown) => GrowKeepsMap(hash, t);
    case DoRemove(k) => RemoveIsMapRemoval(hash, t, k); MapWithout(Contents(t), k);
    case DoRehash => GrowKeepsMap(hash, t);
    case DoClear => ClearEmpties(hash, t);
    case DoCopy(builtin) => ItemsDistinct(hash, t); CopyKeepsMap(hash, t, builtin);
  }

  lemma ClearEmpties(hash: HashFn, t: Table)
    ensures Inv(hash, Clear(t)) && Contents(Clear(t)) == map[] && Clear(t).size == 0
  {
    EmptyTable(hash, t.order);
  }

  /**
    Every reachable table satisfies the invariant and stands for exactly the map the
    same operations build; its size field is the number of entries plus the number of
    effective removes not yet forgotten.
   */
  lemma {:induction false} RunRefinesMap(hash: HashFn, ops: seq<Op>)
    ensures Inv(hash, Run(hash, ops))
    ensures Contents(Run(hash, ops)) == RunMap(ops)
    ensures Run(hash, ops).size == |RunMap(ops)| + Stale(ops)
  {
    if ops == [] {
      EmptyTable(hash, INIT_ORDER);
    } else {
      var before := ops[..|ops| - 1];
      RunRefinesMap(hash, before);
      StepRefines(hash, Run(hash, before), Stale(before), ops[|ops| - 1]);
    }
  }

  /** Lookup after any run is lookup in the plain map. */
  lemma {:induction false} RunFind(hash: HashFn, ops: seq<Op>, key: Key)
    ensures Find(hash, Run(hash, ops), key) ==
            if key in RunMap(ops) then Some(RunMap(ops)[key]) else None
  {
    RunRefinesMap(hash, ops);
    FindIsMapLookup(hash, Run(hash, ops), key);
  }

  /**
    The assertions that the copy and the binary injector make on the size field
    hold exactly when no effective remove is outstanding.
   */
  lemma {:induction false} SizeAssertionsHoldIff(hash: HashFn, ops: seq<Op>, builtin: bool)
    ensures var t := Run(hash, ops);
            && (t.size == |Items(t)| <==> Stale(ops) == 0)
            && (Copy(hash, t, builtin).size == t.size <==> Stale(ops) == 0)
  {
    RunRefinesMap(hash, ops);
    ItemsDistinct(hash, Run(hash, ops));
    CopyKeepsMap(hash, Run(hash, ops), builtin);
  }

  /** One put and one remove are enough to break them. */
  lemma {:induction false} SizeAssertionBroken(hash: HashFn)
    ensures var t := Run(hash, [DoPut([1], [2]), DoRemove([1])]);
            t.size == 1 && Items(t) == []
  {
    var ops := [DoPut([1], [2]), DoRemove([1])];
    var first := ops[..1];
    assert first[..0] == [] && first[0] == DoPut([1], [2]);
    assert RunMap([]) == map[] && Stale([]) == 0;
    assert RunMap(first) == map[[1] := [2]] && Stale(first) == 0;
    assert RunMap(ops) == map[] && Stale(ops) == 1;
    RunRefinesMap(hash, ops);
    ItemsDistinct(hash, Run(hash, ops));
  }

  // ----- how the copy is sized

  /** Adding distinct new entries: the order stays while the load is below one, and grows once at exactly one. */
  lemma {:induction false} PutAllOrder(hash: HashFn, t: Table, items: seq<KV>)
    requires Inv(hash, t) && DistinctKeys(items) && ToMap(items).Keys !! Contents(t).Keys
    requires t.size + |items| <= Pow2(t.order)
    ensures PutAll(hash, t, items).order ==
            if items != [] && t.size + |items| == Pow2(t.order) then t.order + 1 else t.order
    decreases |items|
  {
    if items != [] {
      var u := Put(hash, t, items[0].key, items[0].value);
      PutIsMapUpdate(hash, t, items[0].key, items[0].value);
      assert ToMap(items[1..]).Keys !! Contents(u).Keys;
      assert Pow2(t.order + 1) == 2 * Pow2(t.order);
      if |items| > 1 {
        assert u.order == t.order;
      }
      PutAllOrder(hash, u, items[1..]);
    }
  }

  /** A new table has sixteen buckets up to fifteen entries and doubles with the sixteenth. */
  lemma {:induction false} FirstGrowth(hash: HashFn, items: seq<KV>)
    requires DistinctKeys(items) && |items| <= 16
    ensures |InitTable.buckets| == 16
    ensures |PutAll(hash, InitTable, items).buckets| == if |items| < 16 then 16 else 32
  {
    hide PutAll;
    EmptyTable(hash, INIT_ORDER);
    assert Pow2(4) == 16 && Pow2(5) == 32;
    PutAllOrder(hash, InitTable, items);
  }

  function FinalOrder(size: nat): nat {
    if size < INIT_ORDER then INIT_ORDER else BitLength(size)
  }

  lemma {:induction false} MinimalOrders(size: nat)
    requires size >= INIT_ORDER
    ensures MinimalOrder(size, true) == BitLength(size)
    ensures MinimalOrder(size, false) == if size == Pow2(BitLength(size) - 1) then BitLength(size) - 1 else BitLength(size)
  {
    var o := CeilLog2From(size, 0);
    var l := BitLength(size);
    BitLengthBounds(size);
    Pow2Doubles(o, l - 1);
    assert o > l ==> Pow2(l) < size;
    assert o == l ==> Pow2(l - 1) < size;
  }

  /**
    With an exact source size the count-leading-zeros build never rehashes while copying,
    the loop build rehashes at most once, and both end at the same order.
   */
  lemma {:induction false} CopySizing(hash: HashFn, t: Table)
    requires Inv(hash, t) && t.size == |Items(t)|
    ensures Copy(hash, t, true).order == Copy(hash, t, false).order == FinalOrder(t.size)
    ensures t.size > 0 ==> CopyStart(t.size, true).order == FinalOrder(t.size)
    ensures t.size > 0 ==> FinalOrder(t.size) - 1 <= CopyStart(t.size, false).order <= FinalOrder(t.size)
  {
    var n := t.size;
    if n > 0 {
      ItemsDistinct(hash, t);
      EmptyTable(hash, MinimalOrder(n, true));
      EmptyTable(hash, MinimalOrder(n, false));
      if n < INIT_ORDER {
        assert Pow2(4) == 16;
      } else {
        MinimalOrders(n);
        BitLengthBounds(n);
      }
      PutAllOrder(hash, CopyStart(n, true), Items(t));
      PutAllOrder(hash, CopyStart(n, false), Items(t));
    }
  }
}
