/** How many allocations the operations of the hashtable make. */
module TableMemory {
  import opened Basics
  import opened TableSpec
  import opened Allocation

  /** A new value, or a key, a value and a node. */
  function StoreCost(hash: HashFn, t: Table, key: Key): nat
    requires Shaped(t)
  {
    var b := Bucket(hash, t, key);
    if FindIndex(b, key) < |b| then 1 else 3
  }

  /** A bucket array if the table has to grow, and what the store needs then. */
  function PutCost(hash: HashFn, t: Table, key: Key): nat
    requires Shaped(t)
  {
    (if NeedsGrow(t) then 1 else 0) + StoreCost(hash, GrowIfNeeded(hash, t), key)
  }

  function PutAllCost(hash: HashFn, t: Table, items: seq<KV>): nat
    requires Shaped(t)
    decreases |items|
  {
    if items == [] then 0
    else PutCost(hash, t, items[0].key) + PutAllCost(hash, Put(hash, t, items[0].key, items[0].value), items[1..])
  }

  function CopyCost(hash: HashFn, t: Table, builtin: bool): nat {
    if t.size == 0 then 1 else 1 + PutAllCost(hash, CopyStart(t.size, builtin), Items(t))
  }

  /** In terms of the map: one allocation for a present key, three for a new one, one more to grow. */
  lemma {:induction false} PutCostIs(hash: HashFn, t: Table, key: Key)
    requires Inv(hash, t)
    ensures PutCost(hash, t, key) == (if NeedsGrow(t) then 1 else 0) + if key in Contents(t) then 1 else 3
  {
    var g := GrowIfNeeded(hash, t);
    if NeedsGrow(t) {
      GrowKeepsMap(hash, t);
    }
    ContentsLookup(hash, g, key);
    ToMapFind(Bucket(hash, g, key), key);
  }

  lemma PutAllCostFrom(hash: HashFn, t: Table, items: seq<KV>, i: nat)
    requires Shaped(t) && i < |items|
    ensures Shaped(Put(hash, t, items[i].key, items[i].value))
    ensures PutAllCost(hash, t, items[i..]) ==
            PutCost(hash, t, items[i].key)
            + PutAllCost(hash, Put(hash, t, items[i].key, items[i].value), items[i + 1..])
  {
    hide Put, PutCost;
    PutShaped(hash, t, items[i].key, items[i].value);
    assert items[i..][0] == items[i] && items[i..][1..] == items[i + 1..];
  }

  lemma {:induction false} PutAllCostConcat(hash: HashFn, t: Table, a: seq<KV>, b: seq<KV>)
    requires Shaped(t)
    ensures PutAllCost(hash, t, a + b) == PutAllCost(hash, t, a) + PutAllCost(hash, PutAll(hash, t, a), b)
    decreases |a|
  {
    hide Put, PutCost;
    if a == [] {
      assert a + b == b;
    } else {
      assert (a + b)[1..] == a[1..] + b;
      PutShaped(hash, t, a[0].key, a[0].value);
      PutAllCostConcat(hash, Put(hash, t, a[0].key, a[0].value), a[1..], b);
    }
  }

  /** What is left to allocate decides as the whole did. */
  ghost predicate Left(m: Memory, total: nat, rest: Memory, left: nat) {
    (Enough(m, total) <==> Enough(rest, left)) && After(m, total) == After(rest, left)
  }

  lemma LeftAll(m: Memory, total: nat)
    ensures Left(m, total, m, total)
  {
  }

  lemma CostNothing(hash: HashFn, t: Table)
    requires Shaped(t)
    ensures PutAllCost(hash, t, []) == 0
  {
  }

  lemma LeftStep(m: Memory, total: nat, rest: Memory, n: nat, left: nat)
    requires Left(m, total, rest, n + left)
    ensures Enough(rest, n) ==> Left(m, total, After(rest, n), left)
    ensures !Enough(rest, n) ==> !Enough(m, total) && After(m, total) == After(rest, n)
  {
    TakeStep(rest, n, left);
  }

  lemma LeftDone(m: Memory, total: nat, rest: Memory)
    requires Left(m, total, rest, 0)
    ensures Enough(m, total) && After(m, total) == rest
  {
  }
}
