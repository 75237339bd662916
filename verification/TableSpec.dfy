/**
  The baggage hashtable as a value: a size field, an order, and 2^order buckets
  of entries.  The functions below do to buckets what hashtable.c does; the
  lemmas show that every run of them is a run of a plain finite map.
  The hash function is a parameter throughout: nothing depends on which it is.
 */
module TableSpec {
  import opened Basics

  type Key = seq<byte>
  type HashFn = Key -> nat

  datatype KV = KV(key: Key, value: Key)
  datatype Table = Table(size: nat, order: nat, buckets: seq<seq<KV>>)

  const INIT_ORDER: nat := 4

  // ----- entries as a map; of two entries with one key, the earlier wins

  function ToMap(s: seq<KV>): map<Key, Key> {
    if s == [] then map[] else ToMap(s[1..])[s[0].key := s[0].value]
  }

  predicate DistinctKeys(s: seq<KV>) {
    s == [] || (s[0].key !in ToMap(s[1..]) && DistinctKeys(s[1..]))
  }

  function Flatten(buckets: seq<seq<KV>>): seq<KV> {
    if buckets == [] then [] else buckets[0] + Flatten(buckets[1..])
  }

  /** All entries in the order in which the code iterates over them. */
  function Items(t: Table): seq<KV> { Flatten(t.buckets) }

  /** The finite map a table stands for. */
  function Contents(t: Table): map<Key, Key> { ToMap(Items(t)) }

  // ----- the operations

  function Slot(hash: HashFn, key: Key, order: nat): (i: nat)
    ensures i < Pow2(order)
  {
    hash(key) % Pow2(order)
  }

  function Bit(n: nat, i: nat): nat { if i == 0 then n % 2 else Bit(n / 2, i - 1) }

  lemma DivisionParts(n: nat, d: nat) returns (q: nat, r: nat)
    requires d > 0
    ensures n == d * q + r && r < d && r == n % d
  {
    q, r := n / d, n % d;
  }

  lemma DoubleFactor(p: nat, q: nat, d: nat)
    requires d == 2 * p
    ensures d * q == 2 * (p * q)
  {
  }

  lemma HalfOfSum(a: nat, r: nat, p: nat)
    requires r < 2 * p
    ensures (2 * a + r) / 2 == a + r / 2 && r / 2 < p && (2 * a + r) % 2 == r % 2
  {
  }

  lemma HalfOfParts(n: nat, p: nat, d: nat, q: nat, r: nat)
    requires p > 0 && d == 2 * p && n == d * q + r && r < d
    ensures r / 2 == n / 2 % p && r % 2 == n % 2
  {
    DoubleFactor(p, q, d);
    HalfOfSum(p * q, r, p);
    RemainderIs(n / 2, p, q, r / 2);
  }

  lemma HalfOfRemainder(n: nat, p: nat, d: nat)
    requires p > 0 && d == 2 * p
    ensures n % d / 2 == n / 2 % p && n % d % 2 == n % 2
  {
    var q, r := DivisionParts(n, d);
    HalfOfParts(n, p, d, q, r);
  }

  lemma RemainderIs(n: nat, p: nat, q: nat, r: nat)
    requires n == p * q + r && r < p
    ensures n % p == r
  {
    var d := n / p - q;
    assert n == p * (n / p) + n % p;
    assert p * d == r - n % p;
    assert d >= 1 ==> p * d >= p;
    assert d <= -1 ==> p * d + p <= 0;
  }

  /** The remainder keeps the low bits, as the mask in hashtable.c does, and no others. */
  lemma {:induction false} RemainderBits(n: nat, order: nat, i: nat)
    ensures Bit(n % Pow2(order), i) == if i < order then Bit(n, i) else 0
    decreases i, order
  {
    if order == 0 {
      ZeroBits(i);
    } else {
      HalfOfRemainder(n, Pow2(order - 1), Pow2(order));
      if i > 0 {
        RemainderBits(n / 2, order - 1, i - 1);
      }
    }
  }

  lemma {:induction false} ZeroBits(i: nat)
    ensures Bit(0, i) == 0
  {
    if i > 0 {
      ZeroBits(i - 1);
    }
  }

  /** A slot is the hash masked to the low `order` bits. */
  lemma {:induction false} SlotIsMasked(hash: HashFn, key: Key, order: nat, i: nat)
    ensures Bit(Slot(hash, key, order), i) == if i < order then Bit(hash(key), i) else 0
  {
    RemainderBits(hash(key), order, i);
  }

  function EmptyBuckets(order: nat): seq<seq<KV>> { seq(Pow2(order), _ => []) }

  const InitTable: Table := Table(0, INIT_ORDER, EmptyBuckets(INIT_ORDER))

  /** Position of the first entry with this key; the length if there is none. */
  function FindIndex(s: seq<KV>, key: Key): (i: nat)
    ensures i <= |s|
    ensures forall j :: 0 <= j < i ==> s[j].key != key
    ensures i < |s| ==> s[i].key == key
  {
    if s == [] || s[0].key == key then 0 else 1 + FindIndex(s[1..], key)
  }

  ghost predicate Shaped(t: Table) { |t.buckets| == Pow2(t.order) }

  function Bucket(hash: HashFn, t: Table, key: Key): seq<KV>
    requires Shaped(t)
  {
    t.buckets[Slot(hash, key, t.order)]
  }

  function Find(hash: HashFn, t: Table, key: Key): Option<Key>
    requires Shaped(t)
  {
    var b := Bucket(hash, t, key);
    var i := FindIndex(b, key);
    if i < |b| then Some(b[i].value) else None
  }

  /** Append each item, in order, to the bucket its slot names. */
  function Distribute(hash: HashFn, order: nat, items: seq<KV>, acc: seq<seq<KV>>): (r: seq<seq<KV>>)
    requires |acc| == Pow2(order)
    ensures |r| == Pow2(order)
    decreases |items|
  {
    if items == [] then acc
    else
      var i := Slot(hash, items[0].key, order);
      Distribute(hash, order, items[1..], acc[i := acc[i] + [items[0]]])
  }

  function Grow(hash: HashFn, t: Table): Table {
    Table(t.size, t.order + 1, Distribute(hash, t.order + 1, Items(t), EmptyBuckets(t.order + 1)))
  }

  predicate NeedsGrow(t: Table) { t.size + 1 >= Pow2(t.order) }

  function GrowIfNeeded(hash: HashFn, t: Table): Table {
    if NeedsGrow(t) then Grow(hash, t) else t
  }

  function PutInBucket(b: seq<KV>, key: Key, value: Key): seq<KV> {
    var i := FindIndex(b, key);
    if i < |b| then b[i := KV(key, value)] else b + [KV(key, value)]
  }

  /** Store without growing: replace the value of a present key, append a new one. */
  function Store(hash: HashFn, t: Table, key: Key, value: Key): Table
    requires Shaped(t)
  {
    var i := Slot(hash, key, t.order);
    var b := t.buckets[i];
    Table(if FindIndex(b, key) < |b| then t.size else t.size + 1,
          t.order,
          t.buckets[i := PutInBucket(b, key, value)])
  }

  function Put(hash: HashFn, t: Table, key: Key, value: Key): Table
    requires Shaped(t)
  {
    Store(hash, GrowIfNeeded(hash, t), key, value)
  }

  function RemoveFromBucket(b: seq<KV>, key: Key): seq<KV> {
    var i := FindIndex(b, key);
    if i < |b| then b[..i] + b[i+1..] else b
  }

  /** The size field keeps counting a removed entry. */
  function Remove(hash: HashFn, t: Table, key: Key): Table
    requires Shaped(t)
  {
    var i := Slot(hash, key, t.order);
    t.(buckets := t.buckets[i := RemoveFromBucket(t.buckets[i], key)])
  }

  function Clear(t: Table): Table { Table(0, t.order, EmptyBuckets(t.order)) }

  lemma PutShaped(hash: HashFn, t: Table, key: Key, value: Key)
    requires Shaped(t)
    ensures Shaped(GrowIfNeeded(hash, t)) && Shaped(Put(hash, t, key, value))
  {
  }

  function BitLength(n: nat): nat { if n == 0 then 0 else 1 + BitLength(n / 2) }

  lemma {:induction false} BitLengthBounds(n: nat)
    ensures n < Pow2(BitLength(n))
    ensures n > 0 ==> BitLength(n) > 0 && Pow2(BitLength(n) - 1) <= n
  {
    if n > 0 {
      BitLengthBounds(n / 2);
    }
  }

  lemma BitLengthUnique(n: nat, b: nat)
    requires n < Pow2(b) && (b > 0 ==> Pow2(b - 1) <= n)
    ensures b == BitLength(n)
  {
    BitLengthBounds(n);
    Pow2Doubles(b, BitLength(n));
    Pow2Doubles(BitLength(n), b);
  }

  /** Least o with size <= 2^o, searched upwards from `from`. */
  function CeilLog2From(size: nat, from: nat): (o: nat)
    ensures from <= o && size <= Pow2(o)
    ensures forall p :: from <= p < o ==> Pow2(p) < size
    decreases size - Pow2(from)
  {
    if Pow2(from) < size then CeilLog2From(size, from + 1) else from
  }

  function MinimalOrder(size: nat, builtin: bool): nat {
    if size < INIT_ORDER then INIT_ORDER
    else if builtin then BitLength(size)
    else CeilLog2From(size, 0)
  }

  function PutAll(hash: HashFn, t: Table, items: seq<KV>): (r: Table)
    requires Shaped(t)
    ensures Shaped(r)
    decreases |items|
  {
    if items == [] then t
    else PutAll(hash, Put(hash, t, items[0].key, items[0].value), items[1..])
  }

  function CopyStart(size: nat, builtin: bool): Table {
    var order := MinimalOrder(size, builtin);
    Table(0, order, EmptyBuckets(order))
  }

  function Copy(hash: HashFn, t: Table, builtin: bool): Table {
    if t.size == 0 then InitTable
    else PutAll(hash, CopyStart(t.size, builtin), Items(t))
  }

  // ----- the invariant of every reachable table

  ghost predicate Placed(hash: HashFn, order: nat, b: seq<KV>, i: nat) {
    forall j :: 0 <= j < |b| ==> Slot(hash, b[j].key, order) == i
  }

  /** Every entry sits in the bucket its hash names, keys are distinct, and the load stays below one. */
  ghost predicate Inv(hash: HashFn, t: Table) {
    && Shaped(t)
    && (forall i :: 0 <= i < |t.buckets| ==>
          Placed(hash, t.order, t.buckets[i], i) && DistinctKeys(t.buckets[i]))
    && t.size < Pow2(t.order)
  }

  // ----- maps of sequences

  lemma {:induction false} ToMapFind(s: seq<KV>, key: Key)
    ensures var i := FindIndex(s, key);
            if i < |s| then key in ToMap(s) && ToMap(s)[key] == s[i].value else key !in ToMap(s)
  {
    if s != [] && s[0].key != key {
      ToMapFind(s[1..], key);
    }
  }

  lemma {:induction false} ToMapConcat(a: seq<KV>, b: seq<KV>)
    ensures ToMap(a + b) == ToMap(b) + ToMap(a)
  {
    if a == [] {
      assert a + b == b;
    } else {
      assert (a + b)[1..] == a[1..] + b;
      ToMapConcat(a[1..], b);
    }
  }

  lemma {:induction false} DistinctConcat(a: seq<KV>, b: seq<KV>)
    ensures DistinctKeys(a + b) <==>
            DistinctKeys(a) && DistinctKeys(b) && ToMap(a).Keys !! ToMap(b).Keys
  {
    if a == [] {
      assert a + b == b;
    } else {
      assert (a + b)[1..] == a[1..] + b;
      ToMapConcat(a[1..], b);
      DistinctConcat(a[1..], b);
    }
  }

  lemma {:induction false} DistinctSize(s: seq<KV>)
    requires DistinctKeys(s)
    ensures |ToMap(s)| == |s|
  {
    if s != [] {
      DistinctSize(s[1..]);
    }
  }

  lemma PutInTail(b: seq<KV>, key: Key, value: Key)
    requires b != [] && b[0].key != key
    ensures PutInBucket(b, key, value) == [b[0]] + PutInBucket(b[1..], key, value)
  {
    assert FindIndex(b, key) == FindIndex(b[1..], key) + 1;
  }

  lemma {:induction false} PutInBucketMap(b: seq<KV>, key: Key, value: Key)
    ensures ToMap(PutInBucket(b, key, value)) == ToMap(b)[key := value]
    ensures DistinctKeys(b) ==> DistinctKeys(PutInBucket(b, key, value))
  {
    var r := PutInBucket(b, key, value);
    if b == [] {
      assert r[1..] == [];
    } else if b[0].key == key {
      assert r == [KV(key, value)] + b[1..];
    } else {
      var rest := PutInBucket(b[1..], key, value);
      PutInTail(b, key, value);
      PutInBucketMap(b[1..], key, value);
      assert r[1..] == rest && r[0] == b[0];
    }
  }

  lemma MapDropOne(m: map<Key, Key>, k: Key, v: Key)
    requires k !in m
    ensures m[k := v] - {k} == m
  {
  }

  lemma MapDropOther(m: map<Key, Key>, k: Key, v: Key, other: Key)
    requires k != other
    ensures m[k := v] - {other} == (m - {other})[k := v]
  {
  }

  lemma RemoveFromTail(b: seq<KV>, key: Key)
    requires b != [] && b[0].key != key
    ensures RemoveFromBucket(b, key) == [b[0]] + RemoveFromBucket(b[1..], key)
  {
    var i := FindIndex(b[1..], key);
    assert FindIndex(b, key) == i + 1;
    if i < |b[1..]| {
      assert b[..i + 1] == [b[0]] + b[1..][..i];
      assert b[i + 2..] == b[1..][i + 1..];
    }
  }

  lemma {:induction false} RemoveFromBucketMap(b: seq<KV>, key: Key)
    requires DistinctKeys(b)
    ensures ToMap(RemoveFromBucket(b, key)) == ToMap(b) - {key}
    ensures DistinctKeys(RemoveFromBucket(b, key))
  {
    if b == [] {
    } else if b[0].key == key {
      assert RemoveFromBucket(b, key) == b[1..];
      MapDropOne(ToMap(b[1..]), key, b[0].value);
    } else {
      var rest := RemoveFromBucket(b[1..], key);
      RemoveFromTail(b, key);
      RemoveFromBucketMap(b[1..], key);
      assert ([b[0]] + rest)[1..] == rest;
      MapDropOther(ToMap(b[1..]), b[0].key, b[0].value, key);
    }
  }

  // ----- a table's map, bucket by bucket

  /** The maps of the buckets have disjoint keys, so a key is looked up in its own bucket only. */
  lemma {:induction false} FlattenLookup(hash: HashFn, order: nat, bs: seq<seq<KV>>, from: nat, key: Key)
    requires forall i :: 0 <= i < |bs| ==> Placed(hash, order, bs[i], from + i)
    ensures var s := Slot(hash, key, order) - from;
            var m := ToMap(Flatten(bs));
            if 0 <= s < |bs| && key in ToMap(bs[s])
            then key in m && m[key] == ToMap(bs[s])[key]
            else key !in m
    decreases |bs|
  {
    if bs != [] {
      forall i | 0 <= i < |bs[1..]| ensures Placed(hash, order, bs[1..][i], from + 1 + i) {
        assert bs[1..][i] == bs[i + 1];
      }
      FlattenLookup(hash, order, bs[1..], from + 1, key);
      ToMapConcat(bs[0], Flatten(bs[1..]));
      ToMapFind(bs[0], key);
      var s := Slot(hash, key, order) - from;
      if 0 < s < |bs| {
        assert bs[1..][s - 1] == bs[s];
      }
    }
  }

  lemma ContentsLookup(hash: HashFn, t: Table, key: Key)
    requires Inv(hash, t)
    ensures var b := ToMap(Bucket(hash, t, key));
            if key in b then key in Contents(t) && Contents(t)[key] == b[key] else key !in Contents(t)
  {
    FlattenLookup(hash, t.order, t.buckets, 0, key);
  }

  lemma {:induction false} FlattenDistinct(hash: HashFn, order: nat, bs: seq<seq<KV>>, from: nat)
    requires forall i :: 0 <= i < |bs| ==> Placed(hash, order, bs[i], from + i) && DistinctKeys(bs[i])
    ensures DistinctKeys(Flatten(bs))
    decreases |bs|
  {
    if bs != [] {
      var rest := bs[1..];
      forall i | 0 <= i < |rest| ensures Placed(hash, order, rest[i], from + 1 + i) && DistinctKeys(rest[i]) {
        assert rest[i] == bs[i + 1];
      }
      FlattenDistinct(hash, order, rest, from + 1);
      forall k | k in ToMap(bs[0]) ensures k !in ToMap(Flatten(rest)) {
        ToMapFind(bs[0], k);
        FlattenLookup(hash, order, rest, from + 1, k);
      }
      DistinctConcat(bs[0], Flatten(rest));
    }
  }

  /** Keys are distinct across the whole table. */
  lemma {:induction false} ItemsDistinct(hash: HashFn, t: Table)
    requires Inv(hash, t)
    ensures DistinctKeys(Items(t))
    ensures |Contents(t)| == |Items(t)|
  {
    FlattenDistinct(hash, t.order, t.buckets, 0);
    DistinctSize(Items(t));
  }

  /** Looking a key up in its bucket is looking it up in the map. */
  lemma {:induction false} FindIsMapLookup(hash: HashFn, t: Table, key: Key)
    requires Inv(hash, t)
    ensures Find(hash, t, key) == if key in Contents(t) then Some(Contents(t)[key]) else None
  {
    ContentsLookup(hash, t, key);
    ToMapFind(Bucket(hash, t, key), key);
  }

  lemma {:induction false} FlattenEmpty(bs: seq<seq<KV>>)
    requires forall i :: 0 <= i < |bs| ==> bs[i] == []
    ensures Flatten(bs) == []
  {
    if bs != [] {
      FlattenEmpty(bs[1..]);
    }
  }

  lemma FlattenFrom(bs: seq<seq<KV>>, i: nat)
    requires i < |bs|
    ensures Flatten(bs[i..]) == bs[i] + Flatten(bs[i + 1..])
  {
    assert bs[i..][0] == bs[i] && bs[i..][1..] == bs[i + 1..];
  }

  lemma FlattenNone()
    ensures Flatten([]) == []
  {
  }

  lemma EmptyTable(hash: HashFn, order: nat)
    ensures Inv(hash, Table(0, order, EmptyBuckets(order)))
    ensures Items(Table(0, order, EmptyBuckets(order))) == []
  {
    FlattenEmpty(EmptyBuckets(order));
  }

  // ----- growing keeps the map

  function OfSlot(hash: HashFn, order: nat, items: seq<KV>, i: nat): seq<KV> {
    if items == [] then []
    else (if Slot(hash, items[0].key, order) == i then [items[0]] else []) + OfSlot(hash, order, items[1..], i)
  }

  lemma {:induction false} DistributeIsOfSlot(hash: HashFn, order: nat, items: seq<KV>, acc: seq<seq<KV>>, i: nat)
    requires |acc| == Pow2(order) && i < Pow2(order)
    ensures Distribute(hash, order, items, acc)[i] == acc[i] + OfSlot(hash, order, items, i)
    decreases |items|
  {
    if items != [] {
      var s := Slot(hash, items[0].key, order);
      DistributeIsOfSlot(hash, order, items[1..], acc[s := acc[s] + [items[0]]], i);
    }
  }

  lemma {:induction false} DistributeConcat(hash: HashFn, order: nat, a: seq<KV>, b: seq<KV>, acc: seq<seq<KV>>)
    requires |acc| == Pow2(order)
    ensures Distribute(hash, order, a + b, acc) == Distribute(hash, order, b, Distribute(hash, order, a, acc))
    decreases |a|
  {
    if a == [] {
      assert a + b == b;
    } else {
      assert (a + b)[1..] == a[1..] + b;
      var i := Slot(hash, a[0].key, order);
      DistributeConcat(hash, order, a[1..], b, acc[i := acc[i] + [a[0]]]);
    }
  }

  lemma {:induction false} OfSlotMap(hash: HashFn, order: nat, items: seq<KV>, i: nat)
    ensures Placed(hash, order, OfSlot(hash, order, items, i), i)
    ensures forall k :: k in ToMap(OfSlot(hash, order, items, i)) <==>
                        k in ToMap(items) && Slot(hash, k, order) == i
    ensures forall k :: k in ToMap(OfSlot(hash, order, items, i)) ==>
                        ToMap(OfSlot(hash, order, items, i))[k] == ToMap(items)[k]
    ensures DistinctKeys(items) ==> DistinctKeys(OfSlot(hash, order, items, i))
  {
    if items != [] {
      OfSlotMap(hash, order, items[1..], i);
      var r := OfSlot(hash, order, items, i);
      if Slot(hash, items[0].key, order) == i {
        assert r[1..] == OfSlot(hash, order, items[1..], i);
      } else {
        assert r == OfSlot(hash, order, items[1..], i);
      }
    }
  }

  lemma {:induction false} GrowKeepsMap(hash: HashFn, t: Table)
    requires Inv(hash, t)
    ensures Inv(hash, Grow(hash, t))
    ensures Contents(Grow(hash, t)) == Contents(t) && Grow(hash, t).size == t.size
  {
    var g := Grow(hash, t);
    ItemsDistinct(hash, t);
    forall i | 0 <= i < |g.buckets|
      ensures g.buckets[i] == OfSlot(hash, g.order, Items(t), i)
      ensures Placed(hash, g.order, g.buckets[i], i) && DistinctKeys(g.buckets[i])
    {
      DistributeIsOfSlot(hash, g.order, Items(t), EmptyBuckets(g.order), i);
      OfSlotMap(hash, g.order, Items(t), i);
    }
    assert Inv(hash, g);
    forall k
      ensures k in Contents(g) <==> k in Contents(t)
      ensures k in Contents(t) ==> Contents(g)[k] == Contents(t)[k]
    {
      ContentsLookup(hash, g, k);
      OfSlotMap(hash, g.order, Items(t), Slot(hash, k, g.order));
    }
  }

  // ----- put, remove, clear and copy on the map

  /** Replacing one bucket changes the map for the keys of that slot only. */
  lemma BucketUpdate(hash: HashFn, t: Table, i: nat, b: seq<KV>, size: nat)
    requires Inv(hash, t) && i < |t.buckets| && size < Pow2(t.order)
    requires Placed(hash, t.order, b, i) && DistinctKeys(b)
    ensures var r := Table(size, t.order, t.buckets[i := b]);
            && Inv(hash, r)
            && (forall k :: k in Contents(r) <==>
                  if Slot(hash, k, t.order) == i then k in ToMap(b) else k in Contents(t))
            && (forall k :: k in Contents(r) ==>
                  Contents(r)[k] == if Slot(hash, k, t.order) == i then ToMap(b)[k] else Contents(t)[k])
  {
    var r := Table(size, t.order, t.buckets[i := b]);
    assert Inv(hash, r);
    forall k
      ensures k in Contents(r) <==> if Slot(hash, k, t.order) == i then k in ToMap(b) else k in Contents(t)
      ensures k in Contents(r) ==>
                Contents(r)[k] == if Slot(hash, k, t.order) == i then ToMap(b)[k] else Contents(t)[k]
    {
      ContentsLookup(hash, t, k);
      ContentsLookup(hash, r, k);
    }
  }

  lemma PutPlaced(hash: HashFn, order: nat, b: seq<KV>, key: Key, value: Key, i: nat)
    requires Placed(hash, order, b, i) && Slot(hash, key, order) == i
    ensures Placed(hash, order, PutInBucket(b, key, value), i)
  {
  }

  lemma StoreIsMapUpdate(hash: HashFn, t: Table, key: Key, value: Key)
    requires Inv(hash, t) && !NeedsGrow(t)
    ensures Inv(hash, Store(hash, t, key, value))
    ensures Contents(Store(hash, t, key, value)) == Contents(t)[key := value]
    ensures Store(hash, t, key, value).size == if key in Contents(t) then t.size else t.size + 1
  {
    var i := Slot(hash, key, t.order);
    var b := t.buckets[i];
    var r := Store(hash, t, key, value);
    hide ToMap, DistinctKeys, FindIndex, Flatten, Pow2, Placed, PutInBucket;
    PutInBucketMap(b, key, value);
    PutPlaced(hash, t.order, b, key, value, i);
    ToMapFind(b, key);
    ContentsLookup(hash, t, key);
    BucketUpdate(hash, t, i, PutInBucket(b, key, value), r.size);
    forall k
      ensures k in Contents(r) <==> k in Contents(t)[key := value]
      ensures k in Contents(r) ==> Contents(r)[k] == Contents(t)[key := value][k]
    {
      ContentsLookup(hash, t, k);
    }
  }

  lemma {:induction false} PutIsMapUpdate(hash: HashFn, t: Table, key: Key, value: Key)
    requires Inv(hash, t)
    ensures Inv(hash, Put(hash, t, key, value))
    ensures Contents(Put(hash, t, key, value)) == Contents(t)[key := value]
    ensures Put(hash, t, key, value).size == if key in Contents(t) then t.size else t.size + 1
  {
    if NeedsGrow(t) {
      GrowKeepsMap(hash, t);
    }
    StoreIsMapUpdate(hash, GrowIfNeeded(hash, t), key, value);
  }

  lemma {:induction false} RemoveIsMapRemoval(hash: HashFn, t: Table, key: Key)
    requires Inv(hash, t)
    ensures Inv(hash, Remove(hash, t, key))
    ensures Contents(Remove(hash, t, key)) == Contents(t) - {key} && Remove(hash, t, key).size == t.size
  {
    var i := Slot(hash, key, t.order);
    var r := Remove(hash, t, key);
    RemoveFromBucketMap(t.buckets[i], key);
    BucketUpdate(hash, t, i, RemoveFromBucket(t.buckets[i], key), t.size);
    forall k
      ensures k in Contents(r) <==> k in Contents(t) - {key}
      ensures k in Contents(r) ==> Contents(r)[k] == Contents(t)[k]
    {
      ContentsLookup(hash, t, k);
    }
  }

  lemma MapAddOne(m: map<Key, Key>, k: Key, v: Key, n: map<Key, Key>)
    requires k !in n
    ensures m[k := v] + n == m + n[k := v]
  {
  }

  lemma {:induction false} PutAllConcat(hash: HashFn, t: Table, a: seq<KV>, b: seq<KV>)
    requires Shaped(t)
    ensures PutAll(hash, t, a + b) == PutAll(hash, PutAll(hash, t, a), b)
    decreases |a|
  {
    if a == [] {
      assert a + b == b;
    } else {
      assert (a + b)[1..] == a[1..] + b;
      PutAllConcat(hash, Put(hash, t, a[0].key, a[0].value), a[1..], b);
    }
  }

  lemma PutAllNone(hash: HashFn, t: Table)
    requires Shaped(t)
    ensures PutAll(hash, t, []) == t
  {
  }

  lemma PutAllFrom(hash: HashFn, t: Table, items: seq<KV>, i: nat)
    requires Shaped(t) && i < |items|
    ensures Shaped(Put(hash, t, items[i].key, items[i].value))
    ensures PutAll(hash, t, items[i..]) == PutAll(hash, Put(hash, t, items[i].key, items[i].value), items[i + 1..])
  {
    assert items[i..][0] == items[i] && items[i..][1..] == items[i + 1..];
  }

  lemma PutAllOneMore(hash: HashFn, t: Table, done: seq<KV>, kv: KV)
    requires Shaped(t)
    ensures PutAll(hash, t, done + [kv]) == Put(hash, PutAll(hash, t, done), kv.key, kv.value)
  {
    PutAllConcat(hash, t, done, [kv]);
    assert [kv][1..] == [];
    var u := PutAll(hash, t, done);
    assert PutAll(hash, u, [kv]) == PutAll(hash, Put(hash, u, kv.key, kv.value), []);
  }

  /** Putting entries with distinct new keys one by one adds exactly those entries. */
  lemma {:induction false} PutAllAdds(hash: HashFn, t: Table, items: seq<KV>)
    requires Inv(hash, t) && DistinctKeys(items) && ToMap(items).Keys !! Contents(t).Keys
    ensures Inv(hash, PutAll(hash, t, items))
    ensures Contents(PutAll(hash, t, items)) == Contents(t) + ToMap(items)
    ensures PutAll(hash, t, items).size == t.size + |items|
    decreases |items|
  {
    if items != [] {
      var u := Put(hash, t, items[0].key, items[0].value);
      PutIsMapUpdate(hash, t, items[0].key, items[0].value);
      assert ToMap(items[1..]).Keys !! Contents(u).Keys;
      PutAllAdds(hash, u, items[1..]);
      assert PutAll(hash, t, items) == PutAll(hash, u, items[1..]);
      MapAddOne(Contents(t), items[0].key, items[0].value, ToMap(items[1..]));
    }
  }

  /** Putting entries with distinct keys, present or not, updates exactly those keys. */
  lemma {:induction false} PutAllUpdates(hash: HashFn, t: Table, items: seq<KV>)
    requires Inv(hash, t) && DistinctKeys(items)
    ensures Inv(hash, PutAll(hash, t, items))
    ensures Contents(PutAll(hash, t, items)) == Contents(t) + ToMap(items)
    decreases |items|
  {
    hide Put, Contents, Inv;
    if items != [] {
      InvShaped(hash, t);
      var u := Put(hash, t, items[0].key, items[0].value);
      PutIsMapUpdate(hash, t, items[0].key, items[0].value);
      InvShaped(hash, u);
      PutAllUpdates(hash, u, items[1..]);
      MapAddOne(Contents(t), items[0].key, items[0].value, ToMap(items[1..]));
    }
  }

  lemma InvShaped(hash: HashFn, t: Table)
    requires Inv(hash, t)
    ensures Shaped(t)
  {
  }

  lemma {:induction false} CopyKeepsMap(hash: HashFn, t: Table, builtin: bool)
    requires Inv(hash, t) && |Items(t)| <= t.size
    ensures Inv(hash, Copy(hash, t, builtin))
    ensures Contents(Copy(hash, t, builtin)) == Contents(t)
    ensures Copy(hash, t, builtin).size == |Contents(t)|
  {
    EmptyTable(hash, INIT_ORDER);
    EmptyTable(hash, MinimalOrder(t.size, builtin));
    ItemsDistinct(hash, t);
    if t.size != 0 {
      PutAllAdds(hash, CopyStart(t.size, builtin), Items(t));
    }
  }
}
