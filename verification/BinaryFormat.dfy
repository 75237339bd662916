/**
  The binary carrier format of propagation.c as functions: big-endian identifiers, a flags
  byte, the number of baggage items, and each item as two length-prefixed strings.
 */
module BinaryFormat {
  import opened Basics
  import opened TableSpec
  import opened CStrings

  const TWO_31: nat := 0x8000_0000
  const TWO_32: nat := 0x1_0000_0000

  /** Width in bytes determines the range. */
  function Range(w: nat): (r: nat)
    ensures r >= 1
  {
    if w == 0 then 1 else 256 * Range(w - 1)
  }

  datatype Ids = Ids(high: nat, low: nat, span: nat, flags: byte)

  predicate InRange(ids: Ids) { ids.high < Range(8) && ids.low < Range(8) && ids.span < Range(8) }

  // ----- big-endian integers

  function BigEndian(n: nat, w: nat): (s: Bytes)
    ensures |s| == w
  {
    if w == 0 then [] else BigEndian(n / 256, w - 1) + [n % 256]
  }

  function FromBigEndian(s: Bytes): nat {
    if s == [] then 0 else 256 * FromBigEndian(s[..|s| - 1]) + s[|s| - 1]
  }

  lemma {:induction false} BigEndianInverse(n: nat, w: nat)
    requires n < Range(w)
    ensures FromBigEndian(BigEndian(n, w)) == n
  {
    if w > 0 {
      BigEndianInverse(n / 256, w - 1);
      var s := BigEndian(n, w);
      assert s[..w - 1] == BigEndian(n / 256, w - 1);
    }
  }

  // ----- writing

  /** The length written, and the number of bytes that follow it, is a 32-bit integer. */
  function EncodeString(s: Bytes): Bytes { BigEndian(|s| % TWO_32, 4) + s[..|s| % TWO_32] }

  function EncodeItem(kv: KV): Bytes { EncodeString(kv.key) + EncodeString(kv.value) }

  function EncodeItems(items: seq<KV>): Bytes {
    if items == [] then [] else EncodeItem(items[0]) + EncodeItems(items[1..])
  }

  function EncodeIds(ids: Ids): Bytes {
    BigEndian(ids.high, 8) + BigEndian(ids.low, 8) + BigEndian(ids.span, 8) + [ids.flags]
  }

  /** The count is the table's size field, the items are what iteration meets. */
  function Encode(ids: Ids, t: Table): Bytes {
    EncodeIds(ids) + BigEndian(t.size % TWO_32, 4) + EncodeItems(Items(t))
  }

  // ----- reading

  datatype Parse<+T> = Ok(value: T, rest: Bytes) | Corrupted

  function ReadUint(s: Bytes, w: nat): Parse<nat> {
    if |s| < w then Corrupted else Ok(FromBigEndian(s[..w]), s[w..])
  }

  /** A length the code's signed comparison takes for negative never matches a count. */
  function ReadBuffer(s: Bytes, len: nat): Parse<Bytes> {
    if len >= TWO_31 || |s| < len then Corrupted else Ok(s[..len], s[len..])
  }

  function ReadString(s: Bytes): Parse<Bytes> {
    match ReadUint(s, 4)
    case Corrupted => Corrupted
    case Ok(len, rest) => ReadBuffer(rest, len)
  }

  function ReadItem(s: Bytes): Parse<KV> {
    match ReadString(s)
    case Corrupted => Corrupted
    case Ok(key, rest) =>
      match ReadString(rest)
      case Corrupted => Corrupted
      case Ok(value, rest') => Ok(KV(CString(key), CString(value)), rest')
  }

  function ReadItems(s: Bytes, n: nat): Parse<seq<KV>> {
    if n == 0 then Ok([], s)
    else
      match ReadItem(s)
      case Corrupted => Corrupted
      case Ok(kv, rest) => Prepend([kv], ReadItems(rest, n - 1))
  }

  function Prepend(items: seq<KV>, p: Parse<seq<KV>>): Parse<seq<KV>> {
    match p
    case Corrupted => Corrupted
    case Ok(more, rest) => Ok(items + more, rest)
  }

  /** The loop bound is the count as a signed int. */
  function LoopCount(count: nat): nat { if count < TWO_31 then count else 0 }

  function ReadBaggage(s: Bytes): Parse<seq<KV>> {
    match ReadUint(s, 4)
    case Corrupted => Corrupted
    case Ok(count, rest) => ReadItems(rest, LoopCount(count))
  }

  function ReadIds(s: Bytes): Parse<Ids> {
    match ReadUint(s, 8)
    case Corrupted => Corrupted
    case Ok(high, s1) =>
      match ReadUint(s1, 8)
      case Corrupted => Corrupted
      case Ok(low, s2) =>
        match ReadUint(s2, 8)
        case Corrupted => Corrupted
        case Ok(span, s3) => if s3 == [] then Corrupted else Ok(Ids(high, low, span, s3[0]), s3[1..])
  }

  datatype Message = Message(ids: Ids, items: seq<KV>)

  function Decode(s: Bytes): Parse<Message> {
    match ReadIds(s)
    case Corrupted => Corrupted
    case Ok(ids, s1) =>
      match ReadBaggage(s1)
      case Corrupted => Corrupted
      case Ok(items, s2) => Ok(Message(ids, items), s2)
  }

  // ----- reading back what was written

  predicate Plain(s: Bytes) { |s| < TWO_31 && 0 !in s }

  ghost predicate PlainItems(items: seq<KV>) {
    forall i :: 0 <= i < |items| ==> Plain(items[i].key) && Plain(items[i].value)
  }

  lemma ReadUintBack(n: nat, w: nat, rest: Bytes)
    requires n < Range(w)
    ensures ReadUint(BigEndian(n, w) + rest, w) == Ok(n, rest)
  {
    var s := BigEndian(n, w) + rest;
    assert s[..w] == BigEndian(n, w) && s[w..] == rest;
    BigEndianInverse(n, w);
  }

  lemma Range4()
    ensures Range(4) == TWO_32
  {
    assert Range(1) == 256 && Range(2) == 65536 && Range(3) == 16777216;
  }

  lemma ReadStringBack(s: Bytes, rest: Bytes)
    requires |s| < TWO_31
    ensures ReadString(EncodeString(s) + rest) == Ok(s, rest)
  {
    Range4();
    assert s[..|s| % TWO_32] == s;
    assert EncodeString(s) + rest == BigEndian(|s|, 4) + (s + rest);
    ReadUintBack(|s|, 4, s + rest);
    assert (s + rest)[..|s|] == s && (s + rest)[|s|..] == rest;
  }

  lemma ReadItemBack(kv: KV, rest: Bytes)
    requires Plain(kv.key) && Plain(kv.value)
    ensures ReadItem(EncodeItem(kv) + rest) == Ok(kv, rest)
  {
    assert EncodeItem(kv) + rest == EncodeString(kv.key) + (EncodeString(kv.value) + rest);
    ReadStringBack(kv.key, EncodeString(kv.value) + rest);
    ReadStringBack(kv.value, rest);
  }

  lemma {:induction false} ReadItemsBack(items: seq<KV>, rest: Bytes)
    requires PlainItems(items)
    ensures ReadItems(EncodeItems(items) + rest, |items|) == Ok(items, rest)
    decreases |items|
  {
    if items == [] {
      assert EncodeItems(items) + rest == rest;
    } else {
      var more := EncodeItems(items[1..]) + rest;
      assert EncodeItems(items) + rest == EncodeItem(items[0]) + more;
      ReadItemBack(items[0], more);
      ReadItemsBack(items[1..], rest);
      assert [items[0]] + items[1..] == items;
    }
  }

  lemma ReadIdsBack(ids: Ids, rest: Bytes)
    requires InRange(ids)
    ensures ReadIds(EncodeIds(ids) + rest) == Ok(ids, rest)
  {
    var s3 := [ids.flags] + rest;
    var s2 := BigEndian(ids.span, 8) + s3;
    var s1 := BigEndian(ids.low, 8) + s2;
    assert EncodeIds(ids) + rest == BigEndian(ids.high, 8) + s1;
    ReadUintBack(ids.high, 8, s1);
    ReadUintBack(ids.low, 8, s2);
    ReadUintBack(ids.span, 8, s3);
    assert s3[1..] == rest;
  }

  lemma ReadBaggageBack(items: seq<KV>, rest: Bytes)
    requires |items| < TWO_31 && PlainItems(items)
    ensures ReadBaggage(BigEndian(|items|, 4) + (EncodeItems(items) + rest)) == Ok(items, rest)
  {
    Range4();
    ReadUintBack(|items|, 4, EncodeItems(items) + rest);
    ReadItemsBack(items, rest);
  }

  lemma DecodeParts(s: Bytes, ids: Ids, s1: Bytes, items: seq<KV>, s2: Bytes)
    requires ReadIds(s) == Ok(ids, s1) && ReadBaggage(s1) == Ok(items, s2)
    ensures Decode(s) == Ok(Message(ids, items), s2)
  {
  }

  lemma ReadItemsStep(s: Bytes, n: nat, kv: KV, rest: Bytes)
    requires n > 0 && ReadItem(s) == Ok(kv, rest)
    ensures ReadItems(rest, n - 1) == Corrupted ==> ReadItems(s, n) == Corrupted
  {
  }

  lemma ReadItemsStop(s: Bytes, n: nat)
    requires n > 0 && ReadItem(s) == Corrupted
    ensures ReadItems(s, n) == Corrupted
  {
  }

  lemma Associate(a: Bytes, b: Bytes, c: Bytes, d: Bytes)
    ensures a + b + c + d == a + (b + (c + d))
  {
  }

  /**
    Extracting from the injected bytes and any suffix gives back the identifiers and the entries,
    and leaves exactly the suffix unread, provided the size field is exact.
   */
  lemma {:induction false} DecodeEncode(ids: Ids, t: Table, suffix: Bytes)
    requires InRange(ids) && t.size == |Items(t)| < TWO_31 && PlainItems(Items(t))
    ensures Decode(Encode(ids, t) + suffix) == Ok(Message(ids, Items(t)), suffix)
  {
    hide ReadIds, ReadBaggage, EncodeIds, BigEndian, EncodeItems;
    var items := Items(t);
    var body := BigEndian(t.size, 4) + (EncodeItems(items) + suffix);
    Associate(EncodeIds(ids), BigEndian(t.size, 4), EncodeItems(items), suffix);
    ReadIdsBack(ids, body);
    ReadBaggageBack(items, suffix);
    DecodeParts(EncodeIds(ids) + body, ids, body, items, suffix);
    assert Encode(ids, t) + suffix == EncodeIds(ids) + body;
  }

  lemma EmptyContents(hash: HashFn)
    ensures Inv(hash, InitTable) && Contents(InitTable) == map[] && Shaped(InitTable)
    ensures forall t :: Contents(t) == ToMap(Items(t))
  {
    EmptyTable(hash, INIT_ORDER);
  }

  /** The extracted table stands for the same map, whichever hash it uses. */
  lemma {:induction false} BinaryRoundTrip(hash: HashFn, other: HashFn, ids: Ids, t: Table, suffix: Bytes)
    requires Inv(hash, t) && InRange(ids) && t.size == |Items(t)| < TWO_31 && PlainItems(Items(t))
    ensures var p := Decode(Encode(ids, t) + suffix);
            && p.Ok? && p.value.ids == ids && p.rest == suffix
            && Contents(PutAll(other, InitTable, p.value.items)) == Contents(t)
  {
    hide Decode, Encode, PutAll, Contents, Inv, Items, PlainItems;
    DecodeEncode(ids, t, suffix);
    ItemsDistinct(hash, t);
    EmptyContents(other);
    PutAllAdds(other, InitTable, Items(t));
  }

  // ----- messages cut short

  /** A prefix of a + b is a strict prefix of a, or a and a prefix of b. */
  lemma PrefixSplit(a: Bytes, b: Bytes, p: Bytes)
    requires p <= a + b
    ensures |p| < |a| ==> p < a
    ensures |p| >= |a| ==> p == a + p[|a|..] && p[|a|..] <= b && (p < a + b <==> p[|a|..] < b)
  {
    assert p == (a + b)[..|p|];
  }

  lemma ShortString(s: Bytes, p: Bytes)
    requires |s| < TWO_31 && p < EncodeString(s)
    ensures ReadString(p) == Corrupted
  {
    if |p| >= 4 {
      Range4();
      assert s[..|s| % TWO_32] == s;
      assert p == BigEndian(|s|, 4) + p[4..];
      ReadUintBack(|s|, 4, p[4..]);
    }
  }

  lemma ShortItem(kv: KV, p: Bytes)
    requires Plain(kv.key) && Plain(kv.value) && p < EncodeItem(kv)
    ensures ReadItem(p) == Corrupted
  {
    var k := EncodeString(kv.key);
    PrefixSplit(k, EncodeString(kv.value), p);
    if |p| < |k| {
      ShortString(kv.key, p);
    } else {
      var rest := p[|k|..];
      ReadStringBack(kv.key, rest);
      ShortString(kv.value, rest);
    }
  }

  lemma EncodeItemsStep(items: seq<KV>)
    requires items != []
    ensures EncodeItems(items) == EncodeItem(items[0]) + EncodeItems(items[1..])
  {
  }

  lemma EmptyInput(n: nat)
    ensures EncodeItems([]) == []
    ensures n > 0 ==> ReadItems([], n) == Corrupted
  {
  }

  /** Too few bytes, or too few items for the count. */
  lemma {:induction false} ShortItems(items: seq<KV>, p: Bytes, n: nat)
    requires PlainItems(items) && p <= EncodeItems(items) && n >= |items|
    requires p < EncodeItems(items) || n > |items|
    ensures ReadItems(p, n) == Corrupted
    decreases |items|
  {
    hide EncodeItem, ReadItem, ReadItems, EncodeItems;
    if items == [] {
      EmptyInput(n);
    } else {
      EncodeItemsStep(items);
      var first := EncodeItem(items[0]);
      PrefixSplit(first, EncodeItems(items[1..]), p);
      if |p| < |first| {
        ShortItem(items[0], p);
        ReadItemsStop(p, n);
      } else {
        var rest := p[|first|..];
        ReadItemBack(items[0], rest);
        ReadItemsStep(p, n, items[0], rest);
        ShortItems(items[1..], rest, n - 1);
      }
    }
  }

  lemma ShortIds(ids: Ids, p: Bytes)
    requires |p| < |EncodeIds(ids)|
    ensures ReadIds(p) == Corrupted
  {
  }

  /** A message cut short, or one whose count exceeds its items, is rejected as corrupted. */
  lemma {:induction false} ShortMessage(ids: Ids, count: nat, items: seq<KV>, p: Bytes)
    requires InRange(ids) && PlainItems(items) && |items| <= count < TWO_31
    requires p <= EncodeIds(ids) + BigEndian(count, 4) + EncodeItems(items)
    requires p < EncodeIds(ids) + BigEndian(count, 4) + EncodeItems(items) || count > |items|
    ensures Decode(p) == Corrupted
  {
    hide ReadIds, ReadBaggage, EncodeIds, BigEndian, EncodeItems;
    var head, body := EncodeIds(ids), BigEndian(count, 4) + EncodeItems(items);
    assert head + BigEndian(count, 4) + EncodeItems(items) == head + body;
    PrefixSplit(head, body, p);
    if |p| < |head| {
      ShortIds(ids, p);
    } else {
      ReadIdsBack(ids, p[|head|..]);
      ShortBaggage(count, items, p[|head|..]);
    }
  }

  lemma ShortBaggage(count: nat, items: seq<KV>, p: Bytes)
    requires PlainItems(items) && |items| <= count < TWO_31
    requires p <= BigEndian(count, 4) + EncodeItems(items)
    requires p < BigEndian(count, 4) + EncodeItems(items) || count > |items|
    ensures ReadBaggage(p) == Corrupted
  {
    PrefixSplit(BigEndian(count, 4), EncodeItems(items), p);
    if |p| >= 4 {
      Range4();
      ReadUintBack(count, 4, p[4..]);
      ShortItems(items, p[4..], count);
    }
  }

  // ----- failures on which the code frees a buffer twice

  /** The length of the entry's value can be read. */
  predicate ReachesValue(s: Bytes) { ReadString(s).Ok? && ReadUint(ReadString(s).rest, 4).Ok? }

  /** Reading fails behind a complete entry and in front of the value of the next. */
  predicate ItemsFreeTwice(s: Bytes, n: nat, some: bool) {
    n > 0 &&
    match ReadItem(s)
    case Corrupted => some && !ReachesValue(s)
    case Ok(_, rest) => ItemsFreeTwice(rest, n - 1, true)
  }

  predicate BaggageFreesTwice(s: Bytes) {
    match ReadUint(s, 4)
    case Corrupted => false
    case Ok(count, rest) => ItemsFreeTwice(rest, LoopCount(count), false)
  }

  predicate FreesTwice(s: Bytes) {
    match ReadIds(s)
    case Corrupted => false
    case Ok(_, body) => BaggageFreesTwice(body)
  }

  /** The same of the entries of a message cut to len bytes, in terms of len. */
  predicate CutBeforeValue(items: seq<KV>, len: nat, some: bool) {
    items != [] &&
    var first := |EncodeItem(items[0])|;
    if len < first then some && len < |EncodeString(items[0].key)| + 4
    else CutBeforeValue(items[1..], len - first, true)
  }

  lemma ReachesValueIff(kv: KV, p: Bytes)
    requires Plain(kv.key) && Plain(kv.value) && p < EncodeItem(kv)
    ensures ReachesValue(p) <==> |p| >= |EncodeString(kv.key)| + 4
  {
    hide EncodeString, ReadString;
    var k := EncodeString(kv.key);
    PrefixSplit(k, EncodeString(kv.value), p);
    if |p| < |k| {
      ShortString(kv.key, p);
    } else {
      ReadStringBack(kv.key, p[|k|..]);
    }
  }

  lemma {:induction false} CutItems(items: seq<KV>, p: Bytes, n: nat, some: bool)
    requires PlainItems(items) && p < EncodeItems(items) && n >= |items|
    ensures ItemsFreeTwice(p, n, some) <==> CutBeforeValue(items, |p|, some)
    decreases |items|
  {
    hide EncodeItem, EncodeItems, EncodeString, ReadItem, ReachesValue;
    if items == [] {
      EmptyInput(n);
      assert false;
    } else {
      EncodeItemsStep(items);
      var first := EncodeItem(items[0]);
      PrefixSplit(first, EncodeItems(items[1..]), p);
      if |p| < |first| {
        ShortItem(items[0], p);
        ReachesValueIff(items[0], p);
      } else {
        var rest := p[|first|..];
        ReadItemBack(items[0], rest);
        CutItems(items[1..], rest, n - 1, true);
      }
    }
  }

  /** Length of the identifiers, the flags and the count. */
  const HEADER: nat := 29

  lemma {:induction false} CutMessage(ids: Ids, t: Table, p: Bytes)
    requires InRange(ids) && t.size == |Items(t)| < TWO_31 && PlainItems(Items(t))
    requires p < Encode(ids, t)
    ensures FreesTwice(p) <==> |p| >= HEADER && CutBeforeValue(Items(t), |p| - HEADER, false)
  {
    hide ReadIds, ReadUint, EncodeIds, BigEndian, EncodeItems, ItemsFreeTwice, CutBeforeValue, Items;
    var items := Items(t);
    var head, count := EncodeIds(ids), BigEndian(t.size, 4);
    HeadLength(ids);
    assert Encode(ids, t) == head + (count + EncodeItems(items));
    PrefixSplit(head, count + EncodeItems(items), p);
    if |p| < |head| {
      ShortIds(ids, p);
    } else {
      var body := p[|head|..];
      ReadIdsBack(ids, body);
      PrefixSplit(count, EncodeItems(items), body);
      if |body| < 4 {
        ShortUint(body, 4);
      } else {
        Range4();
        ReadUintBack(t.size, 4, body[4..]);
        CutItems(items, body[4..], t.size, false);
      }
    }
  }

  lemma HeadLength(ids: Ids)
    ensures |EncodeIds(ids)| == 25
  {
  }

  lemma ShortUint(s: Bytes, w: nat)
    requires |s| < w
    ensures ReadUint(s, w) == Corrupted
  {
  }

  /** Every strict prefix of an injected message is rejected. */
  lemma {:induction false} StrictPrefixRejected(ids: Ids, t: Table, p: Bytes)
    requires InRange(ids) && t.size == |Items(t)| < TWO_31 && PlainItems(Items(t))
    requires p < Encode(ids, t)
    ensures Decode(p) == Corrupted
  {
    hide EncodeIds, BigEndian, EncodeItems, Decode, Items;
    ShortMessage(ids, t.size, Items(t), p);
  }

  /** The injected message is readable exactly when the size field is exact. */
  lemma {:induction false} ReadableIffSizeExact(ids: Ids, t: Table)
    requires InRange(ids) && |Items(t)| <= t.size < TWO_31 && PlainItems(Items(t))
    ensures Decode(Encode(ids, t)) != Corrupted <==> t.size == |Items(t)|
  {
    hide EncodeIds, BigEndian, EncodeItems, Decode, Items;
    if t.size == |Items(t)| {
      DecodeEncode(ids, t, []);
      assert Encode(ids, t) + [] == Encode(ids, t);
    } else {
      ShortMessage(ids, t.size, Items(t), Encode(ids, t));
    }
  }
}
