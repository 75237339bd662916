/** The binary message byte by byte, independently of the functions that write and read it. */
module BinaryLayout {
  import opened Basics
  import opened TableSpec
  import opened CStrings
  import opened BinaryFormat

  lemma Regroup(a: nat, b: nat, u: nat, v: nat)
    ensures a * (b * u + v) == (a * b) * u + a * v
  {
  }

  lemma RoomLeft(a: nat, b: nat, v: nat)
    requires v < b
    ensures a * v + a <= a * b
  {
    assert a * (v + 1) <= a * b;
  }

  lemma DivideTwice(n: nat, a: nat, b: nat)
    requires a > 0 && b > 0
    ensures a * b > 0 && n / a / b == n / (a * b)
  {
    var q, r := DivisionParts(n, a);
    var u, v := DivisionParts(q, b);
    QuotientIs(n, a, q, r);
    QuotientIs(q, b, u, v);
    Regroup(a, b, u, v);
    RoomLeft(a, b, v);
    var d := a * b;
    QuotientIs(n, d, u, a * v + r);
  }

  lemma QuotientIs(n: nat, p: nat, q: nat, r: nat)
    requires p > 0 && n == p * q + r && r < p
    ensures n / p == q
  {
    RemainderIs(n, p, q, r);
    var d := n / p - q;
    assert n == p * (n / p) + n % p;
    assert p * d == 0;
    assert d >= 1 ==> p * d >= p;
    assert d <= -1 ==> p * d + p <= 0;
  }

  /** Byte i of w is the one of that weight: the most significant comes first. */
  lemma {:induction false} BigEndianAt(n: nat, w: nat, i: nat)
    requires i < w
    ensures BigEndian(n, w)[i] == n / Range(w - 1 - i) % 256
    decreases w
  {
    if i == w - 1 {
      assert Range(0) == 1;
    } else {
      BigEndianAt(n / 256, w - 1, i);
      DivideTwice(n, 256, Range(w - 2 - i));
      assert Range(w - 1 - i) == 256 * Range(w - 2 - i);
    }
  }

  ghost predicate IsBigEndian(piece: Bytes, n: nat, w: nat) {
    |piece| == w && forall i :: 0 <= i < w ==> piece[i] == n / Range(w - 1 - i) % 256
  }

  /** s holds n in big-endian order in the w bytes from `at`. */
  ghost predicate HoldsAt(s: Bytes, at: nat, n: nat, w: nat) { at + w <= |s| && IsBigEndian(s[at..at + w], n, w) }

  lemma PieceHolds(front: Bytes, n: nat, w: nat, back: Bytes)
    ensures HoldsAt(front + BigEndian(n, w) + back, |front|, n, w)
  {
    hide BigEndian, Range;
    var piece := BigEndian(n, w);
    assert (front + piece + back)[|front|..|front| + w] == piece;
    forall i | 0 <= i < w
      ensures piece[i] == n / Range(w - 1 - i) % 256
    {
      BigEndianAt(n, w, i);
    }
  }

  /** High and low half of the trace id, span id, flags, count, and then the entries. */
  lemma {:induction false} MessageLayout(ids: Ids, t: Table)
    ensures var s := Encode(ids, t);
            && HoldsAt(s, 0, ids.high, 8) && HoldsAt(s, 8, ids.low, 8) && HoldsAt(s, 16, ids.span, 8)
            && s[24] == ids.flags && HoldsAt(s, 25, t.size % TWO_32, 4)
            && s[HEADER..] == EncodeItems(Items(t))
  {
    hide EncodeItems, Items, HoldsAt, BigEndian, Range;
    var s := Encode(ids, t);
    var high, low, span := BigEndian(ids.high, 8), BigEndian(ids.low, 8), BigEndian(ids.span, 8);
    var count, items := BigEndian(t.size % TWO_32, 4), EncodeItems(Items(t));
    PieceHolds([], ids.high, 8, low + span + [ids.flags] + count + items);
    assert s == [] + high + (low + span + [ids.flags] + count + items);
    PieceHolds(high, ids.low, 8, span + [ids.flags] + count + items);
    assert s == high + low + (span + [ids.flags] + count + items);
    PieceHolds(high + low, ids.span, 8, [ids.flags] + count + items);
    assert s == high + low + span + ([ids.flags] + count + items);
    PieceHolds(high + low + span + [ids.flags], t.size % TWO_32, 4, items);
    assert s == high + low + span + [ids.flags] + count + items;
  }

  /** An entry is the length of its key, the key, the length of its value, the value. */
  lemma {:induction false} EntryLayout(kv: KV)
    requires |kv.key| < TWO_31 && |kv.value| < TWO_31
    ensures var s := EncodeItem(kv);
            var v := 4 + |kv.key|;
            && |s| == v + 4 + |kv.value|
            && HoldsAt(s, 0, |kv.key|, 4) && s[4..v] == kv.key
            && HoldsAt(s, v, |kv.value|, 4) && s[v + 4..] == kv.value
  {
    hide HoldsAt, BigEndian;
    var k, v := BigEndian(|kv.key|, 4), BigEndian(|kv.value|, 4);
    assert kv.key[..|kv.key| % TWO_32] == kv.key && kv.value[..|kv.value| % TWO_32] == kv.value;
    var s := EncodeItem(kv);
    PieceHolds([], |kv.key|, 4, kv.key + v + kv.value);
    assert s == [] + k + (kv.key + v + kv.value);
    PieceHolds(k + kv.key, |kv.value|, 4, kv.value);
    assert s == k + kv.key + v + kv.value;
  }

  /** Entry i of a list stands behind those in front of it. */
  lemma {:induction false} EntriesInOrder(items: seq<KV>, i: nat)
    requires i < |items|
    ensures EncodeItems(items) == EncodeItems(items[..i]) + EncodeItem(items[i]) + EncodeItems(items[i + 1..])
  {
    hide EncodeItem;
    if i == 0 {
      assert EncodeItems(items[..0]) == [];
    } else {
      EntriesInOrder(items[1..], i - 1);
      assert items[..i][0] == items[0] && items[..i][1..] == items[1..][..i - 1];
      assert items[1..][i..] == items[i + 1..];
    }
  }

  // ----- edges of the reader

  /** A count of 2^31 or more is negative to the loop: no entry is read. */
  lemma {:induction false} NegativeCount(ids: Ids, count: nat, rest: Bytes)
    requires InRange(ids) && TWO_31 <= count < TWO_32
    ensures Decode(EncodeIds(ids) + (BigEndian(count, 4) + rest)) == Ok(Message(ids, []), rest)
  {
    hide ReadIds, EncodeIds, BigEndian, ReadUint;
    Range4();
    ReadIdsBack(ids, BigEndian(count, 4) + rest);
    ReadUintBack(count, 4, rest);
  }

  /** A string whose length is not below 2^31 is never read. */
  lemma {:induction false} LongString(len: nat, rest: Bytes)
    requires TWO_31 <= len < TWO_32
    ensures ReadString(BigEndian(len, 4) + rest) == Corrupted
  {
    hide BigEndian, ReadUint;
    Range4();
    ReadUintBack(len, 4, rest);
  }

  /** A key or value with a NUL in it comes back cut off there. */
  lemma {:induction false} CutAtNul(kv: KV, rest: Bytes)
    requires |kv.key| < TWO_31 && |kv.value| < TWO_31
    ensures ReadItem(EncodeItem(kv) + rest) == Ok(KV(CString(kv.key), CString(kv.value)), rest)
  {
    hide ReadString, EncodeString;
    assert EncodeItem(kv) + rest == EncodeString(kv.key) + (EncodeString(kv.value) + rest);
    ReadStringBack(kv.key, EncodeString(kv.value) + rest);
    ReadStringBack(kv.value, rest);
  }

  lemma {:induction false} CStringIs(s: Bytes)
    ensures CString(s) <= s && (CString(s) == s || s[|CString(s)|] == 0)
  {
    if s != [] && s[0] != 0 {
      CStringIs(s[1..]);
      assert s == [s[0]] + s[1..];
    }
  }
}
