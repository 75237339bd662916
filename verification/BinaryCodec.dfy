/**
  Binary extraction and injection as propagation.c runs them: reading and writing through
  callbacks, filling a context and its baggage table step by step.
 */
module BinaryCodec {
  import opened Basics
  import T = TableSpec
  import opened CStrings
  import opened BinaryFormat
  import opened Allocation
  import opened TableMemory
  import opened LinkedList
  import opened Hashtable
  import opened Contexts

  /** A reader that gives fewer bytes than asked for only at the end of its input. */
  class Stream {
    var data: Bytes  // not read yet

    constructor (data: Bytes)
      ensures this.data == data
    {
      this.data := data;
    }

    method Read(n: nat) returns (got: Bytes)
      modifies this
      ensures got + data == old(data)
      ensures |got| == if n <= |old(data)| then n else |old(data)|
    {
      var k := if n <= |data| then n else |data|;
      got := data[..k];
      data := data[k..];
    }
  }

  /** A writer that takes at most so many bytes of what its i-th call is given, or all of them. */
  class Sink {
    const most: nat -> Option<nat>
    var calls: nat
    var written: Bytes

    constructor (most: nat -> Option<nat>)
      ensures written == [] && calls == 0 && this.most == most
    {
      this.most := most;
      calls, written := 0, [];
    }

    method Write(b: Bytes) returns (n: nat)
      modifies this
      ensures n <= |b| && written == old(written) + b[..n] && calls == old(calls) + 1
      ensures n < |b| <==> most(old(calls)).Some? && most(old(calls)).value < |b|
    {
      var limit := most(calls);
      n := if limit.Some? && limit.value < |b| then limit.value else |b|;
      calls := calls + 1;
      written := written + b[..n];
    }

    /** No call since then was limited. */
    ghost predicate Unlimited(since: nat)
      reads this
    {
      since <= calls && forall i :: since <= i < calls ==> most(i) == None
    }
  }

  /** Strings whose length an int can hold. */
  ghost predicate Writable(items: seq<T.KV>) {
    forall i :: 0 <= i < |items| ==> |items[i].key| < TWO_31 && |items[i].value| < TWO_31
  }

  // ----- extraction

  method ReadBinary(stream: Stream, width: nat) returns (r: Option<nat>)
    modifies stream
    ensures match ReadUint(old(stream.data), width)
            case Corrupted => r == None
            case Ok(n, rest) => r == Some(n) && stream.data == rest
  {
    var was := stream.data;
    var buffer := stream.Read(width);
    if |buffer| != width {
      return None;
    }
    assert was[..width] == buffer && was[width..] == stream.data;
    r := Some(FromBigEndian(buffer));
  }

  /** A buffer pointer: not set, to be freed, or freed and not set again. */
  datatype Buffer = Null | Allocated | Dangling

  /** One length-prefixed buffer: its length, room for it, its bytes. */
  method ReadLengthPrefixed(stream: Stream, buffer: Buffer, m: Memory)
    returns (code: Code, s: Bytes, newBuffer: Buffer, rest: Memory)
    modifies stream
    ensures code == Success ==> ReadString(old(stream.data)) == Ok(s, stream.data) && newBuffer == Allocated
    ensures code == SpanContextCorrupted ==> ReadString(old(stream.data)) == Corrupted
    ensures code == SpanContextCorrupted ==>
              newBuffer == if ReadUint(old(stream.data), 4).Ok? then Allocated else buffer
    ensures code == Unknown ==> newBuffer == Null
    ensures Follows(m, rest) && (code == Unknown <==> !Held(m, rest))
  {
    s, rest := [], m;
    var len := ReadBinary(stream, 4);
    if len == None {
      return SpanContextCorrupted, s, buffer, m;
    }
    var haveRoom;
    AfterHeld(m, 1);
    haveRoom, rest := Alloc(m);
    if !haveRoom {
      return Unknown, s, Null, rest;
    }
    var was := stream.data;
    s := stream.Read(len.value);
    if len.value >= TWO_31 || |s| != len.value {
      return SpanContextCorrupted, s, Allocated, rest;
    }
    assert was[..|s|] == s && was[|s|..] == stream.data;
    return Success, s, Allocated, rest;
  }

  method ReadEntry(stream: Stream, keyBuffer: Buffer, valueBuffer: Buffer, m: Memory)
    returns (code: Code, kv: T.KV, newKey: Buffer, newValue: Buffer, rest: Memory)
    modifies stream
    ensures code == Success ==> ReadItem(old(stream.data)) == Ok(kv, stream.data)
    ensures code == Success ==> newKey == newValue == Allocated
    ensures code == SpanContextCorrupted ==> ReadItem(old(stream.data)) == Corrupted
    ensures code == SpanContextCorrupted ==>
              && newKey == (if ReadUint(old(stream.data), 4).Ok? then Allocated else keyBuffer)
              && newValue == (if ReachesValue(old(stream.data)) then Allocated else valueBuffer)
    ensures code == Unknown ==> newKey != Dangling && newValue in {valueBuffer, Null}
    ensures Follows(m, rest) && (code == Unknown <==> !Held(m, rest))
  {
    var key, value;
    kv, newValue := T.KV([], []), valueBuffer;
    code, key, newKey, rest := ReadLengthPrefixed(stream, keyBuffer, m);
    if code == Success {
      ghost var sofar := rest;
      code, value, newValue, rest := ReadLengthPrefixed(stream, valueBuffer, rest);
      HeldBetween(m, sofar, rest);
      if code == Success {
        kv := T.KV(CString(key), CString(value));
      }
    }
  }

  lemma PrependOneMore(done: seq<T.KV>, s: Bytes, n: nat)
    requires n > 0
    ensures ReadItem(s).Ok? ==>
              Prepend(done, ReadItems(s, n)) == Prepend(done + [ReadItem(s).value], ReadItems(ReadItem(s).rest, n - 1))
    ensures ReadItem(s) == Corrupted ==> Prepend(done, ReadItems(s, n)) == Corrupted
  {
    if ReadItem(s).Ok? {
      var kv, more := ReadItem(s).value, ReadItems(ReadItem(s).rest, n - 1);
      if more.Ok? {
        assert done + ([kv] + more.value) == done + [kv] + more.value;
      }
    }
  }

  lemma PrependNothing(p: Parse<seq<T.KV>>)
    ensures Prepend([], p) == p
  {
    if p.Ok? {
      assert [] + p.value == p.value;
    }
  }

  lemma NothingLeft(items: seq<T.KV>, s: Bytes)
    ensures Prepend(items, ReadItems(s, 0)) == Ok(items, s)
  {
    assert items + [] == items;
  }

  lemma FreeTwiceStep(s: Bytes, n: nat, some: bool)
    requires n > 0
    ensures ReadItem(s).Ok? ==> (ItemsFreeTwice(s, n, some) <==> ItemsFreeTwice(ReadItem(s).rest, n - 1, true))
    ensures ReadItem(s) == Corrupted ==> (ItemsFreeTwice(s, n, some) <==> some && !ReachesValue(s))
    ensures ReachesValue(s) ==> ReadUint(s, 4).Ok?
  {
  }

  /**
    Both buffers are freed at the end of each turn and again on failure: the code frees a buffer
    twice exactly when it fails with a pointer left from an earlier entry.
   */
  method ParseBaggageBinary(stream: Stream, baggage: Hashtable, m: Memory)
    returns (code: Code, freedTwice: bool, rest: Memory, ghost items: seq<T.KV>)
    requires baggage.Valid() && stream !in baggage.repr
    modifies stream, baggage, baggage.repr
    ensures baggage.Valid() && fresh(baggage.repr - old(baggage.repr))
    ensures code == Success ==> ReadBaggage(old(stream.data)) == Ok(items, stream.data)
    ensures code == Success ==> baggage.View() == T.PutAll(baggage.hash, old(baggage.View()), items)
    ensures code == SpanContextCorrupted ==> ReadBaggage(old(stream.data)) == Corrupted
    ensures code == SpanContextCorrupted ==> (freedTwice <==> BaggageFreesTwice(old(stream.data)))
    ensures freedTwice ==> code != Success && items != []
    ensures Follows(m, rest) && (code == Unknown <==> !Held(m, rest))
  {
    hide Enough, Allocation.After, PutCost;
    hide ReadUint, LoopCount, ReadItem, ReadItems, Prepend, T.PutAll, T.Put, ItemsFreeTwice, ReachesValue;
    hide Hashtable.Valid, Hashtable.View;
    items, freedTwice, rest := [], false, m;
    var count := ReadBinary(stream, 4);
    if count == None {
      return SpanContextCorrupted, false, m, items;
    }
    var n := LoopCount(count.value);
    ghost var all := ReadItems(stream.data, n);
    PrependNothing(all);
    T.PutAllNone(baggage.hash, baggage.View());
    ghost var twice := ItemsFreeTwice(stream.data, n, false);
    var keyBuffer, valueBuffer := Null, Null;
    for i := 0 to n
      invariant baggage.Valid() && fresh(baggage.repr - old(baggage.repr)) && stream !in baggage.repr
      invariant Prepend(items, ReadItems(stream.data, n - i)) == all
      invariant baggage.View() == T.PutAll(baggage.hash, old(baggage.View()), items)
      invariant |items| == i && keyBuffer == valueBuffer == (if i == 0 then Null else Dangling) && !freedTwice
      invariant ItemsFreeTwice(stream.data, n - i, i > 0) == twice
      invariant Follows(m, rest) && Held(m, rest)
    {
      PrependOneMore(items, stream.data, n - i);
      FreeTwiceStep(stream.data, n - i, i > 0);
      var kv;
      ghost var sofar := rest;
      code, kv, keyBuffer, valueBuffer, rest := ReadEntry(stream, keyBuffer, valueBuffer, rest);
      HeldBetween(m, sofar, rest);
      if code != Success {
        freedTwice := keyBuffer == Dangling || valueBuffer == Dangling;
        return;
      }
      T.PutAllOneMore(baggage.hash, old(baggage.View()), items, kv);
      sofar := rest;
      AfterHeld(rest, PutCost(baggage.hash, baggage.View(), kv.key));
      var ok;
      ok, rest := baggage.Put(kv.key, kv.value, rest);
      HeldBetween(m, sofar, rest);
      if !ok {
        return Unknown, false, rest, items;
      }
      items := items + [kv];
      keyBuffer, valueBuffer := Dangling, Dangling;
    }
    NothingLeft(items, stream.data);
    code := Success;
  }

  /** The three identifiers and the flags. */
  method ReadHeader(stream: Stream, ctx: SpanContext) returns (ok: bool)
    modifies stream, ctx`high, ctx`low, ctx`span, ctx`flags
    ensures ok ==> ReadIds(old(stream.data)) == Ok(ctx.Identity(), stream.data)
    ensures !ok ==> ReadIds(old(stream.data)) == Corrupted
  {
    var high := ReadBinary(stream, 8);
    if high == None {
      return false;
    }
    ctx.high := high.value;
    var low := ReadBinary(stream, 8);
    if low == None {
      return false;
    }
    ctx.low := low.value;
    var span := ReadBinary(stream, 8);
    if span == None {
      return false;
    }
    ctx.span := span.value;
    var buffer := stream.Read(1);
    if |buffer| != 1 {
      return false;
    }
    ctx.flags := buffer[0];
    ok := true;
  }

  /** While memory holds, the format decides between a context and corruption. */
  method ExtractFromBinary(hash: T.HashFn, stream: Stream, metrics: Metrics, m: Memory)
    returns (code: Code, ctx: SpanContext?, freedTwice: bool, rest: Memory)
    modifies stream, metrics
    ensures code == Success <==> ctx != null
    ensures ctx != null ==>
              && fresh(ctx) && ctx.Valid() && fresh(ctx.baggage) && fresh(ctx.baggage.repr) && ctx.baggage.hash == hash
              && var p := Decode(old(stream.data));
                && p.Ok? && p.value.ids == ctx.Identity() && p.rest == stream.data
                && ctx.baggage.View() == T.PutAll(hash, T.InitTable, p.value.items) && ctx.debugId == None
    ensures code == SpanContextCorrupted ==> Decode(old(stream.data)) == Corrupted
    ensures metrics.decodingErrors == old(metrics.decodingErrors) + if code == SpanContextCorrupted then 1 else 0
    ensures code == SpanContextCorrupted ==> (freedTwice <==> FreesTwice(old(stream.data)))
    ensures code == Success ==> !freedTwice
    ensures Follows(m, rest) && (code == Unknown <==> !Held(m, rest))
    ensures Held(m, rest) ==> code == if Decode(old(stream.data)).Ok? then Success else SpanContextCorrupted
  {
    hide ReadIds, ReadBaggage, BaggageFreesTwice, T.PutAll, Enough, Allocation.After, Linked, Distinct, Pow2;
    AfterHeld(m, 1);
    var ok;
    ok, rest := Alloc(m);
    if !ok {
      return Unknown, null, false, rest;
    }
    ghost var sofar := rest;
    AfterHeld(rest, 1);
    var c := new SpanContext(hash);
    ok, rest := c.baggage.Init(rest);
    HeldBetween(m, sofar, rest);
    if !ok {
      return Unknown, null, false, rest;
    }
    ok := ReadHeader(stream, c);
    if !ok {
      metrics.decodingErrors := metrics.decodingErrors + 1;
      return SpanContextCorrupted, null, false, rest;
    }
    ghost var items;
    sofar := rest;
    code, freedTwice, rest, items := ParseBaggageBinary(stream, c.baggage, rest);
    HeldBetween(m, sofar, rest);
    if code != Success {
      if code == SpanContextCorrupted {
        metrics.decodingErrors := metrics.decodingErrors + 1;
      }
      return code, null, freedTwice, rest;
    }
    ctx := c;
  }

  // ----- injection

  /** Whether all the bytes given were taken, compared as the code compares them. */
  method WriteAll(sink: Sink, b: Bytes) returns (ok: bool)
    modifies sink
    ensures ok ==> sink.written == old(sink.written) + b
    ensures !ok ==> old(sink.written) <= sink.written <= old(sink.written) + b
    ensures sink.calls == old(sink.calls) + 1
    ensures sink.Unlimited(old(sink.calls)) && |b| < TWO_31 ==> ok
  {
    var n := sink.Write(b);
    ok := n == |b| && n < TWO_31;
    assert b[..|b|] == b;
  }

  method WriteString(sink: Sink, s: Bytes) returns (ok: bool)
    modifies sink
    ensures ok ==> sink.written == old(sink.written) + EncodeString(s)
    ensures !ok ==> old(sink.written) <= sink.written <= old(sink.written) + EncodeString(s)
    ensures sink.calls >= old(sink.calls) && (sink.Unlimited(old(sink.calls)) && |s| < TWO_31 ==> ok)
  {
    var len := |s| % TWO_32;
    ok := WriteAll(sink, BigEndian(len, 4));
    if ok {
      ok := WriteAll(sink, s[..len]);
    }
  }

  method WriteEntry(sink: Sink, key: Bytes, value: Bytes) returns (ok: bool)
    modifies sink
    ensures ok ==> sink.written == old(sink.written) + EncodeItem(T.KV(key, value))
    ensures !ok ==> old(sink.written) <= sink.written <= old(sink.written) + EncodeItem(T.KV(key, value))
    ensures sink.calls >= old(sink.calls)
    ensures sink.Unlimited(old(sink.calls)) && |key| < TWO_31 && |value| < TWO_31 ==> ok
  {
    ok := WriteString(sink, key);
    if ok {
      ok := WriteString(sink, value);
    }
  }

  method WriteHeader(sink: Sink, ids: Ids) returns (ok: bool)
    modifies sink
    ensures ok ==> sink.written == old(sink.written) + EncodeIds(ids)
    ensures !ok ==> old(sink.written) <= sink.written <= old(sink.written) + EncodeIds(ids)
    ensures sink.calls >= old(sink.calls) && (sink.Unlimited(old(sink.calls)) ==> ok)
  {
    ok := WriteAll(sink, BigEndian(ids.high, 8));
    if ok {
      ok := WriteAll(sink, BigEndian(ids.low, 8));
    }
    if ok {
      ok := WriteAll(sink, BigEndian(ids.span, 8));
    }
    if ok {
      ok := WriteAll(sink, [ids.flags]);
    }
  }

  lemma {:induction false} EncodeItemsConcat(a: seq<T.KV>, b: seq<T.KV>)
    ensures EncodeItems(a + b) == EncodeItems(a) + EncodeItems(b)
  {
    if a == [] {
      assert a + b == b;
    } else {
      assert (a + b)[1..] == a[1..] + b;
      EncodeItemsConcat(a[1..], b);
    }
  }

  /** The inner loop of the injector: one bucket. */
  method WriteBucket(sink: Sink, list: List, size: nat) returns (ok: bool, newSize: nat)
    requires list.Valid()
    modifies sink
    ensures ok ==> sink.written == old(sink.written) + EncodeItems(list.view)
    ensures ok ==> newSize == size + |list.view|
    ensures !ok ==> old(sink.written) <= sink.written <= old(sink.written) + EncodeItems(list.view)
    ensures sink.calls >= old(sink.calls) && (sink.Unlimited(old(sink.calls)) && Writable(list.view) ==> ok)
  {
    hide EncodeItem;
    ghost var all := sink.written + EncodeItems(list.view);
    var node := list.head;
    newSize := size;
    ghost var j := 0;
    assert list.view[0..] == list.view;
    while node != null
      invariant list.Valid() && j <= |list.nodes| && node == if j < |list.nodes| then list.nodes[j] else null
      invariant sink.written + EncodeItems(list.view[j..]) == all && old(sink.written) <= sink.written
      invariant newSize == size + j && sink.calls >= old(sink.calls)
      decreases |list.nodes| - j
    {
      newSize := newSize + 1;
      ghost var rest := list.view[j..];
      assert rest[0] == T.KV(node.key, node.value) && rest[1..] == list.view[j + 1..];
      ok := WriteEntry(sink, node.key, node.value);
      if !ok {
        return;
      }
      node := node.next;
      j := j + 1;
    }
    ok := true;
  }

  /**
    On success exactly the message was appended, and on failure a prefix of it; a writer that
    takes everything meets success.  The assertion at the end, that the size field counts the
    entries, holds or not as the table decides.
   */
  method InjectIntoBinary(sink: Sink, ctx: SpanContext) returns (code: Code, asserted: bool)
    requires ctx.Valid()
    modifies sink
    ensures code == Success ==> sink.written == old(sink.written) + Encode(ctx.Identity(), ctx.baggage.View())
    ensures code == Success ==> asserted == (ctx.baggage.size == |T.Items(ctx.baggage.View())| % TWO_32)
    ensures code != Success ==>
              && code == Unknown && asserted
              && old(sink.written) <= sink.written <= old(sink.written) + Encode(ctx.Identity(), ctx.baggage.View())
    ensures sink.calls >= old(sink.calls)
    ensures sink.Unlimited(old(sink.calls)) && Writable(T.Items(ctx.baggage.View())) ==> code == Success
  {
    hide EncodeIds, EncodeItems, BigEndian;
    var ok := WriteHeader(sink, ctx.Identity());
    if !ok {
      return Unknown, true;
    }
    ok := WriteAll(sink, BigEndian(ctx.baggage.size % TWO_32, 4));
    if !ok {
      return Unknown, true;
    }
    var size;
    ok, size := WriteBuckets(sink, ctx.baggage);
    if !ok {
      return Unknown, true;
    }
    return Success, ctx.baggage.size == size % TWO_32;
  }

  method WriteBuckets(sink: Sink, baggage: Hashtable) returns (ok: bool, size: nat)
    requires baggage.Valid()
    modifies sink
    ensures ok ==> sink.written == old(sink.written) + EncodeItems(T.Items(baggage.View()))
    ensures ok ==> size == |T.Items(baggage.View())|
    ensures !ok ==> old(sink.written) <= sink.written <= old(sink.written) + EncodeItems(T.Items(baggage.View()))
    ensures sink.calls >= old(sink.calls)
    ensures sink.Unlimited(old(sink.calls)) && Writable(T.Items(baggage.View())) ==> ok
  {
    hide Writable, EncodeItems, T.Flatten, Linked, Distinct;
    ghost var bs := baggage.buckets.views;
    ghost var all := sink.written + EncodeItems(T.Flatten(bs));
    ghost var total := |T.Flatten(bs)|;
    assert bs[0..] == bs;
    size := 0;
    for i := 0 to Pow2(baggage.order)
      invariant baggage.Valid() && baggage.buckets.views == bs
      invariant sink.written + EncodeItems(T.Flatten(bs[i..])) == all && old(sink.written) <= sink.written
      invariant size + |T.Flatten(bs[i..])| == total && sink.calls >= old(sink.calls)
      invariant Writable(T.Flatten(bs)) ==> Writable(T.Flatten(bs[i..]))
    {
      T.FlattenFrom(bs, i);
      WritableConcat(bs[i], T.Flatten(bs[i + 1..]));
      EncodeItemsConcat(bs[i], T.Flatten(bs[i + 1..]));
      ok, size := WriteBucket(sink, baggage.buckets.lists[i], size);
      if !ok {
        return;
      }
    }
    NothingEncoded();
    assert bs[|bs|..] == [];
    ok := true;
  }

  lemma WritableConcat(a: seq<T.KV>, b: seq<T.KV>)
    ensures Writable(a + b) ==> Writable(a) && Writable(b)
  {
    if Writable(a + b) {
      assert forall i :: 0 <= i < |a| ==> (a + b)[i] == a[i];
      assert forall i :: 0 <= i < |b| ==> (a + b)[|a| + i] == b[i];
    }
  }

  lemma NothingEncoded()
    ensures EncodeItems([]) == [] && T.Flatten([]) == []
  {
  }

  lemma AllPlainWritable(items: seq<T.KV>)
    requires PlainItems(items)
    ensures Writable(items)
  {
  }

  /**
    A context sent through the binary carrier: whatever the writer and the allocator do, a
    completed injection is never found corrupted, and a completed extraction gives the context
    back and stops at the end of the message.  With a writer that takes everything and memory
    that holds, both complete.
   */
  method CarryBinary(hash: T.HashFn, ctx: SpanContext, most: nat -> Option<nat>, suffix: Bytes, metrics: Metrics, m: Memory)
    returns (sent: Code, received: Code, copy: SpanContext?, rest: Memory)
    requires ctx.Valid() && T.Inv(ctx.baggage.hash, ctx.baggage.View()) && InRange(ctx.Identity())
    requires var items := T.Items(ctx.baggage.View()); ctx.baggage.size == |items| < TWO_31 && PlainItems(items)
    modifies metrics
    ensures received != SpanContextCorrupted && metrics.decodingErrors == old(metrics.decodingErrors)
    ensures copy != null ==>
              && copy.Valid() && copy.Identity() == ctx.Identity() && copy.debugId == None
              && T.Contents(copy.baggage.View()) == T.Contents(ctx.baggage.View())
    ensures (forall i :: most(i) == None) ==> sent == Success
    ensures Follows(m, rest) && (sent == Success && Held(m, rest) ==> received == Success && copy != null)
  {
    hide Encode, Decode, T.PutAll, T.Contents, T.Items, T.Inv, PlainItems;
    ghost var ids, t := ctx.Identity(), ctx.baggage.View();
    BinaryRoundTrip(ctx.baggage.hash, hash, ids, t, suffix);
    AllPlainWritable(T.Items(t));
    var sink := new Sink(most);
    var asserted;
    sent, asserted := InjectIntoBinary(sink, ctx);
    assert asserted;
    if sent != Success {
      return sent, Unknown, null, m;
    }
    assert sink.written == Encode(ids, t);
    var stream := new Stream(sink.written + suffix);
    var freedTwice;
    received, copy, freedTwice, rest := ExtractFromBinary(hash, stream, metrics, m);
    assert received == Success ==> stream.data == suffix;
  }

  /**
    A message cut short is never taken for a context: unless memory runs out it is counted as
    corrupted.  Doing so frees a buffer twice exactly when the cut is behind a complete entry and
    in front of the next one's value.
   */
  method ExtractTruncated(hash: T.HashFn, ctx: SpanContext, p: Bytes, metrics: Metrics, m: Memory)
    returns (code: Code, copy: SpanContext?, freedTwice: bool, rest: Memory)
    requires ctx.Valid() && InRange(ctx.Identity()) && p < Encode(ctx.Identity(), ctx.baggage.View())
    requires var items := T.Items(ctx.baggage.View()); ctx.baggage.size == |items| < TWO_31 && PlainItems(items)
    modifies metrics
    ensures copy == null && Follows(m, rest) && code == if Held(m, rest) then SpanContextCorrupted else Unknown
    ensures metrics.decodingErrors == old(metrics.decodingErrors) + if code == SpanContextCorrupted then 1 else 0
    ensures code == SpanContextCorrupted ==>
              (freedTwice <==> |p| >= HEADER && CutBeforeValue(T.Items(ctx.baggage.View()), |p| - HEADER, false))
  {
    hide Encode, Decode, FreesTwice, CutBeforeValue, T.PutAll, T.Items, PlainItems;
    StrictPrefixRejected(ctx.Identity(), ctx.baggage.View(), p);
    CutMessage(ctx.Identity(), ctx.baggage.View(), p);
    var stream := new Stream(p);
    code, copy, freedTwice, rest := ExtractFromBinary(hash, stream, metrics, m);
  }
}
