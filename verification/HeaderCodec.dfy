/**
  Text-map and HTTP-header extraction and injection as propagation.c runs them: a callback per
  header that fills a context, and nested loops over the baggage table that call a writer.
  Each malloc, strdup and put may fail, as the memory decides.
 */
module HeaderCodec {
  import opened Basics
  import T = TableSpec
  import opened CStrings
  import opened Uri
  import opened BinaryFormat
  import opened SpanText
  import opened Allocation
  import opened TableMemory
  import opened LinkedList
  import opened Hashtable
  import opened Contexts
  import opened HeaderFormat

  // ----- key=value,key=value

  method ParseKeyValue(baggage: Hashtable, str: Bytes, m: Memory) returns (code: Code, left: Memory)
    requires baggage.Valid()
    modifies baggage, baggage.repr
    ensures baggage.Valid() && fresh(baggage.repr - old(baggage.repr))
    ensures code == SpanContextCorrupted <==> ParsePair(str) == None
    ensures code == Success ==>
              var kv := ParsePair(str).value;
              baggage.View() == T.Put(baggage.hash, old(baggage.View()), kv.key, kv.value)
    ensures Follows(m, left) && (code == Unknown <==> !Held(m, left))
  {
    hide Strtok, T.Put, PutCost, Enough, Allocation.After;
    var key := Strtok(str, EQUALS);
    if key == NoToken {
      return SpanContextCorrupted, m;
    }
    var value := Strtok(key.rest, EQUALS);
    if value == NoToken {
      return SpanContextCorrupted, m;
    }
    AfterHeld(m, PutCost(baggage.hash, baggage.View(), key.text));
    var ok;
    ok, left := baggage.Put(key.text, value.text, m);
    code := if ok then Success else Unknown;
  }

  /** The rest of the text decides; what has been parsed comes in front. */
  ghost predicate ParsedSoFar(str: Bytes, done: seq<T.KV>, rest: Bytes) {
    match ParseMap(rest)
    case None => ParseMap(str) == None
    case Some(more) => ParseMap(str) == Some(done + more)
  }

  lemma ParsedMore(str: Bytes, done: seq<T.KV>, rest: Bytes)
    requires ParsedSoFar(str, done, rest)
    ensures match Strtok(rest, COMMA)
            case NoToken => ParseMap(str) == Some(done)
            case Token(pair, more) =>
              match ParsePair(pair)
              case None => ParseMap(str) == None
              case Some(kv) => ParsedSoFar(str, done + [kv], more)
  {
    hide Strtok, ParsePair;
    match Strtok(rest, COMMA)
    case NoToken =>
      assert done + [] == done;
    case Token(pair, more) =>
      if ParsePair(pair).Some? && ParseMap(more).Some? {
        var kv := ParsePair(pair).value;
        assert done + ([kv] + ParseMap(more).value) == done + [kv] + ParseMap(more).value;
      }
  }

  lemma ParsedNothing(str: Bytes)
    ensures ParsedSoFar(str, [], str)
  {
    if ParseMap(str).Some? {
      assert [] + ParseMap(str).value == ParseMap(str).value;
    }
  }

  method ParseCommaSeparatedMap(baggage: Hashtable, str: Bytes, m: Memory) returns (code: Code, left: Memory)
    requires baggage.Valid()
    modifies baggage, baggage.repr
    ensures baggage.Valid() && fresh(baggage.repr - old(baggage.repr))
    ensures code == SpanContextCorrupted ==> ParseMap(str) == None
    ensures code == Success ==>
              && ParseMap(str).Some?
              && baggage.View() == T.PutAll(baggage.hash, old(baggage.View()), ParseMap(str).value)
    ensures Follows(m, left) && (code == Unknown <==> !Held(m, left))
  {
    hide Strtok, ParsePair, ParseMap, ParsedSoFar, T.Put, T.PutAll;
    left := m;
    ghost var done: seq<T.KV> := [];
    ParsedNothing(str);
    T.PutAllNone(baggage.hash, baggage.View());
    var pair := Strtok(str, COMMA);
    ghost var rest := str;
    while pair != NoToken
      invariant baggage.Valid() && fresh(baggage.repr - old(baggage.repr))
      invariant pair == Strtok(rest, COMMA) && ParsedSoFar(str, done, rest)
      invariant baggage.View() == T.PutAll(baggage.hash, old(baggage.View()), done)
      invariant Follows(m, left) && Held(m, left)
      decreases |rest|
    {
      ParsedMore(str, done, rest);
      ghost var sofar := left;
      code, left := ParseKeyValue(baggage, pair.text, left);
      HeldBetween(m, sofar, left);
      if code != Success {
        return;
      }
      ghost var kv := ParsePair(pair.text).value;
      T.PutAllOneMore(baggage.hash, old(baggage.View()), done, kv);
      done, rest := done + [kv], pair.rest;
      pair := Strtok(pair.rest, COMMA);
    }
    ParsedMore(str, done, rest);
    code := Success;
  }

  // ----- extraction

  /** The context object as a value. */
  ghost function Value(ctx: SpanContext): Context
    requires ctx.Valid()
    reads ctx, ctx.baggage, ctx.baggage.repr
  {
    Context(ctx.Identity(), ctx.debugId, ctx.baggage.View())
  }

  method NormalizeKey(mode: Mode, key: Bytes) returns (name: Bytes)
    ensures name == Normalize(mode, key)
  {
    if mode == TextMap {
      return key;
    }
    var buffer := new byte[|key| + 1];
    ToLowercase(buffer, key);
    name := buffer[..|key|];
  }

  /** Decode into a buffer as long as the value, and take the result for a C string. */
  method DecodeInto(mode: Mode, value: Bytes) returns (text: Bytes, ok: bool)
    ensures ok == Decodable(mode, value)
    ensures ok ==> text == DecodeValue(mode, value)
  {
    if mode == TextMap {
      return CString(value), true;
    }
    var buffer := new byte[|value| + 1];
    var len;
    len, ok := DecodeUriValue(buffer, value);
    text := if ok then CString(buffer[..len]) else [];
  }

  /** The outcome as the code and the memory show it. */
  ghost predicate Shows(p: Progress, code: Code, ctx: Context, m: Memory, left: Memory) {
    && Follows(m, left)
    && (code == Success ==> Held(m, left) && p == Going(ctx))
    && (code == Unknown ==> !Held(m, left))
    && (code == SpanContextCorrupted && Held(m, left) ==> p == Corrupt)
  }

  /** What the callback does with a header of a known name, but for decoding an entry's value. */
  method Dispatch(config: Config, ctx: SpanContext, name: Bytes, value: Bytes, m: Memory) returns (code: Code, left: Memory)
    requires ctx.Valid() && Relevant(config, name)
    modifies ctx, ctx.baggage, ctx.baggage.repr
    ensures ctx.Valid() && fresh(ctx.baggage.repr - old(ctx.baggage.repr))
    ensures Shows(Accept(config, ctx.baggage.hash, old(Value(ctx)), name, value), code, Value(ctx), m, left)
  {
    hide ScanContext, ParseMap, T.Put, T.PutAll, PutCost, Enough, Allocation.After;
    AfterHeld(m, 1);
    if name == config.trace {
      var ok;
      ok, left := SpanContextScan(ctx, value, m);
      code := if ok then Success else SpanContextCorrupted;
    } else if name == config.debug {
      var ok;
      ok, left := Alloc(m);  // strdup
      if !ok {
        return Unknown, left;
      }
      ctx.debugId := Some(value);
      ctx.flags := WithDebug(ctx.flags);
      code := Success;
    } else if name == config.baggage {
      code, left := ParseCommaSeparatedMap(ctx.baggage, value, m);
    } else {
      AfterHeld(m, PutCost(ctx.baggage.hash, ctx.baggage.View(), name[|config.prefix|..]));
      var ok;
      ok, left := ctx.baggage.Put(name[|config.prefix|..], value, m);
      code := if ok then Success else Unknown;
    }
  }

  /** Buffers for the value, and for an entry's key before it; the one of a baggage header is not checked. */
  function BufferCost(config: Config, name: Bytes): nat {
    if name == config.trace || name == config.debug then 1 else if name == config.baggage then 0 else 2
  }

  method ExtractTextMapCallback(mode: Mode, config: Config, ctx: SpanContext, key: Bytes, value: Bytes, m: Memory)
    returns (code: Code, aborted: bool, left: Memory)
    requires ctx.Valid()
    modifies ctx, ctx.baggage, ctx.baggage.repr
    ensures ctx.Valid() && fresh(ctx.baggage.repr - old(ctx.baggage.repr)) && Follows(m, left)
    ensures aborted ==> Held(m, left) && Step(mode, config, ctx.baggage.hash, old(Value(ctx)), T.KV(key, value)) == Aborts
    ensures !aborted ==>
              Shows(Step(mode, config, ctx.baggage.hash, old(Value(ctx)), T.KV(key, value)), code, Value(ctx), m, left)
  {
    hide Accept, Normalize, DecodeValue, Decodable, Enough, Allocation.After;
    aborted := false;
    var ok;
    AfterHeld(m, 1);
    ok, left := Alloc(m);
    if !ok {
      return Unknown, false, left;
    }
    var name := NormalizeKey(mode, key);
    if !Relevant(config, name) {
      return Success, false, left;
    }
    ghost var named := left;
    AfterHeld(left, BufferCost(config, name));
    ok, left := AllocMany(left, BufferCost(config, name));
    HeldBetween(m, named, left);
    if !ok {
      return Unknown, false, left;
    }
    var text;
    text, ok := DecodeInto(mode, value);
    if !ok {
      return Unknown, true, left;
    }
    ghost var buffered := left;
    code, left := Dispatch(config, ctx, name, text, left);
    HeldBetween(m, buffered, left);
  }

  /** Call back for every header until one fails. */
  method ForEachKey(mode: Mode, config: Config, ctx: SpanContext, headers: seq<T.KV>, m: Memory)
    returns (code: Code, aborted: bool, left: Memory)
    requires ctx.Valid()
    modifies ctx, ctx.baggage, ctx.baggage.repr
    ensures ctx.Valid() && fresh(ctx.baggage.repr - old(ctx.baggage.repr)) && Follows(m, left)
    ensures aborted ==> Held(m, left) && Steps(mode, config, ctx.baggage.hash, old(Value(ctx)), headers) == Aborts
    ensures !aborted ==>
              Shows(Steps(mode, config, ctx.baggage.hash, old(Value(ctx)), headers), code, Value(ctx), m, left)
  {
    hide Step;
    ghost var all := Steps(mode, config, ctx.baggage.hash, Value(ctx), headers);
    code, aborted, left := Success, false, m;
    assert headers[0..] == headers;
    for i := 0 to |headers|
      invariant ctx.Valid() && fresh(ctx.baggage.repr - old(ctx.baggage.repr)) && code == Success && !aborted
      invariant Steps(mode, config, ctx.baggage.hash, Value(ctx), headers[i..]) == all
      invariant Follows(m, left) && Held(m, left)
    {
      assert headers[i..][0] == headers[i] && headers[i..][1..] == headers[i + 1..];
      ghost var sofar := left;
      code, aborted, left := ExtractTextMapCallback(mode, config, ctx, headers[i].key, headers[i].value, left);
      HeldBetween(m, sofar, left);
      if aborted || code != Success {
        return;
      }
    }
  }

  /** Both extractors.  Success without a context is the answer to headers that carry none. */
  method ExtractFromTextMap(mode: Mode, config: Config, hash: T.HashFn, headers: seq<T.KV>, metrics: Metrics, m: Memory)
    returns (code: Code, ctx: SpanContext?, aborted: bool, left: Memory)
    modifies metrics
    ensures aborted ==> Extract(mode, config, hash, headers) == Crashed
    ensures !aborted && code == Success && ctx == null ==> Extract(mode, config, hash, headers) == NoContext
    ensures ctx != null ==>
              && !aborted && code == Success && fresh(ctx) && ctx.Valid()
              && Extract(mode, config, hash, headers) == Extracted(Value(ctx))
    ensures !aborted && code == SpanContextCorrupted && Held(m, left) ==> Extract(mode, config, hash, headers) == Rejected
    ensures Follows(m, left) && (!aborted && code == Unknown ==> !Held(m, left))
    ensures !aborted && code == Success ==> Held(m, left)
    ensures metrics.decodingErrors ==
            old(metrics.decodingErrors) + if !aborted && code == SpanContextCorrupted then 1 else 0
  {
    hide Steps, Enough, Allocation.After;
    ctx, aborted := null, false;
    var ok;
    AfterHeld(m, 1);
    ok, left := Alloc(m);
    if !ok {
      return Unknown, null, false, left;
    }
    var c := new SpanContext(hash);
    ghost var made := left;
    AfterHeld(left, 1);
    ok, left := c.baggage.Init(left);
    HeldBetween(m, made, left);
    if !ok {
      return Unknown, null, false, left;
    }
    ghost var filled := left;
    code, aborted, left := ForEachKey(mode, config, c, headers, left);
    HeldBetween(m, filled, left);
    if aborted {
      return;
    }
    if code != Success {
      if code == SpanContextCorrupted {
        metrics.decodingErrors := metrics.decodingErrors + 1;
      }
      return;
    }
    if c.high == 0 && c.low == 0 && c.debugId == None && c.baggage.size == 0 {
      return;
    }
    ctx := c;
  }

  // ----- injection

  /** A writer that takes or refuses the header of its i-th call. */
  class Writer {
    const answers: nat -> Code
    var calls: nat
    var headers: seq<T.KV>

    constructor (answers: nat -> Code)
      ensures headers == [] && calls == 0 && this.answers == answers
    {
      this.answers := answers;
      calls, headers := 0, [];
    }

    method Set(key: Bytes, value: Bytes) returns (code: Code)
      modifies this
      ensures code == answers(old(calls)) && calls == old(calls) + 1
      ensures headers == old(headers) + if code == Success then [T.KV(key, value)] else []
    {
      code := answers(calls);
      calls := calls + 1;
      if code == Success {
        headers := headers + [T.KV(key, value)];
      }
    }
  }

  /** The headers of the entries whose attempt succeeded. */
  ghost function Kept(mode: Mode, config: Config, items: seq<T.KV>, log: seq<Code>): seq<T.KV>
    requires |items| == |log|
  {
    if items == [] then []
    else
      var n := |items| - 1;
      Kept(mode, config, items[..n], log[..n]) + if log[n] == Success then [EntryHeader(mode, config, items[n])] else []
  }

  ghost predicate AllSucceed(log: seq<Code>) { forall i :: 0 <= i < |log| ==> log[i] == Success }

  lemma KeptStep(mode: Mode, config: Config, items: seq<T.KV>, log: seq<Code>, n: nat)
    requires |items| == |log| == n + 1
    ensures Kept(mode, config, items, log) ==
            Kept(mode, config, items[..n], log[..n]) + if log[n] == Success then [EntryHeader(mode, config, items[n])] else []
    ensures AllSucceed(log) <==> AllSucceed(log[..n]) && log[n] == Success
  {
    hide EntryHeader;
    assert items[..|items| - 1] == items[..n] && log[..|log| - 1] == log[..n];
  }

  /** No header is missing exactly when every attempt succeeded. */
  lemma {:induction false} KeptAllIff(mode: Mode, config: Config, items: seq<T.KV>, log: seq<Code>)
    requires |items| == |log|
    ensures |Kept(mode, config, items, log)| <= |items|
    ensures |Kept(mode, config, items, log)| == |items| <==> AllSucceed(log)
    decreases |items|
  {
    if items != [] {
      hide Kept, AllSucceed, EntryHeader;
      var n := |items| - 1;
      KeptAllIff(mode, config, items[..n], log[..n]);
      KeptStep(mode, config, items, log, n);
    }
  }

  lemma HeadersSnoc(mode: Mode, config: Config, items: seq<T.KV>, n: nat)
    requires |items| == n + 1
    ensures EntryHeaders(mode, config, items) ==
            EntryHeaders(mode, config, items[..n]) + [EntryHeader(mode, config, items[n])]
  {
    hide EntryHeader;
  }

  /** And then the headers are the entries', in order. */
  lemma {:induction false} KeptEntries(mode: Mode, config: Config, items: seq<T.KV>, log: seq<Code>)
    requires |items| == |log| && AllSucceed(log)
    ensures Kept(mode, config, items, log) == EntryHeaders(mode, config, items)
    decreases |items|
  {
    if items != [] {
      hide Kept, AllSucceed, EntryHeader, EntryHeaders;
      var n := |items| - 1;
      KeptStep(mode, config, items, log, n);
      KeptEntries(mode, config, items[..n], log[..n]);
      HeadersSnoc(mode, config, items, n);
    }
  }

  /** The last attempt is the one that shows. */
  function Shown(log: seq<Code>): Code { if log == [] then Success else log[|log| - 1] }

  method EncodeInto(mode: Mode, value: Bytes) returns (text: Bytes)
    ensures text == EncodeValue(mode, value)
  {
    if mode == TextMap {
      return value;
    }
    var buffer := new byte[3 * |value| + 1];
    var len := EncodeUriValue(buffer, value);
    text := buffer[..len];
  }

  // ----- which attempts succeed

  /** What an attempt depends on beside its entry: the memory, and the writer's next answer. */
  datatype Moment = Moment(memory: Memory, calls: nat)

  /** An attempt needs a buffer for the name and one for the value, and then the writer. */
  function Attempt(answers: nat -> Code, e: Moment): Code {
    if Enough(e.memory, 2) then answers(e.calls) else Unknown
  }

  function Next(answers: nat -> Code, e: Moment): Moment {
    Moment(Allocation.After(e.memory, 2), if Enough(e.memory, 2) then e.calls + 1 else e.calls)
  }

  function MomentAfter(answers: nat -> Code, e: Moment, n: nat): Moment {
    if n == 0 then e else Next(answers, MomentAfter(answers, e, n - 1))
  }

  /** The outcomes of n attempts. */
  function LogOf(answers: nat -> Code, e: Moment, n: nat): (log: seq<Code>)
    ensures |log| == n
  {
    if n == 0 then [] else LogOf(answers, e, n - 1) + [Attempt(answers, MomentAfter(answers, e, n - 1))]
  }

  lemma {:induction false} LogSplit(answers: nat -> Code, e: Moment, a: nat, b: nat)
    ensures MomentAfter(answers, e, a + b) == MomentAfter(answers, MomentAfter(answers, e, a), b)
    ensures LogOf(answers, e, a + b) == LogOf(answers, e, a) + LogOf(answers, MomentAfter(answers, e, a), b)
    decreases b
  {
    if b > 0 {
      LogSplit(answers, e, a, b - 1);
    } else {
      assert LogOf(answers, e, a) + [] == LogOf(answers, e, a);
    }
  }

  /** All attempts succeed exactly when memory held and the writer took what it was given. */
  lemma {:induction false} LogSucceedsIff(answers: nat -> Code, e: Moment, n: nat)
    ensures var r := MomentAfter(answers, e, n);
            && Follows(e.memory, r.memory) && e.calls <= r.calls
            && (AllSucceed(LogOf(answers, e, n)) <==>
                Held(e.memory, r.memory) && forall i :: e.calls <= i < r.calls ==> answers(i) == Success)
    decreases n
  {
    hide Enough, Allocation.After;
    if n > 0 {
      var r := MomentAfter(answers, e, n - 1);
      LogSucceedsIff(answers, e, n - 1);
      AfterHeld(r.memory, 2);
      HeldBetween(e.memory, r.memory, Allocation.After(r.memory, 2));
      var log := LogOf(answers, e, n - 1);
      assert AllSucceed(log + [Attempt(answers, r)]) <==> AllSucceed(log) && Attempt(answers, r) == Success by {
        assert forall i :: 0 <= i < n - 1 ==> (log + [Attempt(answers, r)])[i] == log[i];
        assert (log + [Attempt(answers, r)])[n - 1] == Attempt(answers, r);
      }
    }
  }

  method WriteEntry(mode: Mode, config: Config, writer: Writer, key: Bytes, value: Bytes, m: Memory)
    returns (code: Code, left: Memory)
    modifies writer
    ensures code == Attempt(writer.answers, Moment(m, old(writer.calls)))
    ensures Moment(left, writer.calls) == Next(writer.answers, Moment(m, old(writer.calls)))
    ensures writer.headers ==
            old(writer.headers) + if code == Success then [EntryHeader(mode, config, T.KV(key, value))] else []
  {
    hide Enough, Allocation.After;
    var haveRoom;
    haveRoom, left := AllocMany(m, 2);
    if !haveRoom {
      return Unknown, left;
    }
    var text := EncodeInto(mode, value);
    code := writer.Set(config.prefix + key, text);
  }

  /** One bucket: the loop goes on after a failed entry, and the next entry's code replaces the error. */
  method WriteBucket(mode: Mode, config: Config, writer: Writer, list: List, m: Memory)
    returns (code: Code, left: Memory, ghost log: seq<Code>)
    requires list.Valid()
    modifies writer
    ensures |log| == |list.view| && code == Shown(log)
    ensures writer.headers == old(writer.headers) + Kept(mode, config, list.view, log)
    ensures log == LogOf(writer.answers, Moment(m, old(writer.calls)), |list.view|)
    ensures Moment(left, writer.calls) == MomentAfter(writer.answers, Moment(m, old(writer.calls)), |list.view|)
  {
    hide EntryHeader, Kept, LogOf, MomentAfter, Attempt, Next, Distinct;
    LogNothing(writer.answers, Moment(m, writer.calls));
    KeptNone(mode, config);
    code, left, log := Success, m, [];
    ghost var e := Moment(m, writer.calls);
    var node := list.head;
    while node != null
      invariant list.Valid() && |log| <= |list.nodes| && code == Shown(log)
      invariant node == if |log| < |list.nodes| then list.nodes[|log|] else null
      invariant writer.headers == old(writer.headers) + Kept(mode, config, list.view[..|log|], log)
      invariant log == LogOf(writer.answers, e, |log|)
      invariant Moment(left, writer.calls) == MomentAfter(writer.answers, e, |log|)
      decreases |list.nodes| - |log|
    {
      ghost var j := |log|;
      assert list.view[..j + 1][..j] == list.view[..j] && list.view[j] == T.KV(node.key, node.value);
      LogMore(writer.answers, e, j);
      code, left := WriteEntry(mode, config, writer, node.key, node.value, left);
      assert (log + [code])[..j] == log;
      KeptStep(mode, config, list.view[..j + 1], log + [code], j);
      log := log + [code];
      node := node.next;
    }
    assert list.view[..|log|] == list.view;
  }

  ghost predicate Aligned(views: seq<seq<T.KV>>, logs: seq<seq<Code>>) {
    |logs| <= |views| && forall i :: 0 <= i < |logs| ==> |logs[i]| == |views[i]|
  }

  ghost function KeptAll(mode: Mode, config: Config, views: seq<seq<T.KV>>, logs: seq<seq<Code>>): seq<T.KV>
    requires Aligned(views, logs)
    decreases |logs|
  {
    if logs == [] then []
    else
      var n := |logs| - 1;
      KeptAll(mode, config, views, logs[..n]) + Kept(mode, config, views[n], logs[n])
  }

  /** All buckets were gone through, each with a last attempt that succeeded or with none. */
  ghost predicate Completed(views: seq<seq<T.KV>>, logs: seq<seq<Code>>) {
    |logs| == |views| && forall i :: 0 <= i < |logs| ==> Shown(logs[i]) == Success
  }

  lemma KeptNone(mode: Mode, config: Config)
    ensures Kept(mode, config, [], []) == []
  {
  }

  lemma LogNothing(answers: nat -> Code, e: Moment)
    ensures LogOf(answers, e, 0) == [] && MomentAfter(answers, e, 0) == e
  {
  }

  lemma LogMore(answers: nat -> Code, e: Moment, n: nat)
    ensures var r := MomentAfter(answers, e, n);
            && LogOf(answers, e, n + 1) == LogOf(answers, e, n) + [Attempt(answers, r)]
            && MomentAfter(answers, e, n + 1) == Next(answers, r)
  {
  }

  /** The outcomes of all attempts. */
  ghost function Joined(logs: seq<seq<Code>>): seq<Code> {
    if logs == [] then [] else Joined(logs[..|logs| - 1]) + logs[|logs| - 1]
  }

  /** The last bucket gone through is the first whose last attempt failed. */
  ghost predicate StoppedAt(logs: seq<seq<Code>>, code: Code) {
    && logs != [] && Shown(logs[|logs| - 1]) == code
    && forall i :: 0 <= i < |logs| - 1 ==> Shown(logs[i]) == Success
  }

  lemma JoinedMore(logs: seq<seq<Code>>, log: seq<Code>)
    ensures Joined(logs + [log]) == Joined(logs) + log
  {
    assert (logs + [log])[..|logs|] == logs;
  }

  lemma {:induction false} JoinedSucceed(logs: seq<seq<Code>>)
    ensures AllSucceed(Joined(logs)) <==> forall i :: 0 <= i < |logs| ==> AllSucceed(logs[i])
    decreases |logs|
  {
    if logs != [] {
      var n := |logs| - 1;
      JoinedSucceed(logs[..n]);
      var a, b := Joined(logs[..n]), logs[n];
      assert AllSucceed(a + b) <==> AllSucceed(a) && AllSucceed(b) by {
        assert forall i :: 0 <= i < |a| ==> (a + b)[i] == a[i];
        assert forall i :: 0 <= i < |b| ==> (a + b)[|a| + i] == b[i];
      }
    }
  }

  /** The i-th bucket of the table. */
  method WriteBucketAt(mode: Mode, config: Config, writer: Writer, baggage: Hashtable, i: nat, m: Memory)
    returns (code: Code, left: Memory, ghost log: seq<Code>)
    requires baggage.Valid() && i < |baggage.View().buckets|
    modifies writer
    ensures var items := baggage.View().buckets[i];
            && |log| == |items| && code == Shown(log)
            && writer.headers == old(writer.headers) + Kept(mode, config, items, log)
            && log == LogOf(writer.answers, Moment(m, old(writer.calls)), |items|)
            && Moment(left, writer.calls) == MomentAfter(writer.answers, Moment(m, old(writer.calls)), |items|)
  {
    hide Kept, LogOf, MomentAfter, Shown, Linked, Distinct;
    code, left, log := WriteBucket(mode, config, writer, baggage.buckets.lists[i], m);
  }

  method BucketCount(baggage: Hashtable) returns (n: nat)
    requires baggage.Valid()
    ensures n == |baggage.View().buckets|
  {
    n := Pow2(baggage.order);
  }

  /** Where the outer loop stands: the headers written since, the moment, and the last code. */
  ghost predicate WrittenSoFar(mode: Mode, config: Config, views: seq<seq<T.KV>>, logs: seq<seq<Code>>, headers: seq<T.KV>,
                               answers: nat -> Code, e: Moment, now: Moment, code: Code)
  {
    && Aligned(views, logs) && headers == KeptAll(mode, config, views, logs)
    && Joined(logs) == LogOf(answers, e, |Joined(logs)|) && now == MomentAfter(answers, e, |Joined(logs)|)
    && (forall i :: 0 <= i < |logs| - 1 ==> Shown(logs[i]) == Success)
    && code == if logs == [] then Success else Shown(logs[|logs| - 1])
  }

  lemma WrittenNothing(mode: Mode, config: Config, views: seq<seq<T.KV>>, answers: nat -> Code, e: Moment)
    ensures WrittenSoFar(mode, config, views, [], [], answers, e, e, Success)
  {
  }

  lemma WrittenMore(mode: Mode, config: Config, views: seq<seq<T.KV>>, logs: seq<seq<Code>>, headers: seq<T.KV>,
                    answers: nat -> Code, e: Moment, now: Moment, log: seq<Code>)
    requires WrittenSoFar(mode, config, views, logs, headers, answers, e, now, Success)
    requires |logs| < |views| && |log| == |views[|logs|]| && log == LogOf(answers, now, |log|)
    ensures WrittenSoFar(mode, config, views, logs + [log], headers + Kept(mode, config, views[|logs|], log),
                         answers, e, MomentAfter(answers, now, |log|), Shown(log))
  {
    hide Kept, KeptAll, Joined, LogOf, MomentAfter, Shown;
    KeptMore(mode, config, views, logs, log);
    JoinedMore(logs, log);
    LogSplit(answers, e, |Joined(logs)|, |log|);
  }

  /** The outer loop, which stops at a bucket whose last attempt failed. */
  method WriteBuckets(mode: Mode, config: Config, writer: Writer, baggage: Hashtable, m: Memory)
    returns (code: Code, left: Memory, ghost logs: seq<seq<Code>>)
    requires baggage.Valid()
    modifies writer
    ensures Aligned(baggage.View().buckets, logs)
    ensures code == Success <==> Completed(baggage.View().buckets, logs)
    ensures code != Success ==> StoppedAt(logs, code)
    ensures writer.headers == old(writer.headers) + KeptAll(mode, config, baggage.View().buckets, logs)
    ensures Joined(logs) == LogOf(writer.answers, Moment(m, old(writer.calls)), |Joined(logs)|)
    ensures Moment(left, writer.calls) == MomentAfter(writer.answers, Moment(m, old(writer.calls)), |Joined(logs)|)
  {
    hide Kept, KeptAll, LogOf, MomentAfter, Joined, Shown, WrittenSoFar, Linked, Distinct, Pow2;
    ghost var views, e, before := baggage.View().buckets, Moment(m, writer.calls), writer.headers;
    ghost var headers: seq<T.KV> := [];
    WrittenNothing(mode, config, views, writer.answers, e);
    code, left, logs := Success, m, [];
    var i := 0;
    var n := BucketCount(baggage);
    while i < n && code == Success
      invariant baggage.Valid() && baggage.View().buckets == views && i == |logs| <= n
      invariant writer.headers == before + headers
      invariant WrittenSoFar(mode, config, views, logs, headers, writer.answers, e, Moment(left, writer.calls), code)
    {
      ghost var log, now := [], Moment(left, writer.calls);
      code, left, log := WriteBucketAt(mode, config, writer, baggage, i, left);
      WrittenMore(mode, config, views, logs, headers, writer.answers, e, now, log);
      headers := headers + Kept(mode, config, views[i], log);
      logs := logs + [log];
      i := i + 1;
    }
    WrittenAll(mode, config, views, logs, headers, writer.answers, e, Moment(left, writer.calls), code);
  }

  lemma WrittenAll(mode: Mode, config: Config, views: seq<seq<T.KV>>, logs: seq<seq<Code>>, headers: seq<T.KV>,
                   answers: nat -> Code, e: Moment, now: Moment, code: Code)
    requires WrittenSoFar(mode, config, views, logs, headers, answers, e, now, code)
    requires code == Success ==> |logs| == |views|
    ensures Aligned(views, logs) && headers == KeptAll(mode, config, views, logs)
    ensures code == Success <==> Completed(views, logs)
    ensures code != Success ==> StoppedAt(logs, code)
    ensures Joined(logs) == LogOf(answers, e, |Joined(logs)|) && now == MomentAfter(answers, e, |Joined(logs)|)
  {
  }

  /**
    Both injectors.  The code is success exactly when the trace header was taken and in every
    bucket the last entry was: an error in front of it is forgotten.
   */
  method InjectIntoTextMap(mode: Mode, config: Config, writer: Writer, ctx: SpanContext, m: Memory)
    returns (code: Code, left: Memory, ghost traced: bool, ghost logs: seq<seq<Code>>)
    requires ctx.Valid() && InRange(ctx.Identity())
    modifies writer
    ensures Aligned(ctx.baggage.View().buckets, logs)
    ensures code == Success <==> traced && Completed(ctx.baggage.View().buckets, logs)
    ensures traced <==> writer.answers(old(writer.calls)) == Success
    ensures traced && code != Success ==> StoppedAt(logs, code)
    ensures traced ==>
              && Joined(logs) == LogOf(writer.answers, Moment(m, old(writer.calls) + 1), |Joined(logs)|)
              && Moment(left, writer.calls) ==
                 MomentAfter(writer.answers, Moment(m, old(writer.calls) + 1), |Joined(logs)|)
    ensures !traced ==> left == m && writer.calls == old(writer.calls) + 1
    ensures writer.headers == old(writer.headers) +
              if traced then [TraceHeader(config, ctx.Identity())] + KeptAll(mode, config, ctx.baggage.View().buckets, logs)
              else []
  {
    hide Kept, KeptAll, FormatContext, InRange, LogOf, MomentAfter, Joined, StoppedAt;
    logs, left := [], m;
    var text := FormatForHeader(ctx);
    code := writer.Set(config.trace, text);
    traced := code == Success;
    if code == Success {
      code, left, logs := WriteBuckets(mode, config, writer, ctx.baggage, m);
    }
  }

  lemma KeptMore(mode: Mode, config: Config, views: seq<seq<T.KV>>, logs: seq<seq<Code>>, log: seq<Code>)
    requires Aligned(views, logs) && |logs| < |views| && |log| == |views[|logs|]|
    ensures KeptAll(mode, config, views, logs + [log]) ==
            KeptAll(mode, config, views, logs) + Kept(mode, config, views[|logs|], log)
  {
    assert (logs + [log])[..|logs|] == logs;
  }

  lemma {:induction false} CStringAt(b: Bytes, m: nat)
    requires m < |b| && 0 !in b[..m] && b[m] == 0
    ensures CString(b) == b[..m]
  {
    if m > 0 {
      assert b[0] == b[..m][0] != 0;
      assert b[1..][..m - 1] == b[..m][1..];
      CStringAt(b[1..], m - 1);
    }
  }

  /** The buffer the injector prints into is long enough for every context. */
  method FormatForHeader(ctx: SpanContext) returns (text: Bytes)
    requires InRange(ctx.Identity())
    ensures text == FormatContext(ctx.Identity())
  {
    hide FormatContext, FormatTraceId, CString, ScanContext;
    var buffer := new byte[SPAN_CONTEXT_MAX_STR_LEN + 1];
    var len := SpanContextFormat(ctx, buffer, SPAN_CONTEXT_MAX_STR_LEN + 1);
    ghost var whole := FormatContext(ctx.Identity());
    ScanFormat(ctx.Identity());
    FormatIsPlain(ctx.Identity());
    assert buffer[..][..|whole|] == whole[..|whole|] == whole;
    CStringAt(buffer[..], |whole|);
    text := CString(buffer[..]);
  }

  // ----- what success says

  /** When every attempt succeeded the headers are those of the specification. */
  lemma {:induction false} KeptAllComplete(mode: Mode, config: Config, views: seq<seq<T.KV>>, logs: seq<seq<Code>>)
    requires Aligned(views, logs) && forall i :: 0 <= i < |logs| ==> AllSucceed(logs[i])
    ensures KeptAll(mode, config, views, logs) == EntryHeaders(mode, config, T.Flatten(views[..|logs|]))
    decreases |logs|
  {
    if logs == [] {
      assert T.Flatten([]) == [];
    } else {
      hide Kept, EntryHeaders, EntryHeader, T.Flatten;
      var n := |logs| - 1;
      KeptAllComplete(mode, config, views, logs[..n]);
      KeptEntries(mode, config, views[n], logs[n]);
      FlattenLast(views[..n + 1]);
      assert views[..n + 1][..n] == views[..n];
      HeadersConcat(mode, config, T.Flatten(views[..n]), views[n]);
    }
  }

  lemma HeadersConcat(mode: Mode, config: Config, a: seq<T.KV>, b: seq<T.KV>)
    ensures EntryHeaders(mode, config, a + b) == EntryHeaders(mode, config, a) + EntryHeaders(mode, config, b)
  {
  }

  /** A completed injection in which nothing failed has written the headers of the specification. */
  lemma {:induction false} InjectedAll(mode: Mode, config: Config, ids: Ids, t: T.Table, logs: seq<seq<Code>>)
    requires Aligned(t.buckets, logs) && |logs| == |t.buckets| && forall i :: 0 <= i < |logs| ==> AllSucceed(logs[i])
    ensures [TraceHeader(config, ids)] + KeptAll(mode, config, t.buckets, logs) == Inject(mode, config, ids, T.Items(t))
  {
    KeptAllComplete(mode, config, t.buckets, logs);
    assert t.buckets[..|logs|] == t.buckets;
  }

  lemma {:induction false} FlattenLast(views: seq<seq<T.KV>>)
    requires views != []
    ensures T.Flatten(views) == T.Flatten(views[..|views| - 1]) + views[|views| - 1]
  {
    if |views| > 1 {
      FlattenLast(views[1..]);
      assert views[1..][..|views| - 2] == views[..|views| - 1][1..];
    }
  }

  /** A success code means a complete set of headers. */
  ghost predicate SuccessMeansComplete(views: seq<seq<T.KV>>) {
    forall logs {:trigger Completed(views, logs)} :: Aligned(views, logs) && Completed(views, logs) ==>
      forall i :: 0 <= i < |logs| ==> AllSucceed(logs[i])
  }

  /** Errors that are then forgotten: every attempt but the last of each bucket fails. */
  function Forgotten(views: seq<seq<T.KV>>): (logs: seq<seq<Code>>)
    ensures |logs| == |views|
    ensures forall i :: 0 <= i < |views| ==> |logs[i]| == |views[i]| && Shown(logs[i]) == Success
    ensures forall i :: 0 <= i < |views| && |views[i]| > 1 ==> logs[i][0] == Unknown
  {
    seq(|views|, i requires 0 <= i < |views| =>
      seq(|views[i]|, j requires 0 <= j < |views[i]| => if j == |views[i]| - 1 then Success else Unknown))
  }

  /** It does exactly for tables without a bucket of two entries. */
  lemma {:induction false} SuccessMeansCompleteIff(views: seq<seq<T.KV>>)
    ensures SuccessMeansComplete(views) <==> forall i :: 0 <= i < |views| ==> |views[i]| <= 1
  {
    var logs := Forgotten(views);
    assert Aligned(views, logs) && Completed(views, logs);
    if i :| 0 <= i < |views| && |views[i]| > 1 {
      assert !AllSucceed(logs[i]);
    } else {
      forall logs | Aligned(views, logs) && Completed(views, logs)
        ensures forall i :: 0 <= i < |logs| ==> AllSucceed(logs[i])
      {
        assert forall i :: 0 <= i < |logs| ==> Shown(logs[i]) == Success && |views[i]| <= 1;
      }
    }
  }
}
