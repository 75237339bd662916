/**
  What the headers other than the injected ones do: the comma-separated baggage header, the
  debug header, and a trace header that does not scan.
 */
module SpecialHeaders {
  import opened Basics
  import opened TableSpec
  import opened CStrings
  import opened Uri
  import opened BinaryFormat
  import opened SpanText
  import opened HeaderFormat
  import opened HeaderLaws
  import opened PairLaws

  /** A value that gets through the carrier: no NUL and, over HTTP, no 0x7f. */
  predicate Passes(mode: Mode, value: Bytes) { 0 !in value && (mode == Http ==> DEL !in value) }

  /** The three names are different and in normal form. */
  predicate Apart(mode: Mode, config: Config) {
    && Normalize(mode, config.trace) == config.trace && Normalize(mode, config.debug) == config.debug
    && Normalize(mode, config.baggage) == config.baggage
    && config.trace != config.debug && config.trace != config.baggage && config.debug != config.baggage
  }

  lemma DefaultConfigApart(mode: Mode)
    ensures Apart(mode, DefaultConfig())
  {
    var c := DefaultConfig();
    assert c.trace[0] == 'u' as int && c.debug[0] == 'j' as int && c.baggage[0] == 'j' as int;
    assert |c.debug| == 15 && |c.baggage| == 14;
  }

  lemma ValueComesBack(mode: Mode, value: Bytes)
    requires Passes(mode, value)
    ensures Decodable(mode, EncodeValue(mode, value)) && DecodeValue(mode, EncodeValue(mode, value)) == value
  {
    DecodeEncodeUri(value);
  }

  // ----- the baggage header

  ghost predicate Listable(mode: Mode, items: seq<KV>) {
    DistinctKeys(items) &&
    forall kv :: kv in items ==>
      Field(kv.key) && Field(kv.value) && Passes(mode, kv.key) && Passes(mode, kv.value)
  }

  function BaggageHeader(mode: Mode, config: Config, items: seq<KV>): KV {
    KV(config.baggage, EncodeValue(mode, PrintMap(items)))
  }

  lemma PrintedPasses(mode: Mode, items: seq<KV>)
    requires Listable(mode, items)
    ensures Passes(mode, PrintMap(items))
  {
    PrintedChars(items, 0);
    if mode == Http {
      PrintedChars(items, DEL);
    }
  }

  /** A listed pair is put, replacing a value already there, and nothing else changes. */
  lemma {:induction false} BaggageStep(mode: Mode, config: Config, hash: HashFn, ctx: Context, items: seq<KV>)
    requires Apart(mode, config) && Inv(hash, ctx.baggage) && Listable(mode, items)
    ensures var p := Step(mode, config, hash, ctx, BaggageHeader(mode, config, items));
            && p.Going? && p.ctx.ids == ctx.ids && p.ctx.debugId == ctx.debugId
            && Inv(hash, p.ctx.baggage)
            && Contents(p.ctx.baggage) == Contents(ctx.baggage) + ToMap(items)
  {
    hide Put, PutAll, ParseMap, PrintMap, ScanContext, Normalize, Decodable, DecodeValue, EncodeValue, Contents;
    PrintedPasses(mode, items);
    ValueComesBack(mode, PrintMap(items));
    ParseMapBack(items);
    PutAllUpdates(hash, ctx.baggage, items);
  }

  /** Whatever text the header has, it is rejected exactly if some piece between its commas is not a pair. */
  lemma {:induction false} BaggageRejectedIff(mode: Mode, config: Config, hash: HashFn, ctx: Context, text: Bytes)
    requires Apart(mode, config) && Shaped(ctx.baggage) && Passes(mode, text)
    ensures var p := Step(mode, config, hash, ctx, KV(config.baggage, EncodeValue(mode, text)));
            p != Aborts && (p == Corrupt <==> !WellFormedText(text))
  {
    hide PutAll, ParseMap, ScanContext, Normalize, Decodable, DecodeValue, EncodeValue, WellFormedText;
    ValueComesBack(mode, text);
    ParseMapIff(text);
  }

  /** With a trace header, in either order, it gives a context with just these identifiers and entries. */
  lemma {:induction false} BaggageAndTrace(mode: Mode, config: Config, hash: HashFn, ids: Ids, items: seq<KV>)
    requires WellFormed(mode, config) && Apart(mode, config) && InRange(ids) && Listable(mode, items)
    requires ids.high != 0 || ids.low != 0
    ensures forall hs :: hs == [TraceHeader(config, ids), BaggageHeader(mode, config, items)] ||
                         hs == [BaggageHeader(mode, config, items), TraceHeader(config, ids)] ==>
              var r := Extract(mode, config, hash, hs);
              && r.Extracted? && r.ctx.ids == ids && r.ctx.debugId == None
              && Inv(hash, r.ctx.baggage) && Contents(r.ctx.baggage) == ToMap(items)
  {
    hide Step, Steps, Contents, Inv, TraceHeader, BaggageHeader;
    var t, b := TraceHeader(config, ids), BaggageHeader(mode, config, items);
    var s := Sending(mode, config, ids, []);
    assert s.IsTrace(t);
    var start := EmptyContext;
    EmptyIsEmpty(hash);
    EmptyAdd(ToMap(items));
    TraceStep(s, hash, start, t);
    BaggageStep(mode, config, hash, start, items);
    var traced, listed := start.(ids := ids), Step(mode, config, hash, start, b).ctx;
    BaggageStep(mode, config, hash, traced, items);
    InvShaped(hash, listed.baggage);
    TraceStep(s, hash, listed, t);
    TwoSteps(mode, config, hash, start, t, b);
    TwoSteps(mode, config, hash, start, b, t);
  }

  lemma EmptyIsEmpty(hash: HashFn)
    ensures Inv(hash, EmptyContext.baggage) && Shaped(EmptyContext.baggage)
    ensures Contents(EmptyContext.baggage) == map[]
  {
    EmptyTable(hash, INIT_ORDER);
  }

  lemma EmptyAdd(m: map<Key, Key>)
    ensures map[] + m == m
  {
  }

  // ----- the debug header

  /** Alone it makes a context with the debug and sampled flags and nothing else. */
  lemma {:induction false} DebugArrives(mode: Mode, config: Config, hash: HashFn, id: Bytes)
    requires Apart(mode, config) && Passes(mode, id)
    ensures var r := Extract(mode, config, hash, [KV(config.debug, EncodeValue(mode, id))]);
            && r.Extracted? && r.ctx.ids == Ids(0, 0, 0, 3) && r.ctx.debugId == Some(id)
            && Contents(r.ctx.baggage) == map[]
  {
    hide Step, Steps, Contents, EncodeValue, DecodeValue, Decodable, Normalize;
    var h := KV(config.debug, EncodeValue(mode, id));
    ValueComesBack(mode, id);
    EmptyIsEmpty(hash);
    DebugStep(mode, config, hash, EmptyContext, h);
    OneStep(mode, config, hash, EmptyContext, h);
  }

  /** It sets those two flags and keeps the other six. */
  lemma {:induction false} DebugFlags(flags: byte)
    ensures WithDebug(flags) % 2 == 1 && WithDebug(flags) / 2 % 2 == 1 && WithDebug(flags) / 4 == flags / 4
  {
  }

  // ----- headers that stop an extraction

  lemma {:induction false} StepsShaped(mode: Mode, config: Config, hash: HashFn, ctx: Context, hs: seq<KV>)
    requires Shaped(ctx.baggage)
    ensures Steps(mode, config, hash, ctx, hs).Going? ==> Shaped(Steps(mode, config, hash, ctx, hs).ctx.baggage)
    decreases |hs|
  {
    hide Step;
    if hs != [] {
      StepShaped(mode, config, hash, ctx, hs[0]);
      var p := Step(mode, config, hash, ctx, hs[0]);
      if p.Going? {
        StepsShaped(mode, config, hash, p.ctx, hs[1..]);
      }
    }
  }

  /** A header that is corrupt wherever it comes is rejected behind any headers that are not themselves a failure. */
  lemma {:induction false} StepsRejected(mode: Mode, config: Config, hash: HashFn, ctx: Context,
                                         front: seq<KV>, h: KV, back: seq<KV>)
    requires Shaped(ctx.baggage) && Steps(mode, config, hash, ctx, front).Going?
    requires forall c: Context :: Shaped(c.baggage) ==> Step(mode, config, hash, c, h) == Corrupt
    ensures Steps(mode, config, hash, ctx, front + [h] + back) == Corrupt
    decreases |front|
  {
    hide Step;
    var hs := front + [h] + back;
    if front == [] {
      assert hs[0] == h;
    } else {
      assert hs[0] == front[0] && hs[1..] == front[1..] + [h] + back;
      StepShaped(mode, config, hash, ctx, front[0]);
      StepsRejected(mode, config, hash, Step(mode, config, hash, ctx, front[0]).ctx, front[1..], h, back);
    }
  }

  /** A malformed list is rejected, whatever comes behind it. */
  lemma {:induction false} MalformedListRejected(mode: Mode, config: Config, hash: HashFn,
                                                 front: seq<KV>, text: Bytes, back: seq<KV>)
    requires Apart(mode, config) && Passes(mode, text) && !WellFormedText(text)
    requires Steps(mode, config, hash, EmptyContext, front).Going?
    ensures Extract(mode, config, hash, front + [KV(config.baggage, EncodeValue(mode, text))] + back) == Rejected
  {
    hide Step, Steps, WellFormedText, EncodeValue, Normalize;
    var h := KV(config.baggage, EncodeValue(mode, text));
    forall c: Context | Shaped(c.baggage)
      ensures Step(mode, config, hash, c, h) == Corrupt
    {
      BaggageRejectedIff(mode, config, hash, c, text);
    }
    EmptyIsEmpty(hash);
    StepsRejected(mode, config, hash, EmptyContext, front, h, back);
  }

  /** So is a trace header whose value does not scan. */
  lemma {:induction false} BadTraceRejected(mode: Mode, config: Config, hash: HashFn,
                                            front: seq<KV>, text: Bytes, back: seq<KV>)
    requires Apart(mode, config) && Passes(mode, text) && ScanContext(text) == None
    requires Steps(mode, config, hash, EmptyContext, front).Going?
    ensures Extract(mode, config, hash, front + [KV(config.trace, EncodeValue(mode, text))] + back) == Rejected
  {
    hide Step, Steps, ScanContext, EncodeValue, Normalize;
    var h := KV(config.trace, EncodeValue(mode, text));
    forall c: Context | Shaped(c.baggage)
      ensures Step(mode, config, hash, c, h) == Corrupt
    {
      BadTraceStep(mode, config, hash, c, text);
    }
    EmptyIsEmpty(hash);
    StepsRejected(mode, config, hash, EmptyContext, front, h, back);
  }

  lemma {:induction false} BadTraceStep(mode: Mode, config: Config, hash: HashFn, ctx: Context, text: Bytes)
    requires Apart(mode, config) && Shaped(ctx.baggage) && Passes(mode, text) && ScanContext(text) == None
    ensures Step(mode, config, hash, ctx, KV(config.trace, EncodeValue(mode, text))) == Corrupt
  {
    hide ScanContext, ParseMap, PutAll, Put, Normalize, Decodable, DecodeValue, EncodeValue;
    ValueComesBack(mode, text);
  }

  // ----- the injected headers as they look

  predicate Printable(s: Bytes) { forall i :: 0 <= i < |s| ==> 0x20 < s[i] < DEL }

  lemma EncodedPrintable(s: Bytes)
    ensures Printable(EncodeUri(s))
  {
    hide EncodeUri;
    EncodedIsPrintable(s);
    assert forall i :: 0 <= i < |EncodeUri(s)| ==> EncodeUri(s)[i] in EncodeUri(s);
  }

  /** A text map carries entries as they are; over HTTP their values are printable ASCII. */
  lemma {:induction false} InjectedLook(mode: Mode, config: Config, ids: Ids, items: seq<KV>, i: nat)
    requires i < |items|
    ensures var hs := Inject(mode, config, ids, items);
            && |hs| == |items| + 1 && hs[0] == KV(config.trace, FormatContext(ids))
            && hs[i + 1].key == config.prefix + items[i].key
            && (mode == TextMap ==> hs[i + 1].value == items[i].value)
            && (mode == Http ==> hs[i + 1].value == EncodeUri(items[i].value) && Printable(EncodeUri(items[i].value)))
  {
    hide FormatContext, EncodeUri;
    EncodedPrintable(items[i].value);
  }
}
