/**
  Headers come back: whatever order the injected headers arrive in, whatever other headers lie
  between them and, over HTTP, however the case of their names was changed on the way, extraction
  gives back the context that was injected, exactly when the carrier can carry its baggage.
 */
module HeaderLaws {
  import opened Basics
  import opened TableSpec
  import opened CStrings
  import opened Uri
  import opened BinaryFormat
  import opened SpanText
  import opened HeaderFormat

  function DefaultConfig(): Config {
    Config(Ascii("jaeger-debug-id"), Ascii("jaeger-baggage"), Ascii("uber-trace-id"), Ascii("uberctx-"))
  }

  /** Names are in normal form, and none of the three single headers looks like a baggage entry. */
  predicate WellFormed(mode: Mode, config: Config) {
    && Normalize(mode, config.trace) == config.trace && Normalize(mode, config.prefix) == config.prefix
    && !(config.prefix <= config.trace) && !(config.prefix <= config.debug) && !(config.prefix <= config.baggage)
  }

  lemma {:induction false} DefaultConfigWellFormed(mode: Mode)
    ensures WellFormed(mode, DefaultConfig())
  {
    var c := DefaultConfig();
    assert c.prefix[4] == 'c' as int && c.trace[4] == '-' as int;
    assert c.prefix[0] == 'u' as int && c.debug[0] == 'j' as int && c.baggage[0] == 'j' as int;
  }

  /** What is sent: a context's identity and baggage entries, in a mode, under a configuration. */
  datatype Sending = Sending(mode: Mode, config: Config, ids: Ids, items: seq<KV>) {
    ghost predicate Valid() {
      && WellFormed(mode, config) && InRange(ids) && DistinctKeys(items)
      && forall kv :: kv in items ==> 0 !in kv.value
    }

    /** Entries the carrier can carry. */
    predicate Carries(kv: KV) {
      kv.key != [] && (mode == Http ==> Lower(kv.key) == kv.key && DEL !in kv.value)
    }

    ghost predicate CarriesAll() { forall kv :: kv in items ==> Carries(kv) }

    predicate Same(h: KV, g: KV) { Normalize(mode, h.key) == Normalize(mode, g.key) && h.value == g.value }

    predicate IsTrace(h: KV) { Same(h, TraceHeader(config, ids)) }
    predicate IsEntry(h: KV, kv: KV) { Same(h, EntryHeader(mode, config, kv)) }
    predicate Foreign(h: KV) { !Relevant(config, Normalize(mode, h.key)) }

    ghost predicate Allowed(h: KV) {
      Foreign(h) || IsTrace(h) || exists kv :: kv in items && IsEntry(h, kv)
    }

    /** The headers that arrive: copies of those sent, each at least once, and unrelated ones. */
    ghost predicate Delivered(hs: seq<KV>) {
      && (forall h :: h in hs ==> Allowed(h))
      && (exists h :: h in hs && IsTrace(h))
      && (forall kv :: kv in items ==> exists h :: h in hs && IsEntry(h, kv))
    }
  }

  lemma SameMembers(a: seq<KV>, b: seq<KV>)
    requires multiset(a) == multiset(b)
    ensures forall h :: h in a <==> h in b
  {
    assert forall h :: h in a <==> h in multiset(a);
    assert forall h :: h in b <==> h in multiset(b);
  }

  lemma InjectAt(s: Sending)
    ensures var sent := Inject(s.mode, s.config, s.ids, s.items);
            && |sent| == |s.items| + 1 && s.IsTrace(sent[0])
            && forall i :: 0 <= i < |s.items| ==> s.IsEntry(sent[i + 1], s.items[i])
  {
    hide FormatContext, EncodeValue, Normalize;
  }

  /** In particular any permutation of the injected headers. */
  lemma {:induction false} PermutationDelivered(s: Sending, hs: seq<KV>)
    requires multiset(hs) == multiset(Inject(s.mode, s.config, s.ids, s.items))
    ensures s.Delivered(hs)
  {
    hide Inject, Sending.IsTrace, Sending.IsEntry, Sending.Foreign;
    var sent := Inject(s.mode, s.config, s.ids, s.items);
    SameMembers(hs, sent);
    InjectAt(s);
    assert sent[0] in hs;
    forall h | h in hs
      ensures s.Allowed(h)
    {
      var i :| 0 <= i < |sent| && sent[i] == h;
      assert i > 0 ==> s.IsEntry(sent[i - 1 + 1], s.items[i - 1]);
    }
    forall kv | kv in s.items
      ensures exists h :: h in hs && s.IsEntry(h, kv)
    {
      var i :| 0 <= i < |s.items| && s.items[i] == kv;
      assert s.IsEntry(sent[i + 1], kv) && sent[i + 1] in hs;
    }
  }

  // ----- what one header does

  lemma {:induction false} TraceStep(s: Sending, hash: HashFn, ctx: Context, h: KV)
    requires WellFormed(s.mode, s.config) && InRange(s.ids) && Shaped(ctx.baggage) && s.IsTrace(h)
    ensures Step(s.mode, s.config, hash, ctx, h) == Going(ctx.(ids := s.ids))
  {
    hide Put, PutAll, FormatContext, ScanContext, DecodeUri, ParseMap;
    FormatIsPlain(s.ids);
    ScanFormat(s.ids);
  }

  lemma EntryName(s: Sending, h: KV, kv: KV)
    requires WellFormed(s.mode, s.config) && s.IsEntry(h, kv)
    ensures var name := Normalize(s.mode, h.key);
            && name == s.config.prefix + Normalize(s.mode, kv.key)
            && (Relevant(s.config, name) <==> kv.key != [])
            && name != s.config.trace && name != s.config.debug && name != s.config.baggage
  {
    var g := EntryHeader(s.mode, s.config, kv);
    assert Normalize(s.mode, g.key) == s.config.prefix + Normalize(s.mode, kv.key);
  }

  lemma EntryValue(s: Sending, h: KV, kv: KV)
    requires s.IsEntry(h, kv) && 0 !in kv.value
    ensures Decodable(s.mode, h.value) <==> (s.mode == Http ==> DEL !in kv.value)
    ensures DecodeValue(s.mode, h.value) == kv.value
  {
    DecodeEncodeUri(kv.value);
  }

  function EntryEffect(s: Sending, hash: HashFn, ctx: Context, kv: KV): Progress
    requires Shaped(ctx.baggage)
  {
    if kv.key == [] then Going(ctx)
    else if s.mode == Http && DEL in kv.value then Aborts
    else Going(ctx.(baggage := Put(hash, ctx.baggage, Normalize(s.mode, kv.key), kv.value)))
  }

  lemma {:induction false} EntryStep(s: Sending, hash: HashFn, ctx: Context, h: KV, kv: KV)
    requires WellFormed(s.mode, s.config) && Shaped(ctx.baggage) && s.IsEntry(h, kv) && 0 !in kv.value
    ensures Step(s.mode, s.config, hash, ctx, h) == EntryEffect(s, hash, ctx, kv)
  {
    hide Put, PutAll, ScanContext, ParseMap, Decodable, DecodeValue, Normalize;
    EntryName(s, h, kv);
    EntryValue(s, h, kv);
    var name := Normalize(s.mode, h.key);
    if kv.key != [] {
      assert name[|s.config.prefix|..] == Normalize(s.mode, kv.key);
      assert s.config.prefix <= name;
    }
  }

  lemma EntryCarried(s: Sending, hash: HashFn, ctx: Context, h: KV, kv: KV)
    requires s.Valid() && Shaped(ctx.baggage) && s.IsEntry(h, kv) && kv in s.items && s.Carries(kv)
    ensures Step(s.mode, s.config, hash, ctx, h) == Going(ctx.(baggage := Put(hash, ctx.baggage, kv.key, kv.value)))
  {
    hide Step, Put;
    EntryStep(s, hash, ctx, h, kv);
  }

  lemma ForeignStep(s: Sending, hash: HashFn, ctx: Context, h: KV)
    requires Shaped(ctx.baggage) && s.Foreign(h)
    ensures Step(s.mode, s.config, hash, ctx, h) == Going(ctx)
  {
  }

  // ----- whole runs, when everything can be carried

  /** A context on its way to the one sent: nothing in it that was not sent. */
  ghost predicate Within(s: Sending, hash: HashFn, ctx: Context) {
    && Shaped(ctx.baggage) && Inv(hash, ctx.baggage) && ctx.baggage.size == |Contents(ctx.baggage)| && ctx.debugId == None
    && (ctx.ids == EmptyContext.ids || ctx.ids == s.ids)
    && (forall k :: k in Contents(ctx.baggage) ==>
          k in ToMap(s.items) && Contents(ctx.baggage)[k] == ToMap(s.items)[k])
  }

  ghost predicate Advanced(s: Sending, before: Context, after: Context) {
    && Contents(before.baggage).Keys <= Contents(after.baggage).Keys
    && (before.ids == s.ids ==> after.ids == s.ids)
  }

  /** What the header says has arrived. */
  ghost predicate Reached(s: Sending, h: KV, ctx: Context) {
    && (s.IsTrace(h) ==> ctx.ids == s.ids)
    && (forall kv :: kv in s.items && s.IsEntry(h, kv) ==> kv.key in Contents(ctx.baggage))
  }

  lemma {:induction false} ItemLookup(items: seq<KV>, kv: KV)
    requires DistinctKeys(items) && kv in items
    ensures kv.key in ToMap(items) && ToMap(items)[kv.key] == kv.value
  {
    if kv == items[0] {
    } else {
      assert kv in items[1..];
      ItemLookup(items[1..], kv);
    }
  }

  lemma PutWithin(s: Sending, hash: HashFn, ctx: Context, kv: KV)
    requires s.Valid() && Within(s, hash, ctx) && kv in s.items
    ensures var after := ctx.(baggage := Put(hash, ctx.baggage, kv.key, kv.value));
            Within(s, hash, after) && Advanced(s, ctx, after) && kv.key in Contents(after.baggage)
  {
    hide Put, Contents, Inv;
    PutIsMapUpdate(hash, ctx.baggage, kv.key, kv.value);
    ItemLookup(s.items, kv);
  }

  lemma StepWithin(s: Sending, hash: HashFn, ctx: Context, h: KV)
    requires s.Valid() && s.CarriesAll() && Within(s, hash, ctx) && s.Allowed(h)
    ensures var p := Step(s.mode, s.config, hash, ctx, h);
            p.Going? && Within(s, hash, p.ctx) && Advanced(s, ctx, p.ctx) && Reached(s, h, p.ctx)
  {
    hide Step, Put, Contents, Inv;
    var p := Step(s.mode, s.config, hash, ctx, h);
    if s.Foreign(h) {
      ForeignStep(s, hash, ctx, h);
    } else if s.IsTrace(h) {
      TraceStep(s, hash, ctx, h);
    }
    forall kv | kv in s.items && s.IsEntry(h, kv)
      ensures p.Going? && Within(s, hash, p.ctx) && Advanced(s, ctx, p.ctx) && kv.key in Contents(p.ctx.baggage)
    {
      EntryCarried(s, hash, ctx, h, kv);
      PutWithin(s, hash, ctx, kv);
    }
  }

  lemma {:induction false} StepsWithin(s: Sending, hash: HashFn, ctx: Context, hs: seq<KV>)
    requires s.Valid() && s.CarriesAll() && Within(s, hash, ctx) && forall h :: h in hs ==> s.Allowed(h)
    ensures var p := Steps(s.mode, s.config, hash, ctx, hs);
            && p.Going? && Within(s, hash, p.ctx) && Advanced(s, ctx, p.ctx)
            && (forall h :: h in hs ==> Reached(s, h, p.ctx))
    decreases |hs|
  {
    hide Step, Contents, Within, Reached;
    if hs != [] {
      WithinShaped(s, hash, ctx);
      StepWithin(s, hash, ctx, hs[0]);
      var q := Step(s.mode, s.config, hash, ctx, hs[0]).ctx;
      WithinShaped(s, hash, q);
      StepsWithin(s, hash, q, hs[1..]);
      ReachedStays(s, hs[0], q, Steps(s.mode, s.config, hash, q, hs[1..]).ctx);
    }
  }

  lemma WithinShaped(s: Sending, hash: HashFn, ctx: Context)
    requires Within(s, hash, ctx)
    ensures Shaped(ctx.baggage)
  {
  }

  lemma ReachedStays(s: Sending, h: KV, before: Context, after: Context)
    requires Reached(s, h, before) && Advanced(s, before, after)
    ensures Reached(s, h, after)
  {
  }

  lemma EmptyWithin(s: Sending, hash: HashFn)
    ensures Within(s, hash, EmptyContext)
  {
    EmptyTable(hash, INIT_ORDER);
  }

  /** When everything can be carried, the context arrives. */
  lemma {:induction false} AllArrives(s: Sending, hash: HashFn, hs: seq<KV>)
    requires s.Valid() && s.CarriesAll() && s.Delivered(hs)
    ensures GivesBack(s, hash, Extract(s.mode, s.config, hash, hs))
  {
    hide Step, Steps, Contents, Inv, PutAll;
    EmptyWithin(s, hash);
    StepsWithin(s, hash, EmptyContext, hs);
    var ctx := Steps(s.mode, s.config, hash, EmptyContext, hs).ctx;
    assert ctx.ids == s.ids;
    forall k | k in ToMap(s.items)
      ensures k in Contents(ctx.baggage)
    {
      ToMapFind(s.items, k);
      var kv := s.items[FindIndex(s.items, k)];
      assert kv in s.items;
    }
    assert Contents(ctx.baggage) == ToMap(s.items);
  }

  /** The context sent, or success without a context where there is nothing worth sending. */
  ghost predicate GivesBack(s: Sending, hash: HashFn, r: Extraction) {
    if s.ids.high == 0 && s.ids.low == 0 && s.items == [] then r == NoContext
    else
      && r.Extracted? && r.ctx.ids == s.ids && r.ctx.debugId == None
      && Inv(hash, r.ctx.baggage) && Contents(r.ctx.baggage) == ToMap(s.items)
  }

  // ----- and only then

  /** Only names in normal form ever become baggage keys. */
  ghost predicate Clean(s: Sending, hash: HashFn, ctx: Context) {
    && Shaped(ctx.baggage) && Inv(hash, ctx.baggage)
    && forall k :: k in Contents(ctx.baggage) ==> k != [] && Normalize(s.mode, k) == k
  }

  lemma NormalizeTwice(mode: Mode, key: Bytes)
    ensures Normalize(mode, Normalize(mode, key)) == Normalize(mode, key)
  {
  }

  lemma StepClean(s: Sending, hash: HashFn, ctx: Context, h: KV)
    requires s.Valid() && Clean(s, hash, ctx) && s.Allowed(h)
    ensures var p := Step(s.mode, s.config, hash, ctx, h); p.Going? ==> Clean(s, hash, p.ctx)
  {
    hide Step, Put, Contents, Inv;
    if s.Foreign(h) {
      ForeignStep(s, hash, ctx, h);
    } else if s.IsTrace(h) {
      TraceStep(s, hash, ctx, h);
    } else {
      var kv :| kv in s.items && s.IsEntry(h, kv);
      EntryStep(s, hash, ctx, h, kv);
      var key := Normalize(s.mode, kv.key);
      NormalizeTwice(s.mode, kv.key);
      PutIsMapUpdate(hash, ctx.baggage, key, kv.value);
      PutShaped(hash, ctx.baggage, key, kv.value);
    }
  }

  lemma {:induction false} StepsClean(s: Sending, hash: HashFn, ctx: Context, hs: seq<KV>)
    requires s.Valid() && Clean(s, hash, ctx) && forall h :: h in hs ==> s.Allowed(h)
    ensures var p := Steps(s.mode, s.config, hash, ctx, hs); p.Going? ==> Clean(s, hash, p.ctx)
    decreases |hs|
  {
    hide Step, Contents, Inv;
    if hs != [] {
      StepClean(s, hash, ctx, hs[0]);
      var p := Step(s.mode, s.config, hash, ctx, hs[0]);
      if p.Going? {
        StepsClean(s, hash, p.ctx, hs[1..]);
      }
    }
  }

  /** A value with 0x7f in it stops an HTTP extraction wherever it comes. */
  lemma {:induction false} StepsStop(s: Sending, hash: HashFn, ctx: Context, hs: seq<KV>, h: KV, kv: KV)
    requires s.Valid() && Shaped(ctx.baggage) && h in hs && s.IsEntry(h, kv) && kv in s.items
    requires s.mode == Http && kv.key != [] && DEL in kv.value
    ensures !Steps(s.mode, s.config, hash, ctx, hs).Going?
    decreases |hs|
  {
    hide Step, Contents, Inv;
    StepShaped(s.mode, s.config, hash, ctx, hs[0]);
    if h == hs[0] {
      EntryStep(s, hash, ctx, h, kv);
    } else {
      assert h in hs[1..];
      var p := Step(s.mode, s.config, hash, ctx, hs[0]);
      if p.Going? {
        StepsStop(s, hash, p.ctx, hs[1..], h, kv);
      }
    }
  }

  lemma OnlyCarriedArrives(s: Sending, hash: HashFn, hs: seq<KV>, kv: KV)
    requires s.Valid() && s.Delivered(hs) && GivesBack(s, hash, Extract(s.mode, s.config, hash, hs)) && kv in s.items
    ensures s.Carries(kv)
  {
    hide Step, Steps, Contents, Inv, PutAll;
    EmptyClean(s, hash);
    StepsClean(s, hash, EmptyContext, hs);
    ItemLookup(s.items, kv);
    var h :| h in hs && s.IsEntry(h, kv);
    if kv.key != [] && s.mode == Http && DEL in kv.value {
      StepsStop(s, hash, EmptyContext, hs, h, kv);
    }
  }

  lemma EmptyClean(s: Sending, hash: HashFn)
    ensures Clean(s, hash, EmptyContext)
  {
    EmptyTable(hash, INIT_ORDER);
  }

  /**
    The context comes back from the headers it was injected into exactly when every baggage key is
    nonempty and, over HTTP, lower-case with a value free of 0x7f.
   */
  lemma {:induction false} HeadersComeBackIff(s: Sending, hash: HashFn, hs: seq<KV>)
    requires s.Valid() && s.Delivered(hs)
    ensures GivesBack(s, hash, Extract(s.mode, s.config, hash, hs)) <==> s.CarriesAll()
  {
    hide Extract, GivesBack;
    if s.CarriesAll() {
      AllArrives(s, hash, hs);
    }
    if GivesBack(s, hash, Extract(s.mode, s.config, hash, hs)) {
      forall kv | kv in s.items
        ensures s.Carries(kv)
      {
        OnlyCarriedArrives(s, hash, hs, kv);
      }
    }
  }

  /** The law for the table a context holds, under the default header names. */
  lemma {:induction false} HeaderRoundTrip(mode: Mode, hash: HashFn, other: HashFn, ids: Ids, t: Table, hs: seq<KV>)
    requires Inv(hash, t) && InRange(ids) && (forall kv :: kv in Items(t) ==> 0 !in kv.value)
    requires multiset(hs) == multiset(Inject(mode, DefaultConfig(), ids, Items(t)))
    requires ids.high != 0 || ids.low != 0 || Items(t) != []
    ensures var r := Extract(mode, DefaultConfig(), other, hs);
            (r.Extracted? && r.ctx.ids == ids && r.ctx.debugId == None && Inv(other, r.ctx.baggage)
             && Contents(r.ctx.baggage) == Contents(t))
            <==> Sending(mode, DefaultConfig(), ids, Items(t)).CarriesAll()
  {
    hide Extract, Inject, Inv, Items, DefaultConfig, Sending.Delivered;
    var s := Sending(mode, DefaultConfig(), ids, Items(t));
    DefaultConfigWellFormed(mode);
    ItemsDistinct(hash, t);
    PermutationDelivered(s, hs);
    HeadersComeBackIff(s, other, hs);
  }

  // ----- the debug header

  lemma DebugStep(mode: Mode, config: Config, hash: HashFn, ctx: Context, h: KV)
    requires Shaped(ctx.baggage) && Normalize(mode, h.key) == config.debug != config.trace && Decodable(mode, h.value)
    ensures Step(mode, config, hash, ctx, h) ==
            Going(ctx.(debugId := Some(DecodeValue(mode, h.value)), ids := ctx.ids.(flags := WithDebug(ctx.ids.flags))))
  {
    hide Put, PutAll, ScanContext, ParseMap;
  }

  lemma OneStep(mode: Mode, config: Config, hash: HashFn, ctx: Context, h: KV)
    requires Shaped(ctx.baggage)
    ensures Steps(mode, config, hash, ctx, [h]) == Step(mode, config, hash, ctx, h)
  {
    hide Step;
    StepShaped(mode, config, hash, ctx, h);
    assert [h][1..] == [];
    if Step(mode, config, hash, ctx, h).Going? {
      var mid := Step(mode, config, hash, ctx, h).ctx;
      assert Steps(mode, config, hash, mid, []) == Going(mid);
    }
  }

  lemma TwoSteps(mode: Mode, config: Config, hash: HashFn, ctx: Context, a: KV, b: KV)
    requires Shaped(ctx.baggage) && Step(mode, config, hash, ctx, a).Going?
    ensures var mid := Step(mode, config, hash, ctx, a).ctx;
            && Shaped(mid.baggage)
            && (Step(mode, config, hash, mid, b).Going? ==>
                  Steps(mode, config, hash, ctx, [a, b]) == Step(mode, config, hash, mid, b))
  {
    hide Step;
    StepShaped(mode, config, hash, ctx, a);
    var mid := Step(mode, config, hash, ctx, a).ctx;
    assert [a, b][1..] == [b] && [b][1..] == [];
    if Step(mode, config, hash, mid, b).Going? {
      StepShaped(mode, config, hash, mid, b);
      assert Steps(mode, config, hash, mid, [b]) == Steps(mode, config, hash, Step(mode, config, hash, mid, b).ctx, []);
    }
  }

  /**
    A debug header in front of the trace header has its flags overwritten: the order of the two
    makes no difference exactly when the trace header's flags have both bits already.
   */
  lemma {:induction false} DebugOrderIff(s: Sending, hash: HashFn, ctx: Context, h: KV, t: KV)
    requires WellFormed(s.mode, s.config) && InRange(s.ids) && Shaped(ctx.baggage) && s.IsTrace(t)
    requires Normalize(s.mode, h.key) == s.config.debug != s.config.trace && Decodable(s.mode, h.value)
    ensures Steps(s.mode, s.config, hash, ctx, [h, t]) == Steps(s.mode, s.config, hash, ctx, [t, h])
            <==> s.ids.flags % 4 == 3
  {
    hide Step, Steps, DecodeValue;
    var debugged := ctx.(debugId := Some(DecodeValue(s.mode, h.value)), ids := ctx.ids.(flags := WithDebug(ctx.ids.flags)));
    DebugStep(s.mode, s.config, hash, ctx, h);
    TraceStep(s, hash, debugged, t);
    TwoSteps(s.mode, s.config, hash, ctx, h, t);
    var traced := ctx.(ids := s.ids);
    TraceStep(s, hash, ctx, t);
    DebugStep(s.mode, s.config, hash, traced, h);
    TwoSteps(s.mode, s.config, hash, ctx, t, h);
  }
}
