/**
  The text-map and HTTP-header carriers of propagation.c as functions on header lists, and the
  law the two directions obey between them.
 */
module HeaderFormat {
  import opened Basics
  import opened TableSpec
  import opened CStrings
  import opened Uri
  import opened BinaryFormat
  import opened SpanText

  /** Text maps copy names and values; HTTP headers fold the case of names and percent-encode values. */
  datatype Mode = TextMap | Http

  datatype Config = Config(debug: Bytes, baggage: Bytes, trace: Bytes, prefix: Bytes)

  function Normalize(mode: Mode, key: Bytes): (r: Bytes)
    ensures |r| == |key|
  {
    if mode == Http then Lower(key) else key
  }

  function EncodeValue(mode: Mode, value: Bytes): Bytes { if mode == Http then EncodeUri(value) else value }

  /** The value as the C string its consumers see. */
  function DecodeValue(mode: Mode, value: Bytes): Bytes {
    CString(if mode == Http then DecodeUri(value) else value)
  }

  /** Whether decoding the value gets past the decoder's assertion. */
  predicate Decodable(mode: Mode, value: Bytes) { mode == Http ==> DEL !in DecodeUri(value) }

  // ----- injection

  function EntryHeader(mode: Mode, config: Config, kv: KV): KV {
    KV(config.prefix + kv.key, EncodeValue(mode, kv.value))
  }

  function EntryHeaders(mode: Mode, config: Config, items: seq<KV>): (r: seq<KV>)
    ensures |r| == |items| && forall i :: 0 <= i < |r| ==> r[i] == EntryHeader(mode, config, items[i])
  {
    seq(|items|, i requires 0 <= i < |items| => EntryHeader(mode, config, items[i]))
  }

  function TraceHeader(config: Config, ids: Ids): KV { KV(config.trace, FormatContext(ids)) }

  function Inject(mode: Mode, config: Config, ids: Ids, items: seq<KV>): seq<KV> {
    [TraceHeader(config, ids)] + EntryHeaders(mode, config, items)
  }

  // ----- key=value,key=value

  const EQUALS: byte := '=' as int
  const COMMA: byte := ',' as int

  function ParsePair(s: Bytes): Option<KV> {
    match Strtok(s, EQUALS)
    case NoToken => None
    case Token(key, rest) =>
      match Strtok(rest, EQUALS)
      case NoToken => None
      case Token(value, _) => Some(KV(key, value))
  }

  function ParseMap(s: Bytes): Option<seq<KV>>
    decreases |s|
  {
    match Strtok(s, COMMA)
    case NoToken => Some([])
    case Token(pair, rest) =>
      match (ParsePair(pair), ParseMap(rest))
      case (Some(kv), Some(more)) => Some([kv] + more)
      case _ => None
  }

  function PrintPair(kv: KV): Bytes { kv.key + [EQUALS] + kv.value }

  function PrintMap(items: seq<KV>): Bytes {
    if items == [] then []
    else if |items| == 1 then PrintPair(items[0])
    else PrintPair(items[0]) + [COMMA] + PrintMap(items[1..])
  }

  predicate Field(s: Bytes) { s != [] && EQUALS !in s && COMMA !in s }

  lemma ParsePairBack(kv: KV)
    requires Field(kv.key) && Field(kv.value)
    ensures ParsePair(PrintPair(kv)) == Some(kv)
  {
    StrtokFront(kv.key, kv.value, EQUALS);
    StrtokFront(kv.value, [], EQUALS);
  }

  lemma ParseMapStep(s: Bytes, pair: Bytes, rest: Bytes)
    requires Strtok(s, COMMA) == Token(pair, rest) && ParsePair(pair).Some? && ParseMap(rest).Some?
    ensures ParseMap(s) == Some([ParsePair(pair).value] + ParseMap(rest).value)
  {
  }

  lemma PrintMapStep(items: seq<KV>)
    requires items != []
    ensures var pair, rest := PrintPair(items[0]), PrintMap(items[1..]);
            PrintMap(items) == if |items| == 1 then pair else pair + [COMMA] + rest
    ensures |items| == 1 ==> PrintMap(items[1..]) == []
  {
    hide PrintPair;
  }

  /** Pairs whose parts are nonempty and hold no separator are parsed back. */
  lemma {:induction false} ParseMapBack(items: seq<KV>)
    requires forall kv :: kv in items ==> Field(kv.key) && Field(kv.value)
    ensures ParseMap(PrintMap(items)) == Some(items)
    decreases |items|
  {
    hide ParseMap, ParsePair, PrintMap, Strtok;
    if items == [] {
      NoPairs();
    } else {
      var pair, rest := PrintPair(items[0]), PrintMap(items[1..]);
      assert items[0] in items;
      ParsePairBack(items[0]);
      PrintMapStep(items);
      StrtokFront(pair, rest, COMMA);
      ParseMapBack(items[1..]);
      ParseMapStep(PrintMap(items), pair, rest);
      assert [items[0]] + items[1..] == items;
    }
  }

  lemma ParsedPair(s: Bytes)
    requires COMMA !in s && ParsePair(s).Some?
    ensures Field(ParsePair(s).value.key) && Field(ParsePair(s).value.value)
  {
    hide Strtok;
    StrtokChars(s, EQUALS);
    StrtokChars(Strtok(s, EQUALS).rest, EQUALS);
  }

  lemma {:induction false} ParsedMap(s: Bytes)
    ensures ParseMap(s).Some? ==> forall kv :: kv in ParseMap(s).value ==> Field(kv.key) && Field(kv.value)
    decreases |s|
  {
    hide Strtok, ParsePair;
    var t := Strtok(s, COMMA);
    if ParseMap(s).Some? && t.Token? {
      ParsedPair(t.text);
      ParsedMap(t.rest);
    }
  }

  /** A list of pairs comes back from its text exactly when every part is a field. */
  lemma {:induction false} PairsComeBackIff(items: seq<KV>)
    ensures ParseMap(PrintMap(items)) == Some(items) <==> forall kv :: kv in items ==> Field(kv.key) && Field(kv.value)
  {
    hide ParseMap, PrintMap;
    ParsedMap(PrintMap(items));
    if forall kv :: kv in items ==> Field(kv.key) && Field(kv.value) {
      ParseMapBack(items);
    }
  }

  lemma NoPairs()
    ensures ParseMap(PrintMap([])) == Some([])
  {
  }

  // ----- extraction

  datatype Context = Context(ids: Ids, debugId: Option<Bytes>, baggage: Table)

  const EmptyContext: Context := Context(Ids(0, 0, 0, 0), None, InitTable)

  datatype Progress = Going(ctx: Context) | Corrupt | Aborts

  /** The debug and sampled bits set. */
  function WithDebug(flags: byte): byte { flags - flags % 4 + 3 }

  predicate IsEntryName(config: Config, name: Bytes) { |name| > |config.prefix| && config.prefix <= name }

  predicate Relevant(config: Config, name: Bytes) {
    name == config.trace || name == config.debug || name == config.baggage || IsEntryName(config, name)
  }

  /** The callback for one header whose normalized name and decoded value are given. */
  function Accept(config: Config, hash: HashFn, ctx: Context, name: Bytes, value: Bytes): Progress
    requires Shaped(ctx.baggage)
  {
    if name == config.trace then
      match ScanContext(value)
      case None => Corrupt
      case Some(ids) => Going(ctx.(ids := ids))
    else if name == config.debug then
      Going(ctx.(debugId := Some(value), ids := ctx.ids.(flags := WithDebug(ctx.ids.flags))))
    else if name == config.baggage then
      match ParseMap(value)
      case None => Corrupt
      case Some(items) => Going(ctx.(baggage := PutAll(hash, ctx.baggage, items)))
    else if IsEntryName(config, name) then
      Going(ctx.(baggage := Put(hash, ctx.baggage, name[|config.prefix|..], value)))
    else Going(ctx)
  }

  function Step(mode: Mode, config: Config, hash: HashFn, ctx: Context, h: KV): Progress
    requires Shaped(ctx.baggage)
  {
    var name := Normalize(mode, h.key);
    if !Relevant(config, name) then Going(ctx)
    else if !Decodable(mode, h.value) then Aborts
    else Accept(config, hash, ctx, name, DecodeValue(mode, h.value))
  }

  lemma StepShaped(mode: Mode, config: Config, hash: HashFn, ctx: Context, h: KV)
    requires Shaped(ctx.baggage)
    ensures Step(mode, config, hash, ctx, h).Going? ==> Shaped(Step(mode, config, hash, ctx, h).ctx.baggage)
  {
    hide Put;
    var name := Normalize(mode, h.key);
    if IsEntryName(config, name) {
      PutShaped(hash, ctx.baggage, name[|config.prefix|..], DecodeValue(mode, h.value));
    }
  }

  function Steps(mode: Mode, config: Config, hash: HashFn, ctx: Context, hs: seq<KV>): (r: Progress)
    requires Shaped(ctx.baggage)
    decreases |hs|
  {
    if hs == [] then Going(ctx)
    else
      StepShaped(mode, config, hash, ctx, hs[0]);
      var p := Step(mode, config, hash, ctx, hs[0]);
      if p.Going? then Steps(mode, config, hash, p.ctx, hs[1..]) else p
  }

  /** NoContext is success with a null context. */
  datatype Extraction = NoContext | Extracted(ctx: Context) | Rejected | Crashed

  predicate IsEmpty(ctx: Context) {
    ctx.ids.high == 0 && ctx.ids.low == 0 && ctx.debugId == None && ctx.baggage.size == 0
  }

  function Extract(mode: Mode, config: Config, hash: HashFn, hs: seq<KV>): Extraction {
    match Steps(mode, config, hash, EmptyContext, hs)
    case Corrupt => Rejected
    case Aborts => Crashed
    case Going(ctx) => if IsEmpty(ctx) then NoContext else Extracted(ctx)
  }
}
