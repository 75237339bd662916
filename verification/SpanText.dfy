/** The trace:span:flags text of a span context: trace_id.c and the printer and parser of span.c. */
module SpanText {
  import opened Basics
  import opened CStrings
  import opened Uri
  import opened BinaryFormat
  import opened Allocation
  import opened Contexts

  const UINT64_MAX_STR_LEN: nat := 16
  const SPAN_CONTEXT_MAX_STR_LEN: nat := 2 * UINT64_MAX_STR_LEN + 21

  // ----- printing

  /** As %x prints. */
  function ToHex(n: nat): (s: Bytes)
    ensures s != [] && AllHex(s) && HexNumber(s) == n
    ensures forall c :: c in s ==> IsHexDigit(c)
  {
    if n < 16 then
      assert [EncodeHex(n)][..0] == [];
      [EncodeHex(n)]
    else
      var front := ToHex(n / 16);
      var s := front + [EncodeHex(n % 16)];
      assert s[..|s| - 1] == front;
      s
  }

  /** As %0wx prints a number of at most w digits. */
  function FixedHex(n: nat, w: nat): (s: Bytes)
    ensures |s| == w && AllHex(s)
    ensures forall c :: c in s ==> IsHexDigit(c)
  {
    if w == 0 then [] else FixedHex(n / 16, w - 1) + [EncodeHex(n % 16)]
  }

  predicate IsHexDigit(c: byte) { IsDigit(c) || 'a' as int <= c <= 'f' as int }

  function Pow16(w: nat): (p: nat)
    ensures p >= 1
  {
    if w == 0 then 1 else 16 * Pow16(w - 1)
  }

  lemma {:induction false} ToHexLength(n: nat, w: nat)
    requires w >= 1 && n < Pow16(w)
    ensures |ToHex(n)| <= w
  {
    if n >= 16 {
      ToHexLength(n / 16, w - 1);
    }
  }

  lemma HexNumberSnoc(front: Bytes, d: nat)
    requires AllHex(front) && d < 16
    ensures AllHex(front + [EncodeHex(d)]) && HexNumber(front + [EncodeHex(d)]) == 16 * HexNumber(front) + d
  {
    var s := front + [EncodeHex(d)];
    assert s[..|s| - 1] == front;
  }

  lemma {:induction false} FixedHexNumber(n: nat, w: nat)
    requires n < Pow16(w)
    ensures HexNumber(FixedHex(n, w)) == n
  {
    if w > 0 {
      FixedHexNumber(n / 16, w - 1);
      HexNumberSnoc(FixedHex(n / 16, w - 1), n % 16);
    }
  }

  lemma WordDigits()
    ensures Pow16(16) == TWO_64 == Range(8) && Pow16(2) == 256
  {
    assert Range(2) == 65536 && Range(4) == TWO_32 && Range(6) == 65536 * TWO_32;
    assert Pow16(4) == 65536 && Pow16(8) == TWO_32 && Pow16(12) == 65536 * TWO_32;
  }

  function FormatTraceId(high: nat, low: nat): Bytes {
    if high == 0 then ToHex(low) else ToHex(high) + FixedHex(low, UINT64_MAX_STR_LEN)
  }

  function FormatTail(span: nat, flags: byte): Bytes { [COLON] + ToHex(span) + [COLON] + ToHex(flags) }

  function FormatContext(ids: Ids): Bytes { FormatTraceId(ids.high, ids.low) + FormatTail(ids.span, ids.flags) }

  // ----- scanning

  datatype TraceId = TraceId(high: nat, low: nat)

  function ScanWord(s: Bytes): (r: Option<nat>)
    ensures r.Some? ==> r.value <= ULLONG_MAX
  {
    var n := Strtoull(s);
    if n.end < |s| then None else Some(n.value)
  }

  function ScanTraceId(s: Bytes): (r: Option<TraceId>)
    ensures r.Some? ==> r.value.high <= ULLONG_MAX && r.value.low <= ULLONG_MAX
  {
    if |s| > 2 * UINT64_MAX_STR_LEN then None
    else
      var split := if |s| > UINT64_MAX_STR_LEN then |s| - UINT64_MAX_STR_LEN else 0;
      match (if split > 0 then ScanWord(s[..split]) else Some(0), ScanWord(s[split..]))
      case (Some(high), Some(low)) => Some(TraceId(high, low))
      case _ => None
  }

  /** Three tokens; anything after the third is ignored, and only the low byte of the flags counts. */
  function ScanContext(s: Bytes): Option<Ids> {
    match Strtok(s, COLON)
    case NoToken => None
    case Token(t0, r0) =>
      match Strtok(r0, COLON)
      case NoToken => None
      case Token(t1, r1) =>
        match Strtok(r1, COLON)
        case NoToken => None
        case Token(t2, _) =>
          match (ScanTraceId(t0), ScanWord(t1), ScanWord(t2))
          case (Some(id), Some(span), Some(flags)) => Some(Ids(id.high, id.low, span, flags % 256))
          case _ => None
  }

  // ----- the round trip

  lemma ScanHex(n: nat)
    requires n <= ULLONG_MAX
    ensures ScanWord(ToHex(n)) == Some(n)
  {
    StrtoullHex(ToHex(n));
  }

  lemma {:induction false} ScanTraceIdBack(high: nat, low: nat)
    requires high < Range(8) && low < Range(8)
    ensures ScanTraceId(FormatTraceId(high, low)) == Some(TraceId(high, low))
    ensures |FormatTraceId(high, low)| <= 32
  {
    hide ToHex, FixedHex, HexNumber, AllHex, Strtoull, Pow16, Range;
    WordDigits();
    ToHexLength(high, 16);
    ToHexLength(low, 16);
    ScanHex(high);
    ScanHex(low);
    FixedHexNumber(low, 16);
    var s := FormatTraceId(high, low);
    if high == 0 {
      assert s[0..] == s;
    } else {
      assert s[..|s| - 16] == ToHex(high) && s[|s| - 16..] == FixedHex(low, 16);
      StrtoullHex(FixedHex(low, 16));
    }
  }

  lemma FormatHasNoColon(high: nat, low: nat)
    ensures FormatTraceId(high, low) != [] && forall c :: c in FormatTraceId(high, low) ==> IsHexDigit(c)
  {
  }

  lemma TokensBack(a: Bytes, b: Bytes, c: Bytes)
    requires a != [] && b != [] && c != [] && COLON !in a && COLON !in b && COLON !in c
    ensures Strtok(a + ([COLON] + b + [COLON] + c), COLON) == Token(a, b + [COLON] + c)
    ensures Strtok(b + [COLON] + c, COLON) == Token(b, c)
    ensures Strtok(c, COLON) == Token(c, [])
  {
    hide Strtok;
    StrtokFront(a, b + [COLON] + c, COLON);
    StrtokFront(b, c, COLON);
    StrtokFront(c, [], COLON);
    assert a + ([COLON] + b + [COLON] + c) == a + [COLON] + (b + [COLON] + c);
  }

  /** Every identity in range is scanned back from its text, which has at most 52 characters. */
  lemma {:induction false} ScanFormat(ids: Ids)
    requires InRange(ids)
    ensures ScanContext(FormatContext(ids)) == Some(ids)
    ensures |FormatContext(ids)| <= 52 <= SPAN_CONTEXT_MAX_STR_LEN
  {
    hide ToHex, FormatTraceId, ScanTraceId, ScanWord, Strtok, Pow16, Range, AllHex, HexNumber;
    WordDigits();
    ScanTraceIdBack(ids.high, ids.low);
    FormatHasNoColon(ids.high, ids.low);
    ScanHex(ids.span);
    ScanHex(ids.flags);
    ToHexLength(ids.span, 16);
    ToHexLength(ids.flags, 2);
    TokensBack(FormatTraceId(ids.high, ids.low), ToHex(ids.span), ToHex(ids.flags));
  }

  /** URI decoding leaves the text alone, and it is a C string. */
  lemma {:induction false} FormatIsPlain(ids: Ids)
    ensures DecodeUri(FormatContext(ids)) == FormatContext(ids)
    ensures 0 !in FormatContext(ids) && DEL !in FormatContext(ids)
  {
    var s := FormatContext(ids);
    FormatHasNoColon(ids.high, ids.low);
    assert forall c :: c in s ==> IsHexDigit(c) || c == COLON;
    DecodePlain(s);
  }

  // ----- printing into a buffer

  /** The buffer holds, as a C string, as much of the text as its length allows. */
  ghost predicate Holds(buffer: array<byte>, len: nat, text: Bytes)
    requires len <= buffer.Length
    reads buffer
  {
    len > 0 ==>
      var m := if |text| < len then |text| else len - 1;
      buffer[..m] == text[..m] && buffer[m] == 0
  }

  /** snprintf of the given text at an offset. */
  method Snprintf(buffer: array<byte>, at: nat, len: nat, text: Bytes) returns (n: nat)
    requires at <= len <= buffer.Length
    modifies buffer
    ensures n == |text|
    ensures buffer[..at] == old(buffer[..at])
    ensures len == at ==> buffer[..] == old(buffer[..])
    ensures len > at ==> Holds(buffer, len, old(buffer[..at]) + text)
  {
    n := |text|;
    if len > at {
      var m := if at + |text| < len then |text| else len - 1 - at;
      forall i | 0 <= i < m {
        buffer[at + i] := text[i];
      }
      buffer[at + m] := 0;
      assert buffer[..at + m] == old(buffer[..at]) + text[..m];
      assert (old(buffer[..at]) + text)[..at + m] == old(buffer[..at]) + text[..m];
    }
  }

  method TraceIdFormat(id: TraceId, buffer: array<byte>, len: nat) returns (n: nat)
    requires len <= buffer.Length
    modifies buffer
    ensures n == |FormatTraceId(id.high, id.low)|
    ensures Holds(buffer, len, FormatTraceId(id.high, id.low))
  {
    if id.high == 0 {
      n := Snprintf(buffer, 0, len, ToHex(id.low));
    } else {
      n := Snprintf(buffer, 0, len, ToHex(id.high) + FixedHex(id.low, UINT64_MAX_STR_LEN));
    }
    assert [] + FormatTraceId(id.high, id.low) == FormatTraceId(id.high, id.low);
  }

  /**
    As much of the text as fits is written, whatever the buffer's length.  The result is the
    length of the whole text only when not even the trace id fits; otherwise it leaves the trace
    id out of the count.
   */
  method SpanContextFormat(ctx: SpanContext, buffer: array<byte>, len: nat) returns (n: nat)
    requires len <= buffer.Length
    modifies buffer
    ensures Holds(buffer, len, FormatContext(ctx.Identity()))
    ensures var whole, id := |FormatContext(ctx.Identity())|, |FormatTraceId(ctx.high, ctx.low)|;
            n == (if id > len then whole else whole - id) && id > 0
  {
    hide ToHex, FormatTraceId;
    var text := FormatTail(ctx.span, ctx.flags);
    ghost var id := FormatTraceId(ctx.high, ctx.low);
    FormatHasNoColon(ctx.high, ctx.low);
    var idLen := TraceIdFormat(TraceId(ctx.high, ctx.low), buffer, len);
    if idLen > len {
      assert len > 0 ==> (id + text)[..len - 1] == id[..len - 1];
      return idLen + |text|;
    }
    if idLen < len {
      assert buffer[..idLen] == id;
    } else {
      assert len > 0 && (id + text)[..len - 1] == id[..len - 1];
    }
    n := Snprintf(buffer, idLen, len, text);
  }

  // ----- scanning with strtok_r

  /** What the i-th token sets. */
  function Assign(i: nat, token: Bytes, acc: Ids): Option<Ids> {
    if i == 0 then
      match ScanTraceId(token)
      case None => None
      case Some(id) => Some(acc.(high := id.high, low := id.low))
    else
      match ScanWord(token)
      case None => None
      case Some(n) => Some(if i == 1 then acc.(span := n) else acc.(flags := n % 256))
  }

  function ScanFrom(i: nat, rest: Bytes, acc: Ids): Option<Ids>
    decreases 3 - i
  {
    if i >= 3 then Some(acc)
    else
      match Strtok(rest, COLON)
      case NoToken => None
      case Token(token, more) =>
        match Assign(i, token, acc)
        case None => None
        case Some(acc') => ScanFrom(i + 1, more, acc')
  }

  /** Token by token or all at once, scanning is the same. */
  lemma {:induction false} ScanFromStart(s: Bytes)
    ensures ScanFrom(0, s, Ids(0, 0, 0, 0)) == ScanContext(s)
  {
    hide Strtok, ScanTraceId, ScanWord;
    var zero := Ids(0, 0, 0, 0);
    var first := Strtok(s, COLON);
    if first.Token? && Assign(0, first.text, zero).Some? {
      var acc := Assign(0, first.text, zero).value;
      var second := Strtok(first.rest, COLON);
      if second.Token? && Assign(1, second.text, acc).Some? {
        var acc' := Assign(1, second.text, acc).value;
        assert ScanFrom(0, s, zero) == ScanFrom(1, first.rest, acc) == ScanFrom(2, second.rest, acc');
      }
    }
  }

  method TraceIdScan(str: Bytes) returns (id: Option<TraceId>)
    ensures id == ScanTraceId(str)
  {
    hide Strtoull;
    var len := |str|;
    if len > 2 * UINT64_MAX_STR_LEN {
      return None;
    }
    var high := 0;
    var rest := str;
    if len > UINT64_MAX_STR_LEN {
      var lowStart := len - UINT64_MAX_STR_LEN;
      var number := Strtoull(str[..lowStart]);
      if number.end < lowStart {
        return None;
      }
      high := number.value;
      rest := str[lowStart..];
    } else {
      assert str[0..] == str;
    }
    var number := Strtoull(rest);
    if number.end < |rest| {
      return None;
    }
    id := Some(TraceId(high, number.value));
  }

  /** The switch of the loop: the i-th token, read and checked to its end. */
  method TakeToken(i: nat, token: Bytes, acc: Ids) returns (next: Option<Ids>)
    requires i < 3
    ensures next == Assign(i, token, acc)
  {
    hide Strtoull, ScanTraceId;
    if i == 0 {
      var id := TraceIdScan(token);
      return if id == None then None else Some(acc.(high := id.value.high, low := id.value.low));
    }
    var number := Strtoull(token);
    if number.end < |token| {
      return None;
    }
    next := Some(if i == 1 then acc.(span := number.value) else acc.(flags := number.value % 256));
  }

  /** Only a string that scans changes the context, and unless memory runs out every such string does. */
  method SpanContextScan(ctx: SpanContext, str: Bytes, m: Memory) returns (ok: bool, left: Memory)
    modifies ctx`high, ctx`low, ctx`span, ctx`flags
    ensures left == Allocation.After(m, 1) && (ok <==> Enough(m, 1) && ScanContext(str).Some?)
    ensures ok ==> ScanContext(str) == Some(ctx.Identity())
    ensures !ok ==> ctx.Identity() == old(ctx.Identity())
  {
    hide Strtok, Assign, ScanContext, Enough, Allocation.After;
    ok, left := Alloc(m);  // strdup
    if !ok {
      return;
    }
    ScanFromStart(str);
    var rest := str;
    var acc := Ids(0, 0, 0, 0);
    for i := 0 to 4
      invariant ScanFrom(i, rest, acc) == ScanContext(str) && ctx.Identity() == old(ctx.Identity())
    {
      var token := Strtok(rest, COLON);
      if token == NoToken && i != 3 {
        return false, left;
      }
      if i < 3 {
        var next := TakeToken(i, token.text, acc);
        if next == None {
          return false, left;
        }
        acc := next.value;
      }
      if token.Token? {
        rest := token.rest;
      }
    }
    ctx.high, ctx.low, ctx.span, ctx.flags := acc.high, acc.low, acc.span, acc.flags;
    ok := true;
  }
}
