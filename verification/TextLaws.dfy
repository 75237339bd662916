/** What strtoull and the span context parser accept, and what the printer prints, independently of the two. */
module TextLaws {
  import opened Basics
  import opened CStrings
  import opened BinaryFormat
  import opened SpanText

  // ----- numbers

  /** Blanks up to b, a sign up to g, 0x up to x, and nothing but digits from there. */
  predicate Parts(s: Bytes, b: int, g: int, x: int) {
    && 0 <= b <= g <= x < |s| && (forall i :: 0 <= i < b ==> IsSpace(s[i]))
    && (g == b || (g == b + 1 && (s[b] == '+' as int || s[b] == '-' as int)))
    && (x == g || (x == g + 2 && s[g] == ZERO && (s[g + 1] == 'x' as int || s[g + 1] == 'X' as int)))
    && AllHex(s[x..])
  }

  ghost predicate IsNumber(s: Bytes) { exists b, g, x :: Parts(s, b, g, x) }

  lemma {:induction false} SkipSpaceIs(s: Bytes, b: nat)
    requires b <= |s| && (forall i :: 0 <= i < b ==> IsSpace(s[i])) && (b < |s| ==> !IsSpace(s[b]))
    ensures SkipSpace(s) == b
  {
    if b > 0 {
      SkipSpaceIs(s[1..], b - 1);
    }
  }

  lemma {:induction false} SkipSpaceSpaces(s: Bytes)
    ensures forall i :: 0 <= i < SkipSpace(s) ==> IsSpace(s[i])
  {
    if s != [] && IsSpace(s[0]) {
      SkipSpaceSpaces(s[1..]);
      assert forall i :: 0 < i < SkipSpace(s) ==> s[i] == s[1..][i - 1];
    }
  }

  lemma FirstDigit(s: Bytes, x: nat)
    requires x < |s| && AllHex(s[x..])
    ensures forall i :: x <= i < |s| ==> DecodeHex(s[i]).Some?
  {
    assert forall i :: x <= i < |s| ==> s[i] == s[x..][i - x];
  }

  lemma PartsStart(s: Bytes, b: nat, g: nat, x: nat)
    requires Parts(s, b, g, x)
    ensures DigitsAt(s) == x && (IsNegative(s) <==> g > b && s[b] == '-' as int)
  {
    FirstDigit(s, x);
    assert DecodeHex(s[x]).Some?;
    assert !IsSpace(s[b]);
    SkipSpaceIs(s, b);
    assert s[b..][0] == s[b];
    assert HasSign(s[b..]) <==> g == b + 1;
    assert s[g..][0] == s[g];
    if x == g + 2 {
      assert s[g..][1] == s[g + 1] && s[g..][2] == s[x];
    } else if |s| > g + 1 {
      assert s[g..][1] == s[g + 1] && DecodeHex(s[g + 1]).Some?;
    }
    assert HasHexMark(s[g..]) <==> x == g + 2;
  }

  /** A number is read whole, with its sign, modulo saturation. */
  lemma {:induction false} NumberRead(s: Bytes, b: nat, g: nat, x: nat)
    requires Parts(s, b, g, x)
    ensures ScanWord(s) == Some(Magnitude(g > b && s[b] == '-' as int, HexNumber(s[x..])))
  {
    hide AllHex, HexPrefix, HexNumber, DigitsAt, IsNegative;
    PartsStart(s, b, g, x);
    HexPrefixAll(s[x..]);
    assert s[x..][..|s| - x] == s[x..];
  }

  /** And nothing else is, but for the empty string, which counts as zero. */
  lemma {:induction false} ScanWordIff(s: Bytes)
    ensures ScanWord(s).Some? <==> s == [] || IsNumber(s)
  {
    if IsNumber(s) {
      var b, g, x :| Parts(s, b, g, x);
      NumberRead(s, b, g, x);
    }
    if ScanWord(s).Some? && s != [] {
      SkipSpaceSpaces(s);
      var b := SkipSpace(s);
      var g := b + if HasSign(s[b..]) then 1 else 0;
      var x := DigitsAt(s);
      assert HexPrefix(s[x..]) == |s[x..]| && s[x..][..|s[x..]|] == s[x..];
      assert Parts(s, b, g, x);
    }
  }

  // ----- the three fields

  ghost predicate IsTraceId(s: Bytes) {
    |s| <= 32 && if |s| > 16 then IsNumber(s[..|s| - 16]) && IsNumber(s[|s| - 16..]) else IsNumber(s)
  }

  lemma {:induction false} ScanTraceIdIff(s: Bytes)
    requires s != []
    ensures ScanTraceId(s).Some? <==> IsTraceId(s)
  {
    hide ScanWord, IsNumber;
    if |s| > 16 {
      ScanWordIff(s[..|s| - 16]);
      ScanWordIff(s[|s| - 16..]);
    } else {
      ScanWordIff(s);
      assert s[0..] == s;
    }
  }

  /** Three fields are accepted exactly if each is a number and the first is not too long. */
  lemma {:induction false} ScanContextIff(a: Bytes, b: Bytes, c: Bytes)
    requires a != [] && b != [] && c != [] && COLON !in a && COLON !in b && COLON !in c
    ensures ScanContext(a + ([COLON] + b + [COLON] + c)).Some? <==> IsTraceId(a) && IsNumber(b) && IsNumber(c)
  {
    hide ScanWord, ScanTraceId, Strtok, IsNumber, IsTraceId;
    TokensBack(a, b, c);
    ScanTraceIdIff(a);
    ScanWordIff(b);
    ScanWordIff(c);
  }

  /** The number the digits stand for, or the largest of 64 bits. */
  function Saturated(digits: Bytes): nat
    requires AllHex(digits)
  {
    if HexNumber(digits) > ULLONG_MAX then ULLONG_MAX else HexNumber(digits)
  }

  lemma ScanDigits(s: Bytes)
    requires s != [] && AllHex(s)
    ensures ScanWord(s) == Some(Saturated(s)) && COLON !in s
  {
    hide Strtoull, HexNumber;
    StrtoullHex(s);
    assert forall i :: 0 <= i < |s| ==> DecodeHex(s[i]).Some?;
  }

  lemma HexParts(s: Bytes, k: nat)
    requires AllHex(s) && k <= |s|
    ensures AllHex(s[..k]) && AllHex(s[k..])
  {
  }

  /** Fields of digits: the last 16 of the first are the low half, and the flags are cut to a byte. */
  lemma {:induction false} ScanContextValue(a: Bytes, b: Bytes, c: Bytes)
    requires a != [] && b != [] && c != [] && AllHex(a) && AllHex(b) && AllHex(c) && |a| <= 32
    ensures var k := if |a| > 16 then |a| - 16 else 0;
            AllHex(a[..k]) && AllHex(a[k..]) &&
            ScanContext(a + ([COLON] + b + [COLON] + c)) ==
            Some(Ids(if k > 0 then Saturated(a[..k]) else 0, Saturated(a[k..]), Saturated(b), Saturated(c) % 256))
  {
    hide ScanWord, AllHex, Strtok, Saturated;
    var k := if |a| > 16 then |a| - 16 else 0;
    HexParts(a, k);
    assert a[0..] == a;
    if k > 0 {
      ScanDigits(a[..k]);
    }
    ScanDigits(a);
    ScanDigits(a[k..]);
    ScanDigits(b);
    ScanDigits(c);
    TokensBack(a, b, c);
  }

  /** A minus sign makes the two's complement of a number that fits. */
  lemma {:induction false} MinusWraps(v: nat)
    ensures 0 < v <= ULLONG_MAX ==> Magnitude(true, v) + v == TWO_64
    ensures v > ULLONG_MAX ==> Magnitude(true, v) == ULLONG_MAX
    ensures Magnitude(true, 0) == 0
  {
  }

  /** What follows a third colon is ignored. */
  lemma {:induction false} FourthIgnored(a: Bytes, b: Bytes, c: Bytes, rest: Bytes)
    requires a != [] && b != [] && c != [] && COLON !in a && COLON !in b && COLON !in c
    ensures ScanContext(a + ([COLON] + b + [COLON] + (c + [COLON] + rest))) == ScanContext(a + ([COLON] + b + [COLON] + c))
  {
    hide ScanWord, ScanTraceId, Strtok;
    TokensBack(a, b, c);
    var tail := c + [COLON] + rest;
    StrtokFront(a, b + [COLON] + tail, COLON);
    StrtokFront(b, tail, COLON);
    StrtokFront(c, rest, COLON);
    assert a + ([COLON] + b + [COLON] + tail) == a + [COLON] + (b + [COLON] + tail);
  }

  /** Two fields are not enough. */
  lemma {:induction false} TooFewFields(a: Bytes, b: Bytes)
    requires a != [] && b != [] && COLON !in a && COLON !in b
    ensures ScanContext(a) == None && ScanContext(a + [COLON] + b) == None
  {
    hide ScanWord, ScanTraceId, Strtok;
    StrtokFront(a, b, COLON);
    StrtokFront(b, [], COLON);
    NothingToken();
  }

  lemma NothingToken()
    ensures Strtok([], COLON) == NoToken
  {
  }

  // ----- what is printed

  /** No leading zeros. */
  lemma {:induction false} ToHexNoLeadingZero(n: nat)
    ensures ToHex(n)[0] == ZERO <==> n == 0
  {
    if n >= 16 {
      ToHexNoLeadingZero(n / 16);
    }
  }

  lemma ToHexStep(n: nat)
    ensures n < 16 ==> ToHex(n) == [EncodeHex(n)]
    ensures n >= 16 ==> ToHex(n) == ToHex(n / 16) + [EncodeHex(n % 16)]
  {
  }

  lemma FixedHexStep(n: nat, w: nat)
    ensures FixedHex(n, 0) == []
    ensures w > 0 ==> FixedHex(n, w) == FixedHex(n / 16, w - 1) + [EncodeHex(n % 16)]
  {
  }

  lemma ToHexDigit(q: nat, d: nat)
    requires q > 0 && d < 16
    ensures ToHex(16 * q + d) == ToHex(q) + [EncodeHex(d)]
  {
    hide ToHex;
    assert (16 * q + d) / 16 == q && (16 * q + d) % 16 == d;
    ToHexStep(16 * q + d);
  }

  lemma SplitDigit(front: nat, p: nat, n: nat)
    requires front > 0 && p > 0
    ensures front * (16 * p) + n == 16 * (front * p + n / 16) + n % 16 && front * p > 0
  {
    assert front * (16 * p) == 16 * (front * p);
  }

  /** A number of more than w digits is printed as its front and w padded digits. */
  lemma {:induction false} ToHexSplit(front: nat, n: nat, w: nat)
    requires front > 0 && n < Pow16(w)
    ensures ToHex(front * Pow16(w) + n) == ToHex(front) + FixedHex(n, w)
    decreases w
  {
    hide ToHex, FixedHex;
    FixedHexStep(n, w);
    if w == 0 {
      assert ToHex(front) + [] == ToHex(front);
    } else {
      var p := Pow16(w - 1);
      SplitDigit(front, p, n);
      ToHexSplit(front, n / 16, w - 1);
      ToHexDigit(front * p + n / 16, n % 16);
    }
  }

  /** A trace id is printed as one 128-bit number. */
  lemma {:induction false} TraceIdIsOneNumber(high: nat, low: nat)
    requires low < TWO_64
    ensures FormatTraceId(high, low) == ToHex(high * TWO_64 + low)
  {
    hide ToHex, FixedHex, Pow16;
    WordDigits();
    if high > 0 {
      ToHexSplit(high, low, 16);
    }
  }

  /** No field of the text begins with a zero unless it is zero. */
  lemma {:induction false} FieldsAreMinimal(ids: Ids)
    requires InRange(ids)
    ensures var id, span, flags := ToHex(ids.high * TWO_64 + ids.low), ToHex(ids.span), ToHex(ids.flags);
            && FormatContext(ids) == id + ([COLON] + span + [COLON] + flags)
            && (id[0] == ZERO <==> ids.high == 0 && ids.low == 0)
            && (span[0] == ZERO <==> ids.span == 0) && (flags[0] == ZERO <==> ids.flags == 0)
  {
    hide ToHex, FixedHex, Pow16, Range;
    WordDigits();
    TraceIdIsOneNumber(ids.high, ids.low);
    ToHexNoLeadingZero(ids.high * TWO_64 + ids.low);
    ToHexNoLeadingZero(ids.span);
    ToHexNoLeadingZero(ids.flags);
  }

  /** Most significant digit first. */
  lemma {:induction false} TwoDigits(a: nat, b: nat)
    requires 0 < a < 16 && b < 16
    ensures ToHex(16 * a + b) == [DIGITS[a] as int, DIGITS[b] as int]
  {
    hide ToHex;
    DigitWritten(a);
    DigitWritten(b);
    ToHexDigit(a, b);
    ToHexStep(a);
  }

  lemma DigitWritten(n: nat)
    requires n < 16
    ensures EncodeHex(n) == DIGITS[n] as int
  {
  }
}
