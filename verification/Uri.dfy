/**
  Percent-encoding of header values (section 2.1 of RFC 3986).  The decoder of strings.h is a
  three-state loop that passes malformed escapes through; it is proved against a definition by
  cases on the front of the string, and against the encoder it inverts.
 */
module Uri {
  import opened Basics
  import opened CStrings

  const DEL: byte := 0x7f

  // ----- what decoding means

  function Escaped(high: nat, low: nat): byte
    requires high < 16 && low < 16
  {
    16 * high + low
  }

  /** How many bytes the front unit of s has, and what it becomes. */
  function UnitLength(s: Bytes): (n: nat)
    requires s != []
    ensures 1 <= n <= |s|
  {
    if s[0] != PERCENT || |s| == 1 then 1
    else if DecodeHex(s[1]) == None || |s| == 2 then 2
    else 3
  }

  function DecodeUnit(u: Bytes): (r: Bytes)
    requires 1 <= |u| <= 3
    ensures 1 <= |r| <= |u|
  {
    if |u| < 3 then
      if |u| == 2 && DecodeHex(u[1]).Some? then [u[0], ToLower(u[1])] else u
    else
      match (DecodeHex(u[1]), DecodeHex(u[2]))
      case (Some(high), Some(low)) => [Escaped(high, low)]
      case _ => [u[0], ToLower(u[1]), u[2]]
  }

  function DecodeUri(s: Bytes): (r: Bytes)
    ensures |r| <= |s|
  {
    if s == [] then []
    else
      var n := UnitLength(s);
      DecodeUnit(s[..n]) + DecodeUri(s[n..])
  }

  // ----- encoding

  const PUNCTUATION: seq<char> := ";/?:@&=+$,-_.!~*'()"

  predicate IsLiteral(c: byte) {
    IsAlnum(c) || exists i :: 0 <= i < |PUNCTUATION| && PUNCTUATION[i] as int == c
  }

  function EncodeByte(c: byte): (r: Bytes)
    ensures 1 <= |r| <= 3
  {
    if IsLiteral(c) then [c] else [PERCENT, EncodeHex(c / 16), EncodeHex(c % 16)]
  }

  function EncodeUri(s: Bytes): (r: Bytes)
    ensures |s| <= |r| <= 3 * |s|
  {
    if s == [] then [] else EncodeByte(s[0]) + EncodeUri(s[1..])
  }

  lemma PercentIsNotLiteral()
    ensures !IsLiteral(PERCENT)
  {
  }

  lemma DecodeByteBack(c: byte, rest: Bytes)
    ensures DecodeUri(EncodeByte(c) + rest) == [c] + DecodeUri(rest)
  {
    var s := EncodeByte(c) + rest;
    PercentIsNotLiteral();
    var n := |EncodeByte(c)|;
    assert UnitLength(s) == n;
    assert s[..n] == EncodeByte(c) && s[n..] == rest;
    assert DecodeUnit(s[..n]) == [c];
  }

  /** Every string of bytes survives encoding and decoding. */
  lemma {:induction false} DecodeEncodeUri(s: Bytes)
    ensures DecodeUri(EncodeUri(s)) == s
  {
    if s != [] {
      DecodeByteBack(s[0], EncodeUri(s[1..]));
      DecodeEncodeUri(s[1..]);
    }
  }

  /** Text without a percent sign is its own decoding. */
  lemma {:induction false} DecodePlain(s: Bytes)
    requires PERCENT !in s
    ensures DecodeUri(s) == s
  {
    if s != [] {
      assert UnitLength(s) == 1;
      DecodePlain(s[1..]);
    }
  }

  /** Encoded text holds no NUL, no DEL and no byte outside ASCII. */
  lemma {:induction false} EncodedIsPrintable(s: Bytes)
    ensures forall c :: c in EncodeUri(s) ==> 0x20 < c < DEL
  {
    if s != [] {
      EncodedIsPrintable(s[1..]);
      assert forall c :: c in EncodeByte(s[0]) ==> 0x20 < c < DEL;
    }
  }

  // ----- which bytes are encoded, and how

  /** By code: the letters, the digits and the nineteen punctuation marks that stand for themselves. */
  predicate LiteralCode(c: byte) {
    c == 33 || c == 36 || 38 <= c <= 59 || c == 61 || 63 <= c <= 90 || c == 95 || 97 <= c <= 122 || c == 126
  }

  lemma LiteralCodes(c: byte)
    ensures IsLiteral(c) <==> LiteralCode(c)
  {
    var p := PUNCTUATION;
    assert p[0] as int == 59 && p[1] as int == 47 && p[2] as int == 63 && p[3] as int == 58 && p[4] as int == 64;
    assert p[5] as int == 38 && p[6] as int == 61 && p[7] as int == 43 && p[8] as int == 36 && p[9] as int == 44;
    assert p[10] as int == 45 && p[11] as int == 95 && p[12] as int == 46 && p[13] as int == 33 && p[14] as int == 126;
    assert p[15] as int == 42 && p[16] as int == 39 && p[17] as int == 40 && p[18] as int == 41;
  }

  /** These bytes stand for themselves, and every other byte becomes a percent sign and its two digits. */
  lemma {:induction false} EncodeByteIs(c: byte)
    ensures LiteralCode(c) ==> EncodeUri([c]) == [c]
    ensures !LiteralCode(c) ==> EncodeUri([c]) == [PERCENT, DIGITS[c / 16] as int, DIGITS[c % 16] as int]
  {
    hide IsLiteral, LiteralCode;
    LiteralCodes(c);
    EncodeOne(c);
    if !IsLiteral(c) {
      DigitIs(c / 16);
      DigitIs(c % 16);
    }
  }

  lemma EncodeOne(c: byte)
    ensures EncodeUri([c]) == EncodeByte(c)
  {
    assert [c][1..] == [] && EncodeUri([]) == [];
  }

  lemma DigitIs(n: nat)
    requires n < 16
    ensures EncodeHex(n) == DIGITS[n] as int
  {
  }

  // ----- what becomes of a percent sign

  /** Two hex digits of either case behind it give the byte they stand for, high digit first. */
  lemma {:induction false} EscapeDecoded(high: byte, low: byte, rest: Bytes)
    requires DecodeHex(high).Some? && DecodeHex(low).Some?
    ensures DecodeUri([PERCENT, high, low] + rest) ==
            [16 * DecodeHex(high).value + DecodeHex(low).value] + DecodeUri(rest)
  {
    var s := [PERCENT, high, low] + rest;
    assert UnitLength(s) == 3 && s[..3] == [PERCENT, high, low] && s[3..] == rest;
  }

  /** Otherwise it is kept, with what was taken for a digit in lower case. */
  lemma {:induction false} MalformedKept(c: byte, d: byte, rest: Bytes)
    ensures DecodeUri([PERCENT]) == [PERCENT]
    ensures DecodeHex(c) == None ==> DecodeUri([PERCENT, c] + rest) == [PERCENT, c] + DecodeUri(rest)
    ensures DecodeHex(c).Some? ==> DecodeUri([PERCENT, c]) == [PERCENT, ToLower(c)]
    ensures DecodeHex(c).Some? && DecodeHex(d) == None ==>
              DecodeUri([PERCENT, c, d] + rest) == [PERCENT, ToLower(c), d] + DecodeUri(rest)
  {
    hide DecodeHex;
    WholeUnit([PERCENT], []);
    if DecodeHex(c) == None {
      WholeUnit([PERCENT, c], rest);
    } else {
      WholeUnit([PERCENT, c], []);
      if DecodeHex(d) == None {
        WholeUnit([PERCENT, c, d], rest);
      }
    }
  }

  lemma WholeUnit(u: Bytes, rest: Bytes)
    requires 1 <= |u| <= 3 && UnitLength(u + rest) == |u|
    ensures DecodeUri(u + rest) == DecodeUnit(u) + DecodeUri(rest)
    ensures rest == [] ==> DecodeUri(u) == DecodeUnit(u)
  {
    var s := u + rest;
    assert s[..|u|] == u && s[|u|..] == rest;
    if rest == [] {
      assert s == u && DecodeUri([]) == [];
    }
  }

  // ----- the decoder's loop

  datatype State = Default | Percent | FirstHex

  /** What has been read of the unit in hand. */
  function Pending(state: State, nibble: nat): (p: Bytes)
    requires nibble < 16
    ensures |p| <= 2
  {
    match state
    case Default => []
    case Percent => [PERCENT]
    case FirstHex => [PERCENT, EncodeHex(nibble)]
  }

  /** Append one character, unless it is the one the code's assertion forbids. */
  method AppendChar(dst: array<byte>, len: nat, c: byte) returns (newLen: nat, ok: bool)
    requires len < dst.Length
    modifies dst
    ensures newLen == len + 1 && ok == (c != DEL)
    ensures dst[..newLen] == old(dst[..len]) + [c]
  {
    ok := c != DEL;
    dst[len] := c;
    newLen := len + 1;
  }

  /** Decoding does not depend on the case of the first nibble of the unit in hand. */
  lemma PendingStep(state: State, nibble: nat, c: byte, rest: Bytes)
    requires nibble < 16
    ensures var p := Pending(state, nibble) + [c] + rest;
            match state
            case Default =>
              c != PERCENT ==> DecodeUri(p) == [c] + DecodeUri(rest)
            case Percent =>
              DecodeHex(c) == None ==> DecodeUri(p) == [PERCENT, c] + DecodeUri(rest)
            case FirstHex =>
              DecodeUri(p) ==
              (match DecodeHex(c)
               case None => [PERCENT, EncodeHex(nibble), c]
               case Some(low) => [Escaped(nibble, low)]) + DecodeUri(rest)
  {
    var u := Pending(state, nibble) + [c];
    var p := u + rest;
    if !(state == Default && c == PERCENT) && !(state == Percent && DecodeHex(c).Some?) {
      assert UnitLength(p) == |u|;
      assert p[..|u|] == u && p[|u|..] == rest;
    }
  }

  /** A first nibble and its lower-case form decode alike. */
  lemma {:induction false} FirstNibbleCase(c: byte, rest: Bytes)
    requires DecodeHex(c).Some?
    ensures DecodeUri([PERCENT, c] + rest) == DecodeUri([PERCENT, EncodeHex(DecodeHex(c).value)] + rest)
  {
    EncodeDecodeHex(c);
    var s, t := [PERCENT, c] + rest, [PERCENT, ToLower(c)] + rest;
    var n := UnitLength(s);
    assert UnitLength(t) == n && s[n..] == t[n..];
    if n == 3 {
      assert s[..n] == [PERCENT, c, rest[0]] && t[..n] == [PERCENT, ToLower(c), rest[0]];
    } else {
      assert rest == [];
      assert s[..n] == [PERCENT, c] && t[..n] == [PERCENT, ToLower(c)];
    }
  }

  method AppendText(dst: array<byte>, len: nat, text: Bytes) returns (newLen: nat, ok: bool)
    requires len + |text| <= dst.Length
    modifies dst
    ensures ok == (DEL !in text)
    ensures ok ==> newLen == len + |text| && dst[..newLen] == old(dst[..len]) + text
  {
    newLen, ok := len, true;
    for i := 0 to |text|
      invariant newLen == len + i && ok && DEL !in text[..i]
      invariant dst[..newLen] == old(dst[..len]) + text[..i]
    {
      newLen, ok := AppendChar(dst, newLen, text[i]);
      if !ok {
        return;
      }
      assert text[..i + 1] == text[..i] + [text[i]];
    }
    assert text[..|text|] == text;
  }

  /** One turn of the loop: the text to append, and the next state. */
  method Turn(state: State, nibble: nat, c: byte, ghost rest: Bytes)
    returns (out: Bytes, newState: State, newNibble: nat)
    requires nibble < 16
    ensures newNibble < 16
    ensures |out| + |Pending(newState, newNibble)| <= |Pending(state, nibble)| + 1
    ensures out + DecodeUri(Pending(newState, newNibble) + rest) == DecodeUri(Pending(state, nibble) + [c] + rest)
  {
    hide DecodeUri;
    PendingStep(state, nibble, c, rest);
    out, newState, newNibble := [], Default, nibble;
    match state {
      case Default =>
        if c == PERCENT {
          newState := Percent;
          assert Pending(state, nibble) + [c] + rest == [PERCENT] + rest;
        } else {
          out := [c];
        }
      case Percent =>
        var value := DecodeHex(c);
        if value == None {
          out := [PERCENT, c];
        } else {
          newState, newNibble := FirstHex, value.value;
          FirstNibbleCase(c, rest);
          assert Pending(state, nibble) + [c] + rest == [PERCENT, c] + rest;
        }
      case FirstHex =>
        var value := DecodeHex(c);
        if value == None {
          out := [PERCENT, EncodeHex(nibble), c];
        } else {
          out := [Escaped(nibble, value.value)];
        }
    }
    assert newState == Default ==> Pending(newState, newNibble) + rest == rest;
    assert out == [] ==> out + DecodeUri(Pending(newState, newNibble) + rest) == DecodeUri(Pending(newState, newNibble) + rest);
  }

  /** An unfinished unit at the end of the input stands for itself. */
  lemma PendingEnd(state: State, nibble: nat)
    requires nibble < 16
    ensures DecodeUri(Pending(state, nibble)) == Pending(state, nibble)
  {
    var p := Pending(state, nibble);
    if state != Default {
      assert UnitLength(p) == |p| && p[..|p|] == p && p[|p|..] == [];
    }
  }

  /** The loop: all of the input read, but for a unit it may have left unfinished. */
  method DecodeLoop(dst: array<byte>, src: Bytes) returns (len: nat, state: State, nibble: nat, ok: bool)
    requires dst.Length >= |src| + 1
    modifies dst
    ensures nibble < 16
    ensures ok ==> len + |Pending(state, nibble)| <= |src| && DEL !in dst[..len]
    ensures ok ==> dst[..len] + Pending(state, nibble) == DecodeUri(src)
    ensures !ok ==> DEL in DecodeUri(src)
  {
    hide DecodeUri, Pending;
    ghost var result := DecodeUri(src);
    state, nibble, len, ok := Default, 0, 0, true;
    NothingPending(src);
    for i := 0 to |src|
      invariant ok && nibble < 16 && len + |Pending(state, nibble)| <= i
      invariant dst[..len] + DecodeUri(Pending(state, nibble) + src[i..]) == result
      invariant DEL !in dst[..len]
    {
      ghost var rest := src[i + 1..];
      assert Pending(state, nibble) + src[i..] == Pending(state, nibble) + [src[i]] + rest;
      var out;
      out, state, nibble := Turn(state, nibble, src[i], rest);
      ghost var before := dst[..len];
      assert result == before + out + DecodeUri(Pending(state, nibble) + rest);
      len, ok := AppendText(dst, len, out);
      if !ok {
        return;
      }
    }
    assert Pending(state, nibble) + src[|src|..] == Pending(state, nibble);
    PendingEnd(state, nibble);
  }

  lemma NothingPending(s: Bytes)
    ensures Pending(Default, 0) == [] && [] + s[0..] == s
  {
  }

  /**
    decode_uri_value: what it writes fits a buffer as long as its input and a terminator, and its
    assertion holds exactly when no decoded byte is 0x7f.
   */
  method DecodeUriValue(dst: array<byte>, src: Bytes) returns (len: nat, ok: bool)
    requires dst.Length >= |src| + 1
    modifies dst
    ensures ok == (DEL !in DecodeUri(src))
    ensures ok ==> len <= |src| && dst[..len] == DecodeUri(src) && dst[len] == 0
  {
    hide DecodeUri;
    var state, nibble;
    len, state, nibble, ok := DecodeLoop(dst, src);
    if !ok {
      return;
    }
    len, ok := AppendText(dst, len, Pending(state, nibble));
    dst[len] := 0;
  }

  method EncodeChar(dst: array<byte>, pos: nat, c: byte) returns (newPos: nat)
    requires pos + 3 <= dst.Length
    modifies dst
    ensures newPos <= pos + 3 && dst[..newPos] == old(dst[..pos]) + EncodeByte(c)
  {
    if IsLiteral(c) {
      dst[pos] := c;
      return pos + 1;
    }
    dst[pos] := PERCENT;
    dst[pos + 1] := EncodeHex(c / 16);
    dst[pos + 2] := EncodeHex(c % 16);
    return pos + 3;
  }

  lemma EncodeUriStep(s: Bytes, i: nat)
    requires i < |s|
    ensures EncodeUri(s[i..]) == EncodeByte(s[i]) + EncodeUri(s[i + 1..])
  {
    assert s[i..][1..] == s[i + 1..];
  }

  /** encode_uri_value: three times the input and a terminator is always enough room. */
  method EncodeUriValue(dst: array<byte>, src: Bytes) returns (pos: nat)
    requires dst.Length >= 3 * |src| + 1
    modifies dst
    ensures pos <= 3 * |src| && dst[..pos] == EncodeUri(src) && dst[pos] == 0
  {
    hide EncodeUri, EncodeByte;
    ghost var result := EncodeUri(src);
    pos := 0;
    assert src[0..] == src;
    for i := 0 to |src|
      invariant pos <= 3 * i && dst[..pos] + EncodeUri(src[i..]) == result
    {
      EncodeUriStep(src, i);
      pos := EncodeChar(dst, pos, src[i]);
    }
    dst[pos] := 0;
  }
}
