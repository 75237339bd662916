/**
  Characters, hex digits and C string handling that the text carriers share: the C locale's
  character classes (a byte from 128 up is a negative char, in no class), strtok_r and strtoull.
 */
module CStrings {
  import opened Basics

  const PERCENT: byte := '%' as int
  const COLON: byte := ':' as int
  const ZERO: byte := '0' as int

  function Ascii(s: string): (r: Bytes)
    requires forall i :: 0 <= i < |s| ==> s[i] as int < 128
    ensures |r| == |s| && forall i :: 0 <= i < |s| ==> r[i] == s[i] as int
  {
    seq(|s|, i requires 0 <= i < |s| => s[i] as int)
  }

  predicate IsDigit(c: byte) { '0' as int <= c <= '9' as int }
  predicate IsLower(c: byte) { 'a' as int <= c <= 'z' as int }
  predicate IsUpper(c: byte) { 'A' as int <= c <= 'Z' as int }
  predicate IsAlnum(c: byte) { IsDigit(c) || IsLower(c) || IsUpper(c) }
  predicate IsSpace(c: byte) { 9 <= c <= 13 || c == 32 }

  function ToLower(c: byte): byte { if IsUpper(c) then c + 32 else c }

  function Lower(s: Bytes): (r: Bytes)
    ensures |r| == |s| && forall i :: 0 <= i < |s| ==> r[i] == ToLower(s[i])
  {
    seq(|s|, i requires 0 <= i < |s| => ToLower(s[i]))
  }

  /** What C makes of a buffer: the bytes before the first NUL. */
  function CString(s: Bytes): (r: Bytes)
    ensures 0 !in r
    ensures 0 !in s ==> r == s
  {
    if s == [] || s[0] == 0 then [] else [s[0]] + CString(s[1..])
  }

  // ----- hex digits

  function DecodeHex(c: byte): (v: Option<nat>)
    ensures v.Some? ==> v.value < 16
  {
    if IsLower(c) then
      if c > 'f' as int then None else Some(c - 'a' as int + 10)
    else if IsUpper(c) then
      if c > 'F' as int then None else Some(c - 'A' as int + 10)
    else if IsDigit(c) then Some(c - '0' as int)
    else None
  }

  function EncodeHex(n: nat): (c: byte)
    requires n < 16
    ensures DecodeHex(c) == Some(n) && ToLower(c) == c
  {
    if n < 10 then '0' as int + n else 'a' as int + (n - 10)
  }

  const DIGITS: string := "0123456789abcdef"

  /** Exactly the sixteen digits and the upper-case forms of six of them have a value, and it is their place. */
  lemma {:induction false} DigitValues(c: byte)
    ensures DecodeHex(c).Some? <==> exists i :: 0 <= i < 16 && DIGITS[i] as int == ToLower(c)
    ensures forall i :: 0 <= i < 16 && DIGITS[i] as int == ToLower(c) ==> DecodeHex(c) == Some(i)
    ensures DecodeHex(c) == DecodeHex(ToLower(c))
  {
    if DecodeHex(c).Some? {
      assert DIGITS[DecodeHex(c).value] as int == ToLower(c);
    }
  }

  /** Reading a digit and writing it back gives its lower-case form. */
  lemma {:induction false} EncodeDecodeHex(c: byte)
    requires DecodeHex(c).Some?
    ensures EncodeHex(DecodeHex(c).value) == ToLower(c)
  {
  }

  /** The 26 capitals move up by 32, the distance of the alphabets in ASCII, and nothing else moves. */
  lemma {:induction false} LowerCase(c: byte)
    ensures ToLower(c) == if 65 <= c <= 90 then c + 32 else c
    ensures !IsUpper(ToLower(c)) && ToLower(ToLower(c)) == ToLower(c)
  {
  }

  /** to_lowercase, into a buffer with room for the string and its terminator. */
  method ToLowercase(dst: array<byte>, src: Bytes)
    requires dst.Length >= |src| + 1
    modifies dst
    ensures dst[..|src|] == Lower(src) && dst[|src|] == 0
  {
    for i := 0 to |src|
      invariant forall j :: 0 <= j < i ==> dst[j] == ToLower(src[j])
    {
      dst[i] := ToLower(src[i]);
    }
    dst[|src|] := 0;
  }

  // ----- strtok_r with one delimiter

  datatype Token = NoToken | Token(text: Bytes, rest: Bytes)

  /** Bytes up to the delimiter. */
  function Until(s: Bytes, delim: byte): (r: Bytes)
    ensures |r| <= |s| && r == s[..|r|] && delim !in r
    ensures |r| < |s| ==> s[|r|] == delim
  {
    if s == [] || s[0] == delim then [] else [s[0]] + Until(s[1..], delim)
  }

  function SkipDelims(s: Bytes, delim: byte): (r: Bytes)
    ensures |r| <= |s|
    ensures r == [] || r[0] != delim
  {
    if s != [] && s[0] == delim then SkipDelims(s[1..], delim) else s
  }

  function Strtok(s: Bytes, delim: byte): (t: Token)
    ensures t.Token? ==> t.text != [] && delim !in t.text && |t.rest| < |s|
  {
    var start := SkipDelims(s, delim);
    if start == [] then NoToken
    else
      var text := Until(start, delim);
      Token(text, if |text| < |start| then start[|text| + 1..] else [])
  }

  lemma {:induction false} SkipDelimsChars(s: Bytes, delim: byte)
    ensures forall c :: c in SkipDelims(s, delim) ==> c in s
  {
    if s != [] && s[0] == delim {
      SkipDelimsChars(s[1..], delim);
    }
  }

  /** Tokens are made of the string's own characters. */
  lemma StrtokChars(s: Bytes, delim: byte)
    ensures Strtok(s, delim).Token? ==>
              forall c :: c in Strtok(s, delim).text || c in Strtok(s, delim).rest ==> c in s
  {
    SkipDelimsChars(s, delim);
  }

  /** A token in front, with or without something after it. */
  lemma {:induction false} StrtokFront(text: Bytes, rest: Bytes, delim: byte)
    requires text != [] && delim !in text
    ensures Strtok(text, delim) == Token(text, [])
    ensures Strtok(text + [delim] + rest, delim) == Token(text, rest)
  {
    UntilFront(text, [], delim);
    assert text + [] == text;
    UntilFront(text, [delim] + rest, delim);
    var s := text + [delim] + rest;
    assert s == text + ([delim] + rest);
    assert s[0] == text[0] != delim;
    assert s[|text| + 1..] == rest;
  }

  lemma {:induction false} UntilFront(text: Bytes, more: Bytes, delim: byte)
    requires delim !in text && (more == [] || more[0] == delim)
    ensures Until(text + more, delim) == text
  {
    if text == [] {
      assert text + more == more;
    } else {
      assert (text + more)[1..] == text[1..] + more;
      UntilFront(text[1..], more, delim);
    }
  }

  // ----- strtoull in base 16

  const ULLONG_MAX: nat := 0xffff_ffff_ffff_ffff
  const TWO_64: nat := 0x1_0000_0000_0000_0000

  predicate AllHex(s: Bytes) { forall i :: 0 <= i < |s| ==> DecodeHex(s[i]).Some? }

  function HexPrefix(s: Bytes): (n: nat)
    ensures n <= |s| && AllHex(s[..n])
    ensures n < |s| ==> DecodeHex(s[n]) == None
  {
    if s == [] || DecodeHex(s[0]) == None then 0 else
      var m := HexPrefix(s[1..]);
      assert s[..m + 1] == [s[0]] + s[1..][..m];
      1 + m
  }

  /** The number a string of hex digits stands for. */
  function HexNumber(s: Bytes): nat
    requires AllHex(s)
  {
    if s == [] then 0 else 16 * HexNumber(s[..|s| - 1]) + DecodeHex(s[|s| - 1]).value
  }

  function SkipSpace(s: Bytes): (n: nat)
    ensures n <= |s|
  {
    if s != [] && IsSpace(s[0]) then 1 + SkipSpace(s[1..]) else 0
  }

  predicate HasSign(s: Bytes) { s != [] && (s[0] == '+' as int || s[0] == '-' as int) }

  predicate HasHexMark(s: Bytes) {
    |s| >= 3 && s[0] == ZERO && (s[1] == 'x' as int || s[1] == 'X' as int) && DecodeHex(s[2]).Some?
  }

  datatype Number = Number(value: nat, end: nat)

  /** Where the digits start: after blanks, a sign and an optional 0x. */
  function DigitsAt(s: Bytes): (i: nat)
    ensures i <= |s|
  {
    var signed := SkipSpace(s);
    var marked := signed + if HasSign(s[signed..]) then 1 else 0;
    marked + if HasHexMark(s[marked..]) then 2 else 0
  }

  predicate IsNegative(s: Bytes) {
    var signed := SkipSpace(s);
    signed < |s| && s[signed] == '-' as int
  }

  /** What the digits read become: too large saturates, a minus sign wraps. */
  function Magnitude(negative: bool, v: nat): (r: nat)
    ensures r <= ULLONG_MAX
  {
    if v > ULLONG_MAX then ULLONG_MAX else if negative && v > 0 then TWO_64 - v else v
  }

  function Strtoull(s: Bytes): (r: Number)
    ensures r.value <= ULLONG_MAX && r.end <= |s|
  {
    var digits := s[DigitsAt(s)..];
    var n := HexPrefix(digits);
    if n == 0 then Number(0, 0)
    else Number(Magnitude(IsNegative(s), HexNumber(digits[..n])), DigitsAt(s) + n)
  }

  lemma HexStartsAtOnce(s: Bytes)
    requires s != [] && AllHex(s)
    ensures DigitsAt(s) == 0 && !IsNegative(s)
  {
    assert DecodeHex(s[0]).Some?;
    assert SkipSpace(s) == 0 && !HasSign(s);
    assert s[0..] == s;
    assert |s| > 1 ==> DecodeHex(s[1]).Some?;
  }

  lemma {:induction false} HexPrefixAll(s: Bytes)
    requires AllHex(s)
    ensures HexPrefix(s) == |s|
  {
    if s != [] {
      assert DecodeHex(s[0]).Some?;
      HexPrefixAll(s[1..]);
    }
  }

  /** A string of hex digits is read whole. */
  lemma {:induction false} StrtoullHex(s: Bytes)
    requires s != [] && AllHex(s)
    ensures Strtoull(s) == Number(if HexNumber(s) > ULLONG_MAX then ULLONG_MAX else HexNumber(s), |s|)
  {
    hide DigitsAt, IsNegative, HexPrefix, HexNumber, AllHex;
    HexStartsAtOnce(s);
    HexPrefixAll(s);
    assert s[0..] == s && s[..|s|] == s;
  }
}
