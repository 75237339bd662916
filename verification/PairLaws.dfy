/** The key=value,key=value text of a baggage header, character by character. */
module PairLaws {
  import opened Basics
  import opened TableSpec
  import opened CStrings
  import opened HeaderFormat

  /** A separator with something in front of it and something behind it. */
  predicate IsPair(s: Bytes) {
    exists p, q, r :: 0 <= p < q < r < |s| && s[p] != EQUALS && s[q] == EQUALS && s[r] != EQUALS
  }

  /** s[i..j] is a nonempty run between commas or ends. */
  predicate Piece(s: Bytes, i: int, j: int) {
    && 0 <= i < j <= |s| && COMMA !in s[i..j]
    && (i == 0 || s[i - 1] == COMMA) && (j == |s| || s[j] == COMMA)
  }

  ghost predicate WellFormedText(s: Bytes) { forall i, j :: Piece(s, i, j) ==> IsPair(s[i..j]) }

  lemma {:induction false} SkipDelimsIs(s: Bytes, delim: byte) returns (k: nat)
    ensures k <= |s| && SkipDelims(s, delim) == s[k..] && forall i :: 0 <= i < k ==> s[i] == delim
  {
    k := 0;
    if s != [] && s[0] == delim {
      var n := SkipDelimsIs(s[1..], delim);
      k := n + 1;
    }
  }

  /** Where the tokens of a pair are. */
  lemma ParsedIsPair(s: Bytes)
    requires ParsePair(s).Some?
    ensures IsPair(s)
  {
    hide SkipDelims, Until;
    var k := SkipDelimsIs(s, EQUALS);
    var start := s[k..];
    var key := Until(start, EQUALS);
    var rest := if |key| < |start| then start[|key| + 1..] else [];
    var n := SkipDelimsIs(rest, EQUALS);
    assert |key| < |start| && rest[n..] != [];
    var p, q, r := k, k + |key|, k + |key| + 1 + n;
    assert s[p] == start[0] && s[q] == start[|key|] && s[r] == rest[n] == rest[n..][0];
  }

  lemma PairIsParsed(s: Bytes)
    requires IsPair(s)
    ensures ParsePair(s).Some?
  {
    hide SkipDelims, Until, Strtok, ParsePair;
    var p, q, r :| 0 <= p < q < r < |s| && s[p] != EQUALS && s[q] == EQUALS && s[r] != EQUALS;
    var k := SkipDelimsIs(s, EQUALS);
    var key := Until(s[k..], EQUALS);
    KeyEnds(s, k, key, q);
    var rest := s[k..][|key| + 1..];
    var n := SkipDelimsIs(rest, EQUALS);
    assert rest[r - k - |key| - 1] == s[r];
    BothTokens(s, k, key, n);
  }

  lemma BothTokens(s: Bytes, k: nat, key: Bytes, n: nat)
    requires k < |s| && SkipDelims(s, EQUALS) == s[k..] && key == Until(s[k..], EQUALS) && |key| < |s| - k
    requires var rest := s[k..][|key| + 1..]; n < |rest| && SkipDelims(rest, EQUALS) == rest[n..]
    ensures ParsePair(s).Some?
  {
    hide SkipDelims, Until;
  }

  /** The key ends at the first separator behind its start. */
  lemma KeyEnds(s: Bytes, k: nat, key: Bytes, q: nat)
    requires k <= q < |s| && s[q] == EQUALS && EQUALS !in key && |key| <= |s| - k && key == s[k..][..|key|]
    ensures k + |key| <= q
  {
    assert forall i :: k <= i < k + |key| ==> s[i] == key[i - k] != EQUALS;
  }

  lemma {:induction false} ParsePairIff(s: Bytes)
    ensures ParsePair(s).Some? <==> IsPair(s)
  {
    hide ParsePair, IsPair;
    if ParsePair(s).Some? {
      ParsedIsPair(s);
    }
    if IsPair(s) {
      PairIsParsed(s);
    }
  }

  // ----- pieces of a text are pieces of what follows a comma

  lemma PieceBehind(s: Bytes, k: nat, i: int, j: int)
    requires 0 < k <= |s| && s[k - 1] == COMMA
    ensures Piece(s[k..], i, j) <==> i >= 0 && Piece(s, i + k, j + k)
    ensures 0 <= i < j <= |s| - k ==> s[k..][i..j] == s[i + k..j + k]
  {
    if 0 <= i < j <= |s| - k {
      assert s[k..][i..j] == s[i + k..j + k];
      assert i > 0 ==> s[k..][i - 1] == s[i + k - 1];
      assert j < |s| - k ==> s[k..][j] == s[j + k];
    }
  }

  lemma WellFormedBehind(s: Bytes, k: nat)
    requires 0 < k <= |s| && s[k - 1] == COMMA
    ensures WellFormedText(s[k..]) <==> forall i, j :: i >= k && Piece(s, i, j) ==> IsPair(s[i..j])
  {
    hide IsPair;
    if WellFormedText(s[k..]) {
      forall i, j | i >= k && Piece(s, i, j)
        ensures IsPair(s[i..j])
      {
        PieceBehind(s, k, i - k, j - k);
      }
    }
    if forall i, j :: i >= k && Piece(s, i, j) ==> IsPair(s[i..j]) {
      forall i, j | Piece(s[k..], i, j)
        ensures IsPair(s[k..][i..j])
      {
        PieceBehind(s, k, i, j);
      }
    }
  }

  /** The pieces are the first token and those behind the comma that ends it. */
  lemma FirstPiece(s: Bytes, n: nat)
    requires 0 < n <= |s| && COMMA !in s[..n] && (n == |s| || s[n] == COMMA)
    ensures Piece(s, 0, n) && s[0..n] == s[..n]
    ensures forall i, j :: Piece(s, i, j) ==> (i == 0 && j == n) || (i > n && n < |s|)
  {
    assert s[0..n] == s[..n];
    assert forall k :: 0 <= k < n ==> s[k] == s[..n][k] != COMMA;
    forall i, j | Piece(s, i, j)
      ensures (i == 0 && j == n) || (i > n && n < |s|)
    {
      assert forall k :: i <= k < j ==> s[k] == s[i..j][k - i] != COMMA;
    }
  }

  /** A leading comma separates nothing. */
  lemma LeadingComma(s: Bytes)
    requires s != [] && s[0] == COMMA
    ensures Strtok(s, COMMA) == Strtok(s[1..], COMMA)
    ensures WellFormedText(s) <==> WellFormedText(s[1..])
  {
    WellFormedBehind(s, 1);
    forall i, j | Piece(s, i, j)
      ensures i >= 1
    {
      assert s[i] == s[i..j][0] != COMMA;
    }
  }

  /** A text is parsed exactly when every piece between its commas is a pair. */
  lemma {:induction false} ParseMapIff(s: Bytes)
    ensures ParseMap(s).Some? <==> WellFormedText(s)
    decreases |s|
  {
    hide ParsePair, IsPair;
    if s == [] {
    } else if s[0] == COMMA {
      LeadingComma(s);
      ParseMapIff(s[1..]);
      SameToken(s, s[1..]);
    } else {
      var text := Until(s, COMMA);
      var n := |text|;
      FirstPiece(s, n);
      ParsePairIff(text);
      var rest := if n < |s| then s[n + 1..] else [];
      ParseMapIff(rest);
      if n < |s| {
        WellFormedBehind(s, n + 1);
      }
    }
  }

  lemma SameToken(s: Bytes, t: Bytes)
    requires Strtok(s, COMMA) == Strtok(t, COMMA)
    ensures ParseMap(s) == ParseMap(t)
  {
  }

  /** Separators apart, a printed list has the characters of its parts. */
  lemma {:induction false} PrintedChars(items: seq<KV>, c: byte)
    requires c != EQUALS && c != COMMA && forall kv :: kv in items ==> c !in kv.key && c !in kv.value
    ensures c !in PrintMap(items)
    decreases |items|
  {
    if items != [] {
      assert items[0] in items;
      PrintedChars(items[1..], c);
    }
  }

  /** Only the first two parts of a pair count. */
  lemma {:induction false} ExtraParts(kv: KV, rest: Bytes)
    requires Field(kv.key) && Field(kv.value)
    ensures ParsePair(PrintPair(kv) + [EQUALS] + rest) == Some(kv)
  {
    hide Strtok;
    StrtokFront(kv.key, kv.value + [EQUALS] + rest, EQUALS);
    StrtokFront(kv.value, rest, EQUALS);
    assert PrintPair(kv) + [EQUALS] + rest == kv.key + [EQUALS] + (kv.value + [EQUALS] + rest);
  }
}
