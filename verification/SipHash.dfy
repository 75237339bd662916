/**
  SipHash-2-4 (siphash.c) against the definition in section 2 of Aumasson and
  Bernstein, "SipHash: a fast short-input PRF": compress the little-endian words
  of the padded message, then finalise.

  The algorithm is stated over any word algebra that obeys the few laws it needs;
  SipHashBits supplies the 64-bit words and proves the laws for them.
 */
module SipHash {
  /** The rotation distances SipRound uses. */
  datatype Distance = R13 | R16 | R17 | R21 | R32

  /** Words W, bytes B and the operations of the code on them. */
  datatype Alg<!W, !B> = Alg(
    add: (W, W) -> W,
    sub: (W, W) -> W,
    xor: (W, W) -> W,
    or: (W, W) -> W,
    rotl: (W, Distance) -> W,
    rotr: (W, Distance) -> W,
    part: (B, nat) -> W,  // a byte, moved to place i of a word
    top: W -> W,          // shift left by 56
    lowByte: W -> B,
    zero: B,
    c0: W, c1: W, c2: W, c3: W, ff: W)

  ghost predicate Lawful<W(!new), B(!new)>(g: Alg<W, B>) {
    && (forall x, y :: g.sub(g.add(x, y), y) == x)
    && (forall x, y :: g.add(g.sub(x, y), y) == x)
    && (forall x, y :: g.xor(g.xor(x, y), y) == x)
    && (forall x, d :: g.rotr(g.rotl(x, d), d) == x)
    && (forall x, d :: g.rotl(g.rotr(x, d), d) == x)
    && (forall x, i :: 0 <= i < 7 ==> g.or(x, g.part(g.zero, i)) == x)
    && (forall x :: g.part(g.lowByte(x), 7) == g.top(x))
    && (forall x, y :: Commutes(g, x, y))
    && (forall x, y, z :: Associates(g, x, y, z))
  }

  // Named, so that a proof picks the instances it needs.
  ghost predicate Commutes<W, B>(g: Alg<W, B>, x: W, y: W) { g.or(x, y) == g.or(y, x) }
  ghost predicate Associates<W, B>(g: Alg<W, B>, x: W, y: W, z: W) { g.or(g.or(x, y), z) == g.or(x, g.or(y, z)) }

  datatype State<W> = State(v0: W, v1: W, v2: W, v3: W)

  // ----- the definition

  /** Add, rotate, xor: the step SipRound is made of. */
  function Mix<W, B>(g: Alg<W, B>, a: W, b: W, d: Distance): (W, W) {
    (g.add(a, b), g.xor(g.rotl(b, d), g.add(a, b)))
  }

  /** Two mixes side by side, then two across; one word of each pair has its halves swapped. */
  function SipRound<W, B>(g: Alg<W, B>, s: State<W>): State<W> {
    var (a, b) := Mix(g, s.v0, s.v1, R13);
    var (c, d) := Mix(g, s.v2, s.v3, R16);
    var (a', d') := Mix(g, g.rotl(a, R32), d, R21);
    var (c', b') := Mix(g, c, b, R17);
    State(a', b', g.rotl(c', R32), d')
  }

  function Rounds<W, B>(g: Alg<W, B>, s: State<W>, n: nat): State<W> {
    if n == 0 then s else SipRound(g, Rounds(g, s, n - 1))
  }

  /** Bytes 0..n of s in their places; place 0 is the least significant. */
  function Places<W, B>(g: Alg<W, B>, s: seq<B>, n: nat): W
    requires n < |s|
  {
    if n == 0 then g.part(s[0], 0) else g.or(Places(g, s, n - 1), g.part(s[n], n))
  }

  function LittleEndian<W, B>(g: Alg<W, B>, s: seq<B>): W
    requires |s| == 8
  {
    Places(g, s, 7)
  }

  /** The full words of a byte string. */
  function Words<W, B>(g: Alg<W, B>, bytes: seq<B>): seq<W> {
    if |bytes| < 8 then [] else [LittleEndian(g, bytes[..8])] + Words(g, bytes[8..])
  }

  function ZeroBytes<W, B>(g: Alg<W, B>, n: nat): (z: seq<B>)
    ensures |z| == n && forall i :: 0 <= i < n ==> z[i] == g.zero
  {
    seq(n, _ => g.zero)
  }

  /** The message, zero bytes, and the length mod 256 as last byte of the last word. */
  function Pad<W, B>(g: Alg<W, B>, msg: seq<B>, len: W): (p: seq<B>)
    ensures |p| % 8 == 0
  {
    msg + ZeroBytes(g, 7 - |msg| % 8) + [g.lowByte(len)]
  }

  function Compress<W, B>(g: Alg<W, B>, s: State<W>, m: W): State<W> {
    var r := Rounds(g, s.(v3 := g.xor(s.v3, m)), 2);
    r.(v0 := g.xor(r.v0, m))
  }

  function CompressAll<W, B>(g: Alg<W, B>, s: State<W>, words: seq<W>): State<W>
    decreases |words|
  {
    if words == [] then s else CompressAll(g, Compress(g, s, words[0]), words[1..])
  }

  function Initial<W, B>(g: Alg<W, B>, key: seq<B>): State<W>
    requires |key| == 16
  {
    var k0, k1 := LittleEndian(g, key[..8]), LittleEndian(g, key[8..]);
    State(g.xor(g.c0, k0), g.xor(g.c1, k1), g.xor(g.c2, k0), g.xor(g.c3, k1))
  }

  function Finalize<W, B>(g: Alg<W, B>, s: State<W>): W {
    var r := Rounds(g, s.(v2 := g.xor(s.v2, g.ff)), 4);
    g.xor(g.xor(g.xor(r.v0, r.v1), r.v2), r.v3)
  }

  function SipHash24<W, B>(g: Alg<W, B>, msg: seq<B>, len: W, key: seq<B>): W
    requires |key| == 16
  {
    Finalize(g, CompressAll(g, Initial(g, key), Words(g, Pad(g, msg, len))))
  }

  // ----- SipRound is a bijection

  function Unmix<W, B>(g: Alg<W, B>, a: W, b: W, d: Distance): (W, W) {
    var b0 := g.rotr(g.xor(b, a), d);
    (g.sub(a, b0), b0)
  }

  function InverseRound<W, B>(g: Alg<W, B>, s: State<W>): State<W> {
    var (a, d) := Unmix(g, s.v0, s.v3, R21);
    var (c, b) := Unmix(g, g.rotr(s.v2, R32), s.v1, R17);
    var (a0, b0) := Unmix(g, g.rotr(a, R32), b, R13);
    var (c0, d0) := Unmix(g, c, d, R16);
    State(a0, b0, c0, d0)
  }

  lemma MixBijective<W(!new), B(!new)>(g: Alg<W, B>, a: W, b: W, d: Distance)
    requires Lawful(g)
    ensures var (x, y) := Mix(g, a, b, d); Unmix(g, x, y, d) == (a, b)
    ensures var (x, y) := Unmix(g, a, b, d); Mix(g, x, y, d) == (a, b)
  {
  }

  /** Every state has exactly one predecessor under SipRound. */
  lemma {:induction false} SipRoundBijective<W(!new), B(!new)>(g: Alg<W, B>, s: State<W>)
    requires Lawful(g)
    ensures InverseRound(g, SipRound(g, s)) == s && SipRound(g, InverseRound(g, s)) == s
  {
    var (a, b) := Mix(g, s.v0, s.v1, R13);
    var (c, d) := Mix(g, s.v2, s.v3, R16);
    MixBijective(g, s.v0, s.v1, R13);
    MixBijective(g, s.v2, s.v3, R16);
    MixBijective(g, g.rotl(a, R32), d, R21);
    MixBijective(g, c, b, R17);
    var (p, q) := Unmix(g, s.v0, s.v3, R21);
    var (r, t) := Unmix(g, g.rotr(s.v2, R32), s.v1, R17);
    MixBijective(g, s.v0, s.v3, R21);
    MixBijective(g, g.rotr(s.v2, R32), s.v1, R17);
    MixBijective(g, g.rotr(p, R32), t, R13);
    MixBijective(g, r, q, R16);
  }

  // ----- the code

  ghost function Loaded<W>(v: array<W>): State<W>
    requires v.Length == 4
    reads v
  {
    State(v[0], v[1], v[2], v[3])
  }

  method RunSipRound<W, B>(g: Alg<W, B>, v: array<W>)
    requires v.Length == 4
    modifies v
    ensures Loaded(v) == SipRound(g, old(Loaded(v)))
  {
    v[0] := g.add(v[0], v[1]);
    v[1] := g.rotl(v[1], R13);
    v[1] := g.xor(v[1], v[0]);
    v[0] := g.rotl(v[0], R32);
    v[2] := g.add(v[2], v[3]);
    v[3] := g.rotl(v[3], R16);
    v[3] := g.xor(v[3], v[2]);
    v[0] := g.add(v[0], v[3]);
    v[3] := g.rotl(v[3], R21);
    v[3] := g.xor(v[3], v[0]);
    v[2] := g.add(v[2], v[1]);
    v[1] := g.rotl(v[1], R17);
    v[1] := g.xor(v[1], v[2]);
    v[2] := g.rotl(v[2], R32);
  }

  method RunRounds<W, B>(g: Alg<W, B>, v: array<W>, n: nat)
    requires v.Length == 4
    modifies v
    ensures Loaded(v) == Rounds(g, old(Loaded(v)), n)
  {
    for i := 0 to n
      invariant Loaded(v) == Rounds(g, old(Loaded(v)), i)
    {
      RunSipRound(g, v);
    }
  }

  /** unpack64 spells the word out. */
  function Unpack<W, B>(g: Alg<W, B>, s: seq<B>): (w: W)
    requires |s| == 8
    ensures w == LittleEndian(g, s)
  {
    var w1 := g.or(g.part(s[0], 0), g.part(s[1], 1));
    var w2 := g.or(w1, g.part(s[2], 2));
    var w3 := g.or(w2, g.part(s[3], 3));
    var w4 := g.or(w3, g.part(s[4], 4));
    var w5 := g.or(w4, g.part(s[5], 5));
    var w6 := g.or(w5, g.part(s[6], 6));
    assert w1 == Places(g, s, 1);
    assert w2 == Places(g, s, 2);
    assert w3 == Places(g, s, 3);
    assert w4 == Places(g, s, 4);
    assert w5 == Places(g, s, 5);
    assert w6 == Places(g, s, 6);
    g.or(w6, g.part(s[7], 7))
  }

  lemma OrSwap<W(!new), B(!new)>(g: Alg<W, B>, x: W, y: W, z: W)
    requires Lawful(g)
    ensures g.or(x, g.or(y, z)) == g.or(g.or(x, z), y)
  {
    assert Commutes(g, y, z) && Associates(g, x, z, y);
  }

  /** Zero bytes contribute nothing. */
  lemma {:induction false} ZeroPlaces<W(!new), B(!new)>(g: Alg<W, B>, p: seq<B>, from: nat, n: nat)
    requires Lawful(g) && from <= n < 7 && n < |p| && forall k :: from < k <= n ==> p[k] == g.zero
    ensures Places(g, p, n) == Places(g, p, from)
    decreases n
  {
    if from < n {
      ZeroPlaces(g, p, from, n - 1);
    }
  }

  /** The fall-through switch: the last word, from the bytes after the last full word. */
  method TailWord<W(!new), B(!new)>(g: Alg<W, B>, tail: seq<B>, len: W) returns (b: W)
    requires Lawful(g) && |tail| < 8
    ensures b == LittleEndian(g, tail + ZeroBytes(g, 7 - |tail|) + [g.lowByte(len)])
  {
    ghost var p := tail + ZeroBytes(g, 7 - |tail|) + [g.lowByte(len)];
    ghost var all := LittleEndian(g, p);
    b := g.top(len);
    assert all == g.or(Places(g, p, 6), b);
    if tail == [] {
      ZeroPlaces(g, p, 0, 6);
      assert Commutes(g, g.part(g.zero, 0), b);
    } else {
      ZeroPlaces(g, p, |tail| - 1, 6);
    }
    var k := |tail|;
    while k > 0
      invariant 0 <= k <= |tail|
      invariant all == if k == 0 then b else g.or(Places(g, p, k - 1), b)
    {
      k := k - 1;
      if k > 0 {
        OrSwap(g, Places(g, p, k - 1), b, g.part(p[k], k));
      } else {
        assert Commutes(g, g.part(p[0], 0), b);
      }
      b := g.or(b, g.part(tail[k], k));
    }
  }

  /** One message word: xor in, two rounds, xor again. */
  method Absorb<W, B>(g: Alg<W, B>, v: array<W>, m: W)
    requires v.Length == 4
    modifies v
    ensures Loaded(v) == Compress(g, old(Loaded(v)), m)
  {
    v[3] := g.xor(v[3], m);
    RunRounds(g, v, 2);
    v[0] := g.xor(v[0], m);
  }

  /** The padded message is its full words and one last word made of the rest. */
  lemma {:induction false} PaddedWords<W, B>(g: Alg<W, B>, msg: seq<B>, len: W)
    ensures var left := |msg| % 8;
            Words(g, Pad(g, msg, len)) ==
            Words(g, msg) + [LittleEndian(g, msg[|msg| - left..] + ZeroBytes(g, 7 - left) + [g.lowByte(len)])]
    decreases |msg|
  {
    var p := Pad(g, msg, len);
    if |msg| < 8 {
      assert msg[0..] == msg;
      assert p[..8] == p && p[8..] == [];
    } else {
      assert p[..8] == msg[..8] && p[8..] == Pad(g, msg[8..], len);
      PaddedWords(g, msg[8..], len);
      assert msg[8..][|msg[8..]| - |msg[8..]| % 8..] == msg[|msg| - |msg| % 8..];
    }
  }

  lemma {:induction false} CompressAllConcat<W, B>(g: Alg<W, B>, s: State<W>, a: seq<W>, b: seq<W>)
    ensures CompressAll(g, s, a + b) == CompressAll(g, CompressAll(g, s, a), b)
    decreases |a|
  {
    if a == [] {
      assert a + b == b;
    } else {
      assert (a + b)[0] == a[0] && (a + b)[1..] == a[1..] + b;
      CompressAllConcat(g, Compress(g, s, a[0]), a[1..], b);
    }
  }

  lemma WordsFrom<W, B>(g: Alg<W, B>, buffer: seq<B>, iter: nat)
    requires iter + 8 <= |buffer|
    ensures Words(g, buffer[iter..]) == [LittleEndian(g, buffer[iter..iter + 8])] + Words(g, buffer[iter + 8..])
  {
    var rest := buffer[iter..];
    assert rest[..8] == buffer[iter..iter + 8] && rest[8..] == buffer[iter + 8..];
  }

  /** Where the last full word of a buffer of n bytes ends. */
  function End(n: nat): (end: nat)
    ensures end <= n && end == n - n % 8
  {
    n - n % 8
  }

  /** The loop over the full words. */
  method AbsorbWords<W, B>(g: Alg<W, B>, v: array<W>, buffer: seq<B>)
    requires v.Length == 4
    modifies v
    ensures Loaded(v) == CompressAll(g, old(Loaded(v)), Words(g, buffer))
  {
    var n := |buffer| / 8;
    ghost var all := CompressAll(g, Loaded(v), Words(g, buffer));
    assert buffer[0..] == buffer;
    for i := 0 to n
      invariant CompressAll(g, Loaded(v), Words(g, buffer[8 * i..])) == all
    {
      var m := Unpack(g, buffer[8 * i..8 * i + 8]);
      WordsFrom(g, buffer, 8 * i);
      Absorb(g, v, m);
      assert 8 * i + 8 == 8 * (i + 1);
    }
  }

  lemma CompressPadded<W, B>(g: Alg<W, B>, s: State<W>, msg: seq<B>, len: W, end: nat)
    requires end == |msg| - |msg| % 8
    ensures CompressAll(g, s, Words(g, Pad(g, msg, len))) ==
            Compress(g, CompressAll(g, s, Words(g, msg)),
                     LittleEndian(g, msg[end..] + ZeroBytes(g, 7 - |msg[end..]|) + [g.lowByte(len)]))
  {
    var b := LittleEndian(g, msg[end..] + ZeroBytes(g, 7 - |msg[end..]|) + [g.lowByte(len)]);
    PaddedWords(g, msg, len);
    assert Words(g, Pad(g, msg, len)) == Words(g, msg) + [b];
    CompressAllConcat(g, s, Words(g, msg), [b]);
    AbsorbedLast(g, CompressAll(g, s, Words(g, msg)), b);
  }

  /** The hash in terms of the state after the full words, and the last word. */
  lemma HashSplit<W, B>(g: Alg<W, B>, msg: seq<B>, len: W, key: seq<B>, tail: seq<B>, full: State<W>, b: W)
    requires |key| == 16 && tail == msg[End(|msg|)..] && |tail| < 8
    requires full == CompressAll(g, Initial(g, key), Words(g, msg))
    requires b == LittleEndian(g, tail + ZeroBytes(g, 7 - |tail|) + [g.lowByte(len)])
    ensures SipHash24(g, msg, len, key) == Finalize(g, Compress(g, full, b))
  {
    hide Words, Pad, CompressAll, Compress, Finalize, LittleEndian, ZeroBytes, Initial;
    CompressPadded(g, Initial(g, key), msg, len, End(|msg|));
  }

  method Keyed<W, B>(g: Alg<W, B>, seed: seq<B>) returns (v: array<W>)
    requires |seed| == 16
    ensures fresh(v) && v.Length == 4 && Loaded(v) == Initial(g, seed)
  {
    v := new W[4][g.c0, g.c1, g.c2, g.c3];
    var k0 := Unpack(g, seed[..8]);
    var k1 := Unpack(g, seed[8..]);
    v[3] := g.xor(v[3], k1);
    v[2] := g.xor(v[2], k0);
    v[1] := g.xor(v[1], k1);
    v[0] := g.xor(v[0], k0);
  }

  method Finish<W, B>(g: Alg<W, B>, v: array<W>) returns (h: W)
    requires v.Length == 4
    modifies v
    ensures h == Finalize(g, old(Loaded(v)))
  {
    v[2] := g.xor(v[2], g.ff);
    RunRounds(g, v, 4);
    h := g.xor(g.xor(g.xor(v[0], v[1]), v[2]), v[3]);
  }

  /** jaeger_siphash; `len` is the length as a word. */
  method Hash<W(!new), B(!new)>(g: Alg<W, B>, buffer: seq<B>, len: W, seed: seq<B>) returns (h: W)
    requires Lawful(g) && |seed| == 16
    ensures h == SipHash24(g, buffer, len, seed)
  {
    var v := Keyed(g, seed);
    AbsorbWords(g, v, buffer);
    ghost var full := Loaded(v);
    assert full == CompressAll(g, Initial(g, seed), Words(g, buffer));
    var tail := buffer[End(|buffer|)..];
    var b := TailWord(g, tail, len);
    Absorb(g, v, b);
    h := Finish(g, v);
    HashSplit(g, buffer, len, seed, tail, full, b);
  }

  lemma AbsorbedLast<W, B>(g: Alg<W, B>, s: State<W>, b: W)
    ensures CompressAll(g, s, [b]) == Compress(g, s, b)
  {
    assert CompressAll(g, Compress(g, s, b), []) == Compress(g, s, b);
  }
}
