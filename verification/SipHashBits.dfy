/** The 64-bit words of siphash.c, and the laws SipHash relies on. */
module SipHashBits {
  import opened SipHash

  type Word = bv64
  /** A byte, widened to a word as the code does before it shifts. */
  type Byte = w: Word | w <= 0xff

  function Add(x: Word, y: Word): Word { x + y }
  function Sub(x: Word, y: Word): Word { x - y }
  function Xor(x: Word, y: Word): Word { x ^ y }
  function Or(x: Word, y: Word): Word { x | y }

  function Rotl(x: Word, d: Distance): Word {
    match d
    case R13 => (x << 13) | (x >> 51)
    case R16 => (x << 16) | (x >> 48)
    case R17 => (x << 17) | (x >> 47)
    case R21 => (x << 21) | (x >> 43)
    case R32 => (x << 32) | (x >> 32)
  }

  function Rotr(x: Word, d: Distance): Word {
    match d
    case R13 => (x >> 13) | (x << 51)
    case R16 => (x >> 16) | (x << 48)
    case R17 => (x >> 17) | (x << 47)
    case R21 => (x >> 21) | (x << 43)
    case R32 => (x >> 32) | (x << 32)
  }

  function Part(b: Byte, i: nat): Word {
    var w: Word := b;
    match i
    case 0 => w
    case 1 => w << 8
    case 2 => w << 16
    case 3 => w << 24
    case 4 => w << 32
    case 5 => w << 40
    case 6 => w << 48
    case _ => w << 56
  }

  function Top(w: Word): Word { w << 56 }

  function LowByte(w: Word): Byte {
    LowByteFits(w);
    w & 0xff
  }

  const Bits: Alg<Word, Byte> := Alg(
    Add, Sub, Xor, Or, Rotl, Rotr, Part, Top, LowByte, 0,
    0x736f6d6570736575, 0x646f72616e646f6d, 0x6c7967656e657261, 0x7465646279746573, 0xff)

  // ----- facts about single words

  lemma LowByteFits(w: Word)
    ensures w & 0xff <= 0xff
  {
  }

  lemma AddSub(x: Word, y: Word)
    ensures (x + y) - y == x && (x - y) + y == x
  {
  }

  lemma AddBack(x: Word, y: Word)
    ensures Sub(x + y, y) == x && Add(x - y, y) == x
  {
    AddSub(x, y);
  }

  lemma AddUndone(x: Word, y: Word)
    ensures Sub(Add(x, y), y) == x
  {
    AddBack(x, y);
    assert Add(x, y) == x + y;
  }

  lemma SubUndone(x: Word, y: Word)
    ensures Add(Sub(x, y), y) == x
  {
    AddBack(x, y);
    assert Sub(x, y) == x - y;
  }

  lemma XorXor(x: Word, y: Word)
    ensures (x ^ y) ^ y == x
  {
  }

  lemma XorBack(x: Word, y: Word)
    ensures Xor(x ^ y, y) == x
  {
    XorXor(x, y);
  }

  lemma XorUndone(x: Word, y: Word)
    ensures Xor(Xor(x, y), y) == x
  {
    XorBack(x, y);
    assert Xor(x, y) == x ^ y;
  }

  lemma Back13(x: Word)
    ensures Rotr(Rotl(x, R13), R13) == x && Rotl(Rotr(x, R13), R13) == x
  {
  }

  lemma Back16(x: Word)
    ensures Rotr(Rotl(x, R16), R16) == x && Rotl(Rotr(x, R16), R16) == x
  {
  }

  lemma Back17(x: Word)
    ensures Rotr(Rotl(x, R17), R17) == x && Rotl(Rotr(x, R17), R17) == x
  {
  }

  lemma Back21(x: Word)
    ensures Rotr(Rotl(x, R21), R21) == x && Rotl(Rotr(x, R21), R21) == x
  {
  }

  lemma Back32(x: Word)
    ensures Rotr(Rotl(x, R32), R32) == x && Rotl(Rotr(x, R32), R32) == x
  {
  }

  lemma RotateBack(x: Word, d: Distance)
    ensures Rotr(Rotl(x, d), d) == x && Rotl(Rotr(x, d), d) == x
  {
    match d
    case R13 => Back13(x);
    case R16 => Back16(x);
    case R17 => Back17(x);
    case R21 => Back21(x);
    case R32 => Back32(x);
  }

  /** Shifting the length to the top keeps its low byte only. */
  lemma LengthShift(len: Word)
    ensures (len & 0xff) << 56 == len << 56
  {
  }

  lemma TopIsLowByte(len: Word)
    ensures Part(LowByte(len), 7) == Top(len)
  {
    LengthShift(len);
  }

  lemma OrZero(x: Word)
    ensures x | 0 == x
  {
  }

  lemma OrNothing(x: Word, i: nat)
    requires i < 7
    ensures Or(x, Part(0, i)) == x
  {
    OrZero(x);
    assert Part(0, i) == 0;
  }

  lemma OrLaws(x: Word, y: Word, z: Word)
    ensures x | y == y | x && (x | y) | z == x | (y | z)
  {
  }

  lemma OrAssociates(x: Word, y: Word, z: Word)
    ensures Or(Or(x, y), z) == Or(x, Or(y, z))
  {
    OrLaws(x, y, z);
    assert Or(x, y) == x | y && Or(y, z) == y | z;
    assert Or(x | y, z) == (x | y) | z && Or(x, y | z) == x | (y | z);
  }

  lemma OrCommutes(x: Word, y: Word)
    ensures Or(x, y) == Or(y, x)
  {
    OrLaws(x, y, x);
  }

  /** The machine words are a word algebra in the sense SipHash needs. */
  lemma {:induction false} BitsLawful()
    ensures Lawful(Bits)
  {
    forall x, y ensures Sub(Add(x, y), y) == x { AddUndone(x, y); }
    forall x, y ensures Add(Sub(x, y), y) == x { SubUndone(x, y); }
    forall x, y ensures Xor(Xor(x, y), y) == x { XorUndone(x, y); }
    forall x, d ensures Rotr(Rotl(x, d), d) == x && Rotl(Rotr(x, d), d) == x { RotateBack(x, d); }
    forall x, i | 0 <= i < 7 ensures Or(x, Part(0, i)) == x { OrNothing(x, i); }
    forall x ensures Part(LowByte(x), 7) == Top(x) { TopIsLowByte(x); }
    forall x, y ensures Commutes(Bits, x, y) { OrCommutes(x, y); }
    forall x, y, z ensures Associates(Bits, x, y, z) { OrAssociates(x, y, z); }
  }

  /** On machine words, SipRound permutes the states. */
  lemma {:induction false} RoundPermutesStates(s: State<Word>)
    ensures InverseRound(Bits, SipRound(Bits, s)) == s && SipRound(Bits, InverseRound(Bits, s)) == s
  {
    BitsLawful();
    SipRoundBijective(Bits, s);
  }

  /** jaeger_siphash on a buffer whose length a size_t can hold. */
  method Siphash(buffer: seq<Byte>, seed: seq<Byte>) returns (h: Word)
    requires |buffer| < 0x1_0000_0000_0000_0000 && |seed| == 16
    ensures h == SipHash24(Bits, buffer, |buffer| as Word, seed)
  {
    BitsLawful();
    h := Hash(Bits, buffer, |buffer| as Word, seed);
  }
}
