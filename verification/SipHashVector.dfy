/**
  The test vector of appendix A of Aumasson and Bernstein, "SipHash: a fast short-input PRF":
  the key 00 01 .. 0f and the message 00 01 .. 0e hash to a129ca6149be45e5.  It ties the
  definition down to its constants, distances and numbers of rounds.
 */
module SipHashVector {
  import opened SipHash
  import opened SipHashBits

  // ----- bytes and words

  function Bytes(n: nat): (s: seq<Byte>)
    requires n <= 16
    ensures |s| == n
  {
    Sixteen[..n]
  }

  const Sixteen: seq<Byte> := [0, 1, 2, 3, 4, 5, 6, 7, 8, 9, 10, 11, 12, 13, 14, 15]

  lemma PlacesStep(s: seq<Byte>, n: nat, w: Word, x: Word)
    requires 0 < n < |s| && Places(Bits, s, n - 1) == w && Or(w, Part(s[n], n)) == x
    ensures Places(Bits, s, n) == x
  {
  }

  lemma PlacesFirst(s: seq<Byte>)
    requires |s| > 0
    ensures Places(Bits, s, 0) == Part(s[0], 0)
  {
  }

  lemma LowWordLow()
    ensures Places(Bits, [0, 1, 2, 3, 4, 5, 6, 7], 3) == 0x0000000003020100
  {
    var s: seq<Byte> := [0, 1, 2, 3, 4, 5, 6, 7];
    PlacesFirst(s);
    PlacesStep(s, 1, 0x0000000000000000, 0x0000000000000100);
    PlacesStep(s, 2, 0x0000000000000100, 0x0000000000020100);
    PlacesStep(s, 3, 0x0000000000020100, 0x0000000003020100);
  }

  lemma LowWord()
    ensures LittleEndian(Bits, [0, 1, 2, 3, 4, 5, 6, 7]) == 0x0706050403020100
  {
    var s: seq<Byte> := [0, 1, 2, 3, 4, 5, 6, 7];
    LowWordLow();
    PlacesStep(s, 4, 0x0000000003020100, 0x0000000403020100);
    PlacesStep(s, 5, 0x0000000403020100, 0x0000050403020100);
    PlacesStep(s, 6, 0x0000050403020100, 0x0006050403020100);
    PlacesStep(s, 7, 0x0006050403020100, 0x0706050403020100);
  }

  lemma HighWordLow()
    ensures Places(Bits, [8, 9, 10, 11, 12, 13, 14, 15], 3) == 0x000000000b0a0908
  {
    var s: seq<Byte> := [8, 9, 10, 11, 12, 13, 14, 15];
    PlacesFirst(s);
    PlacesStep(s, 1, 0x0000000000000008, 0x0000000000000908);
    PlacesStep(s, 2, 0x0000000000000908, 0x00000000000a0908);
    PlacesStep(s, 3, 0x00000000000a0908, 0x000000000b0a0908);
  }

  lemma HighWord()
    ensures LittleEndian(Bits, [8, 9, 10, 11, 12, 13, 14, 15]) == 0x0f0e0d0c0b0a0908
  {
    var s: seq<Byte> := [8, 9, 10, 11, 12, 13, 14, 15];
    HighWordLow();
    PlacesStep(s, 4, 0x000000000b0a0908, 0x0000000c0b0a0908);
    PlacesStep(s, 5, 0x0000000c0b0a0908, 0x00000d0c0b0a0908);
    PlacesStep(s, 6, 0x00000d0c0b0a0908, 0x000e0d0c0b0a0908);
    PlacesStep(s, 7, 0x000e0d0c0b0a0908, 0x0f0e0d0c0b0a0908);
  }

  // ----- rounds

  /** A round, by its four mixes. */
  lemma RoundIs(s: State<Word>, a: Word, b: Word, c: Word, d: Word, a': Word, b': Word, c': Word, d': Word)
    requires Add(s.v0, s.v1) == a && Xor(Rotl(s.v1, R13), a) == b
    requires Add(s.v2, s.v3) == c && Xor(Rotl(s.v3, R16), c) == d
    requires Add(Rotl(a, R32), d) == a' && Xor(Rotl(d, R21), a') == d'
    requires Add(c, b) == c' && Xor(Rotl(b, R17), c') == b'
    ensures SipRound(Bits, s) == State(a', b', Rotl(c', R32), d')
  {
    hide Add, Xor, Rotl, Mix;
    MixIs(s.v0, s.v1, R13);
    MixIs(s.v2, s.v3, R16);
    MixIs(Rotl(a, R32), d, R21);
    MixIs(c, b, R17);
    RotlIs(a);
    RotlIs(c');
  }

  lemma RotlIs(x: Word)
    ensures (Bits.rotl)(x, R32) == Rotl(x, R32)
  {
    hide Rotl;
  }

  lemma MixIs(a: Word, b: Word, d: Distance)
    ensures Mix(Bits, a, b, d) == (Add(a, b), Xor(Rotl(b, d), Add(a, b)))
  {
    hide Add, Xor, Rotl;
  }

  lemma Round1()
    ensures SipRound(Bits, State(0x7469686173716475, 0x6b617f6d656e6665, 0x6b7f62616d677361, 0x7c6d6c6a717c6d7b))
            == State(0x64668a929363847f, 0x4ed232083d9aa8dc, 0xf2f74892d8141a2e, 0x9290f9810552f4a8)
  {
    RoundIs(State(0x7469686173716475, 0x6b617f6d656e6665, 0x6b7f62616d677361, 0x7c6d6c6a717c6d7b),
            0xdfcae7ced8dfcada, 0xf0274b63141367b6, 0xe7eccecbdee3e0dc, 0x8b86bfb7b3989cb1,
            0x64668a929363847f, 0x4ed232083d9aa8dc, 0xd8141a2ef2f74892, 0x9290f9810552f4a8);
  }

  lemma Round2()
    ensures SipRound(Bits, State(0x64668a929363847f, 0x4ed232083d9aa8dc, 0xf2f74892d8141a2e, 0x9290f9810552f4a8))
            == State(0x4d07749cdd0858e0, 0x0d52f6f62a4f59a4, 0x634cb3577b01fd3d, 0xa5224d6f55c7d9c8)
  {
    RoundIs(State(0x64668a929363847f, 0x4ed232083d9aa8dc, 0xf2f74892d8141a2e, 0x9290f9810552f4a8),
            0xb338bc9ad0fe2d5b, 0xf579bb2985e5a481, 0x85884213dd670ed6, 0x7c09474129cf9c46,
            0x4d07749cdd0858e0, 0x0d52f6f62a4f59a4, 0x7b01fd3d634cb357, 0xa5224d6f55c7d9c8);
  }

  lemma Round3()
    ensures SipRound(Bits, State(0x4a017198de0a59e0, 0x0d52f6f62a4f59a4, 0x634cb3577b01fd3d, 0xaa2c40635ecdd0c0))
            == State(0x557560fb6063d060, 0x4c8e675bd961133e, 0xbd3d002b1703a181, 0xfb9441179a4a7315)
  {
    RoundIs(State(0x4a017198de0a59e0, 0x0d52f6f62a4f59a4, 0x634cb3577b01fd3d, 0xaa2c40635ecdd0c0),
            0x5754688f0859b384, 0x098aadc6e36d322e, 0x0d78f3bad9cfcdfd, 0x4d1bad77090f67d1,
            0x557560fb6063d060, 0x4c8e675bd961133e, 0x1703a181bd3d002b, 0xfb9441179a4a7315);
  }

  lemma Round4()
    ensures SipRound(Bits, State(0x557560fb6063d060, 0x4c8e675bd961133e, 0xbd3d002b1703a181, 0xfb9441179a4a7315))
            == State(0x338bbea7645fb759, 0x414fc3fb98efe374, 0xccf13ea527b9f4bd, 0x5293f5da84008f82)
  {
    RoundIs(State(0x557560fb6063d060, 0x4c8e675bd961133e, 0xbd3d002b1703a181, 0xfb9441179a4a7315),
            0xa203c85739c4e39e, 0x6ee8b37b1ba32a0f, 0xb8d14142b14e1496, 0xf9c6db08c25bef02,
            0x338bbea7645fb759, 0x414fc3fb98efe374, 0x27b9f4bdccf13ea5, 0x5293f5da84008f82);
  }

  lemma Round5()
    ensures SipRound(Bits, State(0x3c85b3ab6f55be51, 0x414fc3fb98efe374, 0xccf13ea527b9f442, 0x5293f5da84008f82))
            == State(0xf2a55244a20e48fe, 0xac5ad16ccc3ca6e4, 0x9fe5adb0a52f393a, 0xfd41d55e88f30308)
  {
    RoundIs(State(0x3c85b3ab6f55be51, 0x414fc3fb98efe374, 0xccf13ea527b9f442, 0x5293f5da84008f82),
            0x7dd577a70845a1c5, 0x85aa04baf42b29ec, 0x1f85347fabba83c4, 0xea5fb07f2438d157,
            0xf2a55244a20e48fe, 0xac5ad16ccc3ca6e4, 0xa52f393a9fe5adb0, 0xfd41d55e88f30308);
  }

  lemma Round6()
    ensures SipRound(Bits, State(0xf2a55244a20e48fe, 0xac5ad16ccc3ca6e4, 0x9fe5adb0a52f393a, 0xfd41d55e88f30308))
            == State(0xb6c3fbdecc2ae4b4, 0x1638c86adc6b3cf0, 0x28b8b6ab62553d46, 0xc9465e86ec43eb95)
  {
    RoundIs(State(0xf2a55244a20e48fe, 0xac5ad16ccc3ca6e4, 0x9fe5adb0a52f393a, 0xfd41d55e88f30308),
            0x9f0023b16e4aefe2, 0xc52dba36fa967a69, 0x9d27830f2e223c42, 0x48790bfc2d2ac103,
            0xb6c3fbdecc2ae4b4, 0x1638c86adc6b3cf0, 0x62553d4628b8b6ab, 0xc9465e86ec43eb95);
  }

  lemma Round7()
    ensures SipRound(Bits, State(0xb6c3fbdecc2ae4b4, 0x1638c86adc6b3cf0, 0x28b8b6ab62553d46, 0xc9465e86ec43eb95))
            == State(0x58101b167209a5e6, 0xf8792ae75b66e7dd, 0x1da14c3ec7f0b4f7, 0x7624ba8a41bc4ad9)
  {
    RoundIs(State(0xb6c3fbdecc2ae4b4, 0x1638c86adc6b3cf0, 0x28b8b6ab62553d46, 0xc9465e86ec43eb95),
            0xccfcc449a89621a4, 0xd5f19fc4cf082363, 0xf1ff15324e9928db, 0xaf79f971a50ce19d,
            0x58101b167209a5e6, 0xf8792ae75b66e7dd, 0xc7f0b4f71da14c3e, 0x7624ba8a41bc4ad9);
  }

  lemma Round8()
    ensures SipRound(Bits, State(0x58101b167209a5e6, 0xf8792ae75b66e7dd, 0x1da14c3ec7f0b4f7, 0x7624ba8a41bc4ad9))
            == State(0xf6bcd53893fecff1, 0x54b9964c7ea0d937, 0x1b38329c099bb55a, 0x1814bb89ad7be679)
  {
    RoundIs(State(0x58101b167209a5e6, 0xf8792ae75b66e7dd, 0x1da14c3ec7f0b4f7, 0x7624ba8a41bc4ad9),
            0x508945fdcd708dc3, 0x75d5ae91118b32cc, 0x93c606c909acffd0, 0x294c4775437589f4,
            0xf6bcd53893fecff1, 0x54b9964c7ea0d937, 0x099bb55a1b38329c, 0x1814bb89ad7be679);
  }

  lemma TwoRounds(s: State<Word>, t: State<Word>, u: State<Word>)
    requires SipRound(Bits, s) == t && SipRound(Bits, t) == u
    ensures Rounds(Bits, s, 2) == u
  {
    assert Rounds(Bits, s, 0) == s && Rounds(Bits, s, 1) == t;
  }

  lemma FourRounds(s: State<Word>, t: State<Word>, u: State<Word>, v: State<Word>, w: State<Word>)
    requires SipRound(Bits, s) == t && SipRound(Bits, t) == u && SipRound(Bits, u) == v && SipRound(Bits, v) == w
    ensures Rounds(Bits, s, 4) == w
  {
    assert Rounds(Bits, s, 0) == s && Rounds(Bits, s, 1) == t && Rounds(Bits, s, 2) == u && Rounds(Bits, s, 3) == v;
  }

  // ----- the words of the message

  lemma FirstWord()
    ensures Compress(Bits, State(0x7469686173716475, 0x6b617f6d656e6665, 0x6b7f62616d677361, 0x7b6b696e727e6c7b), 0x0706050403020100)
            == State(0x4a017198de0a59e0, 0x0d52f6f62a4f59a4, 0x634cb3577b01fd3d, 0xa5224d6f55c7d9c8)
  {
    Round1();
    Round2();
    assert Xor(0x7b6b696e727e6c7b, 0x0706050403020100) == 0x7c6d6c6a717c6d7b;
    TwoRounds(State(0x7469686173716475, 0x6b617f6d656e6665, 0x6b7f62616d677361, 0x7c6d6c6a717c6d7b),
              State(0x64668a929363847f, 0x4ed232083d9aa8dc, 0xf2f74892d8141a2e, 0x9290f9810552f4a8),
              State(0x4d07749cdd0858e0, 0x0d52f6f62a4f59a4, 0x634cb3577b01fd3d, 0xa5224d6f55c7d9c8));
    assert Xor(0x4d07749cdd0858e0, 0x0706050403020100) == 0x4a017198de0a59e0;
  }

  lemma LastWord()
    ensures Compress(Bits, State(0x4a017198de0a59e0, 0x0d52f6f62a4f59a4, 0x634cb3577b01fd3d, 0xa5224d6f55c7d9c8), 0x0f0e0d0c0b0a0908)
            == State(0x3c85b3ab6f55be51, 0x414fc3fb98efe374, 0xccf13ea527b9f4bd, 0x5293f5da84008f82)
  {
    Round3();
    Round4();
    assert Xor(0xa5224d6f55c7d9c8, 0x0f0e0d0c0b0a0908) == 0xaa2c40635ecdd0c0;
    TwoRounds(State(0x4a017198de0a59e0, 0x0d52f6f62a4f59a4, 0x634cb3577b01fd3d, 0xaa2c40635ecdd0c0),
              State(0x557560fb6063d060, 0x4c8e675bd961133e, 0xbd3d002b1703a181, 0xfb9441179a4a7315),
              State(0x338bbea7645fb759, 0x414fc3fb98efe374, 0xccf13ea527b9f4bd, 0x5293f5da84008f82));
    assert Xor(0x338bbea7645fb759, 0x0f0e0d0c0b0a0908) == 0x3c85b3ab6f55be51;
  }

  lemma Final()
    ensures Finalize(Bits, State(0x3c85b3ab6f55be51, 0x414fc3fb98efe374, 0xccf13ea527b9f4bd, 0x5293f5da84008f82)) == 0xa129ca6149be45e5
  {
    Round5();
    Round6();
    Round7();
    Round8();
    assert Xor(0xccf13ea527b9f4bd, 0xff) == 0xccf13ea527b9f442;
    FourRounds(State(0x3c85b3ab6f55be51, 0x414fc3fb98efe374, 0xccf13ea527b9f442, 0x5293f5da84008f82),
               State(0xf2a55244a20e48fe, 0xac5ad16ccc3ca6e4, 0x9fe5adb0a52f393a, 0xfd41d55e88f30308),
               State(0xb6c3fbdecc2ae4b4, 0x1638c86adc6b3cf0, 0x28b8b6ab62553d46, 0xc9465e86ec43eb95),
               State(0x58101b167209a5e6, 0xf8792ae75b66e7dd, 0x1da14c3ec7f0b4f7, 0x7624ba8a41bc4ad9),
               State(0xf6bcd53893fecff1, 0x54b9964c7ea0d937, 0x1b38329c099bb55a, 0x1814bb89ad7be679));
    assert Xor(0xf6bcd53893fecff1, 0x54b9964c7ea0d937) == 0xa2054374ed5e16c6;
    assert Xor(0xa2054374ed5e16c6, 0x1b38329c099bb55a) == 0xb93d71e8e4c5a39c;
    assert Xor(0xb93d71e8e4c5a39c, 0x1814bb89ad7be679) == 0xa129ca6149be45e5;
  }

  lemma Start()
    ensures Initial(Bits, Bytes(16)) == State(0x7469686173716475, 0x6b617f6d656e6665, 0x6b7f62616d677361, 0x7b6b696e727e6c7b)
  {
    LowWord();
    HighWord();
    assert Bytes(16)[..8] == [0, 1, 2, 3, 4, 5, 6, 7] && Bytes(16)[8..] == [8, 9, 10, 11, 12, 13, 14, 15];
    assert Xor(0x736f6d6570736575, 0x0706050403020100) == 0x7469686173716475;
    assert Xor(0x646f72616e646f6d, 0x0f0e0d0c0b0a0908) == 0x6b617f6d656e6665;
    assert Xor(0x6c7967656e657261, 0x0706050403020100) == 0x6b7f62616d677361;
    assert Xor(0x7465646279746573, 0x0f0e0d0c0b0a0908) == 0x7b6b696e727e6c7b;
  }

  // ----- the constants

  lemma Text0Low()
    ensures Places(Bits, [117, 101, 115, 112, 101, 109, 111, 115], 3) == 0x0000000070736575
  {
    var s: seq<Byte> := [117, 101, 115, 112, 101, 109, 111, 115];
    PlacesFirst(s);
    PlacesStep(s, 1, 0x0000000000000075, 0x0000000000006575);
    PlacesStep(s, 2, 0x0000000000006575, 0x0000000000736575);
    PlacesStep(s, 3, 0x0000000000736575, 0x0000000070736575);
  }

  lemma Text0()
    ensures LittleEndian(Bits, [117, 101, 115, 112, 101, 109, 111, 115]) == 0x736f6d6570736575
  {
    var s: seq<Byte> := [117, 101, 115, 112, 101, 109, 111, 115];
    Text0Low();
    PlacesStep(s, 4, 0x0000000070736575, 0x0000006570736575);
    PlacesStep(s, 5, 0x0000006570736575, 0x00006d6570736575);
    PlacesStep(s, 6, 0x00006d6570736575, 0x006f6d6570736575);
    PlacesStep(s, 7, 0x006f6d6570736575, 0x736f6d6570736575);
  }

  lemma Text1Low()
    ensures Places(Bits, [109, 111, 100, 110, 97, 114, 111, 100], 3) == 0x000000006e646f6d
  {
    var s: seq<Byte> := [109, 111, 100, 110, 97, 114, 111, 100];
    PlacesFirst(s);
    PlacesStep(s, 1, 0x000000000000006d, 0x0000000000006f6d);
    PlacesStep(s, 2, 0x0000000000006f6d, 0x0000000000646f6d);
    PlacesStep(s, 3, 0x0000000000646f6d, 0x000000006e646f6d);
  }

  lemma Text1()
    ensures LittleEndian(Bits, [109, 111, 100, 110, 97, 114, 111, 100]) == 0x646f72616e646f6d
  {
    var s: seq<Byte> := [109, 111, 100, 110, 97, 114, 111, 100];
    Text1Low();
    PlacesStep(s, 4, 0x000000006e646f6d, 0x000000616e646f6d);
    PlacesStep(s, 5, 0x000000616e646f6d, 0x000072616e646f6d);
    PlacesStep(s, 6, 0x000072616e646f6d, 0x006f72616e646f6d);
    PlacesStep(s, 7, 0x006f72616e646f6d, 0x646f72616e646f6d);
  }

  lemma Text2Low()
    ensures Places(Bits, [97, 114, 101, 110, 101, 103, 121, 108], 3) == 0x000000006e657261
  {
    var s: seq<Byte> := [97, 114, 101, 110, 101, 103, 121, 108];
    PlacesFirst(s);
    PlacesStep(s, 1, 0x0000000000000061, 0x0000000000007261);
    PlacesStep(s, 2, 0x0000000000007261, 0x0000000000657261);
    PlacesStep(s, 3, 0x0000000000657261, 0x000000006e657261);
  }

  lemma Text2()
    ensures LittleEndian(Bits, [97, 114, 101, 110, 101, 103, 121, 108]) == 0x6c7967656e657261
  {
    var s: seq<Byte> := [97, 114, 101, 110, 101, 103, 121, 108];
    Text2Low();
    PlacesStep(s, 4, 0x000000006e657261, 0x000000656e657261);
    PlacesStep(s, 5, 0x000000656e657261, 0x000067656e657261);
    PlacesStep(s, 6, 0x000067656e657261, 0x007967656e657261);
    PlacesStep(s, 7, 0x007967656e657261, 0x6c7967656e657261);
  }

  lemma Text3Low()
    ensures Places(Bits, [115, 101, 116, 121, 98, 100, 101, 116], 3) == 0x0000000079746573
  {
    var s: seq<Byte> := [115, 101, 116, 121, 98, 100, 101, 116];
    PlacesFirst(s);
    PlacesStep(s, 1, 0x0000000000000073, 0x0000000000006573);
    PlacesStep(s, 2, 0x0000000000006573, 0x0000000000746573);
    PlacesStep(s, 3, 0x0000000000746573, 0x0000000079746573);
  }

  lemma Text3()
    ensures LittleEndian(Bits, [115, 101, 116, 121, 98, 100, 101, 116]) == 0x7465646279746573
  {
    var s: seq<Byte> := [115, 101, 116, 121, 98, 100, 101, 116];
    Text3Low();
    PlacesStep(s, 4, 0x0000000079746573, 0x0000006279746573);
    PlacesStep(s, 5, 0x0000006279746573, 0x0000646279746573);
    PlacesStep(s, 6, 0x0000646279746573, 0x0065646279746573);
    PlacesStep(s, 7, 0x0065646279746573, 0x7465646279746573);
  }

  /** The ASCII codes of eight characters, last first. */
  predicate Codes(s: seq<Byte>, text: string) {
    |s| == 8 && |text| == 8 && forall i :: 0 <= i < 8 ==> s[i] as int == text[7 - i] as int
  }

  lemma Spell0()
    ensures Codes([117, 101, 115, 112, 101, 109, 111, 115], "somepseu")
  {
    var s: seq<Byte> := [117, 101, 115, 112, 101, 109, 111, 115];
    var text := "somepseu";
    assert s[0] as int == 117 && text[7] as int == 117;
    assert s[1] as int == 101 && text[6] as int == 101;
    assert s[2] as int == 115 && text[5] as int == 115;
    assert s[3] as int == 112 && text[4] as int == 112;
    assert s[4] as int == 101 && text[3] as int == 101;
    assert s[5] as int == 109 && text[2] as int == 109;
    assert s[6] as int == 111 && text[1] as int == 111;
    assert s[7] as int == 115 && text[0] as int == 115;
  }

  lemma Spell1()
    ensures Codes([109, 111, 100, 110, 97, 114, 111, 100], "dorandom")
  {
    var s: seq<Byte> := [109, 111, 100, 110, 97, 114, 111, 100];
    var text := "dorandom";
    assert s[0] as int == 109 && text[7] as int == 109;
    assert s[1] as int == 111 && text[6] as int == 111;
    assert s[2] as int == 100 && text[5] as int == 100;
    assert s[3] as int == 110 && text[4] as int == 110;
    assert s[4] as int == 97 && text[3] as int == 97;
    assert s[5] as int == 114 && text[2] as int == 114;
    assert s[6] as int == 111 && text[1] as int == 111;
    assert s[7] as int == 100 && text[0] as int == 100;
  }

  lemma Spell2()
    ensures Codes([97, 114, 101, 110, 101, 103, 121, 108], "lygenera")
  {
    var s: seq<Byte> := [97, 114, 101, 110, 101, 103, 121, 108];
    var text := "lygenera";
    assert s[0] as int == 97 && text[7] as int == 97;
    assert s[1] as int == 114 && text[6] as int == 114;
    assert s[2] as int == 101 && text[5] as int == 101;
    assert s[3] as int == 110 && text[4] as int == 110;
    assert s[4] as int == 101 && text[3] as int == 101;
    assert s[5] as int == 103 && text[2] as int == 103;
    assert s[6] as int == 121 && text[1] as int == 121;
    assert s[7] as int == 108 && text[0] as int == 108;
  }

  lemma Spell3()
    ensures Codes([115, 101, 116, 121, 98, 100, 101, 116], "tedbytes")
  {
    var s: seq<Byte> := [115, 101, 116, 121, 98, 100, 101, 116];
    var text := "tedbytes";
    assert s[0] as int == 115 && text[7] as int == 115;
    assert s[1] as int == 101 && text[6] as int == 101;
    assert s[2] as int == 116 && text[5] as int == 116;
    assert s[3] as int == 121 && text[4] as int == 121;
    assert s[4] as int == 98 && text[3] as int == 98;
    assert s[5] as int == 100 && text[2] as int == 100;
    assert s[6] as int == 101 && text[1] as int == 101;
    assert s[7] as int == 116 && text[0] as int == 116;
  }

  lemma Constant0()
    ensures exists s :: Codes(s, "somepseu") && LittleEndian(Bits, s) == Bits.c0
  {
    hide Codes, LittleEndian;
    Text0();
    Spell0();
  }

  lemma Constant1()
    ensures exists s :: Codes(s, "dorandom") && LittleEndian(Bits, s) == Bits.c1
  {
    hide Codes, LittleEndian;
    Text1();
    Spell1();
  }

  lemma Constant2()
    ensures exists s :: Codes(s, "lygenera") && LittleEndian(Bits, s) == Bits.c2
  {
    hide Codes, LittleEndian;
    Text2();
    Spell2();
  }

  lemma Constant3()
    ensures exists s :: Codes(s, "tedbytes") && LittleEndian(Bits, s) == Bits.c3
  {
    hide Codes, LittleEndian;
    Text3();
    Spell3();
  }

  /** The initial constants are the big-endian words of "somepseudorandomlygeneratedbytes". */
  lemma {:induction false} ConstantsSpellText()
    ensures exists s :: Codes(s, "somepseu") && LittleEndian(Bits, s) == Bits.c0
    ensures exists s :: Codes(s, "dorandom") && LittleEndian(Bits, s) == Bits.c1
    ensures exists s :: Codes(s, "lygenera") && LittleEndian(Bits, s) == Bits.c2
    ensures exists s :: Codes(s, "tedbytes") && LittleEndian(Bits, s) == Bits.c3
  {
    hide Codes, LittleEndian;
    Constant0();
    Constant1();
    Constant2();
    Constant3();
  }

  lemma MessageWords()
    ensures Words(Bits, Pad(Bits, Bytes(15), 15)) == [0x0706050403020100, 0x0f0e0d0c0b0a0908]
  {
    LowWord();
    HighWord();
    var p := Pad(Bits, Bytes(15), 15);
    LowByteOf15();
    assert p == Sixteen;
    assert p[..8] == [0, 1, 2, 3, 4, 5, 6, 7] && p[8..] == [8, 9, 10, 11, 12, 13, 14, 15];
    assert p[8..][..8] == p[8..] && p[8..][8..] == [];
    assert Words(Bits, []) == [];
    assert Words(Bits, p[8..]) == [LittleEndian(Bits, p[8..])] + [];
  }

  lemma LowByteOf15()
    ensures LowByte(15) == 15
  {
  }

  /** The published value. */
  lemma {:induction false} TestVector()
    ensures SipHash24(Bits, Bytes(15), 15, Bytes(16)) == 0xa129ca6149be45e5
  {
    hide Words, Pad, Initial, Compress, Finalize;
    Start();
    MessageWords();
    FirstWord();
    LastWord();
    Final();
    CompressTwo(State(0x7469686173716475, 0x6b617f6d656e6665, 0x6b7f62616d677361, 0x7b6b696e727e6c7b), 0x0706050403020100, 0x0f0e0d0c0b0a0908);
  }

  lemma CompressTwo(s: State<Word>, m: Word, n: Word)
    ensures CompressAll(Bits, s, [m, n]) == Compress(Bits, Compress(Bits, s, m), n)
  {
    hide Compress;
    var t := Compress(Bits, s, m);
    assert [m, n][1..] == [n] && [n][1..] == [];
    assert CompressAll(Bits, t, [n]) == CompressAll(Bits, Compress(Bits, t, n), []);
  }
}
