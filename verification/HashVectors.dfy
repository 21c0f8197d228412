/**
 Published test vectors, reached from the definitions of the hashes: the one of appendix A of the
 SipHash paper (Aumasson and Bernstein, 2012), and those of driver5 (src/upstream/lookup3.c:974-993).
 */
module HashVectors {
  import opened Bytes
  import opened Counters
  import opened JournalSample
  import Word32
  import opened Lookup3
  import opened SipHash

  // ----- SipHash-2-4 -----

  /** The key 00 01 .. 0f */
  function PaperKey(): seq<byte> {
    [0, 1, 2, 3, 4, 5, 6, 7] + [8, 9, 10, 11, 12, 13, 14, 15]
  }

  /** The message 00 01 .. 0e */
  function PaperMessage(): seq<byte> {
    [0, 1, 2, 3, 4, 5, 6, 7] + [8, 9, 10, 11, 12, 13, 14]
  }

  lemma FirstWord()
    ensures LoadLE([0, 1, 2, 3, 4, 5, 6, 7]) == 0x0706050403020100
  {
    hide LoadLE;
    StoredIsLoaded(0x0706050403020100);
    assert StoreLE(0x0706050403020100) == [0, 1, 2, 3, 4, 5, 6, 7];
  }

  lemma SecondWord()
    ensures LoadLE([8, 9, 10, 11, 12, 13, 14, 15]) == 0x0f0e0d0c0b0a0908
  {
    hide LoadLE;
    StoredIsLoaded(0x0f0e0d0c0b0a0908);
    assert StoreLE(0x0f0e0d0c0b0a0908) == [8, 9, 10, 11, 12, 13, 14, 15];
  }

  lemma InitialLanes()
    ensures
      Initialized(PaperKey()) ==
        Lanes(0x7469686173716475, 0x6b617f6d656e6665, 0x6b7f62616d677361, 0x7b6b696e727e6c7b)
  {
    hide LoadLE;
    FirstWord();
    SecondWord();
    assert PaperKey()[..8] == [0, 1, 2, 3, 4, 5, 6, 7] && PaperKey()[8..] == [8, 9, 10, 11, 12, 13, 14, 15];
  }

  lemma Absorb1()
    ensures
      var s := Lanes(0x7469686173716475, 0x6b617f6d656e6665, 0x6b7f62616d677361, 0x7b6b696e727e6c7b);
      Absorb(s, 0x0706050403020100) ==
        Lanes(0x4a017198de0a59e0, 0x0d52f6f62a4f59a4, 0x634cb3577b01fd3d, 0xa5224d6f55c7d9c8)
  {}

  lemma Absorb2()
    ensures
      var s := Lanes(0x4a017198de0a59e0, 0x0d52f6f62a4f59a4, 0x634cb3577b01fd3d, 0xa5224d6f55c7d9c8);
      Absorb(s, 0x0f0e0d0c0b0a0908) ==
        Lanes(0x3c85b3ab6f55be51, 0x414fc3fb98efe374, 0xccf13ea527b9f4bd, 0x5293f5da84008f82)
  {}

  lemma FinalLanes()
    ensures
      var s := Lanes(0x3c85b3ab6f55be51, 0x414fc3fb98efe374, 0xccf13ea527b9f4bd, 0x5293f5da84008f82);
      Finalized(s) == 0xa129ca6149be45e5
  {}

  lemma PaperPadded()
    ensures Padded(PaperMessage()) == [0, 1, 2, 3, 4, 5, 6, 7] + [8, 9, 10, 11, 12, 13, 14, 15]
  {
    FifteenBytes();
  }

  lemma FifteenBytes()
    ensures LowByte(15) == 15
  {}

  /** What comes out for that key and message. */
  lemma PaperVector()
    ensures SipHash24(PaperKey(), PaperMessage()) == 0xa129ca6149be45e5
  {
    hide Initialized, Absorb, Finalized, LoadLE, AbsorbWords, Padded;
    InitialLanes();
    FirstWord();
    SecondWord();
    PaperPadded();
    var one, two: seq<byte> := [0, 1, 2, 3, 4, 5, 6, 7], [8, 9, 10, 11, 12, 13, 14, 15];
    AbsorbNothing(Initialized(PaperKey()));
    AbsorbOne(Initialized(PaperKey()), [], one);
    assert [] + one == one;
    AbsorbOne(Initialized(PaperKey()), one, two);
    Absorb1();
    Absorb2();
    FinalLanes();
  }

  lemma AbsorbNothing(s: Lanes)
    ensures AbsorbWords(s, []) == s
  {}

  // ----- lookup3 -----

  /** "Four score and seven years ago", in blocks of twelve bytes. */
  function FourScore(): seq<byte> {
    FourScore1() + (FourScore2() + FourScore3())
  }

  /** "Four score a" */
  function FourScore1(): seq<byte> {
    [0x46, 0x6f, 0x75, 0x72, 0x20, 0x73, 0x63, 0x6f, 0x72, 0x65, 0x20, 0x61]
  }

  /** "nd seven yea" */
  function FourScore2(): seq<byte> {
    [0x6e, 0x64, 0x20, 0x73, 0x65, 0x76, 0x65, 0x6e, 0x20, 0x79, 0x65, 0x61]
  }

  /** "rs ago" */
  function FourScore3(): seq<byte> {
    [0x72, 0x73, 0x20, 0x61, 0x67, 0x6f]
  }

  lemma FourScoreBlocks(s: Abc)
    ensures |FourScore()| == 30
    ensures
      Fold(Little, s, FourScore()) ==
        Finished(Absorbed(Little, Mixed(Absorbed(Little, Mixed(Absorbed(Little, s, FourScore1())), FourScore2())),
          FourScore3()))
  {
    hide Absorbed, Mixed, Finished;
    var one, two, three, rest := FourScore1(), FourScore2(), FourScore3(), FourScore2() + FourScore3();
    assert (one + rest)[..12] == one && (one + rest)[12..] == rest;
    assert rest[..12] == two && rest[12..] == three;
    FoldBlock(s, one + rest);
    FoldBlock(Mixed(Absorbed(Little, s, one)), rest);
    LastBlock(Little, Mixed(Absorbed(Little, Mixed(Absorbed(Little, s, one)), two)), three);
  }

  lemma FoldBlock(s: Abc, key: seq<byte>)
    requires |key| > 12
    ensures Fold(Little, s, key) == Fold(Little, Mixed(Absorbed(Little, s, key[..12])), key[12..])
  {
    hide Absorbed, Mixed, Finished;
  }

  lemma Lengths()
    ensures Word32.U32(0) == 0 && Word32.U32(30) == 30
  {
    assert 30 % 0x1_0000_0000 == 30;
  }

  lemma Words1(s: Abc)
    ensures
      Absorbed(Little, s, FourScore1()) ==
        Abc(Word32.Add(s.a, 0x72756f46), Word32.Add(s.b, 0x6f637320), Word32.Add(s.c, 0x61206572))
  {
    hide Word32.Add;
  }

  lemma Words2(s: Abc)
    ensures
      Absorbed(Little, s, FourScore2()) ==
        Abc(Word32.Add(s.a, 0x7320646e), Word32.Add(s.b, 0x6e657665), Word32.Add(s.c, 0x61657920))
  {
    hide Word32.Add;
  }

  lemma Words3(s: Abc)
    ensures
      Absorbed(Little, s, FourScore3()) ==
        Abc(Word32.Add(s.a, 0x61207372), Word32.Add(s.b, 0x00006f67), Word32.Add(s.c, 0x00000000))
  {
    hide Word32.Add;
  }

  lemma NoSeedBlock1()
    ensures
      var s := Abc(0xdeadbf0d, 0xdeadbf0d, 0xdeadbf0d);
      Mixed(Absorbed(Little, s, FourScore1())) == Abc(0xf859ad7a, 0x04bc57ae, 0x40dddd7e)
  {
    hide Absorbed, FourScore1;
    Words1(Abc(0xdeadbf0d, 0xdeadbf0d, 0xdeadbf0d));
    assert Turn(Turn(Turn(Abc(0x51232e53, 0x4e11322d, 0x3fce247f), 4), 6), 8) ==
           Abc(0x7b96a4d3, 0x892112d0, 0x0a3915a2);
  }

  lemma NoSeedBlock2()
    ensures
      var s := Abc(0xf859ad7a, 0x04bc57ae, 0x40dddd7e);
      Mixed(Absorbed(Little, s, FourScore2())) == Abc(0x336aded2, 0x059f2642, 0xbd02ebd5)
  {
    hide Absorbed, FourScore2;
    Words2(Abc(0xf859ad7a, 0x04bc57ae, 0x40dddd7e));
    assert Turn(Turn(Turn(Abc(0x6b7a11e8, 0x7321ce13, 0xa243569e), 4), 6), 8) ==
           Abc(0x0268f751, 0xc9524a99, 0xa72899af);
  }

  lemma NoSeedBlock3()
    ensures
      var s := Abc(0x336aded2, 0x059f2642, 0xbd02ebd5);
      Finished(Absorbed(Little, s, FourScore3())) == Abc(0x9a837816, 0xce7226e6, 0x17770551)
  {
    hide Absorbed, FourScore3;
    Words3(Abc(0x336aded2, 0x059f2642, 0xbd02ebd5));
  }

  lemma NoSeedStart()
    ensures Start(30, 0x0, 0x0) == Abc(0xdeadbf0d, 0xdeadbf0d, 0xdeadbf0d)
  {
    hide Word32.U32;
    Lengths();
  }

  /** Both seeds zero. */
  lemma NoSeedVector()
    ensures Hash2(Little, FourScore(), 0x0, 0x0) == (0x17770551, 0xce7226e6)
  {
    hide Start, Fold, Absorbed, Mixed, Finished, FourScore, FourScore1, FourScore2, FourScore3;
    NoSeedStart();
    FourScoreBlocks(Abc(0xdeadbf0d, 0xdeadbf0d, 0xdeadbf0d));
    NoSeedBlock1();
    NoSeedBlock2();
    NoSeedBlock3();
  }

  lemma SecondSeedBlock1()
    ensures
      var s := Abc(0xdeadbf0d, 0xdeadbf0d, 0xdeadbf0e);
      Mixed(Absorbed(Little, s, FourScore1())) == Abc(0x5880bf0f, 0x0507c285, 0x2e1afadd)
  {
    hide Absorbed, FourScore1;
    Words1(Abc(0xdeadbf0d, 0xdeadbf0d, 0xdeadbf0e));
    assert Turn(Turn(Turn(Abc(0x51232e53, 0x4e11322d, 0x3fce2480), 4), 6), 8) ==
           Abc(0x7b96987d, 0x89201ce3, 0x09d1b44a);
  }

  lemma SecondSeedBlock2()
    ensures
      var s := Abc(0x5880bf0f, 0x0507c285, 0x2e1afadd);
      Mixed(Absorbed(Little, s, FourScore2())) == Abc(0xf0a95c6c, 0x6ea72b3e, 0x327297d5)
  {
    hide Absorbed, FourScore2;
    Words2(Abc(0x5880bf0f, 0x0507c285, 0x2e1afadd));
    assert Turn(Turn(Turn(Abc(0xcba1237d, 0x736d38ea, 0x8f8073fd), 4), 6), 8) ==
           Abc(0xc7153d3f, 0x6db6fbe2, 0xfdf54de2);
  }

  lemma SecondSeedBlock3()
    ensures
      var s := Abc(0xf0a95c6c, 0x6ea72b3e, 0x327297d5);
      Finished(Absorbed(Little, s, FourScore3())) == Abc(0x6cd40950, 0xbd371de4, 0xe3607cae)
  {
    hide Absorbed, FourScore3;
    Words3(Abc(0xf0a95c6c, 0x6ea72b3e, 0x327297d5));
  }

  lemma SecondSeedStart()
    ensures Start(30, 0x0, 0x1) == Abc(0xdeadbf0d, 0xdeadbf0d, 0xdeadbf0e)
  {
    hide Word32.U32;
    Lengths();
  }

  /** The seed of the secondary value is 1. */
  lemma SecondSeedVector()
    ensures Hash2(Little, FourScore(), 0x0, 0x1) == (0xe3607cae, 0xbd371de4)
  {
    hide Start, Fold, Absorbed, Mixed, Finished, FourScore, FourScore1, FourScore2, FourScore3;
    SecondSeedStart();
    FourScoreBlocks(Abc(0xdeadbf0d, 0xdeadbf0d, 0xdeadbf0e));
    SecondSeedBlock1();
    SecondSeedBlock2();
    SecondSeedBlock3();
  }

  lemma FirstSeedBlock1()
    ensures
      var s := Abc(0xdeadbf0e, 0xdeadbf0e, 0xdeadbf0e);
      Mixed(Absorbed(Little, s, FourScore1())) == Abc(0x9fb9ade6, 0x89211ba9, 0x3ffff143)
  {
    hide Absorbed, FourScore1;
    Words1(Abc(0xdeadbf0e, 0xdeadbf0e, 0xdeadbf0e));
    assert Turn(Turn(Turn(Abc(0x51232e54, 0x4e11322e, 0x3fce2480), 4), 6), 8) ==
           Abc(0x7b969885, 0x89201e31, 0x09d07d0f);
  }

  lemma FirstSeedBlock2()
    ensures
      var s := Abc(0x9fb9ade6, 0x89211ba9, 0x3ffff143);
      Mixed(Absorbed(Little, s, FourScore2())) == Abc(0xd68042ad, 0x488e0a5d, 0xab16e7b2)
  {
    hide Absorbed, FourScore2;
    Words2(Abc(0x9fb9ade6, 0x89211ba9, 0x3ffff143));
    assert Turn(Turn(Turn(Abc(0x12da1254, 0xf786920e, 0xa1656a63), 4), 6), 8) ==
           Abc(0x000dfe3c, 0x58f2e0d6, 0xa4e5838f);
  }

  lemma FirstSeedBlock3()
    ensures
      var s := Abc(0xd68042ad, 0x488e0a5d, 0xab16e7b2);
      Finished(Absorbed(Little, s, FourScore3())) == Abc(0x1336f927, 0x6cbea4b3, 0xcd628161)
  {
    hide Absorbed, FourScore3;
    Words3(Abc(0xd68042ad, 0x488e0a5d, 0xab16e7b2));
  }

  lemma FirstSeedStart()
    ensures Start(30, 0x1, 0x0) == Abc(0xdeadbf0e, 0xdeadbf0e, 0xdeadbf0e)
  {
    hide Word32.U32;
    Lengths();
  }

  /** The seed of the primary value is 1. */
  lemma FirstSeedVector()
    ensures Hash2(Little, FourScore(), 0x1, 0x0) == (0xcd628161, 0x6cbea4b3)
  {
    hide Start, Fold, Absorbed, Mixed, Finished, FourScore, FourScore1, FourScore2, FourScore3;
    FirstSeedStart();
    FourScoreBlocks(Abc(0xdeadbf0e, 0xdeadbf0e, 0xdeadbf0e));
    FirstSeedBlock1();
    FirstSeedBlock2();
    FirstSeedBlock3();
  }

  /** The empty key, for three pairs of seeds. */
  lemma EmptyVectors()
    ensures Hash2(Little, [], 0, 0) == (0xdeadbeef, 0xdeadbeef)
    ensures Hash2(Little, [], 0, 0xdeadbeef) == (0xbd5b7dde, 0xdeadbeef)
    ensures Hash2(Little, [], 0xdeadbeef, 0xdeadbeef) == (0x9c093ccd, 0xbd5b7dde)
  {
    hide Word32.U32;
    Lengths();
  }

  /** jenkins_hash64 of both keys. */
  lemma Jenkins64Vectors()
    ensures Hash64(FourScore()) == 0x17770551_ce7226e6
    ensures Hash64([]) == 0xdeadbeef_deadbeef
  {
    hide Hash2, FourScore;
    NoSeedVector();
    EmptyVectors();
  }
}
