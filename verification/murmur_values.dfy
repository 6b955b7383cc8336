/** What the token of particular keys is. These values fix the constants, rotations and sign extensions that every way
    of cutting up the input has in common. */
module MurmurValues {
  import opened Murmur

  /** Bytes from 0x80 on count as negative numbers. */
  lemma SignExtended(b: bv8)
    ensures SignExtend(b) as int == (if b < 0x80 then b as int else TWO_64 - 0x100 + b as int)
  {
  }

  /** The lowest signed number is no token. */
  lemma NeverMin(data: Bytes)
    ensures Token(data) != MIN_TOKEN
  {
  }

  // ---- one step at a time, on known words ----

  lemma NoWord(tail: Bytes, from: nat)
    requires from <= |tail|
    ensures TailWord(tail, from, from) == 0
  {
  }

  lemma NextByte(tail: Bytes, from: nat, to: nat, rest: bv64, word: bv64)
    requires from < to <= |tail| && to - from <= 8 && TailWord(tail, from, to - 1) == rest
    requires (SignExtend(tail[to - 1]) << Place(to - 1 - from)) ^ rest == word
    ensures TailWord(tail, from, to) == word
  {
    hide SignExtend, Place;
  }

  lemma ShortTail(tail: Bytes, h: Hash, word: bv64, h1: bv64)
    requires 0 < |tail| <= 8 && TailWord(tail, 0, |tail|) == word && h.h1 ^ Scramble1(word) == h1
    ensures ProcessTail(h, tail) == Hash(h1, h.h2)
  {
    hide TailWord, Scramble1, Scramble2;
  }

  lemma LongTail(tail: Bytes, h: Hash, word1: bv64, word2: bv64, h1: bv64, h2: bv64)
    requires 8 < |tail| < 16 && TailWord(tail, 0, 8) == word1 && TailWord(tail, 8, |tail|) == word2
    requires h.h1 ^ Scramble1(word1) == h1 && h.h2 ^ Scramble2(word2) == h2
    ensures ProcessTail(h, tail) == Hash(h1, h2)
  {
    hide TailWord, Scramble1, Scramble2, MixLow, MixHigh;
    Low(tail, h.h1, word1, h1);
    High(tail, h.h2, word2, h2);
  }

  lemma Low(tail: Bytes, half: bv64, word: bv64, h1: bv64)
    requires |tail| >= 8 && TailWord(tail, 0, 8) == word && half ^ Scramble1(word) == h1
    ensures MixLow(half, tail) == h1
  {
    hide TailWord, Scramble1;
  }

  lemma High(tail: Bytes, half: bv64, word: bv64, h2: bv64)
    requires 8 < |tail| < 16 && TailWord(tail, 8, |tail|) == word && half ^ Scramble2(word) == h2
    ensures MixHigh(half, tail) == h2
  {
    hide TailWord, Scramble2;
  }

  lemma Block(h: Hash, block: Bytes, word1: bv64, word2: bv64, k1: bv64, k2: bv64, h1: bv64, h2: bv64)
    requires |block| == 16 && Load64(block[..8]) == word1 && Load64(block[8..]) == word2
    requires Scramble1(word1) == k1 && Scramble2(word2) == k2
    requires Absorb1(h, k1) == h1 && Absorb2(Hash(h1, h.h2), k2) == h2
    ensures ProcessBlock(h, block) == Hash(h1, h2)
  {
    hide Load64, Scramble1, Scramble2, Absorb1, Absorb2;
  }

  lemma Kept(token: bv64)
    requires token != MIN_TOKEN
    ensures Remap(token) == token
  {
  }

  lemma End(data: Bytes, n: nat, before: Hash, tail: Bytes, h: Hash, token: bv64)
    requires 16 * n <= |data| < 16 * n + 16 && |data| < TWO_64 && Blocks(data, n) == before && data[16 * n..] == tail
    requires ProcessTail(before, tail) == h && FinalizeHash(h, |data|) == token && token != MIN_TOKEN
    ensures Token(data) == token
  {
    hide Blocks, ProcessTail, FinalizeHash, Remap;
    Kept(token);
    assert |data| / 16 == n && |data| % TWO_64 == |data|;
  }

  // ---- keys ----

  /** Nothing at all. */
  lemma NoBytes()
    ensures Token([]) == 0
  {
    hide Fmix64;
    assert Blocks([], 0) == Hash(0, 0) && ProcessTail(Hash(0, 0), []) == Hash(0, 0);
    ZeroStays();
  }

  lemma ZeroStays()
    ensures FinalizeHash(Hash(0, 0), 0) == 0
  {
    assert (0 as nat) as bv64 == 0 && Mix(Hash(0, 0), 0) == 0;
  }

  /** The tokens that Cassandra gives to the keys 0 to 4 of an int column. */
  lemma SmallInts()
    ensures Token([0x00, 0x00, 0x00, 0x00]) == 0xCFA0F7DDD84C76BC
    ensures Token([0x00, 0x00, 0x00, 0x01]) == 0xC78499982AE4E0CF
    ensures Token([0x00, 0x00, 0x00, 0x02]) == 0xD2E9AEB38BA99790
    ensures Token([0x00, 0x00, 0x00, 0x03]) == 0x7D0B904CFE1CA539
    ensures Token([0x00, 0x00, 0x00, 0x04]) == 0xDA1F26E0623F9EFB
  {
    SmallInt0();
    SmallInt1();
    SmallInt2();
    SmallInt3();
    SmallInt4();
  }

  lemma SmallInt0()
    ensures Token([0x00, 0x00, 0x00, 0x00]) == 0xCFA0F7DDD84C76BC
  {
    var key: Bytes := [0x00, 0x00, 0x00, 0x00];
    NoWord(key, 0);
    NextByte(key, 0, 1, 0x0000000000000000, 0x0000000000000000);
    NextByte(key, 0, 2, 0x0000000000000000, 0x0000000000000000);
    NextByte(key, 0, 3, 0x0000000000000000, 0x0000000000000000);
    NextByte(key, 0, 4, 0x0000000000000000, 0x0000000000000000);
    ShortTail(key, Hash(0, 0), 0x0000000000000000, 0x0000000000000000);
    assert FinalizeHash(Hash(0x0000000000000000, 0), 4) == 0xCFA0F7DDD84C76BC by { assert (4 as nat) as bv64 == 4; }
    End(key, 0, Hash(0, 0), key, Hash(0x0000000000000000, 0), 0xCFA0F7DDD84C76BC);
  }

  lemma SmallInt1()
    ensures Token([0x00, 0x00, 0x00, 0x01]) == 0xC78499982AE4E0CF
  {
    var key: Bytes := [0x00, 0x00, 0x00, 0x01];
    NoWord(key, 0);
    NextByte(key, 0, 1, 0x0000000000000000, 0x0000000000000000);
    NextByte(key, 0, 2, 0x0000000000000000, 0x0000000000000000);
    NextByte(key, 0, 3, 0x0000000000000000, 0x0000000000000000);
    NextByte(key, 0, 4, 0x0000000000000000, 0x0000000001000000);
    ShortTail(key, Hash(0, 0), 0x0000000001000000, 0x998869E61F5F7E57);
    assert FinalizeHash(Hash(0x998869E61F5F7E57, 0), 4) == 0xC78499982AE4E0CF by { assert (4 as nat) as bv64 == 4; }
    End(key, 0, Hash(0, 0), key, Hash(0x998869E61F5F7E57, 0), 0xC78499982AE4E0CF);
  }

  lemma SmallInt2()
    ensures Token([0x00, 0x00, 0x00, 0x02]) == 0xD2E9AEB38BA99790
  {
    var key: Bytes := [0x00, 0x00, 0x00, 0x02];
    NoWord(key, 0);
    NextByte(key, 0, 1, 0x0000000000000000, 0x0000000000000000);
    NextByte(key, 0, 2, 0x0000000000000000, 0x0000000000000000);
    NextByte(key, 0, 3, 0x0000000000000000, 0x0000000000000000);
    NextByte(key, 0, 4, 0x0000000000000000, 0x0000000002000000);
    ShortTail(key, Hash(0, 0), 0x0000000002000000, 0xEC63B74FE604902D);
    assert FinalizeHash(Hash(0xEC63B74FE604902D, 0), 4) == 0xD2E9AEB38BA99790 by { assert (4 as nat) as bv64 == 4; }
    End(key, 0, Hash(0, 0), key, Hash(0xEC63B74FE604902D, 0), 0xD2E9AEB38BA99790);
  }

  lemma SmallInt3()
    ensures Token([0x00, 0x00, 0x00, 0x03]) == 0x7D0B904CFE1CA539
  {
    var key: Bytes := [0x00, 0x00, 0x00, 0x03];
    NoWord(key, 0);
    NextByte(key, 0, 1, 0x0000000000000000, 0x0000000000000000);
    NextByte(key, 0, 2, 0x0000000000000000, 0x0000000000000000);
    NextByte(key, 0, 3, 0x0000000000000000, 0x0000000000000000);
    NextByte(key, 0, 4, 0x0000000000000000, 0x0000000003000000);
    ShortTail(key, Hash(0, 0), 0x0000000003000000, 0xD2E1CE792CA9A203);
    assert FinalizeHash(Hash(0xD2E1CE792CA9A203, 0), 4) == 0x7D0B904CFE1CA539 by { assert (4 as nat) as bv64 == 4; }
    End(key, 0, Hash(0, 0), key, Hash(0xD2E1CE792CA9A203, 0), 0x7D0B904CFE1CA539);
  }

  lemma SmallInt4()
    ensures Token([0x00, 0x00, 0x00, 0x04]) == 0xDA1F26E0623F9EFB
  {
    var key: Bytes := [0x00, 0x00, 0x00, 0x04];
    NoWord(key, 0);
    NextByte(key, 0, 1, 0x0000000000000000, 0x0000000000000000);
    NextByte(key, 0, 2, 0x0000000000000000, 0x0000000000000000);
    NextByte(key, 0, 3, 0x0000000000000000, 0x0000000000000000);
    NextByte(key, 0, 4, 0x0000000000000000, 0x0000000004000000);
    ShortTail(key, Hash(0, 0), 0x0000000004000000, 0x25BD1BE2F34EB3D9);
    assert FinalizeHash(Hash(0x25BD1BE2F34EB3D9, 0), 4) == 0xDA1F26E0623F9EFB by { assert (4 as nat) as bv64 == 4; }
    End(key, 0, Hash(0, 0), key, Hash(0x25BD1BE2F34EB3D9, 0), 0xDA1F26E0623F9EFB);
  }

  /** The key -1: every byte is negative. */
  lemma MinusOne()
    ensures Token([0xFF, 0xFF, 0xFF, 0xFF]) == 0x6545C20B95607A50
  {
    var key: Bytes := [0xFF, 0xFF, 0xFF, 0xFF];
    NoWord(key, 0);
    NextByte(key, 0, 1, 0x0000000000000000, 0xFFFFFFFFFFFFFFFF);
    NextByte(key, 0, 2, 0xFFFFFFFFFFFFFFFF, 0x00000000000000FF);
    NextByte(key, 0, 3, 0x00000000000000FF, 0xFFFFFFFFFFFF00FF);
    NextByte(key, 0, 4, 0xFFFFFFFFFFFF00FF, 0x0000000000FF00FF);
    ShortTail(key, Hash(0, 0), 0x0000000000FF00FF, 0x12BB195DC81FD8B8);
    assert FinalizeHash(Hash(0x12BB195DC81FD8B8, 0), 4) == 0x6545C20B95607A50 by { assert (4 as nat) as bv64 == 4; }
    End(key, 0, Hash(0, 0), key, Hash(0x12BB195DC81FD8B8, 0), 0x6545C20B95607A50);
  }

  const FIFTEEN: Bytes :=
    [0xC8, 0xED, 0x12, 0x37, 0x5C, 0x81, 0xA6, 0xCB, 0xF0, 0x15, 0x3A, 0x5F,
     0x84, 0xA9, 0xCE]

  lemma FirstWordStarts(key: Bytes)
    requires key == FIFTEEN
    ensures TailWord(key, 0, 4) == 0x00000000371212C8
  {
    hide TailWord;
    NoWord(key, 0);
    NextByte(key, 0, 1, 0x0000000000000000, 0xFFFFFFFFFFFFFFC8);
    NextByte(key, 0, 2, 0xFFFFFFFFFFFFFFC8, 0x00000000000012C8);
    NextByte(key, 0, 3, 0x00000000000012C8, 0x00000000001212C8);
    NextByte(key, 0, 4, 0x00000000001212C8, 0x00000000371212C8);
  }

  lemma FirstWordEnds(key: Bytes)
    requires key == FIFTEEN && TailWord(key, 0, 4) == 0x00000000371212C8
    ensures TailWord(key, 0, 8) == 0xCB59815C371212C8
  {
    hide TailWord;
    NextByte(key, 0, 5, 0x00000000371212C8, 0x0000005C371212C8);
    NextByte(key, 0, 6, 0x0000005C371212C8, 0xFFFF815C371212C8);
    NextByte(key, 0, 7, 0xFFFF815C371212C8, 0x0059815C371212C8);
    NextByte(key, 0, 8, 0x0059815C371212C8, 0xCB59815C371212C8);
  }

  lemma SecondWordStarts(key: Bytes)
    requires key == FIFTEEN
    ensures TailWord(key, 8, 11) == 0xFFFFFFFFFFC5EAF0
  {
    hide TailWord;
    NoWord(key, 8);
    NextByte(key, 8, 9, 0x0000000000000000, 0xFFFFFFFFFFFFFFF0);
    NextByte(key, 8, 10, 0xFFFFFFFFFFFFFFF0, 0xFFFFFFFFFFFFEAF0);
    NextByte(key, 8, 11, 0xFFFFFFFFFFFFEAF0, 0xFFFFFFFFFFC5EAF0);
  }

  lemma SecondWordEnds(key: Bytes)
    requires key == FIFTEEN && TailWord(key, 8, 11) == 0xFFFFFFFFFFC5EAF0
    ensures TailWord(key, 8, 15) == 0x0031A97BA0C5EAF0
  {
    hide TailWord;
    NextByte(key, 8, 12, 0xFFFFFFFFFFC5EAF0, 0xFFFFFFFFA0C5EAF0);
    NextByte(key, 8, 13, 0xFFFFFFFFA0C5EAF0, 0x0000007BA0C5EAF0);
    NextByte(key, 8, 14, 0x0000007BA0C5EAF0, 0xFFFFA97BA0C5EAF0);
    NextByte(key, 8, 15, 0xFFFFA97BA0C5EAF0, 0x0031A97BA0C5EAF0);
  }

  /** Both words of the tail. */
  lemma FifteenBytes()
    ensures Token(FIFTEEN) == 0xA90F5AF45B53D05A
  {
    FirstWordStarts(FIFTEEN);
    FirstWordEnds(FIFTEEN);
    SecondWordStarts(FIFTEEN);
    SecondWordEnds(FIFTEEN);
    hide TailWord;
    LongTail(FIFTEEN, Hash(0, 0), 0xCB59815C371212C8, 0x0031A97BA0C5EAF0, 0x444E84A8094F229E, 0x126BB2D09540B89A);
    assert FinalizeHash(Hash(0x444E84A8094F229E, 0x126BB2D09540B89A), 15) == 0xA90F5AF45B53D05A by {
      assert (15 as nat) as bv64 == 15;
    }
    End(FIFTEEN, 0, Hash(0, 0), FIFTEEN, Hash(0x444E84A8094F229E, 0x126BB2D09540B89A), 0xA90F5AF45B53D05A);
  }

  const SIXTEEN: Bytes :=
    [0xC8, 0xED, 0x12, 0x37, 0x5C, 0x81, 0xA6, 0xCB, 0xF0, 0x15, 0x3A, 0x5F,
     0x84, 0xA9, 0xCE, 0xF3]

  const AFTER_ONE: Hash := Hash(0x9D725BFDB7BC7386, 0x837182869EAC2923)
  const AFTER_TWO: Hash := Hash(0xA6FBD8217D45F974, 0x49BE3237764D240A)
  const AFTER_TAIL: Hash := Hash(0xA97EC8706610EF3B, 0x49BE3237764D240A)

  lemma FirstBlock(block: Bytes)
    requires block == SIXTEEN
    ensures ProcessBlock(Hash(0, 0), block) == AFTER_ONE
  {
    Block(Hash(0, 0), block, 0xCBA6815C3712EDC8, 0xF3CEA9845F3A15F0, 0x1F304F3D89424CBC,
          0x5315052160157C3A, 0x9D725BFDB7BC7386, 0x837182869EAC2923);
  }

  /** A whole block and no tail. */
  lemma SixteenBytes()
    ensures Token(SIXTEEN) == 0x015DEB6369B72AFB
  {
    var h := AFTER_ONE;
    FirstBlock(SIXTEEN);
    hide ProcessBlock;
    assert SIXTEEN[0..16] == SIXTEEN && Blocks(SIXTEEN, 0) == Hash(0, 0) && Blocks(SIXTEEN, 1) == h;
    assert FinalizeHash(h, 16) == 0x015DEB6369B72AFB by { assert (16 as nat) as bv64 == 16; }
    End(SIXTEEN, 1, h, [], h, 0x015DEB6369B72AFB);
  }

  const THIRTY_FIVE: Bytes :=
    SIXTEEN +
    [0x18, 0x3D, 0x62, 0x87, 0xAC, 0xD1, 0xF6, 0x1B, 0x40, 0x65, 0x8A, 0xAF,
     0xD4, 0xF9, 0x1E, 0x43]
    + [0x68, 0x8D, 0xB2]

  lemma SecondBlock(block: Bytes)
    requires block == THIRTY_FIVE[16..32]
    ensures ProcessBlock(AFTER_ONE, block) == AFTER_TWO
  {
    Block(AFTER_ONE, block,
          0x1BF6D1AC87623D18, 0x431EF9D4AF8A6540, 0xA49A4670EFA70F4B, 0x34AA75BDAB41D44F,
          0xA6FBD8217D45F974, 0x49BE3237764D240A);
  }

  lemma LastThree(tail: Bytes)
    requires tail == THIRTY_FIVE[32..]
    ensures ProcessTail(AFTER_TWO, tail) == AFTER_TAIL
  {
    NoWord(tail, 0);
    NextByte(tail, 0, 1, 0x0000000000000000, 0x0000000000000068);
    NextByte(tail, 0, 2, 0x0000000000000068, 0xFFFFFFFFFFFF8D68);
    NextByte(tail, 0, 3, 0xFFFFFFFFFFFF8D68, 0x00000000004D8D68);
    ShortTail(tail, AFTER_TWO, 0x00000000004D8D68, 0xA97EC8706610EF3B);
  }

  lemma LastMixing()
    ensures FinalizeHash(AFTER_TAIL, 35) == 0x58CCFA874C9BFFB5
  {
    assert (35 as nat) as bv64 == 35;
  }

  /** Two blocks, the second of which meets both halves of the hash in use, and a tail. */
  lemma ThirtyFiveBytes()
    ensures Token(THIRTY_FIVE) == 0x58CCFA874C9BFFB5
  {
    hide ProcessBlock, ProcessTail, FinalizeHash;
    var data := THIRTY_FIVE;
    assert data[0..16] == SIXTEEN && |data| == 35;
    FirstBlock(data[0..16]);
    SecondBlock(data[16..32]);
    LastThree(data[32..]);
    LastMixing();
    assert Blocks(data, 0) == Hash(0, 0) && Blocks(data, 1) == AFTER_ONE && Blocks(data, 2) == AFTER_TWO;
    End(data, 2, AFTER_TWO, data[32..], AFTER_TAIL, 0x58CCFA874C9BFFB5);
  }
}
