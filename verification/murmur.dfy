/** Cassandra's Murmur3_x64_128 token, computed in one pass over a buffer or from pieces as they arrive. */
module Murmur {

  type Bytes = seq<bv8>

  const C1: bv64 := 0x87c37b91114253d5
  const C2: bv64 := 0x4cf5ad432745937f
  const MIN_TOKEN: bv64 := 0x8000000000000000
  const MAX_TOKEN: bv64 := 0x7FFFFFFFFFFFFFFF
  const TWO_64: nat := 0x1_0000_0000_0000_0000

  /** The two running halves of the hash. */
  datatype Hash = Hash(h1: bv64, h2: bv64)

  function Rotl64(x: bv64, r: bv64): bv64
    requires 0 < r < 64
  {
    (x << r) | (x >> (64 - r))
  }

  function Fmix64(x: bv64): bv64 {
    var k := (x ^ (x >> 33)) * 0xff51afd7ed558ccd;
    var l := (k ^ (k >> 33)) * 0xc4ceb9fe1a85ec53;
    l ^ (l >> 33)
  }

  /** Eight bytes, least significant first. */
  function Load64(b: Bytes): bv64
    requires |b| == 8
  {
    (b[0] as bv64) | ((b[1] as bv64) << 8) | ((b[2] as bv64) << 16) | ((b[3] as bv64) << 24)
    | ((b[4] as bv64) << 32) | ((b[5] as bv64) << 40) | ((b[6] as bv64) << 48) | ((b[7] as bv64) << 56)
  }

  /** What is done to the first word before it meets `h1`, and to the second before it meets `h2`. */
  function Scramble1(k: bv64): bv64 {
    Rotl64(k * C1, 31) * C2
  }

  function Scramble2(k: bv64): bv64 {
    Rotl64(k * C2, 33) * C1
  }

  function Absorb1(h: Hash, k: bv64): bv64 {
    (Rotl64(h.h1 ^ k, 27) + h.h2) * 5 + 0x52dce729
  }

  function Absorb2(h: Hash, k: bv64): bv64 {
    (Rotl64(h.h2 ^ k, 31) + h.h1) * 5 + 0x38495ab5
  }

  function ProcessBlock(h: Hash, block: Bytes): Hash
    requires |block| == 16
  {
    var k1 := Scramble1(Load64(block[..8]));
    var h1 := Absorb1(h, k1);
    var k2 := Scramble2(Load64(block[8..]));
    var h2 := Absorb2(Hash(h1, h.h2), k2);
    Hash(h1, h2)
  }

  /** A byte sign-extended to 64 bits, as Cassandra's Java widens it. */
  function SignExtend(b: bv8): bv64 {
    if b < 0x80 then b as bv64 else (b as bv64) | 0xFFFFFFFFFFFFFF00
  }

  /** Where the i-th byte of a word goes. */
  function Place(i: nat): bv64
    requires i < 8
  {
    match i
    case 0 => 0
    case 1 => 8
    case 2 => 16
    case 3 => 24
    case 4 => 32
    case 5 => 40
    case 6 => 48
    case _ => 56
  }

  /** tail[from..to] xored together, each byte shifted to its place. */
  function TailWord(tail: Bytes, from: nat, to: nat): bv64
    requires from <= to <= |tail| && to - from <= 8
  {
    if from == to then 0 else (SignExtend(tail[to - 1]) << Place(to - 1 - from)) ^ TailWord(tail, from, to - 1)
  }

  /** The bytes from the ninth on go into the second half, those before them into the first. */
  function MixHigh(h2: bv64, tail: Bytes): bv64
    requires |tail| < 16
  {
    if |tail| > 8 then h2 ^ Scramble2(TailWord(tail, 8, |tail|)) else h2
  }

  function MixLow(h1: bv64, tail: Bytes): bv64 {
    var n := if |tail| < 8 then |tail| else 8;
    if n > 0 then h1 ^ Scramble1(TailWord(tail, 0, n)) else h1
  }

  function ProcessTail(h: Hash, tail: Bytes): Hash
    requires |tail| < 16
  {
    Hash(MixLow(h.h1, tail), MixHigh(h.h2, tail))
  }

  /** The last mixing of the two halves. */
  function Mix(h: Hash, len: bv64): bv64 {
    var h1, h2 := h.h1 ^ len, h.h2 ^ len;
    var s1 := h1 + h2;
    var s2 := h2 + s1;
    Fmix64(s1) + Fmix64(s2)
  }

  /** The bits of the signed token. */
  function FinalizeHash(h: Hash, totalLen: nat): bv64
    requires totalLen < TWO_64
  {
    Mix(h, totalLen as bv64)
  }

  function Remap(token: bv64): bv64 {
    if token == MIN_TOKEN then MAX_TOKEN else token
  }

  /** The hash state after the first `n` whole blocks of `data`. */
  function Blocks(data: Bytes, n: nat): Hash
    requires 16 * n <= |data|
  {
    if n == 0 then Hash(0, 0) else ProcessBlock(Blocks(data, n - 1), data[16 * (n - 1)..16 * n])
  }

  /** The token of a byte string. */
  function Token(data: Bytes): bv64 {
    var n := |data| / 16;
    Remap(FinalizeHash(ProcessTail(Blocks(data, n), data[16 * n..]), |data| % TWO_64))
  }

  method Murmur3Token(data: Bytes) returns (token: bv64)
    requires |data| < TWO_64
    ensures token == Token(data)
  {
    hide ProcessBlock, ProcessTail, FinalizeHash, Remap;
    var nblocks := |data| / 16;
    var h := Hash(0, 0);
    for i := 0 to nblocks
      invariant h == Blocks(data, i)
    {
      h := ProcessBlock(h, data[16 * i..16 * (i + 1)]);
    }
    h := ProcessTail(h, data[16 * nblocks..]);
    token := Remap(FinalizeHash(h, |data| % TWO_64));
  }

  lemma {:induction false} BlocksOfPrefix(data: Bytes, more: Bytes, n: nat)
    requires 16 * n <= |data|
    ensures Blocks(data + more, n) == Blocks(data, n)
  {
    hide ProcessBlock;
    if n > 0 {
      BlocksOfPrefix(data, more, n - 1);
      assert (data + more)[16 * (n - 1)..16 * n] == data[16 * (n - 1)..16 * n];
    }
  }

  /** `data` is some whole blocks, hashed to `h`, followed by `tail`. */
  ghost predicate Split(data: Bytes, h: Hash, tail: Bytes) {
    var whole := |data| - |tail|;
    whole >= 0 && whole % 16 == 0 && tail == data[whole..] && h == Blocks(data, whole / 16)
  }

  lemma SplitMore(data: Bytes, h: Hash, tail: Bytes, more: Bytes)
    requires Split(data, h, tail)
    ensures Split(data + more, h, tail + more)
  {
    hide ProcessBlock;
    BlocksOfPrefix(data, more, (|data| - |tail|) / 16);
  }

  lemma SplitBlock(data: Bytes, h: Hash, block: Bytes)
    requires Split(data, h, block) && |block| == 16
    ensures Split(data, ProcessBlock(h, block), [])
  {
    hide ProcessBlock;
    var n := (|data| - 16) / 16;
    assert data[16 * n..16 * (n + 1)] == block;
  }

  lemma SplitToken(data: Bytes, h: Hash, tail: Bytes)
    requires Split(data, h, tail) && |tail| < 16
    ensures Token(data) == Remap(FinalizeHash(ProcessTail(h, tail), |data| % TWO_64))
  {
    hide ProcessBlock, ProcessTail, FinalizeHash, Remap;
    assert (|data| - |tail|) / 16 == |data| / 16;
  }

  class Murmur3State {
    var hash: Hash
    var totalLen: nat
    const carry: array<bv8>
    var carryLen: nat
    /** Everything fed so far. */
    ghost var fed: Bytes

    /** The hash covers the whole blocks of the input and the carry is exactly the rest. */
    ghost predicate Valid()
      reads this, carry
    {
      && carry.Length == 16 && carryLen < 16
      && totalLen == |fed| % TWO_64
      && Split(fed, hash, carry[..carryLen])
    }

    constructor ()
      ensures Valid() && fed == [] && fresh(carry)
    {
      hash, totalLen, carryLen, fed := Hash(0, 0), 0, 0, [];
      carry := new bv8[16](_ => 0);
    }

    /** Copies bytes behind those already carried. */
    method Carry(bytes: Bytes)
      requires carry.Length == 16 && carryLen + |bytes| <= 16
      modifies this`carryLen, carry
      ensures carryLen == old(carryLen) + |bytes|
      ensures carry[..carryLen] == old(carry[..carryLen]) + bytes
    {
      forall i | 0 <= i < |bytes| {
        carry[carryLen + i] := bytes[i];
      }
      carryLen := carryLen + |bytes|;
    }

    /** Completes the block in the carry as far as `data` goes, and hashes it once it is whole. */
    method FillCarry(data: Bytes) returns (pos: nat)
      requires carry.Length == 16 && carryLen < 16 && Split(fed, hash, carry[..carryLen])
      modifies this`hash, this`carryLen, carry
      ensures pos <= |data| && carryLen < 16 && (carryLen > 0 ==> pos == |data|)
      ensures Split(fed + data[..pos], hash, carry[..carryLen])
    {
      hide ProcessBlock, Split;
      var need := 16 - carryLen;
      pos := if |data| < need then |data| else need;
      SplitMore(fed, hash, carry[..carryLen], data[..pos]);
      Carry(data[..pos]);
      if carryLen == 16 {
        assert carry[..carryLen] == carry[..];
        SplitBlock(fed + data[..pos], hash, carry[..]);
        hash := ProcessBlock(hash, carry[..]);
        carryLen := 0;
        assert carry[..carryLen] == [];
      }
    }

    /** Hashes the whole blocks of `data` from `from` on, the carry being empty. */
    method HashBlocks(data: Bytes, from: nat) returns (pos: nat)
      requires from <= |data| && carry.Length == 16 && carryLen < 16 && (carryLen > 0 ==> from == |data|)
      requires Split(fed + data[..from], hash, carry[..carryLen])
      modifies this`hash
      ensures pos <= |data| < pos + 16 && (carryLen > 0 ==> pos == |data|)
      ensures Split(fed + data[..pos], hash, carry[..carryLen])
    {
      hide ProcessBlock, Split;
      pos := from;
      while |data| - pos >= 16
        invariant pos <= |data| && (carryLen > 0 ==> pos == |data|)
        invariant Split(fed + data[..pos], hash, carry[..carryLen])
      {
        var block := data[pos..pos + 16];
        assert carry[..carryLen] + block == block;
        SplitMore(fed + data[..pos], hash, carry[..carryLen], block);
        assert fed + data[..pos] + block == fed + data[..pos + 16];
        SplitBlock(fed + data[..pos + 16], hash, block);
        assert carry[..carryLen] == [];
        hash := ProcessBlock(hash, block);
        pos := pos + 16;
      }
    }

    /** Puts what is left of `data` into the carry. */
    method CarryRest(data: Bytes, pos: nat)
      requires pos <= |data| < pos + 16 && carry.Length == 16 && carryLen < 16 && (carryLen > 0 ==> pos == |data|)
      requires Split(fed + data[..pos], hash, carry[..carryLen])
      modifies this`carryLen, carry
      ensures carryLen < 16 && Split(fed + data, hash, carry[..carryLen])
    {
      hide ProcessBlock, Split;
      SplitMore(fed + data[..pos], hash, carry[..carryLen], data[pos..]);
      assert fed + data[..pos] + data[pos..] == fed + data;
      if pos < |data| {
        Carry(data[pos..]);
      } else {
        assert carry[..carryLen] + data[pos..] == carry[..carryLen];
      }
    }

    method Update(data: Bytes)
      requires Valid()
      modifies this, carry
      ensures Valid() && fed == old(fed) + data
    {
      hide ProcessBlock, Split;
      totalLen := (totalLen + |data|) % TWO_64;
      var pos := 0;
      assert fed + data[..0] == fed;
      if carryLen > 0 {
        pos := FillCarry(data);
      }
      pos := HashBlocks(data, pos);
      CarryRest(data, pos);
      AddLengths(|fed|, |data|);
      fed := fed + data;
    }

    method Finalize() returns (token: bv64)
      requires Valid()
      modifies this`hash
      ensures token == Token(fed)
    {
      hide ProcessBlock, ProcessTail, FinalizeHash, Remap, Token, Split;
      SplitToken(fed, hash, carry[..carryLen]);
      hash := ProcessTail(hash, carry[..carryLen]);
      token := Remap(FinalizeHash(hash, totalLen));
    }
  }

  lemma AddLengths(a: nat, b: nat)
    ensures (a % TWO_64 + b) % TWO_64 == (a + b) % TWO_64
  {
  }

  /** The pieces of any splitting of the input, put together. */
  ghost function Join(pieces: seq<Bytes>): Bytes {
    if pieces == [] then [] else Join(pieces[..|pieces| - 1]) + pieces[|pieces| - 1]
  }

  /** However the input is cut into pieces, feeding them one after the other gives the token of the whole. */
  method StreamedToken(pieces: seq<Bytes>) returns (token: bv64)
    ensures token == Token(Join(pieces))
  {
    hide Token;
    var state := new Murmur3State();
    for i := 0 to |pieces|
      invariant fresh(state) && fresh(state.carry) && state.Valid() && state.fed == Join(pieces[..i])
    {
      state.Update(pieces[i]);
      assert pieces[..i + 1][..i] == pieces[..i];
    }
    assert pieces[..|pieces|] == pieces;
    token := state.Finalize();
  }
}
