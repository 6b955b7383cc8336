/** Bytes, little-endian integers and the byte streams the engine's codecs read and write. */
module Wire {

  type Byte = b: int | 0 <= b < 256
  type Bytes = seq<Byte>

  const TWO_32: nat := 0x1_0000_0000
  const TWO_64: nat := 0x1_0000_0000_0000_0000

  type U64 = n: nat | n < TWO_64

  /** What reading one item from a buffer gives: the item and the offset behind it, or the buffer is too
      short or holds what no writer writes. The source aborts in the last two cases. */
  datatype Read<+T> = Done(value: T, next: nat) | Short | Corrupt

  function Forget<T>(r: Read<T>): Read<()> {
    match r
    case Done(_, next) => Done((), next)
    case Short => Short
    case Corrupt => Corrupt
  }

  // ---- little-endian integers ----

  function Pow256(n: nat): (p: nat)
    ensures p >= 1
  {
    if n == 0 then 1 else 256 * Pow256(n - 1)
  }

  function Pow2(n: nat): (p: nat)
    ensures p >= 1
  {
    if n == 0 then 1 else 2 * Pow2(n - 1)
  }

  lemma Pow256Widths()
    ensures Pow256(1) == 256 && Pow256(2) == 0x1_0000 && Pow256(4) == TWO_32 && Pow256(8) == TWO_64
  {
    assert Pow256(4) == 256 * Pow256(3) == TWO_32;
    assert Pow256(6) == 0x1_0000_0000_0000;
  }

  function LittleEndian(n: nat, width: nat): (b: Bytes)
    ensures |b| == width
  {
    if width == 0 then [] else [n % 256] + LittleEndian(n / 256, width - 1)
  }

  function FromLittleEndian(b: Bytes): nat {
    if b == [] then 0 else b[0] + 256 * FromLittleEndian(b[1..])
  }

  lemma {:induction false} LittleEndianRoundTrip(n: nat, width: nat)
    requires n < Pow256(width)
    ensures FromLittleEndian(LittleEndian(n, width)) == n
  {
    if width > 0 {
      LittleEndianRoundTrip(n / 256, width - 1);
      assert LittleEndian(n, width)[1..] == LittleEndian(n / 256, width - 1);
    }
  }

  lemma {:induction false} LittleEndianBound(b: Bytes)
    ensures FromLittleEndian(b) < Pow256(|b|)
  {
    if b != [] {
      LittleEndianBound(b[1..]);
    }
  }

  /** The integers with a two's complement form of so many bytes. */
  predicate InSigned(n: int, width: nat) {
    n + Pow256(width) / 2 >= 0 && n < Pow256(width) / 2
  }

  predicate InWidth(n: int, width: nat) {
    n + Pow256(width) >= 0 && n < Pow256(width)
  }

  /** Two's complement. */
  function Unsigned(n: int, width: nat): nat
    requires InWidth(n, width)
  {
    if n < 0 then n + Pow256(width) else n
  }

  function Signed(n: nat, width: nat): int {
    if n >= Pow256(width) / 2 then n - Pow256(width) else n
  }

  function EncodeSigned(n: int, width: nat): (b: Bytes)
    requires InWidth(n, width)
    ensures |b| == width
  {
    LittleEndian(Unsigned(n, width), width)
  }

  lemma SignedRoundTrip(n: int, width: nat)
    requires width > 0 && InSigned(n, width)
    ensures Signed(FromLittleEndian(EncodeSigned(n, width)), width) == n
  {
    assert Pow256(width) == 256 * Pow256(width - 1);
    LittleEndianRoundTrip(Unsigned(n, width), width);
  }

  // ---- reading from a buffer ----

  /** The next `n` bytes. */
  function Take(b: Bytes, off: nat, n: nat): (r: Read<Bytes>)
    ensures r.Done? ==> |r.value| == n && r.next == off + n <= |b|
  {
    if off + n <= |b| then Done(b[off..off + n], off + n) else Short
  }

  function TakeU64(b: Bytes, off: nat): (r: Read<U64>)
    ensures r.Done? ==> r.next == off + 8 <= |b|
  {
    match Take(b, off, 8)
    case Done(word, next) =>
      LittleEndianBound(word);
      Pow256Widths();
      Done(FromLittleEndian(word), next)
    case Short => Short
  }

  /** `enc` stands at `off`. */
  ghost predicate At(b: Bytes, off: nat, enc: Bytes) {
    off + |enc| <= |b| && b[off..off + |enc|] == enc
  }

  lemma AtParts(b: Bytes, off: nat, x: Bytes, y: Bytes)
    requires At(b, off, x + y)
    ensures At(b, off, x) && At(b, off + |x|, y)
  {
    assert b[off..off + |x|] == b[off..off + |x + y|][..|x|];
    assert b[off + |x|..off + |x| + |y|] == b[off..off + |x + y|][|x|..];
  }

  lemma AtTake(b: Bytes, off: nat, enc: Bytes)
    requires At(b, off, enc)
    ensures Take(b, off, |enc|) == Done(enc, off + |enc|)
  {
  }

  lemma AtU64(b: Bytes, off: nat, n: U64)
    requires At(b, off, LittleEndian(n, 8))
    ensures TakeU64(b, off) == Done(n, off + 8)
  {
    Pow256Widths();
    LittleEndianRoundTrip(n, 8);
  }

  // ---- streams ----

  /** A growing output buffer. */
  class Writer {
    var out: Bytes

    constructor ()
      ensures out == []
    {
      out := [];
    }

    method Put(data: Bytes)
      modifies this
      ensures out == old(out) + data
    {
      out := out + data;
    }
  }

  /** A cursor over a blob. */
  class Reader {
    const data: Bytes
    var pos: nat

    constructor (data: Bytes, pos: nat)
      ensures this.data == data && this.pos == pos
    {
      this.data := data;
      this.pos := pos;
    }

    method Next(n: nat) returns (r: Read<Bytes>)
      modifies this
      ensures r == Take(data, old(pos), n)
      ensures pos == if r.Done? then r.next else old(pos)
    {
      r := Take(data, pos, n);
      if r.Done? { pos := r.next; }
    }

    method NextU64() returns (r: Read<U64>)
      modifies this
      ensures r == TakeU64(data, old(pos))
      ensures pos == if r.Done? then r.next else old(pos)
    {
      r := TakeU64(data, pos);
      if r.Done? { pos := r.next; }
    }
  }
}
