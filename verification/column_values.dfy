/** Column values, and the generated wire codec of the basic types. */
module ColumnValues {

  import opened Wire
  import opened DecimalCompare

  type S64 = n: int | -0x8000_0000_0000_0000 <= n < 0x8000_0000_0000_0000
  type S16 = n: int | -0x8000 <= n < 0x8000
  type U32 = n: nat | n < TWO_32
  type Sized = b: Bytes | |b| < TWO_64
  type Bytes4 = b: Bytes | |b| == 4 witness seq(4, _ => 0)
  type Bytes16 = b: Bytes | |b| == 16 witness seq(16, _ => 0)

  datatype Basic =
    | Ascii | BigInt | BlobKind | Boolean | Counter | Date | DecimalKind | DoubleKind | DurationKind | FloatKind
    | InetKind
    | IntKind | SmallInt | TextKind | Time | Timestamp | TimeUuid | TinyInt | UuidKind | VarChar | VarIntKind | Hex

  datatype Entry = Entry(key: Value, value: Value)

  /** Floating-point values are kept as their bits. A set or map is its members in iteration order. */
  datatype Value =
    | Null
    | Text(chars: Sized)
    | Long(long: S64)
    | Int(n: S32)
    | Short16(short: S16)
    | Tiny(tiny: Byte)
    | Double(bits: U64)
    | Float(bits32: U32)
    | Blob(data: Sized)
    | Uuid(id: Bytes16)
    | Inet4(v4: Bytes4)
    | Inet6(v6: Bytes16)
    | Big(big: VarInt)
    | Dec(dec: Decimal)
    | Duration(months: S32, days: S32, nanoseconds: S64)
    | Array(items: seq<Value>)
    | SetOf(members: seq<Value>)
    | MapOf(entries: seq<Entry>)

  predicate IsBasic(v: Value) {
    !v.Null? && !v.Array? && !v.SetOf? && !v.MapOf?
  }

  /** can_write_typed_basic_as_column_value: a 64-bit literal passes for every integer kind and a double for
      both floating-point kinds. */
  predicate CanWriteBasic(v: Value, kind: Basic) {
    match v
    case Long(_) => kind in {SmallInt, IntKind, Date, BigInt, Timestamp, Counter, Time, TinyInt}
    case Double(_) => kind in {FloatKind, DoubleKind}
    case _ => Native(v, kind)
  }

  /** The representation reading a value of this kind gives. */
  predicate Native(v: Value, kind: Basic) {
    match kind
    case Ascii => v.Text?
    case TextKind => v.Text?
    case VarChar => v.Text?
    case BigInt => v.Long?
    case Timestamp => v.Long?
    case Counter => v.Long?
    case Time => v.Long?
    case IntKind => v.Int?
    case Date => v.Int?
    case SmallInt => v.Short16?
    case TinyInt => v.Tiny?
    case Boolean => v.Tiny?
    case DoubleKind => v.Double?
    case FloatKind => v.Float?
    case BlobKind => v.Blob?
    case Hex => v.Blob?
    case UuidKind => v.Uuid?
    case TimeUuid => v.Uuid?
    case InetKind => v.Inet4? || v.Inet6?
    case VarIntKind => v.Big?
    case DecimalKind => v.Dec?
    case DurationKind => v.Duration?
  }

  predicate BasicFits(v: Value) {
    (v.Big? ==> |v.big.magnitude| < TWO_64) && (v.Dec? ==> |v.dec.unscaled.magnitude| < TWO_64)
  }

  // ---- writing ----

  function Counted(b: Bytes): Bytes {
    LittleEndian(|b|, 8) + b
  }

  lemma WidthsFit()
    ensures forall n: int :: -0x8000_0000_0000_0000 <= n < 0x8000_0000_0000_0000 ==> InSigned(n, 8)
    ensures forall n: int :: -0x8000_0000 <= n < 0x8000_0000 ==> InSigned(n, 4)
    ensures forall n: int :: -0x8000 <= n < 0x8000 ==> InSigned(n, 2)
    ensures forall n: int, w: nat :: InSigned(n, w) ==> InWidth(n, w)
  {
    Pow256Widths();
  }

  function EncodeSignedBytes(n: int, width: nat): (b: Bytes)
    requires InSigned(n, width)
    ensures |b| == width
  {
    EncodeSigned(n, width)
  }

  /** write_typed_basic looks at the representation alone, not at the kind. */
  function EncodeBasic(v: Value): Bytes {
    WidthsFit();
    match v
    case Text(chars) => Counted(chars)
    case Long(n) => EncodeSignedBytes(n, 8)
    case Int(n) => EncodeSignedBytes(n, 4)
    case Short16(n) => EncodeSignedBytes(n, 2)
    case Tiny(u) => [u]
    case Double(bits) => LittleEndian(bits, 8)
    case Float(bits) => LittleEndian(bits, 4)
    case Blob(data) => Counted(data)
    case Uuid(id) => id
    case Inet4(v4) => [0] + v4
    case Inet6(v6) => [1] + v6
    case Big(big) => EncodeVarInt(big)
    case Dec(dec) => EncodeSignedBytes(dec.scale, 4) + EncodeVarInt(dec.unscaled)
    case Duration(months, days, nanoseconds) =>
      EncodeSignedBytes(months, 4) + (EncodeSignedBytes(days, 4) + EncodeSignedBytes(nanoseconds, 8))
    case _ => []
  }

  function EncodeVarInt(v: VarInt): Bytes {
    [if v.negative then 1 else 0] + Counted(v.magnitude)
  }

  // ---- reading ----

  function TakeCounted(b: Bytes, off: nat): (r: Read<Bytes>)
    ensures r.Done? ==> off < r.next <= |b| && |r.value| < TWO_64
  {
    match TakeU64(b, off)
    case Done(n, next) => Take(b, next, n)
    case _ => Short
  }

  function TakeSigned(b: Bytes, off: nat, width: nat): (r: Read<int>)
    ensures r.Done? ==> r.next == off + width <= |b| && (width > 0 ==> InSigned(r.value, width))
  {
    match Take(b, off, width)
    case Done(word, next) =>
      LittleEndianBound(word);
      SignedInRange(FromLittleEndian(word), width);
      Done(Signed(FromLittleEndian(word), width), next)
    case _ => Short
  }

  lemma SignedInRange(n: nat, width: nat)
    requires n < Pow256(width)
    ensures width > 0 ==> InSigned(Signed(n, width), width)
  {
    if width > 0 {
      assert Pow256(width) == 256 * Pow256(width - 1);
    }
  }

  function TakeVarInt(b: Bytes, off: nat): (r: Read<VarInt>)
    ensures r.Done? ==> off < r.next <= |b|
  {
    match Take(b, off, 1)
    case Done(negative, next) => (match TakeCounted(b, next)
                                  case Done(magnitude, end) => Done(VarInt(negative[0] != 0, magnitude), end)
                                  case _ => Short)
    case _ => Short
  }

  function TakeDecimal(b: Bytes, off: nat): (r: Read<Value>)
    ensures r.Done? ==> off < r.next <= |b| && r.value.Dec?
  {
    Pow256Widths();
    match TakeSigned(b, off, 4)
    case Done(scale, next) => (match TakeVarInt(b, next)
                               case Done(unscaled, end) => Done(Dec(Decimal(scale, unscaled)), end)
                               case _ => Short)
    case _ => Short
  }

  function TakeDuration(b: Bytes, off: nat): (r: Read<Value>)
    ensures r.Done? ==> off < r.next <= |b| && r.value.Duration?
  {
    Pow256Widths();
    match TakeSigned(b, off, 4)
    case Done(months, p) =>
      (match TakeSigned(b, p, 4)
       case Done(days, q) => (match TakeSigned(b, q, 8)
                              case Done(nanoseconds, end) => Done(Duration(months, days, nanoseconds), end)
                              case _ => Short)
       case _ => Short)
    case _ => Short
  }

  function TakeInet(b: Bytes, off: nat): (r: Read<Value>)
    ensures r.Done? ==> off < r.next <= |b| && (r.value.Inet4? || r.value.Inet6?)
  {
    match Take(b, off, 1)
    case Done(raw, next) =>
      (match Take(b, next, if raw[0] != 0 then 16 else 4)
       case Done(address, end) => Done(if raw[0] != 0 then Inet6(address) else Inet4(address), end)
       case _ => Short)
    case _ => Short
  }

  function DecodeBasic(b: Bytes, off: nat, kind: Basic): (r: Read<Value>)
    ensures r.Done? ==> off < r.next <= |b| && Native(r.value, kind)
  {
    Pow256Widths();
    match kind
    case SmallInt => Mapped(TakeSigned(b, off, 2), (n: int) requires InSigned(n, 2) => Short16(n))
    case IntKind => Mapped(TakeSigned(b, off, 4), (n: int) requires InSigned(n, 4) => Int(n))
    case Date => Mapped(TakeSigned(b, off, 4), (n: int) requires InSigned(n, 4) => Int(n))
    case BigInt => Mapped(TakeSigned(b, off, 8), (n: int) requires InSigned(n, 8) => Long(n))
    case Timestamp => Mapped(TakeSigned(b, off, 8), (n: int) requires InSigned(n, 8) => Long(n))
    case Counter => Mapped(TakeSigned(b, off, 8), (n: int) requires InSigned(n, 8) => Long(n))
    case Time => Mapped(TakeSigned(b, off, 8), (n: int) requires InSigned(n, 8) => Long(n))
    case TinyInt => Mapped(Take(b, off, 1), (raw: Bytes) requires |raw| == 1 => Tiny(raw[0]))
    case Boolean => Mapped(Take(b, off, 1), (raw: Bytes) requires |raw| == 1 => Tiny(raw[0]))
    case FloatKind => TakeFloat(b, off)
    case DoubleKind => Mapped(TakeU64(b, off), (bits: U64) => Double(bits))
    case TextKind => Mapped(TakeCounted(b, off), (chars: Bytes) requires |chars| < TWO_64 => Text(chars))
    case VarChar => Mapped(TakeCounted(b, off), (chars: Bytes) requires |chars| < TWO_64 => Text(chars))
    case Ascii => Mapped(TakeCounted(b, off), (chars: Bytes) requires |chars| < TWO_64 => Text(chars))
    case BlobKind => Mapped(TakeCounted(b, off), (data: Bytes) requires |data| < TWO_64 => Blob(data))
    case Hex => Mapped(TakeCounted(b, off), (data: Bytes) requires |data| < TWO_64 => Blob(data))
    case UuidKind => Mapped(Take(b, off, 16), (id: Bytes) requires |id| == 16 => Uuid(id))
    case TimeUuid => Mapped(Take(b, off, 16), (id: Bytes) requires |id| == 16 => Uuid(id))
    case InetKind => TakeInet(b, off)
    case VarIntKind => Mapped(TakeVarInt(b, off), (big: VarInt) => Big(big))
    case DecimalKind => TakeDecimal(b, off)
    case DurationKind => TakeDuration(b, off)
  }

  function Mapped<T, U>(r: Read<T>, f: T --> U): Read<U>
    requires r.Done? ==> f.requires(r.value)
  {
    match r
    case Done(value, next) => Done(f(value), next)
    case Short => Short
    case Corrupt => Corrupt
  }

  function TakeFloat(b: Bytes, off: nat): (r: Read<Value>)
    ensures r.Done? ==> off < r.next <= |b| && r.value.Float?
  {
    match Take(b, off, 4)
    case Done(word, next) =>
      LittleEndianBound(word);
      Pow256Widths();
      Done(Float(FromLittleEndian(word)), next)
    case _ => Short
  }

  // ---- skipping ----

  /** The offset behind a value: fields of fixed width are passed over, counts are read. */
  function SkipBasic(b: Bytes, off: nat, kind: Basic): Read<()> {
    match kind
    case SmallInt => Forget(Take(b, off, 2))
    case IntKind => Forget(Take(b, off, 4))
    case Date => Forget(Take(b, off, 4))
    case BigInt => Forget(Take(b, off, 8))
    case Timestamp => Forget(Take(b, off, 8))
    case Counter => Forget(Take(b, off, 8))
    case Time => Forget(Take(b, off, 8))
    case TinyInt => Forget(Take(b, off, 1))
    case Boolean => Forget(Take(b, off, 1))
    case FloatKind => Forget(Take(b, off, 4))
    case DoubleKind => Forget(Take(b, off, 8))
    case TextKind => SkipCounted(b, off)
    case VarChar => SkipCounted(b, off)
    case Ascii => SkipCounted(b, off)
    case BlobKind => SkipCounted(b, off)
    case Hex => SkipCounted(b, off)
    case UuidKind => Forget(Take(b, off, 16))
    case TimeUuid => Forget(Take(b, off, 16))
    case InetKind => (match Take(b, off, 1)
                      case Done(raw, next) => Forget(Take(b, next, if raw[0] != 0 then 16 else 4))
                      case _ => Short)
    case VarIntKind => SkipBehind(b, Take(b, off, 1))
    case DecimalKind => (match Take(b, off, 4)
                         case Done(_, next) => SkipBehind(b, Take(b, next, 1))
                         case _ => Short)
    case DurationKind => (match Take(b, off, 4)
                          case Done(_, next) => (match Take(b, next, 4)
                                                 case Done(_, last) => Forget(Take(b, last, 8))
                                                 case _ => Short)
                          case _ => Short)
  }

  function SkipCounted(b: Bytes, off: nat): Read<()> {
    match TakeU64(b, off)
    case Done(n, next) => Forget(Take(b, next, n))
    case _ => Short
  }

  function SkipBehind(b: Bytes, first: Read<Bytes>): Read<()> {
    match first
    case Done(_, next) => SkipCounted(b, next)
    case _ => Short
  }

  /** Skipping ends where reading would, on any bytes whatever. */
  lemma SkipBasicMatchesRead(b: Bytes, off: nat, kind: Basic)
    ensures SkipBasic(b, off, kind) == Forget(DecodeBasic(b, off, kind))
  {
  }

  // ---- round trip ----

  lemma AtCounted(b: Bytes, off: nat, data: Sized)
    requires At(b, off, Counted(data))
    ensures TakeCounted(b, off) == Done(data, off + |Counted(data)|)
  {
    AtParts(b, off, LittleEndian(|data|, 8), data);
    AtU64(b, off, |data|);
  }

  lemma AtSigned(b: Bytes, off: nat, n: int, width: nat)
    requires width > 0 && InSigned(n, width) && At(b, off, EncodeSignedBytes(n, width))
    ensures TakeSigned(b, off, width) == Done(n, off + width)
  {
    SignedRoundTrip(n, width);
  }

  lemma AtVarInt(b: Bytes, off: nat, v: VarInt)
    requires |v.magnitude| < TWO_64 && At(b, off, EncodeVarInt(v))
    ensures TakeVarInt(b, off) == Done(v, off + |EncodeVarInt(v)|)
  {
    AtParts(b, off, [if v.negative then 1 else 0], Counted(v.magnitude));
    AtCounted(b, off + 1, v.magnitude);
  }

  lemma AtDecimal(b: Bytes, off: nat, v: Value)
    requires v.Dec? && BasicFits(v) && At(b, off, EncodeBasic(v))
    ensures TakeDecimal(b, off) == Done(v, off + |EncodeBasic(v)|)
  {
    WidthsFit();
    AtParts(b, off, EncodeSignedBytes(v.dec.scale, 4), EncodeVarInt(v.dec.unscaled));
    AtSigned(b, off, v.dec.scale, 4);
    AtVarInt(b, off + 4, v.dec.unscaled);
  }

  lemma AtDuration(b: Bytes, off: nat, v: Value)
    requires v.Duration? && At(b, off, EncodeBasic(v))
    ensures TakeDuration(b, off) == Done(v, off + |EncodeBasic(v)|)
  {
    WidthsFit();
    var m, d, n := EncodeSignedBytes(v.months, 4), EncodeSignedBytes(v.days, 4), EncodeSignedBytes(v.nanoseconds, 8);
    AtParts(b, off, m, d + n);
    AtParts(b, off + 4, d, n);
    AtSigned(b, off, v.months, 4);
    AtSigned(b, off + 4, v.days, 4);
    AtSigned(b, off + 8, v.nanoseconds, 8);
  }

  lemma AtFloat(b: Bytes, off: nat, bits: U32)
    requires At(b, off, LittleEndian(bits, 4))
    ensures TakeFloat(b, off) == Done(Float(bits), off + 4)
  {
    Pow256Widths();
    LittleEndianRoundTrip(bits, 4);
  }

  lemma AtInet(b: Bytes, off: nat, v: Value)
    requires (v.Inet4? || v.Inet6?) && At(b, off, EncodeBasic(v))
    ensures TakeInet(b, off) == Done(v, off + |EncodeBasic(v)|)
  {
    var tag, address := [if v.Inet6? then 1 else 0], if v.Inet6? then v.v6 else v.v4;
    AtParts(b, off, tag, address);
  }

  lemma DecodeNative(b: Bytes, off: nat, v: Value, kind: Basic)
    requires Native(v, kind) && BasicFits(v) && At(b, off, EncodeBasic(v))
    ensures DecodeBasic(b, off, kind) == Done(v, off + |EncodeBasic(v)|)
  {
    WidthsFit();
    match v
    case Text(chars) => AtCounted(b, off, chars);
    case Long(n) => AtSigned(b, off, n, 8);
    case Int(n) => AtSigned(b, off, n, 4);
    case Short16(n) => AtSigned(b, off, n, 2);
    case Tiny(u) => assert b[off..off + 1][0] == u;
    case Double(bits) => AtU64(b, off, bits);
    case Float(bits) => AtFloat(b, off, bits);
    case Blob(data) => AtCounted(b, off, data);
    case Uuid(id) => AtTake(b, off, id);
    case Inet4(_) => AtInet(b, off, v);
    case Inet6(_) => AtInet(b, off, v);
    case Big(big) => AtVarInt(b, off, big);
    case Dec(_) => AtDecimal(b, off, v);
    case Duration(_, _, _) => AtDuration(b, off, v);
  }

  /** A basic value that passes the writer's check reads back, from wherever it stands, exactly when it is in
      the kind's own representation: the check also lets a 64-bit literal into a narrower column. */
  lemma BasicRoundTrip(b: Bytes, off: nat, v: Value, kind: Basic)
    requires CanWriteBasic(v, kind) && BasicFits(v) && At(b, off, EncodeBasic(v))
    ensures DecodeBasic(b, off, kind) == Done(v, off + |EncodeBasic(v)|) <==> Native(v, kind)
  {
    if Native(v, kind) {
      DecodeNative(b, off, v, kind);
    }
  }

  lemma EncodeBasicNonEmpty(v: Value)
    requires IsBasic(v)
    ensures EncodeBasic(v) != []
  {
  }
}
