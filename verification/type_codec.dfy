/** The inline encoding of column types in the schema's blobs. */
module TypeCodec {

  import opened Wire

  const BASIC_COUNT: nat := 22
  const KIND_LIST: nat := 22
  const KIND_SET: nat := 23
  const KIND_MAP: nat := 24
  const KIND_VECTOR: nat := 25
  const KIND_TUPLE: nat := 26
  const KIND_UDT: nat := 27

  /** A user-defined type is a reference by name into its keyspace. */
  datatype Type =
    | Basic(kind: nat)
    | List(element: Type, frozen: bool)
    | Set(key: Type, frozen: bool)
    | Map(key: Type, value: Type, frozen: bool)
    | Vector(element: Type, count: U64, frozen: bool)
    | Tuple(elements: seq<Type>, frozen: bool)
    | Udt(name: Bytes)

  datatype Error = MissingKeyspace | MissingType | CorruptKind

  datatype Result<+T> = Ok(value: T) | Err(error: Error)

  /** The keyspace against which names are resolved, if there is one. */
  datatype Keyspace = NoKeyspace | Names(names: set<Bytes>)

  // ---- encoding ----

  function Flag(frozen: bool): Byte {
    if frozen then 1 else 0
  }

  function Encode(t: Type): Bytes {
    match t
    case Basic(kind) => [(kind % 256) as Byte]
    case List(element, frozen) => [KIND_LIST as Byte, Flag(frozen)] + Encode(element)
    case Set(key, frozen) => [KIND_SET as Byte, Flag(frozen)] + Encode(key)
    case Map(key, value, frozen) => [KIND_MAP as Byte, Flag(frozen)] + (Encode(key) + Encode(value))
    case Vector(element, count, frozen) =>
      [KIND_VECTOR as Byte, Flag(frozen)] + (LittleEndian(count, 8) + Encode(element))
    case Tuple(elements, frozen) =>
      [KIND_TUPLE as Byte, Flag(frozen)] + (LittleEndian(|elements|, 8) + EncodeAll(elements))
    case Udt(name) => [KIND_UDT as Byte, 0] + (LittleEndian(|name|, 8) + name)
  }

  function EncodeAll(ts: seq<Type>): Bytes {
    if ts == [] then [] else Encode(ts[0]) + EncodeAll(ts[1..])
  }

  /** `serialized_type_size`, with its summing loop over a tuple. */
  function SerializedSize(t: Type): nat {
    match t
    case Basic(_) => 1
    case List(element, _) => 2 + SerializedSize(element)
    case Set(key, _) => 2 + SerializedSize(key)
    case Map(key, value, _) => 2 + SerializedSize(key) + SerializedSize(value)
    case Vector(element, _, _) => 10 + SerializedSize(element)
    case Tuple(elements, _) => 10 + SerializedSizes(elements)
    case Udt(name) => 10 + |name|
  }

  function SerializedSizes(ts: seq<Type>): nat {
    if ts == [] then 0 else SerializedSize(ts[0]) + SerializedSizes(ts[1..])
  }

  lemma {:induction false} SizeIsLength(t: Type)
    ensures |Encode(t)| == SerializedSize(t) >= 1
    decreases t, 0
  {
    match t
    case Basic(_) =>
    case List(element, _) => SizeIsLength(element);
    case Set(key, _) => SizeIsLength(key);
    case Map(key, value, _) => SizeIsLength(key); SizeIsLength(value);
    case Vector(element, _, _) => SizeIsLength(element);
    case Tuple(elements, _) => SizesAreLength(elements);
    case Udt(_) =>
  }

  lemma {:induction false} SizesAreLength(ts: seq<Type>)
    ensures |EncodeAll(ts)| == SerializedSizes(ts)
    decreases ts, 1
  {
    if ts != [] {
      SizeIsLength(ts[0]);
      SizesAreLength(ts[1..]);
    }
  }

  // ---- decoding ----

  /** The types that have an encoding: kinds and lengths fit their fields. */
  ghost predicate Encodable(t: Type) {
    match t
    case Basic(kind) => kind < BASIC_COUNT
    case List(element, _) => Encodable(element)
    case Set(key, _) => Encodable(key)
    case Map(key, value, _) => Encodable(key) && Encodable(value)
    case Vector(element, _, _) => Encodable(element)
    case Tuple(elements, _) => |elements| < TWO_64 && forall e :: e in elements ==> Encodable(e)
    case Udt(name) => |name| < TWO_64
  }

  /** Every user-defined type in `t` has a name in the resolving keyspace. */
  ghost predicate Resolves(t: Type, ks: Keyspace) {
    match t
    case Basic(_) => true
    case List(element, _) => Resolves(element, ks)
    case Set(key, _) => Resolves(key, ks)
    case Map(key, value, _) => Resolves(key, ks) && Resolves(value, ks)
    case Vector(element, _, _) => Resolves(element, ks)
    case Tuple(elements, _) => forall e :: e in elements ==> Resolves(e, ks)
    case Udt(name) => ks.Names? && name in ks.names
  }

  ghost predicate AllResolve(ts: seq<Type>, ks: Keyspace) {
    forall t :: t in ts ==> Resolves(t, ks)
  }

  /** What read_type makes of the bytes from `off` on, and the offset it leaves. Reading past the end of the
      blob and an unknown kind abort the source; both are CorruptKind here. */
  function Decode(b: Bytes, off: nat, ks: Keyspace): (r: (Result<Type>, nat))
    ensures r.0.Ok? ==> off < r.1 <= |b|
    decreases |b| - off, 0
  {
    if off >= |b| then (Err(CorruptKind), off)
    else
      var kind := b[off];
      if kind < BASIC_COUNT then (Ok(Basic(kind)), off + 1)
      else if kind > KIND_UDT || off + 2 > |b| then (Err(CorruptKind), off + 1)
      else
        DecodeBody(b, off + 2, ks, kind, b[off + 1] != 0)
  }

  /** The part behind the kind and the flag. */
  function DecodeBody(b: Bytes, off: nat, ks: Keyspace, kind: nat, frozen: bool): (r: (Result<Type>, nat))
    requires off <= |b| && BASIC_COUNT <= kind <= KIND_UDT
    ensures r.0.Ok? ==> off <= r.1 <= |b|
    decreases |b| - off, 2
  {
    if kind == KIND_LIST || kind == KIND_SET then
      match Decode(b, off, ks)
      case (Err(e), o) => (Err(e), o)
      case (Ok(sub), o) => (Ok(if kind == KIND_LIST then List(sub, frozen) else Set(sub, frozen)), o)
    else if kind == KIND_MAP then
      match Decode(b, off, ks)
      case (Err(e), o) => (Err(e), o)
      case (Ok(key), o) =>
        (match Decode(b, o, ks)
         case (Err(e), p) => (Err(e), p)
         case (Ok(value), p) => (Ok(Map(key, value, frozen)), p))
    else
      match TakeU64(b, off)
      case Done(n, next) => DecodeCounted(b, next, ks, kind, frozen, n)
      case _ => (Err(CorruptKind), off)
  }

  /** The part behind the count of a vector or tuple, or behind the length of a name. */
  function DecodeCounted(b: Bytes, off: nat, ks: Keyspace, kind: nat, frozen: bool, n: U64): (r: (Result<Type>, nat))
    requires off <= |b| && KIND_VECTOR <= kind <= KIND_UDT
    ensures r.0.Ok? ==> off <= r.1 <= |b|
    decreases |b| - off, 2
  {
    if kind == KIND_VECTOR then
      match Decode(b, off, ks)
      case (Err(e), o) => (Err(e), o)
      case (Ok(sub), o) => (Ok(Vector(sub, n, frozen)), o)
    else if kind == KIND_TUPLE then
      match DecodeAll(b, off, ks, n)
      case (Err(e), o) => (Err(e), o)
      case (Ok(elements), o) => (Ok(Tuple(elements, frozen)), o)
    else if off + n > |b| then (Err(CorruptKind), off)
    else
      var name := b[off..off + n];
      if ks.NoKeyspace? then (Err(MissingKeyspace), off + n)
      else if name !in ks.names then (Err(MissingType), off + n)
      else (Ok(Udt(name)), off + n)
  }

  function DecodeAll(b: Bytes, off: nat, ks: Keyspace, count: nat): (r: (Result<seq<Type>>, nat))
    ensures r.0.Ok? ==> off <= r.1 && (off <= |b| ==> r.1 <= |b|) && |r.0.value| == count
    decreases |b| - off, 1
  {
    if count == 0 then (Ok([]), off)
    else
      match Decode(b, off, ks)
      case (Err(e), o) => (Err(e), o)
      case (Ok(first), o) =>
        match DecodeAll(b, o, ks, count - 1)
        case (Err(e), p) => (Err(e), p)
        case (Ok(rest), p) => (Ok([first] + rest), p)
  }

  // ---- round trip ----

  lemma AtHead(b: Bytes, off: nat, kind: Byte, flag: Byte, rest: Bytes, ks: Keyspace)
    requires At(b, off, [kind, flag] + rest) && BASIC_COUNT <= kind <= KIND_UDT
    ensures off + 2 <= |b| && Decode(b, off, ks) == DecodeBody(b, off + 2, ks, kind, flag != 0)
    ensures At(b, off + 2, rest)
  {
    AtParts(b, off, [kind, flag], rest);
    assert b[off..off + 2][0] == kind && b[off..off + 2][1] == flag;
  }

  lemma AtCount(b: Bytes, off: nat, kind: Byte, frozen: bool, n: U64, rest: Bytes, ks: Keyspace)
    requires At(b, off, LittleEndian(n, 8) + rest) && KIND_VECTOR <= kind <= KIND_UDT
    ensures off + 8 <= |b| && DecodeBody(b, off, ks, kind, frozen) == DecodeCounted(b, off + 8, ks, kind, frozen, n)
    ensures At(b, off + 8, rest)
  {
    AtParts(b, off, LittleEndian(n, 8), rest);
    AtU64(b, off, n);
  }

  /** The outcome of reading back `v`: the value and the offset behind it, or the resolution error. */
  ghost predicate ReadsBack<T>(r: (Result<T>, nat), v: T, end: nat, resolves: bool, ks: Keyspace) {
    if resolves then r == (Ok(v), end)
    else r.0 == Err(if ks.NoKeyspace? then MissingKeyspace else MissingType)
  }

  /** read_type inverts write_type wherever the encoding stands, whatever precedes and follows it, and leaves
      the offset behind exactly serialized_type_size bytes; it fails if and only if a user-defined type in it
      does not resolve. */
  lemma {:induction false} DecodeEncoded(b: Bytes, off: nat, t: Type, ks: Keyspace)
    requires Encodable(t) && At(b, off, Encode(t))
    ensures ReadsBack(Decode(b, off, ks), t, off + SerializedSize(t), Resolves(t, ks), ks)
    decreases t, 1
  {
    SizeIsLength(t);
    match t
    case Basic(kind) => assert b[off..off + 1][0] == kind;
    case List(element, frozen) => DecodeSingle(b, off, t, KIND_LIST, element, ks);
    case Set(key, frozen) => DecodeSingle(b, off, t, KIND_SET, key, ks);
    case Map(key, value, frozen) => DecodeMap(b, off, t, ks);
    case Vector(element, count, frozen) => DecodeVector(b, off, t, ks);
    case Tuple(elements, frozen) => DecodeTuple(b, off, t, ks);
    case Udt(name) => DecodeUdt(b, off, t, ks);
  }

  lemma {:induction false} DecodeSingle(b: Bytes, off: nat, t: Type, kind: Byte, sub: Type, ks: Keyspace)
    requires Encodable(t) && At(b, off, Encode(t))
    requires (kind == KIND_LIST && t.List? && sub == t.element) || (kind == KIND_SET && t.Set? && sub == t.key)
    ensures ReadsBack(Decode(b, off, ks), t, off + SerializedSize(t), Resolves(t, ks), ks)
    decreases t, 0
  {
    AtHead(b, off, kind, Flag(t.frozen), Encode(sub), ks);
    DecodeEncoded(b, off + 2, sub, ks);
  }

  /** Reading the two halves of a map one after the other. */
  lemma JoinMap(b: Bytes, off: nat, t: Type, ks: Keyspace, mid: nat, end: nat, first: bool, second: bool)
    requires t.Map? && off <= |b|
    requires ReadsBack(Decode(b, off, ks), t.key, mid, first, ks)
    requires ReadsBack(Decode(b, mid, ks), t.value, end, second, ks)
    ensures ReadsBack(DecodeBody(b, off, ks, KIND_MAP, t.frozen), t, end, first && second, ks)
  {
    hide Decode, DecodeCounted, DecodeAll, TakeU64;
  }

  lemma {:induction false} DecodeMap(b: Bytes, off: nat, t: Type, ks: Keyspace)
    requires t.Map? && Encodable(t) && At(b, off, Encode(t))
    ensures ReadsBack(Decode(b, off, ks), t, off + SerializedSize(t), Resolves(t, ks), ks)
    decreases t, 0
  {
    hide At, Decode, DecodeBody, DecodeCounted, DecodeAll, EncodeAll, SerializedSizes, LittleEndian, TakeU64;
    AtHead(b, off, KIND_MAP, Flag(t.frozen), Encode(t.key) + Encode(t.value), ks);
    AtParts(b, off + 2, Encode(t.key), Encode(t.value));
    SizeIsLength(t.key);
    var mid := off + 2 + SerializedSize(t.key);
    DecodeEncoded(b, off + 2, t.key, ks);
    DecodeEncoded(b, mid, t.value, ks);
    JoinMap(b, off + 2, t, ks, mid, mid + SerializedSize(t.value), Resolves(t.key, ks), Resolves(t.value, ks));
  }

  lemma {:induction false} DecodeVector(b: Bytes, off: nat, t: Type, ks: Keyspace)
    requires t.Vector? && Encodable(t) && At(b, off, Encode(t))
    ensures ReadsBack(Decode(b, off, ks), t, off + SerializedSize(t), Resolves(t, ks), ks)
    decreases t, 0
  {
    AtHead(b, off, KIND_VECTOR, Flag(t.frozen), LittleEndian(t.count, 8) + Encode(t.element), ks);
    AtCount(b, off + 2, KIND_VECTOR, t.frozen, t.count, Encode(t.element), ks);
    DecodeEncoded(b, off + 10, t.element, ks);
  }

  lemma {:induction false} DecodeTuple(b: Bytes, off: nat, t: Type, ks: Keyspace)
    requires t.Tuple? && Encodable(t) && At(b, off, Encode(t))
    ensures ReadsBack(Decode(b, off, ks), t, off + SerializedSize(t), Resolves(t, ks), ks)
    decreases t, 0
  {
    AtHead(b, off, KIND_TUPLE, Flag(t.frozen), LittleEndian(|t.elements|, 8) + EncodeAll(t.elements), ks);
    AtCount(b, off + 2, KIND_TUPLE, t.frozen, |t.elements|, EncodeAll(t.elements), ks);
    DecodeAllEncoded(b, off + 10, t.elements, ks);
  }

  lemma DecodeUdt(b: Bytes, off: nat, t: Type, ks: Keyspace)
    requires t.Udt? && Encodable(t) && At(b, off, Encode(t))
    ensures ReadsBack(Decode(b, off, ks), t, off + SerializedSize(t), Resolves(t, ks), ks)
  {
    AtHead(b, off, KIND_UDT, 0, LittleEndian(|t.name|, 8) + t.name, ks);
    AtCount(b, off + 2, KIND_UDT, false, |t.name|, t.name, ks);
  }

  /** The same for encodings that stand one after the other. */
  lemma {:induction false} DecodeAllEncoded(b: Bytes, off: nat, ts: seq<Type>, ks: Keyspace)
    requires (forall t :: t in ts ==> Encodable(t)) && At(b, off, EncodeAll(ts))
    ensures ReadsBack(DecodeAll(b, off, ks, |ts|), ts, off + SerializedSizes(ts), AllResolve(ts, ks), ks)
    decreases ts, 0
  {
    if ts != [] {
      AtParts(b, off, Encode(ts[0]), EncodeAll(ts[1..]));
      SizeIsLength(ts[0]);
      DecodeEncoded(b, off, ts[0], ks);
      DecodeAllEncoded(b, off + |Encode(ts[0])|, ts[1..], ks);
      assert ts == [ts[0]] + ts[1..];
      assert AllResolve(ts, ks) <==> Resolves(ts[0], ks) && AllResolve(ts[1..], ks);
    }
  }

  // ---- the coroutines over a blob ----

  class Blob {
    var content: array<Byte>

    constructor (n: nat)
      ensures fresh(content) && content.Length == n
    {
      content := new Byte[n](_ => 0);
    }

    method Update(data: Bytes, offset: nat)
      requires offset + |data| <= content.Length
      modifies content
      ensures content[..] == old(content[..offset]) + data + old(content[offset + |data|..])
    {
      forall i | 0 <= i < |data| {
        content[offset + i] := data[i];
      }
    }
  }

  /** The bytes after writing `enc` at `off`. */
  ghost function Overwritten(b: Bytes, off: nat, enc: Bytes): Bytes
    requires off + |enc| <= |b|
  {
    b[..off] + enc + b[off + |enc|..]
  }

  lemma OverwriteTwice(b: Bytes, off: nat, x: Bytes, y: Bytes)
    requires off + |x| + |y| <= |b|
    ensures Overwritten(Overwritten(b, off, x), off + |x|, y) == Overwritten(b, off, x + y)
  {
  }

  method PutBytes(blob: Blob, data: Bytes, offset: nat) returns (end: nat)
    requires offset + |data| <= blob.content.Length
    modifies blob.content
    ensures blob.content[..] == Overwritten(old(blob.content[..]), offset, data)
    ensures end == offset + |data|
  {
    blob.Update(data, offset);
    end := offset + |data|;
    assert blob.content[..] == Overwritten(old(blob.content[..]), offset, data) by {
      assert old(blob.content[..offset]) == old(blob.content[..])[..offset];
      assert old(blob.content[offset + |data|..]) == old(blob.content[..])[offset + |data|..];
    }
  }

  method PutHead(blob: Blob, kind: Byte, flag: Byte, offset: nat) returns (end: nat)
    requires offset + 2 <= blob.content.Length
    modifies blob.content
    ensures blob.content[..] == Overwritten(old(blob.content[..]), offset, [kind, flag])
    ensures end == offset + 2
  {
    OverwriteTwice(blob.content[..], offset, [kind], [flag]);
    end := PutBytes(blob, [kind], offset);
    end := PutBytes(blob, [flag], end);
    assert [kind] + [flag] == [kind, flag];
  }

  /** Writes a type at `offset`, changes nothing else, and returns the offset behind it. */
  method WriteType(blob: Blob, t: Type, offset: nat) returns (end: nat)
    requires offset + |Encode(t)| <= blob.content.Length
    modifies blob.content
    ensures blob.content[..] == Overwritten(old(blob.content[..]), offset, Encode(t))
    ensures end == offset + SerializedSize(t)
    decreases t, 1
  {
    SizeIsLength(t);
    if t.Basic? {
      end := PutBytes(blob, [(t.kind % 256) as Byte], offset);
      return;
    }
    var kind := Kind(t);
    OverwriteTwice(blob.content[..], offset, [kind, HeadFlag(t)], Body(t));
    end := PutHead(blob, kind, HeadFlag(t), offset);
    end := WriteBody(blob, t, end);
  }

  /** The kind byte and the flag byte of a composite type. */
  function Kind(t: Type): Byte
    requires !t.Basic?
  {
    match t
    case List(_, _) => KIND_LIST
    case Set(_, _) => KIND_SET
    case Map(_, _, _) => KIND_MAP
    case Vector(_, _, _) => KIND_VECTOR
    case Tuple(_, _) => KIND_TUPLE
    case Udt(_) => KIND_UDT
  }

  function HeadFlag(t: Type): Byte
    requires !t.Basic?
  {
    if t.Udt? then 0 else Flag(t.frozen)
  }

  /** What follows them. */
  function Body(t: Type): Bytes
    requires !t.Basic?
    ensures Encode(t) == [Kind(t), HeadFlag(t)] + Body(t)
  {
    match t
    case List(element, _) => Encode(element)
    case Set(key, _) => Encode(key)
    case Map(key, value, _) => Encode(key) + Encode(value)
    case Vector(element, count, _) => LittleEndian(count, 8) + Encode(element)
    case Tuple(elements, _) => LittleEndian(|elements|, 8) + EncodeAll(elements)
    case Udt(name) => LittleEndian(|name|, 8) + name
  }

  method WriteBody(blob: Blob, t: Type, offset: nat) returns (end: nat)
    requires !t.Basic? && offset + |Body(t)| <= blob.content.Length
    modifies blob.content
    ensures blob.content[..] == Overwritten(old(blob.content[..]), offset, Body(t))
    ensures end == offset + |Body(t)|
    decreases t, 0
  {
    hide Encode, EncodeAll, SerializedSize, LittleEndian, Overwritten;
    match t
    case List(element, _) =>
      SizeIsLength(element);
      end := WriteType(blob, element, offset);
    case Set(key, _) =>
      SizeIsLength(key);
      end := WriteType(blob, key, offset);
    case Map(key, value, _) =>
      SizeIsLength(key);
      SizeIsLength(value);
      OverwriteTwice(blob.content[..], offset, Encode(key), Encode(value));
      end := WriteType(blob, key, offset);
      end := WriteType(blob, value, end);
    case Vector(element, count, _) =>
      SizeIsLength(element);
      OverwriteTwice(blob.content[..], offset, LittleEndian(count, 8), Encode(element));
      end := PutBytes(blob, LittleEndian(count, 8), offset);
      end := WriteType(blob, element, end);
    case Tuple(elements, _) =>
      OverwriteTwice(blob.content[..], offset, LittleEndian(|elements|, 8), EncodeAll(elements));
      end := PutBytes(blob, LittleEndian(|elements|, 8), offset);
      end := WriteElements(blob, elements, end);
    case Udt(name) =>
      OverwriteTwice(blob.content[..], offset, LittleEndian(|name|, 8), name);
      end := PutBytes(blob, LittleEndian(|name|, 8), offset);
      end := PutBytes(blob, name, end);
  }

  method WriteElements(blob: Blob, ts: seq<Type>, offset: nat) returns (end: nat)
    requires offset + |EncodeAll(ts)| <= blob.content.Length
    modifies blob.content
    ensures blob.content[..] == Overwritten(old(blob.content[..]), offset, EncodeAll(ts))
    ensures end == offset + |EncodeAll(ts)|
    decreases ts, 0
  {
    end := offset;
    ghost var before := blob.content[..];
    for i := 0 to |ts|
      invariant EncodeAll(ts) == EncodeAll(ts[..i]) + EncodeAll(ts[i..])
      invariant end == offset + |EncodeAll(ts[..i])|
      invariant blob.content[..] == Overwritten(before, offset, EncodeAll(ts[..i]))
    {
      EncodeAllSplit(ts[..i + 1], i);
      EncodeAllSplit(ts, i + 1);
      assert ts[..i + 1][..i] == ts[..i] && ts[..i + 1][i..] == [ts[i]] && [ts[i]][1..] == [];
      assert EncodeAll([ts[i]]) == Encode(ts[i]) + EncodeAll([]) == Encode(ts[i]);
      OverwriteTwice(before, offset, EncodeAll(ts[..i]), Encode(ts[i]));
      SizeIsLength(ts[i]);
      end := WriteType(blob, ts[i], end);
    }
    assert ts[..|ts|] == ts;
  }

  lemma {:induction false} EncodeAllSplit(ts: seq<Type>, i: nat)
    requires i <= |ts|
    ensures EncodeAll(ts) == EncodeAll(ts[..i]) + EncodeAll(ts[i..])
  {
    if i > 0 {
      EncodeAllSplit(ts[1..], i - 1);
      assert ts[..i][0] == ts[0] && ts[..i][1..] == ts[1..][..i - 1] && ts[1..][i - 1..] == ts[i..];
    } else {
      assert ts[..0] == [] && ts[0..] == ts;
    }
  }

  /** Reads a type at `offset`, as Decode says. */
  method ReadType(blob: Blob, ks: Keyspace, offset: nat) returns (r: Result<Type>, end: nat)
    ensures (r, end) == Decode(blob.content[..], offset, ks)
    decreases blob.content.Length - offset, 0
  {
    ghost var b := blob.content[..];
    end := offset;
    if end >= blob.content.Length { return Err(CorruptKind), end; }
    var kind := blob.content[end];
    end := end + 1;
    if kind < BASIC_COUNT { return Ok(Basic(kind)), end; }
    if kind > KIND_UDT || end + 1 > blob.content.Length { return Err(CorruptKind), end; }
    var frozen := blob.content[end] != 0;
    end := end + 1;
    r, end := ReadBody(blob, ks, end, kind, frozen);
  }

  method ReadBody(blob: Blob, ks: Keyspace, offset: nat, kind: Byte, frozen: bool) returns (r: Result<Type>, end: nat)
    requires offset <= blob.content.Length && BASIC_COUNT <= kind <= KIND_UDT
    ensures (r, end) == DecodeBody(blob.content[..], offset, ks, kind, frozen)
    decreases blob.content.Length - offset, 2
  {
    hide DecodeCounted, Decode;
    end := offset;
    if kind == KIND_LIST {
      r, end := ReadType(blob, ks, end);
      if r.Ok? { r := Ok(List(r.value, frozen)); }
    } else if kind == KIND_SET {
      r, end := ReadType(blob, ks, end);
      if r.Ok? { r := Ok(Set(r.value, frozen)); }
    } else if kind == KIND_MAP {
      r, end := ReadType(blob, ks, end);
      if r.Ok? {
        var key := r.value;
        r, end := ReadType(blob, ks, end);
        if r.Ok? { r := Ok(Map(key, r.value, frozen)); }
      }
    } else {
      var n := TakeU64(blob.content[..], end);
      if n.Done? {
        r, end := ReadCounted(blob, ks, n.next, kind, frozen, n.value);
      } else {
        r := Err(CorruptKind);
      }
    }
  }

  method ReadCounted(blob: Blob, ks: Keyspace, offset: nat, kind: Byte, frozen: bool, n: U64)
    returns (r: Result<Type>, end: nat)
    requires offset <= blob.content.Length && KIND_VECTOR <= kind <= KIND_UDT
    ensures (r, end) == DecodeCounted(blob.content[..], offset, ks, kind, frozen, n)
    decreases blob.content.Length - offset, 2
  {
    hide Decode, DecodeAll;
    if kind == KIND_VECTOR {
      r, end := ReadType(blob, ks, offset);
      if r.Ok? { r := Ok(Vector(r.value, n, frozen)); }
    } else if kind == KIND_TUPLE {
      var elements;
      elements, end := ReadElements(blob, ks, offset, n);
      r := if elements.Ok? then Ok(Tuple(elements.value, frozen)) else Err(elements.error);
    } else if offset + n > blob.content.Length {
      return Err(CorruptKind), offset;
    } else {
      var name := blob.content[..][offset..offset + n];
      end := offset + n;
      r := if ks.NoKeyspace? then Err(MissingKeyspace)
           else if name !in ks.names then Err(MissingType)
           else Ok(Udt(name));
    }
  }

  method ReadElements(blob: Blob, ks: Keyspace, offset: nat, count: nat) returns (r: Result<seq<Type>>, end: nat)
    requires offset <= blob.content.Length
    ensures (r, end) == DecodeAll(blob.content[..], offset, ks, count)
    decreases blob.content.Length - offset, 1
  {
    end := offset;
    var elements := [];
    ghost var b := blob.content[..];
    assert DecodeAll(b, offset, ks, count) == Prepended([], DecodeAll(b, offset, ks, count)) by {
      ghost var r := DecodeAll(b, offset, ks, count);
      assert r.0.Ok? ==> [] + r.0.value == r.0.value;
    }
    for i := 0 to count
      invariant |elements| == i && offset <= end <= blob.content.Length
      invariant DecodeAll(b, offset, ks, count) == Prepended(elements, DecodeAll(b, end, ks, count - i))
    {
      var e;
      e, end := ReadType(blob, ks, end);
      if e.Err? { return Err(e.error), end; }
      ghost var rest := DecodeAll(b, end, ks, count - i - 1);
      assert rest.0.Ok? ==> elements + ([e.value] + rest.0.value) == (elements + [e.value]) + rest.0.value;
      elements := elements + [e.value];
    }
    r := Ok(elements);
    assert elements + [] == elements;
  }

  ghost function Prepended(first: seq<Type>, r: (Result<seq<Type>>, nat)): (Result<seq<Type>>, nat) {
    match r
    case (Err(e), o) => (Err(e), o)
    case (Ok(rest), o) => (Ok(first + rest), o)
  }

  lemma OverwrittenAt(b: Bytes, off: nat, enc: Bytes)
    requires off + |enc| <= |b|
    ensures At(Overwritten(b, off, enc), off, enc)
  {
  }

  lemma ReadsBackOk(r: (Result<Type>, nat), t: Type, end: nat, ks: Keyspace)
    requires ReadsBack(r, t, end, true, ks)
    ensures r == (Ok(t), end)
  {
  }

  /** Write one record, then read it: the type comes back, whatever the blob held before, and a second type
      written right behind the first leaves the first readable. */
  method WriteThenRead(blob: Blob, t: Type, next: Type, ks: Keyspace, offset: nat)
    returns (a: Result<Type>, b: Result<Type>)
    requires Encodable(t) && Encodable(next) && Resolves(t, ks) && Resolves(next, ks)
    requires offset + SerializedSize(t) + SerializedSize(next) <= blob.content.Length
    modifies blob.content
    ensures a == Ok(t) && b == Ok(next)
  {
    hide *;
    SizeIsLength(t);
    SizeIsLength(next);
    ghost var before := blob.content[..];
    OverwriteTwice(before, offset, Encode(t), Encode(next));
    var end := WriteType(blob, t, offset);
    end := WriteType(blob, next, end);
    OverwrittenAt(before, offset, Encode(t) + Encode(next));
    AtParts(blob.content[..], offset, Encode(t), Encode(next));
    DecodeEncoded(blob.content[..], offset, t, ks);
    DecodeEncoded(blob.content[..], offset + |Encode(t)|, next, ks);
    ReadsBackOk(Decode(blob.content[..], offset, ks), t, offset + SerializedSize(t), ks);
    ReadsBackOk(Decode(blob.content[..], offset + SerializedSize(t), ks), next,
        offset + SerializedSize(t) + SerializedSize(next), ks);
    a, end := ReadType(blob, ks, offset);
    b, end := ReadType(blob, ks, end);
  }
}
