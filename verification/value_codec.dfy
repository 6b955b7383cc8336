/** The codec of column values of any type: what is written, read and skipped. */
module ValueCodec {

  import opened Wire
  import opened ColumnValues

  /** A column type with its user-defined types resolved to the types of their fields. */
  datatype Type =
    | BasicType(kind: Basic)
    | List(element: Type)
    | Set(key: Type)
    | Map(key: Type, value: Type)
    | Vector(element: Type, count: U64)
    | Tuple(fields: seq<Type>)
    | Udt(fields: seq<Type>)

  // ---- presence masks ----

  /** Bit 0 first, as the number they spell. */
  function BitsValue(bits: seq<bool>): nat {
    if bits == [] then 0 else (if bits[0] then 1 else 0) + 2 * BitsValue(bits[1..])
  }

  predicate Bit(n: nat, i: nat) {
    if i == 0 then n % 2 == 1 else Bit(n / 2, i - 1)
  }

  lemma {:induction false} BitsValueBound(bits: seq<bool>)
    ensures BitsValue(bits) < Pow2(|bits|)
  {
    if bits != [] { BitsValueBound(bits[1..]); }
  }

  lemma Pow2Of64()
    ensures Pow2(64) == TWO_64
  {
    assert Pow2(8) == 256;
    assert Pow2(16) == 0x1_0000;
    assert Pow2(24) == 0x100_0000;
    assert Pow2(32) == TWO_32;
    assert Pow2(40) == 0x100_0000_0000;
    assert Pow2(48) == 0x1_0000_0000_0000;
    assert Pow2(56) == 0x100_0000_0000_0000;
  }

  lemma {:induction false} BitOfValue(bits: seq<bool>, i: nat)
    requires i < |bits|
    ensures Bit(BitsValue(bits), i) == bits[i]
  {
    if i > 0 { BitOfValue(bits[1..], i - 1); }
  }

  /** Sixty-four bits or fewer, as one word. */
  function WordOf(bits: seq<bool>): (n: U64)
    requires |bits| <= 64
  {
    BitsValueBound(bits);
    Pow2Of64();
    Pow2Grows(|bits|, 64);
    BitsValue(bits)
  }

  lemma {:induction false} Pow2Grows(m: nat, n: nat)
    requires m <= n
    ensures Pow2(m) <= Pow2(n)
  {
    if m < n { Pow2Grows(m, n - 1); }
  }

  /** One bit an index, in words of 64, the last one filled up with zeros. */
  function MaskBytes(bits: seq<bool>): Bytes {
    if bits == [] then []
    else if |bits| <= 64 then LittleEndian(WordOf(bits), 8)
    else LittleEndian(WordOf(bits[..64]), 8) + MaskBytes(bits[64..])
  }

  function TakeMask(b: Bytes, off: nat, words: nat): (r: Read<seq<U64>>)
    ensures r.Done? ==> |r.value| == words && off <= r.next && (words > 0 ==> r.next <= |b|)
    decreases words
  {
    if words == 0 then Done([], off)
    else
      match TakeU64(b, off)
      case Done(word, next) => (match TakeMask(b, next, words - 1)
                                case Done(rest, end) => Done([word] + rest, end)
                                case _ => Short)
      case _ => Short
  }

  /** mask_bit: shift and test. */
  predicate MaskBit(mask: seq<U64>, i: nat)
    requires i < 64 * |mask|
  {
    |mask| > 0 && Bit(mask[i / 64], i % 64)
  }

  lemma {:induction false} AtMask(b: Bytes, off: nat, bits: seq<bool>)
    requires At(b, off, MaskBytes(bits))
    ensures var r := TakeMask(b, off, (|bits| + 63) / 64);
            && r.Done? && r.next == off + |MaskBytes(bits)|
            && forall i :: 0 <= i < |bits| ==> MaskBit(r.value, i) == bits[i]
    decreases |bits|
  {
    hide LittleEndian, TakeU64, Bit, MaskBit, BitsValue;
    if bits != [] {
      var head := if |bits| <= 64 then bits else bits[..64];
      var rest := if |bits| <= 64 then [] else bits[64..];
      assert MaskBytes(bits) == LittleEndian(WordOf(head), 8) + MaskBytes(rest);
      AtParts(b, off, LittleEndian(WordOf(head), 8), MaskBytes(rest));
      AtU64(b, off, WordOf(head));
      AtMask(b, off + 8, rest);
      assert (|bits| + 63) / 64 == 1 + (|rest| + 63) / 64;
      forall i | 0 <= i < |bits|
        ensures MaskBit(TakeMask(b, off, (|bits| + 63) / 64).value, i) == bits[i]
      {
        FirstWord(WordOf(head), TakeMask(b, off + 8, (|rest| + 63) / 64).value, i);
        if i < 64 { BitOfValue(head, i); }
      }
    }
  }

  lemma FirstWord(word: U64, rest: seq<U64>, i: nat)
    requires i < 64 * (|rest| + 1)
    ensures MaskBit([word] + rest, i) == if i < 64 then Bit(word, i) else MaskBit(rest, i - 64)
  {
    hide Bit;
    if i >= 64 {
      assert i / 64 == 1 + (i - 64) / 64 && i % 64 == (i - 64) % 64;
    }
  }

  // ---- writing ----

  /** Which of `count` fields a value of `items` fills. */
  function Presence(items: seq<Value>, count: nat): (bits: seq<bool>)
    ensures |bits| == count
  {
    seq(count, i requires 0 <= i => i < |items| && !items[i].Null?)
  }

  /** write_column_value. A null writes nothing; a value that does not suit the type aborts the source. */
  function Encode(v: Value, t: Type): Bytes
    decreases v, 1
  {
    match v
    case Null => []
    case Array(items) =>
      if t.Tuple? then MaskBytes(Presence(items, |t.fields|)) + EncodeFields(items, t.fields)
      else if t.Udt? then
        LittleEndian(|t.fields|, 8) + (MaskBytes(Presence(items, |t.fields|)) + EncodeFields(items, t.fields))
      else if t.Vector? then EncodeEach(items, t.element)
      else if t.List? then LittleEndian(|items|, 8) + EncodeEach(items, t.element)
      else []
    case SetOf(members) => if t.Set? then LittleEndian(|members|, 8) + EncodeEach(members, t.key) else []
    case MapOf(entries) => if t.Map? then LittleEndian(|entries|, 8) + EncodeEntries(entries, t.key, t.value) else []
    case _ => EncodeBasic(v)
  }

  function EncodeEach(items: seq<Value>, t: Type): Bytes
    decreases items, 0
  {
    if items == [] then [] else Encode(items[0], t) + EncodeEach(items[1..], t)
  }

  function EncodeEntries(entries: seq<Entry>, key: Type, value: Type): Bytes
    decreases entries, 0
  {
    if entries == [] then [] else EncodeEntry(entries[0], key, value) + EncodeEntries(entries[1..], key, value)
  }

  function EncodeEntry(e: Entry, key: Type, value: Type): Bytes
    decreases e, 0
  {
    Encode(e.key, key) + Encode(e.value, value)
  }

  /** The payloads of the fields that are filled; a null writes none. */
  function EncodeFields(items: seq<Value>, fields: seq<Type>): Bytes
    decreases items, 0
  {
    if items == [] || fields == [] then []
    else Encode(items[0], fields[0]) + EncodeFields(items[1..], fields[1..])
  }

  // ---- nested equality ----

  predicate IsNan(bits: nat, sign: nat, infinity: nat)
    requires sign > 0
  {
    bits % sign > infinity
  }

  /** Floating-point equality on bits: no NaN equals anything, the two zeros equal each other. */
  predicate FloatEqual(a: nat, b: nat, sign: nat, infinity: nat)
    requires sign > 0
  {
    !IsNan(a, sign, infinity) && !IsNan(b, sign, infinity) && (a == b || (a % sign == 0 && b % sign == 0))
  }

  predicate BasicEqual(a: Value, b: Value) {
    match a
    case Double(bits) => b.Double? && FloatEqual(bits, b.bits, 0x8000_0000_0000_0000, 0x7FF0_0000_0000_0000)
    case Float(bits) => b.Float? && FloatEqual(bits, b.bits32, 0x8000_0000, 0x7F80_0000)
    case _ => a == b
  }

  /** operator== on nested values: lists in order, sets and maps by membership. */
  predicate Equal(a: Value, b: Value)
    decreases a, 1
  {
    match a
    case Array(items) => b.Array? && EqualEach(items, b.items)
    case SetOf(members) => b.SetOf? && |members| == |b.members| && AllIn(members, b.members)
    case MapOf(entries) => b.MapOf? && |entries| == |b.entries| && AllFound(entries, b.entries)
    case _ => BasicEqual(a, b)
  }

  predicate EqualEach(a: seq<Value>, b: seq<Value>)
    decreases a, 0
  {
    |a| == |b| && (a != [] ==> Equal(a[0], b[0]) && EqualEach(a[1..], b[1..]))
  }

  predicate AllIn(a: seq<Value>, b: seq<Value>)
    decreases a, 0
  {
    a != [] ==> (exists j :: 0 <= j < |b| && Equal(a[0], b[j])) && AllIn(a[1..], b)
  }

  predicate AllFound(a: seq<Entry>, b: seq<Entry>)
    decreases a, 0
  {
    a != [] ==>
      && (exists j :: 0 <= j < |b| && EqualEntries(a[0], b[j]))
      && AllFound(a[1..], b)
  }

  predicate EqualEntries(a: Entry, b: Entry)
    decreases a, 0
  {
    Equal(a.key, b.key) && Equal(a.value, b.value)
  }

  /** Inserting into a set keeps the member it has; inserting into a map replaces the value. */
  function InsertMember(members: seq<Value>, v: Value): seq<Value> {
    if exists j :: 0 <= j < |members| && Equal(v, members[j]) then members else members + [v]
  }

  function InsertEntry(entries: seq<Entry>, key: Value, value: Value): seq<Entry> {
    if entries == [] then [Entry(key, value)]
    else if Equal(key, entries[0].key) then [entries[0].(value := value)] + entries[1..]
    else [entries[0]] + InsertEntry(entries[1..], key, value)
  }

  function InsertMembers(members: seq<Value>, more: seq<Value>): seq<Value>
    decreases |more|
  {
    if more == [] then members else InsertMembers(InsertMember(members, more[0]), more[1..])
  }

  function InsertEntries(entries: seq<Entry>, more: seq<Entry>): seq<Entry>
    decreases |more|
  {
    if more == [] then entries else InsertEntries(InsertEntry(entries, more[0].key, more[0].value), more[1..])
  }

  // ---- reading ----

  function Words(count: nat): nat {
    (count + 63) / 64
  }

  function Decode(b: Bytes, off: nat, t: Type): (r: Read<Value>)
    decreases t, 1, 0
  {
    match t
    case BasicType(kind) => DecodeBasic(b, off, kind)
    case List(element) => (match TakeU64(b, off)
                           case Done(n, next) => ToArray(DecodeEach(b, next, element, n))
                           case _ => Short)
    case Set(key) => (match TakeU64(b, off)
                      case Done(n, next) => ToSet(DecodeEach(b, next, key, n))
                      case _ => Short)
    case Map(key, value) => (match TakeU64(b, off)
                             case Done(n, next) => ToMap(DecodeEntries(b, next, t, n))
                             case _ => Short)
    case Vector(element, count) => ToArray(DecodeEach(b, off, element, count))
    case Tuple(fields) => ToArray(DecodeMasked(b, off, fields, |fields|))
    case Udt(fields) => (match TakeU64(b, off)
                         case Done(written, next) =>
                           if written > |fields| then Corrupt
                           else ToArray(Padded(DecodeMasked(b, next, fields, written), |fields|))
                         case _ => Short)
  }

  function ToArray(r: Read<seq<Value>>): Read<Value> {
    match r
    case Done(items, next) => Done(Array(items), next)
    case Short => Short
    case Corrupt => Corrupt
  }

  function ToSet(r: Read<seq<Value>>): Read<Value> {
    match r
    case Done(members, next) => Done(SetOf(InsertMembers([], members)), next)
    case Short => Short
    case Corrupt => Corrupt
  }

  function ToMap(r: Read<seq<Entry>>): Read<Value> {
    match r
    case Done(entries, next) => Done(MapOf(InsertEntries([], entries)), next)
    case Short => Short
    case Corrupt => Corrupt
  }

  function Nulls(n: nat): (s: seq<Value>)
    ensures |s| == n && forall i :: 0 <= i < n ==> s[i].Null?
  {
    seq(n, i requires 0 <= i => Null)
  }

  /** A user-defined type that has grown since: the new fields are null. */
  function Padded(r: Read<seq<Value>>, count: nat): Read<seq<Value>> {
    match r
    case Done(items, next) => Done(items + Nulls(if |items| < count then count - |items| else 0), next)
    case Short => Short
    case Corrupt => Corrupt
  }

  function DecodeEach(b: Bytes, off: nat, t: Type, n: nat): (r: Read<seq<Value>>)
    ensures r.Done? ==> |r.value| == n
    decreases t, 2, n
  {
    if n == 0 then Done([], off)
    else
      match Decode(b, off, t)
      case Done(v, next) => (match DecodeEach(b, next, t, n - 1)
                             case Done(rest, end) => Done([v] + rest, end)
                             case Short => Short
                             case Corrupt => Corrupt)
      case Short => Short
      case Corrupt => Corrupt
  }

  function DecodeEntry(b: Bytes, off: nat, t: Type): Read<Entry>
    requires t.Map?
    decreases t, 0, 0
  {
    match Decode(b, off, t.key)
    case Done(k, next) => (match Decode(b, next, t.value)
                           case Done(v, end) => Done(Entry(k, v), end)
                           case Short => Short
                           case Corrupt => Corrupt)
    case Short => Short
    case Corrupt => Corrupt
  }

  function DecodeEntries(b: Bytes, off: nat, t: Type, n: nat): (r: Read<seq<Entry>>)
    requires t.Map?
    ensures r.Done? ==> |r.value| == n
    decreases t, 0, n
  {
    if n == 0 then Done([], off)
    else
      match DecodeEntry(b, off, t)
      case Done(e, next) => (match DecodeEntries(b, next, t, n - 1)
                             case Done(rest, end) => Done([e] + rest, end)
                             case Short => Short
                             case Corrupt => Corrupt)
      case Short => Short
      case Corrupt => Corrupt
  }

  /** A mask and the payloads of the first `count` fields. */
  function DecodeMasked(b: Bytes, off: nat, fields: seq<Type>, count: nat): (r: Read<seq<Value>>)
    requires count <= |fields|
    ensures r.Done? ==> |r.value| == count
    decreases fields, 1, 0
  {
    match TakeMask(b, off, Words(count))
    case Done(mask, next) => DecodeFields(b, next, mask, fields, 0, count)
    case _ => Short
  }

  function DecodeFields(b: Bytes, off: nat, mask: seq<U64>, fields: seq<Type>, i: nat, count: nat)
      : (r: Read<seq<Value>>)
    requires i <= count <= |fields| && count <= 64 * |mask|
    ensures r.Done? ==> |r.value| == count - i
    decreases fields, 0, count - i
  {
    if i == count then Done([], off)
    else
      match (if MaskBit(mask, i) then Decode(b, off, fields[i]) else Done(Null, off))
      case Done(v, next) => (match DecodeFields(b, next, mask, fields, i + 1, count)
                             case Done(rest, end) => Done([v] + rest, end)
                             case Short => Short
                             case Corrupt => Corrupt)
      case Short => Short
      case Corrupt => Corrupt
  }
}
