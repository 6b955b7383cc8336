/** The order the engine gives to the values of one basic type. */
module ColumnOrder {

  import opened Wire
  import opened DecimalCompare
  import opened ColumnValues

  const SIGN_64: nat := 0x8000_0000_0000_0000
  const SIGN_32: nat := 0x8000_0000

  /** compare_bytes: the common length first, then the shorter one. */
  function CompareRuns(a: Bytes, b: Bytes): int {
    var n := if |a| < |b| then |a| else |b|;
    var c := CompareBytes(a[..n], b[..n]);
    if c != 0 then c else Sign(|a| - |b|)
  }

  /** f64_order_key and f32_order_key: a set sign bit inverts all bits, a clear one is set. */
  function OrderKey(bits: nat, sign: nat): int {
    if bits >= sign then 2 * sign - 1 - bits else bits + sign
  }

  function Version(id: Bytes16): nat {
    id[6] / 16 % 16
  }

  function BigEndian(b: Bytes): nat {
    if b == [] then 0 else BigEndian(b[..|b| - 1]) * 256 + b[|b| - 1] as int
  }

  /** The 60-bit timestamp of a version 1 UUID, put together from its three pieces. */
  function UuidTimestamp(id: Bytes16): nat {
    var low := BigEndian(id[..4]);
    var mid := BigEndian(id[4..6]);
    var high := BigEndian(id[6..8]) % 0x1000;
    (high * 0x1_0000 + mid) * TWO_32 + low
  }

  function CompareTimeUuid(a: Bytes16, b: Bytes16): int {
    if UuidTimestamp(a) != UuidTimestamp(b) then Sign(UuidTimestamp(a) - UuidTimestamp(b))
    else CompareRuns(a[8..], b[8..])
  }

  function CompareUuid(a: Bytes16, b: Bytes16): int {
    if Version(a) != Version(b) then Sign(Version(a) - Version(b))
    else if Version(a) == 1 then CompareTimeUuid(a, b)
    else CompareRuns(a, b)
  }

  function Address(v: Value): Bytes
    requires v.Inet4? || v.Inet6?
  {
    if v.Inet6? then v.v6 else v.v4
  }

  /** A tinyint is the byte read as signed; a boolean is the byte itself. */
  function SignedByte(u: Byte): int {
    if u >= 128 then u - 256 else u
  }

  /** The pairs compare_column_value takes: two values of a kind that has an order, and two decimals whose
      scales it can subtract. */
  predicate Comparable(a: Value, b: Value, kind: Basic) {
    && kind != DurationKind && Native(a, kind) && Native(b, kind)
    && (kind == DecimalKind ==> ScalesComparable(a.dec, b.dec))
  }

  function Compare(a: Value, b: Value, kind: Basic): int
    requires Comparable(a, b, kind)
  {
    match a
    case Long(n) => Sign(n as int - b.long as int)
    case Int(n) => Sign(n as int - b.n as int)
    case Short16(n) => Sign(n as int - b.short as int)
    case Tiny(u) => if kind == TinyInt then Sign(SignedByte(u) - SignedByte(b.tiny)) else Sign(u as int - b.tiny as int)
    case Double(bits) => Sign(OrderKey(bits, SIGN_64) - OrderKey(b.bits, SIGN_64))
    case Float(bits) => Sign(OrderKey(bits, SIGN_32) - OrderKey(b.bits32, SIGN_32))
    case Text(chars) => CompareRuns(chars, b.chars)
    case Blob(data) => CompareRuns(data, b.data)
    case Inet4(_) => CompareRuns(Address(a), Address(b))
    case Inet6(_) => CompareRuns(Address(a), Address(b))
    case Uuid(id) => if kind == TimeUuid then CompareTimeUuid(id, b.id) else CompareUuid(id, b.id)
    case Big(big) => CompareVarInt(big, b.big)
    case Dec(dec) => CompareDecimal(dec, b.dec)
  }

  // ---- bytes in lexicographic order ----

  ghost function Lexicographic(a: Bytes, b: Bytes): int {
    if a == [] then (if b == [] then 0 else -1)
    else if b == [] then 1
    else if a[0] != b[0] then (if a[0] < b[0] then -1 else 1)
    else Lexicographic(a[1..], b[1..])
  }

  lemma {:induction false} RunsAreLexicographic(a: Bytes, b: Bytes)
    ensures CompareRuns(a, b) == Lexicographic(a, b)
  {
    if a != [] && b != [] && a[0] == b[0] {
      var n := if |a| < |b| then |a| else |b|;
      RunsAreLexicographic(a[1..], b[1..]);
      assert a[..n][1..] == a[1..][..n - 1] && b[..n][1..] == b[1..][..n - 1];
    }
  }

  lemma {:induction false} LexicographicOrder(a: Bytes, b: Bytes, c: Bytes)
    ensures Lexicographic(a, b) == -Lexicographic(b, a)
    ensures Lexicographic(a, b) <= 0 && Lexicographic(b, c) <= 0 ==> Lexicographic(a, c) <= 0
    ensures Lexicographic(a, b) == 0 <==> a == b
  {
    if a != [] && b != [] {
      LexicographicOrder(a[1..], b[1..], if c == [] then [] else c[1..]);
      assert a == [a[0]] + a[1..] && b == [b[0]] + b[1..];
    }
  }

  lemma RunsOrder(a: Bytes, b: Bytes, c: Bytes)
    ensures CompareRuns(a, b) == -CompareRuns(b, a)
    ensures CompareRuns(a, b) <= 0 && CompareRuns(b, c) <= 0 ==> CompareRuns(a, c) <= 0
    ensures CompareRuns(a, b) == 0 <==> a == b
  {
    RunsAreLexicographic(a, b);
    RunsAreLexicographic(b, a);
    RunsAreLexicographic(b, c);
    RunsAreLexicographic(a, c);
    LexicographicOrder(a, b, c);
  }

  // ---- the order of one column ----

  lemma TimeUuidOrder(a: Bytes16, b: Bytes16, c: Bytes16)
    ensures CompareTimeUuid(a, b) == -CompareTimeUuid(b, a)
    ensures CompareTimeUuid(a, b) <= 0 && CompareTimeUuid(b, c) <= 0 ==> CompareTimeUuid(a, c) <= 0
    ensures CompareTimeUuid(a, b) == 0 ==> CompareTimeUuid(a, c) == CompareTimeUuid(b, c)
  {
    hide UuidTimestamp, CompareRuns;
    RunsOrder(a[8..], b[8..], c[8..]);
  }

  lemma UuidOrder(a: Bytes16, b: Bytes16, c: Bytes16)
    ensures CompareUuid(a, b) == -CompareUuid(b, a)
    ensures CompareUuid(a, b) <= 0 && CompareUuid(b, c) <= 0 ==> CompareUuid(a, c) <= 0
    ensures CompareUuid(a, b) == 0 ==> CompareUuid(a, c) == CompareUuid(b, c)
  {
    hide CompareTimeUuid, CompareRuns, Version;
    TimeUuidOrder(a, b, c);
    RunsOrder(a, b, c);
  }

  lemma VarIntOrder(a: VarInt, b: VarInt, c: VarInt)
    ensures CompareVarInt(a, b) == -CompareVarInt(b, a)
    ensures CompareVarInt(a, b) <= 0 && CompareVarInt(b, c) <= 0 ==> CompareVarInt(a, c) <= 0
    ensures CompareVarInt(a, b) == 0 ==> CompareVarInt(a, c) == CompareVarInt(b, c)
  {
    VarIntCompareExact(a, b);
    VarIntCompareExact(b, a);
    VarIntCompareExact(b, c);
    VarIntCompareExact(a, c);
  }

  /** What a total preorder asks of three values. */
  ghost predicate Preordered(a: Value, b: Value, c: Value, kind: Basic)
    requires Comparable(a, b, kind) && Comparable(b, c, kind) && Comparable(a, c, kind)
  {
    && Compare(a, a, kind) == 0
    && Compare(a, b, kind) == -Compare(b, a, kind)
    && (Compare(a, b, kind) <= 0 && Compare(b, c, kind) <= 0 ==> Compare(a, c, kind) <= 0)
    && (Compare(a, b, kind) == 0 ==> Compare(a, c, kind) == Compare(b, c, kind))
  }

  lemma RunsPreorder(a: Value, b: Value, c: Value, kind: Basic)
    requires Comparable(a, b, kind) && Comparable(b, c, kind) && Comparable(a, c, kind)
    requires a.Text? || a.Blob? || a.Inet4? || a.Inet6?
    ensures Preordered(a, b, c, kind)
  {
    hide CompareRuns;
    match a
    case Text(chars) => RunsOrder(chars, b.chars, c.chars); RunsOrder(chars, chars, chars);
    case Blob(data) => RunsOrder(data, b.data, c.data); RunsOrder(data, data, data);
    case Inet4(_) => RunsOrder(Address(a), Address(b), Address(c)); RunsOrder(Address(a), Address(a), Address(a));
    case Inet6(_) => RunsOrder(Address(a), Address(b), Address(c)); RunsOrder(Address(a), Address(a), Address(a));
  }

  lemma NumbersPreorder(a: Value, b: Value, c: Value, kind: Basic)
    requires Comparable(a, b, kind) && Comparable(b, c, kind) && Comparable(a, c, kind)
    requires a.Uuid? || a.Big? || a.Dec?
    ensures Preordered(a, b, c, kind)
  {
    hide CompareUuid, CompareTimeUuid, CompareVarInt, CompareDecimal, ScalesComparable;
    match a
    case Uuid(id) =>
      TimeUuidOrder(id, b.id, c.id);
      TimeUuidOrder(id, id, id);
      UuidOrder(id, b.id, c.id);
      UuidOrder(id, id, id);
    case Big(big) => VarIntOrder(big, b.big, c.big); VarIntOrder(big, big, big);
    case Dec(dec) => DecimalOrder(dec, b.dec, c.dec); DecimalOrder(dec, dec, dec);
  }

  lemma WordsPreorder(a: Value, b: Value, c: Value, kind: Basic)
    requires Comparable(a, b, kind) && Comparable(b, c, kind) && Comparable(a, c, kind)
    requires !(a.Text? || a.Blob? || a.Inet4? || a.Inet6? || a.Uuid? || a.Big? || a.Dec?)
    ensures Preordered(a, b, c, kind)
  {
    hide CompareRuns, CompareUuid, CompareTimeUuid, CompareVarInt, CompareDecimal;
  }

  /** Every kind that has an order has a total preorder. */
  lemma ColumnPreorder(a: Value, b: Value, c: Value, kind: Basic)
    requires Comparable(a, b, kind) && Comparable(b, c, kind) && Comparable(a, c, kind)
    ensures Compare(a, a, kind) == 0
    ensures Compare(a, b, kind) == -Compare(b, a, kind)
    ensures Compare(a, b, kind) <= 0 && Compare(b, c, kind) <= 0 ==> Compare(a, c, kind) <= 0
    ensures Compare(a, b, kind) == 0 ==> Compare(a, c, kind) == Compare(b, c, kind)
  {
    hide Compare, Comparable;
    AnyPreorder(a, b, c, kind);
  }

  lemma AnyPreorder(a: Value, b: Value, c: Value, kind: Basic)
    requires Comparable(a, b, kind) && Comparable(b, c, kind) && Comparable(a, c, kind)
    ensures Preordered(a, b, c, kind)
  {
    hide Compare, Comparable, Preordered;
    if a.Text? || a.Blob? || a.Inet4? || a.Inet6? {
      RunsPreorder(a, b, c, kind);
    } else if a.Uuid? || a.Big? || a.Dec? {
      NumbersPreorder(a, b, c, kind);
    } else {
      WordsPreorder(a, b, c, kind);
    }
  }

  /** Different bytes of a floating-point value are different places in the order: the two zeros are equal as
      numbers and are not equal as keys. */
  lemma DoubleKeysAreDistinct(a: U64, b: U64)
    ensures Compare(Double(a), Double(b), DoubleKind) == 0 <==> a == b
    ensures Compare(Double(SIGN_64), Double(0), DoubleKind) == -1
  {
  }
}
