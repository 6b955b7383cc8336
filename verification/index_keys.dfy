/** Secondary index keys: what a row puts into an index, and when two of its entries are one key. */
module IndexKeys {

  import opened Wire
  import opened DecimalCompare
  import opened ColumnValues
  import opened ColumnOrder
  import opened Clustering
  import opened KeyBounds
  import opened ValueCodec

  /** An index on a column of a basic type, or on a part of a collection. */
  datatype Kind = OfBasic | OfValues | OfKeys | OfEntries

  /** CollectionIndexEntry: an element, or the two halves of a map entry. */
  datatype IndexEntry = IndexEntry(key: Value, mapValue: Value, hasMapValue: bool)

  /** The collection that the column holds. */
  datatype Shape = OnList | OnSet | OnMap

  /** The components of the index's keys: those of the indexed value, then those that name the row (token,
      partition key, clustering key). `beside` is the kind of the half of a map's entries that a values or keys
      index does not look at. `lowScale` is where the 32-bit window starts in which the decimals of the index have
      their scales. */
  datatype Index = Index(kind: Kind, shape: Shape, value: seq<Column>, row: seq<Column>, beside: Basic, lowScale: int)

  function Columns(x: Index): seq<Column> {
    x.value + x.row
  }

  /** enumerate_collection_entries. */
  function Enumerate(v: Value): seq<IndexEntry> {
    match v
    case Array(items) => seq(|items|, i requires 0 <= i < |items| => IndexEntry(items[i], Null, false))
    case SetOf(members) => seq(|members|, i requires 0 <= i < |members| => IndexEntry(members[i], Null, false))
    case MapOf(entries) =>
      seq(|entries|, i requires 0 <= i < |entries| => IndexEntry(entries[i].key, entries[i].value, true))
    case _ => []
  }

  /** collection_entry_equal. */
  predicate EntryEqual(a: IndexEntry, b: IndexEntry, kind: Kind) {
    match kind
    case OfValues => if a.hasMapValue then Equal(a.mapValue, b.mapValue) else Equal(a.key, b.key)
    case OfKeys => Equal(a.key, b.key)
    case _ => Equal(a.key, b.key) && Equal(a.mapValue, b.mapValue)
  }

  /** The components encode_collection_index_prefix writes. */
  function Prefix(e: IndexEntry, x: Index): Key {
    match x.kind
    case OfValues => if x.shape.OnMap? then [e.mapValue] else [e.key]
    case OfKeys => [e.key]
    case OfEntries => [e.key, e.mapValue]
    case OfBasic => [e.key]
  }

  /** What a column value puts into the index. A null puts nothing. */
  function EntriesOf(v: Value, kind: Kind): seq<IndexEntry> {
    if v.Null? then []
    else if kind.OfBasic? then [IndexEntry(v, Null, false)]
    else Enumerate(v)
  }

  // ---- one key or two ----

  ghost predicate InDomain(k: Key, columns: seq<Column>, lowScale: int) {
    && |k| == |columns| && IsKey(k, columns)
    && forall i :: 0 <= i < |k| && k[i].Dec? ==> lowScale <= k[i].dec.scale as int < lowScale + 0x8000_0000
  }

  lemma DomainComparable(a: Key, b: Key, columns: seq<Column>, lowScale: int)
    requires InDomain(a, columns, lowScale) && InDomain(b, columns, lowScale)
    ensures KeysComparable(a, b, columns)
  {
    forall i | 0 <= i < |a|
      ensures Comparable(a[i], b[i], columns[i].kind)
    {
      assert IsComponent(a[i], columns[i]) && IsComponent(b[i], columns[i]);
    }
  }

  /** Two keys the index's comparator cannot tell apart. */
  predicate Same(a: Key, b: Key, columns: seq<Column>, lowScale: int)
    requires InDomain(a, columns, lowScale) && InDomain(b, columns, lowScale)
  {
    DomainComparable(a, b, columns, lowScale);
    CompareKeys(a, b, columns) == 0
  }

  lemma SameIsEquivalence(a: Key, b: Key, c: Key, columns: seq<Column>, lowScale: int)
    requires InDomain(a, columns, lowScale) && InDomain(b, columns, lowScale) && InDomain(c, columns, lowScale)
    ensures Same(a, a, columns, lowScale)
    ensures Same(a, b, columns, lowScale) <==> Same(b, a, columns, lowScale)
    ensures Same(a, b, columns, lowScale) ==> (Same(a, c, columns, lowScale) <==> Same(b, c, columns, lowScale))
  {
    hide InDomain, CompareKeys, KeysComparable;
    DomainComparable(a, a, columns, lowScale);
    DomainComparable(a, b, columns, lowScale);
    DomainComparable(a, c, columns, lowScale);
    DomainComparable(b, c, columns, lowScale);
    PrefixIsEqual(a, a, columns);
    CompareFlips(a, b, columns);
    assert |a| == |b| == |c| by { DomainLength(a, b, c, columns, lowScale); }
    CompareMonotone(a, b, c, columns);
  }

  lemma DomainLength(a: Key, b: Key, c: Key, columns: seq<Column>, lowScale: int)
    requires InDomain(a, columns, lowScale) && InDomain(b, columns, lowScale) && InDomain(c, columns, lowScale)
    ensures |a| == |b| == |c|
  {
  }

  /** A key is its value part and its row part. */
  lemma DomainSplits(p: Key, s: Key, x: Index)
    requires |p| == |x.value| && |s| == |x.row|
    ensures InDomain(p + s, Columns(x), x.lowScale) <==>
        InDomain(p, x.value, x.lowScale) && InDomain(s, x.row, x.lowScale)
  {
    var k, columns := p + s, Columns(x);
    assert forall i :: 0 <= i < |p| ==> k[i] == p[i] && columns[i] == x.value[i];
    forall i | 0 <= i < |s|
      ensures k[|p| + i] == s[i] && columns[|p| + i] == x.row[i]
    {
    }
    if InDomain(p, x.value, x.lowScale) && InDomain(s, x.row, x.lowScale) {
      forall i | 0 <= i < |k|
        ensures IsComponent(k[i], columns[i])
        ensures k[i].Dec? ==> x.lowScale <= k[i].dec.scale as int < x.lowScale + 0x8000_0000
      {
        if i >= |p| { assert k[i] == s[i - |p|] && IsComponent(s[i - |p|], x.row[i - |p|]); }
      }
    }
    if InDomain(k, columns, x.lowScale) {
      forall i | 0 <= i < |s|
        ensures IsComponent(s[i], x.row[i])
        ensures s[i].Dec? ==> x.lowScale <= s[i].dec.scale as int < x.lowScale + 0x8000_0000
      {
        assert IsComponent(k[|p| + i], columns[|p| + i]);
      }
    }
  }

  /** Keys are one exactly when their value parts are one and their row parts are one. */
  lemma SameSplits(p: Key, s: Key, q: Key, t: Key, x: Index)
    requires InDomain(p, x.value, x.lowScale) && InDomain(q, x.value, x.lowScale)
    requires InDomain(s, x.row, x.lowScale) && InDomain(t, x.row, x.lowScale)
    ensures InDomain(p + s, Columns(x), x.lowScale) && InDomain(q + t, Columns(x), x.lowScale)
    ensures Same(p + s, q + t, Columns(x), x.lowScale)
       <==> Same(p, q, x.value, x.lowScale) && Same(s, t, x.row, x.lowScale)
  {
    DomainSplits(p, s, x);
    DomainSplits(q, t, x);
    hide InDomain, CompareKeys, KeysComparable;
    DomainComparable(p + s, q + t, Columns(x), x.lowScale);
    DomainComparable(p, q, x.value, x.lowScale);
    DomainComparable(s, t, x.row, x.lowScale);
    CompareAppended(p, s, q, t, x);
  }

  lemma {:induction false} CompareAppended(p: Key, s: Key, q: Key, t: Key, x: Index)
    requires KeysComparable(p, q, x.value) && KeysComparable(s, t, x.row) && KeysComparable(p + s, q + t, Columns(x))
    requires InDomain(p, x.value, x.lowScale) && InDomain(q, x.value, x.lowScale)
    ensures CompareKeys(p + s, q + t, Columns(x)) == 0
       <==> CompareKeys(p, q, x.value) == 0 && CompareKeys(s, t, x.row) == 0
    decreases |p|
  {
    hide Compare, Comparable, InDomain, IsKey;
    DomainLength(p, q, q, x.value, x.lowScale);
    assert |p| == |x.value| by { DomainWidth(p, x.value, x.lowScale); }
    if p == [] {
      assert p + s == s && q + t == t && Columns(x) == x.row;
    } else {
      var y := x.(value := x.value[1..]);
      assert (p + s)[1..] == p[1..] + s && (q + t)[1..] == q[1..] + t && Columns(x)[1..] == Columns(y);
      TailInDomain(p, x.value, x.lowScale);
      TailInDomain(q, x.value, x.lowScale);
      TailComparable(p, q, x.value);
      TailComparable(p + s, q + t, Columns(x));
      CompareAppended(p[1..], s, q[1..], t, y);
    }
  }

  lemma DomainWidth(p: Key, columns: seq<Column>, lowScale: int)
    requires InDomain(p, columns, lowScale)
    ensures |p| == |columns|
  {
  }

  lemma TailInDomain(p: Key, columns: seq<Column>, lowScale: int)
    requires InDomain(p, columns, lowScale) && p != []
    ensures InDomain(p[1..], columns[1..], lowScale)
  {
  }

  lemma TailComparable(p: Key, q: Key, columns: seq<Column>)
    requires KeysComparable(p, q, columns) && p != [] && q != []
    ensures KeysComparable(p[1..], q[1..], columns[1..])
  {
  }

  // ---- equality and key identity ----

  /** The kinds whose equal values are exactly those with one key. */
  predicate EqualityIsIdentity(kind: Basic) {
    kind !in {DoubleKind, FloatKind, DecimalKind, VarIntKind, TimeUuid, DurationKind}
  }

  lemma IdentityKinds(a: Value, b: Value, kind: Basic)
    requires Native(a, kind) && Native(b, kind) && EqualityIsIdentity(kind)
    ensures Comparable(a, b, kind)
    ensures Equal(a, b) <==> Compare(a, b, kind) == 0
  {
    hide CompareRuns, UuidTimestamp;
    match a
    case Text(chars) => RunsOrder(chars, b.chars, chars);
    case Blob(data) => RunsOrder(data, b.data, data);
    case Inet4(_) => RunsOrder(Address(a), Address(b), Address(a));
    case Inet6(_) => RunsOrder(Address(a), Address(b), Address(a));
    case Uuid(id) => UuidIdentity(id, b.id);
    case _ =>
  }

  lemma UuidIdentity(a: Bytes16, b: Bytes16)
    ensures CompareUuid(a, b) == 0 <==> a == b
  {
    hide CompareRuns;
    RunsOrder(a, b, a);
    RunsOrder(a[8..], b[8..], a[8..]);
    if CompareUuid(a, b) == 0 && Version(a) == 1 {
      TimestampIdentity(a, b);
      assert a == a[..8] + a[8..] && b == b[..8] + b[8..];
    }
  }

  /** Version and timestamp make up the first half of a UUID. */
  lemma TimestampIdentity(a: Bytes16, b: Bytes16)
    requires Version(a) == Version(b) && UuidTimestamp(a) == UuidTimestamp(b)
    ensures a[..8] == b[..8]
  {
    BigEndianBound(a[..4]);
    BigEndianBound(b[..4]);
    BigEndianBound(a[4..6]);
    BigEndianBound(b[4..6]);
    BigEndianBound(a[6..8]);
    BigEndianBound(b[6..8]);
    PiecesOfTimestamp(BigEndian(a[6..8]) % 0x1000, BigEndian(a[4..6]), BigEndian(a[..4]),
                      BigEndian(b[6..8]) % 0x1000, BigEndian(b[4..6]), BigEndian(b[..4]));
    TwoBytes(a);
    TwoBytes(b);
    BigEndianInjective(a[..4], b[..4]);
    BigEndianInjective(a[4..6], b[4..6]);
    BigEndianInjective(a[6..8], b[6..8]);
    assert a[..8] == a[..4] + a[4..6] + a[6..8] && b[..8] == b[..4] + b[4..6] + b[6..8];
  }

  lemma TwoBytes(a: Bytes16)
    ensures BigEndian(a[6..8]) == a[6] as int * 256 + a[7] as int
    ensures BigEndian(a[6..8]) / 0x1000 == Version(a)
  {
    var w := a[6..8];
    assert w[..1][..0] == [] && w[..1] == [a[6]] && BigEndian(w[..1]) == BigEndian(w[..1][..0]) * 256 + a[6] as int;
  }

  lemma PiecesOfTimestamp(h: nat, m: nat, l: nat, h2: nat, m2: nat, l2: nat)
    requires m < 0x1_0000 && m2 < 0x1_0000 && l < TWO_32 && l2 < TWO_32
    requires (h * 0x1_0000 + m) * TWO_32 + l == (h2 * 0x1_0000 + m2) * TWO_32 + l2
    ensures h == h2 && m == m2 && l == l2
  {
  }

  lemma {:induction false} BigEndianBound(b: Bytes)
    ensures BigEndian(b) < Pow256(|b|)
    ensures |b| == 2 ==> BigEndian(b) < 0x1_0000
    ensures |b| == 4 ==> BigEndian(b) < TWO_32
  {
    Pow256Widths();
    if b != [] { BigEndianBound(b[..|b| - 1]); }
  }

  lemma {:induction false} BigEndianInjective(a: Bytes, b: Bytes)
    requires |a| == |b| && BigEndian(a) == BigEndian(b)
    ensures a == b
  {
    if a != [] {
      var n := |a| - 1;
      BigEndianInjective(a[..n], b[..n]);
      assert a == a[..n] + [a[n]] && b == b[..n] + [b[n]];
    }
  }

  /** Some value of the kind, equal to itself. */
  function Sample(kind: Basic, scale: S32): (v: Value)
    ensures Native(v, kind) && BasicFits(v) && Equal(v, v)
    ensures (v.Dec? ==> v.dec.scale == scale) && (v.Uuid? ==> v.id[0] == 0)
  {
    match kind
    case Ascii => Text([])
    case TextKind => Text([])
    case VarChar => Text([])
    case BigInt => Long(0)
    case Timestamp => Long(0)
    case Counter => Long(0)
    case Time => Long(0)
    case IntKind => Int(0)
    case Date => Int(0)
    case SmallInt => Short16(0)
    case TinyInt => Tiny(0)
    case Boolean => Tiny(0)
    case DoubleKind => Double(0)
    case FloatKind => Float(0)
    case BlobKind => Blob([])
    case Hex => Blob([])
    case UuidKind => Uuid(seq(16, _ => 0))
    case TimeUuid => Uuid(seq(16, _ => 0))
    case InetKind => Inet4(seq(4, _ => 0))
    case VarIntKind => Big(VarInt(false, []))
    case DecimalKind => Dec(Decimal(scale, VarInt(false, [])))
    case DurationKind => Duration(0, 0, 0)
  }

  /** And another, not equal to it. */
  function Another(kind: Basic): (v: Value)
    ensures Native(v, kind) && BasicFits(v) && (v.Uuid? ==> v.id[0] == 1)
    ensures forall scale :: !Equal(v, Sample(kind, scale))
  {
    match kind
    case Ascii => Text([0])
    case TextKind => Text([0])
    case VarChar => Text([0])
    case BigInt => Long(1)
    case Timestamp => Long(1)
    case Counter => Long(1)
    case Time => Long(1)
    case IntKind => Int(1)
    case Date => Int(1)
    case SmallInt => Short16(1)
    case TinyInt => Tiny(1)
    case Boolean => Tiny(1)
    case DoubleKind => Double(1)
    case FloatKind => Float(1)
    case BlobKind => Blob([0])
    case Hex => Blob([0])
    case UuidKind => Uuid([1] + seq(15, _ => 0))
    case TimeUuid => Uuid([1] + seq(15, _ => 0))
    case InetKind => Inet6(seq(16, _ => 0))
    case VarIntKind => Big(VarInt(false, [1]))
    case DecimalKind => Dec(Decimal(0, VarInt(false, [1])))
    case DurationKind => Duration(1, 0, 0)
  }

  /** For every other kind that can be indexed there are two values that tell equality and identity apart: the
      two zeros are equal and have two keys; different spellings of a number, and UUIDs that differ in their
      version alone, are unequal and have one. */
  lemma OtherKindsDiffer(kind: Basic, scale: S32) returns (a: Value, b: Value)
    requires !EqualityIsIdentity(kind) && kind != DurationKind
    ensures Comparable(a, b, kind) && BasicFits(a) && BasicFits(b)
    ensures (a.Dec? ==> a.dec.scale == scale) && (b.Dec? ==> b.dec.scale == scale)
    ensures Equal(a, a) && Equal(b, b) && (Equal(a, b) <==> Equal(b, a))
    ensures Equal(a, b) <==> Compare(a, b, kind) != 0
    ensures Equal(a, b) <==> kind in {DoubleKind, FloatKind}
  {
    hide CompareRuns, UuidTimestamp;
    match kind
    case DoubleKind => a, b := Double(SIGN_64), Double(0);
    case FloatKind => a, b := Float(SIGN_32), Float(0);
    case VarIntKind => a, b := Big(VarInt(false, [])), Big(VarInt(false, [0]));
    case DecimalKind => a, b := Dec(Decimal(scale, VarInt(false, []))), Dec(Decimal(scale, VarInt(false, [0])));
    case TimeUuid =>
      var zero: Bytes16 := seq(16, _ => 0);
      var other := zero[6 := 16];
      assert zero[6] == 0 && other[6] == 16;
      VersionAlone(zero, other);
      a, b := Uuid(zero), Uuid(other);
  }

  lemma VersionAlone(a: Bytes16, b: Bytes16)
    requires b == a[6 := 16] && a[6] == 0
    ensures CompareTimeUuid(a, b) == 0
  {
    assert a[..4] == b[..4] && a[4..6] == b[4..6] && a[8..] == b[8..];
    TwoBytes(a);
    TwoBytes(b);
    RunsOrder(a[8..], b[8..], a[8..]);
  }
}
