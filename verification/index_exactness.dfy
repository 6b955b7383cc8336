/** A secondary index agrees with the rows after every history exactly when its columns are safe. */
module IndexExactness {

  import opened DecimalCompare
  import opened Wire
  import opened ColumnValues
  import opened ColumnOrder
  import opened Clustering
  import opened KeyBounds
  import opened ValueCodec
  import opened ValueCodecResults
  import opened IndexKeys
  import opened IndexAgreement
  import opened IndexAgreementResults

  // ---- a row to write to ----

  function SampleKey(columns: seq<Column>, scale: S32): (k: Key)
    requires forall i :: 0 <= i < |columns| ==> columns[i].kind != DurationKind
    ensures |k| == |columns| && forall i :: 0 <= i < |k| ==> k[i] == Sample(columns[i].kind, scale)
  {
    seq(|columns|, i requires 0 <= i < |columns| => Sample(columns[i].kind, scale))
  }

  /** The name of some row. */
  function SampleName(x: Index): (s: Key)
    requires WellShaped(x)
    ensures NameOk(s, x)
  {
    ColumnsIndexable(x);
    SampleKey(x.row, x.lowScale)
  }

  lemma ColumnsIndexable(x: Index)
    requires WellShaped(x)
    ensures forall i :: 0 <= i < |x.value| ==> x.value[i].kind != DurationKind
    ensures forall i :: 0 <= i < |x.row| ==> x.row[i].kind != DurationKind
  {
    assert forall i :: 0 <= i < |x.value| ==> Columns(x)[i] == x.value[i];
    forall i | 0 <= i < |x.row|
      ensures x.row[i].kind != DurationKind
    {
      assert Columns(x)[|x.value| + i] == x.row[i];
    }
  }

  // ---- collections of one and two entries ----

  /** The collection of the index's shape with these entries. */
  function Collection(es: seq<IndexEntry>, x: Index): Value {
    match x.shape
    case OnList => Array(seq(|es|, i requires 0 <= i < |es| => es[i].key))
    case OnSet => SetOf(seq(|es|, i requires 0 <= i < |es| => es[i].key))
    case OnMap => MapOf(seq(|es|, i requires 0 <= i < |es| => Entry(es[i].key, es[i].mapValue)))
  }

  /** An entry as Enumerate makes it. */
  predicate EntryShaped(e: IndexEntry, x: Index) {
    e.hasMapValue == x.shape.OnMap?
    && if x.shape.OnMap? then BesideFits(Entry(e.key, e.mapValue), x) else e.mapValue == Null
  }

  lemma CollectionEntries(es: seq<IndexEntry>, x: Index)
    requires !x.kind.OfBasic? && forall i :: 0 <= i < |es| ==> EntryShaped(es[i], x)
    ensures EntriesOf(Collection(es, x), x.kind) == es
  {
    var all := EntriesOf(Collection(es, x), x.kind);
    assert |all| == |es|;
    assert forall i :: 0 <= i < |es| ==> all[i] == es[i];
  }

  lemma CollectionFits(es: seq<IndexEntry>, s: Key, x: Index)
    requires WellShaped(x) && !x.kind.OfBasic? && NameOk(s, x)
    requires forall i :: 0 <= i < |es| ==> EntryShaped(es[i], x) && EntryFits(es[i], s, x)
    requires |es| == 1 || (|es| == 2 && !Equal(es[1].key, es[0].key))
    ensures RowFits(Collection(es, x), s, x) && EntriesOf(Collection(es, x), x.kind) == es
  {
    hide Equal, InDomain, KeyOk, Prefix, EntryFits;
    CollectionEntries(es, x);
  }

  /** Values for the half of a map entry that the index does not look at, to tell two entries apart. */
  function Beside(x: Index, first: bool): Value {
    if first then Sample(x.beside, 0) else Another(x.beside)
  }

  /** An entry with these components. */
  function EntryWith(p: Key, x: Index, first: bool): (e: IndexEntry)
    requires WellShaped(x) && !x.kind.OfBasic? && |p| == |x.value|
    ensures EntryShaped(e, x) && Prefix(e, x) == p
  {
    if x.kind.OfEntries? then IndexEntry(p[0], p[1], true)
    else if x.kind.OfKeys? then IndexEntry(p[0], Beside(x, first), true)
    else if x.shape.OnMap? then IndexEntry(Beside(x, first), p[0], true) else IndexEntry(p[0], Null, false)
  }

  lemma EntryWithFits(p: Key, s: Key, x: Index, first: bool)
    requires WellShaped(x) && !x.kind.OfBasic? && NameOk(s, x) && InDomain(p, x.value, x.lowScale)
    ensures EntryFits(EntryWith(p, x, first), s, x)
  {
    hide Equal;
    DomainSplits(p, s, x);
  }

  // ---- histories that fail ----

  /** After these operations on an empty table the index does not agree. */
  ghost predicate Disagrees(ops: seq<Op>, x: Index) {
    StoreOk(EMPTY, x) && History(EMPTY, ops, x) && !Agrees(Run(EMPTY, ops, x), x)
  }

  lemma TwoWrites(s: Key, v: Value, w: Value, x: Index)
    requires NameOk(s, x) && RowFits(v, s, x) && RowFits(w, s, x)
    ensures var ops := [Write(s, v), Write(s, w)];
            && StoreOk(EMPTY, x) && History(EMPTY, ops, x)
            && Run(EMPTY, ops, x)
               == Store(map[s := w], Updated(Updated({}, Null, v, s, x), v, w, s, x))
  {
    hide RowFits, NameOk, Updated, TreeOk;
    EmptyAgrees(x);
    NullFits(s, x);
    var ops := [Write(s, v), Write(s, w)];
    assert Allowed(EMPTY, ops[0], x);
    ApplyOk(EMPTY, ops[0], x);
    var mid := Apply(EMPTY, ops[0], x);
    assert mid == Store(map[s := v], Updated({}, Null, v, s, x));
    assert ops[1..][0] == Write(s, w) && ops[1..][1..] == [];
    assert Allowed(mid, ops[1..][0], x);
    ApplyOk(mid, ops[1..][0], x);
    assert Apply(mid, ops[1..][0], x) == Store(map[s := w], Updated(mid.keys, v, w, s, x));
    assert map[s := v][s := w] == map[s := w];
    assert History(mid, ops[1..], x);
    assert Run(mid, ops[1..], x) == Apply(mid, ops[1..][0], x);
  }

  lemma NullFits(s: Key, x: Index)
    requires NameOk(s, x)
    ensures RowFits(Null, s, x)
  {
  }

  /** The row's keys are all the rows put in. */
  lemma OnlyRow(s: Key, w: Value, q: Key, x: Index)
    requires RowFits(w, s, x) && KeyOk(q, x)
    ensures InImage(map[s := w], q, x) <==> Among(EntriesOf(w, x.kind), s, q, x)
  {
    hide InDomain, KeyOk, Same, Among, EntriesOf;
    assert s in map[s := w];
  }

  lemma FailsAt(s: Key, v: Value, w: Value, q: Key, x: Index)
    requires NameOk(s, x) && RowFits(v, s, x) && RowFits(w, s, x) && KeyOk(q, x)
    requires !(Found(Updated(Updated({}, Null, v, s, x), v, w, s, x), q, x) <==> Among(EntriesOf(w, x.kind), s, q, x))
    ensures Disagrees([Write(s, v), Write(s, w)], x)
  {
    hide RowFits, NameOk, Updated, TreeOk, Found, Among, KeyOk, InImage;
    TwoWrites(s, v, w, x);
    OnlyRow(s, w, q, x);
  }

  /** The keys after the first write. */
  lemma FirstWrite(s: Key, v: Value, q: Key, x: Index)
    requires NameOk(s, x) && RowFits(v, s, x) && KeyOk(q, x) && !x.kind.OfBasic?
    ensures RowFits(Null, s, x) && (Found(Updated({}, Null, v, s, x), q, x) <==> Among(EntriesOf(v, x.kind), s, q, x))
  {
    hide InDomain, KeyOk, EntryFits, Puts, RemoveAll, InsertAll, FullKeys, Among, Updated, ColumnFits;
    NullFits(s, x);
    UpdateFinds({}, Null, v, s, q, x);
    AddsAll(EntriesOf(v, x.kind), x.kind);
  }

  lemma {:induction false} AddsAll(es: seq<IndexEntry>, kind: Kind)
    ensures Without(es, [], kind) == es
  {
    if es != [] { AddsAll(es[1..], kind); }
  }

  /** An entry replaced by an equal one with another key keeps the old key ... */
  lemma EqualKeepsOldKey(s: Key, e: IndexEntry, f: IndexEntry, x: Index)
    requires WellShaped(x) && !x.kind.OfBasic? && NameOk(s, x)
    requires EntryShaped(e, x) && EntryShaped(f, x) && EntryFits(e, s, x) && EntryFits(f, s, x)
    requires EntryEqual(e, f, x.kind) && EntryEqual(f, e, x.kind) && !OneKey(f, e, s, x)
    ensures Disagrees([Write(s, Collection([e], x)), Write(s, Collection([f], x))], x)
  {
    hide InDomain, KeyOk, Same, EntryEqual, Found, Without, Updated, Puts, RowFits, Collection, EntryFits, EntryShaped,
         WellShaped, OneKey, NameOk;
    var v, w, q := Collection([e], x), Collection([f], x), FullKey(e, s, x);
    assert KeyOk(q, x) && InDomain(s, x.row, x.lowScale) by { KeyOfEntry(e, s, x); }
    CollectionFits([e], s, x);
    CollectionFits([f], s, x);
    NothingLeft(e, f, x.kind);
    NothingLeft(f, e, x.kind);
    FirstWrite(s, v, q, x);
    assert TreeOk(Updated({}, Null, v, s, x), x);
    UpdateFinds(Updated({}, Null, v, s, x), v, w, s, q, x);
    NothingAmong(s, q, x);
    AmongOne(e, s, q, x);
    AmongOne(f, s, q, x);
    OneRow(f, e, s, x);
    SameKeys(q, q, q, x);
    FailsAt(s, v, w, q, x);
  }

  lemma KeyOfEntry(e: IndexEntry, s: Key, x: Index)
    requires NameOk(s, x) && EntryFits(e, s, x)
    ensures KeyOk(FullKey(e, s, x), x) && InDomain(s, x.row, x.lowScale)
  {
  }

  lemma AmongOne(e: IndexEntry, s: Key, q: Key, x: Index)
    requires EntryFits(e, s, x) && KeyOk(q, x)
    ensures EntriesFit([e], s, x)
    ensures KeyOk(FullKey(e, s, x), x) && (Among([e], s, q, x) <==> SameKey(FullKey(e, s, x), q, x))
  {
    hide InDomain, Same;
    assert EntryFits([e][0], s, x);
  }

  lemma NothingLeft(e: IndexEntry, other: IndexEntry, kind: Kind)
    requires EntryEqual(e, other, kind)
    ensures Without([e], [other], kind) == []
  {
    hide EntryEqual;
    assert EntryEqual(e, [other][0], kind);
    assert HasEqual(e, [other], kind) && Without([e][1..], [other], kind) == [];
  }

  /** ... and of two unequal entries with one key, taking one out takes out the key of both. */
  lemma UnequalLosesKey(s: Key, e: IndexEntry, f: IndexEntry, x: Index)
    requires WellShaped(x) && !x.kind.OfBasic? && NameOk(s, x)
    requires EntryShaped(e, x) && EntryShaped(f, x) && EntryFits(e, s, x) && EntryFits(f, s, x)
    requires EntryEqual(e, e, x.kind) && !EntryEqual(f, e, x.kind) && !Equal(f.key, e.key) && OneKey(f, e, s, x)
    ensures Disagrees([Write(s, Collection([e, f], x)), Write(s, Collection([e], x))], x)
  {
    hide InDomain, KeyOk, Same, EntryEqual, Found, Updated, Puts, RowFits, Collection, EntryFits, EntryShaped,
         WellShaped, OneKey, NameOk, Without, HasEqual, Equal;
    var v, w, q := Collection([e, f], x), Collection([e], x), FullKey(e, s, x);
    assert KeyOk(q, x) && InDomain(s, x.row, x.lowScale) by { KeyOfEntry(e, s, x); }
    CollectionFits([e, f], s, x);
    CollectionFits([e], s, x);
    SecondLeft(e, f, x.kind);
    NullFits(s, x);
    assert TreeOk(Updated({}, Null, v, s, x), x);
    UpdateFinds(Updated({}, Null, v, s, x), v, w, s, q, x);
    NothingAmong(s, q, x);
    AmongOne(e, s, q, x);
    AmongOne(f, s, q, x);
    OneRow(f, e, s, x);
    SameKeys(q, q, q, x);
    FailsAt(s, v, w, q, x);
  }

  lemma SecondLeft(e: IndexEntry, f: IndexEntry, kind: Kind)
    requires EntryEqual(e, e, kind) && !EntryEqual(f, e, kind)
    ensures Without([e, f], [e], kind) == [f] && Without([e], [e, f], kind) == []
  {
    hide EntryEqual;
    assert EntryEqual(e, [e][0], kind) && EntryEqual(e, [e, f][0], kind);
    assert HasEqual(e, [e], kind) && HasEqual(e, [e, f], kind) && !HasEqual(f, [e], kind);
    assert [e, f][1..] == [f] && [f][1..] == [] && [e][1..] == [];
    assert Without([f], [e], kind) == [f] + Without([], [e], kind);
  }

  // ---- the components that fail ----

  /** Two values for component `c` of the index's value, the other component being the same. */
  function Around(x: Index, c: nat, v: Value): (p: Key)
    requires WellShaped(x) && c < |x.value|
    ensures |p| == |x.value| && p[c] == v
  {
    ColumnsIndexable(x);
    SampleKey(x.value, x.lowScale)[c := v]
  }

  lemma AroundFits(x: Index, c: nat, v: Value)
    requires WellShaped(x) && c < |x.value| && IsComponent(v, x.value[c])
    requires v.Dec? ==> v.dec.scale as int == x.lowScale
    ensures InDomain(Around(x, c, v), x.value, x.lowScale)
  {
    hide Sample, Native;
    ColumnsIndexable(x);
    var p := Around(x, c, v);
    forall i | 0 <= i < |p|
      ensures IsComponent(p[i], x.value[i])
      ensures p[i].Dec? ==> x.lowScale <= p[i].dec.scale as int < x.lowScale + 0x8000_0000
    {
      assert i != c ==> p[i] == Sample(x.value[i].kind, x.lowScale);
    }
  }

  /** They are one key exactly when the two values compare equal. */
  lemma AroundSame(x: Index, c: nat, a: Value, b: Value)
    requires WellShaped(x) && c < |x.value| && Comparable(a, b, x.value[c].kind)
    requires InDomain(Around(x, c, a), x.value, x.lowScale) && InDomain(Around(x, c, b), x.value, x.lowScale)
    ensures Same(Around(x, c, a), Around(x, c, b), x.value, x.lowScale) <==> Compare(a, b, x.value[c].kind) == 0
  {
    hide Compare, InDomain, Comparable;
    var p, q := Around(x, c, a), Around(x, c, b);
    DomainComparable(p, q, x.value, x.lowScale);
    DomainComparable(p, p, x.value, x.lowScale);
    SamePrefix(p, x);
    AllEqual(q, p, x.value);
    AllEqual(p, p, x.value);
  }

  /** The component whose kind makes an index unsafe. */
  function Culprit(x: Index): (c: nat)
    requires WellShaped(x) && !Safe(x)
    ensures c < |x.value| && !EqualityIsIdentity(x.value[c].kind) && x.value[c].kind != DurationKind
    ensures c == 1 ==> x.kind.OfEntries? && x.value[1].kind in {DoubleKind, FloatKind}
  {
    ColumnsIndexable(x);
    if EqualityIsIdentity(x.value[0].kind) then 1 else 0
  }

  /** Entries that differ in that component alone are equal exactly when its values are. */
  lemma AroundEqual(x: Index, c: nat, a: Value, b: Value, first: bool, second: bool)
    requires WellShaped(x) && !x.kind.OfBasic? && c < |x.value|
    ensures EntryEqual(EntryWith(Around(x, c, a), x, first), EntryWith(Around(x, c, b), x, second), x.kind)
       <==> Equal(a, b)
  {
    hide Equal, EqualEach, AllIn, AllFound;
  }

  /** The two keys of a map with two entries differ. */
  lemma AroundKeys(x: Index, a: Value, b: Value)
    requires WellShaped(x) && !x.kind.OfBasic? && !Equal(b, a)
    ensures !Equal(EntryWith(Around(x, 0, b), x, false).key, EntryWith(Around(x, 0, a), x, true).key)
  {
  }

  /** In an index that is not safe two writes to any row will do. */
  lemma UnsafeFails(x: Index, s: Key) returns (ops: seq<Op>)
    requires WellShaped(x) && !Safe(x) && NameOk(s, x)
    ensures Disagrees(ops, x) && |ops| == 2 && forall i :: 0 <= i < 2 ==> ops[i].Write? && ops[i].s == s
  {
    hide Equal, Compare, InDomain, Same, Collection, EntryFits, EntryEqual, NameOk, Comparable, Around, EntryWith,
        Disagrees;
    var c := Culprit(x);
    var kind := x.value[c].kind;
    var a, b := OtherKindsDiffer(kind, x.lowScale);
    assert IsComponent(a, x.value[c]) && IsComponent(b, x.value[c]) by { NativeOfComparable(a, b, kind); }
    AroundFits(x, c, a);
    AroundFits(x, c, b);
    var e, f := EntryWith(Around(x, c, a), x, true), EntryWith(Around(x, c, b), x, false);
    EntryWithFits(Around(x, c, a), s, x, true);
    EntryWithFits(Around(x, c, b), s, x, false);
    AroundSame(x, c, a, b);
    AroundEqual(x, c, a, b, true, false);
    AroundEqual(x, c, b, a, false, true);
    AroundEqual(x, c, a, a, true, true);
    OneKeyBothWays(e, f, s, x);
    if Equal(a, b) {
      EqualKeepsOldKey(s, e, f, x);
      ops := [Write(s, Collection([e], x)), Write(s, Collection([f], x))];
    } else {
      AroundKeys(x, a, b);
      UnequalLosesKey(s, e, f, x);
      ops := [Write(s, Collection([e, f], x)), Write(s, Collection([e], x))];
    }
  }

  lemma NativeOfComparable(a: Value, b: Value, kind: Basic)
    requires Comparable(a, b, kind)
    ensures Native(a, kind) && Native(b, kind)
  {
  }

  /** The exact condition, for every index that can be created and over all histories from an empty table: the index
      finds exactly the keys of the live rows after every one of them if and only if it is safe. */
  lemma AgreesExactlyWhenSafe(x: Index)
    requires WellShaped(x)
    ensures (forall ops :: History(EMPTY, ops, x) ==> Agrees(Run(EMPTY, ops, x), x)) <==> Safe(x)
  {
    hide Agrees, Safe, WellShaped;
    if Safe(x) {
      forall ops | History(EMPTY, ops, x)
        ensures Agrees(Run(EMPTY, ops, x), x)
      {
        IndexAgrees(ops, x);
      }
    } else {
      var ops := UnsafeFails(x, SampleName(x));
      assert History(EMPTY, ops, x) && !Agrees(Run(EMPTY, ops, x), x);
    }
  }
}
