/** After any writes and deletes a secondary index agrees with the rows, and a backfill builds the same one. */
module IndexAgreementResults {

  import opened ColumnValues
  import opened ColumnOrder
  import opened Clustering
  import opened KeyBounds
  import opened ValueCodec
  import opened IndexKeys
  import opened IndexAgreement

  // ---- one row changes ----

  /** Entry `e` of the row named by `s` has the key `q`. */
  ghost predicate Puts(e: IndexEntry, s: Key, q: Key, x: Index)
    requires EntryFits(e, s, x) && KeyOk(q, x)
  {
    SameKey(FullKey(e, s, x), q, x)
  }

  ghost predicate Among(es: seq<IndexEntry>, s: Key, q: Key, x: Index)
    requires EntriesFit(es, s, x) && KeyOk(q, x)
  {
    exists i :: 0 <= i < |es| && EntryFits(es[i], s, x) && Puts(es[i], s, q, x)
  }

  lemma AmongFullKeys(es: seq<IndexEntry>, s: Key, q: Key, x: Index)
    requires EntriesFit(es, s, x) && KeyOk(q, x)
    ensures KeysOk(FullKeys(es, s, x), x)
    ensures AmongKeys(FullKeys(es, s, x), q, x) <==> Among(es, s, q, x)
  {
    hide InDomain, Same;
    assert forall i :: 0 <= i < |es| ==> EntryFits(es[i], s, x) && FullKeys(es, s, x)[i] == FullKey(es[i], s, x);
  }

  lemma AmongAny(es: seq<IndexEntry>, e: IndexEntry, s: Key, q: Key, x: Index)
    requires EntriesFit(es, s, x) && KeyOk(q, x) && e in es && EntryFits(e, s, x) && Puts(e, s, q, x)
    ensures Among(es, s, q, x)
  {
  }

  lemma NotAmong(es: seq<IndexEntry>, e: IndexEntry, s: Key, q: Key, x: Index)
    requires EntriesFit(es, s, x) && KeyOk(q, x) && !Among(es, s, q, x) && EntryFits(e, s, x) && Puts(e, s, q, x)
    ensures e !in es
  {
    if e in es { AmongAny(es, e, s, q, x); }
  }

  /** An entry that shares a key with one at `q` is at `q`, and the other way round. */
  lemma SameEntries(a: IndexEntry, b: IndexEntry, s: Key, q: Key, x: Index)
    requires InDomain(s, x.row, x.lowScale) && EntryFits(a, s, x) && EntryFits(b, s, x) && KeyOk(q, x)
    requires Puts(b, s, q, x)
    ensures Puts(a, s, q, x) <==> OneKey(a, b, s, x)
  {
    hide InDomain, Same, KeyOk, FullKey, SameKey;
    OneRow(a, b, s, x);
    SameKeys(FullKey(b, s, x), q, FullKey(a, s, x), x);
    SameKeys(FullKey(a, s, x), FullKey(b, s, x), q, x);
    SameKeys(FullKey(a, s, x), q, q, x);
  }

  lemma OneKeyBothWays(a: IndexEntry, b: IndexEntry, s: Key, x: Index)
    requires EntryFits(a, s, x) && EntryFits(b, s, x)
    ensures OneKey(a, b, s, x) <==> OneKey(b, a, s, x)
  {
    hide InDomain, Same;
    SameIsEquivalence(Prefix(a, x), Prefix(b, x), Prefix(b, x), x.value, x.lowScale);
  }

  /** An old key that is not taken out is a new key. */
  lemma KeptIsNew(was: seq<IndexEntry>, now: seq<IndexEntry>, i: nat, s: Key, q: Key, x: Index)
    requires InDomain(s, x.row, x.lowScale) && EntriesFit(was, s, x) && EntriesFit(now, s, x) && KeyOk(q, x)
    requires Faithful(was, now, s, x) && EntriesFit(Without(was, now, x.kind), s, x)
    requires i < |was| && EntryFits(was[i], s, x) && Puts(was[i], s, q, x)
    requires !Among(Without(was, now, x.kind), s, q, x)
    ensures Among(now, s, q, x)
  {
    hide InDomain, KeyOk, EntryEqual, Without, EntryFits, Puts, OneKey;
    var removed := Without(was, now, x.kind);
    NotAmong(removed, was[i], s, q, x);
    var j :| 0 <= j < |now| && EntryEqual(was[i], now[j], x.kind);
    assert EntryFits(now[j], s, x);
    OneKeyBothWays(was[i], now[j], s, x);
    SameEntries(now[j], was[i], s, q, x);
  }

  /** A new key that has an equal old entry was there already, and is not taken out. */
  lemma OldHadIt(was: seq<IndexEntry>, now: seq<IndexEntry>, j: nat, s: Key, q: Key, x: Index)
    requires InDomain(s, x.row, x.lowScale) && EntriesFit(was, s, x) && EntriesFit(now, s, x) && KeyOk(q, x)
    requires Faithful(was, now, s, x) && EntriesFit(Without(was, now, x.kind), s, x)
    requires j < |now| && EntryFits(now[j], s, x) && Puts(now[j], s, q, x)
    requires HasEqual(now[j], was, x.kind)
    ensures Among(was, s, q, x)
  {
    hide InDomain, KeyOk, EntryEqual, Without, EntryFits, Puts, OneKey;
    var i :| 0 <= i < |was| && EntryEqual(now[j], was[i], x.kind);
    assert EntryFits(was[i], s, x);
    SameEntries(was[i], now[j], s, q, x);
  }

  /** Nor is it taken out through another old entry. */
  lemma NewIsNotRemoved(was: seq<IndexEntry>, now: seq<IndexEntry>, j: nat, s: Key, q: Key, x: Index)
    requires InDomain(s, x.row, x.lowScale) && EntriesFit(was, s, x) && EntriesFit(now, s, x) && KeyOk(q, x)
    requires Faithful(was, now, s, x) && EntriesFit(Without(was, now, x.kind), s, x)
    requires j < |now| && EntryFits(now[j], s, x) && Puts(now[j], s, q, x) && HasEqual(now[j], was, x.kind)
    ensures !Among(Without(was, now, x.kind), s, q, x)
  {
    hide InDomain, KeyOk, EntryEqual, Without, EntryFits, Puts, OneKey;
    var removed := Without(was, now, x.kind);
    forall m | 0 <= m < |removed| && EntryFits(removed[m], s, x)
      ensures !Puts(removed[m], s, q, x)
    {
      assert removed[m] in removed;
      var i :| 0 <= i < |was| && was[i] == removed[m];
      assert !HasEqual(was[i], now, x.kind);
      SameEntries(was[i], now[j], s, q, x);
    }
  }

  /** The entries that are taken out and put in turn the old keys into the new ones, duplicates and all. */
  lemma DiffTurnsOldIntoNew(was: seq<IndexEntry>, now: seq<IndexEntry>, s: Key, q: Key, x: Index)
    requires InDomain(s, x.row, x.lowScale) && EntriesFit(was, s, x) && EntriesFit(now, s, x) && KeyOk(q, x)
    requires Faithful(was, now, s, x)
    requires EntriesFit(Without(was, now, x.kind), s, x) && EntriesFit(Without(now, was, x.kind), s, x)
    ensures (Among(was, s, q, x) && !Among(Without(was, now, x.kind), s, q, x))
        || Among(Without(now, was, x.kind), s, q, x)
       <==> Among(now, s, q, x)
  {
    hide InDomain, KeyOk, EntryEqual, Without, EntryFits, Puts, Faithful, HasEqual;
    var removed, added := Without(was, now, x.kind), Without(now, was, x.kind);
    if Among(added, s, q, x) {
      var i :| 0 <= i < |added| && EntryFits(added[i], s, x) && Puts(added[i], s, q, x);
      assert added[i] in added;
      AmongAny(now, added[i], s, q, x);
    } else if Among(was, s, q, x) && !Among(removed, s, q, x) {
      var i :| 0 <= i < |was| && EntryFits(was[i], s, x) && Puts(was[i], s, q, x);
      KeptIsNew(was, now, i, s, q, x);
    }
    if Among(now, s, q, x) {
      var j :| 0 <= j < |now| && EntryFits(now[j], s, x) && Puts(now[j], s, q, x);
      if HasEqual(now[j], was, x.kind) {
        NewIsNotRemoved(was, now, j, s, q, x);
        OldHadIt(was, now, j, s, q, x);
      } else {
        AmongAny(added, now[j], s, q, x);
      }
    }
  }

  /** After the update the index finds, of this row's keys, exactly those of the new value. */
  lemma UpdateAgrees(keys: set<Key>, was: Value, now: Value, s: Key, q: Key, x: Index)
    requires TreeOk(keys, x) && RowFits(was, s, x) && RowFits(now, s, x) && KeyOk(q, x)
    requires x.kind.OfBasic? || Faithful(EntriesOf(was, x.kind), EntriesOf(now, x.kind), s, x)
    requires Found(keys, q, x) <==> Among(EntriesOf(was, x.kind), s, q, x)
    ensures Found(Updated(keys, was, now, s, x), q, x) <==> Among(EntriesOf(now, x.kind), s, q, x)
  {
    hide InDomain, KeyOk, EntryFits, Puts, Faithful, Without, EntriesOf, Found, RemoveAll, InsertAll, FullKeys;
    UpdateFinds(keys, was, now, s, q, x);
    if !x.kind.OfBasic? {
      DiffTurnsOldIntoNew(EntriesOf(was, x.kind), EntriesOf(now, x.kind), s, q, x);
    }
  }

  lemma UpdateFinds(keys: set<Key>, was: Value, now: Value, s: Key, q: Key, x: Index)
    requires TreeOk(keys, x) && RowFits(was, s, x) && RowFits(now, s, x) && KeyOk(q, x)
    ensures EntriesFit(ToRemove(was, now, x), s, x) && EntriesFit(ToAdd(was, now, x), s, x)
    ensures Found(Updated(keys, was, now, s, x), q, x)
       <==> (Found(keys, q, x) && !Among(ToRemove(was, now, x), s, q, x)) || Among(ToAdd(was, now, x), s, q, x)
  {
    hide InDomain, KeyOk, EntryFits, Puts, Without, EntriesOf, Found, RemoveAll, InsertAll, FullKeys, Among, AmongKeys;
    DiffFits(was, now, s, x);
    var gone, arriving := FullKeys(ToRemove(was, now, x), s, x), FullKeys(ToAdd(was, now, x), s, x);
    FoundAfterRemoves(keys, gone, q, x);
    FoundAfterInserts(RemoveAll(keys, gone, x), arriving, q, x);
    AmongFullKeys(ToRemove(was, now, x), s, q, x);
    AmongFullKeys(ToAdd(was, now, x), s, q, x);
  }

  /** The row part of a key. */
  function RowPart(q: Key, x: Index): Key
    requires |x.value| <= |q|
  {
    q[|x.value|..]
  }

  ghost predicate OfRow(s: Key, q: Key, x: Index)
    requires InDomain(s, x.row, x.lowScale) && KeyOk(q, x)
  {
    RowPartFits(q, x);
    Same(s, RowPart(q, x), x.row, x.lowScale)
  }

  lemma RowPartFits(q: Key, x: Index)
    requires KeyOk(q, x)
    ensures |x.value| <= |q| && InDomain(q[..|x.value|], x.value, x.lowScale)
        && InDomain(RowPart(q, x), x.row, x.lowScale)
  {
    var n := |x.value|;
    assert q == q[..n] + q[n..];
    DomainSplits(q[..n], q[n..], x);
  }

  /** The entries of a row have only keys of that row. */
  lemma EntriesStayInRow(es: seq<IndexEntry>, s: Key, q: Key, x: Index)
    requires |s| == |x.row| && InDomain(s, x.row, x.lowScale) && EntriesFit(es, s, x) && KeyOk(q, x)
    ensures Among(es, s, q, x) ==> OfRow(s, q, x)
  {
    hide InDomain, Same;
    if Among(es, s, q, x) {
      var i :| 0 <= i < |es| && EntryFits(es[i], s, x) && Puts(es[i], s, q, x);
      RowPartFits(q, x);
      var n := |x.value|;
      assert q == q[..n] + RowPart(q, x);
      SameSplits(Prefix(es[i], x), s, q[..n], RowPart(q, x), x);
    }
  }

  /** An update leaves the keys of other rows alone. */
  lemma UpdateIsLocal(keys: set<Key>, was: Value, now: Value, s: Key, q: Key, x: Index)
    requires TreeOk(keys, x) && RowFits(was, s, x) && RowFits(now, s, x) && KeyOk(q, x) && !OfRow(s, q, x)
    ensures Found(Updated(keys, was, now, s, x), q, x) <==> Found(keys, q, x)
  {
    hide InDomain, KeyOk, EntryFits, Puts, Without, EntriesOf, Found, Updated, OfRow;
    UpdateFinds(keys, was, now, s, q, x);
    EntriesStayInRow(ToRemove(was, now, x), s, q, x);
    EntriesStayInRow(ToAdd(was, now, x), s, q, x);
  }

  // ---- which indexes are safe ----

  /** What CREATE INDEX makes: one component for the value, two for map entries, none of them a duration. */
  predicate WellShaped(x: Index) {
    && |x.value| == (if x.kind.OfEntries? then 2 else 1)
    && (x.kind.OfKeys? || x.kind.OfEntries? ==> x.shape.OnMap?) && (x.kind.OfBasic? ==> !x.shape.OnMap?)
    && (forall i :: 0 <= i < |Columns(x)| ==> Columns(x)[i].kind != DurationKind)
    && -0x8000_0000 <= x.lowScale < 0x8000_0000
  }

  /** A collection index is safe if the equality of its elements is key identity. Of a map's entries only the map
      keys need that, since a map has no key twice; of the values it is enough that equal ones have one key. */
  predicate Safe(x: Index)
    requires WellShaped(x)
  {
    x.kind.OfBasic? ||
    (EqualityIsIdentity(x.value[0].kind) && (x.kind.OfEntries? ==> x.value[1].kind !in {DoubleKind, FloatKind}))
  }

  lemma EqualIsSame(a: Value, b: Value, kind: Basic)
    requires Native(a, kind) && Native(b, kind) && kind !in {DoubleKind, FloatKind}
    ensures Equal(a, b) <==> a == b
  {
  }

  lemma EntryEqualIsSame(a: IndexEntry, b: IndexEntry, s: Key, x: Index)
    requires WellShaped(x) && Safe(x) && !x.kind.OfBasic? && EntryFits(a, s, x) && EntryFits(b, s, x)
    ensures EntryEqual(a, b, x.kind) <==> Prefix(a, x) == Prefix(b, x)
    ensures Prefix(a, x) == Prefix(b, x) ==> OneKey(a, b, s, x)
    ensures OneKey(a, b, s, x) ==> Prefix(a, x)[0] == Prefix(b, x)[0]
  {
    hide Equal, Compare, Comparable, FullKey, KeyOk, Native;
    var p, q := Prefix(a, x), Prefix(b, x);
    DomainComparable(p, q, x.value, x.lowScale);
    AllEqual(q, p, x.value);
    forall i | 0 <= i < |p|
      ensures Equal(p[i], q[i]) <==> p[i] == q[i]
    {
      assert IsComponent(p[i], x.value[i]) && IsComponent(q[i], x.value[i]);
      EqualIsSame(p[i], q[i], x.value[i].kind);
    }
    assert IsComponent(p[0], x.value[0]) && IsComponent(q[0], x.value[0]);
    IdentityKinds(p[0], q[0], x.value[0].kind);
    if p == q { SamePrefix(p, x); }
  }

  lemma SamePrefix(p: Key, x: Index)
    requires InDomain(p, x.value, x.lowScale)
    ensures Same(p, p, x.value, x.lowScale)
  {
    SameIsEquivalence(p, p, p, x.value, x.lowScale);
  }

  /** A map's old entry that shares the key of a new entry is the one that new entry is equal to, if any. */
  lemma SharedIsKept(was: seq<IndexEntry>, now: seq<IndexEntry>, i: nat, j: nat, s: Key, x: Index)
    requires WellShaped(x) && Safe(x) && !x.kind.OfBasic? && EntriesFit(was, s, x) && EntriesFit(now, s, x)
    requires i < |was| && j < |now| && EntryFits(was[i], s, x) && EntryFits(now[j], s, x)
    requires x.kind.OfEntries? ==> forall m, n :: 0 <= m < n < |was| ==> !Equal(was[n].key, was[m].key)
    requires OneKey(was[i], now[j], s, x) && HasEqual(now[j], was, x.kind)
    ensures HasEqual(was[i], now, x.kind)
  {
    hide Equal, Compare, InDomain, KeyOk, FullKey, Same, EntryFits, OneKey, EntryEqual;
    EntryEqualIsSame(was[i], now[j], s, x);
    var m :| 0 <= m < |was| && EntryEqual(now[j], was[m], x.kind);
    assert EntryFits(was[m], s, x);
    EntryEqualIsSame(now[j], was[m], s, x);
    if x.kind.OfEntries? {
      OneEntry(was, i, m, s, x);
    } else {
      SingleComponent(was[i], s, x);
      SingleComponent(now[j], s, x);
    }
    assert EntryEqual(was[i], now[j], x.kind);
  }

  lemma SingleComponent(e: IndexEntry, s: Key, x: Index)
    requires WellShaped(x) && EntryFits(e, s, x) && !x.kind.OfEntries?
    ensures Prefix(e, x) == [Prefix(e, x)[0]]
  {
  }

  lemma OneEntry(was: seq<IndexEntry>, i: nat, m: nat, s: Key, x: Index)
    requires WellShaped(x) && Safe(x) && x.kind.OfEntries? && EntriesFit(was, s, x)
    requires i < |was| && m < |was| && Prefix(was[i], x)[0] == Prefix(was[m], x)[0]
    requires forall m, n :: 0 <= m < n < |was| ==> !Equal(was[n].key, was[m].key)
    ensures i == m
  {
    hide Equal, Compare, KeyOk, FullKey;
    assert EntryFits(was[i], s, x);
    assert IsComponent(was[i].key, x.value[0]);
    EqualIsSame(was[i].key, was[i].key, x.value[0].kind);
  }

  /** A map's entries have different keys. */
  lemma MapEntriesDiffer(v: Value, s: Key, x: Index)
    requires RowFits(v, s, x) && x.kind.OfEntries? && x.shape.OnMap?
    ensures var es := EntriesOf(v, x.kind);
            forall m, n :: 0 <= m < n < |es| ==> !Equal(es[n].key, es[m].key)
  {
  }

  lemma SafeIsFaithful(was: Value, now: Value, s: Key, x: Index)
    requires WellShaped(x) && Safe(x) && !x.kind.OfBasic? && RowFits(was, s, x) && RowFits(now, s, x)
    ensures Faithful(EntriesOf(was, x.kind), EntriesOf(now, x.kind), s, x)
  {
    hide Equal, Compare, InDomain, KeyOk, Same, EntryFits, OneKey, EntryEqual, HasEqual, Safe, WellShaped;
    var es, fs := EntriesOf(was, x.kind), EntriesOf(now, x.kind);
    if x.kind.OfEntries? {
      assert x.shape.OnMap? by { OnMapIfEntries(x); }
      MapEntriesDiffer(was, s, x);
    }
    hide EntriesOf;
    forall i, j | 0 <= i < |es| && 0 <= j < |fs|
      ensures EntryFits(es[i], s, x) && EntryFits(fs[j], s, x)
      ensures EntryEqual(es[i], fs[j], x.kind) || EntryEqual(fs[j], es[i], x.kind) ==> OneKey(es[i], fs[j], s, x)
      ensures OneKey(es[i], fs[j], s, x) && HasEqual(fs[j], es, x.kind) ==> HasEqual(es[i], fs, x.kind)
    {
      EntryEqualIsSame(es[i], fs[j], s, x);
      EntryEqualIsSame(fs[j], es[i], s, x);
      if OneKey(es[i], fs[j], s, x) && HasEqual(fs[j], es, x.kind) {
        SharedIsKept(es, fs, i, j, s, x);
      }
    }
  }

  lemma OnMapIfEntries(x: Index)
    requires WellShaped(x) && x.kind.OfEntries?
    ensures x.shape.OnMap?
  {
  }

  // ---- whole histories ----

  /** The rows, by the components that name them, with the value of the indexed column; and the index. */
  datatype Store = Store(rows: map<Key, Value>, keys: set<Key>)

  datatype Op = Write(s: Key, v: Value) | Delete(s: Key)

  function ValueIn(rows: map<Key, Value>, s: Key): Value {
    if s in rows then rows[s] else Null
  }

  ghost predicate RowsFit(rows: map<Key, Value>, x: Index) {
    forall s :: s in rows ==> RowFits(rows[s], s, x)
  }

  /** A name of a row. */
  ghost predicate NameOk(s: Key, x: Index) {
    |s| == |x.row| && InDomain(s, x.row, x.lowScale)
  }

  ghost predicate OneName(s: Key, t: Key, x: Index)
    requires NameOk(s, x) && NameOk(t, x)
  {
    Same(s, t, x.row, x.lowScale)
  }

  /** No other row has a name the index cannot tell from `s`. */
  ghost predicate Apart(rows: map<Key, Value>, s: Key, x: Index)
    requires NameOk(s, x)
  {
    forall t :: t in rows && t != s ==> NameOk(t, x) && !OneName(s, t, x)
  }

  ghost predicate StoreOk(st: Store, x: Index) {
    TreeOk(st.keys, x) && RowsFit(st.rows, x) && forall s :: s in st.rows ==> NameOk(s, x) && Apart(st.rows, s, x)
  }

  /** A write addresses a row by the name it is stored under, or a row that is new, and its value is one the
      column can hold, with keys in the index. */
  ghost predicate Allowed(st: Store, op: Op, x: Index)
    requires StoreOk(st, x)
  {
    op.Write? ==>
      && NameOk(op.s, x) && Apart(st.rows, op.s, x)
      && RowFits(ValueIn(st.rows, op.s), op.s, x) && RowFits(op.v, op.s, x)
  }

  function After(op: Op): Value {
    if op.Write? then op.v else Null
  }

  ghost function Apply(st: Store, op: Op, x: Index): Store
    requires StoreOk(st, x) && Allowed(st, op, x)
  {
    if op.Delete? && op.s !in st.rows then st
    else
      OpFits(st, op, x);
      Store(if op.Write? then st.rows[op.s := op.v] else st.rows - {op.s},
            Updated(st.keys, ValueIn(st.rows, op.s), After(op), op.s, x))
  }

  lemma OpFits(st: Store, op: Op, x: Index)
    requires StoreOk(st, x) && Allowed(st, op, x) && (op.Delete? ==> op.s in st.rows)
    ensures NameOk(op.s, x) && Apart(st.rows, op.s, x)
    ensures RowFits(ValueIn(st.rows, op.s), op.s, x) && RowFits(After(op), op.s, x)
  {
    hide InDomain, EntryFits;
    if op.Delete? { NullHasNoEntries(x.kind); }
  }

  lemma NullHasNoEntries(kind: Kind)
    ensures EntriesOf(Null, kind) == []
  {
  }

  lemma ApplyOk(st: Store, op: Op, x: Index)
    requires StoreOk(st, x) && Allowed(st, op, x)
    ensures StoreOk(Apply(st, op, x), x)
  {
    hide NameOk, OneName, RowFits, Updated;
    if op.Delete? && op.s !in st.rows { return; }
    OpFits(st, op, x);
    var r := Apply(st, op, x);
    forall s | s in r.rows
      ensures NameOk(s, x) && Apart(r.rows, s, x)
    {
      forall t | t in r.rows && t != s
        ensures NameOk(t, x) && !OneName(s, t, x)
      {
        if s == op.s || t == op.s { assert Apart(st.rows, op.s, x); }
        NamesBothWays(s, t, x);
      }
    }
  }

  lemma NamesBothWays(s: Key, t: Key, x: Index)
    requires NameOk(s, x) && NameOk(t, x)
    ensures OneName(s, t, x) <==> OneName(t, s, x)
  {
    hide InDomain, Same;
    SameIsEquivalence(s, t, t, x.row, x.lowScale);
  }

  ghost predicate InImage(rows: map<Key, Value>, q: Key, x: Index)
    requires KeyOk(q, x)
  {
    exists s :: s in rows && RowFits(rows[s], s, x) && Among(EntriesOf(rows[s], x.kind), s, q, x)
  }

  /** A search finds exactly the keys of the live rows. */
  ghost predicate Agrees(st: Store, x: Index)
    requires StoreOk(st, x)
  {
    forall q :: KeyOk(q, x) ==> (Found(st.keys, q, x) <==> InImage(st.rows, q, x))
  }

  /** Of the keys of one row, the rows put in exactly those of its value. */
  lemma ImageOfRow(rows: map<Key, Value>, s: Key, q: Key, x: Index)
    requires RowsFit(rows, x) && NameOk(s, x) && KeyOk(q, x) && RowFits(ValueIn(rows, s), s, x)
    requires Apart(rows, s, x) && OfRow(s, q, x)
    ensures InImage(rows, q, x) <==> Among(EntriesOf(ValueIn(rows, s), x.kind), s, q, x)
  {
    hide InDomain, KeyOk, Same, Among, EntriesOf, OfRow, OneName, EntryFits;
    if InImage(rows, q, x) {
      var t :| t in rows && RowFits(rows[t], t, x) && Among(EntriesOf(rows[t], x.kind), t, q, x);
      EntriesStayInRow(EntriesOf(rows[t], x.kind), t, q, x);
      RowsOfOneKey(s, t, q, x);
    }
    if s !in rows {
      NullHasNoEntries(x.kind);
      NothingAmong(s, q, x);
    }
  }

  lemma RowsOfOneKey(s: Key, t: Key, q: Key, x: Index)
    requires NameOk(s, x) && NameOk(t, x) && KeyOk(q, x) && OfRow(s, q, x) && OfRow(t, q, x)
    ensures OneName(s, t, x)
  {
    hide InDomain, Same;
    RowPartFits(q, x);
    SameIsEquivalence(t, RowPart(q, x), s, x.row, x.lowScale);
    SameIsEquivalence(RowPart(q, x), s, s, x.row, x.lowScale);
    SameIsEquivalence(t, s, s, x.row, x.lowScale);
  }

  lemma NothingAmong(s: Key, q: Key, x: Index)
    requires KeyOk(q, x)
    ensures !Among([], s, q, x)
  {
  }

  lemma ImageElsewhere(rows: map<Key, Value>, others: map<Key, Value>, s: Key, q: Key, x: Index)
    requires RowsFit(rows, x) && RowsFit(others, x)
    requires KeyOk(q, x) && NameOk(s, x) && !OfRow(s, q, x)
    requires forall t :: t in rows && t != s ==> t in others && others[t] == rows[t]
    ensures InImage(rows, q, x) ==> InImage(others, q, x)
  {
    hide InDomain, KeyOk, Same, Among, OfRow, EntriesOf, EntryFits;
    if InImage(rows, q, x) {
      var t :| t in rows && RowFits(rows[t], t, x) && Among(EntriesOf(rows[t], x.kind), t, q, x);
      EntriesStayInRow(EntriesOf(rows[t], x.kind), t, q, x);
    }
  }

  /** Every write and every delete keeps the index in agreement with the rows. */
  lemma ApplyAgrees(st: Store, op: Op, x: Index)
    requires WellShaped(x) && Safe(x)
    requires StoreOk(st, x) && Allowed(st, op, x) && Agrees(st, x)
    ensures StoreOk(Apply(st, op, x), x) && Agrees(Apply(st, op, x), x)
  {
    hide WellShaped, Safe;
    ApplyOk(st, op, x);
    if op.Delete? && op.s !in st.rows { return; }
    OpFits(st, op, x);
    forall q | KeyOk(q, x)
      ensures Found(Apply(st, op, x).keys, q, x) <==> InImage(Apply(st, op, x).rows, q, x)
    {
      KeyAfterOp(st, op, q, x);
    }
  }

  lemma KeyAfterOp(st: Store, op: Op, q: Key, x: Index)
    requires WellShaped(x) && Safe(x)
    requires StoreOk(st, x) && Allowed(st, op, x) && Agrees(st, x) && (op.Delete? ==> op.s in st.rows)
    requires StoreOk(Apply(st, op, x), x) && KeyOk(q, x)
    ensures Found(Apply(st, op, x).keys, q, x) <==> InImage(Apply(st, op, x).rows, q, x)
  {
    hide InDomain, KeyOk, Same, Among, EntriesOf, Found, Updated, Faithful, OfRow, InImage, EntryFits, TreeOk,
        WellShaped, Safe,
        ColumnFits;
    OpFits(st, op, x);
    var r, s, was, now := Apply(st, op, x), op.s, ValueIn(st.rows, op.s), After(op);
    if OfRow(s, q, x) {
      ImageOfRow(st.rows, s, q, x);
      ImageOfRow(r.rows, s, q, x);
      if !x.kind.OfBasic? { SafeIsFaithful(was, now, s, x); }
      UpdateAgrees(st.keys, was, now, s, q, x);
    } else {
      UpdateIsLocal(st.keys, was, now, s, q, x);
      ImageElsewhere(st.rows, r.rows, s, q, x);
      ImageElsewhere(r.rows, st.rows, s, q, x);
    }
  }

  /** A history in which every operation is allowed where it happens. */
  ghost predicate History(st: Store, ops: seq<Op>, x: Index)
    requires StoreOk(st, x)
    decreases |ops|
  {
    ops != [] ==>
      && Allowed(st, ops[0], x)
      && StoreOk(Apply(st, ops[0], x), x)
      && History(Apply(st, ops[0], x), ops[1..], x)
  }

  ghost function Run(st: Store, ops: seq<Op>, x: Index): (r: Store)
    requires StoreOk(st, x) && History(st, ops, x)
    ensures StoreOk(r, x)
    decreases |ops|
  {
    if ops == [] then st else Run(Apply(st, ops[0], x), ops[1..], x)
  }

  lemma {:induction false} RunAgrees(st: Store, ops: seq<Op>, x: Index)
    requires WellShaped(x) && Safe(x) && StoreOk(st, x) && History(st, ops, x) && Agrees(st, x)
    ensures Agrees(Run(st, ops, x), x)
    decreases |ops|
  {
    hide StoreOk, Agrees, Allowed, Apply, WellShaped, Safe;
    if ops != [] {
      ApplyAgrees(st, ops[0], x);
      RunAgrees(Apply(st, ops[0], x), ops[1..], x);
    }
  }

  const EMPTY: Store := Store(map[], {})

  /** From an empty table on, after any writes and deletes, a safe index finds exactly the keys of the live rows. */
  lemma IndexAgrees(ops: seq<Op>, x: Index)
    requires WellShaped(x) && Safe(x) && StoreOk(EMPTY, x) && History(EMPTY, ops, x)
    ensures Agrees(Run(EMPTY, ops, x), x)
  {
    EmptyAgrees(x);
    RunAgrees(EMPTY, ops, x);
  }

  lemma EmptyAgrees(x: Index)
    ensures StoreOk(EMPTY, x) && Agrees(EMPTY, x)
  {
  }

  // ---- backfilling ----

  ghost predicate ListFits(rows: seq<(Key, Value)>, x: Index) {
    forall i :: 0 <= i < |rows| ==> NameOk(rows[i].0, x) && RowFits(rows[i].1, rows[i].0, x)
  }

  ghost function Backfilled(keys: set<Key>, rows: seq<(Key, Value)>, x: Index): (r: set<Key>)
    requires TreeOk(keys, x) && ListFits(rows, x)
    ensures TreeOk(r, x)
    decreases |rows|
  {
    if rows == [] then keys
    else
      FitsByMembership(EntriesOf(rows[0].1, x.kind), EntriesOf(rows[0].1, x.kind), rows[0].0, x);
      Backfilled(InsertAll(keys, FullKeys(EntriesOf(rows[0].1, x.kind), rows[0].0, x), x), rows[1..], x)
  }

  /** backfill_index: the entries of every row are inserted, row by row. */
  method Backfill(tree: IndexTree, rows: seq<(Key, Value)>)
    requires TreeOk(tree.keys, tree.index) && ListFits(rows, tree.index)
    modifies tree
    ensures tree.keys == Backfilled(old(tree.keys), rows, tree.index)
  {
    hide NameOk, EntriesFit, InsertAll, KeyOk;
    assert rows[0..] == rows;
    for i := 0 to |rows|
      invariant TreeOk(tree.keys, tree.index)
      invariant ListFits(rows[i..], tree.index)
      invariant Backfilled(tree.keys, rows[i..], tree.index) == Backfilled(old(tree.keys), rows, tree.index)
    {
      assert rows[i..][0] == rows[i] && rows[i..][1..] == rows[i + 1..];
      var s, v := rows[i].0, rows[i].1;
      FitsByMembership(EntriesOf(v, tree.index.kind), EntriesOf(v, tree.index.kind), s, tree.index);
      BackfillRow(tree, v, s);
    }
  }

  method BackfillRow(tree: IndexTree, v: Value, s: Key)
    requires TreeOk(tree.keys, tree.index) && RowFits(v, s, tree.index)
    requires KeysOk(FullKeys(EntriesOf(v, tree.index.kind), s, tree.index), tree.index)
    modifies tree
    ensures tree.keys == InsertAll(old(tree.keys), FullKeys(EntriesOf(v, tree.index.kind), s, tree.index), tree.index)
  {
    hide KeyOk, RowFits;
    if !v.Null? {
      if tree.index.kind.OfBasic? {
        var k := FullKey(IndexEntry(v, Null, false), s, tree.index);
        assert FullKeys(EntriesOf(v, tree.index.kind), s, tree.index) == [k];
        assert [k][1..] == [];
        assert KeyOk([k][0], tree.index);
        tree.Insert(k);
      } else {
        tree.ApplyDiff([], Enumerate(v), s);
      }
    }
  }

  lemma {:induction false} BackfilledFinds(keys: set<Key>, rows: seq<(Key, Value)>, q: Key, x: Index)
    requires TreeOk(keys, x) && ListFits(rows, x) && KeyOk(q, x)
    ensures Found(Backfilled(keys, rows, x), q, x)
       <==> Found(keys, q, x) || exists i :: 0 <= i < |rows| && Among(EntriesOf(rows[i].1, x.kind), rows[i].0, q, x)
    decreases |rows|
  {
    hide NameOk, EntriesFit, InsertAll, KeyOk, Found, Among;
    if rows != [] {
      var s, es := rows[0].0, EntriesOf(rows[0].1, x.kind);
      FitsByMembership(es, es, s, x);
      AmongFullKeys(es, s, q, x);
      FoundAfterInserts(keys, FullKeys(es, s, x), q, x);
      BackfilledFinds(InsertAll(keys, FullKeys(es, s, x), x), rows[1..], q, x);
      FirstOrLater(rows, q, x);
    }
  }

  lemma FirstOrLater(rows: seq<(Key, Value)>, q: Key, x: Index)
    requires rows != [] && ListFits(rows, x) && KeyOk(q, x)
    ensures (exists i :: 0 <= i < |rows| && Among(EntriesOf(rows[i].1, x.kind), rows[i].0, q, x))
       <==> || Among(EntriesOf(rows[0].1, x.kind), rows[0].0, q, x)
            || exists i :: 0 <= i < |rows[1..]| && Among(EntriesOf(rows[1..][i].1, x.kind), rows[1..][i].0, q, x)
  {
    hide NameOk, EntriesFit, KeyOk, Among, EntriesOf;
    if i :| 0 < i < |rows| && Among(EntriesOf(rows[i].1, x.kind), rows[i].0, q, x) {
      assert rows[1..][i - 1] == rows[i];
    }
    if i :| 0 <= i < |rows[1..]| && Among(EntriesOf(rows[1..][i].1, x.kind), rows[1..][i].0, q, x) {
      assert rows[1..][i] == rows[i + 1];
    }
  }

  /** Backfilling an empty index from a listing of the rows gives an index that agrees with them: a search finds
      the same keys in it as in the index kept up to date by the writes themselves. */
  lemma BackfillAgrees(st: Store, rows: seq<(Key, Value)>, q: Key, x: Index)
    requires StoreOk(st, x) && Agrees(st, x) && ListFits(rows, x) && KeyOk(q, x)
    requires forall s :: s in st.rows ==> (s, st.rows[s]) in rows
    requires forall i :: 0 <= i < |rows| ==> rows[i].0 in st.rows && st.rows[rows[i].0] == rows[i].1
    ensures Found(Backfilled({}, rows, x), q, x) <==> Found(st.keys, q, x)
  {
    hide NameOk, EntriesFit, KeyOk, Among, EntriesOf, Backfilled, OneName;
    BackfilledFinds({}, rows, q, x);
    if InImage(st.rows, q, x) {
      var s :| s in st.rows && RowFits(st.rows[s], s, x) && Among(EntriesOf(st.rows[s], x.kind), s, q, x);
      var i :| 0 <= i < |rows| && rows[i] == (s, st.rows[s]);
    }
  }
}
