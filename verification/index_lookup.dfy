/** What a search of a secondary index finds, told by the rows' values alone. */
module IndexLookup {

  import opened ColumnValues
  import opened ColumnOrder
  import opened Clustering
  import opened KeyBounds
  import opened ValueCodec
  import opened IndexKeys
  import opened IndexAgreement
  import opened IndexAgreementResults

  /** `w` is a value of the kind and compares equal to `v`. */
  ghost predicate Matches(w: Value, v: Value, kind: Basic) {
    Comparable(w, v, kind) && Compare(w, v, kind) == 0
  }

  /** The column value `w` has what a search for `p` asks for: on a basic column it is the value itself; in a
      collection it is an element, a map key, a map value, or an entry with that key and that value. */
  ghost predicate Has(w: Value, p: Key, x: Index)
    requires WellShaped(x) && |p| == |x.value|
  {
    match x.kind
    case OfBasic => Matches(w, p[0], x.value[0].kind)
    case OfValues =>
      (match w
       case Array(items) => exists i :: 0 <= i < |items| && Matches(items[i], p[0], x.value[0].kind)
       case SetOf(members) => exists i :: 0 <= i < |members| && Matches(members[i], p[0], x.value[0].kind)
       case MapOf(entries) => exists i :: 0 <= i < |entries| && Matches(entries[i].value, p[0], x.value[0].kind)
       case _ => false)
    case OfKeys =>
      w.MapOf? && exists i :: 0 <= i < |w.entries| && Matches(w.entries[i].key, p[0], x.value[0].kind)
    case OfEntries =>
      w.MapOf? && exists i :: 0 <= i < |w.entries|
                    && Matches(w.entries[i].key, p[0], x.value[0].kind)
                    && Matches(w.entries[i].value, p[1], x.value[1].kind)
  }

  /** Component by component the two keys compare equal. */
  ghost predicate Alike(k: Key, p: Key, columns: seq<Column>) {
    |k| == |p| == |columns| && forall i :: 0 <= i < |p| ==> Matches(k[i], p[i], columns[i].kind)
  }

  /** Some live row whose name compares equal to `s` has it. */
  ghost predicate RowHas(rows: map<Key, Value>, p: Key, s: Key, x: Index)
    requires WellShaped(x) && |p| == |x.value|
  {
    exists t :: t in rows && Alike(t, s, x.row) && Has(rows[t], p, x)
  }

  // ---- the entries of one row ----

  lemma NameWidth(s: Key, x: Index)
    requires NameOk(s, x)
    ensures |s| == |x.row| && InDomain(s, x.row, x.lowScale)
  {
  }

  lemma SearchKeyOk(p: Key, s: Key, x: Index)
    requires InDomain(p, x.value, x.lowScale) && NameOk(s, x)
    ensures KeyOk(p + s, x) && |p| == |x.value|
  {
    DomainSplits(p, s, x);
  }

  /** The index's comparator calls two keys one when they are alike. */
  lemma SameIsAlike(a: Key, b: Key, columns: seq<Column>, lowScale: int)
    requires InDomain(a, columns, lowScale) && InDomain(b, columns, lowScale)
    ensures Same(a, b, columns, lowScale) <==> Alike(a, b, columns)
  {
    hide InDomain, Compare, Comparable, CompareKeys;
    DomainWidth(a, columns, lowScale);
    DomainWidth(b, columns, lowScale);
    DomainComparable(a, b, columns, lowScale);
    AllEqual(b, a, columns);
  }

  lemma EntryMatches(e: IndexEntry, t: Key, p: Key, s: Key, x: Index)
    requires NameOk(t, x) && NameOk(s, x) && InDomain(p, x.value, x.lowScale) && EntryFits(e, t, x)
    requires KeyOk(p + s, x)
    ensures Puts(e, t, p + s, x) <==> Alike(t, s, x.row) && Alike(Prefix(e, x), p, x.value)
  {
    hide InDomain, Same, Alike, Prefix;
    SameSplits(Prefix(e, x), t, p, s, x);
    SameIsAlike(t, s, x.row, x.lowScale);
    SameIsAlike(Prefix(e, x), p, x.value, x.lowScale);
  }

  ghost predicate SomeMatches(es: seq<IndexEntry>, p: Key, x: Index) {
    exists i :: 0 <= i < |es| && Alike(Prefix(es[i], x), p, x.value)
  }

  lemma AmongMatches(es: seq<IndexEntry>, t: Key, p: Key, s: Key, x: Index)
    requires NameOk(t, x) && NameOk(s, x) && InDomain(p, x.value, x.lowScale) && EntriesFit(es, t, x)
    requires KeyOk(p + s, x)
    ensures Among(es, t, p + s, x) <==> Alike(t, s, x.row) && SomeMatches(es, p, x)
  {
    hide InDomain, KeyOk, Alike, EntryFits, Puts, NameOk;
    forall i | 0 <= i < |es|
      ensures EntryFits(es[i], t, x)
      ensures Puts(es[i], t, p + s, x) <==> Alike(t, s, x.row) && Alike(Prefix(es[i], x), p, x.value)
    {
      EntryMatches(es[i], t, p, s, x);
    }
  }

  /** For each kind of index, what its entries' components are. */
  lemma HasMeans(w: Value, p: Key, x: Index)
    requires WellShaped(x) && |p| == |x.value| && ColumnFits(w, x)
    ensures SomeMatches(EntriesOf(w, x.kind), p, x) <==> Has(w, p, x)
  {
    hide Matches;
    NullNeverMatches(p[0], x.value[0].kind);
    var es := EntriesOf(w, x.kind);
    if Has(w, p, x) {
      if x.kind.OfBasic? {
        assert Alike(Prefix(es[0], x), p, x.value);
      } else if w.Array? {
        var i :| 0 <= i < |w.items| && Matches(w.items[i], p[0], x.value[0].kind);
        assert Alike(Prefix(es[i], x), p, x.value);
      } else if w.SetOf? {
        var i :| 0 <= i < |w.members| && Matches(w.members[i], p[0], x.value[0].kind);
        assert Alike(Prefix(es[i], x), p, x.value);
      } else {
        MapEntryMatches(w, p, x);
      }
    }
  }

  lemma MapEntryMatches(w: Value, p: Key, x: Index)
    requires WellShaped(x) && |p| == |x.value| && x.shape.OnMap? && w.MapOf? && Has(w, p, x)
    ensures SomeMatches(EntriesOf(w, x.kind), p, x)
  {
    hide Matches;
    var es := EntriesOf(w, x.kind);
    match x.kind
    case OfValues =>
      var i :| 0 <= i < |w.entries| && Matches(w.entries[i].value, p[0], x.value[0].kind);
      assert Alike(Prefix(es[i], x), p, x.value);
    case OfKeys =>
      var i :| 0 <= i < |w.entries| && Matches(w.entries[i].key, p[0], x.value[0].kind);
      assert Alike(Prefix(es[i], x), p, x.value);
    case OfEntries =>
      var i :| 0 <= i < |w.entries| && Matches(w.entries[i].key, p[0], x.value[0].kind)
                                    && Matches(w.entries[i].value, p[1], x.value[1].kind);
      assert Alike(Prefix(es[i], x), p, x.value);
  }

  lemma NullNeverMatches(v: Value, kind: Basic)
    ensures !Matches(Null, v, kind)
  {
  }

  lemma AmongMeans(w: Value, t: Key, p: Key, s: Key, x: Index)
    requires WellShaped(x) && NameOk(t, x) && NameOk(s, x) && InDomain(p, x.value, x.lowScale) && RowFits(w, t, x)
    ensures KeyOk(p + s, x) && |p| == |x.value|
    ensures Among(EntriesOf(w, x.kind), t, p + s, x) <==> Alike(t, s, x.row) && Has(w, p, x)
  {
    hide InDomain, KeyOk, Has, SomeMatches, EntriesOf, Alike, NameOk, ColumnFits, WellShaped, EntriesFit;
    SearchKeyOk(p, s, x);
    AmongMatches(EntriesOf(w, x.kind), t, p, s, x);
    HasMeans(w, p, x);
  }

  // ---- the index ----

  /** In an index that agrees with its rows a search finds exactly those rows that have what it asks for. */
  lemma SearchFinds(st: Store, p: Key, s: Key, x: Index)
    requires WellShaped(x) && StoreOk(st, x) && Agrees(st, x) && NameOk(s, x) && InDomain(p, x.value, x.lowScale)
    ensures KeyOk(p + s, x) && |p| == |x.value|
    ensures Found(st.keys, p + s, x) <==> RowHas(st.rows, p, s, x)
  {
    hide InDomain, KeyOk, Has, EntriesOf, Alike, NameOk, Found, Among, WellShaped, Apart, ColumnFits, EntriesFit;
    SearchKeyOk(p, s, x);
    forall t | t in st.rows
      ensures NameOk(t, x) && RowFits(st.rows[t], t, x)
      ensures Among(EntriesOf(st.rows[t], x.kind), t, p + s, x) <==> Alike(t, s, x.row) && Has(st.rows[t], p, x)
    {
      AmongMeans(st.rows[t], t, p, s, x);
    }
  }

  /** After any writes and deletes, a search of a safe index for `p` in the row named `s` succeeds exactly if such a
      row is live and its column has what `p` stands for. */
  lemma SearchAfterHistory(ops: seq<Op>, p: Key, s: Key, x: Index)
    requires WellShaped(x) && Safe(x) && StoreOk(EMPTY, x) && History(EMPTY, ops, x)
    requires NameOk(s, x) && InDomain(p, x.value, x.lowScale)
    ensures KeyOk(p + s, x) && |p| == |x.value|
    ensures Found(Run(EMPTY, ops, x).keys, p + s, x) <==> RowHas(Run(EMPTY, ops, x).rows, p, s, x)
  {
    hide InDomain, KeyOk, Alike, NameOk, Found, WellShaped, Safe, RowHas, Agrees, History, Run;
    IndexAgrees(ops, x);
    SearchFinds(Run(EMPTY, ops, x), p, s, x);
  }

  /** The same of a backfill from a listing of the rows, for any index. */
  lemma SearchAfterBackfill(rows: map<Key, Value>, listing: seq<(Key, Value)>, p: Key, s: Key, x: Index)
    requires WellShaped(x) && ListFits(listing, x) && NameOk(s, x) && InDomain(p, x.value, x.lowScale)
    requires forall t :: t in rows ==> (t, rows[t]) in listing
    requires forall i :: 0 <= i < |listing| ==> listing[i].0 in rows && rows[listing[i].0] == listing[i].1
    ensures KeyOk(p + s, x) && |p| == |x.value|
    ensures Found(Backfilled({}, listing, x), p + s, x) <==> RowHas(rows, p, s, x)
  {
    hide InDomain, KeyOk, Has, EntriesOf, Alike, NameOk, Among, WellShaped, RowFits, Backfilled;
    SearchKeyOk(p, s, x);
    BackfilledFinds({}, listing, p + s, x);
    forall i | 0 <= i < |listing|
      ensures Among(EntriesOf(listing[i].1, x.kind), listing[i].0, p + s, x)
         <==> Alike(listing[i].0, s, x.row) && Has(listing[i].1, p, x)
    {
      AmongMeans(listing[i].1, listing[i].0, p, s, x);
    }
    if RowHas(rows, p, s, x) {
      var t :| t in rows && Alike(t, s, x.row) && Has(rows[t], p, x);
      var i :| 0 <= i < |listing| && listing[i] == (t, rows[t]);
    }
  }

  // ---- no key twice ----

  /** The comparator tells any two keys of the tree apart. */
  ghost predicate Distinct(tree: set<Key>, x: Index)
    requires TreeOk(tree, x)
  {
    forall j, k :: j in tree && k in tree && SameKey(j, k, x) ==> j == k
  }

  lemma RemovedDistinct(tree: set<Key>, k: Key, x: Index)
    requires TreeOk(tree, x) && KeyOk(k, x) && Distinct(tree, x)
    ensures Distinct(Removed(tree, k, x), x)
  {
    hide KeyOk, SameKey;
  }

  lemma InsertedDistinct(tree: set<Key>, k: Key, x: Index)
    requires TreeOk(tree, x) && KeyOk(k, x) && Distinct(tree, x)
    ensures Distinct(Inserted(tree, k, x), x)
  {
    hide KeyOk, SameKey;
    forall j | j in Removed(tree, k, x)
      ensures !SameKey(j, k, x) && !SameKey(k, j, x)
    {
      SameKeys(j, k, k, x);
    }
  }

  lemma {:induction false} RemoveAllDistinct(tree: set<Key>, keys: seq<Key>, x: Index)
    requires TreeOk(tree, x) && KeysOk(keys, x) && Distinct(tree, x)
    ensures Distinct(RemoveAll(tree, keys, x), x)
    decreases |keys|
  {
    hide KeyOk, Distinct, Removed;
    if keys != [] {
      RemovedDistinct(tree, keys[0], x);
      RemoveAllDistinct(Removed(tree, keys[0], x), keys[1..], x);
    }
  }

  lemma {:induction false} InsertAllDistinct(tree: set<Key>, keys: seq<Key>, x: Index)
    requires TreeOk(tree, x) && KeysOk(keys, x) && Distinct(tree, x)
    ensures Distinct(InsertAll(tree, keys, x), x)
    decreases |keys|
  {
    hide KeyOk, Distinct, Inserted;
    if keys != [] {
      InsertedDistinct(tree, keys[0], x);
      InsertAllDistinct(Inserted(tree, keys[0], x), keys[1..], x);
    }
  }

  /** After any writes and deletes, on any index, safe or not, no key is in the index twice. */
  lemma {:induction false} NoKeyTwice(st: Store, ops: seq<Op>, x: Index)
    requires StoreOk(st, x) && History(st, ops, x) && Distinct(st.keys, x)
    ensures Distinct(Run(st, ops, x).keys, x)
    decreases |ops|
  {
    hide StoreOk, Distinct, Allowed, Updated;
    if ops != [] {
      ApplyDistinct(st, ops[0], x);
      NoKeyTwice(Apply(st, ops[0], x), ops[1..], x);
    }
  }

  lemma ApplyDistinct(st: Store, op: Op, x: Index)
    requires StoreOk(st, x) && Allowed(st, op, x) && Distinct(st.keys, x)
    ensures StoreOk(Apply(st, op, x), x) && Distinct(Apply(st, op, x).keys, x)
  {
    hide Distinct, RowFits, RemoveAll, InsertAll, NameOk, Apart, FullKeys;
    ApplyOk(st, op, x);
    if op.Delete? && op.s !in st.rows { return; }
    OpFits(st, op, x);
    var was, now := ValueIn(st.rows, op.s), After(op);
    DiffFits(was, now, op.s, x);
    var gone, arriving := FullKeys(ToRemove(was, now, x), op.s, x), FullKeys(ToAdd(was, now, x), op.s, x);
    RemoveAllDistinct(st.keys, gone, x);
    InsertAllDistinct(RemoveAll(st.keys, gone, x), arriving, x);
  }
}
