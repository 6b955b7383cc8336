/** A secondary index holds exactly the keys of the live rows. */
module IndexAgreement {

  import opened ColumnValues
  import opened ColumnOrder
  import opened Clustering
  import opened ValueCodec
  import opened ValueCodecResults
  import opened IndexKeys

  // ---- the index's tree ----

  ghost predicate KeyOk(k: Key, x: Index) {
    InDomain(k, Columns(x), x.lowScale)
  }

  predicate SameKey(a: Key, b: Key, x: Index)
    requires KeyOk(a, x) && KeyOk(b, x)
  {
    Same(a, b, Columns(x), x.lowScale)
  }

  ghost predicate TreeOk(tree: set<Key>, x: Index) {
    forall k :: k in tree ==> KeyOk(k, x)
  }

  /** What a search for `k` finds. */
  ghost predicate Found(tree: set<Key>, k: Key, x: Index)
    requires TreeOk(tree, x) && KeyOk(k, x)
  {
    exists j :: j in tree && SameKey(j, k, x)
  }

  ghost predicate AmongKeys(keys: seq<Key>, k: Key, x: Index)
    requires (forall i :: 0 <= i < |keys| ==> KeyOk(keys[i], x)) && KeyOk(k, x)
  {
    exists i :: 0 <= i < |keys| && SameKey(keys[i], k, x)
  }

  function Removed(tree: set<Key>, k: Key, x: Index): (r: set<Key>)
    requires TreeOk(tree, x) && KeyOk(k, x)
    ensures TreeOk(r, x)
  {
    set j | j in tree && !SameKey(j, k, x)
  }

  /** Inserting replaces the key the comparator cannot tell from the new one. */
  function Inserted(tree: set<Key>, k: Key, x: Index): (r: set<Key>)
    requires TreeOk(tree, x) && KeyOk(k, x)
    ensures TreeOk(r, x)
  {
    Removed(tree, k, x) + {k}
  }

  lemma FoundAfterRemove(tree: set<Key>, k: Key, q: Key, x: Index)
    requires TreeOk(tree, x) && KeyOk(k, x) && KeyOk(q, x)
    ensures Found(Removed(tree, k, x), q, x) <==> Found(tree, q, x) && !SameKey(k, q, x)
  {
    hide KeyOk, Same;
    forall j | j in tree
      ensures SameKey(j, q, x) ==> (SameKey(j, k, x) <==> SameKey(k, q, x))
    {
      SameKeys(j, q, k, x);
    }
  }

  lemma SameKeys(a: Key, b: Key, c: Key, x: Index)
    requires KeyOk(a, x) && KeyOk(b, x) && KeyOk(c, x)
    ensures SameKey(a, a, x)
    ensures SameKey(a, b, x) <==> SameKey(b, a, x)
    ensures SameKey(a, b, x) ==> (SameKey(a, c, x) <==> SameKey(c, b, x))
  {
    hide Same, InDomain;
    SameIsEquivalence(a, b, c, Columns(x), x.lowScale);
    SameIsEquivalence(b, c, c, Columns(x), x.lowScale);
  }

  lemma FoundAfterInsert(tree: set<Key>, k: Key, q: Key, x: Index)
    requires TreeOk(tree, x) && KeyOk(k, x) && KeyOk(q, x)
    ensures Found(Inserted(tree, k, x), q, x) <==> Found(tree, q, x) || SameKey(k, q, x)
  {
    hide KeyOk, SameKey, Removed;
    FoundAfterRemove(tree, k, q, x);
    var r := Removed(tree, k, x);
    if SameKey(k, q, x) {
      assert k in r + {k};
    }
    if Found(r, q, x) {
      var j :| j in r && SameKey(j, q, x);
      assert j in r + {k};
    }
  }

  ghost predicate KeysOk(keys: seq<Key>, x: Index) {
    forall i :: 0 <= i < |keys| ==> KeyOk(keys[i], x)
  }

  function RemoveAll(tree: set<Key>, keys: seq<Key>, x: Index): (r: set<Key>)
    requires TreeOk(tree, x) && KeysOk(keys, x)
    ensures TreeOk(r, x)
    decreases |keys|
  {
    if keys == [] then tree else RemoveAll(Removed(tree, keys[0], x), keys[1..], x)
  }

  function InsertAll(tree: set<Key>, keys: seq<Key>, x: Index): (r: set<Key>)
    requires TreeOk(tree, x) && KeysOk(keys, x)
    ensures TreeOk(r, x)
    decreases |keys|
  {
    if keys == [] then tree else InsertAll(Inserted(tree, keys[0], x), keys[1..], x)
  }

  lemma AmongTail(keys: seq<Key>, q: Key, x: Index)
    requires keys != [] && KeysOk(keys, x) && KeyOk(q, x)
    ensures KeysOk(keys[1..], x)
    ensures AmongKeys(keys, q, x) <==> SameKey(keys[0], q, x) || AmongKeys(keys[1..], q, x)
  {
    hide KeyOk, SameKey;
    if AmongKeys(keys, q, x) {
      var i :| 0 <= i < |keys| && SameKey(keys[i], q, x);
      if i > 0 { assert SameKey(keys[1..][i - 1], q, x); }
    }
    if AmongKeys(keys[1..], q, x) {
      var i :| 0 <= i < |keys[1..]| && SameKey(keys[1..][i], q, x);
      assert SameKey(keys[i + 1], q, x);
    }
  }

  lemma {:induction false} FoundAfterRemoves(tree: set<Key>, keys: seq<Key>, q: Key, x: Index)
    requires TreeOk(tree, x) && KeysOk(keys, x) && KeyOk(q, x)
    ensures Found(RemoveAll(tree, keys, x), q, x) <==> Found(tree, q, x) && !AmongKeys(keys, q, x)
    decreases |keys|
  {
    hide KeyOk, SameKey, Removed, Found;
    if keys != [] {
      AmongTail(keys, q, x);
      FoundAfterRemove(tree, keys[0], q, x);
      FoundAfterRemoves(Removed(tree, keys[0], x), keys[1..], q, x);
    }
  }

  lemma {:induction false} FoundAfterInserts(tree: set<Key>, keys: seq<Key>, q: Key, x: Index)
    requires TreeOk(tree, x) && KeysOk(keys, x) && KeyOk(q, x)
    ensures Found(InsertAll(tree, keys, x), q, x) <==> Found(tree, q, x) || AmongKeys(keys, q, x)
    decreases |keys|
  {
    hide KeyOk, SameKey, Inserted, Found;
    if keys != [] {
      AmongTail(keys, q, x);
      FoundAfterInsert(tree, keys[0], q, x);
      FoundAfterInserts(Inserted(tree, keys[0], x), keys[1..], q, x);
    }
  }

  // ---- what a row contributes ----

  /** make_full_index_key. */
  function FullKey(e: IndexEntry, s: Key, x: Index): Key {
    Prefix(e, x) + s
  }

  function FullKeys(es: seq<IndexEntry>, s: Key, x: Index): (keys: seq<Key>)
    ensures |keys| == |es| && forall i :: 0 <= i < |es| ==> keys[i] == FullKey(es[i], s, x)
  {
    seq(|es|, i requires 0 <= i < |es| => FullKey(es[i], s, x))
  }

  /** A value the column can hold: null, or a collection of its shape, a set without equal members, a map without
      equal keys. */
  ghost predicate ColumnFits(v: Value, x: Index) {
    v.Null? || x.kind.OfBasic? ||
    match x.shape
    case OnList => v.Array?
    case OnSet => v.SetOf? && DistinctMembers(v.members)
    case OnMap =>
      v.MapOf? && DistinctKeys(v.entries) && forall i :: 0 <= i < |v.entries| ==> BesideFits(v.entries[i], x)
  }

  /** The half of a map entry that the index does not look at is a value of its kind, too. */
  predicate BesideFits(e: Entry, x: Index) {
    match x.kind
    case OfValues => Native(e.key, x.beside) && BasicFits(e.key)
    case OfKeys => Native(e.value, x.beside) && BasicFits(e.value)
    case _ => true
  }

  /** A column value whose entries have keys in the index, in a row named by `s`. */
  ghost predicate RowFits(v: Value, s: Key, x: Index) {
    && |s| == |x.row| && InDomain(s, x.row, x.lowScale) && ColumnFits(v, x)
    && EntriesFit(EntriesOf(v, x.kind), s, x)
  }

  ghost predicate EntriesFit(es: seq<IndexEntry>, s: Key, x: Index) {
    forall i :: 0 <= i < |es| ==> EntryFits(es[i], s, x)
  }

  ghost predicate EntryFits(e: IndexEntry, s: Key, x: Index) {
    && e.hasMapValue == x.shape.OnMap? && |Prefix(e, x)| == |x.value|
    && InDomain(Prefix(e, x), x.value, x.lowScale) && KeyOk(FullKey(e, s, x), x)
  }

  /** The entries of `es` without an equal one in `others`: the two inner loops of update_indexes. */
  function Without(es: seq<IndexEntry>, others: seq<IndexEntry>, kind: Kind): (r: seq<IndexEntry>)
    ensures forall e :: e in r <==> e in es && !HasEqual(e, others, kind)
  {
    if es == [] then []
    else (if HasEqual(es[0], others, kind) then [] else [es[0]]) + Without(es[1..], others, kind)
  }

  predicate HasEqual(e: IndexEntry, others: seq<IndexEntry>, kind: Kind) {
    exists i :: 0 <= i < |others| && EntryEqual(e, others[i], kind)
  }

  /** A basic column takes its old key out and puts its new one in; a collection does so for the entries that
      changed. */
  function ToRemove(was: Value, now: Value, x: Index): seq<IndexEntry> {
    if x.kind.OfBasic? then EntriesOf(was, x.kind) else Without(EntriesOf(was, x.kind), EntriesOf(now, x.kind), x.kind)
  }

  function ToAdd(was: Value, now: Value, x: Index): seq<IndexEntry> {
    if x.kind.OfBasic? then EntriesOf(now, x.kind) else Without(EntriesOf(now, x.kind), EntriesOf(was, x.kind), x.kind)
  }

  lemma DiffFits(was: Value, now: Value, s: Key, x: Index)
    requires RowFits(was, s, x) && RowFits(now, s, x)
    ensures EntriesFit(ToRemove(was, now, x), s, x) && EntriesFit(ToAdd(was, now, x), s, x)
    ensures KeysOk(FullKeys(ToRemove(was, now, x), s, x), x) && KeysOk(FullKeys(ToAdd(was, now, x), s, x), x)
  {
    hide EntryFits;
    FitsByMembership(ToRemove(was, now, x), EntriesOf(was, x.kind), s, x);
    FitsByMembership(ToAdd(was, now, x), EntriesOf(now, x.kind), s, x);
  }

  lemma FitsByMembership(es: seq<IndexEntry>, all: seq<IndexEntry>, s: Key, x: Index)
    requires EntriesFit(all, s, x) && forall e :: e in es ==> e in all
    ensures EntriesFit(es, s, x) && KeysOk(FullKeys(es, s, x), x)
  {
    forall i | 0 <= i < |es|
      ensures EntryFits(es[i], s, x)
    {
      assert es[i] in all;
    }
  }

  /** The tree after one row changed. */
  ghost function Updated(keys: set<Key>, was: Value, now: Value, s: Key, x: Index): (r: set<Key>)
    requires TreeOk(keys, x) && RowFits(was, s, x) && RowFits(now, s, x)
    ensures TreeOk(r, x)
  {
    DiffFits(was, now, s, x);
    InsertAll(RemoveAll(keys, FullKeys(ToRemove(was, now, x), s, x), x), FullKeys(ToAdd(was, now, x), s, x), x)
  }

  // ---- the steps on the tree ----

  class IndexTree {
    const index: Index
    var keys: set<Key>

    constructor (index: Index)
      ensures this.index == index && keys == {}
    {
      this.index := index;
      keys := {};
    }

    method Remove(k: Key)
      requires TreeOk(keys, index) && KeyOk(k, index)
      modifies this
      ensures keys == Removed(old(keys), k, index)
    {
      keys := Removed(keys, k, index);
    }

    method Insert(k: Key)
      requires TreeOk(keys, index) && KeyOk(k, index)
      modifies this
      ensures keys == Inserted(old(keys), k, index)
    {
      keys := Inserted(keys, k, index);
    }

    /** apply_index_entry_diff. */
    method ApplyDiff(removed: seq<IndexEntry>, added: seq<IndexEntry>, s: Key)
      requires TreeOk(keys, index)
      requires KeysOk(FullKeys(removed, s, index), index) && KeysOk(FullKeys(added, s, index), index)
      modifies this
      ensures keys == InsertAll(RemoveAll(old(keys), FullKeys(removed, s, index), index),
                                FullKeys(added, s, index), index)
    {
      hide KeyOk, Removed, Inserted, Prefix;
      ghost var gone, arriving := FullKeys(removed, s, index), FullKeys(added, s, index);
      assert gone[0..] == gone && arriving[0..] == arriving;
      for i := 0 to |removed|
        invariant TreeOk(keys, index) && KeysOk(gone[i..], index)
        invariant RemoveAll(keys, gone[i..], index) == RemoveAll(old(keys), gone, index)
      {
        assert gone[i..][1..] == gone[i + 1..];
        Remove(FullKey(removed[i], s, index));
      }
      ghost var between := keys;
      for i := 0 to |added|
        invariant TreeOk(keys, index) && KeysOk(arriving[i..], index)
        invariant InsertAll(keys, arriving[i..], index) == InsertAll(between, arriving, index)
      {
        assert arriving[i..][1..] == arriving[i + 1..];
        Insert(FullKey(added[i], s, index));
      }
    }

    /** update_indexes, for one index and one changed row. A null stands for a value that is absent, before the
        row was written or after it was deleted. */
    method Update(was: Value, now: Value, s: Key)
      requires TreeOk(keys, index) && RowFits(was, s, index) && RowFits(now, s, index)
      modifies this
      ensures keys == Updated(old(keys), was, now, s, index)
    {
      hide RowFits, RemoveAll, InsertAll;
      DiffFits(was, now, s, index);
      var kind := index.kind;
      if kind.OfBasic? {
        ApplyDiff(if was.Null? then [] else [IndexEntry(was, Null, false)],
                  if now.Null? then [] else [IndexEntry(now, Null, false)], s);
        return;
      }
      var oldEntries := if was.Null? then [] else Enumerate(was);
      var newEntries := if now.Null? then [] else Enumerate(now);
      var removed := Missing(oldEntries, newEntries, kind);
      var added := Missing(newEntries, oldEntries, kind);
      ApplyDiff(removed, added, s);
    }
  }

  /** The inner loop: is there an entry equal to `e`? */
  method Has(e: IndexEntry, others: seq<IndexEntry>, kind: Kind) returns (present: bool)
    ensures present == HasEqual(e, others, kind)
  {
    hide EntryEqual;
    present := false;
    for j := 0 to |others|
      invariant !present && forall m :: 0 <= m < j ==> !EntryEqual(e, others[m], kind)
    {
      if EntryEqual(e, others[j], kind) { return true; }
    }
  }

  /** The outer loop: the entries of `es` that no entry of `others` is equal to. */
  method Missing(es: seq<IndexEntry>, others: seq<IndexEntry>, kind: Kind) returns (r: seq<IndexEntry>)
    ensures r == Without(es, others, kind)
  {
    hide HasEqual;
    r := [];
    assert es[0..] == es && [] + Without(es, others, kind) == Without(es, others, kind);
    for i := 0 to |es|
      invariant r + Without(es[i..], others, kind) == Without(es, others, kind)
    {
      var present := Has(es[i], others, kind);
      WithoutStep(es, others, kind, i, r);
      if !present { r := r + [es[i]]; }
    }
    assert r + [] == r;
  }

  lemma WithoutStep(es: seq<IndexEntry>, others: seq<IndexEntry>, kind: Kind, i: nat, r: seq<IndexEntry>)
    requires i < |es|
    ensures r + Without(es[i..], others, kind)
         == (if HasEqual(es[i], others, kind) then r else r + [es[i]]) + Without(es[i + 1..], others, kind)
  {
    hide HasEqual;
    assert es[i..][0] == es[i] && es[i..][1..] == es[i + 1..];
    var rest := Without(es[i + 1..], others, kind);
    assert (r + [es[i]]) + rest == r + ([es[i]] + rest) && [] + rest == rest;
  }

  // ---- one row changes ----

  /** Enough for the old and the new entries of one row: equal ones have one key, and an old entry that shares the
      key of a new one that is not put in is not taken out. */
  ghost predicate Faithful(was: seq<IndexEntry>, now: seq<IndexEntry>, s: Key, x: Index)
    requires EntriesFit(was, s, x) && EntriesFit(now, s, x)
  {
    forall i, j :: 0 <= i < |was| && 0 <= j < |now| ==>
      && EntryFits(was[i], s, x) && EntryFits(now[j], s, x)
      && (EntryEqual(was[i], now[j], x.kind) || EntryEqual(now[j], was[i], x.kind) ==> OneKey(was[i], now[j], s, x))
      && (OneKey(was[i], now[j], s, x) && HasEqual(now[j], was, x.kind) ==> HasEqual(was[i], now, x.kind))
  }

  ghost predicate OneKey(a: IndexEntry, b: IndexEntry, s: Key, x: Index)
    requires EntryFits(a, s, x) && EntryFits(b, s, x)
  {
    Same(Prefix(a, x), Prefix(b, x), x.value, x.lowScale)
  }

  /** Two entries of one row have one key exactly when their value parts are one. */
  lemma OneRow(a: IndexEntry, b: IndexEntry, s: Key, x: Index)
    requires InDomain(s, x.row, x.lowScale) && EntryFits(a, s, x) && EntryFits(b, s, x)
    ensures SameKey(FullKey(a, s, x), FullKey(b, s, x), x) <==> OneKey(a, b, s, x)
  {
    hide InDomain, Same;
    SameSplits(Prefix(a, x), s, Prefix(b, x), s, x);
    SameIsEquivalence(s, s, s, x.row, x.lowScale);
  }
}
