/** Clustering keys: their bytes, their comparator, and the bounds a range relation puts on them. */
module Clustering {

  import opened Wire
  import opened DecimalCompare
  import opened ColumnValues
  import opened ColumnOrder

  /** ClusteringColumnSpec. */
  datatype Column = Column(kind: Basic, descending: bool)

  /** The decoded components of a key; a prefix of a key has fewer components than there are columns. */
  type Key = seq<Value>

  // ---- bytes ----

  function EncodeKey(k: Key): Bytes {
    if k == [] then [] else EncodeBasic(k[0]) + EncodeKey(k[1..])
  }

  /** A key, or the prefix of one, of the table. */
  predicate IsKey(k: Key, columns: seq<Column>) {
    |k| <= |columns| && forall i :: 0 <= i < |k| ==> IsComponent(k[i], columns[i])
  }

  predicate IsComponent(v: Value, column: Column) {
    Native(v, column.kind) && BasicFits(v) && column.kind != DurationKind
  }

  /** The components of `k` from the i-th on are what is left of `b` at `pos`. */
  ghost predicate Remaining(b: Bytes, pos: nat, k: Key, i: nat) {
    i <= |k| && At(b, pos, EncodeKey(k[i..])) && pos + |EncodeKey(k[i..])| == |b|
  }

  lemma AllRemains(k: Key)
    ensures Remaining(EncodeKey(k), 0, k, 0)
  {
    assert k[0..] == k && EncodeKey(k)[0..|EncodeKey(k)|] == EncodeKey(k);
  }

  /** The component that stands at `pos`, if there is one left. */
  lemma NextComponent(b: Bytes, pos: nat, k: Key, columns: seq<Column>, i: nat)
    requires IsKey(k, columns) && Remaining(b, pos, k, i)
    ensures pos < |b| <==> i < |k|
    ensures i < |k| ==>
              var r := DecodeBasic(b, pos, columns[i].kind);
              r.Done? && r.value == k[i] && Remaining(b, r.next, k, i + 1)
  {
    if i < |k| {
      assert k[i..][0] == k[i] && k[i..][1..] == k[i + 1..];
      EncodeBasicNonEmpty(k[i]);
      AtParts(b, pos, EncodeBasic(k[i]), EncodeKey(k[i + 1..]));
      DecodeNative(b, pos, k[i], columns[i].kind);
    }
  }

  /** decode_clustering: components until the columns or the bytes run out. */
  method DecodeClustering(b: Bytes, columns: seq<Column>, ghost k: Key) returns (out: Key)
    requires IsKey(k, columns) && b == EncodeKey(k)
    ensures out == k
  {
    hide EncodeKey, DecodeBasic, Remaining;
    out := [];
    var pos: nat := 0;
    var i := 0;
    AllRemains(k);
    NextComponent(b, pos, k, columns, i);
    while i < |columns| && pos < |b|
      invariant i <= |k| && out == k[..i] && Remaining(b, pos, k, i)
      invariant pos < |b| <==> i < |k|
    {
      NextComponent(b, pos, k, columns, i);
      var v := DecodeBasic(b, pos, columns[i].kind);
      out := out + [v.value];
      pos := v.next;
      i := i + 1;
      NextComponent(b, pos, k, columns, i);
    }
  }

  /** Encoded keys are equal only for equal components. */
  lemma EncodeKeyInjective(j: Key, k: Key, columns: seq<Column>)
    requires IsKey(j, columns) && IsKey(k, columns) && EncodeKey(j) <= EncodeKey(k)
    ensures j <= k
  {
    hide EncodeKey, EncodeBasic;
    if j != [] {
      PrefixStep(j, k, columns);
      EncodeKeyInjective(j[1..], k[1..], columns[1..]);
      assert j == [j[0]] + j[1..] && k == [k[0]] + k[1..];
    }
  }

  lemma PrefixStep(j: Key, k: Key, columns: seq<Column>)
    requires j != [] && IsKey(j, columns) && IsKey(k, columns) && EncodeKey(j) <= EncodeKey(k)
    ensures k != [] && j[0] == k[0] && EncodeKey(j[1..]) <= EncodeKey(k[1..])
  {
    hide EncodeBasic, DecodeBasic;
    var a, b, n := EncodeKey(j), EncodeKey(k), |EncodeBasic(j[0])|;
    EncodeBasicNonEmpty(j[0]);
    assert a[..n] == EncodeBasic(j[0]) && a[n..] == EncodeKey(j[1..]);
    assert At(b, 0, EncodeBasic(j[0]));
    DecodeNative(b, 0, j[0], columns[0].kind);
    AllRemains(k);
    NextComponent(b, 0, k, columns, 0);
    assert j[0] == k[0];
    assert b[..n] == EncodeBasic(k[0]) && b[n..] == EncodeKey(k[1..]);
  }

  // ---- the comparator ----

  predicate KeysComparable(a: Key, b: Key, columns: seq<Column>) {
    && IsKey(a, columns) && IsKey(b, columns)
    && forall i :: 0 <= i < |a| && i < |b| ==> Comparable(a[i], b[i], columns[i].kind)
  }

  function CompareColumn(a: Value, b: Value, column: Column): int
    requires Comparable(a, b, column.kind)
  {
    if column.descending then -Compare(a, b, column.kind) else Compare(a, b, column.kind)
  }

  /** The first component that differs decides; a key that runs out is equal to all that extend it. */
  function CompareKeys(a: Key, b: Key, columns: seq<Column>): (r: int)
    requires KeysComparable(a, b, columns)
    ensures -1 <= r <= 1
  {
    if a == [] || b == [] then 0
    else
      var c := CompareColumn(a[0], b[0], columns[0]);
      if c < 0 then -1 else if c > 0 then 1 else CompareKeys(a[1..], b[1..], columns[1..])
  }

  /** One round of the comparator's loop. */
  lemma CompareStep(a: Key, b: Key, columns: seq<Column>, i: nat)
    requires KeysComparable(a, b, columns) && i < |a| && i < |b|
    requires CompareKeys(a, b, columns) == CompareFrom(a, b, columns, i)
    ensures var c := CompareColumn(a[i], b[i], columns[i]);
            CompareKeys(a, b, columns) == if c < 0 then -1 else if c > 0 then 1 else CompareFrom(a, b, columns, i + 1)
  {
    assert a[i..][1..] == a[i + 1..] && b[i..][1..] == b[i + 1..] && columns[i..][1..] == columns[i + 1..];
  }

  ghost function CompareFrom(a: Key, b: Key, columns: seq<Column>, i: nat): int
    requires KeysComparable(a, b, columns) && i <= |a| && i <= |b|
  {
    CompareKeys(a[i..], b[i..], columns[i..])
  }

  /** ClusteringKeyComparator on the bytes of two keys. */
  method CompareClustering(a: Bytes, b: Bytes, columns: seq<Column>, ghost j: Key, ghost k: Key) returns (r: int)
    requires KeysComparable(j, k, columns) && a == EncodeKey(j) && b == EncodeKey(k)
    ensures r == CompareKeys(j, k, columns)
  {
    hide EncodeKey, DecodeBasic, Remaining, Compare;
    var posA: nat, posB: nat := 0, 0;
    assert j[0..] == j && k[0..] == k && columns[0..] == columns;
    AllRemains(j);
    AllRemains(k);
    for i := 0 to |columns|
      invariant i <= |j| && i <= |k| && Remaining(a, posA, j, i) && Remaining(b, posB, k, i)
      invariant CompareKeys(j, k, columns) == CompareFrom(j, k, columns, i)
    {
      NextComponent(a, posA, j, columns, i);
      NextComponent(b, posB, k, columns, i);
      if posA >= |a| || posB >= |b| {
        break;
      }
      CompareStep(j, k, columns, i);
      var va, vb := DecodeBasic(a, posA, columns[i].kind), DecodeBasic(b, posB, columns[i].kind);
      posA, posB := va.next, vb.next;
      var cmp := Compare(va.value, vb.value, columns[i].kind);
      if columns[i].descending { cmp := -cmp; }
      if cmp < 0 { return -1; }
      if cmp > 0 { return 1; }
    }
    r := 0;
  }

  // ---- the order of keys ----

  /** In component `i`, which all before it leave open, `a` stands before `b` in the direction of the column. */
  ghost predicate FirstBefore(a: Key, b: Key, columns: seq<Column>, i: nat)
    requires KeysComparable(a, b, columns)
  {
    && i < |a| && i < |b|
    && (forall j :: 0 <= j < i ==> Compare(a[j], b[j], columns[j].kind) == 0)
    && (if columns[i].descending then Compare(b[i], a[i], columns[i].kind) < 0
        else Compare(a[i], b[i], columns[i].kind) < 0)
  }

  /** Keys are in lexicographic order, in which a descending column counts backwards. */
  lemma {:induction false} FirstDifferenceDecides(a: Key, b: Key, columns: seq<Column>)
    requires KeysComparable(a, b, columns)
    ensures KeysComparable(b, a, columns)
    ensures CompareKeys(a, b, columns) == -1 <==> exists i: nat :: FirstBefore(a, b, columns, i)
    ensures CompareKeys(a, b, columns) == 1 <==> exists i: nat :: FirstBefore(b, a, columns, i)
  {
    CompareFlips(a, b, columns);
    BeforeMeans(a, b, columns);
    BeforeMeans(b, a, columns);
  }

  lemma {:induction false} BeforeMeans(a: Key, b: Key, columns: seq<Column>)
    requires KeysComparable(a, b, columns)
    ensures CompareKeys(a, b, columns) == -1 <==> exists i: nat :: FirstBefore(a, b, columns, i)
  {
    hide Compare, Comparable, IsComponent;
    if a != [] && b != [] {
      var c := CompareColumn(a[0], b[0], columns[0]);
      ComparableBothWays(a[0], b[0], columns[0].kind);
      ColumnFacts(a[0], b[0], b[0], columns[0]);
      assert c < 0 <==> FirstBefore(a, b, columns, 0);
      BeforeMeans(a[1..], b[1..], columns[1..]);
      if i: nat :| FirstBefore(a, b, columns, i) && i > 0 {
        BeforeFromSecond(a, b, columns, i - 1);
      }
      if i: nat :| c == 0 && FirstBefore(a[1..], b[1..], columns[1..], i) {
        BeforeFromSecond(a, b, columns, i);
        assert FirstBefore(a, b, columns, i + 1);
      }
    }
  }

  lemma BeforeFromSecond(a: Key, b: Key, columns: seq<Column>, i: nat)
    requires KeysComparable(a, b, columns) && a != [] && b != []
    ensures FirstBefore(a, b, columns, i + 1)
       <==> Compare(a[0], b[0], columns[0].kind) == 0 && FirstBefore(a[1..], b[1..], columns[1..], i)
  {
    hide Compare, Comparable, IsComponent;
    assert forall j :: 0 < j < |a| ==> a[j] == a[1..][j - 1];
    assert forall j :: 0 < j < |b| ==> b[j] == b[1..][j - 1];
    assert forall j :: 0 < j < |columns| ==> columns[j] == columns[1..][j - 1];
    if FirstBefore(a[1..], b[1..], columns[1..], i) && Compare(a[0], b[0], columns[0].kind) == 0 {
      forall j | 0 <= j < i + 1
        ensures Compare(a[j], b[j], columns[j].kind) == 0
      {
        assert j > 0 ==> Compare(a[1..][j - 1], b[1..][j - 1], columns[1..][j - 1].kind) == 0;
      }
    }
    if FirstBefore(a, b, columns, i + 1) {
      forall j | 0 <= j < i
        ensures Compare(a[1..][j], b[1..][j], columns[1..][j].kind) == 0
      {
        assert Compare(a[j + 1], b[j + 1], columns[j + 1].kind) == 0;
      }
    }
  }

  lemma ComparableBothWays(a: Value, b: Value, kind: Basic)
    requires Comparable(a, b, kind)
    ensures Comparable(b, a, kind) && Comparable(a, a, kind) && Comparable(b, b, kind)
  {
    hide Native;
  }

  lemma ColumnFacts(a: Value, b: Value, p: Value, column: Column)
    requires Comparable(a, b, column.kind) && Comparable(a, p, column.kind) && Comparable(b, p, column.kind)
    ensures CompareColumn(a, b, column) == -CompareColumn(b, a, column)
    ensures CompareColumn(a, b, column) == 0 ==> CompareColumn(a, p, column) == CompareColumn(b, p, column)
    ensures CompareColumn(a, b, column) < 0 && CompareColumn(a, p, column) >= 0 ==> CompareColumn(b, p, column) > 0
  {
    hide Compare, Comparable;
    ComparableBothWays(a, b, column.kind);
    ComparableBothWays(a, p, column.kind);
    ComparableBothWays(b, p, column.kind);
    ColumnPreorder(a, b, p, column.kind);
    ColumnPreorder(b, a, p, column.kind);
    ColumnPreorder(p, a, b, column.kind);
    ColumnPreorder(b, p, a, column.kind);
    ColumnPreorder(a, p, b, column.kind);
    ColumnPreorder(p, b, a, column.kind);
  }

  lemma {:induction false} CompareFlips(a: Key, b: Key, columns: seq<Column>)
    requires KeysComparable(a, b, columns)
    ensures KeysComparable(b, a, columns) && CompareKeys(a, b, columns) == -CompareKeys(b, a, columns)
  {
    hide Compare;
    if a != [] && b != [] {
      assert Comparable(a[0], b[0], columns[0].kind);
      ColumnFacts(a[0], b[0], b[0], columns[0]);
      CompareFlips(a[1..], b[1..], columns[1..]);
    }
  }

  lemma {:induction false} PrefixIsEqual(p: Key, k: Key, columns: seq<Column>)
    requires KeysComparable(k, p, columns) && p <= k
    ensures CompareKeys(k, p, columns) == 0
  {
    hide Compare;
    if p != [] {
      ColumnFacts(k[0], p[0], p[0], columns[0]);
      PrefixIsEqual(p[1..], k[1..], columns[1..]);
    }
  }

  /** Growing a whole key never moves it down against a bound, be the bound a whole key or a prefix. With
      CompareFlips and PrefixIsEqual this makes the comparator a total preorder on whole keys. */
  lemma {:induction false} CompareMonotone(a: Key, b: Key, p: Key, columns: seq<Column>)
    requires KeysComparable(a, b, columns) && KeysComparable(a, p, columns) && KeysComparable(b, p, columns)
    requires |p| <= |a| == |b|
    ensures CompareKeys(a, b, columns) <= 0 ==> CompareKeys(a, p, columns) <= CompareKeys(b, p, columns)
    ensures CompareKeys(a, b, columns) == 0 ==> CompareKeys(a, p, columns) == CompareKeys(b, p, columns)
  {
    hide Compare;
    if p != [] {
      ColumnFacts(a[0], b[0], p[0], columns[0]);
      CompareMonotone(a[1..], b[1..], p[1..], columns[1..]);
    }
  }

  /** Transitivity on whole keys, in columns of any mixed directions. */
  lemma KeyOrderTransitive(a: Key, b: Key, c: Key, columns: seq<Column>)
    requires KeysComparable(a, b, columns) && KeysComparable(b, c, columns) && KeysComparable(a, c, columns)
    requires |a| == |b| == |c|
    ensures CompareKeys(a, b, columns) <= 0 && CompareKeys(b, c, columns) <= 0 ==> CompareKeys(a, c, columns) <= 0
    ensures CompareKeys(a, b, columns) < 0 && CompareKeys(b, c, columns) <= 0 ==> CompareKeys(a, c, columns) < 0
  {
    hide Compare;
    CompareMonotone(a, b, c, columns);
    CompareFlips(a, c, columns);
    CompareFlips(b, c, columns);
    CompareFlips(a, b, columns);
    CompareMonotone(c, a, b, columns);
    CompareMonotone(b, c, a, columns);
  }

  // ---- sorted trees ----

  /** The keys of one partition's tree, in iteration order. */
  ghost predicate IsTree(ks: seq<Key>, columns: seq<Column>) {
    && (forall i :: 0 <= i < |ks| ==> |ks[i]| == |columns|)
    && forall i, j :: 0 <= i <= j < |ks| ==>
         KeysComparable(ks[i], ks[j], columns) && (i < j ==> CompareKeys(ks[i], ks[j], columns) < 0)
  }

  /** A bound the comparator can hold against every key of the tree. */
  ghost predicate IsBound(p: Key, ks: seq<Key>, columns: seq<Column>) {
    forall i :: 0 <= i < |ks| ==> KeysComparable(ks[i], p, columns)
  }

  lemma BoundMonotone(ks: seq<Key>, p: Key, columns: seq<Column>, i: nat, j: nat)
    requires IsTree(ks, columns) && IsBound(p, ks, columns) && i <= j < |ks|
    ensures CompareKeys(ks[i], p, columns) <= CompareKeys(ks[j], p, columns)
  {
    hide CompareKeys;
    if i < j {
      CompareMonotone(ks[i], ks[j], p, columns);
    }
  }

  /** The keys equal to a prefix form one run: what lies between two of them is one of them. */
  lemma EqualKeysAreContiguous(ks: seq<Key>, p: Key, columns: seq<Column>, i: nat, j: nat, m: nat)
    requires IsTree(ks, columns) && IsBound(p, ks, columns) && i <= m <= j < |ks|
    requires CompareKeys(ks[i], p, columns) == 0 && CompareKeys(ks[j], p, columns) == 0
    ensures CompareKeys(ks[m], p, columns) == 0
  {
    hide CompareKeys;
    BoundMonotone(ks, p, columns, i, m);
    BoundMonotone(ks, p, columns, m, j);
  }
}
