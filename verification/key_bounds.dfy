/** The bounds the planner derives from clustering relations. */
module KeyBounds {

  import opened ColumnOrder
  import opened Clustering

  datatype Operator = Lt | Le | Gt | Ge | OtherOperator

  /** A bound that is absent has its flag cleared. A partial bound has fewer components than the table has
      clustering columns. */
  datatype Bounds = Bounds(
    begin: Key, hasBegin: bool, beginInclusive: bool, beginIsPartial: bool,
    end: Key, hasEnd: bool, endInclusive: bool, endIsPartial: bool)

  const UNBOUNDED: Bounds := Bounds([], false, true, false, [], false, true, false)

  function Mirror(op: Operator): Operator {
    match op
    case Lt => Gt
    case Le => Ge
    case Gt => Lt
    case Ge => Le
    case OtherOperator => OtherOperator
  }

  /** apply_range_bound: a relation on a descending column bounds the tree from the other side. A relation on
      a side that already has a bound takes its place. */
  function ApplyRangeBound(b: Bounds, op: Operator, descending: bool, bytes: Key, partial: bool): Bounds {
    match if descending then Mirror(op) else op
    case Lt => b.(end := bytes, hasEnd := true, endInclusive := false, endIsPartial := partial)
    case Le => b.(end := bytes, hasEnd := true, endInclusive := true, endIsPartial := partial)
    case Gt => b.(begin := bytes, hasBegin := true, beginInclusive := false, beginIsPartial := partial)
    case Ge => b.(begin := bytes, hasBegin := true, beginInclusive := true, beginIsPartial := partial)
    case OtherOperator => b
  }

  /** Equality on the leading columns of a key that has more: one prefix on both sides. */
  function PrefixBounds(prefix: Key): Bounds {
    Bounds(prefix, true, true, true, prefix, true, true, true)
  }

  predicate BoundsFor(b: Bounds, k: Key, columns: seq<Column>) {
    (b.hasBegin ==> KeysComparable(k, b.begin, columns)) && (b.hasEnd ==> KeysComparable(k, b.end, columns))
  }

  predicate BeforeBegin(b: Bounds, k: Key, columns: seq<Column>)
    requires BoundsFor(b, k, columns)
  {
    b.hasBegin && (var c := CompareKeys(k, b.begin, columns);
                   if b.beginInclusive then c < 0 else c <= 0)
  }

  predicate PastEnd(b: Bounds, k: Key, columns: seq<Column>)
    requires BoundsFor(b, k, columns)
  {
    b.hasEnd && (var c := CompareKeys(k, b.end, columns);
                 if b.endInclusive then c > 0 else c >= 0)
  }

  predicate Admits(b: Bounds, k: Key, columns: seq<Column>)
    requires BoundsFor(b, k, columns)
  {
    !BeforeBegin(b, k, columns) && !PastEnd(b, k, columns)
  }

  // ---- what a relation means, whatever the columns' directions ----

  predicate Holds(op: Operator, c: int) {
    match op
    case Lt => c < 0
    case Le => c <= 0
    case Gt => c > 0
    case Ge => c >= 0
    case OtherOperator => true
  }

  function Ascending(columns: seq<Column>): (r: seq<Column>)
    ensures |r| == |columns| && forall i :: 0 <= i < |r| ==> r[i] == Column(columns[i].kind, false)
  {
    seq(|columns|, i requires 0 <= i < |columns| => Column(columns[i].kind, false))
  }

  lemma {:induction false} SameDirection(k: Key, vs: Key, columns: seq<Column>, descending: bool)
    requires KeysComparable(k, vs, columns)
    requires forall i :: 0 <= i < |vs| ==> columns[i].descending == descending
    ensures KeysComparable(k, vs, Ascending(columns))
    ensures CompareKeys(k, vs, columns)
         == if descending then -CompareKeys(k, vs, Ascending(columns)) else CompareKeys(k, vs, Ascending(columns))
  {
    hide Compare, Comparable;
    if k != [] && vs != [] {
      SameDirection(k[1..], vs[1..], columns[1..], descending);
      assert Ascending(columns)[1..] == Ascending(columns[1..]);
    }
  }

  /** The planner gives a range only columns that share one direction. The new bounds then admit exactly the
      keys whose leading components stand in the relation, among those the bound on the other side admits, and the
      side that was set is marked partial as it was given. */
  lemma RangeBoundAdmits(b: Bounds, op: Operator, vs: Key, partial: bool, k: Key, columns: seq<Column>)
    requires 0 < |vs| <= |columns| && BoundsFor(b, k, columns) && KeysComparable(k, vs, columns)
    requires forall i :: 0 <= i < |vs| ==> columns[i].descending == columns[0].descending
    ensures KeysComparable(k, vs, Ascending(columns))
    ensures BoundsFor(ApplyRangeBound(b, op, columns[0].descending, vs, partial), k, columns)
    ensures Admits(ApplyRangeBound(b, op, columns[0].descending, vs, partial), k, columns)
        <==> && Holds(op, CompareKeys(k, vs, Ascending(columns)))
             && (if op.OtherOperator? then Admits(b, k, columns)
                 else if (op.Lt? || op.Le?) == columns[0].descending then !PastEnd(b, k, columns)
                 else !BeforeBegin(b, k, columns))
    ensures !op.OtherOperator? ==>
              var r := ApplyRangeBound(b, op, columns[0].descending, vs, partial);
              if (op.Lt? || op.Le?) == columns[0].descending
              then r.hasBegin && r.beginIsPartial == partial && r.hasEnd == b.hasEnd && r.endIsPartial == b.endIsPartial
              else r.hasEnd && r.endIsPartial == partial && r.hasBegin == b.hasBegin
                   && r.beginIsPartial == b.beginIsPartial
  {
    SameDirection(k, vs, columns, columns[0].descending);
  }

  /** A key equals a prefix exactly when all its leading components compare equal to it. */
  lemma {:induction false} AllEqual(p: Key, k: Key, columns: seq<Column>)
    requires |p| <= |k| && KeysComparable(k, p, columns)
    ensures CompareKeys(k, p, columns) == 0 <==> forall i :: 0 <= i < |p| ==> Compare(k[i], p[i], columns[i].kind) == 0
  {
    hide Compare;
    if p != [] {
      AllEqual(p[1..], k[1..], columns[1..]);
      assert (forall i :: 0 <= i < |p| ==> Compare(k[i], p[i], columns[i].kind) == 0)
        <==> Compare(k[0], p[0], columns[0].kind) == 0
             && forall i :: 0 <= i < |p| - 1 ==> Compare(k[1..][i], p[1..][i], columns[1..][i].kind) == 0 by {
        forall i | 1 <= i < |p|
          ensures k[i] == k[1..][i - 1] && p[i] == p[1..][i - 1] && columns[i] == columns[1..][i - 1]
        {
        }
      }
    }
  }

  /** Equality on a prefix admits exactly those keys. */
  lemma PrefixBoundsAdmit(p: Key, k: Key, columns: seq<Column>)
    requires |p| <= |k| && KeysComparable(k, p, columns)
    ensures BoundsFor(PrefixBounds(p), k, columns) && PrefixBounds(p).beginIsPartial && PrefixBounds(p).endIsPartial
    ensures Admits(PrefixBounds(p), k, columns)
        <==> forall i :: 0 <= i < |p| ==> Compare(k[i], p[i], columns[i].kind) == 0
  {
    AllEqual(p, k, columns);
  }

  // ---- bounds on a tree ----

  ghost predicate BoundsForTree(b: Bounds, ks: seq<Key>, columns: seq<Column>) {
    forall i :: 0 <= i < |ks| ==> BoundsFor(b, ks[i], columns)
  }

  /** Only keys at the front of the tree lie before the bounds and only keys at its back lie past them. */
  lemma BoundsAreMonotone(b: Bounds, ks: seq<Key>, columns: seq<Column>, i: nat, j: nat)
    requires IsTree(ks, columns) && BoundsForTree(b, ks, columns) && i <= j < |ks|
    ensures BeforeBegin(b, ks[j], columns) ==> BeforeBegin(b, ks[i], columns)
    ensures PastEnd(b, ks[i], columns) ==> PastEnd(b, ks[j], columns)
  {
    hide CompareKeys;
    if i < j {
      if b.hasBegin { CompareMonotone(ks[i], ks[j], b.begin, columns); }
      if b.hasEnd { CompareMonotone(ks[i], ks[j], b.end, columns); }
    }
  }

  /** Bounds in order: the planner's begin does not lie behind its end, and they meet only if one includes
      the meeting point. */
  predicate InOrder(b: Bounds, columns: seq<Column>)
    requires b.hasBegin && b.hasEnd ==> KeysComparable(b.begin, b.end, columns)
  {
    b.hasBegin && b.hasEnd ==>
      var c := CompareKeys(b.begin, b.end, columns);
      c < 0 || (c == 0 && (b.beginInclusive || b.endInclusive))
  }

  /** No key lies outside bounds in order on both sides. */
  lemma InOrderLeavesNoGap(b: Bounds, k: Key, columns: seq<Column>)
    requires BoundsFor(b, k, columns) && |k| == |columns|
    requires b.hasBegin && b.hasEnd ==> KeysComparable(b.begin, b.end, columns) && |b.begin| == |b.end| == |columns|
    requires InOrder(b, columns)
    ensures !(BeforeBegin(b, k, columns) && PastEnd(b, k, columns))
  {
    hide CompareKeys;
    if b.hasBegin && b.hasEnd {
      CompareMonotone(k, b.begin, b.end, columns);
      CompareFlips(k, b.begin, columns);
      CompareFlips(k, b.end, columns);
      CompareFlips(b.begin, b.end, columns);
      CompareMonotone(b.end, k, b.begin, columns);
      CompareMonotone(b.begin, b.end, k, columns);
      CompareMonotone(b.begin, k, b.end, columns);
    }
  }
}
