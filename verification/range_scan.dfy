/** Scanning the rows of a range of partitions between clustering bounds, forward or backward. */
module RangeScan {

  import opened Wire
  import opened ColumnValues
  import opened ColumnOrder
  import opened Clustering
  import opened KeyBounds

  /** A partition: the keys of its clustering tree in order, and the page that holds its partition key and
      static columns; 0 if there is none. */
  datatype Partition = Partition(keys: seq<Key>, staticPage: nat)

  /** What a scan stands on: a row, or a partition shown for its static page alone. */
  datatype Item = Row(partition: nat, index: nat) | StaticRow(partition: nat)

  // ---- the sorted map behind a clustering tree ----

  datatype Strategy = FirstGreaterEqual | FirstGreater | LastLessEqual | LastLess

  /** How many leading keys are less than `p`, or not greater. */
  function Leading(ks: seq<Key>, p: Key, columns: seq<Column>, orEqual: bool): (n: nat)
    requires forall i :: 0 <= i < |ks| ==> KeysComparable(ks[i], p, columns)
    ensures n <= |ks|
  {
    if ks == [] then 0
    else
      var c := CompareKeys(ks[0], p, columns);
      if c < 0 || (orEqual && c == 0) then 1 + Leading(ks[1..], p, columns, orEqual) else 0
  }

  /** btree::find_it: the position of the key asked for; one behind the last key or one before the first if
      there is none. */
  function FindIt(ks: seq<Key>, p: Key, columns: seq<Column>, strategy: Strategy): int
    requires forall i :: 0 <= i < |ks| ==> KeysComparable(ks[i], p, columns)
  {
    match strategy
    case FirstGreaterEqual => Leading(ks, p, columns, false)
    case FirstGreater => Leading(ks, p, columns, true)
    case LastLessEqual => Leading(ks, p, columns, true) - 1
    case LastLess => Leading(ks, p, columns, false) - 1
  }

  /** The number of keys before the bounds, and the number of keys not past them. */
  function Low(ks: seq<Key>, b: Bounds, columns: seq<Column>): (n: nat)
    requires forall i :: 0 <= i < |ks| ==> BoundsFor(b, ks[i], columns)
    ensures n <= |ks|
  {
    if ks == [] || !BeforeBegin(b, ks[0], columns) then 0 else 1 + Low(ks[1..], b, columns)
  }

  function High(ks: seq<Key>, b: Bounds, columns: seq<Column>): (n: nat)
    requires forall i :: 0 <= i < |ks| ==> BoundsFor(b, ks[i], columns)
    ensures n <= |ks|
  {
    if ks == [] || PastEnd(b, ks[0], columns) then 0 else 1 + High(ks[1..], b, columns)
  }

  /** In a tree these two numbers say everything about the bounds. */
  ghost predicate Splits(ks: seq<Key>, b: Bounds, columns: seq<Column>, low: nat, high: nat)
    requires BoundsForTree(b, ks, columns)
  {
    && low <= |ks| && high <= |ks|
    && forall i :: 0 <= i < |ks| ==>
         (BeforeBegin(b, ks[i], columns) <==> i < low) && (PastEnd(b, ks[i], columns) <==> high <= i)
  }

  lemma {:induction false} LowAt(ks: seq<Key>, b: Bounds, columns: seq<Column>)
    requires BoundsForTree(b, ks, columns)
    ensures forall i :: 0 <= i < Low(ks, b, columns) ==> BeforeBegin(b, ks[i], columns)
    ensures Low(ks, b, columns) < |ks| ==> !BeforeBegin(b, ks[Low(ks, b, columns)], columns)
  {
    hide BeforeBegin;
    if ks != [] && BeforeBegin(b, ks[0], columns) {
      LowAt(ks[1..], b, columns);
      forall i | 0 < i < Low(ks, b, columns)
        ensures BeforeBegin(b, ks[i], columns)
      {
        assert ks[i] == ks[1..][i - 1];
      }
    }
  }

  lemma {:induction false} HighAt(ks: seq<Key>, b: Bounds, columns: seq<Column>)
    requires BoundsForTree(b, ks, columns)
    ensures forall i :: 0 <= i < High(ks, b, columns) ==> !PastEnd(b, ks[i], columns)
    ensures High(ks, b, columns) < |ks| ==> PastEnd(b, ks[High(ks, b, columns)], columns)
  {
    hide PastEnd;
    if ks != [] && !PastEnd(b, ks[0], columns) {
      HighAt(ks[1..], b, columns);
      forall i | 0 < i < High(ks, b, columns)
        ensures !PastEnd(b, ks[i], columns)
      {
        assert ks[i] == ks[1..][i - 1];
      }
    }
  }

  lemma TreeSplits(ks: seq<Key>, b: Bounds, columns: seq<Column>)
    requires IsTree(ks, columns) && BoundsForTree(b, ks, columns)
    ensures Splits(ks, b, columns, Low(ks, b, columns), High(ks, b, columns))
  {
    hide BeforeBegin, PastEnd;
    LowAt(ks, b, columns);
    HighAt(ks, b, columns);
    var low, high := Low(ks, b, columns), High(ks, b, columns);
    forall i | 0 <= i < |ks|
      ensures (BeforeBegin(b, ks[i], columns) <==> i < low) && (PastEnd(b, ks[i], columns) <==> high <= i)
    {
      if low <= i { BoundsAreMonotone(b, ks, columns, low, i); }
      if high <= i { BoundsAreMonotone(b, ks, columns, high, i); }
    }
  }

  /** The strategies setup picks find the ends of the bounds. */
  lemma {:induction false} FindsLow(ks: seq<Key>, b: Bounds, columns: seq<Column>)
    requires BoundsForTree(b, ks, columns) && b.hasBegin
    ensures forall i :: 0 <= i < |ks| ==> KeysComparable(ks[i], b.begin, columns)
    ensures FindIt(ks, b.begin, columns, if b.beginInclusive then FirstGreaterEqual else FirstGreater)
        == Low(ks, b, columns)
  {
    hide CompareKeys;
    if ks != [] { FindsLow(ks[1..], b, columns); }
  }

  lemma {:induction false} FindsHigh(ks: seq<Key>, b: Bounds, columns: seq<Column>)
    requires BoundsForTree(b, ks, columns) && b.hasEnd
    ensures forall i :: 0 <= i < |ks| ==> KeysComparable(ks[i], b.end, columns)
    ensures FindIt(ks, b.end, columns, if b.endInclusive then FirstGreater else FirstGreaterEqual)
        == High(ks, b, columns)
    ensures FindIt(ks, b.end, columns, if b.endInclusive then LastLessEqual else LastLess) == High(ks, b, columns) - 1
  {
    hide CompareKeys;
    if ks != [] { FindsHigh(ks[1..], b, columns); }
  }

  // ---- the rows of one partition ----

  function Up(from: nat, to: nat): (s: seq<nat>)
    ensures from > to ==> s == []
    ensures from <= to ==> |s| == to - from && forall i :: 0 <= i < |s| ==> s[i] == from + i
  {
    if from >= to then [] else seq(to - from, i requires 0 <= i => from + i)
  }

  function Down(from: nat, to: nat): (s: seq<nat>)
    ensures from > to ==> s == []
    ensures from <= to ==> |s| == to - from && forall i :: 0 <= i < |s| ==> s[i] == to - 1 - i
  {
    if from >= to then [] else seq(to - from, i requires 0 <= i < to - from => to - 1 - i)
  }

  datatype Scan = Scan(columns: seq<Column>, bounds: Bounds, reverse: bool)

  /** A stored partition: it has a static page (PartitionTree.Valid), and its rows form a tree to which the bounds
      apply. */
  ghost predicate Scannable(scan: Scan, p: Partition) {
    p.staticPage != 0 && IsTree(p.keys, scan.columns) && BoundsForTree(scan.bounds, p.keys, scan.columns)
  }

  /** A full end bound is found by position; a partial one is looked at row by row. */
  predicate EndByPosition(scan: Scan) {
    !scan.reverse && scan.bounds.hasEnd && !scan.bounds.endIsPartial
  }

  /** Where the scan of a partition starts, and the position that ends it. One behind the last row is the
      end, one before the first is its mirror image. */
  function StartOf(scan: Scan, p: Partition): int
    requires forall i :: 0 <= i < |p.keys| ==> BoundsFor(scan.bounds, p.keys[i], scan.columns)
  {
    var low, high := Low(p.keys, scan.bounds, scan.columns), High(p.keys, scan.bounds, scan.columns);
    if scan.reverse then (if low < high then high - 1 else -1) else low
  }

  function EndOf(scan: Scan, p: Partition): int
    requires forall i :: 0 <= i < |p.keys| ==> BoundsFor(scan.bounds, p.keys[i], scan.columns)
  {
    if scan.reverse then -1
    else if EndByPosition(scan) then High(p.keys, scan.bounds, scan.columns)
    else |p.keys|
  }

  /** The position after `at`. */
  function NextOf(scan: Scan, p: Partition, at: int): int
    requires forall i :: 0 <= i < |p.keys| ==> BoundsFor(scan.bounds, p.keys[i], scan.columns)
    requires 0 <= at < |p.keys|
  {
    if scan.reverse then
      if at > 0 && BeforeBegin(scan.bounds, p.keys[at - 1], scan.columns) then -1 else at - 1
    else if scan.bounds.hasEnd && scan.bounds.endIsPartial && at + 1 != EndOf(scan, p)
            && PastEnd(scan.bounds, p.keys[at + 1], scan.columns) then |p.keys|
    else at + 1
  }

  predicate HasStart(scan: Scan, p: Partition)
    requires forall i :: 0 <= i < |p.keys| ==> BoundsFor(scan.bounds, p.keys[i], scan.columns)
  {
    StartOf(scan, p) != EndOf(scan, p)
  }

  ghost predicate Ready(parts: seq<Partition>, scan: Scan) {
    forall i :: 0 <= i < |parts| ==> Scannable(scan, parts[i])
  }

  // ---- the iterator ----

  class RowIterator {
    const partitions: seq<Partition>
    const scan: Scan
    var partition: nat
    var at: int
    var endAt: int
    var staticOnly: bool

    ghost predicate Valid()
      reads this
    {
      && Ready(partitions, scan) && partition <= |partitions|
      && (partition < |partitions| ==> endAt == EndOf(scan, partitions[partition]))
    }

    /** Set up on the current partition. */
    ghost predicate AtStart()
      requires Valid()
      reads this
    {
      partition < |partitions| ==>
        && at == StartOf(scan, partitions[partition])
        && staticOnly == (at == endAt && partitions[partition].staticPage != 0)
    }

    constructor (partitions: seq<Partition>, scan: Scan, first: nat)
      requires Ready(partitions, scan) && first <= |partitions|
      ensures Valid() && AtStart() && this.partitions == partitions && this.scan == scan && partition == first
    {
      this.partitions := partitions;
      this.scan := scan;
      partition := first;
      at, endAt, staticOnly := 0, 0, false;
      new;
      if first < |partitions| { Setup(); }
    }

    /** setup_clustering_for_partition. */
    method Setup()
      requires Ready(partitions, scan) && partition < |partitions|
      modifies this`at, this`endAt, this`staticOnly
      ensures Valid() && AtStart()
    {
      if scan.reverse { SetupReverse(); } else { SetupForward(); }
      staticOnly := at == endAt && partitions[partition].staticPage != 0;
    }

    /** The last key the end bound admits, by position for a full bound and by walking back for a partial one;
        none if that key already lies before the begin bound. */
    method SetupReverse()
      requires Ready(partitions, scan) && partition < |partitions| && scan.reverse
      modifies this`at, this`endAt
      ensures at == StartOf(scan, partitions[partition]) && endAt == EndOf(scan, partitions[partition])
    {
      hide BeforeBegin, PastEnd, Low, High, FindIt, KeysComparable;
      var keys, b := partitions[partition].keys, scan.bounds;
      TreeSplits(keys, b, scan.columns);
      NoBoundNoSplit(keys, b, scan.columns);
      if b.hasEnd && !b.endIsPartial {
        FindsHigh(keys, b, scan.columns);
        if b.endInclusive {
          at := FindIt(keys, b.end, scan.columns, LastLessEqual);
        } else {
          at := FindIt(keys, b.end, scan.columns, LastLess);
        }
      } else {
        at := |keys| - 1;
      }
      endAt := -1;
      if b.hasEnd && b.endIsPartial {
        while at != endAt
          invariant endAt == -1 && High(keys, b, scan.columns) - 1 <= at < |keys|
          decreases at
        {
          if !PastEnd(b, keys[at], scan.columns) { break; }
          at := at - 1;
        }
      }
      if at != endAt && b.hasBegin && BeforeBegin(b, keys[at], scan.columns) {
        at := -1;
      }
    }

    /** The first key behind the begin bound, by position. */
    method SetupForward()
      requires Ready(partitions, scan) && partition < |partitions| && !scan.reverse
      modifies this`at, this`endAt
      ensures at == StartOf(scan, partitions[partition]) && endAt == EndOf(scan, partitions[partition])
    {
      hide BeforeBegin, PastEnd, Low, High, EncodeKey, FindIt, KeysComparable;
      var keys, b := partitions[partition].keys, scan.bounds;
      TreeSplits(keys, b, scan.columns);
      NoBoundNoSplit(keys, b, scan.columns);
      if b.hasBegin {
        FindsLow(keys, b, scan.columns);
        if b.beginInclusive {
          at := FindIt(keys, b.begin, scan.columns, FirstGreaterEqual);
        } else {
          at := FindIt(keys, b.begin, scan.columns, FirstGreater);
        }
        if b.beginIsPartial && !b.beginInclusive { SkipExtensions(); }
      } else {
        at := 0;
      }
      if b.hasEnd && !b.endIsPartial {
        FindsHigh(keys, b, scan.columns);
        if b.endInclusive {
          endAt := FindIt(keys, b.end, scan.columns, FirstGreater);
        } else {
          endAt := FindIt(keys, b.end, scan.columns, FirstGreaterEqual);
        }
      } else {
        endAt := |keys|;
      }
    }

    /** Keys that extend an exclusive bound byte by byte compare equal to it, so the search has passed them
        and this loop over them finds none. */
    method SkipExtensions()
      requires Ready(partitions, scan) && partition < |partitions|
      requires scan.bounds.hasBegin && !scan.bounds.beginInclusive
      requires var keys := partitions[partition].keys;
               0 <= at <= |keys| && (at < |keys| ==> !BeforeBegin(scan.bounds, keys[at], scan.columns))
      modifies this`at
      ensures at == old(at)
    {
      hide BeforeBegin, Low, High, EncodeKey;
      var keys, prefix := partitions[partition].keys, EncodeKey(scan.bounds.begin);
      ghost var first := at;
      while at != |keys| && prefix <= EncodeKey(keys[at])
        invariant first <= at <= |keys| && (at > first ==> prefix <= EncodeKey(keys[first]))
        decreases |keys| - at
      {
        at := at + 1;
      }
      if at > first {
        ByteExtensionIsBefore(scan.bounds, keys[first], scan.columns);
      }
    }

    /** Not standing on a row or a static-only partition: reading or advancing from here aborts. */
    predicate Dangling()
      requires partition < |partitions|
      reads this
    {
      !staticOnly && !(0 <= at < |partitions[partition].keys|)
    }

    /** RowIterator::advance. Behind a static-only partition the next one is set up and taken as it is; behind
        the last row of a partition comes the loop over empty ones, which PassEmpty shows to find none. */
    method Advance(stop: nat)
      requires Valid() && partition < stop <= |partitions| && !Dangling()
      modifies this
      ensures Valid()
      ensures old(staticOnly) ==> partition == old(partition) + 1 && AtStart()
      ensures !old(staticOnly) ==>
                var p := partitions[old(partition)];
                var next := NextOf(scan, p, old(at));
                if next != old(endAt)
                then partition == old(partition) && at == next && endAt == old(endAt) && !staticOnly
                else partition == old(partition) + 1 && AtStart()
    {
      hide Low, High, StartOf, EndOf, BeforeBegin, PastEnd;
      if staticOnly {
        staticOnly := false;
        partition := partition + 1;
        if partition != |partitions| { Setup(); }
        return;
      }
      Step();
      if at == endAt {
        partition := partition + 1;
        if partition != |partitions| { Setup(); }
        PassEmpty(stop);
      }
    }

    /** The step inside a partition: backward, the begin bound is looked at; forward, a partial end bound. */
    method Step()
      requires Valid() && partition < |partitions| && !Dangling() && !staticOnly
      modifies this`at
      ensures at == NextOf(scan, partitions[partition], old(at))
    {
      hide Low, High, PastEnd;
      var keys, b := partitions[partition].keys, scan.bounds;
      if scan.reverse {
        at := at - 1;
        if b.hasBegin && at != endAt && BeforeBegin(b, keys[at], scan.columns) { at := -1; }
      } else {
        at := at + 1;
        if b.hasEnd && b.endIsPartial && at != endAt && PastEnd(b, keys[at], scan.columns) { at := |keys|; }
      }
    }

    /** advance_past_empty_ck_partitions, and what remains of the loop at the end of advance. Every partition has a
        static page to be shown for, so neither passes over anything. */
    method PassEmpty(stop: nat)
      requires Valid() && AtStart() && partition <= stop <= |partitions|
      modifies this
      ensures Valid() && AtStart() && partition == old(partition)
    {
      hide Low, High, StartOf, EndOf, Scannable;
      ghost var first := partition;
      while partition != |partitions| && partition != stop && !staticOnly && at == endAt
        invariant Valid() && AtStart() && first <= partition <= stop
        invariant partition > first ==> partitions[first].staticPage == 0
        decreases stop - partition
      {
        partition := partition + 1;
        if partition != |partitions| { Setup(); }
      }
      if partition > first { HasStaticPage(partitions, scan, first); }
    }

    /** The caller's loop over a range of partitions. `ok` is false if it reaches a position that is no row. */
    method Collect(stop: nat) returns (items: seq<Item>, ok: bool)
      requires Valid() && AtStart() && partition <= stop <= |partitions|
      modifies this
      ensures (items, ok) == Fresh(partitions, scan, old(partition), stop)
    {
      hide Low, High, StartOf, EndOf, NextOf;
      PassEmpty(stop);
      items := [];
      PrependNothing(Fresh(partitions, scan, partition, stop));
      ghost var all := Fresh(partitions, scan, partition, stop);
      while partition != stop
        invariant Valid() && partition <= stop && (partition < stop && staticOnly ==> AtStart())
        invariant all == Prepend(items, From(partitions, scan, partition, at, staticOnly, stop))
        decreases stop - partition,
                  if partition < |partitions| then Left(scan, partitions[partition], at, staticOnly) else 0
      {
        if Dangling() {
          assert items + [] == items;
          return items, false;
        }
        var item := if staticOnly then StaticRow(partition) else Row(partition, at);
        if !staticOnly { NextAdvances(scan, partitions[partition], at); }
        Advance(stop);
        if partition == stop || AtStart() { FreshFrom(partitions, scan, partition, at, staticOnly, stop); }
        PrependTwice(items, item, From(partitions, scan, partition, at, staticOnly, stop));
        items := items + [item];
      }
      ok := true;
      assert items + [] == items;
    }
  }

  lemma FreshFrom(parts: seq<Partition>, scan: Scan, p: nat, at: int, staticOnly: bool, stop: nat)
    requires Ready(parts, scan) && p <= stop <= |parts|
    requires p < stop ==> at == StartOf(scan, parts[p]) && (staticOnly <==> !HasStart(scan, parts[p]))
    ensures Fresh(parts, scan, p, stop) == From(parts, scan, p, at, staticOnly, stop)
  {
  }

  lemma HasStaticPage(parts: seq<Partition>, scan: Scan, p: nat)
    requires Ready(parts, scan) && p < |parts|
    ensures parts[p].staticPage != 0
  {
  }

  lemma PrependNothing(r: (seq<Item>, bool))
    ensures Prepend([], r) == r
  {
    assert [] + r.0 == r.0;
  }

  lemma PrependTwice(items: seq<Item>, item: Item, r: (seq<Item>, bool))
    ensures Prepend(items, Prepend([item], r)) == Prepend(items + [item], r)
  {
    assert items + ([item] + r.0) == (items + [item]) + r.0;
  }

  lemma NextAdvances(scan: Scan, p: Partition, at: int)
    requires Scannable(scan, p) && 0 <= at < |p.keys|
    ensures Left(scan, p, NextOf(scan, p, at), false) < Left(scan, p, at, false)
  {
    hide Low, High;
  }

  lemma NoBoundNoSplit(ks: seq<Key>, b: Bounds, columns: seq<Column>)
    requires IsTree(ks, columns) && BoundsForTree(b, ks, columns)
    ensures !b.hasBegin ==> Low(ks, b, columns) == 0
    ensures !b.hasEnd ==> High(ks, b, columns) == |ks|
  {
    TreeSplits(ks, b, columns);
  }

  lemma ByteExtensionIsBefore(b: Bounds, k: Key, columns: seq<Column>)
    requires BoundsFor(b, k, columns) && b.hasBegin && !b.beginInclusive && EncodeKey(b.begin) <= EncodeKey(k)
    ensures BeforeBegin(b, k, columns)
  {
    EncodeKeyInjective(b.begin, k, columns);
    PrefixIsEqual(b.begin, k, columns);
  }

  // ---- what a whole scan gives ----

  ghost function Prepend(items: seq<Item>, rest: (seq<Item>, bool)): (seq<Item>, bool) {
    (items + rest.0, rest.1)
  }

  /** How many steps a partition can still take. */
  ghost function Left(scan: Scan, p: Partition, at: int, staticOnly: bool): nat {
    if staticOnly || !(0 <= at < |p.keys|) then 0
    else if scan.reverse then at + 1 else |p.keys| - at
  }

  /** The items from a position on, and whether the scan gets to its end. */
  ghost function Rest(parts: seq<Partition>, scan: Scan, p: nat, at: int, staticOnly: bool, stop: nat)
      : (r: (seq<Item>, bool))
    requires Ready(parts, scan) && p < stop <= |parts|
    decreases stop - p, Left(scan, parts[p], at, staticOnly), 0
  {
    if staticOnly then Prepend([StaticRow(p)], Fresh(parts, scan, p + 1, stop))
    else if !(0 <= at < |parts[p].keys|) then ([], false)
    else
      var next := NextOf(scan, parts[p], at);
      Prepend([Row(p, at)],
        if next != EndOf(scan, parts[p]) then Rest(parts, scan, p, next, false, stop)
        else Fresh(parts, scan, p + 1, stop))
  }

  /** The items from here on; none are left at `stop`. */
  ghost function From(parts: seq<Partition>, scan: Scan, p: nat, at: int, staticOnly: bool, stop: nat)
      : (seq<Item>, bool)
    requires Ready(parts, scan) && p <= stop <= |parts|
  {
    if p == stop then ([], true) else Rest(parts, scan, p, at, staticOnly, stop)
  }

  ghost function Fresh(parts: seq<Partition>, scan: Scan, p: nat, stop: nat): (r: (seq<Item>, bool))
    requires Ready(parts, scan) && p <= stop <= |parts|
    decreases stop - p, if p < |parts| then |parts[p].keys| + 1 else 0, 1
  {
    if p == stop then ([], true)
    else Rest(parts, scan, p, StartOf(scan, parts[p]), !HasStart(scan, parts[p]), stop)
  }
}
