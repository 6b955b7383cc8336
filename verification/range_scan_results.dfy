/** What a scan shows, against the rows the bounds admit. */
module RangeScanResults {

  import opened DecimalCompare
  import opened ColumnValues
  import opened ColumnOrder
  import opened Clustering
  import opened KeyBounds
  import opened RangeScan

  // ---- the rows of one partition ----

  /** A forward scan under a partial end bound does not look at its first row, so it shows one row past the
      bounds when no row lies within them. */
  predicate LeadsAstray(scan: Scan, p: Partition)
    requires forall i :: 0 <= i < |p.keys| ==> BoundsFor(scan.bounds, p.keys[i], scan.columns)
  {
    var low, high := Low(p.keys, scan.bounds, scan.columns), High(p.keys, scan.bounds, scan.columns);
    !scan.reverse && scan.bounds.hasEnd && scan.bounds.endIsPartial && high <= low < |p.keys|
  }

  /** The end found by position lies before the start: rows lie outside the bounds on both sides. */
  predicate Inverted(scan: Scan, p: Partition)
    requires forall i :: 0 <= i < |p.keys| ==> BoundsFor(scan.bounds, p.keys[i], scan.columns)
  {
    EndByPosition(scan) && High(p.keys, scan.bounds, scan.columns) < Low(p.keys, scan.bounds, scan.columns)
  }

  function RowsShown(scan: Scan, p: Partition): seq<nat>
    requires forall i :: 0 <= i < |p.keys| ==> BoundsFor(scan.bounds, p.keys[i], scan.columns)
  {
    var low, high := Low(p.keys, scan.bounds, scan.columns), High(p.keys, scan.bounds, scan.columns);
    if LeadsAstray(scan, p) then [low]
    else if scan.reverse then Down(low, high)
    else Up(low, high)
  }

  /** All rows in the direction of the scan. */
  function AllRows(scan: Scan, p: Partition): seq<nat> {
    if scan.reverse then Down(0, |p.keys|) else Up(0, |p.keys|)
  }

  function Filter(s: seq<nat>, keep: nat -> bool): seq<nat> {
    if s == [] then [] else (if keep(s[0]) then [s[0]] else []) + Filter(s[1..], keep)
  }

  lemma {:induction false} FilterAppend(s: seq<nat>, t: seq<nat>, keep: nat -> bool)
    ensures Filter(s + t, keep) == Filter(s, keep) + Filter(t, keep)
  {
    if s == [] {
      assert s + t == t;
    } else {
      FilterAppend(s[1..], t, keep);
      assert (s + t)[0] == s[0] && (s + t)[1..] == s[1..] + t;
      var first := if keep(s[0]) then [s[0]] else [];
      assert first + (Filter(s[1..], keep) + Filter(t, keep)) == (first + Filter(s[1..], keep)) + Filter(t, keep);
    }
  }

  lemma {:induction false} FilterNone(s: seq<nat>, keep: nat -> bool)
    requires forall i :: 0 <= i < |s| ==> !keep(s[i])
    ensures Filter(s, keep) == []
  {
    if s != [] { FilterNone(s[1..], keep); }
  }

  lemma {:induction false} FilterAll(s: seq<nat>, keep: nat -> bool)
    requires forall i :: 0 <= i < |s| ==> keep(s[i])
    ensures Filter(s, keep) == s
  {
    if s != [] { FilterAll(s[1..], keep); }
  }

  /** A filter that keeps nothing outside an interval needs to see the interval only. */
  lemma FilterInterval(n: nat, low: nat, high: nat, keep: nat -> bool)
    requires low <= n && high <= n && forall i :: 0 <= i < n && keep(i) ==> low <= i < high
    ensures Filter(Up(0, n), keep) == Filter(Up(low, high), keep)
    ensures Filter(Down(0, n), keep) == Filter(Down(low, high), keep)
  {
    if low <= high {
      assert Up(0, n) == Up(0, low) + (Up(low, high) + Up(high, n));
      assert Down(0, n) == Down(high, n) + (Down(low, high) + Down(0, low));
      FilterAppend(Up(0, low), Up(low, high) + Up(high, n), keep);
      FilterAppend(Up(low, high), Up(high, n), keep);
      FilterAppend(Down(high, n), Down(low, high) + Down(0, low), keep);
      FilterAppend(Down(low, high), Down(0, low), keep);
      FilterNone(Up(0, low), keep);
      FilterNone(Up(high, n), keep);
      FilterNone(Down(0, low), keep);
      FilterNone(Down(high, n), keep);
    } else {
      FilterNone(Up(0, n), keep);
      FilterNone(Down(0, n), keep);
    }
  }

  ghost function AdmitsRow(scan: Scan, p: Partition): (keep: nat -> bool)
    requires BoundsForTree(scan.bounds, p.keys, scan.columns)
    ensures forall i: nat :: keep(i) <==> i < |p.keys| && Admits(scan.bounds, p.keys[i], scan.columns)
  {
    (i: nat) => i < |p.keys| && Admits(scan.bounds, p.keys[i], scan.columns)
  }

  /** A scan shows exactly the rows the bounds admit, each once, in its direction; except that a forward scan
      under a partial end bound shows one row past the bounds when they admit none and a row lies behind the
      begin bound. */
  lemma ShownRowsAreAdmitted(scan: Scan, p: Partition)
    requires Scannable(scan, p)
    ensures !LeadsAstray(scan, p) ==> RowsShown(scan, p) == Filter(AllRows(scan, p), AdmitsRow(scan, p))
    ensures LeadsAstray(scan, p) ==>
              && Filter(AllRows(scan, p), AdmitsRow(scan, p)) == []
              && |RowsShown(scan, p)| == 1
              && PastEnd(scan.bounds, p.keys[RowsShown(scan, p)[0]], scan.columns)
  {
    hide BeforeBegin, PastEnd, Low, High, Filter;
    var low, high := Low(p.keys, scan.bounds, scan.columns), High(p.keys, scan.bounds, scan.columns);
    TreeSplits(p.keys, scan.bounds, scan.columns);
    var keep := AdmitsRow(scan, p);
    FilterInterval(|p.keys|, low, high, keep);
    FilterAll(Up(low, high), keep);
    FilterAll(Down(low, high), keep);
  }

  /** So filtering what was scanned equals filtering every row, for every filter that implies the bounds. */
  lemma ScanThenFilter(scan: Scan, p: Partition, keep: nat -> bool)
    requires Scannable(scan, p)
    requires forall i :: 0 <= i < |p.keys| && keep(i) ==> Admits(scan.bounds, p.keys[i], scan.columns)
    ensures Filter(RowsShown(scan, p), keep) == Filter(AllRows(scan, p), keep)
  {
    hide BeforeBegin, PastEnd, Low, High, Filter;
    var low, high := Low(p.keys, scan.bounds, scan.columns), High(p.keys, scan.bounds, scan.columns);
    TreeSplits(p.keys, scan.bounds, scan.columns);
    FilterInterval(|p.keys|, low, high, keep);
    if LeadsAstray(scan, p) {
      FilterNone([low], keep);
      FilterNone(Up(low, high), keep);
    }
  }

  // ---- the steps inside a partition ----

  function RowItems(p: nat, rows: seq<nat>): seq<Item> {
    seq(|rows|, i requires 0 <= i < |rows| => Row(p, rows[i]))
  }

  ghost function Behind(parts: seq<Partition>, scan: Scan, p: nat, stop: nat): (seq<Item>, bool)
    requires Ready(parts, scan) && p < stop <= |parts|
  {
    Fresh(parts, scan, p + 1, stop)
  }

  lemma FirstRow(p: nat, row: nat, rows: seq<nat>, r: (seq<Item>, bool))
    ensures Prepend([Row(p, row)], Prepend(RowItems(p, rows), r)) == Prepend(RowItems(p, [row] + rows), r)
  {
    assert RowItems(p, [row] + rows) == [Row(p, row)] + RowItems(p, rows);
    assert [Row(p, row)] + (RowItems(p, rows) + r.0) == RowItems(p, [row] + rows) + r.0;
  }

  lemma NoRows(p: nat, r: (seq<Item>, bool))
    ensures Prepend(RowItems(p, []), r) == r
  {
    assert RowItems(p, []) + r.0 == r.0;
  }

  /** Forward steps from an admitted row walk up to the end bound. */
  lemma {:induction false} WalkUp(parts: seq<Partition>, scan: Scan, p: nat, at: nat, stop: nat)
    requires Ready(parts, scan) && p < stop <= |parts| && !scan.reverse
    requires var part := parts[p];
             Low(part.keys, scan.bounds, scan.columns) <= at < High(part.keys, scan.bounds, scan.columns)
    ensures Rest(parts, scan, p, at, false, stop)
         == Prepend(RowItems(p, Up(at, High(parts[p].keys, scan.bounds, scan.columns))), Behind(parts, scan, p, stop))
    decreases |parts[p].keys| - at
  {
    hide BeforeBegin, PastEnd, Low, High, RowItems, Prepend, Fresh;
    var part := parts[p];
    var high := High(part.keys, scan.bounds, scan.columns);
    TreeSplits(part.keys, scan.bounds, scan.columns);
    NoBoundNoSplit(part.keys, scan.bounds, scan.columns);
    FirstRow(p, at, Up(at + 1, high), Behind(parts, scan, p, stop));
    assert Up(at, high) == [at] + Up(at + 1, high);
    if at + 1 < high {
      WalkUp(parts, scan, p, at + 1, stop);
    } else {
      NoRows(p, Behind(parts, scan, p, stop));
    }
  }

  /** Backward steps from an admitted row walk down to the begin bound. */
  lemma {:induction false} WalkDown(parts: seq<Partition>, scan: Scan, p: nat, at: nat, stop: nat)
    requires Ready(parts, scan) && p < stop <= |parts| && scan.reverse
    requires var part := parts[p];
             Low(part.keys, scan.bounds, scan.columns) <= at < High(part.keys, scan.bounds, scan.columns)
    ensures Rest(parts, scan, p, at, false, stop)
         == Prepend(RowItems(p, Down(Low(parts[p].keys, scan.bounds, scan.columns), at + 1)),
                    Behind(parts, scan, p, stop))
    decreases at
  {
    hide BeforeBegin, PastEnd, Low, High, RowItems, Prepend, Fresh;
    var part := parts[p];
    var low := Low(part.keys, scan.bounds, scan.columns);
    TreeSplits(part.keys, scan.bounds, scan.columns);
    FirstRow(p, at, Down(low, at), Behind(parts, scan, p, stop));
    assert Down(low, at + 1) == [at] + Down(low, at);
    if low < at {
      WalkDown(parts, scan, p, at - 1, stop);
    } else {
      NoRows(p, Behind(parts, scan, p, stop));
    }
  }

  /** One row past a partial end bound. */
  lemma WalkAstray(parts: seq<Partition>, scan: Scan, p: nat, stop: nat)
    requires Ready(parts, scan) && p < stop <= |parts| && LeadsAstray(scan, parts[p])
    ensures Rest(parts, scan, p, Low(parts[p].keys, scan.bounds, scan.columns), false, stop)
         == Prepend(RowItems(p, RowsShown(scan, parts[p])), Behind(parts, scan, p, stop))
  {
    hide BeforeBegin, PastEnd, Low, High, RowItems, Prepend, Fresh;
    var part := parts[p];
    var low := Low(part.keys, scan.bounds, scan.columns);
    TreeSplits(part.keys, scan.bounds, scan.columns);
    FirstRow(p, low, [], Behind(parts, scan, p, stop));
    NoRows(p, Behind(parts, scan, p, stop));
    assert [low] + [] == [low];
  }

  /** A partition with a start shows its rows, unless its end lies before its start. */
  lemma WalkPartition(parts: seq<Partition>, scan: Scan, p: nat, stop: nat)
    requires Ready(parts, scan) && p < stop <= |parts|
    requires HasStart(scan, parts[p]) && !Inverted(scan, parts[p])
    ensures Rest(parts, scan, p, StartOf(scan, parts[p]), false, stop)
         == Prepend(RowItems(p, RowsShown(scan, parts[p])), Behind(parts, scan, p, stop))
    ensures RowsShown(scan, parts[p]) != []
  {
    hide BeforeBegin, PastEnd, Low, High, RowItems, Prepend, Fresh, Rest, Behind;
    var part := parts[p];
    NoBoundNoSplit(part.keys, scan.bounds, scan.columns);
    if scan.reverse {
      WalkDown(parts, scan, p, StartOf(scan, part), stop);
    } else if LeadsAstray(scan, part) {
      WalkAstray(parts, scan, p, stop);
    } else {
      WalkUp(parts, scan, p, StartOf(scan, part), stop);
    }
  }

  /** Past an end found by position nothing stops the walk: it runs off the tree. */
  lemma {:induction false} WalkAway(parts: seq<Partition>, scan: Scan, p: nat, at: int, stop: nat)
    requires Ready(parts, scan) && p < stop <= |parts| && EndByPosition(scan)
    requires High(parts[p].keys, scan.bounds, scan.columns) <= at
    ensures !Rest(parts, scan, p, at, false, stop).1
    decreases |parts[p].keys| - at
  {
    hide BeforeBegin, PastEnd, Low, High, Fresh;
    if at < |parts[p].keys| {
      WalkAway(parts, scan, p, at + 1, stop);
    }
  }

  // ---- whole scans ----

  /** What a partition contributes. */
  function Shown(scan: Scan, part: Partition, p: nat): seq<Item>
    requires forall i :: 0 <= i < |part.keys| ==> BoundsFor(scan.bounds, part.keys[i], scan.columns)
  {
    if !HasStart(scan, part) then [StaticRow(p)] else RowItems(p, RowsShown(scan, part))
  }

  ghost function AllShown(parts: seq<Partition>, scan: Scan, p: nat, stop: nat): seq<Item>
    requires Ready(parts, scan) && p <= stop <= |parts|
    decreases stop - p
  {
    if p == stop then [] else Shown(scan, parts[p], p) + AllShown(parts, scan, p + 1, stop)
  }

  /** Nothing to stand on: no position to start from and no static page. */
  predicate Nothing(scan: Scan, p: Partition)
    requires forall i :: 0 <= i < |p.keys| ==> BoundsFor(scan.bounds, p.keys[i], scan.columns)
  {
    !HasStart(scan, p) && p.staticPage == 0
  }

  /** A partition shown for its static page alone, directly followed by one with nothing to show, is what advance
      would not get past: it takes the partition behind a static-only one as it is. */
  ghost predicate Gap(parts: seq<Partition>, scan: Scan, i: nat, stop: nat)
    requires Ready(parts, scan) && i < stop <= |parts|
  {
    !HasStart(scan, parts[i]) && parts[i].staticPage != 0 && i + 1 < stop && Nothing(scan, parts[i + 1])
  }

  /** It does not occur, whatever the bounds: every stored partition is shown for its static page at least. */
  lemma NoGap(parts: seq<Partition>, scan: Scan, i: nat, stop: nat)
    requires Ready(parts, scan) && i < stop <= |parts|
    ensures !Gap(parts, scan, i, stop) && !Nothing(scan, parts[i])
    ensures Inverted(scan, parts[i]) || Shown(scan, parts[i], i) != []
  {
    hide Low, High, RowsShown, Inverted;
    if HasStart(scan, parts[i]) && !Inverted(scan, parts[i]) {
      WalkPartition(parts, scan, i, stop);
    }
  }

  ghost predicate Clean(parts: seq<Partition>, scan: Scan, p: nat, stop: nat)
    requires Ready(parts, scan) && p <= stop <= |parts|
  {
    forall i :: p <= i < stop ==> !Inverted(scan, parts[i])
  }

  lemma CleanStep(parts: seq<Partition>, scan: Scan, p: nat, stop: nat)
    requires Ready(parts, scan) && p < stop <= |parts|
    ensures Clean(parts, scan, p, stop) <==> !Inverted(scan, parts[p]) && Clean(parts, scan, p + 1, stop)
  {
    hide Inverted;
  }

  /** A scan over a range of partitions reaches its end exactly when no partition's end lies before its start; it
      then shows every partition's share, in order. */
  lemma {:induction false} ScanShowsAll(parts: seq<Partition>, scan: Scan, p: nat, stop: nat)
    requires Ready(parts, scan) && p <= stop <= |parts|
    ensures var r := Fresh(parts, scan, p, stop);
            && (r.1 <==> Clean(parts, scan, p, stop))
            && (r.1 ==> r.0 == AllShown(parts, scan, p, stop))
    decreases stop - p
  {
    hide Low, High, RowsShown, Clean, StartOf, EndOf, NextOf, Inverted;
    if p < stop {
      CleanStep(parts, scan, p, stop);
      ScanShowsAll(parts, scan, p + 1, stop);
      if !HasStart(scan, parts[p]) {
        NoStartNotInverted(scan, parts[p]);
      } else if Inverted(scan, parts[p]) {
        InvertedWalksAway(parts, scan, p, stop);
      } else {
        WalkPartition(parts, scan, p, stop);
      }
    } else {
      assert Clean(parts, scan, stop, stop) by { EmptyIsClean(parts, scan, stop); }
    }
  }

  lemma EmptyIsClean(parts: seq<Partition>, scan: Scan, stop: nat)
    requires Ready(parts, scan) && stop <= |parts|
    ensures Clean(parts, scan, stop, stop)
  {
  }

  lemma NoStartNotInverted(scan: Scan, part: Partition)
    requires Scannable(scan, part) && !HasStart(scan, part)
    ensures !Inverted(scan, part)
  {
    hide Low, High;
  }

  lemma InvertedWalksAway(parts: seq<Partition>, scan: Scan, p: nat, stop: nat)
    requires Ready(parts, scan) && p < stop <= |parts| && Inverted(scan, parts[p])
    ensures !Fresh(parts, scan, p, stop).1
  {
    hide Low, High, Rest;
    WalkAway(parts, scan, p, StartOf(scan, parts[p]), stop);
  }

  /** Bounds in order are never inverted. */
  lemma InOrderIsNotInverted(scan: Scan, part: Partition)
    requires Scannable(scan, part)
    requires scan.bounds.hasBegin && scan.bounds.hasEnd ==>
               && KeysComparable(scan.bounds.begin, scan.bounds.end, scan.columns)
               && |scan.bounds.begin| == |scan.bounds.end| == |scan.columns|
    requires InOrder(scan.bounds, scan.columns)
    ensures !Inverted(scan, part)
  {
    hide BeforeBegin, PastEnd, Low, High, CompareKeys;
    TreeSplits(part.keys, scan.bounds, scan.columns);
    if Inverted(scan, part) {
      InOrderLeavesNoGap(scan.bounds, part.keys[High(part.keys, scan.bounds, scan.columns)], scan.columns);
    }
  }

  /** Without bounds every partition shows all its rows, or its static page if it has no rows. */
  lemma UnboundedShowsEverything(scan: Scan, part: Partition, p: nat)
    requires Scannable(scan, part) && scan.bounds == UNBOUNDED
    ensures Shown(scan, part, p)
         == if part.keys == [] then [StaticRow(p)] else RowItems(p, AllRows(scan, part))
  {
    hide Low, High;
    NoBoundNoSplit(part.keys, scan.bounds, scan.columns);
  }

  // ---- the way to run off the tree does occur ----

  /** One int column, one row 4, and the range above 5 and below 3. */
  lemma InvertedRunsAway(parts: seq<Partition>, scan: Scan)
    requires scan == Scan([Column(IntKind, false)],
                          ApplyRangeBound(ApplyRangeBound(UNBOUNDED, Gt, false, [Int(5)], false),
                                          Lt, false, [Int(3)], false), false)
    requires parts == [Partition([[Int(4)]], 1)]
    ensures Ready(parts, scan) && !Fresh(parts, scan, 0, 1).1
  {
    OneRow(scan, 4, 1);
    assert Inverted(scan, parts[0]);
    ScanShowsAll(parts, scan, 0, 1);
  }

  lemma OneRow(scan: Scan, n: int, staticPage: nat)
    requires staticPage != 0 && 0 <= n < 100 && scan.columns == [Column(IntKind, false)] && !scan.reverse
    requires scan.bounds.hasBegin ==> scan.bounds.begin == [Int(5)]
    requires scan.bounds.hasEnd ==> scan.bounds.end == [Int(3)]
    ensures Scannable(scan, Partition([[Int(n)]], staticPage))
    ensures var ks := [[Int(n)]];
            && Low(ks, scan.bounds, scan.columns) == (if BeforeBegin(scan.bounds, ks[0], scan.columns) then 1 else 0)
            && High(ks, scan.bounds, scan.columns) == (if PastEnd(scan.bounds, ks[0], scan.columns) then 0 else 1)
    ensures scan.bounds.hasBegin ==> CompareKeys([Int(n)], [Int(5)], scan.columns) == Sign(n - 5)
    ensures scan.bounds.hasEnd ==> CompareKeys([Int(n)], [Int(3)], scan.columns) == Sign(n - 3)
  {
    var ks := [[Int(n)]];
    assert IsKey(ks[0], scan.columns);
    if scan.bounds.hasBegin { OneColumn(n, 5, scan.columns); }
    if scan.bounds.hasEnd { OneColumn(n, 3, scan.columns); }
    assert ks[1..] == [];
  }

  lemma OneColumn(n: S32, m: S32, columns: seq<Column>)
    requires columns == [Column(IntKind, false)]
    ensures KeysComparable([Int(n)], [Int(m)], columns)
        && CompareKeys([Int(n)], [Int(m)], columns) == Sign(n as int - m as int)
  {
  }
}
