/** The partition tree of a table with clustering columns, as the statements that change it do. */
module PartitionTrees {
  import opened ColumnOrder
  import opened Clustering
  import opened KeyBounds
  import opened RangeScan

  /** The engine's table object: the partitions by token. Page numbers for new static pages come from the
      allocator, which never hands out page 0. */
  class PartitionTree {
    var entries: map<int, Partition>

    /** Every stored partition has a static page. */
    ghost predicate Valid()
      reads this
    {
      forall t :: t in entries ==> entries[t].staticPage != 0
    }

    constructor ()
      ensures Valid() && entries == map[]
    {
      entries := map[];
    }

    /** The entry found, or one without rows and without a static page. */
    function Found(token: int): Partition
      reads this
    {
      if token in entries then entries[token] else Partition([], 0)
    }

    /** rewrite_static: the static page is written in place, or allocated if there is none. */
    function Rewritten(entry: Partition, page: nat): (r: Partition)
      requires page != 0
      ensures r.staticPage != 0 && r.keys == entry.keys && (entry.staticPage != 0 ==> r == entry)
    {
      entry.(staticPage := if entry.staticPage == 0 then page else entry.staticPage)
    }

    /** INSERT: a new partition always gets its static page, an existing one keeps it. `keys` are the rows the
        clustering tree then holds. */
    method Insert(token: int, anyStatic: bool, page: nat, keys: seq<Key>)
      requires Valid() && page != 0
      modifies this
      ensures Valid() && entries == old(entries)[token := Rewritten(old(Found(token)), page).(keys := keys)]
    {
      var entry, isNew := Found(token), token !in entries;
      if anyStatic || isNew { entry := Rewritten(entry, page); }
      if isNew { entries := entries[token := entry]; }
      entries := entries[token := entries[token].(keys := keys)];
    }

    /** UPDATE of static columns alone: a new partition is stored only if it got a static value, and one left
        without static values and rows is dropped. */
    method UpdateStatic(token: int, anyStatic: bool, page: nat)
      requires Valid() && page != 0
      modifies this
      ensures Valid()
      ensures entries == if anyStatic then old(entries)[token := Rewritten(old(Found(token)), page)]
                         else if old(Found(token)).keys == [] then old(entries) - {token} else old(entries)
    {
      var entry, isNew := Found(token), token !in entries;
      entry := Rewritten(entry, page);
      if isNew {
        if anyStatic { entries := entries[token := entry]; }
      } else if !anyStatic && entry.keys == [] {
        entries := entries - {token};
      }
    }

    /** UPDATE of a row, and deletion of some of its columns. */
    method UpdateRow(token: int, anyStaticUpdated: bool, page: nat, keys: seq<Key>)
      requires Valid() && page != 0
      modifies this
      ensures Valid() && entries == old(entries)[token := Rewritten(old(Found(token)), page).(keys := keys)]
    {
      var entry, isNew := Found(token).(keys := keys), token !in entries;
      if isNew || anyStaticUpdated { entry := Rewritten(entry, page); }
      entries := entries[token := entry];
    }

    /** DELETE of rows: what is left of the clustering tree is `keys`; an emptied partition goes, static values
        included. */
    method DeleteRows(token: int, keys: seq<Key>)
      requires Valid()
      modifies this
      ensures Valid()
      ensures entries == if token !in old(entries) then old(entries)
                         else if keys == [] then old(entries) - {token}
                         else old(entries)[token := old(entries)[token].(keys := keys)]
    {
      if token !in entries { return; }
      if keys == [] {
        entries := entries - {token};
      } else {
        entries := entries[token := entries[token].(keys := keys)];
      }
    }

    /** So a scan over stored partitions whose rows form trees for its bounds is over scannable ones. */
    lemma StoredAreScannable(tokens: seq<int>, parts: seq<Partition>, scan: Scan)
      requires Valid() && |parts| == |tokens|
      requires forall i :: 0 <= i < |tokens| ==> tokens[i] in entries && parts[i] == entries[tokens[i]]
      requires forall i :: 0 <= i < |parts| ==>
                 IsTree(parts[i].keys, scan.columns) && BoundsForTree(scan.bounds, parts[i].keys, scan.columns)
      ensures Ready(parts, scan)
    {
      hide IsTree, BoundsForTree;
      forall i | 0 <= i < |parts|
        ensures parts[i].staticPage != 0
      {
        var t := tokens[i];
        assert t in entries;
        assert entries[t].staticPage != 0;
        assert parts[i] == entries[tokens[i]];
      }
    }
  }
}
