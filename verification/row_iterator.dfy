/** Reading a row blob column by column, any column's value either read or passed over. */
module RowReading {

  import opened Wire
  import opened ColumnValues
  import opened ValueCodec
  import opened ValueCodecResults
  import opened ValueStream
  import opened Rows

  // ---- single steps on a cursor ----

  /** read_cell_metadata. */
  method ReadCellMeta(cursor: Reader, ghost m: CellMeta) returns (r: CellMeta)
    requires At(cursor.data, cursor.pos, EncodeCellMeta(m))
    modifies cursor
    ensures r == Normal(m) && cursor.pos == old(cursor.pos) + |EncodeCellMeta(m)|
  {
    hide Signed8, TakeS64;
    CellMetaParts(cursor.data, cursor.pos, m);
    var flags := cursor.Next(1);
    r := CellMeta(flags.value[0], 0, 0);
    if HasTtl(r.flags) {
      var expiry := TakeS64(cursor.data, cursor.pos);
      r := r.(expiry := expiry.value);
      cursor.pos := expiry.next;
    }
    if HasWritetime(r.flags) {
      var writetime := TakeS64(cursor.data, cursor.pos);
      r := r.(writetime := writetime.value);
      cursor.pos := writetime.next;
    }
  }

  lemma CellMetaParts(b: Bytes, off: nat, m: CellMeta)
    requires At(b, off, EncodeCellMeta(m))
    ensures Take(b, off, 1) == Done([m.flags], off + 1)
    ensures HasTtl(m.flags) ==> TakeS64(b, off + 1) == Done(m.expiry, off + 9)
    ensures HasWritetime(m.flags) ==>
              var at := if HasTtl(m.flags) then off + 9 else off + 1;
              TakeS64(b, at) == Done(m.writetime, at + 8)
  {
    hide Signed8, TakeS64;
    var ttl := if HasTtl(m.flags) then Signed8(m.expiry) else [];
    var writetime := if HasWritetime(m.flags) then Signed8(m.writetime) else [];
    AtParts(b, off, [m.flags], ttl + writetime);
    AtParts(b, off + 1, ttl, writetime);
    if HasTtl(m.flags) { AtS64(b, off + 1, m.expiry); }
    if HasWritetime(m.flags) { AtS64(b, off + 1 + |ttl|, m.writetime); }
  }

  /** The flags, then skip_cell_metadata. */
  method SkipCellMeta(cursor: Reader, ghost m: CellMeta)
    requires At(cursor.data, cursor.pos, EncodeCellMeta(m))
    modifies cursor
    ensures cursor.pos == old(cursor.pos) + |EncodeCellMeta(m)|
  {
    hide Signed8, TakeS64;
    CellMetaParts(cursor.data, cursor.pos, m);
    var flags := cursor.Next(1);
    var toSkip := 0;
    if HasTtl(flags.value[0]) { toSkip := toSkip + 8; }
    if HasWritetime(flags.value[0]) { toSkip := toSkip + 8; }
    if toSkip > 0 { cursor.pos := cursor.pos + toSkip; }
  }

  /** A value that stands at the cursor, read or skipped. */
  method ReadKnown(cursor: Reader, u: Type, ghost v: Value, ghost t: Type) returns (r: Value)
    requires Readable(v, t) && Grown(t, u) && At(cursor.data, cursor.pos, Encode(v, t))
    modifies cursor
    ensures r == Fit(v, t, u) && cursor.pos == old(cursor.pos) + |Encode(v, t)|
  {
    hide Readable, Grown, At, Encode, Decode, Fit;
    DecodeEncoded(cursor.data, cursor.pos, v, t, u);
    var read := ReadValue(cursor, u);
    r := read.value;
  }

  method SkipKnown(cursor: Reader, u: Type, ghost v: Value, ghost t: Type)
    requires Readable(v, t) && Grown(t, u) && At(cursor.data, cursor.pos, Encode(v, t))
    modifies cursor
    ensures cursor.pos == old(cursor.pos) + |Encode(v, t)|
  {
    hide Readable, Grown, At, Encode, Decode, Fit;
    DecodeEncoded(cursor.data, cursor.pos, v, t, u);
    var read := SkipValue(cursor, u);
  }

  /** The parts of a blob's header. */
  lemma HeaderParts(b: Bytes, off: nat, t: Table, row: Row)
    requires TableValid(t) && At(b, off, EncodeHeader(t, row))
    ensures Take(b, off, 1) == Done([row.meta.flags], off + 1)
    ensures TakeS64(b, off + 1) == Done(row.meta.expiry, off + 9)
    ensures TakeU64(b, off + 9) == Done(|t.columns|, off + 17)
    ensures MaskMatches(TakeMask(b, off + 17, Words(|t.columns|)), ActiveBits(t, row))
    ensures var active := TakeMask(b, off + 17, Words(|t.columns|));
            var cells := TakeMask(b, active.next, Words(|t.columns|));
            MaskMatches(cells, MetaBits(t, row)) && cells.next == off + |EncodeHeader(t, row)|
  {
    hide Signed8, TakeS64, MaskBytes, LittleEndian, TakeU64, TakeMask, MaskBit;
    var active, cells := MaskBytes(ActiveBits(t, row)), MaskBytes(MetaBits(t, row));
    var count := LittleEndian(|t.columns|, 8);
    AtParts(b, off, [row.meta.flags], Signed8(row.meta.expiry) + (count + (active + cells)));
    AtParts(b, off + 1, Signed8(row.meta.expiry), count + (active + cells));
    AtParts(b, off + 9, count, active + cells);
    AtParts(b, off + 17, active, cells);
    AtS64(b, off + 1, row.meta.expiry);
    AtU64(b, off + 9, |t.columns|);
    AtMask(b, off + 17, ActiveBits(t, row));
    AtMask(b, off + 17 + |active|, MetaBits(t, row));
  }

  ghost predicate MaskMatches(r: Read<seq<U64>>, bits: seq<bool>) {
    r.Done? && BitsMatch(r.value, bits)
  }

  ghost predicate BitsMatch(mask: seq<U64>, bits: seq<bool>) {
    |mask| == Words(|bits|) && forall i :: 0 <= i < |bits| ==> MaskBit(mask, i) == bits[i]
  }

  // ---- the iterator ----

  class ColumnIterator {
    const table: Table
    const cursor: Reader
    var ended: bool
    var columnCount: nat
    var current: nat
    var masks: seq<U64>
    var cellMasks: seq<U64>
    var keyValues: seq<Value>
    var metadata: RowMeta
    var currentCell: CellMeta
    var consumed: bool

    /** The iterator reads `row` as it was written with table `t`. */
    ghost predicate Reading(t: Table, row: Row)
      reads this, cursor
    {
      && GrownTable(t, table) && RowValid(t, row) && Header(t, row)
      && (!ended ==> current < |t.columns| && AtCells(t, row, if consumed then current + 1 else current))
    }

    ghost predicate Header(t: Table, row: Row)
      requires GrownTable(t, table) && RowValid(t, row)
      reads this
    {
      && columnCount == |t.columns| && metadata == row.meta
      && BitsMatch(masks, ActiveBits(t, row)) && BitsMatch(cellMasks, MetaBits(t, row))
      && |keyValues| == |t.key| && forall p :: 0 <= p < |t.key| ==> keyValues[p] == Expected(t, table, row, t.key[p])
    }

    /** The cells from the i-th on stand at the cursor. */
    ghost predicate AtCells(t: Table, row: Row, i: nat)
      requires RowValid(t, row) && i <= |t.columns|
      reads this, cursor
    {
      At(cursor.data, cursor.pos, EncodeCells(t, row, i))
    }

    /** load, on the blob of a row. */
    constructor (blob: Bytes, table: Table, ghost t: Table, ghost row: Row)
      requires GrownTable(t, table) && RowValid(t, row) && |t.columns| > 0 && blob == EncodeRow(t, row)
      ensures Reading(t, row) && !ended && current == 0 && !consumed && this.table == table
      ensures fresh(cursor)
    {
      hide Signed8, TakeS64, MaskBytes, LittleEndian, TakeU64, TakeMask, MaskBit, EncodeHeader, EncodeCells,
          EncodeKeyFrom;
      hide Readable, Writable, Grown;
      this.table := table;
      this.cursor := new Reader(blob, 0);
      ended, current, consumed := false, 0, false;
      masks, cellMasks, keyValues := [], [], [];
      columnCount, metadata, currentCell := 0, RowMeta(0, 0), NO_META;
      new;
      RowParts(blob, t, row);
      ReadKeyPreamble(t, row);
      ReadHeader(t, row);
    }

    method ReadKeyPreamble(ghost t: Table, ghost row: Row)
      requires GrownTable(t, table) && RowValid(t, row)
      requires At(cursor.data, cursor.pos, EncodeKeyFrom(t, row, 0)) && keyValues == []
      modifies this`keyValues, cursor
      ensures cursor.pos == old(cursor.pos) + |EncodeKeyFrom(t, row, 0)|
      ensures |keyValues| == |t.key|
      ensures forall p :: 0 <= p < |t.key| ==> keyValues[p] == Expected(t, table, row, t.key[p])
    {
      hide Readable, Writable, Grown, At, Encode, Fit;
      for p := 0 to |table.key|
        invariant |keyValues| == p && forall q :: 0 <= q < p ==> keyValues[q] == Expected(t, table, row, t.key[q])
        invariant At(cursor.data, cursor.pos, EncodeKeyFrom(t, row, p))
        invariant cursor.pos + |EncodeKeyFrom(t, row, p)| == old(cursor.pos) + |EncodeKeyFrom(t, row, 0)|
      {
        var i := table.key[p];
        AtParts(cursor.data, cursor.pos, Encode(row.values[i], t.columns[i].t), EncodeKeyFrom(t, row, p + 1));
        var v := ReadKnown(cursor, table.columns[i].t, row.values[i], t.columns[i].t);
        keyValues := keyValues + [v];
      }
    }

    /** read_blob_header. */
    method ReadHeader(ghost t: Table, ghost row: Row)
      requires TableValid(t) && At(cursor.data, cursor.pos, EncodeHeader(t, row))
      modifies this`metadata, this`columnCount, this`masks, this`cellMasks, cursor
      ensures cursor.pos == old(cursor.pos) + |EncodeHeader(t, row)|
      ensures columnCount == |t.columns| && metadata == row.meta
      ensures BitsMatch(masks, ActiveBits(t, row)) && BitsMatch(cellMasks, MetaBits(t, row))
    {
      hide Signed8, TakeS64, MaskBytes, LittleEndian, TakeU64, TakeMask, MaskBit, EncodeHeader, BitsMatch;
      HeaderParts(cursor.data, cursor.pos, t, row);
      var flags := cursor.Next(1);
      var expiry := TakeS64(cursor.data, cursor.pos);
      cursor.pos := expiry.next;
      metadata := RowMeta(flags.value[0], expiry.value);
      var count := cursor.NextU64();
      columnCount := count.value;
      var active := ReadMask(cursor, columnCount);
      masks := active.value;
      var cells := ReadMask(cursor, columnCount);
      cellMasks := cells.value;
    }

    predicate CurrentIsNull()
      reads this
    {
      current / 64 >= |masks| || !MaskBit(masks, current)
    }

    predicate CurrentHasCellMeta()
      reads this
    {
      current / 64 < |cellMasks| && MaskBit(cellMasks, current)
    }

    lemma CurrentBits(t: Table, row: Row)
      requires Reading(t, row) && !ended
      ensures CurrentIsNull() <==> !Active(t, row, current)
      ensures CurrentHasCellMeta() <==> HasCellMeta(t, row, current)
    {
      hide Readable, Writable, Grown, At, MaskBit, EncodeCells;
      assert ActiveBits(t, row)[current] == Active(t, row, current);
      assert MetaBits(t, row)[current] == HasCellMeta(t, row, current);
    }

    /** deref: the value and the metadata of the current column. */
    method Deref(ghost t: Table, ghost row: Row) returns (v: Value)
      requires Reading(t, row) && !ended && !consumed
      modifies this`consumed, this`currentCell, cursor
      ensures Reading(t, row)
      ensures v == Expected(t, table, row, current) && currentCell == ExpectedMeta(t, row, current)
    {
      hide Readable, Writable, Grown, At, Encode, Fit, EncodeCells, EncodeCellMeta, BitsMatch;
      CurrentBits(t, row);
      CellsStep(t, row, current);
      if CurrentIsNull() {
        currentCell := NO_META;
        var column := table.columns[current];
        if column.inKey && column.position < |keyValues| {
          consumed := true;
          return keyValues[column.position];
        }
        return Null;
      }
      CellParts(cursor.data, cursor.pos, t, row, current);
      if CurrentHasCellMeta() {
        currentCell := ReadCellMeta(cursor, row.cells[current].value);
      } else {
        currentCell := Derived(metadata);
      }
      v := ReadKnown(cursor, table.columns[current].t, row.values[current], t.columns[current].t);
      consumed := true;
    }

    /** advance: a value nobody read is skipped. */
    method Advance(ghost t: Table, ghost row: Row)
      requires Reading(t, row) && !ended
      modifies this`consumed, this`current, this`ended, cursor
      ensures Reading(t, row) && current == old(current) + 1 && !consumed
      ensures ended <==> current == |t.columns|
    {
      hide Readable, Writable, Grown, At, Encode, Fit, EncodeCells, EncodeCellMeta, BitsMatch;
      CurrentBits(t, row);
      CellsStep(t, row, current);
      if !CurrentIsNull() && !consumed {
        CellParts(cursor.data, cursor.pos, t, row, current);
        if CurrentHasCellMeta() { SkipCellMeta(cursor, row.cells[current].value); }
        SkipKnown(cursor, table.columns[current].t, row.values[current], t.columns[current].t);
      }
      consumed := false;
      current := current + 1;
      if current >= columnCount { ended := true; }
    }
  }

  lemma RowParts(b: Bytes, t: Table, row: Row)
    requires RowValid(t, row) && b == EncodeRow(t, row)
    ensures At(b, 0, EncodeKeyFrom(t, row, 0))
    ensures At(b, |EncodeKeyFrom(t, row, 0)|, EncodeHeader(t, row))
    ensures At(b, |EncodeKeyFrom(t, row, 0)| + |EncodeHeader(t, row)|, EncodeCells(t, row, 0))
  {
    hide EncodeHeader, EncodeCells, EncodeKeyFrom, Readable, Writable;
    var key, header, cells := EncodeKeyFrom(t, row, 0), EncodeHeader(t, row), EncodeCells(t, row, 0);
    assert At(b, 0, key + (header + cells));
    AtParts(b, 0, key, header + cells);
    AtParts(b, |key|, header, cells);
  }

  lemma CellsStep(t: Table, row: Row, i: nat)
    requires RowValid(t, row) && i < |t.columns|
    ensures EncodeCells(t, row, i) == EncodeCell(t, row, i) + EncodeCells(t, row, i + 1)
    ensures !Active(t, row, i) ==> EncodeCells(t, row, i) == EncodeCells(t, row, i + 1)
  {
    hide Readable, Writable, Encode, EncodeCellMeta, TableValid;
    if !Active(t, row, i) { assert [] + EncodeCells(t, row, i + 1) == EncodeCells(t, row, i + 1); }
  }

  /** Where the parts of the cell at the cursor stand. */
  lemma CellParts(b: Bytes, off: nat, t: Table, row: Row, i: nat)
    requires RowValid(t, row) && i < |t.columns| == |row.values| && Active(t, row, i)
    requires At(b, off, EncodeCells(t, row, i))
    ensures var m := if HasCellMeta(t, row, i) then EncodeCellMeta(row.cells[i].value) else [];
            var v := Encode(row.values[i], t.columns[i].t);
            At(b, off, m) && At(b, off + |m|, v) && At(b, off + |m| + |v|, EncodeCells(t, row, i + 1))
  {
    hide RowValid, At, Encode, EncodeCellMeta, EncodeCells;
    CellsStep(t, row, i);
    var m := if HasCellMeta(t, row, i) then EncodeCellMeta(row.cells[i].value) else [];
    var v := Encode(row.values[i], t.columns[i].t);
    assert EncodeCell(t, row, i) == m + v;
    AtParts(b, off, m + v, EncodeCells(t, row, i + 1));
    AtParts(b, off, m, v);
  }

  // ---- reading whole rows ----

  /** Any mix of reading and passing over gives every column that is read the value and the metadata it was
      written with; a column the row does not have is null. */
  method ReadColumns(blob: Bytes, table: Table, wanted: seq<bool>, ghost t: Table, ghost row: Row)
    returns (values: seq<Option<(Value, CellMeta)>>)
    requires GrownTable(t, table) && RowValid(t, row) && |t.columns| > 0 && blob == EncodeRow(t, row)
    requires |wanted| == |t.columns|
    ensures |values| == |t.columns|
    ensures forall i :: 0 <= i < |t.columns| ==>
              values[i] == if wanted[i] then Some((Expected(t, table, row, i), ExpectedMeta(t, row, i))) else None
  {
    hide *;
    var it := new ColumnIterator(blob, table, t, row);
    values := [];
    while !it.ended
      invariant fresh(it) && fresh(it.cursor) && it.table == table && it.Reading(t, row) && !it.consumed
      invariant |values| == it.current <= |t.columns| && (it.ended <==> it.current == |t.columns|)
      invariant forall i :: 0 <= i < |values| ==>
                  values[i] == if wanted[i] then Some((Expected(t, table, row, i), ExpectedMeta(t, row, i))) else None
      decreases |t.columns| - it.current, !it.ended
    {
      if wanted[it.current] {
        var v := it.Deref(t, row);
        values := values + [Some((v, it.currentCell))];
      } else {
        values := values + [None];
      }
      it.Advance(t, row);
    }
  }

  lemma NewerColumn(t: Table, u: Table, row: Row, i: nat)
    requires GrownTable(t, u) && RowValid(t, row)
    ensures |t.columns| <= |u.columns|
    ensures i >= |t.columns| ==> Expected(t, u, row, i) == Null && ExpectedMeta(t, row, i) == NO_META
  {
  }

  /** drain_columns: every column of the table as it is now, null behind the columns the row has. Cell metadata
      without any flag is not kept. */
  method DrainColumns(blob: Bytes, table: Table, ghost t: Table, ghost row: Row)
    returns (values: seq<Value>, present: seq<bool>, cells: seq<Option<CellMeta>>)
    requires GrownTable(t, table) && RowValid(t, row) && |t.columns| > 0 && blob == EncodeRow(t, row)
    ensures |values| == |present| == |cells| == |table.columns|
    ensures forall i :: 0 <= i < |table.columns| ==>
              && values[i] == Expected(t, table, row, i) && present[i] == !values[i].Null?
              && cells[i] == if ExpectedMeta(t, row, i).flags != 0 && present[i]
                             then Some(ExpectedMeta(t, row, i)) else None
  {
    hide *;
    var it := new ColumnIterator(blob, table, t, row);
    values, present, cells := [], [], [];
    var ci := 0;
    NewerColumn(t, table, row, |t.columns|);
    while !it.ended && ci < |table.columns|
      invariant fresh(it) && fresh(it.cursor) && it.table == table && it.Reading(t, row) && !it.consumed
      invariant |values| == |present| == |cells| == ci == it.current <= |t.columns| && (it.ended <==> ci == |t.columns|)
      invariant forall i :: 0 <= i < ci ==>
                  && values[i] == Expected(t, table, row, i) && present[i] == !values[i].Null?
                  && cells[i] == if ExpectedMeta(t, row, i).flags != 0 && present[i]
                                 then Some(ExpectedMeta(t, row, i)) else None
      decreases |table.columns| - ci
    {
      var v := it.Deref(t, row);
      values := values + [v];
      present := present + [!v.Null?];
      cells := cells + [if !v.Null? && it.currentCell.flags != 0 then Some(it.currentCell) else None];
      it.Advance(t, row);
      ci := ci + 1;
    }
    for j := ci to |table.columns|
      invariant |values| == |present| == |cells| == j
      invariant forall i :: 0 <= i < j ==>
                  && values[i] == Expected(t, table, row, i) && present[i] == !values[i].Null?
                  && cells[i] == if ExpectedMeta(t, row, i).flags != 0 && present[i]
                                 then Some(ExpectedMeta(t, row, i)) else None
    {
      NewerColumn(t, table, row, j);
      values := values + [Null];
      present := present + [false];
      cells := cells + [None];
    }
  }
}
