/** Row blobs of tables without a clustering key: written in one go, read back column by column. */
module Rows {

  import opened Wire
  import opened ColumnValues
  import opened ValueCodec
  import opened ValueCodecResults
  import opened ValueStream

  /** A column is part of the partition key at some position, or a regular one. */
  datatype Column = Column(t: Type, inKey: bool, position: nat)

  /** `key` lists the partition-key columns in key order. */
  datatype Table = Table(columns: seq<Column>, key: seq<nat>)

  datatype RowMeta = RowMeta(flags: Byte, expiry: S64)

  datatype CellMeta = CellMeta(flags: Byte, expiry: S64, writetime: S64)

  datatype Option<+T> = None | Some(value: T)

  const NO_META: CellMeta := CellMeta(0, 0, 0)

  /** What the engine hands to the writer: a value and a presence flag for each column, and metadata for some
      cells. */
  datatype Row = Row(values: seq<Value>, present: seq<bool>, cells: seq<Option<CellMeta>>, meta: RowMeta)

  ghost predicate TableValid(t: Table) {
    && |t.columns| < TWO_64
    && (forall p :: 0 <= p < |t.key| ==>
          t.key[p] < |t.columns| && t.columns[t.key[p]].inKey && t.columns[t.key[p]].position == p)
    && forall i :: 0 <= i < |t.columns| && t.columns[i].inKey ==>
         t.columns[i].position < |t.key| && t.key[t.columns[i].position] == i
  }

  // ---- metadata ----

  predicate HasTtl(flags: Byte) {
    flags % 2 == 1
  }

  predicate HasWritetime(flags: Byte) {
    flags / 2 % 2 == 1
  }

  function Signed8(n: S64): (b: Bytes)
    ensures |b| == 8
  {
    WidthsFit();
    EncodeSignedBytes(n, 8)
  }

  function EncodeCellMeta(m: CellMeta): Bytes {
    [m.flags] + ((if HasTtl(m.flags) then Signed8(m.expiry) else [])
                 + (if HasWritetime(m.flags) then Signed8(m.writetime) else []))
  }

  /** A field whose flag is clear is not stored and reads as zero. */
  function Normal(m: CellMeta): CellMeta {
    CellMeta(m.flags, if HasTtl(m.flags) then m.expiry else 0, if HasWritetime(m.flags) then m.writetime else 0)
  }

  function TakeS64(b: Bytes, off: nat): (r: Read<S64>)
    ensures r.Done? ==> r.next == off + 8 <= |b|
  {
    Pow256Widths();
    match TakeSigned(b, off, 8)
    case Done(n, next) => var m: S64 := n; Done(m, next)
    case _ => Short
  }

  lemma AtS64(b: Bytes, off: nat, n: S64)
    requires At(b, off, Signed8(n))
    ensures TakeS64(b, off) == Done(n, off + 8)
  {
    WidthsFit();
    AtSigned(b, off, n, 8);
  }

  /** The metadata of a cell without its own: the row's time to live, if it has one. */
  function Derived(m: RowMeta): CellMeta {
    if HasTtl(m.flags) then CellMeta(1, m.expiry, 0) else NO_META
  }

  // ---- the blob ----

  predicate Active(t: Table, row: Row, i: nat) {
    i < |row.present| && i < |t.columns| && row.present[i] && !t.columns[i].inKey
  }

  predicate HasCellMeta(t: Table, row: Row, i: nat) {
    Active(t, row, i) && i < |row.cells| && row.cells[i].Some?
  }

  ghost function EncodeCell(t: Table, row: Row, i: nat): Bytes
    requires i < |t.columns| && |row.values| == |t.columns|
  {
    if !Active(t, row, i) then []
    else (if HasCellMeta(t, row, i) then EncodeCellMeta(row.cells[i].value) else [])
         + Encode(row.values[i], t.columns[i].t)
  }

  ghost function EncodeCells(t: Table, row: Row, i: nat): Bytes
    requires i <= |t.columns| == |row.values|
    decreases |t.columns| - i
  {
    if i == |t.columns| then [] else EncodeCell(t, row, i) + EncodeCells(t, row, i + 1)
  }

  ghost function EncodeKeyFrom(t: Table, row: Row, p: nat): Bytes
    requires TableValid(t) && |row.values| == |t.columns| && p <= |t.key|
    decreases |t.key| - p
  {
    if p == |t.key| then []
    else Encode(row.values[t.key[p]], t.columns[t.key[p]].t) + EncodeKeyFrom(t, row, p + 1)
  }

  ghost function ActiveBits(t: Table, row: Row): (bits: seq<bool>)
    ensures |bits| == |t.columns|
  {
    seq(|t.columns|, i requires 0 <= i => Active(t, row, i))
  }

  ghost function MetaBits(t: Table, row: Row): (bits: seq<bool>)
    ensures |bits| == |t.columns|
  {
    seq(|t.columns|, i requires 0 <= i => HasCellMeta(t, row, i))
  }

  ghost function EncodeHeader(t: Table, row: Row): Bytes {
    [row.meta.flags] + (Signed8(row.meta.expiry)
      + (LittleEndian(|t.columns|, 8) + (MaskBytes(ActiveBits(t, row)) + MaskBytes(MetaBits(t, row)))))
  }

  /** The key's values, the row's metadata, the two masks, and the cells. */
  ghost function EncodeRow(t: Table, row: Row): Bytes
    requires TableValid(t) && |row.values| == |t.columns|
  {
    EncodeKeyFrom(t, row, 0) + (EncodeHeader(t, row) + EncodeCells(t, row, 0))
  }

  /** Rows the writer accepts and the reader can make sense of. */
  ghost predicate RowValid(t: Table, row: Row) {
    && TableValid(t) && |row.values| == |row.present| == |t.columns|
    && (forall p :: 0 <= p < |t.key| ==> row.present[t.key[p]])
    && forall i :: 0 <= i < |t.columns| && row.present[i] ==>
         Readable(row.values[i], t.columns[i].t) && Writable(row.values[i], t.columns[i].t)
  }

  // ---- writing ----

  /** write_row_blob, for a table without a clustering key. */
  method WriteRowBlob(t: Table, row: Row) returns (out: Bytes)
    requires RowValid(t, row)
    ensures out == EncodeRow(t, row)
  {
    hide Readable, Writable, EncodeKeyFrom, EncodeHeader, EncodeCells;
    var w := new Writer();
    WriteKeyPreamble(w, t, row);
    ghost var key := w.out;
    WriteHeader(w, t, row);
    WriteCells(w, t, row);
    Regroup(key, EncodeHeader(t, row), EncodeCells(t, row, 0));
    out := w.out;
  }

  method WriteHeader(w: Writer, t: Table, row: Row)
    modifies w
    ensures w.out == old(w.out) + EncodeHeader(t, row)
  {
    hide MaskBytes, LittleEndian, Signed8;
    w.Put([row.meta.flags]);
    w.Put(Signed8(row.meta.expiry));
    w.Put(LittleEndian(|t.columns|, 8));
    WriteMaskBits(w, (i: nat) => Active(t, row, i), |t.columns|);
    assert Bits((i: nat) => Active(t, row, i), |t.columns|) == ActiveBits(t, row);
    WriteMaskBits(w, (i: nat) => HasCellMeta(t, row, i), |t.columns|);
    assert Bits((i: nat) => HasCellMeta(t, row, i), |t.columns|) == MetaBits(t, row);
    InOrder(old(w.out), [row.meta.flags], Signed8(row.meta.expiry), LittleEndian(|t.columns|, 8),
            MaskBytes(ActiveBits(t, row)), MaskBytes(MetaBits(t, row)));
  }

  lemma InOrder(out: Bytes, a: Bytes, b: Bytes, c: Bytes, d: Bytes, e: Bytes)
    ensures out + a + b + c + d + e == out + (a + (b + (c + (d + e))))
  {
  }

  method WriteKeyPreamble(w: Writer, t: Table, row: Row)
    requires RowValid(t, row)
    modifies w
    ensures w.out == old(w.out) + EncodeKeyFrom(t, row, 0)
  {
    hide Readable, Writable, Encode;
    for p := 0 to |t.key|
      invariant w.out + EncodeKeyFrom(t, row, p) == old(w.out) + EncodeKeyFrom(t, row, 0)
    {
      Regroup(w.out, Encode(row.values[t.key[p]], t.columns[t.key[p]].t), EncodeKeyFrom(t, row, p + 1));
      WriteValue(w, row.values[t.key[p]], t.columns[t.key[p]].t);
    }
    assert w.out + [] == w.out;
  }

  method WriteCells(w: Writer, t: Table, row: Row)
    requires RowValid(t, row)
    modifies w
    ensures w.out == old(w.out) + EncodeCells(t, row, 0)
  {
    hide Readable, Writable, EncodeCell;
    for i := 0 to |t.columns|
      invariant w.out + EncodeCells(t, row, i) == old(w.out) + EncodeCells(t, row, 0)
    {
      Regroup(w.out, EncodeCell(t, row, i), EncodeCells(t, row, i + 1));
      WriteCell(w, t, row, i);
    }
    assert w.out + [] == w.out;
  }

  method WriteCell(w: Writer, t: Table, row: Row, i: nat)
    requires RowValid(t, row) && i < |t.columns|
    modifies w
    ensures w.out == old(w.out) + EncodeCell(t, row, i)
  {
    hide Readable, Writable, Encode, EncodeCellMeta;
    if Active(t, row, i) {
      if HasCellMeta(t, row, i) { WriteCellMeta(w, row.cells[i].value); }
      WriteValue(w, row.values[i], t.columns[i].t);
    } else {
      assert w.out + [] == w.out;
    }
  }

  method WriteCellMeta(w: Writer, m: CellMeta)
    modifies w
    ensures w.out == old(w.out) + EncodeCellMeta(m)
  {
    hide Signed8;
    w.Put([m.flags]);
    if HasTtl(m.flags) { w.Put(Signed8(m.expiry)); }
    if HasWritetime(m.flags) { w.Put(Signed8(m.writetime)); }
  }

  // ---- what reading should give ----

  /** The table a row is read with: columns may have been added at the end since it was written, and the types of
      the old ones may have grown. */
  ghost predicate GrownTable(t: Table, u: Table) {
    && TableValid(t) && TableValid(u) && |t.columns| <= |u.columns| && t.key == u.key
    && forall i :: 0 <= i < |t.columns| ==>
         && Grown(t.columns[i].t, u.columns[i].t)
         && t.columns[i].inKey == u.columns[i].inKey && t.columns[i].position == u.columns[i].position
  }

  /** The value of a column: what was written, in the form the type has now; null for a column that was absent
      or is newer than the row. */
  ghost function Expected(t: Table, u: Table, row: Row, i: nat): Value
    requires GrownTable(t, u) && RowValid(t, row)
  {
    if i < |t.columns| && row.present[i] then Fit(row.values[i], t.columns[i].t, u.columns[i].t) else Null
  }

  /** The metadata of a regular cell: its own, or else the row's. */
  ghost function ExpectedMeta(t: Table, row: Row, i: nat): CellMeta {
    if !Active(t, row, i) then NO_META
    else if HasCellMeta(t, row, i) then Normal(row.cells[i].value)
    else Derived(row.meta)
  }

  /** A regular cell that was written with metadata has it back, the fields that its flags name; one that was not
      has the row's time to live, if the row has one, and no write time. Key columns and absent cells have none. */
  lemma MetadataIsOriginal(t: Table, row: Row, i: nat)
    requires i < |t.columns| == |row.present|
    ensures row.present[i] && !t.columns[i].inKey && i < |row.cells| && row.cells[i].Some? ==>
              var m, r := row.cells[i].value, ExpectedMeta(t, row, i);
              && r.flags == m.flags
              && r.expiry == (if m.flags % 2 == 1 then m.expiry else 0)
              && r.writetime == (if m.flags % 4 in {2, 3} then m.writetime else 0)
    ensures row.present[i] && !t.columns[i].inKey && (i < |row.cells| ==> row.cells[i].None?) ==>
              ExpectedMeta(t, row, i)
              == if row.meta.flags % 2 == 1 then CellMeta(1, row.meta.expiry, 0) else CellMeta(0, 0, 0)
    ensures !row.present[i] || t.columns[i].inKey ==> ExpectedMeta(t, row, i) == CellMeta(0, 0, 0)
  {
  }

  /** Under the types it was written with, a present value that fits its type comes back as it was. */
  lemma ExpectedIsOriginal(t: Table, row: Row, i: nat)
    requires GrownTable(t, t) && RowValid(t, row) && i < |t.columns|
    requires row.present[i] && Exact(row.values[i], t.columns[i].t)
    ensures Expected(t, t, row, i) == row.values[i]
  {
    hide Exact, Grown, Readable, Writable, Fit;
    ExactFits(row.values[i], t.columns[i].t);
  }
}
