/** What the stored bytes look like: where the digits of a number stand, and the image of a value of each form. */
module WireImages {

  import opened Wire
  import opened DecimalCompare
  import opened ColumnValues
  import opened ValueCodec
  import R = Rows
  import T = TypeCodec

  /** The last byte counts most. */
  lemma {:induction false} LastDigit(b: Bytes, d: Byte)
    ensures FromLittleEndian(b + [d]) == FromLittleEndian(b) + d as int * Pow256(|b|)
  {
    if b == [] {
      assert [d][1..] == [];
    } else {
      LastDigit(b[1..], d);
      assert (b + [d])[1..] == b[1..] + [d];
      assert d as int * (256 * Pow256(|b| - 1)) == 256 * (d as int * Pow256(|b| - 1));
    }
  }

  /** A negative number is stored as what it comes to when the range is wrapped once around. */
  lemma SignedImage(n: int, width: nat)
    requires width > 0 && InSigned(n, width) && InWidth(n, width)
    ensures FromLittleEndian(EncodeSigned(n, width)) == if n < 0 then Pow256(width) + n else n
  {
    hide LittleEndian, FromLittleEndian, Pow256;
    LittleEndianRoundTrip(Unsigned(n, width), width);
  }

  lemma SmallNumber(d: Byte)
    ensures LittleEndian(d, 8) == [d, 0, 0, 0, 0, 0, 0, 0] && LittleEndian(d, 4) == [d, 0, 0, 0]
  {
    Zeros(3);
    Zeros(7);
    assert LittleEndian(d, 8) == [d] + LittleEndian(0, 7) && LittleEndian(d, 4) == [d] + LittleEndian(0, 3);
  }

  lemma {:induction false} Zeros(n: nat)
    ensures LittleEndian(0, n) == seq(n, _ => 0)
  {
    if n > 0 { Zeros(n - 1); }
  }

  lemma Digits(a: Byte, b: Byte, c: Byte, d: Byte)
    ensures LittleEndian(a as int + 256 * b as int, 2) == [a, b]
    ensures LittleEndian(a as int + 256 * b as int + 0x1_0000 * c as int + 0x100_0000 * d as int, 4) == [a, b, c, d]
  {
    LeadingDigit(a, b, 1);
    LeadingDigit(b, 0, 0);
    LeadingDigit(a, b as int + 256 * c as int + 0x1_0000 * d as int, 3);
    LeadingDigit(b, c as int + 256 * d as int, 2);
    LeadingDigit(c, d, 1);
    LeadingDigit(d, 0, 0);
  }

  lemma LeadingDigit(a: Byte, rest: nat, width: nat)
    ensures LittleEndian(a as int + 256 * rest, width + 1) == [a] + LittleEndian(rest, width)
  {
  }

  /** Fixed widths: 2, 4 and 8 bytes for smallint, int and bigint, one for tinyint and boolean. */
  lemma NumberImages()
    ensures EncodeBasic(Short16(258)) == [2, 1]
    ensures EncodeBasic(Int(-2)) == [0xFE, 0xFF, 0xFF, 0xFF]
    ensures EncodeBasic(Long(5)) == [5, 0, 0, 0, 0, 0, 0, 0]
    ensures EncodeBasic(Tiny(200)) == [200]
    ensures EncodeBasic(Float(0x3F80_0000)) == [0, 0, 0x80, 0x3F]
    ensures EncodeBasic(Double(6)) == [6, 0, 0, 0, 0, 0, 0, 0]
  {
    hide LittleEndian;
    Pow256Widths();
    Digits(2, 1, 0, 0);
    Digits(0xFE, 0xFF, 0xFF, 0xFF);
    Digits(0, 0, 0x80, 0x3F);
    SmallNumber(5);
    SmallNumber(6);
  }

  /** Eight bytes of length before text and blobs. */
  lemma CountedImages()
    ensures EncodeBasic(Text([97, 98])) == [2, 0, 0, 0, 0, 0, 0, 0, 97, 98]
    ensures EncodeBasic(Blob([7])) == [1, 0, 0, 0, 0, 0, 0, 0, 7]
    ensures EncodeBasic(Inet4([127, 0, 0, 1])) == [0, 127, 0, 0, 1]
  {
    hide LittleEndian;
    SmallNumber(1);
    SmallNumber(2);
  }

  /** A sign and a length before a big number ... */
  lemma BigNumberImage()
    ensures EncodeBasic(Big(VarInt(true, [1, 0]))) == [1, 2, 0, 0, 0, 0, 0, 0, 0, 1, 0]
  {
    hide LittleEndian;
    SmallNumber(2);
  }

  /** ... and the scale before a decimal. */
  lemma DecimalImage()
    ensures EncodeBasic(Dec(Decimal(3, VarInt(false, [5])))) == [3, 0, 0, 0, 0, 1, 0, 0, 0, 0, 0, 0, 0, 5]
  {
    hide LittleEndian;
    SmallNumber(1);
    SmallNumber(3);
  }

  /** Months, days and nanoseconds. */
  lemma DurationImage()
    ensures EncodeBasic(Duration(1, 2, 3)) == [1, 0, 0, 0, 2, 0, 0, 0, 3, 0, 0, 0, 0, 0, 0, 0]
  {
    hide LittleEndian;
    SmallNumber(1);
    SmallNumber(2);
    SmallNumber(3);
  }

  const TINY: Type := BasicType(TinyInt)

  lemma TwoBytesImage(a: Byte, b: Byte)
    ensures EncodeEach([Tiny(a), Tiny(b)], TINY) == [a, b]
    ensures EncodeEach([Tiny(a)], TINY) == [a]
  {
    assert [Tiny(a), Tiny(b)][1..] == [Tiny(b)];
    assert EncodeEach([Tiny(b)], TINY) == Encode(Tiny(b), TINY) + EncodeEach([], TINY);
    assert Encode(Tiny(a), TINY) == [a] && Encode(Tiny(b), TINY) == [b];
  }

  /** A count before lists and sets, none before a vector. */
  lemma ListImages()
    ensures Encode(Array([Tiny(4), Tiny(9)]), List(TINY)) == [2, 0, 0, 0, 0, 0, 0, 0, 4, 9]
    ensures Encode(SetOf([Tiny(4)]), Set(TINY)) == [1, 0, 0, 0, 0, 0, 0, 0, 4]
    ensures Encode(Array([Tiny(4), Tiny(9)]), Vector(TINY, 2)) == [4, 9]
  {
    hide LittleEndian, EncodeEach;
    SmallNumber(1);
    SmallNumber(2);
    TwoBytesImage(4, 9);
  }

  /** A count before a map; of an entry the key first. */
  lemma MapImage()
    ensures Encode(MapOf([Entry(Tiny(4), Tiny(9))]), Map(TINY, TINY)) == [1, 0, 0, 0, 0, 0, 0, 0, 4, 9]
  {
    hide LittleEndian;
    SmallNumber(1);
    assert EncodeEntries([Entry(Tiny(4), Tiny(9))], TINY, TINY) == [4, 9];
  }

  lemma OneBitMask(bits: seq<bool>)
    requires bits == [false, true]
    ensures MaskBytes(bits) == [2, 0, 0, 0, 0, 0, 0, 0]
  {
    hide LittleEndian;
    SmallNumber(2);
    assert bits[1..] == [true];
    assert BitsValue([true]) == 1 + 2 * BitsValue([]);
  }

  lemma SecondFieldImage()
    ensures EncodeFields([Null, Tiny(9)], [TINY, TINY]) == [9]
  {
    assert [Null, Tiny(9)][1..] == [Tiny(9)] && [TINY, TINY][1..] == [TINY];
    assert EncodeFields([Tiny(9)], [TINY]) == Encode(Tiny(9), TINY) + EncodeFields([], []);
    assert Encode(Tiny(9), TINY) == [9] && Encode(Null, TINY) == [];
  }

  /** A mask before the fields that are not null: the second bit for the second field. A user-defined type has the
      number of its fields before that. */
  lemma TupleImages()
    ensures Encode(Array([Null, Tiny(9)]), Tuple([TINY, TINY])) == [2, 0, 0, 0, 0, 0, 0, 0, 9]
    ensures Encode(Array([Null, Tiny(9)]), Udt([TINY, TINY])) == [2, 0, 0, 0, 0, 0, 0, 0, 2, 0, 0, 0, 0, 0, 0, 0, 9]
  {
    hide LittleEndian, MaskBytes, EncodeFields;
    SmallNumber(2);
    OneBitMask(Presence([Null, Tiny(9)], 2));
    SecondFieldImage();
  }

  // ---- rows ----

  /** A table of one key column and one regular column. */
  const TWO_COLUMNS: R.Table := R.Table([R.Column(TINY, true, 0), R.Column(TINY, false, 0)], [0])

  /** A row with a time to live, whose regular cell has a write time. */
  const ONE_ROW: R.Row :=
    R.Row([Tiny(4), Tiny(9)], [true, true], [R.None, R.Some(R.CellMeta(2, 0, 7))], R.RowMeta(1, 5))

  lemma KeyAndCells()
    ensures R.TableValid(TWO_COLUMNS)
    ensures R.EncodeKeyFrom(TWO_COLUMNS, ONE_ROW, 0) == [4]
    ensures R.EncodeCells(TWO_COLUMNS, ONE_ROW, 0) == [2, 7, 0, 0, 0, 0, 0, 0, 0, 9]
  {
    hide LittleEndian;
    SmallNumber(7);
    Pow256Widths();
    assert Encode(Tiny(4), TINY) == [4] && Encode(Tiny(9), TINY) == [9];
    assert R.EncodeKeyFrom(TWO_COLUMNS, ONE_ROW, 1) == [];
    assert R.EncodeCellMeta(R.CellMeta(2, 0, 7)) == [2, 7, 0, 0, 0, 0, 0, 0, 0];
    assert R.EncodeCell(TWO_COLUMNS, ONE_ROW, 0) == [];
    assert R.EncodeCells(TWO_COLUMNS, ONE_ROW, 2) == [];
    assert R.EncodeCells(TWO_COLUMNS, ONE_ROW, 1) == R.EncodeCell(TWO_COLUMNS, ONE_ROW, 1) + [];
  }

  /** The key's value; the row's flags and expiry; the number of columns; the mask of the cells and that of the cells
      with metadata; for each cell its metadata, of which only the flagged fields are stored, and its value. */
  lemma RowImage()
    ensures R.TableValid(TWO_COLUMNS)
    ensures R.EncodeRow(TWO_COLUMNS, ONE_ROW)
         == [4] + [1] + [5, 0, 0, 0, 0, 0, 0, 0] + [2, 0, 0, 0, 0, 0, 0, 0] + [2, 0, 0, 0, 0, 0, 0, 0]
          + [2, 0, 0, 0, 0, 0, 0, 0] + [2, 7, 0, 0, 0, 0, 0, 0, 0] + [9]
  {
    hide LittleEndian, MaskBytes, R.EncodeKeyFrom, R.EncodeCells;
    KeyAndCells();
    SmallNumber(2);
    SmallNumber(5);
    Pow256Widths();
    OneBitMask(R.ActiveBits(TWO_COLUMNS, ONE_ROW));
    OneBitMask(R.MetaBits(TWO_COLUMNS, ONE_ROW));
    assert R.Signed8(5) == [5, 0, 0, 0, 0, 0, 0, 0];
  }

  // ---- types ----

  lemma BasicImage(kind: Byte)
    ensures T.Encode(T.Basic(kind)) == [kind] && T.EncodeAll([T.Basic(kind)]) == [kind]
  {
    assert [T.Basic(kind)][1..] == [];
  }

  /** The kinds behind the basic ones: list, set, map, vector, tuple, user-defined type; then whether it is frozen;
      then its parts. */
  lemma TypeImages(a: Byte, b: Byte)
    ensures T.Encode(T.List(T.Basic(a), true)) == [22, 1, a]
    ensures T.Encode(T.Set(T.Basic(a), false)) == [23, 0, a]
    ensures T.Encode(T.Map(T.Basic(a), T.Basic(b), false)) == [24, 0, a, b]
  {
    BasicImage(a);
    BasicImage(b);
  }

  lemma CountedTypeImages(a: Byte)
    ensures T.Encode(T.Vector(T.Basic(a), 3, false)) == [25, 0, 3, 0, 0, 0, 0, 0, 0, 0, a]
    ensures T.Encode(T.Tuple([T.Basic(a)], false)) == [26, 0, 1, 0, 0, 0, 0, 0, 0, 0, a]
    ensures T.Encode(T.Udt([97])) == [27, 0, 1, 0, 0, 0, 0, 0, 0, 0, 97]
  {
    hide LittleEndian, T.EncodeAll;
    SmallNumber(1);
    SmallNumber(3);
    BasicImage(a);
  }
}
