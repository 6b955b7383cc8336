/** The codec as it runs: writers that append to a buffer, readers and skippers that move a cursor. */
module ValueStream {

  import opened Wire
  import opened ColumnValues
  import opened ValueCodec

  // ---- skipping, on offsets ----

  function Skip(b: Bytes, off: nat, t: Type): Read<()>
    decreases t, 1, 0
  {
    match t
    case BasicType(kind) => SkipBasic(b, off, kind)
    case List(element) => (match TakeU64(b, off)
                           case Done(n, next) => SkipEach(b, next, element, n)
                           case _ => Short)
    case Set(key) => (match TakeU64(b, off)
                      case Done(n, next) => SkipEach(b, next, key, n)
                      case _ => Short)
    case Map(_, _) => (match TakeU64(b, off)
                       case Done(n, next) => SkipEntries(b, next, t, n)
                       case _ => Short)
    case Vector(element, count) => SkipEach(b, off, element, count)
    case Tuple(fields) => SkipMasked(b, off, fields, |fields|)
    case Udt(fields) => (match TakeU64(b, off)
                         case Done(written, next) =>
                           if written > |fields| then Corrupt else SkipMasked(b, next, fields, written)
                         case _ => Short)
  }

  function SkipEach(b: Bytes, off: nat, t: Type, n: nat): Read<()>
    decreases t, 2, n
  {
    if n == 0 then Done((), off)
    else
      match Skip(b, off, t)
      case Done(_, next) => SkipEach(b, next, t, n - 1)
      case stopped => stopped
  }

  function SkipEntry(b: Bytes, off: nat, t: Type): Read<()>
    requires t.Map?
    decreases t, 0, 0
  {
    match Skip(b, off, t.key)
    case Done(_, next) => Skip(b, next, t.value)
    case stopped => stopped
  }

  function SkipEntries(b: Bytes, off: nat, t: Type, n: nat): Read<()>
    requires t.Map?
    decreases t, 0, n
  {
    if n == 0 then Done((), off)
    else
      match SkipEntry(b, off, t)
      case Done(_, next) => SkipEntries(b, next, t, n - 1)
      case stopped => stopped
  }

  function SkipMasked(b: Bytes, off: nat, fields: seq<Type>, count: nat): Read<()>
    requires count <= |fields|
    decreases fields, 1, 0
  {
    match TakeMask(b, off, Words(count))
    case Done(mask, next) => SkipFields(b, next, mask, fields, 0, count)
    case _ => Short
  }

  function SkipFields(b: Bytes, off: nat, mask: seq<U64>, fields: seq<Type>, i: nat, count: nat): Read<()>
    requires i <= count <= |fields| && count <= 64 * |mask|
    decreases fields, 0, count - i
  {
    if i == count then Done((), off)
    else if !MaskBit(mask, i) then SkipFields(b, off, mask, fields, i + 1, count)
    else
      match Skip(b, off, fields[i])
      case Done(_, next) => SkipFields(b, next, mask, fields, i + 1, count)
      case stopped => stopped
  }

  /** On any bytes whatever, skipping a value ends where reading it would, or fails as reading it would. */
  lemma {:induction false} SkipMatchesRead(b: Bytes, off: nat, t: Type)
    ensures Skip(b, off, t) == Forget(Decode(b, off, t))
    decreases t, 1, 0
  {
    hide DecodeBasic, SkipBasic, InsertMembers, InsertEntries, Nulls;
    match t
    case BasicType(kind) => SkipBasicMatchesRead(b, off, kind);
    case List(element) => CountedEachMatches(b, off, element);
    case Set(key) => CountedEachMatches(b, off, key);
    case Map(_, _) => if TakeU64(b, off).Done? { SkipEntriesMatch(b, off + 8, t, TakeU64(b, off).value); }
    case Vector(element, count) => SkipEachMatches(b, off, element, count);
    case Tuple(fields) => SkipMaskedMatches(b, off, fields, |fields|);
    case Udt(fields) =>
      if TakeU64(b, off).Done? && TakeU64(b, off).value <= |fields| {
        SkipMaskedMatches(b, off + 8, fields, TakeU64(b, off).value);
      }
  }

  lemma {:induction false} CountedEachMatches(b: Bytes, off: nat, t: Type)
    ensures TakeU64(b, off).Done? ==>
              var n := TakeU64(b, off).value;
              SkipEach(b, off + 8, t, n) == Forget(DecodeEach(b, off + 8, t, n))
    decreases t, 3, 0
  {
    if TakeU64(b, off).Done? { SkipEachMatches(b, off + 8, t, TakeU64(b, off).value); }
  }

  lemma {:induction false} SkipEachMatches(b: Bytes, off: nat, t: Type, n: nat)
    ensures SkipEach(b, off, t, n) == Forget(DecodeEach(b, off, t, n))
    decreases t, 2, n
  {
    hide Skip, Decode;
    if n > 0 {
      SkipMatchesRead(b, off, t);
      if Decode(b, off, t).Done? { SkipEachMatches(b, Decode(b, off, t).next, t, n - 1); }
    }
  }

  lemma {:induction false} SkipEntryMatches(b: Bytes, off: nat, t: Type)
    requires t.Map?
    ensures SkipEntry(b, off, t) == Forget(DecodeEntry(b, off, t))
    decreases t, 0, 0
  {
    hide Skip, Decode;
    SkipMatchesRead(b, off, t.key);
    if Decode(b, off, t.key).Done? { SkipMatchesRead(b, Decode(b, off, t.key).next, t.value); }
  }

  lemma {:induction false} SkipEntriesMatch(b: Bytes, off: nat, t: Type, n: nat)
    requires t.Map?
    ensures SkipEntries(b, off, t, n) == Forget(DecodeEntries(b, off, t, n))
    decreases t, 0, n
  {
    hide SkipEntry, DecodeEntry;
    if n > 0 {
      SkipEntryMatches(b, off, t);
      if DecodeEntry(b, off, t).Done? { SkipEntriesMatch(b, DecodeEntry(b, off, t).next, t, n - 1); }
    }
  }

  lemma {:induction false} SkipMaskedMatches(b: Bytes, off: nat, fields: seq<Type>, count: nat)
    requires count <= |fields|
    ensures SkipMasked(b, off, fields, count) == Forget(DecodeMasked(b, off, fields, count))
    decreases fields, 1, 0
  {
    hide DecodeFields, SkipFields, TakeMask;
    var mask := TakeMask(b, off, Words(count));
    if mask.Done? { SkipFieldsMatch(b, mask.next, mask.value, fields, 0, count); }
  }

  lemma {:induction false} SkipFieldsMatch(b: Bytes, off: nat, mask: seq<U64>, fields: seq<Type>, i: nat, count: nat)
    requires i <= count <= |fields| && count <= 64 * |mask|
    ensures SkipFields(b, off, mask, fields, i, count) == Forget(DecodeFields(b, off, mask, fields, i, count))
    decreases fields, 0, count - i
  {
    hide Skip, Decode, MaskBit;
    if i < count {
      if MaskBit(mask, i) {
        SkipMatchesRead(b, off, fields[i]);
        if Decode(b, off, fields[i]).Done? {
          SkipFieldsMatch(b, Decode(b, off, fields[i]).next, mask, fields, i + 1, count);
        }
      } else {
        SkipFieldsMatch(b, off, mask, fields, i + 1, count);
      }
    }
  }

  // ---- writing masks ----

  ghost function Bits(isSet: nat -> bool, count: nat): (bits: seq<bool>)
    ensures |bits| == count
  {
    seq(count, i requires 0 <= i => isSet(i))
  }

  function Zeros(n: nat): (bits: seq<bool>)
    ensures |bits| == n && forall i :: 0 <= i < n ==> !bits[i]
  {
    seq(n, i requires 0 <= i => false)
  }

  lemma {:induction false} ZerosAreZero(n: nat)
    ensures BitsValue(Zeros(n)) == 0
  {
    if n > 0 {
      assert Zeros(n)[1..] == Zeros(n - 1);
      ZerosAreZero(n - 1);
    }
  }

  /** Zeros at the end add nothing. */
  lemma {:induction false} FillUp(bits: seq<bool>, n: nat)
    ensures BitsValue(bits + Zeros(n)) == BitsValue(bits)
  {
    if bits == [] {
      ZerosAreZero(n);
      assert bits + Zeros(n) == Zeros(n);
    } else {
      assert (bits + Zeros(n))[1..] == bits[1..] + Zeros(n);
      FillUp(bits[1..], n);
    }
  }

  /** Full words come first. */
  lemma {:induction false} MaskSplit(bits: seq<bool>, words: nat)
    requires 64 * words <= |bits|
    ensures MaskBytes(bits) == MaskBytes(bits[..64 * words]) + MaskBytes(bits[64 * words..])
    decreases words
  {
    if words == 0 {
      assert bits[..0] == [] && bits[0..] == bits;
    } else if |bits| == 64 * words {
      assert bits[..64 * words] == bits && bits[64 * words..] == [];
    } else {
      MaskSplit(bits[64..], words - 1);
      var head := bits[..64 * words];
      assert head[..64] == bits[..64] && head[64..] == bits[64..][..64 * (words - 1)];
      assert bits[64..][64 * (words - 1)..] == bits[64 * words..];
      assert MaskBytes(head) == LittleEndian(WordOf(bits[..64]), 8) + MaskBytes(head[64..]) by {
        if words == 1 { assert head[..64] == head && head[64..] == []; }
      }
    }
  }

  lemma OneWord(bits: seq<bool>)
    requires 0 < |bits| <= 64
    ensures MaskBytes(bits) == LittleEndian(WordOf(bits), 8)
  {
  }

  lemma LastWord(bits: seq<bool>, words: nat)
    requires 64 * words < |bits| <= 64 * words + 64
    ensures MaskBytes(bits)
         == MaskBytes(bits[..64 * words])
            + LittleEndian(WordOf(bits[64 * words..] + Zeros(64 * words + 64 - |bits|)), 8)
  {
    MaskSplit(bits, words);
    OneWord(bits[64 * words..]);
    FillUp(bits[64 * words..], 64 * words + 64 - |bits|);
  }

  /** write_mask_bits: one word is filled at a time and written when it is full. */
  method WriteMaskBits(w: Writer, isSet: nat -> bool, count: nat)
    modifies w
    ensures w.out == old(w.out) + MaskBytes(Bits(isSet, count))
  {
    hide MaskBytes;
    var mask := Zeros(64);
    ghost var all := Bits(isSet, count);
    ghost var words := 0;
    MaskOfNone();
    assert old(w.out) + [] == w.out;
    for idx := 0 to count
      invariant words == idx / 64 && 64 * words <= idx
      invariant w.out == old(w.out) + MaskBytes(all[..64 * words])
      invariant mask == all[64 * words..idx] + Zeros(64 - idx % 64)
    {
      mask := mask[idx % 64 := isSet(idx)];
      assert mask == all[64 * words..idx + 1] + Zeros(63 - idx % 64);
      if idx % 64 == 63 {
        var part := all[..idx + 1];
        LastWord(part, words);
        assert part[64 * words..] == all[64 * words..idx + 1] && part[..64 * words] == all[..64 * words];
        w.Put(LittleEndian(WordOf(mask), 8));
        mask := Zeros(64);
        words := words + 1;
      }
    }
    assert all[..count] == all;
    if count % 64 != 0 {
      LastWord(all, words);
      w.Put(LittleEndian(WordOf(mask), 8));
    }
  }

  lemma MaskOfNone()
    ensures MaskBytes([]) == []
  {
  }

  // ---- writing values ----

  /** can_write_column_value. */
  predicate CanWrite(v: Value, t: Type) {
    match v
    case Null => true
    case Array(_) => t.List? || t.Vector? || t.Tuple? || t.Udt?
    case SetOf(_) => t.Set?
    case MapOf(_) => t.Map?
    case _ => t.BasicType? && CanWriteBasic(v, t.kind)
  }

  /** The check passes for the value and for all the writer visits below it. */
  ghost predicate Writable(v: Value, t: Type)
    decreases v, 1
  {
    && CanWrite(v, t)
    && match v
       case Array(items) =>
         if t.Tuple? || t.Udt? then WritableFields(items, t.fields) else WritableEach(items, t.element)
       case SetOf(members) => WritableEach(members, t.key)
       case MapOf(entries) => WritableEntries(entries, t.key, t.value)
       case _ => true
  }

  ghost predicate WritableEach(items: seq<Value>, t: Type)
    decreases items, 0
  {
    forall i :: 0 <= i < |items| ==> Writable(items[i], t)
  }

  ghost predicate WritableFields(items: seq<Value>, fields: seq<Type>)
    decreases items, 0
  {
    forall i :: 0 <= i < |items| && i < |fields| ==> Writable(items[i], fields[i])
  }

  ghost predicate WritableEntry(e: Entry, key: Type, value: Type)
    decreases e, 0
  {
    Writable(e.key, key) && Writable(e.value, value)
  }

  ghost predicate WritableEntries(entries: seq<Entry>, key: Type, value: Type)
    decreases entries, 0
  {
    forall i :: 0 <= i < |entries| ==> WritableEntry(entries[i], key, value)
  }

  /** write_column_value. */
  method WriteValue(w: Writer, v: Value, t: Type)
    requires Writable(v, t)
    modifies w
    ensures w.out == old(w.out) + Encode(v, t)
    decreases v, 2, 0
  {
    hide EncodeEach, EncodeEntries, EncodeBasic, CanWriteBasic, LittleEndian;
    match v
    case Null => assert w.out + [] == w.out;
    case Array(items) => WriteArray(w, v, t);
    case SetOf(members) =>
      w.Put(LittleEndian(|members|, 8));
      WriteEach(w, members, t.key);
    case MapOf(entries) =>
      w.Put(LittleEndian(|entries|, 8));
      WriteEntries(w, entries, t.key, t.value);
    case _ => w.Put(EncodeBasic(v));
  }

  method WriteArray(w: Writer, v: Value, t: Type)
    requires v.Array? && Writable(v, t)
    modifies w
    ensures w.out == old(w.out) + Encode(v, t)
    decreases v, 1, 0
  {
    hide LittleEndian, MaskBytes, EncodeFields;
    var items := v.items;
    if t.Tuple? || t.Udt? {
      if t.Udt? { w.Put(LittleEndian(|t.fields|, 8)); }
      WriteMasked(w, items, t.fields);
    } else {
      if !t.Vector? { w.Put(LittleEndian(|items|, 8)); }
      WriteEach(w, items, t.element);
    }
  }

  method WriteEach(w: Writer, items: seq<Value>, t: Type)
    requires WritableEach(items, t)
    modifies w
    ensures w.out == old(w.out) + EncodeEach(items, t)
    decreases items, 0, 0
  {
    hide Writable, Encode;
    assert items[0..] == items;
    for i := 0 to |items|
      invariant w.out + EncodeEach(items[i..], t) == old(w.out) + EncodeEach(items, t)
    {
      assert items[i..][0] == items[i] && items[i..][1..] == items[i + 1..];
      Regroup(w.out, Encode(items[i], t), EncodeEach(items[i + 1..], t));
      WriteValue(w, items[i], t);
    }
    assert w.out + [] == w.out;
  }

  method WriteEntries(w: Writer, entries: seq<Entry>, key: Type, value: Type)
    requires WritableEntries(entries, key, value)
    modifies w
    ensures w.out == old(w.out) + EncodeEntries(entries, key, value)
    decreases entries, 0, 0
  {
    hide Writable, Encode;
    assert entries[0..] == entries;
    for i := 0 to |entries|
      invariant w.out + EncodeEntries(entries[i..], key, value) == old(w.out) + EncodeEntries(entries, key, value)
    {
      assert entries[i..][0] == entries[i] && entries[i..][1..] == entries[i + 1..];
      Regroup(w.out, EncodeEntry(entries[i], key, value), EncodeEntries(entries[i + 1..], key, value));
      WriteEntry(w, entries[i], key, value);
    }
    assert w.out + [] == w.out;
  }

  method WriteEntry(w: Writer, e: Entry, key: Type, value: Type)
    requires WritableEntry(e, key, value)
    modifies w
    ensures w.out == old(w.out) + EncodeEntry(e, key, value)
    decreases e, 0, 0
  {
    hide Writable, Encode;
    Regroup(w.out, Encode(e.key, key), Encode(e.value, value));
    WriteValue(w, e.key, key);
    WriteValue(w, e.value, value);
  }

  lemma Regroup(x: Bytes, y: Bytes, z: Bytes)
    ensures (x + y) + z == x + (y + z)
  {
  }

  function Least(m: nat, n: nat): nat {
    if m < n then m else n
  }

  /** write_masked_payloads: the mask is put together first, then its words are written, then the payloads of
      the fields whose bit is set. */
  method WriteMasked(w: Writer, items: seq<Value>, fields: seq<Type>)
    requires WritableFields(items, fields)
    modifies w
    ensures w.out == old(w.out) + (MaskBytes(Presence(items, |fields|)) + EncodeFields(items, fields))
    decreases items, 1, 0
  {
    hide MaskBytes, EncodeFields, Writable;
    var mask := BuildMask(items, |fields|);
    WriteWords(w, mask, Presence(items, |fields|));
    Regroup(old(w.out), MaskBytes(Presence(items, |fields|)), EncodeFields(items, fields));
    WritePayloads(w, mask, items, fields);
  }

  ghost predicate Holds(mask: seq<seq<bool>>, bits: seq<bool>) {
    && |mask| == Words(|bits|) && (forall j :: 0 <= j < |mask| ==> |mask[j]| == 64)
    && forall j, k :: 0 <= j < |mask| && 0 <= k < 64 ==> mask[j][k] == (64 * j + k < |bits| && bits[64 * j + k])
  }

  method BuildMask(items: seq<Value>, count: nat) returns (mask: seq<seq<bool>>)
    ensures Holds(mask, Presence(items, count))
  {
    var zeros := Zeros(64);
    mask := seq(Words(count), i requires 0 <= i => zeros);
    assert forall j :: 0 <= j < |mask| ==> mask[j] == zeros;
    var n := Least(|items|, count);
    for i := 0 to n
      invariant |mask| == Words(count) && forall j :: 0 <= j < |mask| ==> |mask[j]| == 64
      invariant forall j, k :: 0 <= j < |mask| && 0 <= k < 64 ==>
          mask[j][k] == (64 * j + k < i && !items[64 * j + k].Null?)
    {
      ghost var before := mask;
      if !items[i].Null? {
        mask := mask[i / 64 := mask[i / 64][i % 64 := true]];
      }
      forall j, k | 0 <= j < |mask| && 0 <= k < 64
        ensures mask[j][k] == (64 * j + k < i + 1 && !items[64 * j + k].Null?)
      {
        SamePlace(i, j, k);
        assert before[j][k] == (64 * j + k < i && !items[64 * j + k].Null?);
      }
    }
  }

  lemma SamePlace(i: nat, j: nat, k: nat)
    requires k < 64
    ensures 64 * j + k == i <==> j == i / 64 && k == i % 64
  {
  }

  method WriteWords(w: Writer, mask: seq<seq<bool>>, ghost bits: seq<bool>)
    requires Holds(mask, bits)
    modifies w
    ensures w.out == old(w.out) + MaskBytes(bits)
  {
    hide MaskBytes;
    MaskOfNone();
    assert old(w.out) + [] == w.out;
    for j := 0 to |mask|
      invariant w.out == old(w.out) + MaskBytes(bits[..Least(64 * j, |bits|)])
    {
      var part := bits[..Least(64 * j + 64, |bits|)];
      LastWord(part, j);
      assert part[..64 * j] == bits[..64 * j];
      assert part[64 * j..] + Zeros(64 * j + 64 - |part|) == mask[j];
      w.Put(LittleEndian(WordOf(mask[j]), 8));
    }
    assert bits[..|bits|] == bits;
  }

  method WritePayloads(w: Writer, mask: seq<seq<bool>>, items: seq<Value>, fields: seq<Type>)
    requires WritableFields(items, fields) && Holds(mask, Presence(items, |fields|))
    modifies w
    ensures w.out == old(w.out) + EncodeFields(items, fields)
    decreases items, 0, 0
  {
    hide Writable, Encode;
    assert items[0..] == items && fields[0..] == fields;
    var n := Least(|items|, |fields|);
    for i := 0 to n
      invariant w.out + EncodeFields(items[i..], fields[i..]) == old(w.out) + EncodeFields(items, fields)
    {
      assert items[i..][0] == items[i] && items[i..][1..] == items[i + 1..] && fields[i..][1..] == fields[i + 1..];
      Regroup(w.out, Encode(items[i], fields[i]), EncodeFields(items[i + 1..], fields[i + 1..]));
      NullWritesNothing(w.out, fields[i]);
      assert mask[i / 64][i % 64] == Presence(items, |fields|)[64 * (i / 64) + i % 64];
      if !mask[i / 64][i % 64] { continue; }
      WriteValue(w, items[i], fields[i]);
    }
    assert w.out + [] == w.out;
  }

  lemma NullWritesNothing(out: Bytes, t: Type)
    ensures out + Encode(Null, t) == out
  {
  }

  // ---- reading values ----

  function Prepended<T>(first: seq<T>, r: Read<seq<T>>): Read<seq<T>> {
    match r
    case Done(rest, next) => Done(first + rest, next)
    case Short => Short
    case Corrupt => Corrupt
  }

  lemma PrependedNothing<T>(r: Read<seq<T>>)
    ensures Prepended([], r) == r
  {
    if r.Done? { assert [] + r.value == r.value; }
  }

  lemma PrependedTwice<T>(first: seq<T>, v: T, r: Read<seq<T>>)
    ensures Prepended(first, Prepended([v], r)) == Prepended(first + [v], r)
  {
    if r.Done? { assert first + ([v] + r.value) == (first + [v]) + r.value; }
  }

  lemma PrependedToNothing<T>(first: seq<T>, next: nat)
    ensures Prepended(first, Done([], next)) == Done(first, next)
  {
    assert first + [] == first;
  }

  /** The cursor stands where the result says. */
  ghost predicate Moved<T>(cursor: Reader, r: Read<T>)
    reads cursor
  {
    r.Done? ==> cursor.pos == r.next
  }

  /** read_mask. */
  method ReadMask(cursor: Reader, count: nat) returns (r: Read<seq<U64>>)
    modifies cursor
    ensures r == TakeMask(cursor.data, old(cursor.pos), Words(count)) && Moved(cursor, r)
  {
    var n := Words(count);
    var mask := [];
    PrependedNothing(TakeMask(cursor.data, cursor.pos, n));
    for i := 0 to n
      invariant TakeMask(cursor.data, old(cursor.pos), n) == Prepended(mask, TakeMask(cursor.data, cursor.pos, n - i))
    {
      var word := cursor.NextU64();
      if !word.Done? { return Short; }
      PrependedTwice(mask, word.value, TakeMask(cursor.data, word.next, n - i - 1));
      mask := mask + [word.value];
    }
    PrependedToNothing(mask, cursor.pos);
    r := Done(mask, cursor.pos);
  }

  /** read_column_value, as Decode says. */
  method ReadValue(cursor: Reader, t: Type) returns (r: Read<Value>)
    modifies cursor
    ensures r == Decode(cursor.data, old(cursor.pos), t) && Moved(cursor, r)
    decreases t, 2, 0
  {
    hide DecodeBasic, DecodeEach, DecodeEntries, DecodeMasked, TakeU64, InsertMembers, InsertEntries;
    match t
    case BasicType(kind) =>
      r := DecodeBasic(cursor.data, cursor.pos, kind);
      if r.Done? { cursor.pos := r.next; }
    case List(element) =>
      var n := cursor.NextU64();
      if !n.Done? { return Short; }
      var items := ReadEach(cursor, element, n.value);
      r := ToArray(items);
    case Set(key) => r := ReadSet(cursor, t);
    case Map(_, _) => r := ReadMap(cursor, t);
    case Vector(element, count) =>
      var items := ReadEach(cursor, element, count);
      r := ToArray(items);
    case Tuple(fields) =>
      var items := ReadMasked(cursor, fields, |fields|);
      r := ToArray(items);
    case Udt(fields) => r := ReadUdt(cursor, t);
  }

  /** Every member read is inserted as it comes. */
  method ReadSet(cursor: Reader, t: Type) returns (r: Read<Value>)
    requires t.Set?
    modifies cursor
    ensures r == Decode(cursor.data, old(cursor.pos), t) && Moved(cursor, r)
    decreases t, 1, 0
  {
    hide Decode, TakeU64, InsertMember;
    var n := cursor.NextU64();
    CountedStep(cursor.data, old(cursor.pos), t);
    if !n.Done? { return Short; }
    var members := [];
    ghost var read := [];
    ghost var all := DecodeEach(cursor.data, cursor.pos, t.key, n.value);
    PrependedNothing(all);
    for i := 0 to n.value
      invariant all == Prepended(read, DecodeEach(cursor.data, cursor.pos, t.key, n.value - i))
      invariant members == InsertMembers([], read)
    {
      ghost var start := cursor.pos;
      var v := ReadValue(cursor, t.key);
      if !v.Done? { return Failed(v); }
      PrependedTwice(read, v.value, DecodeEach(cursor.data, v.next, t.key, n.value - i - 1));
      InsertedLast([], read, v.value);
      members := InsertMember(members, v.value);
      read := read + [v.value];
    }
    PrependedToNothing(read, cursor.pos);
    r := Done(SetOf(members), cursor.pos);
  }

  /** Every entry read is inserted as it comes. */
  method ReadMap(cursor: Reader, t: Type) returns (r: Read<Value>)
    requires t.Map?
    modifies cursor
    ensures r == Decode(cursor.data, old(cursor.pos), t) && Moved(cursor, r)
    decreases t, 1, 0
  {
    hide Decode, TakeU64, InsertEntry;
    var n := cursor.NextU64();
    CountedStep(cursor.data, old(cursor.pos), t);
    if !n.Done? { return Short; }
    var entries := [];
    ghost var read := [];
    ghost var all := DecodeEntries(cursor.data, cursor.pos, t, n.value);
    PrependedNothing(all);
    for i := 0 to n.value
      invariant all == Prepended(read, DecodeEntries(cursor.data, cursor.pos, t, n.value - i))
      invariant entries == InsertEntries([], read)
    {
      var k := ReadValue(cursor, t.key);
      if !k.Done? { return Failed(k); }
      var v := ReadValue(cursor, t.value);
      if !v.Done? { return Failed(v); }
      ghost var e := Entry(k.value, v.value);
      PrependedTwice(read, e, DecodeEntries(cursor.data, v.next, t, n.value - i - 1));
      InsertedEntryLast([], read, e);
      entries := InsertEntry(entries, k.value, v.value);
      read := read + [e];
    }
    PrependedToNothing(read, cursor.pos);
    r := Done(MapOf(entries), cursor.pos);
  }

  function Failed<T, U>(r: Read<T>): Read<U>
    requires !r.Done?
  {
    if r.Short? then Short else Corrupt
  }

  lemma CountedStep(b: Bytes, off: nat, t: Type)
    requires t.Set? || t.Map?
    ensures var n := TakeU64(b, off);
            Decode(b, off, t) ==
              if !n.Done? then Short
              else if t.Set? then ToSet(DecodeEach(b, n.next, t.key, n.value))
              else ToMap(DecodeEntries(b, n.next, t, n.value))
  {
  }

  lemma {:induction false} InsertedLast(members: seq<Value>, more: seq<Value>, v: Value)
    ensures InsertMembers(members, more + [v]) == InsertMember(InsertMembers(members, more), v)
    decreases |more|
  {
    hide InsertMember;
    if more != [] {
      assert (more + [v])[1..] == more[1..] + [v];
      InsertedLast(InsertMember(members, more[0]), more[1..], v);
    } else {
      assert (more + [v])[1..] == [];
    }
  }

  lemma {:induction false} InsertedEntryLast(entries: seq<Entry>, more: seq<Entry>, e: Entry)
    ensures InsertEntries(entries, more + [e]) == InsertEntry(InsertEntries(entries, more), e.key, e.value)
    decreases |more|
  {
    hide InsertEntry;
    if more != [] {
      assert (more + [e])[1..] == more[1..] + [e];
      InsertedEntryLast(InsertEntry(entries, more[0].key, more[0].value), more[1..], e);
    } else {
      assert (more + [e])[1..] == [];
    }
  }

  method ReadEach(cursor: Reader, t: Type, n: nat) returns (r: Read<seq<Value>>)
    modifies cursor
    ensures r == DecodeEach(cursor.data, old(cursor.pos), t, n) && Moved(cursor, r)
    decreases t, 3, 0
  {
    hide Decode;
    var items := [];
    PrependedNothing(DecodeEach(cursor.data, cursor.pos, t, n));
    for i := 0 to n
      invariant DecodeEach(cursor.data, old(cursor.pos), t, n)
          == Prepended(items, DecodeEach(cursor.data, cursor.pos, t, n - i))
    {
      var v := ReadValue(cursor, t);
      if !v.Done? { return Failed(v); }
      PrependedTwice(items, v.value, DecodeEach(cursor.data, v.next, t, n - i - 1));
      items := items + [v.value];
    }
    PrependedToNothing(items, cursor.pos);
    r := Done(items, cursor.pos);
  }

  /** read_masked_payloads. */
  method ReadMasked(cursor: Reader, fields: seq<Type>, count: nat) returns (r: Read<seq<Value>>)
    requires count <= |fields|
    modifies cursor
    ensures r == DecodeMasked(cursor.data, old(cursor.pos), fields, count) && Moved(cursor, r)
    decreases fields, 1, 0
  {
    hide Decode, TakeMask, MaskBit;
    var mask := ReadMask(cursor, count);
    if !mask.Done? { return Short; }
    var items := [];
    ghost var all := DecodeFields(cursor.data, cursor.pos, mask.value, fields, 0, count);
    PrependedNothing(all);
    for i := 0 to count
      invariant all == Prepended(items, DecodeFields(cursor.data, cursor.pos, mask.value, fields, i, count))
    {
      var v := Done(Null, cursor.pos);
      if MaskBit(mask.value, i) {
        v := ReadValue(cursor, fields[i]);
        if !v.Done? { return Failed(v); }
      }
      PrependedTwice(items, v.value, DecodeFields(cursor.data, v.next, mask.value, fields, i + 1, count));
      items := items + [v.value];
    }
    PrependedToNothing(items, cursor.pos);
    r := Done(items, cursor.pos);
  }

  /** read_udt_fields: as many fields as were written, then nulls up to the type's own number. */
  method ReadUdt(cursor: Reader, t: Type) returns (r: Read<Value>)
    requires t.Udt?
    modifies cursor
    ensures r == Decode(cursor.data, old(cursor.pos), t) && Moved(cursor, r)
    decreases t, 1, 0
  {
    hide DecodeMasked, TakeU64;
    var written := cursor.NextU64();
    if !written.Done? { return Short; }
    if written.value > |t.fields| { return Corrupt; }
    var items := ReadMasked(cursor, t.fields, written.value);
    if !items.Done? { return Failed(items); }
    var arr := items.value;
    for i := written.value to |t.fields|
      invariant arr == items.value + Nulls(i - written.value)
    {
      arr := arr + [Null];
      assert Nulls(i + 1 - written.value) == Nulls(i - written.value) + [Null];
    }
    r := Done(Array(arr), cursor.pos);
  }

  // ---- skipping values ----

  /** skip_column_value: passes over exactly the bytes read_column_value would take. */
  method SkipValue(cursor: Reader, t: Type) returns (r: Read<()>)
    modifies cursor
    ensures r == Forget(Decode(cursor.data, old(cursor.pos), t)) && Moved(cursor, r)
    decreases t, 3, 0
  {
    SkipMatchesRead(cursor.data, cursor.pos, t);
    r := SkipSteps(cursor, t);
  }

  method SkipSteps(cursor: Reader, t: Type) returns (r: Read<()>)
    modifies cursor
    ensures r == Skip(cursor.data, old(cursor.pos), t) && Moved(cursor, r)
    decreases t, 2, 0
  {
    hide SkipBasic, SkipEach, SkipEntries, SkipMasked, TakeU64;
    match t
    case BasicType(kind) =>
      r := SkipBasic(cursor.data, cursor.pos, kind);
      if r.Done? { cursor.pos := r.next; }
    case List(element) => r := SkipCountedEach(cursor, element);
    case Set(key) => r := SkipCountedEach(cursor, key);
    case Map(_, _) =>
      var n := cursor.NextU64();
      if !n.Done? { return Short; }
      r := SkipAllEntries(cursor, t, n.value);
    case Vector(element, count) => r := SkipAll(cursor, element, count);
    case Tuple(fields) => r := SkipPayloads(cursor, fields, |fields|);
    case Udt(fields) =>
      var written := cursor.NextU64();
      if !written.Done? { return Short; }
      if written.value > |fields| { return Corrupt; }
      r := SkipPayloads(cursor, fields, written.value);
  }

  method SkipCountedEach(cursor: Reader, t: Type) returns (r: Read<()>)
    modifies cursor
    ensures var n := TakeU64(cursor.data, old(cursor.pos));
            r == (if n.Done? then SkipEach(cursor.data, n.next, t, n.value) else Short) && Moved(cursor, r)
    decreases t, 4, 0
  {
    hide SkipEach;
    var n := cursor.NextU64();
    if !n.Done? { return Short; }
    r := SkipAll(cursor, t, n.value);
  }

  method SkipAll(cursor: Reader, t: Type, n: nat) returns (r: Read<()>)
    modifies cursor
    ensures r == SkipEach(cursor.data, old(cursor.pos), t, n) && Moved(cursor, r)
    decreases t, 3, 0
  {
    hide Skip;
    for i := 0 to n
      invariant SkipEach(cursor.data, old(cursor.pos), t, n) == SkipEach(cursor.data, cursor.pos, t, n - i)
    {
      r := SkipSteps(cursor, t);
      if !r.Done? { return; }
    }
    r := Done((), cursor.pos);
  }

  method SkipAllEntries(cursor: Reader, t: Type, n: nat) returns (r: Read<()>)
    requires t.Map?
    modifies cursor
    ensures r == SkipEntries(cursor.data, old(cursor.pos), t, n) && Moved(cursor, r)
    decreases t, 1, 0
  {
    hide Skip;
    for i := 0 to n
      invariant SkipEntries(cursor.data, old(cursor.pos), t, n) == SkipEntries(cursor.data, cursor.pos, t, n - i)
    {
      r := SkipSteps(cursor, t.key);
      if !r.Done? { return; }
      r := SkipSteps(cursor, t.value);
      if !r.Done? { return; }
    }
    r := Done((), cursor.pos);
  }

  method SkipPayloads(cursor: Reader, fields: seq<Type>, count: nat) returns (r: Read<()>)
    requires count <= |fields|
    modifies cursor
    ensures r == SkipMasked(cursor.data, old(cursor.pos), fields, count) && Moved(cursor, r)
    decreases fields, 1, 0
  {
    hide Skip, TakeMask, MaskBit;
    var mask := ReadMask(cursor, count);
    if !mask.Done? { return Short; }
    ghost var all := SkipFields(cursor.data, cursor.pos, mask.value, fields, 0, count);
    for i := 0 to count
      invariant all == SkipFields(cursor.data, cursor.pos, mask.value, fields, i, count)
    {
      if MaskBit(mask.value, i) {
        r := SkipSteps(cursor, fields[i]);
        if !r.Done? { return; }
      }
    }
    r := Done((), cursor.pos);
  }
}
