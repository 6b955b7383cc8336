/** Reading inverts writing, also under a type that has grown, and skipping ends where reading does. */
module ValueCodecResults {

  import opened Wire
  import opened ColumnValues
  import opened ValueCodec

  // ---- values that can be read back ----

  /** Values the reader can make sense of: every component in its type's own representation, no null directly
      inside a list, set, map or vector, and a vector of its declared length. */
  ghost predicate Readable(v: Value, t: Type)
    decreases v, 1
  {
    match v
    case Null => false
    case Array(items) =>
      || (t.Tuple? && ReadableFields(items, t.fields))
      || (t.Udt? && |t.fields| < TWO_64 && ReadableFields(items, t.fields))
      || (t.Vector? && |items| == t.count && ReadableEach(items, t.element))
      || (t.List? && |items| < TWO_64 && ReadableEach(items, t.element))
    case SetOf(members) => t.Set? && |members| < TWO_64 && ReadableEach(members, t.key)
    case MapOf(entries) => t.Map? && |entries| < TWO_64 && ReadableEntries(entries, t.key, t.value)
    case _ => t.BasicType? && Native(v, t.kind) && BasicFits(v)
  }

  ghost predicate ReadableEach(items: seq<Value>, t: Type)
    decreases items, 0
  {
    forall i :: 0 <= i < |items| ==> Readable(items[i], t)
  }

  ghost predicate ReadableFields(items: seq<Value>, fields: seq<Type>)
    decreases items, 0
  {
    forall i :: 0 <= i < |items| && i < |fields| ==> items[i].Null? || Readable(items[i], fields[i])
  }

  ghost predicate ReadableEntry(e: Entry, key: Type, value: Type)
    decreases e, 0
  {
    Readable(e.key, key) && Readable(e.value, value)
  }

  ghost predicate ReadableEntries(entries: seq<Entry>, key: Type, value: Type)
    decreases entries, 0
  {
    forall i :: 0 <= i < |entries| ==> ReadableEntry(entries[i], key, value)
  }

  // ---- types that have grown ----

  /** `u` is `t` after any number of fields were added to the user-defined types in it, at any depth. */
  ghost predicate Grown(t: Type, u: Type) {
    match t
    case BasicType(_) => u == t
    case List(element) => u.List? && Grown(element, u.element)
    case Set(key) => u.Set? && Grown(key, u.key)
    case Map(key, value) => u.Map? && Grown(key, u.key) && Grown(value, u.value)
    case Vector(element, count) => u.Vector? && count == u.count && Grown(element, u.element)
    case Tuple(fields) =>
      && u.Tuple? && |fields| == |u.fields|
      && forall i :: 0 <= i < |fields| ==> Grown(fields[i], u.fields[i])
    case Udt(fields) =>
      && u.Udt? && |fields| <= |u.fields|
      && forall i :: 0 <= i < |fields| ==> Grown(fields[i], u.fields[i])
  }

  lemma {:induction false} GrownFromItself(t: Type)
    ensures Grown(t, t)
  {
    match t
    case BasicType(_) =>
    case List(element) => GrownFromItself(element);
    case Set(key) => GrownFromItself(key);
    case Map(key, value) => GrownFromItself(key); GrownFromItself(value);
    case Vector(element, _) => GrownFromItself(element);
    case Tuple(fields) =>
      forall i | 0 <= i < |fields| ensures Grown(fields[i], fields[i]) { GrownFromItself(fields[i]); }
    case Udt(fields) => forall i | 0 <= i < |fields| ensures Grown(fields[i], fields[i]) { GrownFromItself(fields[i]); }
  }

  /** What a value written under `t` reads as under `u`: tuples and user-defined types get exactly the fields of
      the type, null where the value had none; sets and maps keep one of equal members. */
  ghost function Fit(v: Value, t: Type, u: Type): Value
    requires Grown(t, u)
    decreases v, 1, 0
  {
    match v
    case Array(items) =>
      if t.Tuple? then Array(FitFields(items, t.fields, u.fields, 0))
      else if t.Udt? then Array(FitFields(items, t.fields, u.fields, 0) + Nulls(|u.fields| - |t.fields|))
      else if t.Vector? || t.List? then Array(FitEach(items, t.element, u.element))
      else v
    case SetOf(members) => if t.Set? then SetOf(InsertMembers([], FitEach(members, t.key, u.key))) else v
    case MapOf(entries) => if t.Map? then MapOf(InsertEntries([], FitEntries(entries, t, u))) else v
    case _ => v
  }

  ghost function FitEach(items: seq<Value>, t: Type, u: Type): (r: seq<Value>)
    requires Grown(t, u)
    ensures |r| == |items|
    decreases items, 0, 0
  {
    if items == [] then [] else [Fit(items[0], t, u)] + FitEach(items[1..], t, u)
  }

  ghost function FitEntry(e: Entry, t: Type, u: Type): Entry
    requires t.Map? && Grown(t, u)
    decreases e, 0, 0
  {
    Entry(Fit(e.key, t.key, u.key), Fit(e.value, t.value, u.value))
  }

  ghost function FitEntries(entries: seq<Entry>, t: Type, u: Type): (r: seq<Entry>)
    requires t.Map? && Grown(t, u)
    ensures |r| == |entries|
    decreases entries, 0, 0
  {
    if entries == [] then [] else [FitEntry(entries[0], t, u)] + FitEntries(entries[1..], t, u)
  }

  ghost predicate GrownFields(fields: seq<Type>, grown: seq<Type>) {
    |fields| <= |grown| && forall i :: 0 <= i < |fields| ==> Grown(fields[i], grown[i])
  }

  ghost function FitFields(items: seq<Value>, fields: seq<Type>, grown: seq<Type>, i: nat): (r: seq<Value>)
    requires GrownFields(fields, grown) && i <= |fields|
    ensures |r| == |fields| - i
    decreases items, 0, |fields| - i
  {
    if i == |fields| then []
    else [if i < |items| then Fit(items[i], fields[i], grown[i]) else Null] + FitFields(items, fields, grown, i + 1)
  }

  // ---- reading what was written ----

  /** read_column_value inverts write_column_value wherever the value stands, whatever precedes and follows it,
      and ends right behind it; under a type that has grown since, it fills up with nulls. */
  lemma {:induction false} DecodeEncoded(b: Bytes, off: nat, v: Value, t: Type, u: Type)
    requires Readable(v, t) && Grown(t, u) && At(b, off, Encode(v, t))
    ensures Decode(b, off, u) == Done(Fit(v, t, u), off + |Encode(v, t)|)
    decreases v, 2, 0
  {
    hide DecodeBasic, EncodeBasic, Native;
    if v.Array? {
      DecodeArray(b, off, v, t, u);
    } else if v.SetOf? {
      AtParts(b, off, LittleEndian(|v.members|, 8), EncodeEach(v.members, t.key));
      AtU64(b, off, |v.members|);
      DecodeEachEncoded(b, off + 8, v.members, t.key, u.key);
    } else if v.MapOf? {
      AtParts(b, off, LittleEndian(|v.entries|, 8), EncodeEntries(v.entries, t.key, t.value));
      AtU64(b, off, |v.entries|);
      DecodeEntriesEncoded(b, off + 8, v.entries, t, u);
    } else {
      DecodeNative(b, off, v, t.kind);
    }
  }

  lemma {:induction false} DecodeArray(b: Bytes, off: nat, v: Value, t: Type, u: Type)
    requires v.Array? && Readable(v, t) && Grown(t, u) && At(b, off, Encode(v, t))
    ensures Decode(b, off, u) == Done(Fit(v, t, u), off + |Encode(v, t)|)
    decreases v, 1, 0
  {
    hide DecodeEach, DecodeMasked, MaskBytes, LittleEndian, TakeU64, FitEach, FitFields, EncodeEach, EncodeFields;
    var items := v.items;
    if t.Tuple? {
      DecodeMaskedEncoded(b, off, items, t.fields, u.fields);
      assert u.fields == u.fields[..|u.fields|];
    } else if t.Udt? {
      AtParts(b, off, LittleEndian(|t.fields|, 8),
              MaskBytes(Presence(items, |t.fields|)) + EncodeFields(items, t.fields));
      AtU64(b, off, |t.fields|);
      DecodeMaskedEncoded(b, off + 8, items, t.fields, u.fields);
    } else if t.Vector? {
      DecodeEachEncoded(b, off, items, t.element, u.element);
    } else {
      AtParts(b, off, LittleEndian(|items|, 8), EncodeEach(items, t.element));
      AtU64(b, off, |items|);
      DecodeEachEncoded(b, off + 8, items, t.element, u.element);
    }
  }

  lemma {:induction false} DecodeEachEncoded(b: Bytes, off: nat, items: seq<Value>, t: Type, u: Type)
    requires ReadableEach(items, t) && Grown(t, u) && At(b, off, EncodeEach(items, t))
    ensures DecodeEach(b, off, u, |items|) == Done(FitEach(items, t, u), off + |EncodeEach(items, t)|)
    decreases items, 0, 0
  {
    hide Readable, Grown, Encode, Decode, Fit, At;
    if items != [] {
      AtParts(b, off, Encode(items[0], t), EncodeEach(items[1..], t));
      DecodeEncoded(b, off, items[0], t, u);
      DecodeEachEncoded(b, off + |Encode(items[0], t)|, items[1..], t, u);
    }
  }

  lemma {:induction false} DecodeEntryEncoded(b: Bytes, off: nat, e: Entry, t: Type, u: Type)
    requires t.Map? && ReadableEntry(e, t.key, t.value) && Grown(t, u) && At(b, off, EncodeEntry(e, t.key, t.value))
    ensures DecodeEntry(b, off, u) == Done(FitEntry(e, t, u), off + |EncodeEntry(e, t.key, t.value)|)
    decreases e, 0, 0
  {
    AtParts(b, off, Encode(e.key, t.key), Encode(e.value, t.value));
    DecodeEncoded(b, off, e.key, t.key, u.key);
    DecodeEncoded(b, off + |Encode(e.key, t.key)|, e.value, t.value, u.value);
  }

  lemma {:induction false} DecodeEntriesEncoded(b: Bytes, off: nat, entries: seq<Entry>, t: Type, u: Type)
    requires t.Map? && ReadableEntries(entries, t.key, t.value) && Grown(t, u)
    requires At(b, off, EncodeEntries(entries, t.key, t.value))
    ensures DecodeEntries(b, off, u, |entries|)
         == Done(FitEntries(entries, t, u), off + |EncodeEntries(entries, t.key, t.value)|)
    decreases entries, 0, 0
  {
    hide ReadableEntry, Grown, EncodeEntry, DecodeEntry, FitEntry, At;
    if entries != [] {
      AtParts(b, off, EncodeEntry(entries[0], t.key, t.value), EncodeEntries(entries[1..], t.key, t.value));
      DecodeEntryEncoded(b, off, entries[0], t, u);
      DecodeEntriesEncoded(b, off + |EncodeEntry(entries[0], t.key, t.value)|, entries[1..], t, u);
    }
  }

  lemma {:induction false} DecodeMaskedEncoded(
      b: Bytes, off: nat, items: seq<Value>, fields: seq<Type>, grown: seq<Type>)
    requires ReadableFields(items, fields) && GrownFields(fields, grown)
    requires At(b, off, MaskBytes(Presence(items, |fields|)) + EncodeFields(items, fields))
    ensures DecodeMasked(b, off, grown, |fields|)
         == Done(FitFields(items, fields, grown, 0),
                 off + |MaskBytes(Presence(items, |fields|)) + EncodeFields(items, fields)|)
    decreases items, 1, 0
  {
    hide Readable, Grown, MaskBytes;
    var bits := Presence(items, |fields|);
    AtParts(b, off, MaskBytes(bits), EncodeFields(items, fields));
    AtMask(b, off, bits);
    assert From(items, 0) == items && fields[0..] == fields;
    DecodeFieldsEncoded(b, off + |MaskBytes(bits)|, TakeMask(b, off, Words(|fields|)).value, items, fields, grown, 0);
  }

  ghost function From(items: seq<Value>, i: nat): seq<Value> {
    if i <= |items| then items[i..] else []
  }

  lemma NullFits(t: Type, u: Type)
    requires Grown(t, u)
    ensures Encode(Null, t) == [] && Fit(Null, t, u) == Null
  {
  }

  lemma {:induction false} DecodeFieldsEncoded(b: Bytes, off: nat, mask: seq<U64>, items: seq<Value>, fields: seq<Type>,
                                               grown: seq<Type>, i: nat)
    requires ReadableFields(items, fields) && GrownFields(fields, grown) && i <= |fields| <= 64 * |mask|
    requires forall j :: 0 <= j < |fields| ==> MaskBit(mask, j) == Presence(items, |fields|)[j]
    requires At(b, off, EncodeFields(From(items, i), fields[i..]))
    ensures DecodeFields(b, off, mask, grown, i, |fields|)
         == Done(FitFields(items, fields, grown, i), off + |EncodeFields(From(items, i), fields[i..])|)
    decreases items, 0, |fields| - i
  {
    hide Readable, Grown, MaskBit, Encode, Decode, Fit, At, LittleEndian, TakeU64;
    if i < |fields| {
      assert fields[i..][0] == fields[i] && fields[i..][1..] == fields[i + 1..];
      if i < |items| {
        assert From(items, i)[0] == items[i] && From(items, i)[1..] == From(items, i + 1);
        AtParts(b, off, Encode(items[i], fields[i]), EncodeFields(From(items, i + 1), fields[i + 1..]));
        NullFits(fields[i], grown[i]);
        if !items[i].Null? {
          DecodeEncoded(b, off, items[i], fields[i], grown[i]);
        }
        DecodeFieldsEncoded(b, off + |Encode(items[i], fields[i])|, mask, items, fields, grown, i + 1);
      } else {
        DecodeFieldsEncoded(b, off, mask, items, fields, grown, i + 1);
      }
    }
  }

  // ---- values that fit their type exactly ----

  /** The invariants the containers keep, and the lengths the types ask for: members and keys are pairwise
      unequal, and tuples and user-defined types have a value for every field. */
  ghost predicate Exact(v: Value, t: Type)
    decreases v, 1
  {
    match v
    case Array(items) =>
      || (t.Tuple? && |items| == |t.fields| && ExactFields(items, t.fields))
      || (t.Udt? && |items| == |t.fields| && ExactFields(items, t.fields))
      || (t.Vector? && ExactEach(items, t.element))
      || (t.List? && ExactEach(items, t.element))
    case SetOf(members) => t.Set? && ExactEach(members, t.key) && DistinctMembers(members)
    case MapOf(entries) => t.Map? && ExactEntries(entries, t.key, t.value) && DistinctKeys(entries)
    case _ => true
  }

  ghost predicate ExactEach(items: seq<Value>, t: Type)
    decreases items, 0
  {
    forall i :: 0 <= i < |items| ==> Exact(items[i], t)
  }

  ghost predicate ExactFields(items: seq<Value>, fields: seq<Type>)
    decreases items, 0
  {
    forall i :: 0 <= i < |items| && i < |fields| ==> Exact(items[i], fields[i])
  }

  ghost predicate ExactEntry(e: Entry, key: Type, value: Type)
    decreases e, 0
  {
    Exact(e.key, key) && Exact(e.value, value)
  }

  ghost predicate ExactEntries(entries: seq<Entry>, key: Type, value: Type)
    decreases entries, 0
  {
    forall i :: 0 <= i < |entries| ==> ExactEntry(entries[i], key, value)
  }

  ghost predicate DistinctMembers(members: seq<Value>) {
    forall i, j :: 0 <= i < j < |members| ==> !Equal(members[j], members[i])
  }

  ghost predicate DistinctKeys(entries: seq<Entry>) {
    forall i, j :: 0 <= i < j < |entries| ==> !Equal(entries[j].key, entries[i].key)
  }

  lemma {:induction false} DistinctMembersStay(before: seq<Value>, more: seq<Value>)
    requires DistinctMembers(before + more)
    ensures InsertMembers(before, more) == before + more
    decreases |more|
  {
    hide Equal;
    if more != [] {
      assert forall j :: 0 <= j < |before| ==> (before + more)[j] == before[j];
      assert (before + more)[|before|] == more[0];
      assert before + more == (before + [more[0]]) + more[1..];
      DistinctMembersStay(before + [more[0]], more[1..]);
    } else {
      assert before + more == before;
    }
  }

  lemma {:induction false} NewKeyAppends(entries: seq<Entry>, e: Entry)
    requires forall j :: 0 <= j < |entries| ==> !Equal(e.key, entries[j].key)
    ensures InsertEntry(entries, e.key, e.value) == entries + [e]
  {
    hide Equal;
    if entries != [] {
      NewKeyAppends(entries[1..], e);
      assert entries + [e] == [entries[0]] + (entries[1..] + [e]);
    }
  }

  lemma {:induction false} DistinctKeysStay(before: seq<Entry>, more: seq<Entry>)
    requires DistinctKeys(before + more)
    ensures InsertEntries(before, more) == before + more
    decreases |more|
  {
    hide Equal, InsertEntry;
    if more != [] {
      assert forall j :: 0 <= j < |before| ==> (before + more)[j] == before[j];
      assert (before + more)[|before|] == more[0];
      assert before + more == (before + [more[0]]) + more[1..];
      NewKeyAppends(before, more[0]);
      DistinctKeysStay(before + [more[0]], more[1..]);
    } else {
      assert before + more == before;
    }
  }

  /** Such a value fits its own type as it is. */
  lemma {:induction false} ExactFits(v: Value, t: Type)
    requires Exact(v, t) && Grown(t, t)
    ensures Fit(v, t, t) == v
    decreases v, 1, 0
  {
    if v.Array? {
      if t.Tuple? || t.Udt? {
        ExactFieldsFit(v.items, t.fields, 0);
        assert v.items[0..] == v.items && v.items + Nulls(0) == v.items;
      } else {
        ExactEachFit(v.items, t.element);
      }
    } else if v.SetOf? {
      ExactEachFit(v.members, t.key);
      assert [] + v.members == v.members;
      DistinctMembersStay([], v.members);
    } else if v.MapOf? {
      ExactEntriesFit(v.entries, t);
      assert [] + v.entries == v.entries;
      DistinctKeysStay([], v.entries);
    }
  }

  lemma {:induction false} ExactEachFit(items: seq<Value>, t: Type)
    requires ExactEach(items, t) && Grown(t, t)
    ensures FitEach(items, t, t) == items
    decreases items, 0, 0
  {
    hide Exact, Grown, Fit;
    if items != [] {
      ExactFits(items[0], t);
      ExactEachFit(items[1..], t);
    }
  }

  lemma {:induction false} ExactEntriesFit(entries: seq<Entry>, t: Type)
    requires t.Map? && ExactEntries(entries, t.key, t.value) && Grown(t, t)
    ensures FitEntries(entries, t, t) == entries
    decreases entries, 0, 0
  {
    hide Exact, Grown, Fit;
    if entries != [] {
      ExactEntryFits(entries[0], t);
      ExactEntriesFit(entries[1..], t);
    }
  }

  lemma {:induction false} ExactEntryFits(e: Entry, t: Type)
    requires t.Map? && ExactEntry(e, t.key, t.value) && Grown(t, t)
    ensures FitEntry(e, t, t) == e
    decreases e, 0, 0
  {
    ExactFits(e.key, t.key);
    ExactFits(e.value, t.value);
  }

  lemma {:induction false} ExactFieldsFit(items: seq<Value>, fields: seq<Type>, i: nat)
    requires i <= |items| == |fields| && ExactFields(items, fields) && GrownFields(fields, fields)
    ensures FitFields(items, fields, fields, i) == items[i..]
    decreases items, 0, |fields| - i
  {
    hide Exact, Grown, Fit;
    if i < |fields| {
      ExactFits(items[i], fields[i]);
      ExactFieldsFit(items, fields, i + 1);
    }
  }

  // ---- whatever is read fits ----

  /** Field counts fit the 64 bits they are written in. */
  ghost predicate Countable(t: Type) {
    match t
    case BasicType(_) => true
    case List(element) => Countable(element)
    case Set(key) => Countable(key)
    case Map(key, value) => Countable(key) && Countable(value)
    case Vector(element, _) => Countable(element)
    case Tuple(fields) => forall i :: 0 <= i < |fields| ==> Countable(fields[i])
    case Udt(fields) => |fields| < TWO_64 && forall i :: 0 <= i < |fields| ==> Countable(fields[i])
  }

  ghost predicate Fits(v: Value, t: Type) {
    Readable(v, t) && Exact(v, t)
  }

  ghost predicate BothFit(e: Entry, t: Type)
    requires t.Map?
  {
    Fits(e.key, t.key) && Fits(e.value, t.value)
  }

  /** Whatever the reader makes of any bytes fits its type. */
  lemma {:induction false} DecodedFits(b: Bytes, off: nat, t: Type)
    requires Countable(t) && Decode(b, off, t).Done?
    ensures Fits(Decode(b, off, t).value, t)
    decreases t, 1, 0
  {
    hide DecodeBasic, TakeU64, Fits, DecodeEach, DecodeEntries, DecodeMasked, FieldsFit;
    match t
    case BasicType(kind) => BasicFitsItsKind(b, off, kind);
    case List(element) =>
      var n := TakeU64(b, off);
      EachFits(b, n.next, element, n.value);
      ElementsFit(DecodeEach(b, n.next, element, n.value).value, t);
    case Set(key) =>
      var n := TakeU64(b, off);
      EachFits(b, n.next, key, n.value);
      SetFits([], DecodeEach(b, n.next, key, n.value).value, key);
      MembersFit(InsertMembers([], DecodeEach(b, n.next, key, n.value).value), t);
    case Map(key, value) =>
      var n := TakeU64(b, off);
      AllEntriesFit(b, n.next, t, n.value);
      MapFits([], DecodeEntries(b, n.next, t, n.value).value, t);
      KeysFit(InsertEntries([], DecodeEntries(b, n.next, t, n.value).value), t);
    case Vector(element, count) =>
      EachFits(b, off, element, count);
      ElementsFit(DecodeEach(b, off, element, count).value, t);
    case Tuple(fields) =>
      MaskedFits(b, off, fields, |fields|);
      FilledFits(DecodeMasked(b, off, fields, |fields|).value, fields);
    case Udt(fields) =>
      var n := TakeU64(b, off);
      MaskedFits(b, n.next, fields, n.value);
      PaddedFits(DecodeMasked(b, n.next, fields, n.value).value, fields);
  }

  // What a container needs of its parts.

  lemma ElementsFit(items: seq<Value>, t: Type)
    requires (t.List? && |items| < TWO_64) || (t.Vector? && |items| == t.count)
    requires forall i :: 0 <= i < |items| ==> Fits(items[i], t.element)
    ensures Fits(Array(items), t)
  {
    assert forall i :: 0 <= i < |items| ==> Readable(items[i], t.element) && Exact(items[i], t.element);
  }

  lemma MembersFit(members: seq<Value>, t: Type)
    requires t.Set? && |members| < TWO_64 && DistinctMembers(members)
    requires forall i :: 0 <= i < |members| ==> Fits(members[i], t.key)
    ensures Fits(SetOf(members), t)
  {
    assert forall i :: 0 <= i < |members| ==> Readable(members[i], t.key) && Exact(members[i], t.key);
  }

  lemma KeysFit(entries: seq<Entry>, t: Type)
    requires t.Map? && |entries| < TWO_64 && DistinctKeys(entries)
    requires forall i :: 0 <= i < |entries| ==> BothFit(entries[i], t)
    ensures Fits(MapOf(entries), t)
  {
    forall i | 0 <= i < |entries|
      ensures ReadableEntry(entries[i], t.key, t.value) && ExactEntry(entries[i], t.key, t.value)
    {
      assert BothFit(entries[i], t);
    }
  }

  /** A value or null for every field. */
  lemma FilledFits(items: seq<Value>, fields: seq<Type>)
    requires |items| == |fields| && FieldsFit(items, fields, 0)
    ensures Fits(Array(items), Tuple(fields))
  {
    forall k | 0 <= k < |fields|
      ensures items[k].Null? || Fits(items[k], fields[k])
    {
      assert fields[0 + k] == fields[k];
    }
  }

  /** Nulls fit the fields that were added. */
  lemma PaddedFits(items: seq<Value>, fields: seq<Type>)
    requires |items| <= |fields| < TWO_64 && FieldsFit(items, fields, 0)
    ensures Fits(Array(items + Nulls(|fields| - |items|)), Udt(fields))
  {
    var all := items + Nulls(|fields| - |items|);
    forall k | 0 <= k < |fields|
      ensures all[k].Null? || Fits(all[k], fields[k])
    {
      if k < |items| { assert all[k] == items[k] && fields[0 + k] == fields[k]; }
    }
  }

  lemma BasicFitsItsKind(b: Bytes, off: nat, kind: Basic)
    requires DecodeBasic(b, off, kind).Done?
    ensures Fits(DecodeBasic(b, off, kind).value, BasicType(kind))
  {
  }

  lemma {:induction false} EachFits(b: Bytes, off: nat, t: Type, n: nat)
    requires Countable(t) && DecodeEach(b, off, t, n).Done?
    ensures var items := DecodeEach(b, off, t, n).value; forall i :: 0 <= i < |items| ==> Fits(items[i], t)
    decreases t, 2, n
  {
    hide Fits, Decode, Countable;
    if n > 0 {
      DecodedFits(b, off, t);
      EachFits(b, Decode(b, off, t).next, t, n - 1);
    }
  }

  lemma {:induction false} AllEntriesFit(b: Bytes, off: nat, t: Type, n: nat)
    requires t.Map? && Countable(t) && DecodeEntries(b, off, t, n).Done?
    ensures var es := DecodeEntries(b, off, t, n).value; forall i :: 0 <= i < |es| ==> BothFit(es[i], t)
    decreases t, 0, n
  {
    hide Fits, Decode;
    if n > 0 {
      DecodedFits(b, off, t.key);
      DecodedFits(b, Decode(b, off, t.key).next, t.value);
      AllEntriesFit(b, DecodeEntry(b, off, t).next, t, n - 1);
    }
  }

  lemma {:induction false} MaskedFits(b: Bytes, off: nat, fields: seq<Type>, count: nat)
    requires count <= |fields| && (forall i :: 0 <= i < |fields| ==> Countable(fields[i]))
    requires DecodeMasked(b, off, fields, count).Done?
    ensures FieldsFit(DecodeMasked(b, off, fields, count).value, fields, 0)
    decreases fields, 1, 0
  {
    hide FieldsFit, TakeMask, DecodeFields;
    var mask := TakeMask(b, off, Words(count));
    FieldsFromFit(b, mask.next, mask.value, fields, 0, count);
  }

  /** `items` stand for the fields from the i-th on. */
  ghost predicate FieldsFit(items: seq<Value>, fields: seq<Type>, i: nat) {
    forall k :: 0 <= k < |items| && i + k < |fields| ==> items[k].Null? || Fits(items[k], fields[i + k])
  }

  lemma {:induction false} FieldsFromFit(b: Bytes, off: nat, mask: seq<U64>, fields: seq<Type>, i: nat, count: nat)
    requires i <= count <= |fields| && count <= 64 * |mask| && (forall i :: 0 <= i < |fields| ==> Countable(fields[i]))
    requires DecodeFields(b, off, mask, fields, i, count).Done?
    ensures FieldsFit(DecodeFields(b, off, mask, fields, i, count).value, fields, i)
    decreases fields, 0, count - i
  {
    hide Fits, Decode, MaskBit, Countable;
    if i < count {
      if MaskBit(mask, i) {
        DecodedFits(b, off, fields[i]);
        FieldsFromFit(b, Decode(b, off, fields[i]).next, mask, fields, i + 1, count);
      } else {
        FieldsFromFit(b, off, mask, fields, i + 1, count);
      }
    }
  }

  /** Inserting keeps members unequal and adds none that was not there. */
  lemma {:induction false} SetFits(before: seq<Value>, more: seq<Value>, t: Type)
    requires DistinctMembers(before) && forall i :: 0 <= i < |before| ==> Fits(before[i], t)
    requires forall i :: 0 <= i < |more| ==> Fits(more[i], t)
    ensures var r := InsertMembers(before, more);
            && DistinctMembers(r) && |r| <= |before| + |more| && forall i :: 0 <= i < |r| ==> Fits(r[i], t)
    decreases |more|
  {
    hide Equal, Fits;
    if more != [] {
      SetFits(InsertMember(before, more[0]), more[1..], t);
    }
  }

  lemma {:induction false} MapFits(before: seq<Entry>, more: seq<Entry>, t: Type)
    requires t.Map? && DistinctKeys(before) && forall i :: 0 <= i < |before| ==> BothFit(before[i], t)
    requires forall i :: 0 <= i < |more| ==> BothFit(more[i], t)
    ensures var r := InsertEntries(before, more);
            && DistinctKeys(r) && |r| <= |before| + |more| && forall i :: 0 <= i < |r| ==> BothFit(r[i], t)
    decreases |more|
  {
    hide Equal, BothFit, InsertEntry;
    if more != [] {
      InsertedFits(before, more[0], t);
      MapFits(InsertEntry(before, more[0].key, more[0].value), more[1..], t);
    }
  }

  /** An entry replaces the value of the one with an equal key, or goes to the end. */
  lemma {:induction false} InsertedFits(entries: seq<Entry>, e: Entry, t: Type)
    requires t.Map? && BothFit(e, t) && DistinctKeys(entries)
    requires forall i :: 0 <= i < |entries| ==> BothFit(entries[i], t)
    ensures var r := InsertEntry(entries, e.key, e.value);
            && |entries| <= |r| <= |entries| + 1 && (forall i :: 0 <= i < |entries| ==> r[i].key == entries[i].key)
            && (|r| > |entries| ==>
                  r[|entries|] == e && forall i :: 0 <= i < |entries| ==> !Equal(e.key, entries[i].key))
            && DistinctKeys(r) && forall i :: 0 <= i < |r| ==> BothFit(r[i], t)
  {
    hide Equal, Fits;
    if entries != [] && !Equal(e.key, entries[0].key) {
      InsertedFits(entries[1..], e, t);
    }
  }

  /** A value comes back as it was, and the reader ends right behind it, if and only if it fits its type: every
      component in its type's own representation, no null directly inside a list, set, map or vector, a vector of
      its declared length, members and keys without equals, and a value or null for every field. */
  lemma RoundTrip(b: Bytes, off: nat, v: Value, t: Type)
    requires Countable(t) && At(b, off, Encode(v, t))
    ensures Decode(b, off, t) == Done(v, off + |Encode(v, t)|) <==> Readable(v, t) && Exact(v, t)
  {
    hide Readable, Exact, At, Encode, Decode, Fit, Countable;
    if Readable(v, t) && Exact(v, t) {
      GrownFromItself(t);
      DecodeEncoded(b, off, v, t, t);
      ExactFits(v, t);
    } else if Decode(b, off, t).Done? {
      DecodedFits(b, off, t);
    }
  }

  /** A null written inside a list is not read back, since nothing is written for it ... */
  lemma NullInsideIsLost(b: Bytes, off: nat, items: seq<Value>, t: Type, i: nat)
    requires Countable(t) && i < |items| && items[i].Null? && At(b, off, Encode(Array(items), List(t)))
    ensures Decode(b, off, List(t)) != Done(Array(items), off + |Encode(Array(items), List(t))|)
  {
    hide At, Encode, Decode;
    RoundTrip(b, off, Array(items), List(t));
    assert !Readable(items[i], t);
  }

  /** ... and neither is a vector of another length, since its length is not written. */
  lemma WrongLengthIsLost(b: Bytes, off: nat, items: seq<Value>, t: Type, count: U64)
    requires Countable(t) && |items| != count && At(b, off, Encode(Array(items), Vector(t, count)))
    ensures Decode(b, off, Vector(t, count)) != Done(Array(items), off + |Encode(Array(items), Vector(t, count))|)
  {
    hide At, Encode, Decode;
    RoundTrip(b, off, Array(items), Vector(t, count));
  }

  /** A user-defined value written with k fields reads under the type with more fields as its k fields, then
      nulls. */
  lemma GrownUdtReadsNulls(b: Bytes, off: nat, items: seq<Value>, fields: seq<Type>, more: seq<Type>)
    requires Readable(Array(items), Udt(fields)) && Exact(Array(items), Udt(fields))
    requires At(b, off, Encode(Array(items), Udt(fields)))
    ensures Decode(b, off, Udt(fields + more))
         == Done(Array(items + Nulls(|more|)), off + |Encode(Array(items), Udt(fields))|)
  {
    hide Readable, Encode, Decode, At;
    var t, u := Udt(fields), Udt(fields + more);
    GrownFromItself(t);
    assert GrownFields(fields, fields) && Grown(t, u);
    DecodeEncoded(b, off, Array(items), t, u);
    SameFit(items, fields, more, 0);
    ExactFieldsFit(items, fields, 0);
    assert items[0..] == items;
  }

  lemma {:induction false} SameFit(items: seq<Value>, fields: seq<Type>, more: seq<Type>, i: nat)
    requires i <= |fields| && GrownFields(fields, fields) && GrownFields(fields, fields + more)
    ensures FitFields(items, fields, fields + more, i) == FitFields(items, fields, fields, i)
    decreases |fields| - i
  {
    hide Fit, Grown;
    if i < |fields| { SameFit(items, fields, more, i + 1); }
  }
}
