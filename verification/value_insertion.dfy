/** What sets and maps keep of the members and entries inserted into them, equality being an equivalence. */
module ValueInsertion {

  import opened ColumnValues
  import opened ValueCodec
  import opened ValueEquality

  lemma {:induction false} EqualToBoth(a: Value, b: Value, c: Value)
    requires Proper(a) && Equal(a, b) && Equal(a, c)
    ensures Equal(b, c)
  {
    hide Equal, Proper;
    EqualIsSymmetric(a, b);
    EqualIsTransitive(b, a, c);
  }

  lemma {:induction false} EqualBothWays(a: Value, b: Value)
    requires Proper(a) && Proper(b)
    ensures Equal(a, b) <==> Equal(b, a)
  {
    hide Equal, Proper;
    if Equal(a, b) {
      EqualIsSymmetric(a, b);
    } else if Equal(b, a) {
      EqualIsSymmetric(b, a);
    }
  }

  /** Of two equal values each is equal to what the other is. */
  lemma {:induction false} EqualAlike(a: Value, b: Value, c: Value)
    requires Proper(a) && Equal(a, b)
    ensures Equal(a, c) <==> Equal(b, c)
  {
    hide Equal, Proper;
    if Equal(a, c) {
      EqualToBoth(a, b, c);
    } else if Equal(b, c) {
      EqualIsTransitive(a, b, c);
    }
  }

  lemma {:induction false} EqualThroughThird(a: Value, b: Value, c: Value)
    requires Proper(c) && Equal(a, b) && Equal(c, b)
    ensures Equal(a, c)
  {
    hide Equal, Proper;
    EqualIsSymmetric(c, b);
    EqualIsTransitive(a, b, c);
  }

  // ---- what insertion keeps ----

  /** A set read member by member holds just what was read, up to equality. */
  lemma {:induction false} InsertedMembers(v: Value, before: seq<Value>, more: seq<Value>)
    ensures IsIn(v, InsertMembers(before, more)) <==> IsIn(v, before) || IsIn(v, more)
    decreases |more|
  {
    hide Equal;
    if more != [] {
      InsertedMembers(v, InsertMember(before, more[0]), more[1..]);
      InsertedMember(v, before, more[0]);
      assert forall i :: 0 < i < |more| ==> more[i] == more[1..][i - 1];
    }
  }

  lemma InsertedMember(v: Value, members: seq<Value>, m: Value)
    ensures IsIn(v, InsertMember(members, m)) <==> IsIn(v, members) || Equal(v, m)
  {
    hide Equal;
    if j :| 0 <= j < |members| && Equal(m, members[j]) {
      if Equal(v, m) { EqualIsTransitive(v, m, members[j]); }
    } else {
      var all := members + [m];
      assert all[|members|] == m && forall i :: 0 <= i < |members| ==> all[i] == members[i];
      if IsIn(v, members) {
        var i :| 0 <= i < |members| && Equal(v, members[i]);
        assert Equal(v, all[i]);
      }
    }
  }

  /** The value that a search of a map finds; Null if there is none. */
  ghost function ValueAt(entries: seq<Entry>, key: Value): Value {
    if entries == [] then Null
    else if Equal(key, entries[0].key) then entries[0].value else ValueAt(entries[1..], key)
  }

  /** The value of the last of the entries with such a key, or else what was there. */
  ghost function LastValue(more: seq<Entry>, key: Value, otherwise: Value): Value {
    if more == [] then otherwise
    else LastValue(more[1..], key, if Equal(key, more[0].key) then more[0].value else otherwise)
  }

  /** In a map read entry by entry the last entry of a key counts. */
  lemma {:induction false} LastEntryCounts(before: seq<Entry>, more: seq<Entry>, key: Value)
    requires Proper(key) && forall i :: 0 <= i < |more| ==> Proper(more[i].key)
    ensures ValueAt(InsertEntries(before, more), key) == LastValue(more, key, ValueAt(before, key))
    decreases |more|
  {
    hide Equal, Proper, InsertEntry, ValueAt;
    if more != [] {
      InsertedEntry(before, more[0].key, more[0].value, key);
      LastEntryCounts(InsertEntry(before, more[0].key, more[0].value), more[1..], key);
    }
  }

  lemma {:induction false} InsertedEntry(entries: seq<Entry>, k: Value, v: Value, key: Value)
    requires Proper(k) && Proper(key)
    ensures ValueAt(InsertEntry(entries, k, v), key) == if Equal(key, k) then v else ValueAt(entries, key)
  {
    hide Equal, Proper;
    if entries != [] {
      EqualBothWays(k, key);
      if Equal(k, key) { EqualAlike(k, key, entries[0].key); }
      if Equal(k, entries[0].key) {
        if Equal(key, entries[0].key) { EqualThroughThird(key, entries[0].key, k); }
      } else {
        InsertedEntry(entries[1..], k, v, key);
      }
    }
  }
}
