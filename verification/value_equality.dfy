/** What equality of nested values means, and that it is an equivalence on the values that collections hold. */
module ValueEquality {

  import opened Wire
  import opened ColumnValues
  import opened ColumnOrder
  import opened ColumnMeaning
  import opened ValueCodec
  import opened ValueCodecResults

  // ---- level by level ----

  /** Lists are equal element by element. */
  lemma {:induction false} ListsEqual(a: seq<Value>, b: seq<Value>)
    ensures EqualEach(a, b) <==> |a| == |b| && forall i :: 0 <= i < |a| ==> Equal(a[i], b[i])
    ensures Equal(Array(a), Array(b)) <==> |a| == |b| && forall i :: 0 <= i < |a| ==> Equal(a[i], b[i])
  {
    if a != [] && |a| == |b| {
      ListsEqual(a[1..], b[1..]);
      assert forall i :: 0 < i < |a| ==> a[i] == a[1..][i - 1] && b[i] == b[1..][i - 1];
      assert (forall i :: 0 <= i < |a| ==> Equal(a[i], b[i]))
        <==> Equal(a[0], b[0]) && forall i :: 0 <= i < |a[1..]| ==> Equal(a[1..][i], b[1..][i]) by {
        if Equal(a[0], b[0]) && forall i :: 0 <= i < |a[1..]| ==> Equal(a[1..][i], b[1..][i]) {
          forall i | 0 <= i < |a|
            ensures Equal(a[i], b[i])
          {
            assert i > 0 ==> Equal(a[1..][i - 1], b[1..][i - 1]);
          }
        }
      }
    }
  }

  /** Some member of `b` is equal to `v`. */
  ghost predicate IsIn(v: Value, b: seq<Value>) {
    exists j :: 0 <= j < |b| && Equal(v, b[j])
  }

  /** Sets are equal if they have equally many members and each of one has an equal one in the other. */
  lemma {:induction false} SetsEqual(a: seq<Value>, b: seq<Value>)
    ensures AllIn(a, b) <==> forall i :: 0 <= i < |a| ==> IsIn(a[i], b)
    ensures Equal(SetOf(a), SetOf(b)) <==> |a| == |b| && forall i :: 0 <= i < |a| ==> IsIn(a[i], b)
  {
    hide Equal;
    if a != [] {
      SetsEqual(a[1..], b);
      assert forall i :: 0 < i < |a| ==> a[i] == a[1..][i - 1];
    }
    assert Equal(SetOf(a), SetOf(b)) <==> |a| == |b| && AllIn(a, b) by { SetIsAllIn(a, b); }
  }

  lemma SetIsAllIn(a: seq<Value>, b: seq<Value>)
    ensures Equal(SetOf(a), SetOf(b)) <==> |a| == |b| && AllIn(a, b)
  {
  }

  /** Some entry of `b` has an equal key and an equal value. */
  ghost predicate IsFound(e: Entry, b: seq<Entry>) {
    exists j :: 0 <= j < |b| && Equal(e.key, b[j].key) && Equal(e.value, b[j].value)
  }

  /** Maps likewise, entry by entry. */
  lemma {:induction false} MapsEqual(a: seq<Entry>, b: seq<Entry>)
    ensures AllFound(a, b) <==> forall i :: 0 <= i < |a| ==> IsFound(a[i], b)
    ensures Equal(MapOf(a), MapOf(b)) <==> |a| == |b| && forall i :: 0 <= i < |a| ==> IsFound(a[i], b)
  {
    hide Equal;
    if a != [] {
      MapsEqual(a[1..], b);
      assert forall i :: 0 < i < |a| ==> a[i] == a[1..][i - 1];
      assert IsFound(a[0], b) <==> exists j :: 0 <= j < |b| && EqualEntries(a[0], b[j]);
    }
    assert Equal(MapOf(a), MapOf(b)) <==> |a| == |b| && AllFound(a, b) by { MapIsAllFound(a, b); }
  }

  lemma MapIsAllFound(a: seq<Entry>, b: seq<Entry>)
    ensures Equal(MapOf(a), MapOf(b)) <==> |a| == |b| && AllFound(a, b)
  {
  }

  /** Values of different kinds are unequal. */
  lemma EqualSameKind(a: Value, b: Value)
    requires Equal(a, b)
    ensures (a.Array? <==> b.Array?) && (a.SetOf? <==> b.SetOf?) && (a.MapOf? <==> b.MapOf?)
    ensures (a.Double? <==> b.Double?) && (a.Float? <==> b.Float?)
  {
  }

  // ---- without floating-point numbers, sets and maps ----

  ghost predicate Plain(v: Value) {
    match v
    case Double(_) => false
    case Float(_) => false
    case SetOf(_) => false
    case MapOf(_) => false
    case Array(items) => forall i :: 0 <= i < |items| ==> Plain(items[i])
    case _ => true
  }

  lemma {:induction false} PlainEqual(a: Value, b: Value)
    requires Plain(a)
    ensures Equal(a, b) <==> a == b
    decreases a
  {
    if a.Array? && b.Array? {
      ListsEqual(a.items, b.items);
      if |a.items| == |b.items| {
        forall i | 0 <= i < |a.items|
          ensures Equal(a.items[i], b.items[i]) <==> a.items[i] == b.items[i]
        {
          PlainEqual(a.items[i], b.items[i]);
        }
      }
    }
  }

  // ---- floating-point numbers ----

  /** IEEE 754, section 6.2.1: the exponent is all ones, the fraction is not zero. */
  ghost predicate NotANumber(v: Value) {
    match v
    case Double(bits) => bits % SIGN_64 / FRACTION_64 == 0x7FF && bits % FRACTION_64 != 0
    case Float(bits) => bits % SIGN_32 / FRACTION_32 == 0xFF && bits % FRACTION_32 != 0
    case _ => false
  }

  /** Floating-point values are equal if both are numbers and the numbers are the same, as the two zeros are. */
  lemma FloatsEqual(a: Value, b: Value)
    ensures a.Double? && b.Double? ==>
              (Equal(a, b) <==> !NotANumber(a) && !NotANumber(b)
                                && Number(a.bits, SIGN_64, FRACTION_64) == Number(b.bits, SIGN_64, FRACTION_64))
    ensures a.Float? && b.Float? ==>
              (Equal(a, b) <==> !NotANumber(a) && !NotANumber(b)
                                && Number(a.bits32, SIGN_32, FRACTION_32) == Number(b.bits32, SIGN_32, FRACTION_32))
  {
    hide Number, NotANumber, IsNan;
    if a.Double? && b.Double? {
      NanBits64(a.bits);
      NanBits64(b.bits);
      SameNumber(a.bits, b.bits, SIGN_64, FRACTION_64);
    } else if a.Float? && b.Float? {
      NanBits32(a.bits32);
      NanBits32(b.bits32);
      SameNumber(a.bits32, b.bits32, SIGN_32, FRACTION_32);
    }
  }

  lemma NanBits64(bits: U64)
    ensures NotANumber(Double(bits)) <==> IsNan(bits, SIGN_64, 0x7FF0_0000_0000_0000)
  {
    var m := Magnitude(bits, SIGN_64);
    assert bits % FRACTION_64 == m % FRACTION_64;
  }

  lemma NanBits32(bits: U32)
    ensures NotANumber(Float(bits)) <==> IsNan(bits, SIGN_32, 0x7F80_0000)
  {
    var m := Magnitude(bits, SIGN_32);
    assert bits % FRACTION_32 == m % FRACTION_32;
  }

  lemma SameNumber(a: nat, b: nat, sign: nat, p: nat)
    requires p > 0 && a < 2 * sign && b < 2 * sign
    ensures Number(a, sign, p) == Number(b, sign, p) <==> a == b || (a % sign == 0 && b % sign == 0)
  {
    hide Scaled;
    var m, n := Magnitude(a, sign), Magnitude(b, sign);
    ScaledApart(m, n, p);
    ScaledApart(m, 0, p);
    ScaledApart(n, 0, p);
    ZeroIsZero(p);
  }

  /** The bits below the sign. */
  ghost function Magnitude(bits: nat, sign: nat): (m: nat)
    requires bits < 2 * sign
    ensures m == bits % sign
  {
    if bits >= sign then bits - sign else bits
  }

  lemma ScaledApart(m: nat, n: nat, p: nat)
    requires p > 0
    ensures Scaled(m, p) == Scaled(n, p) <==> m == n
  {
    hide Scaled;
    if m < n {
      ScaledGrows(m, n, p);
    } else if n < m {
      ScaledGrows(n, m, p);
    }
  }

  // ---- an equivalence ----

  /** A value as collections hold it: no NaN, no set with equal members, no map with equal keys, at any depth. */
  ghost predicate Proper(v: Value) {
    match v
    case Array(items) => forall i :: 0 <= i < |items| ==> Proper(items[i])
    case SetOf(members) => DistinctMembers(members) && forall i :: 0 <= i < |members| ==> Proper(members[i])
    case MapOf(entries) =>
      && DistinctKeys(entries)
      && forall i :: 0 <= i < |entries| ==> Proper(entries[i].key) && Proper(entries[i].value)
    case _ => !NotANumber(v)
  }

  lemma {:induction false} EqualToItself(v: Value)
    requires Proper(v)
    ensures Equal(v, v)
    decreases v
  {
    match v
    case Array(items) =>
      forall i | 0 <= i < |items| ensures Equal(items[i], items[i]) {
        EqualToItself(items[i]);
      }
      ListsEqual(items, items);
    case SetOf(members) =>
      forall i | 0 <= i < |members| ensures IsIn(members[i], members) {
        EqualToItself(members[i]);
      }
      SetsEqual(members, members);
    case MapOf(entries) =>
      forall i | 0 <= i < |entries| ensures IsFound(entries[i], entries) {
        EqualToItself(entries[i].key);
        EqualToItself(entries[i].value);
      }
      MapsEqual(entries, entries);
    case _ => FloatsEqual(v, v);
  }

  /** Of any three values. */
  lemma {:induction false} EqualIsTransitive(a: Value, b: Value, c: Value)
    requires Equal(a, b) && Equal(b, c)
    ensures Equal(a, c)
    decreases a
  {
    match a
    case Array(_) => ListsTransitive(a, b, c);
    case SetOf(_) => SetsTransitive(a, b, c);
    case MapOf(_) => MapsTransitive(a, b, c);
    case _ =>
  }

  lemma {:induction false} ListsTransitive(a: Value, b: Value, c: Value)
    requires a.Array? && Equal(a, b) && Equal(b, c)
    ensures Equal(a, c)
    decreases a, 0
  {
    hide AllIn, AllFound, EqualEach;
    ListsEqual(a.items, b.items);
    ListsEqual(b.items, c.items);
    forall i | 0 <= i < |a.items| ensures Equal(a.items[i], c.items[i]) {
      EqualIsTransitive(a.items[i], b.items[i], c.items[i]);
    }
    ListsEqual(a.items, c.items);
  }

  lemma {:induction false} SetsTransitive(a: Value, b: Value, c: Value)
    requires a.SetOf? && Equal(a, b) && Equal(b, c)
    ensures Equal(a, c)
    decreases a, 0
  {
    hide AllIn, AllFound, EqualEach;
    SetsEqual(a.members, b.members);
    SetsEqual(b.members, c.members);
    forall i | 0 <= i < |a.members| ensures IsIn(a.members[i], c.members) {
      assert IsIn(a.members[i], b.members);
      var j :| 0 <= j < |b.members| && Equal(a.members[i], b.members[j]);
      assert IsIn(b.members[j], c.members);
      var k :| 0 <= k < |c.members| && Equal(b.members[j], c.members[k]);
      EqualIsTransitive(a.members[i], b.members[j], c.members[k]);
    }
    SetsEqual(a.members, c.members);
  }

  lemma {:induction false} MapsTransitive(a: Value, b: Value, c: Value)
    requires a.MapOf? && Equal(a, b) && Equal(b, c)
    ensures Equal(a, c)
    decreases a, 0
  {
    hide AllIn, AllFound, EqualEach;
    MapsEqual(a.entries, b.entries);
    MapsEqual(b.entries, c.entries);
    forall i | 0 <= i < |a.entries| ensures IsFound(a.entries[i], c.entries) {
      var e := a.entries[i];
      var j :| 0 <= j < |b.entries| && Equal(e.key, b.entries[j].key) && Equal(e.value, b.entries[j].value);
      var f := b.entries[j];
      assert IsFound(f, c.entries);
      var k :| 0 <= k < |c.entries| && Equal(f.key, c.entries[k].key) && Equal(f.value, c.entries[k].value);
      EqualIsTransitive(e.key, f.key, c.entries[k].key);
      EqualIsTransitive(e.value, f.value, c.entries[k].value);
    }
    MapsEqual(a.entries, c.entries);
  }

  ghost function Below(n: nat): (s: set<nat>)
    ensures |s| == n && forall k: nat :: k in s <==> k < n
  {
    if n == 0 then {} else Below(n - 1) + {n - 1}
  }

  /** As many different numbers below `n` are all numbers below `n`. */
  lemma AllAreReached(f: seq<nat>, n: nat)
    requires |f| == n && forall i :: 0 <= i < n ==> f[i] < n
    requires forall i, j :: 0 <= i < j < n ==> f[i] != f[j]
    ensures forall k: nat :: k < n ==> k in f
  {
    var reached, below := set i | 0 <= i < n :: f[i], Below(n);
    Different(f, n);
    assert reached <= below;
    if k: nat :| k < n && k !in f {
      assert reached <= below - {k};
      SmallerSet(reached, below - {k});
    }
  }

  lemma SmallerSet(a: set<nat>, b: set<nat>)
    requires a <= b
    ensures |a| <= |b|
  {
    assert b == a + (b - a);
  }

  lemma {:induction false} Different(f: seq<nat>, n: nat)
    requires n <= |f| && forall i, j :: 0 <= i < j < n ==> f[i] != f[j]
    ensures |set i | 0 <= i < n :: f[i]| == n
  {
    if n > 0 {
      Different(f, n - 1);
      assert (set i | 0 <= i < n :: f[i]) == (set i | 0 <= i < n - 1 :: f[i]) + {f[n - 1]};
    }
  }

  /** A value without equal members or keys is equal to what is equal to it. */
  lemma {:induction false} EqualIsSymmetric(a: Value, b: Value)
    requires Proper(a) && Equal(a, b)
    ensures Equal(b, a)
    decreases a
  {
    match a
    case Array(items) =>
      ListsEqual(items, b.items);
      forall i | 0 <= i < |items| ensures Equal(b.items[i], items[i]) {
        EqualIsSymmetric(items[i], b.items[i]);
      }
      ListsEqual(b.items, items);
    case SetOf(_) => SetsSymmetric(a, b);
    case MapOf(_) => MapsSymmetric(a, b);
    case _ =>
  }

  lemma {:induction false} SetsSymmetric(a: Value, b: Value)
    requires a.SetOf? && Proper(a) && Equal(a, b)
    ensures Equal(b, a)
    decreases a, 0
  {
    hide AllIn, AllFound, EqualEach;
    var n := |a.members|;
    SetsEqual(a.members, b.members);
    var place := Places(a.members, b.members);
    forall i, j | 0 <= i < j < n
      ensures place[i] != place[j]
    {
      if place[i] == place[j] {
        EqualIsSymmetric(a.members[i], b.members[place[i]]);
        EqualIsTransitive(a.members[j], b.members[place[j]], a.members[i]);
      }
    }
    AllAreReached(place, n);
    forall k | 0 <= k < n ensures IsIn(b.members[k], a.members) {
      assert (k as nat) in place;
      var i :| 0 <= i < n && place[i] == k;
      EqualIsSymmetric(a.members[i], b.members[k]);
    }
    SetsEqual(b.members, a.members);
  }

  /** For each member of `a` the place of an equal one in `b`. */
  ghost function Places(a: seq<Value>, b: seq<Value>): (place: seq<nat>)
    requires forall i :: 0 <= i < |a| ==> IsIn(a[i], b)
    ensures |place| == |a|
    ensures forall i :: 0 <= i < |a| ==> place[i] < |b| && Equal(a[i], b[place[i]])
  {
    if a == [] then []
    else
      assert forall i :: 0 < i < |a| ==> a[i] == a[1..][i - 1];
      assert IsIn(a[0], b);
      var j :| 0 <= j < |b| && Equal(a[0], b[j]);
      [j] + Places(a[1..], b)
  }

  lemma {:induction false} MapsSymmetric(a: Value, b: Value)
    requires a.MapOf? && Proper(a) && Equal(a, b)
    ensures Equal(b, a)
    decreases a, 1
  {
    hide AllIn, AllFound, EqualEach, IsFound;
    var n := |a.entries|;
    MapsEqual(a.entries, b.entries);
    var place := EntryPlaces(a.entries, b.entries);
    forall i, j | 0 <= i < j < n
      ensures place[i] != place[j]
    {
      if place[i] == place[j] { KeysShareNoPlace(a, b, i, j, place[i]); }
    }
    AllAreReached(place, n);
    forall k: nat | k < n ensures IsFound(b.entries[k], a.entries) {
      assert k in place;
      var i :| 0 <= i < n && place[i] == k;
      EntryFoundBack(a, b, i, k);
    }
    MapsEqual(b.entries, a.entries);
  }

  /** Two keys of one map are not equal to one key of another. */
  lemma {:induction false} KeysShareNoPlace(a: Value, b: Value, i: nat, j: nat, k: nat)
    requires a.MapOf? && Proper(a) && b.MapOf? && i < j < |a.entries| && k < |b.entries|
    requires Equal(a.entries[i].key, b.entries[k].key) && Equal(a.entries[j].key, b.entries[k].key)
    ensures false
    decreases a, 0
  {
    hide AllIn, AllFound, EqualEach;
    EqualIsSymmetric(a.entries[i].key, b.entries[k].key);
    EqualIsTransitive(a.entries[j].key, b.entries[k].key, a.entries[i].key);
  }

  lemma {:induction false} EntryFoundBack(a: Value, b: Value, i: nat, k: nat)
    requires a.MapOf? && Proper(a) && b.MapOf? && i < |a.entries| && k < |b.entries|
    requires Equal(a.entries[i].key, b.entries[k].key) && Equal(a.entries[i].value, b.entries[k].value)
    ensures IsFound(b.entries[k], a.entries)
    decreases a, 0
  {
    hide AllIn, AllFound, EqualEach;
    EqualIsSymmetric(a.entries[i].key, b.entries[k].key);
    EqualIsSymmetric(a.entries[i].value, b.entries[k].value);
  }

  ghost function EntryPlaces(a: seq<Entry>, b: seq<Entry>): (place: seq<nat>)
    requires forall i :: 0 <= i < |a| ==> IsFound(a[i], b)
    ensures |place| == |a|
    ensures forall i :: 0 <= i < |a| ==>
              place[i] < |b| && Equal(a[i].key, b[place[i]].key) && Equal(a[i].value, b[place[i]].value)
  {
    if a == [] then []
    else
      assert forall i :: 0 < i < |a| ==> a[i] == a[1..][i - 1];
      assert IsFound(a[0], b);
      var j :| 0 <= j < |b| && Equal(a[0].key, b[j].key) && Equal(a[0].value, b[j].value);
      [j] + EntryPlaces(a[1..], b)
  }
}
