/** What the order of each kind of column is, in terms of the values alone. */
module ColumnMeaning {

  import opened Wire
  import opened DecimalCompare
  import opened ColumnValues
  import opened ColumnOrder

  /** `c` says how two things compare of which exactly one is the case: less, equal or greater. */
  ghost predicate Says(c: int, less: bool, greater: bool) {
    (c == -1 <==> less) && (c == 1 <==> greater) && -1 <= c <= 1
  }

  // ---- integers ----

  /** Every integer kind is in numerical order, a tinyint as the signed number that its byte stands for (shifted by
      128 here, which keeps the order), a boolean as false before true. */
  lemma IntegersInOrder(a: Value, b: Value, kind: Basic)
    requires Comparable(a, b, kind)
    ensures a.Long? ==> Says(Compare(a, b, kind), a.long < b.long, a.long > b.long)
    ensures a.Int? ==> Says(Compare(a, b, kind), a.n < b.n, a.n > b.n)
    ensures a.Short16? ==> Says(Compare(a, b, kind), a.short < b.short, a.short > b.short)
    ensures kind == TinyInt ==> Says(Compare(a, b, kind), (a.tiny + 128) % 256 < (b.tiny + 128) % 256,
                                     (a.tiny + 128) % 256 > (b.tiny + 128) % 256)
    ensures kind == Boolean ==> Says(Compare(a, b, kind), a.tiny < b.tiny, a.tiny > b.tiny)
  {
    hide CompareRuns, CompareUuid, CompareTimeUuid, CompareVarInt, CompareDecimal, OrderKey, ScalesComparable;
  }

  // ---- bytes ----

  /** `a` stands before `b` in a dictionary: it is a proper prefix of `b`, or smaller at the first place where the
      two differ. */
  ghost predicate Before(a: Bytes, b: Bytes) {
    a < b || exists k: nat :: k < |a| && k < |b| && a[..k] == b[..k] && a[k] < b[k]
  }

  lemma {:induction false} LexicographicMeans(a: Bytes, b: Bytes)
    ensures Says(Lexicographic(a, b), Before(a, b), Before(b, a))
  {
    if a == [] || b == [] {
      assert a == [] && b != [] ==> [] < b;
      assert b == [] && a != [] ==> [] < a;
    } else if a[0] != b[0] {
      assert a[..0] == b[..0];
      FirstDiffers(a, b);
      FirstDiffers(b, a);
    } else {
      LexicographicMeans(a[1..], b[1..]);
      BehindFirst(a, b);
      BehindFirst(b, a);
    }
  }

  lemma FirstDiffers(a: Bytes, b: Bytes)
    requires a != [] && b != [] && a[0] != b[0]
    ensures Before(a, b) <==> a[0] < b[0]
  {
    if a[0] < b[0] {
      assert a[..0] == b[..0];
    } else {
      forall k: nat | 0 < k < |a| && k < |b|
        ensures a[..k] != b[..k]
      {
        assert a[..k][0] == a[0] && b[..k][0] == b[0];
      }
    }
  }

  /** With the same first byte the rest decides. */
  lemma BehindFirst(a: Bytes, b: Bytes)
    requires a != [] && b != [] && a[0] == b[0]
    ensures Before(a, b) <==> Before(a[1..], b[1..])
  {
    assert a == [a[0]] + a[1..] && b == [b[0]] + b[1..];
    assert a < b <==> a[1..] < b[1..];
    if k: nat :| k < |a| && k < |b| && a[..k] == b[..k] && a[k] < b[k] {
      assert a[1..][..k - 1] == a[..k][1..] == b[..k][1..] == b[1..][..k - 1];
      assert a[1..][k - 1] < b[1..][k - 1];
    }
    if k: nat :| k < |a| - 1 && k < |b| - 1 && a[1..][..k] == b[1..][..k] && a[1..][k] < b[1..][k] {
      assert a[..k + 1] == [a[0]] + a[1..][..k] == [b[0]] + b[1..][..k] == b[..k + 1];
      assert a[k + 1] < b[k + 1];
    }
  }

  /** Text, blobs and addresses are in dictionary order of their bytes; an address of four bytes and one of sixteen
      are compared as bytes too. */
  lemma BytesInOrder(a: Value, b: Value, kind: Basic)
    requires Comparable(a, b, kind)
    ensures a.Text? ==> Says(Compare(a, b, kind), Before(a.chars, b.chars), Before(b.chars, a.chars))
    ensures a.Blob? ==> Says(Compare(a, b, kind), Before(a.data, b.data), Before(b.data, a.data))
    ensures a.Inet4? && b.Inet4? ==> Says(Compare(a, b, kind), Before(a.v4, b.v4), Before(b.v4, a.v4))
    ensures a.Inet6? && b.Inet6? ==> Says(Compare(a, b, kind), Before(a.v6, b.v6), Before(b.v6, a.v6))
    ensures a.Inet4? && b.Inet6? ==> Says(Compare(a, b, kind), Before(a.v4, b.v6), Before(b.v6, a.v4))
    ensures a.Inet6? && b.Inet4? ==> Says(Compare(a, b, kind), Before(a.v6, b.v4), Before(b.v4, a.v6))
  {
    hide CompareRuns, CompareUuid, CompareTimeUuid, CompareVarInt, CompareDecimal, OrderKey, ScalesComparable, Before,
      Says, Lexicographic;
    if a.Text? {
      RunsMean(a.chars, b.chars);
    } else if a.Blob? {
      RunsMean(a.data, b.data);
    } else if a.Inet4? || a.Inet6? {
      RunsMean(Address(a), Address(b));
    }
  }

  lemma RunsMean(a: Bytes, b: Bytes)
    ensures Says(CompareRuns(a, b), Before(a, b), Before(b, a))
  {
    RunsAreLexicographic(a, b);
    LexicographicMeans(a, b);
  }

  // ---- UUIDs ----

  /** The bytes of a time UUID with its timestamp, which the layout splits in three, from the most significant byte
      on; the version does not count. */
  ghost function TimeOrdered(id: Bytes16): Bytes {
    [id[6] % 16, id[7]] + id[4..6] + id[..4] + id[8..]
  }

  /** A UUID is ordered by its version first. */
  ghost function VersionOrdered(id: Bytes16): Bytes {
    [id[6] / 16] + if id[6] / 16 == 1 then TimeOrdered(id) else id
  }

  /** Time UUIDs are in dictionary order of their rearranged bytes ... */
  lemma TimeUuidsInOrder(a: Bytes16, b: Bytes16)
    ensures Says(Compare(Uuid(a), Uuid(b), TimeUuid), Before(TimeOrdered(a), TimeOrdered(b)),
                 Before(TimeOrdered(b), TimeOrdered(a)))
  {
    hide CompareTimeUuid, Lexicographic, Before, TimeOrdered, Says;
    TimeUuidIsLexicographic(a, b);
    LexicographicMeans(TimeOrdered(a), TimeOrdered(b));
  }

  /** ... and so are UUIDs, their version before all. */
  lemma UuidsInOrder(a: Bytes16, b: Bytes16)
    ensures Says(Compare(Uuid(a), Uuid(b), UuidKind), Before(VersionOrdered(a), VersionOrdered(b)),
                 Before(VersionOrdered(b), VersionOrdered(a)))
  {
    hide CompareUuid, Lexicographic, Before, VersionOrdered, Says;
    UuidIsLexicographic(a, b);
    LexicographicMeans(VersionOrdered(a), VersionOrdered(b));
  }

  lemma UuidIsLexicographic(a: Bytes16, b: Bytes16)
    ensures CompareUuid(a, b) == Lexicographic(VersionOrdered(a), VersionOrdered(b))
  {
    hide CompareRuns, CompareTimeUuid, Lexicographic, TimeOrdered;
    TimeUuidIsLexicographic(a, b);
    RunsAreLexicographic(a, b);
    LeadingByte(VersionOrdered(a), VersionOrdered(b));
    assert VersionOrdered(a)[1..] == if a[6] / 16 == 1 then TimeOrdered(a) else a;
    assert VersionOrdered(b)[1..] == if b[6] / 16 == 1 then TimeOrdered(b) else b;
  }

  lemma LeadingByte(a: Bytes, b: Bytes)
    requires a != [] && b != []
    ensures Lexicographic(a, b)
         == if a[0] != b[0] then Sign(a[0] as int - b[0] as int) else Lexicographic(a[1..], b[1..])
  {
  }

  lemma TimeUuidIsLexicographic(a: Bytes16, b: Bytes16)
    ensures CompareTimeUuid(a, b) == Lexicographic(TimeOrdered(a), TimeOrdered(b))
  {
    hide CompareRuns, Lexicographic, BigEndian, UuidTimestamp, TimeOrdered;
    var x, y := TimeOrdered(a), TimeOrdered(b);
    TimestampIsNumber(a);
    TimestampIsNumber(b);
    BytesCompareValues(x[..8], y[..8]);
    RunsAreLexicographic(a[8..], b[8..]);
    SplitRuns(x, y, 8);
  }

  /** Lexicographic order looks at the first bytes first. */
  lemma {:induction false} SplitRuns(a: Bytes, b: Bytes, n: nat)
    requires n <= |a| && n <= |b|
    ensures Lexicographic(a, b)
         == if CompareBytes(a[..n], b[..n]) != 0 then CompareBytes(a[..n], b[..n]) else Lexicographic(a[n..], b[n..])
  {
    if n == 0 {
      assert a[0..] == a && b[0..] == b;
    } else {
      SplitRuns(a[1..], b[1..], n - 1);
      assert a[1..][..n - 1] == a[..n][1..] && b[1..][..n - 1] == b[..n][1..];
      assert a[1..][n - 1..] == a[n..] && b[1..][n - 1..] == b[n..];
    }
  }

  /** The timestamp is the number that its bytes make in that order. */
  lemma TimestampIsNumber(id: Bytes16)
    ensures |TimeOrdered(id)| == 16 && TimeOrdered(id)[8..] == id[8..]
    ensures UuidTimestamp(id) == DecimalCompare.Value(TimeOrdered(id)[..8])
  {
    hide DecimalCompare.Value;
    var x := TimeOrdered(id)[..8];
    assert x == [id[6] % 16, id[7], id[4], id[5], id[0], id[1], id[2], id[3]];
    EightDigits(x);
    FourDigits(id[..4]);
    TwoDigits(id[4..6]);
    TwoDigits(id[6..8]);
    var six: nat, seven: nat := id[6], id[7];
    assert (six * 256 + seven) % 0x1000 == six % 16 * 256 + seven;
  }

  lemma TwoDigits(b: Bytes)
    requires |b| == 2
    ensures BigEndian(b) == b[0] as int * 256 + b[1] as int
  {
    assert BigEndian(b[..1][..0]) == 0;
  }

  lemma FourDigits(b: Bytes)
    requires |b| == 4
    ensures BigEndian(b) == b[0] as int * 0x100_0000 + b[1] as int * 0x1_0000 + b[2] as int * 256 + b[3] as int
  {
    TwoDigits(b[..3][..2]);
    assert b[..3][..2][0] == b[0] && b[..3][..2][1] == b[1];
  }

  lemma EightDigits(b: Bytes)
    requires |b| == 8
    ensures DecimalCompare.Value(b)
         == (b[0] as int * 0x100_0000 + b[1] as int * 0x1_0000 + b[2] as int * 256 + b[3] as int) * TWO_32
          + b[4] as int * 0x100_0000 + b[5] as int * 0x1_0000 + b[6] as int * 256 + b[7] as int
  {
    FourValues(b);
    FourValues(b[4..]);
    Pow256Widths();
    assert b[4..][4..] == [];
  }

  lemma FourValues(b: Bytes)
    requires |b| >= 4
    ensures DecimalCompare.Value(b) == b[0] * Pow256(|b| - 1) + b[1] * Pow256(|b| - 2) + b[2] * Pow256(|b| - 3)
                      + b[3] * Pow256(|b| - 4) + DecimalCompare.Value(b[4..])
  {
    assert b[1..][1..] == b[2..] && b[2..][1..] == b[3..] && b[3..][1..] == b[4..];
  }

  // ---- floating-point numbers ----

  const FRACTION_64: nat := 0x10_0000_0000_0000
  const FRACTION_32: nat := 0x80_0000

  /** IEEE 754, section 3.4: what the bits below the sign stand for, as a multiple of the smallest positive number;
      `p` is one more than the largest fraction. Infinity comes out as the next power of two would. */
  ghost function Scaled(magnitude: nat, p: nat): (n: nat)
    requires p > 0
  {
    var exponent, fraction := magnitude / p, magnitude % p;
    if exponent == 0 then fraction
    else
      MulNonNegative(p + fraction, Pow2(exponent - 1));
      (p + fraction) * Pow2(exponent - 1)
  }

  ghost function Number(bits: nat, sign: nat, p: nat): int
    requires p > 0
  {
    var n: int := Scaled(if bits >= sign then bits - sign else bits, p);
    if bits >= sign then -n else n
  }

  lemma NextScaled(m: nat, p: nat)
    requires p > 0
    ensures Scaled(m, p) < Scaled(m + 1, p)
  {
    var e: nat, f: nat := m / p, m % p;
    assert m == e * p + f;
    if f + 1 < p {
      Quotient(e, f + 1, p);
      if e > 0 {
        var q: nat := Pow2(e - 1);
        assert (p + f + 1) * q == (p + f) * q + q;
      }
    } else {
      assert (e + 1) * p == e * p + p;
      Quotient(e + 1, 0, p);
      if e > 0 {
        var q: nat := Pow2(e - 1);
        assert p * (2 * q) == (p + f) * q + q;
      }
    }
  }

  lemma Quotient(e: nat, f: nat, p: nat)
    requires f < p
    ensures (e * p + f) / p == e && (e * p + f) % p == f
  {
    var n := e * p + f;
    var d: int := n / p - e;
    assert n == n / p * p + n % p;
    assert d * p == f - n % p;
    if d > 0 {
      assert d * p == (d - 1) * p + p;
      MulNonNegative(d - 1, p);
    } else if d < 0 {
      assert -d * p == (-d - 1) * p + p;
      MulNonNegative(-d - 1, p);
    }
  }

  lemma {:induction false} ScaledGrows(m: nat, n: nat, p: nat)
    requires p > 0 && m < n
    ensures Scaled(m, p) < Scaled(n, p)
  {
    hide Scaled;
    if m < n - 1 {
      ScaledGrows(m, n - 1, p);
    }
    NextScaled(n - 1, p);
  }

  /** The place that a key gives is the number's, and of the two zeros the negative one comes first. */
  lemma KeysInOrder(a: nat, b: nat, sign: nat, p: nat)
    requires p > 0 && a < 2 * sign && b < 2 * sign
    ensures OrderKey(a, sign) < OrderKey(b, sign)
       <==> Number(a, sign, p) < Number(b, sign, p) || (Number(a, sign, p) == Number(b, sign, p) && a > b)
  {
    hide Scaled;
    ZeroIsZero(p);
    var m, n := if a >= sign then a - sign else a, if b >= sign then b - sign else b;
    if m < n { ScaledGrows(m, n, p); }
    if n < m { ScaledGrows(n, m, p); }
    if m > 0 { ScaledGrows(0, m, p); }
    if n > 0 { ScaledGrows(0, n, p); }
  }

  lemma ZeroIsZero(p: nat)
    requires p > 0
    ensures Scaled(0, p) == 0
  {
  }

  /** Floating-point columns are in numerical order, infinities included, with the negative zero before the positive
      one. The bits of a NaN stand past infinity, on the side of its sign. */
  lemma FloatsInOrder(a: Value, b: Value, kind: Basic)
    requires Comparable(a, b, kind)
    ensures a.Double? ==>
              var x, y := Number(a.bits, SIGN_64, FRACTION_64), Number(b.bits, SIGN_64, FRACTION_64);
              Says(Compare(a, b, kind), x < y || (x == y && a.bits > b.bits), x > y || (x == y && a.bits < b.bits))
    ensures a.Float? ==>
              var x, y := Number(a.bits32, SIGN_32, FRACTION_32), Number(b.bits32, SIGN_32, FRACTION_32);
              Says(Compare(a, b, kind), x < y || (x == y && a.bits32 > b.bits32),
                   x > y || (x == y && a.bits32 < b.bits32))
  {
    hide CompareRuns, CompareUuid, CompareTimeUuid, CompareVarInt, CompareDecimal, OrderKey, Number, ScalesComparable;
    if a.Double? {
      KeysInOrder(a.bits, b.bits, SIGN_64, FRACTION_64);
      KeysInOrder(b.bits, a.bits, SIGN_64, FRACTION_64);
    } else if a.Float? {
      KeysInOrder(a.bits32, b.bits32, SIGN_32, FRACTION_32);
      KeysInOrder(b.bits32, a.bits32, SIGN_32, FRACTION_32);
    }
  }

  // ---- big numbers ----

  /** Big integers and decimals are in numerical order. */
  lemma BigNumbersInOrder(a: Value, b: Value, kind: Basic)
    requires Comparable(a, b, kind)
    ensures a.Big? ==> Says(Compare(a, b, kind), IntValue(a.big) < IntValue(b.big), IntValue(a.big) > IntValue(b.big))
    ensures a.Dec? ==> Says(Compare(a, b, kind), DecimalValue(a.dec) < DecimalValue(b.dec),
                            DecimalValue(a.dec) > DecimalValue(b.dec))
  {
    hide CompareRuns, CompareUuid, CompareTimeUuid, CompareVarInt, CompareDecimal, OrderKey, IntValue, DecimalValue,
      ScalesComparable;
    if a.Big? {
      VarIntCompareExact(a.big, b.big);
    } else if a.Dec? {
      DecimalCompareExact(a.dec, b.dec);
    }
  }
}
