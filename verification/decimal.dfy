/** Big-number and decimal comparison over base-256 magnitudes. */
module DecimalCompare {

  import opened Wire

  /** Most significant byte first; leading zeros allowed. */
  type Magnitude = seq<Byte>

  datatype VarInt = VarInt(negative: bool, magnitude: Magnitude)

  type S32 = n: int | -0x8000_0000 <= n < 0x8000_0000

  datatype Decimal = Decimal(scale: S32, unscaled: VarInt)

  // ---- what the representations stand for ----

  function Pow10(n: nat): (p: nat)
    ensures p >= 1
  {
    if n == 0 then 1 else 10 * Pow10(n - 1)
  }

  ghost function Value(m: Magnitude): nat {
    if m == [] then 0
    else
      MulNonNegative(m[0], Pow256(|m| - 1));
      m[0] * Pow256(|m| - 1) + Value(m[1..])
  }

  ghost function IntValue(v: VarInt): int {
    var n: int := Value(v.magnitude);
    if v.negative then -n else n
  }

  /** 10 to the power e, for any sign of e. */
  ghost function Power(e: int): (p: real)
    ensures p > 0.0
    decreases if e < 0 then -e else e
  {
    if e == 0 then 1.0 else if e > 0 then 10.0 * Power(e - 1) else Power(e + 1) / 10.0
  }

  function Exponent(d: Decimal): int {
    var scale: int := d.scale;
    -scale
  }

  ghost function DecimalValue(d: Decimal): real {
    IntValue(d.unscaled) as real * Power(Exponent(d))
  }

  function Sign(x: int): int {
    if x < 0 then -1 else if x > 0 then 1 else 0
  }

  ghost function RealSign(x: real): int {
    if x < 0.0 then -1 else if x > 0.0 then 1 else 0
  }

  lemma MulNonNegative(a: int, b: int)
    requires a >= 0 && b >= 0
    ensures a * b >= 0
  {
  }

  // ---- magnitude_bounds and compare_magnitude ----

  function LeadingZeros(m: Magnitude): (n: nat)
    ensures n <= |m|
  {
    if m == [] || m[0] != 0 then 0 else 1 + LeadingZeros(m[1..])
  }

  method MagnitudeBounds(m: Magnitude) returns (start: nat, len: nat)
    ensures start == LeadingZeros(m) && len == |m| - start
  {
    start := 0;
    while start < |m| && m[start] == 0
      invariant start <= |m| && LeadingZeros(m) == start + LeadingZeros(m[start..])
    {
      start := start + 1;
    }
    len := |m| - start;
  }

  /** `memory_compare` on equally long runs of bytes. */
  function CompareBytes(a: Magnitude, b: Magnitude): int
    requires |a| == |b|
  {
    if a == [] then 0 else if a[0] != b[0] then Sign(a[0] as int - b[0] as int) else CompareBytes(a[1..], b[1..])
  }

  function CompareMagnitude(a: Magnitude, b: Magnitude): int {
    var x, y := a[LeadingZeros(a)..], b[LeadingZeros(b)..];
    if |x| != |y| then Sign(|x| - |y|) else CompareBytes(x, y)
  }

  predicate IsZero(m: Magnitude) {
    LeadingZeros(m) == |m|
  }

  /** A digit's share of the value lies between its own power and the next. */
  lemma DigitBounds(d: nat, p: nat)
    requires d <= 255
    ensures d * p <= 255 * p
    ensures d > 0 ==> p <= d * p
  {
    MulNonNegative(255 - d, p);
    assert (255 - d) * p == 255 * p - d * p;
    if d > 0 {
      MulNonNegative(d - 1, p);
      assert (d - 1) * p == d * p - p;
    }
  }

  lemma {:induction false} ValueBound(m: Magnitude)
    ensures Value(m) < Pow256(|m|)
    ensures m != [] && m[0] > 0 ==> Pow256(|m| - 1) <= Value(m)
  {
    if m != [] {
      ValueBound(m[1..]);
      DigitBounds(m[0], Pow256(|m| - 1));
    }
  }

  lemma {:induction false} LeadingZerosKeepValue(m: Magnitude)
    ensures Value(m[LeadingZeros(m)..]) == Value(m)
    ensures LeadingZeros(m) < |m| ==> m[LeadingZeros(m)] > 0
    ensures IsZero(m) <==> Value(m) == 0
  {
    if m != [] && m[0] == 0 {
      LeadingZerosKeepValue(m[1..]);
      assert m[1..][LeadingZeros(m[1..])..] == m[LeadingZeros(m)..];
    } else {
      assert m[0..] == m;
      ValueBound(m);
    }
  }

  lemma {:induction false} LongerIsLarger(a: Magnitude, b: Magnitude)
    requires |a| < |b| && b[0] > 0
    ensures Value(a) < Value(b)
  {
    ValueBound(a);
    ValueBound(b);
    PowersGrow(|a|, |b| - 1);
  }

  lemma {:induction false} PowersGrow(m: nat, n: nat)
    requires m <= n
    ensures Pow256(m) <= Pow256(n)
  {
    if m < n {
      PowersGrow(m, n - 1);
    }
  }

  lemma {:induction false} BytesCompareValues(a: Magnitude, b: Magnitude)
    requires |a| == |b|
    ensures CompareBytes(a, b) == Sign(Value(a) - Value(b))
  {
    if a != [] {
      if a[0] == b[0] {
        BytesCompareValues(a[1..], b[1..]);
      } else {
        ValueBound(a[1..]);
        ValueBound(b[1..]);
        var p := Pow256(|a| - 1);
        if a[0] < b[0] {
          MulNonNegative(b[0] - a[0] - 1, p);
          assert b[0] * p == a[0] * p + p + (b[0] - a[0] - 1) * p;
        } else {
          MulNonNegative(a[0] - b[0] - 1, p);
          assert a[0] * p == b[0] * p + p + (a[0] - b[0] - 1) * p;
        }
      }
    }
  }

  lemma MagnitudeCompareExact(a: Magnitude, b: Magnitude)
    ensures CompareMagnitude(a, b) == Sign(Value(a) - Value(b))
  {
    LeadingZerosKeepValue(a);
    LeadingZerosKeepValue(b);
    var x, y := a[LeadingZeros(a)..], b[LeadingZeros(b)..];
    if |x| < |y| {
      LongerIsLarger(x, y);
    } else if |x| > |y| {
      LongerIsLarger(y, x);
    } else {
      BytesCompareValues(x, y);
    }
  }

  // ---- compare_varint ----

  function CompareVarInt(a: VarInt, b: VarInt): int {
    var aZero, bZero := IsZero(a.magnitude), IsZero(b.magnitude);
    if aZero && bZero then 0
    else if a.negative != b.negative then
      if aZero then (if b.negative then 1 else -1)
      else if bZero then (if a.negative then -1 else 1)
      else if a.negative then -1 else 1
    else
      var m := CompareMagnitude(a.magnitude, b.magnitude);
      if a.negative then -m else m
  }

  /** Exact for every representation: leading zeros and negative zero included. */
  lemma VarIntCompareExact(a: VarInt, b: VarInt)
    ensures CompareVarInt(a, b) == Sign(IntValue(a) - IntValue(b))
  {
    LeadingZerosKeepValue(a.magnitude);
    LeadingZerosKeepValue(b.magnitude);
    MagnitudeCompareExact(a.magnitude, b.magnitude);
  }

  // ---- magnitude_mul_pow10 ----

  /** Ten times a magnitude in the same number of bytes, and the carry out of them. */
  function TenTimes(m: Magnitude): (r: (Magnitude, nat))
    ensures |r.0| == |m| && r.1 <= 9
  {
    if m == [] then ([], 0)
    else
      var (low, carry) := TenTimes(m[1..]);
      var v := m[0] * 10 + carry;
      ([v % 256] + low, v / 256)
  }

  function MulTen(m: Magnitude): Magnitude {
    var (bytes, carry) := TenTimes(m);
    if carry > 0 then [carry] + bytes else bytes
  }

  function MulPow10(m: Magnitude, times: nat): Magnitude {
    if times == 0 then m else MulTen(MulPow10(m, times - 1))
  }

  method MagnitudeMulPow10(m: Magnitude, times: nat) returns (cur: Magnitude)
    ensures cur == MulPow10(m, times)
  {
    cur := m;
    for t := 0 to times
      invariant cur == MulPow10(m, t)
    {
      var before := cur;
      var carry: nat := 0;
      var i: nat := |cur|;
      assert before[|before|..] == [];
      while i > 0
        invariant i <= |before| && cur == before[..i] + TenTimes(before[i..]).0 && carry == TenTimes(before[i..]).1
      {
        i := i - 1;
        var v := cur[i] * 10 + carry;
        assert before[i..][1..] == before[i + 1..];
        cur := cur[i := v % 256];
        carry := v / 256;
      }
      assert before[0..] == before;
      ghost var bytes, out := cur, carry;
      while carry > 0
        invariant (carry == out && cur == bytes) || (out > 0 && carry == 0 && cur == [out] + bytes)
        invariant out <= 9
        decreases carry
      {
        cur := [carry % 256] + cur;
        carry := carry / 256;
      }
    }
  }

  /** The carry step of a multiplication: p is the weight of the byte. */
  lemma CarryStep(d: int, c: int, p: int, low: int, rest: int)
    requires c * p + low == 10 * rest
    ensures (d * 10 + c) / 256 * (256 * p) + ((d * 10 + c) % 256 * p + low) == 10 * (d * p + rest)
  {
    var v := d * 10 + c;
    var q, r := v / 256, v % 256;
    assert q * 256 + r == v;
    Distribute(q * 256, r, p);
    Distribute(d * 10, c, p);
    assert q * 256 * p == q * (256 * p);
    assert d * 10 * p == 10 * (d * p);
  }

  lemma Distribute(a: int, b: int, p: int)
    ensures (a + b) * p == a * p + b * p
  {
  }

  lemma {:induction false} TenTimesValue(m: Magnitude)
    ensures TenTimes(m).1 * Pow256(|m|) + Value(TenTimes(m).0) == 10 * Value(m)
  {
    if m != [] {
      TenTimesValue(m[1..]);
      var (low, c) := TenTimes(m[1..]);
      var v := m[0] * 10 + c;
      assert ([v % 256] + low)[1..] == low;
      CarryStep(m[0], c, Pow256(|m| - 1), Value(low), Value(m[1..]));
    }
  }

  lemma MulTenValue(m: Magnitude)
    ensures Value(MulTen(m)) == 10 * Value(m)
  {
    hide TenTimes;
    TenTimesValue(m);
    var (bytes, carry) := TenTimes(m);
    if carry > 0 {
      assert ([carry] + bytes)[1..] == bytes;
    }
  }

  lemma Associate(a: int, b: int, c: int)
    ensures a * (b * c) == a * b * c
  {
  }

  lemma {:induction false} MulPow10Value(m: Magnitude, times: nat)
    ensures Value(MulPow10(m, times)) == Pow10(times) * Value(m)
  {
    if times > 0 {
      MulPow10Value(m, times - 1);
      MulTenValue(MulPow10(m, times - 1));
      Associate(10, Pow10(times - 1), Value(m));
    }
  }

  // ---- compare_decimal ----

  /** The source subtracts the scales in 32 bits. */
  predicate ScalesComparable(a: Decimal, b: Decimal) {
    -0x8000_0000 <= a.scale - b.scale < 0x8000_0000 && -0x8000_0000 <= b.scale - a.scale < 0x8000_0000
  }

  function CompareDecimal(a: Decimal, b: Decimal): int
    requires ScalesComparable(a, b)
  {
    if a.scale == b.scale then CompareVarInt(a.unscaled, b.unscaled)
    else if a.scale > b.scale then
      CompareVarInt(a.unscaled, b.unscaled.(magnitude := MulPow10(b.unscaled.magnitude, a.scale - b.scale)))
    else
      CompareVarInt(a.unscaled.(magnitude := MulPow10(a.unscaled.magnitude, b.scale - a.scale)), b.unscaled)
  }

  lemma {:induction false} PowerAdds(e: int, n: nat)
    ensures Power(e + n) == Power(e) * Pow10(n) as real
    decreases n
  {
    if n > 0 {
      PowerAdds(e, n - 1);
      PowerStep(e + n - 1);
      TenMore(Power(e), Pow10(n - 1));
    }
  }

  lemma TenMore(p: real, n: nat)
    ensures 10.0 * (p * n as real) == p * (10 * n) as real
  {
  }

  lemma PowerStep(e: int)
    ensures Power(e + 1) == 10.0 * Power(e)
  {
    if e < 0 {
      assert Power(e) == Power(e + 1) / 10.0;
    }
  }

  lemma {:induction false} ProductCast(x: int, n: nat)
    ensures (x * n) as real == x as real * n as real
    decreases n
  {
    if n > 0 {
      ProductCast(x, n - 1);
      assert x * n == x * (n - 1) + x;
      assert x as real * n as real == x as real * (n - 1) as real + x as real;
    }
  }

  lemma ScaleFactor(x: int, n: nat, p: real)
    ensures x as real * (p * n as real) == (x * n) as real * p
  {
    ProductCast(x, n);
  }

  /** The unscaled integer of a number whose magnitude was multiplied by 10 to the n. */
  lemma MulPow10IntValue(v: VarInt, n: nat)
    ensures IntValue(v.(magnitude := MulPow10(v.magnitude, n))) == IntValue(v) * Pow10(n)
  {
    hide MulPow10, Value, Pow10;
    MulPow10Value(v.magnitude, n);
    NegateProduct(Pow10(n), Value(v.magnitude));
  }

  lemma NegateProduct(a: int, b: int)
    ensures -(a * b) == (-b) * a && a * b == b * a
  {
  }

  lemma SignScaled(x: int, y: int, p: real)
    requires p > 0.0
    ensures RealSign(x as real * p - y as real * p) == Sign(x - y)
  {
    PositiveTimes((x - y) as real, p);
    assert x as real * p - y as real * p == (x - y) as real * p;
  }

  lemma PositiveTimes(d: real, p: real)
    requires p > 0.0
    ensures RealSign(d * p) == RealSign(d)
  {
  }

  /** x weighs p, y weighs k times p: comparing x with y scaled up by k compares the numbers. */
  lemma Aligned(x: int, y: int, k: nat, p: real, q: real)
    requires p > 0.0 && q == p * k as real
    ensures RealSign(x as real * p - y as real * q) == Sign(x - y * k)
  {
    var z := y * k;
    var coarse, scaled := y as real * q, z as real * p;
    ScaleFactor(y, k, p);
    assert coarse == scaled;
    SignScaled(x, z, p);
  }

  lemma SignFlips(x: real, y: real)
    ensures RealSign(x - y) == -RealSign(y - x)
  {
  }

  /** Comparing an integer with a coarser one scaled up, on the numbers they stand for. */
  lemma ScaledCompare(a: Decimal, b: Decimal, w: VarInt)
    requires a.scale >= b.scale
    requires w == b.unscaled.(magnitude := MulPow10(b.unscaled.magnitude, a.scale as int - b.scale as int))
    ensures Sign(IntValue(a.unscaled) - IntValue(w)) == RealSign(DecimalValue(a) - DecimalValue(b))
  {
    hide Power, Pow10, MulPow10, IntValue;
    var n: nat := a.scale as int - b.scale as int;
    MulPow10IntValue(b.unscaled, n);
    assert Exponent(b) == Exponent(a) + n;
    PowerAdds(Exponent(a), n);
    Aligned(IntValue(a.unscaled), IntValue(b.unscaled), Pow10(n), Power(Exponent(a)), Power(Exponent(b)));
  }

  /** The comparison is the sign of the exact difference, for any scales and any representation. */
  lemma DecimalCompareExact(a: Decimal, b: Decimal)
    requires ScalesComparable(a, b)
    ensures CompareDecimal(a, b) == RealSign(DecimalValue(a) - DecimalValue(b))
  {
    hide Power, MulPow10, CompareVarInt, DecimalValue, IntValue, MulTen;
    if a.scale == b.scale {
      VarIntCompareExact(a.unscaled, b.unscaled);
      SameScale(a, b);
    } else if a.scale > b.scale {
      var w := b.unscaled.(magnitude := MulPow10(b.unscaled.magnitude, a.scale as int - b.scale as int));
      VarIntCompareExact(a.unscaled, w);
      ScaledCompare(a, b, w);
    } else {
      var w := a.unscaled.(magnitude := MulPow10(a.unscaled.magnitude, b.scale as int - a.scale as int));
      VarIntCompareExact(w, b.unscaled);
      ScaledCompare(b, a, w);
      SignFlips(DecimalValue(a), DecimalValue(b));
    }
  }

  lemma SameScale(a: Decimal, b: Decimal)
    requires a.scale == b.scale
    ensures Sign(IntValue(a.unscaled) - IntValue(b.unscaled)) == RealSign(DecimalValue(a) - DecimalValue(b))
  {
    hide Power, IntValue;
    SignScaled(IntValue(a.unscaled), IntValue(b.unscaled), Power(Exponent(a)));
  }

  /** Hence a total preorder: antisymmetric in sign and transitive. */
  lemma DecimalOrder(a: Decimal, b: Decimal, c: Decimal)
    requires ScalesComparable(a, b) && ScalesComparable(b, c) && ScalesComparable(a, c)
    ensures CompareDecimal(a, b) == -CompareDecimal(b, a)
    ensures CompareDecimal(a, b) <= 0 && CompareDecimal(b, c) <= 0 ==> CompareDecimal(a, c) <= 0
    ensures CompareDecimal(a, b) == 0 ==> CompareDecimal(a, c) == CompareDecimal(b, c)
  {
    DecimalCompareExact(a, b);
    DecimalCompareExact(b, a);
    DecimalCompareExact(b, c);
    DecimalCompareExact(a, c);
  }
}
