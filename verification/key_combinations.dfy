/** The key combinations that a WHERE clause with IN lists names: one choice per key position, numbered in
    mixed radix. */
module KeyCombinations {

  const TWO_64: nat := 0x1_0000_0000_0000_0000

  function Product(sizes: seq<nat>): nat {
    if sizes == [] then 1 else sizes[0] * Product(sizes[1..])
  }

  function Sizes<T>(choices: seq<seq<T>>): (r: seq<nat>)
    ensures |r| == |choices| && forall i :: 0 <= i < |r| ==> r[i] == |choices[i]|
  {
    seq(|choices|, i requires 0 <= i < |choices| => |choices[i]|)
  }

  /** Which choice combination `idx` makes at position `i`. */
  function Digit(sizes: seq<nat>, idx: nat, i: nat): (d: nat)
    requires i < |sizes| && Product(sizes[i + 1..]) > 0 && sizes[i] > 0
    ensures d < sizes[i]
  {
    idx / Product(sizes[i + 1..]) % sizes[i]
  }

  lemma {:induction false} PositiveProduct(sizes: seq<nat>, i: nat)
    requires i <= |sizes| && Product(sizes) > 0
    ensures Product(sizes[i..]) > 0
    ensures i < |sizes| ==> sizes[i] > 0 && Product(sizes[i + 1..]) > 0
    ensures i < |sizes| ==> Product(sizes[i..]) == sizes[i] * Product(sizes[i + 1..])
  {
    if i == 0 {
      assert sizes[0..] == sizes;
      if sizes != [] {
        NonZeroFactors(sizes[0], Product(sizes[1..]));
      }
    } else {
      NonZeroFactors(sizes[0], Product(sizes[1..]));
      PositiveProduct(sizes[1..], i - 1);
      assert sizes[1..][i - 1..] == sizes[i..];
      if i < |sizes| {
        assert sizes[1..][i..] == sizes[i + 1..];
      }
    }
  }

  lemma NonZeroFactors(a: nat, b: nat)
    requires a * b > 0
    ensures a > 0 && b > 0
  {
  }

  // ---- mixed radix ----

  ghost predicate IsChoice(sizes: seq<nat>, ds: seq<nat>) {
    |ds| == |sizes| && forall i :: 0 <= i < |ds| ==> ds[i] < sizes[i]
  }

  /** The number of a choice. */
  ghost function Number(sizes: seq<nat>, ds: seq<nat>): nat
    requires |ds| == |sizes|
  {
    if sizes == [] then 0
    else
      NonNegative(ds[0], Product(sizes[1..]));
      ds[0] * Product(sizes[1..]) + Number(sizes[1..], ds[1..])
  }

  lemma NonNegative(a: int, b: int)
    requires a >= 0 && b >= 0
    ensures a * b >= 0
  {
  }

  lemma {:induction false} NumberInRange(sizes: seq<nat>, ds: seq<nat>)
    requires IsChoice(sizes, ds)
    ensures Number(sizes, ds) < Product(sizes)
  {
    if sizes != [] {
      NumberInRange(sizes[1..], ds[1..]);
      var p := Product(sizes[1..]);
      NonNegative(sizes[0] - 1 - ds[0], p);
      assert sizes[0] * p == ds[0] * p + p + (sizes[0] - 1 - ds[0]) * p;
    }
  }

  /** Dividing q*s*p + d*p + e by p and reducing modulo s leaves d. */
  lemma Extract(q: nat, s: nat, p: nat, d: nat, e: nat)
    requires d < s && e < p
    ensures (q * (s * p) + (d * p + e)) / p % s == d
  {
    var x := q * s + d;
    NonNegative(q, s);
    assert q * (s * p) + (d * p + e) == x * p + e by {
      assert q * (s * p) == q * s * p;
      assert x * p == q * s * p + d * p;
    }
    Quotient(p, x, e);
    Quotient(s, q, d);
  }

  lemma Quotient(p: nat, x: nat, e: nat)
    requires e < p
    ensures (x * p + e) / p == x && (x * p + e) % p == e
  {
    var n := x * p + e;
    var k, r := n / p, n % p;
    assert n == k * p + r;
    var diff := k - x;
    assert diff * p == e - r by {
      assert diff * p == k * p - x * p;
    }
    if diff != 0 {
      NoMultipleBetween(diff, p);
    }
  }

  lemma NoMultipleBetween(x: int, p: int)
    requires x != 0 && p > 0
    ensures x * p >= p || x * p <= -p
  {
    if x > 0 {
      NonNegative(x - 1, p);
      assert x * p == (x - 1) * p + p;
    } else {
      NonNegative(-x - 1, p);
      assert (-x - 1) * p == -(x * p) - p;
    }
  }

  /** Position `i` of the number of a choice, whatever whole multiple of the range is added, is the choice
      made there. */
  lemma {:induction false} DigitOfNumber(sizes: seq<nat>, ds: seq<nat>, q: nat, i: nat)
    requires IsChoice(sizes, ds) && i < |sizes|
    ensures Product(sizes) > 0 && Product(sizes[i + 1..]) > 0 && sizes[i] > 0
    ensures Digit(sizes, q * Product(sizes) + Number(sizes, ds), i) == ds[i]
    decreases i
  {
    NumberInRange(sizes, ds);
    PositiveProduct(sizes, i);
    var s, p := sizes[0], Product(sizes[1..]);
    NumberInRange(sizes[1..], ds[1..]);
    if i == 0 {
      Extract(q, s, p, ds[0], Number(sizes[1..], ds[1..]));
    } else {
      NonNegative(q, s);
      DigitOfNumber(sizes[1..], ds[1..], q * s + ds[0], i - 1);
      assert sizes[1..][i..] == sizes[i + 1..];
      Regroup(q, s, p, ds[0]);
    }
  }

  lemma Regroup(q: int, s: int, p: int, d: int)
    ensures q * (s * p) + d * p == (q * s + d) * p
  {
    assert q * (s * p) == q * s * p;
    assert (q * s + d) * p == q * s * p + d * p;
  }

  lemma QuotientBound(d: nat, p: nat, e: nat, s: nat)
    requires d * p + e < s * p
    ensures d < s
  {
    assert d >= s ==> d * p == s * p + (d - s) * p;
    assert d >= s ==> (d - s) * p >= 0;
  }

  /** Every number below the product is the number of a choice. */
  lemma {:induction false} ChoiceOf(sizes: seq<nat>, idx: nat) returns (ds: seq<nat>)
    requires idx < Product(sizes)
    ensures IsChoice(sizes, ds) && Number(sizes, ds) == idx
  {
    if sizes == [] {
      ds := [];
    } else {
      var p := Product(sizes[1..]);
      NonZeroFactors(sizes[0], p);
      var d, e := idx / p, idx % p;
      assert idx == d * p + e && e < p;
      QuotientBound(d, p, e, sizes[0]);
      var rest := ChoiceOf(sizes[1..], e);
      ds := [d] + rest;
      assert ds[1..] == rest;
    }
  }

  ghost predicate LexLess(a: seq<nat>, b: seq<nat>)
    requires |a| == |b|
  {
    a != [] && (a[0] < b[0] || (a[0] == b[0] && LexLess(a[1..], b[1..])))
  }

  /** Numbering follows lexicographic order. */
  lemma {:induction false} NumberIsLexicographic(sizes: seq<nat>, a: seq<nat>, b: seq<nat>)
    requires IsChoice(sizes, a) && IsChoice(sizes, b)
    ensures Number(sizes, a) < Number(sizes, b) <==> LexLess(a, b)
  {
    if sizes != [] {
      var p := Product(sizes[1..]);
      NumberIsLexicographic(sizes[1..], a[1..], b[1..]);
      NumberInRange(sizes[1..], a[1..]);
      NumberInRange(sizes[1..], b[1..]);
      if a[0] < b[0] {
        NonNegative(b[0] - a[0] - 1, p);
        assert b[0] * p == a[0] * p + p + (b[0] - a[0] - 1) * p;
      } else if a[0] > b[0] {
        NonNegative(a[0] - b[0] - 1, p);
        assert a[0] * p == b[0] * p + p + (a[0] - b[0] - 1) * p;
      }
    }
  }

  // ---- build_cartesian_combos ----

  /** The combination that makes choice `ds[i]` at each position `i`. */
  function Pick<T>(choices: seq<seq<T>>, ds: seq<nat>): seq<T>
    requires |ds| == |choices| && forall i :: 0 <= i < |ds| ==> ds[i] < |choices[i]|
  {
    seq(|ds|, i requires 0 <= i < |ds| => choices[i][ds[i]])
  }

  /** `combo` is combination number `idx`. */
  ghost predicate IsCombination<T>(choices: seq<seq<T>>, idx: nat, combo: seq<T>) {
    && |combo| == |choices| && Product(Sizes(choices)) > 0
    && forall i :: 0 <= i < |choices| ==>
         && (PositiveProduct(Sizes(choices), i); true)
         && combo[i] == choices[i][Digit(Sizes(choices), idx, i)]
  }

  /** `choices[i]` is the IN list of key position `i`, or the one value an equality fixes it to. */
  method BuildCombos<T>(choices: seq<seq<T>>) returns (out: seq<seq<T>>)
    requires Product(Sizes(choices)) < TWO_64
    ensures |out| == Product(Sizes(choices))
    ensures forall idx :: 0 <= idx < |out| ==> IsCombination(choices, idx, out[idx])
  {
    var n := |choices|;
    var sizes := Sizes(choices);
    var total := 1;
    assert sizes[..0] == [];
    for i := 0 to n
      invariant total == Product(sizes[..i]) % TWO_64
    {
      ProductSnoc(sizes[..i], sizes[i]);
      assert sizes[..i + 1] == sizes[..i] + [sizes[i]];
      WrappedProduct(Product(sizes[..i]), sizes[i]);
      total := total * sizes[i] % TWO_64;
    }
    assert sizes[..n] == sizes;
    out := [];
    for idx := 0 to total
      invariant |out| == idx
      invariant forall k :: 0 <= k < idx ==> IsCombination(choices, k, out[k])
    {
      var combo := Combine(choices, sizes, total, idx);
      out := out + [combo];
    }
  }

  /** One combination: the stride shrinks from the total to 1 as the positions are gone through. */
  method Combine<T>(choices: seq<seq<T>>, sizes: seq<nat>, total: nat, idx: nat) returns (combo: seq<T>)
    requires sizes == Sizes(choices) && total == Product(sizes) && total > 0
    ensures IsCombination(choices, idx, combo)
  {
    hide Product;
    combo := [];
    var stride := total;
    assert sizes[0..] == sizes;
    for i := 0 to |choices|
      invariant |combo| == i && stride == Product(sizes[i..]) > 0
      invariant forall k :: 0 <= k < i ==>
          (PositiveProduct(sizes, k); true) && combo[k] == choices[k][Digit(sizes, idx, k)]
    {
      StrideStep(sizes, i);
      stride := stride / sizes[i];
      var choice := idx / stride % sizes[i];
      assert choice == Digit(sizes, idx, i);
      combo := combo + [choices[i][choice]];
    }
  }

  /** The stride of a position. */
  lemma StrideStep(sizes: seq<nat>, i: nat)
    requires i < |sizes| && Product(sizes) > 0
    ensures sizes[i] > 0 && Product(sizes[i + 1..]) > 0 && Product(sizes[i..]) / sizes[i] == Product(sizes[i + 1..])
  {
    hide Product;
    PositiveProduct(sizes, i);
    DivideBack(Product(sizes[i..]), sizes[i], Product(sizes[i + 1..]));
  }

  lemma DivideBack(p: nat, s: nat, q: nat)
    requires s > 0 && p == s * q
    ensures p / s == q
  {
    assert p == q * s + 0;
    Quotient(s, q, 0);
  }

  lemma {:induction false} ProductSnoc(a: seq<nat>, x: nat)
    ensures Product(a + [x]) == Product(a) * x
  {
    if a == [] {
      assert a + [x] == [x];
    } else {
      ProductSnoc(a[1..], x);
      assert (a + [x])[1..] == a[1..] + [x];
      assert a[0] * (Product(a[1..]) * x) == a[0] * Product(a[1..]) * x;
    }
  }

  lemma WrappedProduct(p: nat, s: nat)
    ensures p % TWO_64 * s % TWO_64 == p * s % TWO_64
  {
    var q, r := p / TWO_64, p % TWO_64;
    assert p == q * TWO_64 + r;
    assert p * s == q * s * TWO_64 + r * s;
    NonNegative(q, s);
    NonNegative(r, s);
    var k, e := r * s / TWO_64, r * s % TWO_64;
    assert p * s == (q * s + k) * TWO_64 + e;
    Quotient(TWO_64, q * s + k, e);
  }

  /** The combinations emitted are exactly the choices, each once, in lexicographic order: the number of a
      choice is where its combination stands, every place holds one, and places are ordered as choices are. */
  lemma EveryChoiceOnce<T>(choices: seq<seq<T>>, out: seq<seq<T>>, ds: seq<nat>)
    requires |out| == Product(Sizes(choices))
    requires forall idx :: 0 <= idx < |out| ==> IsCombination(choices, idx, out[idx])
    requires IsChoice(Sizes(choices), ds)
    ensures Number(Sizes(choices), ds) < |out| && out[Number(Sizes(choices), ds)] == Pick(choices, ds)
  {
    var sizes := Sizes(choices);
    NumberInRange(sizes, ds);
    var idx := Number(sizes, ds);
    assert IsCombination(choices, idx, out[idx]);
    forall i | 0 <= i < |choices|
      ensures out[idx][i] == choices[i][ds[i]]
    {
      DigitOfNumber(sizes, ds, 0, i);
    }
  }

  lemma NumberIsInjective(sizes: seq<nat>, a: seq<nat>, b: seq<nat>)
    requires IsChoice(sizes, a) && IsChoice(sizes, b) && Number(sizes, a) == Number(sizes, b)
    ensures a == b
  {
    forall i | 0 <= i < |a|
      ensures a[i] == b[i]
    {
      DigitOfNumber(sizes, a, 0, i);
      DigitOfNumber(sizes, b, 0, i);
    }
  }

  /** An empty IN list leaves nothing. */
  lemma {:induction false} EmptyListEmptyResult(sizes: seq<nat>)
    ensures Product(sizes) == 0 <==> exists i :: 0 <= i < |sizes| && sizes[i] == 0
  {
    if sizes != [] {
      EmptyListEmptyResult(sizes[1..]);
      if Product(sizes) > 0 {
        NonZeroFactors(sizes[0], Product(sizes[1..]));
      }
      if i :| 0 <= i < |sizes[1..]| && sizes[1..][i] == 0 {
        assert sizes[i + 1] == 0;
      }
      if i :| 0 <= i < |sizes| && sizes[i] == 0 {
        if i > 0 {
          assert sizes[1..][i - 1] == 0;
        }
      }
    }
  }
}
