/** Which pages a database uses: the bitset pages at the start of each block and the bits in them. */
module PageAllocation {
  import opened Storage
  import opened Replaying

  // ---- words ----

  predicate IsFull(w: Word) {
    forall i :: 0 <= i < WORD_BITS ==> w[i]
  }

  predicate IsZero(w: Word) {
    forall i :: 0 <= i < WORD_BITS ==> !w[i]
  }

  /** `bit_count_trailing_zeros(~w)`. */
  function LowestClear(w: Word, from: nat := 0): (b: nat)
    requires from < WORD_BITS && !IsFull(w) && forall i :: 0 <= i < from ==> w[i]
    ensures b < WORD_BITS && !w[b] && forall i :: 0 <= i < b ==> w[i]
    decreases WORD_BITS - from
  {
    if !w[from] then from else LowestClear(w, from + 1)
  }

  /** `64 - bit_count_leading_zeros(w)`. */
  function OccupiedBits(w: Word, limit: nat := WORD_BITS): (n: nat)
    requires 0 < limit <= WORD_BITS && !IsZero(w) && forall i :: limit <= i < WORD_BITS ==> !w[i]
    ensures 0 < n <= WORD_BITS && w[n - 1] && forall i :: n <= i < WORD_BITS ==> !w[i]
    decreases limit
  {
    if w[limit - 1] then limit else OccupiedBits(w, limit - 1)
  }

  // ---- geometry ----

  /** Pages from one bitset page to the next. */
  function Stride(entries: nat): (s: nat)
    ensures s == entries * WORD_BITS + 1
  {
    entries * WORD_BITS + 1
  }

  /** The last multiple of `s` up to `n`. */
  function BlockStart(s: nat, n: nat): (b: nat)
    requires s > 0
    ensures b <= n < b + s
  {
    assert n == n / s * s + n % s;
    n / s * s
  }

  function BitsetPage(entries: nat, p: nat): nat
    requires p > 0
  {
    BlockStart(Stride(entries), p - 1) + 1
  }

  predicate IsBitsetPage(entries: nat, p: nat) {
    p > 0 && BitsetPage(entries, p) == p
  }

  lemma SmallMultiple(x: int, s: int, y: int)
    requires x * s == y && -s < y < s
    ensures x == 0
  {
    assert x >= 1 ==> x * s >= s by {
      assert x >= 1 ==> x * s - s == (x - 1) * s;
    }
    assert x <= -1 ==> x * s <= -s by {
      assert x <= -1 ==> x * s + s == (x + 1) * s;
    }
  }

  lemma DivideBlock(s: nat, k: nat, off: nat)
    requires off < s
    ensures (k * s + off) / s == k && (k * s + off) % s == off
  {
    var n := k * s + off;
    var d, m := n / s, n % s;
    assert n == d * s + m && 0 <= m < s;
    assert (d - k) * s == off - m by {
      assert (d - k) * s == d * s - k * s;
    }
    SmallMultiple(d - k, s, off - m);
  }

  /** Multiples of `s` are `s` apart. */
  lemma Multiples(s: nat, b: nat, c: nat)
    requires s > 0 && b % s == 0 && c % s == 0 && b < c + s && c < b + s
    ensures b == c
  {
    var d := b / s - c / s;
    assert b == b / s * s && c == c / s * s;
    assert d * s == b - c by {
      assert d * s == b / s * s - c / s * s;
    }
    SmallMultiple(d, s, b - c);
  }

  lemma NextMultiple(s: nat, b: nat)
    requires s > 0 && b % s == 0
    ensures (b + s) % s == 0
    ensures b > 0 ==> b >= s && (b - s) % s == 0
  {
    var k := b / s;
    assert b == k * s;
    DivideBlock(s, k + 1, 0);
    assert (k + 1) * s == b + s;
    if b > 0 {
      assert k > 0;
      DivideBlock(s, k - 1, 0);
      assert (k - 1) * s == b - s;
    }
  }

  lemma StartIsMultiple(s: nat, n: nat)
    requires s > 0
    ensures BlockStart(s, n) % s == 0
  {
    DivideBlock(s, n / s, 0);
  }

  lemma SameStart(s: nat, b: nat, off: nat)
    requires off < s && b % s == 0
    ensures BlockStart(s, b + off) == b
  {
    hide BlockStart;
    StartIsMultiple(s, b + off);
    Multiples(s, BlockStart(s, b + off), b);
  }

  /** Pages start, start + 1, ..., start + Stride - 1 form the block of bitset page `start`. */
  lemma BlockMembers(entries: nat, start: nat, off: nat)
    requires IsBitsetPage(entries, start) && off < Stride(entries)
    ensures BitsetPage(entries, start + off) == start
  {
    hide BlockStart;
    StartIsMultiple(Stride(entries), start - 1);
    SameStart(Stride(entries), start - 1, off);
  }

  lemma NextBlock(entries: nat, start: nat)
    requires IsBitsetPage(entries, start)
    ensures IsBitsetPage(entries, start + Stride(entries))
  {
    hide BlockStart;
    var s := Stride(entries);
    StartIsMultiple(s, start - 1);
    NextMultiple(s, start - 1);
    SameStart(s, start - 1 + s, 0);
  }

  lemma PreviousBlock(entries: nat, start: nat)
    requires IsBitsetPage(entries, start) && start > 1
    ensures start > Stride(entries) && IsBitsetPage(entries, start - Stride(entries))
  {
    hide BlockStart;
    var s := Stride(entries);
    StartIsMultiple(s, start - 1);
    NextMultiple(s, start - 1);
    SameStart(s, start - 1 - s, 0);
  }

  lemma WithinBlock(entries: nat, p: nat)
    requires p > 0
    ensures IsBitsetPage(entries, BitsetPage(entries, p))
    ensures BitsetPage(entries, p) <= p < BitsetPage(entries, p) + Stride(entries)
  {
    hide BlockStart;
    var s := Stride(entries);
    StartIsMultiple(s, p - 1);
    SameStart(s, BlockStart(s, p - 1), 0);
  }

  lemma FirstBlock(entries: nat)
    ensures IsBitsetPage(entries, 1)
  {
    hide BlockStart;
    SameStart(Stride(entries), 0, 0);
  }

  lemma Aligned(entries: nat, start: nat)
    requires IsBitsetPage(entries, start)
    ensures (start - 1) % Stride(entries) == 0
  {
    hide BlockStart;
    StartIsMultiple(Stride(entries), start - 1);
  }

  // ---- live pages ----

  predicate IsPage(entries: nat, b: Block) {
    b.Page? && |b.words| == entries
  }

  function ZeroPage(entries: nat): (b: Block)
    ensures IsPage(entries, b) && forall e :: 0 <= e < entries ==> IsZero(b.words[e])
  {
    Page(seq(entries, _ => seq(WORD_BITS, _ => false)))
  }

  /** Bit `n` of a bitset page. */
  predicate Bit(entries: nat, b: Block, n: nat)
    requires IsPage(entries, b) && n < entries * WORD_BITS
  {
    b.words[n / WORD_BITS][n % WORD_BITS]
  }

  function SetBit(entries: nat, b: Block, n: nat, value: bool): (r: Block)
    requires IsPage(entries, b) && n < entries * WORD_BITS
    ensures IsPage(entries, r)
    ensures forall m: nat :: m < entries * WORD_BITS ==>
        (Bit(entries, r, m) <==> if m == n then value else Bit(entries, b, m))
  {
    var e := n / WORD_BITS;
    Page(b.words[e := b.words[e][n % WORD_BITS := value]])
  }

  /** Every bitset page below the page count is a page of `entries` words. */
  ghost predicate Shaped(entries: nat, v: View) {
    forall p: nat :: p < |v| && IsBitsetPage(entries, p) ==> IsPage(entries, v[p])
  }

  /** Page `p` is handed out: its bit is set. */
  ghost predicate Live(entries: nat, v: View, p: nat)
    requires Shaped(entries, v)
  {
    && p > 0 && !IsBitsetPage(entries, p)
    && BitsetPage(entries, p) < |v|
    && (WithinBlock(entries, p); Bit(entries, v[BitsetPage(entries, p)], p - BitsetPage(entries, p) - 1))
  }

  /** The page count is one more than the largest live page, or 1 when there is none. */
  ghost predicate Tight(entries: nat, v: View) {
    && Shaped(entries, v) && |v| >= 1
    && (forall p: nat :: Live(entries, v, p) ==> p < |v|)
    && (|v| == 1 || Live(entries, v, |v| - 1))
  }

  /** Live only looks at the bitset pages. */
  lemma LiveDependsOnBitsets(entries: nat, v: View, w: View)
    requires Shaped(entries, v)
    requires forall b: nat :: IsBitsetPage(entries, b) ==> (b < |v| <==> b < |w|) && (b < |v| ==> v[b] == w[b])
    ensures Shaped(entries, w)
    ensures forall q: nat :: Live(entries, v, q) <==> Live(entries, w, q)
  {
    hide BitsetPage, Bit;
    forall q: nat ensures Live(entries, v, q) <==> Live(entries, w, q) {
      if q > 0 {
        WithinBlock(entries, q);
      }
    }
  }

  /** Stores to other pages do not touch the allocation. */
  lemma WritingKeepsTight(entries: nat, v: View, p: nat, b: Block)
    requires Tight(entries, v) && p < |v| && !IsBitsetPage(entries, p)
    ensures Tight(entries, v[p := b]) && forall q: nat :: Live(entries, v[p := b], q) <==> Live(entries, v, q)
  {
    LiveDependsOnBitsets(entries, v, v[p := b]);
  }

  /** The view with the bit of data page `p` set to `value`. */
  ghost function WithBit(entries: nat, v: View, p: nat, value: bool): View
    requires Shaped(entries, v) && p > 0 && !IsBitsetPage(entries, p) && BitsetPage(entries, p) < |v|
  {
    WithinBlock(entries, p);
    v[BitsetPage(entries, p) := SetBit(entries, v[BitsetPage(entries, p)], p - BitsetPage(entries, p) - 1, value)]
  }

  lemma WithBitLive(entries: nat, v: View, p: nat, value: bool)
    requires Shaped(entries, v) && p > 0 && !IsBitsetPage(entries, p) && BitsetPage(entries, p) < |v|
    ensures Shaped(entries, WithBit(entries, v, p, value))
    ensures forall q: nat :: Live(entries, WithBit(entries, v, p, value), q) <==>
        if q == p then value else Live(entries, v, q)
  {
    hide BitsetPage, Bit, SetBit;
    WithinBlock(entries, p);
    forall q: nat
      ensures Live(entries, WithBit(entries, v, p, value), q) <==> if q == p then value else Live(entries, v, q)
    {
      if q > 0 {
        WithinBlock(entries, q);
      }
    }
  }

  // ---- new_page ----

  ghost predicate AllLiveBelow(entries: nat, v: View, n: nat)
    requires Shaped(entries, v)
  {
    forall q: nat :: 0 < q < n && !IsBitsetPage(entries, q) ==> Live(entries, v, q)
  }

  /** A bitset page whose first `n` bits are set adds those pages to a run of live pages. */
  lemma FullBits(entries: nat, v: View, start: nat, n: nat)
    requires Shaped(entries, v) && IsBitsetPage(entries, start) && start < |v| && n <= entries * WORD_BITS
    requires AllLiveBelow(entries, v, start)
    requires forall m: nat :: m < n ==> Bit(entries, v[start], m)
    ensures AllLiveBelow(entries, v, start + 1 + n)
  {
    hide BitsetPage, Bit;
    forall q: nat | 0 < q < start + 1 + n && !IsBitsetPage(entries, q)
      ensures Live(entries, v, q)
    {
      if q > start {
        BlockMembers(entries, start, q - start);
        assert Bit(entries, v[start], q - start - 1);
      }
    }
  }

  /** If the lowest page that is not live lies at or past the page count, it is the page count itself. */
  lemma LowestFreeIsNext(entries: nat, v: View, start: nat, p: nat)
    requires Tight(entries, v) && IsBitsetPage(entries, start) && start < |v| <= p < start + Stride(entries)
    requires AllLiveBelow(entries, v, p)
    ensures p == |v|
  {
    hide BitsetPage, Bit;
    BlockMembers(entries, start, |v| - start);
    assert !IsBitsetPage(entries, |v|);
  }

  /** When every bitset page is full, the page count is where the next bitset page belongs. */
  lemma FullIsAligned(entries: nat, v: View, next: nat)
    requires entries > 0 && Tight(entries, v) && IsBitsetPage(entries, next) && |v| <= next
    requires AllLiveBelow(entries, v, next)
    requires next == 1 || next <= |v| - 1 + Stride(entries)
    ensures |v| == next
  {
    hide BitsetPage, Bit;
    if next > 1 {
      PreviousBlock(entries, next);
      var s := Stride(entries);
      BlockMembers(entries, next - s, s - 1);
      assert next - 1 == next - s + (s - 1);
      assert Live(entries, v, next - 1);
    }
  }

  /** What new_page does to the database: page `p`, not in use before, is in use and zero; everything
      else is as it was, apart from `p`'s bitset page. */
  ghost predicate Allocates(entries: nat, v: View, w: View, p: nat)
    requires Shaped(entries, v)
  {
    && Shaped(entries, w)
    && 0 < p < |w| && !IsBitsetPage(entries, p)
    && !Live(entries, v, p) && AllLiveBelow(entries, v, p)
    && (forall q: nat :: Live(entries, w, q) <==> Live(entries, v, q) || q == p)
    && w[p] == ZeroPage(entries)
    && |w| == (if p < |v| then |v| else p + 1)
    && (forall x: nat :: 0 < x < |v| && x != p && x != BitsetPage(entries, p) ==> w[x] == v[x])
  }

  /** An allocation keeps the page count tight. */
  lemma AllocatesKeepsTight(entries: nat, v: View, w: View, p: nat)
    requires Tight(entries, v) && Allocates(entries, v, w, p)
    ensures Tight(entries, w)
  {
    hide Bit, BitsetPage;
  }

  /** Claiming a page of a block that exists already, at the latest the page just past the end. */
  lemma ClaimInBlock(entries: nat, v: View, w: View, p: nat)
    requires Tight(entries, v) && 0 < p <= |v| && !IsBitsetPage(entries, p) && BitsetPage(entries, p) < |v|
    requires !Live(entries, v, p) && AllLiveBelow(entries, v, p)
    requires |w| == if p < |v| then |v| else p + 1
    requires forall x: nat :: 0 < x < |v| && x != p ==> w[x] == WithBit(entries, v, p, true)[x]
    requires w[p] == ZeroPage(entries)
    ensures Allocates(entries, v, w, p) && Tight(entries, w)
  {
    hide BitsetPage, Bit, ZeroPage;
    WithinBlock(entries, p);
    var u := WithBit(entries, v, p, true);
    WithBitLive(entries, v, p, true);
    LiveDependsOnBitsets(entries, u, w);
  }

  /** Bits of a new bitset page that are set although new_page never set them. */
  ghost predicate Stale(entries: nat, bits: Block)
    requires IsPage(entries, bits)
  {
    exists n: nat :: 0 < n < entries * WORD_BITS && Bit(entries, bits, n)
  }

  /** The database after the first page of a new block is claimed, whose bitset page was found holding `bits`. */
  ghost predicate OpensBlock(entries: nat, v: View, w: View, bits: Block) {
    && entries > 0 && Tight(entries, v) && IsBitsetPage(entries, |v|) && AllLiveBelow(entries, v, |v|)
    && IsPage(entries, bits) && |w| == |v| + 2
    && (forall x: nat :: 0 < x < |v| ==> w[x] == v[x])
    && w[|v|] == SetBit(entries, bits, 0, true) && w[|v| + 1] == ZeroPage(entries)
  }

  lemma OpenedBlockLive(entries: nat, v: View, w: View, bits: Block, q: nat)
    requires OpensBlock(entries, v, w, bits) && q > 0
    ensures Shaped(entries, w)
    ensures BitsetPage(entries, q) != |v| ==> (Live(entries, w, q) <==> Live(entries, v, q))
    ensures BitsetPage(entries, q) == |v| ==>
              && |v| <= q < |v| + Stride(entries) && !Live(entries, v, q)
              && (Live(entries, w, q) <==> q == |v| + 1 || (q > |v| + 1 && Bit(entries, bits, q - |v| - 1)))
  {
    hide BitsetPage, Bit, SetBit, ZeroPage, AllLiveBelow;
    BlockMembers(entries, |v|, 1);
    WithinBlock(entries, q);
  }

  /** That is a sound allocation if and only if no bit but the first was set in `bits`. */
  lemma ClaimNewBlock(entries: nat, v: View, w: View, bits: Block)
    requires OpensBlock(entries, v, w, bits)
    ensures Shaped(entries, w)
    ensures Allocates(entries, v, w, |v| + 1) <==> !Stale(entries, bits)
  {
    hide BitsetPage, Bit, SetBit, ZeroPage;
    BlockMembers(entries, |v|, 1);
    forall q: nat | q > 0
      ensures Shaped(entries, w)
      ensures BitsetPage(entries, q) != |v| ==> (Live(entries, w, q) <==> Live(entries, v, q))
      ensures BitsetPage(entries, q) == |v| ==>
                && |v| <= q < |v| + Stride(entries) && !Live(entries, v, q)
                && (Live(entries, w, q) <==> q == |v| + 1 || (q > |v| + 1 && Bit(entries, bits, q - |v| - 1)))
    {
      OpenedBlockLive(entries, v, w, bits, q);
    }
    if Stale(entries, bits) {
      var n: nat :| 0 < n < entries * WORD_BITS && Bit(entries, bits, n);
      BlockMembers(entries, |v|, n + 1);
      assert Live(entries, w, |v| + 1 + n) && |v| + 1 + n >= |w|;
    } else {
      OpensSoundly(entries, v, w, bits);
    }
  }

  lemma OpensSoundly(entries: nat, v: View, w: View, bits: Block)
    requires OpensBlock(entries, v, w, bits) && !Stale(entries, bits)
    ensures Shaped(entries, w) && Allocates(entries, v, w, |v| + 1) && Tight(entries, w)
  {
    hide BitsetPage, Bit, SetBit, ZeroPage;
    BlockMembers(entries, |v|, 1);
    BlockMembers(entries, |v|, 0);
    forall q: nat ensures Shaped(entries, w) && (Live(entries, w, q) <==> Live(entries, v, q) || q == |v| + 1) {
      if q > 0 {
        OpenedBlockLive(entries, v, w, bits, q);
      }
    }
    assert !Live(entries, v, |v| + 1);
  }

  // ---- delete_page ----

  ghost predicate NoneLiveFrom(entries: nat, v: View, n: nat)
    requires Shaped(entries, v)
  {
    forall q: nat :: n <= q ==> !Live(entries, v, q)
  }

  /** Clear bits at the end of a block shorten the part that may be in use. */
  lemma ClearBits(entries: nat, v: View, start: nat, n: nat, m: nat)
    requires Shaped(entries, v) && IsBitsetPage(entries, start) && start < |v| && n <= m <= entries * WORD_BITS
    requires NoneLiveFrom(entries, v, start + 1 + m)
    requires forall i: nat :: n <= i < m ==> !Bit(entries, v[start], i)
    ensures NoneLiveFrom(entries, v, start + 1 + n)
  {
    forall q: nat | start + 1 + n <= q < start + 1 + m
      ensures !Live(entries, v, q)
    {
      BlockMembers(entries, start, q - start);
      assert !Bit(entries, v[start], q - start - 1);
    }
  }

  /** What delete_page does: `p` is no longer in use and, if still below the page count, zero. */
  ghost predicate Frees(entries: nat, v: View, w: View, p: nat)
    requires Shaped(entries, v)
  {
    && Shaped(entries, w)
    && Live(entries, v, p)
    && (forall q: nat :: Live(entries, w, q) <==> Live(entries, v, q) && q != p)
    && |w| <= |v|
    && (p < |w| ==> w[p] == ZeroPage(entries))
    && (forall x: nat :: 0 < x < |w| && x != p && x != BitsetPage(entries, p) ==> w[x] == v[x])
  }

  lemma ClearedPage(entries: nat, v: View, u: View, p: nat)
    requires Shaped(entries, v) && Live(entries, v, p) && p < |v|
    requires |u| == |v|
    requires forall x: nat :: 0 < x < |v| ==>
               u[x] == if x == p then ZeroPage(entries) else WithBit(entries, v, p, false)[x]
    ensures Frees(entries, v, u, p)
  {
    WithBitLive(entries, v, p, false);
    LiveDependsOnBitsets(entries, WithBit(entries, v, p, false), u);
  }

  /** Cutting the database after its last page in use. */
  lemma TrimmedPages(entries: nat, v: View, u: View, w: View, p: nat, n: nat)
    requires Shaped(entries, v) && Frees(entries, v, u, p)
    requires 1 <= n <= |u| && NoneLiveFrom(entries, u, n) && (n == 1 || Live(entries, u, n - 1))
    requires |w| == n && forall x: nat :: 0 < x < n ==> w[x] == u[x]
    ensures Frees(entries, v, w, p) && Tight(entries, w)
  {
    forall q: nat
      ensures Shaped(entries, w)
      ensures Live(entries, w, q) <==> Live(entries, u, q)
    {
      if q > 0 {
        WithinBlock(entries, q);
      }
    }
  }
}
