/** new_page and delete_page over the pager. */
module PageAllocator {
  import opened Storage
  import opened Replaying
  import opened PagerMachine
  import opened PagerInvariant
  import opened PagerRefinement
  import opened PagerRuns
  import opened PagerCreation
  import opened PagerObject
  import opened PageAllocation

  /** A pager with an open transaction whose database is soundly allocated. */
  ghost predicate Ready(pager: Pager, entries: nat)
    reads pager
  {
    && pager.Valid() && pager.now.mode.Active? && pager.now.exposed == {}
    && entries > 0 && pager.zero == ZeroPage(entries)
    && Tight(entries, pager.Seen())
  }

  /** There is no page to reuse and the next page number is a bitset page's. */
  ghost predicate NeedsBlock(entries: nat, v: View)
    requires Shaped(entries, v)
  {
    AllLiveBelow(entries, v, |v|) && IsBitsetPage(entries, |v|)
  }

  /** The page count after the next allocation: unchanged while there is a hole below it. */
  ghost function CountAfter(entries: nat, v: View): nat
    requires Shaped(entries, v)
  {
    if !AllLiveBelow(entries, v, |v|) then |v| else if IsBitsetPage(entries, |v|) then |v| + 2 else |v| + 1
  }

  /** A resize that the next allocation makes, if it makes one, cuts off no committed page that only the file
      holds. */
  ghost predicate MayGrow(entries: nat, v: View, s: State)
    requires Shaped(entries, v)
  {
    CountAfter(entries, v) > |v| ==> Spares(s, CountAfter(entries, v))
  }

  /** Pages from `n` on read as zero. */
  ghost predicate ZeroBeyond(s: State, n: nat) {
    forall x: nat :: n <= x ==> Lookup(s, x) == s.zero
  }

  /** If nothing lay past the page count, nothing does now. */
  twostate predicate KeepsZeros(pager: Pager)
    reads pager
  {
    old(ZeroBeyond(pager.now, |pager.Seen()|)) ==> ZeroBeyond(pager.now, |pager.Seen()|)
  }

  twostate predicate KeepsRoot(pager: Pager)
    reads pager
  {
    RootPage(pager.header) == old(RootPage(pager.header))
  }

  /** Hands out the lowest page not in use.

      Growing must not cut committed pages off the file (CrashAfterResize, RollbackAfterResize). If the page
      count is where a new bitset page belongs, that page is not zeroed: whatever lies there, in the log or in
      the file, is taken for its bits, and the allocation is sound exactly if they are clear past the first. */
  method NewPage(pager: Pager, entries: nat) returns (free: nat)
    requires Ready(pager, entries) && MayGrow(entries, pager.Seen(), pager.now)
    requires NeedsBlock(entries, pager.Seen()) ==> IsPage(entries, Lookup(pager.now, |pager.Seen()|))
    modifies pager
    ensures pager.Valid() && pager.now.mode.Active? && pager.now.exposed == {} && old(pager.acts) <= pager.acts
    ensures pager.Committed() == old(pager.Committed()) && KeepsIndex(old(pager.now), pager.now)
    ensures KeepsZeros(pager) && KeepsRoot(pager)
    ensures free > 0 && !IsBitsetPage(entries, free)
    ensures Shaped(entries, pager.Seen())
    ensures Allocates(entries, old(pager.Seen()), pager.Seen(), free)
       <==> !(NeedsBlock(entries, old(pager.Seen())) && Stale(entries, old(Lookup(pager.now, |pager.Seen()|))))
  {
    hide Traced, Promised, MemoryView, Tight, Shaped, Live, Stale, Allocates, OpensBlock, AllLiveBelow;
    ghost var v := pager.Seen();
    ghost var beyond := Lookup(pager.now, |v|);
    var found;
    found, free := ReuseHole(pager, entries);
    if !found {
      free := OpenBlock(pager, entries);
      ClaimNewBlock(entries, v, pager.Seen(), beyond);
    } else {
      TightIsShaped(entries, pager.Seen());
    }
  }

  /** The scan over the existing bitset pages. */
  method ReuseHole(pager: Pager, entries: nat) returns (found: bool, free: nat)
    requires Ready(pager, entries) && MayGrow(entries, pager.Seen(), pager.now)
    modifies pager
    ensures Ready(pager, entries) && old(pager.acts) <= pager.acts && pager.Committed() == old(pager.Committed())
    ensures KeepsIndex(old(pager.now), pager.now) && (found <==> !NeedsBlock(entries, old(pager.Seen())))
    ensures KeepsZeros(pager) && KeepsRoot(pager)
    ensures found ==>
      free > 0 && !IsBitsetPage(entries, free) && Allocates(entries, old(pager.Seen()), pager.Seen(), free)
    ensures !found ==>
      pager.Seen() == old(pager.Seen()) && forall x: nat :: Lookup(pager.now, x) == Lookup(old(pager.now), x)
  {
    hide Traced, Promised, MemoryView, Allocates, OpensBlock, Live, Shaped, Tight, BitsetPage, IsBitsetPage;
    ghost var v := pager.Seen();
    TightIsShaped(entries, v);
    pager.ActiveHeader();
    FirstBlock(entries);
    found, free := false, 0;
    var start := 1;
    while start < PageCount(pager.header)
      invariant Ready(pager, entries) && old(pager.acts) <= pager.acts
      invariant pager.Seen() == v && pager.header == old(pager.header) && KeepsIndex(old(pager.now), pager.now)
      invariant pager.Committed() == old(pager.Committed()) 
      invariant forall x: nat :: Lookup(pager.now, x) == Lookup(old(pager.now), x)
      invariant IsBitsetPage(entries, start) && AllLiveBelow(entries, v, start)
      invariant start == 1 || start <= |v| - 1 + Stride(entries)
      decreases PageCount(pager.header) - start
    {
      var bits := pager.RWPage(start);
      BitsetIsPage(entries, v, start);
      var entry := FirstNotFull(entries, bits);
      if entry < entries {
        found := true;
        free := Claim(pager, entries, start, bits, entry);
        return;
      }
      FullBits(entries, v, start, entries * WORD_BITS);
      NextBlock(entries, start);
      start := start + Stride(entries);
    }
    FullIsAligned(entries, v, start);
    assert (PageCount(pager.header) - 1) % Stride(entries) == 0 by {
      Aligned(entries, start);
    }
  }

  // ---- after a checkpoint ----

  /** A transaction begun on a database that a checkpoint, or a recovery, has left clean finds nothing past the
      page count. */
  method BeginClean(pager: Pager, entries: nat)
    requires pager.Valid() && pager.now.mode.Idle? && pager.Clean()
    requires entries > 0 && pager.zero == ZeroPage(entries) && Tight(entries, pager.Seen())
    modifies pager
    ensures Ready(pager, entries) && old(pager.acts) <= pager.acts && pager.Seen() == old(pager.Seen())
    ensures pager.Committed() == old(pager.Committed())
    ensures ZeroBeyond(pager.now, |pager.Seen()|) && PageCount(pager.now.saved) == |pager.Seen()|
  {
    hide Traced, Promised, Tight;
    ghost var s := pager.now;
    pager.BeginTransaction();
    pager.ActiveHeader();
    assert forall x: nat :: Lookup(pager.now, x) == Base(s, x);
  }

  /** In such a transaction no allocation comes upon stale bits, however many there are: each page handed out was
      free, is zeroed and is in use from then on, and nothing else changes. */
  method NewPages(pager: Pager, entries: nat, n: nat) returns (pages: seq<nat>)
    requires Ready(pager, entries) && ZeroBeyond(pager.now, |pager.Seen()|)
    requires PageCount(pager.now.saved) <= |pager.Seen()|
    modifies pager
    ensures Ready(pager, entries) && old(pager.acts) <= pager.acts
    ensures pager.Committed() == old(pager.Committed()) && |pages| == n
    ensures HandsOut(entries, old(pager.Seen()), pager.Seen(), pages)
  {
    hide Traced, Promised, MemoryView, Tight, HandsOut, ZeroBeyond;
    ghost var v := pager.Seen();
    pages := [];
    NoneHandedOut(entries, v);
    for k := 0 to n
      invariant Ready(pager, entries) && old(pager.acts) <= pager.acts && |pages| == k
      invariant pager.Committed() == old(pager.Committed())
      invariant ZeroBeyond(pager.now, |pager.Seen()|) && PageCount(pager.now.saved) <= |pager.Seen()|
      invariant HandsOut(entries, v, pager.Seen(), pages)
    {
      ghost var u := pager.Seen();
      var p := NewSoundPage(pager, entries);
      OneMoreHandedOut(entries, v, u, pager.Seen(), pages, p);
      pages := pages + [p];
    }
  }

  method NewSoundPage(pager: Pager, entries: nat) returns (free: nat)
    requires Ready(pager, entries) && ZeroBeyond(pager.now, |pager.Seen()|)
    requires PageCount(pager.now.saved) <= |pager.Seen()|
    modifies pager
    ensures Ready(pager, entries) && old(pager.acts) <= pager.acts
    ensures pager.Committed() == old(pager.Committed())
    ensures ZeroBeyond(pager.now, |pager.Seen()|) && PageCount(pager.now.saved) <= |pager.Seen()|
    ensures Shaped(entries, old(pager.Seen())) && Allocates(entries, old(pager.Seen()), pager.Seen(), free)
  {
    hide Traced, Promised, MemoryView, Tight, Shaped, Live, Stale, Allocates, AllLiveBelow, Bit, IsPage;
    ghost var v := pager.Seen();
    TightIsShaped(entries, v);
    ZeroIsClear(entries);
    free := NewPage(pager, entries);
    AllocatesKeepsTight(entries, v, pager.Seen(), free);
    AllocatesGrows(entries, v, pager.Seen(), free);
  }

  lemma AllocatesGrows(entries: nat, v: View, w: View, p: nat)
    requires Shaped(entries, v) && Allocates(entries, v, w, p)
    ensures |v| <= |w|
  {
    hide Live, Shaped, Bit, BitsetPage;
  }

  lemma ZeroIsClear(entries: nat)
    ensures IsPage(entries, ZeroPage(entries)) && !Stale(entries, ZeroPage(entries))
  {
    assert forall n: nat :: n < entries * WORD_BITS ==> !Bit(entries, ZeroPage(entries), n);
  }

  /** The pages in use in `w` are those of `v` and, besides, `pages`, which are all different and zeroed; the
      contents of the pages of `v` are unchanged. */
  ghost predicate HandsOut(entries: nat, v: View, w: View, pages: seq<nat>) {
    && Shaped(entries, v) && Shaped(entries, w) && |v| <= |w|
    && (forall q: nat :: Live(entries, w, q) <==> Live(entries, v, q) || q in pages)
    && (forall i :: 0 <= i < |pages| ==> !Live(entries, v, pages[i]))
    && (forall i, j :: 0 <= i < j < |pages| ==> pages[i] != pages[j])
    && (forall q: nat :: q in pages ==> q < |w| && w[q] == ZeroPage(entries))
    && (forall q: nat :: q < |v| && Live(entries, v, q) ==> w[q] == v[q])
  }

  lemma NoneHandedOut(entries: nat, v: View)
    requires Tight(entries, v)
    ensures HandsOut(entries, v, v, [])
  {
    hide Live, IsBitsetPage;
  }

  lemma OneMoreHandedOut(entries: nat, v: View, u: View, w: View, pages: seq<nat>, p: nat)
    requires HandsOut(entries, v, u, pages) && Shaped(entries, u) && Allocates(entries, u, w, p)
    ensures HandsOut(entries, v, w, pages + [p])
  {
    hide Shaped, Bit, BitsetPage, ZeroPage;
    forall q: nat | Live(entries, u, q) && q < |u|
      ensures q != p && w[q] == u[q]
    {
      UntouchedPage(entries, u, w, p, q);
    }
  }

  /** An allocation leaves the pages in use as they are. */
  lemma UntouchedPage(entries: nat, u: View, w: View, p: nat, q: nat)
    requires Shaped(entries, u) && Allocates(entries, u, w, p) && Live(entries, u, q) && q < |u|
    ensures q != p && w[q] == u[q]
  {
    hide Shaped, Bit;
    BitsetIsNotData(entries, p);
  }

  lemma BitsetIsNotData(entries: nat, p: nat)
    requires p > 0
    ensures IsBitsetPage(entries, BitsetPage(entries, p))
  {
    WithinBlock(entries, p);
  }

  lemma TightIsShaped(entries: nat, v: View)
    requires Tight(entries, v)
    ensures Shaped(entries, v)
  {
  }

  lemma BitsetIsPage(entries: nat, v: View, p: nat)
    requires Tight(entries, v) && p < |v| && IsBitsetPage(entries, p)
    ensures IsPage(entries, v[p])
  {
  }

  method FirstNotFull(entries: nat, bits: Block) returns (entry: nat)
    requires IsPage(entries, bits)
    ensures entry <= entries && (entry < entries ==> !IsFull(bits.words[entry]))
    ensures forall m: nat :: m < entry * WORD_BITS ==> Bit(entries, bits, m)
  {
    entry := 0;
    while entry < entries && IsFull(bits.words[entry])
      invariant entry <= entries
      invariant forall m: nat :: m < entry * WORD_BITS ==> Bit(entries, bits, m)
    {
      entry := entry + 1;
    }
  }

  /** Raises the page count: pages already covered keep their content, a newly covered page shows whatever
      cache, log or file hold for it. */
  method Grow(pager: Pager, n: nat)
    requires pager.Valid() && pager.now.mode.Active? && |pager.Seen()| < n && Spares(pager.now, n)
    modifies pager
    ensures pager.Valid() && pager.now.mode.Active? && old(pager.acts) <= pager.acts
    ensures |pager.Seen()| == PageCount(pager.header) == n && pager.Committed() == old(pager.Committed())
    ensures forall x: nat :: 0 < x < |old(pager.Seen())| ==> pager.Seen()[x] == old(pager.Seen())[x]
    ensures forall x: nat :: |old(pager.Seen())| <= x < n ==> pager.Seen()[x] == old(Lookup(pager.now, x))
    ensures pager.now.exposed == old(pager.now.exposed) + Interval(|old(pager.Seen())|, n)
    ensures KeepsIndex(old(pager.now), pager.now) && KeepsZeros(pager) && KeepsRoot(pager)
  {
    pager.ActiveHeader();
    ghost var s := pager.now;
    pager.GrowTo(n);
    ExtendedPages(s, pager.header);
    CutKeepsZeros(s, pager.header);
    assert pager.now == AfterExtend(s, pager.header) && old(pager.Seen()) == MemoryView(s);
  }

  lemma CutKeepsZeros(s: State, h: Block)
    requires CanExtend(s, h) && 1 <= PageCount(s.header)
    ensures ZeroBeyond(s, |MemoryView(s)|) ==> ZeroBeyond(AfterExtend(s, h), |MemoryView(AfterExtend(s, h))|)
  {
    var t := AfterExtend(s, h);
    if ZeroBeyond(s, |MemoryView(s)|) {
      forall x: nat | PageCount(h) <= x
        ensures Lookup(t, x) == s.zero
      {
        assert Lookup(s, x) == s.zero;
      }
    }
  }

  /** Takes the lowest clear bit of word `entry`, the first word of the block at `start` that is not full. */
  method Claim(pager: Pager, entries: nat, start: nat, bits: Block, entry: nat) returns (free: nat)
    requires Ready(pager, entries) && IsPage(entries, bits)
    requires IsBitsetPage(entries, start) && start < PageCount(pager.header) && pager.Seen()[start] == bits
    requires IsDirty(pager.now, start) && MayGrow(entries, pager.Seen(), pager.now)
    requires AllLiveBelow(entries, pager.Seen(), start)
    requires entry < entries && !IsFull(bits.words[entry])
    requires forall m: nat :: m < entry * WORD_BITS ==> Bit(entries, bits, m)
    modifies pager
    ensures Ready(pager, entries) && old(pager.acts) <= pager.acts && pager.Committed() == old(pager.Committed())
    ensures free > 0 && !IsBitsetPage(entries, free)
    ensures KeepsIndex(old(pager.now), pager.now) && KeepsZeros(pager) && KeepsRoot(pager)
    ensures Allocates(entries, old(pager.Seen()), pager.Seen(), free) && !NeedsBlock(entries, old(pager.Seen()))
  {
    hide Traced, Promised, MemoryView, Live, AllLiveBelow, Allocates, Tight, Shaped;
    ghost var v := pager.Seen();
    pager.ActiveHeader();
    var bit := LowestClear(bits.words[entry]);
    free := start + 1 + WORD_BITS * entry + bit;
    TightIsShaped(entries, v);
    BitOfWord(entries, bits, entry, bit);
    BitsBelow(entries, bits, entry, bit);
    ClaimedBit(entries, v, start, WORD_BITS * entry + bit, free);
    SomeFreeBelow(entries, v, free);
    var word: Word := bits.words[entry][bit := true];
    pager.StorePage(start, Page(bits.words[entry := word]));
    assert pager.Seen() == WithBit(entries, v, free, true);
    if free >= PageCount(pager.header) {
      Grow(pager, free + 1);
    }
    pager.EnsurePageZeroed(free);
    ClaimInBlock(entries, v, pager.Seen(), free);
  }

  lemma SomeFreeBelow(entries: nat, v: View, p: nat)
    requires Shaped(entries, v) && 0 < p <= |v| && !IsBitsetPage(entries, p) && !Live(entries, v, p)
    requires AllLiveBelow(entries, v, p)
    ensures !NeedsBlock(entries, v) && CountAfter(entries, v) == if p < |v| then |v| else |v| + 1
  {
  }

  /** The lowest clear bit belongs to the lowest free page. */
  lemma ClaimedBit(entries: nat, v: View, start: nat, n: nat, p: nat)
    requires Tight(entries, v) && Shaped(entries, v) && AllLiveBelow(entries, v, start)
    requires IsBitsetPage(entries, start) && start < |v| && n < entries * WORD_BITS && p == start + 1 + n
    requires !Bit(entries, v[start], n) && forall m: nat :: m < n ==> Bit(entries, v[start], m)
    ensures !IsBitsetPage(entries, p) && BitsetPage(entries, p) == start && p <= |v|
    ensures !Live(entries, v, p) && AllLiveBelow(entries, v, p)
  {
    hide BitsetPage, Tight, AllLiveBelow, Shaped, Bit;
    BlockMembers(entries, start, n + 1);
    FullBits(entries, v, start, n);
    if p >= |v| {
      LowestFreeIsNext(entries, v, start, p);
    }
  }

  /** Bit `bit` of word `entry`. */
  lemma BitOfWord(entries: nat, bits: Block, entry: nat, bit: nat)
    requires IsPage(entries, bits) && entry < entries && bit < WORD_BITS
    ensures WORD_BITS * entry + bit < entries * WORD_BITS
    ensures Bit(entries, bits, WORD_BITS * entry + bit) == bits.words[entry][bit]
    ensures SetBit(entries, bits, WORD_BITS * entry + bit, true)
         == Page(bits.words[entry := bits.words[entry][bit := true]])
  {
    var n := WORD_BITS * entry + bit;
    assert n / WORD_BITS == entry && n % WORD_BITS == bit;
  }

  lemma BitsBelow(entries: nat, bits: Block, entry: nat, bit: nat)
    requires IsPage(entries, bits) && entry < entries && bit < WORD_BITS
    requires forall m: nat :: m < entry * WORD_BITS ==> Bit(entries, bits, m)
    requires forall i :: 0 <= i < bit ==> bits.words[entry][i]
    ensures forall m: nat :: m < WORD_BITS * entry + bit ==> Bit(entries, bits, m)
  {
    forall m: nat | entry * WORD_BITS <= m < WORD_BITS * entry + bit
      ensures m < entries * WORD_BITS && Bit(entries, bits, m)
    {
      BitOfWord(entries, bits, entry, m - WORD_BITS * entry);
    }
  }

  /** Adds a bitset page and hands out the page after it. */
  method OpenBlock(pager: Pager, entries: nat) returns (free: nat)
    requires Ready(pager, entries) && IsBitsetPage(entries, |pager.Seen()|)
    requires AllLiveBelow(entries, pager.Seen(), |pager.Seen()|)
    requires Spares(pager.now, |pager.Seen()| + 2)
    requires IsPage(entries, Lookup(pager.now, |pager.Seen()|))
    modifies pager
    ensures pager.Valid() && pager.now.mode.Active? && pager.now.exposed == {} && old(pager.acts) <= pager.acts
    ensures pager.Committed() == old(pager.Committed()) && KeepsIndex(old(pager.now), pager.now)
    ensures KeepsZeros(pager) && KeepsRoot(pager)
    ensures free == old(|pager.Seen()|) + 1 && !IsBitsetPage(entries, free)
    ensures OpensBlock(entries, old(pager.Seen()), pager.Seen(), old(Lookup(pager.now, |pager.Seen()|)))
  {
    hide Traced, Promised, MemoryView, Live, AllLiveBelow, Tight, Shaped;
    pager.ActiveHeader();
    var bitsetPage := PageCount(pager.header);
    free := bitsetPage + 1;
    BlockMembers(entries, bitsetPage, 1);
    Grow(pager, bitsetPage + 2);
    var bits := pager.RWPage(bitsetPage);
    pager.StorePage(bitsetPage, SetBit(entries, bits, 0, true));
    pager.EnsurePageZeroed(free);
  }

  /** Takes page `idx` out of use; when it was the last page, cuts the database after the last page that
      still is in use, over any number of blocks. */
  method DeletePage(pager: Pager, entries: nat, idx: nat)
    requires Ready(pager, entries) && Live(entries, pager.Seen(), idx)
    modifies pager
    ensures Ready(pager, entries) && old(pager.acts) <= pager.acts && pager.Committed() == old(pager.Committed())
    ensures Frees(entries, old(pager.Seen()), pager.Seen(), idx) && KeepsDisk(old(pager.now), pager.now)
    ensures KeepsRoot(pager)
  {
    hide Traced, Promised, MemoryView, BitsetPage, Bit;
    ghost var v := pager.Seen();
    pager.ActiveHeader();
    WithinBlock(entries, idx);
    var bitsetPage := BitsetPage(entries, idx);
    var bits := pager.RWPage(bitsetPage);
    var bit := idx - bitsetPage - 1;
    bits := SetBit(entries, bits, bit, false);
    pager.StorePage(bitsetPage, bits);
    pager.EnsurePageZeroed(idx);
    ghost var u := pager.Seen();
    ClearedPage(entries, v, u, idx);
    if idx != PageCount(pager.header) - 1 {
      return;
    }
    assert NoneLiveFrom(entries, u, idx) && NoneLiveFrom(entries, u, |u|);
    Trim(pager, entries, v, idx, bitsetPage, bit / WORD_BITS);
  }

  /** The trim loop of delete_page, started at the word that held the bit of the page deleted. */
  method Trim(pager: Pager, entries: nat, ghost v: View, ghost idx: nat, firstPage: nat, firstEntry: nat)
    requires pager.Valid() && pager.now.mode.Active? && pager.now.exposed == {}
    requires entries > 0 && pager.zero == ZeroPage(entries)
    requires Shaped(entries, v) && Shaped(entries, pager.Seen()) && Frees(entries, v, pager.Seen(), idx)
    requires IsBitsetPage(entries, firstPage) && firstPage < |pager.Seen()| && firstEntry < entries
    requires NoneLiveFrom(entries, pager.Seen(), firstPage + 1 + WORD_BITS * (firstEntry + 1))
    requires NoneLiveFrom(entries, pager.Seen(), |pager.Seen()|)
    modifies pager
    ensures Ready(pager, entries) && old(pager.acts) <= pager.acts && pager.Committed() == old(pager.Committed())
    ensures Frees(entries, v, pager.Seen(), idx) && KeepsDisk(old(pager.now), pager.now) && KeepsRoot(pager)
  {
    hide Traced, Promised, MemoryView, Live, Shaped, Frees, NoneLiveFrom, Tight;
    pager.ActiveHeader();
    ghost var u := pager.Seen();
    var bitsetPage: nat, entry: nat := firstPage, firstEntry;
    while true
      invariant pager.Valid() && pager.now.mode.Active? && pager.now.exposed == {} && old(pager.acts) <= pager.acts
      invariant pager.Committed() == old(pager.Committed()) && KeepsDisk(old(pager.now), pager.now)
      invariant KeepsRoot(pager)
      invariant IsBitsetPage(entries, bitsetPage) && bitsetPage < |pager.Seen()| <= |u| && entry < entries
      invariant forall x: nat :: 0 < x < |pager.Seen()| ==> pager.Seen()[x] == u[x]
      invariant NoneLiveFrom(entries, u, bitsetPage + 1 + WORD_BITS * (entry + 1))
          && NoneLiveFrom(entries, u, |pager.Seen()|)
      decreases bitsetPage
    {
      var count := TrimBlock(pager, entries, u, bitsetPage, entry);
      if count != bitsetPage || count <= Stride(entries) {
        if count == bitsetPage {
          FirstBlockOnly(entries, bitsetPage);
        }
        TrimmedPages(entries, v, u, pager.Seen(), idx, count);
        return;
      }
      PreviousBlock(entries, bitsetPage);
      bitsetPage := bitsetPage - Stride(entries);
      entry := entries - 1;
    }
  }

  /** One round of the loop: the page count that this bitset page leads to becomes the header's. */
  method TrimBlock(pager: Pager, entries: nat, ghost u: View, bitsetPage: nat, entry: nat) returns (count: nat)
    requires pager.Valid() && pager.now.mode.Active? && pager.now.exposed == {}
    requires Shaped(entries, u) && IsBitsetPage(entries, bitsetPage) && bitsetPage < |pager.Seen()| <= |u|
        && entry < entries
    requires forall x: nat :: 0 < x < |pager.Seen()| ==> pager.Seen()[x] == u[x]
    requires NoneLiveFrom(entries, u, bitsetPage + 1 + WORD_BITS * (entry + 1))
        && NoneLiveFrom(entries, u, |pager.Seen()|)
    modifies pager
    ensures pager.Valid() && pager.now.mode.Active? && pager.now.exposed == {} && old(pager.acts) <= pager.acts
    ensures pager.Committed() == old(pager.Committed()) && KeepsDisk(old(pager.now), pager.now) && KeepsRoot(pager)
    ensures bitsetPage <= count == |pager.Seen()| <= old(|pager.Seen()|)
    ensures forall x: nat :: 0 < x < |pager.Seen()| ==> pager.Seen()[x] == u[x]
    ensures NoneLiveFrom(entries, u, count) && (count != bitsetPage ==> Live(entries, u, count - 1))
  {
    hide Traced, Promised, MemoryView, Live, Shaped, NoneLiveFrom;
    pager.ActiveHeader();
    var bits := pager.RPage(bitsetPage);
    count := ScanBack(entries, u, bits, bitsetPage, entry);
    CountDecreases(entries, u, count, bitsetPage, |pager.Seen()|);
    pager.SetHeader(pager.header.(pageCount := count));
    pager.ActiveHeader();
  }

  lemma CountDecreases(entries: nat, u: View, count: nat, bitsetPage: nat, n: nat)
    requires Shaped(entries, u) && NoneLiveFrom(entries, u, n) && 0 < bitsetPage <= count && bitsetPage < n
    requires count != bitsetPage ==> Live(entries, u, count - 1)
    ensures 1 <= count <= n
  {
  }

  lemma FirstBlockOnly(entries: nat, start: nat)
    requires IsBitsetPage(entries, start) && start <= Stride(entries)
    ensures start == 1
  {
    if start > 1 {
      PreviousBlock(entries, start);
    }
  }

  /** The page count that one bitset page leads to: just past its last bit set at or below word `entry`, or
      the bitset page itself. */
  method ScanBack(entries: nat, ghost u: View, bits: Block, bitsetPage: nat, entry: nat) returns (count: nat)
    requires Shaped(entries, u) && IsBitsetPage(entries, bitsetPage) && bitsetPage < |u| && bits == u[bitsetPage]
    requires entry < entries && NoneLiveFrom(entries, u, bitsetPage + 1 + WORD_BITS * (entry + 1))
    ensures bitsetPage <= count && NoneLiveFrom(entries, u, count)
    ensures count != bitsetPage ==> Live(entries, u, count - 1)
  {
    var e := LastNonZero(entries, bits, entry);
    ClearBits(entries, u, bitsetPage, WORD_BITS * (e + 1), WORD_BITS * (entry + 1));
    if !IsZero(bits.words[e]) {
      count := bitsetPage + 1 + WORD_BITS * e + OccupiedBits(bits.words[e]);
      LastOccupied(entries, u, bitsetPage, e);
    } else {
      count := bitsetPage;
      ClearBits(entries, u, bitsetPage, 0, WORD_BITS);
      BlockMembers(entries, bitsetPage, 0);
    }
  }

  /** The highest word at or below `from` with a bit set, or word 0. */
  method LastNonZero(entries: nat, bits: Block, from: nat) returns (entry: nat)
    requires IsPage(entries, bits) && from < entries
    ensures entry <= from && (entry > 0 ==> !IsZero(bits.words[entry]))
    ensures forall i: nat :: WORD_BITS * (entry + 1) <= i < WORD_BITS * (from + 1) ==> !Bit(entries, bits, i)
  {
    entry := from;
    while entry > 0 && IsZero(bits.words[entry])
      invariant entry <= from
      invariant forall i: nat :: WORD_BITS * (entry + 1) <= i < WORD_BITS * (from + 1) ==> !Bit(entries, bits, i)
    {
      entry := entry - 1;
    }
  }

  lemma LastOccupied(entries: nat, u: View, start: nat, entry: nat)
    requires Shaped(entries, u) && IsBitsetPage(entries, start) && start < |u| && entry < entries
    requires !IsZero(u[start].words[entry])
    requires NoneLiveFrom(entries, u, start + 1 + WORD_BITS * (entry + 1))
    ensures var n := start + 1 + WORD_BITS * entry + OccupiedBits(u[start].words[entry]);
      NoneLiveFrom(entries, u, n) && Live(entries, u, n - 1)
  {
    var word := u[start].words[entry];
    var n := WORD_BITS * entry + OccupiedBits(word);
    assert (n - 1) / WORD_BITS == entry && (n - 1) % WORD_BITS == OccupiedBits(word) - 1;
    BlockMembers(entries, start, n);
    ClearBits(entries, u, start, n, WORD_BITS * (entry + 1));
  }
}
