/** Two runs, from a new database on, into states where the allocator does not do what its callers expect. */
module AllocationFailures {
  import opened Storage
  import opened Replaying
  import opened PagerMachine
  import opened PagerInvariant
  import opened PagerRefinement
  import opened PagerRuns
  import opened PagerCreation
  import opened PagerObject
  import opened PageAllocation
  import opened PageAllocator

  // ---- databases without holes ----

  /** Soundly allocated, with every page below the page count in use. */
  ghost predicate Filled(entries: nat, v: View) {
    Tight(entries, v) && AllLiveBelow(entries, v, |v|)
  }

  lemma FilledIsTight(entries: nat, v: View)
    requires Filled(entries, v)
    ensures Tight(entries, v) && Shaped(entries, v) && AllLiveBelow(entries, v, |v|) && |v| >= 1
    ensures |v| > 1 ==> Live(entries, v, |v| - 1)
  {
    hide Live, AllLiveBelow;
  }

  lemma EmptyIsFilled(entries: nat, v: View)
    requires |v| == 1
    ensures Filled(entries, v)
  {
    hide Bit, BitsetPage;
    forall q: nat
      ensures Shaped(entries, v) && !Live(entries, v, q)
    {
      if q > 0 { WithinBlock(entries, q); }
    }
  }

  /** Page `p` is one that can be handed out. */
  ghost predicate IsData(entries: nat, p: nat) {
    p > 0 && !IsBitsetPage(entries, p)
  }

  lemma BehindBitset(entries: nat, b: nat, off: nat)
    requires IsBitsetPage(entries, b) && 0 < off < Stride(entries)
    ensures IsData(entries, b + off)
  {
    BlockMembers(entries, b, off);
  }

  /** Before a bitset page stands the last data page of the block before, if there is one. */
  lemma BeforeBitset(entries: nat, b: nat)
    requires entries > 0 && IsBitsetPage(entries, b) && b > 1
    ensures IsData(entries, b - 1)
  {
    var s := Stride(entries);
    PreviousBlock(entries, b);
    BehindBitset(entries, b - s, s - 1);
    assert b - s + (s - 1) == b - 1;
  }

  lemma FirstIsBitset(entries: nat)
    ensures IsBitsetPage(entries, 1)
  {
    FirstBlock(entries);
  }

  /** In a database without holes exactly the data pages below the page count are in use. */
  lemma FilledMeans(entries: nat, v: View)
    ensures Filled(entries, v) ==> Shaped(entries, v) && |v| >= 1 && (|v| == 1 || IsData(entries, |v| - 1))
    ensures Filled(entries, v) ==> forall q: nat :: Live(entries, v, q) <==> IsData(entries, q) && q < |v|
  {
    hide Bit, BitsetPage;
  }

  lemma FilledIf(entries: nat, v: View)
    requires Shaped(entries, v) && |v| >= 1 && (|v| == 1 || IsData(entries, |v| - 1))
    requires forall q: nat :: Live(entries, v, q) <==> IsData(entries, q) && q < |v|
    ensures Filled(entries, v)
  {
    hide Bit, BitsetPage, Shaped;
  }

  /** The next allocation takes the page at the page count, or the one behind the new bitset page. */
  lemma FilledGrows(entries: nat, v: View, w: View, p: nat)
    requires entries > 0 && Filled(entries, v) && Allocates(entries, v, w, p)
    ensures p == |v| + (if IsBitsetPage(entries, |v|) then 1 else 0) && |w| == p + 1 && Filled(entries, w)
  {
    hide Bit, BitsetPage, IsBitsetPage, Live, Shaped, ZeroPage, Filled;
    FilledMeans(entries, v);
    if IsBitsetPage(entries, |v|) { BehindBitset(entries, |v|, 1); }
    assert IsData(entries, p) && !Live(entries, v, p);
    assert forall q: nat :: q < p && IsData(entries, q) ==> Live(entries, v, q);
    FilledIf(entries, w);
  }

  /** Deleting the last page cuts the database behind the data page before it. */
  lemma FilledShrinks(entries: nat, v: View, w: View)
    requires entries > 0 && Filled(entries, v) && |v| >= 3 && Frees(entries, v, w, |v| - 1) && Tight(entries, w)
    ensures |w| == (if IsBitsetPage(entries, |v| - 2) then |v| - 2 else |v| - 1) && Filled(entries, w)
  {
    hide Bit, BitsetPage, IsBitsetPage, Live, Shaped, ZeroPage, Filled;
    FilledMeans(entries, v);
    var n: nat := |v| - 2;
    var last := if IsBitsetPage(entries, n) then n - 1 else n;
    if IsBitsetPage(entries, n) && n > 1 { BeforeBitset(entries, n); }
    assert IsData(entries, n) || IsBitsetPage(entries, n);
    assert last > 0 ==> IsData(entries, last) && Live(entries, w, last);
    assert forall q: nat :: Live(entries, w, q) <==> IsData(entries, q) && q <= last;
    FilledIf(entries, w);
  }

  /** Allocates pages in a new database until the page count is `n`. */
  method FillUp(entries: nat, interval: nat, n: nat) returns (pager: Pager)
    requires entries > 0 && n >= 3 && IsData(entries, n - 1)
    ensures fresh(pager) && pager.interval == interval && Ready(pager, entries) && pager.now.txCount == 0
    ensures Filled(entries, pager.Seen()) && |pager.Seen()| == n
  {
    hide Traced, Promised, MemoryView, Filled, Live, Stale, Bit, Allocates, Tight, IsBitsetPage, IsData, Shaped,
      AllLiveBelow;
    pager := new Pager(ZeroPage(entries), interval);
    pager.BeginTransaction();
    EmptyIsFilled(entries, pager.Seen());
    FilledIsTight(entries, pager.Seen());
    NewIsZero(pager);
    pager.ActiveHeader();
    while PageCount(pager.header) < n
      invariant fresh(pager) && pager.interval == interval && Ready(pager, entries) && pager.now.txCount == 0
      invariant PageCount(pager.now.saved) == 1 && PageCount(pager.header) == |pager.Seen()| <= n
      invariant Filled(entries, pager.Seen()) && ZeroBeyond(pager.now, |pager.Seen()|)
      decreases n - PageCount(pager.header)
    {
      NextPage(pager, entries, n);
    }
  }

  method NextPage(pager: Pager, entries: nat, ghost n: nat)
    requires Ready(pager, entries) && Filled(entries, pager.Seen()) && ZeroBeyond(pager.now, |pager.Seen()|)
    requires PageCount(pager.now.saved) == 1 && |pager.Seen()| < n && IsData(entries, n - 1)
    modifies pager
    ensures Ready(pager, entries) && Filled(entries, pager.Seen()) && ZeroBeyond(pager.now, |pager.Seen()|)
    ensures old(|pager.Seen()|) < |pager.Seen()| == PageCount(pager.header) <= n
    ensures KeepsIndex(old(pager.now), pager.now)
  {
    hide Traced, Promised, MemoryView, Filled, Live, Stale, Bit, Allocates, Tight, IsBitsetPage, Shaped, AllLiveBelow;
    ghost var v := pager.Seen();
    FilledIsTight(entries, v);
    ZeroIsClear(entries);
    var p := NewPage(pager, entries);
    FilledGrows(entries, v, pager.Seen(), p);
    FilledIsTight(entries, pager.Seen());
    pager.ActiveHeader();
  }

  lemma NewIsZero(pager: Pager)
    requires pager.now == AfterBegin(Created(pager.zero, pager.interval))
    ensures ZeroBeyond(pager.now, 1) && PageCount(pager.now.saved) == 1 && pager.now.txCount == 0
  {
  }

  // ---- growing after a trim ----

  /** A committed database of four pages whose last one holds `last`. */
  method FourPages(entries: nat, last: Block, interval: nat) returns (pager: Pager)
    requires entries > 0 && IsPage(entries, last)
    ensures fresh(pager) && pager.Valid() && pager.now.mode.Idle? && pager.zero == ZeroPage(entries)
    ensures Filled(entries, pager.Seen()) && |pager.Seen()| == 4
    ensures pager.Seen() == pager.Committed() && pager.Seen()[3] == last
    ensures pager.now.db.touched == iset{} && pager.walIndex == map[]
  {
    hide Traced, Promised, MemoryView, Filled, Tight, Live, IsBitsetPage;
    FirstIsBitset(entries);
    BehindBitset(entries, 1, 2);
    pager := FillUp(entries, interval, 4);
    pager.ActiveHeader();
    WritingKeepsFilled(entries, pager.Seen(), 3, last);
    var _ := pager.RWPage(3);
    pager.StorePage(3, last);
    pager.CommitTransaction();
    pager.Checkpoint();
    pager.SeenWhenIdle();
  }

  lemma WritingKeepsFilled(entries: nat, v: View, p: nat, b: Block)
    requires Filled(entries, v) && p < |v| && IsData(entries, p)
    ensures Filled(entries, v[p := b])
  {
    WritingKeepsTight(entries, v, p, b);
  }

  /** Two deletions in one transaction take its page count from 4 to 1, past 3. The next page count that an
      allocation leads to is 3: growing the file to it cuts off the committed page 3, which is then back neither
      after a rollback nor after every crash. */
  method ShrinkThenGrow(entries: nat, last: Block, interval: nat) returns (pager: Pager)
    requires entries > 0 && IsPage(entries, last) && last != ZeroPage(entries)
    ensures pager.Valid() && pager.now.mode.Active? && InvActive(pager.now)
    ensures pager.Committed() == CommittedView(pager.now) && |pager.Committed()| == 4 && pager.Committed()[3] == last
    ensures Tight(entries, pager.Seen()) && |pager.Seen()| == 1 && CountAfter(entries, pager.Seen()) == 3
    ensures var cut := AfterExtend(pager.now, pager.header.(pageCount := 3));
      && MemoryView(AfterRollback(cut)) != pager.Committed()
      && exists img :: CrashImage(cut, img)
           && RecoveredView(img.file, pager.zero, img.frames, img.count) != pager.Committed()
  {
    hide Traced, Tight, Live, Filled, Inv, CommittedView, MemoryView, InvActive, IsBitsetPage, AllLiveBelow, Shaped;
    pager := FourPages(entries, last, interval);
    pager.BeginTransaction();
    FirstIsBitset(entries);
    BehindBitset(entries, 1, 1);
    assert !IsBitsetPage(entries, 2);
    FilledIsTight(entries, pager.Seen());
    DeleteLast(pager, entries);
    assert |pager.Seen()| == 3;
    DeleteLast(pager, entries);
    FilledIsTight(entries, pager.Seen());
    SavedIsActive(pager);
    ResizeLoses(pager.now, pager.header.(pageCount := 3), 3);
  }

  method DeleteLast(pager: Pager, entries: nat)
    requires Ready(pager, entries) && Filled(entries, pager.Seen()) && |pager.Seen()| >= 3
    modifies pager
    ensures Ready(pager, entries) && Filled(entries, pager.Seen())
    ensures var n: nat := old(|pager.Seen()|) - 2;
            |pager.Seen()| == if IsBitsetPage(entries, n) then n else n + 1
    ensures KeepsDisk(old(pager.now), pager.now) && pager.Committed() == old(pager.Committed())
  {
    hide Traced, Promised, MemoryView, Live, Frees, IsBitsetPage;
    ghost var v := pager.Seen();
    pager.ActiveHeader();
    FilledIsTight(entries, v);
    DeletePage(pager, entries, PageCount(pager.header) - 1);
    FilledShrinks(entries, v, pager.Seen());
  }

  /** With the header on the disk the full invariant holds. */
  lemma SavedIsActive(pager: Pager)
    requires pager.Valid() && pager.now.mode.Active? && 0 !in pager.now.db.touched
    ensures InvActive(pager.now) && pager.Committed() == CommittedView(pager.now) && pager.header.Header?
    ensures |pager.Committed()| == PageCount(pager.now.saved) && PageCount(pager.header) == |pager.Seen()|
  {
    TracedIntact(pager.acts, pager.now);
    pager.ActiveHeader();
  }

  // ---- a bitset page that is not zeroed ----

  /** The first page of the second block, which holds its bits. */
  function SecondBlock(entries: nat): (b: nat)
    ensures IsBitsetPage(entries, b) && b == Stride(entries) + 1
  {
    FirstBlock(entries);
    NextBlock(entries, 1);
    Stride(entries) + 1
  }

  /** The bits of a block whose second data page is in use. */
  lemma SecondBitSet(entries: nat, v: View, b: nat)
    requires entries > 0 && Filled(entries, v) && IsBitsetPage(entries, b) && |v| == b + 3
    ensures IsPage(entries, v[b]) && Stale(entries, v[b])
  {
    BlockMembers(entries, b, 2);
    assert Live(entries, v, b + 2);
    assert Bit(entries, v[b], 1);
  }

  /** One full block, two pages of the next, committed; the two deleted again, which cuts the database back to its
      full first block, and committed. The second block's bitset page then lies at the page count, so its cleared
      bits are not logged: the next allocation finds the old ones. */
  method LeaveStaleBits(entries: nat, interval: nat) returns (pager: Pager)
    requires entries > 0 && interval >= 3
    ensures fresh(pager) && Ready(pager, entries) && MayGrow(entries, pager.Seen(), pager.now)
    ensures pager.Seen() == pager.Committed() && NeedsBlock(entries, pager.Seen())
    ensures IsPage(entries, Lookup(pager.now, |pager.Seen()|)) && Stale(entries, Lookup(pager.now, |pager.Seen()|))
  {
    hide Traced, Promised, Filled, Live, Stale, Tight, IsBitsetPage, IsData, AllLiveBelow, Shaped;
    var b := SecondBlock(entries);
    BehindBitset(entries, b, 2);
    pager := FillUp(entries, interval, b + 3);
    pager.ActiveHeader();
    ghost var bits := pager.Seen()[b];
    SecondBitSet(entries, pager.Seen(), b);
    pager.CommitTransaction();
    BelowCache(pager, b);
    assert Base(pager.now, b) == bits;
    pager.BeginTransaction();
    BehindBitset(entries, b, 1);
    DeleteLast(pager, entries);
    DeleteLast(pager, entries);
    assert |pager.Seen()| == b && Base(pager.now, b) == bits;
    CommitKeeps(pager, b);
    pager.BeginTransaction();
    FilledIsTight(entries, pager.Seen());
    pager.ActiveHeader();
    assert Lookup(pager.now, b) == bits;
  }

  /** With an empty cache pages are read below it. */
  lemma BelowCache(pager: Pager, x: nat)
    requires pager.Valid() && pager.now.mode.Idle? && 0 < x < |pager.Seen()|
    ensures pager.Seen()[x] == Base(pager.now, x)
  {
    hide Traced;
    pager.SeenWhenIdle();
  }

  /** A commit leaves a page past the page count as it is. */
  method CommitKeeps(pager: Pager, x: nat)
    requires pager.Valid() && pager.now.mode.Active? && pager.now.exposed == {} && x > 0 && x >= |pager.Seen()|
    requires pager.now.txCount + 1 < pager.interval
    modifies pager
    ensures pager.Valid() && pager.now.mode.Idle? && pager.Seen() == pager.Committed() == old(pager.Seen())
    ensures Base(pager.now, x) == Base(old(pager.now), x)
  {
    hide Traced, Promised, Base;
    pager.ActiveHeader();
    pager.CommitTransaction();
  }

  /** The allocation that follows is not sound. */
  method AllocateOverStaleBits(entries: nat, interval: nat) returns (pager: Pager, ghost before: View, free: nat)
    requires entries > 0 && interval >= 3
    ensures pager.Valid() && pager.now.mode.Active? && Tight(entries, before) && Shaped(entries, pager.Seen())
    ensures before == pager.Committed() && !Allocates(entries, before, pager.Seen(), free)
  {
    hide Traced, Promised, MemoryView, Live, Stale, Tight, Shaped, Allocates, AllLiveBelow, IsBitsetPage;
    pager := LeaveStaleBits(entries, interval);
    before := pager.Seen();
    free := NewPage(pager, entries);
  }

  /** The same bits after a checkpoint: it cuts them off the file, and the allocation is sound. */
  method AllocateAfterCheckpoint(entries: nat, interval: nat) returns (pager: Pager, ghost before: View, free: nat)
    requires entries > 0 && interval >= 3
    ensures pager.Valid() && pager.now.mode.Active? && Tight(entries, before) && NeedsBlock(entries, before)
    ensures before == pager.Committed() && Allocates(entries, before, pager.Seen(), free)
  {
    hide Traced, Promised, MemoryView, Live, Stale, Tight, Shaped, Allocates, AllLiveBelow, IsBitsetPage;
    pager := LeaveStaleBits(entries, interval);
    before := pager.Seen();
    pager.RollbackTransaction();
    pager.Checkpoint();
    BeginClean(pager, entries);
    free := NewSoundPage(pager, entries);
  }
}
