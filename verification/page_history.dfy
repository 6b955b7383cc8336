/** Whole histories of a database's pages: any sequence of allocations, deletions, stores, root changes, commits,
    rollbacks, checkpoints and reopenings, as the pager and its allocator carry them out together. */
module PageHistory {
  import opened Storage
  import opened Replaying
  import opened PagerMachine
  import opened PagerInvariant
  import opened PagerRefinement
  import opened PagerRuns
  import opened PagerCreation
  import opened PagerObject
  import opened PageAllocation
  import opened PageAllocator

  /** The pages handed out, with what was last stored in each. */
  type Pages = map<nat, Block>

  /** In the open transaction, and as committed, each with its root page. */
  datatype Books = Books(current: Pages, committed: Pages, root: nat, committedRoot: nat)

  /** Of a database just created. */
  const NEW_BOOKS: Books := Books(map[], map[], NO_ROOT, NO_ROOT)

  datatype Views = Views(seen: View, committed: View)

  /** `RolledBack` stands for everything that ends a transaction without committing it, closing included. */
  datatype Change =
    | Allocated(p: nat) | Freed(p: nat) | Written(p: nat, b: Block) | Rooted(h: Block)
    | Committed | RolledBack | Kept

  /** The root page that a database names. */
  ghost function RootOf(v: View): nat {
    if |v| == 0 then 0 else RootPage(v[0])
  }

  ghost predicate Changes(entries: nat, s: Views, c: Change, t: Views) {
    && (c.Allocated? || c.Freed? || c.Written? || c.Rooted? ==> t.committed == s.committed)
    && (c.Allocated? || c.Freed? ==> RootOf(t.seen) == RootOf(s.seen))
    && match c
       case Allocated(p) => Shaped(entries, s.seen) && Allocates(entries, s.seen, t.seen, p)
       case Freed(p) => Shaped(entries, s.seen) && Frees(entries, s.seen, t.seen, p) && Tight(entries, t.seen)
       case Written(p, b) => 0 < p < |s.seen| && !IsBitsetPage(entries, p) && t.seen == s.seen[p := b]
       case Rooted(h) => |s.seen| == ViewLength(h) && t.seen == s.seen[0 := h]
       case Committed => t == Views(s.seen, s.seen)
       case RolledBack => t == Views(s.committed, s.committed)
       case Kept => t == s
  }

  /** What each change means to a keeper of the pages who knows nothing of bitsets, caches or logs. */
  ghost function Record(entries: nat, b: Books, c: Change): Books {
    match c
    case Allocated(p) => b.(current := b.current[p := ZeroPage(entries)])
    case Freed(p) => b.(current := b.current - {p})
    case Written(p, data) => if p in b.current then b.(current := b.current[p := data]) else b
    case Rooted(h) => b.(root := RootPage(h))
    case Committed => Books(b.current, b.current, b.root, b.root)
    case RolledBack => Books(b.committed, b.committed, b.committedRoot, b.committedRoot)
    case Kept => b
  }

  ghost function Recorded(entries: nat, b: Books, cs: seq<Change>): Books {
    if cs == [] then b else Record(entries, Recorded(entries, b, cs[..|cs| - 1]), cs[|cs| - 1])
  }

  /** The database uses exactly these pages, and they hold these contents. */
  ghost predicate Shows(entries: nat, v: View, pages: Pages) {
    && Tight(entries, v)
    && (forall q: nat :: q in pages <==> Live(entries, v, q))
    && (forall q: nat :: q in pages ==> q < |v| && pages[q] == v[q])
  }

  ghost predicate Accounts(entries: nat, s: Views, b: Books) {
    && Shows(entries, s.seen, b.current) && Shows(entries, s.committed, b.committed)
    && RootOf(s.seen) == b.root && RootOf(s.committed) == b.committedRoot
  }

  /** A page handed out was free, a page given back was in use. */
  ghost predicate Fair(b: Books, c: Change) {
    (c.Allocated? ==> c.p !in b.current) && (c.Freed? ==> c.p in b.current)
  }

  lemma AllocationIsRecorded(entries: nat, v: View, w: View, p: nat, pages: Pages)
    requires Shows(entries, v, pages) && Allocates(entries, v, w, p)
    ensures Shows(entries, w, pages[p := ZeroPage(entries)]) && p !in pages
  {
    AllocatesKeepsTight(entries, v, w, p);
    hide Bit, BitsetPage, ZeroPage, Tight, AllLiveBelow;
    forall q: nat | q in pages
      ensures q < |v| && q != p && w[q] == v[q]
    {
      LiveIsData(entries, v, q);
      BitsetIsNotData(entries, p);
    }
  }

  lemma FreeingIsRecorded(entries: nat, v: View, w: View, p: nat, pages: Pages)
    requires Shows(entries, v, pages) && Frees(entries, v, w, p) && Tight(entries, w)
    ensures Shows(entries, w, pages - {p}) && p in pages
  {
    hide Bit, BitsetPage, ZeroPage;
    forall q: nat | q in pages && q != p
      ensures q < |w| && w[q] == v[q]
    {
      LiveIsData(entries, v, q);
      BitsetIsNotData(entries, p);
    }
  }

  lemma LiveIsData(entries: nat, v: View, q: nat)
    requires Shaped(entries, v) && Live(entries, v, q)
    ensures q > 0 && !IsBitsetPage(entries, q)
  {
  }

  /** A store to a page that is not a bitset page, and a new header. */
  lemma WritingIsRecorded(entries: nat, v: View, p: nat, b: Block, pages: Pages)
    requires Shows(entries, v, pages) && p < |v| && !IsBitsetPage(entries, p)
    ensures Shows(entries, v[p := b], if p in pages then pages[p := b] else pages)
  {
    TightIsShaped(entries, v);
    LiveDependsOnBitsets(entries, v, v[p := b]);
    WritingKeepsTight(entries, v, p, b);
    hide Live, Tight, Shaped, IsBitsetPage;
  }

  lemma ChangeIsRecorded(entries: nat, s: Views, c: Change, t: Views, b: Books)
    requires Accounts(entries, s, b) && Changes(entries, s, c, t)
    ensures Accounts(entries, t, Record(entries, b, c)) && Fair(b, c)
  {
    hide Shows, Allocates, Frees, IsBitsetPage, Shaped, ZeroPage;
    match c
    case Allocated(p) => AllocationIsRecorded(entries, s.seen, t.seen, p, b.current);
    case Freed(p) => FreeingIsRecorded(entries, s.seen, t.seen, p, b.current);
    case Written(p, data) => WritingIsRecorded(entries, s.seen, p, data, b.current);
    case Rooted(h) => RootingIsRecorded(entries, s.seen, h, b.current);
    case _ =>
  }

  lemma RootingIsRecorded(entries: nat, v: View, h: Block, pages: Pages)
    requires Shows(entries, v, pages) && |v| > 0
    ensures Shows(entries, v[0 := h], pages)
  {
    WritingIsRecorded(entries, v, 0, h, pages);
  }

  /** The database goes through the changes one after the other. */
  ghost predicate History(entries: nat, vs: seq<Views>, cs: seq<Change>) {
    |vs| == |cs| + 1 && forall i :: 0 <= i < |cs| ==> Changes(entries, vs[i], cs[i], vs[i + 1])
  }

  lemma {:induction false} HistoryAccounts(entries: nat, vs: seq<Views>, cs: seq<Change>, b: Books, n: nat)
    requires History(entries, vs, cs) && Accounts(entries, vs[0], b) && n <= |cs|
    ensures Accounts(entries, vs[n], Recorded(entries, b, cs[..n]))
    ensures n < |cs| ==> Fair(Recorded(entries, b, cs[..n]), cs[n])
  {
    hide Accounts, Changes, Record, Fair;
    if n > 0 {
      HistoryAccounts(entries, vs, cs, b, n - 1);
      assert cs[..n][..n - 1] == cs[..n - 1];
      ChangeIsRecorded(entries, vs[n - 1], cs[n - 1], vs[n - 1 + 1], Recorded(entries, b, cs[..n - 1]));
    }
    if n < |cs| {
      ChangeIsRecorded(entries, vs[n], cs[n], vs[n + 1], Recorded(entries, b, cs[..n]));
    }
  }

  /** After any history the pages in use, seen and committed, are exactly those handed out and not given back,
      each holds what was last stored in it, none in use was handed out again, only pages in use were given back,
      the root page is the one last set, and the page count is one more than the largest page in use. */
  lemma AllocationHistory(entries: nat, vs: seq<Views>, cs: seq<Change>, b: Books)
    requires History(entries, vs, cs) && Accounts(entries, vs[0], b)
    ensures Accounts(entries, vs[|cs|], Recorded(entries, b, cs))
    ensures forall i :: 0 <= i < |cs| ==> Fair(Recorded(entries, b, cs[..i]), cs[i])
    ensures |vs[|cs|].seen| == 1 + Largest(Recorded(entries, b, cs).current.Keys)
    ensures |vs[|cs|].committed| == 1 + Largest(Recorded(entries, b, cs).committed.Keys)
  {
    hide Shows, Changes, Fair, Record, Recorded;
    forall i | 0 <= i < |cs|
      ensures Fair(Recorded(entries, b, cs[..i]), cs[i])
    {
      HistoryAccounts(entries, vs, cs, b, i);
    }
    HistoryAccounts(entries, vs, cs, b, |cs|);
    assert cs[..|cs|] == cs;
    CountIsLargest(entries, vs[|cs|].seen, Recorded(entries, b, cs).current);
    CountIsLargest(entries, vs[|cs|].committed, Recorded(entries, b, cs).committed);
  }

  lemma CountIsLargest(entries: nat, v: View, pages: Pages)
    requires Shows(entries, v, pages)
    ensures |v| == 1 + Largest(pages.Keys)
  {
    hide Live, Shaped;
    LargestIs(pages.Keys, |v| - 1);
  }

  /** The largest element; 0 for the empty set. */
  ghost function Largest(s: set<nat>): (m: nat)
    ensures s != {} ==> m in s
    ensures s == {} ==> m == 0
    ensures forall x :: x in s ==> x <= m
  {
    if s == {} then 0
    else
      var x :| x in s;
      var rest := Largest(s - {x});
      assert forall y :: y in s ==> y == x || y in s - {x};
      if rest > x then rest else x
  }

  lemma LargestIs(s: set<nat>, m: nat)
    requires forall x :: x in s ==> x <= m
    requires m in s || (m == 0 && forall x :: x in s ==> false)
    ensures Largest(s) == m
  {
  }

  // ---- histories of a pager ----

  ghost function ViewsOf(pager: Pager): Views
    reads pager
  {
    Views(pager.Seen(), pager.Committed())
  }

  /** An open pager, in a transaction or not, over a soundly allocated database. */
  ghost predicate Usable(pager: Pager, entries: nat)
    reads pager
  {
    && pager.Valid() && (pager.now.mode.Active? || pager.now.mode.Idle?) && pager.now.exposed == {}
    && entries > 0 && pager.zero == ZeroPage(entries)
    && Tight(entries, pager.Seen()) && Tight(entries, pager.Committed())
    && (pager.now.mode.Idle? ==> pager.Seen() == pager.Committed())
  }

  datatype Op = Start | Allocate | Delete(p: nat) | Write(p: nat, b: Block) | SetRoot(root: nat)
              | Commit | Abandon | Checkpoint | Reopen

  /** The file may be resized if it has to be, and a bitset page, if one is needed, would start with clear bits. */
  ghost predicate Room(pager: Pager, entries: nat)
    requires Shaped(entries, pager.Seen())
    reads pager
  {
    && MayGrow(entries, pager.Seen(), pager.now)
    && (NeedsBlock(entries, pager.Seen()) ==>
          IsPage(entries, Lookup(pager.now, |pager.Seen()|)) && !Stale(entries, Lookup(pager.now, |pager.Seen()|)))
  }

  /** The operations that change the database here; any other is refused. */
  ghost predicate Accepted(pager: Pager, entries: nat, op: Op)
    requires Usable(pager, entries)
    reads pager
  {
    match op
    case Start => false
    case Checkpoint => false
    case Reopen => true
    case Allocate => pager.now.mode.Active? && Room(pager, entries)
    case Delete(p) => pager.now.mode.Active? && Live(entries, pager.Seen(), p)
    case Write(p, b) => pager.now.mode.Active? && 0 < p < |pager.Seen()| && !IsBitsetPage(entries, p)
    case SetRoot(root) => pager.now.mode.Active?
    case Commit => pager.now.mode.Active?
    case Abandon => pager.now.mode.Active?
  }

  ghost predicate Answers(op: Op, c: Change) {
    match op
    case Allocate => c.Allocated?
    case Delete(p) => c == Freed(p)
    case Write(p, b) => c == Written(p, b)
    case SetRoot(root) => c.Rooted? && c.h.Header? && c.h.rootPage == root
    case Commit => c.Committed?
    case _ => c.RolledBack?
  }

  /** Runs the operations one after the other, passing over those refused. */
  method Perform(pager: Pager, entries: nat, ops: seq<Op>) returns (cs: seq<Change>, ghost vs: seq<Views>)
    requires Usable(pager, entries)
    modifies pager
    ensures Usable(pager, entries) && old(pager.acts) <= pager.acts
    ensures |cs| == |ops| && forall i :: 0 <= i < |ops| ==> cs[i].Kept? || Answers(ops[i], cs[i])
    ensures History(entries, vs, cs) && vs[0] == old(ViewsOf(pager)) && vs[|cs|] == ViewsOf(pager)
    ensures forall b :: Accounts(entries, old(ViewsOf(pager)), b) ==>
              Accounts(entries, ViewsOf(pager), Recorded(entries, b, cs))
  {
    hide Usable, Changes, Accounts, Recorded, Answers;
    cs, vs := [], [ViewsOf(pager)];
    for k := 0 to |ops|
      invariant Usable(pager, entries) && old(pager.acts) <= pager.acts
      invariant |cs| == k && forall i :: 0 <= i < k ==> cs[i].Kept? || Answers(ops[i], cs[i])
      invariant History(entries, vs, cs) && vs[0] == old(ViewsOf(pager)) && vs[k] == ViewsOf(pager)
    {
      var c := Do(pager, entries, ops[k]);
      cs, vs := cs + [c], vs + [ViewsOf(pager)];
    }
    forall b | Accounts(entries, vs[0], b)
      ensures Accounts(entries, vs[|cs|], Recorded(entries, b, cs))
    {
      AllocationHistory(entries, vs, cs, b);
    }
  }

  method Do(pager: Pager, entries: nat, op: Op) returns (c: Change)
    requires Usable(pager, entries)
    modifies pager
    ensures Usable(pager, entries) && old(pager.acts) <= pager.acts
    ensures Changes(entries, old(ViewsOf(pager)), c, ViewsOf(pager))
    ensures if old(Accepted(pager, entries, op)) then Answers(op, c) else c.Kept?
  {
    if op.Start? || op.Checkpoint? || op.Reopen? {
      c := DoBetween(pager, entries, op);
    } else if !pager.transactionActive {
      c := Kept;
    } else if op.Commit? || op.Abandon? {
      c := DoEnd(pager, entries, op);
    } else {
      c := DoInside(pager, entries, op);
    }
  }

  method DoBetween(pager: Pager, entries: nat, op: Op) returns (c: Change)
    requires Usable(pager, entries) && (op.Start? || op.Checkpoint? || op.Reopen?)
    modifies pager
    ensures Usable(pager, entries) && old(pager.acts) <= pager.acts
    ensures Changes(entries, old(ViewsOf(pager)), c, ViewsOf(pager))
    ensures if op.Reopen? then c.RolledBack? else c.Kept?
  {
    hide Traced, Promised, MemoryView, Tight;
    c := Kept;
    if op.Reopen? {
      pager.Destroy();
      pager.Recover();
      pager.SeenWhenIdle();
      c := RolledBack;
    } else if !pager.transactionActive {
      if op.Start? { pager.BeginTransaction(); } else { pager.Checkpoint(); pager.SeenWhenIdle(); }
    }
  }

  method DoEnd(pager: Pager, entries: nat, op: Op) returns (c: Change)
    requires Usable(pager, entries) && pager.now.mode.Active? && (op.Commit? || op.Abandon?)
    modifies pager
    ensures Usable(pager, entries) && old(pager.acts) <= pager.acts
    ensures Changes(entries, old(ViewsOf(pager)), c, ViewsOf(pager)) && Answers(op, c)
  {
    hide Traced, Promised, MemoryView, Tight;
    if op.Commit? {
      pager.CommitTransaction();
      c := Committed;
    } else {
      pager.RollbackTransaction();
      c := RolledBack;
    }
    pager.SeenWhenIdle();
  }

  method DoInside(pager: Pager, entries: nat, op: Op) returns (c: Change)
    requires Usable(pager, entries) && pager.now.mode.Active?
    requires op.Allocate? || op.Delete? || op.Write? || op.SetRoot?
    modifies pager
    ensures Usable(pager, entries) && old(pager.acts) <= pager.acts
    ensures Changes(entries, old(ViewsOf(pager)), c, ViewsOf(pager))
    ensures if old(Accepted(pager, entries, op)) then Answers(op, c) else c.Kept?
  {
    match op
    case Allocate => c := DoAllocate(pager, entries);
    case Delete(p) => c := DoDelete(pager, entries, p);
    case Write(p, b) => c := DoWrite(pager, entries, p, b);
    case SetRoot(root) => c := DoSetRoot(pager, entries, root);
  }

  method DoAllocate(pager: Pager, entries: nat) returns (c: Change)
    requires Usable(pager, entries) && pager.now.mode.Active?
    modifies pager
    ensures Usable(pager, entries) && old(pager.acts) <= pager.acts
    ensures Changes(entries, old(ViewsOf(pager)), c, ViewsOf(pager))
    ensures if old(Room(pager, entries)) then c.Allocated? else c.Kept?
  {
    hide Traced, Promised, MemoryView, Tight, Allocates, Stale, Shaped;
    c := Kept;
    var room := HasRoom(pager, entries);
    if room {
      ghost var v := pager.Seen();
      TightIsShaped(entries, v);
      var p := NewPage(pager, entries);
      AllocatesKeepsTight(entries, v, pager.Seen(), p);
      c := Allocated(p);
    }
  }

  method HasRoom(pager: Pager, entries: nat) returns (room: bool)
    requires Usable(pager, entries) && pager.now.mode.Active?
    ensures room <==> Room(pager, entries)
  {
    hide Traced, Promised, Tight, Shaped, AllLiveBelow, MemoryView, IsBitsetPage;
    TightIsShaped(entries, pager.Seen());
    pager.ActiveHeader();
    var grows, opens := WouldGrow(pager, entries);
    var n := PageCount(pager.header);
    var bits := Peek(pager, n);
    var count := if opens then n + 2 else n + 1;
    var spare := forall x: nat :: count <= x < PageCount(pager.savedHeader) ==> x in pager.walIndex;
    var clear := IsPage(entries, bits) && forall i: nat :: 0 < i < entries * WORD_BITS ==> !Bit(entries, bits, i);
    room := (grows ==> spare) && (opens ==> clear);
  }

  /** Would the next allocation raise the page count, and would it add a bitset page? */
  method WouldGrow(pager: Pager, entries: nat) returns (grows: bool, opens: bool)
    requires Ready(pager, entries)
    ensures Shaped(entries, pager.Seen())
    ensures grows <==> AllLiveBelow(entries, pager.Seen(), |pager.Seen()|)
    ensures opens <==> NeedsBlock(entries, pager.Seen())
  {
    hide Traced, Promised, MemoryView, Live, Shaped, Tight, BitsetPage, IsBitsetPage, Bit;
    ghost var v := pager.Seen();
    TightIsShaped(entries, v);
    pager.ActiveHeader();
    FirstBlock(entries);
    var start := 1;
    while start < PageCount(pager.header)
      invariant IsBitsetPage(entries, start) && AllLiveBelow(entries, v, start)
      invariant start == 1 || start <= |v| - 1 + Stride(entries)
    {
      var bits := Peek(pager, start);
      BitsetIsPage(entries, v, start);
      assert bits == v[start] by { SeenIsLookup(pager, start); }
      var entry := FirstNotFull(entries, bits);
      if entry < entries {
        var bit := LowestClear(bits.words[entry]);
        var free := start + 1 + WORD_BITS * entry + bit;
        BitOfWord(entries, bits, entry, bit);
        BitsBelow(entries, bits, entry, bit);
        ClaimedBit(entries, v, start, WORD_BITS * entry + bit, free);
        HoleOrEnd(entries, v, free);
        return free == PageCount(pager.header), false;
      }
      FullBits(entries, v, start, entries * WORD_BITS);
      NextBlock(entries, start);
      start := start + Stride(entries);
    }
    FullIsAligned(entries, v, start);
    grows, opens := true, true;
  }

  lemma SeenIsLookup(pager: Pager, p: nat)
    requires 0 < p < |pager.Seen()|
    ensures pager.Seen()[p] == Lookup(pager.now, p)
  {
  }

  /** The lowest free page: a hole, or the page at the page count. */
  lemma HoleOrEnd(entries: nat, v: View, p: nat)
    requires Shaped(entries, v) && 0 < p <= |v| && !IsBitsetPage(entries, p) && !Live(entries, v, p)
    requires AllLiveBelow(entries, v, p)
    ensures (AllLiveBelow(entries, v, |v|) <==> p == |v|) && !NeedsBlock(entries, v)
  {
    hide Live, IsBitsetPage;
  }

  method Peek(pager: Pager, p: nat) returns (data: Block)
    requires pager.Valid()
    ensures data == Lookup(pager.now, p)
  {
    if p in pager.pageCache {
      data := pager.pageCache[p].data;
    } else {
      data := pager.LoadPage(p);
    }
  }

  method DoDelete(pager: Pager, entries: nat, p: nat) returns (c: Change)
    requires Usable(pager, entries) && pager.now.mode.Active?
    modifies pager
    ensures Usable(pager, entries) && old(pager.acts) <= pager.acts
    ensures Changes(entries, old(ViewsOf(pager)), c, ViewsOf(pager))
    ensures if Live(entries, old(pager.Seen()), p) then c == Freed(p) else c.Kept?
  {
    hide Traced, Promised, MemoryView, Tight, Frees, Shaped;
    c := Kept;
    TightIsShaped(entries, pager.Seen());
    var live := IsLive(pager, entries, p);
    if live {
      DeletePage(pager, entries, p);
      c := Freed(p);
    }
  }

  method IsLive(pager: Pager, entries: nat, p: nat) returns (live: bool)
    requires Usable(pager, entries) && pager.now.mode.Active?
    modifies pager
    ensures Usable(pager, entries) && pager.now.mode.Active? && old(pager.acts) <= pager.acts
    ensures ViewsOf(pager) == old(ViewsOf(pager)) && (live <==> Live(entries, pager.Seen(), p))
  {
    hide Traced, Promised, MemoryView;
    pager.ActiveHeader();
    live := false;
    if p > 0 && !IsBitsetPage(entries, p) && BitsetPage(entries, p) < PageCount(pager.header) {
      WithinBlock(entries, p);
      var bits := pager.RPage(BitsetPage(entries, p));
      live := Bit(entries, bits, p - BitsetPage(entries, p) - 1);
    }
  }

  method DoWrite(pager: Pager, entries: nat, p: nat, b: Block) returns (c: Change)
    requires Usable(pager, entries) && pager.now.mode.Active?
    modifies pager
    ensures Usable(pager, entries) && old(pager.acts) <= pager.acts
    ensures Changes(entries, old(ViewsOf(pager)), c, ViewsOf(pager))
    ensures if 0 < p < old(|pager.Seen()|) && !IsBitsetPage(entries, p) then c == Written(p, b) else c.Kept?
  {
    hide Traced, Promised, MemoryView, Tight, IsBitsetPage;
    pager.ActiveHeader();
    c := Kept;
    if 0 < p < PageCount(pager.header) && !IsBitsetPage(entries, p) {
      WritingKeepsTight(entries, pager.Seen(), p, b);
      var _ := pager.RWPage(p);
      pager.StorePage(p, b);
      c := Written(p, b);
    }
  }

  method DoSetRoot(pager: Pager, entries: nat, root: nat) returns (c: Change)
    requires Usable(pager, entries) && pager.now.mode.Active?
    modifies pager
    ensures Usable(pager, entries) && old(pager.acts) <= pager.acts
    ensures Changes(entries, old(ViewsOf(pager)), c, ViewsOf(pager)) && Answers(SetRoot(root), c)
  {
    hide Traced, Promised, MemoryView, Tight;
    pager.ActiveHeader();
    var h := pager.header.(rootPage := root);
    ghost var v := pager.Seen();
    assert v[0 := h] == [h] + v[1..PageCount(h)];
    WritingKeepsTight(entries, v, 0, h);
    pager.SetHeader(h);
    c := Rooted(h);
  }

  /** A crash between two operations, and a new process that opens what it left: the open transaction is gone, and
      everything else is as it was. */
  method ReopenAfterCrash(pager: Pager, entries: nat, file: File, frames: seq<Frame>, count: nat) returns (next: Pager)
    requires Usable(pager, entries) && !Unsaved(pager.now) && CrashImage(pager.now, Image(file, frames, count))
    ensures fresh(next) && Usable(next, entries)
    ensures Changes(entries, ViewsOf(pager), RolledBack, ViewsOf(next))
  {
    hide Traced, MemoryView, Tight, Unsaved, CrashImage, CommittedView;
    CommittedSurvives(pager, Image(file, frames, count));
    next := new Pager.AfterCrash(pager.zero, pager.interval, file, frames, count, pager.acts, pager.now);
    next.Recover();
    next.SeenWhenIdle();
  }

  lemma CommittedSurvives(pager: Pager, img: Image)
    requires pager.Valid() && (pager.now.mode.Active? || pager.now.mode.Idle?) && !Unsaved(pager.now)
    ensures Surviving(pager.now, img) == pager.Committed()
  {
  }

  /** A database just created keeps no page. */
  lemma CreatedAccounts(entries: nat)
    requires entries > 0
    ensures Accounts(entries, Views([FIRST_HEADER], [FIRST_HEADER]), NEW_BOOKS)
  {
    forall q: nat ensures !Live(entries, [FIRST_HEADER], q) {
      if q > 0 { WithinBlock(entries, q); }
    }
  }

  /** Any list of operations on a new database: its pages, seen and committed, are those of the record. */
  method PerformOnNew(entries: nat, interval: nat, ops: seq<Op>) returns (pager: Pager, cs: seq<Change>)
    requires entries > 0
    ensures fresh(pager) && Usable(pager, entries)
    ensures |cs| == |ops| && forall i :: 0 <= i < |ops| ==> cs[i].Kept? || Answers(ops[i], cs[i])
    ensures Accounts(entries, ViewsOf(pager), Recorded(entries, NEW_BOOKS, cs))
    ensures forall i :: 0 <= i < |cs| ==> Fair(Recorded(entries, NEW_BOOKS, cs[..i]), cs[i])
  {
    hide Traced, Promised, MemoryView, Accounts, Recorded, Changes, Answers, Fair;
    pager := new Pager(ZeroPage(entries), interval);
    CreatedAccounts(entries);
    AccountsAreTight(entries, ViewsOf(pager), NEW_BOOKS);
    pager.SeenWhenIdle();
    ghost var vs;
    cs, vs := Perform(pager, entries, ops);
    AllocationHistory(entries, vs, cs, NEW_BOOKS);
  }

  lemma AccountsAreTight(entries: nat, s: Views, b: Books)
    requires Accounts(entries, s, b)
    ensures Tight(entries, s.seen) && Tight(entries, s.committed)
  {
  }
}
