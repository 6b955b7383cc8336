/** The pager refines a transactional page store: one committed database and at most one private copy,
    where commit replaces the one by the other and a crash loses the copy, or keeps it if and only if it
    fell after the commit's frame count reached the disk. */
module PagerRefinement {
  import opened Storage
  import opened Replaying
  import opened PagerMachine
  import opened PagerInvariant

  datatype Option<+T> = None | Some(value: T)

  datatype Store = Store(committed: View, tx: Option<View>)

  datatype Event =
    | Nothing
    | Begins
    | Reheads(h: Block, fill: seq<Block>)  // new header; pages it newly covers appear as `fill`
    | Writes(i: nat, b: Block)
    | Commits
    | RollsBack
    | Crashes(kept: bool)

  ghost predicate Possible(st: Store, e: Event) {
    match e
    case Nothing => true
    case Begins => st.tx.None?
    case Reheads(h, fill) => st.tx.Some? && ViewLength(h) <= |st.tx.value| + |fill|
    case Writes(i, b) => st.tx.Some? && 0 < i < |st.tx.value|
    case Commits => st.tx.Some?
    case RollsBack => st.tx.Some?
    case Crashes(kept) => kept ==> st.tx.Some?
  }

  ghost function Apply(st: Store, e: Event): Store
    requires Possible(st, e)
  {
    match e
    case Nothing => st
    case Begins => st.(tx := Some(st.committed))
    case Reheads(h, fill) => st.(tx := Some(([h] + (st.tx.value + fill)[1..])[..ViewLength(h)]))
    case Writes(i, b) => st.(tx := Some(st.tx.value[i := b]))
    case Commits => Store(st.tx.value, None)
    case RollsBack => st.(tx := None)
    case Crashes(kept) => Store(if kept then st.tx.value else st.committed, None)
  }

  ghost predicate HasTransaction(m: Mode) {
    m.Active? || m.Appended? || m.FramesSynced? || m.Published?
  }

  ghost function Abstract(s: State): Store {
    Store(CommittedView(s), if HasTransaction(s.mode) then Some(MemoryView(s)) else None)
  }

  /** Did the in-flight commit's count reach the disk? */
  ghost predicate Kept(s: State, img: Image) {
    s.mode.Published? && img.count == s.logCount
  }

  /** The blocks at the units a growing header newly covers. */
  ghost function Uncovered(s: State, h: Block): seq<Block> {
    if PageCount(s.header) <= PageCount(h)
    then seq(PageCount(h) - PageCount(s.header), x requires 0 <= x => Lookup(s, PageCount(s.header) + x)) else []
  }

  ghost function Meaning(s: State, a: Action): Event {
    match a
    case Begin => Begins
    case SetHeader(h) => Reheads(h, [])
    case Extend(h) => Reheads(h, Uncovered(s, h))
    case Put(i, b) => Writes(i, b)
    case Rollback => RollsBack
    case SyncCount => Commits
    case Finish => if s.mode.Appended? then Commits else Nothing
    case Crash(img) => Crashes(Kept(s, img))
    case _ => Nothing
  }

  /** From `s` to `t` the store goes through event `e`. */
  ghost predicate Moves(s: State, t: State, e: Event) {
    Possible(Abstract(s), e) && Abstract(t) == Apply(Abstract(s), e)
  }

  // ---- the open transaction ----

  lemma BeginSimulates(s: State)
    requires s.mode.Idle? && InvIdle(s)
    ensures InvActive(AfterBegin(s)) && Moves(s, AfterBegin(s), Begins)
  {
    IdleView(s);
    assert MemoryView(AfterBegin(s)) == MemoryView(s);
  }

  lemma SetHeaderSimulates(s: State, h: Block)
    requires s.mode.Active? && InvActive(s) && 1 <= PageCount(h) <= PageCount(s.header)
    ensures InvActive(AfterSetHeader(s, h)) && Moves(s, AfterSetHeader(s, h), Reheads(h, []))
  {
    var t := AfterSetHeader(s, h);
    assert forall x: nat :: Base(t, x) == Base(s, x);
    assert MemoryView(t) == ([h] + (MemoryView(s) + [])[1..])[..ViewLength(h)];
  }

  lemma ExtendView(s: State, h: Block)
    requires CanExtend(s, h) && 1 <= PageCount(s.header)
    ensures MemoryView(AfterExtend(s, h)) == ([h] + (MemoryView(s) + Uncovered(s, h))[1..])[..ViewLength(h)]
  {
    var t := AfterExtend(s, h);
    assert forall x: nat :: x < PageCount(h) ==> Base(t, x) == Base(s, x);
  }

  /** Pages the header already covered stay; a page newly covered shows what lies in cache, log or file. */
  lemma ExtendedPages(s: State, h: Block)
    requires CanExtend(s, h) && 1 <= PageCount(s.header)
    ensures |MemoryView(AfterExtend(s, h))| == PageCount(h)
    ensures forall x: nat :: 0 < x < PageCount(s.header) ==> MemoryView(AfterExtend(s, h))[x] == MemoryView(s)[x]
    ensures forall x: nat :: PageCount(s.header) <= x < PageCount(h) ==>
        MemoryView(AfterExtend(s, h))[x] == Lookup(s, x)
  {
    assert forall x: nat :: x < PageCount(h) ==> Base(AfterExtend(s, h), x) == Base(s, x);
  }

  lemma ExtendSimulates(s: State, h: Block)
    requires InvActive(s) && CanExtend(s, h)
    ensures InvActive(AfterExtend(s, h)) && Moves(s, AfterExtend(s, h), Reheads(h, Uncovered(s, h)))
  {
    ExtendView(s, h);
    LastFramesAgree(s, s.logCount);
    assert forall x: nat :: x < PageCount(h) ==> Base(AfterExtend(s, h), x) == Base(s, x);
    hide MemoryView;
  }

  lemma LoadSimulates(s: State, i: nat)
    requires s.mode.Active? && InvActive(s) && 0 < i < PageCount(s.header) && i !in s.cache
    ensures InvActive(AfterLoad(s, i)) && Moves(s, AfterLoad(s, i), Nothing)
  {
    var t := AfterLoad(s, i);
    assert forall x: nat :: Base(t, x) == Base(s, x);
    assert MemoryView(t) == MemoryView(s);
  }

  lemma TouchSimulates(s: State, i: nat)
    requires s.mode.Active? && InvActive(s) && i in s.cache
    ensures InvActive(AfterTouch(s, i)) && Moves(s, AfterTouch(s, i), Nothing)
  {
    var t := AfterTouch(s, i);
    assert forall x: nat :: Base(t, x) == Base(s, x);
    assert forall x: nat :: IsDirty(s, x) ==> IsDirty(t, x);
    assert MemoryView(t) == MemoryView(s);
  }

  lemma PutSimulates(s: State, i: nat, b: Block)
    requires s.mode.Active? && InvActive(s) && 0 < i < PageCount(s.header)
    ensures InvActive(AfterPut(s, i, b)) && Moves(s, AfterPut(s, i, b), Writes(i, b))
  {
    var t := AfterPut(s, i, b);
    assert forall x: nat :: Base(t, x) == Base(s, x);
    assert forall x: nat :: IsDirty(s, x) ==> IsDirty(t, x);
    assert MemoryView(t) == MemoryView(s)[i := b];
  }

  lemma RollbackSimulates(s: State)
    requires s.mode.Active? && InvActive(s)
    ensures InvIdle(AfterRollback(s)) && Moves(s, AfterRollback(s), RollsBack)
    ensures MemoryView(AfterRollback(s)) == CommittedView(s)
  {
    LastFramesAgree(s, s.logCount);
    IdleView(AfterRollback(s));
  }

  // ---- commit ----

  /** Frames that are safe have the same last frames in both copies of the log. */
  lemma LastFramesAgree(s: State, m: nat)
    requires FramesSafe(s.log, m)
    ensures forall x: nat :: LastFrame(s.log.frames, m, x) == LastFrame(s.log.durableFrames, m, x)
  {
    forall x: nat ensures LastFrame(s.log.frames, m, x) == LastFrame(s.log.durableFrames, m, x) {
      LastFrameLocal(s.log.frames, s.log.durableFrames, m, x);
    }
  }

  lemma {:induction false} IndexedLookup(index: map<nat, nat>, order: seq<nat>, base: nat, x: nat)
    requires forall i, j :: 0 <= i < j < |order| ==> order[i] != order[j]
    ensures x in Indexed(index, order, base) <==> x in index || x in order
    ensures x !in order && x in index ==> Indexed(index, order, base)[x] == index[x]
    ensures forall i :: 0 <= i < |order| && order[i] == x ==>
              x in Indexed(index, order, base) && Indexed(index, order, base)[x] == base + i
  {
    if order != [] {
      var init := order[..|order| - 1];
      IndexedLookup(index, init, base, x);
      assert order == init + [order[|order| - 1]];
    }
  }

  /** After the append the last frame of a logged unit is its new one, and of any other its old one. */
  lemma {:induction false} AppendedLast(s: State, order: seq<nat>, m: nat, x: nat)
    requires forall i, j :: 0 <= i < j < |order| ==> order[i] != order[j]
    requires m <= |order|
    ensures LastFrame(AppendedFrames(s, order), s.logCount + m, x)
         == if x in order[..m] then s.logCount + Position(order, x) else LastFrame(s.log.frames, s.logCount, x)
  {
    var frames := AppendedFrames(s, order);
    if m == 0 {
      LastFrameLocal(frames, s.log.frames, s.logCount, x);
    } else {
      AppendedLast(s, order, m - 1, x);
      assert order[..m] == order[..m - 1] + [order[m - 1]];
      assert FrameAt(frames, s.logCount + m - 1).slot == order[m - 1];
    }
  }

  ghost function Position(order: seq<nat>, x: nat): (i: nat)
    ensures x in order ==> i < |order| && order[i] == x
  {
    if x in order then (var i: nat :| i < |order| && order[i] == x; i) else 0
  }

  ghost predicate NoRepeats(order: seq<nat>) {
    forall i, j :: 0 <= i < j < |order| ==> order[i] != order[j]
  }

  /** A unit that is logged ... */
  lemma LoggedUnit(s: State, order: seq<nat>, x: nat)
    requires NoRepeats(order) && x in order
    ensures var t := AfterAppend(s, order);
      && x in t.index && t.index[x] == LastFrame(t.log.frames, t.logCount, x)
      && Base(t, x) == LoggedBlock(s, x)
  {
    hide LoggedBlock, LastFrame;
    IndexedLookup(s.index, order, s.logCount, x);
    AppendedLast(s, order, |order|, x);
    assert order[..|order|] == order;
    var i := Position(order, x);
    assert AppendedFrames(s, order)[s.logCount + i] == Frame(x, LoggedBlock(s, x));
  }

  /** ... and one that is not. */
  lemma OtherUnit(s: State, order: seq<nat>, x: nat)
    requires NoRepeats(order) && x !in order && IndexExact(s)
    ensures var t := AfterAppend(s, order);
      && (x in t.index <==> x in s.index) && (x in s.index ==> t.index[x] == s.index[x])
      && LastFrame(t.log.frames, t.logCount, x) == LastFrame(s.log.frames, s.logCount, x)
      && Base(t, x) == Base(s, x)
  {
    IndexedLookup(s.index, order, s.logCount, x);
    AppendedLast(s, order, |order|, x);
    assert order[..|order|] == order;
    hide LoggedBlock, Indexed;
    if x in s.index {
      assert s.index[x] == LastFrame(s.log.frames, s.logCount, x) < s.logCount;
      assert FrameAt(AppendedFrames(s, order), s.index[x]) == FrameAt(s.log.frames, s.index[x]);
    }
    hide LastFrame;
  }

  /** What an append does to one unit. */
  lemma AppendIndexAt(s: State, order: seq<nat>, x: nat)
    requires InvActive(s) && CanAppend(s, order)
    ensures var t := AfterAppend(s, order);
      && (x in t.index <==> LastFrame(t.log.frames, t.logCount, x) >= 0)
      && (x in t.index ==> t.index[x] == LastFrame(t.log.frames, t.logCount, x))
      && (x in order ==> x in t.index && Base(t, x) == LoggedBlock(s, x))
      && (x !in order ==> Base(t, x) == Base(s, x) && (x in t.index <==> x in s.index))
  {
    assert NoRepeats(order) && IndexExact(s);
    hide InvActive, CanAppend, AfterAppend, Base, LoggedBlock, LastFrame, NoRepeats;
    if x in order { LoggedUnit(s, order, x); } else { OtherUnit(s, order, x); }
  }

  lemma AppendIndex(s: State, order: seq<nat>)
    requires InvActive(s) && CanAppend(s, order)
    ensures IndexExact(AfterAppend(s, order))
    ensures forall x: nat :: x in order ==>
              x in AfterAppend(s, order).index && Base(AfterAppend(s, order), x) == LoggedBlock(s, x)
    ensures forall x: nat :: x !in order ==>
              && Base(AfterAppend(s, order), x) == Base(s, x)
              && (x in AfterAppend(s, order).index <==> x in s.index)
  {
    hide InvActive, CanAppend, AfterAppend, Base, LoggedBlock;
    forall x: nat
      ensures var t := AfterAppend(s, order);
        && (x in t.index <==> LastFrame(t.log.frames, t.logCount, x) >= 0)
        && (x in t.index ==> t.index[x] == LastFrame(t.log.frames, t.logCount, x))
        && (x in order ==> x in t.index && Base(t, x) == LoggedBlock(s, x))
        && (x !in order ==> Base(t, x) == Base(s, x) && (x in t.index <==> x in s.index))
    {
      AppendIndexAt(s, order, x);
    }
  }

  /** Touched units are named by a frame or lie past the new page count. */
  lemma AppendFileSafe(s: State, order: seq<nat>)
    requires InvActive(s) && CanAppend(s, order)
    ensures var t := AfterAppend(s, order); s.header == Recovered(s.db.durable, s.zero, t.log.frames, t.logCount, 0)
    ensures FileSafe(s.db, s.zero, AfterAppend(s, order).log.frames, AfterAppend(s, order).logCount)
  {
    var t := AfterAppend(s, order);
    AppendIndex(s, order);
    LastFramesAgree(s, s.logCount);
    assert 0 in order <==> s.headerDirty by {
      assert 0 in order <==> InWriteSet(s, 0);
    }
    forall x: nat | x in t.db.touched
      ensures LastFrame(t.log.frames, t.logCount, x) >= 0 || PageCount(t.header) <= x
    {
      if x !in order && 0 < x < PageCount(t.header) {
        assert !InWriteSet(s, x);
      }
    }
  }

  lemma AppendSimulates(s: State, order: seq<nat>)
    requires InvActive(s) && CanAppend(s, order)
    ensures Settled(AfterAppend(s, order)) && Logged(AfterAppend(s, order))
    ensures Moves(s, AfterAppend(s, order), Nothing)
  {
    var t := AfterAppend(s, order);
    AppendIndex(s, order);
    AppendFileSafe(s, order);
    forall x: nat | 0 < x < PageCount(s.header)
      ensures Lookup(t, x) == Lookup(s, x) == Base(t, x)
    {
      assert x in order <==> InWriteSet(s, x);
    }
    assert MemoryView(t) == MemoryView(s);
  }

  lemma SyncFramesSimulates(s: State)
    requires s.mode.Appended? && Settled(s) && Logged(s)
    ensures Settled(AfterSyncFrames(s)) && Logged(AfterSyncFrames(s)) && FramesSafe(AfterSyncFrames(s).log, s.logCount)
    ensures Moves(s, AfterSyncFrames(s), Nothing)
  {
    var t := AfterSyncFrames(s);
    LastFramesAgree(s, s.log.durableCount);
    SameViews(s.db.durable, s.zero, s.log.durableFrames, s.log.durableCount,
              s.db.durable, s.log.frames, s.log.durableCount);
    assert forall x: nat :: Base(t, x) == Base(s, x);
    assert MemoryView(t) == MemoryView(s);
  }

  lemma PublishSimulates(s: State)
    requires s.mode.FramesSynced? && Settled(s) && Logged(s) && FramesSafe(s.log, s.logCount)
    ensures InvPublished(AfterPublish(s)) && Moves(s, AfterPublish(s), Nothing)
  {
    var t := AfterPublish(s);
    assert forall x: nat :: Base(t, x) == Base(s, x);
    assert MemoryView(t) == MemoryView(s);
  }

  lemma SyncCountSimulates(s: State)
    requires s.mode.Published? && InvPublished(s)
    ensures Stored(AfterSyncCount(s)) && Moves(s, AfterSyncCount(s), Commits)
  {
    LoggedView(s);
    assert forall x: nat :: Base(AfterSyncCount(s), x) == Base(s, x);
  }

  lemma FinishReadOnlySimulates(s: State)
    requires s.mode.Appended? && Settled(s) && Logged(s) && s.logCount == 0
    ensures InvIdle(AfterFinish(s)) && Moves(s, AfterFinish(s), Commits)
  {
    SyncedView(s);
  }

  lemma FinishSimulates(s: State)
    requires (s.mode.Durable? && Stored(s)) || (s.mode.Folded? && Empty(s) && s.header == CommittedHeader(s))
    ensures InvIdle(AfterFinish(s)) && Moves(s, AfterFinish(s), Nothing)
  {
    LastFramesAgree(s, s.logCount);
  }

  // ---- checkpoint ----

  lemma StartFoldSimulates(s: State)
    requires (s.mode.Idle? && InvIdle(s)) || (s.mode.Durable? && Stored(s))
    ensures InvFolding(AfterStartFold(s), {}) && Moves(s, AfterStartFold(s), Nothing)
  {
    LastFramesAgree(s, s.logCount);
  }

  /** Overwriting a unit that some frame names is safe. */
  lemma WriteNamedUnit(s: State, i: nat, b: Block, frames: seq<Frame>, m: nat)
    requires FileSafe(s.db, s.zero, frames, m) && LastFrame(frames, m, i) >= 0
    ensures FileSafe(WriteUnit(s.db, i, b), s.zero, frames, m)
  {
  }

  lemma FoldSimulates(s: State, i: nat)
    requires s.mode.Folding? && InvFolding(s, s.mode.done) && i in s.index
    ensures InvFolding(AfterFold(s, i), s.mode.done + {i}) && Moves(s, AfterFold(s, i), Nothing)
  {
    var t := AfterFold(s, i);
    LastFramesAgree(s, s.logCount);
    WriteNamedUnit(s, i, LoggedBlock(s, i), s.log.frames, s.logCount);
    WriteNamedUnit(s, i, LoggedBlock(s, i), s.log.durableFrames, s.logCount);
    assert forall x: nat :: Base(t, x) == Base(s, x);
    assert i < PageCount(s.header) ==> LoggedBlock(s, i) == Base(s, i);
  }

  lemma FoldResizeSimulates(s: State)
    requires s.mode.Folding? && InvFolding(s, s.mode.done) && s.mode.done == s.index.Keys
    ensures Stored(AfterFoldResize(s)) && FileHolds(AfterFoldResize(s), AfterFoldResize(s).db.cur)
    ensures Moves(s, AfterFoldResize(s), Nothing)
  {
    var t := AfterFoldResize(s);
    LastFramesAgree(s, s.logCount);
    assert forall x: nat :: x < PageCount(s.header) ==> Base(t, x) == Base(s, x);
    forall x: nat | x < PageCount(s.header)
      ensures Get(t.db.cur, s.zero, x) == Recovered(s.db.durable, s.zero, s.log.durableFrames, s.log.durableCount, x)
    {
      assert x in s.index <==> x in s.mode.done;
    }
  }

  /** Syncing a file that holds the committed database keeps it committed. */
  lemma SyncHeldFile(s: State, t: State)
    requires Settled(s) && FileHolds(s, s.db.cur) && t.zero == s.zero && t.log == s.log && t.db == SyncDatabase(s.db)
    ensures Settled(t) && Copied(t) && CommittedHeader(t) == CommittedHeader(s) && CommittedView(t) == CommittedView(s)
  {
    SameViews(s.db.durable, s.zero, s.log.durableFrames, s.log.durableCount,
              t.db.durable, s.log.durableFrames, s.log.durableCount);
  }

  lemma SyncFoldSimulates(s: State)
    requires s.mode.FoldResized? && Stored(s) && FileHolds(s, s.db.cur)
    ensures Stored(AfterSyncFold(s)) && Copied(AfterSyncFold(s)) && Moves(s, AfterSyncFold(s), Nothing)
  {
    var t := AfterSyncFold(s);
    SyncHeldFile(s, t);
    LastFramesAgree(s, s.logCount);
    assert forall x: nat :: Base(t, x) == Base(s, x);
  }

  lemma ResetCountSimulates(s: State)
    requires s.mode.FoldSynced? && Stored(s) && Copied(s)
    ensures Resetting(AfterResetCount(s)) && s.header == CommittedHeader(AfterResetCount(s))
    ensures Moves(s, AfterResetCount(s), Nothing)
  {
    LastFramesAgree(s, s.logCount);
  }

  /** Once the file alone holds the database, dropping all frames changes nothing. */
  lemma SyncZeroCount(s: State, t: State)
    requires Resetting(s) && t.zero == s.zero && t.db == s.db && t.log == SyncLog(s.log)
    ensures Settled(t) && CommittedHeader(t) == CommittedHeader(s) && CommittedView(t) == CommittedView(s)
  {
    SameViews(s.db.durable, s.zero, s.log.durableFrames, s.log.durableCount, s.db.durable, s.log.frames, 0);
  }

  lemma SyncResetSimulates(s: State)
    requires s.mode.FoldReset? && Resetting(s)
    ensures Empty(AfterSyncReset(s)) && CommittedHeader(AfterSyncReset(s)) == CommittedHeader(s)
    ensures Moves(s, AfterSyncReset(s), Nothing)
  {
    SyncZeroCount(s, AfterSyncReset(s));
  }

  // ---- recovery ----

  lemma CloseSimulates(s: State)
    requires s.mode.Idle? && InvIdle(s)
    ensures InvClosed(AfterClose(s)) && Moves(s, AfterClose(s), Nothing)
  {
  }

  lemma OpenSimulates(s: State)
    requires s.mode.Closed? && InvClosed(s)
    ensures if s.log.count == 0 then InvIdle(AfterOpen(s)) else InvRecovering(AfterOpen(s), 0)
    ensures Moves(s, AfterOpen(s), Nothing)
  {
  }

  lemma RecoverFrameSimulates(s: State)
    requires s.mode.Recovering? && InvRecovering(s, s.mode.next) && s.mode.next < s.logCount
    ensures InvRecovering(AfterRecoverFrame(s), s.mode.next + 1) && Moves(s, AfterRecoverFrame(s), Nothing)
  {
    var t, next := AfterRecoverFrame(s), s.mode.next;
    var frame := FrameAt(s.log.frames, next);
    LastFramesAgree(s, s.logCount);
    LastFrameIsLast(s.log.frames, s.logCount, next);
    WriteNamedUnit(s, frame.slot, frame.block, s.log.durableFrames, s.logCount);
    forall x: nat | LastFrame(s.log.frames, next + 1, x) >= 0
      ensures Get(t.db.cur, s.zero, x) == FrameAt(s.log.frames, LastFrame(s.log.frames, next + 1, x)).block
    {
      if x != frame.slot {
        assert LastFrame(s.log.frames, next + 1, x) == LastFrame(s.log.frames, next, x);
      }
    }
  }

  lemma SyncRecoverySimulates(s: State)
    requires s.mode.Recovering? && InvRecovering(s, s.mode.next) && s.mode.next == s.logCount
    ensures Settled(AfterSyncRecovery(s)) && Copied(AfterSyncRecovery(s)) && Fresh(AfterSyncRecovery(s))
    ensures Moves(s, AfterSyncRecovery(s), Nothing)
  {
    LastFramesAgree(s, s.logCount);
    SyncHeldFile(s, AfterSyncRecovery(s));
  }

  lemma ResetRecoverySimulates(s: State)
    requires s.mode.RecoverySynced? && Settled(s) && Copied(s) && Fresh(s)
    ensures Resetting(AfterResetRecovery(s)) && Fresh(AfterResetRecovery(s)) && Moves(s, AfterResetRecovery(s), Nothing)
  {
  }

  lemma SyncRecoveryResetSimulates(s: State)
    requires s.mode.RecoveryReset? && Resetting(s) && Fresh(s)
    ensures Empty(AfterSyncRecoveryReset(s)) && Fresh(AfterSyncRecoveryReset(s)) && s.db.touched == iset{}
    ensures Moves(s, AfterSyncRecoveryReset(s), Nothing)
  {
    SyncZeroCount(s, AfterSyncRecoveryReset(s));
  }

  lemma FinishRecoverySimulates(s: State)
    requires s.mode.RecoveryDone? && Empty(s) && Fresh(s) && s.db.touched == iset{}
    ensures InvIdle(AfterFinishRecovery(s)) && Moves(s, AfterFinishRecovery(s), Nothing)
  {
  }

  // ---- crash ----

  /** What every mode but Published guarantees about the disk. */
  ghost predicate Crashable(s: State) {
    Settled(s) || Resetting(s)
  }

  /** A crash that does not keep a commit in flight leaves the committed database. */
  lemma CrashDropsCommit(s: State, img: Image)
    requires CrashImage(s, img) && DiskSafe(s)
    requires img.count == s.log.durableCount || (Resetting(s) && img.count == 0)
    ensures InvClosed(AfterCrash(s, img)) && CommittedView(AfterCrash(s, img)) == CommittedView(s)
  {
    if img.count == s.log.durableCount {
      CrashView(s, img, s.log.durableCount);
    } else {
      SameViews(s.db.durable, s.zero, s.log.durableFrames, s.log.durableCount, s.db.durable, s.log.durableFrames, 0);
      CrashView(s, img, 0);
    }
  }

  /** A crash that does keep it leaves the transaction's view. */
  lemma CrashKeepsCommit(s: State, img: Image)
    requires CrashImage(s, img) && InvPublished(s) && img.count == s.logCount
    ensures InvClosed(AfterCrash(s, img)) && CommittedView(AfterCrash(s, img)) == MemoryView(s)
  {
    SyncedView(s);
    CrashView(s, img, s.logCount);
  }

  lemma InvIsCrashable(s: State)
    requires Inv(s)
    ensures DiskSafe(s) && (s.mode.Published? ==> InvPublished(s)) && (!s.mode.Published? ==> Crashable(s))
  {
  }

  lemma CrashSimulates(s: State, img: Image)
    requires Inv(s) && CrashImage(s, img)
    ensures InvClosed(AfterCrash(s, img)) && Moves(s, AfterCrash(s, img), Crashes(Kept(s, img)))
  {
    hide Inv, DiskSafe, InvClosed, CommittedView, MemoryView;
    InvIsCrashable(s);
    if Kept(s, img) {
      CrashKeepsCommit(s, img);
    } else {
      CrashDropsCommit(s, img);
    }
  }

  // ---- every step ----

  lemma TransactionStep(s: State, a: Action)
    requires Inv(s) && Enabled(s, a)
    requires a.Begin? || a.SetHeader? || a.Extend? || a.Load? || a.Touch? || a.Put? || a.Rollback?
    ensures Inv(Step(s, a)) && Moves(s, Step(s, a), Meaning(s, a))
  {
    hide InvIdle, InvActive, Moves;
    match a
    case Begin => BeginSimulates(s);
    case SetHeader(h) => SetHeaderSimulates(s, h);
    case Extend(h) => ExtendSimulates(s, h);
    case Load(i) => LoadSimulates(s, i);
    case Touch(i) => TouchSimulates(s, i);
    case Put(i, b) => PutSimulates(s, i, b);
    case Rollback => RollbackSimulates(s);
  }

  lemma CommitStep(s: State, a: Action)
    requires Inv(s) && Enabled(s, a)
    requires a.Append? || a.SyncFrames? || a.Publish? || a.SyncCount? || a.Finish?
    ensures Inv(Step(s, a)) && Moves(s, Step(s, a), Meaning(s, a))
  {
    hide InvIdle, InvActive, InvPublished, Moves, Settled, Logged, FramesSafe, Stored, Empty, CommittedHeader;
    match a
    case Append(order) => AppendSimulates(s, order);
    case SyncFrames => SyncFramesSimulates(s);
    case Publish => PublishSimulates(s);
    case SyncCount => SyncCountSimulates(s);
    case Finish =>
      if s.mode.Appended? {
        FinishReadOnlySimulates(s);
      } else {
        FinishSimulates(s);
      }
  }

  lemma CheckpointStep(s: State, a: Action)
    requires Inv(s) && Enabled(s, a)
    requires a.StartFold? || a.Fold? || a.FoldResize? || a.SyncFold? || a.ResetCount? || a.SyncReset?
    ensures Inv(Step(s, a)) && Moves(s, Step(s, a), Meaning(s, a))
  {
    hide InvIdle, InvFolding, Moves, Stored, Copied, FileHolds, Resetting, Empty, Settled, CommittedHeader, InvActive,
      InvPublished, InvRecovering, InvClosed, Fresh, Logged, FramesSafe, CanExtend, CanAppend, CrashImage;
    match a
    case StartFold => StartFoldSimulates(s);
    case Fold(i) => FoldSimulates(s, i);
    case FoldResize => FoldResizeSimulates(s);
    case SyncFold => SyncFoldSimulates(s);
    case ResetCount => ResetCountSimulates(s);
    case SyncReset => SyncResetSimulates(s);
  }

  ghost predicate IsRecovery(a: Action) {
    a.Open? || a.RecoverFrame? || a.SyncRecovery? || a.ResetRecovery? || a.SyncRecoveryReset? || a.FinishRecovery?
  }

  lemma RecoveryStep(s: State, a: Action)
    requires Inv(s) && Enabled(s, a)
    requires IsRecovery(a) || a.Close? || a.Crash?
    ensures Inv(Step(s, a)) && Moves(s, Step(s, a), Meaning(s, a))
  {
    hide InvClosed, InvIdle, InvRecovering, Moves, Settled, Copied, Fresh, Resetting, Empty, CrashImage, Kept,
      InvActive, InvPublished, InvFolding, Stored, Logged, FramesSafe, FileHolds, CommittedHeader, CanExtend, CanAppend;
    match a
    case Close => CloseSimulates(s);
    case Crash(img) => CrashSimulates(s, img);
    case Open => OpenSimulates(s);
    case RecoverFrame => RecoverFrameSimulates(s);
    case SyncRecovery => SyncRecoverySimulates(s);
    case ResetRecovery => ResetRecoverySimulates(s);
    case SyncRecoveryReset => SyncRecoveryResetSimulates(s);
    case FinishRecovery => FinishRecoverySimulates(s);
  }

  /** Every step of the pager keeps the invariant and is the step of the transactional store that
      Meaning names. */
  lemma StepSimulates(s: State, a: Action)
    requires Inv(s) && Enabled(s, a)
    ensures Inv(Step(s, a)) && Moves(s, Step(s, a), Meaning(s, a))
  {
    hide Inv, Step, Enabled, Moves, Meaning;
    if a.Begin? || a.SetHeader? || a.Extend? || a.Load? || a.Touch? || a.Put? || a.Rollback? {
      TransactionStep(s, a);
    } else if a.Append? || a.SyncFrames? || a.Publish? || a.SyncCount? || a.Finish? {
      CommitStep(s, a);
    } else if a.StartFold? || a.Fold? || a.FoldResize? || a.SyncFold? || a.ResetCount? || a.SyncReset? {
      CheckpointStep(s, a);
    } else {
      RecoveryStep(s, a);
    }
  }
}
