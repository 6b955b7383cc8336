/** The pager as the source writes it: an object whose coroutines update the header, the page cache and
    `wal_index` in place and issue file operations. Every method is shown to perform a legal run of the
    pager machine, so the theorems on runs hold at every file operation inside every method. */
module PagerObject {
  import opened Storage
  import opened Replaying
  import opened PagerMachine
  import opened PagerInvariant
  import opened PagerRefinement
  import opened PagerRuns
  import opened PagerCreation

  /** A legal run from the creation of the database ends in `s`, and at each crash in it the header was on the
      disk. */
  ghost predicate Traced(acts: seq<Action>, s: State) {
    Reaches(Created(s.zero, s.interval), acts, s) && Careful(Created(s.zero, s.interval), acts)
  }

  lemma TracedIntact(acts: seq<Action>, s: State)
    requires Traced(acts, s)
    ensures Intact(s) && Inv(Meant(s))
  {
    hide Inv;
    CarefulRunIsIntact(s.zero, s.interval, acts);
    MeantInv(s);
  }

  lemma TraceStep(acts: seq<Action>, s: State, a: Action)
    requires Traced(acts, s) && Enabled(s, a) && (a.Crash? ==> !Unsaved(s))
    ensures Traced(acts + [a], Step(s, a))
    ensures Leads(s, Step(s, a), Meaning(s, a))
    ensures Step(s, a).mode.Idle? ==> MemoryView(Step(s, a)) == Promised(Step(s, a))
  {
    hide Inv, Intact, Step, Enabled, MemoryView, Promised, Leads, Unsaved, Careful, Run, Legal, Meaning;
    StepKeepsSettings(s, a);
    TracedIntact(acts, s);
    RunOneMore(Created(s.zero, s.interval), acts, a);
    CarefulOneMore(Created(s.zero, s.interval), acts, a);
    IntactStep(s, a);
    if Step(s, a).mode.Idle? {
      IdleShowsPromised(Step(s, a));
    }
  }

  lemma CarefulOneMore(s: State, acts: seq<Action>, a: Action)
    requires Careful(s, acts) && (a.Crash? ==> !Unsaved(Run(s, acts)))
    ensures Careful(s, acts + [a])
  {
    hide Unsaved, Run;
    forall i | 0 <= i < |acts + [a]| && (acts + [a])[i].Crash?
      ensures !Unsaved(Run(s, (acts + [a])[..i]))
    {
      assert (acts + [a])[..i] == acts[..i];
      assert i == |acts| ==> acts[..i] == acts;
    }
  }

  lemma IdleShowsPromised(s: State)
    requires Intact(s) && s.mode.Idle?
    ensures MemoryView(s) == Promised(s)
  {
    MeantInv(s);
    IdleShowsCommitted(Meant(s));
  }

  // What the three dispatching functions say about one action.

  lemma AppendAction(s: State, order: seq<nat>)
    ensures Step(s, Append(order)) == AfterAppend(s, order) && Meaning(s, Append(order)) == Nothing
    ensures Enabled(s, Append(order)) <==> CanAppend(s, order)
  {
  }

  lemma NothingAppended(s: State)
    ensures AppendedFrames(s, []) == s.log.frames && Indexed(s.index, [], s.logCount) == s.index
  {
  }

  lemma ExtendAction(s: State, h: Block)
    ensures Step(s, Extend(h)) == AfterExtend(s, h) && Meaning(s, Extend(h)) == Reheads(h, Uncovered(s, h))
    ensures Enabled(s, Extend(h)) <==> CanExtend(s, h)
    ensures var t := AfterExtend(s, h);
      && t.header == h && t.saved == s.saved && t.headerDirty && t.cache == s.cache && t.log == s.log
      && t.logCount == s.logCount && t.index == s.index && t.txCount == s.txCount && t.mode == s.mode
      && t.zero == s.zero && t.interval == s.interval && t.db.cur == Truncate(s.db.cur, PageCount(h))
  {
  }

  /** Only a commit, or a crash during one, changes what is committed. */
  lemma LeadsFrom(s: State, t: State, e: Event)
    requires Leads(s, t, e)
    ensures e.Nothing? ==> Shown(t) == Shown(s)
    ensures !e.Commits? && !e.Crashes? ==> Promised(t) == Promised(s)
  {
    hide Promised;
  }

  lemma CacheActions(s: State, i: nat)
    ensures Step(s, Load(i)) == AfterLoad(s, i) && Meaning(s, Load(i)) == Nothing
    ensures Enabled(s, Load(i)) <==> s.mode.Active? && 0 < i < PageCount(s.header) && i !in s.cache
    ensures Step(s, Touch(i)) == AfterTouch(s, i) && Meaning(s, Touch(i)) == Nothing
    ensures Enabled(s, Touch(i)) <==> s.mode.Active? && i in s.cache
  {
  }

  lemma CheckpointActions(s: State, i: nat)
    ensures Step(s, Fold(i)) == AfterFold(s, i) && Meaning(s, Fold(i)) == Nothing
    ensures Enabled(s, Fold(i)) <==> s.mode.Folding? && i in s.index
    ensures Step(s, FoldResize) == AfterFoldResize(s) && Meaning(s, FoldResize) == Nothing
    ensures Enabled(s, FoldResize) <==> s.mode.Folding? && s.mode.done == s.index.Keys
    ensures Step(s, SyncFold) == AfterSyncFold(s) && Meaning(s, SyncFold) == Nothing
    ensures Enabled(s, SyncFold) <==> s.mode.FoldResized?
  {
  }

  lemma CloseAction(s: State)
    ensures Step(s, Close) == AfterClose(s) && Meaning(s, Close) == Nothing && (Enabled(s, Close) <==> s.mode.Idle?)
    ensures var t := AfterClose(s);
      && t.header == t.saved == s.zero && !t.headerDirty && t.cache == map[] && t.logCount == 0 && t.index == map[]
      && t.txCount == 0 && t.mode == Closed && t.zero == s.zero && t.interval == s.interval
      && t.db == s.db && t.log == s.log
  {
  }

  lemma OpenAction(s: State)
    ensures Step(s, Open) == AfterOpen(s) && Meaning(s, Open) == Nothing && (Enabled(s, Open) <==> s.mode.Closed?)
  {
  }

  lemma ResetActions(s: State)
    ensures Step(s, ResetRecovery) == AfterResetRecovery(s) && Meaning(s, ResetRecovery) == Nothing
    ensures Enabled(s, ResetRecovery) <==> s.mode.RecoverySynced?
    ensures Step(s, SyncRecoveryReset) == AfterSyncRecoveryReset(s) && Meaning(s, SyncRecoveryReset) == Nothing
    ensures Enabled(s, SyncRecoveryReset) <==> s.mode.RecoveryReset?
  {
  }

  lemma FinishRecoveryAction(s: State)
    ensures Step(s, FinishRecovery) == AfterFinishRecovery(s) && Meaning(s, FinishRecovery) == Nothing
    ensures Enabled(s, FinishRecovery) <==> s.mode.RecoveryDone?
  {
  }

  /** Between these states no file was written and the log's index is as it was. */
  ghost predicate KeepsDisk(s: State, t: State) {
    t.db == s.db && t.log == s.log && t.index == s.index && t.saved == s.saved && t.txCount == s.txCount
  }

  ghost predicate KeepsIndex(s: State, t: State) {
    t.index == s.index && t.saved == s.saved && t.txCount == s.txCount
  }

  /** Below the cache every page reads as before. */
  ghost predicate ReadsAlike(s: State, t: State) {
    t.zero == s.zero && t.db.cur == s.db.cur && t.log.frames == s.log.frames && t.index == s.index
  }

  lemma IntactIndex(s: State)
    requires Intact(s) && s.mode.Active?
    ensures IndexExact(s)
  {
    MeantInv(s);
  }

  /** What an append does not log reads as before. */
  lemma UnloggedPages(s: State, order: seq<nat>)
    requires IndexExact(s) && NoRepeats(order)
    ensures forall x: nat :: x !in order ==> Base(AfterAppend(s, order), x) == Base(s, x)
  {
    forall x: nat | x !in order
      ensures Base(AfterAppend(s, order), x) == Base(s, x)
    {
      OtherUnit(s, order, x);
    }
  }

  lemma ReadsAlikeBase(s: State, t: State)
    ensures ReadsAlike(s, t) ==> forall x: nat :: Base(t, x) == Base(s, x)
  {
  }

  /** No unit lies in the file at or past `n`. */
  ghost predicate EndsAt(f: File, n: nat) {
    forall x: nat :: x in f ==> x < n
  }

  class Pager {
    /** A page of zero bytes. */
    const zero: Block
    /** Commits between checkpoints. */
    const interval: nat

    // the two files, as reads see them
    var file: File
    var frames: seq<Frame>
    var count: nat

    // memory
    var header: Block
    var savedHeader: Block
    var headerInWriteSet: bool
    var transactionActive: bool
    var pageCache: map<nat, Entry>
    var walFrameCount: nat
    var walIndex: map<nat, nat>
    var walTransactionCount: nat

    /** The machine's state, which adds to the fields what a crash would leave of the two files, and the
        run that led to it. */
    ghost var now: State
    ghost var acts: seq<Action>

    ghost predicate MemoryMatches()
      reads this
    {
      && header == now.header
      && savedHeader == now.saved
      && headerInWriteSet == now.headerDirty
      && pageCache == now.cache
      && walFrameCount == now.logCount
      && walIndex == now.index
      && walTransactionCount == now.txCount
    }

    ghost predicate FilesMatch()
      reads this
    {
      file == now.db.cur && frames == now.log.frames && count == now.log.count
    }

    /** The fields show the state that the recorded run leads to. */
    ghost predicate Tracks()
      reads this
    {
      && Traced(acts, now)
      && now.zero == zero && now.interval == interval
      && MemoryMatches() && FilesMatch()
    }

    /** The log is empty and every page past the database reads as zero: nothing is left of pages that once stood
        there. */
    ghost predicate Clean()
      reads this
    {
      && walIndex == map[] && walFrameCount == 0
      && forall x: nat :: |Seen()| <= x ==> Base(now, x) == zero
    }

    ghost predicate Valid()
      reads this
    {
      && Tracks()
      && (now.mode.Active? ==> transactionActive)
      && (now.mode.Idle? ==> !transactionActive)
    }

    ghost function Seen(): View
      reads this
    {
      MemoryView(now)
    }

    /** What a crash should leave: the last database committed, the created one being the first. */
    ghost function Committed(): View
      reads this
    {
      Promised(now)
    }

    /** Valid, and later in the same history. */
    twostate predicate Continues()
      reads this
    {
      Valid() && old(acts) <= acts
    }

    /** The machine takes a step; the fields follow. */
    ghost method Take(a: Action)
      requires Traced(acts, now) && Enabled(now, a) && !a.Crash?
      modifies this`now, this`acts
      ensures now == Step(old(now), a) && acts == old(acts) + [a]
      ensures Traced(acts, now)
      ensures Leads(old(now), now, Meaning(old(now), a))
      ensures Meaning(old(now), a).Nothing? ==> Shown(now) == Shown(old(now))
      ensures !Meaning(old(now), a).Commits? ==> Committed() == old(Committed())
      ensures now.mode.Idle? ==> Seen() == Committed()
    {
      hide Traced, Step, Enabled, MemoryView, Promised, Leads;
      TraceStep(acts, now, a);
      LeadsFrom(now, Step(now, a), Meaning(now, a));
      assert !Meaning(now, a).Crashes?;
      acts := acts + [a];
      now := Step(now, a);
    }

    lemma SeenWhenIdle()
      requires Valid() && now.mode.Idle?
      ensures Seen() == Committed() && now.exposed == {} && pageCache == map[]
    {
      TracedIntact(acts, now);
      IdleShowsPromised(now);
    }

    lemma ActiveHeader()
      requires Valid() && now.mode.Active?
      ensures 0 !in pageCache && 1 <= PageCount(header) == |Seen()| && header.Header?
    {
      TracedIntact(acts, now);
    }

    /** Whatever the object has done, a crash at any point of its history (inside any method) where the header is on
        the disk, followed by any recovery, itself interrupted any number of times, gives the last database whose
        commit count had reached the disk at that point. SurvivesExactlyWhenSaved says that no other point will do. */
    lemma CrashAnywhere(k: nat, img: Image, recovery: seq<Action>, t: State)
      requires Valid() && k <= |acts| && !Unsaved(Run(Created(zero, interval), acts[..k]))
      requires CrashImage(Run(Created(zero, interval), acts[..k]), img) && OnlyRecovery(recovery) && t.mode.Idle?
      requires Reaches(Step(Run(Created(zero, interval), acts[..k]), Crash(img)), recovery, t)
      ensures MemoryView(t) == Surviving(Run(Created(zero, interval), acts[..k]), img)
    {
      hide Inv, Run, Legal, Step, CrashImage, Careful, Unsaved;
      var s0 := Created(zero, interval);
      LegalPrefix(s0, acts, k);
      CarefulPrefix(s0, acts, k);
      CrashAtomicityFromCreation(zero, interval, acts[..k], Run(s0, acts[..k]), img, recovery, t);
    }

    lemma EndedIsClean()
      requires Tracks() && EndsAt(file, PageCount(header)) && walIndex == map[] && walFrameCount == 0
      ensures Clean()
    {
      hide Traced;
    }

    method BeginTransaction()
      requires Valid() && now.mode.Idle?
      modifies this
      ensures Continues() && now.mode.Active?
      ensures Seen() == old(Seen()) && Committed() == old(Committed()) && Seen() == Committed()
      ensures now == AfterBegin(old(now)) && now.exposed == {} && pageCache == map[]
    {
      hide Traced, MemoryView, Promised;
      SeenWhenIdle();
      savedHeader := header;
      transactionActive := true;
      Take(Begin);
    }

    method RollbackTransaction()
      requires Valid() && now.mode.Active?
      modifies this
      ensures Continues() && now.mode.Idle?
      ensures Seen() == Committed() == old(Committed())
    {
      hide Traced, MemoryView, Promised;
      header := savedHeader;
      headerInWriteSet := false;
      pageCache := map[];
      transactionActive := false;
      Take(Rollback);
      assert MemoryMatches();
    }

    method ReadFrame(k: nat) returns (data: Block)
      ensures data == FrameAt(frames, k).block
    {
      data := FrameAt(frames, k).block;
    }

    /** What a cache miss loads: the latest frame of the page, else the file. */
    method LoadPage(idx: nat) returns (data: Block)
      requires Valid()
      ensures data == Base(now, idx)
    {
      if idx in walIndex {
        data := ReadFrame(walIndex[idx]);
      } else {
        data := Get(file, zero, idx);
      }
    }

    /** A page that is not cached is loaded into the cache. */
    method CachePage(idx: nat)
      requires Valid() && now.mode.Active? && 0 < idx < PageCount(header)
      modifies this
      ensures Continues() && now.mode.Active? && header == old(header) && idx in pageCache
      ensures Seen() == old(Seen()) && Committed() == old(Committed()) && KeepsDisk(old(now), now)
      ensures now.exposed == old(now.exposed)
      ensures forall x: nat :: Lookup(now, x) == old(Lookup(now, x))
    {
      hide Traced, Promised, Shown, Step, Enabled, Meaning, Leads, Apply, Possible;
      CacheActions(now, idx);
      if idx !in pageCache {
        var data := LoadPage(idx);
        pageCache := pageCache[idx := Entry(data, false)];
        Take(Load(idx));
      }
    }

    method RPage(idx: nat) returns (data: Block)
      requires Valid() && now.mode.Active? && 0 < idx < PageCount(header)
      modifies this
      ensures Continues() && now.mode.Active? && header == old(header) && now.exposed == old(now.exposed)
      ensures Seen() == old(Seen()) && data == Seen()[idx] && Committed() == old(Committed())
      ensures KeepsDisk(old(now), now)
    {
      hide Traced, Promised;
      CachePage(idx);
      data := pageCache[idx].data;
    }

    method RWPage(idx: nat) returns (data: Block)
      requires Valid() && now.mode.Active? && 0 < idx < PageCount(header)
      modifies this
      ensures Continues() && now.mode.Active? && header == old(header)
      ensures Seen() == old(Seen()) && data == Seen()[idx] && Committed() == old(Committed())
      ensures IsDirty(now, idx) && now.exposed == old(now.exposed) - {idx} && KeepsDisk(old(now), now)
      ensures forall x: nat :: Lookup(now, x) == old(Lookup(now, x))
    {
      hide Traced, Promised, Shown, Step, Enabled, Meaning, Leads, Apply, Possible;
      CachePage(idx);
      CacheActions(now, idx);
      pageCache := pageCache[idx := pageCache[idx].(dirty := true)];
      data := pageCache[idx].data;
      Take(Touch(idx));
    }

    /** A store through the pointer that rwpage handed out. */
    method StorePage(idx: nat, data: Block)
      requires Valid() && now.mode.Active? && 0 < idx < PageCount(header) && IsDirty(now, idx)
      modifies this
      ensures Continues() && now.mode.Active? && header == old(header)
      ensures Seen() == old(Seen())[idx := data] && Committed() == old(Committed())
      ensures forall x: nat :: x != idx ==> Lookup(now, x) == old(Lookup(now, x))
      ensures now.exposed == old(now.exposed) - {idx} && KeepsDisk(old(now), now)
    {
      hide Traced, Promised;
      pageCache := pageCache[idx := Entry(data, true)];
      Take(Put(idx, data));
    }

    method EnsurePageZeroed(idx: nat)
      requires Valid() && now.mode.Active? && 0 < idx < PageCount(header)
      modifies this
      ensures Continues() && now.mode.Active? && header == old(header)
      ensures Seen() == old(Seen())[idx := zero] && Committed() == old(Committed())
      ensures forall x: nat :: x != idx ==> Lookup(now, x) == old(Lookup(now, x))
      ensures now.exposed == old(now.exposed) - {idx} && KeepsDisk(old(now), now)
    {
      hide Traced, Promised;
      if idx in pageCache {
        pageCache := pageCache[idx := Entry(zero, true)];
      } else {
        pageCache := pageCache[idx := Entry(zero, true)];
      }
      Take(Put(idx, zero));
    }

    /** A header change that does not raise the page count: set_root, and the end of a trim. */
    method SetHeader(h: Block)
      requires Valid() && now.mode.Active? && 1 <= PageCount(h) <= PageCount(header)
      modifies this
      ensures Continues() && now.mode.Active? && header == h
      ensures Seen() == [h] + old(Seen())[1..PageCount(h)] && Committed() == old(Committed())
      ensures now.exposed <= old(now.exposed) && KeepsDisk(old(now), now)
    {
      hide Traced, Promised;
      header := h;
      headerInWriteSet := true;
      Take(PagerMachine.SetHeader(h));
      assert ([h] + (old(Seen()) + [])[1..])[..PageCount(h)] == [h] + old(Seen())[1..PageCount(h)];
    }

    /** Raises the page count and resizes the file to it. */
    method GrowTo(n: nat)
      requires Valid() && header.Header? && CanExtend(now, header.(pageCount := n))
      modifies this
      ensures Continues() && header == old(header).(pageCount := n)
      ensures now == AfterExtend(old(now), header) && Committed() == old(Committed())
    {
      ExtendAction(now, header.(pageCount := n));
      hide Traced, Promised, MemoryView, Uncovered, CanExtend, AfterExtend, Truncate, Shown, Step,
        Enabled, Meaning, Leads, Apply, Possible;
      RaiseCount(n);
      Take(Extend(header));
      assert MemoryMatches() && FilesMatch();
      assert Tracks();
    }

    method RaiseCount(n: nat)
      requires header.Header?
      modifies `header, `headerInWriteSet, `file
      ensures header == old(header).(pageCount := n) && headerInWriteSet && file == Truncate(old(file), n)
    {
      header := header.(pageCount := n);
      headerInWriteSet := true;
      file := Truncate(file, n);
    }

    // ---- commit ----

    /** The units to log: every dirty cached page below the page count, then the header if it changed. */
    method GatherWriteSet() returns (order: seq<nat>)
      requires Valid() && now.mode.Active?
      ensures forall x: nat :: x in order <==> InWriteSet(now, x)
      ensures forall i, j :: 0 <= i < j < |order| ==> order[i] != order[j]
    {
      ActiveHeader();
      hide Traced;
      order := [];
      var todo := pageCache.Keys;
      while todo != {}
        invariant todo <= pageCache.Keys
        invariant forall x: nat :: x in order <==> x in pageCache.Keys - todo && InWriteSet(now, x)
        invariant forall i, j :: 0 <= i < j < |order| ==> order[i] != order[j]
      {
        var x :| x in todo;
        assert InWriteSet(now, x) <==> pageCache[x].dirty && x < PageCount(header);
        if pageCache[x].dirty && x < PageCount(header) {
          order := order + [x];
        }
        todo := todo - {x};
      }
      assert 0 !in order;
      assert forall x: nat :: 0 < x && InWriteSet(now, x) ==> x in pageCache;
      if headerInWriteSet {
        order := order + [0];
      }
    }

    /** The frame buffer of `wal::append_frames`. */
    method FillBuffer(order: seq<nat>) returns (buffer: seq<Frame>)
      requires MemoryMatches() && CanAppend(now, order)
      ensures |buffer| == |order|
      ensures forall i :: 0 <= i < |order| ==> buffer[i] == Frame(order[i], LoggedBlock(now, order[i]))
    {
      buffer := [];
      for k := 0 to |order|
        invariant |buffer| == k
        invariant forall i :: 0 <= i < k ==> buffer[i] == Frame(order[i], LoggedBlock(now, order[i]))
      {
        var x := order[k];
        assert InWriteSet(now, x);
        buffer := buffer + [Frame(x, if x == 0 then header else pageCache[x].data)];
      }
    }

    /** The entries the commit inserts into `wal_index`, in order. */
    method RegisterFrames(order: seq<nat>, base: nat) returns (updated: map<nat, nat>)
      ensures updated == Indexed(walIndex, order, base)
    {
      updated := walIndex;
      for k := 0 to |order|
        invariant updated == Indexed(walIndex, order[..k], base)
      {
        updated := updated[order[k] := base + k];
        assert order[..k + 1][..k] == order[..k];
      }
      assert order[..|order|] == order;
    }

    /** Cuts or extends the log to the stored frames and writes the buffer after them. */
    method WriteFrames(order: seq<nat>, buffer: seq<Frame>) returns (content: seq<Frame>)
      requires MemoryMatches() && FilesMatch() && order != [] && |buffer| == |order|
      requires forall i :: 0 <= i < |order| ==> buffer[i] == Frame(order[i], LoggedBlock(now, order[i]))
      ensures content == AppendedFrames(now, order)
    {
      var before := frames;
      content := seq(walFrameCount, k requires 0 <= k => FrameAt(before, k)) + buffer;
      assert |content| == |AppendedFrames(now, order)|;
      assert forall k :: 0 <= k < |content| ==> content[k] == AppendedFrames(now, order)[k];
    }

    method LogFrames(order: seq<nat>)
      requires MemoryMatches() && FilesMatch() && CanAppend(now, order)
      modifies `frames, `walIndex, `walFrameCount
      ensures frames == AppendedFrames(now, order) && walFrameCount == old(walFrameCount) + |order|
      ensures walIndex == Indexed(old(walIndex), order, old(walFrameCount))
    {
      hide LoggedBlock, CanAppend, AppendedFrames, Indexed;
      if order != [] {
        var buffer := FillBuffer(order);
        frames := WriteFrames(order, buffer);
        walIndex := RegisterFrames(order, walFrameCount);
        walFrameCount := walFrameCount + |order|;
      } else {
        NothingAppended(now);
      }
    }

    method AppendFrames(order: seq<nat>)
      requires Valid() && CanAppend(now, order)
      modifies this
      ensures Tracks() && acts == old(acts) + [Append(order)]
      ensures now == AfterAppend(old(now), order) && Shown(now) == Shown(old(now))
    {
      AppendAction(now, order);
      hide Traced, Promised, MemoryView, LoggedBlock, CanAppend, AppendedFrames, Indexed, Shown, Step, Enabled,
        Meaning, Leads, Apply, Possible;
      LogFrames(order);
      headerInWriteSet := false;
      Take(Append(order));
    }

    /** What the transaction saw becomes the committed database. With nothing in the log and nothing to write no
        file changes. Else, if this is the commit that a checkpoint is due with, the log is empty afterwards; if not,
        what was not written reads as before below the cache. */
    method CommitTransaction()
      requires Valid() && now.mode.Active? && now.exposed == {}
      modifies this
      ensures Continues() && now.mode.Idle?
      ensures Committed() == old(Seen()) && Seen() == Committed()
      ensures if old(walFrameCount == 0 && forall x: nat :: !InWriteSet(now, x))
                then
                  && walTransactionCount == old(walTransactionCount)
                  && forall x: nat :: Base(now, x) == Base(old(now), x)
              else if old(walTransactionCount) + 1 >= interval then Clean() && walTransactionCount == 0
              else
                && walTransactionCount == old(walTransactionCount) + 1
                && forall x: nat :: !InWriteSet(old(now), x) ==> Base(now, x) == Base(old(now), x)
    {
      hide Traced, Promised, MemoryView, InWriteSet, IndexExact, Base, Clean;
      var order := GatherWriteSet();
      IndexOfTrace();
      UnloggedPages(now, order);
      NothingAppended(now);
      assert order != [] ==> InWriteSet(now, order[0]);
      ghost var s := AfterAppend(now, order);
      AppendFrames(order);
      assert now == s && s.txCount == old(now.txCount);
      StoreCommit();
      ReadsAlikeBase(s, now);
    }

    lemma IndexOfTrace()
      requires Valid() && now.mode.Active?
      ensures IndexExact(now)
    {
      TracedIntact(acts, now);
      IntactIndex(now);
    }

    /** `wal::commit`, the checkpoint it may trigger and the end of the transaction. */
    method StoreCommit()
      requires Tracks() && now.mode.Appended?
      modifies this
      ensures Continues() && now.mode.Idle?
      ensures Committed() == old(Seen()) && Seen() == Committed()
      ensures if old(walFrameCount) == 0
                then ReadsAlike(old(now), now) && walTransactionCount == old(walTransactionCount)
              else if old(walTransactionCount) + 1 >= interval then Clean() && walTransactionCount == 0
              else ReadsAlike(old(now), now) && walTransactionCount == old(walTransactionCount) + 1
    {
      hide Traced, Promised, MemoryView, EndsAt, Clean;
      if walFrameCount > 0 {
        PublishFrames();
        if walTransactionCount >= interval {
          FoldLog();
          FinishTransaction();
          EndedIsClean();
          return;
        }
      }
      FinishTransaction();
    }

    method FinishTransaction()
      requires Tracks() && CanFinish(now)
      modifies this
      ensures Continues() && now.mode.Idle? && Seen() == Committed() && now.db == old(now.db)
      ensures ReadsAlike(old(now), now) && walTransactionCount == old(walTransactionCount)
      ensures walIndex == old(walIndex) && walFrameCount == old(walFrameCount)
      ensures file == old(file) && header == old(header)
      ensures Committed() == if old(now.mode.Appended?) then old(Seen()) else old(Committed())
    {
      hide Traced, Promised, MemoryView;
      pageCache := map[];
      transactionActive := false;
      Take(Finish);
    }

    /** Sync the frames, write the frame count, sync it. */
    method PublishFrames()
      requires Tracks() && now.mode.Appended? && walFrameCount > 0
      modifies this
      ensures Tracks() && old(acts) <= acts && now.mode.Durable?
      ensures ReadsAlike(old(now), now) && walTransactionCount == old(walTransactionCount) + 1
      ensures Committed() == old(Seen())
    {
      hide Traced, Promised, MemoryView;
      WriteFrameCount();
      walTransactionCount := walTransactionCount + 1;
      Take(SyncCount);
    }

    /** With the frames synced, the new frame count is written. */
    method WriteFrameCount()
      requires Tracks() && now.mode.Appended? && walFrameCount > 0
      modifies this
      ensures Tracks() && old(acts) <= acts && now.mode.Published?
      ensures ReadsAlike(old(now), now) && walTransactionCount == old(walTransactionCount)
      ensures Committed() == old(Committed()) && Seen() == old(Seen())
    {
      hide Traced, Promised;
      Take(SyncFrames);
      count := walFrameCount;
      Take(PagerMachine.Publish);
    }

    /** The body of a checkpoint: write every unit that has a frame to the file, from the cache if it is
        there, else from its latest frame; resize and sync the file; only then forget the log. */
    method FoldLog()
      requires Tracks() && (now.mode.Idle? || (now.mode.Durable? && now.txCount >= now.interval))
      modifies this
      ensures Tracks() && old(acts) <= acts && now.mode.Folded?
      ensures now.db.touched == iset{}
      ensures Committed() == old(Committed())
      ensures walIndex == map[] && walFrameCount == 0 && walTransactionCount == 0 && EndsAt(file, PageCount(header))
    {
      hide Traced, Promised, MemoryView, EndsAt;
      Take(StartFold);
      FoldUnits();
      SyncFoldedFile();
      ResetLog();
    }

    method SyncFoldedFile()
      requires Tracks() && now.mode == Folding(now.index.Keys)
      modifies this
      ensures Tracks() && old(acts) <= acts && now.mode.FoldSynced?
      ensures now.db.touched == iset{} && EndsAt(file, PageCount(header))
      ensures Committed() == old(Committed())
    {
      hide Traced, Promised, MemoryView, Shown, Step, Enabled, Meaning, Leads, Apply, Possible;
      CheckpointActions(now, 0);
      file := Truncate(file, PageCount(header));
      Take(FoldResize);
      CheckpointActions(now, 0);
      Take(SyncFold);
    }

    method ResetLog()
      requires Tracks() && now.mode.FoldSynced?
      modifies this
      ensures Tracks() && old(acts) <= acts && now.mode.Folded?
      ensures now.db == old(now.db) && file == old(file) && header == old(header)
      ensures Committed() == old(Committed())
      ensures walIndex == map[] && walFrameCount == 0 && walTransactionCount == 0
    {
      hide Traced, Promised, MemoryView;
      WriteZeroCount();
      walIndex := map[];
      walTransactionCount := 0;
      Take(SyncReset);
    }

    method WriteZeroCount()
      requires Tracks() && now.mode.FoldSynced?
      modifies this
      ensures Tracks() && old(acts) <= acts && now.mode.FoldReset? && walFrameCount == 0
      ensures now.db == old(now.db) && file == old(file) && header == old(header)
      ensures Committed() == old(Committed())
    {
      hide Traced, Promised, MemoryView;
      walFrameCount := 0;
      count := 0;
      Take(ResetCount);
    }

    method FoldUnits()
      requires Tracks() && now.mode == Folding({})
      modifies this
      ensures Tracks() && old(acts) <= acts && now.mode == Folding(now.index.Keys)
      ensures Committed() == old(Committed())
    {
      hide Traced, Promised, MemoryView;
      var todo := walIndex.Keys;
      while todo != {}
        invariant Tracks() && old(acts) <= acts
        invariant todo <= walIndex.Keys && walIndex == old(walIndex) && now.mode == Folding(walIndex.Keys - todo)
        invariant Committed() == old(Committed())
      {
        var x :| x in todo;
        FoldUnit(x);
        assert walIndex.Keys - (todo - {x}) == (walIndex.Keys - todo) + {x};
        todo := todo - {x};
      }
      assert walIndex.Keys - todo == walIndex.Keys;
    }

    method FoldUnit(x: nat)
      requires Tracks() && now.mode.Folding? && x in walIndex
      modifies this
      ensures Tracks() && old(acts) <= acts && walIndex == old(walIndex)
      ensures now.mode == Folding(old(now.mode).done + {x}) && Committed() == old(Committed())
    {
      hide Traced, Promised, MemoryView, Shown, Step, Enabled, Meaning, Leads, Apply, Possible;
      CheckpointActions(now, x);
      var data: Block;
      if x == 0 {
        data := header;
      } else if x in pageCache {
        data := pageCache[x].data;
      } else {
        data := ReadFrame(walIndex[x]);
      }
      file := file[x := data];
      Take(Fold(x));
    }

    /** A checkpoint between transactions leaves the database as it is, the log empty and nothing past the page
        count. */
    method Checkpoint()
      requires Valid() && now.mode.Idle?
      modifies this
      ensures Continues() && now.mode.Idle?
      ensures now.db.touched == iset{}
      ensures Committed() == old(Committed()) && Seen() == old(Seen())
      ensures Clean() && walTransactionCount == 0
    {
      hide Traced, Promised, MemoryView, EndsAt, Clean;
      SeenWhenIdle();
      FoldLog();
      FinishTransaction();
      EndedIsClean();
    }

    /** Opening: read the header, replay the log into the file, sync, drop the log, read the header again
        and cut the file at its page count. With nothing to replay the files stay as they are. */
    method Recover()
      requires Valid() && now.mode.Closed?
      modifies this
      ensures Continues() && now.mode.Idle?
      ensures Seen() == Committed() == old(Committed())
      ensures if old(count) > 0 then Clean() else file == old(file) && frames == old(frames)
    {
      hide Traced, Promised, MemoryView, Shown, Step, Enabled, Meaning, Leads, Apply, Possible, EndsAt, Clean;
      OpenFiles();
      if walFrameCount > 0 {
        ReplayFrames();
        SyncReplayedFile();
        DropReplayedFrames();
        LoadRecoveredHeader();
        EndedIsClean();
      }
    }

    method OpenFiles()
      requires Valid() && now.mode.Closed?
      modifies this
      ensures Tracks() && old(acts) <= acts && !transactionActive
      ensures file == old(file) && frames == old(frames) && walFrameCount == old(count)
      ensures now.mode == if walFrameCount == 0 then Idle else Recovering(0)
      ensures Committed() == old(Committed()) && (now.mode.Idle? ==> Seen() == Committed())
    {
      hide Traced, Promised, MemoryView, Shown, Step, Enabled, Meaning, Leads, Apply, Possible;
      OpenAction(now);
      LoadHeaders();
      Take(Open);
    }

    /** The header of the file, and the frame count of the log. */
    method LoadHeaders()
      modifies `header, `walFrameCount, `transactionActive
      ensures header == Get(file, zero, 0) && walFrameCount == count && !transactionActive
    {
      header := Get(file, zero, 0);
      walFrameCount := count;
      transactionActive := false;
    }

    method SyncReplayedFile()
      requires Tracks() && now.mode == Recovering(now.logCount)
      modifies this
      ensures Tracks() && old(acts) <= acts && now.mode.RecoverySynced?
      ensures Committed() == old(Committed())
    {
      hide Traced, Promised, MemoryView;
      Take(SyncRecovery);
    }

    method DropReplayedFrames()
      requires Tracks() && now.mode.RecoverySynced?
      modifies this
      ensures Tracks() && old(acts) <= acts && now.mode.RecoveryDone? && walFrameCount == 0
      ensures Committed() == old(Committed())
    {
      hide Traced, Promised, MemoryView, Shown, Step, Enabled, Meaning, Leads, Apply, Possible;
      ResetActions(now);
      walFrameCount := 0;
      count := 0;
      Take(ResetRecovery);
      ResetActions(now);
      Take(SyncRecoveryReset);
    }

    method LoadRecoveredHeader()
      requires Tracks() && now.mode.RecoveryDone?
      modifies this
      ensures Continues() && now.mode.Idle?
      ensures Seen() == Committed() == old(Committed())
      ensures EndsAt(file, PageCount(header)) && walIndex == map[] && walFrameCount == old(walFrameCount)
    {
      hide Traced, Promised, MemoryView, Shown, Step, Enabled, Meaning, Leads, Apply, Possible;
      FinishRecoveryAction(now);
      NoIndexYet();
      header := Get(file, zero, 0);
      file := Truncate(file, PageCount(header));
      transactionActive := false;
      Take(FinishRecovery);
    }

    lemma NoIndexYet()
      requires Tracks() && now.mode.RecoveryDone?
      ensures walIndex == map[]
    {
      TracedIntact(acts, now);
    }

    method ReplayFrames()
      requires Tracks() && now.mode == Recovering(0)
      modifies this
      ensures Tracks() && old(acts) <= acts && now.mode == Recovering(now.logCount)
      ensures Committed() == old(Committed())
    {
      hide Traced, Promised, MemoryView;
      var i := 0;
      while i < walFrameCount
        invariant Tracks() && old(acts) <= acts
        invariant i <= walFrameCount && now.mode == Recovering(i)
        invariant Committed() == old(Committed())
      {
        var frame := FrameAt(frames, i);
        file := file[frame.slot := frame.block];
        Take(RecoverFrame);
        i := i + 1;
      }
    }

    /** `destroy`: an open transaction is rolled back; the two files stay as they are. */
    method Destroy()
      requires Valid() && (now.mode.Active? || now.mode.Idle?)
      modifies this
      ensures Continues() && now.mode.Closed?
      ensures Committed() == old(Committed())
    {
      hide Traced, MemoryView, Promised;
      if transactionActive { RollbackTransaction(); }
      Forget();
    }

    /** What was in memory is gone. */
    method Forget()
      requires Valid() && now.mode.Idle?
      modifies this
      ensures Continues() && now.mode.Closed?
      ensures Committed() == old(Committed())
    {
      hide Traced, MemoryView, Promised, Shown, AfterClose, Step, Enabled, Meaning, Leads, Apply, Possible;
      CloseAction(now);
      ClearMemory();
      Take(Close);
      assert MemoryMatches() && FilesMatch();
      assert Tracks();
    }

    method ClearMemory()
      modifies `header, `savedHeader, `headerInWriteSet, `transactionActive, `pageCache, `walFrameCount, `walIndex,
        `walTransactionCount
      ensures header == savedHeader == zero && !headerInWriteSet && !transactionActive && pageCache == map[]
      ensures walFrameCount == 0 && walIndex == map[] && walTransactionCount == 0
    {
      header, savedHeader, headerInWriteSet := zero, zero, false;
      transactionActive, pageCache := false, map[];
      walFrameCount, walIndex, walTransactionCount := 0, map[], 0;
    }

    /** `create` and `init`. */
    constructor (zero: Block, interval: nat)
      ensures this.zero == zero && this.interval == interval
      ensures Valid() && now.mode.Idle? && now == Created(zero, interval) && acts == []
      ensures Seen() == Committed() == [FIRST_HEADER]
    {
      this.zero, this.interval := zero, interval;
      file, frames, count := map[0 := FIRST_HEADER], [], 0;
      header, savedHeader, headerInWriteSet := FIRST_HEADER, zero, false;
      transactionActive, pageCache := false, map[];
      walFrameCount, walIndex, walTransactionCount := 0, map[], 0;
      now, acts := Created(zero, interval), [];
      new;
      CreatedShows(zero, interval);
    }

    /** A new process over the two files that a crash left; `Recover` opens them. */
    constructor AfterCrash(zero: Block, interval: nat, file: File, frames: seq<Frame>, count: nat,
                           ghost run: seq<Action>, ghost was: State)
      requires Traced(run, was) && was.zero == zero && was.interval == interval && !Unsaved(was)
      requires CrashImage(was, Image(file, frames, count))
      ensures this.zero == zero && this.interval == interval
      ensures Valid() && now.mode.Closed? && acts == run + [Crash(Image(file, frames, count))]
      ensures Committed() == Surviving(was, Image(file, frames, count))
    {
      this.zero, this.interval := zero, interval;
      this.file, this.frames, this.count := file, frames, count;
      header, savedHeader, headerInWriteSet := zero, zero, false;
      transactionActive, pageCache := false, map[];
      walFrameCount, walIndex, walTransactionCount := 0, map[], 0;
      now, acts := PagerMachine.AfterCrash(was, Image(file, frames, count)), run + [Crash(Image(file, frames, count))];
      new;
      CrashIsTraced(run, was, Image(file, frames, count));
    }
  }

  lemma CrashAction(s: State, img: Image)
    ensures Step(s, Crash(img)) == PagerMachine.AfterCrash(s, img) && Meaning(s, Crash(img)) == Crashes(Kept(s, img))
    ensures Enabled(s, Crash(img)) <==> CrashImage(s, img)
  {
  }

  lemma CrashIsTraced(run: seq<Action>, was: State, img: Image)
    requires Traced(run, was) && !Unsaved(was) && CrashImage(was, img)
    ensures Traced(run + [Crash(img)], PagerMachine.AfterCrash(was, img))
    ensures Promised(PagerMachine.AfterCrash(was, img)) == Surviving(was, img)
  {
    CrashAction(was, img);
    hide Traced, Step, Enabled, Meaning, MemoryView, CommittedView;
    TraceStep(run, was, Crash(img));
  }
}
