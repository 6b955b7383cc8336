/** Whole runs of the pager: any sequence of transactions, checkpoints, closings, crashes and recoveries. */
module PagerRuns {
  import opened Storage
  import opened Replaying
  import opened PagerMachine
  import opened PagerInvariant
  import opened PagerRefinement

  lemma {:induction false} RunKeepsInv(s: State, acts: seq<Action>)
    requires Inv(s) && Legal(s, acts)
    ensures Inv(Run(s, acts))
  {
    if acts != [] {
      var init := acts[..|acts| - 1];
      RunKeepsInv(s, init);
      StepSimulates(Run(s, init), acts[|acts| - 1]);
    }
  }

  lemma {:induction false} LegalPrefix(s: State, acts: seq<Action>, k: nat)
    requires Legal(s, acts) && k <= |acts|
    ensures Legal(s, acts[..k])
  {
    if k < |acts| {
      LegalPrefix(s, acts[..|acts| - 1], k);
      assert acts[..|acts| - 1][..k] == acts[..k];
    } else {
      assert acts[..k] == acts;
    }
  }

  /** The transactional store after a sequence of events; None if one of them is not possible. */
  ghost function After(st: Store, events: seq<Event>): Option<Store> {
    if events == [] then Some(st)
    else
      var e := events[|events| - 1];
      match After(st, events[..|events| - 1])
      case None => None
      case Some(mid) => if Possible(mid, e) then Some(Apply(mid, e)) else None
  }

  ghost function Events(s: State, acts: seq<Action>): seq<Event> {
    if acts == [] then []
    else Events(s, acts[..|acts| - 1]) + [Meaning(Run(s, acts[..|acts| - 1]), acts[|acts| - 1])]
  }

  /** Refinement over whole runs: the transactional store, fed the run's events, ends up holding exactly
      what the pager's files and memory then show. */
  lemma {:induction false} RunRefines(s: State, acts: seq<Action>)
    requires Inv(s) && Legal(s, acts)
    ensures After(Abstract(s), Events(s, acts)) == Some(Abstract(Run(s, acts)))
  {
    hide Step, Enabled, Inv, Apply, Possible, Meaning, Abstract;
    if acts != [] {
      var init := acts[..|acts| - 1];
      RunRefines(s, init);
      RunKeepsInv(s, init);
      StepSimulates(Run(s, init), acts[|acts| - 1]);
      var events := Events(s, acts);
      assert events[..|events| - 1] == Events(s, init);
    }
  }

  // ---- checkpoints ----

  /** Outside a checkpoint, fewer commits are in the log than a checkpoint is due after; or none. */
  ghost predicate InTime(s: State) {
    || s.mode.Durable? || s.mode.Folding? || s.mode.FoldResized? || s.mode.FoldSynced? || s.mode.FoldReset?
    || s.txCount < s.interval || s.txCount == 0
  }

  lemma InTimeStep(s: State, a: Action)
    requires InTime(s) && Enabled(s, a)
    ensures InTime(Step(s, a))
  {
  }

  /** No run ends a transaction with a checkpoint overdue. */
  lemma {:induction false} CheckpointsInTime(s: State, acts: seq<Action>)
    requires InTime(s) && Legal(s, acts)
    ensures InTime(Run(s, acts))
    ensures Run(s, acts).mode.Idle? ==> Run(s, acts).txCount < Run(s, acts).interval || Run(s, acts).txCount == 0
  {
    hide Step, Enabled;
    if acts != [] {
      CheckpointsInTime(s, acts[..|acts| - 1]);
      InTimeStep(Run(s, acts[..|acts| - 1]), acts[|acts| - 1]);
    }
  }

  // ---- crash atomicity ----

  /** What must be found after a crash: the last commit whose count reached the disk. */
  ghost function Surviving(s: State, img: Image): View {
    if Kept(s, img) then MemoryView(s) else CommittedView(s)
  }

  ghost predicate OnlyRecovery(acts: seq<Action>) {
    forall i :: 0 <= i < |acts| ==> IsRecovery(acts[i]) || acts[i].Crash?
  }

  ghost predicate RecoveryMode(m: Mode) {
    m.Closed? || m.Recovering? || m.RecoverySynced? || m.RecoveryReset? || m.RecoveryDone? || m.Idle?
  }

  lemma RecoveryStepKeepsView(s: State, a: Action)
    requires Inv(s) && RecoveryMode(s.mode) && Enabled(s, a) && (IsRecovery(a) || a.Crash?)
    ensures Inv(Step(s, a)) && CommittedView(Step(s, a)) == CommittedView(s)
  {
    hide Step, Inv, CommittedView, MemoryView;
    StepSimulates(s, a);
  }

  lemma RecoveryStepMode(s: State, a: Action)
    requires RecoveryMode(s.mode) && Enabled(s, a) && (IsRecovery(a) || a.Crash?)
    ensures RecoveryMode(Step(s, a).mode)
  {
  }

  /** Recovery steps and further crashes, in any number and order, keep the committed database. */
  lemma {:induction false} RecoveryKeepsView(s: State, acts: seq<Action>)
    requires Inv(s) && RecoveryMode(s.mode) && Legal(s, acts) && OnlyRecovery(acts)
    ensures Inv(Run(s, acts)) && RecoveryMode(Run(s, acts).mode)
    ensures CommittedView(Run(s, acts)) == CommittedView(s)
    decreases |acts|
  {
    hide Step, Inv, Enabled, CommittedView;
    if acts != [] {
      var init, a := acts[..|acts| - 1], acts[|acts| - 1];
      RecoveryKeepsView(s, init);
      RecoveryStepMode(Run(s, init), a);
      RecoveryStepKeepsView(Run(s, init), a);
    }
  }

  /** Between transactions memory shows the committed database. */
  lemma IdleShowsCommitted(s: State)
    requires Inv(s) && s.mode.Idle?
    ensures MemoryView(s) == CommittedView(s)
  {
    IdleView(s);
  }

  ghost predicate Reaches(s: State, acts: seq<Action>, t: State) {
    Legal(s, acts) && Run(s, acts) == t
  }

  /** Crash anywhere in any run, then recover, being interrupted by any number of further crashes:
      once the pager is open again, its header and pages are exactly those of the last transaction
      whose frame count reached the disk. */
  lemma CrashAtomicity(s0: State, acts: seq<Action>, s: State, img: Image, recovery: seq<Action>, t: State)
    requires Inv(s0) && Reaches(s0, acts, s)
    requires CrashImage(s, img) && OnlyRecovery(recovery) && Reaches(Step(s, Crash(img)), recovery, t) && t.mode.Idle?
    ensures MemoryView(t) == Surviving(s, img)
  {
    hide Inv, Run, Legal, MemoryView, CommittedView;
    RunKeepsInv(s0, acts);
    StepSimulates(s, Crash(img));
    RecoveryKeepsView(Step(s, Crash(img)), recovery);
    IdleShowsCommitted(t);
  }

  lemma RunOneMore(s: State, acts: seq<Action>, a: Action)
    requires Legal(s, acts) && Enabled(Run(s, acts), a)
    ensures Legal(s, acts + [a]) && Run(s, acts + [a]) == Step(Run(s, acts), a)
  {
    assert (acts + [a])[..|acts|] == acts;
  }

  /** The frames from the next one on. */
  lemma {:induction false} ReplayCompletes(s: State, acts: seq<Action>) returns (more: seq<Action>)
    requires Legal(s, acts) && OnlyRecovery(acts)
    requires Run(s, acts).mode.Recovering? && Run(s, acts).mode.next <= Run(s, acts).logCount
    ensures Legal(s, more) && OnlyRecovery(more) && Run(s, more).mode == Recovering(Run(s, more).logCount)
    decreases Run(s, acts).logCount - Run(s, acts).mode.next
  {
    hide Run, Legal;
    if Run(s, acts).mode.next == Run(s, acts).logCount {
      more := acts;
    } else {
      RunOneMore(s, acts, RecoverFrame);
      more := ReplayCompletes(s, acts + [RecoverFrame]);
    }
  }

  /** What follows the last frame, step by step. */
  lemma ResetSequence(s: State)
    ensures s.mode == Recovering(s.logCount) ==> Enabled(s, SyncRecovery) && Step(s, SyncRecovery).mode.RecoverySynced?
    ensures s.mode.RecoverySynced? ==> Enabled(s, ResetRecovery) && Step(s, ResetRecovery).mode.RecoveryReset?
    ensures s.mode.RecoveryReset? ==> Enabled(s, SyncRecoveryReset) && Step(s, SyncRecoveryReset).mode.RecoveryDone?
    ensures s.mode.RecoveryDone? ==> Enabled(s, FinishRecovery) && Step(s, FinishRecovery).mode.Idle?
  {
  }

  lemma ResetCompletes(s: State, acts: seq<Action>) returns (more: seq<Action>)
    requires Legal(s, acts) && OnlyRecovery(acts) && Run(s, acts).mode == Recovering(Run(s, acts).logCount)
    ensures Legal(s, more) && OnlyRecovery(more) && Run(s, more).mode.Idle?
  {
    hide Run, Legal, Step, Enabled;
    ResetSequence(Run(s, acts));
    RunOneMore(s, acts, SyncRecovery);
    more := acts + [SyncRecovery];
    ResetSequence(Run(s, more));
    RunOneMore(s, more, ResetRecovery);
    more := more + [ResetRecovery];
    ResetSequence(Run(s, more));
    RunOneMore(s, more, SyncRecoveryReset);
    more := more + [SyncRecoveryReset];
    ResetSequence(Run(s, more));
    RunOneMore(s, more, FinishRecovery);
    more := more + [FinishRecovery];
  }

  /** Reopening always gets through: from any crash image there is an uninterrupted recovery. */
  lemma RecoveryCompletes(s: State) returns (acts: seq<Action>)
    requires Inv(s) && s.mode.Closed?
    ensures Legal(s, acts) && OnlyRecovery(acts) && Run(s, acts).mode.Idle?
    ensures MemoryView(Run(s, acts)) == CommittedView(s)
  {
    hide Inv, MemoryView, CommittedView;
    RunOneMore(s, [], Open);
    acts := [Open];
    assert [] + [Open] == acts;
    if Run(s, acts).mode.Recovering? {
      acts := ReplayCompletes(s, acts);
      acts := ResetCompletes(s, acts);
    }
    RecoveryKeepsView(s, acts);
    IdleShowsCommitted(Run(s, acts));
  }

  /** Between transactions nothing is held only in memory: closing and reopening changes nothing, and
      the header in memory is the one recovery would load. */
  lemma IdleHeaderIsCommitted(s0: State, acts: seq<Action>)
    requires Inv(s0) && Legal(s0, acts) && Run(s0, acts).mode.Idle?
    ensures MemoryView(Run(s0, acts)) == CommittedView(Run(s0, acts))
    ensures Run(s0, acts).header == CommittedHeader(Run(s0, acts))
  {
    RunKeepsInv(s0, acts);
    IdleShowsCommitted(Run(s0, acts));
  }

  // ---- where the code falls short ----

  /** new_page resizes the file to the in-memory page count. After a trim in the same transaction that can cut
      off committed pages; rolling back then restores the committed database if and only if every page cut off
      has a frame in the log or was all zero. */
  lemma RollbackAfterResize(s: State, h: Block)
    requires s.mode.Active? && InvActive(s) && PageCount(s.header) < PageCount(h)
    ensures MemoryView(AfterRollback(AfterExtend(s, h))) == CommittedView(s)
       <==> forall x: nat :: PageCount(h) <= x < PageCount(s.saved) && x !in s.index ==>
           Get(s.db.cur, s.zero, x) == s.zero
  {
    var before, after := AfterRollback(s), AfterRollback(AfterExtend(s, h));
    RollbackSimulates(s);
    forall x: nat | 0 < x < PageCount(s.saved)
      ensures MemoryView(after)[x] == MemoryView(before)[x]
         <==> (PageCount(h) <= x && x !in s.index ==> Get(s.db.cur, s.zero, x) == s.zero)
    {
      assert MemoryView(before)[x] == Base(s, x);
      assert MemoryView(after)[x] == Base(after, x);
    }
    assert |MemoryView(after)| == |MemoryView(before)|;
    if forall x: nat :: PageCount(h) <= x < PageCount(s.saved) && x !in s.index ==> Get(s.db.cur, s.zero, x) == s.zero {
      assert MemoryView(after) == MemoryView(before);
    }
  }

  /** A crash, as against a rollback: every crash right after the resize leaves the committed database if and
      only if every committed page the resize cut off has a frame in the log. A zero page is not enough, since
      cutting touches the unit. */
  lemma CrashAfterResize(s: State, h: Block)
    requires s.mode.Active? && InvActive(s) && PageCount(s.header) < PageCount(h)
    ensures (forall img :: CrashImage(AfterExtend(s, h), img) ==>
               RecoveredView(img.file, s.zero, img.frames, img.count) == CommittedView(s))
       <==> Spares(s, PageCount(h))
  {
    var t := AfterExtend(s, h);
    if Spares(s, PageCount(h)) {
      forall img | CrashImage(t, img)
        ensures RecoveredView(img.file, s.zero, img.frames, img.count) == CommittedView(s)
      {
        LastFramesAgree(s, s.logCount);
        CrashView(t, img, s.log.durableCount);
      }
    } else {
      var x: nat :| PageCount(h) <= x < PageCount(s.saved) && x !in s.index;
      CutPageCanBeLost(s, h, x);
    }
  }

  /** The image that shows it: something else at the unit that was cut off. */
  lemma CutPageCanBeLost(s: State, h: Block, x: nat)
    requires s.mode.Active? && InvActive(s) && 0 < PageCount(h) <= x < PageCount(s.saved) && x !in s.index
    ensures exists img :: CrashImage(AfterExtend(s, h), img)
              && RecoveredView(img.file, s.zero, img.frames, img.count) != CommittedView(s)
  {
    var other := if Get(s.db.durable, s.zero, x) == Header(0, 0) then Header(0, 1) else Header(0, 0);
    var img := Image(s.db.durable[x := other], s.log.durableFrames, s.log.durableCount);
    LastFramesAgree(s, s.logCount);
    assert CrashImage(AfterExtend(s, h), img);
    assert CommittedView(s)[x] == Get(s.db.durable, s.zero, x);
    assert RecoveredView(img.file, s.zero, img.frames, img.count)[x] == other;
  }

  /** Both at once, for a page that is not zero and has no frame: neither a rollback nor every crash gives it back. */
  lemma ResizeLoses(s: State, h: Block, x: nat)
    requires s.mode.Active? && InvActive(s) && PageCount(s.header) < PageCount(h) <= x < PageCount(s.saved)
    requires x !in s.index && CommittedView(s)[x] != s.zero
    ensures MemoryView(AfterRollback(AfterExtend(s, h))) != CommittedView(s)
    ensures exists img :: CrashImage(AfterExtend(s, h), img)
              && RecoveredView(img.file, s.zero, img.frames, img.count) != CommittedView(s)
  {
    RollbackAfterResize(s, h);
    CutPageCanBeLost(s, h, x);
    assert Get(s.db.cur, s.zero, x) == CommittedView(s)[x] by {
      LastFramesAgree(s, s.logCount);
    }
  }
}
