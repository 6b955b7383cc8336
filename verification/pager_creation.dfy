/** A database from its creation on. `create` writes the header and does not sync it, so until the header has
    reached the disk in a frame or in the file a crash may lose the database itself. */
module PagerCreation {
  import opened Storage
  import opened Replaying
  import opened PagerMachine
  import opened PagerInvariant
  import opened PagerRefinement
  import opened PagerRuns

  const NO_ROOT: nat := 0xFFFF_FFFF_FFFF_FFFF

  const FIRST_HEADER: Block := Header(1, NO_ROOT)

  /** The state `create` and `init` leave: the log is synced, the database file is not. */
  ghost function Created(zero: Block, interval: nat): State {
    State(zero, WriteUnit(Database(map[], map[], iset{}), 0, FIRST_HEADER), Log([], [], iset{}, 0, 0, {}),
          FIRST_HEADER, zero, false, map[], {}, 0, map[], 0, interval, Idle)
  }

  /** The header is on no disk: written to the file since the last sync, and in no durable frame. */
  ghost predicate Unsaved(s: State) {
    0 in s.db.touched && LastFrame(s.log.durableFrames, s.log.durableCount, 0) < 0
  }

  ghost function PatchedFile(db: Database): Database {
    db.(durable := db.durable[0 := FIRST_HEADER], touched := db.touched - iset{0})
  }

  /** The same state, had the first header been synced. */
  ghost function Patched(s: State): State {
    s.(db := PatchedFile(s.db))
  }

  /** The state the pager means to be in: the created database counts as committed. */
  ghost function Meant(s: State): State {
    if Unsaved(s) then Patched(s) else s
  }

  ghost predicate EarlyMode(m: Mode) {
    m.Closed? || m.Idle? || m.Active? || m.Appended? || m.FramesSynced? || m.Published? || m.Folding? || m.FoldResized?
  }

  /** Not yet synced, and sound but for that. */
  ghost predicate Unsynced(s: State) {
    && EarlyMode(s.mode)
    && 0 in s.db.touched && s.log.durableCount == 0 && Inv(Patched(s))
    && (s.logCount > 0 ==> LastFrame(s.log.frames, s.logCount, 0) >= 0)
    && (s.mode.FramesSynced? || s.mode.Published? ==> s.logCount > 0)
  }

  /** The states that no crash has damaged. */
  ghost predicate Intact(s: State) {
    Inv(s) || Unsynced(s)
  }

  lemma CreatedIsUnsynced(zero: Block, interval: nat)
    ensures Unsynced(Created(zero, interval))
  {
    var s := Patched(Created(zero, interval));
    assert s.db.touched == iset{};
    assert InvIdle(s);
  }

  lemma InvIsSaved(s: State)
    requires Inv(s)
    ensures !Unsaved(s)
  {
    InvIsCrashable(s);
  }

  lemma UnsyncedIsUnsaved(s: State)
    requires Unsynced(s)
    ensures Unsaved(s)
  {
    hide Inv;
  }

  /** Reads do not look at the durable file. */
  lemma PatchedMemory(s: State)
    ensures MemoryView(Patched(s)) == MemoryView(s)
  {
    assert forall x: nat :: Base(Patched(s), x) == Base(s, x);
  }

  lemma MeantInv(s: State)
    requires Intact(s)
    ensures Inv(Meant(s)) && MemoryView(Meant(s)) == MemoryView(s)
  {
    PatchedMemory(s);
    if Inv(s) {
      InvIsSaved(s);
    } else {
      UnsyncedIsUnsaved(s);
    }
  }

  // ---- one step ----

  lemma PatchedResize(db: Database, n: nat)
    requires n > 0
    ensures Resize(PatchedFile(db), n) == PatchedFile(Resize(db, n))
  {
  }

  /** Nothing can be folded or replayed, and no resize reaches the header. */
  lemma EarlyFacts(s: State, a: Action)
    requires Unsynced(s) && Enabled(s, a)
    ensures !a.Fold? && (a.Extend? ==> PageCount(a.h) > 0) && (a.FoldResize? ==> PageCount(s.header) > 0)
    ensures a.Open? ==> s.log.count == 0
    ensures !a.ResetCount? && !a.SyncReset? && !a.RecoverFrame? && !a.SyncRecovery? && !a.ResetRecovery?
    ensures !a.SyncRecoveryReset? && !a.FinishRecovery?
  {
    hide MemoryView, CommittedView;
  }

  /** Whatever does not sync happens alike with and without the first header on the disk. */
  lemma PatchedStep(s: State, a: Action)
    requires Unsynced(s) && Enabled(s, a) && !a.Crash? && !a.SyncFold?
    ensures Enabled(Patched(s), a) && Step(Patched(s), a) == Patched(Step(s, a))
    ensures 0 in Step(s, a).db.touched
  {
    EarlyFacts(s, a);
    hide Unsynced, Inv;
    if a.Extend? {
      PatchedResize(s.db, PageCount(a.h));
    } else if a.FoldResize? {
      PatchedResize(s.db, PageCount(s.header));
    } else if a.Append? {
      PatchedAppend(s, a.order);
    } else if a.Load? || a.Touch? || a.Put? {
      assert forall x: nat :: Base(Patched(s), x) == Base(s, x);
    }
  }

  lemma PatchedAppend(s: State, order: seq<nat>)
    ensures AfterAppend(Patched(s), order) == Patched(AfterAppend(s, order))
    ensures CanAppend(Patched(s), order) <==> CanAppend(s, order)
  {
    assert forall x: nat :: Base(Patched(s), x) == Base(s, x);
    assert forall x: nat :: LoggedBlock(Patched(s), x) == LoggedBlock(s, x);
    assert forall x: nat :: InWriteSet(Patched(s), x) == InWriteSet(s, x);
    assert AppendedFrames(Patched(s), order) == AppendedFrames(s, order);
  }

  /** The first frames a commit writes include the header. */
  lemma HeaderIsAppended(s: State, order: seq<nat>)
    requires Unsynced(s) && s.mode.Active? && CanAppend(s, order)
    ensures AfterAppend(s, order).logCount > 0 ==>
              LastFrame(AfterAppend(s, order).log.frames, AfterAppend(s, order).logCount, 0) >= 0
  {
    var p := Patched(s);
    PatchedAppend(s, order);
    if order != [] {
      assert InWriteSet(p, order[0]);
      assert InWriteSet(p, 0);
      AppendIndex(p, order);
    }
  }

  /** Once the count of the first frames is synced the header is on the disk, and nothing hangs on the file's. */
  lemma FirstSyncCount(s: State)
    requires Unsynced(s) && s.mode.Published?
    ensures Inv(AfterSyncCount(s)) && Shown(AfterSyncCount(s)) == Abstract(AfterSyncCount(Patched(s)))
  {
    var p, t := AfterSyncCount(Patched(s)), AfterSyncCount(s);
    SyncCountSimulates(Patched(s));
    LastFramesAgree(Patched(s), s.logCount);
    PatchedSyncCount(s);
    FrameHoldsHeader(t);
    UnsavedEnds(t);
  }

  lemma PatchedSyncCount(s: State)
    ensures AfterSyncCount(Patched(s)) == Patched(AfterSyncCount(s))
  {
  }

  lemma UnsavedEnds(s: State)
    requires LastFrame(s.log.durableFrames, s.log.durableCount, 0) >= 0
    ensures Meant(s) == s
  {
  }

  /** With the header in a durable frame the patch makes no difference. */
  lemma FrameHoldsHeader(s: State)
    requires Stored(Patched(s)) && 0 in s.db.touched && LastFrame(s.log.durableFrames, s.log.durableCount, 0) >= 0
    ensures Stored(s) && CommittedView(s) == CommittedView(Patched(s))
  {
    var p := Patched(s);
    LastFramesAgree(s, s.logCount);
    hide LastFrame;
    assert forall x: nat :: Recovered(p.db.durable, s.zero, s.log.durableFrames, s.log.durableCount, x)
                         == Recovered(s.db.durable, s.zero, s.log.durableFrames, s.log.durableCount, x);
    assert forall x: nat :: Base(p, x) == Base(s, x);
    assert DiskSafe(s);
  }

  // ---- the page store that is meant ----

  /** What the store shows, the created database counting as committed. */
  ghost function Promised(s: State): View {
    CommittedView(Meant(s))
  }

  ghost function Shown(s: State): Store {
    Store(Promised(s), if HasTransaction(s.mode) then Some(MemoryView(s)) else None)
  }

  ghost predicate Leads(s: State, t: State, e: Event) {
    Possible(Shown(s), e) && Shown(t) == Apply(Shown(s), e)
  }

  lemma ShownIsAbstract(s: State)
    ensures Shown(s) == Abstract(Meant(s))
  {
    PatchedMemory(s);
  }

  lemma PatchedMeaning(s: State, a: Action)
    ensures !a.Crash? ==> Meaning(Patched(s), a) == Meaning(s, a)
  {
    assert forall x: nat :: Lookup(Patched(s), x) == Lookup(s, x);
    if a.Extend? {
      assert Uncovered(Patched(s), a.h) == Uncovered(s, a.h);
    }
  }

  lemma UnsyncedStep(s: State, a: Action)
    requires Unsynced(s) && Enabled(s, a) && !a.Crash?
    ensures Intact(Step(s, a)) && Leads(s, Step(s, a), Meaning(s, a))
  {
    UnsyncedIsUnsaved(s);
    ShownIsAbstract(s);
    ShownIsAbstract(Step(s, a));
    PatchedMeaning(s, a);
    if a.SyncFold? {
      StepSimulates(Patched(s), a);
      InvIsSaved(Step(s, a));
    } else if a.SyncCount? {
      StepSimulates(Patched(s), a);
      FirstSyncCount(s);
    } else {
      StaysUnsynced(s, a);
      UnsyncedIsUnsaved(Step(s, a));
      StepSimulates(Patched(s), a);
    }
  }

  lemma StaysUnsynced(s: State, a: Action)
    requires Unsynced(s) && Enabled(s, a) && !a.Crash? && !a.SyncFold? && !a.SyncCount?
    ensures Unsynced(Step(s, a)) && Step(Patched(s), a) == Patched(Step(s, a))
  {
    PatchedStep(s, a);
    StepSimulates(Patched(s), a);
    EarlyFacts(s, a);
    if a.Append? { HeaderIsAppended(s, a.order); }
  }

  // ---- crashes ----

  /** What is left when the header is lost: no log, and a file that reads as having no page. */
  ghost predicate Headerless(s: State) {
    && s.zero.Page? && PageCount(Get(s.db.durable, s.zero, 0)) == 0
    && s.log.count == 0 && s.log.durableCount == 0 && s.log.pending <= {0}
    && s.logCount == 0 && s.index == map[] && 0 !in s.cache
    && (0 !in s.db.touched ==> Get(s.db.cur, s.zero, 0) == Get(s.db.durable, s.zero, 0))
    && PageCount(Get(s.db.cur, s.zero, 0)) == 0
    && HeaderlessMode(s)
  }

  ghost predicate HeaderlessMode(s: State) {
    match s.mode
    case Closed => Fresh(s)
    case Idle => Quiet(s) && PageCount(s.header) == 0 && s.cache == map[]
    case Active => PageCount(s.saved) == 0 && (if PageCount(s.header) == 0 then !s.headerDirty else 0 in s.exposed)
    case Appended => Quiet(s) && PageCount(s.header) == 0
    case Folding(done) => Quiet(s) && PageCount(s.header) == 0 && s.cache == map[]
    case FoldResized => Quiet(s) && PageCount(s.header) == 0 && s.cache == map[]
    case FoldSynced => Quiet(s) && PageCount(s.header) == 0 && s.cache == map[]
    case FoldReset => Quiet(s) && PageCount(s.header) == 0 && s.cache == map[]
    case Folded => Quiet(s) && PageCount(s.header) == 0 && s.cache == map[]
    case _ => false
  }

  /** Every state that any legal run from the creation on, with any crashes, can be in. */
  ghost predicate Alive(s: State) {
    Intact(s) || Headerless(s)
  }

  lemma HeaderlessMemoryStep(s: State, a: Action)
    requires Headerless(s) && Enabled(s, a)
    requires a.Begin? || a.SetHeader? || a.Extend? || a.Load? || a.Touch? || a.Put? || a.Rollback? || a.Append?
    ensures Headerless(Step(s, a))
  {
    if a.Append? {
      assert a.order == [] by {
        assert a.order != [] ==> InWriteSet(s, a.order[0]);
      }
    }
  }

  lemma HeaderlessDiskStep(s: State, a: Action)
    requires Headerless(s) && Enabled(s, a) && !a.Crash?
    requires !(a.Begin? || a.SetHeader? || a.Extend? || a.Load? || a.Touch? || a.Put? || a.Rollback? || a.Append?)
    ensures Headerless(Step(s, a))
  {
  }

  /** After a crash that leaves no frames the pager is either closed over some file with a header, or headerless. */
  lemma CrashWithoutFrames(s: State, img: Image)
    requires s.zero.Page? && img.count == 0
    ensures Alive(AfterCrash(s, img))
  {
    var t := AfterCrash(s, img);
    if PageCount(Get(img.file, s.zero, 0)) > 0 {
      assert InvClosed(t);
    } else {
      assert Headerless(t);
    }
  }

  lemma UnsyncedCrash(s: State, img: Image)
    requires Unsynced(s) && s.zero.Page? && CrashImage(s, img)
    ensures Alive(AfterCrash(s, img))
    ensures Kept(s, img) ==> CommittedView(AfterCrash(s, img)) == MemoryView(s)
  {
    if Kept(s, img) {
      KeptWithHeader(s, img);
    } else {
      assert img.count == 0 by { UnsyncedCounts(s); }
      CrashWithoutFrames(s, img);
    }
  }

  lemma UnsyncedCounts(s: State)
    requires Unsynced(s)
    ensures s.log.durableCount == 0 && s.log.pending <= (if s.mode.Published? then {s.logCount} else {})
  {
  }

  /** A commit that got through takes its header with it. */
  lemma KeptWithHeader(s: State, img: Image)
    requires Unsynced(s) && CrashImage(s, img) && Kept(s, img)
    ensures InvClosed(AfterCrash(s, img)) && CommittedView(AfterCrash(s, img)) == MemoryView(s)
  {
    hide Unsynced, Inv, LastFrame, MemoryView;
    UnsyncedIsPublished(s);
    var p := Patched(s);
    var file := img.file[0 := FIRST_HEADER];
    var other := Image(file, img.frames, img.count);
    assert CrashImage(p, other);
    CrashKeepsCommit(p, other);
    PatchedMemory(s);
    SameHeader(s, img);
    SameViews(file, s.zero, img.frames, s.logCount, img.file, img.frames, s.logCount);
  }

  lemma UnsyncedIsPublished(s: State)
    requires Unsynced(s) && s.mode.Published?
    ensures InvPublished(Patched(s)) && LastFrame(s.log.frames, s.logCount, 0) >= 0
  {
  }

  lemma SameHeader(s: State, img: Image)
    requires InvPublished(Patched(s)) && CrashImage(s, img) && LastFrame(s.log.frames, s.logCount, 0) >= 0
    ensures LastFrame(img.frames, s.logCount, 0) >= 0
  {
    LastFrameLocal(img.frames, s.log.frames, s.logCount, 0);
  }

  lemma AliveStep(s: State, a: Action)
    requires Alive(s) && s.zero.Page? && Enabled(s, a)
    ensures Alive(Step(s, a))
  {
    hide Inv, Unsynced, Headerless, Enabled;
    if Inv(s) {
      StepSimulates(s, a);
    } else if a.Crash? {
      NotInvCrash(s, a.img);
    } else if Unsynced(s) {
      UnsyncedStep(s, a);
    } else if a.Begin? || a.SetHeader? || a.Extend? || a.Load? || a.Touch? || a.Put? || a.Rollback? || a.Append? {
      HeaderlessMemoryStep(s, a);
    } else {
      HeaderlessDiskStep(s, a);
    }
  }

  lemma NotInvCrash(s: State, img: Image)
    requires (Unsynced(s) || Headerless(s)) && s.zero.Page? && Enabled(s, Crash(img))
    ensures Alive(AfterCrash(s, img))
  {
    hide Inv;
    if Unsynced(s) {
      UnsyncedCrash(s, img);
    } else {
      CrashWithoutFrames(s, img);
    }
  }

  lemma {:induction false} RunStaysAlive(zero: Block, interval: nat, acts: seq<Action>)
    requires zero.Page? && Legal(Created(zero, interval), acts)
    ensures Alive(Run(Created(zero, interval), acts)) && Run(Created(zero, interval), acts).zero == zero
  {
    hide Alive, Enabled, Step;
    if acts == [] {
      CreatedIsUnsynced(zero, interval);
      assert Alive(Created(zero, interval)) by { AliveIfUnsynced(Created(zero, interval)); }
    } else {
      var init := acts[..|acts| - 1];
      RunStaysAlive(zero, interval, init);
      AliveStep(Run(Created(zero, interval), init), acts[|acts| - 1]);
      StepKeepsSettings(Run(Created(zero, interval), init), acts[|acts| - 1]);
    }
  }

  lemma StepKeepsSettings(s: State, a: Action)
    ensures Step(s, a).zero == s.zero && Step(s, a).interval == s.interval
  {
  }

  lemma AliveIfUnsynced(s: State)
    requires Unsynced(s)
    ensures Alive(s)
  {
  }

  // ---- when a crash is survived ----

  /** What recovery makes of an image. */
  ghost function Found(s: State, img: Image): View {
    RecoveredView(img.file, s.zero, img.frames, img.count)
  }

  /** In every state of every run from the creation on, earlier crashes included, every crash leaves what should
      survive it if and only if the header is on the disk: not written since the file's last sync, or held by a
      durable frame. */
  lemma SurvivesExactlyWhenSaved(zero: Block, interval: nat, acts: seq<Action>, s: State)
    requires zero.Page? && Reaches(Created(zero, interval), acts, s)
    ensures (forall img :: CrashImage(s, img) ==> Found(s, img) == Surviving(s, img))
       <==> 0 !in s.db.touched || LastFrame(s.log.durableFrames, s.log.durableCount, 0) >= 0
    ensures (forall img :: CrashImage(s, img) ==> Found(s, img) == Surviving(Meant(s), img)) <==> !Unsaved(s)
  {
    RunStaysAlive(zero, interval, acts);
    hide Inv, Surviving, Run, Legal;
    if Unsaved(s) {
      LostHeader(s);
    } else {
      forall img | CrashImage(s, img)
        ensures Found(s, img) == Surviving(s, img)
      {
        SavedSurvives(s, img);
      }
    }
  }

  lemma SavedSurvives(s: State, img: Image)
    requires Alive(s) && !Unsaved(s) && CrashImage(s, img)
    ensures Found(s, img) == Surviving(s, img)
  {
    if Inv(s) {
      StepSimulates(s, Crash(img));
      hide Inv;
    } else {
      hide Inv;
      assert Headerless(s);
      assert Found(s, img) == [Get(img.file, s.zero, 0)] == CommittedView(s);
    }
  }

  /** With the header on no disk there is an image from which neither the bytes that are durable nor the created
      database come back. */
  lemma LostHeader(s: State)
    requires Alive(s) && Unsaved(s)
    ensures exists img ::
              CrashImage(s, img) && Found(s, img) != Surviving(s, img) && Found(s, img) != Surviving(Meant(s), img)
  {
    var was := Get(s.db.durable, s.zero, 0);
    var other := if was == Header(0, 0) then Header(0, 1) else Header(0, 0);
    var img := Image(s.db.durable[0 := other], s.log.durableFrames, s.log.durableCount);
    assert CrashImage(s, img);
    assert Found(s, img)[0] == other;
    NotKept(s, img);
    assert CommittedView(s)[0] == was && CommittedView(Meant(s))[0] == FIRST_HEADER;
  }

  lemma NotKept(s: State, img: Image)
    requires Alive(s) && Unsaved(s) && img.count == s.log.durableCount
    ensures !Kept(s, img) && !Kept(Meant(s), img)
  {
    if Inv(s) { InvIsSaved(s); }
  }

  // ---- runs whose crashes all fall when the header is on the disk ----

  ghost predicate Careful(s: State, acts: seq<Action>) {
    forall i :: 0 <= i < |acts| && acts[i].Crash? ==> !Unsaved(Run(s, acts[..i]))
  }

  lemma CarefulPrefix(s: State, acts: seq<Action>, k: nat)
    requires Careful(s, acts) && k <= |acts|
    ensures Careful(s, acts[..k])
  {
    hide Unsaved, Run;
    forall i | 0 <= i < k && acts[..k][i].Crash?
      ensures !Unsaved(Run(s, acts[..k][..i]))
    {
      assert acts[..k][..i] == acts[..i];
    }
  }

  lemma IntactStep(s: State, a: Action)
    requires Intact(s) && Enabled(s, a) && (a.Crash? ==> !Unsaved(s))
    ensures Intact(Step(s, a)) && Leads(s, Step(s, a), Meaning(s, a))
    ensures Inv(s) ==> Inv(Step(s, a))
  {
    if Inv(s) {
      StepSimulates(s, a);
      InvIsSaved(s);
      InvIsSaved(Step(s, a));
      ShownIsAbstract(s);
      ShownIsAbstract(Step(s, a));
    } else {
      UnsyncedIsUnsaved(s);
      UnsyncedStep(s, a);
    }
  }

  /** From the first synced count or the first folded file on the full invariant holds, and goes on to hold. */
  lemma FirstSyncMakesInv(s: State, a: Action)
    requires Intact(s) && Enabled(s, a) && (a.SyncCount? || a.SyncFold?)
    ensures Inv(Step(s, a))
  {
    if Inv(s) {
      StepSimulates(s, a);
    } else if a.SyncCount? {
      FirstSyncCount(s);
    } else {
      StepSimulates(Patched(s), a);
    }
  }

  lemma {:induction false} CarefulRunIsIntact(zero: Block, interval: nat, acts: seq<Action>)
    requires Legal(Created(zero, interval), acts) && Careful(Created(zero, interval), acts)
    ensures Intact(Run(Created(zero, interval), acts))
  {
    hide Inv, Unsynced, Enabled, Unsaved;
    if acts == [] {
      CreatedIsUnsynced(zero, interval);
    } else {
      var init, a := acts[..|acts| - 1], acts[|acts| - 1];
      CarefulPrefix(Created(zero, interval), acts, |acts| - 1);
      CarefulRunIsIntact(zero, interval, init);
      IntactStep(Run(Created(zero, interval), init), a);
    }
  }

  /** Refinement over whole runs from the creation on. */
  lemma {:induction false} CreatedRunRefines(zero: Block, interval: nat, acts: seq<Action>)
    requires Legal(Created(zero, interval), acts) && Careful(Created(zero, interval), acts)
    ensures After(Shown(Created(zero, interval)), Events(Created(zero, interval), acts))
         == Some(Shown(Run(Created(zero, interval), acts)))
  {
    hide Step, Enabled, Inv, Unsynced, Apply, Possible, Meaning, Shown, Unsaved;
    var s := Created(zero, interval);
    if acts != [] {
      var init := acts[..|acts| - 1];
      CarefulPrefix(s, acts, |acts| - 1);
      CreatedRunRefines(zero, interval, init);
      CarefulRunIsIntact(zero, interval, init);
      IntactStep(Run(s, init), acts[|acts| - 1]);
      var events := Events(s, acts);
      assert events[..|events| - 1] == Events(s, init);
    }
  }

  /** The created database is the first one committed. */
  lemma CreatedShows(zero: Block, interval: nat)
    ensures Shown(Created(zero, interval)) == Store([FIRST_HEADER], None)
  {
    CreatedIsUnsynced(zero, interval);
    UnsyncedIsUnsaved(Created(zero, interval));
  }

  /** Crash anywhere in any run from the creation on where the header is on the disk, then recover, interrupted by
      any number of further crashes: once the pager is open again, its header and pages are exactly those of the
      last transaction whose frame count reached the disk. */
  lemma CrashAtomicityFromCreation(zero: Block, interval: nat, acts: seq<Action>, s: State, img: Image,
                                   recovery: seq<Action>, t: State)
    requires Reaches(Created(zero, interval), acts, s) && Careful(Created(zero, interval), acts) && !Unsaved(s)
    requires CrashImage(s, img) && OnlyRecovery(recovery) && Reaches(Step(s, Crash(img)), recovery, t) && t.mode.Idle?
    ensures MemoryView(t) == Surviving(s, img)
  {
    hide Inv, Run, Legal, MemoryView, CommittedView, Careful;
    CarefulRunIsIntact(zero, interval, acts);
    if Unsynced(s) { UnsyncedIsUnsaved(s); }
    assert Inv(s);
    assert Reaches(s, [], s) by { NoSteps(s); }
    CrashAtomicity(s, [], s, img, recovery, t);
  }

  lemma NoSteps(s: State)
    ensures Reaches(s, [], s)
  {
  }
}
