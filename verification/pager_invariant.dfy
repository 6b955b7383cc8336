/** What every reachable state of the pager machine satisfies. */
module PagerInvariant {
  import opened Storage
  import opened Replaying
  import opened PagerMachine

  /** The first `m` frames are durable and nothing is about to disturb them. */
  ghost predicate FramesSafe(log: Log, m: nat) {
    forall k: nat :: k < m ==> k !in log.touched && FrameAt(log.frames, k) == FrameAt(log.durableFrames, k)
  }

  /** Every unit written since the last sync is either named by one of the first `m` frames or lies
      past the page count those frames lead to. */
  ghost predicate FileSafe(db: Database, zero: Block, frames: seq<Frame>, m: nat) {
    var header := Recovered(db.durable, zero, frames, m, 0);
    && 1 <= PageCount(header)
    && (forall x: nat :: x !in db.touched ==> Get(db.cur, zero, x) == Get(db.durable, zero, x))
    && (forall x: nat :: x in db.touched ==> LastFrame(frames, m, x) >= 0 || PageCount(header) <= x)
  }

  ghost predicate DiskSafe(s: State) {
    FramesSafe(s.log, s.log.durableCount) && FileSafe(s.db, s.zero, s.log.durableFrames, s.log.durableCount)
  }

  ghost predicate Settled(s: State) {
    DiskSafe(s) && s.log.count == s.log.durableCount && s.log.pending == {}
  }

  ghost function CommittedHeader(s: State): Block {
    Recovered(s.db.durable, s.zero, s.log.durableFrames, s.log.durableCount, 0)
  }

  /** `wal_index` names exactly the last frame of each unit. */
  ghost predicate IndexExact(s: State) {
    forall x: nat ::
      && (x in s.index <==> LastFrame(s.log.frames, s.logCount, x) >= 0)
      && (x in s.index ==> s.index[x] == LastFrame(s.log.frames, s.logCount, x))
  }

  /** No trace of a transaction in memory. */
  ghost predicate Quiet(s: State) {
    !s.headerDirty && s.exposed == {}
  }

  ghost predicate InTransaction(s: State) {
    && s.logCount == s.log.durableCount
    && IndexExact(s)
    && s.saved == CommittedHeader(s)
    && (!s.headerDirty ==> s.header == s.saved)
    && 1 <= PageCount(s.header)
    && (forall x: nat :: x in s.cache ==>
          0 < x && (!s.cache[x].dirty && x < PageCount(s.header) && x !in s.exposed ==> s.cache[x].data == Base(s, x)))
    && (forall x: nat :: PageCount(s.saved) <= x < PageCount(s.header) ==> x in s.exposed || IsDirty(s, x))
  }

  /** Memory agrees with the file and all frames of the log, the new ones included. */
  ghost predicate Logged(s: State) {
    && Quiet(s)
    && s.log.durableCount <= s.logCount
    && IndexExact(s)
    && s.header == Recovered(s.db.durable, s.zero, s.log.frames, s.logCount, 0)
    && FileSafe(s.db, s.zero, s.log.frames, s.logCount)
    && (forall x: nat :: x in s.cache ==> 0 < x && (x < PageCount(s.header) ==> s.cache[x].data == Base(s, x)))
  }

  ghost predicate Stored(s: State) {
    Settled(s) && Logged(s) && s.log.durableCount == s.logCount
  }

  /** The file alone holds the committed database. */
  ghost predicate FileHolds(s: State, f: File) {
    forall x: nat :: x < PageCount(CommittedHeader(s)) ==>
      Get(f, s.zero, x) == Recovered(s.db.durable, s.zero, s.log.durableFrames, s.log.durableCount, x)
  }

  ghost predicate Copied(s: State) {
    s.db.touched == iset{} && FileHolds(s, s.db.durable)
  }

  ghost predicate Resetting(s: State) {
    && DiskSafe(s) && Copied(s) && Quiet(s)
    && s.log.count == 0 && s.log.pending == {0} && s.logCount == 0
  }

  ghost predicate Empty(s: State) {
    Settled(s) && Quiet(s) && s.logCount == 0 && s.log.durableCount == 0 && s.index == map[]
  }

  /** Memory as a fresh process has it. */
  ghost predicate Fresh(s: State) {
    Quiet(s) && s.cache == map[] && s.index == map[]
  }

  ghost predicate InvClosed(s: State) {
    Settled(s) && Fresh(s)
  }

  ghost predicate InvRecovering(s: State, next: nat) {
    && Settled(s) && Fresh(s)
    && s.logCount == s.log.durableCount && next <= s.logCount
    && (forall x: nat :: LastFrame(s.log.frames, next, x) >= 0 ==>
          Get(s.db.cur, s.zero, x) == FrameAt(s.log.frames, LastFrame(s.log.frames, next, x)).block)
  }

  ghost predicate InvIdle(s: State) {
    && Settled(s) && Quiet(s) && s.cache == map[]
    && s.logCount == s.log.durableCount && IndexExact(s) && s.header == CommittedHeader(s)
  }

  ghost predicate InvActive(s: State) {
    Settled(s) && InTransaction(s)
  }

  ghost predicate InvPublished(s: State) {
    && DiskSafe(s) && Logged(s) && FramesSafe(s.log, s.logCount)
    && s.log.count == s.logCount && s.log.pending == {s.logCount}
  }

  ghost predicate InvFolding(s: State, done: set<nat>) {
    && Stored(s)
    && (forall x :: x in done ==> x in s.index && (x < PageCount(s.header) ==>
          Get(s.db.cur, s.zero, x) == FrameAt(s.log.frames, s.index[x]).block))
  }

  ghost predicate Inv(s: State) {
    match s.mode
    case Closed => InvClosed(s)
    case Recovering(next) => InvRecovering(s, next)
    case RecoverySynced => Settled(s) && Copied(s) && Fresh(s)
    case RecoveryReset => Resetting(s) && Fresh(s)
    case RecoveryDone => Empty(s) && Fresh(s) && s.db.touched == iset{}
    case Idle => InvIdle(s)
    case Active => InvActive(s)
    case Appended => Settled(s) && Logged(s)
    case FramesSynced => Settled(s) && Logged(s) && FramesSafe(s.log, s.logCount)
    case Published => InvPublished(s)
    case Durable => Stored(s)
    case Folding(done) => InvFolding(s, done)
    case FoldResized => Stored(s) && FileHolds(s, s.db.cur)
    case FoldSynced => Stored(s) && Copied(s)
    case FoldReset => Resetting(s) && s.header == CommittedHeader(s)
    case Folded => Empty(s) && s.header == CommittedHeader(s)
  }

  // ---- views ----

  lemma SameViews(f: File, zero: Block, frames: seq<Frame>, m: nat, f': File, frames': seq<Frame>, m': nat)
    requires 1 <= PageCount(Recovered(f, zero, frames, m, 0))
    requires forall x: nat :: x < PageCount(Recovered(f, zero, frames, m, 0)) ==>
               Recovered(f, zero, frames, m, x) == Recovered(f', zero, frames', m', x)
    ensures RecoveredView(f, zero, frames, m) == RecoveredView(f', zero, frames', m')
  {
    assert Recovered(f, zero, frames, m, 0) == Recovered(f', zero, frames', m', 0);
  }

  /** Once the commit's frames are in the log, memory shows what recovering them would give. */
  lemma LoggedView(s: State)
    requires Logged(s)
    ensures MemoryView(s) == RecoveredView(s.db.durable, s.zero, s.log.frames, s.logCount)
  {
    forall x: nat | 0 < x < PageCount(s.header)
      ensures Lookup(s, x) == Recovered(s.db.durable, s.zero, s.log.frames, s.logCount, x)
    {
      assert Lookup(s, x) == Base(s, x);
    }
  }

  /** The same frames, synced. */
  lemma SyncedView(s: State)
    requires FramesSafe(s.log, s.logCount) && Logged(s)
    ensures MemoryView(s) == RecoveredView(s.db.durable, s.zero, s.log.durableFrames, s.logCount)
    ensures FileSafe(s.db, s.zero, s.log.durableFrames, s.logCount)
  {
    LoggedView(s);
    forall x: nat ensures LastFrame(s.log.frames, s.logCount, x) == LastFrame(s.log.durableFrames, s.logCount, x) {
      LastFrameLocal(s.log.frames, s.log.durableFrames, s.logCount, x);
    }
    SameViews(s.db.durable, s.zero, s.log.frames, s.logCount, s.db.durable, s.log.durableFrames, s.logCount);
  }

  /** Outside a transaction memory shows the committed database. */
  lemma IdleView(s: State)
    requires InvIdle(s)
    ensures MemoryView(s) == CommittedView(s)
  {
    forall x: nat ensures LastFrame(s.log.frames, s.logCount, x) == LastFrame(s.log.durableFrames, s.logCount, x) {
      LastFrameLocal(s.log.frames, s.log.durableFrames, s.logCount, x);
    }
    forall x: nat | 0 < x < PageCount(s.header)
      ensures Lookup(s, x) == Recovered(s.db.durable, s.zero, s.log.durableFrames, s.log.durableCount, x)
    {
    }
  }

  // ---- crashes ----

  /** A crash that leaves frame count `m`, with the first `m` frames and the file safe for `m`. */
  lemma CrashView(s: State, img: Image, m: nat)
    requires CrashImage(s, img) && img.count == m
    requires forall k: nat :: k < m ==> k !in s.log.touched
    requires FileSafe(s.db, s.zero, s.log.durableFrames, m)
    ensures RecoveredView(img.file, s.zero, img.frames, m)
        == RecoveredView(s.db.durable, s.zero, s.log.durableFrames, m)
    ensures FileSafe(Database(img.file, img.file, iset{}), s.zero, img.frames, m)
  {
    forall x: nat ensures LastFrame(s.log.durableFrames, m, x) == LastFrame(img.frames, m, x) {
      LastFrameLocal(s.log.durableFrames, img.frames, m, x);
    }
    SameViews(s.db.durable, s.zero, s.log.durableFrames, m, img.file, img.frames, m);
  }
}
