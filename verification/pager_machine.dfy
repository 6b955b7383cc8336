/** The pager as a machine of small steps. Every step issues at most one file operation, so a crash
    can fall between any two file operations of a commit, a checkpoint or a recovery. */
module PagerMachine {
  import opened Storage
  import opened Replaying

  /** `PageCacheEntry`. */
  datatype Entry = Entry(data: Block, dirty: bool)

  /** How far the running operation has come. */
  datatype Mode =
    | Closed                // process gone or pager destroyed
    | Recovering(next: nat) // frames below `next` are written to the file
    | RecoverySynced | RecoveryReset | RecoveryDone
    | Idle
    | Active                // a transaction is open
    | Appended | FramesSynced | Published | Durable
    | Folding(done: set<nat>) | FoldResized | FoldSynced | FoldReset | Folded

  /** The pager's fields over its two files. `exposed` is a history variable: the pages that a growing
      transaction has put below the page count and not yet made dirty. */
  datatype State = State(
    zero: Block,
    db: Database,
    log: Log,
    header: Block,
    saved: Block,
    headerDirty: bool,
    cache: map<nat, Entry>,
    exposed: set<nat>,
    logCount: nat,
    index: map<nat, nat>,
    txCount: nat,
    interval: nat,
    mode: Mode)

  // ---- what a reader sees ----

  /** A page as it is found below the cache: the frame `wal_index` names, else the file. */
  ghost function Base(s: State, x: nat): Block {
    if x in s.index then FrameAt(s.log.frames, s.index[x]).block else Get(s.db.cur, s.zero, x)
  }

  ghost function Lookup(s: State, x: nat): Block {
    if x in s.cache then s.cache[x].data else Base(s, x)
  }

  /** The database through the in-memory state. */
  ghost function MemoryView(s: State): (v: View)
    ensures |v| == ViewLength(s.header)
    ensures forall x: nat :: x < |v| ==> v[x] == if x == 0 then s.header else Lookup(s, x)
  {
    seq(ViewLength(s.header), x requires 0 <= x => if x == 0 then s.header else Lookup(s, x))
  }

  /** The database as the durable bytes alone determine it: what a recovery would produce if every
      write since the last syncs were lost. */
  ghost function CommittedView(s: State): View {
    RecoveredView(s.db.durable, s.zero, s.log.durableFrames, s.log.durableCount)
  }

  // ---- crashes ----

  datatype Image = Image(file: File, frames: seq<Frame>, count: nat)

  /** The bytes a crash may leave. A unit or frame written since its file's last sync may hold
      anything (lost, kept, reordered or torn); the frame count is one of the values written. */
  ghost predicate CrashImage(s: State, img: Image) {
    && (forall x: nat :: x !in s.db.touched ==> Get(img.file, s.zero, x) == Get(s.db.durable, s.zero, x))
    && (forall k: nat :: k !in s.log.touched ==> FrameAt(img.frames, k) == FrameAt(s.log.durableFrames, k))
    && (img.count == s.log.durableCount || img.count in s.log.pending)
  }

  // ---- steps ----

  datatype Action =
    | Begin | SetHeader(h: Block) | Extend(h: Block) | Load(i: nat) | Touch(i: nat) | Put(i: nat, b: Block) | Rollback
    | Append(order: seq<nat>) | SyncFrames | Publish | SyncCount | Finish
    | StartFold | Fold(i: nat) | FoldResize | SyncFold | ResetCount | SyncReset
    | Close | Crash(img: Image)
    | Open | RecoverFrame | SyncRecovery | ResetRecovery | SyncRecoveryReset | FinishRecovery

  ghost function FoldedUnits(m: Mode): set<nat> {
    if m.Folding? then m.done else {}
  }

  ghost function NextFrame(m: Mode): nat {
    if m.Recovering? then m.next else 0
  }

  ghost function Interval(a: nat, b: nat): (r: set<nat>)
    ensures forall x: nat :: x in r <==> a <= x < b
    decreases b - a
  {
    if a >= b then {} else {a} + Interval(a + 1, b)
  }

  ghost predicate IsDirty(s: State, x: nat) {
    x in s.cache && s.cache[x].dirty
  }

  /** The units a commit writes: dirty pages below the page count, and the header if it changed. */
  ghost predicate InWriteSet(s: State, x: nat) {
    if x == 0 then s.headerDirty else IsDirty(s, x) && x < PageCount(s.header)
  }

  /** Every committed page from `n` on has a frame in the log. */
  ghost predicate Spares(s: State, n: nat) {
    forall x: nat :: n <= x < PageCount(s.saved) ==> x in s.index
  }

  /** The resize in new_page cuts the file at the new page count, which after a trim may lie below the committed
      one. It must not cut a committed page that only the file holds: CrashAfterResize and RollbackAfterResize
      say what is lost otherwise. */
  ghost predicate CanExtend(s: State, h: Block) {
    s.mode.Active? && PageCount(s.header) < PageCount(h) && Spares(s, PageCount(h))
  }

  ghost predicate CanAppend(s: State, order: seq<nat>) {
    && s.mode.Active? && s.exposed == {}
    && (forall x: nat :: x in order <==> InWriteSet(s, x))
    && (forall i, j :: 0 <= i < j < |order| ==> order[i] != order[j])
  }

  ghost predicate CanFinish(s: State) {
    (s.mode.Appended? && s.logCount == 0) || (s.mode.Durable? && s.txCount < s.interval) || s.mode.Folded?
  }

  ghost predicate Enabled(s: State, a: Action) {
    match a
    case Begin => s.mode.Idle?
    case SetHeader(h) => s.mode.Active? && 1 <= PageCount(h) <= PageCount(s.header)
    case Extend(h) => CanExtend(s, h)
    case Load(i) => s.mode.Active? && 0 < i < PageCount(s.header) && i !in s.cache
    case Touch(i) => s.mode.Active? && i in s.cache
    case Put(i, b) => s.mode.Active? && 0 < i < PageCount(s.header)
    case Rollback => s.mode.Active?
    case Append(order) => CanAppend(s, order)
    case SyncFrames => s.mode.Appended? && s.logCount > 0
    case Publish => s.mode.FramesSynced?
    case SyncCount => s.mode.Published?
    case Finish => CanFinish(s)
    case StartFold => s.mode.Idle? || (s.mode.Durable? && s.txCount >= s.interval)
    case Fold(i) => s.mode.Folding? && i in s.index
    case FoldResize => s.mode.Folding? && s.mode.done == s.index.Keys
    case SyncFold => s.mode.FoldResized?
    case ResetCount => s.mode.FoldSynced?
    case SyncReset => s.mode.FoldReset?
    case Close => s.mode.Idle?
    case Crash(img) => CrashImage(s, img)
    case Open => s.mode.Closed?
    case RecoverFrame => s.mode.Recovering? && s.mode.next < s.logCount
    case SyncRecovery => s.mode.Recovering? && s.mode.next == s.logCount
    case ResetRecovery => s.mode.RecoverySynced?
    case SyncRecoveryReset => s.mode.RecoveryReset?
    case FinishRecovery => s.mode.RecoveryDone?
  }

  ghost function WriteUnit(db: Database, x: nat, b: Block): Database {
    db.(cur := db.cur[x := b], touched := db.touched + iset{x})
  }

  ghost function Resize(db: Database, n: nat): Database {
    db.(cur := Truncate(db.cur, n), touched := iset x: nat | x in db.touched || n <= x)
  }

  ghost function SyncDatabase(db: Database): Database {
    db.(durable := db.cur, touched := iset{})
  }

  ghost function WriteCount(log: Log, n: nat): Log {
    log.(count := n, pending := log.pending + {n})
  }

  ghost function SyncLog(log: Log): Log {
    log.(durableFrames := log.frames, touched := iset{}, durableCount := log.count, pending := {})
  }

  /** The block a commit logs for unit `x`. */
  ghost function LoggedBlock(s: State, x: nat): Block {
    if x == 0 then s.header else Lookup(s, x)
  }

  /** The log file once a frame for each unit of `order` is written from index `logCount` on; the file is
      cut after them. */
  ghost function AppendedFrames(s: State, order: seq<nat>): seq<Frame> {
    if order == [] then s.log.frames
    else
      seq(s.logCount + |order|, k requires 0 <= k < s.logCount + |order| =>
        if k < s.logCount then FrameAt(s.log.frames, k)
        else Frame(order[k - s.logCount], LoggedBlock(s, order[k - s.logCount])))
  }

  /** `wal_index` after entries for `order`, numbered from `base`, are inserted. */
  ghost function Indexed(index: map<nat, nat>, order: seq<nat>, base: nat): map<nat, nat> {
    if order == [] then index
    else Indexed(index, order[..|order| - 1], base)[order[|order| - 1] := base + |order| - 1]
  }

  // One function per step, so that a proof about one step need not look at the others.

  ghost function AfterBegin(s: State): State {
    s.(saved := s.header, mode := Active)
  }

  ghost function AfterSetHeader(s: State, h: Block): State {
    s.(header := h, headerDirty := true, exposed := set x | x in s.exposed && x < PageCount(h))
  }

  ghost function AfterExtend(s: State, h: Block): State {
    s.(header := h, headerDirty := true, db := Resize(s.db, PageCount(h)),
       exposed := s.exposed + Interval(PageCount(s.header), PageCount(h)))
  }

  ghost function AfterLoad(s: State, i: nat): State {
    s.(cache := s.cache[i := Entry(Base(s, i), false)])
  }

  ghost function AfterTouch(s: State, i: nat): State {
    s.(cache := s.cache[i := Entry(Lookup(s, i), true)], exposed := s.exposed - {i})
  }

  ghost function AfterPut(s: State, i: nat, b: Block): State {
    s.(cache := s.cache[i := Entry(b, true)], exposed := s.exposed - {i})
  }

  ghost function AfterRollback(s: State): State {
    s.(header := s.saved, headerDirty := false, cache := map[], exposed := {}, mode := Idle)
  }

  ghost function AfterAppend(s: State, order: seq<nat>): State {
    s.(log := s.log.(frames := AppendedFrames(s, order),
                     touched := iset k: nat | k in s.log.touched || (order != [] && s.logCount <= k)),
       headerDirty := false,
       index := Indexed(s.index, order, s.logCount),
       logCount := s.logCount + |order|,
       mode := Appended)
  }

  ghost function AfterSyncFrames(s: State): State {
    s.(log := SyncLog(s.log), mode := FramesSynced)
  }

  ghost function AfterPublish(s: State): State {
    s.(log := WriteCount(s.log, s.logCount), mode := Published)
  }

  ghost function AfterSyncCount(s: State): State {
    s.(log := SyncLog(s.log), txCount := s.txCount + 1, mode := Durable)
  }

  ghost function AfterFinish(s: State): State {
    s.(cache := map[], mode := Idle)
  }

  ghost function AfterStartFold(s: State): State {
    s.(mode := Folding({}))
  }

  ghost function AfterFold(s: State, i: nat): State {
    s.(db := WriteUnit(s.db, i, LoggedBlock(s, i)), mode := Folding(FoldedUnits(s.mode) + {i}))
  }

  ghost function AfterFoldResize(s: State): State {
    s.(db := Resize(s.db, PageCount(s.header)), mode := FoldResized)
  }

  ghost function AfterSyncFold(s: State): State {
    s.(db := SyncDatabase(s.db), mode := FoldSynced)
  }

  ghost function AfterResetCount(s: State): State {
    s.(logCount := 0, log := WriteCount(s.log, 0), mode := FoldReset)
  }

  ghost function AfterSyncReset(s: State): State {
    s.(log := SyncLog(s.log), index := map[], txCount := 0, mode := Folded)
  }

  ghost function AfterClose(s: State): State {
    s.(header := s.zero, saved := s.zero, headerDirty := false, cache := map[], exposed := {},
       logCount := 0, index := map[], txCount := 0, mode := Closed)
  }

  ghost function AfterCrash(s: State, img: Image): State {
    AfterClose(s).(db := Database(img.file, img.file, iset{}),
                   log := Log(img.frames, img.frames, iset{}, img.count, img.count, {}))
  }

  ghost function AfterOpen(s: State): State {
    s.(header := Get(s.db.cur, s.zero, 0), logCount := s.log.count,
       mode := if s.log.count == 0 then Idle else Recovering(0))
  }

  ghost function AfterRecoverFrame(s: State): State {
    var frame := FrameAt(s.log.frames, NextFrame(s.mode));
    s.(db := WriteUnit(s.db, frame.slot, frame.block), mode := Recovering(NextFrame(s.mode) + 1))
  }

  ghost function AfterSyncRecovery(s: State): State {
    s.(db := SyncDatabase(s.db), mode := RecoverySynced)
  }

  ghost function AfterResetRecovery(s: State): State {
    s.(logCount := 0, log := WriteCount(s.log, 0), mode := RecoveryReset)
  }

  ghost function AfterSyncRecoveryReset(s: State): State {
    s.(log := SyncLog(s.log), mode := RecoveryDone)
  }

  ghost function AfterFinishRecovery(s: State): State {
    var h := Get(s.db.cur, s.zero, 0);
    s.(header := h, db := Resize(s.db, PageCount(h)), mode := Idle)
  }

  ghost function Step(s: State, a: Action): State {
    match a
    case Begin => AfterBegin(s)
    case SetHeader(h) => AfterSetHeader(s, h)
    case Extend(h) => AfterExtend(s, h)
    case Load(i) => AfterLoad(s, i)
    case Touch(i) => AfterTouch(s, i)
    case Put(i, b) => AfterPut(s, i, b)
    case Rollback => AfterRollback(s)
    case Append(order) => AfterAppend(s, order)
    case SyncFrames => AfterSyncFrames(s)
    case Publish => AfterPublish(s)
    case SyncCount => AfterSyncCount(s)
    case Finish => AfterFinish(s)
    case StartFold => AfterStartFold(s)
    case Fold(i) => AfterFold(s, i)
    case FoldResize => AfterFoldResize(s)
    case SyncFold => AfterSyncFold(s)
    case ResetCount => AfterResetCount(s)
    case SyncReset => AfterSyncReset(s)
    case Close => AfterClose(s)
    case Crash(img) => AfterCrash(s, img)
    case Open => AfterOpen(s)
    case RecoverFrame => AfterRecoverFrame(s)
    case SyncRecovery => AfterSyncRecovery(s)
    case ResetRecovery => AfterResetRecovery(s)
    case SyncRecoveryReset => AfterSyncRecoveryReset(s)
    case FinishRecovery => AfterFinishRecovery(s)
  }

  // ---- runs ----

  ghost function Run(s: State, acts: seq<Action>): State
  {
    if acts == [] then s else Step(Run(s, acts[..|acts| - 1]), acts[|acts| - 1])
  }

  ghost predicate Legal(s: State, acts: seq<Action>) {
    acts == [] || (Legal(s, acts[..|acts| - 1]) && Enabled(Run(s, acts[..|acts| - 1]), acts[|acts| - 1]))
  }
}
