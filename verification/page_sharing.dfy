/** Concurrent page loads of one transaction. A coroutine that misses the cache suspends while the page is
    read; others may load, write or zero the same page meanwhile. */
module PageSharing {
  import opened Storage

  type Task = nat
  type Buffer = nat

  datatype Progress =
    | Loading(page: nat, buffer: Buffer, writable: bool)  // suspended in the file read of rpage / rwpage
    | Holding(page: nat, buffer: Buffer, writable: bool)  // has been given the pointer

  datatype Slot = Slot(buffer: Buffer, dirty: bool)

  /** `heap` gives the content of every allocated buffer; `base` what the log and file hold, which no
      coroutine changes before the commit. */
  datatype World = World(
    base: map<nat, Block>, cache: map<nat, Slot>, heap: map<Buffer, Block>, tasks: map<Task, Progress>)

  datatype Move =
    | Start(t: Task, page: nat, writable: bool, spare: Buffer)
    | Finish(t: Task)
    | Store(t: Task, b: Block)
    | Zero(page: nat, spare: Buffer, zero: Block)  // ensure_page_zeroed, and the same code in delete_page

  ghost predicate Possible(w: World, m: Move) {
    match m
    case Start(t, page, writable, spare) => t !in w.tasks && page in w.base && spare !in w.heap
    case Finish(t) => t in w.tasks && w.tasks[t].Loading?
    case Store(t, b) => t in w.tasks && w.tasks[t].Holding? && w.tasks[t].writable
    case Zero(page, spare, zero) => page in w.base && spare !in w.heap
  }

  ghost function Next(w: World, m: Move): World
    requires Possible(w, m)
  {
    match m
    case Start(t, page, writable, spare) =>
      if page in w.cache then
        var slot := w.cache[page];
        w.(cache := if writable then w.cache[page := slot.(dirty := true)] else w.cache,
           tasks := w.tasks[t := Holding(page, slot.buffer, writable)])
      else
        w.(heap := w.heap[spare := w.base[page]], tasks := w.tasks[t := Loading(page, spare, writable)])
    case Finish(t) =>
      var Loading(page, buffer, writable) := w.tasks[t];
      if page in w.cache then
        var slot := w.cache[page];
        w.(heap := w.heap - {buffer},
           cache := if writable then w.cache[page := slot.(dirty := true)] else w.cache,
           tasks := w.tasks[t := Holding(page, slot.buffer, writable)])
      else
        w.(cache := w.cache[page := Slot(buffer, writable)], tasks := w.tasks[t := Holding(page, buffer, writable)])
    case Store(t, b) => w.(heap := w.heap[w.tasks[t].buffer := b])
    case Zero(page, spare, zero) =>
      if page in w.cache then
        var slot := w.cache[page];
        w.(heap := w.heap[slot.buffer := zero], cache := w.cache[page := slot.(dirty := true)])
      else
        w.(heap := w.heap[spare := zero], cache := w.cache[page := Slot(spare, true)])
  }

  ghost predicate Owned(w: World) {
    && (forall p :: p in w.cache ==> p in w.base && w.cache[p].buffer in w.heap)
    && (forall p, q :: p in w.cache && q in w.cache && p != q ==> w.cache[p].buffer != w.cache[q].buffer)
    && (forall t :: t in w.tasks && w.tasks[t].Loading? ==> w.tasks[t].buffer in w.heap && w.tasks[t].page in w.base)
    && (forall t, p :: t in w.tasks && w.tasks[t].Loading? && p in w.cache ==> w.tasks[t].buffer != w.cache[p].buffer)
    && (forall t, u :: t in w.tasks && u in w.tasks && t != u && w.tasks[t].Loading? && w.tasks[u].Loading? ==>
          w.tasks[t].buffer != w.tasks[u].buffer)
  }

  /** Every coroutine that has been given a page holds the one cached buffer of that page, which is still
      allocated, and one that may write holds a dirty page. */
  ghost predicate Shared(w: World) {
    forall t :: t in w.tasks && w.tasks[t].Holding? ==>
      var h := w.tasks[t];
      && h.page in w.cache && w.cache[h.page].buffer == h.buffer && h.buffer in w.heap
      && (h.writable ==> w.cache[h.page].dirty)
  }

  /** The content of a page as a plain page map would have it. */
  ghost function Content(w: World, p: nat): Block
    requires p in w.base && (p in w.cache ==> w.cache[p].buffer in w.heap)
  {
    if p in w.cache then w.heap[w.cache[p].buffer] else w.base[p]
  }

  /** Loads in flight carry what log and file hold; a clean page still shows it. */
  ghost predicate Faithful(w: World)
    requires Owned(w)
  {
    && (forall t :: t in w.tasks && w.tasks[t].Loading? ==> w.heap[w.tasks[t].buffer] == w.base[w.tasks[t].page])
    && (forall p :: p in w.cache && !w.cache[p].dirty ==> w.heap[w.cache[p].buffer] == w.base[p])
  }

  ghost predicate Sound(w: World) {
    Owned(w) && Shared(w) && Faithful(w)
  }

  lemma StartOwned(w: World, t: Task, page: nat, writable: bool, spare: Buffer)
    requires Sound(w) && Possible(w, Start(t, page, writable, spare))
    ensures Owned(Next(w, Start(t, page, writable, spare)))
  {
    hide Shared, Faithful;
  }

  lemma StartSound(w: World, t: Task, page: nat, writable: bool, spare: Buffer)
    requires Sound(w) && Possible(w, Start(t, page, writable, spare))
    ensures Sound(Next(w, Start(t, page, writable, spare)))
  {
    var v := Next(w, Start(t, page, writable, spare));
    StartOwned(w, t, page, writable, spare);
    assert Shared(v);
  }

  lemma FinishOwned(w: World, t: Task)
    requires Sound(w) && Possible(w, Finish(t))
    ensures Owned(Next(w, Finish(t)))
  {
    hide Shared, Faithful;
  }

  lemma FinishSound(w: World, t: Task)
    requires Sound(w) && Possible(w, Finish(t))
    ensures Sound(Next(w, Finish(t)))
  {
    FinishOwned(w, t);
    var v := Next(w, Finish(t));
    assert Shared(v);
    assert Faithful(v);
  }

  lemma StoreSound(w: World, t: Task, b: Block)
    requires Sound(w) && Possible(w, Store(t, b))
    ensures Sound(Next(w, Store(t, b)))
  {
    var v := Next(w, Store(t, b));
    assert v.tasks == w.tasks && v.cache == w.cache;
    assert Owned(v);
    assert Shared(v);
  }

  lemma ZeroSound(w: World, page: nat, spare: Buffer, zero: Block)
    requires Sound(w) && Possible(w, Zero(page, spare, zero))
    ensures Sound(Next(w, Zero(page, spare, zero)))
  {
    var v := Next(w, Zero(page, spare, zero));
    assert v.tasks == w.tasks;
    assert Owned(v);
    assert Shared(v);
  }

  lemma StepSound(w: World, m: Move)
    requires Sound(w) && Possible(w, m)
    ensures Sound(Next(w, m))
  {
    hide Sound;
    match m
    case Start(t, page, writable, spare) => StartSound(w, t, page, writable, spare);
    case Finish(t) => FinishSound(w, t);
    case Store(t, b) => StoreSound(w, t, b);
    case Zero(page, spare, zero) => ZeroSound(w, page, spare, zero);
  }

  /** What a plain page map does on the same move. */
  ghost function Written(w: World, m: Move, p: nat): Block
    requires Sound(w) && Possible(w, m) && p in w.base
  {
    match m
    case Store(t, b) => if p == w.tasks[t].page then b else Content(w, p)
    case Zero(page, _, zero) => if p == page then zero else Content(w, p)
    case _ => Content(w, p)
  }

  /** Looking a page up changes no content ... */
  lemma PassContent(w: World, m: Move, p: nat)
    requires Sound(w) && Possible(w, m) && p in w.base && (m.Start? || m.Finish?) && Sound(Next(w, m))
    ensures Next(w, m).base == w.base
    ensures Content(Next(w, m), p) == Written(w, m, p)
    ensures p in w.cache ==> p in Next(w, m).cache && Next(w, m).cache[p].buffer == w.cache[p].buffer
    ensures p in w.cache && w.cache[p].dirty ==> Next(w, m).cache[p].dirty
  {
    hide Shared;
  }

  /** ... and a store or zeroing the content of its page alone. */
  lemma StoreContent(w: World, m: Move, p: nat)
    requires Sound(w) && Possible(w, m) && p in w.base && m.Store? && Sound(Next(w, m))
    ensures Next(w, m).base == w.base
    ensures Content(Next(w, m), p) == Written(w, m, p)
    ensures p in w.cache ==> p in Next(w, m).cache && Next(w, m).cache[p].buffer == w.cache[p].buffer
    ensures p in w.cache && w.cache[p].dirty ==> Next(w, m).cache[p].dirty
  {
    hide Faithful;
  }

  lemma ZeroContent(w: World, m: Move, p: nat)
    requires Sound(w) && Possible(w, m) && p in w.base && m.Zero? && Sound(Next(w, m))
    ensures Next(w, m).base == w.base
    ensures Content(Next(w, m), p) == Written(w, m, p)
    ensures p in w.cache ==> p in Next(w, m).cache && Next(w, m).cache[p].buffer == w.cache[p].buffer
    ensures p in w.cache && w.cache[p].dirty ==> Next(w, m).cache[p].dirty
  {
    hide Shared, Faithful;
  }

  lemma StepContent(w: World, m: Move, p: nat)
    requires Sound(w) && Possible(w, m) && p in w.base
    ensures Sound(Next(w, m)) && Next(w, m).base == w.base
    ensures Content(Next(w, m), p) == Written(w, m, p)
    ensures p in w.cache ==> p in Next(w, m).cache && Next(w, m).cache[p].buffer == w.cache[p].buffer
    ensures p in w.cache && w.cache[p].dirty ==> Next(w, m).cache[p].dirty
  {
    StepSound(w, m);
    hide Sound;
    if m.Store? {
      StoreContent(w, m, p);
    } else if m.Zero? {
      ZeroContent(w, m, p);
    } else {
      PassContent(w, m, p);
    }
  }

  // ---- runs ----

  ghost predicate Run(ws: seq<World>, ms: seq<Move>) {
    && |ws| == |ms| + 1
    && (forall i :: 0 <= i < |ms| ==> Possible(ws[i], ms[i]) && ws[i + 1] == Next(ws[i], ms[i]))
  }

  /** The last store or zeroing of `p` among the first `n` moves decides its content. */
  ghost function LastWritten(ws: seq<World>, ms: seq<Move>, p: nat, n: nat): Block
    requires Run(ws, ms) && n <= |ms| && p in ws[0].base
    decreases n
  {
    if n == 0 then ws[0].base[p]
    else
      match ms[n - 1]
      case Store(t, b) => if ws[n - 1].tasks[t].page == p then b else LastWritten(ws, ms, p, n - 1)
      case Zero(page, _, zero) => if page == p then zero else LastWritten(ws, ms, p, n - 1)
      case _ => LastWritten(ws, ms, p, n - 1)
  }

  ghost predicate Fresh(w: World) {
    w.cache == map[] && w.heap == map[] && w.tasks == map[]
  }

  lemma {:induction false} RunSound(ws: seq<World>, ms: seq<Move>, p: nat, n: nat)
    requires Run(ws, ms) && Fresh(ws[0]) && n <= |ms| && p in ws[0].base
    ensures Sound(ws[n]) && ws[n].base == ws[0].base
    ensures Content(ws[n], p) == LastWritten(ws, ms, p, n)
  {
    if n > 0 {
      RunSound(ws, ms, p, n - 1);
      StepContent(ws[n - 1], ms[n - 1], p);
      assert ws[n - 1 + 1] == Next(ws[n - 1], ms[n - 1]);
    }
  }

  /** In every interleaving of one transaction, any two coroutines that have been given the same page hold
      the same buffer, it is allocated, it shows the last store to the page, and a writer's page is dirty. */
  lemma HoldersAgree(ws: seq<World>, ms: seq<Move>, w: World, t: Task, u: Task)
    requires Run(ws, ms) && Fresh(ws[0]) && w == ws[|ms|]
    requires t in w.tasks && u in w.tasks && w.tasks[t].Holding? && w.tasks[u].Holding?
    requires w.tasks[t].page == w.tasks[u].page && w.tasks[t].page in ws[0].base
    ensures w.tasks[t].buffer == w.tasks[u].buffer && w.tasks[t].buffer in w.heap
    ensures w.heap[w.tasks[t].buffer] == LastWritten(ws, ms, w.tasks[t].page, |ms|)
    ensures w.tasks[t].page in w.cache && (w.tasks[t].writable ==> w.cache[w.tasks[t].page].dirty)
  {
    RunSound(ws, ms, w.tasks[t].page, |ms|);
  }

  /** Once a page is cached its buffer is never replaced, and once dirty it stays dirty. */
  lemma {:induction false} BufferStays(ws: seq<World>, ms: seq<Move>, p: nat, i: nat, j: nat)
    requires Run(ws, ms) && Fresh(ws[0]) && i <= j <= |ms| && p in ws[0].base && p in ws[i].cache
    ensures p in ws[j].cache && ws[j].cache[p].buffer == ws[i].cache[p].buffer
    ensures ws[i].cache[p].dirty ==> ws[j].cache[p].dirty
  {
    if i < j {
      BufferStays(ws, ms, p, i, j - 1);
      RunSound(ws, ms, p, j - 1);
      StepContent(ws[j - 1], ms[j - 1], p);
      assert ws[j - 1 + 1] == Next(ws[j - 1], ms[j - 1]);
    }
  }
}
