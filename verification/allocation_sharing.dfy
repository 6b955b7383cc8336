/** Interleaved allocations in one transaction. A call of new_page suspends while a bitset page is loaded; what it
    does once it has the page is one step. */
module AllocationSharing {
  import opened PageAllocation

  type Task = nat

  datatype Call =
    | Looking(start: nat)  // at this bitset page, perhaps waiting for it
    | Opening(page: nat)   // has added this bitset page and waits for it
    | Given(page: nat)     // has returned this page

  /** `live` are the pages whose bit is set, `cached` the bitset pages in the cache. */
  datatype World = World(count: nat, live: set<nat>, cached: set<nat>, calls: map<Task, Call>)

  datatype Move =
    | Enter(t: Task)
    | Pass(t: Task)           // the block is full
    | Claim(t: Task, p: nat)  // its lowest free page
    | Open(t: Task)           // no block is left: add one
    | FinishOpen(t: Task)     // the new bitset page is there

  ghost predicate LooksAt(w: World, t: Task) {
    t in w.calls && w.calls[t].Looking? && w.calls[t].start < w.count
  }

  ghost predicate Possible(entries: nat, w: World, m: Move) {
    match m
    case Enter(t) => t !in w.calls
    case Pass(t) =>
      LooksAt(w, t)
      && forall q: nat :: w.calls[t].start < q < w.calls[t].start + Stride(entries) ==> q in w.live
    case Claim(t, p) =>
      && LooksAt(w, t) && w.calls[t].start < p < w.calls[t].start + Stride(entries)
      && p !in w.live && forall q: nat :: w.calls[t].start < q < p ==> q in w.live
    case Open(t) =>
      t in w.calls && w.calls[t].Looking? && w.count <= w.calls[t].start && IsBitsetPage(entries, w.count)
    case FinishOpen(t) => t in w.calls && w.calls[t].Opening?
  }

  ghost function Next(entries: nat, w: World, m: Move): World
    requires Possible(entries, w, m)
  {
    match m
    case Enter(t) => w.(calls := w.calls[t := Looking(1)])
    case Pass(t) =>
      var start := w.calls[t].start;
      w.(cached := w.cached + {start}, calls := w.calls[t := Looking(start + Stride(entries))])
    case Claim(t, p) =>
      w.(count := if p >= w.count then p + 1 else w.count, live := w.live + {p},
         cached := w.cached + {w.calls[t].start}, calls := w.calls[t := Given(p)])
    case Open(t) =>
      if w.count in w.cached
      then w.(count := w.count + 2, live := w.live + {w.count + 1}, calls := w.calls[t := Given(w.count + 1)])
      else w.(count := w.count + 2, calls := w.calls[t := Opening(w.count)])
    case FinishOpen(t) =>
      var page := w.calls[t].page;
      w.(live := w.live + {page + 1}, cached := w.cached + {page}, calls := w.calls[t := Given(page + 1)])
  }

  ghost predicate IsGiven(w: World, t: Task, p: nat) {
    t in w.calls && w.calls[t] == Given(p)
  }

  /** It waits for the bitset page it added, and will take the page behind it. */
  ghost predicate Awaits(w: World, t: Task, p: nat) {
    p > 0 && t in w.calls && w.calls[t] == Opening(p - 1)
  }

  /** Two calls were given one page. */
  ghost predicate Twice(w: World) {
    exists t: Task, u: Task, p: nat :: t != u && IsGiven(w, t, p) && IsGiven(w, u, p)
  }

  /** A call waits for the bitset page it added, and the page it is about to take was given to another. */
  ghost predicate Pending(w: World) {
    exists t: Task, u: Task, p: nat :: Awaits(w, t, p) && IsGiven(w, u, p)
  }

  /** The move takes the first page of a block whose bitset page another call has added and is waiting for. */
  ghost predicate Steals(w: World, m: Move) {
    m.Claim? && exists t: Task :: Awaits(w, t, m.p)
  }

  ghost predicate Sound(w: World) {
    && (forall t: Task, p: nat :: IsGiven(w, t, p) ==> p in w.live && p < w.count)
    && (forall t: Task, p: nat :: Awaits(w, t, p) ==> p < w.count)
    && (forall t: Task, u: Task, p: nat :: Awaits(w, t, p) && Awaits(w, u, p) ==> t == u)
  }

  /** Calls other than the one that moves stay as they are. */
  lemma OthersStay(entries: nat, w: World, m: Move, u: Task)
    requires Possible(entries, w, m) && u != m.t
    ensures forall p: nat :: IsGiven(Next(entries, w, m), u, p) <==> IsGiven(w, u, p)
    ensures forall p: nat :: Awaits(Next(entries, w, m), u, p) <==> Awaits(w, u, p)
  {
  }

  lemma StepSound(entries: nat, w: World, m: Move)
    requires Sound(w) && Possible(entries, w, m)
    ensures Sound(Next(entries, w, m))
  {
    var v := Next(entries, w, m);
    forall t: Task, p: nat | IsGiven(v, t, p)
      ensures p in v.live && p < v.count
    {
      if t != m.t {
        OthersStay(entries, w, m, t);
      } else if m.FinishOpen? {
        assert Awaits(w, t, p);
      }
    }
    forall t: Task, p: nat | Awaits(v, t, p)
      ensures p < v.count
    {
      if t != m.t { OthersStay(entries, w, m, t); }
    }
    forall t: Task, u: Task, p: nat | Awaits(v, t, p) && Awaits(v, u, p)
      ensures t == u
    {
      if t != m.t { OthersStay(entries, w, m, t); }
      if u != m.t { OthersStay(entries, w, m, u); }
    }
  }

  /** One page is given twice, or about to be, only through a steal ... */
  lemma OnlySteals(entries: nat, w: World, m: Move)
    requires Sound(w) && Possible(entries, w, m)
    requires Twice(Next(entries, w, m)) || Pending(Next(entries, w, m))
    ensures Twice(w) || Pending(w) || Steals(w, m)
  {
    var v := Next(entries, w, m);
    if Twice(v) {
      var t: Task, u: Task, p: nat :| t != u && IsGiven(v, t, p) && IsGiven(v, u, p);
      if t != m.t { OthersStay(entries, w, m, t); }
      if u != m.t { OthersStay(entries, w, m, u); }
      if t == m.t && m.FinishOpen? { assert Awaits(w, t, p) && IsGiven(w, u, p); }
      if u == m.t && m.FinishOpen? { assert Awaits(w, u, p) && IsGiven(w, t, p); }
    } else {
      var t: Task, u: Task, p: nat :| Awaits(v, t, p) && IsGiven(v, u, p);
      if t != m.t { OthersStay(entries, w, m, t); }
      if u != m.t { OthersStay(entries, w, m, u); }
      if u == m.t && m.FinishOpen? { assert Awaits(w, u, p); }
    }
  }

  /** ... which cannot be undone. */
  lemma StealsStay(entries: nat, w: World, m: Move)
    requires Sound(w) && Possible(entries, w, m) && (Twice(w) || Pending(w) || Steals(w, m))
    ensures Twice(Next(entries, w, m)) || Pending(Next(entries, w, m))
  {
    var v := Next(entries, w, m);
    if Twice(w) {
      var t: Task, u: Task, p: nat :| t != u && IsGiven(w, t, p) && IsGiven(w, u, p);
      OthersStay(entries, w, m, t);
      OthersStay(entries, w, m, u);
    } else if Pending(w) {
      var t: Task, u: Task, p: nat :| Awaits(w, t, p) && IsGiven(w, u, p);
      OthersStay(entries, w, m, u);
      if t == m.t {
        assert IsGiven(v, t, p) && IsGiven(v, u, p);
      } else {
        OthersStay(entries, w, m, t);
      }
    } else {
      var t: Task :| Awaits(w, t, m.p);
      OthersStay(entries, w, m, t);
      assert Awaits(v, t, m.p) && IsGiven(v, m.t, m.p);
    }
  }

  ghost predicate Run(entries: nat, ws: seq<World>, ms: seq<Move>) {
    && |ws| == |ms| + 1 && ws[0].calls == map[]
    && forall i :: 0 <= i < |ms| ==> Possible(entries, ws[i], ms[i]) && ws[i + 1] == Next(entries, ws[i], ms[i])
  }

  ghost predicate Stolen(ws: seq<World>, ms: seq<Move>, n: nat)
    requires n <= |ms| < |ws|
  {
    exists i :: 0 <= i < n && Steals(ws[i], ms[i])
  }

  lemma {:induction false} RunSteals(entries: nat, ws: seq<World>, ms: seq<Move>, n: nat)
    requires Run(entries, ws, ms) && n <= |ms|
    ensures Sound(ws[n]) && (Twice(ws[n]) || Pending(ws[n]) <==> Stolen(ws, ms, n))
  {
    hide Sound, Twice, Pending, Steals, Possible, Next;
    if n == 0 {
      NoCalls(ws[0]);
    } else {
      RunSteals(entries, ws, ms, n - 1);
      assert Possible(entries, ws[n - 1], ms[n - 1]) && ws[n - 1 + 1] == Next(entries, ws[n - 1], ms[n - 1]);
      StepSound(entries, ws[n - 1], ms[n - 1]);
      if Twice(ws[n]) || Pending(ws[n]) {
        OnlySteals(entries, ws[n - 1], ms[n - 1]);
      }
      if Twice(ws[n - 1]) || Pending(ws[n - 1]) || Steals(ws[n - 1], ms[n - 1]) {
        StealsStay(entries, ws[n - 1], ms[n - 1]);
      }
    }
  }

  lemma NoCalls(w: World)
    requires w.calls == map[]
    ensures Sound(w) && !Twice(w) && !Pending(w)
  {
  }

  /** However any number of allocations interleave: once no call waits for a bitset page it added, two of them were
      given one page if and only if at some point one took the first page of a block while the call that had added
      the block was still waiting for its bitset page. */
  lemma OnePageTwice(entries: nat, ws: seq<World>, ms: seq<Move>)
    requires Run(entries, ws, ms) && forall t :: t in ws[|ms|].calls ==> !ws[|ms|].calls[t].Opening?
    ensures Twice(ws[|ms|]) <==> exists i :: 0 <= i < |ms| && Steals(ws[i], ms[i])
  {
    RunSteals(entries, ws, ms, |ms|);
    hide Steals;
    assert !Pending(ws[|ms|]);
  }

  /** So calls that never find another one waiting get different pages; it is enough that every bitset page that is
      added is in the cache already, or that nobody allocates while one is loaded. */
  lemma DifferentPages(entries: nat, ws: seq<World>, ms: seq<Move>)
    requires Run(entries, ws, ms)
    requires forall i, t: Task, p: nat :: 0 <= i < |ms| && Awaits(ws[i], t, p) ==> ms[i] == FinishOpen(t)
    ensures !Twice(ws[|ms|])
  {
    RunSteals(entries, ws, ms, |ms|);
    hide Sound, Twice, Possible, Next, Awaits;
    assert forall i :: 0 <= i < |ms| ==> !Steals(ws[i], ms[i]);
  }

  /** In a new database: while the first call waits for bitset page 1, a second one finds it and takes page 2, which
      the first then returns as well. */
  lemma TwoFirstCalls(entries: nat) returns (ws: seq<World>, ms: seq<Move>)
    requires entries > 0
    ensures Run(entries, ws, ms) && ws[0] == World(1, {}, {}, map[])
    ensures IsGiven(ws[|ms|], 0, 2) && IsGiven(ws[|ms|], 1, 2)
  {
    FirstBlock(entries);
    ms := [Enter(0), Open(0), Enter(1), Claim(1, 2), FinishOpen(0)];
    var w0 := World(1, {}, {}, map[]);
    var w1 := Next(entries, w0, ms[0]);
    var w2 := Next(entries, w1, ms[1]);
    var w3 := Next(entries, w2, ms[2]);
    var w4 := Next(entries, w3, ms[3]);
    ws := [w0, w1, w2, w3, w4, Next(entries, w4, ms[4])];
  }
}
