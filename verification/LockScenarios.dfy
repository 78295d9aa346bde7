/** Runs of the lock hooks that show where the detector is right and where it is not. */
module LockScenarios {
  import opened Digraphs
  import opened CycleSearch
  import opened WaitGraph
  import opened LockProtocol
  import opened EdgeCircles
  import opened CircularWait

  // ---------------------------------------------------------------- snapshots of a run

  /** What matters of a state in which no thread has two edges and the table has two slots. */
  datatype Snapshot = Snapshot(a: LockSlot, b: LockSlot, edges: map<nat, nat>, pending: map<nat, nat>, held: map<nat, nat>)
  {
    predicate Tabled(lock: nat) {
      a.lockId == lock || b.lockId == lock
    }

    function Slot(lock: nat): LockSlot {
      if a.lockId == lock then a else b
    }

    function With(lock: nat, x: LockSlot): Snapshot {
      if a.lockId == lock then this.(a := x) else this.(b := x)
    }

    predicate HasEdge(t: nat, o: nat) {
      t in edges && edges[t] == o
    }

    ghost predicate WaitsFor(t: nat, o: nat) {
      t in pending && Tabled(pending[t]) && Slot(pending[t]).thId == o && o != t
    }

    ghost predicate BlockedBy(t: nat, o: nat) {
      t in pending && pending[t] in held && held[pending[t]] == o && o != t
    }
  }

  ghost predicate Shows(s: Protocol, v: Snapshot) {
    HooksShown(s.hooks, v) && s.pending == v.pending && s.held == v.held
  }

  ghost predicate HooksShown(h: HookState, v: Snapshot) {
    h.WellFormed() && EdgesShown(h.reg, v.edges) && h.slots == [v.a, v.b]
  }

  ghost predicate EdgesShown(r: Registry, edges: map<nat, nat>) {
    && |r.keys| == |r.out| && Processes(r)
    && forall t: nat :: EdgeShown(r, edges, t)
  }

  ghost predicate EdgeShown(r: Registry, edges: map<nat, nat>, t: nat)
    requires |r.keys| == |r.out|
  {
    r.OutOf(Process(t)) == if t in edges then [Process(edges[t])] else []
  }

  /** The hook is allowed, and no thread gets a second edge. */
  predicate Fits(d: Discipline, v: Snapshot, e: Event) {
    e.lock != 0
    && match e
       case Before(t, lock) =>
         && t !in v.pending && (v.Tabled(lock) ==> t !in v.edges)
         && (d.OneWaiter? ==> forall t' | t' in v.pending :: v.pending[t'] != lock)
       case After(t, lock) =>
         t in v.pending && v.pending[t] == lock && (v.Tabled(lock) || v.a.degress == 0 || v.b.degress == 0)
       case Unlock(_, lock) =>
         v.Tabled(lock)
  }

  function Next(d: Discipline, v: Snapshot, e: Event): Snapshot
    requires Fits(d, v, e)
  {
    var x := v.Slot(e.lock);
    match e
    case Before(t, lock) =>
      var v' := v.(pending := v.pending[t := lock]);
      if !v.Tabled(lock) then v'
      else
        v'.With(lock, x.(degress := x.degress + 1)).(edges := if x.thId == t then v.edges else v.edges[t := x.thId])
    case After(t, lock) =>
      var v' := v.(pending := v.pending - {t}, held := v.held[lock := t]);
      if v.Tabled(lock) then
        v'.With(lock, x.(thId := t, degress := x.degress - 1)).(
          edges := if v.HasEdge(t, x.thId) then v.edges - {t} else v.edges)
      else if v.a.degress == 0 then v'.(a := v.a.(thId := t, lockId := lock))
      else v'.(b := v.b.(thId := t, lockId := lock))
    case Unlock(t, lock) =>
      (if x.degress == 0 then v.With(lock, x.(thId := 0, lockId := 0)) else v).(
        held := if lock in v.held && v.held[lock] == t then v.held - {lock} else v.held)
  }

  lemma TwoSlots(v: Snapshot, lock: nat)
    ensures var slots := [v.a, v.b];
            && FindLock(slots, lock) == (if v.a.lockId == lock then 0 else if v.b.lockId == lock then 1 else -1)
            && FindEmpty(slots) == (if v.a.degress == 0 then 0 else if v.b.degress == 0 then 1 else -1)
  {
    var slots := [v.a, v.b];
    assert slots[0] == v.a && slots[1] == v.b;
  }

  lemma FitsAllows(s: Protocol, d: Discipline, v: Snapshot, e: Event)
    requires Shows(s, v) && Fits(d, v, e)
    ensures s.Allows(d, e)
  {
    TwoSlots(v, e.lock);
    if d.OneWaiter? && e.Before? {
      assert s.Waiters(e.lock) == {};
    }
  }

  lemma ShowsNext(s: Protocol, d: Discipline, v: Snapshot, e: Event)
    requires Shows(s, v) && Fits(d, v, e) && s.Allows(d, e)
    ensures Shows(s.Step(e), Next(d, v, e))
  {
    match e
    case Before(t, lock) => ShowsBefore(s, d, v, t, lock);
    case After(t, lock) => ShowsAfter(s, d, v, t, lock);
    case Unlock(t, lock) => ShowsUnlock(s, d, v, t, lock);
  }

  lemma ShowsBefore(s: Protocol, d: Discipline, v: Snapshot, t: nat, lock: nat)
    requires Shows(s, v) && Fits(d, v, Before(t, lock))
    ensures Shows(s.Step(Before(t, lock)), Next(d, v, Before(t, lock)))
  {
    TwoSlots(v, lock);
    if v.Tabled(lock) {
      HooksWait(s.hooks, d, v, t, lock);
    }
  }

  lemma HooksWait(h: HookState, d: Discipline, v: Snapshot, t: nat, lock: nat)
    requires HooksShown(h, v) && Fits(d, v, Before(t, lock)) && v.Tabled(lock)
    ensures HooksShown(h.Before(t, lock), Next(d, v, Before(t, lock)))
  {
    TwoSlots(v, lock);
    EdgesBefore(h, v.edges, t, lock);
    var v' := Next(d, v, Before(t, lock));
    assert v'.edges == if h.Owner(lock) != t then v.edges[t := h.Owner(lock)] else v.edges;
  }

  lemma EdgesBefore(h: HookState, edges: map<nat, nat>, t: nat, lock: nat)
    requires h.WellFormed() && EdgesShown(h.reg, edges) && (h.Tabled(lock) ==> t !in edges)
    ensures h.Before(t, lock).WellFormed()
    ensures EdgesShown(h.Before(t, lock).reg,
                       if h.Tabled(lock) && h.Owner(lock) != t then edges[t := h.Owner(lock)] else edges)
  {
    BeforeEdges(h, t, lock);
    assert EdgeShown(h.reg, edges, t);
    if h.Tabled(lock) {
      BeforeFromNone(h, t, lock);
    }
    var h', edges' := h.Before(t, lock), if h.Tabled(lock) && h.Owner(lock) != t then edges[t := h.Owner(lock)] else edges;
    forall x: nat
      ensures EdgeShown(h'.reg, edges', x)
    {
      assert EdgeShown(h.reg, edges, x);
      assert h'.reg.OutOf(Process(x)) == if x == t then h'.reg.OutOf(Process(t)) else h.reg.OutOf(Process(x));
    }
  }

  lemma ShowsAfter(s: Protocol, d: Discipline, v: Snapshot, t: nat, lock: nat)
    requires Shows(s, v) && Fits(d, v, After(t, lock)) && Defined(s.hooks, After(t, lock))
    ensures Shows(s.Step(After(t, lock)), Next(d, v, After(t, lock)))
  {
    TwoSlots(v, lock);
    EdgesAfter(s.hooks, v.edges, t, lock);
  }

  lemma EdgesAfter(h: HookState, edges: map<nat, nat>, t: nat, lock: nat)
    requires h.WellFormed() && EdgesShown(h.reg, edges) && Defined(h, After(t, lock))
    ensures h.After(t, lock).WellFormed()
    ensures EdgesShown(h.After(t, lock).reg,
                       if h.Tabled(lock) && t in edges && edges[t] == h.Owner(lock) then edges - {t} else edges)
  {
    AfterEdges(h, t, lock);
    assert EdgeShown(h.reg, edges, t);
    if h.Tabled(lock) {
      AfterFromAtMostOne(h, t, lock, if t in edges then edges[t] else 0);
    }
    var h', edges' := h.After(t, lock),
                      if h.Tabled(lock) && t in edges && edges[t] == h.Owner(lock) then edges - {t} else edges;
    forall x: nat
      ensures EdgeShown(h'.reg, edges', x)
    {
      assert EdgeShown(h.reg, edges, x);
      assert h'.reg.OutOf(Process(x)) == if x == t then h'.reg.OutOf(Process(t)) else h.reg.OutOf(Process(x));
    }
  }

  lemma ShowsUnlock(s: Protocol, d: Discipline, v: Snapshot, t: nat, lock: nat)
    requires Shows(s, v) && Fits(d, v, Unlock(t, lock)) && Defined(s.hooks, Unlock(t, lock))
    ensures Shows(s.Step(Unlock(t, lock)), Next(d, v, Unlock(t, lock)))
  {
    TwoSlots(v, lock);
  }

  predicate IsNext(d: Discipline, es: seq<Event>, vs: seq<Snapshot>, i: nat)
    requires i < |es| < |vs|
  {
    Fits(d, vs[i], es[i]) && Next(d, vs[i], es[i]) == vs[i + 1]
  }

  const START := Snapshot(EMPTY_SLOT, EMPTY_SLOT, map[], map[], map[])

  lemma StartShown()
    ensures Shows(Init(2), START)
  {
    assert Init(2).hooks.slots == [EMPTY_SLOT, EMPTY_SLOT];
  }

  lemma ShowsOneMore(d: Discipline, es: seq<Event>, e: Event, v: Snapshot)
    requires Runs(Init(2), d, es) && Shows(RunTo(Init(2), d, es), v) && Fits(d, v, e)
    ensures Runs(Init(2), d, es + [e]) && Shows(RunTo(Init(2), d, es + [e]), Next(d, v, e))
  {
    var s := RunTo(Init(2), d, es);
    FitsAllows(s, d, v, e);
    ShowsNext(s, d, v, e);
    RunsOneMore(Init(2), d, es, e);
  }

  /** A sequence of snapshots shows the run of its events, in a table of two slots. */
  lemma {:induction false} SnapshotsShowRun(d: Discipline, es: seq<Event>, vs: seq<Snapshot>, n: nat)
    requires n <= |es| < |vs| && vs[0] == START && forall i | 0 <= i < n :: IsNext(d, es, vs, i)
    ensures Runs(Init(2), d, es[..n]) && Shows(RunTo(Init(2), d, es[..n]), vs[n])
  {
    if n == 0 {
      StartShown();
    } else {
      SnapshotsShowRun(d, es, vs, n - 1);
      assert IsNext(d, es, vs, n - 1);
      ShowsOneMore(d, es[..n - 1], es[n - 1], vs[n - 1]);
      assert es[..n] == es[..n - 1] + [es[n - 1]];
    }
  }

  ghost predicate IsFilm(d: Discipline, es: seq<Event>, vs: seq<Snapshot>) {
    |vs| == |es| + 1 && vs[0] == START && forall i | 0 <= i < |es| :: IsNext(d, es, vs, i)
  }

  lemma FilmOneMore(d: Discipline, es: seq<Event>, vs: seq<Snapshot>, e: Event)
    requires IsFilm(d, es, vs) && Fits(d, vs[|es|], e)
    ensures IsFilm(d, es + [e], vs + [Next(d, vs[|es|], e)])
  {
    var es', vs' := es + [e], vs + [Next(d, vs[|es|], e)];
    forall i | 0 <= i < |es'|
      ensures IsNext(d, es', vs', i)
    {
      assert i < |es| ==> IsNext(d, es, vs, i);
    }
  }

  lemma FilmRuns(d: Discipline, es: seq<Event>, vs: seq<Snapshot>) returns (s: Protocol)
    requires IsFilm(d, es, vs)
    ensures IsReached(2, d, es, s) && Shows(s, vs[|es|])
  {
    SnapshotsShowRun(d, es, vs, |es|);
    assert es[..|es|] == es;
    s := RunTo(Init(2), d, es);
  }

  lemma FilmRunsPart(d: Discipline, es: seq<Event>, vs: seq<Snapshot>, n: nat) returns (s: Protocol)
    requires IsFilm(d, es, vs) && n <= |es|
    ensures IsReached(2, d, es[..n], s) && Shows(s, vs[n])
  {
    SnapshotsShowRun(d, es, vs, n);
    s := RunTo(Init(2), d, es[..n]);
  }

  /** What the check and the waits are in a state that the snapshot shows. */
  lemma ReadSnapshot(s: Protocol, v: Snapshot)
    requires Shows(s, v)
    ensures Reported(s.hooks.reg) <==> HasCircle(v.HasEdge)
    ensures CircularWaiting(s) <==> HasCircle(v.WaitsFor)
    ensures Deadlock(s) <==> HasCircle(v.BlockedBy)
  {
    forall t: nat
      ensures |s.hooks.reg.OutOf(Process(t))| <= 1
      ensures forall o: nat :: s.hooks.reg.HasEdge(t, o) <==> v.HasEdge(t, o)
    {
      assert EdgeShown(s.hooks.reg, v.edges, t);
    }
    CheckFindsCircles(s.hooks.reg);
    forall t | t in s.pending {
      TwoSlots(v, s.pending[t]);
    }
    CirclesAgree(s.hooks.reg.HasEdge, v.HasEdge);
    CirclesAgree(s.WaitsFor, v.WaitsFor);
    CirclesAgree(s.BlockedBy, v.BlockedBy);
  }

  lemma CirclesAgree(r1: (nat, nat) -> bool, r2: (nat, nat) -> bool)
    requires forall t: nat, o: nat :: r1(t, o) <==> r2(t, o)
    ensures HasCircle(r1) <==> HasCircle(r2)
  {
    if HasCircle(r1) {
      CircleIn(r1, r2);
    }
    if HasCircle(r2) {
      CircleIn(r2, r1);
    }
  }

  lemma MutualIsCircle(related: (nat, nat) -> bool, t: nat, o: nat)
    requires related(t, o) && related(o, t)
    ensures HasCircle(related)
  {
    assert Chain(related, [t, o, t]);
  }

  lemma CircleGoesOn(related: (nat, nat) -> bool) returns (t: nat, o: nat, p: nat, q: nat)
    requires HasCircle(related)
    ensures related(t, o) && related(o, p) && related(p, q)
  {
    var ts :| Chain(related, ts) && |ts| >= 2 && ts[0] == ts[|ts| - 1];
    var turns := ts + ts[1..] + ts[1..];
    t, o, p, q := turns[0], turns[1], turns[2], turns[3];
    assert related(ts[0], ts[0 + 1]);
    assert |ts| > 2 ==> related(ts[1], ts[1 + 1]);
    assert |ts| > 3 ==> related(ts[2], ts[2 + 1]);
  }

  /** Two edges that end where none begins make no circle. */
  lemma NoCircleOfEdges(v: Snapshot, t: nat, o: nat, p: nat)
    requires (forall x | x in v.edges :: x == t || x == o)
    requires (t in v.edges ==> v.edges[t] == o) && (o in v.edges ==> v.edges[o] == p) && p !in {t, o} && t != o
    ensures !HasCircle(v.HasEdge)
  {
    if HasCircle(v.HasEdge) {
      var x1, x2, x3, x4 := CircleGoesOn(v.HasEdge);
    }
  }

  /** A single waiting thread makes no circle. */
  lemma NoCircleOfOne(v: Snapshot, t: nat)
    requires forall x | x in v.pending :: x == t
    ensures !HasCircle(v.WaitsFor) && !HasCircle(v.BlockedBy)
  {
    if HasCircle(v.WaitsFor) {
      var x1, x2, x3, x4 := CircleGoesOn(v.WaitsFor);
    }
    if HasCircle(v.BlockedBy) {
      var x1, x2, x3, x4 := CircleGoesOn(v.BlockedBy);
    }
  }

  /** When all held locks are held by a thread that is not blocked, there is no deadlock. */
  lemma NoCircleOfHeld(v: Snapshot, o: nat)
    requires forall l | l in v.held :: v.held[l] == o
    ensures !HasCircle(v.BlockedBy)
  {
    if HasCircle(v.BlockedBy) {
      var x1, x2, x3, x4 := CircleGoesOn(v.BlockedBy);
    }
  }

  // ---------------------------------------------------------------- within the discipline

  /** Thread 1 and thread 2 hold a lock each, both in the table, and 1 waits for the lock of 2. */
  const APPROACH_RUN: seq<Event> :=
    [Before(3, 2), After(3, 2), Before(2, 2), Before(1, 1), After(1, 1), Unlock(3, 2), After(2, 2), Before(1, 2)]

  lemma ApproachFilm() returns (vs: seq<Snapshot>)
    ensures IsFilm(OneWaiter, APPROACH_RUN, vs)
    ensures vs[8] == Snapshot(LockSlot(2, 2, 1), LockSlot(1, 1, 0), map[1 := 2], map[1 := 2], map[1 := 1, 2 := 2])
  {
    var d, es := OneWaiter, APPROACH_RUN;
    var v1 := Next(d, START, es[0]);
    var v2 := Next(d, v1, es[1]);
    var v3 := Next(d, v2, es[2]);
    var v4 := Next(d, v3, es[3]);
    var v5 := Next(d, v4, es[4]);
    var v6 := Next(d, v5, es[5]);
    var v7 := Next(d, v6, es[6]);
    var v8 := Next(d, v7, es[7]);
    vs := [START, v1, v2, v3, v4, v5, v6, v7, v8];
  }

  lemma DeadlockCircles(v: Snapshot)
    requires v == Snapshot(LockSlot(2, 2, 1), LockSlot(1, 1, 1),
                           map[1 := 2, 2 := 1], map[1 := 2, 2 := 1], map[1 := 1, 2 := 2])
    ensures HasCircle(v.HasEdge) && HasCircle(v.WaitsFor) && HasCircle(v.BlockedBy)
  {
    MutualIsCircle(v.HasEdge, 1, 2);
    MutualIsCircle(v.WaitsFor, 1, 2);
    MutualIsCircle(v.BlockedBy, 1, 2);
  }

  /** A deadlock of two threads that a disciplined run leads to, and that is reported. */
  lemma DeadlockIsReported() returns (s: Protocol)
    ensures IsReached(2, OneWaiter, APPROACH_RUN + [Before(2, 1)], s)
    ensures Deadlock(s) && CircularWaiting(s) && Reported(s.hooks.reg)
  {
    var vs := ApproachFilm();
    var v := Next(OneWaiter, vs[8], Before(2, 1));
    DeadlockCircles(v);
    FilmOneMore(OneWaiter, APPROACH_RUN, vs, Before(2, 1));
    s := FilmRuns(OneWaiter, APPROACH_RUN + [Before(2, 1)], vs + [v]);
    ReadSnapshot(s, v);
  }

  lemma ReleaseCircles(v: Snapshot)
    requires v.edges == v.pending == map[1 := 2, 2 := 1] && v.held == map[1 := 1]
    ensures HasCircle(v.HasEdge) && !HasCircle(v.BlockedBy)
  {
    MutualIsCircle(v.HasEdge, 1, 2);
    NoCircleOfHeld(v, 1);
  }

  /** An instance of ReleasedLockIsReported: thread 2 first releases what thread 1 waits for, so that there
      is a report where there is no deadlock. */
  lemma ReportWithoutDeadlock() returns (s: Protocol)
    ensures IsReached(2, OneWaiter, APPROACH_RUN + [Unlock(2, 2)] + [Before(2, 1)], s)
    ensures Reported(s.hooks.reg) && !Deadlock(s)
  {
    var vs := ApproachFilm();
    var v9 := Next(OneWaiter, vs[8], Unlock(2, 2));
    var v10 := Next(OneWaiter, v9, Before(2, 1));
    ReleaseCircles(v10);
    FilmOneMore(OneWaiter, APPROACH_RUN, vs, Unlock(2, 2));
    FilmOneMore(OneWaiter, APPROACH_RUN + [Unlock(2, 2)], vs + [v9], Before(2, 1));
    s := FilmRuns(OneWaiter, APPROACH_RUN + [Unlock(2, 2)] + [Before(2, 1)], vs + [v9] + [v10]);
    ReadSnapshot(s, v10);
  }

  /** Two threads take one lock each, and then want each other's. */
  const FORGOTTEN_RUN: seq<Event> :=
    [Before(1, 1), After(1, 1), Before(2, 2), After(2, 2), Before(1, 2), Before(2, 1)]

  lemma ForgottenFilm() returns (vs: seq<Snapshot>)
    ensures IsFilm(OneWaiter, FORGOTTEN_RUN, vs)
    ensures !vs[4].Tabled(1) && vs[4].held == map[1 := 1, 2 := 2]
    ensures vs[6].edges == map[1 := 2] && vs[6].pending == map[1 := 2, 2 := 1] && vs[6].held == map[1 := 1, 2 := 2]
  {
    var d, es := OneWaiter, FORGOTTEN_RUN;
    var v1 := Next(d, START, es[0]);
    var v2 := Next(d, v1, es[1]);
    var v3 := Next(d, v2, es[2]);
    var v4 := Next(d, v3, es[3]);
    var v5 := Next(d, v4, es[4]);
    var v6 := Next(d, v5, es[5]);
    vs := [START, v1, v2, v3, v4, v5, v6];
  }

  lemma ForgottenCircles(v: Snapshot)
    requires v.edges == map[1 := 2] && v.pending == map[1 := 2, 2 := 1] && v.held == map[1 := 1, 2 := 2]
    ensures HasCircle(v.BlockedBy) && !HasCircle(v.HasEdge)
  {
    MutualIsCircle(v.BlockedBy, 1, 2);
    NoCircleOfEdges(v, 1, 2, 3);
  }

  /** The second lock takes the slot of the first one, which is held, but which nobody waits on: from then on
      the release of the first lock has no slot to work on, and the deadlock of the two threads is missed. */
  lemma ForgottenLockHidesDeadlock() returns (s4: Protocol, s: Protocol)
    ensures IsReached(2, OneWaiter, FORGOTTEN_RUN[..4], s4)
    ensures 1 in s4.held && s4.held[1] == 1 && !Defined(s4.hooks, Unlock(1, 1))
    ensures IsReached(2, OneWaiter, FORGOTTEN_RUN, s) && Deadlock(s) && !Reported(s.hooks.reg)
  {
    var vs := ForgottenFilm();
    s := FilmRuns(OneWaiter, FORGOTTEN_RUN, vs);
    s4 := FilmRunsPart(OneWaiter, FORGOTTEN_RUN, vs, 4);
    TwoSlots(vs[4], 1);
    ForgottenCircles(vs[6]);
    ReadSnapshot(s, vs[6]);
  }

  // ---------------------------------------------------------------- with two waiters on a lock

  lemma HookKeepsTabled(h: HookState, e: Event)
    requires h.WellFormed() && h.Tabled(e.lock) && (e.Unlock? ==> h.Degress(e.lock) != 0)
    ensures Defined(h, e) && Hook(h, e).Tabled(e.lock)
    ensures Hook(h, e).Owner(e.lock) == if e.After? then e.t else h.Owner(e.lock)
    ensures Hook(h, e).Degress(e.lock) ==
              h.Degress(e.lock) + match e case Before(_, _) => 1 case After(_, _) => -1 case Unlock(_, _) => 0
  {
    SameLocks(h.slots, Hook(h, e).slots, e.lock);
  }

  /** What h1 becomes while t2 waits for the lock that o owns, gets it, and releases it. */
  ghost predicate SecondWait(h1: HookState, t2: nat, o: nat, lock: nat, h2: HookState) {
    && h1.WellFormed() && Defined(h1, Before(t2, lock))
    && var a := Hook(h1, Before(t2, lock));
    && Defined(a, Unlock(o, lock))
    && var b := Hook(a, Unlock(o, lock));
    && Defined(b, After(t2, lock))
    && var c := Hook(b, After(t2, lock));
    Defined(c, Unlock(t2, lock)) && h2 == Hook(c, Unlock(t2, lock))
  }

  lemma SecondWaitChangesOwner(h1: HookState, t2: nat, o: nat, lock: nat, t: nat) returns (h2: HookState)
    requires h1.WellFormed() && h1.Tabled(lock) && h1.Degress(lock) >= 1 && t != t2
    ensures SecondWait(h1, t2, o, lock, h2) && h2.WellFormed() && h2.Tabled(lock) && h2.Owner(lock) == t2
    ensures h2.reg.OutOf(Process(t)) == h1.reg.OutOf(Process(t))
  {
    HookKeepsTabled(h1, Before(t2, lock));
    OthersKeepEdges(h1, Before(t2, lock), t);
    var a := Hook(h1, Before(t2, lock));
    HookKeepsTabled(a, Unlock(o, lock));
    OthersKeepEdges(a, Unlock(o, lock), t);
    var b := Hook(a, Unlock(o, lock));
    HookKeepsTabled(b, After(t2, lock));
    OthersKeepEdges(b, After(t2, lock), t);
    var c := Hook(b, After(t2, lock));
    HookKeepsTabled(c, Unlock(t2, lock));
    OthersKeepEdges(c, Unlock(t2, lock), t);
    h2 := Hook(c, Unlock(t2, lock));
  }

  /** With two waiters on a lock, the owner changes under the second one: its edge to the
      former owner is still there after its own wait is over. */
  lemma SecondWaiterLeavesStaleEdge(h: HookState, t: nat, t2: nat, lock: nat) returns (h2: HookState)
    requires h.WellFormed() && h.Tabled(lock) && h.Degress(lock) >= 0 && h.reg.OutOf(Process(t)) == []
    requires h.Owner(lock) !in {t, t2} && t != t2
    ensures SecondWait(Hook(h, Before(t, lock)), t2, h.Owner(lock), lock, h2)
    ensures h2.WellFormed() && Defined(h2, After(t, lock))
    ensures Hook(h2, After(t, lock)).reg.OutOf(Process(t)) == [Process(h.Owner(lock))]
  {
    HookKeepsTabled(h, Before(t, lock));
    BeforeFromNone(h, t, lock);
    h2 := SecondWaitChangesOwner(Hook(h, Before(t, lock)), t2, h.Owner(lock), lock, t);
    AfterFromAtMostOne(h2, t, lock, h.Owner(lock));
  }

  /** Threads 3 and 2 wait for the lock of thread 1; first 2 gets it, then 3, and 1 wants it back. */
  const STALE_EDGE_RUN: seq<Event> :=
    [Before(1, 1), After(1, 1), Before(3, 1), Before(2, 1), Unlock(1, 1), After(2, 1), Unlock(2, 1), After(3, 1),
     Before(1, 1)]

  lemma StaleEdgeFilm() returns (vs: seq<Snapshot>)
    ensures IsFilm(Sequential, STALE_EDGE_RUN, vs)
    ensures vs[9].edges == map[3 := 1, 1 := 3] && vs[9].pending == map[1 := 1]
  {
    var d, es := Sequential, STALE_EDGE_RUN;
    var v1 := Next(d, START, es[0]);
    var v2 := Next(d, v1, es[1]);
    var v3 := Next(d, v2, es[2]);
    var v4 := Next(d, v3, es[3]);
    var v5 := Next(d, v4, es[4]);
    var v6 := Next(d, v5, es[5]);
    var v7 := Next(d, v6, es[6]);
    var v8 := Next(d, v7, es[7]);
    var v9 := Next(d, v8, es[8]);
    vs := [START, v1, v2, v3, v4, v5, v6, v7, v8, v9];
  }

  lemma StaleEdgeCircles(v: Snapshot)
    requires v.edges == map[3 := 1, 1 := 3] && v.pending == map[1 := 1]
    ensures HasCircle(v.HasEdge) && !HasCircle(v.WaitsFor) && !HasCircle(v.BlockedBy)
  {
    MutualIsCircle(v.HasEdge, 1, 3);
    NoCircleOfOne(v, 1);
  }

  /** The stale edge makes a false report: thread 3 waits for nothing. */
  lemma StaleEdgeIsReported() returns (s: Protocol)
    ensures IsReached(2, Sequential, STALE_EDGE_RUN, s)
    ensures Reported(s.hooks.reg) && !CircularWaiting(s) && !Deadlock(s)
  {
    var vs := StaleEdgeFilm();
    s := FilmRuns(Sequential, STALE_EDGE_RUN, vs);
    StaleEdgeCircles(vs[9]);
    ReadSnapshot(s, vs[9]);
  }

  /** Threads 1 and 2 wait for the lock of thread 3, 2 while it holds another one; 1 gets it and wants that other one. */
  const HIDDEN_RUN: seq<Event> :=
    [Before(3, 1), After(3, 1), Before(1, 1), Before(2, 2), After(2, 2), Before(2, 1), Unlock(3, 1), After(1, 1),
     Before(1, 2)]

  lemma HiddenFilm() returns (vs: seq<Snapshot>)
    ensures IsFilm(Sequential, HIDDEN_RUN, vs)
    ensures vs[9].edges == map[2 := 3, 1 := 2] && vs[9].pending == map[2 := 1, 1 := 2] && vs[9].held == map[1 := 1, 2 := 2]
    ensures vs[9].a == LockSlot(1, 1, 1) && vs[9].b == LockSlot(2, 2, 1)
  {
    var d, es := Sequential, HIDDEN_RUN;
    var v1 := Next(d, START, es[0]);
    var v2 := Next(d, v1, es[1]);
    var v3 := Next(d, v2, es[2]);
    var v4 := Next(d, v3, es[3]);
    var v5 := Next(d, v4, es[4]);
    var v6 := Next(d, v5, es[5]);
    var v7 := Next(d, v6, es[6]);
    var v8 := Next(d, v7, es[7]);
    var v9 := Next(d, v8, es[8]);
    vs := [START, v1, v2, v3, v4, v5, v6, v7, v8, v9];
  }

  lemma HiddenCircles(v: Snapshot)
    requires v.a == LockSlot(1, 1, 1) && v.b == LockSlot(2, 2, 1)
    requires v.edges == map[2 := 3, 1 := 2] && v.pending == map[2 := 1, 1 := 2] && v.held == map[1 := 1, 2 := 2]
    ensures HasCircle(v.WaitsFor) && HasCircle(v.BlockedBy) && !HasCircle(v.HasEdge)
  {
    MutualIsCircle(v.WaitsFor, 1, 2);
    MutualIsCircle(v.BlockedBy, 1, 2);
    NoCircleOfEdges(v, 1, 2, 3);
  }

  /** The stale edge of thread 2 hides a deadlock, though both locks are in the table. */
  lemma StaleEdgeHidesDeadlock() returns (s: Protocol)
    ensures IsReached(2, Sequential, HIDDEN_RUN, s)
    ensures Deadlock(s) && CircularWaiting(s) && !Reported(s.hooks.reg)
  {
    var vs := HiddenFilm();
    s := FilmRuns(Sequential, HIDDEN_RUN, vs);
    HiddenCircles(vs[9]);
    ReadSnapshot(s, vs[9]);
  }

  // ---------------------------------------------------------------- with two first lockers

  /** Threads 2 and 3 want a lock that is not in the table; 3 gets it, 1 waits for it, 2 gets and releases it. */
  const CLEARED_RUN: seq<Event> :=
    [Before(2, 1), Before(3, 1), After(3, 1), Before(1, 1), Unlock(3, 1), After(2, 1), Unlock(2, 1), After(1, 1)]

  lemma ClearedFilm() returns (vs: seq<Snapshot>)
    ensures IsFilm(Sequential, CLEARED_RUN, vs)
    ensures !vs[7].Tabled(1) && vs[7].pending == map[1 := 1]
    ensures vs[8].edges == map[1 := 3] && vs[8].pending == map[]
  {
    var d, es := Sequential, CLEARED_RUN;
    var v1 := Next(d, START, es[0]);
    var v2 := Next(d, v1, es[1]);
    var v3 := Next(d, v2, es[2]);
    var v4 := Next(d, v3, es[3]);
    var v5 := Next(d, v4, es[4]);
    var v6 := Next(d, v5, es[5]);
    var v7 := Next(d, v6, es[6]);
    var v8 := Next(d, v7, es[7]);
    vs := [START, v1, v2, v3, v4, v5, v6, v7, v8];
  }

  /** The release clears the slot under thread 1, which is waiting on it, and which keeps its edge when its wait is over. */
  lemma WaitedSlotIsCleared() returns (s7: Protocol, s: Protocol)
    ensures IsReached(2, Sequential, CLEARED_RUN[..7], s7)
    ensures s7.pending == map[1 := 1] && !s7.hooks.Tabled(1)
    ensures IsReached(2, Sequential, CLEARED_RUN, s)
    ensures s.pending == map[] && s.hooks.reg.OutOf(Process(1)) == [Process(3)]
  {
    var vs := ClearedFilm();
    s := FilmRuns(Sequential, CLEARED_RUN, vs);
    s7 := FilmRunsPart(Sequential, CLEARED_RUN, vs, 7);
    TwoSlots(vs[7], 1);
    assert EdgeShown(s.hooks.reg, vs[8].edges, 1);
  }

  /** Two threads that both found the lock untabled are not counted when they start to wait, but the second one
      is uncounted when it gets the lock: the slot counts less than nobody, and its release does not clear it.
      With the next waiter it counts nobody, so that a release clears it under that waiter. */
  lemma SecondFirstLockerIsUncounted(h0: HookState, t: nat, t2: nat, t3: nat, lock: nat)
    requires h0.WellFormed() && !h0.Tabled(lock) && FindEmpty(h0.slots) != -1 && lock != 0
    ensures Hook(h0, Before(t, lock)) == h0 && Hook(h0, Before(t2, lock)) == h0
    ensures var h1 := Hook(h0, After(t, lock));
            Defined(h1, After(t2, lock))
            && var h2 := Hook(h1, After(t2, lock));
            && h2.Tabled(lock) && h2.Degress(lock) == -1 && Hook(h2, Unlock(t2, lock)) == h2
            && var h3 := Hook(h2, Before(t3, lock));
            && h3.Tabled(lock) && h3.Degress(lock) == 0 && !Hook(h3, Unlock(t2, lock)).Tabled(lock)
  {
    var k := FindEmpty(h0.slots);
    var h1 := Hook(h0, After(t, lock));
    assert h1.slots[k].lockId == lock && forall i | 0 <= i < |h1.slots| && i != k :: h1.slots[i] == h0.slots[i];
    assert FindLock(h1.slots, lock) == k;
    HookKeepsTabled(h1, After(t2, lock));
    var h2 := Hook(h1, After(t2, lock));
    assert forall i | 0 <= i < |h1.slots| && i != k :: h2.slots[i].lockId != lock;
    SameLocks(h1.slots, h2.slots, lock);
    NextWaiterIsLeftAlone(h2, t2, t3, lock, k);
  }

  lemma NextWaiterIsLeftAlone(h2: HookState, t2: nat, t3: nat, lock: nat, k: nat)
    requires h2.WellFormed() && lock != 0 && FindLock(h2.slots, lock) == k && h2.Degress(lock) == -1
    requires forall i | 0 <= i < |h2.slots| && i != k :: h2.slots[i].lockId != lock
    ensures var h3 := Hook(h2, Before(t3, lock));
            h3.Tabled(lock) && h3.Degress(lock) == 0 && !Hook(h3, Unlock(t2, lock)).Tabled(lock)
  {
    HookKeepsTabled(h2, Before(t3, lock));
    var h3 := Hook(h2, Before(t3, lock));
    SameLocks(h2.slots, h3.slots, lock);
    assert forall i | 0 <= i < |h2.slots| && i != k :: h3.slots[i].lockId != lock;
  }
}
