/** Under the one-waiter discipline the edges are the waits that the lock table knows of, in every run;
    so the check reports exactly the circles of such waits. When these are deadlocks, and when not. */
module CircularWait {
  import opened Digraphs
  import opened CycleSearch
  import opened WaitGraph
  import opened LockProtocol
  import opened EdgeCircles

  // ---------------------------------------------------------------- every step keeps the invariant

  lemma FindUnique(s: Protocol, i: nat)
    requires s.TableInv() && i < |s.hooks.slots| && s.hooks.slots[i].lockId != 0
    ensures FindLock(s.hooks.slots, s.hooks.slots[i].lockId) == i
  {
  }

  lemma BeforeKeepsPending(s: Protocol, t: nat, lock: nat)
    requires s.Inv() && s.Allows(OneWaiter, Before(t, lock))
    ensures s.Step(Before(t, lock)).PendingInv()
  {
    assert forall t' | t' in s.pending :: t' in s.Waiters(s.pending[t']);
  }

  lemma BeforeKeepsTable(s: Protocol, t: nat, lock: nat)
    requires s.Inv() && s.Allows(OneWaiter, Before(t, lock))
    ensures s.Step(Before(t, lock)).TableInv()
  {
    var s' := s.Step(Before(t, lock));
    assert s'.Waiters(lock) == {t};
    forall i | 0 <= i < |s.hooks.slots|
      ensures s'.hooks.slots[i].degress == |s'.Waiters(s'.hooks.slots[i].lockId)|
    {
      var l := s.hooks.slots[i].lockId;
      if l == lock {
        FindUnique(s, i);
      } else {
        assert s'.Waiters(l) == s.Waiters(l);
      }
    }
  }

  lemma AfterKeepsTable(s: Protocol, t: nat, lock: nat)
    requires s.Inv() && s.Allows(OneWaiter, After(t, lock))
    ensures s.Step(After(t, lock)).TableInv() && s.Step(After(t, lock)).PendingInv()
  {
    var s' := s.Step(After(t, lock));
    assert s.Waiters(lock) == {t};
    assert s'.Waiters(lock) == {};
    var k := if s.hooks.Tabled(lock) then FindLock(s.hooks.slots, lock) else FindEmpty(s.hooks.slots);
    forall i | 0 <= i < |s.hooks.slots|
      ensures s'.hooks.slots[i].degress == |s'.Waiters(s'.hooks.slots[i].lockId)|
    {
      var l := s.hooks.slots[i].lockId;
      if i != k {
        assert l != lock;
        assert s'.Waiters(l) == s.Waiters(l);
      }
    }
  }

  lemma UnlockKeepsTable(s: Protocol, t: nat, lock: nat)
    requires s.Inv() && s.Allows(OneWaiter, Unlock(t, lock))
    ensures s.Step(Unlock(t, lock)).TableInv() && s.Step(Unlock(t, lock)).PendingInv()
  {
    var s' := s.Step(Unlock(t, lock));
    assert forall l :: s'.Waiters(l) == s.Waiters(l);
    assert s.Waiters(0) == {};
  }

  /** Nobody waits on a lock whose slot nobody waits on. */
  lemma FreeSlotHasNoWaiters(s: Protocol, i: nat, t: nat)
    requires s.Inv() && i < |s.hooks.slots| && s.hooks.slots[i].degress == 0 && t in s.pending
    ensures s.pending[t] != s.hooks.slots[i].lockId
  {
    assert t in s.Waiters(s.pending[t]);
  }

  lemma BeforeKeepsEdges(s: Protocol, t: nat, lock: nat)
    requires s.Inv() && s.Allows(OneWaiter, Before(t, lock))
    ensures s.Step(Before(t, lock)).EdgeInv()
  {
    BeforeEdges(s.hooks, t, lock);
    forall t': nat
      ensures s.Step(Before(t, lock)).EdgesMatch(t')
    {
      if t' == t {
        BeforeGivesEdge(s, t, lock);
      } else {
        BeforeKeepsOtherEdges(s, t, lock, t');
      }
    }
  }

  lemma BeforeGivesEdge(s: Protocol, t: nat, lock: nat)
    requires s.Inv() && s.Allows(OneWaiter, Before(t, lock))
    ensures s.Step(Before(t, lock)).EdgesMatch(t)
  {
    BeforeEdges(s.hooks, t, lock);
    assert s.EdgesMatch(t);
    if s.hooks.Tabled(lock) {
      BeforeFromNone(s.hooks, t, lock);
    }
    SameLocks(s.hooks.slots, s.Step(Before(t, lock)).hooks.slots, lock);
  }

  lemma BeforeKeepsOtherEdges(s: Protocol, t: nat, lock: nat, t': nat)
    requires s.Inv() && s.Allows(OneWaiter, Before(t, lock)) && t' != t
    ensures s.Step(Before(t, lock)).EdgesMatch(t')
  {
    BeforeEdges(s.hooks, t, lock);
    assert s.EdgesMatch(t');
    if t' in s.pending {
      SameLocks(s.hooks.slots, s.Step(Before(t, lock)).hooks.slots, s.pending[t']);
    }
  }

  /** Slots that name the same locks are found alike. */
  lemma SameLocks(slots: seq<LockSlot>, slots': seq<LockSlot>, lock: nat)
    requires |slots| == |slots'| && forall i | 0 <= i < |slots| :: slots[i].lockId == slots'[i].lockId
    ensures FindLock(slots, lock) == FindLock(slots', lock)
  {
  }

  lemma AfterKeepsEdges(s: Protocol, t: nat, lock: nat)
    requires s.Inv() && s.Allows(OneWaiter, After(t, lock))
    ensures s.Step(After(t, lock)).EdgeInv()
  {
    var s' := s.Step(After(t, lock));
    AfterEdges(s.hooks, t, lock);
    assert s.EdgesMatch(t);
    if s.hooks.Tabled(lock) {
      AfterFromAtMostOne(s.hooks, t, lock, s.hooks.Owner(lock));
    }
    forall t': nat
      ensures s'.EdgesMatch(t')
    {
      assert s.EdgesMatch(t');
      if t' in s'.pending {
        AfterKeepsOtherLocks(s, t, lock, t');
      }
    }
  }

  lemma AfterKeepsOtherLocks(s: Protocol, t: nat, lock: nat, t': nat)
    requires s.Inv() && s.Allows(OneWaiter, After(t, lock)) && t' in s.pending && t' != t
    ensures var l, h' := s.pending[t'], s.hooks.After(t, lock);
            h'.Tabled(l) == s.hooks.Tabled(l) && (s.hooks.Tabled(l) ==> h'.Owner(l) == s.hooks.Owner(l))
  {
    var l, h' := s.pending[t'], s.hooks.After(t, lock);
    assert l != lock;
    if !s.hooks.Tabled(lock) {
      FreeSlotHasNoWaiters(s, FindEmpty(s.hooks.slots), t');
    }
    FoundOutside(s.hooks.slots, h'.slots,
                 if s.hooks.Tabled(lock) then FindLock(s.hooks.slots, lock) else FindEmpty(s.hooks.slots), l);
  }

  /** Changing a slot that does not name the lock, before or after, does not matter to its search. */
  lemma FoundOutside(slots: seq<LockSlot>, slots': seq<LockSlot>, k: nat, lock: nat)
    requires |slots| == |slots'| && k < |slots| && slots[k].lockId != lock && slots'[k].lockId != lock
    requires forall i | 0 <= i < |slots| && i != k :: slots[i] == slots'[i]
    ensures FindLock(slots, lock) == FindLock(slots', lock)
    ensures FindLock(slots, lock) != k
  {
  }

  lemma UnlockKeepsEdges(s: Protocol, t: nat, lock: nat)
    requires s.Inv() && s.Allows(OneWaiter, Unlock(t, lock))
    ensures s.Step(Unlock(t, lock)).EdgeInv()
  {
    var s', k := s.Step(Unlock(t, lock)), FindLock(s.hooks.slots, lock);
    forall t': nat
      ensures s'.EdgesMatch(t')
    {
      assert s.EdgesMatch(t');
      if t' in s.pending && s.hooks.slots[k].degress == 0 {
        FreeSlotHasNoWaiters(s, k, t');
        FoundOutside(s.hooks.slots, s'.hooks.slots, k, s.pending[t']);
      }
    }
  }

  lemma StepKeepsInv(s: Protocol, e: Event)
    requires s.Inv() && s.Allows(OneWaiter, e)
    ensures s.Step(e).Inv()
  {
    match e
    case Before(t, lock) =>
      BeforeKeepsPending(s, t, lock);
      BeforeKeepsTable(s, t, lock);
      BeforeKeepsEdges(s, t, lock);
    case After(t, lock) =>
      AfterKeepsTable(s, t, lock);
      AfterKeepsEdges(s, t, lock);
    case Unlock(t, lock) =>
      UnlockKeepsTable(s, t, lock);
      UnlockKeepsEdges(s, t, lock);
  }

  /** A slot that somebody waits on keeps its lock and its owner until that wait ends. */
  lemma OwnerStableWhileWaited(s: Protocol, e: Event, t: nat)
    requires s.Inv() && s.Allows(OneWaiter, e) && t in s.pending && s.hooks.Tabled(s.pending[t])
    requires e != After(t, s.pending[t])
    ensures var l := s.pending[t];
            s.Step(e).hooks.Tabled(l) && s.Step(e).hooks.Owner(l) == s.hooks.Owner(l)
  {
    var l := s.pending[t];
    var slots := s.hooks.slots;
    match e
    case Before(_, _) =>
      SameLocks(slots, s.Step(e).hooks.slots, l);
    case After(t', lock) =>
      AfterKeepsOtherLocks(s, t', lock, t);
    case Unlock(_, lock) =>
      var k := FindLock(slots, lock);
      if slots[k].degress == 0 {
        FreeSlotHasNoWaiters(s, k, t);
        FoundOutside(slots, s.Step(e).hooks.slots, k, l);
      }
  }

  // ---------------------------------------------------------------- every run

  /** Protocol invariant over all interleavings. */
  lemma {:induction false} RunKeepsInv(lockNum: nat, es: seq<Event>, s: Protocol)
    requires IsReached(lockNum, OneWaiter, es, s)
    ensures s.Inv()
    decreases |es|
  {
    if es == [] {
      assert forall l :: s.Waiters(l) == {};
    } else {
      var n := |es| - 1;
      var s' := RunTo(Init(lockNum), OneWaiter, es[..n]);
      RunKeepsInv(lockNum, es[..n], s');
      StepKeepsInv(s', es[n]);
    }
  }

  // ---------------------------------------------------------------- the check on a reachable graph

  /** Threads wait in a circle, each for a lock that the table says the next one owns. */
  ghost predicate CircularWaiting(s: Protocol) {
    HasCircle(s.WaitsFor)
  }

  /** Threads wait in a circle, each for a lock that the next one holds. */
  ghost predicate Deadlock(s: Protocol) {
    HasCircle(s.BlockedBy)
  }

  /** At every moment of a disciplined run, the check would report exactly when threads wait in a circle
      by the table, which names the last acquirer of each lock. */
  lemma CheckFindsCircularWaits(lockNum: nat, es: seq<Event>, s: Protocol)
    requires IsReached(lockNum, OneWaiter, es, s)
    ensures s.Inv() && (Reported(s.hooks.reg) <==> CircularWaiting(s))
    ensures forall t: nat, o: nat | s.WaitsFor(t, o) ::
              s.pending[t] in s.acquired && s.acquired[s.pending[t]] == o
  {
    RunKeepsInv(lockNum, es, s);
    EdgesAreWaits(s);
    CheckFindsCircles(s.hooks.reg);
    if HasCircle(s.WaitsFor) {
      CircleIn(s.WaitsFor, s.hooks.reg.HasEdge);
    }
    if HasCircle(s.hooks.reg.HasEdge) {
      CircleIn(s.hooks.reg.HasEdge, s.WaitsFor);
    }
  }

  lemma EdgesAreWaits(s: Protocol)
    requires s.Inv()
    ensures Processes(s.hooks.reg) && SingleEdges(s.hooks.reg)
    ensures forall t: nat, o: nat :: s.hooks.reg.HasEdge(t, o) <==> s.WaitsFor(t, o)
  {
    forall t: nat
      ensures |s.hooks.reg.OutOf(Process(t))| <= 1
      ensures forall o: nat :: s.hooks.reg.HasEdge(t, o) <==> s.WaitsFor(t, o)
    {
      assert s.EdgesMatch(t);
    }
  }

  lemma CycleIffCircularWait(s: Protocol)
    requires s.Inv()
    ensures HasCycle(s.hooks.reg.Indexed()) <==> CircularWaiting(s)
  {
    EdgesAreWaits(s);
    CycleIffCircle(s.hooks.reg);
    if HasCircle(s.WaitsFor) {
      CircleIn(s.WaitsFor, s.hooks.reg.HasEdge);
    }
    if HasCircle(s.hooks.reg.HasEdge) {
      CircleIn(s.hooks.reg.HasEdge, s.WaitsFor);
    }
  }

  // ---------------------------------------------------------------- reports and deadlocks

  /** What each thread of the chain but the last one waits for is held by somebody. */
  ghost predicate AllHeld(s: Protocol, ts: seq<nat>) {
    forall x | 0 <= x < |ts| - 1 :: ts[x] in s.pending && s.pending[ts[x]] in s.held
  }

  ghost predicate AllTabled(s: Protocol, ts: seq<nat>) {
    forall x | 0 <= x < |ts| - 1 :: ts[x] in s.pending && s.hooks.Tabled(s.pending[ts[x]])
  }

  /** A chain of waits by the table is a chain of blocked threads exactly when all its locks are
      still held, and the other way round exactly when all its locks are in the table. */
  lemma WaitsAndBlocksAgree(s: Protocol, ts: seq<nat>)
    requires s.Inv()
    ensures Chain(s.WaitsFor, ts) ==> (Chain(s.BlockedBy, ts) <==> AllHeld(s, ts))
    ensures Chain(s.BlockedBy, ts) ==> (Chain(s.WaitsFor, ts) <==> AllTabled(s, ts))
  {
    forall x | 0 <= x < |ts| - 1
      ensures Chain(s.WaitsFor, ts) && AllHeld(s, ts) ==> s.BlockedBy(ts[x], ts[x + 1])
      ensures Chain(s.BlockedBy, ts) && AllTabled(s, ts) ==> s.WaitsFor(ts[x], ts[x + 1])
      ensures Chain(s.WaitsFor, ts) ==> ts[x] in s.pending && s.hooks.Tabled(s.pending[ts[x]])
      ensures Chain(s.BlockedBy, ts) ==> ts[x] in s.pending && s.pending[ts[x]] in s.held
    {
      assert Chain(s.WaitsFor, ts) ==> s.WaitsFor(ts[x], ts[x + 1]);
      assert Chain(s.BlockedBy, ts) ==> s.BlockedBy(ts[x], ts[x + 1]);
      WaitOrBlock(s, ts[x], ts[x + 1]);
    }
  }

  lemma WaitOrBlock(s: Protocol, t: nat, o: nat)
    requires s.Inv()
    ensures s.WaitsFor(t, o) && s.pending[t] in s.held <==> s.BlockedBy(t, o) && s.hooks.Tabled(s.pending[t])
  {
    if t in s.pending && s.hooks.Tabled(s.pending[t]) {
      var i := FindLock(s.hooks.slots, s.pending[t]);
      assert s.hooks.slots[i].lockId != 0;
    }
  }

  /** Completeness: a circle of blocked threads whose locks are all in the table is reported. */
  lemma TabledDeadlockIsReported(s: Protocol, ts: seq<nat>)
    requires s.Inv() && Chain(s.BlockedBy, ts) && |ts| >= 2 && ts[0] == ts[|ts| - 1] && AllTabled(s, ts)
    ensures Reported(s.hooks.reg)
  {
    WaitsAndBlocksAgree(s, ts);
    CycleIffCircularWait(s);
    CyclesAreReported(s.hooks.reg.Indexed());
  }

  /** Where the locks that are waited for are in the table exactly if they are held, the check reports
      exactly the deadlocks. */
  lemma CheckFindsDeadlocks(lockNum: nat, es: seq<Event>, s: Protocol)
    requires IsReached(lockNum, OneWaiter, es, s)
    requires forall t | t in s.pending :: s.hooks.Tabled(s.pending[t]) <==> s.pending[t] in s.held
    ensures Reported(s.hooks.reg) <==> Deadlock(s)
  {
    CheckFindsCircularWaits(lockNum, es, s);
    forall t: nat, o: nat
      ensures s.WaitsFor(t, o) <==> s.BlockedBy(t, o)
    {
      WaitOrBlock(s, t, o);
    }
    if HasCircle(s.WaitsFor) {
      CircleIn(s.WaitsFor, s.BlockedBy);
    }
    if HasCircle(s.BlockedBy) {
      CircleIn(s.BlockedBy, s.WaitsFor);
    }
  }

  /** A report that is no deadlock, within the discipline: t waits for a lock that o releases, and before
      t has taken it, o waits for a lock of t. The table still names o as the owner. */
  lemma ReleasedLockIsReported(s: Protocol, t: nat, o: nat, m: nat)
    requires s.Inv() && s.WaitsFor(t, o) && s.BlockedBy(t, o) && o !in s.pending
    requires m != 0 && s.hooks.Tabled(m) && s.hooks.Owner(m) == t && s.Waiters(m) == {}
    ensures Runs(s, OneWaiter, [Unlock(o, s.pending[t]), Before(o, m)])
    ensures var s' := RunTo(s, OneWaiter, [Unlock(o, s.pending[t]), Before(o, m)]);
            && s'.Inv() && Reported(s'.hooks.reg)
            && t in s'.pending && s'.pending[t] !in s'.held
  {
    var l := s.pending[t];
    var s1 := s.Step(Unlock(o, l));
    WaitedSlotStays(s, o, t);
    assert s1.Waiters(m) == s.Waiters(m);
    RunsOneMore(s, OneWaiter, [], Unlock(o, l));
    RunsOneMore(s, OneWaiter, [Unlock(o, l)], Before(o, m));
    assert [] + [Unlock(o, l)] == [Unlock(o, l)] && [Unlock(o, l)] + [Before(o, m)] == [Unlock(o, l), Before(o, m)];
    StepKeepsInv(s, Unlock(o, l));
    StepKeepsInv(s1, Before(o, m));
    WaitClosesCircle(s1, t, o, m);
  }

  lemma WaitedSlotStays(s: Protocol, o: nat, t: nat)
    requires s.Inv() && t in s.pending && s.hooks.Tabled(s.pending[t])
    ensures s.Step(Unlock(o, s.pending[t])).hooks == s.hooks
  {
    assert t in s.Waiters(s.pending[t]);
  }

  lemma WaitClosesCircle(s: Protocol, t: nat, o: nat, m: nat)
    requires s.Inv() && s.Allows(OneWaiter, Before(o, m)) && s.WaitsFor(t, o)
    requires s.hooks.Tabled(m) && s.hooks.Owner(m) == t
    ensures Reported(s.Step(Before(o, m)).hooks.reg)
  {
    var s' := s.Step(Before(o, m));
    SameLocks(s.hooks.slots, s'.hooks.slots, m);
    SameLocks(s.hooks.slots, s'.hooks.slots, s.pending[t]);
    StepKeepsInv(s, Before(o, m));
    MutualWaitIsReported(s', t, o);
  }

  lemma MutualWaitIsReported(s: Protocol, t: nat, o: nat)
    requires s.Inv() && s.WaitsFor(t, o) && s.WaitsFor(o, t)
    ensures Reported(s.hooks.reg)
  {
    assert Chain(s.WaitsFor, [t, o, t]);
    CycleIffCircularWait(s);
    CyclesAreReported(s.hooks.reg.Indexed());
  }
}
