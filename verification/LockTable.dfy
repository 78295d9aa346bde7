/** When a lock is in the lock table, and what its slot counts, whatever the threads do. */
module LockTable {
  import opened WaitGraph
  import opened LockProtocol

  // ---------------------------------------------------------------- one hook

  /** The hook takes the lock's slot away: an Unlock clears it, or another lock that comes into the
      table takes it over. Both happen only when the slot counts nobody. */
  ghost predicate Loses(h: HookState, e: Event, lock: nat) {
    && h.Tabled(lock) && h.Degress(lock) == 0
    && match e
       case Before(_, _) => false
       case After(_, l) => !h.Tabled(l) && FindEmpty(h.slots) == FindLock(h.slots, lock)
       case Unlock(_, l) => l == lock
  }

  /** What the hook adds to the count in the lock's slot. */
  function Counted(e: Event, lock: nat): int {
    match e
    case Before(_, l) => if l == lock then 1 else 0
    case After(_, l) => if l == lock then -1 else 0
    case Unlock(_, _) => 0
  }

  /** Where the only slot that may name the lock is k, the lock is found exactly if that slot names it. */
  lemma FoundAt(slots: seq<LockSlot>, k: nat, lock: nat)
    requires k < |slots| && forall i | 0 <= i < |slots| && i != k :: slots[i].lockId != lock
    ensures FindLock(slots, lock) == if slots[k].lockId == lock then k else -1
  {
  }

  /** The slot that a hook works on. */
  ghost function SlotOf(h: HookState, e: Event): (k: nat)
    requires h.WellFormed() && Defined(h, e) && !(e.Before? && !h.Tabled(e.lock))
    ensures k < |h.slots|
    ensures forall i | 0 <= i < |h.slots| && i != k :: Hook(h, e).slots[i] == h.slots[i]
  {
    if h.Tabled(e.lock) then FindLock(h.slots, e.lock) else FindEmpty(h.slots)
  }

  lemma HookKeepsNoDuplicates(h: HookState, e: Event)
    requires h.WellFormed() && Defined(h, e) && NoDuplicates(h.slots)
    ensures NoDuplicates(Hook(h, e).slots)
  {
    if !(e.Before? && !h.Tabled(e.lock)) {
      var k := SlotOf(h, e);
      assert Hook(h, e).slots[k].lockId in {h.slots[k].lockId, e.lock, 0};
    }
  }

  /** The effect of any hook on the slot of any lock. */
  lemma HookOnSlot(h: HookState, e: Event, lock: nat)
    requires h.WellFormed() && Defined(h, e) && NoDuplicates(h.slots) && lock != 0
    ensures var h' := Hook(h, e);
            && (h'.Tabled(lock) <==> (e.After? && e.lock == lock) || (h.Tabled(lock) && !Loses(h, e, lock)))
            && (h'.Tabled(lock) ==> h'.Degress(lock) == if h.Tabled(lock) then h.Degress(lock) + Counted(e, lock) else 0)
  {
    if !(e.Before? && !h.Tabled(e.lock)) {
      if h.Tabled(lock) {
        HookOnTabled(h, e, lock);
      } else {
        FoundAt(Hook(h, e).slots, SlotOf(h, e), lock);
      }
    }
  }

  lemma HookOnTabled(h: HookState, e: Event, lock: nat)
    requires h.WellFormed() && Defined(h, e) && NoDuplicates(h.slots) && lock != 0
    requires h.Tabled(lock) && !(e.Before? && !h.Tabled(e.lock))
    ensures var h' := Hook(h, e);
            && (h'.Tabled(lock) <==> !Loses(h, e, lock))
            && (h'.Tabled(lock) ==> h'.Degress(lock) == h.Degress(lock) + Counted(e, lock))
  {
    var k, x := SlotOf(h, e), FindLock(h.slots, lock);
    FoundAt(h.slots, x, lock);
    if h.Tabled(e.lock) && e.lock != lock {
      assert k != x;
    }
    FoundAt(Hook(h, e).slots, x, lock);
  }

  // ---------------------------------------------------------------- whole runs

  lemma {:induction false} RunKeepsNoDuplicates(s: Protocol, d: Discipline, es: seq<Event>)
    requires s.hooks.WellFormed() && NoDuplicates(s.hooks.slots) && Runs(s, d, es)
    ensures NoDuplicates(RunTo(s, d, es).hooks.slots)
    decreases |es|
  {
    if es != [] {
      var n := |es| - 1;
      RunKeepsNoDuplicates(s, d, es[..n]);
      HookKeepsNoDuplicates(RunTo(s, d, es[..n]).hooks, es[n]);
    }
  }

  /** The hooks es ran one after the other, through the states hs. */
  ghost predicate IsTrace(hs: seq<HookState>, es: seq<Event>) {
    |hs| == |es| + 1 && forall j | 0 <= j < |es| :: IsHook(hs, es, j)
  }

  ghost predicate IsHook(hs: seq<HookState>, es: seq<Event>, j: nat)
    requires j < |es| < |hs|
  {
    hs[j].WellFormed() && Defined(hs[j], es[j]) && hs[j + 1] == Hook(hs[j], es[j])
  }

  /** A thread got the lock by the event at i, and up to the state n its slot was not taken away. */
  ghost predicate KeptSince(hs: seq<HookState>, es: seq<Event>, i: nat, n: nat, lock: nat)
    requires i < n <= |es| < |hs|
  {
    es[i].After? && es[i].lock == lock && forall j | i < j < n :: !Loses(hs[j], es[j], lock)
  }

  /** Up to the state n, some thread got the lock and its slot was not taken away since. */
  ghost predicate TakenAndKept(hs: seq<HookState>, es: seq<Event>, n: nat, lock: nat)
    requires n <= |es| < |hs|
  {
    exists i: nat | i < n :: KeptSince(hs, es, i, n, lock)
  }

  lemma {:induction false} TabledIff(hs: seq<HookState>, es: seq<Event>, n: nat, lock: nat)
    requires IsTrace(hs, es) && n <= |es| && NoDuplicates(hs[0].slots) && !hs[0].Tabled(lock) && lock != 0
    ensures NoDuplicates(hs[n].slots)
    ensures hs[n].Tabled(lock) <==> TakenAndKept(hs, es, n, lock)
  {
    if n > 0 {
      var m := n - 1;
      TabledIff(hs, es, m, lock);
      assert IsHook(hs, es, m);
      HookKeepsNoDuplicates(hs[m], es[m]);
      HookOnSlot(hs[m], es[m], lock);
      assert KeptSince(hs, es, m, n, lock) <==> es[m].After? && es[m].lock == lock;
      assert forall i: nat | i < m ::
          KeptSince(hs, es, i, n, lock) <==> KeptSince(hs, es, i, m, lock) && !Loses(hs[m], es[m], lock);
    }
  }

  /** The states of the hooks along a run. */
  ghost function Trace(lockNum: nat, d: Discipline, es: seq<Event>): (hs: seq<HookState>)
    requires Runs(Init(lockNum), d, es)
    ensures |hs| == |es| + 1 && hs[0] == Init(lockNum).hooks && hs[|es|] == RunTo(Init(lockNum), d, es).hooks
    decreases |es|
  {
    if es == [] then [Init(lockNum).hooks]
    else Trace(lockNum, d, es[..|es| - 1]) + [RunTo(Init(lockNum), d, es).hooks]
  }

  lemma {:induction false} TraceIsTrace(lockNum: nat, d: Discipline, es: seq<Event>)
    requires Runs(Init(lockNum), d, es)
    ensures IsTrace(Trace(lockNum, d, es), es)
    decreases |es|
  {
    if es != [] {
      var n := |es| - 1;
      TraceIsTrace(lockNum, d, es[..n]);
      var hs, before := Trace(lockNum, d, es), Trace(lockNum, d, es[..n]);
      forall j: nat | j < |es|
        ensures IsHook(hs, es, j)
      {
        assert j < n ==> IsHook(before, es[..n], j);
      }
    }
  }

  lemma StartsEmpty(lockNum: nat, lock: nat)
    requires lock != 0
    ensures NoDuplicates(Init(lockNum).hooks.slots) && !Init(lockNum).hooks.Tabled(lock)
  {
    assert forall i | 0 <= i < lockNum :: Init(lockNum).hooks.slots[i].lockId == 0;
  }

  /** After any run, the hook after an unlock has a slot to work on, instead of indexing the table with -1,
      exactly when some thread got the lock and its slot has not been taken away since. */
  lemma UnlockIsDefinedIff(lockNum: nat, d: Discipline, es: seq<Event>, s: Protocol, t: nat, lock: nat)
    requires IsReached(lockNum, d, es, s) && lock != 0
    ensures Defined(s.hooks, Unlock(t, lock)) <==> TakenAndKept(Trace(lockNum, d, es), es, |es|, lock)
  {
    var hs := Trace(lockNum, d, es);
    TraceIsTrace(lockNum, d, es);
    StartsEmpty(lockNum, lock);
    TabledIff(hs, es, |es|, lock);
    assert hs[|es|] == s.hooks;
  }

  // ---------------------------------------------------------------- free slots

  /** A slot that names no lock is as at the start. */
  ghost predicate FreeAreEmpty(slots: seq<LockSlot>) {
    forall i | 0 <= i < |slots| && slots[i].lockId == 0 :: slots[i] == EMPTY_SLOT
  }

  lemma HookKeepsFreeEmpty(h: HookState, e: Event)
    requires h.WellFormed() && Defined(h, e) && FreeAreEmpty(h.slots) && e.lock != 0
    ensures FreeAreEmpty(Hook(h, e).slots)
  {
    if !(e.Before? && !h.Tabled(e.lock)) {
      var k := SlotOf(h, e);
      assert Hook(h, e).slots[k].lockId == 0 ==> Hook(h, e).slots[k] == EMPTY_SLOT;
    }
  }

  /** In every run, a slot that is cleared is left empty altogether. */
  lemma {:induction false} RunLeavesFreeEmpty(lockNum: nat, d: Discipline, es: seq<Event>, s: Protocol)
    requires IsReached(lockNum, d, es, s) && !d.AnyHooks?
    ensures FreeAreEmpty(s.hooks.slots)
    decreases |es|
  {
    if es != [] {
      var n := |es| - 1;
      var s' := RunTo(Init(lockNum), d, es[..n]);
      RunLeavesFreeEmpty(lockNum, d, es[..n], s');
      HookKeepsFreeEmpty(s'.hooks, es[n]);
    }
  }

  // ---------------------------------------------------------------- what a slot counts

  lemma WaitersStep(s: Protocol, e: Event, lock: nat)
    requires s.hooks.WellFormed() && Defined(s.hooks, e) && s.Alternates(e)
    ensures |s.Step(e).Waiters(lock)| == |s.Waiters(lock)| + Counted(e, lock)
  {
    var w, w' := s.Waiters(lock), s.Step(e).Waiters(lock);
    assert w' == if Counted(e, lock) == 1 then w + {e.t} else if Counted(e, lock) == -1 then w - {e.t} else w;
  }

  /** From s on, the lock stays in the table. */
  ghost predicate StaysTabled(s: Protocol, d: Discipline, es: seq<Event>, lock: nat)
    requires s.hooks.WellFormed() && Runs(s, d, es)
    decreases |es|
  {
    RunTo(s, d, es).hooks.Tabled(lock) && (es != [] ==> StaysTabled(s, d, es[..|es| - 1], lock))
  }

  /** While a lock stays in the table, its slot counts every wait that begins and every one that ends. */
  lemma {:induction false} SlotCountsChanges(s: Protocol, d: Discipline, es: seq<Event>, lock: nat)
    requires s.hooks.WellFormed() && NoDuplicates(s.hooks.slots) && !d.AnyHooks? && lock != 0
    requires Runs(s, d, es) && StaysTabled(s, d, es, lock)
    ensures s.hooks.Tabled(lock)
    ensures var s' := RunTo(s, d, es);
            s'.hooks.Degress(lock) - s.hooks.Degress(lock) == |s'.Waiters(lock)| - |s.Waiters(lock)|
    decreases |es|
  {
    if es != [] {
      var n := |es| - 1;
      var s' := RunTo(s, d, es[..n]);
      SlotCountsChanges(s, d, es[..n], lock);
      RunKeepsNoDuplicates(s, d, es[..n]);
      HookOnSlot(s'.hooks, es[n], lock);
      WaitersStep(s', es[n], lock);
    }
  }

  /** A slot counts the waiters of its lock, less those who were already waiting when some thread, t, brought
      the lock into the table; and a release clears it exactly when that makes nobody. So it may be cleared
      while threads are waiting, and may count less than nobody. */
  lemma SlotMissesEarlierWaiters(s: Protocol, d: Discipline, t: nat, lock: nat, es: seq<Event>, u: nat)
    requires s.hooks.WellFormed() && NoDuplicates(s.hooks.slots) && !d.AnyHooks?
    requires s.Allows(d, After(t, lock)) && !s.hooks.Tabled(lock)
    requires var s1 := s.Step(After(t, lock)); Runs(s1, d, es) && StaysTabled(s1, d, es, lock)
    ensures var s' := RunTo(s.Step(After(t, lock)), d, es);
            var missed := |s.Waiters(lock) - {t}|;
            && s'.hooks.Tabled(lock) && s'.hooks.Degress(lock) == |s'.Waiters(lock)| - missed
            && (!s'.Step(Unlock(u, lock)).hooks.Tabled(lock) <==> |s'.Waiters(lock)| == missed)
  {
    var s1 := s.Step(After(t, lock));
    HookOnSlot(s.hooks, After(t, lock), lock);
    HookKeepsNoDuplicates(s.hooks, After(t, lock));
    assert s1.Waiters(lock) == s.Waiters(lock) - {t};
    SlotCountsChanges(s1, d, es, lock);
    RunKeepsNoDuplicates(s1, d, es);
    HookOnSlot(RunTo(s1, d, es).hooks, Unlock(u, lock), lock);
  }
}
