/** The lock hooks as steps on the wait-for graph and the lock table, and what every run of
    them keeps. A thread t that wants lock L runs Before(t, L), then blocks on L, then runs
    After(t, L); Unlock(t, L) follows its release of L. */
module LockProtocol {
  import opened Digraphs
  import opened CycleSearch
  import opened WaitGraph

  datatype HookState = HookState(reg: Registry, slots: seq<LockSlot>)
  {
    ghost predicate WellFormed() {
      reg.WellFormed()
    }

    predicate Tabled(lock: nat) {
      FindLock(slots, lock) != -1
    }

    function Owner(lock: nat): nat
      requires Tabled(lock)
    {
      slots[FindLock(slots, lock)].thId
    }

    function Degress(lock: nat): int
      requires Tabled(lock)
    {
      slots[FindLock(slots, lock)].degress
    }

    ghost function Before(t: nat, lock: nat): HookState
      requires WellFormed()
    {
      if !Tabled(lock) then this
      else
        var i := FindLock(slots, lock);
        var v := Process(slots[i].thId);
        var both := Both(t, slots[i].thId);
        HookState(if both.VerifyEdge(Process(t), v) then both else both.AddEdge(Process(t), v),
                  slots[i := slots[i].(degress := slots[i].degress + 1)])
    }

    ghost function Both(t: nat, owner: nat): (r: Registry)
      requires WellFormed()
      ensures r.WellFormed()
    {
      AddVertexEffect(reg, Process(t));
      AddVertexEffect(reg.AddVertex(Process(t)), Process(owner));
      reg.AddVertex(Process(t)).AddVertex(Process(owner))
    }

    ghost function After(t: nat, lock: nat): HookState
      requires WellFormed()
      requires Tabled(lock) || FindEmpty(slots) != -1
    {
      if !Tabled(lock) then
        var i := FindEmpty(slots);
        this.(slots := slots[i := slots[i].(thId := t, lockId := lock)])
      else
        var i := FindLock(slots, lock);
        var v := Process(slots[i].thId);
        HookState(if reg.VerifyEdge(Process(t), v) then reg.RemoveEdge(Process(t), v) else reg,
                  slots[i := slots[i].(thId := t, degress := slots[i].degress - 1)])
    }

    ghost function Unlock(lock: nat): HookState
      requires Tabled(lock)
    {
      var i := FindLock(slots, lock);
      if slots[i].degress == 0 then this.(slots := slots[i := slots[i].(thId := 0, lockId := 0)]) else this
    }
  }

  // ---------------------------------------------------------------- the effect on the edges

  lemma BothEffect(h: HookState, t: nat, o: nat)
    requires h.WellFormed()
    ensures forall a :: h.Both(t, o).OutOf(a) == h.reg.OutOf(a)
    ensures forall p | p in h.Both(t, o).keys :: p in h.reg.keys || p == Process(t) || p == Process(o)
    ensures Process(t) in h.Both(t, o).keys && Process(o) in h.Both(t, o).keys
  {
    AddVertexEffect(h.reg, Process(t));
    AddVertexEffect(h.reg.AddVertex(Process(t)), Process(o));
  }

  lemma BeforeEdges(h: HookState, t: nat, lock: nat)
    requires h.WellFormed()
    ensures h.Before(t, lock).WellFormed()
    ensures forall a | a != Process(t) :: h.Before(t, lock).reg.OutOf(a) == h.reg.OutOf(a)
    ensures forall p | p in h.Before(t, lock).reg.keys ::
              p in h.reg.keys || p == Process(t) || (h.Tabled(lock) && p == Process(h.Owner(lock)))
  {
    if h.Tabled(lock) {
      var both := h.Both(t, h.Owner(lock));
      BothEffect(h, t, h.Owner(lock));
      var u, v := Process(t), Process(h.Owner(lock));
      if !both.VerifyEdge(u, v) {
        AddEdgeEffect(both, u, v);
        assert h.Before(t, lock).reg == both.AddEdge(u, v);
      } else {
        assert h.Before(t, lock).reg == both;
      }
    }
  }

  /** Whatever edges a waiter has already, it gets one more, to the owner, unless it is the owner or has
      an edge to the owner's thread id. */
  lemma BeforeFromAny(h: HookState, t: nat, lock: nat)
    requires h.WellFormed()
    ensures h.Before(t, lock).WellFormed()
    ensures var edges := h.reg.OutOf(Process(t));
            h.Before(t, lock).reg.OutOf(Process(t)) ==
              if !h.Tabled(lock) || h.Owner(lock) == t || (exists e | e in edges :: e.thId == h.Owner(lock)) then edges
              else edges + [Process(h.Owner(lock))]
    ensures h.Tabled(lock) ==> Process(t) in h.Before(t, lock).reg.keys && Process(h.Owner(lock)) in h.Before(t, lock).reg.keys
  {
    BeforeEdges(h, t, lock);
    if h.Tabled(lock) {
      var u, v := Process(t), Process(h.Owner(lock));
      BothEffect(h, t, v.thId);
      AddEdgeEffect(h.Both(t, v.thId), u, v);
      VerifyIff(h.Both(t, v.thId), u, v);
    }
  }

  /** Whatever edges a waiter has, the end of its wait takes the first one to the present owner, if there is one. */
  lemma AfterFromAny(h: HookState, t: nat, lock: nat)
    requires h.WellFormed() && Defined(h, After(t, lock)) && forall p | p in h.reg.keys :: p.kind == PROCESS
    ensures h.After(t, lock).reg.OutOf(Process(t)) ==
              if h.Tabled(lock) then RemoveFirst(h.reg.OutOf(Process(t)), h.Owner(lock)) else h.reg.OutOf(Process(t))
  {
    if h.Tabled(lock) {
      var u, v := Process(t), Process(h.Owner(lock));
      VerifyIff(h.reg, u, v);
      RemoveEdgeEffect(h.reg, u, v);
      if !h.reg.VerifyEdge(u, v) || v !in h.reg.keys {
        NoEdgeTo(h.reg, u, v);
        RemoveFirstNone(h.reg.OutOf(u), v.thId);
      }
    }
  }

  lemma NoEdgeTo(r: Registry, u: Pair, v: Pair)
    requires r.WellFormed() && (forall p | p in r.keys :: p.kind == PROCESS) && v.kind == PROCESS
    requires !r.VerifyEdge(u, v) || v !in r.keys
    ensures forall e | e in r.OutOf(u) :: e.thId != v.thId
  {
    VerifyIff(r, u, v);
    if u in r.keys {
      var i := Position(r.keys, u);
      forall j: nat | j < |r.out[i]|
        ensures r.out[i][j].thId != v.thId
      {
        assert r.Leads(i, j);
      }
    }
  }

  /** A thread without edges gets exactly the edge to the owner, unless it is the owner. */
  lemma BeforeFromNone(h: HookState, t: nat, lock: nat)
    requires h.WellFormed() && h.Tabled(lock) && h.reg.OutOf(Process(t)) == []
    ensures h.Before(t, lock).reg.OutOf(Process(t)) ==
              if h.Owner(lock) == t then [] else [Process(h.Owner(lock))]
  {
    var u, v := Process(t), Process(h.Owner(lock));
    BothEffect(h, t, v.thId);
    AddEdgeEffect(h.Both(t, v.thId), u, v);
    assert h.Both(t, v.thId).VerifyEdge(u, v) <==> t == v.thId by {
      assert u in [u] + [];
    }
  }

  lemma AfterEdges(h: HookState, t: nat, lock: nat)
    requires h.WellFormed() && (h.Tabled(lock) || FindEmpty(h.slots) != -1)
    ensures h.After(t, lock).WellFormed() && h.After(t, lock).reg.keys == h.reg.keys
    ensures forall a | a != Process(t) :: h.After(t, lock).reg.OutOf(a) == h.reg.OutOf(a)
  {
    if h.Tabled(lock) {
      RemoveEdgeEffect(h.reg, Process(t), Process(h.Owner(lock)));
    }
  }

  /** When t has one edge, or none, completing the wait removes it exactly when it leads to the present owner. */
  lemma AfterFromAtMostOne(h: HookState, t: nat, lock: nat, o: nat)
    requires h.WellFormed() && h.Tabled(lock)
    requires h.reg.OutOf(Process(t)) in {[], [Process(o)]}
    ensures h.After(t, lock).reg.OutOf(Process(t)) ==
              if h.Owner(lock) == o then [] else h.reg.OutOf(Process(t))
  {
    var u, v := Process(t), Process(h.Owner(lock));
    RemoveEdgeEffect(h.reg, u, v);
    if h.reg.OutOf(u) == [Process(o)] {
      assert h.reg.Leads(Position(h.reg.keys, u), 0);
      assert ([u] + h.reg.OutOf(u))[1] == Process(o);
      if h.Owner(lock) != o {
        RemoveFirstNone(h.reg.OutOf(u), v.thId);
      }
    } else {
      RemoveFirstNone(h.reg.OutOf(u), v.thId);
    }
  }

  // ---------------------------------------------------------------- runs of the hooks

  datatype Event = Before(t: nat, lock: nat) | After(t: nat, lock: nat) | Unlock(t: nat, lock: nat)

  /** The hook has a table slot to work on; without one the original indexes the table with -1. */
  ghost predicate Defined(h: HookState, e: Event) {
    match e
    case Before(_, _) => true
    case After(_, lock) => h.Tabled(lock) || FindEmpty(h.slots) != -1
    case Unlock(_, lock) => h.Tabled(lock)
  }

  ghost function Hook(h: HookState, e: Event): (h': HookState)
    requires h.WellFormed() && Defined(h, e)
    ensures h'.WellFormed() && |h'.slots| == |h.slots|
  {
    match e
    case Before(t, lock) => BeforeEdges(h, t, lock); h.Before(t, lock)
    case After(t, lock) => AfterEdges(h, t, lock); h.After(t, lock)
    case Unlock(_, lock) => h.Unlock(lock)
  }

  /** Only the hooks before and after its own locks change the edges of a thread. */
  lemma OthersKeepEdges(h: HookState, e: Event, t: nat)
    requires h.WellFormed() && Defined(h, e) && (e.t != t || e.Unlock?)
    ensures Hook(h, e).reg.OutOf(Process(t)) == h.reg.OutOf(Process(t))
  {
    match e
    case Before(t', lock) => BeforeEdges(h, t', lock);
    case After(t', lock) => AfterEdges(h, t', lock);
    case Unlock(_, lock) =>
  }

  // ---------------------------------------------------------------- runs of the hooks

  /** What is taken for granted about the threads that run the hooks: nothing; that each of them waits
      for one lock at a time; or, besides, that each lock has at most one waiter at a time. */
  datatype Discipline = AnyHooks | Sequential | OneWaiter

  /** The hooks together with which thread is between Before and After on which lock, who last
      completed After on each lock, and who has not run Unlock on it since. */
  datatype Protocol = Protocol(hooks: HookState, pending: map<nat, nat>, acquired: map<nat, nat>, held: map<nat, nat>)
  {
    ghost function Waiters(lock: nat): set<nat> {
      set t | t in pending && pending[t] == lock
    }

    /** Thread t waits for a lock that the table says another thread, o, owns. */
    ghost predicate WaitsFor(t: nat, o: nat) {
      t in pending && hooks.Tabled(pending[t]) && hooks.Owner(pending[t]) == o && o != t
    }

    /** Thread t waits for a lock that another thread, o, holds. */
    ghost predicate BlockedBy(t: nat, o: nat) {
      t in pending && pending[t] in held && held[pending[t]] == o && o != t
    }

    /** Each slot counts the waiters of its lock and names its last acquirer; no lock has two slots. */
    ghost predicate TableInv() {
      && NoDuplicates(hooks.slots)
      && (forall i | 0 <= i < |hooks.slots| ::
            hooks.slots[i].degress == |Waiters(hooks.slots[i].lockId)|)
      && (forall i | 0 <= i < |hooks.slots| && hooks.slots[i].lockId != 0 ::
            hooks.slots[i].lockId in acquired && acquired[hooks.slots[i].lockId] == hooks.slots[i].thId)
    }

    ghost predicate PendingInv() {
      && (forall t | t in pending :: pending[t] != 0)
      && (forall t, t' | t in pending && t' in pending && t != t' :: pending[t] != pending[t'])
    }

    /** The edges that thread t should have: to the owner of what it is registered as waiting for. */
    ghost function WaitEdges(t: nat): seq<Pair> {
      if t in pending && hooks.Tabled(pending[t]) && hooks.Owner(pending[t]) != t then
        [Process(hooks.Owner(pending[t]))]
      else
        []
    }

    ghost predicate EdgesMatch(t: nat)
      requires hooks.WellFormed()
    {
      hooks.reg.OutOf(Process(t)) == WaitEdges(t)
    }

    /** The edges are exactly those from each waiter to the owner of what it waits for. */
    ghost predicate EdgeInv()
      requires hooks.WellFormed()
    {
      && (forall p | p in hooks.reg.keys :: p.kind == PROCESS)
      && (forall t: nat :: EdgesMatch(t))
    }

    ghost predicate HeldInv() {
      forall l | l in held :: l in acquired && acquired[l] == held[l]
    }

    ghost predicate Inv() {
      hooks.WellFormed() && TableInv() && PendingInv() && EdgeInv() && HeldInv()
    }

    /** There is a slot to work on, and the threads keep to the discipline. Lock 0 marks an empty slot. */
    ghost predicate Allows(d: Discipline, e: Event) {
      && Defined(hooks, e)
      && (d.AnyHooks? || (e.lock != 0 && Alternates(e)))
      && (d.OneWaiter? && e.Before? ==> Waiters(e.lock) == {})
    }

    /** A thread runs Before when it waits for nothing, and After on what it waits for. */
    ghost predicate Alternates(e: Event) {
      && (e.Before? ==> e.t !in pending)
      && (e.After? ==> e.t in pending && pending[e.t] == e.lock)
    }

    ghost function Step(e: Event): (s': Protocol)
      requires hooks.WellFormed() && Defined(hooks, e)
      ensures s'.hooks == Hook(hooks, e) && s'.hooks.WellFormed()
    {
      var h := Hook(hooks, e);
      match e
      case Before(t, lock) => Protocol(h, pending[t := lock], acquired, held)
      case After(t, lock) => Protocol(h, pending - {t}, acquired[lock := t], held[lock := t])
      case Unlock(t, lock) =>
        Protocol(h, pending, acquired, if lock in held && held[lock] == t then held - {lock} else held)
    }
  }

  ghost predicate NoDuplicates(slots: seq<LockSlot>) {
    forall i, j | 0 <= i < j < |slots| && slots[i].lockId != 0 :: slots[i].lockId != slots[j].lockId
  }

  /** From s on, the hooks es can run one after the other under the discipline. */
  ghost predicate Runs(s: Protocol, d: Discipline, es: seq<Event>)
    requires s.hooks.WellFormed()
    decreases |es|, 0
  {
    es == [] ||
    var n := |es| - 1;
    Runs(s, d, es[..n]) && RunTo(s, d, es[..n]).Allows(d, es[n])
  }

  ghost function RunTo(s: Protocol, d: Discipline, es: seq<Event>): (s': Protocol)
    requires s.hooks.WellFormed() && Runs(s, d, es)
    ensures s'.hooks.WellFormed()
    decreases |es|, 1
  {
    if es == [] then s else RunTo(s, d, es[..|es| - 1]).Step(es[|es| - 1])
  }

  lemma RunsOneMore(s: Protocol, d: Discipline, es: seq<Event>, e: Event)
    requires s.hooks.WellFormed() && Runs(s, d, es) && RunTo(s, d, es).Allows(d, e)
    ensures Runs(s, d, es + [e]) && RunTo(s, d, es + [e]) == RunTo(s, d, es).Step(e)
  {
    assert (es + [e])[..|es|] == es;
  }

  ghost function Init(lockNum: nat): Protocol {
    Protocol(HookState(Registry([], []), seq(lockNum, _ => EMPTY_SLOT)), map[], map[], map[])
  }

  /** From an empty graph and an empty table, the hooks es lead to s. */
  ghost predicate IsReached(lockNum: nat, d: Discipline, es: seq<Event>, s: Protocol) {
    Runs(Init(lockNum), d, es) && RunTo(Init(lockNum), d, es) == s
  }

  // ---------------------------------------------------------------- the edges that a wait leaves

  lemma {:induction false} OthersKeepAllEdges(s: Protocol, d: Discipline, es: seq<Event>, t: nat)
    requires s.hooks.WellFormed() && Runs(s, d, es) && forall e | e in es :: e.t != t || e.Unlock?
    ensures RunTo(s, d, es).hooks.reg.OutOf(Process(t)) == s.hooks.reg.OutOf(Process(t))
    decreases |es|
  {
    if es != [] {
      var n := |es| - 1;
      OthersKeepAllEdges(s, d, es[..n], t);
      OthersKeepEdges(RunTo(s, d, es[..n]).hooks, es[n], t);
    }
  }

  /** Whatever other threads do while t waits for a lock, the end of the wait leaves t without edges
      exactly when t was the owner itself, or the lock is still in the table with the owner that t
      began to wait for; otherwise t keeps its edge to that owner. */
  lemma WaitLeavesNoEdgeIff(s: Protocol, d: Discipline, t: nat, lock: nat, es: seq<Event>)
    requires s.hooks.WellFormed() && s.hooks.Tabled(lock) && s.hooks.reg.OutOf(Process(t)) == []
    requires Runs(s.Step(Before(t, lock)), d, es) && forall e | e in es :: e.t != t || e.Unlock?
    requires Defined(RunTo(s.Step(Before(t, lock)), d, es).hooks, After(t, lock))
    ensures var o, s' := s.hooks.Owner(lock), RunTo(s.Step(Before(t, lock)), d, es);
            s'.Step(After(t, lock)).hooks.reg.OutOf(Process(t)) ==
              if o == t || (s'.hooks.Tabled(lock) && s'.hooks.Owner(lock) == o) then [] else [Process(o)]
  {
    BeforeFromNone(s.hooks, t, lock);
    OthersKeepAllEdges(s.Step(Before(t, lock)), d, es, t);
    var h := RunTo(s.Step(Before(t, lock)), d, es).hooks;
    if h.Tabled(lock) {
      AfterFromAtMostOne(h, t, lock, s.hooks.Owner(lock));
    }
  }
}
