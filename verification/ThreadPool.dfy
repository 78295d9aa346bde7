/** The worker pool as a transition system. One step is one critical section of the mutex,
    one notification, one end of a task, or one spurious wake-up. */
module PoolSteps {

  type Task = nat

  /** A worker waits on the condition variable, competes for the mutex, runs a task, or has returned. */
  datatype Worker = Asleep | Awake | Running(task: Task) | Exited

  datatype Pool = Pool(
    workers: seq<Worker>,
    queue: seq<Task>,
    stop: bool,
    ones: nat,            // addTask calls that have released the mutex but not notified yet
    alls: nat,            // the same for setStop and the destructor
    added: seq<Task>,     // every task ever pushed, in order
    taken: seq<Task>,     // every task ever popped, in order
    finished: seq<Task>)  // every task ever completed, in order of completion

  /** Who calls addTask: a running task, or code outside the pool. */
  datatype Caller = Outside | Inside(w: nat)

  datatype Step =
    | Poll(w: nat)
    | Finish(w: nat)
    | Push(task: Task, caller: Caller)
    | NotifyOne(w: nat)
    | SetStop(flag: bool)
    | NotifyAll
    | WakeUp(w: nat)

  predicate SomeAsleep(ws: seq<Worker>) {
    exists i | 0 <= i < |ws| :: ws[i] == Asleep
  }

  predicate AllExited(ws: seq<Worker>) {
    forall i | 0 <= i < |ws| :: ws[i] == Exited
  }

  predicate Enabled(s: Pool, e: Step) {
    match e
    case Poll(w) => w < |s.workers| && s.workers[w] == Awake
    case Finish(w) => w < |s.workers| && s.workers[w].Running?
    case Push(_, c) => c.Inside? ==> c.w < |s.workers| && s.workers[c.w].Running?
    case NotifyOne(w) => s.ones > 0 && (SomeAsleep(s.workers) ==> w < |s.workers| && s.workers[w] == Asleep)
    case SetStop(_) => true
    case NotifyAll => s.alls > 0
    case WakeUp(w) => w < |s.workers| && s.workers[w] == Asleep
  }

  function WakeAll(ws: seq<Worker>): (r: seq<Worker>)
    ensures |r| == |ws|
    ensures forall i | 0 <= i < |ws| :: r[i] == if ws[i] == Asleep then Awake else ws[i]
  {
    seq(|ws|, i requires 0 <= i < |ws| => if ws[i] == Asleep then Awake else ws[i])
  }

  function Apply(s: Pool, e: Step): Pool
    requires Enabled(s, e)
  {
    match e
    case Poll(w) =>
      if s.queue == [] && !s.stop then s.(workers := s.workers[w := Asleep])
      else if s.queue == [] then s.(workers := s.workers[w := Exited])
      else s.(workers := s.workers[w := Running(s.queue[0])],
              queue := s.queue[1..], taken := s.taken + [s.queue[0]])
    case Finish(w) =>
      s.(workers := s.workers[w := Awake], finished := s.finished + [s.workers[w].task])
    case Push(task, _) =>
      s.(queue := s.queue + [task], added := s.added + [task], ones := s.ones + 1)
    case NotifyOne(w) =>
      if SomeAsleep(s.workers) then s.(workers := s.workers[w := Awake], ones := s.ones - 1)
      else s.(ones := s.ones - 1)
    case SetStop(flag) => s.(stop := flag, alls := s.alls + 1)
    case NotifyAll => s.(workers := WakeAll(s.workers), alls := s.alls - 1)
    case WakeUp(w) => s.(workers := s.workers[w := Awake])
  }

  function Init(threadNums: nat): Pool {
    Pool(seq(threadNums, _ => Awake), [], false, 0, 0, [], [], [])
  }

  // ---------------------------------------------------------------- sums over the workers

  function Sum(ws: seq<Worker>, f: Worker -> nat): nat {
    if ws == [] then 0 else f(ws[0]) + Sum(ws[1..], f)
  }

  lemma {:induction false} SumUpdate(ws: seq<Worker>, f: Worker -> nat, i: nat, w: Worker)
    requires i < |ws|
    ensures Sum(ws[i := w], f) + f(ws[i]) == Sum(ws, f) + f(w)
  {
    if i > 0 {
      SumUpdate(ws[1..], f, i - 1, w);
      assert ws[i := w][1..] == ws[1..][i - 1 := w];
    } else {
      assert ws[i := w][1..] == ws[1..];
    }
  }

  function AwakeCount(w: Worker): nat {
    if w == Awake then 1 else 0
  }

  /** How often task t is being run. */
  function Holds(t: Task): Worker -> nat {
    w => if w == Running(t) then 1 else 0
  }

  lemma {:induction false} SumWakeAll(ws: seq<Worker>, f: Worker -> nat)
    ensures f(Awake) <= f(Asleep) ==> Sum(WakeAll(ws), f) <= Sum(ws, f)
    ensures f(Awake) == f(Asleep) ==> Sum(WakeAll(ws), f) == Sum(ws, f)
  {
    if ws != [] {
      assert WakeAll(ws)[1..] == WakeAll(ws[1..]);
      SumWakeAll(ws[1..], f);
    }
  }

  lemma {:induction false} SumZero(ws: seq<Worker>, f: Worker -> nat)
    requires forall i | 0 <= i < |ws| :: f(ws[i]) == 0
    ensures Sum(ws, f) == 0
  {
    if ws != [] {
      assert forall i | 0 <= i < |ws| - 1 :: ws[1..][i] == ws[i + 1];
      SumZero(ws[1..], f);
    }
  }
}

module PoolProofs {
  import opened PoolSteps

  // ---------------------------------------------------------------- what every step keeps

  /** Task t is run, or has run, as often as it was taken. */
  ghost predicate TaskConserved(s: Pool, t: Task) {
    multiset(s.taken)[t] == Sum(s.workers, Holds(t)) + multiset(s.finished)[t]
  }

  /** Tasks leave the queue in the order they entered it, and each is queued, held by one worker, or finished. */
  ghost predicate Conserved(s: Pool) {
    && s.taken + s.queue == s.added
    && forall t :: TaskConserved(s, t)
  }

  /** No lost wake-up: while somebody sleeps, every queued task has a notification
      coming or a worker about to look; and a stop still has its broadcast coming. */
  ghost predicate NoLostWakeUp(s: Pool) {
    SomeAsleep(s.workers) ==>
      && |s.queue| <= s.ones + Sum(s.workers, AwakeCount)
      && (s.stop ==> s.alls > 0)
  }

  lemma StepConservesTask(s: Pool, e: Step, t: Task)
    requires Enabled(s, e) && TaskConserved(s, t)
    ensures TaskConserved(Apply(s, e), t)
  {
    if e.NotifyAll? {
      SumWakeAll(s.workers, Holds(t));
    } else if e.Poll? || e.Finish? || e.WakeUp? || (e.NotifyOne? && SomeAsleep(s.workers)) {
      SumUpdate(s.workers, Holds(t), e.w, Apply(s, e).workers[e.w]);
    }
  }

  lemma StepConserves(s: Pool, e: Step)
    requires Enabled(s, e) && Conserved(s)
    ensures Conserved(Apply(s, e))
  {
    forall t
      ensures TaskConserved(Apply(s, e), t)
    {
      StepConservesTask(s, e, t);
    }
    if e.Poll? && s.queue != [] {
      assert s.taken + [s.queue[0]] + s.queue[1..] == s.taken + s.queue;
    } else if e.Push? {
      assert s.taken + (s.queue + [e.task]) == s.taken + s.queue + [e.task];
    }
  }

  lemma StepLosesNoWakeUp(s: Pool, e: Step)
    requires Enabled(s, e) && NoLostWakeUp(s)
    ensures NoLostWakeUp(Apply(s, e))
  {
    var s' := Apply(s, e);
    if e.Poll? || e.Finish? || e.WakeUp? || (e.NotifyOne? && SomeAsleep(s.workers)) {
      SumUpdate(s.workers, AwakeCount, e.w, s'.workers[e.w]);
      if SomeAsleep(s'.workers) && !(e.Poll? && s.queue == []) {
        var i :| 0 <= i < |s'.workers| && s'.workers[i] == Asleep;
        assert s.workers[i] == Asleep;
      }
    }
  }

  lemma StepKeepsBoth(s: Pool, e: Step)
    requires Enabled(s, e) && Conserved(s) && NoLostWakeUp(s)
    ensures Conserved(Apply(s, e)) && NoLostWakeUp(Apply(s, e))
  {
    StepConserves(s, e);
    StepLosesNoWakeUp(s, e);
  }

  /** The queue is empty once all workers have returned. */
  predicate Drained(s: Pool) {
    AllExited(s.workers) ==> s.queue == []
  }

  /** A task is added to a pool whose workers have all returned. */
  predicate TooLate(s: Pool, e: Step) {
    e.Push? && AllExited(s.workers)
  }

  /** The last worker to return leaves an empty queue, whoever calls what and when. */
  lemma StepDrainsIff(s: Pool, e: Step)
    requires Enabled(s, e) && Drained(s)
    ensures Drained(Apply(s, e)) <==> !TooLate(s, e)
  {
    var s' := Apply(s, e);
    if AllExited(s'.workers) && !e.Push? && !AllExited(s.workers) {
      var i :| 0 <= i < |s.workers| && s.workers[i] != Exited;
      assert s'.workers[i] == Exited;
    }
  }

  // ---------------------------------------------------------------- every run

  /** Runs of a pool of n workers, under any scheduling and any callers. */
  ghost predicate IsRun(n: nat, es: seq<Step>, states: seq<Pool>) {
    && |states| == |es| + 1 && states[0] == Init(n)
    && forall x | 0 <= x < |es| :: Enabled(states[x], es[x]) && Apply(states[x], es[x]) == states[x + 1]
  }

  /** Some task was added, before state x, after all workers had returned. */
  ghost predicate AddedTooLate(es: seq<Step>, states: seq<Pool>, x: nat)
    requires x <= |es| < |states|
  {
    exists y | 0 <= y < x :: TooLate(states[y], es[y])
  }

  /** In every reachable state: exactly-once FIFO, and no lost wake-up. */
  lemma {:induction false} RunKeepsInv(n: nat, es: seq<Step>, states: seq<Pool>, x: nat)
    requires IsRun(n, es, states) && x < |states|
    ensures Conserved(states[x]) && NoLostWakeUp(states[x]) && |states[x].workers| == n
  {
    if x == 0 {
      forall t
        ensures TaskConserved(states[0], t)
      {
        SumZero(states[0].workers, Holds(t));
      }
    } else {
      RunKeepsInv(n, es, states, x - 1);
      var s, e := states[x - 1], es[x - 1];
      assert Enabled(s, e) && Apply(s, e) == states[x - 1 + 1];
      StepConserves(s, e);
      StepLosesNoWakeUp(s, e);
    }
  }

  /** Once all workers have returned, whatever is in the queue stays there for ever. */
  lemma {:induction false} StrandedForEver(n: nat, es: seq<Step>, states: seq<Pool>, x: nat, y: nat)
    requires IsRun(n, es, states) && x <= y < |states| && AllExited(states[x].workers)
    ensures AllExited(states[y].workers) && states[x].queue <= states[y].queue
    ensures states[y].finished == states[x].finished
    decreases y
  {
    if x < y {
      StrandedForEver(n, es, states, x, y - 1);
      var s, e := states[y - 1], es[y - 1];
      assert Enabled(s, e) && Apply(s, e) == states[y - 1 + 1];
    }
  }

  /** Up to the first task that is added too late, the pool drains. */
  lemma {:induction false} DrainsUntilTooLate(n: nat, es: seq<Step>, states: seq<Pool>, x: nat)
    requires IsRun(n, es, states) && x < |states| && !AddedTooLate(es, states, x)
    ensures Drained(states[x])
  {
    if x > 0 {
      DrainsUntilTooLate(n, es, states, x - 1);
      var s, e := states[x - 1], es[x - 1];
      assert Enabled(s, e) && Apply(s, e) == states[x - 1 + 1] && !TooLate(s, e);
      StepDrainsIff(s, e);
    }
  }

  // ---------------------------------------------------------------- what the fields tell about the past

  /** Before the step x the stop was set, and not taken back since. */
  ghost predicate StopStands(es: seq<Step>, x: nat)
    requires x <= |es|
  {
    exists y | 0 <= y < x :: es[y] == SetStop(true) && forall z | y < z < x :: es[z] != SetStop(false)
  }

  /** A new pool is not stopped, and the flag is what the last caller made it. */
  lemma {:induction false} StoppedIffSet(n: nat, es: seq<Step>, states: seq<Pool>, x: nat)
    requires IsRun(n, es, states) && x < |states|
    ensures states[x].stop <==> StopStands(es, x)
  {
    if x > 0 {
      StoppedIffSet(n, es, states, x - 1);
      var s, e := states[x - 1], es[x - 1];
      assert Enabled(s, e) && Apply(s, e) == states[x - 1 + 1];
      if StopStands(es, x - 1) && e != SetStop(false) {
        var y :| 0 <= y < x - 1 && es[y] == SetStop(true) && forall z | y < z < x - 1 :: es[z] != SetStop(false);
        assert forall z | y < z < x :: es[z] != SetStop(false);
      }
    }
  }

  /** The tasks that the first x steps push, in order. */
  function Pushed(es: seq<Step>, x: nat): seq<Task>
    requires x <= |es|
  {
    if x == 0 then [] else Pushed(es, x - 1) + if es[x - 1].Push? then [es[x - 1].task] else []
  }

  /** How many of the first x steps are of a kind. */
  function Times(es: seq<Step>, x: nat, kind: Step -> bool): nat
    requires x <= |es|
  {
    if x == 0 then 0 else Times(es, x - 1, kind) + if kind(es[x - 1]) then 1 else 0
  }

  /** The tasks added are those pushed, each push has its notification done or due, and so has
      each call of setStop its broadcast. */
  lemma {:induction false} NotificationsAddUp(n: nat, es: seq<Step>, states: seq<Pool>, x: nat)
    requires IsRun(n, es, states) && x < |states|
    ensures states[x].added == Pushed(es, x)
    ensures states[x].ones + Times(es, x, (e: Step) => e.NotifyOne?) == |Pushed(es, x)|
    ensures states[x].alls + Times(es, x, (e: Step) => e.NotifyAll?) == Times(es, x, (e: Step) => e.SetStop?)
  {
    if x > 0 {
      NotificationsAddUp(n, es, states, x - 1);
      assert Enabled(states[x - 1], es[x - 1]) && Apply(states[x - 1], es[x - 1]) == states[x - 1 + 1];
    }
  }

  /** A worker that is not about to look is what its last look at the pool y made of it: it runs the front
      task if there was one, and otherwise has returned after a stop and fallen asleep without one. */
  lemma {:induction false} LastLook(n: nat, es: seq<Step>, states: seq<Pool>, x: nat, i: nat) returns (y: nat)
    requires IsRun(n, es, states) && x < |states| && i < |states[x].workers| && states[x].workers[i] != Awake
    ensures y < x && es[y] == Poll(i)
    ensures states[x].workers[i] == if states[y].queue != [] then Running(states[y].queue[0])
                                    else if states[y].stop then Exited else Asleep
    ensures forall z | y < z <= x :: i < |states[z].workers| && states[z].workers[i] == states[x].workers[i]
  {
    if x > 0 {
      var s, e := states[x - 1], es[x - 1];
      assert Enabled(s, e) && Apply(s, e) == states[x - 1 + 1];
      if e == Poll(i) {
        y := x - 1;
      } else {
        y := LastLook(n, es, states, x - 1, i);
      }
    }
  }

  /** A sleeping worker wakes exactly by a broadcast, by a notification that picks it, or spuriously. */
  lemma SleeperWakesIff(s: Pool, e: Step, i: nat)
    requires Enabled(s, e) && i < |s.workers| && s.workers[i] == Asleep
    ensures Apply(s, e).workers[i] == if e in {NotifyAll, NotifyOne(i), WakeUp(i)} then Awake else Asleep
  {
  }

  /** A worker returns only at a moment when the queue is empty and a stop was set and not taken back. */
  lemma ReturnsOnlyWhenStopped(n: nat, es: seq<Step>, states: seq<Pool>, x: nat, i: nat) returns (y: nat)
    requires IsRun(n, es, states) && x < |states| && i < |states[x].workers| && states[x].workers[i] == Exited
    ensures y < x && es[y] == Poll(i) && states[y].queue == [] && StopStands(es, y)
  {
    y := LastLook(n, es, states, x, i);
    StoppedIffSet(n, es, states, y);
  }

  /** Nothing is due: no worker runs or competes for the mutex, and no notification is pending. */
  ghost predicate Quiet(s: Pool) {
    s.ones == 0 && s.alls == 0 && forall i | 0 <= i < |s.workers| :: s.workers[i] in {Asleep, Exited}
  }

  lemma NobodyRuns(s: Pool)
    requires Conserved(s) && forall i | 0 <= i < |s.workers| :: !s.workers[i].Running?
    ensures multiset(s.finished) == multiset(s.taken)
  {
    forall t: Task
      ensures multiset(s.finished)[t] == multiset(s.taken)[t]
    {
      assert TaskConserved(s, t);
      SumZero(s.workers, Holds(t));
    }
  }

  /** Every task ever added has left the queue and run exactly once. */
  predicate AllRan(s: Pool) {
    s.queue == [] && multiset(s.finished) == multiset(s.added)
  }

  lemma AllRanIfDrained(s: Pool)
    requires Conserved(s) && AllExited(s.workers)
    ensures AllRan(s) <==> Drained(s)
  {
    if s.queue == [] {
      assert s.taken == s.added;
      NobodyRuns(s);
    }
  }

  /** When all workers have returned, every task has run if and only if none was added too late,
      however often the stop was set or taken back. */
  lemma JoinedMeansAllRanIff(n: nat, es: seq<Step>, states: seq<Pool>, x: nat)
    requires IsRun(n, es, states) && x < |states| && AllExited(states[x].workers)
    ensures AllRan(states[x]) <==> !AddedTooLate(es, states, x)
  {
    var s := states[x];
    if AddedTooLate(es, states, x) {
      var y :| 0 <= y < x && TooLate(states[y], es[y]);
      assert Enabled(states[y], es[y]) && Apply(states[y], es[y]) == states[y + 1];
      StrandedForEver(n, es, states, y + 1, x);
      assert states[y + 1].queue != [];
    } else {
      DrainsUntilTooLate(n, es, states, x);
      RunKeepsInv(n, es, states, x);
      AllRanIfDrained(s);
    }
  }

  /** When nothing is due any more, every task has run if and only if none was added too late,
      and after a stop all workers have returned. */
  lemma QuietMeansAllRanIff(n: nat, es: seq<Step>, states: seq<Pool>, x: nat)
    requires IsRun(n, es, states) && x < |states| && Quiet(states[x])
    ensures AllRan(states[x]) <==> !AddedTooLate(es, states, x)
    ensures states[x].stop ==> AllExited(states[x].workers)
  {
    var s := states[x];
    RunKeepsInv(n, es, states, x);
    SumZero(s.workers, AwakeCount);
    if AllExited(s.workers) {
      JoinedMeansAllRanIff(n, es, states, x);
    } else {
      var i :| 0 <= i < |s.workers| && s.workers[i] != Exited;
      assert s.workers[i] == Asleep;
      assert s.taken == s.added;
      NobodyRuns(s);
      if AddedTooLate(es, states, x) {
        var y :| 0 <= y < x && TooLate(states[y], es[y]);
        StrandedForEver(n, es, states, y, x);
      }
    }
  }

  // ---------------------------------------------------------------- the end of a shutdown

  /** How many steps a worker still causes on its own. */
  function Weight(w: Worker): nat {
    match w
    case Asleep => 2
    case Awake => 1
    case Running(_) => 2
    case Exited => 0
  }

  /** An upper bound for the steps that are still to come after a stop. */
  function Remaining(s: Pool): nat {
    2 * |s.queue| + Sum(s.workers, Weight) + s.ones + s.alls
  }

  /** What a step that comes from outside adds to that bound. */
  function Cost(e: Step): nat {
    match e
    case Push(_, _) => 4
    case SetStop(_) => 2
    case _ => 0
  }

  /** The costs of the steps from state x to state y. */
  function Costs(es: seq<Step>, x: nat, y: nat): nat
    requires x <= y <= |es|
  {
    if x == y then 0 else Costs(es, x, y - 1) + Cost(es[y - 1])
  }

  /** After a stop, every step uses the bound up, spurious wake-ups included. */
  lemma StepUsesUp(s: Pool, e: Step)
    requires Enabled(s, e) && s.stop
    ensures Remaining(Apply(s, e)) + 1 <= Remaining(s) + Cost(e)
  {
    var s' := Apply(s, e);
    if e.NotifyAll? {
      SumWakeAll(s.workers, Weight);
    } else if e.Poll? || e.Finish? || e.WakeUp? || (e.NotifyOne? && SomeAsleep(s.workers)) {
      SumUpdate(s.workers, Weight, e.w, s'.workers[e.w]);
    }
  }

  /** From state x on, up to state y, the stop is not taken back. */
  ghost predicate StopStays(es: seq<Step>, x: nat, y: nat)
    requires x <= y <= |es|
  {
    forall z | x <= z < y :: es[z] != SetStop(false)
  }

  lemma StopStep(n: nat, es: seq<Step>, states: seq<Pool>, y: nat)
    requires IsRun(n, es, states) && y < |es| && states[y].stop && es[y] != SetStop(false)
    ensures states[y + 1].stop && Remaining(states[y + 1]) + 1 <= Remaining(states[y]) + Cost(es[y])
  {
    assert Enabled(states[y], es[y]) && Apply(states[y], es[y]) == states[y + 1];
    StepUsesUp(states[y], es[y]);
  }

  /** A shutdown ends: from a stop on, a run that adds finitely many tasks has boundedly many
      steps, whatever the scheduler does. */
  lemma {:induction false} ShutdownIsBounded(n: nat, es: seq<Step>, states: seq<Pool>, x: nat, y: nat)
    requires IsRun(n, es, states) && x <= y < |states| && states[x].stop && StopStays(es, x, y)
    ensures states[y].stop
    ensures y - x + Remaining(states[y]) <= Remaining(states[x]) + Costs(es, x, y)
    decreases y
  {
    if x < y {
      ShutdownIsBounded(n, es, states, x, y - 1);
      StopStep(n, es, states, y - 1);
    }
  }

  // ---------------------------------------------------------------- the pool comes to rest

  function Effort(w: Worker): nat {
    match w
    case Asleep => 0
    case Awake => 1
    case Running(_) => 2
    case Exited => 0
  }

  /** An upper bound for the steps that the pool still makes of its own accord, stopped or not. */
  function Due(s: Pool): nat {
    2 * |s.queue| + Sum(s.workers, Effort) + 2 * s.ones + (|s.workers| + 1) * s.alls
  }

  /** What the callers, and spurious wake-ups, add to that bound in a pool of n workers. */
  function Trouble(e: Step, n: nat): nat {
    match e
    case Push(_, _) => 5
    case SetStop(_) => n + 2
    case WakeUp(_) => 2
    case _ => 0
  }

  function Troubles(es: seq<Step>, n: nat, x: nat, y: nat): nat
    requires x <= y <= |es|
  {
    if x == y then 0 else Troubles(es, n, x, y - 1) + Trouble(es[y - 1], n)
  }

  lemma {:induction false} WakeAllEffort(ws: seq<Worker>)
    ensures Sum(WakeAll(ws), Effort) <= Sum(ws, Effort) + |ws|
  {
    if ws != [] {
      assert WakeAll(ws)[1..] == WakeAll(ws[1..]);
      WakeAllEffort(ws[1..]);
    }
  }

  lemma BroadcastUsesEffort(s: Pool, e: Step)
    requires Enabled(s, e) && (e.NotifyAll? || e.SetStop?)
    ensures Due(Apply(s, e)) + 1 <= Due(s) + Trouble(e, |s.workers|)
  {
    var k := |s.workers| + 1;
    assert k * (s.alls - 1) == k * s.alls - k && k * (s.alls + 1) == k * s.alls + k;
    WakeAllEffort(s.workers);
  }

  /** Every step uses the bound up; in particular a worker that finds nothing goes to sleep. */
  lemma StepUsesEffort(s: Pool, e: Step)
    requires Enabled(s, e)
    ensures Due(Apply(s, e)) + 1 <= Due(s) + Trouble(e, |s.workers|)
  {
    if e.NotifyAll? || e.SetStop? {
      BroadcastUsesEffort(s, e);
    } else if e.Poll? || e.Finish? || e.WakeUp? || (e.NotifyOne? && SomeAsleep(s.workers)) {
      SumUpdate(s.workers, Effort, e.w, Apply(s, e).workers[e.w]);
    }
  }

  /** With finitely many calls and spurious wake-ups, the pool makes boundedly many steps, before a stop as after it. */
  lemma {:induction false} PoolComesToRest(n: nat, es: seq<Step>, states: seq<Pool>, x: nat, y: nat)
    requires IsRun(n, es, states) && x <= y < |states|
    ensures y - x + Due(states[y]) <= Due(states[x]) + Troubles(es, n, x, y)
    decreases y
  {
    if x < y {
      PoolComesToRest(n, es, states, x, y - 1);
      RunKeepsInv(n, es, states, y - 1);
      assert Enabled(states[y - 1], es[y - 1]) && Apply(states[y - 1], es[y - 1]) == states[y - 1 + 1];
      StepUsesEffort(states[y - 1], es[y - 1]);
    }
  }

  /** The steps of the pool itself: they need no caller and no spurious wake-up. */
  ghost predicate CanStep(s: Pool) {
    exists e: Step :: Enabled(s, e) && (e.Poll? || e.Finish? || e.NotifyOne? || e.NotifyAll?)
  }

  /** A run can only come to rest where nothing is due: no worker is ever stuck. */
  lemma RestsOnlyWhenQuiet(s: Pool)
    ensures CanStep(s) <==> !Quiet(s)
  {
    if s.alls > 0 {
      assert Enabled(s, NotifyAll);
    } else if s.ones > 0 {
      if SomeAsleep(s.workers) {
        var i: nat :| i < |s.workers| && s.workers[i] == Asleep;
        assert Enabled(s, NotifyOne(i));
      } else {
        assert Enabled(s, NotifyOne(0));
      }
    } else if !Quiet(s) {
      var i: nat :| i < |s.workers| && s.workers[i] !in {Asleep, Exited};
      assert Enabled(s, if s.workers[i] == Awake then Poll(i) else Finish(i));
    }
  }

  /** A run from a stop on, in which only running tasks add tasks, can come to rest only when all
      workers have returned; and every task has run if and only if none was added too late before. */
  lemma ShutdownCompletes(n: nat, es: seq<Step>, states: seq<Pool>, x: nat, y: nat)
    requires IsRun(n, es, states) && x <= y < |states| && states[x].stop && !CanStep(states[y])
    requires forall z | x <= z < y :: !es[z].SetStop? && (es[z].Push? ==> es[z].caller.Inside?)
    ensures AllExited(states[y].workers) && y - x <= Remaining(states[x]) + Costs(es, x, y)
    ensures AllRan(states[y]) <==> !AddedTooLate(es, states, x)
  {
    ShutdownIsBounded(n, es, states, x, y);
    RestsOnlyWhenQuiet(states[y]);
    QuietMeansAllRanIff(n, es, states, y);
    forall z | x <= z < y
      ensures !TooLate(states[z], es[z])
    {
      assert Enabled(states[z], es[z]);
    }
  }

  /** A pool that has made all its steps, within that bound, has run every task, unless one was added too late. */
  lemma RestMeansAllRanIff(n: nat, es: seq<Step>, states: seq<Pool>, x: nat, y: nat)
    requires IsRun(n, es, states) && x <= y < |states| && !CanStep(states[y])
    ensures y - x <= Due(states[x]) + Troubles(es, n, x, y)
    ensures AllRan(states[y]) <==> !AddedTooLate(es, states, y)
  {
    PoolComesToRest(n, es, states, x, y);
    RestsOnlyWhenQuiet(states[y]);
    QuietMeansAllRanIff(n, es, states, y);
  }
}

module ThreadPools {
  import opened PoolSteps
  import opened PoolProofs

  /** The pool's own fields, with a record of what each worker thread is doing and of the
      notifications that are due. Each method up to Destroy is one atomic step. */
  class ThreadPool {
    var threads: seq<Worker>
    var taskQueue: seq<Task>
    var stopFlag: bool
    var ones: nat
    var alls: nat
    ghost var added: seq<Task>
    ghost var taken: seq<Task>
    ghost var finished: seq<Task>

    ghost function View(): Pool
      reads this
    {
      Pool(threads, taskQueue, stopFlag, ones, alls, added, taken, finished)
    }

    /** Each task is queued, held by one worker, or finished, in order; and no wake-up is lost. */
    ghost predicate Valid()
      reads this
    {
      Conserved(View()) && NoLostWakeUp(View())
    }

    constructor (threadNums: nat)
      ensures Valid() && View() == Init(threadNums)
      ensures |threads| == threadNums && taskQueue == [] && !stopFlag
    {
      threads := seq(threadNums, _ => Awake);
      taskQueue, stopFlag, ones, alls := [], false, 0, 0;
      added, taken, finished := [], [], [];
      new;
      RunKeepsInv(threadNums, [], [View()], 0);
    }

    /** A worker's block under the mutex: wait until there is a task or a stop, then return or take a task. */
    method WaitAndTake(w: nat)
      requires Valid() && Enabled(View(), Poll(w))
      modifies this
      ensures Valid() && View() == Apply(old(View()), Poll(w))
      ensures threads[w] == Exited ==> stopFlag && taskQueue == []
    {
      StepKeepsBoth(View(), Poll(w));
      if !(taskQueue != [] || stopFlag) {
        threads := threads[w := Asleep];  // the wait releases the mutex
        return;
      }
      if taskQueue == [] && stopFlag {
        threads := threads[w := Exited];
        return;
      }
      var task := taskQueue[0];
      taskQueue := taskQueue[1..];
      threads := threads[w := Running(task)];
      taken := taken + [task];
    }

    /** What a worker runs ends, and the worker goes round its loop again. */
    method TaskEnds(w: nat)
      requires Valid() && Enabled(View(), Finish(w))
      modifies this
      ensures Valid() && View() == Apply(old(View()), Finish(w))
    {
      StepKeepsBoth(View(), Finish(w));
      finished := finished + [threads[w].task];
      threads := threads[w := Awake];
    }

    method SpuriousWakeUp(w: nat)
      requires Valid() && Enabled(View(), WakeUp(w))
      modifies this
      ensures Valid() && View() == Apply(old(View()), WakeUp(w))
    {
      StepKeepsBoth(View(), WakeUp(w));
      threads := threads[w := Awake];
    }

    /** addTask up to the release of the mutex; its notification is then due. */
    method AddTask(task: Task, caller: Caller)
      requires Valid() && Enabled(View(), Push(task, caller))
      modifies this
      ensures Valid() && View() == Apply(old(View()), Push(task, caller))
    {
      StepKeepsBoth(View(), Push(task, caller));
      taskQueue := taskQueue + [task];
      added := added + [task];
      ones := ones + 1;
    }

    /** The notification of an addTask; the system picks the sleeper w, if there is one. */
    method CallNotifyOne(w: nat)
      requires Valid() && Enabled(View(), NotifyOne(w))
      modifies this
      ensures Valid() && View() == Apply(old(View()), NotifyOne(w))
    {
      StepKeepsBoth(View(), NotifyOne(w));
      ones := ones - 1;
      if SomeAsleep(threads) {
        threads := threads[w := Awake];
      }
    }

    /** setStop, or the destructor with flag == true, up to the release of the mutex. */
    method CallSetStop(flag: bool)
      requires Valid()
      modifies this
      ensures Valid() && View() == Apply(old(View()), SetStop(flag))
    {
      StepKeepsBoth(View(), SetStop(flag));
      stopFlag := flag;
      alls := alls + 1;
    }

    method CallNotifyAll()
      requires Valid() && Enabled(View(), NotifyAll)
      modifies this
      ensures Valid() && View() == Apply(old(View()), NotifyAll)
    {
      StepKeepsBoth(View(), NotifyAll);
      alls := alls - 1;
      threads := WakeAll(threads);
    }

    /** The destructor: stop, broadcast, and join all workers. Meanwhile running tasks add the tasks
        of further, or some of them. */
    method Destroy(further: seq<Task>)
      requires Valid()
      modifies this
      ensures Valid() && stopFlag && AllExited(threads)
      ensures old(added) <= added <= old(added) + further
      ensures AllRan(View()) <==> old(Drained(View()))
    {
      CallSetStop(true);
      var n := 0;
      while !AllExited(threads)
        invariant Valid() && stopFlag && n <= |further| && added == old(added) + further[..n]
        invariant Drained(View()) <==> old(Drained(View()))
        decreases Remaining(View()) + 4 * (|further| - n)
      {
        n := AnyStep(further, n);
      }
      AllRanIfDrained(View());
    }

    /** Some step that is possible while the destructor waits, and its effect. */
    method AnyStep(further: seq<Task>, n: nat) returns (n': nat)
      requires Valid() && stopFlag && !AllExited(threads) && n <= |further|
      modifies this
      ensures Valid() && stopFlag && n <= n' <= |further| && added == old(added) + further[n..n']
      ensures Drained(View())
      ensures Remaining(View()) + 4 * (|further| - n') < old(Remaining(View())) + 4 * (|further| - n)
    {
      var e := Choose(further, n);
      StepUsesUp(View(), e);
      StepDrainsIff(View(), e);
      Perform(e);
      n' := if e.Push? then n + 1 else n;
      assert further[n..n'] == if e.Push? then [e.task] else [];
    }

    /** A choice among all steps that the pool and its running tasks can make, and spurious wake-ups. */
    method Choose(further: seq<Task>, n: nat) returns (e: Step)
      requires Valid() && stopFlag && !AllExited(threads) && n <= |further|
      ensures Enabled(View(), e) && !e.SetStop?
      ensures e.Push? ==> n < |further| && e.task == further[n]
    {
      if
      case alls > 0 =>
        e := NotifyAll;
      case ones > 0 && !SomeAsleep(threads) =>
        e := NotifyOne(0);
      case w: nat :| w < |threads| && threads[w] == Asleep && ones > 0 =>
        e := NotifyOne(w);
      case w: nat :| w < |threads| && threads[w] == Asleep =>
        e := WakeUp(w);
      case w: nat :| w < |threads| && threads[w] == Awake =>
        e := Poll(w);
      case w: nat :| w < |threads| && threads[w].Running? =>
        e := Finish(w);
      case w: nat :| w < |threads| && threads[w].Running? && n < |further| =>
        e := Push(further[n], Inside(w));
    }

    method Perform(e: Step)
      requires Valid() && Enabled(View(), e)
      modifies this
      ensures Valid() && View() == Apply(old(View()), e)
    {
      match e
      case Poll(w) => WaitAndTake(w);
      case Finish(w) => TaskEnds(w);
      case Push(task, caller) => AddTask(task, caller);
      case NotifyOne(w) => CallNotifyOne(w);
      case SetStop(flag) => CallSetStop(flag);
      case NotifyAll => CallNotifyAll();
      case WakeUp(w) => SpuriousWakeUp(w);
    }
  }
}
