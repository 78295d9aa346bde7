/** The detector at work: the check on the graph that a disciplined run of the hooks has built. */
module Detector {
  import opened LockProtocol
  import opened EdgeCircles
  import opened CircularWait
  import opened TaskGraphs

  /** Called at any moment of a disciplined run, the check sets its flag exactly when threads wait in a circle
      by the table. So it sets it for every deadlock whose locks are all in the table, and where the locks
      that are waited for are in the table exactly if they are held, it sets it exactly for deadlocks. */
  method CheckDuringRun(tg: TaskGraph, ghost lockNum: nat, ghost es: seq<Event>, ghost s: Protocol)
    requires tg.Valid() && IsReached(lockNum, OneWaiter, es, s) && tg.Hooks() == s.hooks
    modifies tg.visited, tg.path, tg`k, tg`stack, tg`deadlock, tg`reports, tg`calls
    ensures tg.Valid() && tg.Hooks() == s.hooks
    ensures tg.deadlock == 1 <==> CircularWaiting(s)
    ensures forall ts | Chain(s.BlockedBy, ts) && |ts| >= 2 && ts[0] == ts[|ts| - 1] && AllTabled(s, ts) :: tg.deadlock == 1
    ensures (forall t | t in s.pending :: s.hooks.Tabled(s.pending[t]) <==> s.pending[t] in s.held) ==>
              (tg.deadlock == 1 <==> Deadlock(s))
  {
    tg.CheckDeadLock();
    CheckFindsCircularWaits(lockNum, es, s);
    forall ts | Chain(s.BlockedBy, ts) && |ts| >= 2 && ts[0] == ts[|ts| - 1] && AllTabled(s, ts)
      ensures tg.deadlock == 1
    {
      TabledDeadlockIsReported(s, ts);
    }
    if forall t | t in s.pending :: s.hooks.Tabled(s.pending[t]) <==> s.pending[t] in s.held {
      CheckFindsDeadlocks(lockNum, es, s);
    }
  }
}
