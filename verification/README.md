# Verification of the algorithmic parts of Learning_C

A Dafny 4.11 project over five programs of the repository: the wait-for-graph deadlock
detector, the worker pool, the growable vector, the metadata-driven serializer and the
reference-counted pointer. `dafny verify dfyconfig.toml` checks all of it.

## What is modelled

**Deadlock detector** (`deadlock/deadlock.cpp`). `TaskGraph.dfy` has the detector's state and
code in the original's own form: an array of vertices that are the heads of linked lists, the
lock table, and the `visited` and `path` arrays, with the recursive search updating them in
place. A ghost registry says what the lists hold. `Digraphs.dfy`, `CycleSearch.dfy` and
`SearchBounds.dfy` give the meaning of the search on every graph. Walks are lists of edge
positions, so parallel edges give different walks and the empty walk counts.

- The search never unmarks a vertex when it backtracks, so "a report means a cycle" is false:
  `DiamondIsReported` names an acyclic graph that is reported, and
  `BuiltDiamondIsReported` builds it by five calls of `add_edge`. The exact meaning is proved
  instead, for all graphs: there is a report exactly when, from the target of some edge, two
  different walks lead to one vertex (`ReportsIffAmbiguous`). So no cycle is ever missed, and
  the answer is correct exactly on the graphs that have a cycle or no such pair of walks
  (`CorrectExactlyWhen`); graphs without branching are always answered correctly.
- `LockProtocol.dfy`, `LockTable.dfy` and `CircularWait.dfy` take the three lock hooks as atomic steps.
  With one pending lock per thread and one waiter per lock, in every run the edges are exactly the
  waits that the lock table knows of, the slots count their waiters, and the check reports exactly
  the circles of such waits (`CheckFindsCircularWaits`).
- Such a circle is a deadlock if and only if each of its locks is still held, and a deadlock is such a
  circle if and only if each of its locks is in the table (`WaitsAndBlocksAgree`); where the locks that
  are waited for are in the table exactly if they are held, the check reports exactly the deadlocks
  (`CheckFindsDeadlocks`, and `Detector.CheckDuringRun` for the code). Neither half goes without
  saying: the table keeps the last acquirer of a released lock while somebody waits for it
  (`ReleasedLockIsReported`, `ReportWithoutDeadlock`), and a held lock that nobody waits on loses
  its slot to the next lock that needs one (`ForgottenLockHidesDeadlock`, the plainest deadlock of
  two threads and two locks). `DeadlockIsReported` is a run in which all goes well.
- `UnlockIsDefinedIff` says after which runs a lock is in the table, whatever the hooks' order, and
  `SlotMissesEarlierWaiters` what its slot counts when each thread waits for one lock at a time: the
  waiters of the lock, less those who waited before it got the slot.
- Without the one-waiter discipline the graph goes wrong, and `WaitLeavesNoEdgeIff` says exactly when:
  the end of a wait clears the waiter's edge if and only if the waiter was the owner, or the lock is
  still in the table with the owner that the waiter began to wait for. The owner may change under the
  waiter (`SecondWaiterLeavesStaleEdge`), or the slot may be cleared under it (`WaitedSlotIsCleared`).
  Stale edges lead to a report where no threads wait in a circle (`StaleEdgeIsReported`), and hide
  deadlocks (`StaleEdgeHidesDeadlock`); these runs start with an empty graph and table.
- A thread that waits for a lock it owns itself gets no edge, so such a wait is never reported;
  a circle here is one of threads that each wait for another one.

**Worker pool** (`ThreadPool/ThreadPool_adv.cpp`). `ThreadPool.dfy` is a transition system whose
steps are the critical sections, the notifications after the mutex is released, the ends of
tasks and spurious wake-ups, for any number of workers, tasks and callers; a class performs the
same steps on the pool's fields. Proved over all runs, with any callers: exactly-once
first-in-first-out and no lost wake-up. The pool drains if and only if no task is added after all
workers have returned (`JoinedMeansAllRanIff`, `QuietMeansAllRanIff`); stops may be set and taken back
at any time. A shutdown whose stop is not taken back ends without fairness: the number of its steps
is bounded (`ShutdownIsBounded`), and it ends with all workers returned (`ShutdownCompletes`). Without a
stop, too, the pool comes to rest with every task run (`RestMeansAllRanIff`). The
destructor is proved in the same way, with the steps of the workers in any order
(`ThreadPool.Destroy`).

**Growable vector** (`vector/vector_.cpp`). `GrowableVector.dfy` has a class over raw slots that
are constructed and destroyed one at a time. The allocator, each relocation and the final
construction may throw, as a parameter says, and `StrongGuarantee` says exactly when a throw leaves
the contents as they were. `moves` says whether `std::move_if_noexcept`
yields an rvalue for the element type.

**Serializer** (`protobuf/probuf.cpp`). `Serializer.dfy`: integers are little-endian two's
complement, a string length is converted to 32 bits with wrap-around, and the enumeration of
the hash map is one sequence that both sides share. Fields may share an offset if they share
the type.

**Reference-counted pointer** (`_ptr/shared_ptr.cpp`). `SharedPointer.dfy` has the counting code
over a store of pointer objects, control blocks and objects, and refines it to ownership without
counting: an object goes with its last owner. The move constructor and move assignment copy, as
in the original.

Readings of the source: the two declarations of `pair_t` are one; the stray token after
`emplace_back` is ignored, its result is a reference, and the handler in `reallocate` destroys
`new_data[i]`; `p.ptr()` in the move assignment is `p.ptr`. `lock_num` is a fixed number of
slots, zeroed at the start. Where the original would index an array with -1 (no free slot in
`lock_after`, an untabled lock in `unlock_after`), a slot is required. Loops that the original
writes inline are sometimes methods of their own here, named after what the loop does.

## Model

| member | source | states |
|---|---|---|
| CycleSearch.SilentIffTree | deadlock/deadlock.cpp:299-318 | a search from v reports nothing exactly when what v reaches is an out-tree rooted at v that avoids the marked vertices |
| CycleSearch.FirstEdgeReports | deadlock/deadlock.cpp:320-342 | a search from a root through one of its edges reports exactly when two walks from that edge's target meet |
| CycleSearch.ReportsIffAmbiguous | deadlock/deadlock.cpp:345-362 | the check reports exactly when two different walks from the target of some edge lead to one vertex |
| CycleSearch.CyclesAreReported | deadlock/deadlock.cpp:345-362 | completeness: every cycle leads to a report |
| CycleSearch.CorrectExactlyWhen | deadlock/deadlock.cpp:344-362 | the answer "there is a cycle" is correct if and only if there is one or no edge leads to two walks that meet |
| CycleSearch.ExactWithoutBranching | deadlock/deadlock.cpp:344-362 | with at most one edge per vertex the check reports exactly the cyclic graphs |
| CycleSearch.DiamondIsReported | deadlock/deadlock.cpp:301-317 | an acyclic graph that is reported, because marks are never taken back |
| EdgeCircles.BuiltDiamondIsReported | deadlock/deadlock.cpp:100-111 | that graph is what five calls of add_edge build |
| SearchBounds.DfsReports | deadlock/deadlock.cpp:299-318 | each report continues the stack along real edges and repeats no vertex before its last one |
| SearchBounds.CheckReportsShape | deadlock/deadlock.cpp:279-287 | every reported path follows edges, repeats at most its last vertex, and has 2 to n + 1 vertices |
| SearchBounds.ReportContainsCycle | deadlock/deadlock.cpp:279-305 | without branching the last vertex of a report stands earlier on it: the report contains a cycle |
| SearchBounds.SearchReportsPerEdge | deadlock/deadlock.cpp:327-341 | a root goes on after a report: a report through each of its edges, exactly when two walks from the edge's target meet |
| SearchBounds.CheckReportsPerEdge | deadlock/deadlock.cpp:345-356 | all reports come from the first root that has one, at least one through each edge with such a target and none through others |
| SearchBounds.DfsMarksIff | deadlock/deadlock.cpp:301-317 | whatever it reports on the way, a search marks exactly what walks reach that meet no vertex marked before |
| SearchBounds.DfsCalls | deadlock/deadlock.cpp:299-318 | a search makes one call plus one per edge of the vertices it marks, and each call marks a vertex or reports |
| SearchBounds.CheckCallsBound | deadlock/deadlock.cpp:345-356 | a check over E edges makes at most E * (E + 1) calls |
| SearchBounds.CheckVerdict | deadlock/deadlock.cpp:345-362 | all consequences of the outcome together: meaning, completeness, exactness, shape of the reports, cost |
| TaskGraphs.TaskGraph.SearchVertex | deadlock/deadlock.cpp:78-88 | the first position of a label, or -1 |
| TaskGraphs.TaskGraph.AddVertex | deadlock/deadlock.cpp:91-97 | registers an unknown label at the end; the lists stay finite, disjoint and closed |
| TaskGraphs.TaskGraph.AddEdge | deadlock/deadlock.cpp:100-111 | registers both ends and appends one edge, with one new node |
| TaskGraphs.TaskGraph.VerifyEdge | deadlock/deadlock.cpp:114-131 | 1 exactly when u is registered and u itself or one of its edges has v's thread id; what that means over a history is VerifyAfterAddEdge |
| TaskGraphs.TaskGraph.RemoveEdge | deadlock/deadlock.cpp:134-154 | takes out the first matching edge, if both ends are registered, and frees one node exactly when something changed |
| TaskGraphs.TaskGraph.LastNode | deadlock/deadlock.cpp:104-108 | the walk to the end of a list ends at its last node |
| TaskGraphs.TaskGraph.LinkAfter | deadlock/deadlock.cpp:110-110 | the new node extends one list and leaves the others alone |
| TaskGraphs.TaskGraph.UnlinkAfter | deadlock/deadlock.cpp:145-149 | exactly the node after the given one leaves its list and is freed |
| TaskGraphs.TaskGraph.Dfs | deadlock/deadlock.cpp:299-318 | one vertex more on the stack, the rest of the stack as before, and marks, reports, calls and flag as the search function says; terminates on every graph |
| TaskGraphs.TaskGraph.SearchEdges | deadlock/deadlock.cpp:311-315 | the loop searches the targets of all edges and leaves the stack as it was |
| TaskGraphs.TaskGraph.SearchForCycle | deadlock/deadlock.cpp:321-342 | adds the reports of fresh searches through each edge of the root, whatever the arrays held |
| TaskGraphs.TaskGraph.Restart | deadlock/deadlock.cpp:328-337 | only the root is marked, only the root is on the stack, and the rest of the path is cleared |
| TaskGraphs.TaskGraph.CheckDeadLock | deadlock/deadlock.cpp:345-362 | the flag is 1 exactly when two walks from an edge's target meet, from any earlier contents of the arrays; the verdict on cycles, reports and cost holds |
| WaitGraph.AddVertexEffect | deadlock/deadlock.cpp:91-97 | registering leaves the edges of every vertex alone and labels unique |
| WaitGraph.AddEdgeEffect | deadlock/deadlock.cpp:100-111 | exactly v is appended to the edges of u, and only u's edges change |
| WaitGraph.RemoveEdgeEffect | deadlock/deadlock.cpp:134-154 | only u's edges can change, nothing is unregistered, and every edge still leads to a registered vertex |
| WaitGraph.RemoveFirstAt | deadlock/deadlock.cpp:144-152 | it is the first matching edge that goes, and only that one |
| WaitGraph.RemoveUndoesAdd | deadlock/deadlock.cpp:100-154 | adding an edge that was not there makes it verify, and removing it restores all edges |
| WaitGraph.VerifyAfterAddEdge | deadlock/deadlock.cpp:100-131 | after add_edge, verify_edge answers yes where it did before, for the new edge, and for both ends and their own ids, and nowhere else |
| WaitGraph.VerifyAfterAddVertex | deadlock/deadlock.cpp:91-131 | a registration adds the answer yes only for the new vertex and its own id; an empty graph denies everything (EmptyVerifiesNothing) |
| WaitGraph.VerifyAfterRemoveEdge | deadlock/deadlock.cpp:114-154 | remove_edge changes no answer about other vertices or other ids |
| WaitGraph.IndexedAt | deadlock/deadlock.cpp:312-312 | the search follows each edge to the position of its label, which is always in bounds |
| TaskGraphs.TaskGraph.SearchLock | deadlock/deadlock.cpp:159-169 | the first slot that names the lock, or -1 |
| TaskGraphs.TaskGraph.SearchEmptyLock | deadlock/deadlock.cpp:172-182 | the first slot that nobody waits on, or -1 |
| TaskGraphs.TaskGraph.LockBefore | deadlock/deadlock.cpp:186-212 | the hook step before a lock, on lists and table |
| TaskGraphs.TaskGraph.LockAfter | deadlock/deadlock.cpp:214-250 | the hook step after a lock, on lists and table |
| TaskGraphs.TaskGraph.UnlockAfter | deadlock/deadlock.cpp:252-263 | the hook step after an unlock, on the table |
| LockProtocol.BeforeFromNone | deadlock/deadlock.cpp:186-209 | a thread without edges gets exactly the edge to the owner, and none if it is the owner |
| LockProtocol.BeforeFromAny | deadlock/deadlock.cpp:186-209 | whatever edges the waiter has, one more to the owner, unless it is the owner or has one already; both are registered then |
| LockProtocol.AfterFromAny | deadlock/deadlock.cpp:229-245 | whatever edges the waiter has, the first one to the present owner goes, and only that |
| LockProtocol.WaitLeavesNoEdgeIff | deadlock/deadlock.cpp:186-250 | whatever other threads do in between, a wait leaves no edge exactly when the waiter was the owner, or the lock is still in the table with the owner it began to wait for; otherwise the edge to that owner stays |
| CircularWait.RunKeepsInv | deadlock/deadlock.cpp:186-263 | in every disciplined run the edges are exactly the waits, each slot counts its waiters and names the last acquirer, and no lock has two slots |
| CircularWait.OwnerStableWhileWaited | deadlock/deadlock.cpp:214-263 | a slot that is waited on keeps its lock and owner until that wait ends |
| CircularWait.CycleIffCircularWait | deadlock/deadlock.cpp:186-263 | the graph has a cycle exactly when threads wait in a circle, each for a lock whose slot names the next one |
| CircularWait.CheckFindsCircularWaits | deadlock/deadlock.cpp:186-362 | at every moment of a disciplined run the check reports exactly those circles, and each slot names the last acquirer |
| CircularWait.WaitsAndBlocksAgree | deadlock/deadlock.cpp:186-263 | a circle by the table is a deadlock exactly when all its locks are still held; a deadlock is a circle by the table exactly when all its locks are in it |
| CircularWait.TabledDeadlockIsReported | deadlock/deadlock.cpp:186-362 | every deadlock whose locks are all in the table is reported |
| CircularWait.CheckFindsDeadlocks | deadlock/deadlock.cpp:186-362 | where the locks that are waited for are in the table exactly if they are held, the check reports exactly the deadlocks |
| CircularWait.ReleasedLockIsReported | deadlock/deadlock.cpp:229-260 | within the discipline, a report over a lock that its owner has released, before its waiter took it |
| LockTable.HookOnSlot | deadlock/deadlock.cpp:186-263 | what any hook does to the slot of any lock: when it gets one, loses it, and how its count changes |
| LockTable.UnlockIsDefinedIff | deadlock/deadlock.cpp:252-257 | after any run, unlock_after has a slot to work on exactly when some thread got the lock and its slot was not cleared or taken over since |
| LockTable.RunLeavesFreeEmpty | deadlock/deadlock.cpp:252-260 | in every run, a slot that names no lock is empty altogether |
| LockTable.SlotMissesEarlierWaiters | deadlock/deadlock.cpp:194-260 | a slot counts its lock's waiters less those who waited before it got the slot, and a release clears it exactly when that makes nobody |
| LockScenarios.ShowsNext | deadlock/deadlock.cpp:186-263 | each hook changes slots, edges, waits and holds as the snapshots of the following runs do |
| LockScenarios.DeadlockIsReported | deadlock/deadlock.cpp:186-362 | a disciplined run into a deadlock that is reported |
| LockScenarios.ReportWithoutDeadlock | deadlock/deadlock.cpp:186-362 | a disciplined run into a report where there is no deadlock |
| LockScenarios.ForgottenLockHidesDeadlock | deadlock/deadlock.cpp:172-182 | two threads, two locks: the second lock takes the slot of the first, whose release then has none, and the deadlock is missed |
| LockScenarios.SecondWaiterLeavesStaleEdge | deadlock/deadlock.cpp:229-245 | with two waiters on a lock, the one that gets it last keeps an edge to the former owner |
| LockScenarios.StaleEdgeIsReported | deadlock/deadlock.cpp:186-362 | a run of two waiters into a report where no threads wait in a circle, neither by the table nor in fact |
| LockScenarios.StaleEdgeHidesDeadlock | deadlock/deadlock.cpp:186-362 | a run of two waiters into a deadlock that is missed though both locks are in the table |
| LockScenarios.WaitedSlotIsCleared | deadlock/deadlock.cpp:220-260 | a run of two first lockers in which a slot is cleared under a waiter, who keeps its edge when its wait is over |
| LockScenarios.SecondFirstLockerIsUncounted | deadlock/deadlock.cpp:220-260 | two first lockers leave a slot that counts less than nobody; the next waiter makes it nobody, and a release then clears the slot under that waiter |
| Detector.CheckDuringRun | deadlock/deadlock.cpp:345-362 | the check's code, run during a disciplined run, sets its flag exactly for those circles: for every deadlock whose locks are in the table, and exactly for deadlocks where the locks that are waited for are in the table just if they are held |
| PoolProofs.StepConserves | ThreadPool/ThreadPool_adv.cpp:24-36 | every step keeps the order of the queue and each task in one place |
| PoolProofs.StepLosesNoWakeUp | ThreadPool/ThreadPool_adv.cpp:27-72 | every step keeps: while a worker sleeps, each queued task has a notification due or a worker about to look, and a stop has its broadcast due |
| PoolProofs.RunKeepsInv | ThreadPool/ThreadPool_adv.cpp:24-72 | in every reachable state: exactly-once first-in-first-out, and no lost wake-up |
| PoolProofs.StepDrainsIff | ThreadPool/ThreadPool_adv.cpp:31-33 | a step leaves the queue empty once all workers have returned, unless it adds a task to such a pool |
| PoolProofs.ReturnsOnlyWhenStopped | ThreadPool/ThreadPool_adv.cpp:31-31 | a worker returns only at a moment when the queue is empty and somebody set the stop and nobody took it back |
| PoolProofs.StoppedIffSet | ThreadPool/ThreadPool_adv.cpp:19-54 | a new pool is not stopped, and later it is exactly when somebody set the stop and nobody took it back since |
| PoolProofs.LastLook | ThreadPool/ThreadPool_adv.cpp:26-34 | each worker that is not about to look is what its last look made of it: running the front task, returned, or asleep |
| PoolProofs.SleeperWakesIff | ThreadPool/ThreadPool_adv.cpp:28-30 | a sleeper wakes exactly by a broadcast, by a notification that picks it, or spuriously |
| PoolProofs.NotificationsAddUp | ThreadPool/ThreadPool_adv.cpp:50-72 | in every run, the tasks added are those pushed, in order, and every push and every setStop has its notification made or due |
| PoolProofs.StrandedForEver | ThreadPool/ThreadPool_adv.cpp:31-33 | once all workers have returned, a queued task is never run |
| PoolProofs.JoinedMeansAllRanIff | ThreadPool/ThreadPool_adv.cpp:40-49 | when all workers have returned, the queue is empty and every task has run once, if and only if no task was added after all had returned |
| PoolProofs.QuietMeansAllRanIff | ThreadPool/ThreadPool_adv.cpp:24-72 | the same whenever nothing is due any more; and after a stop all workers have returned then |
| PoolProofs.RestsOnlyWhenQuiet | ThreadPool/ThreadPool_adv.cpp:24-72 | as long as anything is due, the pool itself can make a step |
| PoolProofs.StepUsesUp | ThreadPool/ThreadPool_adv.cpp:28-36 | after a stop every step, spurious wake-ups included, uses up a bound that only callers can raise |
| PoolProofs.ShutdownIsBounded | ThreadPool/ThreadPool_adv.cpp:40-49 | from a stop that is not taken back on, the length of a run is bounded by what was there and what is still added |
| PoolProofs.ShutdownCompletes | ThreadPool/ThreadPool_adv.cpp:40-49 | such a run, with only tasks adding tasks, comes to rest only when all workers have returned, with every task run unless one was added too late before |
| PoolProofs.PoolComesToRest | ThreadPool/ThreadPool_adv.cpp:24-72 | stopped or not, with finitely many calls and spurious wake-ups the pool makes boundedly many steps, whatever the scheduler does |
| PoolProofs.RestMeansAllRanIff | ThreadPool/ThreadPool_adv.cpp:24-72 | a run that cannot go on has run every task, within that bound, if and only if none was added too late |
| ThreadPools.ThreadPool.WaitAndTake | ThreadPool/ThreadPool_adv.cpp:26-34 | a worker's critical section: sleep, return with the stop set and nothing queued, or take the front task, which exists; no task and no wake-up is lost |
| ThreadPools.ThreadPool.Destroy | ThreadPool/ThreadPool_adv.cpp:40-49 | with the steps of workers, notifications, spurious wake-ups and tasks in any order, the destructor ends, all workers have returned, and every task has run if and only if none was stranded before |
| VectorGrowth.GrowthIsAmortised | vector/vector_.cpp:31-37 | in every run without a throw, the capacity is 0 or a power of two below twice the largest size, and all relocations together are the capacity less one |
| VectorGrowth.RelocationsPerPush | vector/vector_.cpp:31-37 | fewer than two relocations per push |
| VectorGrowth.ContentsArePushed | vector/vector_.cpp:24-40 | in every run each element is the value of the push that put it there, the last that found the vector so short |
| VectorGrowth.PopUndoesPush | vector/vector_.cpp:31-40 | after any run, a push appends its value and a pop takes it back |
| Vectors.Vector.Clear | vector/vector_.cpp:18-23 | destroys exactly the constructed elements, each once |
| Vectors.Vector.PopBack | vector/vector_.cpp:38-40 | destroys the last element, if there is one, and the contents are those before it |
| Vectors.Vector.Deallocate | vector/vector_.cpp:45-51 | frees the buffer, once no element is in it |
| Vectors.Vector.RelocateInto | vector/vector_.cpp:57-59 | exactly the elements before the throwing one are constructed in the new buffer |
| Vectors.Vector.Reallocate | vector/vector_.cpp:52-74 | on success the same contents in a new buffer; on a throw the same buffer, size and capacity, no partial copy left, and contents unchanged but for what moving took |
| Vectors.Vector.EmplaceBack | vector/vector_.cpp:31-37 | throws exactly when a call into the element type or allocator does; on success the contents are those before and the pushed value; a throw leaves the contents as they were if and only if no growth failed after moving an element that still had its value |
| Vectors.Vector.Destroy | vector/vector_.cpp:13-16 | nothing remains constructed or allocated, and constructions equal destructions |
| Encoding.IntRoundTrip | protobuf/probuf.cpp:54-59 | decoding the four bytes of a 32-bit integer gives it back |
| Encoding.BytesRoundTrip | protobuf/probuf.cpp:83-84 | encoding what four bytes decode to gives them back |
| Encoding.EncodeInt | protobuf/probuf.cpp:54-59 | the four bytes, lowest first, are the digits of the number or of its two's complement |
| Encoding.EncodingIsLaidOut | protobuf/probuf.cpp:46-73 | the encoding is the fields one after the other, each number as its four bytes and each string after the four bytes of its length modulo 2^32, and nothing else |
| Encoding.DecodedFieldLies | protobuf/probuf.cpp:75-94 | whatever decodes, each field gets the value that lies where the fields before it end; of fields that share an offset, the last one |
| Encoding.RoundTrip | protobuf/probuf.cpp:46-94 | for every schema and object, decoding restores every field, touches nothing else and uses exactly the encoding's bytes, whatever follows them |
| Encoding.RoundTripIff | protobuf/probuf.cpp:63-91 | the round trip works, whatever bytes follow, if and only if no string has 2^31 bytes or more |
| Encoding.EncodingIsPrefixFree | protobuf/probuf.cpp:46-73 | encodings by one schema are injective and prefix-free |
| Serializers.MetaClass.AddField | protobuf/probuf.cpp:21-23 | puts the field where its name stands, or at the end |
| Serializers.PutEffect | protobuf/probuf.cpp:21-23 | the name then leads to the new field, and every other name where it led before |
| Serializers.SerializeObject | protobuf/probuf.cpp:46-73 | the loop produces the encoding: every field's bytes at the sum of the widths before it |
| Serializers.DeserializeObject | protobuf/probuf.cpp:75-94 | the loop writes what the data decodes to into the object |
| Serializers.CopyThrough | protobuf/probuf.cpp:96-115 | an object written and read into another one copies exactly the schema's fields |
| Ownership.RunKeepsInv | _ptr/shared_ptr.cpp:26-70 | in every run, pointers share a block exactly when they share an object, and owned objects are not deleted |
| Ownership.DeletedExactlyOnce | _ptr/shared_ptr.cpp:14-22 | at every moment an object is owned and not deleted, or without owner and deleted exactly once |
| Ownership.GoesWithItsLastOwner | _ptr/shared_ptr.cpp:14-70 | an object is deleted at exactly the step that takes its last owner |
| SharedPointers.Store.Release | _ptr/shared_ptr.cpp:14-22 | the counts then fit the remaining pointers, and the object is deleted exactly if this was its last one |
| SharedPointers.Store.Construct | _ptr/shared_ptr.cpp:29-29 | a pointer to the object, with a new block that no other pointer has and a count of one |
| SharedPointers.Store.CopyConstruct | _ptr/shared_ptr.cpp:37-46 | both constructors take the other pointer's fields and become one more owner of its block |
| SharedPointers.Store.Assign | _ptr/shared_ptr.cpp:49-70 | both assignments take the other pointer's fields: one owner more of its block, one less of the old one; between pointers of one block nothing is deleted |
| SharedPointers.Store.Destroy | _ptr/shared_ptr.cpp:32-34 | the share is dropped, and the object with the last share |
| SharedPointers.Store.UseCount | _ptr/shared_ptr.cpp:80-82 | the number of pointers that share the block |

## Left out

- `dlsym` hooking, the pthread calls themselves, the printing and the demonstrations in `main`; of a printed report only the path is kept, in a ghost record.
- TaskGraphs.TaskGraph.UnlockAfter: requires a lock that is in the table; otherwise the original reads the slot at -1, which has no defined outcome, and `UnlockIsDefinedIff` says after which runs that happens.
- `lock_id` and `degress` of a vertex label, which the graph operations never read.
- `std::future`, `packaged_task` and argument forwarding in the pool: a task is a number, and the addition of a task by a running one is a step of its own.
- Hardware memory ordering, and fairness; progress is proved without fairness, as a bound on the number of steps, which spurious wake-ups can raise before a stop.
- Arguments of `push_back` that are references into the vector itself: the argument is a value.
- Overflow of `capacity * 2` and of byte sizes.
- The state of an element whose own move throws: it is taken as unchanged.
- Serializers.DeserializeObject: requires data that decodes; the original reads past the end or makes a string of negative length otherwise, which has no defined outcome.
- Concurrent use of the pointer: the decrement and the test for zero are two steps, so only sequential runs are covered.
- Destructors of pointed-to objects that use pointers themselves.
- `boost/`, `buffer/`, `protobuf/demo`, the generated protobuf code, sockets, processes and the language-feature demonstrations: library use, input and output, or small members.
