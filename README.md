# go-balancer: the admission and scheduling engine, in Dafny

This project models the generic `loadBalancer[T]` of `balancer.go`: a
bounded-concurrency job dispatcher. Callers submit work items with `AddJob`;
each gets a fresh id and is appended to an ordered queue. When the gate has a
free slot (`totalRunningJobs < executeNjobs`), the job is executed inline:
flagged running, run, unflagged, removed from the queue. Then the scheduler is
triggered again, still inside the same call. The trigger picks the earliest
queued entry that is not running. This repeats while slots and idle entries
remain. Entries can be cancelled by id, and the queue length can be read.

The model has two modules.

- `queue.dfy` (module `Queue`) holds the queue as a value: the entry type
  `QueueItem`, the queue invariant `WellOrdered`, and the functions the
  balancer is proved against:
  - `Position`: the first entry carrying an id;
  - `RemoveAt`: cut one entry out of the queue;
  - `IdleIds`: the ids of idle entries, in scheduling order;
  - `DropIdle`: the queue after its first n idle entries ran;
  - `CountRunning`: how many entries are flagged running.

  It also holds the lemmas about these functions.
- `balancer.dfy` (module `GoBalancer`) holds the class `LoadBalancer<T>`. Its
  fields are the source's: `ids`, `l`, `executeNjobs` and `totalRunningJobs`.
  The ghost log `Runs` records the ids whose `Run` was invoked, in order.
  Every method of the source except `WaitForRunningJobs` is a method or
  function of the class. The
  mutual recursion between `Execute` and `TriggerScheduler` is kept. It
  terminates on the measure `(|l|, 0)` for `Execute` and `(|l|, 1)` for
  `TriggerScheduler`. Each `Execute` that runs a job removes one entry
  before it triggers again.

The central results are these:

- Ids are issued as 1, 2, 3, … and never reused.
- The queue stays strictly increasing in id, which is submission order.
- Removal by id is exact and keeps the order of the other entries.
- `Execute` leaves the running counter as it found it.
- The running counter never exceeds the bound: `0 <= totalRunningJobs <=
  executeNjobs` is part of `Valid()`, which every method keeps. This is the
  sequential form of "at most N jobs at the same time" (balancer.go:42).
  `Execute` requires a free slot, as both of its callers check one first
  (balancer.go:77-79, 132-139).
- A scheduler trigger made with `c` slots taken runs exactly the first
  `min(#idle, max(0, executeNjobs - c))` idle jobs, in queue order. The queue
  it leaves is `DropIdle` of the old one. Inside `Execute` the trigger runs
  while the finishing job still holds its slot, because the decrement is
  deferred. So a job's completion admits `executeNjobs - c - 1` more jobs,
  not `executeNjobs - c`. With `executeNjobs == 1` a completion never starts
  a queued job: the deferred `decTotalRunningJobs` (balancer.go:161) still
  holds the slot while `triggerScheduler` runs (balancer.go:189). For example,
  with bound 1, counter 0 and one idle entry 1 queued, `AddJob` runs only the
  new job 2 and leaves entry 1 queued. Such a queue arises only from
  concurrent callers, or from a `Run` that calls back into the balancer,
  which the model excludes. A panicking `Run` leaves its entry flagged
  running, not idle.
- Under sequential use the counter is 0 between calls. So every `AddJob` runs
  its job before returning, and the queue is empty again afterwards
  (`AddJob`, `old(Quiescent()) ==> Quiescent()`). This assumes each `Run`
  returns normally. Queued idle entries, running flags and a non-zero
  counter can then arise only from concurrent callers. A `Run` that panics
  can also leave a running flag behind (see `Execute` under "Left out").
  The methods are therefore specified for every state that satisfies the
  invariant, not only for the states sequential use reaches.
- `AddJob` with a free slot runs the new job *before* any older idle entry
  still queued. The cascade then takes the older entries. This is what the
  code does. It is not strict FIFO.

Three behaviours of the code are easy to misread; the model follows the code:

- `TotalRunningJobs` returns `len(lb.l)`, the same value as `TotalJobs`, and
  not `totalRunningJobs` (balancer.go:99-103). Its own doc comment at
  balancer.go:98 says it returns the number of running jobs; the code does
  not. The model reproduces what the code does.
  Its contract states that the value counts running *and* idle entries.
- `RemoveJobByID` removes the entry whether or not it is flagged running
  (balancer.go:198-208), so a job whose `Run` is in progress can be cancelled
  too.
- `execute` resets `isRunning` to false before it removes the entry
  (balancer.go:184-187). So an entry is briefly idle while still queued.

## Model

| member | source | states |
|---|---|---|
| Queue.Position | balancer.go:164-173 | the index found is that of the first entry with the id, every earlier entry has a different id, and -1 means no entry has it |
| Queue.RemoveAt | balancer.go:202 | one entry fewer; entries before the gap are unchanged and entries after it move down by one, so relative order is kept |
| Queue.RemoveAtIsSlice | balancer.go:202 | removing index i is the slice concatenation `l[..i] + l[i+1..]` |
| Queue.RemoveAtKeepsOrder | balancer.go:198-208 | removing one entry keeps ids increasing and within the issued range; the removed id is gone and every other entry is still found |
| Queue.AppendedIsLast | balancer.go:192-196 | an entry appended with an id above every queued id is found at the tail, and removing it gives back the old queue |
| Queue.PositionOfQueued | balancer.go:164-173 | in a well-ordered queue the entry at index i is the one found for its id |
| Queue.RunAndRemoveKeepsLog | balancer.go:179-187 | logging the run of an entry and removing it keeps every job run at most once, and no run job is still queued |
| Queue.NoIdleIffAllRunning | balancer.go:144-153 | there is no idle id exactly when every entry is flagged running |
| Queue.QueuePartition | balancer.go:98-103 | the queue length is the number of running entries plus the number of idle entries |
| Queue.SplitAtFirstIdle | balancer.go:144-153 | the first idle entry heads the scheduling order, and draining n+1 idle entries is removing it and then draining n |
| Queue.IdleIdsInOrder | balancer.go:144-153 | in a well-ordered queue the scheduler's order is strictly increasing in id, which is submission order |
| Queue.DropIdleKeepsOrder | balancer.go:130-142 | a cascade of scheduled runs leaves a well-ordered queue whose ids are not below the old head's |
| Queue.DropIdleLeavesSuffix | balancer.go:130-142 | draining n idle entries removes exactly min(n, #idle) entries, no running entry, and leaves the idle entries that were not drained, in order |
| GoBalancer.NormalizedBound | balancer.go:49-51 | the bound is at least 1; a positive configuration is kept and zero or less becomes 1 |
| GoBalancer.Slots | balancer.go:210-214 | free slots are positive exactly when fewer jobs run than the bound, and fill the gap up to the bound |
| GoBalancer.ScheduleFirstIdle | balancer.go:130-142 | one cascade step: running the first idle job and then triggering with one more slot taken runs the same jobs in the same order, and leaves the same queue, as a trigger with the slot free |
| GoBalancer.LoadBalancer.constructor | balancer.go:47-62 | the bound is normalised; ids = 0, the queue is empty and no job runs |
| GoBalancer.LoadBalancer.AddJob | balancer.go:64-83 | returns ids+1 as the new id. With a free slot the job runs, followed by min(#idle, free slots - 1) older idle jobs in queue order, and it is no longer queued. Without one it is appended idle at the tail and nothing runs. From an empty, idle balancer it runs at once and leaves the queue empty |
| GoBalancer.LoadBalancer.RemoveJobByID | balancer.go:85-89 | a queued id: that entry is removed, the others keep their order, and its item is returned. An absent id: None, and the queue is unchanged |
| GoBalancer.LoadBalancer.TotalJobs | balancer.go:91-96 | the number of queued entries |
| GoBalancer.LoadBalancer.TotalRunningJobs | balancer.go:98-103 | the same value as TotalJobs: running plus idle entries, not the running counter |
| GoBalancer.LoadBalancer.NewJobID | balancer.go:109-116 | increments ids by one and returns the new value, which is above every queued and every run id |
| GoBalancer.LoadBalancer.IncTotalRunningJobs | balancer.go:118-122 | the running counter goes up by one |
| GoBalancer.LoadBalancer.DecTotalRunningJobs | balancer.go:124-128 | the running counter goes down by one |
| GoBalancer.LoadBalancer.TriggerScheduler | balancer.go:130-142 | with c slots taken, runs the first min(#idle, max(0, bound - c)) idle jobs in queue order and leaves DropIdle of the queue. Counter, ids and bound are unchanged |
| GoBalancer.LoadBalancer.NextScheduledJobID | balancer.go:144-153 | returns the id of the earliest idle entry, the head of IdleIds, or -1 exactly when every entry is running; a returned id is never below 1 |
| GoBalancer.LoadBalancer.Execute | balancer.go:155-190 | called with a free slot, as both callers ensure. A missing id or a running entry: nothing changes. Otherwise the job runs once, its entry is removed, and the scheduler drains min(#idle, free slots - 1) more idle jobs in queue order. The counter's net change is zero and it stays within the bound |
| GoBalancer.LoadBalancer.AddToQueue | balancer.go:192-196 | appends exactly one entry at the tail; earlier entries are unchanged and the queue invariant holds |
| GoBalancer.LoadBalancer.RemoveFromQueue | balancer.go:198-208 | removes the first entry with the id, keeping the others' order, and returns its item; an absent id gives None and an unchanged queue |
| GoBalancer.LoadBalancer.HasFreeSlot | balancer.go:210-214 | true exactly when the running counter is below the bound |
| GoBalancer.SubmitTwoJobs | balancer_test.go:19-29 | with one slot, two jobs submitted in turn get ids 1 and 2, the run log is exactly `[1, 2]` (each runs inside its own AddJob, in submission order), and nothing is left queued |

## Left out

- Locks (`idlck`, `qlck`, `statslck`, the per-entry `lck`) and interleavings are not modelled. Every operation is one atomic sequential step. The check-then-act gap between `hasFreeSlot` and `incTotalRunningJobs` is therefore not modelled either. States left behind by concurrent callers enter the model only as arbitrary starting states that satisfy the invariant. Some concurrent states break that invariant. `newJobID` and `addToQueue` are separate critical sections (balancer.go:110-116, 192-196). So a caller holding id 6 can append before a caller holding id 5, and queue order is then not id order. Strictly increasing ids in the queue, and with them `IdleIdsInOrder`, hold only when each `AddJob` runs as one atomic step.
- `WaitForRunningJobs` and `universalWg` (balancer.go:105-107, 157-158) are not modelled. A wait group has no sequential content.
- Execute: `Run` is assumed to return normally. If it panics, balancer.go:184-189 never run, but the deferred decrement at line 161 still does. The entry stays queued, flagged running, and its per-entry lock stays held. `nextScheduledJobID` skips that entry (line 147), and `execute` returns early on it (lines 166-167). Only `RemoveJobByID` clears it. The model's `Execute` always completes `Run`, so it does not describe this state; such a state enters the model only as a starting state with a running entry.
- The body of `item.Run()` is not modelled. It is caller code. The model records each invocation in the ghost log `Runs` and assumes it does not re-enter the balancer.
- `toPtr` (balancer.go:216-218) is not modelled. It is unused.
- `RemoveJobByID` and `RemoveFromQueue` return `Option<T>` in place of a pointer to a copy of the item. There is no aliasing to model.
- NewJobID: ids are unbounded integers. Go's `int` would wrap after 2^63 - 1 submissions, which the model does not represent.
- The bound `0 <= totalRunningJobs <= executeNjobs` is part of `Valid()` and every method keeps it. What is left out is the check-then-act gap under concurrency. Between `hasFreeSlot` and `incTotalRunningJobs` another caller can take the last slot, and then the bound can be exceeded.
- The example programs shipped with the repository are not modelled. They do file and CSV I/O, print, and sleep. The test file is modelled only as the `SubmitTwoJobs` scenario; its `Job.Run` prints and sleeps, which the model leaves out with every other `Run` body.
