/** The load balancer: an id counter, a queue of jobs, a running-jobs counter
    and a fixed bound on how many jobs may run at once. Every operation is
    an atomic sequential step; the locks of balancer.go guard nothing here.
    A job's work item is opaque: running it is recorded in the ghost log
    `Runs` and changes no state of the balancer. */
module GoBalancer {
  import opened Queue

  /** The configured maximum as the constructor keeps it: a value of zero or
      less becomes 1. */
  function NormalizedBound(max: int): (n: int)
    ensures n >= 1
    ensures max > 0 ==> n == max
    ensures max <= 0 ==> n == 1
  {
    if max <= 0 then 1 else max
  }

  /** Slots the gate still grants when `running` jobs hold one each. */
  function Slots(running: int, bound: int): (s: nat)
    ensures s > 0 <==> running < bound
    ensures running < bound ==> running + s == bound
  {
    if running < bound then bound - running else 0
  }

  /** How many queued jobs a scheduler trigger runs, one after another, when
      `running` slots are taken: one per free slot while idle jobs remain. */
  function Drained<T>(l: seq<QueueItem<T>>, running: int, bound: int): nat
  {
    if |IdleIds(l)| < Slots(running, bound) then |IdleIds(l)| else Slots(running, bound)
  }

  /** One step of the scheduler's cascade: with a slot free, running the
      first idle job and then draining with one more slot taken runs the same
      jobs, in the same order, and leaves the same queue, as draining at
      once. */
  lemma ScheduleFirstIdle<T>(l: seq<QueueItem<T>>, i: int, running: int, bound: int)
    requires 0 <= i < |l| && !l[i].isRunning
    requires forall j :: 0 <= j < i ==> l[j].isRunning
    requires running < bound
    ensures var rest := RemoveAt(l, i);
      var k := Drained(rest, running + 1, bound);
      && Drained(l, running, bound) == k + 1
      && [l[i].id] + IdleIds(rest)[..k] == IdleIds(l)[..k + 1]
      && DropIdle(rest, k) == DropIdle(l, k + 1)
  {
    // The steps below spell the proof out; they keep its cost low and stable.
    var rest := RemoveAt(l, i);
    var k := Drained(rest, running + 1, bound);
    SplitAtFirstIdle(l, i, k);
    var idle, idleRest := IdleIds(l), IdleIds(rest);
    assert idle[..k + 1] == [l[i].id] + idleRest[..k];
  }

  /** Grouping of concatenations, for the run log. Dafny knows the fact;
      stating it at the one call site keeps the scheduler's proof cheap. */
  lemma AppendAssoc(a: seq<int>, b: seq<int>, c: seq<int>)
    ensures a + b + c == a + (b + c)
  {
  }

  class LoadBalancer<T> {
    /** Last id issued; the next job gets ids + 1. */
    var ids: int
    /** Jobs admitted and not yet removed, in order of submission. */
    var l: seq<QueueItem<T>>
    /** Most jobs to execute at the same time. */
    var executeNjobs: int
    /** Jobs currently executing, as counted by the gate. */
    var totalRunningJobs: int
    /** Ids whose work item has been run, in the order Run was invoked. */
    ghost var Runs: seq<int>

    /** The invariant of the real state: a positive bound that the running
        counter never exceeds, and a well-ordered queue of issued ids. */
    ghost predicate QueueValid()
      reads this
    {
      && executeNjobs >= 1 && 0 <= totalRunningJobs <= executeNjobs
      && ids >= 0 && WellOrdered(l, ids)
    }

    /** QueueValid, and every job has run at most once, was issued, and has
        left the queue once it ran. */
    ghost predicate Valid()
      reads this
    {
      QueueValid() && RunLog(Runs, l, ids)
    }

    /** Nothing queued and no slot taken: the state every public call leaves
        behind when callers take turns. */
    ghost predicate Quiescent()
      reads this
    {
      l == [] && totalRunningJobs == 0
    }

    /** NewGoBalancer. */
    constructor (maxJobsToExecuteAtSameTime: int)
      ensures Valid() && Quiescent()
      ensures executeNjobs == NormalizedBound(maxJobsToExecuteAtSameTime)
      ensures ids == 0 && Runs == []
    {
      executeNjobs := NormalizedBound(maxJobsToExecuteAtSameTime);
      ids := 0;
      l := [];
      totalRunningJobs := 0;
      Runs := [];
    }

    /** Submits a job and returns its fresh id. When the gate has a free slot
        the job runs before the call returns, followed by as many queued
        idle jobs as the remaining slots admit; otherwise it waits, idle, at
        the tail of the queue. */
    method AddJob(item: T) returns (jobID: int)
      requires Valid()
      modifies this
      ensures Valid()
      ensures jobID == old(ids) + 1 && ids == jobID
      ensures executeNjobs == old(executeNjobs) && totalRunningJobs == old(totalRunningJobs)
      ensures old(HasFreeSlot()) ==>
        var k := Drained(old(l), old(totalRunningJobs) + 1, executeNjobs);
        && Runs == old(Runs) + [jobID] + IdleIds(old(l))[..k]
        && l == DropIdle(old(l), k)
        && forall i :: 0 <= i < |l| ==> l[i].id != jobID
      ensures !old(HasFreeSlot()) ==>
        l == old(l) + [QueueItem(jobID, item, false)] && Runs == old(Runs)
      ensures old(Quiescent()) ==> Quiescent() && Runs == old(Runs) + [jobID]
    {
      ghost var queued, issued, running := l, ids, totalRunningJobs;
      ghost var k := Drained(queued, running + 1, executeNjobs);
      jobID := NewJobID();
      var entry := QueueItem(jobID, item, false);
      AddToQueue(entry);
      if HasFreeSlot() {
        ghost var rest := RemoveAt(l, |queued|);
        assert Position(l, jobID) == |queued| && rest == queued && !l[|queued|].isRunning by {
          AppendedIsLast(queued, entry, issued);
        }
        Execute(jobID);
        assert l == DropIdle(queued, k);
        assert forall i :: 0 <= i < |l| ==> l[i].id != jobID by {
          DropIdleKeepsOrder(queued, k, issued);
        }
        if queued == [] {
          assert Runs == old(Runs) + [jobID] by {
            assert IdleIds(queued)[..k] == [];
          }
        }
      }
    }

    /** Removes the job with the given id from the queue and returns its work
        item, or None when no such job is queued. */
    method RemoveJobByID(id: int) returns (r: Option<T>)
      requires Valid()
      modifies this`l
      ensures Valid()
      ensures var p := Position(old(l), id);
        if p == -1 then r == None && l == old(l)
        else r == Some(old(l)[p].item) && l == RemoveAt(old(l), p)
    {
      r := RemoveFromQueue(id);
    }

    /** Number of jobs in the queue. */
    function TotalJobs(): (n: nat)
      reads this
      ensures n == |l|
    {
      |l|
    }

    /** Documented as the number of running jobs, but it returns the queue
        length, exactly like TotalJobs: idle jobs are counted as well. */
    function TotalRunningJobs(): (n: nat)
      reads this
      ensures n == TotalJobs()
      ensures n == CountRunning(l) + |IdleIds(l)|
    {
      QueuePartition(l);
      |l|
    }

    /** Issues the next id: one more than the last. */
    method NewJobID() returns (id: int)
      requires Valid()
      modifies this`ids
      ensures Valid()
      ensures ids == old(ids) + 1 && id == ids
      ensures forall i :: 0 <= i < |l| ==> l[i].id < id
      ensures forall a :: 0 <= a < |Runs| ==> Runs[a] < id
    {
      ids := ids + 1;
      id := ids;
    }

    method IncTotalRunningJobs()
      modifies this`totalRunningJobs
      ensures totalRunningJobs == old(totalRunningJobs) + 1
    {
      totalRunningJobs := totalRunningJobs + 1;
    }

    method DecTotalRunningJobs()
      modifies this`totalRunningJobs
      ensures totalRunningJobs == old(totalRunningJobs) - 1
    {
      totalRunningJobs := totalRunningJobs - 1;
    }

    /** When a slot is free, runs the earliest idle job, whose own completion
        triggers the scheduler again. Altogether it runs the first k idle
        jobs in queue order, k being the lesser of the number of idle jobs
        and the number of free slots. */
    method TriggerScheduler()
      requires Valid()
      modifies this
      decreases |l|, 1
      ensures Valid()
      ensures ids == old(ids) && executeNjobs == old(executeNjobs)
      ensures totalRunningJobs == old(totalRunningJobs)
      ensures var k := Drained(old(l), old(totalRunningJobs), executeNjobs);
        Runs == old(Runs) + IdleIds(old(l))[..k] && l == DropIdle(old(l), k)
    {
      if HasFreeSlot() {
        var id := NextScheduledJobID();
        if id <= 0 {
          return;
        }
        ghost var i :| 0 <= i < |l| && l[i].id == id && !l[i].isRunning
          && forall j :: 0 <= j < i ==> l[j].isRunning;
        ghost var rest := RemoveAt(l, i);
        ghost var k := Drained(rest, totalRunningJobs + 1, executeNjobs);
        ScheduleFirstIdle(l, i, totalRunningJobs, executeNjobs);
        AppendAssoc(Runs, [id], IdleIds(rest)[..k]);
        PositionOfQueued(l, i, ids);
        Execute(id);
      }
    }

    /** Id of the earliest job in the queue that is not running, or -1 when
        every job is running; -1 is never a valid id. */
    method NextScheduledJobID() returns (id: int)
      requires Valid()
      ensures id == -1 || id >= 1
      ensures id == -1 <==> forall i :: 0 <= i < |l| ==> l[i].isRunning
      ensures id != -1 ==> exists i :: (0 <= i < |l| && l[i].id == id && !l[i].isRunning
        && forall j :: 0 <= j < i ==> l[j].isRunning)
      ensures id == -1 <==> IdleIds(l) == []
      ensures id != -1 ==> id == IdleIds(l)[0]
    {
      NoIdleIffAllRunning(l);
      var i := 0;
      while i < |l|
        invariant 0 <= i <= |l|
        invariant forall j :: 0 <= j < i ==> l[j].isRunning
      {
        if !l[i].isRunning {
          SplitAtFirstIdle(l, i, 0);
          return l[i].id;
        }
        i := i + 1;
      }
      return -1;
    }

    /** Runs the job with the given id, unless it is not queued or already
        running, in which case nothing changes. Otherwise the job is flagged
        running for the duration of its Run, then removed from the queue,
        and the scheduler is triggered while the job still holds its slot. */
    method Execute(jobID: int)
      requires Valid() && HasFreeSlot()
      modifies this
      decreases |l|, 0
      ensures Valid()
      ensures ids == old(ids) && executeNjobs == old(executeNjobs)
      ensures totalRunningJobs == old(totalRunningJobs)
      ensures var p := Position(old(l), jobID);
        if p == -1 || old(l)[p].isRunning then l == old(l) && Runs == old(Runs)
        else
          var rest := RemoveAt(old(l), p);
          var k := Drained(rest, old(totalRunningJobs) + 1, executeNjobs);
          Runs == old(Runs) + [jobID] + IdleIds(rest)[..k] && l == DropIdle(rest, k)
    {
      IncTotalRunningJobs();
      // index of the entry to run; stays -1 when the id is missing or its
      // entry is already running
      var index := -1;
      var i := 0;
      while i < |l|
        invariant 0 <= i <= |l|
        invariant index == -1
        invariant forall j :: 0 <= j < i ==> l[j].id != jobID
      {
        if l[i].id == jobID {
          if !l[i].isRunning {
            index := i;
          }
          break;
        }
        i := i + 1;
      }
      if index != -1 {
        ghost var queued := l;
        l := l[index := l[index].(isRunning := true)];
        Runs := Runs + [jobID];
        l := l[index := l[index].(isRunning := false)];
        assert l == queued;
        PositionOfQueued(queued, index, ids);
        var _ := RemoveFromQueue(jobID);
        RunAndRemoveKeepsLog(old(Runs), queued, index, ids);
        ghost var rest := RemoveAt(queued, index);
        assert l == rest && Runs == old(Runs) + [jobID];
        TriggerScheduler();
      }
      // deferred in the Go code, so it runs on every exit
      DecTotalRunningJobs();
    }

    /** Appends one entry at the tail of the queue. Its id must be fresh:
        issued, and above every id queued or run so far. */
    method AddToQueue(item: QueueItem<T>)
      requires Valid()
      requires 1 <= item.id <= ids
      requires forall i :: 0 <= i < |l| ==> l[i].id < item.id
      requires forall a :: 0 <= a < |Runs| ==> Runs[a] != item.id
      modifies this`l
      ensures Valid()
      ensures l == old(l) + [item]
    {
      l := l + [item];
    }

    /** Removes the first entry carrying `id`, keeping the order of the
        others, and returns its work item; None, with the queue unchanged,
        when no entry carries `id`. */
    method RemoveFromQueue(id: int) returns (r: Option<T>)
      requires QueueValid()
      modifies this`l
      ensures QueueValid()
      ensures var p := Position(old(l), id);
        if p == -1 then r == None && l == old(l)
        else r == Some(old(l)[p].item) && l == RemoveAt(old(l), p)
    {
      var i := 0;
      while i < |l|
        invariant 0 <= i <= |l|
        invariant forall j :: 0 <= j < i ==> l[j].id != id
      {
        if l[i].id == id {
          var v := l[i];
          RemoveAtKeepsOrder(l, i, ids);
          RemoveAtIsSlice(l, i);
          l := l[..i] + l[i + 1..];
          return Some(v.item);
        }
        i := i + 1;
      }
      return None;
    }

    /** True exactly when fewer jobs are running than the bound allows. */
    function HasFreeSlot(): (free: bool)
      reads this
      ensures free <==> Slots(totalRunningJobs, executeNjobs) > 0
    {
      totalRunningJobs < executeNjobs
    }
  }

  /** Two jobs submitted in turn to a balancer that runs one job at a time:
      each runs inside its own AddJob, in submission order, with ids 1 and 2,
      and nothing is left queued. */
  method SubmitTwoJobs<T>(first: T, second: T) returns (a: int, b: int, pending: nat, ghost runs: seq<int>)
    ensures a == 1 && b == 2 && pending == 0
    ensures runs == [a, b]
  {
    var lb := new LoadBalancer<T>(1);
    a := lb.AddJob(first);
    b := lb.AddJob(second);
    runs := lb.Runs;
    pending := lb.TotalJobs();
  }
}
