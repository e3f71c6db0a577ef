/** The job queue of the load balancer, taken as a value: the type of one
    entry and the specification functions that the balancer's methods are
    proved against, with the facts about them that the methods rely on. */
module Queue {

  datatype Option<T> = None | Some(value: T)

  /** One entry of the queue: the job's id, the caller's work item, and
      whether the item's Run is in progress. */
  datatype QueueItem<T> = QueueItem(id: int, item: T, isRunning: bool)

  /** The queue invariant: every id lies in 1..issued and ids strictly
      increase from head to tail, so they are pairwise distinct and queue
      order is the order in which the ids were issued. */
  ghost predicate WellOrdered<T>(l: seq<QueueItem<T>>, issued: int)
  {
    && (forall i :: 0 <= i < |l| ==> 1 <= l[i].id <= issued)
    && (forall i, j :: 0 <= i < j < |l| ==> l[i].id < l[j].id)
  }

  /** The log of run jobs against the queue: every logged id was issued,
      no id is logged twice, and no logged id is still queued. */
  ghost predicate RunLog<T>(runs: seq<int>, l: seq<QueueItem<T>>, issued: int)
  {
    && (forall a :: 0 <= a < |runs| ==> 1 <= runs[a] <= issued)
    && (forall a, b :: 0 <= a < b < |runs| ==> runs[a] != runs[b])
    && (forall a, i :: 0 <= a < |runs| && 0 <= i < |l| ==> runs[a] != l[i].id)
  }

  /** Index of the first entry carrying `id`, or -1 when there is none. */
  function Position<T>(l: seq<QueueItem<T>>, id: int): (p: int)
    ensures -1 <= p < |l|
    ensures p >= 0 ==> l[p].id == id && forall j :: 0 <= j < p ==> l[j].id != id
    ensures p == -1 ==> forall j :: 0 <= j < |l| ==> l[j].id != id
  {
    if l == [] then -1
    else if l[0].id == id then 0
    else
      var p := Position(l[1..], id);
      if p == -1 then -1 else p + 1
  }

  /** In a well-ordered queue the id of the entry at index `i` is found at
      `i` and nowhere else. */
  lemma PositionOfQueued<T>(l: seq<QueueItem<T>>, i: int, issued: int)
    requires 0 <= i < |l| && WellOrdered(l, issued)
    ensures Position(l, l[i].id) == i
  {
  }

  /** An entry appended with an id above every queued one is found at the
      tail, and taking it out again gives back the queue it was added to. */
  lemma AppendedIsLast<T>(l: seq<QueueItem<T>>, x: QueueItem<T>, issued: int)
    requires WellOrdered(l, issued) && x.id > issued
    ensures Position(l + [x], x.id) == |l|
    ensures RemoveAt(l + [x], |l|) == l
  {
    var l' := l + [x];
    assert l'[|l|] == x;
    assert forall j :: 0 <= j < |l| ==> l'[j] == l[j] && l'[j].id != x.id;
    RemoveAtIsSlice(l', |l|);
    assert l'[..|l|] == l && l'[|l| + 1..] == [];
  }

  /** The queue with the entry at index `i` taken out; the others keep their
      relative order. */
  function RemoveAt<T>(l: seq<QueueItem<T>>, i: int): (r: seq<QueueItem<T>>)
    requires 0 <= i < |l|
    ensures |r| == |l| - 1
    ensures forall j :: 0 <= j < i ==> r[j] == l[j]
    ensures forall j :: i <= j < |r| ==> r[j] == l[j + 1]
  {
    if i == 0 then l[1..] else [l[0]] + RemoveAt(l[1..], i - 1)
  }

  /** RemoveAt is the queue with a one-entry gap cut out of it. */
  lemma RemoveAtIsSlice<T>(l: seq<QueueItem<T>>, i: int)
    requires 0 <= i < |l|
    ensures RemoveAt(l, i) == l[..i] + l[i + 1..]
  {
  }

  /** Ids of the entries that are not running, in queue order: the order in
      which the scheduler picks them. */
  function IdleIds<T>(l: seq<QueueItem<T>>): seq<int>
  {
    if l == [] then []
    else if l[0].isRunning then IdleIds(l[1..])
    else [l[0].id] + IdleIds(l[1..])
  }

  /** Number of entries whose Run is in progress. */
  function CountRunning<T>(l: seq<QueueItem<T>>): nat
  {
    if l == [] then 0
    else (if l[0].isRunning then 1 else 0) + CountRunning(l[1..])
  }

  /** The queue after its first `n` idle entries have been run and removed
      (all of them when there are fewer than `n`). */
  function DropIdle<T>(l: seq<QueueItem<T>>, n: nat): seq<QueueItem<T>>
  {
    if n == 0 || l == [] then l
    else if l[0].isRunning then [l[0]] + DropIdle(l[1..], n)
    else DropIdle(l[1..], n - 1)
  }

  /** Every entry is either running or idle. */
  lemma {:induction false} QueuePartition<T>(l: seq<QueueItem<T>>)
    ensures |l| == CountRunning(l) + |IdleIds(l)|
  {
    if l != [] {
      QueuePartition(l[1..]);
    }
  }

  /** Taking out the entry at index `i` keeps the queue invariant, and the
      ids left are exactly the old ones minus the removed entry's. */
  lemma RemoveAtKeepsOrder<T>(l: seq<QueueItem<T>>, i: int, issued: int)
    requires 0 <= i < |l|
    requires WellOrdered(l, issued)
    ensures WellOrdered(RemoveAt(l, i), issued)
    ensures forall j :: 0 <= j < |RemoveAt(l, i)| ==> RemoveAt(l, i)[j].id != l[i].id
    ensures forall j :: 0 <= j < |l| && j != i ==> Position(RemoveAt(l, i), l[j].id) != -1
  {
    var r := RemoveAt(l, i);
    forall j | 0 <= j < |l| && j != i
      ensures Position(r, l[j].id) != -1
    {
      var k := if j < i then j else j - 1;
      assert r[k] == l[j];
    }
  }

  /** Running the entry at index `i` and taking it out of the queue keeps
      the run log consistent: the job is logged once and is gone. */
  lemma RunAndRemoveKeepsLog<T>(runs: seq<int>, l: seq<QueueItem<T>>, i: int, issued: int)
    requires 0 <= i < |l|
    requires WellOrdered(l, issued) && RunLog(runs, l, issued)
    ensures RunLog(runs + [l[i].id], RemoveAt(l, i), issued)
  {
    // The steps below spell the proof out; they keep its cost low and stable.
    var r, runs' := RemoveAt(l, i), runs + [l[i].id];
    RemoveAtKeepsOrder(l, i, issued);
    forall a, j | 0 <= a < |runs'| && 0 <= j < |r| ensures runs'[a] != r[j].id {
      var k := if j < i then j else j + 1;
      assert r[j] == l[k];
      if a < |runs| {
        assert runs'[a] == runs[a];
      }
    }
  }

  /** There is no idle id exactly when every entry is running. */
  lemma {:induction false} NoIdleIffAllRunning<T>(l: seq<QueueItem<T>>)
    ensures IdleIds(l) == [] <==> forall i :: 0 <= i < |l| ==> l[i].isRunning
  {
    if l != [] {
      NoIdleIffAllRunning(l[1..]);
      assert forall i :: 1 <= i < |l| ==> l[i] == l[1..][i - 1];
    }
  }

  /** When `i` is the first idle entry, its id heads the scheduling order,
      and running it first and then `n` more is the same as running `n`
      from the queue without it. */
  lemma {:induction false} SplitAtFirstIdle<T>(l: seq<QueueItem<T>>, i: int, n: nat)
    requires 0 <= i < |l| && !l[i].isRunning
    requires forall j :: 0 <= j < i ==> l[j].isRunning
    ensures IdleIds(l) == [l[i].id] + IdleIds(RemoveAt(l, i))
    ensures DropIdle(l, n + 1) == DropIdle(RemoveAt(l, i), n)
  {
    if i == 0 {
      assert RemoveAt(l, 0) == l[1..];
    } else {
      var tail := RemoveAt(l[1..], i - 1);
      SplitAtFirstIdle(l[1..], i - 1, n);
      assert RemoveAt(l, i) == [l[0]] + tail;
      assert ([l[0]] + tail)[1..] == tail;
    }
  }

  /** Draining idle entries keeps the queue invariant and removes no id
      smaller than the head's; the result is an ordered sub-queue. */
  lemma {:induction false} DropIdleKeepsOrder<T>(l: seq<QueueItem<T>>, n: nat, issued: int)
    requires WellOrdered(l, issued)
    ensures WellOrdered(DropIdle(l, n), issued)
    ensures l != [] ==> forall k :: 0 <= k < |DropIdle(l, n)| ==> l[0].id <= DropIdle(l, n)[k].id
  {
    if n != 0 && l != [] {
      DropIdleKeepsOrder(l[1..], n, issued);
      DropIdleKeepsOrder(l[1..], n - 1, issued);
      if l[0].isRunning {
        var rest := DropIdle(l[1..], n);
        assert DropIdle(l, n) == [l[0]] + rest;
        forall k | 0 <= k < |rest| ensures l[0].id < rest[k].id {
          assert l[0].id < l[1].id;
        }
      } else if |l| > 1 {
        assert l[0].id < l[1].id;
      }
    }
  }

  /** In a well-ordered queue the scheduler's order is submission order:
      idle ids strictly increase, and none is below the head's id. */
  lemma {:induction false} IdleIdsInOrder<T>(l: seq<QueueItem<T>>, issued: int)
    requires WellOrdered(l, issued)
    ensures forall a, b :: 0 <= a < b < |IdleIds(l)| ==> IdleIds(l)[a] < IdleIds(l)[b]
    ensures l != [] ==> forall a :: 0 <= a < |IdleIds(l)| ==> l[0].id <= IdleIds(l)[a]
  {
    if l != [] {
      var tail := IdleIds(l[1..]);
      IdleIdsInOrder(l[1..], issued);
      if |l| > 1 {
        assert l[0].id < l[1].id;
      }
      if !l[0].isRunning {
        assert IdleIds(l) == [l[0].id] + tail;
      }
    }
  }

  /** Draining `n` idle entries removes exactly min(n, #idle) entries, none
      of them running, and the idle entries left are, in order, those that
      were not drained. */
  lemma {:induction false} DropIdleLeavesSuffix<T>(l: seq<QueueItem<T>>, n: nat)
    ensures var m := if n < |IdleIds(l)| then n else |IdleIds(l)|;
      && |DropIdle(l, n)| == |l| - m
      && CountRunning(DropIdle(l, n)) == CountRunning(l)
      && IdleIds(DropIdle(l, n)) == IdleIds(l)[m..]
  {
    if n != 0 && l != [] {
      var t := l[1..];
      if l[0].isRunning {
        DropIdleLeavesSuffix(t, n);
        var rest := DropIdle(t, n);
        assert DropIdle(l, n) == [l[0]] + rest;
        assert ([l[0]] + rest)[1..] == rest;
        assert IdleIds(l) == IdleIds(t);
      } else {
        DropIdleLeavesSuffix(t, n - 1);
        var idle, idleTail := IdleIds(l), IdleIds(t);
        assert idle == [l[0].id] + idleTail;
        var m := if n < |idle| then n else |idle|;
        assert idle[m..] == idleTail[m - 1..];
      }
    }
  }
}
