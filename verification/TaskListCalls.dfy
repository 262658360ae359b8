/** What whole calls on the task list achieve: the four adds of task_info_add_for_current, counted entry by entry, and
    the traversals, from their lock to their unlock.
 */
module TaskListCalls {
  import opened ListHead
  import opened TaskList
  import opened TaskListRuns

  // ---------------------------------------------------------------- adds

  /** One whole add counts exactly one more add for its pid and none for any other. */
  lemma AddWeighs(p: Platform, s: seq<TaskInfo>, pid: int, now: nat, later: nat, q: int)
    requires p.ulong > 0
    ensures Weight(AddTo(p, s, pid, now, later), q) == Weight(s, q) + Same(pid, q)
    ensures Copies(AddTo(p, s, pid, now, later), q) ==
      Copies(s, q) + if pid == q && FirstIndex(s, pid) == |s| then 1 else 0
  {
    var i := FirstIndex(s, pid);
    if i < |s| {
      var e := Touch(p, s[i], now);
      CountsAround(s, i, e, q);
      OneEntry(s[i], q);
      OneEntry(e, q);
    } else {
      CopiesConcat([Fresh(p, pid, later)], s, q);
      OneEntry(Fresh(p, pid, later), q);
    }
  }

  function Same(pid: int, q: int): nat { if pid == q then 1 else 0 }

  /** task_info_add_for_current counts one add for each time a pid is among its four, whatever pids coincide. */
  lemma FourWeigh(p: Platform, s: seq<TaskInfo>, pids: seq<int>, ticks: seq<(nat, nat)>, q: int)
    requires p.ulong > 0 && |pids| == 4 == |ticks|
    ensures Weight(AddFour(p, s, pids, ticks), q) == Weight(s, q)
      + Same(pids[0], q) + Same(pids[1], q) + Same(pids[2], q) + Same(pids[3], q)
  {
    var s1 := AddTo(p, s, pids[0], ticks[0].0, ticks[0].1);
    var s2 := AddTo(p, s1, pids[1], ticks[1].0, ticks[1].1);
    var s3 := AddTo(p, s2, pids[2], ticks[2].0, ticks[2].1);
    AddWeighs(p, s, pids[0], ticks[0].0, ticks[0].1, q);
    AddWeighs(p, s1, pids[1], ticks[1].0, ticks[1].1, q);
    AddWeighs(p, s2, pids[2], ticks[2].0, ticks[2].1, q);
    AddWeighs(p, s3, pids[3], ticks[3].0, ticks[3].1, q);
  }

  ghost predicate Unlisted(s: seq<TaskInfo>, pid: int) {
    forall i :: 0 <= i < |s| ==> s[i].pid != pid
  }

  lemma AddFresh(p: Platform, s: seq<TaskInfo>, pid: int, now: nat, later: nat)
    requires p.ulong > 0 && Unlisted(s, pid)
    ensures AddTo(p, s, pid, now, later) == [Fresh(p, pid, later)] + s
    ensures forall q :: q != pid && Unlisted(s, q) ==> Unlisted([Fresh(p, pid, later)] + s, q)
  {
  }

  /** The adds of distinct pids that are not listed put four fresh entries in front, the last one first. */
  lemma FourFresh(p: Platform, s: seq<TaskInfo>, pids: seq<int>, ticks: seq<(nat, nat)>)
    requires p.ulong > 0 && |pids| == 4 == |ticks|
    requires forall i, j :: 0 <= i < j < 4 ==> pids[i] != pids[j]
    requires forall j :: 0 <= j < 4 ==> Unlisted(s, pids[j])
    ensures AddFour(p, s, pids, ticks) ==
      [Fresh(p, pids[3], ticks[3].1), Fresh(p, pids[2], ticks[2].1),
       Fresh(p, pids[1], ticks[1].1), Fresh(p, pids[0], ticks[0].1)] + s
  {
    var s1 := [Fresh(p, pids[0], ticks[0].1)] + s;
    var s2 := [Fresh(p, pids[1], ticks[1].1)] + s1;
    var s3 := [Fresh(p, pids[2], ticks[2].1)] + s2;
    AddFresh(p, s, pids[0], ticks[0].0, ticks[0].1);
    AddFresh(p, s1, pids[1], ticks[1].0, ticks[1].1);
    AddFresh(p, s2, pids[2], ticks[2].0, ticks[2].1);
    AddFresh(p, s3, pids[3], ticks[3].0, ticks[3].1);
  }

  /** The pid of the add that a step completes, if it completes one. */
  ghost predicate Completes(p: Platform, s: State, step: Step, pid: int)
    requires p.ulong > 0 && Enabled(p, s, step)
  {
    || (step.Lookup? && step.pid == pid && FirstIndex(s.list, pid) < |s.list|)
    || (step.Insert? && s.threads[step.t].ti.pid == pid)
  }

  /** The adds of `pid` that the first `n` steps completed. */
  ghost function Adds(p: Platform, trace: seq<State>, steps: seq<Step>, pid: int, n: nat): nat
    requires p.ulong > 0 && Execution(p, trace, steps) && n <= |steps|
  {
    if n == 0 then 0
    else
      assert Ran(p, trace, steps, n - 1);
      Adds(p, trace, steps, pid, n - 1) + if Completes(p, trace[n - 1], steps[n - 1], pid) then 1 else 0
  }

  /** No add is lost or counted twice, by the steps themselves: the adds that the run completed are the sum of 1 plus
      the hits over the live and the removed entries. */
  lemma {:induction false} AddsInHistory(p: Platform, trace: seq<State>, steps: seq<Step>, pid: int, n: nat)
    requires p.ulong > 0 && Execution(p, trace, steps) && n <= |steps|
    ensures Adds(p, trace, steps, pid, n) == trace[n].completed[pid]
    ensures Adds(p, trace, steps, pid, n) == Weight(trace[n].list, pid) + Weight(trace[n].removed, pid)
  {
    AddsConserved(p, trace, steps, pid, n);
    if n > 0 {
      assert Ran(p, trace, steps, n - 1);
      AddsInHistory(p, trace, steps, pid, n - 1);
    }
  }

  // ---------------------------------------------------------------- traversals

  /** Thread `t` took the lock for a traversal at step `a` and has not unlocked before step `n`. */
  ghost predicate Traversing(p: Platform, trace: seq<State>, steps: seq<Step>, t: nat, purge: bool, a: nat, n: nat)
    requires p.ulong > 0
  {
    && Execution(p, trace, steps) && a < n <= |steps| && steps[a] == Lock(t, purge)
    && forall i :: a < i < n ==> steps[i] != Unlock(t)
  }

  lemma {:induction false} TraversalGoesOn(p: Platform, trace: seq<State>, steps: seq<Step>, t: nat, purge: bool,
                                           a: nat, n: nat)
    requires p.ulong > 0 && Traversing(p, trace, steps, t, purge, a, n)
    ensures t < |trace[n].threads| && trace[n].threads[t].Scanning?
    ensures trace[n].threads[t].purge == purge && trace[n].threads[t].before == trace[a].list
  {
    assert Ran(p, trace, steps, n - 1);
    if a + 1 < n {
      TraversalGoesOn(p, trace, steps, t, purge, a, n - 1);
    }
  }

  /** A whole purge empties the list. */
  lemma PurgeEmpties(p: Platform, trace: seq<State>, steps: seq<Step>, t: nat, a: nat, n: nat)
    requires p.Sane() && Traversing(p, trace, steps, t, true, a, n) && n < |steps| && steps[n] == Unlock(t)
    ensures trace[n + 1].list == []
  {
    assert Ran(p, trace, steps, n);
    TraversalGoesOn(p, trace, steps, t, true, a, n);
    TraversalOutcome(p, trace, steps, n, t);
  }

  /** A whole expiry scan leaves exactly the entries that it found, in their order and untouched, without those that
      were expired at their own read of jiffies, which lies between the lock and the unlock. */
  lemma ExpiryLeaves(p: Platform, trace: seq<State>, steps: seq<Step>, t: nat, a: nat, n: nat) returns (ticks: seq<nat>)
    requires p.Sane() && Traversing(p, trace, steps, t, false, a, n) && n < |steps| && steps[n] == Unlock(t)
    ensures |ticks| == |trace[a].list| && forall k :: 0 <= k < |ticks| ==> trace[a].now <= ticks[k] <= trace[n].now
    ensures trace[n + 1].list == Split(trace[a].list, Keeps(p, trace[a].list, false, ticks), |ticks|, true)
  {
    assert Ran(p, trace, steps, n);
    TraversalGoesOn(p, trace, steps, t, false, a, n);
    TraversalOutcome(p, trace, steps, n, t);
    ReadsDuring(p, trace, steps, t, false, a, n);
    ticks := trace[n].threads[t].ticks;
  }

  lemma {:induction false} ReadsDuring(p: Platform, trace: seq<State>, steps: seq<Step>, t: nat, purge: bool,
                                       a: nat, n: nat)
    requires p.ulong > 0 && Traversing(p, trace, steps, t, purge, a, n)
    ensures t < |trace[n].threads| && trace[n].threads[t].Scanning? && trace[a].now <= trace[n].now
    ensures forall k :: 0 <= k < |trace[n].threads[t].ticks| ==>
      trace[a].now <= trace[n].threads[t].ticks[k] <= trace[n].now
  {
    assert Ran(p, trace, steps, n - 1);
    TraversalGoesOn(p, trace, steps, t, purge, a, n);
    if a + 1 < n {
      ReadsDuring(p, trace, steps, t, purge, a, n - 1);
    }
  }
}
