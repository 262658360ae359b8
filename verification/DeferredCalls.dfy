/** What the commands SET, ALLOC and CANCEL, the death of a monitored task and the queued work achieve in runs of the
    deferred-work device.
 */
module DeferredCalls {
  import opened ListHead
  import opened Deferred
  import opened DeferredRuns

  // ---------------------------------------------------------------- commands

  /** Undisturbed, the steps of a SET or ALLOC ioctl do what Device.Ioctl does, and touch nothing else. */
  lemma UndisturbedSet(s: State, t: nat, alloc: bool, delay: nat)
    requires t < |s.threads| && s.threads[t].Idle? && s.exit.Loaded?
    ensures Enabled(s, SetMode(t, alloc, delay))
    ensures var s1 := Next(s, SetMode(t, alloc, delay));
      && Enabled(s1, Arm(t))
      && Next(s1, Arm(t)) == s.(mode := if alloc then ModeAlloc else ModeSet, timer := Pending(s.now + delay * s.hz))
  {
    var s2 := Next(Next(s, SetMode(t, alloc, delay)), Arm(t));
    assert s2.threads == s.threads;
  }

  /** A CANCEL ioctl stops the timer as soon as no handler runs, and touches nothing else. */
  lemma UndisturbedCancel(s: State, t: nat)
    requires t < |s.threads| && s.threads[t].Idle? && s.exit.Loaded? && s.handler.Quiet?
    ensures Enabled(s, CancelTimer(t)) && Next(s, CancelTimer(t)) == s.(timer := Stopped)
  {
  }

  /** A mod_timer by an ioctl */
  predicate Arms(step: Step) {
    step.Arm? || step.ArmMon?
  }

  /** After a CANCEL, until an ioctl arms the timer again, the timer is stopped, no handler runs and nothing fires. */
  lemma {:induction false} CancelHolds(trace: seq<State>, steps: seq<Step>, a: nat, n: nat)
    requires Execution(trace, steps) && a < n <= |steps| && steps[a].CancelTimer?
    requires forall i :: a < i < n ==> !Arms(steps[i])
    ensures trace[n].timer.Stopped? && trace[n].handler.Quiet?
    ensures forall i :: a <= i < n ==> !steps[i].Fire?
  {
    assert Ran(trace, steps, n - 1);
    if a + 1 < n {
      CancelHolds(trace, steps, a, n - 1);
    }
  }

  // ---------------------------------------------------------------- a task that dies

  lemma {:induction false} DeadStayDead(trace: seq<State>, steps: seq<Step>, a: nat, n: nat)
    requires Execution(trace, steps) && a <= n <= |steps|
    ensures trace[a].dead <= trace[n].dead
    ensures forall i :: a <= i < n && steps[i].Die? ==> steps[i].task in trace[n].dead
  {
    if a < n {
      assert Ran(trace, steps, n - 1);
      DeadStayDead(trace, steps, a, n - 1);
    }
  }

  /** A MON firing took the list lock at step `d` and has not released it before step `n`. */
  ghost predicate Polling(trace: seq<State>, steps: seq<Step>, d: nat, n: nat) {
    && Execution(trace, steps) && d < n <= |steps| && steps[d] == Dispatch && trace[d].mode == ModeMon
    && forall i :: d < i < n ==> steps[i] != EndScan
  }

  lemma PollStep(s: State, step: Step)
    requires Enabled(s, step) && s.handler.Scanning? && step != EndScan
    ensures var h := Next(s, step).handler;
      h.Scanning? && h.before == s.handler.before && h.known == s.handler.known
  {
    match step
    case Check => assert Next(s, step).handler == s.handler.(checks := s.handler.checks + [s.dead]);
    case _ =>
  }

  lemma {:induction false} PollGoesOn(trace: seq<State>, steps: seq<Step>, d: nat, n: nat)
    requires Polling(trace, steps, d, n)
    ensures var h := trace[n].handler; h.Scanning? && h.before == trace[d].list && h.known == trace[d].dead
  {
    assert Ran(trace, steps, n - 1);
    if d + 1 < n {
      PollGoesOn(trace, steps, d, n - 1);
      PollStep(trace[n - 1], steps[n - 1]);
    }
  }

  /** A whole MON firing: of the nodes it found, all whose task died before it took the lock are gone at its unlock, all
      whose task is still alive then are there, and no others. */
  lemma FiringReaps(trace: seq<State>, steps: seq<Step>, d: nat, n: nat, e: Entry)
    requires Polling(trace, steps, d, n) && n < |steps| && steps[n] == EndScan
    ensures e in trace[n + 1].list ==> e in trace[d].list && e.task !in trace[d].dead
    ensures e in trace[d].list && e.task !in trace[n].dead ==> e in trace[n + 1].list
  {
    assert Ran(trace, steps, n);
    PollGoesOn(trace, steps, d, n);
    FiringOutcome(trace, steps, n);
    var h := trace[n].handler;
    var keep := Alive(h.before, h.checks);
    if e in trace[n].list {
      var j :| 0 <= j < |trace[n].list| && trace[n].list[j] == e;
      var i := SplitSource(h.before, keep, |h.before|, true, j);
    }
    if e in h.before && e.task !in trace[n].dead {
      var i :| 0 <= i < |h.before| && h.before[i] == e;
      SplitRank(h.before, keep, |h.before|, true, i);
    }
  }

  /** So a task that has died is no longer monitored after the next MON firing. */
  lemma DeadIsReaped(trace: seq<State>, steps: seq<Step>, a: nat, d: nat, n: nat)
    requires Polling(trace, steps, d, n) && n < |steps| && steps[n] == EndScan && a < d && steps[a].Die?
    ensures forall e :: e in trace[n + 1].list ==> e.task != steps[a].task
  {
    DeadStayDead(trace, steps, a, d);
    forall e | e in trace[n + 1].list ensures e.task != steps[a].task {
      FiringReaps(trace, steps, d, n, e);
    }
  }

  // ---------------------------------------------------------------- work

  /** How often the work was queued when it was not queued already, started, and finished, in the first `n` steps. */
  ghost function Queued(trace: seq<State>, steps: seq<Step>, n: nat): nat
    requires |trace| == |steps| + 1 && n <= |steps|
  {
    if n == 0 then 0
    else Queued(trace, steps, n - 1) + if steps[n - 1].Queue? && !trace[n - 1].queued then 1 else 0
  }

  function Started(steps: seq<Step>, n: nat): nat
    requires n <= |steps|
  {
    if n == 0 then 0 else Started(steps, n - 1) + if steps[n - 1].StartWork? then 1 else 0
  }

  function Finished(steps: seq<Step>, n: nat): nat
    requires n <= |steps|
  {
    if n == 0 then 0 else Finished(steps, n - 1) + if steps[n - 1].FinishWork? then 1 else 0
  }

  function One(b: bool): nat { if b then 1 else 0 }

  lemma StepMovesWork(s: State, step: Step)
    requires Enabled(s, step)
    ensures var s' := Next(s, step);
      && One(s'.queued) == One(s.queued) + One(step.Queue? && !s.queued) - One(step.StartWork?)
      && One(s'.working) == One(s.working) + One(step.StartWork?) - One(step.FinishWork?)
  {
  }

  /** Each queueing of the work is one run of the work handler: done, going on or still to come. */
  lemma {:induction false} WorkConserved(trace: seq<State>, steps: seq<Step>, n: nat)
    requires Execution(trace, steps) && n <= |steps|
    ensures Queued(trace, steps, n) ==
      Finished(steps, n) + One(trace[n].working) + One(trace[n].queued)
    ensures Started(steps, n) == Finished(steps, n) + One(trace[n].working)
  {
    if n > 0 {
      assert Ran(trace, steps, n - 1);
      WorkConserved(trace, steps, n - 1);
      StepMovesWork(trace[n - 1], steps[n - 1]);
    }
  }

  /** When exit has ended, every queued work has been done. */
  lemma WorkDoneAtExit(trace: seq<State>, steps: seq<Step>, n: nat)
    requires Execution(trace, steps) && n <= |steps| && trace[n].exit.Gone?
    ensures Queued(trace, steps, n) == Started(steps, n) == Finished(steps, n)
  {
    WorkConserved(trace, steps, n);
    InvAlways(trace, steps, n);
  }
}
