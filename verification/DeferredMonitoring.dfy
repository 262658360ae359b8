/** What a MON ioctl achieves while no further command follows.  The polling goes on exactly if the mode is MON when the
    ioctl arms the timer; it keeps to its schedule exactly if, besides, no SET or ALLOC is still to arm the timer.
 */
module DeferredMonitoring {
  import opened Deferred
  import opened DeferredRuns

  /** The module monitors: nobody is about to change the mode, and the timer runs for HZ ticks from the
      latest MON call or firing, or the handler is on its way to re-arm it. */
  ghost predicate Monitoring(s: State) {
    && s.mode == ModeMon && s.exit.Loaded?
    && (forall t :: 0 <= t < |s.threads| ==> !s.threads[t].Arming?)
    && (s.timer.Pending? || s.handler.Entered? || s.handler.Scanning? || s.handler.Rearming?)
    && (s.timer.Pending? ==> s.timer.deadline == s.armed + s.hz)
    && s.armed <= s.now
  }

  predicate Disturbs(step: Step) {
    step.SetMode? || step.CancelTimer? || step.BeginExit?
  }

  /** A MON ioctl establishes it, when no SET or ALLOC is still in flight. */
  lemma MonStarts(s: State, t: nat)
    requires Enabled(s, ArmMon(t)) && s.mode == ModeMon && s.exit.Loaded?
    requires forall u :: 0 <= u < |s.threads| ==> !s.threads[u].Arming?
    ensures Monitoring(Next(s, ArmMon(t)))
  {
  }

  lemma StepKeepsMonitoring(s: State, step: Step)
    requires Inv(s) && Monitoring(s) && Enabled(s, step) && !Disturbs(step)
    ensures Monitoring(Next(s, step))
  {
  }

  /** Once a MON ioctl has returned, as long as no SET, ALLOC, CANCEL or exit follows, the timer is pending
      between any two handler runs, and its deadline is HZ ticks after the latest MON call or firing. */
  lemma {:induction false} MonitoringContinues(trace: seq<State>, steps: seq<Step>, a: nat, n: nat)
    requires Execution(trace, steps) && a < n <= |steps|
    requires steps[a].ArmMon? && trace[a].mode == ModeMon
    requires forall u :: 0 <= u < |trace[a].threads| ==> !trace[a].threads[u].Arming?
    requires forall i :: a < i < n ==> !Disturbs(steps[i])
    ensures Monitoring(trace[n])
    ensures trace[n].handler.Quiet? ==>
      trace[n].timer == Pending(trace[n].armed + trace[n].hz) && trace[n].armed <= trace[n].now
  {
    assert Ran(trace, steps, n - 1);
    if n == a + 1 {
      InvAlways(trace, steps, a);
      assert trace[a].threads[steps[a].t].Flagged?;
      MonStarts(trace[a], steps[a].t);
    } else {
      MonitoringContinues(trace, steps, a, n - 1);
      InvAlways(trace, steps, n - 1);
      StepKeepsMonitoring(trace[n - 1], steps[n - 1]);
    }
  }

  /** The proviso is needed: a SET that took the flag before the MON and arms the timer after it moves the
      deadline, though no SET, ALLOC or CANCEL follows the MON. */
  lemma OverlappingSetPostpones(hz: nat, delay: nat) returns (trace: seq<State>, steps: seq<Step>)
    requires hz > 0 && delay != 1
    ensures Execution(trace, steps) && |steps| == 6
    ensures steps[4].ArmMon? && trace[4].mode == ModeMon && !Disturbs(steps[5])
    ensures trace[6].handler.Quiet? && trace[6].timer == Pending(trace[6].armed + delay * hz) && !Monitoring(trace[6])
  {
    trace, steps := OverlappingSet(hz, delay);
    trace, steps := Extend(trace, steps, ArmMon(1));
    trace, steps := Extend(trace, steps, Arm(0));
    DelayDiffers(hz, delay);
  }

  lemma OverlappingSet(hz: nat, delay: nat) returns (trace: seq<State>, steps: seq<Step>)
    requires hz > 0
    ensures Execution(trace, steps) && |steps| == 4
    ensures trace[4] == State(hz, 0, ModeMon, Stopped, false, false, [Entry(0, 0)], [Arming(delay), Flagged],
                              Quiet, Loaded, {}, multiset{0}, 1, [], 0)
  {
    var s := State(hz, 0, ModeNone, Stopped, false, false, [], [Idle, Idle], Quiet, Loaded, {}, multiset{}, 0, [], 0);
    trace, steps := Extend([s], [], SetMode(0, false, delay));
    trace, steps := Extend(trace, steps, GetProc(1, 0));
    trace, steps := Extend(trace, steps, Link(1));
    trace, steps := Extend(trace, steps, SetMon(1));
  }

  lemma DelayDiffers(hz: nat, delay: nat)
    requires hz > 0 && delay != 1
    ensures delay * hz != hz
  {
    if delay > 1 {
      assert (delay - 1) * hz > 0;
    }
  }

  // ---------------------------------------------------------------- exactly when

  /** Nobody else is in the way of the MON ioctl that is about to arm the timer. */
  ghost predicate Undisputed(s: State) {
    s.mode == ModeMon && forall u :: 0 <= u < |s.threads| ==> !s.threads[u].Arming?
  }

  /** Between handler runs the timer is pending for HZ ticks after the latest MON call or firing. */
  ghost predicate OnTime(s: State) {
    s.handler.Quiet? ==> s.timer == Pending(s.armed + s.hz)
  }

  /** The run goes on without a SET, ALLOC, CANCEL or exit. */
  ghost predicate Undisturbed(trace: seq<State>, steps: seq<Step>, trace': seq<State>, steps': seq<Step>) {
    && Execution(trace', steps') && trace <= trace' && steps <= steps'
    && forall i :: |steps| <= i < |steps'| ==> !Disturbs(steps'[i])
  }

  /** Thread `t` arms the timer for its MON ioctl, and the run goes on without a SET, ALLOC, CANCEL or exit. */
  ghost predicate Monitored(trace: seq<State>, steps: seq<Step>, t: nat, trace': seq<State>, steps': seq<Step>) {
    Undisturbed(trace, steps, trace', steps') && |steps| < |steps'| && steps'[|steps|] == ArmMon(t)
  }

  lemma GoOn(trace0: seq<State>, steps0: seq<Step>, trace: seq<State>, steps: seq<Step>, step: Step)
    returns (trace': seq<State>, steps': seq<Step>)
    requires Undisturbed(trace0, steps0, trace, steps) && Enabled(trace[|steps|], step) && !Disturbs(step)
    ensures Undisturbed(trace0, steps0, trace', steps')
    ensures steps' == steps + [step] && trace' == trace + [Next(trace[|steps|], step)]
  {
    trace', steps' := Extend(trace, steps, step);
  }

  /** A handler that runs comes to its end before anything else happens. */
  lemma {:induction false} Settle(trace0: seq<State>, steps0: seq<Step>, trace: seq<State>, steps: seq<Step>)
    returns (trace': seq<State>, steps': seq<Step>)
    requires Undisturbed(trace0, steps0, trace, steps) && Inv(trace[|steps|])
    ensures Undisturbed(trace0, steps0, trace', steps') && steps <= steps' && Inv(trace'[|steps'|])
    ensures var s, s' := trace[|steps|], trace'[|steps'|];
      s'.handler.Quiet? && s'.mode == s.mode && s'.threads == s.threads && s'.exit == s.exit && s'.hz == s.hz
    decreases HandlerLeft(trace[|steps|])
  {
    var s := trace[|steps|];
    trace', steps' := trace, steps;
    if !s.handler.Quiet? {
      HandlerAdvances(s);
      trace', steps' := GoOn(trace0, steps0, trace, steps, HandlerStep(s));
      trace', steps' := Settle(trace0, steps0, trace', steps');
    }
  }

  /** An overlapping SET or ALLOC moves the deadline: at once, or after one tick if it happens to fall due together
      with the poll. */
  lemma ArmingMoves(trace0: seq<State>, steps0: seq<Step>, trace: seq<State>, steps: seq<Step>, u: nat)
    returns (trace': seq<State>, steps': seq<Step>)
    requires Undisturbed(trace0, steps0, trace, steps)
    requires var s := trace[|steps|]; s.handler.Quiet? && u < |s.threads| && s.threads[u].Arming?
    ensures Undisturbed(trace0, steps0, trace', steps') && steps <= steps' && !OnTime(trace'[|steps'|])
  {
    trace', steps' := trace, steps;
    var s := trace[|steps|];
    if s.now + s.threads[u].delay * s.hz == s.armed + s.hz {
      trace', steps' := GoOn(trace0, steps0, trace', steps', Tick(1));
    }
    trace', steps' := GoOn(trace0, steps0, trace', steps', Arm(u));
  }

  /** In another mode than MON a pending timer fires once and is not armed again. */
  lemma OtherModeStops(trace0: seq<State>, steps0: seq<Step>, trace: seq<State>, steps: seq<Step>)
    returns (trace': seq<State>, steps': seq<Step>)
    requires Undisturbed(trace0, steps0, trace, steps)
    requires var s := trace[|steps|]; s.handler.Quiet? && s.mode != ModeMon
    ensures Undisturbed(trace0, steps0, trace', steps') && steps <= steps'
    ensures trace'[|steps'|].handler.Quiet? && trace'[|steps'|].timer.Stopped?
  {
    trace', steps' := trace, steps;
    var s := trace[|steps|];
    if s.timer.Pending? {
      trace', steps' := GoOn(trace0, steps0, trace', steps', Tick(s.timer.deadline));
      trace', steps' := GoOn(trace0, steps0, trace', steps', Fire);
      trace', steps' := GoOn(trace0, steps0, trace', steps', Dispatch);
      if s.mode == ModeAlloc {
        trace', steps' := GoOn(trace0, steps0, trace', steps', Queue);
      }
    }
  }

  /** Where a MON ioctl arms the timer in another mode, the run can go on, without any further command, to where the
      polling has ended. */
  lemma OtherModeEndsPolling(trace: seq<State>, steps: seq<Step>, t: nat)
    returns (trace': seq<State>, steps': seq<Step>)
    requires Execution(trace, steps) && Enabled(trace[|steps|], ArmMon(t)) && trace[|steps|].mode != ModeMon
    ensures Monitored(trace, steps, t, trace', steps') && !Polls(trace'[|steps'|]) && !OnTime(trace'[|steps'|])
  {
    trace', steps' := GoOn(trace, steps, trace, steps, ArmMon(t));
    InvAlways(trace', steps', |steps'|);
    trace', steps' := Settle(trace, steps, trace', steps');
    trace', steps' := OtherModeStops(trace, steps, trace', steps');
  }

  /** Where a MON ioctl arms the timer with a SET or ALLOC still to arm it, the run can go on, without any further
      command, to where the timer does not run for the next poll. */
  lemma ArmingEndsSchedule(trace: seq<State>, steps: seq<Step>, t: nat, u: nat)
    returns (trace': seq<State>, steps': seq<Step>)
    requires Execution(trace, steps) && Enabled(trace[|steps|], ArmMon(t))
    requires u < |trace[|steps|].threads| && trace[|steps|].threads[u].Arming?
    ensures Monitored(trace, steps, t, trace', steps') && !OnTime(trace'[|steps'|])
  {
    var s := trace[|steps|];
    trace', steps' := GoOn(trace, steps, trace, steps, ArmMon(t));
    InvAlways(trace', steps', |steps'|);
    trace', steps' := Settle(trace, steps, trace', steps');
    assert trace'[|steps'|].threads == s.threads[t := Idle];
    trace', steps' := ArmingMoves(trace, steps, trace', steps', u);
  }

  /** A MON ioctl keeps the polling on time, in every run that goes on without a SET, ALLOC, CANCEL or exit, exactly
      if it arms the timer undisputed. */
  lemma MonitoringExactly(trace: seq<State>, steps: seq<Step>, t: nat)
    requires Execution(trace, steps) && Enabled(trace[|steps|], ArmMon(t))
    ensures Undisputed(trace[|steps|]) <==>
      forall trace', steps' :: Monitored(trace, steps, t, trace', steps') ==> OnTime(trace'[|steps'|])
  {
    var s := trace[|steps|];
    if Undisputed(s) {
      forall trace', steps' | Monitored(trace, steps, t, trace', steps') ensures OnTime(trace'[|steps'|]) {
        assert trace'[|steps|] == s;
        MonitoringContinues(trace', steps', |steps|, |steps'|);
      }
    } else if s.mode != ModeMon {
      var trace', steps' := OtherModeEndsPolling(trace, steps, t);
    } else {
      var u :| 0 <= u < |s.threads| && s.threads[u].Arming?;
      var trace', steps' := ArmingEndsSchedule(trace, steps, t, u);
    }
  }

  // ---------------------------------------------------------------- polling goes on

  /** There will be a next firing: the timer is pending, or the handler will arm it again. */
  ghost predicate Polls(s: State) {
    s.timer.Pending? || s.handler.Entered? || s.handler.Scanning? || s.handler.Rearming?
  }

  lemma StepKeepsPolling(s: State, step: Step)
    requires Inv(s) && Enabled(s, step) && !Disturbs(step)
    requires s.mode == ModeMon && s.exit.Loaded? && Polls(s)
    ensures Next(s, step).mode == ModeMon && Next(s, step).exit.Loaded? && Polls(Next(s, step))
  {
  }

  lemma {:induction false} PollingContinues(trace: seq<State>, steps: seq<Step>, a: nat, n: nat)
    requires Execution(trace, steps) && a < n <= |steps| && steps[a].ArmMon? && trace[a].mode == ModeMon
    requires forall i :: a < i < n ==> !Disturbs(steps[i])
    ensures trace[n].mode == ModeMon && trace[n].exit.Loaded? && Polls(trace[n])
  {
    assert Ran(trace, steps, n - 1);
    InvAlways(trace, steps, n - 1);
    if n == a + 1 {
      assert trace[a].threads[steps[a].t].Flagged?;
    } else {
      PollingContinues(trace, steps, a, n - 1);
      StepKeepsPolling(trace[n - 1], steps[n - 1]);
    }
  }

  /** A MON ioctl keeps the polling going, in every run that goes on without a SET, ALLOC, CANCEL or exit, exactly if
      the mode is MON when it arms the timer; a SET or ALLOC that is still to arm it can move the next poll, not end
      it. */
  lemma PollingExactly(trace: seq<State>, steps: seq<Step>, t: nat)
    requires Execution(trace, steps) && Enabled(trace[|steps|], ArmMon(t))
    ensures trace[|steps|].mode == ModeMon <==>
      forall trace', steps' :: Monitored(trace, steps, t, trace', steps') ==> Polls(trace'[|steps'|])
  {
    if trace[|steps|].mode == ModeMon {
      forall trace', steps' | Monitored(trace, steps, t, trace', steps') ensures Polls(trace'[|steps'|]) {
        assert trace'[|steps|] == trace[|steps|];
        PollingContinues(trace', steps', |steps|, |steps'|);
      }
    } else {
      var trace', steps' := OtherModeEndsPolling(trace, steps, t);
    }
  }
}
