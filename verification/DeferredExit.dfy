/** Module exit of the deferred-work device: what it leaves, how long it takes, and exactly when it is sure to end,
    with the clock running and monitored tasks dying meanwhile.
 */
module DeferredExit {
  import opened Deferred
  import opened DeferredRuns

  // ---------------------------------------------------------------- what is left

  /** Exit has ended and nothing is left: no pending timer, no running handler, no work, no node, no reference, and
      every node ever made was freed once. */
  ghost predicate Clean(s: State) {
    && s.exit.Gone? && s.timer.Stopped? && s.handler.Quiet? && !s.queued && !s.working
    && s.list == [] && s.refs == multiset{}
    && forall id :: 0 <= id < s.made ==> Count(s.freed, WithId(id)) == 1
  }

  /** Whenever module exit has ended it has left nothing behind. */
  lemma ExitLeavesNothing(trace: seq<State>, steps: seq<Step>, n: nat)
    requires Execution(trace, steps) && n <= |steps| && trace[n].exit.Gone?
    ensures Clean(trace[n])
  {
    var s := trace[n];
    InvAlways(trace, steps, n);
    forall task: Task ensures s.refs[task] == 0 {
      ReferencesConserved(trace, steps, task, n);
      NothingUnlinked(s.threads, ForTask(task));
    }
    forall id | 0 <= id < s.made ensures Count(s.freed, WithId(id)) == 1 {
      NodesConserved(trace, steps, id, n);
      NothingUnlinked(s.threads, WithId(id));
    }
  }

  // ---------------------------------------------------------------- steps during exit

  /** The steps that the kernel takes on its own: neither time, nor a dying task, nor a user's request. */
  predicate SystemStep(step: Step) {
    || step.Fire? || step.Dispatch? || step.Check? || step.EndScan? || step.Rearm? || step.Queue?
    || step.StartWork? || step.FinishWork? || step.DeleteTimer? || step.Flush? || step.FreeOne? || step.FinishExit?
  }

  /** Steps that exit still has to wait for, if the timer does not fire. */
  ghost function Toil(s: State): nat
    requires ScanOk(s)
  {
    (match s.exit case Loaded => 4 case Deleting => 3 case Flushing => 2 case Freeing => 1 case Gone => 0)
    + HandlerLeft(s) + (if s.queued then 2 else 0) + (if s.working then 1 else 0) + |s.list|
  }

  /** Once exit has begun only the kernel's own steps, time and dying tasks go on.  Each of the former brings exit one
      step nearer to its end, except a firing, which costs at most the handler it starts. */
  lemma ExitDescends(s: State, step: Step)
    requires Inv(s) && !s.exit.Loaded? && Enabled(s, step)
    ensures SystemStep(step) || step.Tick? || step.Die?
    ensures Inv(Next(s, step)) && !Next(s, step).exit.Loaded? && |Next(s, step).list| <= |s.list|
    ensures Toil(Next(s, step)) + (if SystemStep(step) then 1 else 0)
         <= Toil(s) + (if step.Fire? then 5 + |s.list| else 0)
  {
    StepKeepsInv(s, step);
  }

  /** During exit some step of the kernel can always be taken: it never waits for what cannot happen. */
  lemma ExitNeverStuck(s: State) returns (step: Step)
    requires Inv(s) && !s.exit.Loaded? && !s.exit.Gone?
    ensures SystemStep(step) && Enabled(s, step)
  {
    match s.exit
    case Deleting =>
      if s.handler.Quiet? {
        step := DeleteTimer;
      } else {
        HandlerAdvances(s);
        step := HandlerStep(s);
      }
    case Flushing => step := if s.working then FinishWork else if s.queued then StartWork else Flush;
    case Freeing => step := if s.list == [] then FinishExit else FreeOne;
  }

  // ---------------------------------------------------------------- how long exit takes

  function SystemSteps(steps: seq<Step>): nat {
    if steps == [] then 0
    else SystemSteps(steps[..|steps| - 1]) + if SystemStep(steps[|steps| - 1]) then 1 else 0
  }

  function Firings(steps: seq<Step>): nat {
    if steps == [] then 0 else Firings(steps[..|steps| - 1]) + if steps[|steps| - 1].Fire? then 1 else 0
  }

  /** Apart from what its firings cost, exit takes boundedly many steps, however long it lasts. */
  lemma {:induction false} ExitStepsBounded(trace: seq<State>, steps: seq<Step>, a: nat, n: nat)
    requires Execution(trace, steps) && a <= n <= |steps| && !trace[a].exit.Loaded?
    ensures Inv(trace[a]) && Inv(trace[n]) && !trace[n].exit.Loaded? && |trace[n].list| <= |trace[a].list|
    ensures SystemSteps(steps[a..n]) + Toil(trace[n])
         <= Toil(trace[a]) + Firings(steps[a..n]) * (5 + |trace[a].list|)
  {
    InvAlways(trace, steps, n);
    if a < n {
      assert Ran(trace, steps, n - 1);
      ExitStepsBounded(trace, steps, a, n - 1);
      ExitDescends(trace[n - 1], steps[n - 1]);
      assert steps[a..n][..n - 1 - a] == steps[a..n - 1];
      OneMore(Firings(steps[a..n - 1]), 5 + |trace[a].list|);
    }
  }

  lemma OneMore(k: nat, m: nat)
    ensures (k + 1) * m == k * m + m
  {
  }

  /** By now the timer has fired `c` times since tick `since`, and when it next may. */
  ghost predicate Paced(s: State, since: nat, hz: nat, c: nat) {
    && s.hz == hz && since <= s.now && c * hz <= hz + s.now - since
    && (c > 0 && s.timer.Pending? ==> since + c * hz <= s.timer.deadline)
  }

  lemma StepKeepsPaced(s: State, step: Step, since: nat, hz: nat, c: nat)
    requires Inv(s) && !s.exit.Loaded? && Enabled(s, step) && Paced(s, since, hz, c)
    ensures Paced(Next(s, step), since, hz, if step.Fire? then c + 1 else c)
  {
    OneMore(c, hz);
  }

  /** During exit the timer fires at most once, and then once more for every HZ ticks that go by. */
  lemma {:induction false} FiringsBounded(trace: seq<State>, steps: seq<Step>, a: nat, n: nat)
    requires Execution(trace, steps) && a <= n <= |steps| && !trace[a].exit.Loaded?
    ensures Paced(trace[n], trace[a].now, trace[a].hz, Firings(steps[a..n]))
  {
    if a < n {
      assert Ran(trace, steps, n - 1);
      FiringsBounded(trace, steps, a, n - 1);
      ExitStepsBounded(trace, steps, a, n - 1);
      StepKeepsPaced(trace[n - 1], steps[n - 1], trace[a].now, trace[a].hz, Firings(steps[a..n - 1]));
      assert steps[a..n][..n - 1 - a] == steps[a..n - 1];
    }
  }

  // ---------------------------------------------------------------- endless runs

  ghost predicate Went(tr: nat -> State, st: nat -> Step, i: nat) {
    Enabled(tr(i), st(i)) && tr(i + 1) == Next(tr(i), st(i))
  }

  /** A run that goes on for ever, be it only by the ticks of the clock. */
  ghost predicate Endless(tr: nat -> State, st: nat -> Step) {
    Initial(tr(0)) && forall i: nat :: Went(tr, st, i)
  }

  ghost predicate ActsAfter(st: nat -> Step, i: nat) {
    exists j: nat :: j >= i && SystemStep(st(j))
  }

  /** From `a` on, until exit has ended, the kernel keeps taking steps: time and dying tasks are not all there is. */
  ghost predicate Diligent(tr: nat -> State, st: nat -> Step, a: nat) {
    forall i: nat :: i >= a && !tr(i).exit.Gone? ==> ActsAfter(st, i)
  }

  ghost predicate EndsClean(tr: nat -> State) {
    exists n: nat :: Clean(tr(n))
  }

  ghost predicate NoFiringFrom(st: nat -> Step, k: nat) {
    forall i: nat :: i >= k ==> !st(i).Fire?
  }

  lemma {:induction false} PrefixRuns(tr: nat -> State, st: nat -> Step, n: nat)
    ensures Endless(tr, st) ==>
      Execution(seq(n + 1, i requires 0 <= i <= n => tr(i)), seq(n, i requires 0 <= i < n => st(i)))
  {
    if Endless(tr, st) {
      var trace, steps := seq(n + 1, i requires 0 <= i <= n => tr(i)), seq(n, i requires 0 <= i < n => st(i));
      forall i | 0 <= i < |steps| ensures Ran(trace, steps, i) {
        assert Went(tr, st, i);
      }
    }
  }

  lemma EndlessInv(tr: nat -> State, st: nat -> Step, n: nat)
    requires Endless(tr, st)
    ensures Inv(tr(n)) && (tr(n).exit.Gone? ==> Clean(tr(n)))
  {
    PrefixRuns(tr, st, n);
    var trace, steps := seq(n + 1, i requires 0 <= i <= n => tr(i)), seq(n, i requires 0 <= i < n => st(i));
    InvAlways(trace, steps, n);
    if tr(n).exit.Gone? { ExitLeavesNothing(trace, steps, n); }
  }

  lemma {:induction false} ExitGoesOn(tr: nat -> State, st: nat -> Step, a: nat, n: nat)
    requires Endless(tr, st) && a <= n && !tr(a).exit.Loaded?
    ensures !tr(n).exit.Loaded? && (tr(a).exit.Gone? ==> tr(n).exit.Gone?)
    decreases n - a
  {
    if a < n {
      ExitGoesOn(tr, st, a, n - 1);
      EndlessInv(tr, st, n - 1);
      assert Went(tr, st, n - 1);
      ExitDescends(tr(n - 1), st(n - 1));
    }
  }

  lemma {:induction false} ToilFalls(tr: nat -> State, st: nat -> Step, a: nat, n: nat)
    requires Endless(tr, st) && a <= n && !tr(a).exit.Loaded? && NoFiringFrom(st, a)
    ensures Inv(tr(a)) && Inv(tr(n)) && !tr(n).exit.Loaded? && Toil(tr(n)) <= Toil(tr(a))
    decreases n - a
  {
    EndlessInv(tr, st, n);
    if a < n {
      ToilFalls(tr, st, a, n - 1);
      assert Went(tr, st, n - 1);
      ExitDescends(tr(n - 1), st(n - 1));
    }
  }

  /** After the last firing exit reaches its end. */
  lemma {:induction false} EndsAfterFirings(tr: nat -> State, st: nat -> Step, a: nat) returns (n: nat)
    requires Endless(tr, st) && Diligent(tr, st, a) && !tr(a).exit.Loaded? && NoFiringFrom(st, a) && Inv(tr(a))
    ensures Clean(tr(n))
    decreases Toil(tr(a))
  {
    EndlessInv(tr, st, a);
    n := a;
    if !tr(a).exit.Gone? {
      assert ActsAfter(st, a);
      var j: nat :| j >= a && SystemStep(st(j));
      ToilFalls(tr, st, a, j);
      assert Went(tr, st, j);
      ExitDescends(tr(j), st(j));
      n := EndsAfterFirings(tr, st, j + 1);
    }
  }

  /** An exit with the clock running ends, and then leaves nothing behind, exactly if the timer fires only finitely
      often while it lasts. */
  lemma ExitEndsExactly(tr: nat -> State, st: nat -> Step, a: nat)
    requires Endless(tr, st) && !tr(a).exit.Loaded? && Diligent(tr, st, a)
    ensures EndsClean(tr) <==> (exists k: nat :: NoFiringFrom(st, k))
  {
    if k: nat :| NoFiringFrom(st, k) {
      var i := if k < a then a else k;
      ExitGoesOn(tr, st, a, i);
      EndlessInv(tr, st, i);
      var n := EndsAfterFirings(tr, st, i);
    }
    if n: nat :| Clean(tr(n)) {
      forall i: nat | i >= n ensures !st(i).Fire? {
        ExitGoesOn(tr, st, n, i);
        EndlessInv(tr, st, i);
        assert Went(tr, st, i);
      }
      assert NoFiringFrom(st, n);
    }
  }

  // ---------------------------------------------------------------- when exit is sure to end

  /** No polling is going on: the mode is not MON, or nothing is left that would arm the timer again. */
  ghost predicate Calm(s: State) {
    s.mode != ModeMon || (s.timer.Stopped? && !s.handler.Entered? && !s.handler.Scanning? && !s.handler.Rearming?)
  }

  /** How often the timer of a calm device may still fire. */
  ghost function FiringsLeft(s: State): nat {
    (if s.timer.Pending? then 1 else 0) + if s.handler.Scanning? || s.handler.Rearming? then 1 else 0
  }

  lemma CalmStep(s: State, step: Step)
    requires Inv(s) && !s.exit.Loaded? && Calm(s) && Enabled(s, step)
    ensures Calm(Next(s, step))
    ensures FiringsLeft(Next(s, step)) + (if step.Fire? then 1 else 0) <= FiringsLeft(s)
  {
  }

  lemma {:induction false} StaysCalm(tr: nat -> State, st: nat -> Step, a: nat, n: nat)
    requires Endless(tr, st) && a <= n && !tr(a).exit.Loaded? && Calm(tr(a))
    ensures Calm(tr(n)) && !tr(n).exit.Loaded? && FiringsLeft(tr(n)) <= FiringsLeft(tr(a))
    decreases n - a
  {
    ExitGoesOn(tr, st, a, n);
    if a < n {
      StaysCalm(tr, st, a, n - 1);
      EndlessInv(tr, st, n - 1);
      assert Went(tr, st, n - 1);
      CalmStep(tr(n - 1), st(n - 1));
    }
  }

  lemma {:induction false} CalmFiringsEnd(tr: nat -> State, st: nat -> Step, a: nat) returns (k: nat)
    requires Endless(tr, st) && !tr(a).exit.Loaded? && Calm(tr(a))
    ensures NoFiringFrom(st, k)
    decreases FiringsLeft(tr(a))
  {
    k := a;
    if i: nat :| i >= a && st(i).Fire? {
      StaysCalm(tr, st, a, i);
      EndlessInv(tr, st, i);
      assert Went(tr, st, i);
      CalmStep(tr(i), st(i));
      ExitGoesOn(tr, st, a, i + 1);
      k := CalmFiringsEnd(tr, st, i + 1);
    }
  }

  lemma CalmExitEnds(tr: nat -> State, st: nat -> Step, a: nat)
    requires Endless(tr, st) && !tr(a).exit.Loaded? && Diligent(tr, st, a) && Calm(tr(a))
    ensures EndsClean(tr)
  {
    var k := CalmFiringsEnd(tr, st, a);
    ExitEndsExactly(tr, st, a);
  }

  /** Exit ends as soon as the deletion of the timer gets through between two handler runs. */
  lemma DeletionEndsExit(tr: nat -> State, st: nat -> Step, a: nat)
    requires Endless(tr, st) && Diligent(tr, st, a) && st(a).DeleteTimer?
    ensures EndsClean(tr)
  {
    assert Went(tr, st, a);
    CalmExitEnds(tr, st, a + 1);
  }

  ghost predicate DeletableAfter(tr: nat -> State, k: nat) {
    exists i: nat :: i >= k && Enabled(tr(i), DeleteTimer)
  }

  /** The kernel is fair to timer_delete_sync: if time and again no handler runs, it gets through in the end. */
  ghost predicate FairToDeletion(tr: nat -> State, st: nat -> Step, a: nat) {
    (forall k: nat :: DeletableAfter(tr, k)) ==> exists i: nat :: i >= a && st(i).DeleteTimer?
  }

  /** With a kernel that keeps taking steps and is fair to timer_delete_sync, every exit ends clean, polling or not. */
  lemma FairExitEnds(tr: nat -> State, st: nat -> Step, a: nat)
    requires Endless(tr, st) && !tr(a).exit.Loaded? && Diligent(tr, st, a) && FairToDeletion(tr, st, a)
    ensures EndsClean(tr)
  {
    if i: nat :| i >= a && st(i).DeleteTimer? {
      DeletionEndsExit(tr, st, i);
    } else {
      var k: nat :| !DeletableAfter(tr, k);
      var m := if k < a then a else k;
      forall i: nat | i >= m ensures !st(i).Fire? {
        ExitGoesOn(tr, st, a, i);
        EndlessInv(tr, st, i);
        assert Went(tr, st, i);
      }
      assert NoFiringFrom(st, m);
      ExitEndsExactly(tr, st, a);
    }
  }

  // ---------------------------------------------------------------- a starving exit

  ghost predicate Restless(s: State) {
    Inv(s) && s.exit.Deleting? && !Calm(s)
  }

  /** The polling goes on before timer_delete_sync gets its turn. */
  ghost function PollFirst(s: State): Step {
    if !s.handler.Quiet? then HandlerStep(s)
    else if s.timer.Stopped? then Tick(0)
    else if s.timer.deadline <= s.now then Fire
    else Tick(s.timer.deadline - s.now)
  }

  lemma PollingStaysRestless(s: State)
    requires Restless(s)
    ensures Enabled(s, PollFirst(s)) && Restless(Next(s, PollFirst(s)))
    ensures !SystemStep(PollFirst(s)) ==> PollFirst(Next(s, PollFirst(s))) == Fire
  {
    if !s.handler.Quiet? {
      HandlerAdvances(s);
    } else {
      StepKeepsInv(s, PollFirst(s));
    }
  }

  ghost function Polled(s: State, i: nat): (r: State)
    requires Restless(s)
    ensures Restless(r)
  {
    if i == 0 then s
    else
      var r := Polled(s, i - 1);
      PollingStaysRestless(r);
      Next(r, PollFirst(r))
  }

  /** The endless run goes on from the finite one, and the kernel keeps taking steps until exit has ended. */
  ghost predicate Continues(trace: seq<State>, steps: seq<Step>, tr: nat -> State, st: nat -> Step)
    requires |trace| == |steps| + 1
  {
    && Endless(tr, st) && Diligent(tr, st, |steps|)
    && (forall i :: 0 <= i <= |steps| ==> tr(i) == trace[i])
    && (forall i :: 0 <= i < |steps| ==> st(i) == steps[i])
  }

  /** State `i` of the run that polls from the end of `trace` on. */
  ghost function PolledState(trace: seq<State>, i: nat): State
    requires trace != [] && Restless(trace[|trace| - 1])
  {
    if i < |trace| - 1 then trace[i] else Polled(trace[|trace| - 1], i + 1 - |trace|)
  }

  ghost function PolledStep(trace: seq<State>, steps: seq<Step>, i: nat): Step
    requires trace != [] && Restless(trace[|trace| - 1])
  {
    if i < |steps| then steps[i] else PollFirst(PolledState(trace, i))
  }

  /** The run `trace`, and polling from its end on. */
  ghost predicate PollsOn(trace: seq<State>, steps: seq<Step>, tr: nat -> State, st: nat -> Step) {
    && Execution(trace, steps) && Restless(trace[|steps|])
    && (forall i: nat :: tr(i) == PolledState(trace, i))
    && (forall i: nat :: st(i) == PolledStep(trace, steps, i))
  }

  lemma PollOn(trace: seq<State>, steps: seq<Step>) returns (tr: nat -> State, st: nat -> Step)
    requires Execution(trace, steps) && Restless(trace[|steps|])
    ensures PollsOn(trace, steps, tr, st)
  {
    tr := (i: nat) => PolledState(trace, i);
    st := (i: nat) => PolledStep(trace, steps, i);
  }

  lemma PolledOn(s: State, i: nat)
    requires Restless(s)
    ensures Enabled(Polled(s, i), PollFirst(Polled(s, i)))
    ensures Polled(s, i + 1) == Next(Polled(s, i), PollFirst(Polled(s, i)))
  {
    PollingStaysRestless(Polled(s, i));
  }

  lemma PollingGoes(trace: seq<State>, steps: seq<Step>, i: nat)
    requires Execution(trace, steps) && Restless(trace[|steps|])
    ensures Enabled(PolledState(trace, i), PolledStep(trace, steps, i))
    ensures PolledState(trace, i + 1) == Next(PolledState(trace, i), PolledStep(trace, steps, i))
  {
    if i < |steps| {
      assert Ran(trace, steps, i);
    } else {
      PolledOn(trace[|steps|], i - |steps|);
    }
  }

  lemma PollingWent(trace: seq<State>, steps: seq<Step>, tr: nat -> State, st: nat -> Step)
    requires PollsOn(trace, steps, tr, st)
    ensures Endless(tr, st)
  {
    forall i: nat ensures Went(tr, st, i) {
      PollingGoes(trace, steps, i);
    }
  }

  lemma PollingActs(trace: seq<State>, steps: seq<Step>, tr: nat -> State, st: nat -> Step)
    requires PollsOn(trace, steps, tr, st) && Endless(tr, st)
    ensures Diligent(tr, st, |steps|)
  {
    forall i: nat | i >= |steps| ensures ActsAfter(st, i) {
      PollingStaysRestless(tr(i));
      assert Went(tr, st, i);
      assert SystemStep(st(i)) || SystemStep(st(i + 1));
    }
  }

  lemma PollingNeverEnds(trace: seq<State>, steps: seq<Step>, tr: nat -> State, st: nat -> Step)
    requires PollsOn(trace, steps, tr, st) && Endless(tr, st)
    ensures !EndsClean(tr)
  {
    forall n: nat ensures !Clean(tr(n)) {
      assert Restless(tr(|steps|));
      if n < |steps| && Clean(tr(n)) {
        ExitGoesOn(tr, st, n, |steps|);
      }
    }
  }

  /** While polling goes on, exit need not end: the timer can fire again each time before it is deleted. */
  lemma RestlessExitStarves(trace: seq<State>, steps: seq<Step>) returns (tr: nat -> State, st: nat -> Step)
    requires Execution(trace, steps) && Restless(trace[|steps|])
    ensures Continues(trace, steps, tr, st) && !EndsClean(tr)
  {
    tr, st := PollOn(trace, steps);
    PollingWent(trace, steps, tr, st);
    PollingActs(trace, steps, tr, st);
    PollingNeverEnds(trace, steps, tr, st);
  }

  /** A run in which exit begins while a live task is monitored. */
  lemma ExitWhileMonitoring(hz: nat) returns (trace: seq<State>, steps: seq<Step>)
    requires hz > 0
    ensures Execution(trace, steps) && |steps| == 5 && steps[4] == BeginExit && Restless(trace[5])
  {
    var s := State(hz, 0, ModeNone, Stopped, false, false, [], [Idle], Quiet, Loaded, {}, multiset{}, 0, [], 0);
    trace, steps := Extend([s], [], GetProc(0, 0));
    trace, steps := Extend(trace, steps, Link(0));
    trace, steps := Extend(trace, steps, SetMon(0));
    trace, steps := Extend(trace, steps, ArmMon(0));
    trace, steps := Extend(trace, steps, BeginExit);
    InvAlways(trace, steps, 5);
  }

  /** So there is a run, from the start, of an exit that never ends although the kernel keeps taking steps. */
  lemma StarvingRun(hz: nat) returns (tr: nat -> State, st: nat -> Step)
    requires hz > 0
    ensures Endless(tr, st) && st(4) == BeginExit && Diligent(tr, st, 5) && !EndsClean(tr)
  {
    var trace, steps := ExitWhileMonitoring(hz);
    tr, st := RestlessExitStarves(trace, steps);
  }

  /** From a state in which exit has begun, whatever timer, handler, work and list it holds, every run in which the
      kernel keeps taking steps ends clean, exactly if no polling is going on. */
  lemma ExitSureExactly(trace: seq<State>, steps: seq<Step>)
    requires Execution(trace, steps) && !trace[|steps|].exit.Loaded?
    ensures Calm(trace[|steps|]) <==>
      forall tr, st :: Continues(trace, steps, tr, st) ==> EndsClean(tr)
  {
    var s := trace[|steps|];
    InvAlways(trace, steps, |steps|);
    if Calm(s) {
      forall tr, st | Continues(trace, steps, tr, st) ensures EndsClean(tr) {
        CalmExitEnds(tr, st, |steps|);
      }
    } else {
      var tr, st := RestlessExitStarves(trace, steps);
    }
  }
}
