/** One whole firing of the timer, when nobody gets in between, does to the machine's state what Device.TimerHandler
    does to the device.
 */
module DeferredFiring {
  import opened ListHead
  import opened Deferred
  import opened DeferredRuns

  /** The state in which the handler is done. */
  ghost function Handled(s: State): (r: State)
    requires Inv(s)
    ensures r.handler.Quiet?
    decreases HandlerLeft(s)
  {
    if s.handler.Quiet? then s
    else
      HandlerAdvances(s);
      Handled(Next(s, HandlerStep(s)))
  }

  function Living(before: seq<Entry>, dead: set<Task>): (keep: seq<bool>)
    ensures |keep| == |before| && forall k :: 0 <= k < |before| ==> keep[k] == (before[k].task !in dead)
  {
    seq(|before|, k requires 0 <= k < |before| => before[k].task !in dead)
  }

  lemma {:induction false} TasksSplit(list: seq<Entry>, keep: seq<bool>, k: nat, which: bool)
    requires k <= |list| && k <= |keep|
    ensures Tasks(Split(list, keep, k, which)) == Split(Tasks(list), keep, k, which)
    decreases k
  {
    if k > 0 {
      TasksSplit(list, keep, k - 1, which);
    }
  }

  lemma HandledOn(s: State)
    requires Inv(s) && !s.handler.Quiet?
    ensures Enabled(s, HandlerStep(s)) && Inv(Next(s, HandlerStep(s)))
    ensures Handled(s) == Handled(Next(s, HandlerStep(s)))
    ensures HandlerLeft(Next(s, HandlerStep(s))) < HandlerLeft(s)
  {
    HandlerAdvances(s);
  }

  /** What stays as it is while the handler traverses the list. */
  ghost predicate SameBut(s: State, s': State) {
    s'.hz == s.hz && s'.now == s.now && s'.dead == s.dead && s'.queued == s.queued && s'.mode == s.mode
    && s'.threads == s.threads
  }

  ghost predicate ScanFor(s: State, before: seq<Entry>) {
    && s.handler.Scanning? && s.handler.before == before && |s.handler.checks| <= |before|
    && forall k :: 0 <= k < |s.handler.checks| ==> s.handler.checks[k] == s.dead
  }

  lemma CheckGoesOn(s: State, before: seq<Entry>)
    requires ScanFor(s, before) && |s.handler.checks| < |before| && Enabled(s, Check)
    ensures SameBut(s, Next(s, Check)) && ScanFor(Next(s, Check), before)
  {
    CheckSees(s);
  }

  lemma CheckSees(s: State)
    requires Enabled(s, Check)
    ensures SameBut(s, Next(s, Check))
    ensures Next(s, Check).handler == s.handler.(checks := s.handler.checks + [s.dead])
  {
  }

  lemma ScanLeaves(s: State, before: seq<Entry>)
    requires ScanOk(s) && ScanFor(s, before) && |s.handler.checks| == |before|
    ensures s.list == Split(before, Living(before, s.dead), |before|, true)
  {
    var h := s.handler;
    assert Passed(h) + before[|before|..] == Passed(h);
    SplitSameMarks(before, Alive(before, h.checks), Living(before, s.dead), |before|, true);
  }

  lemma RearmHandled(s: State)
    requires Inv(s) && s.handler.Rearming?
    ensures Handled(s) == s.(timer := Pending(s.now + s.hz), armed := s.now, handler := Quiet)
  {
    HandledOn(s);
  }

  /** The traversal of the handler finishes with the nodes of living tasks and a pending timer. */
  lemma {:induction false} ScanHandled(s: State, before: seq<Entry>)
    requires Inv(s) && ScanFor(s, before)
    ensures SameBut(s, Handled(s)) && Handled(s).timer == Pending(s.now + s.hz)
    ensures Handled(s).list == Split(before, Living(before, s.dead), |before|, true)
    decreases HandlerLeft(s)
  {
    HandledOn(s);
    if |s.handler.checks| < |before| {
      CheckGoesOn(s, before);
      ScanHandled(Next(s, Check), before);
    } else {
      ScanLeaves(s, before);
      RearmHandled(Next(s, EndScan));
    }
  }

  /** After Fire and Dispatch. */
  ghost function Dispatched(s: State): State {
    var h := match s.mode
      case ModeAlloc => Queueing
      case ModeMon => Scanning(s.list, s.dead, [])
      case _ => Quiet;
    s.(timer := Stopped, handler := h)
  }

  lemma FiringDispatches(s: State)
    requires Inv(s) && Enabled(s, Fire)
    ensures Inv(Next(s, Fire)) && Inv(Dispatched(s)) && Handled(Next(s, Fire)) == Handled(Dispatched(s))
  {
    StepKeepsInv(s, Fire);
    HandledOn(Next(s, Fire));
    assert Next(Next(s, Fire), Dispatch) == Dispatched(s);
  }

  lemma PollDispatched(s: State)
    requires s.mode == ModeMon
    ensures SameBut(s, Dispatched(s)) && ScanFor(Dispatched(s), s.list)
  {
  }

  /** What Device.TimerHandler promises, with the tasks in `dead` dead at every check. */
  ghost predicate AsTimerHandler(s: State, r: State) {
    && r.mode == s.mode && r.threads == s.threads && r.queued == (s.queued || s.mode == ModeAlloc)
    && (s.mode != ModeMon ==> r.timer == Stopped && r.list == s.list)
    && (s.mode == ModeMon ==> r.timer == Pending(s.now + s.hz) && Tasks(r.list) == Polled(Tasks(s.list), s.dead))
  }

  lemma PollHandled(s: State, s2: State)
    requires Inv(s2) && s.mode == ModeMon && SameBut(s, s2) && ScanFor(s2, s.list)
    ensures AsTimerHandler(s, Handled(s2))
  {
    ScanHandled(s2, s.list);
    TasksPolled(s.list, s.dead);
  }

  lemma OtherHandled(s: State)
    requires Inv(Dispatched(s)) && s.mode != ModeMon
    ensures AsTimerHandler(s, Handled(Dispatched(s)))
  {
    if s.mode == ModeAlloc {
      HandledOn(Dispatched(s));
    }
  }

  /** Undisturbed, the steps of one firing do what Device.TimerHandler does: in mode ALLOC the work is queued, in mode
      MON the dead are dropped and the timer is armed again, and otherwise nothing happens. */
  lemma UndisturbedFiring(s: State)
    requires Inv(s) && s.handler.Quiet? && s.timer.Pending? && s.timer.deadline <= s.now
    ensures Enabled(s, Fire) && Inv(Next(s, Fire))
    ensures AsTimerHandler(s, Handled(Next(s, Fire)))
  {
    FiringDispatches(s);
    if s.mode == ModeMon {
      PollDispatched(s);
      PollHandled(s, Dispatched(s));
    } else {
      OtherHandled(s);
    }
  }

  /** The tasks that Device.Poll leaves in the list when the tasks in `dead` are dead at every check. */
  ghost function Polled(tasks: seq<Task>, dead: set<Task>): seq<Task> {
    var keep := Survive(tasks, (k: nat, t: Task) => t in dead);
    Split(tasks, keep, |keep|, true)
  }

  lemma TasksPolled(list: seq<Entry>, dead: set<Task>)
    ensures Tasks(Split(list, Living(list, dead), |list|, true)) == Polled(Tasks(list), dead)
  {
    TasksSplit(list, Living(list, dead), |list|, true);
    assert Living(list, dead) == Survive(Tasks(list), (k: nat, t: Task) => t in dead);
  }
}
