/** Every interleaving of ioctls from any number of threads, timer firings, the queued work and
    module exit on the deferred-work device.  The ioctls take no common lock, so each of their
    writes is a step of its own; the handler's traversal holds the list lock and visits one node
    per step.
 */
module DeferredRuns {
  import opened ListHead
  import opened Deferred
  import opened Prelude

  /** A struct mon_proc: `id` tells apart two nodes that monitor the same task. */
  datatype Entry = Entry(id: nat, task: Task)

  /** Got: get_proc returned, not linked yet.  Linked: before `flag = TIMER_TYPE_MON`.  Flagged: before
      mod_timer.  Arming: a SET or ALLOC between its flag and its mod_timer. */
  datatype Phase = Idle | Got(e: Entry) | Linked | Flagged | Arming(delay: nat)

  /** Entered: before the switch.  Scanning: the list and the dead tasks when the lock was taken, and
      the dead tasks seen by each check so far.  Rearming and Queueing: before mod_timer and schedule_work. */
  datatype Handler =
    | Quiet
    | Entered
    | Scanning(before: seq<Entry>, known: set<Task>, checks: seq<set<Task>>)
    | Rearming
    | Queueing

  datatype Exit = Loaded | Deleting | Flushing | Freeing | Gone

  datatype State = State(
    hz: nat, now: nat, mode: Mode, timer: Timer, queued: bool, working: bool,
    list: seq<Entry>, threads: seq<Phase>, handler: Handler, exit: Exit,
    dead: set<Task>, refs: multiset<Task>,
    made: nat,           // nodes allocated so far
    freed: seq<Entry>,   // nodes given to kfree, in order
    armed: nat)          // tick of the latest mod_timer by a MON ioctl or a re-arming handler

  datatype Step =
    | Tick(d: nat) | Die(task: Task)
    | GetProc(t: nat, task: Task) | Link(t: nat) | SetMon(t: nat) | ArmMon(t: nat)
    | SetMode(t: nat, alloc: bool, delay: nat) | Arm(t: nat) | CancelTimer(t: nat)
    | Fire | Dispatch | Check | EndScan | Rearm | Queue
    | StartWork | FinishWork
    | BeginExit | DeleteTimer | Flush | FreeOne | FinishExit

  function Alive(before: seq<Entry>, checks: seq<set<Task>>): (keep: seq<bool>)
    requires |checks| <= |before|
    ensures |keep| == |checks| && forall k :: 0 <= k < |checks| ==> keep[k] == (before[k].task !in checks[k])
  {
    seq(|checks|, k requires 0 <= k < |checks| => before[k].task !in checks[k])
  }

  ghost function Passed(h: Handler): seq<Entry>
    requires h.Scanning? && |h.checks| <= |h.before|
  {
    Split(h.before, Alive(h.before, h.checks), |h.checks|, true)
  }

  ghost predicate IsIdle(s: State, t: nat) {
    t < |s.threads| && s.threads[t].Idle?
  }

  ghost predicate Enabled(s: State, step: Step) {
    match step
    case Tick(_) | Die(_) => true
    case GetProc(t, _) => IsIdle(s, t) && s.exit.Loaded?
    case SetMode(t, _, _) => IsIdle(s, t) && s.exit.Loaded?
    case CancelTimer(t) => IsIdle(s, t) && s.exit.Loaded? && s.handler.Quiet?
    case Link(t) => t < |s.threads| && s.threads[t].Got? && !s.handler.Scanning?
    case SetMon(t) => t < |s.threads| && s.threads[t].Linked?
    case ArmMon(t) => t < |s.threads| && s.threads[t].Flagged?
    case Arm(t) => t < |s.threads| && s.threads[t].Arming?
    case Fire => s.handler.Quiet? && s.timer.Pending? && s.timer.deadline <= s.now
    case Dispatch => s.handler.Entered?
    case Check =>
      && s.handler.Scanning? && |s.handler.checks| < |s.handler.before| && |Passed(s.handler)| < |s.list|
    case EndScan => s.handler.Scanning? && |s.handler.checks| == |s.handler.before|
    case Rearm => s.handler.Rearming?
    case Queue => s.handler.Queueing?
    case StartWork => s.queued && !s.working
    case FinishWork => s.working
    case BeginExit => s.exit.Loaded? && forall t :: 0 <= t < |s.threads| ==> s.threads[t].Idle?
    case DeleteTimer => s.exit.Deleting? && s.handler.Quiet?
    case Flush => s.exit.Flushing? && !s.queued && !s.working
    case FreeOne => s.exit.Freeing? && s.list != []
    case FinishExit => s.exit.Freeing? && s.list == []
  }

  /** One check of the traversal: a dead task's reference is put and its node unlinked and freed. */
  ghost function Checked(s: State): State
    requires Enabled(s, Check)
  {
    var i, h := |Passed(s.handler)|, s.handler;
    var e := s.list[i];
    var s' := s.(handler := h.(checks := h.checks + [s.dead]));
    if e.task in s.dead then
      s'.(list := s.list[..i] + s.list[i + 1..], refs := s.refs - multiset{e.task}, freed := s.freed + [e])
    else s'
  }

  ghost function Next(s: State, step: Step): State
    requires Enabled(s, step)
  {
    match step
    case Tick(d) => s.(now := s.now + d)
    case Die(task) => s.(dead := s.dead + {task})
    case GetProc(t, task) =>
      s.(threads := s.threads[t := Got(Entry(s.made, task))], made := s.made + 1, refs := s.refs + multiset{task})
    case Link(t) => s.(list := [s.threads[t].e] + s.list, threads := s.threads[t := Linked])
    case SetMon(t) => s.(mode := ModeMon, threads := s.threads[t := Flagged])
    case ArmMon(t) => s.(timer := Pending(s.now + s.hz), armed := s.now, threads := s.threads[t := Idle])
    case SetMode(t, alloc, delay) =>
      s.(mode := if alloc then ModeAlloc else ModeSet, threads := s.threads[t := Arming(delay)])
    case Arm(t) => s.(timer := Pending(s.now + s.threads[t].delay * s.hz), threads := s.threads[t := Idle])
    case CancelTimer(_) => s.(timer := Stopped)
    case Fire => s.(timer := Stopped, handler := Entered)
    case Dispatch =>
      s.(handler := match s.mode
                    case ModeAlloc => Queueing
                    case ModeMon => Scanning(s.list, s.dead, [])
                    case _ => Quiet)
    case Check => Checked(s)
    case EndScan => s.(handler := Rearming)
    case Rearm => s.(timer := Pending(s.now + s.hz), armed := s.now, handler := Quiet)
    case Queue => s.(queued := true, handler := Quiet)
    case StartWork => s.(queued := false, working := true)
    case FinishWork => s.(working := false)
    case BeginExit => s.(exit := Deleting)
    case DeleteTimer => s.(timer := Stopped, exit := Flushing)
    case Flush => s.(exit := Freeing)
    case FreeOne => s.(list := s.list[1..], refs := s.refs - multiset{s.list[0].task}, freed := s.freed + [s.list[0]])
    case FinishExit => s.(exit := Gone)
  }

  ghost predicate Initial(s: State) {
    && s.hz > 0 && s.mode == ModeNone && s.timer == Stopped && !s.queued && !s.working && s.list == []
    && (forall t :: 0 <= t < |s.threads| ==> s.threads[t].Idle?)
    && s.handler == Quiet && s.exit == Loaded && s.refs == multiset{} && s.made == 0 && s.freed == []
  }

  ghost predicate Ran(trace: seq<State>, steps: seq<Step>, i: nat)
    requires |trace| == |steps| + 1 && i < |steps|
  {
    Enabled(trace[i], steps[i]) && trace[i + 1] == Next(trace[i], steps[i])
  }

  ghost predicate Execution(trace: seq<State>, steps: seq<Step>) {
    |trace| == |steps| + 1 && Initial(trace[0]) && forall i :: 0 <= i < |steps| ==> Ran(trace, steps, i)
  }

  // ---------------------------------------------------------------- counting nodes

  function Count(list: seq<Entry>, p: Entry -> bool): nat {
    if list == [] then 0
    else Count(list[..|list| - 1], p) + if p(list[|list| - 1]) then 1 else 0
  }

  predicate Brings(ph: Phase, p: Entry -> bool) {
    ph.Got? && p(ph.e)
  }

  /** The nodes that get_proc made and that are not linked yet. */
  function Unlinked(threads: seq<Phase>, p: Entry -> bool): nat {
    if threads == [] then 0
    else Unlinked(threads[..|threads| - 1], p) + if Brings(threads[|threads| - 1], p) then 1 else 0
  }

  /** The nodes satisfying `p` that the module still owns. */
  function Owned(s: State, p: Entry -> bool): nat {
    Count(s.list, p) + Unlinked(s.threads, p)
  }

  lemma {:induction false} UnlinkedUpdate(threads: seq<Phase>, t: nat, ph: Phase, p: Entry -> bool)
    requires t < |threads|
    ensures Unlinked(threads[t := ph], p) + (if Brings(threads[t], p) then 1 else 0)
         == Unlinked(threads, p) + (if Brings(ph, p) then 1 else 0)
  {
    var n := |threads| - 1;
    if t < n {
      assert threads[t := ph][..n] == threads[..n][t := ph];
      UnlinkedUpdate(threads[..n], t, ph, p);
    } else {
      assert threads[t := ph][..n] == threads[..n];
    }
  }

  lemma {:induction false} CountConcat(a: seq<Entry>, b: seq<Entry>, p: Entry -> bool)
    ensures Count(a + b, p) == Count(a, p) + Count(b, p)
  {
    if b == [] {
      assert a + b == a;
    } else {
      assert (a + b)[..|a + b| - 1] == a + b[..|b| - 1];
      CountConcat(a, b[..|b| - 1], p);
    }
  }

  lemma CountOne(e: Entry, p: Entry -> bool)
    ensures Count([e], p) == if p(e) then 1 else 0
  {
    assert [e][..0] == [];
  }

  lemma {:induction false} CountAround(list: seq<Entry>, i: nat, p: Entry -> bool)
    requires i < |list|
    ensures Count(list, p) == Count(list[..i] + list[i + 1..], p) + if p(list[i]) then 1 else 0
  {
    var n, cut := |list| - 1, list[..i] + list[i + 1..];
    if i < n {
      CountAround(list[..n], i, p);
      assert cut[..n - 1] == list[..n][..i] + list[..n][i + 1..];
      assert cut[n - 1] == list[n];
    } else {
      assert cut == list[..n];
    }
  }

  lemma {:induction false} NothingUnlinked(threads: seq<Phase>, p: Entry -> bool)
    requires forall t :: 0 <= t < |threads| ==> threads[t].Idle?
    ensures Unlinked(threads, p) == 0
  {
    if threads != [] {
      NothingUnlinked(threads[..|threads| - 1], p);
    }
  }

  predicate ThreadStep(step: Step) {
    step.GetProc? || step.Link? || step.SetMon? || step.ArmMon? || step.SetMode? || step.Arm?
  }

  /** The node that this step frees, if any. */
  ghost function Frees(s: State, step: Step): Option<Entry>
    requires Enabled(s, step)
  {
    match step
    case Check => var e := s.list[|Passed(s.handler)|]; if e.task in s.dead then Some(e) else None
    case FreeOne => Some(s.list[0])
    case _ => None
  }

  lemma ThreadStepOwns(s: State, step: Step, p: Entry -> bool)
    requires Enabled(s, step) && ThreadStep(step)
    ensures Owned(Next(s, step), p) == Owned(s, p) + if step.GetProc? && p(Entry(s.made, step.task)) then 1 else 0
  {
    var ph := Next(s, step).threads[step.t];
    UnlinkedUpdate(s.threads, step.t, ph, p);
    assert Next(s, step).threads == s.threads[step.t := ph];
    if step.Link? {
      CountConcat([s.threads[step.t].e], s.list, p);
      CountOne(s.threads[step.t].e, p);
    }
  }

  lemma FreedAt(s: State, s': State, i: nat, p: Entry -> bool)
    requires i < |s.list| && s'.threads == s.threads
    requires s'.list == s.list[..i] + s.list[i + 1..] && s'.freed == s.freed + [s.list[i]]
    ensures var f := if p(s.list[i]) then 1 else 0;
      Owned(s', p) == Owned(s, p) - f && Count(s'.freed, p) == Count(s.freed, p) + f
  {
    CountAround(s.list, i, p);
    CountConcat(s.freed, [s.list[i]], p);
    CountOne(s.list[i], p);
  }

  lemma FreeStepOwns(s: State, step: Step, p: Entry -> bool)
    requires Enabled(s, step) && (step.Check? || step.FreeOne?)
    ensures var f := if Frees(s, step).Some? && p(Frees(s, step).value) then 1 else 0;
      && Owned(Next(s, step), p) == Owned(s, p) - f
      && Count(Next(s, step).freed, p) == Count(s.freed, p) + f
  {
    if Frees(s, step).Some? {
      FreedAt(s, Next(s, step), if step.Check? then |Passed(s.handler)| else 0, p);
    }
  }

  /** A step makes a node (GetProc), frees one it owns, or moves none. */
  lemma StepOwns(s: State, step: Step, p: Entry -> bool)
    requires Enabled(s, step)
    ensures var m := if step.GetProc? && p(Entry(s.made, step.task)) then 1 else 0;
      var f := if Frees(s, step).Some? && p(Frees(s, step).value) then 1 else 0;
      && Owned(Next(s, step), p) == Owned(s, p) + m - f
      && Count(Next(s, step).freed, p) == Count(s.freed, p) + f
  {
    if ThreadStep(step) {
      ThreadStepOwns(s, step, p);
    } else if step.Check? || step.FreeOne? {
      FreeStepOwns(s, step, p);
    }
  }

  // ---------------------------------------------------------------- references

  function ForTask(task: Task): Entry -> bool {
    (e: Entry) => e.task == task
  }

  /** The references on `task` are its nodes, linked or about to be. */
  ghost predicate RefsExact(s: State, task: Task) {
    s.refs[task] == Owned(s, ForTask(task))
  }

  lemma StepMovesRefs(s: State, step: Step)
    requires Enabled(s, step)
    ensures Next(s, step).refs == match Frees(s, step)
      case Some(e) => s.refs - multiset{e.task}
      case None => if step.GetProc? then s.refs + multiset{step.task} else s.refs
  {
  }

  lemma StepKeepsRefs(s: State, step: Step, task: Task)
    requires Enabled(s, step) && RefsExact(s, task)
    ensures RefsExact(Next(s, step), task)
  {
    StepOwns(s, step, ForTask(task));
    StepMovesRefs(s, step);
  }

  /** Conservation: at every point of every run the module holds on each task exactly one reference per
      node that is listed or about to be. */
  lemma {:induction false} ReferencesConserved(trace: seq<State>, steps: seq<Step>, task: Task, n: nat)
    requires Execution(trace, steps) && n <= |steps|
    ensures RefsExact(trace[n], task)
  {
    if n == 0 {
      NothingUnlinked(trace[0].threads, ForTask(task));
    } else {
      assert Ran(trace, steps, n - 1);
      ReferencesConserved(trace, steps, task, n - 1);
      StepKeepsRefs(trace[n - 1], steps[n - 1], task);
    }
  }

  // ---------------------------------------------------------------- nodes

  function WithId(id: nat): Entry -> bool {
    (e: Entry) => e.id == id
  }

  /** The `id`-th node, once made, is in exactly one place: linked, about to be linked, or freed; before
      that it is nowhere. */
  ghost predicate NodeOnce(s: State, id: nat) {
    Owned(s, WithId(id)) + Count(s.freed, WithId(id)) == if id < s.made then 1 else 0
  }

  lemma {:induction false} NodesConserved(trace: seq<State>, steps: seq<Step>, id: nat, n: nat)
    requires Execution(trace, steps) && n <= |steps|
    ensures NodeOnce(trace[n], id)
  {
    if n == 0 {
      NothingUnlinked(trace[0].threads, WithId(id));
    } else {
      assert Ran(trace, steps, n - 1);
      NodesConserved(trace, steps, id, n - 1);
      StepOwns(trace[n - 1], steps[n - 1], WithId(id));
      StepMakes(trace[n - 1], steps[n - 1]);
    }
  }

  lemma StepMakes(s: State, step: Step)
    requires Enabled(s, step)
    ensures Next(s, step).made == s.made + if step.GetProc? then 1 else 0
  {
  }

  /** The nodes whose fields a step may read or write: the one it handles and, where it relinks, any
      node of the list. */
  ghost predicate Uses(s: State, step: Step, e: Entry) {
    match step
    case Link(t) => t < |s.threads| && s.threads[t].Got? && (e == s.threads[t].e || e in s.list)
    case Check => e in s.list
    case FreeOne => e in s.list
    case _ => false
  }

  lemma {:induction false} CountMember(list: seq<Entry>, e: Entry, p: Entry -> bool)
    requires e in list && p(e)
    ensures Count(list, p) >= 1
  {
    if list[|list| - 1] != e {
      assert e in list[..|list| - 1];
      CountMember(list[..|list| - 1], e, p);
    }
  }

  lemma {:induction false} UnlinkedMember(threads: seq<Phase>, t: nat, p: Entry -> bool)
    requires t < |threads| && threads[t].Got? && p(threads[t].e)
    ensures Unlinked(threads, p) >= 1
  {
    if t < |threads| - 1 {
      UnlinkedMember(threads[..|threads| - 1], t, p);
    }
  }

  /** No step of any run uses a node that was freed. */
  lemma NoUseAfterFree(trace: seq<State>, steps: seq<Step>, n: nat, e: Entry)
    requires Execution(trace, steps) && n < |steps| && Uses(trace[n], steps[n], e)
    ensures e !in trace[n].freed
  {
    var s := trace[n];
    NodesConserved(trace, steps, e.id, n);
    if e in s.freed { CountMember(s.freed, e, WithId(e.id)); }
    if e in s.list { CountMember(s.list, e, WithId(e.id)); }
    if steps[n].Link? && e == s.threads[steps[n].t].e { UnlinkedMember(s.threads, steps[n].t, WithId(e.id)); }
  }

  // ---------------------------------------------------------------- one firing

  /** A traversal in progress: what it has visited of the list it locked is split by its checks, the rest
      is untouched, and each check saw at least the tasks that were dead when the lock was taken. */
  ghost predicate ScanOk(s: State) {
    var h := s.handler;
    h.Scanning? ==>
      && |h.checks| <= |h.before|
      && s.list == Passed(h) + h.before[|h.checks|..]
      && h.known <= s.dead
      && (forall k :: 0 <= k < |h.checks| ==> h.known <= h.checks[k] <= s.dead)
  }

  /** What module exit has already taken down. */
  ghost predicate ExitOk(s: State) {
    && (!s.exit.Loaded? ==> forall t :: 0 <= t < |s.threads| ==> s.threads[t].Idle?)
    && (s.exit.Flushing? || s.exit.Freeing? || s.exit.Gone? ==> s.timer.Stopped? && s.handler.Quiet?)
    && (s.exit.Freeing? || s.exit.Gone? ==> !s.queued && !s.working)
    && (s.exit.Gone? ==> s.list == [])
  }

  ghost predicate Inv(s: State) {
    s.hz > 0 && ScanOk(s) && ExitOk(s)
  }

  /** One more check: the list loses the checked node exactly if its task is dead. */
  lemma CheckSplits(before: seq<Entry>, checks: seq<set<Task>>, dead: set<Task>)
    requires |checks| < |before|
    ensures var k := |checks|;
      var kept := Split(before, Alive(before, checks), k, true);
      var list := kept + before[k..];
      && list[|kept|] == before[k]
      && Split(before, Alive(before, checks + [dead]), k + 1, true) + before[k + 1..] ==
           if before[k].task in dead then list[..|kept|] + list[|kept| + 1..] else list
  {
    var k, keep, keep' := |checks|, Alive(before, checks), Alive(before, checks + [dead]);
    SplitSameMarks(before, keep, keep', k, true);
    TakeNext(Split(before, keep, k, true), before, k);
    CutNext(Split(before, keep, k, true), before, k);
  }

  lemma CheckKeepsScan(s: State)
    requires ScanOk(s) && Enabled(s, Check)
    ensures ScanOk(Checked(s))
  {
    var h := s.handler;
    CheckSplits(h.before, h.checks, s.dead);
  }

  lemma StepKeepsScan(s: State, step: Step)
    requires Inv(s) && Enabled(s, step)
    ensures ScanOk(Next(s, step))
  {
    if step.Check? {
      CheckKeepsScan(s);
    }
  }

  lemma StepKeepsExit(s: State, step: Step)
    requires Inv(s) && Enabled(s, step)
    ensures ExitOk(Next(s, step))
  {
  }

  lemma {:induction false} InvAlways(trace: seq<State>, steps: seq<Step>, n: nat)
    requires Execution(trace, steps) && n <= |steps|
    ensures Inv(trace[n])
  {
    if n > 0 {
      assert Ran(trace, steps, n - 1);
      InvAlways(trace, steps, n - 1);
      StepKeepsScan(trace[n - 1], steps[n - 1]);
      StepKeepsExit(trace[n - 1], steps[n - 1]);
    }
  }

  /** A traversal can always go on: the bound in Enabled never blocks it. */
  lemma CheckInBounds(s: State)
    requires ScanOk(s) && s.handler.Scanning?
    ensures Enabled(s, Check) || Enabled(s, EndScan)
    ensures Enabled(s, Check) ==> s.list[|Passed(s.handler)|] == s.handler.before[|s.handler.checks|]
  {
  }

  /** A MON firing removes exactly the nodes whose task is dead at its check and keeps the rest in order:
      at the unlock the list is the split of the locked list by the checks, a node whose task was dead at the
      lock is dropped, and a dropped node's task is dead. */
  lemma FiringOutcome(trace: seq<State>, steps: seq<Step>, n: nat)
    requires Execution(trace, steps) && n <= |steps| && Enabled(trace[n], EndScan)
    ensures var s := trace[n]; var h := s.handler; var keep := Alive(h.before, h.checks);
      && s.list == Split(h.before, keep, |h.before|, true)
      && (forall k :: 0 <= k < |h.before| && h.before[k].task in h.known ==> !keep[k])
      && (forall k :: 0 <= k < |h.before| && !keep[k] ==> h.before[k].task in s.dead)
  {
    InvAlways(trace, steps, n);
    var h := trace[n].handler;
    assert h.before[|h.checks|..] == [];
    assert Passed(h) + [] == Passed(h);
  }

  // ---------------------------------------------------------------- going on

  /** A run goes on by any step that is enabled at its end. */
  lemma Extend(trace: seq<State>, steps: seq<Step>, step: Step) returns (trace': seq<State>, steps': seq<Step>)
    requires Execution(trace, steps) && Enabled(trace[|steps|], step)
    ensures Execution(trace', steps') && trace' == trace + [Next(trace[|steps|], step)] && steps' == steps + [step]
  {
    trace', steps' := trace + [Next(trace[|steps|], step)], steps + [step];
    forall i | 0 <= i < |steps'| ensures Ran(trace', steps', i) {
      assert i < |steps| ==> Ran(trace, steps, i);
    }
  }

  /** How many steps the handler takes until it is done, at most; a Queueing one leaves two more to the work. */
  ghost function HandlerLeft(s: State): nat
    requires ScanOk(s)
  {
    match s.handler
    case Quiet => 0
    case Rearming => 1
    case Queueing => 3
    case Scanning(before, _, checks) => 2 + |before| - |checks|
    case Entered => 4 + |s.list|
  }

  ghost function HandlerStep(s: State): Step
    requires !s.handler.Quiet?
  {
    match s.handler
    case Entered => Dispatch
    case Scanning(before, _, checks) => if |checks| < |before| then Check else EndScan
    case Rearming => Rearm
    case Queueing => Queue
  }

  lemma StepKeepsInv(s: State, step: Step)
    requires Inv(s) && Enabled(s, step)
    ensures Inv(Next(s, step))
  {
    StepKeepsScan(s, step);
    StepKeepsExit(s, step);
  }

  /** A handler that runs can go on, gets nearer to its end, and leaves mode, calls and module exit alone. */
  lemma HandlerAdvances(s: State)
    requires Inv(s) && !s.handler.Quiet?
    ensures Enabled(s, HandlerStep(s)) && Inv(Next(s, HandlerStep(s)))
    ensures HandlerLeft(Next(s, HandlerStep(s))) < HandlerLeft(s)
    ensures var s' := Next(s, HandlerStep(s));
      s'.mode == s.mode && s'.threads == s.threads && s'.exit == s.exit && s'.hz == s.hz
  {
    if s.handler.Scanning? { CheckInBounds(s); }
    StepKeepsInv(s, HandlerStep(s));
  }

  function Tasks(list: seq<Entry>): (s: seq<Task>)
    ensures |s| == |list| && forall i :: 0 <= i < |list| ==> s[i] == list[i].task
  {
    seq(|list|, i requires 0 <= i < |list| => list[i].task)
  }

  /** Undisturbed, the steps of one MON ioctl do what Device.Ioctl does. */
  lemma UndisturbedMon(s: State, t: nat, task: Task)
    requires t < |s.threads| && s.threads[t].Idle? && s.exit.Loaded? && !s.handler.Scanning?
    ensures Enabled(s, GetProc(t, task))
    ensures var s1 := Next(s, GetProc(t, task));
      && Enabled(s1, Link(t)) && var s2 := Next(s1, Link(t));
      && Enabled(s2, SetMon(t)) && var s3 := Next(s2, SetMon(t));
      && Enabled(s3, ArmMon(t)) && var s4 := Next(s3, ArmMon(t));
      && s4.mode == ModeMon && s4.timer == Pending(s.now + s.hz)
      && Tasks(s4.list) == [task] + Tasks(s.list) && s4.refs == s.refs + multiset{task}
      && s4.threads == s.threads && s4.handler == s.handler && s4.queued == s.queued
  {
  }
}
