/** Any number of threads running task_info_add_to_list, task_info_remove_expired and
    task_info_purge_list at once.  A locked region is one step, except the two traversals,
    which hold the lock from Lock to Unlock and visit one node at a time, so that jiffies and
    the unlocked allocation of another thread move between two visits.
 */
module TaskListRuns {
  import opened ListHead
  import opened TaskList

  /** Missed: between the first unlock and task_info_alloc.  Allocated: between it and list_add.
      Scanning remembers the list at Lock and the tick of each jiffies read so far. */
  datatype Phase =
    | Idle
    | Missed(pid: int)
    | Allocated(ti: TaskInfo)
    | Scanning(purge: bool, before: seq<TaskInfo>, ticks: seq<nat>)

  /** `completed` counts the finished adds of each pid, `removed` the freed entries in order. */
  datatype State = State(now: nat, list: seq<TaskInfo>, threads: seq<Phase>,
                         completed: multiset<int>, removed: seq<TaskInfo>)

  datatype Step =
    | Tick(d: nat)
    | Lookup(t: nat, pid: int)
    | Alloc(t: nat)
    | Insert(t: nat)
    | Lock(t: nat, purge: bool)
    | Visit(t: nat)
    | Unlock(t: nat)

  ghost predicate Unlocked(s: State) {
    forall i :: 0 <= i < |s.threads| ==> !s.threads[i].Scanning?
  }

  /** How many entries the scan has kept so far: its position in the current list. */
  ghost function Kept(p: Platform, ph: Phase): nat
    requires p.ulong > 0 && ph.Scanning? && |ph.ticks| <= |ph.before|
  {
    |Split(ph.before, Keeps(p, ph.before, ph.purge, ph.ticks), |ph.ticks|, true)|
  }

  ghost predicate Enabled(p: Platform, s: State, step: Step)
    requires p.ulong > 0
  {
    match step
    case Tick(_) => true
    case Lookup(t, _) => t < |s.threads| && s.threads[t].Idle? && Unlocked(s)
    case Alloc(t) => t < |s.threads| && s.threads[t].Missed?
    case Insert(t) => t < |s.threads| && s.threads[t].Allocated? && Unlocked(s)
    case Lock(t, _) => t < |s.threads| && s.threads[t].Idle? && Unlocked(s)
    case Visit(t) =>
      && t < |s.threads| && s.threads[t].Scanning? && |s.threads[t].ticks| < |s.threads[t].before|
      && Kept(p, s.threads[t]) < |s.list|
    case Unlock(t) => t < |s.threads| && s.threads[t].Scanning? && |s.threads[t].ticks| == |s.threads[t].before|
  }

  ghost function Next(p: Platform, s: State, step: Step): State
    requires p.ulong > 0 && Enabled(p, s, step)
  {
    match step
    case Tick(d) => s.(now := s.now + d)
    case Lookup(t, pid) =>
      var i := FirstIndex(s.list, pid);
      if i < |s.list| then
        s.(list := s.list[i := Touch(p, s.list[i], s.now)], completed := s.completed + multiset{pid})
      else
        s.(threads := s.threads[t := Missed(pid)])
    case Alloc(t) => s.(threads := s.threads[t := Allocated(Fresh(p, s.threads[t].pid, s.now))])
    case Insert(t) =>
      var ti := s.threads[t].ti;
      s.(list := [ti] + s.list, threads := s.threads[t := Idle], completed := s.completed + multiset{ti.pid})
    case Lock(t, purge) => s.(threads := s.threads[t := Scanning(purge, s.list, [])])
    case Visit(t) =>
      var ph := s.threads[t];
      var i := Kept(p, ph);
      var e := s.list[i];
      var s' := s.(threads := s.threads[t := ph.(ticks := ph.ticks + [s.now])]);
      if ph.purge || Expired(p, e, s.now) then
        s'.(list := s.list[..i] + s.list[i + 1..], removed := s.removed + [e])
      else s'
    case Unlock(t) => s.(threads := s.threads[t := Idle])
  }

  ghost predicate Initial(s: State) {
    && s.list == [] && s.completed == multiset{} && s.removed == []
    && forall i :: 0 <= i < |s.threads| ==> s.threads[i].Idle?
  }

  ghost predicate Ran(p: Platform, trace: seq<State>, steps: seq<Step>, i: nat)
    requires p.ulong > 0 && |trace| == |steps| + 1 && i < |steps|
  {
    Enabled(p, trace[i], steps[i]) && trace[i + 1] == Next(p, trace[i], steps[i])
  }

  /** `trace` is a run: it starts in an initial state and step i leads from state i to state i + 1. */
  ghost predicate Execution(p: Platform, trace: seq<State>, steps: seq<Step>)
    requires p.ulong > 0
  {
    && |trace| == |steps| + 1 && Initial(trace[0])
    && forall i :: 0 <= i < |steps| ==> Ran(p, trace, steps, i)
  }

  // ---------------------------------------------------------------- counting

  /** The adder holds a node-to-be for `pid`: it missed and has not inserted yet. */
  predicate Owes(ph: Phase, pid: int) {
    (ph.Missed? && ph.pid == pid) || (ph.Allocated? && ph.ti.pid == pid)
  }

  function Pending(threads: seq<Phase>, pid: int): (n: nat)
    ensures n <= |threads|
  {
    if threads == [] then 0
    else Pending(threads[..|threads| - 1], pid) + if Owes(threads[|threads| - 1], pid) then 1 else 0
  }

  function Copies(list: seq<TaskInfo>, pid: int): nat {
    if list == [] then 0
    else Copies(list[..|list| - 1], pid) + if list[|list| - 1].pid == pid then 1 else 0
  }

  /** The adds that the entries of `pid` stand for: one for the allocation and one per hit. */
  function Weight(list: seq<TaskInfo>, pid: int): nat {
    if list == [] then 0
    else Weight(list[..|list| - 1], pid) + if list[|list| - 1].pid == pid then list[|list| - 1].hits + 1 else 0
  }

  lemma {:induction false} PendingUpdate(threads: seq<Phase>, t: nat, ph: Phase, pid: int)
    requires t < |threads|
    ensures Pending(threads[t := ph], pid) ==
      Pending(threads, pid) - (if Owes(threads[t], pid) then 1 else 0) + (if Owes(ph, pid) then 1 else 0)
  {
    var n := |threads| - 1;
    if t < n {
      assert threads[t := ph][..n] == threads[..n][t := ph];
      PendingUpdate(threads[..n], t, ph, pid);
    } else {
      assert threads[t := ph][..n] == threads[..n];
    }
  }

  lemma {:induction false} CopiesConcat(a: seq<TaskInfo>, b: seq<TaskInfo>, pid: int)
    ensures Copies(a + b, pid) == Copies(a, pid) + Copies(b, pid)
    ensures Weight(a + b, pid) == Weight(a, pid) + Weight(b, pid)
  {
    if b == [] {
      assert a + b == a;
    } else {
      assert (a + b)[..|a + b| - 1] == a + b[..|b| - 1];
      CopiesConcat(a, b[..|b| - 1], pid);
    }
  }

  lemma OneEntry(e: TaskInfo, pid: int)
    ensures Copies([e], pid) == if e.pid == pid then 1 else 0
    ensures Weight([e], pid) == if e.pid == pid then e.hits + 1 else 0
  {
    assert [e][..0] == [];
  }

  /** The effect on the counts of cutting out, replacing or putting in front one entry. */
  lemma CountsAround(list: seq<TaskInfo>, i: nat, e: TaskInfo, pid: int)
    requires i < |list|
    ensures Copies(list, pid) == Copies(list[..i] + list[i + 1..], pid) + Copies([list[i]], pid)
    ensures Weight(list, pid) == Weight(list[..i] + list[i + 1..], pid) + Weight([list[i]], pid)
    ensures Copies(list[i := e], pid) == Copies(list[..i] + list[i + 1..], pid) + Copies([e], pid)
    ensures Weight(list[i := e], pid) == Weight(list[..i] + list[i + 1..], pid) + Weight([e], pid)
  {
    var a, b := list[..i], list[i + 1..];
    assert list == a + [list[i]] + b && list[i := e] == a + [e] + b;
    CopiesConcat(a, b, pid);
    CopiesConcat(a, [list[i]], pid);
    CopiesConcat(a + [list[i]], b, pid);
    CopiesConcat(a, [e], pid);
    CopiesConcat(a + [e], b, pid);
  }

  lemma {:induction false} MissMeansNone(list: seq<TaskInfo>, pid: int)
    requires forall i :: 0 <= i < |list| ==> list[i].pid != pid
    ensures Copies(list, pid) == 0
  {
    if list != [] {
      MissMeansNone(list[..|list| - 1], pid);
    }
  }

  lemma {:induction false} TwoCopies(list: seq<TaskInfo>, i: nat, j: nat)
    requires i < j < |list| && list[i].pid == list[j].pid
    ensures Copies(list, list[i].pid) >= 2
  {
    var q := list[i].pid;
    CountsAround(list, j, list[j], q);
    CountsAround(list[..j] + list[j + 1..], i, list[i], q);
    OneEntry(list[i], q);
    OneEntry(list[j], q);
  }

  // ---------------------------------------------------------------- duplicates

  /** The sum of copies and pending adds of `pid` did not grow, or there is no copy at all. */
  ghost predicate CopiesStepped(s: State, s': State, pid: int) {
    || Copies(s'.list, pid) + Pending(s'.threads, pid) <= Copies(s.list, pid) + Pending(s.threads, pid)
    || Copies(s'.list, pid) == 0
  }

  lemma LookupCopies(p: Platform, s: State, t: nat, q: int, pid: int)
    requires p.ulong > 0 && Enabled(p, s, Lookup(t, q))
    ensures CopiesStepped(s, Next(p, s, Lookup(t, q)), pid)
  {
    var i := FirstIndex(s.list, q);
    if i < |s.list| {
      var e := Touch(p, s.list[i], s.now);
      CountsAround(s.list, i, e, pid);
      OneEntry(s.list[i], pid);
      OneEntry(e, pid);
    } else {
      PendingUpdate(s.threads, t, Missed(q), pid);
      if q == pid { MissMeansNone(s.list, pid); }
    }
  }

  lemma InsertCopies(p: Platform, s: State, t: nat, pid: int)
    requires p.ulong > 0 && Enabled(p, s, Insert(t))
    ensures CopiesStepped(s, Next(p, s, Insert(t)), pid)
  {
    PendingUpdate(s.threads, t, Idle, pid);
    CopiesConcat([s.threads[t].ti], s.list, pid);
    OneEntry(s.threads[t].ti, pid);
  }

  lemma VisitCopies(p: Platform, s: State, t: nat, pid: int)
    requires p.ulong > 0 && Enabled(p, s, Visit(t))
    ensures CopiesStepped(s, Next(p, s, Visit(t)), pid)
  {
    var ph := s.threads[t];
    PendingUpdate(s.threads, t, ph.(ticks := ph.ticks + [s.now]), pid);
    CountsAround(s.list, Kept(p, ph), s.list[Kept(p, ph)], pid);
  }

  /** One step moves the sum of copies and pending adds of `pid` up only at a miss, and then from
      a state without any copy. */
  lemma StepCopies(p: Platform, s: State, step: Step, pid: int)
    requires p.ulong > 0 && Enabled(p, s, step)
    ensures CopiesStepped(s, Next(p, s, step), pid)
  {
    match step
    case Tick(_) =>
    case Lookup(t, q) => LookupCopies(p, s, t, q, pid);
    case Alloc(t) => PendingUpdate(s.threads, t, Allocated(Fresh(p, s.threads[t].pid, s.now)), pid);
    case Insert(t) => InsertCopies(p, s, t, pid);
    case Lock(t, purge) => PendingUpdate(s.threads, t, Scanning(purge, s.list, []), pid);
    case Visit(t) => VisitCopies(p, s, t, pid);
    case Unlock(t) => PendingUpdate(s.threads, t, Idle, pid);
  }

  /** If at most `k` adds of `pid` are ever between their miss and their insertion at the same
      time, then copies and pending adds together never exceed `k`. */
  lemma {:induction false} DuplicatesBoundedByOverlap(p: Platform, trace: seq<State>, steps: seq<Step>,
                                                      pid: int, k: nat, n: nat)
    requires p.ulong > 0 && Execution(p, trace, steps) && n <= |steps|
    requires forall i :: 0 <= i <= n ==> Pending(trace[i].threads, pid) <= k
    ensures Copies(trace[n].list, pid) + Pending(trace[n].threads, pid) <= k
  {
    if n > 0 {
      assert Ran(p, trace, steps, n - 1);
      DuplicatesBoundedByOverlap(p, trace, steps, pid, k, n - 1);
      StepCopies(p, trace[n - 1], steps[n - 1], pid);
    }
  }

  /** Whatever the interleaving, T threads never produce more than T nodes for one pid. */
  lemma DuplicatesBoundedByThreads(p: Platform, trace: seq<State>, steps: seq<Step>, pid: int, n: nat)
    requires p.ulong > 0 && Execution(p, trace, steps) && n <= |steps|
    ensures Copies(trace[n].list, pid) + Pending(trace[n].threads, pid) <= |trace[0].threads|
  {
    ThreadsFixed(p, trace, steps, n);
    DuplicatesBoundedByOverlap(p, trace, steps, pid, |trace[0].threads|, n);
  }

  lemma {:induction false} ThreadsFixed(p: Platform, trace: seq<State>, steps: seq<Step>, n: nat)
    requires p.ulong > 0 && Execution(p, trace, steps) && n <= |steps|
    ensures forall i :: 0 <= i <= n ==> |trace[i].threads| == |trace[0].threads|
  {
    if n > 0 {
      assert Ran(p, trace, steps, n - 1);
      ThreadsFixed(p, trace, steps, n - 1);
    }
  }

  /** Without two overlapping adds of one pid, pids are unique. */
  lemma UniqueWithoutOverlap(p: Platform, trace: seq<State>, steps: seq<Step>, n: nat)
    requires p.ulong > 0 && Execution(p, trace, steps) && n <= |steps|
    requires forall i, pid :: 0 <= i <= n ==> Pending(trace[i].threads, pid) <= 1
    ensures forall i, j :: 0 <= i < j < |trace[n].list| ==> trace[n].list[i].pid != trace[n].list[j].pid
  {
    var list := trace[n].list;
    forall i, j | 0 <= i < j < |list| ensures list[i].pid != list[j].pid {
      if list[i].pid == list[j].pid {
        TwoCopies(list, i, j);
        DuplicatesBoundedByOverlap(p, trace, steps, list[i].pid, 1, n);
      }
    }
  }

  /** The state after `k` steps when T threads all look up `q`, then all allocate, then all insert. */
  ghost function Racing(p: Platform, T: nat, q: int, k: nat): State
    requires p.ulong > 0 && k <= 3 * T
  {
    var e := Fresh(p, q, 0);
    var inserted := if k <= 2 * T then 0 else k - 2 * T;
    State(0, seq(inserted, _ => e),
          seq(T, i => if i + 2 * T < k then Idle else if i + T < k then Allocated(e)
                      else if i < k then Missed(q) else Idle),
          multiset{}[q := inserted], [])
  }

  ghost function RacingStep(T: nat, q: int, k: nat): Step
    requires k < 3 * T
  {
    if k < T then Lookup(k, q) else if k < 2 * T then Alloc(k - T) else Insert(k - 2 * T)
  }

  lemma RacingAdvances(p: Platform, T: nat, q: int, k: nat)
    requires p.ulong > 0 && k < 3 * T
    ensures Enabled(p, Racing(p, T, q, k), RacingStep(T, q, k))
    ensures Next(p, Racing(p, T, q, k), RacingStep(T, q, k)) == Racing(p, T, q, k + 1)
  {
    var s, s' := Racing(p, T, q, k), Racing(p, T, q, k + 1);
    var r := Next(p, s, RacingStep(T, q, k));
    assert r.threads == s'.threads;
    assert r.list == s'.list;
    assert r.completed == s'.completed;
  }

  lemma {:induction false} AllCopies(list: seq<TaskInfo>, q: int)
    requires forall i :: 0 <= i < |list| ==> list[i].pid == q
    ensures Copies(list, q) == |list|
  {
    if list != [] {
      AllCopies(list[..|list| - 1], q);
    }
  }

  /** The bound is attained: for every T there is a run in which T threads leave T nodes for one pid. */
  lemma BoundIsAttained(p: Platform, T: nat, q: int) returns (trace: seq<State>, steps: seq<Step>)
    requires p.ulong > 0
    ensures Execution(p, trace, steps) && |trace[0].threads| == T
    ensures Copies(trace[|steps|].list, q) == T
  {
    trace := seq(3 * T + 1, k requires 0 <= k <= 3 * T => Racing(p, T, q, k));
    steps := seq(3 * T, k requires 0 <= k < 3 * T => RacingStep(T, q, k));
    RacingExecutes(p, T, q, trace, steps);
    AllCopies(Racing(p, T, q, 3 * T).list, q);
  }

  lemma RacingExecutes(p: Platform, T: nat, q: int, trace: seq<State>, steps: seq<Step>)
    requires p.ulong > 0 && |trace| == 3 * T + 1 && |steps| == 3 * T
    requires forall k :: 0 <= k <= 3 * T ==> trace[k] == Racing(p, T, q, k)
    requires forall k :: 0 <= k < 3 * T ==> steps[k] == RacingStep(T, q, k)
    ensures Execution(p, trace, steps)
  {
    forall i | 0 <= i < |steps| ensures Ran(p, trace, steps, i) {
      RacingAdvances(p, T, q, i);
    }
    assert Initial(Racing(p, T, q, 0));
  }

  // ---------------------------------------------------------------- conservation

  ghost predicate Conserved(s: State, pid: int) {
    s.completed[pid] == Weight(s.list, pid) + Weight(s.removed, pid)
  }

  /** An entry that is not linked yet has not been hit. */
  ghost predicate Unhit(s: State) {
    forall t :: 0 <= t < |s.threads| && s.threads[t].Allocated? ==> s.threads[t].ti.hits == 0
  }

  lemma LookupConserves(p: Platform, s: State, t: nat, q: int, pid: int)
    requires p.ulong > 0 && Enabled(p, s, Lookup(t, q)) && Conserved(s, pid)
    ensures Conserved(Next(p, s, Lookup(t, q)), pid)
  {
    var i := FirstIndex(s.list, q);
    if i < |s.list| {
      var e := Touch(p, s.list[i], s.now);
      CountsAround(s.list, i, e, pid);
      OneEntry(s.list[i], pid);
      OneEntry(e, pid);
    }
  }

  lemma InsertConserves(p: Platform, s: State, t: nat, pid: int)
    requires p.ulong > 0 && Enabled(p, s, Insert(t)) && Conserved(s, pid) && Unhit(s)
    ensures Conserved(Next(p, s, Insert(t)), pid)
  {
    CopiesConcat([s.threads[t].ti], s.list, pid);
    OneEntry(s.threads[t].ti, pid);
  }

  lemma VisitConserves(p: Platform, s: State, t: nat, pid: int)
    requires p.ulong > 0 && Enabled(p, s, Visit(t)) && Conserved(s, pid)
    ensures Conserved(Next(p, s, Visit(t)), pid)
  {
    var i := Kept(p, s.threads[t]);
    var e := s.list[i];
    CountsAround(s.list, i, e, pid);
    CopiesConcat(s.removed, [e], pid);
  }

  lemma StepConserves(p: Platform, s: State, step: Step, pid: int)
    requires p.ulong > 0 && Enabled(p, s, step) && Conserved(s, pid) && Unhit(s)
    ensures Conserved(Next(p, s, step), pid)
  {
    match step
    case Lookup(t, q) => LookupConserves(p, s, t, q, pid);
    case Insert(t) => InsertConserves(p, s, t, pid);
    case Visit(t) => VisitConserves(p, s, t, pid);
    case _ =>
  }

  lemma StepKeepsUnhit(p: Platform, s: State, step: Step)
    requires p.ulong > 0 && Enabled(p, s, step) && Unhit(s)
    ensures Unhit(Next(p, s, step))
  {
  }

  /** No add is lost or counted twice, duplicates or not: the completed adds of a pid are the
      allocations and hits of its live entries and of those already freed. */
  lemma {:induction false} AddsConserved(p: Platform, trace: seq<State>, steps: seq<Step>, pid: int, n: nat)
    requires p.ulong > 0 && Execution(p, trace, steps) && n <= |steps|
    ensures Conserved(trace[n], pid) && Unhit(trace[n])
  {
    if n > 0 {
      assert Ran(p, trace, steps, n - 1);
      AddsConserved(p, trace, steps, pid, n - 1);
      StepConserves(p, trace[n - 1], steps[n - 1], pid);
      StepKeepsUnhit(p, trace[n - 1], steps[n - 1]);
    }
  }

  // ---------------------------------------------------------------- traversals

  /** A scan in progress: the visited part of the list it locked is split by its decisions, the
      rest is untouched, and jiffies never moved backwards between its reads. */
  ghost predicate ScanOk(p: Platform, s: State, ph: Phase)
    requires p.ulong > 0
  {
    ph.Scanning? ==>
      && |ph.ticks| <= |ph.before|
      && s.list == Split(ph.before, Keeps(p, ph.before, ph.purge, ph.ticks), |ph.ticks|, true) + ph.before[|ph.ticks|..]
      && AllTouched(p, ph.before, s.now)
      && ReadsOk(ph.before, ph.ticks, s.now)
  }

  /** The first read of jiffies is no earlier than any refresh of the scanned entries, the last is the
      latest and not in the future, and the others lie between them. */
  ghost predicate ReadsOk(before: seq<TaskInfo>, ticks: seq<nat>, now: nat) {
    |ticks| > 0 ==>
      && ticks[|ticks| - 1] <= now
      && (forall k :: 0 <= k < |ticks| ==> ticks[0] <= ticks[k] <= ticks[|ticks| - 1])
      && (forall j :: 0 <= j < |before| ==> before[j].touched <= ticks[0])
  }

  lemma ReadAgain(p: Platform, before: seq<TaskInfo>, ticks: seq<nat>, now: nat)
    requires p.ulong > 0 && ReadsOk(before, ticks, now) && AllTouched(p, before, now)
    ensures ReadsOk(before, ticks + [now], now)
  {
  }

  ghost predicate AllTouched(p: Platform, list: seq<TaskInfo>, now: nat)
    requires p.ulong > 0
  {
    forall i :: 0 <= i < |list| ==> list[i].Coherent(p) && list[i].touched <= now
  }

  ghost predicate EntriesOk(p: Platform, s: State)
    requires p.ulong > 0
  {
    && AllTouched(p, s.list, s.now)
    && (forall t :: 0 <= t < |s.threads| && s.threads[t].Allocated? ==> AllTouched(p, [s.threads[t].ti], s.now))
  }

  ghost predicate OneScan(s: State) {
    forall t, u ::
      0 <= t < |s.threads| && 0 <= u < |s.threads| && s.threads[t].Scanning? && s.threads[u].Scanning? ==> t == u
  }

  ghost predicate ScansOk(p: Platform, s: State)
    requires p.ulong > 0
  {
    forall t :: 0 <= t < |s.threads| ==> ScanOk(p, s, s.threads[t])
  }

  ghost predicate Inv(p: Platform, s: State)
    requires p.ulong > 0
  {
    EntriesOk(p, s) && OneScan(s) && ScansOk(p, s)
  }

  /** The lock holder can always go on: the bound in Enabled never blocks it. */
  lemma VisitInBounds(p: Platform, s: State, t: nat)
    requires p.ulong > 0 && ScansOk(p, s) && t < |s.threads| && s.threads[t].Scanning?
    ensures |s.threads[t].ticks| <= |s.threads[t].before|
    ensures |s.threads[t].ticks| < |s.threads[t].before| <==> Enabled(p, s, Visit(t))
    ensures |s.threads[t].ticks| == |s.threads[t].before| <==> Enabled(p, s, Unlock(t))
    ensures Enabled(p, s, Visit(t)) ==> s.list[Kept(p, s.threads[t])] == s.threads[t].before[|s.threads[t].ticks|]
  {
    assert ScanOk(p, s, s.threads[t]);
  }

  lemma VisitKeepsScan(p: Platform, s: State, t: nat)
    requires p.ulong > 0 && ScansOk(p, s) && Enabled(p, s, Visit(t))
    ensures ScanOk(p, Next(p, s, Visit(t)), Next(p, s, Visit(t)).threads[t])
  {
    var ph := s.threads[t];
    assert ScanOk(p, s, ph);
    VisitKeepsList(p, s, t);
    ReadAgain(p, ph.before, ph.ticks, s.now);
  }

  lemma VisitKeepsList(p: Platform, s: State, t: nat)
    requires p.ulong > 0 && ScansOk(p, s) && Enabled(p, s, Visit(t))
    ensures var ph, s' := s.threads[t], Next(p, s, Visit(t));
      var ticks := ph.ticks + [s.now];
      && s'.threads[t] == ph.(ticks := ticks) && s'.now == s.now
      && s'.list == Split(ph.before, Keeps(p, ph.before, ph.purge, ticks), |ticks|, true) + ph.before[|ticks|..]
  {
    assert ScanOk(p, s, s.threads[t]);
    VisitInBounds(p, s, t);
    VisitSplits(p, s.threads[t], s.now);
  }

  /** One more visit at tick `now`: the list loses the visited entry exactly if it is not kept. */
  lemma VisitSplits(p: Platform, ph: Phase, now: nat)
    requires p.ulong > 0 && ph.Scanning? && |ph.ticks| < |ph.before|
    ensures var k := |ph.ticks|;
      var kept := Split(ph.before, Keeps(p, ph.before, ph.purge, ph.ticks), k, true);
      var list := kept + ph.before[k..];
      Split(ph.before, Keeps(p, ph.before, ph.purge, ph.ticks + [now]), k + 1, true) + ph.before[k + 1..] ==
        if ph.purge || Expired(p, ph.before[k], now) then list[..|kept|] + list[|kept| + 1..] else list
  {
    var k, keep := |ph.ticks|, Keeps(p, ph.before, ph.purge, ph.ticks);
    var keep' := Keeps(p, ph.before, ph.purge, ph.ticks + [now]);
    SplitSameMarks(ph.before, keep, keep', k, true);
    TakeNext(Split(ph.before, keep, k, true), ph.before, k);
    CutNext(Split(ph.before, keep, k, true), ph.before, k);
  }

  lemma StepKeepsEntries(p: Platform, s: State, step: Step)
    requires p.ulong > 0 && EntriesOk(p, s) && Enabled(p, s, step)
    ensures EntriesOk(p, Next(p, s, step))
  {
    var s' := Next(p, s, step);
    match step
    case Lookup(t, q) =>
      var i := FirstIndex(s.list, q);
      if i < |s.list| { TouchCoherent(p, s.list[i], s.now); }
    case Insert(t) =>
      assert [s.threads[t].ti][0] == s.threads[t].ti;
    case Tick(d) =>
      forall t | 0 <= t < |s'.threads| && s'.threads[t].Allocated? ensures AllTouched(p, [s'.threads[t].ti], s'.now) {
        assert AllTouched(p, [s.threads[t].ti], s.now);
      }
    case _ =>
  }

  lemma StepKeepsOneScan(p: Platform, s: State, step: Step)
    requires p.ulong > 0 && OneScan(s) && Enabled(p, s, step)
    ensures OneScan(Next(p, s, step))
  {
  }

  lemma StepKeepsScans(p: Platform, s: State, step: Step)
    requires p.ulong > 0 && Inv(p, s) && Enabled(p, s, step)
    ensures ScansOk(p, Next(p, s, step))
  {
    var s' := Next(p, s, step);
    forall u | 0 <= u < |s'.threads| ensures ScanOk(p, s', s'.threads[u]) {
      assert ScanOk(p, s, s.threads[u]);
      if s'.threads[u].Scanning? {
        match step
        case Tick(_) =>
        case Alloc(_) =>
        case Lock(t, purge) => assert u == t;
        case Visit(t) =>
          assert u == t;
          VisitKeepsScan(p, s, t);
        case _ => assert false;
      }
    }
  }

  lemma StepKeepsInv(p: Platform, s: State, step: Step)
    requires p.ulong > 0 && Inv(p, s) && Enabled(p, s, step)
    ensures Inv(p, Next(p, s, step))
  {
    StepKeepsEntries(p, s, step);
    StepKeepsOneScan(p, s, step);
    StepKeepsScans(p, s, step);
  }

  lemma {:induction false} InvAlways(p: Platform, trace: seq<State>, steps: seq<Step>, n: nat)
    requires p.ulong > 0 && Execution(p, trace, steps) && n <= |steps|
    ensures Inv(p, trace[n])
  {
    if n > 0 {
      assert Ran(p, trace, steps, n - 1);
      InvAlways(p, trace, steps, n - 1);
      StepKeepsInv(p, trace[n - 1], steps[n - 1]);
    }
  }

  /** What a traversal has done when it is about to unlock: the list is the kept subsequence of the
      list it locked, in order and untouched, and a purge has emptied it. */
  lemma TraversalOutcome(p: Platform, trace: seq<State>, steps: seq<Step>, n: nat, t: nat)
    requires p.Sane() && Execution(p, trace, steps) && n <= |steps|
    requires Enabled(p, trace[n], Unlock(t))
    ensures var ph := trace[n].threads[t];
      && trace[n].list == Split(ph.before, Keeps(p, ph.before, ph.purge, ph.ticks), |ph.before|, true)
      && (ph.purge ==> trace[n].list == [])
  {
    InvAlways(p, trace, steps, n);
    var ph := trace[n].threads[t];
    assert ScanOk(p, trace[n], ph);
    var kept := Split(ph.before, Keeps(p, ph.before, ph.purge, ph.ticks), |ph.before|, true);
    assert kept + ph.before[|ph.ticks|..] == kept;
    if ph.purge {
      AllDropped(ph.before, Keeps(p, ph.before, ph.purge, ph.ticks), |ph.before|);
    }
  }

  /** A run goes on by any step that is enabled at its end. */
  lemma Extend(p: Platform, trace: seq<State>, steps: seq<Step>, step: Step)
    returns (trace': seq<State>, steps': seq<Step>)
    requires p.ulong > 0 && Execution(p, trace, steps) && Enabled(p, trace[|steps|], step)
    ensures Execution(p, trace', steps') && steps' == steps + [step]
    ensures trace' == trace + [Next(p, trace[|steps|], step)]
  {
    trace', steps' := trace + [Next(p, trace[|steps|], step)], steps + [step];
    forall i | 0 <= i < |steps'| ensures Ran(p, trace', steps', i) {
      assert i < |steps| ==> Ran(p, trace, steps, i);
    }
  }

  // ---------------------------------------------------------------- retention

  /** This step completes an add of `pid` that read jiffies at tick `u` or later. */
  ghost predicate CompletesAdd(p: Platform, s: State, step: Step, pid: int, u: nat) {
    || (step.Lookup? && step.pid == pid && FirstIndex(s.list, pid) < |s.list| && u <= s.now)
    || (step.Insert? && step.t < |s.threads| && s.threads[step.t].Allocated? &&
        s.threads[step.t].ti.pid == pid && u <= s.threads[step.t].ti.touched)
  }

  ghost predicate PurgeVisit(s: State, step: Step) {
    step.Visit? && step.t < |s.threads| && s.threads[step.t].Scanning? && s.threads[step.t].purge
  }

  lemma VisitKeepsRecent(p: Platform, s: State, t: nat, i: nat, u: nat)
    requires p.Sane() && EntriesOk(p, s) && Enabled(p, s, Visit(t)) && !s.threads[t].purge
    requires i < |s.list| && s.list[i].touched >= u && s.now <= u + 3 * p.hz
    ensures Listed(Next(p, s, Visit(t)).list, s.list[i].pid, u)
  {
    var k, e, s' := Kept(p, s.threads[t]), s.list[i], Next(p, s, Visit(t));
    AgeAcrossRollover(p, e, s.now);
    assert !Expired(p, e, s.now);
    if k == i {
      assert s'.list[i] == e;
    } else {
      CutSpares(s.list, k, i);
      assert s'.list[if s'.list == s.list then i else if i < k then i else i - 1] == e;
    }
  }

  lemma CutSpares(list: seq<TaskInfo>, k: nat, i: nat)
    requires k < |list| && i < |list| && i != k
    ensures var j := if i < k then i else i - 1; (list[..k] + list[k + 1..])[j] == list[i]
  {
  }

  lemma StepKeepsRecent(p: Platform, s: State, step: Step, pid: int, u: nat)
    requires p.Sane() && EntriesOk(p, s) && Enabled(p, s, step) && !PurgeVisit(s, step)
    requires Listed(s.list, pid, u) && s.now <= u + 3 * p.hz
    ensures Listed(Next(p, s, step).list, pid, u)
  {
    var s' := Next(p, s, step);
    var i :| 0 <= i < |s.list| && s.list[i].pid == pid && s.list[i].touched >= u;
    match step
    case Insert(t) =>
      assert s'.list[i + 1] == s.list[i];
    case Visit(t) =>
      VisitKeepsRecent(p, s, t, i, u);
    case _ =>
      assert s'.list[i].pid == pid && s'.list[i].touched >= u;
  }

  lemma CompletionIsRecent(p: Platform, s: State, step: Step, pid: int, u: nat)
    requires p.ulong > 0 && Enabled(p, s, step) && CompletesAdd(p, s, step, pid, u)
    ensures Listed(Next(p, s, step).list, pid, u)
  {
    var e := Next(p, s, step).list[if step.Lookup? then FirstIndex(s.list, pid) else 0];
    assert e.pid == pid && e.touched >= u;
  }

  lemma StepKeepsTime(p: Platform, s: State, step: Step)
    requires p.ulong > 0 && Enabled(p, s, step)
    ensures s.now <= Next(p, s, step).now
  {
  }

  /** An add protects its pid: for 3 * HZ ticks from `u` nothing but a purge can take away every
      entry of a pid whose add read jiffies at `u` or later, whatever other threads do. */
  lemma {:induction false} RetainedAfterAdd(p: Platform, trace: seq<State>, steps: seq<Step>,
                                            pid: int, u: nat, c: nat, n: nat)
    requires p.Sane() && Execution(p, trace, steps) && c < n <= |steps|
    requires CompletesAdd(p, trace[c], steps[c], pid, u)
    requires forall i :: c < i < n ==> !PurgeVisit(trace[i], steps[i])
    requires trace[n].now <= u + 3 * p.hz
    ensures Listed(trace[n].list, pid, u)
  {
    assert Ran(p, trace, steps, n - 1);
    if n == c + 1 {
      CompletionIsRecent(p, trace[c], steps[c], pid, u);
    } else {
      InvAlways(p, trace, steps, n - 1);
      StepKeepsTime(p, trace[n - 1], steps[n - 1]);
      RetainedAfterAdd(p, trace, steps, pid, u, c, n - 1);
      StepKeepsRecent(p, trace[n - 1], steps[n - 1], pid, u);
    }
  }

  /** Thread `t` ran task_info_add_to_list(pid): its lookup is step `b`, and it completes at step `c`, which is
      the same step on a hit. */
  ghost predicate AddRan(p: Platform, trace: seq<State>, steps: seq<Step>, t: nat, pid: int, b: nat, c: nat)
    requires p.ulong > 0 && |trace| == |steps| + 1
  {
    && b <= c < |steps| && steps[b] == Lookup(t, pid)
    && if FirstIndex(trace[b].list, pid) < |trace[b].list| then c == b
       else b < c && steps[c] == Insert(t) && forall i :: b < i < c ==> steps[i] != Insert(t)
  }

  /** A thread that missed at step `b` keeps its pid, and what it allocates is stamped no earlier than that. */
  lemma {:induction false} MissCarriesPid(p: Platform, trace: seq<State>, steps: seq<Step>, t: nat, b: nat, n: nat)
    requires p.ulong > 0 && Execution(p, trace, steps) && b < n <= |steps|
    requires steps[b].Lookup? && steps[b].t == t && FirstIndex(trace[b].list, steps[b].pid) == |trace[b].list|
    requires forall i :: b < i < n ==> steps[i] != Insert(t)
    ensures t < |trace[n].threads| && trace[b].now <= trace[n].now
    ensures trace[n].threads[t] == Missed(steps[b].pid) ||
      (trace[n].threads[t].Allocated? && trace[n].threads[t].ti.pid == steps[b].pid
        && trace[b].now <= trace[n].threads[t].ti.touched)
  {
    assert Ran(p, trace, steps, n - 1);
    if b < n - 1 {
      MissCarriesPid(p, trace, steps, t, b, n - 1);
    }
  }

  lemma {:induction false} TimeMonotone(p: Platform, trace: seq<State>, steps: seq<Step>, a: nat, n: nat)
    requires p.ulong > 0 && Execution(p, trace, steps) && a <= n <= |steps|
    ensures trace[a].now <= trace[n].now
  {
    if a < n {
      assert Ran(p, trace, steps, n - 1);
      TimeMonotone(p, trace, steps, a, n - 1);
      StepKeepsTime(p, trace[n - 1], steps[n - 1]);
    }
  }

  lemma CallCompletes(p: Platform, trace: seq<State>, steps: seq<Step>, t: nat, pid: int, a: nat, b: nat, c: nat)
    requires p.ulong > 0 && Execution(p, trace, steps) && AddRan(p, trace, steps, t, pid, b, c) && a <= b
    ensures CompletesAdd(p, trace[c], steps[c], pid, trace[a].now)
  {
    TimeMonotone(p, trace, steps, a, b);
    if b < c {
      assert Ran(p, trace, steps, c);
      MissCarriesPid(p, trace, steps, t, b, c);
    }
  }

  /** A task_info_add_for_current that starts at step `a`, followed within 3 * HZ ticks by any number of expiry
      scans, leaves all of its pids in the list, whatever other threads add meanwhile; the add of `pids[j]` runs
      from step `from[j]` to step `to[j]`. */
  lemma AddForCurrentRetained(p: Platform, trace: seq<State>, steps: seq<Step>, t: nat,
                              pids: seq<int>, from: seq<nat>, to: seq<nat>, a: nat, n: nat)
    requires p.Sane() && Execution(p, trace, steps) && a < n <= |steps| && |pids| == |from| == |to|
    requires forall j :: 0 <= j < |pids| ==>
      a <= from[j] && to[j] < n && AddRan(p, trace, steps, t, pids[j], from[j], to[j])
    requires forall i :: a <= i < n ==> !PurgeVisit(trace[i], steps[i])
    requires trace[n].now <= trace[a].now + 3 * p.hz
    ensures forall j :: 0 <= j < |pids| ==> Listed(trace[n].list, pids[j], trace[a].now)
  {
    forall j | 0 <= j < |pids| ensures Listed(trace[n].list, pids[j], trace[a].now) {
      CallCompletes(p, trace, steps, t, pids[j], a, from[j], to[j]);
      RetainedAfterAdd(p, trace, steps, pids[j], trace[a].now, to[j], n);
    }
  }

  /** Undisturbed, the steps of one task_info_add_to_list do to the list what TaskTable.AddToList does. */
  lemma UndisturbedAdd(p: Platform, s: State, t: nat, pid: int, d: nat)
    requires p.ulong > 0 && t < |s.threads| && s.threads[t].Idle? && Unlocked(s)
    ensures Enabled(p, s, Lookup(t, pid))
    ensures var s1 := Next(p, s, Lookup(t, pid));
      if s1.threads[t].Missed? then
        var s2 := Next(p, s1, Tick(d));
        && Enabled(p, s2, Alloc(t)) && Enabled(p, Next(p, s2, Alloc(t)), Insert(t))
        && var s3 := Next(p, Next(p, s2, Alloc(t)), Insert(t));
        s3.list == AddTo(p, s.list, pid, s.now, s.now + d) && s3.threads == s.threads
      else
        s1.list == AddTo(p, s.list, pid, s.now, s.now + d) && s1.threads == s.threads
  {
  }
}
