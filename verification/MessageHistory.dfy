/** The ioctls of the message device, told by the steps of the run: which calls come in, what each of them takes out,
    and that what a GET_MSG reads is the latest string of the SET_MSG calls themselves.
 */
module MessageHistory {
  import opened MessageBuffer
  import opened Prelude
  import opened TryLock
  import opened MessageDevice
  import opened MessageRuns

  // ---------------------------------------------------------------- entering

  /** An ioctl of an idle thread comes in, to do its work, exactly if no thread is inside; otherwise it is busy. */
  lemma IoctlsEnter(s: State, t: nat, user: seq<Byte>, n: nat)
    requires Exclusive(s) && t < |s.threads| && s.threads[t].Idle? && Readable(user) && n <= BUF_LEN
    ensures SetLength(user) <= |user|
    ensures var free := forall u :: 0 <= u < |s.threads| ==> !Inside(s.threads[u]);
      if free then
        && Enabled(s, EnterSet(t, user)) && Enabled(s, EnterGet(t)) && Enabled(s, EnterNth(t, n))
        && Enabled(s, EnterOther(t)) && !Enabled(s, EnterBusy(t))
      else
        && !Enabled(s, EnterSet(t, user)) && !Enabled(s, EnterGet(t)) && !Enabled(s, EnterNth(t, n))
        && !Enabled(s, EnterOther(t)) && Enabled(s, EnterBusy(t)) && Next(s, EnterBusy(t)) == s
  {
    ReadableLength(user);
    if u :| 0 <= u < |s.threads| && Inside(s.threads[u]) {
      assert Holders(s)[u];
    }
  }

  /** Where a call that came in by `enter` can be. */
  ghost predicate CallPhase(enter: Step, ph: Phase) {
    match enter
    case EnterSet(_, user) =>
      (ph.Writing? && ph.caller.Locked? && ph.user == user && ph.n == SetLength(user)) || ph == Leaving(Nothing)
    case EnterGet(_) =>
      || (ph.Testing? && ph.caller.Locked? && ph.start == 0)
      || (ph.Copying? && ph.caller.Locked? && ph.start == 0)
      || (ph.Putting? && ph.caller.Locked? && ph.start == 0)
      || (ph.Leaving? && ph.outcome.Text?)
    case EnterNth(_, n) => ph == Fetching(n) || (ph.Leaving? && ph.outcome.NthByte? && ph.outcome.n == n)
    case EnterOther(_) => ph == Leaving(Nothing)
    case _ => false
  }

  lemma CallStep(s: State, step: Step, t: nat, enter: Step)
    requires Enabled(s, step) && t < |s.threads| && CallPhase(enter, s.threads[t]) && step != Leave(t)
    ensures t < |Next(s, step).threads| && CallPhase(enter, Next(s, step).threads[t])
  {
    OthersStay(s, step);
  }

  /** Thread `t` came in at step `a` and has not left before step `n`. */
  ghost predicate Calling(trace: seq<State>, steps: seq<Step>, t: nat, a: nat, n: nat) {
    && Execution(trace, steps) && a < n <= |steps| && Enters(steps[a]) && steps[a].t == t
    && forall i :: a < i < n ==> steps[i] != Leave(t)
  }

  lemma {:induction false} CallGoesOn(trace: seq<State>, steps: seq<Step>, t: nat, a: nat, n: nat)
    requires Calling(trace, steps, t, a, n)
    ensures t < |trace[n].threads| && CallPhase(steps[a], trace[n].threads[t])
  {
    assert Ran(trace, steps, n - 1);
    if a + 1 < n {
      CallGoesOn(trace, steps, t, a, n - 1);
      CallStep(trace[n - 1], steps[n - 1], t, steps[a]);
    }
  }

  // ---------------------------------------------------------------- the strings that were set

  /** The strings of the SET_MSG calls that came in, in order. */
  function Sets(steps: seq<Step>): seq<seq<Byte>> {
    if steps == [] then []
    else
      var front, step := Sets(steps[..|steps| - 1]), steps[|steps| - 1];
      if step.EnterSet? then front + [step.user] else front
  }

  predicate Setter(ph: Phase) {
    ph.Writing? && ph.caller.Locked?
  }

  /** The completed SET_MSG strings are those of all calls in `h`, without the one that is still writing. */
  ghost predicate Recorded(s: State, h: seq<seq<Byte>>) {
    && (forall t :: 0 <= t < |s.threads| && Setter(s.threads[t]) ==> h == s.sets + [s.threads[t].user])
    && ((forall t :: 0 <= t < |s.threads| ==> !Setter(s.threads[t])) ==> h == s.sets)
  }

  lemma NobodyInside(s: State)
    requires Exclusive(s) && !s.inUse
    ensures forall t :: 0 <= t < |s.threads| ==> !Inside(s.threads[t])
  {
    forall t | 0 <= t < |s.threads| ensures !Inside(s.threads[t]) {
      assert !Holders(s)[t];
    }
  }

  lemma OnlyOneInside(s: State, t: nat)
    requires Exclusive(s) && t < |s.threads| && Inside(s.threads[t])
    ensures forall u :: 0 <= u < |s.threads| && u != t ==> !Inside(s.threads[u])
  {
    forall u | 0 <= u < |s.threads| && u != t ensures !Inside(s.threads[u]) {
      assert Holders(s)[t];
      assert !Holders(s)[u];
    }
  }

  /** Only the cmpxchg of a SET_MSG makes a setter, and only its last byte completes one. */
  lemma SetterSteps(s: State, step: Step)
    requires Enabled(s, step)
    ensures var s' := Next(s, step); var ph, ph' := s.threads[step.t], s'.threads[step.t];
      && (Setter(ph') <==> step.EnterSet? || (Setter(ph) && !step.EndWrite?))
      && (step.EnterSet? ==> ph'.user == step.user) && (Setter(ph) && Setter(ph') ==> ph'.user == ph.user)
      && s'.sets == s.sets + if Setter(ph) && step.EndWrite? then [ph.user] else []
  {
  }

  lemma StepRecords(s: State, step: Step, h: seq<seq<Byte>>)
    requires Exclusive(s) && Enabled(s, step) && Recorded(s, h)
    ensures Recorded(Next(s, step), if step.EnterSet? then h + [step.user] else h)
  {
    var s' := Next(s, step);
    OthersStay(s, step);
    SetterSteps(s, step);
    if Enters(step) {
      NobodyInside(s);
    } else if Setter(s.threads[step.t]) {
      OnlyOneInside(s, step.t);
    } else {
      forall u | 0 <= u < |s.threads| ensures Setter(s.threads[u]) == Setter(s'.threads[u]) {
      }
    }
  }

  lemma {:induction false} SetsRecorded(trace: seq<State>, steps: seq<Step>, n: nat)
    requires Execution(trace, steps) && n <= |steps|
    ensures Recorded(trace[n], Sets(steps[..n]))
  {
    if n > 0 {
      assert Ran(trace, steps, n - 1);
      SetsRecorded(trace, steps, n - 1);
      MutualExclusion(trace, steps, n - 1);
      StepRecords(trace[n - 1], steps[n - 1], Sets(steps[..n - 1]));
      assert steps[..n][..n - 1] == steps[..n - 1];
    }
  }

  /** While a thread inside does not write, all SET_MSG calls that came in are complete. */
  lemma AllSetsComplete(trace: seq<State>, steps: seq<Step>, n: nat, t: nat)
    requires Execution(trace, steps) && n <= |steps| && t < |trace[n].threads|
    requires Inside(trace[n].threads[t]) && !Setter(trace[n].threads[t])
    ensures trace[n].sets == Sets(steps[..n])
  {
    SetsRecorded(trace, steps, n);
    MutualExclusion(trace, steps, n);
    OnlyOneInside(trace[n], t);
  }

  /** What the ioctl that is about to leave has done and takes out, when nobody writes plainly: a SET_MSG has stored its
      string as the latest one, a GET_MSG has read the latest string of the SET_MSG calls that came in, a GET_NTH_BYTE
      its byte of it, and an unknown command nothing. */
  lemma IoctlReturns(trace: seq<State>, steps: seq<Step>, t: nat, a: nat, n: nat)
    requires Calling(trace, steps, t, a, n) && n < |steps| && steps[n] == Leave(t)
    requires forall i :: 0 <= i < n ==> !steps[i].StartWrite?
    ensures t < |trace[n].threads| && trace[n].threads[t].Leaving?
    ensures var s, outcome, value := trace[n], trace[n].threads[t].outcome, Latest(trace[n].initial, Sets(steps[..n]));
      && Str(s.message) == value
      && match steps[a]
         case EnterSet(_, user) => outcome == Nothing
         case EnterGet(_) => outcome == Text(value)
         case EnterNth(_, k) => outcome.NthByte? && outcome.n == k && NthOf(value, k, outcome.c)
         case _ => outcome == Nothing
  {
    assert Ran(trace, steps, n);
    CallGoesOn(trace, steps, t, a, n);
    AllSetsComplete(trace, steps, n, t);
    LinearAlways(trace, steps, n);
    assert PhaseHolds(trace[n], trace[n].threads[t]);
  }

  lemma {:induction false} NobodyElseSets(trace: seq<State>, steps: seq<Step>, t: nat, a: nat, n: nat)
    requires Calling(trace, steps, t, a, n)
    ensures Sets(steps[..n]) == Sets(steps[..a]) + if steps[a].EnterSet? then [steps[a].user] else []
  {
    assert Ran(trace, steps, n - 1);
    assert steps[..n][..n - 1] == steps[..n - 1];
    if a + 1 < n {
      NobodyElseSets(trace, steps, t, a, n - 1);
      CallGoesOn(trace, steps, t, a, n - 1);
      MutualExclusion(trace, steps, n - 1);
      assert Holders(trace[n - 1])[t];
    }
  }

  /** A SET_MSG, from its cmpxchg to its atomic_set: the message becomes its string cut to 80 characters, and stays what
      the calls before it had left if the string is empty. */
  lemma SetTakesEffect(trace: seq<State>, steps: seq<Step>, t: nat, a: nat, n: nat)
    requires Calling(trace, steps, t, a, n) && n < |steps| && steps[n] == Leave(t) && steps[a].EnterSet?
    requires forall i :: 0 <= i < n ==> !steps[i].StartWrite?
    ensures Str(trace[n + 1].message) == Stored(Latest(trace[a].initial, Sets(steps[..a])), steps[a].user)
  {
    IoctlReturns(trace, steps, t, a, n);
    NobodyElseSets(trace, steps, t, a, n);
    InitialKept(trace, steps, a, n);
    assert Ran(trace, steps, n);
    var h := Sets(steps[..a]);
    assert (h + [steps[a].user])[..|h|] == h;
  }

  lemma {:induction false} InitialKept(trace: seq<State>, steps: seq<Step>, a: nat, n: nat)
    requires Execution(trace, steps) && a <= n <= |steps|
    ensures trace[n].initial == trace[a].initial
  {
    if a < n {
      assert Ran(trace, steps, n - 1);
      InitialKept(trace, steps, a, n - 1);
    }
  }
}
