/** Every run of opens, reads and releases by any number of processes on the greeting device. */
module GreeterRuns {
  import opened MessageBuffer
  import opened Prelude
  import opened TryLock
  import opened Greeter

  /** Opening: between the cmpxchg and the sprintf of device_open.  Opened: `n` successful opens went before;
      `pass` is what the file's reads returned since the last end of file, `passes` the completed passes. */
  datatype Proc =
    | Closed
    | Opening
    | Opened(n: nat, offset: nat, pass: seq<Byte>, passes: seq<seq<Byte>>)

  datatype State = State(inUse: bool, counter: int, msg: seq<Byte>, procs: seq<Proc>, opens: nat)

  datatype Step = TryOpen(p: nat) | Sprintf(p: nat) | Read(p: nat, length: nat) | Release(p: nat)

  ghost predicate Enabled(s: State, step: Step) {
    step.p < |s.procs| &&
    match step
    case TryOpen(p) => s.procs[p].Closed?
    case Sprintf(p) => s.procs[p].Opening? && |Greeting(s.counter)| < |s.msg|
    case Read(p, _) => s.procs[p].Opened? && s.procs[p].offset < |s.msg|
    case Release(p) => s.procs[p].Opened?
  }

  ghost function Next(s: State, step: Step): State
    requires Enabled(s, step)
  {
    match step
    case TryOpen(p) => if s.inUse then s else s.(inUse := true, procs := s.procs[p := Opening])
    case Sprintf(p) =>
      s.(msg := Format(s.msg, s.counter), counter := Int32(s.counter + 1),
         procs := s.procs[p := Opened(s.opens, 0, [], [])], opens := s.opens + 1)
    case Read(p, length) =>
      var f := s.procs[p];
      var (out, offset) := ReadAt(s.msg, f.offset, length);
      s.(procs := s.procs[p :=
        if s.msg[f.offset] == 0 then Opened(f.n, offset, [], f.passes + [f.pass])
        else Opened(f.n, offset, f.pass + out, f.passes)])
    case Release(p) => s.(inUse := false, procs := s.procs[p := Closed])
  }

  ghost predicate Initial(s: State) {
    !s.inUse && s.counter == 0 && Sealed(s.msg) && s.opens == 0 && forall p :: 0 <= p < |s.procs| ==> s.procs[p].Closed?
  }

  ghost predicate Ran(trace: seq<State>, steps: seq<Step>, i: nat)
    requires |trace| == |steps| + 1 && i < |steps|
  {
    Enabled(trace[i], steps[i]) && trace[i + 1] == Next(trace[i], steps[i])
  }

  ghost predicate Execution(trace: seq<State>, steps: seq<Step>) {
    |trace| == |steps| + 1 && Initial(trace[0]) && forall i :: 0 <= i < |steps| ==> Ran(trace, steps, i)
  }

  ghost function Inside(s: State): (r: seq<bool>)
    ensures |r| == |s.procs| && forall p :: 0 <= p < |s.procs| ==> r[p] == !s.procs[p].Closed?
  {
    seq(|s.procs|, p requires 0 <= p < |s.procs| => !s.procs[p].Closed?)
  }

  /** At most one process has the file open, and the flag is set exactly while one has. */
  ghost predicate OneOpen(s: State) {
    HeldByOne(s.inUse, Inside(s))
  }

  /** An open file reads the greeting for the opens before it: the current pass has collected it up to the
      offset, and every completed pass was the whole greeting. */
  ghost predicate FileOk(s: State, f: Proc) {
    f.Opened? ==>
      var text := Greeting(Int32(f.n));
      && f.n + 1 == s.opens && Str(s.msg) == text
      && f.offset <= |text| && f.pass == text[..f.offset]
      && (forall k :: 0 <= k < |f.passes| ==> f.passes[k] == text)
  }

  ghost predicate Inv(s: State) {
    && OneOpen(s) && Sealed(s.msg) && s.counter == Int32(s.opens)
    && (forall p :: 0 <= p < |s.procs| ==> FileOk(s, s.procs[p]))
  }

  lemma StepKeepsExclusive(s: State, step: Step)
    requires OneOpen(s) && Enabled(s, step)
    ensures OneOpen(Next(s, step))
  {
    var s' := Next(s, step);
    assert Inside(s') == Inside(s)[step.p := Inside(s')[step.p]];
    StepKeepsHeld(s.inUse, Inside(s), step.p, s'.inUse, Inside(s')[step.p]);
  }

  lemma ReadKeepsFile(s: State, p: nat, length: nat)
    requires Inv(s) && Enabled(s, Read(p, length))
    ensures FileOk(Next(s, Read(p, length)), Next(s, Read(p, length)).procs[p])
  {
    var f := s.procs[p];
    assert FileOk(s, f);
    ReadContinues(s.msg, f.offset, f.pass, length);
  }

  lemma SprintfKeepsFiles(s: State, p: nat)
    requires Inv(s) && Enabled(s, Sprintf(p))
    ensures var s' := Next(s, Sprintf(p));
      Sealed(s'.msg) && s'.counter == Int32(s'.opens) && FileOk(s', s'.procs[p])
  {
    FormatSpells(s.msg, s.counter);
    Int32Successor(s.opens);
  }

  lemma SprintfKeepsInv(s: State, p: nat)
    requires Inv(s) && Enabled(s, Sprintf(p))
    ensures Inv(Next(s, Sprintf(p)))
  {
    var s' := Next(s, Sprintf(p));
    StepKeepsExclusive(s, Sprintf(p));
    SprintfKeepsFiles(s, p);
    forall q | 0 <= q < |s'.procs| ensures FileOk(s', s'.procs[q]) {
      assert q != p ==> s.procs[q].Closed?;
    }
  }

  lemma StepKeepsInv(s: State, step: Step)
    requires Inv(s) && Enabled(s, step)
    ensures Inv(Next(s, step))
  {
    match step
    case Sprintf(p) => SprintfKeepsInv(s, p);
    case Read(p, length) =>
      StepKeepsExclusive(s, step);
      ReadKeepsFile(s, p, length);
      var s' := Next(s, step);
      forall q | 0 <= q < |s'.procs| ensures FileOk(s', s'.procs[q]) {
        assert FileOk(s, s.procs[q]);
      }
    case _ =>
      StepKeepsExclusive(s, step);
      var s' := Next(s, step);
      forall q | 0 <= q < |s'.procs| ensures FileOk(s', s'.procs[q]) {
        assert FileOk(s, s.procs[q]);
      }
  }

  lemma {:induction false} InvAlways(trace: seq<State>, steps: seq<Step>, n: nat)
    requires Execution(trace, steps) && n <= |steps|
    ensures Inv(trace[n])
  {
    if n > 0 {
      assert Ran(trace, steps, n - 1);
      InvAlways(trace, steps, n - 1);
      StepKeepsInv(trace[n - 1], steps[n - 1]);
    }
  }

  /** At most one file is open, and the flag is set exactly while one is, so a later open succeeds. */
  lemma AtMostOneOpen(trace: seq<State>, steps: seq<Step>, n: nat)
    requires Execution(trace, steps) && n <= |steps|
    ensures OneOpen(trace[n])
  {
    InvAlways(trace, steps, n);
  }

  /** In every run an open succeeds exactly if no file is open, it then formats a greeting and starts at offset 0, and a
      release makes the next open succeed. */
  lemma OpenAndRelease(trace: seq<State>, steps: seq<Step>, n: nat, p: nat)
    requires Execution(trace, steps) && n <= |steps| && p < |trace[n].procs|
    ensures var s := trace[n];
      && (s.procs[p].Closed? ==>
            && Enabled(s, TryOpen(p))
            && (Next(s, TryOpen(p)).procs[p].Opening? <==> forall q :: 0 <= q < |s.procs| ==> !Inside(s)[q])
            && (!Next(s, TryOpen(p)).procs[p].Opening? ==> Next(s, TryOpen(p)) == s))
      && (s.procs[p].Opening? ==>
            && Enabled(s, Sprintf(p)) && Next(s, Sprintf(p)).procs[p] == Opened(s.opens, 0, [], [])
            && Str(Next(s, Sprintf(p)).msg) == Greeting(Int32(s.opens)))
      && (s.procs[p].Opened? ==>
            && Enabled(s, Release(p)) && Next(s, Release(p)).procs[p].Closed?
            && Enabled(Next(s, Release(p)), TryOpen(p))
            && Next(Next(s, Release(p)), TryOpen(p)).procs[p].Opening?)
  {
    InvAlways(trace, steps, n);
    var s := trace[n];
    if s.procs[p].Opening? {
      FormatSpells(s.msg, s.counter);
      SprintfKeepsFiles(s, p);
    }
  }

  function Opens(steps: seq<Step>): nat {
    if steps == [] then 0 else Opens(steps[..|steps| - 1]) + if steps[|steps| - 1].Sprintf? then 1 else 0
  }

  /** The number that a greeting tells is the number of greetings formatted before, one for each successful open. */
  lemma {:induction false} OpensCounted(trace: seq<State>, steps: seq<Step>, n: nat)
    requires Execution(trace, steps) && n <= |steps|
    ensures trace[n].opens == Opens(steps[..n])
  {
    if n > 0 {
      assert Ran(trace, steps, n - 1);
      OpensCounted(trace, steps, n - 1);
      assert steps[..n][..n - 1] == steps[..n - 1];
    }
  }

  /** While a file is open no step changes the message. */
  lemma MessageConstant(trace: seq<State>, steps: seq<Step>, n: nat, p: nat)
    requires Execution(trace, steps) && n < |steps|
    requires p < |trace[n].procs| && trace[n].procs[p].Opened?
    ensures trace[n + 1].msg == trace[n].msg
  {
    InvAlways(trace, steps, n);
    assert Ran(trace, steps, n);
  }

  /** Every completed pass over an open file, whatever the sizes of its reads, spells the greeting for exactly
      the number of successful opens before this one. */
  lemma PassesSpellGreeting(trace: seq<State>, steps: seq<Step>, n: nat, p: nat, k: nat)
    requires Execution(trace, steps) && n <= |steps|
    requires p < |trace[n].procs| && trace[n].procs[p].Opened? && k < |trace[n].procs[p].passes|
    ensures trace[n].procs[p].n == trace[n].opens - 1
    ensures trace[n].procs[p].passes[k] == Greeting(Int32(trace[n].procs[p].n))
  {
    InvAlways(trace, steps, n);
    assert FileOk(trace[n], trace[n].procs[p]);
  }

  /** A reader that keeps asking for at least one byte finishes its pass: a read returns the next bytes of the
      greeting while there are any, and otherwise completes the pass and rewinds the file. */
  lemma ReadProgresses(trace: seq<State>, steps: seq<Step>, n: nat, p: nat, length: nat)
    requires Execution(trace, steps) && n <= |steps| && length > 0
    requires p < |trace[n].procs| && trace[n].procs[p].Opened?
    ensures Enabled(trace[n], Read(p, length))
    ensures var f, f' := trace[n].procs[p], Next(trace[n], Read(p, length)).procs[p];
      if f.pass == Greeting(Int32(f.n)) then f' == Opened(f.n, 0, [], f.passes + [f.pass])
      else f'.passes == f.passes && |f.pass| < |f'.pass| && f'.pass <= Greeting(Int32(f.n))
  {
    InvAlways(trace, steps, n);
    assert FileOk(trace[n], trace[n].procs[p]);
    ReadContinues(trace[n].msg, trace[n].procs[p].offset, trace[n].procs[p].pass, length);
  }
}
