/** Every run of opens, sequential reads and writes, and releases by any number of processes on the byte device. */
module So2Runs {
  import opened Prelude
  import opened TryLock
  import opened So2

  /** Sleeping: in so2_cdev_open after the cmpxchg. */
  datatype Proc = Closed | Sleeping | Opened(offset: nat)

  datatype State = State(buffer: seq<Byte>, size: nat, opend: bool, procs: seq<Proc>)

  datatype Step =
    | TryOpen(p: nat)
    | Wake(p: nat)
    | Read(p: nat, length: nat, faults: bool)
    | Write(p: nat, user: seq<Byte>, copy: Copy)
    | Release(p: nat)

  /** The bound on the copied range is not a guard of the driver: AccessesInBounds shows that it always holds. */
  ghost predicate Enabled(s: State, step: Step) {
    step.p < |s.procs| &&
    match step
    case TryOpen(p) => s.procs[p].Closed?
    case Wake(p) => s.procs[p].Sleeping?
    case Read(p, length, _) =>
      s.procs[p].Opened? && s.procs[p].offset + Granted(s.size, s.procs[p].offset, length) <= |s.buffer|
    case Write(p, user, copy) =>
      && s.procs[p].Opened? && s.procs[p].offset + Granted(s.size, s.procs[p].offset, |user|) <= |s.buffer|
      && (copy.Faulted? ==> |copy.left| == Granted(s.size, s.procs[p].offset, |user|))
    case Release(p) => s.procs[p].Opened?
  }

  /** What a read returns to the process. */
  ghost function Returned(s: State, step: Step): seq<Byte>
    requires Enabled(s, step) && step.Read? && !step.faults
  {
    var o := s.procs[step.p].offset;
    s.buffer[o..o + Granted(s.size, o, step.length)]
  }

  ghost function Next(s: State, step: Step): State
    requires Enabled(s, step)
  {
    match step
    case TryOpen(p) => if s.opend then s else s.(opend := true, procs := s.procs[p := Sleeping])
    case Wake(p) => s.(procs := s.procs[p := Opened(0)])
    case Read(p, length, faults) =>
      var o := s.procs[p].offset;
      if faults then s else s.(procs := s.procs[p := Opened(o + Granted(s.size, o, length))])
    case Write(p, user, copy) =>
      var o := s.procs[p].offset;
      var n := Granted(s.size, o, |user|);
      (match copy
       case Complete => s.(buffer := Patch(s.buffer, o, user[..n]), procs := s.procs[p := Opened(o + n)])
       case Faulted(left) => s.(buffer := Patch(s.buffer, o, left)))
    case Release(p) => s.(opend := false, procs := s.procs[p := Closed])
  }

  ghost predicate Initial(s: State) {
    |s.buffer| == BUFSIZ && s.size == |MESSAGE| + 1 && !s.opend && forall p :: 0 <= p < |s.procs| ==> s.procs[p].Closed?
  }

  ghost predicate Ran(trace: seq<State>, steps: seq<Step>, i: nat)
    requires |trace| == |steps| + 1 && i < |steps|
  {
    Enabled(trace[i], steps[i]) && trace[i + 1] == Next(trace[i], steps[i])
  }

  ghost predicate Execution(trace: seq<State>, steps: seq<Step>) {
    |trace| == |steps| + 1 && Initial(trace[0]) && forall i :: 0 <= i < |steps| ==> Ran(trace, steps, i)
  }

  ghost function Inside(s: State): (r: seq<bool>)
    ensures |r| == |s.procs| && forall p :: 0 <= p < |s.procs| ==> r[p] == !s.procs[p].Closed?
  {
    seq(|s.procs|, p requires 0 <= p < |s.procs| => !s.procs[p].Closed?)
  }

  /** At most one process has the file open, and the flag is set exactly while one has. */
  ghost predicate OneOpen(s: State) {
    HeldByOne(s.opend, Inside(s))
  }

  ghost predicate InFile(s: State) {
    && |s.buffer| == BUFSIZ && s.size <= BUFSIZ
    && (forall p :: 0 <= p < |s.procs| && s.procs[p].Opened? ==> s.procs[p].offset <= s.size)
  }

  ghost predicate Inv(s: State) {
    OneOpen(s) && InFile(s)
  }

  ghost function View(s: State, p: nat): ByteFile
    requires InFile(s) && p < |s.procs| && s.procs[p].Opened?
  {
    ByteFile(s.buffer[..s.size], s.procs[p].offset)
  }

  lemma StepKeepsExclusive(s: State, step: Step)
    requires OneOpen(s) && Enabled(s, step)
    ensures OneOpen(Next(s, step))
  {
    var s' := Next(s, step);
    assert Inside(s') == Inside(s)[step.p := Inside(s')[step.p]];
    StepKeepsHeld(s.opend, Inside(s), step.p, s'.opend, Inside(s')[step.p]);
  }

  lemma ReadRefines(s: State, p: nat, length: nat, faults: bool)
    requires InFile(s) && Enabled(s, Read(p, length, faults))
    ensures InFile(Next(s, Read(p, length, faults)))
    ensures !faults ==>
      (Returned(s, Read(p, length, faults)), View(Next(s, Read(p, length, faults)), p)) == ReadFile(View(s, p), length)
  {
    var o := s.procs[p].offset;
    GrantedIsRest(s.size, o, length);
    var end := o + Granted(s.size, o, length);
    assert s.buffer[..s.size][o..end] == s.buffer[o..end];
  }

  lemma WriteRefines(s: State, p: nat, user: seq<Byte>, copy: Copy)
    requires InFile(s) && Enabled(s, Write(p, user, copy))
    ensures var s' := Next(s, Write(p, user, copy));
      && InFile(s') && s'.buffer[s.size..] == s.buffer[s.size..]
      && (copy.Complete? ==> View(s', p) == WriteFile(View(s, p), user).1)
      && (copy.Faulted? ==> View(s', p) == WriteFile(View(s, p), copy.left).1.(cursor := s.procs[p].offset))
  {
    var o := s.procs[p].offset;
    GrantedIsRest(s.size, o, |user|);
    PatchIsWrite(s.buffer, s.size, o, user);
    if copy.Faulted? {
      PatchIsWrite(s.buffer, s.size, o, copy.left);
      assert copy.left[..|copy.left|] == copy.left;
    }
  }

  /** One step against the abstract file: reads and writes do what they do on a byte file with a cursor, a
      faulting one leaves the cursor, and the size and the bytes behind the file never change. */
  lemma StepRefines(s: State, step: Step)
    requires InFile(s) && Enabled(s, step)
    ensures var s' := Next(s, step);
      && InFile(s') && s'.size == s.size && s'.buffer[s'.size..] == s.buffer[s.size..]
      && (!step.Write? ==> s'.buffer == s.buffer)
      && (step.Read? && step.faults ==> s' == s)
      && (step.Read? && !step.faults ==>
            (Returned(s, step), View(s', step.p)) == ReadFile(View(s, step.p), step.length))
      && (step.Write? && step.copy.Complete? ==> View(s', step.p) == WriteFile(View(s, step.p), step.user).1)
      && (step.Write? && step.copy.Faulted? ==>
            View(s', step.p) == WriteFile(View(s, step.p), step.copy.left).1.(cursor := s.procs[step.p].offset))
  {
    match step
    case Read(p, length, faults) => ReadRefines(s, p, length, faults);
    case Write(p, user, copy) => WriteRefines(s, p, user, copy);
    case _ =>
  }

  lemma {:induction false} InvAlways(trace: seq<State>, steps: seq<Step>, n: nat)
    requires Execution(trace, steps) && n <= |steps|
    ensures Inv(trace[n]) && trace[n].size == |MESSAGE| + 1
    ensures trace[n].buffer[trace[n].size..] == trace[0].buffer[trace[0].size..]
  {
    if n > 0 {
      assert Ran(trace, steps, n - 1);
      InvAlways(trace, steps, n - 1);
      StepKeepsExclusive(trace[n - 1], steps[n - 1]);
      StepRefines(trace[n - 1], steps[n - 1]);
    }
  }

  /** At most one process holds the device, an open succeeds exactly when none does, it ends with the cursor at the
      start of the file, and a release makes the next open succeed. */
  lemma AtMostOneOpen(trace: seq<State>, steps: seq<Step>, n: nat, p: nat)
    requires Execution(trace, steps) && n <= |steps| && p < |trace[n].procs|
    ensures OneOpen(trace[n])
    ensures var s := trace[n];
      && (s.procs[p].Closed? ==>
            && Enabled(s, TryOpen(p))
            && (Next(s, TryOpen(p)).procs[p].Sleeping? <==> forall q :: 0 <= q < |s.procs| ==> !Inside(s)[q])
            && (!Next(s, TryOpen(p)).procs[p].Sleeping? ==> Next(s, TryOpen(p)) == s))
      && (s.procs[p].Sleeping? ==> Enabled(s, Wake(p)) && Next(s, Wake(p)).procs[p] == Opened(0))
      && (s.procs[p].Opened? ==>
            && Enabled(s, Release(p)) && Next(s, Release(p)).procs[p].Closed?
            && Enabled(Next(s, Release(p)), TryOpen(p))
            && Next(Next(s, Release(p)), TryOpen(p)).procs[p].Sleeping?)
  {
    InvAlways(trace, steps, n);
  }

  /** In every run, whatever was opened, read, written and released before, an open file's offset is inside
      the file, so the size_t subtraction never wraps and any request can be served inside the buffer. */
  lemma AccessesInBounds(trace: seq<State>, steps: seq<Step>, n: nat, p: nat,
                         length: nat, faults: bool, user: seq<Byte>)
    requires Execution(trace, steps) && n <= |steps| && p < |trace[n].procs| && trace[n].procs[p].Opened?
    ensures Enabled(trace[n], Read(p, length, faults)) && Enabled(trace[n], Write(p, user, Complete))
    ensures trace[n].procs[p].offset <= trace[n].size
    ensures Granted(trace[n].size, trace[n].procs[p].offset, length)
         == Min(length, trace[n].size - trace[n].procs[p].offset)
  {
    InvAlways(trace, steps, n);
    GrantedIsRest(trace[n].size, trace[n].procs[p].offset, length);
    GrantedIsRest(trace[n].size, trace[n].procs[p].offset, |user|);
  }
}
