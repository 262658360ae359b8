/** What a plain read and a plain write do when no other thread writes meanwhile: what Device.Read and Device.Write do.
 */
module MessageCalls {
  import opened MessageBuffer
  import opened Prelude
  import opened MessageDevice
  import opened MessageRuns

  /** An idle thread can begin a plain read or write at any time, whoever is inside an ioctl. */
  lemma PlainCallsBegin(s: State, t: nat, fd: nat, user: seq<Byte>, length: nat)
    requires t < |s.threads| && s.threads[t].Idle? && fd < |s.offsets| && Min(length, BUF_LEN) <= |user|
    ensures Enabled(s, StartRead(t, fd, length)) && Enabled(s, StartWrite(t, fd, user, length))
  {
  }

  // ---------------------------------------------------------------- a read

  /** Thread `t` started a read of `length` bytes on file `fd` by step `a`, is still in it before step `n`, and no
      thread wrote since. */
  ghost predicate Reading(trace: seq<State>, steps: seq<Step>, t: nat, fd: nat, length: nat, a: nat, n: nat) {
    && Execution(trace, steps) && a < n <= |steps| && steps[a] == StartRead(t, fd, length)
    && (forall i :: a + 1 < i <= n ==> t < |trace[i].threads| && !trace[i].threads[t].Idle?)
    && (forall i :: a < i < n ==> !steps[i].WriteByte?)
  }

  /** How far a read at `start` of the message `m` has come. */
  ghost predicate ReadSoFar(m: seq<Byte>, ph: Phase, fd: nat, start: nat, length: nat) {
    match ph
    case Testing(caller, o, l) => caller == Plain(fd) && o == start && l == length
    case Copying(caller, o, left, out) =>
      caller == Plain(fd) && o == start && left + |out| == length && Copied(m, start, out)
    case Putting(caller, o, left, out) =>
      && caller == Plain(fd) && o == start && left + |out| == length && left > 0 && Copied(m, start, out)
      && start + |out| < |m| && m[start + |out|] != 0
    case _ => false
  }

  ghost predicate Copied(m: seq<Byte>, start: nat, out: seq<Byte>) {
    && start + |out| <= |m| && start < |m| && m[start] != 0 && out == m[start..start + |out|]
    && forall i :: start <= i < start + |out| ==> m[i] != 0
  }

  /** What the step that ends a read of thread `t` returns. */
  ghost function Returned(s: State, t: nat): seq<Byte>
    requires t < |s.threads|
  {
    if s.threads[t].Copying? then s.threads[t].out else []
  }

  /** A step of the read either goes on with it or ends it as Device.Read does. */
  ghost predicate ReadStepped(s: State, s': State, t: nat, fd: nat, start: nat, length: nat)
    requires t < |s.threads| && start < |s.message|
  {
    && s'.message == s.message && |s'.offsets| == |s.offsets| && fd < |s.offsets| && t < |s'.threads|
    && (!s'.threads[t].Idle? ==> ReadSoFar(s.message, s'.threads[t], fd, start, length))
    && (s'.threads[t].Idle? ==> (Returned(s, t), s'.offsets[fd]) == ReadAt(s.message, start, length))
  }

  lemma TestStep(s: State, t: nat, fd: nat, start: nat, length: nat)
    requires Enabled(s, Test(t)) && fd < |s.offsets| && start < |s.message|
    requires ReadSoFar(s.message, s.threads[t], fd, start, length)
    ensures ReadStepped(s, Next(s, Test(t)), t, fd, start, length)
  {
    if s.message[start] == 0 { StrIs(s.message[start..], 0); }
  }

  lemma CopiedAll(m: seq<Byte>, start: nat, out: seq<Byte>, length: nat)
    requires Copied(m, start, out) && start + |out| < |m| && |out| <= length
    requires |out| < length ==> m[start + |out|] == 0
    ensures (out, start + |out|) == ReadAt(m, start, length)
  {
    ReadEnds(m, start, length, |out|);
  }

  lemma LoopStep(s: State, t: nat, fd: nat, start: nat, length: nat)
    requires Enabled(s, LoopTest(t)) && fd < |s.offsets| && start < |s.message|
    requires ReadSoFar(s.message, s.threads[t], fd, start, length)
    ensures ReadStepped(s, Next(s, LoopTest(t)), t, fd, start, length)
  {
    var out := s.threads[t].out;
    if s.threads[t].left > 0 && s.message[start + |out|] != 0 {
      assert Next(s, LoopTest(t)).threads[t] == Putting(Plain(fd), start, s.threads[t].left, out);
    } else {
      assert Next(s, LoopTest(t)) == EndRead(s, t, Plain(fd), start + |out|, out);
      CopiedAll(s.message, start, out, length);
    }
  }

  lemma CopiedOne(m: seq<Byte>, start: nat, out: seq<Byte>)
    requires Copied(m, start, out) && start + |out| < |m| && m[start + |out|] != 0
    ensures Copied(m, start, out + [m[start + |out|]])
  {
  }

  lemma PutStep(s: State, t: nat, fd: nat, start: nat, length: nat)
    requires Enabled(s, PutByte(t)) && fd < |s.offsets| && start < |s.message|
    requires ReadSoFar(s.message, s.threads[t], fd, start, length)
    ensures ReadStepped(s, Next(s, PutByte(t)), t, fd, start, length)
  {
    CopiedOne(s.message, start, s.threads[t].out);
  }

  lemma ReadStep(s: State, step: Step, t: nat, fd: nat, start: nat, length: nat)
    requires Enabled(s, step) && step.t == t && t < |s.threads| && fd < |s.offsets| && start < |s.message|
    requires ReadSoFar(s.message, s.threads[t], fd, start, length)
    ensures ReadStepped(s, Next(s, step), t, fd, start, length)
  {
    match step
    case Test(_) => TestStep(s, t, fd, start, length);
    case LoopTest(_) => LoopStep(s, t, fd, start, length);
    case PutByte(_) => PutStep(s, t, fd, start, length);
    case _ =>
  }

  lemma OthersRead(s: State, step: Step, t: nat)
    requires Enabled(s, step) && step.t != t && t < |s.threads| && !step.WriteByte?
    ensures var s' := Next(s, step);
      s'.message == s.message && t < |s'.threads| && s'.threads[t] == s.threads[t] && |s'.offsets| == |s.offsets|
  {
  }

  lemma {:induction false} ReadingGoesOn(trace: seq<State>, steps: seq<Step>, t: nat, fd: nat, length: nat,
                                         a: nat, n: nat)
    requires Reading(trace, steps, t, fd, length, a, n)
    ensures fd < |trace[a].offsets| == |trace[n].offsets| && t < |trace[n].threads|
    ensures trace[n].message == trace[a].message
    ensures trace[a].offsets[fd] < |trace[a].message|
    ensures ReadSoFar(trace[n].message, trace[n].threads[t], fd, trace[a].offsets[fd], length)
  {
    assert Ran(trace, steps, n - 1);
    SentinelAlways(trace, steps, a);
    if a + 1 < n {
      ReadingGoesOn(trace, steps, t, fd, length, a, n - 1);
      if steps[n - 1].t == t {
        ReadStep(trace[n - 1], steps[n - 1], t, fd, trace[a].offsets[fd], length);
      } else {
        OthersRead(trace[n - 1], steps[n - 1], t);
      }
    }
  }

  /** A plain read during which nobody writes returns, and leaves in its file, what Device.Read does on the message
      and the offset that it found, whatever other threads read or enter meanwhile. */
  lemma QuietRead(trace: seq<State>, steps: seq<Step>, t: nat, fd: nat, length: nat, a: nat, n: nat)
    requires Reading(trace, steps, t, fd, length, a, n) && n < |steps|
    requires steps[n].t == t && t < |trace[n + 1].threads| && trace[n + 1].threads[t].Idle?
    ensures t < |trace[n].threads| && fd < |trace[a].offsets| == |trace[n + 1].offsets|
    ensures trace[a].offsets[fd] < |trace[a].message|
    ensures (Returned(trace[n], t), trace[n + 1].offsets[fd]) == ReadAt(trace[a].message, trace[a].offsets[fd], length)
  {
    ReadingGoesOn(trace, steps, t, fd, length, a, n);
    assert Ran(trace, steps, n);
    ReadStep(trace[n], steps[n], t, fd, trace[a].offsets[fd], length);
  }

  // ---------------------------------------------------------------- a write

  /** Thread `t` started a write by step `a`, is still in it before step `n`, and no other thread wrote since. */
  ghost predicate WritingAlone(trace: seq<State>, steps: seq<Step>, t: nat, fd: nat, user: seq<Byte>, length: nat,
                               a: nat, n: nat)
  {
    && Execution(trace, steps) && a < n <= |steps| && steps[a] == StartWrite(t, fd, user, length)
    && (forall i :: a + 1 < i <= n ==> t < |trace[i].threads| && !trace[i].threads[t].Idle?)
    && (forall i :: a < i < n ==> steps[i].WriteByte? ==> steps[i].t == t)
  }

  ghost predicate WrittenSoFar(s: State, m: seq<Byte>, t: nat, user: seq<Byte>, k: nat) {
    && t < |s.threads| && s.threads[t].Writing? && s.threads[t].caller.Plain? && s.threads[t].user == user
    && s.threads[t].n == k && s.threads[t].i <= k <= |user| && k <= |m|
    && s.message == Overlay(m, user, s.threads[t].i)
  }

  lemma WriteStep(s: State, step: Step, m: seq<Byte>, t: nat, user: seq<Byte>, k: nat)
    requires WrittenSoFar(s, m, t, user, k) && Enabled(s, step)
    requires step.t == t || !step.WriteByte?
    ensures var s' := Next(s, step);
      && (step.EndWrite? && step.t == t ==> s'.message == Overlay(m, user, k) && s'.threads[t].Idle?)
      && (!(step.EndWrite? && step.t == t) ==> WrittenSoFar(s', m, t, user, k))
  {
    if step.t == t {
      if step.WriteByte? { OverlayNext(m, user, s.threads[t].i); }
    } else {
      OthersRead(s, step, t);
    }
  }

  lemma {:induction false} WritingGoesOn(trace: seq<State>, steps: seq<Step>, t: nat, fd: nat, user: seq<Byte>,
                                         length: nat, a: nat, n: nat)
    requires WritingAlone(trace, steps, t, fd, user, length, a, n)
    ensures Min(length, BUF_LEN) <= |user|
    ensures WrittenSoFar(trace[n], trace[a].message, t, user, Min(length, BUF_LEN))
  {
    assert Ran(trace, steps, n - 1);
    if a + 1 < n {
      WritingGoesOn(trace, steps, t, fd, user, length, a, n - 1);
      WriteStep(trace[n - 1], steps[n - 1], trace[a].message, t, user, Min(length, BUF_LEN));
    } else {
      SentinelAlways(trace, steps, a);
      assert Overlay(trace[a].message, user, 0) == trace[a].message;
    }
  }

  /** A plain write during which nobody else writes leaves what Device.Write leaves. */
  lemma QuietWrite(trace: seq<State>, steps: seq<Step>, t: nat, fd: nat, user: seq<Byte>, length: nat, a: nat, n: nat)
    requires WritingAlone(trace, steps, t, fd, user, length, a, n) && n < |steps| && steps[n] == EndWrite(t)
    ensures Min(length, BUF_LEN) <= |user| && Min(length, BUF_LEN) <= |trace[a].message|
    ensures trace[n + 1].message == Overlay(trace[a].message, user, Min(length, BUF_LEN))
  {
    WritingGoesOn(trace, steps, t, fd, user, length, a, n);
    assert Ran(trace, steps, n);
    WriteStep(trace[n], steps[n], trace[a].message, t, user, Min(length, BUF_LEN));
  }
}
