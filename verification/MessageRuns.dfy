/** Every interleaving of plain reads, plain writes and ioctls on the message device, byte by byte: only the
    ioctls take the `already_open` flag, so a plain write can change the string under a half-finished reader.
 */
module MessageRuns {
  import opened MessageBuffer
  import opened Prelude
  import opened TryLock
  import opened MessageDevice

  /** Who runs the shared read or write code: a plain system call on open file `fd`, or an ioctl. */
  datatype Caller = Plain(fd: nat) | Locked

  /** Writing: device_write with `n` bytes to copy, before the `i`-th.  Testing: device_read before its
      end-of-message test.  Copying: before the loop test at `start + |out|`.  Putting: between that test and
      the put_user, which reads the byte again.  Fetching: before GET_NTH_BYTE reads its byte.  Leaving: an ioctl
      before the atomic_set, with its outcome. */
  datatype Phase =
    | Idle
    | Writing(caller: Caller, user: seq<Byte>, n: nat, i: nat)
    | Testing(caller: Caller, start: nat, length: nat)
    | Copying(caller: Caller, start: nat, left: nat, out: seq<Byte>)
    | Putting(caller: Caller, start: nat, left: nat, out: seq<Byte>)
    | Fetching(n: nat)
    | Leaving(outcome: Outcome)

  /** What an ioctl takes out: nothing (SET_MSG and unknown commands), a string, or byte `n`. */
  datatype Outcome = Nothing | Text(out: seq<Byte>) | NthByte(n: nat, c: Byte)

  /** `sets` are the completed SET_MSG strings in order and `initial` is the first message;
      `base` is the message before the ioctl in progress. */
  datatype State = State(message: seq<Byte>, inUse: bool, offsets: seq<nat>, threads: seq<Phase>,
                         initial: seq<Byte>, sets: seq<seq<Byte>>, base: seq<Byte>)

  datatype Step =
    | StartWrite(t: nat, fd: nat, user: seq<Byte>, length: nat)
    | StartRead(t: nat, fd: nat, length: nat)
    | EnterSet(t: nat, user: seq<Byte>)
    | EnterGet(t: nat)
    | EnterNth(t: nat, n: nat)
    | EnterOther(t: nat)
    | EnterBusy(t: nat)
    | WriteByte(t: nat)
    | EndWrite(t: nat)
    | Test(t: nat)
    | LoopTest(t: nat)
    | PutByte(t: nat)
    | FetchByte(t: nat)
    | Leave(t: nat)

  ghost predicate In(s: State, t: nat) { t < |s.threads| && s.threads[t].Idle? }

  /** The bounds on array accesses are not guards: AccessesInBounds shows that they always hold. */
  ghost predicate Enabled(s: State, step: Step) {
    match step
    case StartWrite(t, fd, user, length) => In(s, t) && fd < |s.offsets| && Min(length, BUF_LEN) <= |user|
    case StartRead(t, fd, _) => In(s, t) && fd < |s.offsets|
    case EnterSet(t, user) => In(s, t) && !s.inUse && Readable(user) && SetLength(user) <= |user|
    case EnterGet(t) => In(s, t) && !s.inUse
    case EnterNth(t, n) => In(s, t) && !s.inUse && n <= BUF_LEN
    case EnterOther(t) => In(s, t) && !s.inUse
    case EnterBusy(t) => In(s, t) && s.inUse
    case WriteByte(t) =>
      t < |s.threads| && s.threads[t].Writing? && s.threads[t].i < s.threads[t].n
      && s.threads[t].i < |s.message| && s.threads[t].i < |s.threads[t].user|
    case EndWrite(t) => t < |s.threads| && s.threads[t].Writing? && s.threads[t].i == s.threads[t].n
    case Test(t) => t < |s.threads| && s.threads[t].Testing? && s.threads[t].start < |s.message|
    case LoopTest(t) =>
      t < |s.threads| && s.threads[t].Copying? && s.threads[t].start + |s.threads[t].out| < |s.message|
    case PutByte(t) =>
      && t < |s.threads| && s.threads[t].Putting? && s.threads[t].left > 0
      && s.threads[t].start + |s.threads[t].out| < |s.message|
    case FetchByte(t) => t < |s.threads| && s.threads[t].Fetching? && s.threads[t].n < |s.message|
    case Leave(t) => t < |s.threads| && s.threads[t].Leaving?
  }

  /** The end of device_read: a plain read stores the new offset in its file, an ioctl goes on to its NUL. */
  function EndRead(s: State, t: nat, caller: Caller, offset: nat, out: seq<Byte>): State
    requires t < |s.threads|
  {
    match caller
    case Plain(fd) =>
      s.(threads := s.threads[t := Idle], offsets := if fd < |s.offsets| then s.offsets[fd := offset] else s.offsets)
    case Locked => s.(threads := s.threads[t := Leaving(Text(out))])
  }

  ghost function Next(s: State, step: Step): State
    requires Enabled(s, step)
  {
    match step
    case StartWrite(t, fd, user, length) =>
      s.(threads := s.threads[t := Writing(Plain(fd), user, Min(length, BUF_LEN), 0)])
    case StartRead(t, fd, length) => s.(threads := s.threads[t := Testing(Plain(fd), s.offsets[fd], length)])
    case EnterSet(t, user) =>
      s.(inUse := true, base := s.message, threads := s.threads[t := Writing(Locked, user, SetLength(user), 0)])
    case EnterGet(t) => s.(inUse := true, base := s.message, threads := s.threads[t := Testing(Locked, 0, 99)])
    case EnterNth(t, n) => s.(inUse := true, base := s.message, threads := s.threads[t := Fetching(n)])
    case EnterOther(t) => s.(inUse := true, base := s.message, threads := s.threads[t := Leaving(Nothing)])
    case EnterBusy(_) => s
    case WriteByte(t) =>
      var ph := s.threads[t];
      s.(message := s.message[ph.i := ph.user[ph.i]], threads := s.threads[t := ph.(i := ph.i + 1)])
    case EndWrite(t) =>
      var ph := s.threads[t];
      if ph.caller.Plain? then s.(threads := s.threads[t := Idle])
      else s.(threads := s.threads[t := Leaving(Nothing)], sets := s.sets + [ph.user])
    case Test(t) =>
      var ph := s.threads[t];
      if s.message[ph.start] == 0 then EndRead(s, t, ph.caller, 0, [])
      else s.(threads := s.threads[t := Copying(ph.caller, ph.start, ph.length, [])])
    case LoopTest(t) =>
      var ph := s.threads[t];
      if ph.left > 0 && s.message[ph.start + |ph.out|] != 0
      then s.(threads := s.threads[t := Putting(ph.caller, ph.start, ph.left, ph.out)])
      else EndRead(s, t, ph.caller, ph.start + |ph.out|, ph.out)
    case PutByte(t) =>
      var ph := s.threads[t];
      var out := ph.out + [s.message[ph.start + |ph.out|]];
      s.(threads := s.threads[t := Copying(ph.caller, ph.start, ph.left - 1, out)])
    case FetchByte(t) =>
      var n := s.threads[t].n;
      s.(threads := s.threads[t := Leaving(NthByte(n, s.message[n]))])
    case Leave(t) => s.(inUse := false, threads := s.threads[t := Idle])
  }

  ghost predicate Initial(s: State) {
    && Sealed(s.message) && !s.inUse && s.sets == [] && s.initial == Str(s.message) && s.base == s.message
    && (forall fd :: 0 <= fd < |s.offsets| ==> s.offsets[fd] == 0)
    && (forall t :: 0 <= t < |s.threads| ==> s.threads[t].Idle?)
  }

  ghost predicate Ran(trace: seq<State>, steps: seq<Step>, i: nat)
    requires |trace| == |steps| + 1 && i < |steps|
  {
    Enabled(trace[i], steps[i]) && trace[i + 1] == Next(trace[i], steps[i])
  }

  ghost predicate Execution(trace: seq<State>, steps: seq<Step>) {
    |trace| == |steps| + 1 && Initial(trace[0]) && forall i :: 0 <= i < |steps| ==> Ran(trace, steps, i)
  }

  // ---------------------------------------------------------------- the sentinel

  /** A thread's indices stay inside the array. */
  ghost predicate PhaseBounded(ph: Phase) {
    match ph
    case Writing(_, user, n, i) => i <= n <= BUF_LEN && n <= |user|
    case Testing(_, start, _) => start <= BUF_LEN
    case Copying(_, start, _, out) => start + |out| <= BUF_LEN
    case Putting(_, start, left, out) => start + |out| < BUF_LEN && left > 0
    case Fetching(n) => n <= BUF_LEN
    case _ => true
  }

  ghost predicate Bounded(s: State) {
    && Sealed(s.message)
    && (forall fd :: 0 <= fd < |s.offsets| ==> s.offsets[fd] <= BUF_LEN)
    && (forall t :: 0 <= t < |s.threads| ==> PhaseBounded(s.threads[t]))
  }

  lemma StepKeepsBounded(s: State, step: Step)
    requires Bounded(s) && Enabled(s, step)
    ensures Bounded(Next(s, step))
  {
    assert step.t < |s.threads| ==> PhaseBounded(s.threads[step.t]);
    var s' := Next(s, step);
    forall t | 0 <= t < |s'.threads| ensures PhaseBounded(s'.threads[t]) {
      assert PhaseBounded(s.threads[t]);
    }
  }

  /** Whatever reads, plain writes and ioctls run, message[80] stays NUL and every file offset and every
      cursor of a half-finished reader stays in 0..80. */
  lemma {:induction false} SentinelAlways(trace: seq<State>, steps: seq<Step>, n: nat)
    requires Execution(trace, steps) && n <= |steps|
    ensures Bounded(trace[n])
  {
    if n > 0 {
      assert Ran(trace, steps, n - 1);
      SentinelAlways(trace, steps, n - 1);
      StepKeepsBounded(trace[n - 1], steps[n - 1]);
    }
  }

  /** The step by which a busy thread goes on. */
  function Onward(s: State, t: nat): Step
    requires t < |s.threads| && !s.threads[t].Idle?
  {
    match s.threads[t]
    case Writing(_, _, n, i) => if i < n then WriteByte(t) else EndWrite(t)
    case Testing(_, _, _) => Test(t)
    case Copying(_, _, _, _) => LoopTest(t)
    case Putting(_, _, _, _) => PutByte(t)
    case Fetching(_) => FetchByte(t)
    case Leaving(_) => Leave(t)
  }

  /** No access leaves the array: the step that a busy thread takes next is always possible. */
  lemma AccessesInBounds(trace: seq<State>, steps: seq<Step>, n: nat, t: nat)
    requires Execution(trace, steps) && n <= |steps|
    requires t < |trace[n].threads| && !trace[n].threads[t].Idle?
    ensures Enabled(trace[n], Onward(trace[n], t))
  {
    SentinelAlways(trace, steps, n);
    assert PhaseBounded(trace[n].threads[t]);
  }

  // ---------------------------------------------------------------- every call ends

  /** How many more steps the call of a thread takes, at most. */
  function Toil(ph: Phase): nat {
    match ph
    case Idle => 0
    case Leaving(_) => 1
    case Fetching(_) => 2
    case Writing(_, _, n, i) => 2 + if i < n then n - i else 0
    case Testing(_, start, _) => 4 + if start < BUF_LEN then 2 * (BUF_LEN - start) else 0
    case Copying(_, start, _, out) => 3 + if start + |out| < BUF_LEN then 2 * (BUF_LEN - start - |out|) else 0
    case Putting(_, start, _, out) => 2 + if start + |out| < BUF_LEN then 2 * (BUF_LEN - start - |out|) else 0
  }

  lemma StepToils(s: State, step: Step)
    requires Bounded(s) && Enabled(s, step) && !s.threads[step.t].Idle?
    ensures step.t < |s.threads| && step == Onward(s, step.t)
    ensures Toil(Next(s, step).threads[step.t]) < Toil(s.threads[step.t])
  {
    assert PhaseBounded(s.threads[step.t]);
  }

  function StepsOf(steps: seq<Step>, t: nat): nat {
    if steps == [] then 0
    else StepsOf(steps[..|steps| - 1], t) + if steps[|steps| - 1].t == t then 1 else 0
  }

  /** Every call ends: a thread that stays in a call takes fewer steps each time, whatever the other threads write to
      the message meanwhile, and never more than 164. */
  lemma {:induction false} CallsEnd(trace: seq<State>, steps: seq<Step>, t: nat, a: nat, n: nat)
    requires Execution(trace, steps) && a <= n <= |steps| && t < |trace[a].threads|
    requires forall i :: a <= i < n ==> t < |trace[i].threads| && !trace[i].threads[t].Idle?
    ensures |trace[n].threads| == |trace[a].threads|
    ensures StepsOf(steps[a..n], t) + Toil(trace[n].threads[t]) <= Toil(trace[a].threads[t]) <= 164
  {
    SentinelAlways(trace, steps, a);
    assert PhaseBounded(trace[a].threads[t]);
    if a < n {
      CallsEnd(trace, steps, t, a, n - 1);
      assert Ran(trace, steps, n - 1);
      SentinelAlways(trace, steps, n - 1);
      OthersStay(trace[n - 1], steps[n - 1]);
      if steps[n - 1].t == t { StepToils(trace[n - 1], steps[n - 1]); }
      assert steps[a..n][..n - 1 - a] == steps[a..n - 1];
    }
  }

  // ---------------------------------------------------------------- mutual exclusion

  /** Between the cmpxchg and the atomic_set. */
  predicate Inside(ph: Phase) {
    ph.Leaving? || ph.Fetching? || (!ph.Idle? && ph.caller.Locked?)
  }

  /** The cmpxchg of an ioctl that found the flag clear. */
  predicate Enters(step: Step) {
    step.EnterSet? || step.EnterGet? || step.EnterNth? || step.EnterOther?
  }

  ghost function Holders(s: State): (r: seq<bool>)
    ensures |r| == |s.threads| && forall t :: 0 <= t < |s.threads| ==> r[t] == Inside(s.threads[t])
  {
    seq(|s.threads|, t requires 0 <= t < |s.threads| => Inside(s.threads[t]))
  }

  /** At most one thread is inside, and the flag is set exactly while one is. */
  ghost predicate Exclusive(s: State) {
    HeldByOne(s.inUse, Holders(s))
  }

  /** A step of thread `t` leaves the other threads' phases alone. */
  lemma OthersStay(s: State, step: Step)
    requires Enabled(s, step)
    ensures var s' := Next(s, step);
      && |s'.threads| == |s.threads| && step.t < |s.threads|
      && (forall u :: 0 <= u < |s.threads| && u != step.t ==> s'.threads[u] == s.threads[u])
  {
  }

  /** Only an entering thread sets the flag and moves inside, and only a leaving one clears it and moves out. */
  lemma WhoMoves(s: State, step: Step)
    requires Enabled(s, step)
    ensures var s' := Next(s, step);
      && (Enters(step) ==> !s.inUse && s'.inUse && Inside(s'.threads[step.t]))
      && (step.Leave? ==> !s'.inUse && Inside(s.threads[step.t]) && !Inside(s'.threads[step.t]))
      && (!Enters(step) && !step.Leave? ==>
            s'.inUse == s.inUse && Inside(s'.threads[step.t]) == Inside(s.threads[step.t]))
  {
  }

  lemma StepKeepsExclusive(s: State, step: Step)
    requires Exclusive(s) && Enabled(s, step)
    ensures Exclusive(Next(s, step))
  {
    var s' := Next(s, step);
    OthersStay(s, step);
    WhoMoves(s, step);
    assert Holders(s') == Holders(s)[step.t := Holders(s')[step.t]];
    StepKeepsHeld(s.inUse, Holders(s), step.t, s'.inUse, Holders(s')[step.t]);
  }

  /** At most one thread is between the cmpxchg and the atomic_set, and the flag is set exactly when one is. */
  lemma {:induction false} MutualExclusion(trace: seq<State>, steps: seq<Step>, n: nat)
    requires Execution(trace, steps) && n <= |steps|
    ensures Exclusive(trace[n])
  {
    if n > 0 {
      assert Ran(trace, steps, n - 1);
      MutualExclusion(trace, steps, n - 1);
      StepKeepsExclusive(trace[n - 1], steps[n - 1]);
    }
  }

  // ---------------------------------------------------------------- linearizability

  /** The register's value: the latest non-empty SET_MSG string cut to 80 characters, or the initial message. */
  function Latest(initial: seq<Byte>, sets: seq<seq<Byte>>): seq<Byte> {
    if sets == [] then initial
    else Stored(Latest(initial, sets[..|sets| - 1]), sets[|sets| - 1])
  }

  /** Byte `n` of the register: a character of its string or the NUL behind it; bytes further on may be anything. */
  predicate NthOf(value: seq<Byte>, n: nat, c: Byte) {
    (n < |value| ==> c == value[n]) && (n == |value| ==> c == 0)
  }

  /** What holds for the thread inside: a writer has overlaid a prefix, a reader has copied one. */
  ghost predicate PhaseHolds(s: State, ph: Phase)
    requires Sealed(s.message) && Sealed(s.base)
  {
    var value := Latest(s.initial, s.sets);
    match ph
    case Writing(Locked, user, n, i) =>
      && Readable(user) && n == SetLength(user) && i <= n <= |user| && n <= BUF_LEN
      && s.message == Overlay(s.base, user, i) && Str(s.base) == value
    case Testing(Locked, start, length) => start == 0 && length == 99 && Str(s.message) == value
    case Copying(Locked, start, left, out) =>
      start == 0 && left + |out| == 99 && out <= value && Str(s.message) == value
    case Putting(Locked, start, left, out) =>
      start == 0 && left + |out| == 99 && out < value && Str(s.message) == value
    case Fetching(n) => n <= BUF_LEN && Str(s.message) == value
    case Leaving(outcome) =>
      && Str(s.message) == value && (outcome.Text? ==> outcome.out == value)
      && (outcome.NthByte? ==> NthOf(value, outcome.n, outcome.c))
    case _ => true
  }

  ghost predicate Linear(s: State) {
    && Sealed(s.message) && Sealed(s.base)
    && (forall t :: 0 <= t < |s.threads| && Inside(s.threads[t]) ==> PhaseHolds(s, s.threads[t]))
    && (!s.inUse ==> Str(s.message) == Latest(s.initial, s.sets))
  }

  predicate PlainWriter(ph: Phase) {
    ph.Writing? && ph.caller.Plain?
  }

  ghost predicate NoPlainWriter(s: State) {
    forall t :: 0 <= t < |s.threads| ==> !PlainWriter(s.threads[t])
  }

  lemma EnterLinear(s: State, step: Step)
    requires Linear(s) && Enabled(s, step) && Enters(step)
    ensures var s' := Next(s, step); Sealed(s'.message) && Sealed(s'.base) && PhaseHolds(s', s'.threads[step.t])
  {
    if step.EnterSet? {
      SetThenStr(s.message, step.user);
      assert Overlay(s.message, step.user, 0) == s.message;
    }
  }

  lemma WriteByteLinear(s: State, t: nat)
    requires Linear(s) && Enabled(s, WriteByte(t)) && Inside(s.threads[t])
    ensures var s' := Next(s, WriteByte(t)); Sealed(s'.message) && PhaseHolds(s', s'.threads[t])
  {
    var ph := s.threads[t];
    assert PhaseHolds(s, ph);
    OverlayNext(s.base, ph.user, ph.i);
  }

  lemma EndWriteLinear(s: State, t: nat)
    requires Linear(s) && Enabled(s, EndWrite(t)) && Inside(s.threads[t])
    ensures var s' := Next(s, EndWrite(t)); PhaseHolds(s', s'.threads[t])
  {
    var ph := s.threads[t];
    assert PhaseHolds(s, ph);
    SetThenStr(s.base, ph.user);
    assert (s.sets + [ph.user])[..|s.sets|] == s.sets;
  }

  lemma TestLinear(s: State, t: nat)
    requires Linear(s) && Enabled(s, Test(t)) && Inside(s.threads[t])
    ensures var s' := Next(s, Test(t)); PhaseHolds(s', s'.threads[t])
  {
    assert PhaseHolds(s, s.threads[t]);
    if s.message[0] == 0 { StrStopsAt(s.message, 0); }
  }

  lemma LoopTestLinear(s: State, t: nat)
    requires Linear(s) && Enabled(s, LoopTest(t)) && Inside(s.threads[t])
    ensures var s' := Next(s, LoopTest(t)); PhaseHolds(s', s'.threads[t])
  {
    var out := s.threads[t].out;
    assert PhaseHolds(s, s.threads[t]);
    StrStopsAt(s.message, BUF_LEN);
    if s.message[|out|] == 0 { StrStopsAt(s.message, |out|); }
  }

  lemma PrefixGrows(out: seq<Byte>, value: seq<Byte>)
    requires out < value
    ensures out + [value[|out|]] <= value
  {
  }

  lemma PutByteLinear(s: State, t: nat)
    requires Linear(s) && Enabled(s, PutByte(t)) && Inside(s.threads[t])
    ensures var s' := Next(s, PutByte(t)); PhaseHolds(s', s'.threads[t])
  {
    var out := s.threads[t].out;
    assert PhaseHolds(s, s.threads[t]);
    ByteOfString(s.message, |out|);
    PrefixGrows(out, Str(s.message));
  }

  lemma FetchByteLinear(s: State, t: nat)
    requires Linear(s) && Enabled(s, FetchByte(t)) && Inside(s.threads[t])
    ensures var s' := Next(s, FetchByte(t)); PhaseHolds(s', s'.threads[t])
  {
    var n := s.threads[t].n;
    assert PhaseHolds(s, s.threads[t]);
    if n <= |Str(s.message)| { ByteOfString(s.message, n); }
  }

  /** A step of a thread that stays outside changes nothing that the ioctls depend on. */
  lemma OutsideStep(s: State, step: Step)
    requires Enabled(s, step) && !PlainWriter(s.threads[step.t]) && !Enters(step)
    requires step.t < |s.threads| && !Inside(s.threads[step.t])
    ensures var s' := Next(s, step);
      && s'.message == s.message && s'.base == s.base && s'.initial == s.initial && s'.sets == s.sets
      && s'.inUse == s.inUse
      && !Inside(s'.threads[step.t])
  {
  }

  lemma InsideStep(s: State, step: Step)
    requires Linear(s) && Exclusive(s) && Enabled(s, step)
    requires step.t < |s.threads| && (Inside(s.threads[step.t]) || Enters(step))
    ensures var s' := Next(s, step);
      && Sealed(s'.message) && Sealed(s'.base)
      && (Inside(s'.threads[step.t]) ==> PhaseHolds(s', s'.threads[step.t]))
      && (!s'.inUse ==> Str(s'.message) == Latest(s'.initial, s'.sets))
  {
    assert Inside(s.threads[step.t]) ==> s.inUse && PhaseHolds(s, s.threads[step.t]);
    match step
    case EnterSet(_, _) => EnterLinear(s, step);
    case EnterGet(_) => EnterLinear(s, step);
    case EnterNth(_, _) => EnterLinear(s, step);
    case EnterOther(_) => EnterLinear(s, step);
    case FetchByte(t) => FetchByteLinear(s, t);
    case WriteByte(t) => WriteByteLinear(s, t);
    case EndWrite(t) => EndWriteLinear(s, t);
    case Leave(_) =>
    case Test(t) => TestLinear(s, t);
    case LoopTest(t) => LoopTestLinear(s, t);
    case PutByte(t) => PutByteLinear(s, t);
    case _ =>
  }

  lemma StepKeepsLinear(s: State, step: Step)
    requires Linear(s) && Exclusive(s) && Enabled(s, step) && NoPlainWriter(s)
    ensures Linear(Next(s, step))
  {
    var s' := Next(s, step);
    OthersStay(s, step);
    WhoMoves(s, step);
    if Inside(s.threads[step.t]) || Enters(step) {
      InsideStep(s, step);
      forall t | 0 <= t < |s'.threads| && Inside(s'.threads[t]) ensures PhaseHolds(s', s'.threads[t]) {
        assert t == step.t;
      }
    } else {
      OutsideStep(s, step);
      forall t | 0 <= t < |s'.threads| && Inside(s'.threads[t]) ensures PhaseHolds(s', s'.threads[t]) {
        assert t != step.t && PhaseHolds(s, s.threads[t]);
      }
    }
  }

  lemma StepKeepsNoPlainWriter(s: State, step: Step)
    requires NoPlainWriter(s) && Enabled(s, step) && !step.StartWrite?
    ensures NoPlainWriter(Next(s, step))
  {
    OthersStay(s, step);
    var s' := Next(s, step);
    assert !PlainWriter(s'.threads[step.t]) by { assert !PlainWriter(s.threads[step.t]); }
  }

  lemma {:induction false} LinearAlways(trace: seq<State>, steps: seq<Step>, n: nat)
    requires Execution(trace, steps) && n <= |steps| && forall i :: 0 <= i < n ==> !steps[i].StartWrite?
    ensures Linear(trace[n]) && NoPlainWriter(trace[n])
  {
    if n > 0 {
      assert Ran(trace, steps, n - 1);
      LinearAlways(trace, steps, n - 1);
      MutualExclusion(trace, steps, n - 1);
      StepKeepsLinear(trace[n - 1], steps[n - 1]);
      StepKeepsNoPlainWriter(trace[n - 1], steps[n - 1]);
    }
  }

  /** Without plain writes the ioctls implement a register: a GET_MSG that is about to return has read the
      first 80 characters of the latest completed non-empty SET_MSG, however the threads interleave. */
  lemma GetReturnsLatest(trace: seq<State>, steps: seq<Step>, n: nat, t: nat)
    requires Execution(trace, steps) && n <= |steps| && forall i :: 0 <= i < n ==> !steps[i].StartWrite?
    requires t < |trace[n].threads| && trace[n].threads[t].Leaving? && trace[n].threads[t].outcome.Text?
    ensures trace[n].threads[t].outcome.out == Latest(trace[n].initial, trace[n].sets)
  {
    LinearAlways(trace, steps, n);
    assert Inside(trace[n].threads[t]);
  }

  /** Likewise a GET_NTH_BYTE that is about to return has a byte of that string, or its NUL. */
  lemma NthByteOfLatest(trace: seq<State>, steps: seq<Step>, n: nat, t: nat)
    requires Execution(trace, steps) && n <= |steps| && forall i :: 0 <= i < n ==> !steps[i].StartWrite?
    requires t < |trace[n].threads| && trace[n].threads[t].Leaving? && trace[n].threads[t].outcome.NthByte?
    ensures var o := trace[n].threads[t].outcome; NthOf(Latest(trace[n].initial, trace[n].sets), o.n, o.c)
  {
    LinearAlways(trace, steps, n);
    assert Inside(trace[n].threads[t]);
  }

  /** When no ioctl is in progress the message is the register's value. */
  lemma IdleMessageIsLatest(trace: seq<State>, steps: seq<Step>, n: nat)
    requires Execution(trace, steps) && n <= |steps| && forall i :: 0 <= i < n ==> !steps[i].StartWrite?
    requires forall t :: 0 <= t < |trace[n].threads| ==> !Inside(trace[n].threads[t])
    ensures Str(trace[n].message) == Latest(trace[n].initial, trace[n].sets)
  {
    LinearAlways(trace, steps, n);
    MutualExclusion(trace, steps, n);
  }
}
