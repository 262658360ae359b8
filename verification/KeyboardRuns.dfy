/** Every interleaving of keyboard interrupts, any number of kbd_read calls and buffer resets.  The
    spinlock is held for one character at a time, so put_char, get_char and reset_buffer are one step
    each, and a reader's put_user happens outside the lock.
 */
module KeyboardRuns {
  import opened Keyboard

  /** Wanting: between two iterations of kbd_read, with `left` more to go.  Holding: between the unlock and
      put_user, with character `c`, the `i`-th that was ever accepted. */
  datatype Phase = Idle | Wanting(left: nat) | Holding(c: char, i: nat, left: nat)

  /** `got` is what put_user delivered over all the reader's calls, and `at` where in the accepted stream. */
  datatype Reader = Reader(phase: Phase, got: seq<char>, at: seq<nat>)

  /** A keyboard interrupt and the number of unread characters it found. */
  datatype Event = Event(code: bv8, unread: nat)

  datatype State = State(
    ring: Ring, readers: seq<Reader>,
    events: seq<Event>,       // all interrupts
    accepted: seq<char>,      // all stored characters
    owner: map<nat, nat>,     // which reader dequeued the i-th accepted character
    lost: set<nat>,           // the dequeued ones whose put_user failed
    cleared: set<nat>,        // the accepted ones that a reset discarded unread
    since: seq<char>,         // what was dequeued since the last reset, in lock order
    resetAt: nat,             // how many characters had been accepted at the last reset
    taken: nat, discarded: nat)

  datatype Step =
    | Interrupt(code: bv8)
    | StartRead(r: nat, size: nat)
    | Take(r: nat)
    | Deliver(r: nat, fault: bool)
    | Clear

  ghost predicate Enabled(s: State, step: Step) {
    match step
    case Interrupt(_) => s.ring.put < |s.ring.buf|
    case StartRead(r, _) => r < |s.readers| && s.readers[r].phase.Idle?
    case Take(r) =>
      && r < |s.readers| && s.readers[r].phase.Wanting?
      && s.ring.get < |s.ring.buf| && s.ring.count <= |s.accepted|
    case Deliver(r, _) => r < |s.readers| && s.readers[r].phase.Holding?
    case Clear => true
  }

  ghost function Taken(s: State, r: nat): State
    requires Enabled(s, Take(r))
  {
    var reader := s.readers[r];
    if reader.phase.left == 0 || s.ring.count == 0 then
      s.(readers := s.readers[r := reader.(phase := Idle)])
    else
      var c, i := s.ring.buf[s.ring.get], |s.accepted| - s.ring.count;
      s.(ring := Advance(s.ring), readers := s.readers[r := reader.(phase := Holding(c, i, reader.phase.left - 1))],
         owner := s.owner[i := r], since := s.since + [c], taken := s.taken + 1)
  }

  ghost function Delivered(s: State, r: nat, fault: bool): State
    requires Enabled(s, Deliver(r, fault))
  {
    var reader := s.readers[r];
    var ph := reader.phase;
    if fault then s.(readers := s.readers[r := reader.(phase := Idle)], lost := s.lost + {ph.i})
    else s.(readers := s.readers[r := Reader(Wanting(ph.left), reader.got + [ph.c], reader.at + [ph.i])])
  }

  /** The positions from `a` up to, but not including, `b`. */
  function Span(a: int, b: nat): (r: set<nat>)
    ensures forall i: nat :: i in r <==> a <= i < b
  {
    if b == 0 || b <= a then {} else Span(a, b - 1) + {b - 1}
  }

  ghost function Next(s: State, step: Step): State
    requires Enabled(s, step)
  {
    match step
    case Interrupt(code) =>
      var s' := s.(events := s.events + [Event(code, s.ring.count)]);
      if !IsKeyPress(code) then s'
      else if s.ring.count >= BUFFER_SIZE then s'.(ring := Put(s.ring, GetAscii(code)))
      else s'.(ring := Put(s.ring, GetAscii(code)), accepted := s.accepted + [GetAscii(code)])
    case StartRead(r, size) => s.(readers := s.readers[r := s.readers[r].(phase := Wanting(size))])
    case Take(r) => Taken(s, r)
    case Deliver(r, fault) => Delivered(s, r, fault)
    case Clear =>
      s.(ring := Reset(s.ring), since := [], resetAt := |s.accepted|, discarded := s.discarded + s.ring.count,
         cleared := s.cleared + Span(|s.accepted| - s.ring.count, |s.accepted|))
  }

  ghost predicate Initial(s: State) {
    && s.ring.Ok() && s.ring.count == 0 && s.events == [] && s.accepted == [] && s.owner == map[]
    && s.lost == {} && s.cleared == {}
    && s.since == [] && s.resetAt == 0 && s.taken == 0 && s.discarded == 0
    && forall r :: 0 <= r < |s.readers| ==> s.readers[r] == Reader(Idle, [], [])
  }

  ghost predicate Ran(trace: seq<State>, steps: seq<Step>, i: nat)
    requires |trace| == |steps| + 1 && i < |steps|
  {
    Enabled(trace[i], steps[i]) && trace[i + 1] == Next(trace[i], steps[i])
  }

  ghost predicate Execution(trace: seq<State>, steps: seq<Step>) {
    |trace| == |steps| + 1 && Initial(trace[0]) && forall i :: 0 <= i < |steps| ==> Ran(trace, steps, i)
  }

  // ---------------------------------------------------------------- the queue

  /** The unread characters are the newest accepted ones; everything older was dequeued or discarded. */
  ghost predicate QueueOk(s: State) {
    && s.ring.Ok() && s.ring.count <= |s.accepted|
    && Contents(s.ring) == s.accepted[|s.accepted| - s.ring.count..]
    && s.taken + s.discarded == |s.accepted| - s.ring.count
    && s.resetAt <= |s.accepted| - s.ring.count
    && s.since == s.accepted[s.resetAt..|s.accepted| - s.ring.count]
  }

  lemma AppendKeeps(accepted: seq<char>, resetAt: nat, base: nat, c: char)
    requires resetAt <= base <= |accepted|
    ensures (accepted + [c])[resetAt..base] == accepted[resetAt..base]
    ensures (accepted + [c])[base..] == accepted[base..] + [c]
  {
  }

  lemma InterruptKeepsQueue(s: State, code: bv8)
    requires QueueOk(s)
    ensures Enabled(s, Interrupt(code)) && QueueOk(Next(s, Interrupt(code)))
  {
    PutIsEnqueue(s.ring, GetAscii(code));
    AppendKeeps(s.accepted, s.resetAt, |s.accepted| - s.ring.count, GetAscii(code));
  }

  lemma TakeKeepsQueue(s: State, r: nat)
    requires QueueOk(s) && Enabled(s, Take(r))
    ensures QueueOk(Taken(s, r))
    ensures s.ring.count > 0 ==> s.ring.buf[s.ring.get] == s.accepted[|s.accepted| - s.ring.count]
  {
    var base := |s.accepted| - s.ring.count;
    if s.ring.count > 0 {
      GetIsDequeue(s.ring);
      assert s.accepted[base..] == [s.accepted[base]] + s.accepted[base + 1..];
      assert Contents(s.ring)[0] == s.accepted[base];
      assert Contents(Advance(s.ring)) == Contents(s.ring)[1..];
      assert s.accepted[s.resetAt..base + 1] == s.accepted[s.resetAt..base] + [s.accepted[base]];
    }
  }

  lemma StepKeepsQueue(s: State, step: Step)
    requires QueueOk(s) && Enabled(s, step)
    ensures QueueOk(Next(s, step))
  {
    match step
    case Interrupt(code) => InterruptKeepsQueue(s, code);
    case Take(r) => TakeKeepsQueue(s, r);
    case Clear => ResetIsEmpty(s.ring);
    case _ =>
  }

  // ---------------------------------------------------------------- the readers

  ghost predicate Before(at: seq<nat>, i: nat) {
    forall j :: 0 <= j < |at| ==> at[j] < i
  }

  ghost predicate Increasing(at: seq<nat>) {
    forall j :: 0 <= j < |at| ==> Before(at[..j], at[j])
  }

  /** Reader `r` dequeued the `i`-th accepted character, and it was `c`. */
  ghost predicate Owns(s: State, r: nat, i: nat, c: char) {
    i in s.owner && s.owner[i] == r && i < |s.accepted| && s.accepted[i] == c
  }

  ghost predicate ReaderOk(s: State, r: nat)
    requires r < |s.readers|
  {
    var reader := s.readers[r];
    && |reader.got| == |reader.at| && Increasing(reader.at)
    && (forall j :: 0 <= j < |reader.at| ==> Owns(s, r, reader.at[j], reader.got[j]))
    && (reader.phase.Holding? ==> Owns(s, r, reader.phase.i, reader.phase.c) && Before(reader.at, reader.phase.i))
  }

  ghost predicate ReadersOk(s: State) {
    && (forall i :: i in s.owner ==> i < |s.accepted| - s.ring.count)
    && (forall r :: 0 <= r < |s.readers| ==> ReaderOk(s, r))
  }

  lemma IncreasingSnoc(at: seq<nat>, i: nat)
    requires Increasing(at) && Before(at, i)
    ensures Increasing(at + [i])
  {
    forall j | 0 <= j < |at + [i]| ensures Before((at + [i])[..j], (at + [i])[j]) {
      assert (at + [i])[..j] == at[..j];
      assert j == |at| ==> at[..j] == at;
    }
  }

  lemma TakeKeepsReaders(s: State, r: nat)
    requires QueueOk(s) && ReadersOk(s) && Enabled(s, Take(r))
    ensures ReadersOk(Taken(s, r))
  {
    var s', base := Taken(s, r), |s.accepted| - s.ring.count;
    TakeKeepsQueue(s, r);
    forall q | 0 <= q < |s'.readers| ensures ReaderOk(s', q) {
      assert ReaderOk(s, q);
      forall j | 0 <= j < |s'.readers[q].at| ensures Owns(s', q, s'.readers[q].at[j], s'.readers[q].got[j]) {
        assert Owns(s, q, s.readers[q].at[j], s.readers[q].got[j]);
      }
    }
  }

  lemma DeliverKeepsReaders(s: State, r: nat, fault: bool)
    requires ReadersOk(s) && Enabled(s, Deliver(r, fault))
    ensures ReadersOk(Delivered(s, r, fault))
  {
    var s' := Delivered(s, r, fault);
    forall q | 0 <= q < |s'.readers| ensures ReaderOk(s', q) {
      assert ReaderOk(s, q);
      if q == r && !fault {
        IncreasingSnoc(s.readers[r].at, s.readers[r].phase.i);
      }
    }
  }

  lemma InterruptKeepsReaders(s: State, code: bv8)
    requires QueueOk(s) && ReadersOk(s) && Enabled(s, Interrupt(code))
    ensures ReadersOk(Next(s, Interrupt(code)))
  {
    var s' := Next(s, Interrupt(code));
    forall q | 0 <= q < |s'.readers| ensures ReaderOk(s', q) {
      assert ReaderOk(s, q);
      forall j | 0 <= j < |s.readers[q].at| ensures Owns(s', q, s.readers[q].at[j], s.readers[q].got[j]) {
        assert Owns(s, q, s.readers[q].at[j], s.readers[q].got[j]);
      }
    }
  }

  lemma StepKeepsReaders(s: State, step: Step)
    requires QueueOk(s) && ReadersOk(s) && Enabled(s, step)
    ensures ReadersOk(Next(s, step))
  {
    match step
    case Interrupt(code) => InterruptKeepsReaders(s, code);
    case Take(r) => TakeKeepsReaders(s, r);
    case Deliver(r, fault) => DeliverKeepsReaders(s, r, fault);
    case _ =>
      forall q | 0 <= q < |s.readers| ensures ReaderOk(Next(s, step), q) {
        assert ReaderOk(s, q);
        assert forall j :: 0 <= j < |s.readers[q].at| ==> Owns(s, q, s.readers[q].at[j], s.readers[q].got[j]);
      }
  }

  // ---------------------------------------------------------------- the stream

  /** The presses that did not arrive at a full buffer, as characters. */
  function Stored(events: seq<Event>): seq<char> {
    if events == [] then []
    else
      var e := events[|events| - 1];
      Stored(events[..|events| - 1]) + if IsKeyPress(e.code) && e.unread < BUFFER_SIZE then [GetAscii(e.code)] else []
  }

  function Presses(events: seq<Event>): nat {
    if events == [] then 0
    else Presses(events[..|events| - 1]) + if IsKeyPress(events[|events| - 1].code) then 1 else 0
  }

  function Dropped(events: seq<Event>): nat {
    if events == [] then 0
    else
      var e := events[|events| - 1];
      Dropped(events[..|events| - 1]) + if IsKeyPress(e.code) && e.unread >= BUFFER_SIZE then 1 else 0
  }

  ghost predicate StreamOk(s: State) {
    s.accepted == Stored(s.events) && Presses(s.events) == Dropped(s.events) + |s.accepted|
  }

  lemma StepKeepsStream(s: State, step: Step)
    requires StreamOk(s) && Enabled(s, step)
    ensures StreamOk(Next(s, step))
  {
    if step.Interrupt? {
      var e := Event(step.code, s.ring.count);
      assert (s.events + [e])[..|s.events|] == s.events;
    }
  }

  // ---------------------------------------------------------------- whole runs

  lemma {:induction false} InvAlways(trace: seq<State>, steps: seq<Step>, n: nat)
    requires Execution(trace, steps) && n <= |steps|
    ensures QueueOk(trace[n]) && ReadersOk(trace[n]) && StreamOk(trace[n])
  {
    if n > 0 {
      assert Ran(trace, steps, n - 1);
      InvAlways(trace, steps, n - 1);
      StepKeepsQueue(trace[n - 1], steps[n - 1]);
      StepKeepsReaders(trace[n - 1], steps[n - 1]);
      StepKeepsStream(trace[n - 1], steps[n - 1]);
    }
  }

  /** A keyboard interrupt and a waiting reader are never blocked by the model's own bounds. */
  lemma AlwaysEnabled(trace: seq<State>, steps: seq<Step>, n: nat, code: bv8, r: nat)
    requires Execution(trace, steps) && n <= |steps|
    ensures Enabled(trace[n], Interrupt(code))
    ensures r < |trace[n].readers| && trace[n].readers[r].phase.Wanting? ==> Enabled(trace[n], Take(r))
  {
    InvAlways(trace, steps, n);
  }

  /** First in, first out: the characters accepted since the last reset are those dequeued since then, in
      lock order, followed by the contents of the ring. */
  lemma FifoSinceReset(trace: seq<State>, steps: seq<Step>, n: nat)
    requires Execution(trace, steps) && n <= |steps|
    ensures trace[n].ring.Ok() && trace[n].resetAt <= |trace[n].accepted|
    ensures trace[n].accepted[trace[n].resetAt..] == trace[n].since + Contents(trace[n].ring)
  {
    InvAlways(trace, steps, n);
  }

  /** Each accepted character reaches at most one reader, at most once. */
  lemma AtMostOneReader(trace: seq<State>, steps: seq<Step>, n: nat, r: nat, j: nat, q: nat, k: nat)
    requires Execution(trace, steps) && n <= |steps|
    requires r < |trace[n].readers| && j < |trace[n].readers[r].at|
    requires q < |trace[n].readers| && k < |trace[n].readers[q].at|
    requires trace[n].readers[r].at[j] == trace[n].readers[q].at[k]
    ensures r == q && j == k
  {
    InvAlways(trace, steps, n);
    var s := trace[n];
    assert ReaderOk(s, r) && ReaderOk(s, q);
    assert Owns(s, r, s.readers[r].at[j], s.readers[r].got[j]);
    assert Owns(s, q, s.readers[q].at[k], s.readers[q].got[k]);
    if j < k {
      IncreasingAt(s.readers[r].at, j, k);
    } else if k < j {
      IncreasingAt(s.readers[r].at, k, j);
    }
  }

  lemma IncreasingAt(at: seq<nat>, j: nat, k: nat)
    requires Increasing(at) && j < k < |at|
    ensures at[j] < at[k]
  {
    assert Before(at[..k], at[k]) && at[..k][j] == at[j];
  }

  /** What a reader received is a subsequence of the accepted stream, in order. */
  lemma ReaderGetsSubsequence(trace: seq<State>, steps: seq<Step>, n: nat, r: nat, j: nat)
    requires Execution(trace, steps) && n <= |steps|
    requires r < |trace[n].readers| && j < |trace[n].readers[r].got|
    ensures var reader := trace[n].readers[r];
      && |reader.at| == |reader.got| && reader.at[j] < |trace[n].accepted|
      && reader.got[j] == trace[n].accepted[reader.at[j]]
      && (j > 0 ==> reader.at[j - 1] < reader.at[j])
  {
    InvAlways(trace, steps, n);
    var s := trace[n];
    assert ReaderOk(s, r) && Owns(s, r, s.readers[r].at[j], s.readers[r].got[j]);
    if j > 0 {
      IncreasingAt(s.readers[r].at, j - 1, j);
    }
  }

  /** Every press is accounted for: dropped on a full buffer, dequeued, discarded by a reset, or unread. */
  lemma PressesAccounted(trace: seq<State>, steps: seq<Step>, n: nat)
    requires Execution(trace, steps) && n <= |steps|
    ensures var s := trace[n];
      Presses(s.events) == Dropped(s.events) + s.taken + s.discarded + s.ring.count
  {
    InvAlways(trace, steps, n);
  }

  /** Without a reset, what was dequeued and then what is unread spell exactly the presses that did not
      arrive at 1024 unread characters. */
  lemma StreamWithoutReset(trace: seq<State>, steps: seq<Step>, n: nat)
    requires Execution(trace, steps) && n <= |steps|
    requires forall i :: 0 <= i < n ==> !steps[i].Clear?
    ensures trace[n].ring.Ok() && trace[n].since + Contents(trace[n].ring) == Stored(trace[n].events)
  {
    FifoSinceReset(trace, steps, n);
    NeverReset(trace, steps, n);
    InvAlways(trace, steps, n);
    assert trace[n].accepted[0..] == trace[n].accepted;
  }

  lemma {:induction false} NeverReset(trace: seq<State>, steps: seq<Step>, n: nat)
    requires Execution(trace, steps) && n <= |steps|
    requires forall i :: 0 <= i < n ==> !steps[i].Clear?
    ensures trace[n].resetAt == 0
  {
    if n > 0 {
      assert Ran(trace, steps, n - 1);
      NeverReset(trace, steps, n - 1);
    }
  }
}
