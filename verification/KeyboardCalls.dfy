/** What whole calls and single interrupts achieve in runs of the keystroke buffer, told by the steps of the run.
 */
module KeyboardCalls {
  import opened Keyboard
  import opened KeyboardRuns
  import opened KeyboardDelivery

  // ---------------------------------------------------------------- interrupts

  /** A press with room in the ring and its release append exactly one character, at the press. */
  lemma PressThenRelease(s: State, key: bv8)
    requires QueueOk(s) && key < 0x80 && s.ring.count < BUFFER_SIZE
    ensures Enabled(s, Interrupt(key)) && QueueOk(Next(s, Interrupt(key)))
    ensures var s1 := Next(s, Interrupt(key));
      && Contents(s1.ring) == Contents(s.ring) + [GetAscii(key)] && s1.accepted == s.accepted + [GetAscii(key)]
      && Enabled(s1, Interrupt(key + 0x80))
      && var s2 := Next(s1, Interrupt(key + 0x80));
      s2.ring == s1.ring && s2.accepted == s1.accepted && s2.readers == s.readers
  {
    InterruptKeepsQueue(s, key);
    PutIsEnqueue(s.ring, GetAscii(key));
    PressAndRelease(key);
  }

  /** The scancodes of the interrupts in the run. */
  function Codes(steps: seq<Step>): seq<bv8> {
    if steps == [] then []
    else
      var front, step := Codes(steps[..|steps| - 1]), steps[|steps| - 1];
      if step.Interrupt? then front + [step.code] else front
  }

  function CodesOf(events: seq<Event>): (r: seq<bv8>)
    ensures |r| == |events| && forall i :: 0 <= i < |r| ==> r[i] == events[i].code
  {
    seq(|events|, i requires 0 <= i < |events| => events[i].code)
  }

  /** The recorded events are the run's interrupts, all of them, in order. */
  lemma {:induction false} EventsAreInterrupts(trace: seq<State>, steps: seq<Step>, n: nat)
    requires Execution(trace, steps) && n <= |steps|
    ensures CodesOf(trace[n].events) == Codes(steps[..n])
  {
    if n > 0 {
      assert Ran(trace, steps, n - 1);
      EventsAreInterrupts(trace, steps, n - 1);
      assert steps[..n][..n - 1] == steps[..n - 1];
    }
  }

  // ---------------------------------------------------------------- resets

  lemma {:induction false} ClearedStays(trace: seq<State>, steps: seq<Step>, a: nat, n: nat)
    requires Execution(trace, steps) && a <= n <= |steps|
    ensures trace[a].cleared <= trace[n].cleared
  {
    if a < n {
      assert Ran(trace, steps, n - 1);
      ClearedStays(trace, steps, a, n - 1);
    }
  }

  /** A reset empties the buffer, and what was unread then reaches no reader, ever. */
  lemma ResetForgets(trace: seq<State>, steps: seq<Step>, a: nat, n: nat, i: nat)
    requires Execution(trace, steps) && a < n <= |steps| && steps[a] == Clear
    ensures trace[a + 1].ring.Ok() && Contents(trace[a + 1].ring) == []
    ensures Unread(trace[a], i) ==> i < |trace[n].accepted| && !Reached(trace[n], i) && !InFlight(trace[n], i)
  {
    assert Ran(trace, steps, a);
    InvAlways(trace, steps, a);
    ResetIsEmpty(trace[a].ring);
    if Unread(trace[a], i) {
      assert i in trace[a + 1].cleared;
      ClearedStays(trace, steps, a + 1, n);
      PlacesAlways(trace, steps, n);
      EveryCharacterHasOnePlace(trace, steps, n, i);
    }
  }

  // ---------------------------------------------------------------- one read

  /** Reader `r` began a read of `size` bytes at step `a` and is still in it before step `n`. */
  ghost predicate Reading(trace: seq<State>, steps: seq<Step>, r: nat, size: nat, a: nat, n: nat) {
    && Execution(trace, steps) && a < n <= |steps| && steps[a] == StartRead(r, size)
    && forall i :: a + 1 < i <= n ==> r < |trace[i].readers| && !trace[i].readers[r].phase.Idle?
  }

  /** `got` bytes of a read of `size` have been delivered: the rest is still to come. */
  ghost predicate Advanced(ph: Phase, size: nat, got: int) {
    match ph
    case Idle => false
    case Wanting(left) => got + left == size
    case Holding(_, _, left) => got + 1 + left == size
  }

  ghost predicate ReaderKept(s: State, s': State, r: nat) {
    |s'.readers| == |s.readers| && r < |s.readers| && s'.readers[r] == s.readers[r]
  }

  lemma OtherStep(s: State, step: Step, r: nat)
    requires Enabled(s, step) && r < |s.readers|
    requires !(step.StartRead? && step.r == r) && !(step.Take? && step.r == r) && !(step.Deliver? && step.r == r)
    ensures ReaderKept(s, Next(s, step), r)
  {
  }

  /** How a read ends, by the step that ends it. */
  ghost predicate Ends(s: State, step: Step, r: nat, size: nat, got: int)
    requires r < |s.readers|
  {
    || (step == Take(r) && got == size)
    || (step == Take(r) && got < size && s.ring.count == 0)
    || (step == Deliver(r, true) && got < size)
  }

  lemma ReadStep(s: State, step: Step, r: nat, size: nat, base: nat)
    requires Enabled(s, step) && r < |s.readers| && Advanced(s.readers[r].phase, size, |s.readers[r].got| - base)
    ensures var s' := Next(s, step);
      && r < |s'.readers| && |s'.readers[r].got| >= |s.readers[r].got|
      && (s'.readers[r].phase.Idle? ==>
            Ends(s, step, r, size, |s.readers[r].got| - base) && s'.readers[r].got == s.readers[r].got)
      && (!s'.readers[r].phase.Idle? ==> Advanced(s'.readers[r].phase, size, |s'.readers[r].got| - base))
  {
    match step
    case Take(q) => if q != r { OtherStep(s, step, r); }
    case Deliver(q, fault) => if q != r { OtherStep(s, step, r); }
    case _ => OtherStep(s, step, r);
  }

  lemma {:induction false} ReadGoesOn(trace: seq<State>, steps: seq<Step>, r: nat, size: nat, a: nat, n: nat)
    requires Reading(trace, steps, r, size, a, n)
    ensures r < |trace[a].readers| && r < |trace[n].readers|
    ensures |trace[a].readers[r].got| <= |trace[n].readers[r].got|
    ensures Advanced(trace[n].readers[r].phase, size, |trace[n].readers[r].got| - |trace[a].readers[r].got|)
  {
    assert Ran(trace, steps, n - 1);
    if a + 1 < n {
      ReadGoesOn(trace, steps, r, size, a, n - 1);
      ReadStep(trace[n - 1], steps[n - 1], r, size, |trace[a].readers[r].got|);
    }
  }

  /** An idle reader can begin a read.  In whatever company, it goes on until exactly `size` bytes are delivered, or it
      finds the buffer empty, or put_user fails; with no more bytes than that delivered. */
  lemma ReadEnds(trace: seq<State>, steps: seq<Step>, r: nat, size: nat, a: nat, n: nat)
    requires Reading(trace, steps, r, size, a, n) && n < |steps|
    requires r < |trace[n + 1].readers| && trace[n + 1].readers[r].phase.Idle?
    ensures r < |trace[a].readers|
    ensures var got := |trace[n + 1].readers[r].got| - |trace[a].readers[r].got|;
      && 0 <= got <= size
      && (|| (steps[n] == Take(r) && got == size)
          || (steps[n] == Take(r) && got < size && trace[n].ring.count == 0)
          || (steps[n] == Deliver(r, true) && got < size))
  {
    ReadGoesOn(trace, steps, r, size, a, n);
    assert Ran(trace, steps, n);
    ReadStep(trace[n], steps[n], r, size, |trace[a].readers[r].got|);
  }

  /** Undisturbed, one iteration of a read with bytes to come takes the oldest unread character and delivers it. */
  lemma UndisturbedIteration(s: State, r: nat, left: nat)
    requires QueueOk(s) && r < |s.readers| && s.readers[r].phase == Wanting(left) && left > 0 && s.ring.count > 0
    ensures Enabled(s, Take(r)) && Enabled(Next(s, Take(r)), Deliver(r, false))
    ensures var s' := Next(Next(s, Take(r)), Deliver(r, false));
      && s'.readers[r].phase == Wanting(left - 1)
      && s'.readers[r].got == s.readers[r].got + [Contents(s.ring)[0]]
      && s'.ring.Ok() && Contents(s'.ring) == Contents(s.ring)[1..]
  {
    GetIsDequeue(s.ring);
  }

  lemma ReadBegins(s: State, r: nat, size: nat)
    requires r < |s.readers| && s.readers[r].phase.Idle?
    ensures Enabled(s, StartRead(r, size))
    ensures Next(s, StartRead(r, size)).readers[r] == s.readers[r].(phase := Wanting(size))
  {
  }
}
