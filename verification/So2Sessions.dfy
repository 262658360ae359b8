/** Whole open sessions on the byte device, in any run: from the wake-up of one process to its release, whatever the
    other processes try meanwhile.
 */
module So2Sessions {
  import opened Prelude
  import opened So2
  import opened So2Runs

  /** Process `p` has opened the file by step `a - 1` and does not release it before step `b`. */
  ghost predicate Session(trace: seq<State>, steps: seq<Step>, p: nat, a: nat, b: nat) {
    && Execution(trace, steps) && 0 < a <= b <= |steps| && steps[a - 1] == Wake(p)
    && forall i :: a <= i < b ==> steps[i] != Release(p)
  }

  lemma {:induction false} StaysOpen(trace: seq<State>, steps: seq<Step>, p: nat, a: nat, b: nat)
    requires Session(trace, steps, p, a, b)
    ensures InFile(trace[a]) && p < |trace[a].procs| && trace[a].procs[p] == Opened(0)
    ensures Inv(trace[b]) && p < |trace[b].procs| && trace[b].procs[p].Opened?
  {
    InvAlways(trace, steps, b);
    if a < b {
      StaysOpen(trace, steps, p, a, b - 1);
      assert Ran(trace, steps, b - 1);
    } else {
      assert Ran(trace, steps, a - 1);
    }
  }

  // ---------------------------------------------------------------- one session

  /** What a step of process `p` does to the file it has open, and what it returns; a faulting write leaves some bytes
      where it was to write, and the cursor. */
  function FileStep(f: ByteFile, p: nat, step: Step): (r: (seq<Byte>, ByteFile))
    requires f.Ok()
    ensures r.1.Ok() && |r.1.bytes| == |f.bytes|
  {
    match step
    case Read(q, length, faults) => if q == p && !faults then ReadFile(f, length) else ([], f)
    case Write(q, user, copy) =>
      if q != p then ([], f)
      else (match copy
            case Complete => ([], WriteFile(f, user).1)
            case Faulted(left) => ([], WriteFile(f, left).1.(cursor := f.cursor)))
    case _ => ([], f)
  }

  /** All that the steps return to process `p`, and the file after them. */
  function FileSteps(f: ByteFile, p: nat, steps: seq<Step>): (r: (seq<Byte>, ByteFile))
    requires f.Ok()
    ensures r.1.Ok() && |r.1.bytes| == |f.bytes|
  {
    if steps == [] then ([], f)
    else
      var (out, f1) := FileSteps(f, p, steps[..|steps| - 1]);
      var (more, f2) := FileStep(f1, p, steps[|steps| - 1]);
      (out + more, f2)
  }

  lemma FileStepsMore(f: ByteFile, p: nat, steps: seq<Step>, step: Step)
    requires f.Ok()
    ensures FileSteps(f, p, steps + [step]).1 == FileStep(FileSteps(f, p, steps).1, p, step).1
    ensures FileSteps(f, p, steps + [step]).0 ==
      FileSteps(f, p, steps).0 + FileStep(FileSteps(f, p, steps).1, p, step).0
  {
    assert (steps + [step])[..|steps|] == steps;
  }

  lemma FileStepsSlice(f: ByteFile, p: nat, steps: seq<Step>, a: nat, b: nat, g: ByteFile)
    requires f.Ok() && g.Ok() && a < b <= |steps| && g == FileSteps(f, p, steps[a..b - 1]).1
    ensures FileSteps(f, p, steps[a..b]).1 == FileStep(g, p, steps[b - 1]).1
    ensures FileSteps(f, p, steps[a..b]).0 == FileSteps(f, p, steps[a..b - 1]).0 + FileStep(g, p, steps[b - 1]).0
  {
    assert steps[a..b] == steps[a..b - 1] + [steps[b - 1]];
    FileStepsMore(f, p, steps[a..b - 1], steps[b - 1]);
  }

  /** What the driver returned to process `p` by the steps from `a` to `b`. */
  ghost function Output(trace: seq<State>, steps: seq<Step>, p: nat, a: nat, b: nat): seq<Byte>
    requires Execution(trace, steps) && a <= b <= |steps|
  {
    if a == b then []
    else
      assert Ran(trace, steps, b - 1);
      Output(trace, steps, p, a, b - 1) +
        if steps[b - 1].Read? && steps[b - 1].p == p && !steps[b - 1].faults
        then Returned(trace[b - 1], steps[b - 1]) else []
  }

  /** While one process has the file open, a step of another changes nothing. */
  lemma OthersWait(s: State, step: Step, p: nat)
    requires Inv(s) && p < |s.procs| && s.procs[p].Opened? && Enabled(s, step) && step.p != p
    ensures Next(s, step) == s
  {
  }

  lemma SessionStep(s: State, step: Step, p: nat)
    requires Inv(s) && p < |s.procs| && s.procs[p].Opened? && Enabled(s, step) && step != Release(p)
    ensures InFile(Next(s, step)) && p < |Next(s, step).procs| && Next(s, step).procs[p].Opened?
    ensures View(Next(s, step), p) == FileStep(View(s, p), p, step).1
    ensures step.Read? && step.p == p && !step.faults ==> Returned(s, step) == FileStep(View(s, p), p, step).0
  {
    if step.p == p {
      StepRefines(s, step);
    } else {
      OthersWait(s, step, p);
    }
  }

  lemma OutputMore(trace: seq<State>, steps: seq<Step>, p: nat, a: nat, b: nat)
    requires Session(trace, steps, p, a, b) && a < b
    ensures InFile(trace[b - 1]) && p < |trace[b - 1].procs| && trace[b - 1].procs[p].Opened?
    ensures InFile(trace[b]) && p < |trace[b].procs| && trace[b].procs[p].Opened?
    ensures View(trace[b], p) == FileStep(View(trace[b - 1], p), p, steps[b - 1]).1
    ensures Output(trace, steps, p, a, b) ==
      Output(trace, steps, p, a, b - 1) + FileStep(View(trace[b - 1], p), p, steps[b - 1]).0
  {
    StaysOpen(trace, steps, p, a, b - 1);
    assert Ran(trace, steps, b - 1);
    SessionStep(trace[b - 1], steps[b - 1], p);
  }

  /** From `a` to `b` process `p` got what the byte file returns, and the file holds what the byte file holds. */
  ghost predicate Refined(trace: seq<State>, steps: seq<Step>, p: nat, a: nat, b: nat)
    requires Execution(trace, steps) && a <= b <= |steps| && InFile(trace[a]) && InFile(trace[b])
    requires p < |trace[a].procs| && p < |trace[b].procs| && trace[a].procs[p].Opened? && trace[b].procs[p].Opened?
  {
    && Output(trace, steps, p, a, b) == FileSteps(View(trace[a], p), p, steps[a..b]).0
    && View(trace[b], p) == FileSteps(View(trace[a], p), p, steps[a..b]).1
  }

  lemma SessionGoesOn(trace: seq<State>, steps: seq<Step>, p: nat, a: nat, b: nat)
    requires Session(trace, steps, p, a, b) && a < b && InFile(trace[a]) && InFile(trace[b - 1])
    requires p < |trace[a].procs| && p < |trace[b - 1].procs|
    requires trace[a].procs[p].Opened? && trace[b - 1].procs[p].Opened? && Refined(trace, steps, p, a, b - 1)
    ensures InFile(trace[b]) && p < |trace[b].procs| && trace[b].procs[p].Opened? && Refined(trace, steps, p, a, b)
  {
    OutputMore(trace, steps, p, a, b);
    FileStepsSlice(View(trace[a], p), p, steps, a, b, View(trace[b - 1], p));
    var more := FileStep(View(trace[b - 1], p), p, steps[b - 1]).0;
    calc {
      Output(trace, steps, p, a, b);
      Output(trace, steps, p, a, b - 1) + more;
      FileSteps(View(trace[a], p), p, steps[a..b - 1]).0 + more;
      FileSteps(View(trace[a], p), p, steps[a..b]).0;
    }
  }

  /** In any run, all the reads and writes of an open session, of any sizes, mixed and faulting or not, return what a
      byte file with a cursor returns, and leave what it holds. */
  lemma {:induction false} SessionRefines(trace: seq<State>, steps: seq<Step>, p: nat, a: nat, b: nat)
    requires Session(trace, steps, p, a, b)
    ensures InFile(trace[a]) && InFile(trace[b]) && p < |trace[a].procs| && p < |trace[b].procs|
    ensures trace[a].procs[p] == Opened(0) && trace[b].procs[p].Opened?
    ensures Refined(trace, steps, p, a, b)
  {
    if a < b {
      SessionRefines(trace, steps, p, a, b - 1);
      SessionGoesOn(trace, steps, p, a, b);
    } else {
      StaysOpen(trace, steps, p, a, b);
    }
  }

  // ---------------------------------------------------------------- write, release, open, read

  /** The buffers that process `p` wrote by `steps`. */
  function Chunks(p: nat, steps: seq<Step>): seq<seq<Byte>> {
    if steps == [] then []
    else
      var front, step := Chunks(p, steps[..|steps| - 1]), steps[|steps| - 1];
      if step.Write? && step.p == p then front + [step.user] else front
  }

  /** The sizes that process `p` asked for, in the reads that did not fault. */
  function Sizes(p: nat, steps: seq<Step>): seq<nat> {
    if steps == [] then []
    else
      var front, step := Sizes(p, steps[..|steps| - 1]), steps[|steps| - 1];
      if step.Read? && step.p == p && !step.faults then front + [step.length] else front
  }

  /** Process `p` only writes, and no copy from it faults. */
  predicate OnlyWrites(p: nat, steps: seq<Step>) {
    forall i :: 0 <= i < |steps| && steps[i].p == p && !steps[i].Release? ==> steps[i].Write? && steps[i].copy.Complete?
  }

  predicate NoWrites(steps: seq<Step>) {
    forall i :: 0 <= i < |steps| ==> !steps[i].Write?
  }

  lemma WriteAllMore(bytes: seq<Byte>, chunks: seq<seq<Byte>>, chunk: seq<Byte>)
    ensures WriteAll(bytes, chunks + [chunk]) == WriteFile(WriteAll(bytes, chunks), chunk).1
  {
    assert (chunks + [chunk])[..|chunks|] == chunks;
  }

  lemma ReadAllMore(bytes: seq<Byte>, sizes: seq<nat>, size: nat)
    ensures ReadAll(bytes, sizes + [size]).1 == ReadFile(ReadAll(bytes, sizes).1, size).1
    ensures ReadAll(bytes, sizes + [size]).0 == ReadAll(bytes, sizes).0 + ReadFile(ReadAll(bytes, sizes).1, size).0
  {
    assert (sizes + [size])[..|sizes|] == sizes;
  }

  lemma {:induction false} WritesOnly(bytes: seq<Byte>, p: nat, steps: seq<Step>)
    requires OnlyWrites(p, steps)
    ensures FileSteps(ByteFile(bytes, 0), p, steps).1 == WriteAll(bytes, Chunks(p, steps))
  {
    if steps != [] {
      var front, step := steps[..|steps| - 1], steps[|steps| - 1];
      assert OnlyWrites(p, front) && OnlyWrites(p, [step]) by { assert [step][0] == steps[|steps| - 1]; }
      WritesOnly(bytes, p, front);
      FileStepsMore(ByteFile(bytes, 0), p, front, step);
      assert steps == front + [step];
      if step.Write? && step.p == p {
        WriteAllMore(bytes, Chunks(p, front), step.user);
      }
    }
  }

  lemma {:induction false} ReadsOnly(bytes: seq<Byte>, p: nat, steps: seq<Step>)
    requires NoWrites(steps)
    ensures FileSteps(ByteFile(bytes, 0), p, steps) == ReadAll(bytes, Sizes(p, steps))
  {
    if steps != [] {
      var front, step := steps[..|steps| - 1], steps[|steps| - 1];
      ReadsOnly(bytes, p, front);
      FileStepsMore(ByteFile(bytes, 0), p, front, step);
      assert steps == front + [step];
      if step.Read? && step.p == p && !step.faults {
        ReadAllMore(bytes, Sizes(p, front), step.length);
      } else {
        assert FileSteps(ByteFile(bytes, 0), p, front).0 + [] == FileSteps(ByteFile(bytes, 0), p, front).0;
      }
    }
  }

  lemma {:induction false} BufferKept(trace: seq<State>, steps: seq<Step>, a: nat, b: nat)
    requires Execution(trace, steps) && a <= b <= |steps| && NoWrites(steps[a..b])
    ensures trace[b].buffer == trace[a].buffer && trace[b].size == trace[a].size
  {
    if a < b {
      assert NoWrites(steps[a..b - 1]) by { assert steps[a..b - 1] == steps[a..b][..b - 1 - a]; }
      BufferKept(trace, steps, a, b - 1);
      assert Ran(trace, steps, b - 1);
      assert steps[a..b][b - 1 - a] == steps[b - 1];
    }
  }

  /** The bytes of the file, for whoever opens it. */
  ghost function Held(s: State): seq<Byte>
    requires InFile(s)
  {
    s.buffer[..s.size]
  }

  lemma WritesHeld(trace: seq<State>, steps: seq<Step>, p: nat, a: nat, b: nat)
    requires Session(trace, steps, p, a, b) && OnlyWrites(p, steps[a..b])
    ensures InFile(trace[a]) && InFile(trace[b])
    ensures Held(trace[b]) == WriteAll(Held(trace[a]), Chunks(p, steps[a..b])).bytes
  {
    SessionRefines(trace, steps, p, a, b);
    WritesOnly(Held(trace[a]), p, steps[a..b]);
  }

  lemma ReadsHeld(trace: seq<State>, steps: seq<Step>, q: nat, c: nat, d: nat)
    requires Session(trace, steps, q, c, d) && NoWrites(steps[c..d])
    ensures InFile(trace[c])
    ensures Output(trace, steps, q, c, d) == ReadAll(Held(trace[c]), Sizes(q, steps[c..d])).0
  {
    SessionRefines(trace, steps, q, c, d);
    ReadsOnly(Held(trace[c]), q, steps[c..d]);
  }

  /** Write, release, open, read, in any run: process `p` writes in one session, from `a` to its release at `b`; later
      process `q` has the file open from `c` to `d`.  If nobody wrote in between and the reads of `q` that did not fault
      ask for the whole file, they return all that `p` wrote, cut to the file, followed by the old tail. */
  lemma WriteReleaseOpenRead(trace: seq<State>, steps: seq<Step>, p: nat, a: nat, b: nat, q: nat, c: nat, d: nat)
    requires Session(trace, steps, p, a, b) && OnlyWrites(p, steps[a..b])
    requires Session(trace, steps, q, c, d) && b < c && steps[b] == Release(p) && NoWrites(steps[b..d])
    requires Sum(Sizes(q, steps[c..d])) >= trace[a].size
    ensures InFile(trace[a])
    ensures var all, before := Concat(Chunks(p, steps[a..b])), Held(trace[a]);
      var n := Min(|all|, |before|);
      Output(trace, steps, q, c, d) == all[..n] + before[n..]
  {
    WritesHeld(trace, steps, p, a, b);
    assert steps[b..c] == steps[b..d][..c - b] && steps[c..d] == steps[b..d][c - b..];
    BufferKept(trace, steps, b, c);
    ReadsHeld(trace, steps, q, c, d);
    WriteThenReopenAndRead(Held(trace[a]), Chunks(p, steps[a..b]), Sizes(q, steps[c..d]));
  }
}
