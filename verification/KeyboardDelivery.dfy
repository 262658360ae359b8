/** What becomes of every accepted character, in every interleaving: it is still unread, or it was discarded by a reset,
    delivered to exactly one reader, is on its way to one, or was lost by a failing put_user.
 */
module KeyboardDelivery {
  import opened Keyboard
  import opened KeyboardRuns

  // ---------------------------------------------------------------- the characters of one reader

  /** Of the first `k` accepted characters, the positions of those that reader `r` dequeued and did not lose. */
  function Mine(owner: map<nat, nat>, lost: set<nat>, r: nat, k: nat): seq<nat> {
    if k == 0 then []
    else if k - 1 in owner && owner[k - 1] == r && k - 1 !in lost then Mine(owner, lost, r, k - 1) + [k - 1]
    else Mine(owner, lost, r, k - 1)
  }

  lemma {:induction false} MineOnly(owner: map<nat, nat>, lost: set<nat>, r: nat, k: nat, i: nat)
    ensures i in Mine(owner, lost, r, k) <==> i < k && i in owner && owner[i] == r && i !in lost
  {
    if k > 0 {
      MineOnly(owner, lost, r, k - 1, i);
    }
  }

  lemma {:induction false} MineFrame(owner: map<nat, nat>, lost: set<nat>,
                                     owner': map<nat, nat>, lost': set<nat>, r: nat, k: nat)
    requires forall i: nat :: i < k ==>
      ((i in owner && owner[i] == r && i !in lost) <==> (i in owner' && owner'[i] == r && i !in lost'))
    ensures Mine(owner, lost, r, k) == Mine(owner', lost', r, k)
  {
    if k > 0 {
      MineFrame(owner, lost, owner', lost', r, k - 1);
    }
  }

  lemma {:induction false} MineGap(owner: map<nat, nat>, lost: set<nat>, r: nat, k: nat, n: nat)
    requires k <= n && forall i: nat :: k <= i < n ==> i !in owner
    ensures Mine(owner, lost, r, n) == Mine(owner, lost, r, k)
    decreases n - k
  {
    if k < n {
      MineGap(owner, lost, r, k, n - 1);
    }
  }

  /** Losing the last of them leaves the others. */
  lemma {:induction false} MineLoses(owner: map<nat, nat>, lost: set<nat>, r: nat, k: nat, front: seq<nat>, i: nat)
    requires Mine(owner, lost, r, k) == front + [i]
    ensures Mine(owner, lost + {i}, r, k) == front
  {
    var m := Mine(owner, lost, r, k);
    assert m[..|m| - 1] == front && m[|m| - 1] == i;
    if k - 1 in owner && owner[k - 1] == r && k - 1 !in lost {
      MineFrame(owner, lost, owner, lost + {i}, r, k - 1);
    } else {
      MineLoses(owner, lost, r, k - 1, front, i);
    }
  }

  // ---------------------------------------------------------------- where every character is

  ghost predicate Unread(s: State, i: nat) { |s.accepted| - s.ring.count <= i < |s.accepted| }

  ghost predicate Reached(s: State, i: nat) { exists r :: 0 <= r < |s.readers| && i in s.readers[r].at }

  /** Between the unlock and the put_user of some reader. */
  ghost predicate InFlight(s: State, i: nat) { exists r :: 0 <= r < |s.readers| && i in HeldAt(s.readers[r].phase) }

  function HeldAt(ph: Phase): seq<nat> {
    if ph.Holding? then [ph.i] else []
  }

  function Held(ph: Phase): seq<char> {
    if ph.Holding? then [ph.c] else []
  }

  /** What left the ring was either dequeued by a reader or discarded by a reset; only what was dequeued can be lost. */
  ghost predicate LeftOk(s: State) {
    && (forall i :: i in s.owner ==> i < |s.accepted| - s.ring.count && s.owner[i] < |s.readers| && i !in s.cleared)
    && (forall i :: i in s.lost ==> i in s.owner)
    && (forall i :: i in s.cleared ==> i < |s.accepted| - s.ring.count)
    && (forall i: nat :: i < |s.accepted| - s.ring.count ==> i in s.owner || i in s.cleared)
  }

  /** Reader `r` was given exactly the characters it dequeued, in order, except the lost ones and one in flight. */
  ghost predicate Exact(s: State, r: nat)
    requires r < |s.readers| && s.ring.count <= |s.accepted|
  {
    s.readers[r].at + HeldAt(s.readers[r].phase) == Mine(s.owner, s.lost, r, |s.accepted| - s.ring.count)
  }

  ghost predicate PlacesOk(s: State) {
    QueueOk(s) && LeftOk(s) && forall r :: 0 <= r < |s.readers| ==> Exact(s, r)
  }

  lemma StepKeepsLeft(s: State, step: Step)
    requires PlacesOk(s) && Enabled(s, step)
    ensures LeftOk(Next(s, step))
  {
    if step.Deliver? && step.fault {
      var r := step.r;
      assert Exact(s, r);
      MineOnly(s.owner, s.lost, r, |s.accepted| - s.ring.count, s.readers[r].phase.i);
      assert s.readers[r].phase.i in s.readers[r].at + HeldAt(s.readers[r].phase);
    }
  }

  lemma TakeKeepsExact(s: State, t: nat, r: nat)
    requires PlacesOk(s) && Enabled(s, Take(t)) && r < |s.readers|
    ensures Taken(s, t).ring.count <= |s.accepted| && Exact(Taken(s, t), r)
  {
    assert Exact(s, r);
    var s', base := Taken(s, t), |s.accepted| - s.ring.count;
    if s'.owner != s.owner {
      MineFrame(s.owner, s.lost, s'.owner, s.lost, r, base);
    }
  }

  lemma DeliverKeepsExact(s: State, t: nat, fault: bool, r: nat)
    requires PlacesOk(s) && Enabled(s, Deliver(t, fault)) && r < |s.readers|
    ensures Exact(Delivered(s, t, fault), r)
  {
    assert Exact(s, t) && Exact(s, r);
    var i, base := s.readers[t].phase.i, |s.accepted| - s.ring.count;
    if fault {
      MineLoses(s.owner, s.lost, t, base, s.readers[t].at, i);
      assert i in s.readers[t].at + [i];
      MineOnly(s.owner, s.lost, t, base, i);
      if r != t {
        MineFrame(s.owner, s.lost, s.owner, s.lost + {i}, r, base);
      }
    }
  }

  lemma ClearKeepsExact(s: State, r: nat)
    requires PlacesOk(s) && r < |s.readers|
    ensures Exact(Next(s, Clear), r)
  {
    assert Exact(s, r);
    MineGap(s.owner, s.lost, r, |s.accepted| - s.ring.count, |s.accepted|);
  }

  lemma StepKeepsPlaces(s: State, step: Step)
    requires PlacesOk(s) && Enabled(s, step)
    ensures PlacesOk(Next(s, step))
  {
    StepKeepsQueue(s, step);
    StepKeepsLeft(s, step);
    var s' := Next(s, step);
    forall r | 0 <= r < |s'.readers| ensures Exact(s', r) {
      assert Exact(s, r);
      match step
      case Take(t) => TakeKeepsExact(s, t, r);
      case Deliver(t, fault) => DeliverKeepsExact(s, t, fault, r);
      case Clear => ClearKeepsExact(s, r);
      case _ =>
    }
  }

  lemma PlacesAtFirst(s: State)
    requires Initial(s)
    ensures PlacesOk(s)
  {
  }

  lemma {:induction false} PlacesAlways(trace: seq<State>, steps: seq<Step>, n: nat)
    requires Execution(trace, steps) && n <= |steps|
    ensures PlacesOk(trace[n])
  {
    if n == 0 {
      PlacesAtFirst(trace[0]);
    } else {
      assert Ran(trace, steps, n - 1);
      PlacesAlways(trace, steps, n - 1);
      StepKeepsPlaces(trace[n - 1], steps[n - 1]);
    }
  }

  /** Each reader receives exactly what it dequeued: in every run, what put_user delivered to it, with the character in
      flight, is what it took out of the ring, in stream order, without what its failing put_users lost. */
  lemma ReaderGetsItsOwn(trace: seq<State>, steps: seq<Step>, n: nat, r: nat)
    requires Execution(trace, steps) && n <= |steps| && r < |trace[n].readers|
    ensures var s := trace[n];
      && s.ring.count <= |s.accepted|
      && s.readers[r].at + HeldAt(s.readers[r].phase) == Mine(s.owner, s.lost, r, |s.accepted| - s.ring.count)
  {
    PlacesAlways(trace, steps, n);
    assert Exact(trace[n], r);
  }

  function One(b: bool): nat { if b then 1 else 0 }

  /** Where a character that left the ring is, by its owner. */
  lemma OwnedPlace(s: State, i: nat)
    requires PlacesOk(s) && ReadersOk(s) && i in s.owner
    ensures One(Reached(s, i)) + One(InFlight(s, i)) + One(i in s.lost) == 1
  {
    var q, base := s.owner[i], |s.accepted| - s.ring.count;
    assert Exact(s, q) && ReaderOk(s, q);
    MineOnly(s.owner, s.lost, q, base, i);
    assert i in s.readers[q].at + HeldAt(s.readers[q].phase) <==> i !in s.lost;
    forall r | 0 <= r < |s.readers| && r != q ensures i !in s.readers[r].at && i !in HeldAt(s.readers[r].phase) {
      assert Exact(s, r);
      MineOnly(s.owner, s.lost, r, base, i);
      assert i !in s.readers[r].at + HeldAt(s.readers[r].phase);
    }
  }

  lemma UnownedPlace(s: State, i: nat)
    requires PlacesOk(s) && i !in s.owner
    ensures !Reached(s, i) && !InFlight(s, i) && i !in s.lost
  {
    forall r | 0 <= r < |s.readers| ensures i !in s.readers[r].at && i !in HeldAt(s.readers[r].phase) {
      assert Exact(s, r);
      MineOnly(s.owner, s.lost, r, |s.accepted| - s.ring.count, i);
      assert i !in s.readers[r].at + HeldAt(s.readers[r].phase);
    }
  }

  /** Every accepted character is in exactly one place, at every point of every run. */
  lemma EveryCharacterHasOnePlace(trace: seq<State>, steps: seq<Step>, n: nat, i: nat)
    requires Execution(trace, steps) && n <= |steps| && i < |trace[n].accepted|
    ensures var s := trace[n];
      One(Unread(s, i)) + One(i in s.cleared) + One(Reached(s, i)) + One(InFlight(s, i)) + One(i in s.lost) == 1
  {
    PlacesAlways(trace, steps, n);
    InvAlways(trace, steps, n);
    if i in trace[n].owner { OwnedPlace(trace[n], i); } else { UnownedPlace(trace[n], i); }
  }

  // ---------------------------------------------------------------- runs without losses

  ghost predicate Faultless(steps: seq<Step>, n: nat)
    requires n <= |steps|
  {
    forall i :: 0 <= i < n ==> !(steps[i].Deliver? && steps[i].fault)
  }

  ghost predicate Resetless(steps: seq<Step>, n: nat)
    requires n <= |steps|
  {
    forall i :: 0 <= i < n ==> !steps[i].Clear?
  }

  lemma {:induction false} NothingGone(trace: seq<State>, steps: seq<Step>, n: nat)
    requires Execution(trace, steps) && n <= |steps|
    ensures Faultless(steps, n) ==> trace[n].lost == {}
    ensures Resetless(steps, n) ==> trace[n].cleared == {}
    ensures |trace[n].readers| == |trace[0].readers|
  {
    if n > 0 {
      assert Ran(trace, steps, n - 1);
      NothingGone(trace, steps, n - 1);
    }
  }

  /** When no put_user fails and no reset comes, every character that left the ring has reached a reader or is in flight
      to one, whatever the number of readers. */
  lemma NothingIsLost(trace: seq<State>, steps: seq<Step>, n: nat, i: nat)
    requires Execution(trace, steps) && n <= |steps| && Faultless(steps, n) && Resetless(steps, n)
    requires i < |trace[n].accepted| && !Unread(trace[n], i)
    ensures Reached(trace[n], i) || InFlight(trace[n], i)
  {
    NothingGone(trace, steps, n);
    EveryCharacterHasOnePlace(trace, steps, n, i);
  }

  lemma {:induction false} AllMine(owner: map<nat, nat>, k: nat)
    requires forall i: nat :: i < k ==> i in owner && owner[i] == 0
    ensures Mine(owner, {}, 0, k) == seq(k, i => i)
  {
    if k > 0 {
      AllMine(owner, k - 1);
    }
  }

  lemma ReaderChars(s: State, r: nat)
    requires ReadersOk(s) && r < |s.readers|
    ensures var at, got := s.readers[r].at + HeldAt(s.readers[r].phase), s.readers[r].got + Held(s.readers[r].phase);
      |got| == |at| && forall j :: 0 <= j < |at| ==> at[j] < |s.accepted| && got[j] == s.accepted[at[j]]
  {
    assert ReaderOk(s, r);
    forall j | 0 <= j < |s.readers[r].at| ensures Owns(s, r, s.readers[r].at[j], s.readers[r].got[j]) {
    }
  }

  /** The stream: with one reader, no failing put_user and no reset, what was delivered, then the character in flight,
      then what is unread spell the presses that did not arrive at 1024 unread characters. */
  lemma StreamDelivered(trace: seq<State>, steps: seq<Step>, n: nat)
    requires Execution(trace, steps) && n <= |steps| && |trace[n].readers| == 1
    requires Faultless(steps, n) && Resetless(steps, n)
    ensures var s := trace[n];
      && s.ring.Ok()
      && s.readers[0].got + Held(s.readers[0].phase) + Contents(s.ring) == Stored(s.events)
  {
    var s := trace[n];
    InvAlways(trace, steps, n);
    PlacesAlways(trace, steps, n);
    NothingGone(trace, steps, n);
    var base, got := |s.accepted| - s.ring.count, s.readers[0].got + Held(s.readers[0].phase);
    AllMine(s.owner, base);
    assert Exact(s, 0);
    ReaderChars(s, 0);
    assert got == s.accepted[..base];
    assert s.accepted == s.accepted[..base] + s.accepted[base..];
  }
}
