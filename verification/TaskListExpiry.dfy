/** What an expiry scan of the task list guarantees, and exactly how far: an entry's fate is settled by the first and
    the last jiffies read of the scan, unless a lap of jiffies ends in between; and a pinned entry can expire.
 */
module TaskListExpiry {
  import opened ListHead
  import opened Prelude
  import opened TaskList
  import opened TaskListRuns

  /** Within one lap of jiffies an expired entry stays expired. */
  lemma ExpiryIsStable(p: Platform, e: TaskInfo, a: nat, b: nat)
    requires p.Sane() && e.Coherent(p) && e.touched <= a <= b
    requires (a - e.touched) / p.ulong == (b - e.touched) / p.ulong
    requires Expired(p, e, a)
    ensures Expired(p, e, b)
  {
    AgeAcrossRollover(p, e, a);
    AgeAcrossRollover(p, e, b);
    LapRemainders(p.ulong, a - e.touched, b - e.touched);
  }

  lemma LapRemainders(m: nat, x: nat, y: nat)
    requires m > 0 && x <= y && x / m == y / m
    ensures x % m <= y % m
  {
    assert x == m * (x / m) + x % m && y == m * (y / m) + y % m;
  }

  /** The decision of an expiry scan about `e` at tick `mid`, from what holds at its first and last read. */
  lemma DecisionWithinLap(p: Platform, e: TaskInfo, first: nat, mid: nat, last: nat)
    requires p.Sane() && e.Coherent(p) && e.touched <= first <= mid <= last
    requires (first - e.touched) / p.ulong == (last - e.touched) / p.ulong
    ensures Expired(p, e, first) ==> Expired(p, e, mid)
    ensures Expired(p, e, mid) ==> Expired(p, e, last)
  {
    LapBetween(p.ulong, first - e.touched, mid - e.touched, last - e.touched);
    if Expired(p, e, first) { ExpiryIsStable(p, e, first, mid); }
    if Expired(p, e, mid) { ExpiryIsStable(p, e, mid, last); }
  }

  /** An expiry scan drops exactly the entries expired at their own read of jiffies.  So it drops every entry that was
      expired at its first read and keeps every entry that is not expired at its last, as long as jiffies completes no
      lap relative to the entry between the two reads. */
  lemma ExpiryScanOutcome(p: Platform, trace: seq<State>, steps: seq<Step>, n: nat, t: nat, j: nat)
    requires p.Sane() && Execution(p, trace, steps) && n <= |steps|
    requires Enabled(p, trace[n], Unlock(t)) && !trace[n].threads[t].purge && j < |trace[n].threads[t].before|
    ensures var ph := trace[n].threads[t];
      var e, first, last := ph.before[j], ph.ticks[0], ph.ticks[|ph.ticks| - 1];
      && e.touched <= first <= ph.ticks[j] <= last
      && (Keeps(p, ph.before, false, ph.ticks)[j] <==> !Expired(p, e, ph.ticks[j]))
      && ((first - e.touched) / p.ulong == (last - e.touched) / p.ulong ==>
            && (Expired(p, e, first) ==> !Keeps(p, ph.before, false, ph.ticks)[j])
            && (!Expired(p, e, last) ==> Keeps(p, ph.before, false, ph.ticks)[j]))
  {
    InvAlways(p, trace, steps, n);
    var ph := trace[n].threads[t];
    assert ScanOk(p, trace[n], ph);
    var e, first, last := ph.before[j], ph.ticks[0], ph.ticks[|ph.ticks| - 1];
    assert first <= ph.ticks[j] <= last;
    if (first - e.touched) / p.ulong == (last - e.touched) / p.ulong {
      DecisionWithinLap(p, e, first, ph.ticks[j], last);
    }
  }

  lemma LapBetween(m: nat, x: nat, y: nat, z: nat)
    requires m > 0 && x <= y <= z && x / m == z / m
    ensures x / m == y / m == z / m
  {
    LapMonotone(m, x, y);
    LapMonotone(m, y, z);
  }

  lemma LapMonotone(m: nat, x: nat, y: nat)
    requires m > 0 && x <= y
    ensures x / m <= y / m
  {
    var d := x / m - y / m;
    assert x == m * (x / m) + x % m && y == m * (y / m) + y % m;
    assert m * d == m * (x / m) - m * (y / m);
    if d >= 1 {
      AtLeastOneMultiple(m, d);
    }
  }

  /** The pin, in every run: an entry that an expiry scan drops had, at its own read, an age beyond the limit modulo the
      width, and a number of hits that the 32-bit counter shows as less than 5. */
  lemma PinnedInRuns(p: Platform, trace: seq<State>, steps: seq<Step>, n: nat, t: nat, j: nat)
    requires p.Sane() && Execution(p, trace, steps) && n <= |steps|
    requires Enabled(p, trace[n], Unlock(t)) && !trace[n].threads[t].purge && j < |trace[n].threads[t].before|
    ensures var ph := trace[n].threads[t]; var e := ph.before[j];
      && e.touched <= ph.ticks[j]
      && (!Keeps(p, ph.before, false, ph.ticks)[j] <==>
            && (ph.ticks[j] - e.touched) % p.ulong > 3 * p.hz
            && (e.hits % 0x1_0000_0000 < 5 || e.hits % 0x1_0000_0000 >= 0x8000_0000))
  {
    ExpiryScanOutcome(p, trace, steps, n, t, j);
    InvAlways(p, trace, steps, n);
    var ph := trace[n].threads[t];
    assert ScanOk(p, trace[n], ph);
    PinnedWhile(p, ph.before[j], ph.ticks[j]);
  }

  // ---------------------------------------------------------------- exactly when

  /** An entry that is expired at one tick is expired at every tick up to another exactly if jiffies completes no lap
      relative to it in between. */
  lemma ExpiredThroughout(p: Platform, e: TaskInfo, first: nat, last: nat)
    requires p.Sane() && e.Coherent(p) && e.touched <= first <= last && Expired(p, e, first)
    ensures (forall mid :: first <= mid <= last ==> Expired(p, e, mid)) <==>
      (first - e.touched) / p.ulong == (last - e.touched) / p.ulong
  {
    var m, x, z := p.ulong, first - e.touched, last - e.touched;
    if x / m == z / m {
      forall mid | first <= mid <= last ensures Expired(p, e, mid) {
        DecisionWithinLap(p, e, first, mid, last);
      }
    } else {
      LapMonotone(m, x, z);
      var y := NextLap(m, x, z);
      AgeAcrossRollover(p, e, e.touched + y);
      assert !Expired(p, e, e.touched + y);
    }
  }

  /** An entry that is not expired at one tick was not expired at any tick since another exactly if jiffies completed no
      lap relative to it in between, or it is pinned, or no age is beyond the limit. */
  lemma SparedThroughout(p: Platform, e: TaskInfo, first: nat, last: nat)
    requires p.Sane() && e.Coherent(p) && e.touched <= first <= last && !Expired(p, e, last)
    ensures (forall mid :: first <= mid <= last ==> !Expired(p, e, mid)) <==>
      ((first - e.touched) / p.ulong == (last - e.touched) / p.ulong || e.count >= 5 || p.ulong == 3 * p.hz + 1)
  {
    var m, x, z := p.ulong, first - e.touched, last - e.touched;
    if x / m == z / m {
      forall mid | first <= mid <= last ensures !Expired(p, e, mid) {
        DecisionWithinLap(p, e, first, mid, last);
      }
    } else if e.count < 5 && m > 3 * p.hz + 1 {
      LapMonotone(m, x, z);
      var y := NextLap(m, x, z);
      AgeAcrossRollover(p, e, e.touched + y - 1);
      assert Expired(p, e, e.touched + y - 1);
    }
  }

  /** The end of the lap that `x` is in. */
  lemma NextLap(m: nat, x: nat, z: nat) returns (y: nat)
    requires m > 0 && x <= z && x / m < z / m
    ensures x < y <= z && y % m == 0 && (y - 1) % m == m - 1
  {
    var a, b := x / m, z / m;
    y := m * a + m;
    assert x == m * a + x % m && z == m * b + z % m;
    ProductStep(m, a, b);
    RemainderIsUnique(m, y, a + 1, 0);
    RemainderIsUnique(m, y - 1, a, m - 1);
  }

  lemma ProductStep(m: nat, a: nat, b: nat)
    requires m > 0 && a < b
    ensures m * (a + 1) == m * a + m <= m * b
  {
    assert m * b - m * (a + 1) == m * (b - a - 1);
  }

  /** The proviso is needed: an entry expired at the first read is not expired one tick later
      when that tick completes the lap. */
  lemma LapRescuesEntry(p: Platform, pid: int)
    requires 0 < p.hz && 3 * p.hz + 1 < p.ulong
    ensures var e := Fresh(p, pid, 0);
      e.Coherent(p) && Expired(p, e, p.ulong - 1) && !Expired(p, e, p.ulong)
  {
    var e := Fresh(p, pid, 0);
    AgeAcrossRollover(p, e, p.ulong - 1);
    AgeAcrossRollover(p, e, p.ulong);
    RemainderIsUnique(p.ulong, p.ulong, 1, 0);
  }

  // ---------------------------------------------------------------- runs

  /** A run of one thread that adds pid 1 and then pid 2 at tick 0. */
  lemma TwoEntries(p: Platform) returns (trace: seq<State>, steps: seq<Step>)
    requires p.ulong > 0
    ensures Execution(p, trace, steps)
    ensures trace[|steps|] == State(0, [Fresh(p, 2, 0), Fresh(p, 1, 0)], [Idle], multiset{1, 2}, [])
  {
    trace, steps := OneEntryAdded(p, 1);
    trace, steps := Extend(p, trace, steps, Lookup(0, 2));
    trace, steps := Extend(p, trace, steps, Alloc(0));
    trace, steps := Extend(p, trace, steps, Insert(0));
  }

  lemma OneEntryAdded(p: Platform, pid: int) returns (trace: seq<State>, steps: seq<Step>)
    requires p.ulong > 0
    ensures Execution(p, trace, steps)
    ensures trace[|steps|] == State(0, [Fresh(p, pid, 0)], [Idle], multiset{pid}, [])
  {
    trace, steps := [State(0, [], [Idle], multiset{}, [])], [];
    trace, steps := Extend(p, trace, steps, Lookup(0, pid));
    trace, steps := Extend(p, trace, steps, Alloc(0));
    trace, steps := Extend(p, trace, steps, Insert(0));
  }

  /** A run in which a lap ends between the two jiffies reads of one expiry scan.  The entry of pid 1 is expired at the
      first read, and the scan leaves it; the entry of pid 2 is not expired at the last read, and the scan frees it. */
  lemma LapMisleadsScan(p: Platform) returns (trace: seq<State>, steps: seq<Step>)
    requires 0 < p.hz && 3 * p.hz + 1 < p.ulong
    ensures Execution(p, trace, steps) && Enabled(p, trace[|steps|], Unlock(0))
    ensures var s := trace[|steps|]; var ph := s.threads[0];
      && !ph.purge && ph.before == [Fresh(p, 2, 0), Fresh(p, 1, 0)] && |ph.ticks| == 2
      && Expired(p, ph.before[1], ph.ticks[0]) && s.list == [ph.before[1]]
      && !Expired(p, ph.before[0], ph.ticks[1]) && s.removed == [ph.before[0]]
  {
    LapRescuesEntry(p, 1);
    LapRescuesEntry(p, 2);
    var e1, e2, u := Fresh(p, 1, 0), Fresh(p, 2, 0), p.ulong;
    trace, steps := ScanLocks(p, u - 1);
    FirstVisit(p, e1, e2, u - 1);
    trace, steps := Extend(p, trace, steps, Visit(0));
    trace, steps := Extend(p, trace, steps, Tick(1));
    SecondVisit(p, e1, e2, u - 1, u);
    assert trace[|steps|] == Scanned(u, [e1], [e2, e1], [u - 1], [e2]);
    trace, steps := Extend(p, trace, steps, Visit(0));
    assert trace[|steps|] == Scanned(u, [e1], [e2, e1], [u - 1, u], [e2]);
  }

  lemma ScanLocks(p: Platform, now: nat) returns (trace: seq<State>, steps: seq<Step>)
    requires p.ulong > 0
    ensures Execution(p, trace, steps)
    ensures var list := [Fresh(p, 2, 0), Fresh(p, 1, 0)]; trace[|steps|] == Scanned(now, list, list, [], [])
  {
    trace, steps := TwoEntries(p);
    trace, steps := Extend(p, trace, steps, Tick(now));
    trace, steps := Extend(p, trace, steps, Lock(0, false));
  }

  ghost function Scanned(now: nat, list: seq<TaskInfo>, before: seq<TaskInfo>, ticks: seq<nat>,
                         removed: seq<TaskInfo>): State
  {
    State(now, list, [Scanning(false, before, ticks)], multiset{1, 2}, removed)
  }

  lemma FirstVisit(p: Platform, e1: TaskInfo, e2: TaskInfo, now: nat)
    requires p.ulong > 0 && Expired(p, e2, now)
    ensures var s := Scanned(now, [e2, e1], [e2, e1], [], []);
      Enabled(p, s, Visit(0)) && Next(p, s, Visit(0)) == Scanned(now, [e1], [e2, e1], [now], [e2])
  {
    var s := Scanned(now, [e2, e1], [e2, e1], [], []);
    assert Kept(p, s.threads[0]) == 0;
    assert s.list[..0] + s.list[1..] == [e1];
    assert [] + [now] == [now] && [] + [e2] == [e2];
    assert s.threads[0 := Scanning(false, [e2, e1], [now])] == [Scanning(false, [e2, e1], [now])];
  }

  lemma SecondVisit(p: Platform, e1: TaskInfo, e2: TaskInfo, first: nat, now: nat)
    requires p.ulong > 0 && Expired(p, e2, first) && !Expired(p, e1, now)
    ensures var s := Scanned(now, [e1], [e2, e1], [first], [e2]);
      Enabled(p, s, Visit(0)) && Next(p, s, Visit(0)) == Scanned(now, [e1], [e2, e1], [first, now], [e2])
  {
    var s := Scanned(now, [e1], [e2, e1], [first], [e2]);
    AllDropped([e2, e1], Keeps(p, [e2, e1], false, [first]), 1);
    assert Kept(p, s.threads[0]) == 0;
    assert [first] + [now] == [first, now];
    assert s.threads[0 := Scanning(false, [e2, e1], [first, now])] == [Scanning(false, [e2, e1], [first, now])];
  }

  /** Every number of hits is reached by adding one pid over and over. */
  lemma {:induction false} HitsReachable(p: Platform, pid: int, k: nat) returns (trace: seq<State>, steps: seq<Step>)
    requires p.ulong > 0
    ensures Execution(p, trace, steps)
    ensures var s := trace[|steps|];
      s.now == 0 && s.list == [TaskInfo(pid, 0, Int32(k), 0, k)] && s.threads == [Idle] && s.removed == []
  {
    RemainderIsUnique(p.ulong, 0, 0, 0);
    if k == 0 {
      trace, steps := OneEntryAdded(p, pid);
    } else {
      trace, steps := HitsReachable(p, pid, k - 1);
      Int32Successor(k - 1);
      trace, steps := Extend(p, trace, steps, Lookup(0, pid));
    }
  }

  /** A run in which an expiry scan frees an entry that was hit 2^31 times. */
  lemma PinnedEntryFreed(p: Platform) returns (trace: seq<State>, steps: seq<Step>)
    requires 0 < p.hz && 3 * p.hz + 1 < p.ulong
    ensures Execution(p, trace, steps) && trace[|steps|].list == []
    ensures |trace[|steps|].removed| == 1 && trace[|steps|].removed[0].hits == 0x8000_0000
  {
    trace, steps := HitsReachable(p, 1, 0x8000_0000);
    PinWrapsAway(p, trace[|steps|].list[0]);
    trace, steps := Extend(p, trace, steps, Tick(3 * p.hz + 1));
    trace, steps := Extend(p, trace, steps, Lock(0, false));
    assert Kept(p, trace[|steps|].threads[0]) == 0;
    trace, steps := Extend(p, trace, steps, Visit(0));
  }
}
