/** The synchronised task list of list_sync.c: its entries, the wrapping expiry test and
    the operations on the ring.  Time is counted in true ticks; `jiffies` is the tick count
    reduced to the width of an unsigned long, and a counter is read back as a 32-bit int.
 */
module TaskList {
  import opened ListHead
  import opened Prelude

  /** HZ and the number of values of an unsigned long. */
  datatype Platform = Platform(hz: nat, ulong: nat) {
    ghost predicate Sane() { 0 < hz && 3 * hz < ulong }
  }

  /** `pid`, `timestamp` and `count` are the fields of the source.  `touched` (the true tick of
      the last jiffies read) and `hits` (the number of increments) are history. */
  datatype TaskInfo = TaskInfo(pid: int, timestamp: nat, count: int, touched: nat, hits: nat) {
    ghost predicate Coherent(p: Platform)
      requires p.ulong > 0
    {
      timestamp == touched % p.ulong && count == Int32(hits)
    }
  }

  /** task_info_alloc */
  function Fresh(p: Platform, pid: int, now: nat): TaskInfo
    requires p.ulong > 0
  {
    TaskInfo(pid, now % p.ulong, 0, now, 0)
  }

  /** The refresh of a hit: a new timestamp and one atomic_inc. */
  function Touch(p: Platform, e: TaskInfo, now: nat): TaskInfo
    requires p.ulong > 0
  {
    TaskInfo(e.pid, now % p.ulong, Int32(e.count + 1), now, e.hits + 1)
  }

  /** `jiffies - ti->timestamp`, an unsigned subtraction. */
  function WrappedAge(p: Platform, e: TaskInfo, now: nat): nat
    requires p.ulong > 0
  {
    (now % p.ulong - e.timestamp) % p.ulong
  }

  predicate Expired(p: Platform, e: TaskInfo, now: nat)
    requires p.ulong > 0
  {
    WrappedAge(p, e, now) > 3 * p.hz && e.count < 5
  }

  /** task_info_find_pid: the first position holding `pid`, or |s|. */
  function FirstIndex(s: seq<TaskInfo>, pid: int): (i: nat)
    ensures i <= |s|
    ensures i < |s| ==> s[i].pid == pid
    ensures forall j :: 0 <= j < i ==> s[j].pid != pid
  {
    if s == [] || s[0].pid == pid then 0 else 1 + FirstIndex(s[1..], pid)
  }

  /** One whole task_info_add_to_list whose lookup read jiffies at `now` and whose
      allocation, if it came to that, read it at `later`. */
  function AddTo(p: Platform, s: seq<TaskInfo>, pid: int, now: nat, later: nat): seq<TaskInfo>
    requires p.ulong > 0
  {
    var i := FirstIndex(s, pid);
    if i < |s| then s[i := Touch(p, s[i], now)] else [Fresh(p, pid, later)] + s
  }

  /** What a traversal decides at each node; `ticks[k]` is the tick of its k-th jiffies read. */
  function Keeps(p: Platform, s: seq<TaskInfo>, purge: bool, ticks: seq<nat>): (keep: seq<bool>)
    requires p.ulong > 0 && |ticks| <= |s|
    ensures |keep| == |ticks|
    ensures forall k :: 0 <= k < |keep| ==> keep[k] == (!purge && !Expired(p, s[k], ticks[k]))
  {
    seq(|ticks|, k requires 0 <= k < |ticks| => !purge && !Expired(p, s[k], ticks[k]))
  }

  /** The list holds an entry of `pid` whose timestamp was read at tick `u` or later. */
  ghost predicate Listed(list: seq<TaskInfo>, pid: int, u: nat) {
    exists i :: 0 <= i < |list| && list[i].pid == pid && list[i].touched >= u
  }

  /** An add whose jiffies reads are no earlier than `u` lists its pid as of `u`, and loses no other. */
  lemma ListedAfterAdd(p: Platform, s: seq<TaskInfo>, pid: int, now: nat, later: nat, u: nat)
    requires p.ulong > 0 && u <= now && u <= later
    ensures Listed(AddTo(p, s, pid, now, later), pid, u)
    ensures forall q :: Listed(s, q, u) ==> Listed(AddTo(p, s, pid, now, later), q, u)
  {
    var i, s' := FirstIndex(s, pid), AddTo(p, s, pid, now, later);
    assert s'[if i < |s| then i else 0].pid == pid;
    forall q | Listed(s, q, u) ensures Listed(s', q, u) {
      var j :| 0 <= j < |s| && s[j].pid == q && s[j].touched >= u;
      assert s'[if i < |s| then j else j + 1].pid == q;
    }
  }

  /** The four adds of task_info_add_for_current; `ticks` holds the two jiffies reads of each. */
  function AddFour(p: Platform, s: seq<TaskInfo>, pids: seq<int>, ticks: seq<(nat, nat)>): seq<TaskInfo>
    requires p.ulong > 0 && |pids| == 4 == |ticks|
  {
    var s1 := AddTo(p, s, pids[0], ticks[0].0, ticks[0].1);
    var s2 := AddTo(p, s1, pids[1], ticks[1].0, ticks[1].1);
    var s3 := AddTo(p, s2, pids[2], ticks[2].0, ticks[2].1);
    AddTo(p, s3, pids[3], ticks[3].0, ticks[3].1)
  }

  /** All four pids are listed then, with entries no older than the first read of jiffies, and so is every pid that
      was listed before. */
  lemma FourListed(p: Platform, s: seq<TaskInfo>, pids: seq<int>, ticks: seq<(nat, nat)>, u: nat)
    requires p.ulong > 0 && |pids| == 4 == |ticks|
    requires forall j :: 0 <= j < 4 ==> u <= ticks[j].0 && u <= ticks[j].1
    ensures forall j :: 0 <= j < 4 ==> Listed(AddFour(p, s, pids, ticks), pids[j], u)
    ensures forall q :: Listed(s, q, u) ==> Listed(AddFour(p, s, pids, ticks), q, u)
  {
    var s1 := AddTo(p, s, pids[0], ticks[0].0, ticks[0].1);
    var s2 := AddTo(p, s1, pids[1], ticks[1].0, ticks[1].1);
    var s3 := AddTo(p, s2, pids[2], ticks[2].0, ticks[2].1);
    ListedAfterAdd(p, s, pids[0], ticks[0].0, ticks[0].1, u);
    ListedAfterAdd(p, s1, pids[1], ticks[1].0, ticks[1].1, u);
    ListedAfterAdd(p, s2, pids[2], ticks[2].0, ticks[2].1, u);
    ListedAfterAdd(p, s3, pids[3], ticks[3].0, ticks[3].1, u);
  }

  // ---------------------------------------------------------------- age and counter

  lemma RemainderIsUnique(m: int, a: int, q: int, r: int)
    requires m > 0 && a == m * q + r && 0 <= r < m
    ensures a % m == r
  {
    var q0, r0 := a / m, a % m;
    var d := q0 - q;
    assert m * d == r - r0 by { assert m * q0 + r0 == m * q + r; assert m * (q0 - q) == m * q0 - m * q; }
    SmallMultipleIsZero(m, d);
  }

  lemma SmallMultipleIsZero(m: int, d: int)
    requires m > 0 && -m < m * d < m
    ensures m * d == 0
  {
    if d >= 1 {
      AtLeastOneMultiple(m, d);
    } else if d <= -1 {
      AtLeastOneMultiple(m, -d);
    }
  }

  lemma AtLeastOneMultiple(m: int, d: int)
    requires m > 0 && d >= 1
    ensures m * d >= m
  {
  }

  lemma WrappedSubtraction(m: nat, a: int, b: int)
    requires m > 0
    ensures (a % m - b % m) % m == (a - b) % m
  {
    var x := a % m - b % m;
    var q := a / m - b / m;
    assert a - b == m * q + x;
    assert x == m * (x / m) + x % m;
    assert a - b == m * (q + x / m) + x % m;
    RemainderIsUnique(m, a - b, q + x / m, x % m);
  }

  /** The unsigned subtraction is the true age modulo the width, across any rollover of jiffies;
      it is the true age exactly when fewer ticks than the width have gone by. */
  lemma AgeAcrossRollover(p: Platform, e: TaskInfo, now: nat)
    requires p.ulong > 0 && e.Coherent(p) && e.touched <= now
    ensures WrappedAge(p, e, now) == (now - e.touched) % p.ulong
    ensures WrappedAge(p, e, now) == now - e.touched <==> now - e.touched < p.ulong
  {
    WrappedSubtraction(p.ulong, now, e.touched);
    if now - e.touched < p.ulong {
      RemainderIsUnique(p.ulong, now - e.touched, 0, now - e.touched);
    }
  }

  lemma TouchCoherent(p: Platform, e: TaskInfo, now: nat)
    requires p.ulong > 0 && e.Coherent(p)
    ensures Touch(p, e, now).Coherent(p)
  {
    Int32Successor(e.hits);
  }

  /** Reaching a count of 5 pins an entry, but only until the counter wraps to a negative value:
      an old entry goes exactly when the 32-bit counter reads below 5. */
  lemma PinnedWhile(p: Platform, e: TaskInfo, now: nat)
    requires p.Sane() && e.Coherent(p) && e.touched <= now
    ensures Expired(p, e, now) <==>
      (now - e.touched) % p.ulong > 3 * p.hz && (e.hits % 0x1_0000_0000 < 5 || e.hits % 0x1_0000_0000 >= 0x8000_0000)
  {
    AgeAcrossRollover(p, e, now);
    Int32BelowFive(e.hits);
  }

  lemma Int32BelowFive(h: nat)
    ensures Int32(h) < 5 <==> h % 0x1_0000_0000 < 5 || h % 0x1_0000_0000 >= 0x8000_0000
  {
  }

  /** A pinned entry does expire once its counter has wrapped. */
  lemma PinWrapsAway(p: Platform, e: TaskInfo)
    requires 0 < p.hz && 3 * p.hz + 1 < p.ulong && e == TaskInfo(1, 0, Int32(0x8000_0000), 0, 0x8000_0000)
    ensures e.hits >= 5 && e.Coherent(p) && Expired(p, e, 3 * p.hz + 1)
  {
    RemainderIsUnique(p.ulong, 0, 0, 0);
    AgeAcrossRollover(p, e, 3 * p.hz + 1);
  }

  // ---------------------------------------------------------------- the module's state

  class TaskTable {
    const ring: List<TaskInfo>
    const p: Platform

    ghost predicate Valid()
      reads this, ring, ring.head, ring.cells
    {
      p.ulong > 0 && ring.Valid()
    }

    constructor (p: Platform)
      requires p.Sane()
      ensures Valid() && ring.nodes == [] && ring.cells == {} && fresh(ring) && fresh(ring.head) && this.p == p
    {
      this.p := p;
      ring := new List();
    }

    method FindPid(pid: int) returns (r: Node?<TaskInfo>)
      requires Valid()
      ensures r == null <==> FirstIndex(ring.Entries(), pid) == |ring.nodes|
      ensures r != null ==> r == ring.nodes[FirstIndex(ring.Entries(), pid)]
    {
      ghost var s := ring.Entries();
      ghost var i := 0;
      assert ring.Linked(0);
      var q := ring.head.next;
      while q != ring.head
        invariant i <= |s| && q == ring.At(i + 1)
        invariant FirstIndex(s, pid) == i + FirstIndex(s[i..], pid)
        decreases |s| - i
      {
        if q.data.pid == pid {
          return q;
        }
        assert s[i..][1..] == s[i + 1..];
        i := i + 1;
        assert ring.Linked(i);
        q := q.next;
      }
      return null;
    }

    /** The first locked region of task_info_add_to_list. */
    method Lookup(pid: int, now: nat) returns (hit: bool)
      requires Valid()
      modifies ring.cells`data
      ensures Valid() && hit == (FirstIndex(old(ring.Entries()), pid) < |ring.nodes|)
      ensures !hit ==> ring.Entries() == old(ring.Entries())
      ensures hit ==> var i := FirstIndex(old(ring.Entries()), pid);
        ring.Entries() == old(ring.Entries())[i := Touch(p, old(ring.Entries())[i], now)]
    {
      var ti := FindPid(pid);
      hit := ti != null;
      if hit {
        ring.Write(ti, FirstIndex(ring.Entries(), pid), Touch(p, ti.data, now));
      }
    }

    /** task_info_add_to_list: jiffies reads `now` at the lookup and `later` at the allocation. */
    method AddToList(pid: int, now: nat, later: nat)
      requires Valid()
      modifies ring`nodes, ring`cells, ring.head`next, ring.head`prev, ring.cells
      ensures Valid() && ring.Entries() == AddTo(p, old(ring.Entries()), pid, now, later)
      ensures ring.freed == old(ring.freed)
      ensures fresh(ring.cells - old(ring.cells))
    {
      var hit := Lookup(pid, now);
      if !hit {
        var ti := new Node(Fresh(p, pid, later));
        ring.Add(ti);
      }
    }

    /** task_info_add_for_current at tick `u` or later: afterwards all four pids are listed. */
    method AddForCurrent(pids: seq<int>, ticks: seq<(nat, nat)>, ghost u: nat)
      requires Valid() && |pids| == 4 == |ticks|
      requires forall j :: 0 <= j < 4 ==> u <= ticks[j].0 && u <= ticks[j].1
      modifies ring`nodes, ring`cells, ring.head`next, ring.head`prev, ring.cells
      ensures Valid() && ring.Entries() == AddFour(p, old(ring.Entries()), pids, ticks)
      ensures forall j :: 0 <= j < 4 ==> Listed(ring.Entries(), pids[j], u)
      ensures forall q :: Listed(old(ring.Entries()), q, u) ==> Listed(ring.Entries(), q, u)
      ensures ring.freed == old(ring.freed)
    {
      FourListed(p, ring.Entries(), pids, ticks, u);
      AddToList(pids[0], ticks[0].0, ticks[0].1);
      AddToList(pids[1], ticks[1].0, ticks[1].1);
      AddToList(pids[2], ticks[2].0, ticks[2].1);
      AddToList(pids[3], ticks[3].0, ticks[3].1);
    }

    /** The body of task_info_remove_expired, and with `purge` that of task_info_purge_list.
        `jiffies(k)` is the tick at which the k-th iteration reads the clock. */
    method Sweep(purge: bool, jiffies: nat -> nat)
      requires Valid()
      modifies ring`nodes, ring`freed, ring.head`next, ring.head`prev, ring.cells`next, ring.cells`prev
      ensures Valid()
      ensures var s := old(ring.Entries());
        var keep := Keeps(p, s, purge, seq(|s|, k requires 0 <= k < |s| => jiffies(k)));
        && ring.Entries() == Split(s, keep, |s|, true)
        && ring.nodes == Split(old(ring.nodes), keep, |s|, true)
        && ring.freed == old(ring.freed) + Split(old(ring.nodes), keep, |s|, false)
      ensures purge ==> ring.nodes == []
    {
      ghost var s := ring.Entries();
      ghost var keep := Keeps(p, s, purge, seq(|s|, k requires 0 <= k < |s| => jiffies(k)));
      var drop := (k: nat, e: TaskInfo) => purge || Expired(p, e, jiffies(k));
      assert keep == Survive(s, drop);
      if purge {
        AllDropped(s, keep, |s|);
      }
      ring.RemoveIf(drop);
    }
  }
}
