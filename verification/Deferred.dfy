/** The deferred-work device of deferred.c: a timer whose handler sleeps, queues work or polls a
    list of monitored tasks, on each of which the module holds a reference.
 */
module Deferred {
  import opened ListHead
  import opened Prelude

  type Task = nat

  /** TIMER_TYPE_NONE, TIMER_TYPE_SET, TIMER_TYPE_ALLOC and TIMER_TYPE_MON */
  datatype Mode = ModeNone | ModeSet | ModeAlloc | ModeMon

  datatype Timer = Stopped | Pending(deadline: nat)

  datatype Errno = ESRCH | ENOMEM | ENOTTY

  datatype Result<+T> = Ok(value: T) | Err(error: Errno)

  /** For MON: what the pid lookup finds, and whether kmalloc succeeds. */
  datatype Command = Set(delay: nat) | Cancel | Alloc(delay: nat) | Mon(found: Option<Task>, memory: bool) | Unknown

  class Device {
    const hz: nat
    var mode: Mode
    var timer: Timer
    var queued: bool
    const list: List<Task>
    ghost var refs: multiset<Task>  // get_task_struct minus put_task_struct

    /** The module holds one reference for each listed node. */
    ghost predicate Balanced()
      reads this`refs, list, list.head, list.cells
    {
      list.Valid() && refs == multiset(list.Entries())
    }

    /** deferred_init */
    constructor (hz: nat)
      requires hz > 0
      ensures Balanced() && list.nodes == [] && mode == ModeNone && timer == Stopped && !queued && this.hz == hz
      ensures fresh(list) && fresh(list.head)
    {
      this.hz := hz;
      mode, timer, queued := ModeNone, Stopped, false;
      list := new List();
      refs := multiset{};
    }

    method GetProc(found: Option<Task>, memory: bool) returns (r: Result<Node<Task>>)
      requires Balanced()
      modifies this`refs
      ensures found.None? ==> r == Err(ESRCH)
      ensures found.Some? && !memory ==> r == Err(ENOMEM)
      ensures found.Some? && memory ==> r.Ok? && fresh(r.value) && r.value.data == found.value
      ensures r.Ok? ==> list.Valid() && refs == multiset(list.Entries()) + multiset{found.value}
      ensures r.Err? ==> Balanced()
    {
      if found.None? { return Err(ESRCH); }
      if !memory { return Err(ENOMEM); }
      var p := new Node(found.value);
      refs := refs + multiset{found.value};
      r := Ok(p);
    }

    /** put_task_struct on each of `tasks`: a reference that is not held cannot be put. */
    ghost method Put(tasks: multiset<Task>)
      requires tasks <= refs
      modifies this`refs
      ensures refs == old(refs) - tasks
    {
      refs := refs - tasks;
    }

    /** The traversal that both the handler and the exit run: drops the entries for which `gone` holds
        at their visit, and their references. */
    method Reap(gone: (nat, Task) -> bool)
      requires Balanced()
      modifies this`refs, list`nodes, list`freed, list.head`next, list.head`prev, list.cells`next, list.cells`prev
      ensures Balanced() && timer == old(timer) && queued == old(queued)
      ensures var keep := Survive(old(list.Entries()), gone);
        && list.Entries() == Split(old(list.Entries()), keep, |keep|, true)
        && list.freed == old(list.freed) + Split(old(list.nodes), keep, |keep|, false)
        && refs == old(refs) - multiset(Split(old(list.Entries()), keep, |keep|, false))
    {
      ghost var was, keep := list.Entries(), Survive(list.Entries(), gone);
      list.RemoveIf(gone);
      SplitPartitions(was, keep, |keep|);
      assert was[..|keep|] == was;
      Put(multiset(Split(was, keep, |keep|, false)));
    }

    /** The MON branch of timer_handler: `dead(k, t)` is what the k-th check sees of task `t`. */
    method Poll(now: nat, dead: (nat, Task) -> bool)
      requires Balanced()
      modifies this`timer, this`refs,
               list`nodes, list`freed, list.head`next, list.head`prev, list.cells`next, list.cells`prev
      ensures Balanced() && timer == Pending(now + hz)
      ensures var keep := Survive(old(list.Entries()), dead);
        && list.Entries() == Split(old(list.Entries()), keep, |keep|, true)
        && list.freed == old(list.freed) + Split(old(list.nodes), keep, |keep|, false)
    {
      Reap(dead);
      label Rearm:
      timer := Pending(now + hz);
      assert unchanged@Rearm(list) && unchanged@Rearm(list.head) && unchanged@Rearm(list.cells);
    }

    method TimerHandler(now: nat, dead: (nat, Task) -> bool)
      requires Balanced()
      modifies this`timer, this`queued, this`refs,
               list`nodes, list`freed, list.head`next, list.head`prev, list.cells`next, list.cells`prev
      ensures Balanced()
      ensures queued == (old(queued) || mode == ModeAlloc)
      ensures mode != ModeMon ==> timer == old(timer) && list.nodes == old(list.nodes) && list.freed == old(list.freed)
      ensures mode == ModeMon ==> timer == Pending(now + hz)
      ensures mode == ModeMon ==> var keep := Survive(old(list.Entries()), dead);
        list.Entries() == Split(old(list.Entries()), keep, |keep|, true)
    {
      match mode
      case ModeAlloc => queued := true;
      case ModeMon => Poll(now, dead);
      case _ =>
    }

    /** The MON command after get_proc: link the node, switch the mode, arm the timer. */
    method Attach(p: Node<Task>, now: nat)
      requires list.Valid() && refs == multiset(list.Entries()) + multiset{p.data}
      requires p != list.head && p !in list.nodes && p !in list.freed
      modifies this`mode, this`timer,
               list`nodes, list`cells, list.head`next, list.head`prev, list.cells`prev, p`next, p`prev
      ensures Balanced() && mode == ModeMon && timer == Pending(now + hz)
      ensures list.Entries() == [p.data] + old(list.Entries())
    {
      list.Add(p);
      MultisetCons(p.data, old(list.Entries()));
      label Armed:
      mode := ModeMon;
      timer := Pending(now + hz);
      assert unchanged@Armed(list) && unchanged@Armed(list.head) && unchanged@Armed(list.cells);
    }

    /** The MON command */
    method Monitor(found: Option<Task>, memory: bool, now: nat) returns (r: Result<()>)
      requires Balanced()
      modifies this`mode, this`timer, this`refs, list`nodes, list`cells, list.head`next, list.head`prev, list.cells`prev
      ensures Balanced()
      ensures r == if found.None? then Err(ESRCH) else if !memory then Err(ENOMEM) else Ok(())
      ensures r.Ok? ==>
        mode == ModeMon && timer == Pending(now + hz) && list.Entries() == [found.value] + old(list.Entries())
      ensures r.Err? ==> mode == old(mode) && timer == old(timer) && list.Entries() == old(list.Entries())
    {
      var p := GetProc(found, memory);
      if p.Err? { return Err(p.error); }
      Attach(p.value, now);
      r := Ok(());
    }

    /** deferred_ioctl at tick `now` */
    method Ioctl(cmd: Command, now: nat) returns (r: Result<()>)
      requires Balanced()
      modifies this`mode, this`timer, this`refs, list`nodes, list`cells, list.head`next, list.head`prev, list.cells`prev
      ensures Balanced()
      ensures match cmd
        case Set(d) => r == Ok(()) && mode == ModeSet && timer == Pending(now + d * hz)
        case Alloc(d) => r == Ok(()) && mode == ModeAlloc && timer == Pending(now + d * hz)
        case Cancel => r == Ok(()) && mode == old(mode) && timer == Stopped
        case Mon(Some(t), true) => r == Ok(()) && mode == ModeMon && timer == Pending(now + hz)
        case Mon(None, _) => r == Err(ESRCH) && mode == old(mode) && timer == old(timer)
        case Mon(_, _) => r == Err(ENOMEM) && mode == old(mode) && timer == old(timer)
        case Unknown => r == Err(ENOTTY) && mode == old(mode) && timer == old(timer)
      ensures list.Entries() ==
        if cmd.Mon? && r.Ok? then [cmd.found.value] + old(list.Entries()) else old(list.Entries())
    {
      match cmd
      case Set(d) =>
        mode := ModeSet;
        timer := Pending(now + d * hz);
        r := Ok(());
      case Cancel =>
        timer := Stopped;
        r := Ok(());
      case Alloc(d) =>
        mode := ModeAlloc;
        timer := Pending(now + d * hz);
        r := Ok(());
      case Mon(found, memory) =>
        r := Monitor(found, memory, now);
      case Unknown =>
        r := Err(ENOTTY);
    }

    /** deferred_exit, once the handler is not running: timer_delete_sync, flush, free the list. */
    method Exit()
      requires Balanced()
      modifies this`timer, this`queued, this`refs,
               list`nodes, list`freed, list.head`next, list.head`prev, list.cells`next, list.cells`prev
      ensures list.Valid() && list.nodes == [] && refs == multiset{} && timer == Stopped && !queued
      ensures list.freed == old(list.freed) + old(list.nodes)
    {
      timer := Stopped;
      queued := false;
      var all := (k: nat, t: Task) => true;
      ghost var was, nodes := list.Entries(), list.nodes;
      ghost var keep := Survive(was, all);
      Reap(all);
      AllDropped(was, keep, |keep|);
      AllDropped(nodes, keep, |keep|);
      assert nodes[..|keep|] == nodes;
      assert list.Entries() == [];
    }
  }

  lemma MultisetCons(t: Task, s: seq<Task>)
    ensures multiset([t] + s) == multiset(s) + multiset{t}
  {
  }
}
