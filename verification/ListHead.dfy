/** The kernel's intrusive circular list: INIT_LIST_HEAD, list_add, list_del and the
    safe traversal that deletes while it walks.  `prev` and `next` are relinked in place;
    a ghost sequence records which nodes the ring holds, in order.
 */
module ListHead {

  /** Of the first `k` items, those whose mark equals `which`, in their order. */
  function Split<T>(items: seq<T>, marks: seq<bool>, k: nat, which: bool): (r: seq<T>)
    requires k <= |items| && k <= |marks|
    decreases k
  {
    if k == 0 then []
    else if marks[k - 1] == which then Split(items, marks, k - 1, which) + [items[k - 1]]
    else Split(items, marks, k - 1, which)
  }

  /** Every marked item is in the split, behind the marked items before it and before those after it. */
  lemma {:induction false} SplitRank<T>(items: seq<T>, marks: seq<bool>, k: nat, which: bool, i: nat)
    requires i < k <= |items| && k <= |marks| && marks[i] == which
    ensures |Split(items, marks, i, which)| < |Split(items, marks, k, which)|
    ensures Split(items, marks, k, which)[|Split(items, marks, i, which)|] == items[i]
    decreases k
  {
    if i < k - 1 {
      SplitRank(items, marks, k - 1, which, i);
    }
  }

  /** Every element of the split is a marked item; with SplitRank, the split is the subsequence of
      the marked items, order kept. */
  lemma {:induction false} SplitSource<T>(items: seq<T>, marks: seq<bool>, k: nat, which: bool, j: nat) returns (i: nat)
    requires k <= |items| && k <= |marks| && j < |Split(items, marks, k, which)|
    ensures i < k && marks[i] == which && |Split(items, marks, i, which)| == j
    ensures Split(items, marks, k, which)[j] == items[i]
    decreases k
  {
    if j < |Split(items, marks, k - 1, which)| {
      i := SplitSource(items, marks, k - 1, which, j);
    } else {
      i := k - 1;
    }
  }

  lemma CountsAppended<T>(s: seq<T>, x: T)
    ensures multiset(s + [x]) == multiset(s) + multiset{x}
  {
  }

  /** Nothing is lost and nothing is duplicated by a split. */
  lemma {:induction false} SplitPartitions<T>(items: seq<T>, marks: seq<bool>, k: nat)
    requires k <= |items| && k <= |marks|
    ensures multiset(Split(items, marks, k, true)) + multiset(Split(items, marks, k, false)) == multiset(items[..k])
    decreases k
  {
    if k > 0 {
      SplitPartitions(items, marks, k - 1);
      assert items[..k] == items[..k - 1] + [items[k - 1]];
      CountsAppended(Split(items, marks, k - 1, marks[k - 1]), items[k - 1]);
      CountsAppended(items[..k - 1], items[k - 1]);
    }
  }

  lemma {:induction false} AllDropped<T>(s: seq<T>, keep: seq<bool>, k: nat)
    requires k <= |s| && k <= |keep| && forall i :: 0 <= i < k ==> !keep[i]
    ensures Split(s, keep, k, true) == [] && Split(s, keep, k, false) == s[..k]
    decreases k
  {
    if k > 0 {
      AllDropped(s, keep, k - 1);
    }
  }

  lemma {:induction false} SplitSameMarks<T>(items: seq<T>, marks: seq<bool>, other: seq<bool>, k: nat, which: bool)
    requires k <= |items| && k <= |marks| && k <= |other|
    requires forall i :: 0 <= i < k ==> marks[i] == other[i]
    ensures Split(items, marks, k, which) == Split(items, other, k, which)
    decreases k
  {
    if k > 0 {
      SplitSameMarks(items, marks, other, k - 1, which);
    }
  }

  /** The decisions of a whole traversal. */
  function Survive<T>(s: seq<T>, drop: (nat, T) -> bool): (keep: seq<bool>)
    ensures |keep| == |s|
    ensures forall k :: 0 <= k < |s| ==> keep[k] == !drop(k, s[k])
  {
    seq(|s|, k requires 0 <= k < |s| => !drop(k, s[k]))
  }

  lemma TakeNext<T>(front: seq<T>, s: seq<T>, k: nat)
    requires k < |s|
    ensures front + s[k..] == front + [s[k]] + s[k + 1..]
    ensures (front + s[k..])[|front|] == s[k]
  {
  }

  lemma CutNext<T>(front: seq<T>, s: seq<T>, k: nat)
    requires k < |s|
    ensures (front + s[k..])[..|front|] + (front + s[k..])[|front| + 1..] == front + s[k + 1..]
  {
  }

  lemma AppendOne<T>(a: seq<T>, b: seq<T>, x: T)
    ensures a + b + [x] == a + (b + [x])
  {
  }

  class Node<T(0)> {
    var next: Node?<T>
    var prev: Node?<T>
    var data: T

    constructor (data: T)
      ensures next == null && prev == null && this.data == data
    {
      next, prev := null, null;
      this.data := data;
    }
  }

  ghost function Data<T(0)>(nodes: seq<Node<T>>): (s: seq<T>)
    reads nodes
    ensures |s| == |nodes|
    ensures forall i :: 0 <= i < |nodes| ==> s[i] == nodes[i].data
  {
    seq(|nodes|, i requires 0 <= i < |nodes| reads nodes => nodes[i].data)
  }

  lemma {:induction false} DataSplits<T(0)>(nodes: seq<Node<T>>, marks: seq<bool>, k: nat, which: bool)
    requires k <= |nodes| && k <= |marks|
    ensures Data(Split(nodes, marks, k, which)) == Split(Data(nodes), marks, k, which)
    decreases k
  {
    if k > 0 {
      DataSplits(nodes, marks, k - 1, which);
    }
  }

  lemma EntriesSplit<T(0)>(nodes: seq<Node<T>>, marks: seq<bool>, entries: seq<T>)
    requires |nodes| == |marks| == |entries| && forall i :: 0 <= i < |nodes| ==> entries[i] == nodes[i].data
    ensures Data(Split(nodes, marks, |marks|, true)) == Split(entries, marks, |marks|, true)
  {
    assert entries == Data(nodes);
    DataSplits(nodes, marks, |marks|, true);
  }

  ghost predicate Differ<T(0)>(nodes: seq<Node<T>>, i: nat, j: nat)
    requires i < |nodes| && j < |nodes|
  {
    i != j ==> nodes[i] != nodes[j]
  }

  ghost predicate AllDiffer<T(0)>(nodes: seq<Node<T>>) {
    forall i, j :: 0 <= i < |nodes| && 0 <= j < |nodes| ==> Differ(nodes, i, j)
  }

  lemma CutDiffers<T(0)>(was: seq<Node<T>>, i: nat)
    requires i < |was| && AllDiffer(was)
    ensures AllDiffer(was[..i] + was[i + 1..])
    ensures was[i] !in was[..i] + was[i + 1..]
  {
    var cut := was[..i] + was[i + 1..];
    forall a, b | 0 <= a < |cut| && 0 <= b < |cut| ensures Differ(cut, a, b) {
      assert Differ(was, if a < i then a else a + 1, if b < i then b else b + 1);
    }
    forall a | 0 <= a < |cut| ensures cut[a] != was[i] {
      assert Differ(was, if a < i then a else a + 1, i);
    }
  }

  class List<T(0)> {
    const head: Node<T>
    ghost var nodes: seq<Node<T>>  // the ring after `head`, in `next` order
    ghost var freed: seq<Node<T>>  // the arguments of kfree, in order
    ghost var cells: set<Node<T>>  // every node that was ever linked here

    /** Position 0 and position |nodes| + 1 are both the sentinel. */
    ghost function At(i: nat): Node<T>
      reads `nodes
      requires i <= |nodes| + 1
    {
      if i == 0 || i == |nodes| + 1 then head else nodes[i - 1]
    }

    ghost predicate Linked(i: nat)
      reads `nodes, head, nodes
      requires i <= |nodes|
    {
      At(i).next == At(i + 1) && At(i + 1).prev == At(i)
    }

    ghost predicate Distinct()
      reads this
    {
      && head !in nodes && head !in freed
      && AllDiffer(nodes)
      && (forall i :: 0 <= i < |nodes| ==> nodes[i] !in freed)
    }

    /** `next` and `prev` are inverse all the way round, starting and ending at the sentinel;
        a freed node is off the ring and keeps the poison that list_del gave it. */
    ghost predicate Valid()
      reads this, head, cells
    {
      && Distinct()
      && (forall i :: 0 <= i < |nodes| ==> nodes[i] in cells)
      && (forall j :: 0 <= j < |freed| ==> freed[j] in cells)
      && (forall i :: 0 <= i <= |nodes| ==> Linked(i))
      && (forall j :: 0 <= j < |freed| ==> freed[j].next == null && freed[j].prev == null)
    }

    ghost function Entries(): (s: seq<T>)
      reads `nodes, nodes
      ensures |s| == |nodes|
      ensures forall i :: 0 <= i < |nodes| ==> s[i] == nodes[i].data
    {
      Data(nodes)
    }

    /** INIT_LIST_HEAD */
    constructor ()
      ensures Valid() && nodes == [] && freed == [] && cells == {} && fresh(head)
    {
      var d: T := *;
      var h := new Node<T>(d);
      h.next, h.prev := h, h;
      head := h;
      nodes, freed, cells := [], [], {};
    }

    /** list_add: links `n` between the sentinel and the first node. */
    method Add(n: Node<T>)
      requires Valid() && n != head && n !in nodes && n !in freed
      modifies this`nodes, this`cells, head`next, head`prev, cells`prev, n`next, n`prev
      ensures Valid() && nodes == [n] + old(nodes) && cells == old(cells) + {n} && freed == old(freed)
      ensures Entries() == [n.data] + old(Entries())
    {
      ghost var was := nodes;
      assert Linked(0);
      var first := head.next;
      first.prev := n;
      n.next := first;
      n.prev := head;
      head.next := n;
      nodes, cells := [n] + nodes, cells + {n};
      forall i, j | 0 <= i < |nodes| && 0 <= j < |nodes| ensures Differ(nodes, i, j) {
        assert i > 0 && j > 0 ==> Differ(was, i - 1, j - 1);
      }
      forall i | 0 <= i <= |nodes| ensures Linked(i) {
        if i >= 2 {
          assert old(Linked(i - 1));
          assert i < |nodes| ==> Differ(was, 0, i - 1);
        }
      }
    }

    /** list_del: joins the two neighbours and poisons the node's own links. */
    method Del(p: Node<T>, ghost i: nat)
      requires Valid() && i < |nodes| && nodes[i] == p
      modifies this`nodes, head`next, head`prev, cells`next, cells`prev
      ensures Valid() && nodes == old(nodes)[..i] + old(nodes)[i + 1..]
      ensures p !in nodes && p.next == null && p.prev == null
    {
      ghost var was := nodes;
      assert Linked(i) && Linked(i + 1);
      p.prev.next := p.next;
      p.next.prev := p.prev;
      p.next, p.prev := null, null;
      nodes := was[..i] + was[i + 1..];
      CutDiffers(was, i);
      forall j | 0 <= j <= |nodes| ensures Linked(j) {
        var k := if j < i then j else j + 1;
        assert old(Linked(if j <= i then j else j + 1));
        if j != i {
          assert 0 < k ==> Differ(was, k - 1, i) && (0 < i ==> Differ(was, k - 1, i - 1));
          assert k < |was| ==> Differ(was, k, i) && (i + 1 < |was| ==> Differ(was, k, i + 1));
        }
      }
    }

    /** Overwrites the payload of a linked node. */
    method Write(p: Node<T>, ghost i: nat, d: T)
      requires Valid() && i < |nodes| && nodes[i] == p
      modifies p`data
      ensures Valid() && Entries() == old(Entries())[i := d]
    {
      p.data := d;
      forall j | 0 <= j <= |nodes| ensures Linked(j) {
        assert old(Linked(j));
      }
      forall j | 0 <= j < |nodes| ensures Entries()[j] == old(Entries())[i := d][j] {
        assert Differ(nodes, i, j);
      }
    }

    /** kfree: only an unlinked node that was not freed before may be given back. */
    ghost method Free(p: Node<T>)
      requires Valid() && p in cells && p != head && p !in nodes && p !in freed && p.next == null && p.prev == null
      modifies this`freed
      ensures Valid()
      ensures freed == old(freed) + [p]
    {
      freed := freed + [p];
    }

    /** list_del followed by kfree, as the traversals do it, at the node between `before` and `after`. */
    method Drop(p: Node<T>, ghost before: seq<Node<T>>, ghost after: seq<Node<T>>)
      requires Valid() && nodes == before + [p] + after
      modifies this`nodes, this`freed, head`next, head`prev, cells`next, cells`prev
      ensures Valid() && nodes == before + after
      ensures freed == old(freed) + [p]
    {
      Del(p, |before|);
      Free(p);
    }

    /** list_for_each_safe with a body that list_dels and kfrees some entries: `drop(k, d)` is the
        decision of the k-th iteration, which sees the entry `d`. */
    method RemoveIf(drop: (nat, T) -> bool)
      requires Valid()
      modifies this`nodes, this`freed, head`next, head`prev, cells`next, cells`prev
      ensures Valid()
      ensures var keep := Survive(old(Entries()), drop);
        && Entries() == Split(old(Entries()), keep, |keep|, true)
        && nodes == Split(old(nodes), keep, |keep|, true)
        && freed == old(freed) + Split(old(nodes), keep, |keep|, false)
    {
      ghost var was, gone, keep := nodes, freed, Survive(Entries(), drop);
      assert was[0..] == was && gone + [] == gone;
      Traverse(was, gone, keep, drop);
      assert was[|was|..] == [];
      EntriesSplit(was, keep, old(Entries()));
    }

    method Traverse(ghost was: seq<Node<T>>, ghost gone: seq<Node<T>>, ghost keep: seq<bool>, drop: (nat, T) -> bool)
      requires Valid() && |keep| == |was| && Passed(was, gone, keep, 0, 0)
      requires forall j :: 0 <= j < |was| ==> keep[j] == !drop(j, was[j].data)
      modifies this`nodes, this`freed, head`next, head`prev, cells`next, cells`prev
      ensures Valid() && Passed(was, gone, keep, |was|, |nodes|)
    {
      var k := 0;
      assert Linked(0);
      var q: Node := head.next;
      assert |nodes| > 0 ==> Linked(1);
      var n: Node := q.next;
      ghost var i := 0;
      while q != head
        invariant k <= |was| && Valid() && Passed(was, gone, keep, k, i)
        invariant q == At(i + 1) && (k < |was| ==> n == At(i + 2))
        invariant cells == old(cells) && forall j :: 0 <= j < |was| ==> keep[j] == !drop(j, was[j].data)
        decreases |was| - k
      {
        q, n, i := Visit(was, gone, keep, k, i, q, n, drop);
        k := k + 1;
      }
    }

    /** Where a traversal of the ring `was` stands after `k` iterations that kept `i` nodes. */
    ghost predicate Passed(was: seq<Node<T>>, gone: seq<Node<T>>, keep: seq<bool>, k: nat, i: nat)
      reads this
      requires k <= |was| == |keep|
    {
      && i == |Split(was, keep, k, true)| && |nodes| == i + (|was| - k)
      && nodes == Split(was, keep, k, true) + was[k..]
      && freed == gone + Split(was, keep, k, false)
    }

    /** The body of one iteration at node `q`, and the step to `n`, which was read before the body. */
    method Visit(ghost was: seq<Node<T>>, ghost gone: seq<Node<T>>, ghost keep: seq<bool>, k: nat, ghost i: nat,
                 q: Node<T>, n: Node<T>, drop: (nat, T) -> bool) returns (q': Node<T>, n': Node<T>, ghost i': nat)
      requires Valid() && k < |was| == |keep| && Passed(was, gone, keep, k, i)
      requires q == At(i + 1) && n == At(i + 2)
      requires forall j :: 0 <= j < |was| ==> keep[j] == !drop(j, was[j].data)
      modifies this`nodes, this`freed, head`next, head`prev, cells`next, cells`prev
      ensures Valid() && Passed(was, gone, keep, k + 1, i')
      ensures q' == At(i' + 1) && (k + 1 < |was| ==> n' == At(i' + 2))
      ensures cells == old(cells)
      ensures forall j :: 0 <= j < |was| ==> keep[j] == !drop(j, was[j].data)
    {
      ghost var kept := Split(was, keep, k, true);
      TakeNext(kept, was, k);
      assert q == was[k];
      if drop(k, q.data) {
        i' := i;
        AppendOne(gone, Split(was, keep, k, false), q);
        Drop(q, kept, was[k + 1..]);
      } else {
        i' := i + 1;
      }
      q' := n;
      assert k + 1 < |was| ==> Linked(i' + 1);
      assert Linked(0);
      n' := q'.next;
    }
  }
}
