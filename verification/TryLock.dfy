/** The try-lock that the character devices share: an atomic flag, taken by a cmpxchg and cleared by an atomic_set.
 */
module TryLock {

  /** At most one process is inside, and the flag is set exactly while one is. */
  ghost predicate HeldByOne(flag: bool, inside: seq<bool>) {
    && (forall p, q :: 0 <= p < |inside| && 0 <= q < |inside| && inside[p] && inside[q] ==> p == q)
    && (flag <==> exists p :: 0 <= p < |inside| && inside[p])
  }

  /** What one process does to the flag: a cmpxchg that finds it clear sets it and lets the process in, an atomic_set of
      the process inside clears it and lets it out, and everything else leaves both alone. */
  lemma StepKeepsHeld(flag: bool, inside: seq<bool>, p: nat, flag': bool, goes: bool)
    requires HeldByOne(flag, inside) && p < |inside|
    requires || (flag' == flag && goes == inside[p])
             || (!flag && flag' && goes)
             || (inside[p] && !flag' && !goes)
    ensures HeldByOne(flag', inside[p := goes])
  {
    var inside' := inside[p := goes];
    if flag && flag' {
      var q :| 0 <= q < |inside| && inside[q];
      assert inside'[q];
    } else if flag' {
      assert inside'[p];
    }
  }
}
