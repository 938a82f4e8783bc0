/** The id pool behind node, D-FF and latch numbering (`ItvlMgr`): the set
    of ids in use; `avail_num` hands out the smallest id not in use. */
module IdPool {

  /** The ids `0 .. k-1`. */
  function Below(k: nat): (r: set<nat>)
    ensures forall b: nat :: b in r <==> b < k
  {
    if k == 0 then {} else Below(k - 1) + {k - 1}
  }

  lemma {:induction false} BelowCard(k: nat)
    ensures |Below(k)| == k
  {
    if k > 0 {
      BelowCard(k - 1);
      assert Below(k) == Below(k - 1) + {k - 1};
    }
  }

  /** If every id below `k` is in use, at least `k` ids are in use. */
  lemma PrefixUsedBound(used: set<nat>, k: nat)
    requires forall b: nat :: b < k ==> b in used
    ensures k <= |used|
  {
    assert Below(k) <= used;
    BelowCard(k);
    SubsetCard(Below(k), used);
  }

  lemma SubsetCard<T>(a: set<T>, b: set<T>)
    requires a <= b
    ensures |a| <= |b|
  {
    assert b == a + (b - a);
  }

  /** The smallest id not in use (`avail_num`). */
  function Avail(used: set<nat>): (a: nat)
    ensures a !in used
    ensures forall b: nat :: b < a ==> b in used
    ensures a <= |used|
  {
    AvailFrom(used, 0)
  }

  function AvailFrom(used: set<nat>, k: nat): (a: nat)
    requires forall b: nat :: b < k ==> b in used
    ensures k <= a && a !in used
    ensures forall b: nat :: b < a ==> b in used
    ensures a <= |used|
    decreases |used| - k
  {
    PrefixUsedBound(used, k);
    if k !in used then k
    else
      PrefixUsedBound(used, k + 1);
      AvailFrom(used, k + 1)
  }

  /** Taking ids from a pool whose ids lie below `size` never skips past
      `size`: the new id is either a reused one below `size` or `size` itself. */
  lemma AvailWithin(used: set<nat>, size: nat)
    requires forall b: nat :: b in used ==> b < size
    ensures Avail(used) <= size
  {
    assert size < Avail(used) ==> size in used;
  }

  /** A released id is handed out again when it is the smallest free one. */
  lemma AvailReuses(used: set<nat>, k: nat)
    requires k in used
    requires forall b: nat :: b < k ==> b in used
    ensures Avail(used - {k}) == k
  {
  }
}
