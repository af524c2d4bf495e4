/** The linear scans that pick the next node to expand: Dijkstra's
    smallest-distance scan and the A* scans on (F, H). Each keeps the first
    candidate and replaces it only by a strictly better one, so the winner
    is the first least key in list order. */
module Selection {

  /** Lexicographic order on (primary, secondary) keys. */
  predicate Below(a: (int, int), b: (int, int))
  {
    a.0 < b.0 || (a.0 == b.0 && a.1 < b.1)
  }

  /** `k` is the first index holding a least key: nothing is below it and
      every earlier key is strictly above it. */
  predicate FirstLeast(keys: seq<(int, int)>, k: int)
  {
    && 0 <= k < |keys|
    && (forall i :: 0 <= i < |keys| ==> !Below(keys[i], keys[k]))
    && (forall i :: 0 <= i < k ==> Below(keys[k], keys[i]))
  }

  /** The scan of GetLowestFCostNode and of the inline loops in Astar and
      Dijkstra: start from the first entry and switch on strict improvement. */
  method SelectFirstLeast(keys: seq<(int, int)>) returns (k: nat)
    requires |keys| > 0
    ensures FirstLeast(keys, k)
  {
    k := 0;
    var i := 1;
    while i < |keys|
      invariant 1 <= i <= |keys|
      invariant FirstLeast(keys[..i], k)
    {
      if Below(keys[i], keys[k]) {
        k := i;
      }
      i := i + 1;
    }
    assert keys[..i] == keys;
  }

  /** The first least key is unique, so the scan's answer is determined by the
      keys alone. */
  lemma FirstLeastUnique(keys: seq<(int, int)>, j: int, k: int)
    requires FirstLeast(keys, j) && FirstLeast(keys, k)
    ensures j == k
  {
    assert !Below(keys[k], keys[j]) && !Below(keys[j], keys[k]);
  }

  /** With all secondary keys equal the order is the primary key alone: the
      first entry of least primary key (Dijkstra's scan). */
  lemma FirstLeastPrimary(keys: seq<(int, int)>, k: int)
    requires forall i :: 0 <= i < |keys| ==> keys[i].1 == 0
    ensures FirstLeast(keys, k) <==>
              && 0 <= k < |keys|
              && (forall i :: 0 <= i < |keys| ==> keys[k].0 <= keys[i].0)
              && (forall i :: 0 <= i < k ==> keys[k].0 < keys[i].0)
  {
  }
}
