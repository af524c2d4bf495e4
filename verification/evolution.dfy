/** The two population operations both genetic searches share: the stable
    descending sort of LINQ's OrderByDescending on the fitness, and tournament
    selection, which keeps the first contender and replaces it only by a
    strictly fitter one. */
module Evolution {

  predicate Descending<T>(s: seq<T>, key: T -> real)
  {
    forall i, j :: 0 <= i < j < |s| ==> key(s[i]) >= key(s[j])
  }

  /** Place `x` before the first element whose key does not exceed its own;
      elements of equal key that were already in `s` stay behind `x`. */
  function Insert<T(==)>(x: T, s: seq<T>, key: T -> real): (r: seq<T>)
    requires Descending(s, key)
    ensures multiset(r) == multiset(s) + multiset{x}
    ensures |r| == |s| + 1 && (r[0] == x || (|s| > 0 && r[0] == s[0]))
    ensures Descending(r, key)
    decreases |s|
  {
    if s == [] || key(s[0]) <= key(x) then
      DescendingCons(x, s, key);
      [x] + s
    else
      DescendingTail(s, key);
      var tail := Insert(x, s[1..], key);
      InsertStep(x, s, key, tail);
      [s[0]] + tail
  }

  /** The recursive case of Insert: `x` went into the tail, behind a head
      with a strictly greater key. */
  lemma InsertStep<T>(x: T, s: seq<T>, key: T -> real, tail: seq<T>)
    requires Descending(s, key) && |s| > 0 && key(s[0]) > key(x)
    requires multiset(tail) == multiset(s[1..]) + multiset{x}
    requires |tail| == |s[1..]| + 1 && (tail[0] == x || (|s[1..]| > 0 && tail[0] == s[1..][0]))
    requires Descending(tail, key)
    ensures multiset([s[0]] + tail) == multiset(s) + multiset{x}
    ensures Descending([s[0]] + tail, key)
  {
    assert s == [s[0]] + s[1..];
    DescendingTail(s, key);
    DescendingCons(s[0], tail, key);
  }

  /** Dropping the head keeps the order, and the head is no smaller than
      the element after it. */
  lemma DescendingTail<T>(s: seq<T>, key: T -> real)
    requires Descending(s, key) && |s| > 0
    ensures Descending(s[1..], key)
    ensures |s| > 1 ==> key(s[0]) >= key(s[1])
  {
    forall i, j | 0 <= i < j < |s[1..]| ensures key(s[1..][i]) >= key(s[1..][j]) {
      assert s[1..][i] == s[i + 1] && s[1..][j] == s[j + 1];
    }
  }

  /** Putting an element no smaller than the head in front keeps the order. */
  lemma DescendingCons<T>(a: T, t: seq<T>, key: T -> real)
    requires Descending(t, key) && (|t| > 0 ==> key(a) >= key(t[0]))
    ensures Descending([a] + t, key)
  {
    forall i, j | 0 <= i < j < |[a] + t| ensures key(([a] + t)[i]) >= key(([a] + t)[j]) {
      if i > 0 {
        assert ([a] + t)[i] == t[i - 1];
      } else if j > 1 {
        assert key(t[0]) >= key(t[j - 1]);
      }
    }
  }

  /** The elements of `s` whose key is `k`, in their order in `s`. */
  function WithKey<T>(s: seq<T>, key: T -> real, k: real): seq<T>
    decreases |s|
  {
    if s == [] then [] else (if key(s[0]) == k then [s[0]] else []) + WithKey(s[1..], key, k)
  }

  /** Inserting `x` puts it ahead of every element of its own key and leaves
      the elements of every other key in their order. */
  lemma {:induction false} InsertStable<T>(x: T, s: seq<T>, key: T -> real)
    requires Descending(s, key)
    ensures forall k :: WithKey(Insert(x, s, key), key, k) == (if key(x) == k then [x] else []) + WithKey(s, key, k)
    decreases |s|
  {
    var r := Insert(x, s, key);
    if s == [] || key(s[0]) <= key(x) {
      assert r == [x] + s && r[1..] == s;
    } else {
      var tail := Insert(x, s[1..], key);
      assert r == [s[0]] + tail && r[1..] == tail;
      InsertStable(x, s[1..], key);
    }
  }

  /** OrderByDescending: a stable permutation of `s` in non-increasing key
      order; for every key value the elements carrying it keep their order. */
  function SortDescending<T(==)>(s: seq<T>, key: T -> real): (r: seq<T>)
    ensures multiset(r) == multiset(s)
    ensures |r| == |s|
    ensures Descending(r, key)
    ensures forall k :: WithKey(r, key, k) == WithKey(s, key, k)
    decreases |s|
  {
    if s == [] then []
    else
      assert s == [s[0]] + s[1..];
      var t := SortDescending(s[1..], key);
      InsertStable(s[0], t, key);
      Insert(s[0], t, key)
  }

  /** Every member of a sorted population was a member before sorting. */
  lemma SortedMembers<T>(s: seq<T>, key: T -> real)
    ensures forall x :: x in SortDescending(s, key) <==> x in s
  {
    var r := SortDescending(s, key);
    forall x ensures x in r <==> x in s {
      assert x in r <==> x in multiset(r);
      assert x in s <==> x in multiset(s);
    }
  }

  /** `j` indexes the tournament's winner among the draws `picks`: no contender
      is fitter, and every contender drawn before it is strictly less fit. */
  predicate FirstFittest<T>(pop: seq<T>, key: T -> real, picks: seq<nat>, j: int)
    requires forall i :: 0 <= i < |picks| ==> picks[i] < |pop|
  {
    && 0 <= j < |picks|
    && (forall i :: 0 <= i < |picks| ==> key(pop[picks[i]]) <= key(pop[picks[j]]))
    && (forall i :: 0 <= i < j ==> key(pop[picks[i]]) < key(pop[picks[j]]))
  }

  /** The tournament loop over explicit draws. */
  method Tournament<T>(pop: seq<T>, key: T -> real, picks: seq<nat>) returns (j: nat)
    requires |picks| > 0
    requires forall i :: 0 <= i < |picks| ==> picks[i] < |pop|
    ensures FirstFittest(pop, key, picks, j)
  {
    j := 0;
    var i := 1;
    while i < |picks|
      invariant 1 <= i <= |picks|
      invariant FirstFittest(pop, key, picks[..i], j)
    {
      if key(pop[picks[i]]) > key(pop[picks[j]]) {
        j := i;
      }
      i := i + 1;
    }
    assert picks[..i] == picks;
  }

  /** The winner is determined by the draws alone. */
  lemma FirstFittestUnique<T>(pop: seq<T>, key: T -> real, picks: seq<nat>, j: int, k: int)
    requires forall i :: 0 <= i < |picks| ==> picks[i] < |pop|
    requires FirstFittest(pop, key, picks, j) && FirstFittest(pop, key, picks, k)
    ensures j == k
  {
    assert key(pop[picks[j]]) == key(pop[picks[k]]);
  }
}
