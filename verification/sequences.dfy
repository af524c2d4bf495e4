/** Equations between sequences that the search proofs use, stated once so
    that each is proved in a small context of its own. */
module Sequences {

  lemma Associative<T>(a: seq<T>, b: seq<T>, c: seq<T>)
    ensures (a + b) + c == a + (b + c)
  {
  }

  /** Dropping the last entry keeps every earlier entry and prefix. */
  lemma FrontKeeps<T>(t: seq<T>, i: nat)
    requires i < |t| - 1
    ensures t[..|t|-1][i] == t[i] && t[..|t|-1][..i] == t[..i]
  {
  }
}
