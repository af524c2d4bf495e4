/** The random generators of both genetic searches, made explicit: a stream
    of raw draws and a cursor counting how many calls have been made. Every
    call reads the draw under the cursor and advances it, so the order of the
    source's calls is kept; only the bounds each call promises are modelled,
    never a distribution. */
module Random {

  datatype Rng = Rng(draws: nat -> nat, at: nat)

  /** A drawn value and the generator after the draw. */
  datatype Drawn<T> = Drawn(value: T, next: Rng)

  function Advance(r: Rng): (s: Rng)
    ensures s.at == r.at + 1
  {
    Rng(r.draws, r.at + 1)
  }

  /** System.Random.Next(n): a value in [0, n); 0 when n is 0. */
  function Below(r: Rng, n: nat): (d: Drawn<nat>)
    ensures n > 0 ==> d.value < n
    ensures n == 0 ==> d.value == 0
    ensures d.next.at == r.at + 1
  {
    Drawn(if n == 0 then 0 else r.draws(r.at) % n, Advance(r))
  }

  /** System.Random.Next(lo, hi) and UnityEngine.Random.Range(lo, hi) on
      integers: a value in [lo, hi); `lo` itself when the range is empty. */
  function Between(r: Rng, lo: int, hi: int): (d: Drawn<int>)
    ensures lo < hi ==> lo <= d.value < hi
    ensures hi <= lo ==> d.value == lo
    ensures d.next.at == r.at + 1
  {
    Drawn(if lo < hi then lo + r.draws(r.at) % (hi - lo) else lo, Advance(r))
  }

  const Resolution: nat := 0x100_0000

  /** System.Random.NextDouble(): a value in [0, 1). */
  function Fraction(r: Rng): (d: Drawn<real>)
    ensures 0.0 <= d.value < 1.0
    ensures d.next.at == r.at + 1
  {
    Drawn((r.draws(r.at) % Resolution) as real / Resolution as real, Advance(r))
  }

  /** UnityEngine.Random.Range(0f, 1f): a value in [0, 1], both ends included. */
  function UnitInterval(r: Rng): (d: Drawn<real>)
    ensures 0.0 <= d.value <= 1.0
    ensures d.next.at == r.at + 1
  {
    Drawn((r.draws(r.at) % (Resolution + 1)) as real / Resolution as real, Advance(r))
  }

  /** `k` successive draws below `n`, in call order. */
  function Draws(r: Rng, n: nat, k: nat): (d: Drawn<seq<nat>>)
    ensures |d.value| == k
    ensures n > 0 ==> forall i :: 0 <= i < k ==> d.value[i] < n
    ensures d.next.at == r.at + k
    decreases k
  {
    if k == 0 then Drawn([], r)
    else
      var first := Below(r, n);
      var rest := Draws(first.next, n, k - 1);
      Drawn([first.value] + rest.value, rest.next)
  }
}
