/** The Fisher–Yates question randomiser, used in place by the backend's exam route
    and copy-then-shuffle by the student exam page. The random source is a sequence
    of draws of `Math.random()`, each in [0, 1). */
module Shuffle {

  /** Every draw is a possible value of `Math.random()`. */
  predicate ValidDraws(draws: seq<real>) {
    forall k :: 0 <= k < |draws| ==> 0.0 <= draws[k] < 1.0
  }

  /** Enough draws for a list of n elements: the loop uses one per index n-1 .. 1. */
  predicate EnoughDraws(n: nat, draws: seq<real>) {
    ValidDraws(draws) && n <= |draws| + 1
  }

  /** `Math.floor(Math.random() * (i + 1))`: the swap partner of index i always lies in [0, i]. */
  function SwapPartner(r: real, i: nat): (j: nat)
    requires 0.0 <= r < 1.0
    ensures j <= i
  {
    var x := r * (i + 1) as real;
    ScaleBelow(r, (i + 1) as real);
    x.Floor
  }

  /** A draw in [0, 1) scaled by a positive m lands in [0, m). */
  lemma ScaleBelow(r: real, m: real)
    requires 0.0 <= r < 1.0 && m > 0.0
    ensures 0.0 <= r * m < m
  {
    var d := 1.0 - r;
    assert d * m > 0.0;
    assert m - r * m == d * m;
  }

  /** `[s[i], s[j]] = [s[j], s[i]]` */
  function Swap<T>(s: seq<T>, i: nat, j: nat): (t: seq<T>)
    requires i < |s| && j < |s|
    ensures |t| == |s| && t[i] == s[j] && t[j] == s[i]
    ensures forall k :: 0 <= k < |s| && k != i && k != j ==> t[k] == s[k]
  {
    s[i := s[j]][j := s[i]]
  }

  lemma SwapPermutes<T>(s: seq<T>, i: nat, j: nat)
    requires i < |s| && j < |s|
    ensures multiset(Swap(s, i, j)) == multiset(s)
  {
  }

  /** The swap partners a list of n elements receives, in loop order: entry m belongs
      to index n-1-m and lies in [0, n-1-m]. */
  predicate Fits(n: nat, js: seq<nat>) {
    |js| == (if n == 0 then 0 else n - 1)
    && forall m :: 0 <= m < |js| ==> js[m] <= n - 1 - m
  }

  /** The partners the draws produce: the m-th draw decides index n-1-m. */
  function Partners(draws: seq<real>, n: nat): (js: seq<nat>)
    requires EnoughDraws(n, draws)
    ensures Fits(n, js)
    ensures forall m :: 0 <= m < |js| ==> js[m] == SwapPartner(draws[m], n - 1 - m)
  {
    if n == 0 then []
    else seq(n - 1, m requires 0 <= m < n - 1 => SwapPartner(draws[m], n - 1 - m))
  }

  /** The loop from index i down to 1; index i swaps with partner number n-1-i.
      Positions above i are never touched again. */
  function Loop<T>(s: seq<T>, i: nat, js: seq<nat>): (t: seq<T>)
    requires i < |s| && Fits(|s|, js)
    ensures |t| == |s|
    ensures forall k :: i < k < |s| ==> t[k] == s[k]
    decreases i
  {
    if i == 0 then s
    else Loop(Swap(s, i, js[|s| - 1 - i]), i - 1, js)
  }

  /** Each step is a swap, so the loop only rearranges the list. */
  lemma {:induction false} LoopPermutes<T>(s: seq<T>, i: nat, js: seq<nat>)
    requires i < |s| && Fits(|s|, js)
    ensures multiset(Loop(s, i, js)) == multiset(s)
    decreases i
  {
    if i > 0 {
      var t := Swap(s, i, js[|s| - 1 - i]);
      SwapPermutes(s, i, js[|s| - 1 - i]);
      LoopPermutes(t, i - 1, js);
    }
  }

  lemma LoopStep<T>(s: seq<T>, i: nat, js: seq<nat>)
    requires 0 < i < |s| && Fits(|s|, js)
    ensures Loop(s, i, js) == Loop(Swap(s, i, js[|s| - 1 - i]), i - 1, js)
  {
  }

  /** The whole shuffle: a permutation of its input; lists of length 0 or 1 come back unchanged. */
  function Shuffled<T>(s: seq<T>, draws: seq<real>): (t: seq<T>)
    requires EnoughDraws(|s|, draws)
    ensures |t| == |s|
    ensures multiset(t) == multiset(s)
    ensures |s| <= 1 ==> t == s
  {
    if |s| == 0 then s
    else
      LoopPermutes(s, |s| - 1, Partners(draws, |s|));
      Loop(s, |s| - 1, Partners(draws, |s|))
  }

  /** `shuffleArray`: copy the input into a fresh array, then run the loop on the copy;
      the caller's list is not touched. */
  method ShuffleCopy<T>(input: seq<T>, draws: seq<real>) returns (out: seq<T>)
    requires EnoughDraws(|input|, draws)
    ensures out == Shuffled(input, draws)
    ensures multiset(out) == multiset(input)
  {
    if |input| == 0 {
      return input;
    }
    var arr := new T[|input|](k requires 0 <= k < |input| => input[k]);
    assert arr[..] == input;
    ShuffleInPlace(arr, draws);
    out := arr[..];
  }

  /** The backend route's loop, run on the fetched list in place. */
  method ShuffleInPlace<T>(a: array<T>, draws: seq<real>)
    requires EnoughDraws(a.Length, draws)
    modifies a
    ensures a[..] == Shuffled(old(a[..]), draws)
  {
    if a.Length == 0 {
      return;
    }
    ghost var js := Partners(draws, a.Length);
    ghost var target := Shuffled(a[..], draws);
    ghost var cur := a[..];
    var i: nat := a.Length - 1;
    while i > 0
      invariant i < a.Length == |cur|
      invariant a[..] == cur
      invariant Loop(cur, i, js) == target
    {
      var j := SwapPartner(draws[a.Length - 1 - i], i);
      assert j == js[a.Length - 1 - i];
      LoopStep(cur, i, js);
      a[i], a[j] := a[j], a[i];
      cur := Swap(cur, i, j);
      assert a[..] == cur;
      i := i - 1;
    }
  }

  /** The last position receives the element at the first swap partner drawn. */
  lemma LastSlot<T>(s: seq<T>, draws: seq<real>)
    requires |s| >= 2 && EnoughDraws(|s|, draws)
    ensures Shuffled(s, draws)[|s| - 1] == s[SwapPartner(draws[0], |s| - 1)]
  {
    var i := |s| - 1;
    var js := Partners(draws, |s|);
    var t := Swap(s, i, js[0]);
    assert Shuffled(s, draws) == Loop(t, i - 1, js);
  }

  /** The shuffle is not degenerate: any element of the list can end up last, given
      a suitable draw. */
  lemma AnyElementCanComeLast<T>(s: seq<T>, p: nat, draws: seq<real>)
    requires p < |s| && |s| >= 2 && EnoughDraws(|s|, draws)
    ensures EnoughDraws(|s|, [p as real / |s| as real] + draws[1..])
    ensures Shuffled(s, [p as real / |s| as real] + draws[1..])[|s| - 1] == s[p]
  {
    var n := |s| as real;
    var r := p as real / n;
    assert r * n == p as real;
    assert 0.0 <= r < 1.0;
    var d := [r] + draws[1..];
    assert d[0] == r;
    assert forall k :: 1 <= k < |d| ==> d[k] == draws[k];
    assert SwapPartner(r, |s| - 1) == p by {
      assert r * (|s| - 1 + 1) as real == p as real;
    }
    LastSlot(s, d);
  }
}
