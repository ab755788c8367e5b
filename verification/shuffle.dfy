/** `shuffle`: the Fisher-Yates shuffle, in place. The calls to
    `Math.random` are replaced by the indices they produce. */
module Shuffle {

  /** The indices `Math.floor(Math.random() * currentIndex)` yields for an
      array of length `n`: the k-th is drawn when `currentIndex` is `n - k`,
      so it lies below `n - k`. */
  predicate ValidDraws(draws: seq<nat>, n: nat)
  {
    |draws| == n && forall k :: 0 <= k < n ==> draws[k] < n - k
  }

  /** The destructuring swap `[s[i], s[j]] = [s[j], s[i]]`: position `i`
      is written first, then position `j`. */
  function Swap<T>(s: seq<T>, i: nat, j: nat): (r: seq<T>)
    requires i < |s| && j < |s|
    ensures |r| == |s|
    ensures r[i] == s[j] && r[j] == s[i]
    ensures forall k :: 0 <= k < |s| && k != i && k != j ==> r[k] == s[k]
  {
    s[i := s[j]][j := s[i]]
  }

  /** The array after the loop, started from contents `s` with `currentIndex`
      equal to `cur`: the iteration at `cur` swaps position `cur - 1` with the
      drawn position. */
  function FisherYates<T>(s: seq<T>, draws: seq<nat>, cur: nat): (r: seq<T>)
    requires cur <= |s| && ValidDraws(draws, |s|)
    ensures |r| == |s|
    decreases cur
  {
    if cur == 0 then s
    else FisherYates(Swap(s, cur - 1, draws[|s| - cur]), draws, cur - 1)
  }

  /** A swap exchanges two elements and so keeps the multiset. */
  lemma {:induction false} SwapPermutes<T>(s: seq<T>, i: nat, j: nat)
    requires i < |s| && j < |s|
    ensures multiset(Swap(s, i, j)) == multiset(s)
  {
  }

  /** Whatever the draws, the shuffle is a permutation of its input. */
  lemma {:induction false} FisherYatesPermutes<T>(s: seq<T>, draws: seq<nat>, cur: nat)
    requires cur <= |s| && ValidDraws(draws, |s|)
    ensures multiset(FisherYates(s, draws, cur)) == multiset(s)
    decreases cur
  {
    if cur > 0 {
      var s' := Swap(s, cur - 1, draws[|s| - cur]);
      SwapPermutes(s, cur - 1, draws[|s| - cur]);
      FisherYatesPermutes(s', draws, cur - 1);
    }
  }

  /** The loop never touches a position at or above `currentIndex` again. */
  lemma {:induction false} FisherYatesKeepsTail<T>(s: seq<T>, draws: seq<nat>, cur: nat, i: nat)
    requires cur <= i < |s| && ValidDraws(draws, |s|)
    ensures FisherYates(s, draws, cur)[i] == s[i]
    decreases cur
  {
    if cur > 0 {
      var s' := Swap(s, cur - 1, draws[|s| - cur]);
      FisherYatesKeepsTail(s', draws, cur - 1, i);
    }
  }

  /** The element the first draw picks ends up last. */
  lemma {:induction false} FirstDrawEndsLast<T>(s: seq<T>, draws: seq<nat>)
    requires |s| > 0 && ValidDraws(draws, |s|)
    ensures FisherYates(s, draws, |s|)[|s| - 1] == s[draws[0]]
  {
    var n := |s|;
    FisherYatesStep(s, draws, n);
    var s' := Swap(s, n - 1, draws[0]);
    FisherYatesKeepsTail(s', draws, n - 1, n - 1);
  }

  /** One iteration of the loop, as an equation on the remaining work. */
  lemma {:induction false} FisherYatesStep<T>(s: seq<T>, draws: seq<nat>, cur: nat)
    requires 0 < cur <= |s| && ValidDraws(draws, |s|)
    ensures draws[|s| - cur] < cur
    ensures FisherYates(s, draws, cur) == FisherYates(Swap(s, cur - 1, draws[|s| - cur]), draws, cur - 1)
  {
  }

  /** Draws that always pick `currentIndex - 1` swap every element with
      itself, and the array comes back unchanged. */
  lemma {:induction false} StayingDrawsKeepOrder<T>(s: seq<T>, draws: seq<nat>, cur: nat)
    requires cur <= |s| && ValidDraws(draws, |s|)
    requires forall k :: |s| - cur <= k < |s| ==> draws[k] == |s| - 1 - k
    ensures FisherYates(s, draws, cur) == s
    decreases cur
  {
    if cur > 0 {
      assert draws[|s| - cur] == cur - 1;
      assert Swap(s, cur - 1, cur - 1) == s;
      StayingDrawsKeepOrder(s, draws, cur - 1);
    }
  }

  /** `shuffle(array)`: shuffles the caller's array in place, with the
      draws standing for the calls to `Math.random`, and returns that same
      array. Its new contents are the Fisher-Yates result for the draws, a
      permutation of the old ones. */
  method Shuffle<T>(a: array<T>, draws: seq<nat>) returns (r: array<T>)
    requires ValidDraws(draws, a.Length)
    modifies a
    ensures r == a
    ensures a[..] == FisherYates(old(a[..]), draws, a.Length)
    ensures multiset(a[..]) == multiset(old(a[..]))
  {
    ghost var items := a[..];
    ghost var contents := items;
    var currentIndex := a.Length;
    while currentIndex != 0
      invariant 0 <= currentIndex <= a.Length == |contents| == |items|
      invariant a[..] == contents
      invariant FisherYates(contents, draws, currentIndex) == FisherYates(items, draws, |items|)
      decreases currentIndex
    {
      var randomIndex := draws[a.Length - currentIndex];
      FisherYatesStep(contents, draws, currentIndex);
      currentIndex := currentIndex - 1;
      contents := Swap(contents, currentIndex, randomIndex);
      // `[a[c], a[r]] = [a[r], a[c]]` evaluates both right-hand values, then
      // writes position c and afterwards position r.
      var picked := a[currentIndex];
      a[currentIndex] := a[randomIndex];
      a[randomIndex] := picked;
    }
    FisherYatesPermutes(items, draws, |items|);
    return a;
  }
}
