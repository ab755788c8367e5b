/** Order-preserving filtering of sequences, the shape of `replaceAll` with a
    negated character class. */
module Seqs {

  /** Every element of `r` satisfies `keep`, and `r` holds each element of
      `s` that satisfies `keep` exactly as often as `s` does. */
  ghost predicate SelectsExactly<T>(r: seq<T>, s: seq<T>, keep: T -> bool)
  {
    && (forall i :: 0 <= i < |r| ==> keep(r[i]))
    && multiset(r) <= multiset(s)
    && (forall i :: 0 <= i < |s| && keep(s[i]) ==> multiset(r)[s[i]] == multiset(s)[s[i]])
  }

  /** The elements of `s` that satisfy `keep`, in their original order. */
  function Filter<T>(s: seq<T>, keep: T -> bool): (r: seq<T>)
    ensures |r| <= |s|
    ensures forall i :: 0 <= i < |r| ==> keep(r[i])
  {
    if |s| == 0 then []
    else (if keep(s[0]) then [s[0]] else []) + Filter(s[1..], keep)
  }

  /** The filter drops only elements that fail `keep`, and drops every
      copy of them: it keeps each element that passes as often as `s`
      holds it. */
  lemma {:induction false} FilterSelectsExactly<T>(s: seq<T>, keep: T -> bool)
    ensures SelectsExactly(Filter(s, keep), s, keep)
  {
    if |s| > 0 {
      var t := s[1..];
      var head := if keep(s[0]) then [s[0]] else [];
      FilterSelectsExactly(t, keep);
      assert s == [s[0]] + t;
      var r := Filter(s, keep);
      assert r == head + Filter(t, keep);
      assert multiset(r) == multiset(head) + multiset(Filter(t, keep));
      assert multiset(s) == multiset([s[0]]) + multiset(t);
      forall i | 0 <= i < |s| && keep(s[i])
        ensures multiset(r)[s[i]] == multiset(s)[s[i]]
      {
        if s[i] !in t {
          assert s[i] !in multiset(Filter(t, keep));
        } else {
          var j :| 0 <= j < |t| && t[j] == s[i];
        }
      }
    }
  }

  /** Filtering distributes over concatenation: together with the one-element
      case this pins down the order of the kept elements. */
  lemma {:induction false} FilterConcat<T>(a: seq<T>, b: seq<T>, keep: T -> bool)
    ensures Filter(a + b, keep) == Filter(a, keep) + Filter(b, keep)
  {
    if |a| == 0 {
      assert a + b == b;
    } else {
      assert (a + b)[1..] == a[1..] + b;
      FilterConcat(a[1..], b, keep);
    }
  }

  /** A sequence is left unchanged exactly when every element is kept. */
  lemma {:induction false} FilterAllKept<T>(s: seq<T>, keep: T -> bool)
    ensures Filter(s, keep) == s <==> forall i :: 0 <= i < |s| ==> keep(s[i])
  {
    if |s| > 0 && forall i :: 0 <= i < |s| ==> keep(s[i]) {
      var tail := s[1..];
      assert forall i :: 0 <= i < |tail| ==> keep(tail[i]) by {
        forall i | 0 <= i < |tail|
          ensures keep(tail[i])
        {
          assert tail[i] == s[i + 1];
        }
      }
      FilterAllKept(tail, keep);
      assert s == [s[0]] + tail;
    }
  }

  /** A sequence none of whose elements is kept filters to nothing. */
  lemma {:induction false} FilterNoneKept<T>(s: seq<T>, keep: T -> bool)
    requires forall i :: 0 <= i < |s| ==> !keep(s[i])
    ensures Filter(s, keep) == []
  {
    if |s| > 0 {
      var tail := s[1..];
      assert forall i :: 0 <= i < |tail| ==> !keep(tail[i]) by {
        forall i | 0 <= i < |tail|
          ensures !keep(tail[i])
        {
          assert tail[i] == s[i + 1];
        }
      }
      FilterNoneKept(tail, keep);
    }
  }

  /** Filtering with a stronger condition after a weaker one is the same as
      filtering with the stronger one alone. */
  lemma {:induction false} FilterNarrow<T>(s: seq<T>, wide: T -> bool, narrow: T -> bool)
    requires forall x :: narrow(x) ==> wide(x)
    ensures Filter(Filter(s, wide), narrow) == Filter(s, narrow)
  {
    if |s| > 0 {
      var head := if wide(s[0]) then [s[0]] else [];
      FilterConcat(head, Filter(s[1..], wide), narrow);
      FilterNarrow(s[1..], wide, narrow);
    }
  }

  /** Filtering twice with the same condition is filtering once. */
  lemma {:induction false} FilterIdempotent<T>(s: seq<T>, keep: T -> bool)
    ensures Filter(Filter(s, keep), keep) == Filter(s, keep)
  {
    FilterNarrow(s, keep, keep);
  }
}
