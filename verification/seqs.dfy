/** `Array.prototype.filter`, characterised without reference to how it is
    computed: the kept elements appear in their original order, each as often
    as it occurs in the input. */
module Seqs {

  /** `xs` is `ys` with some elements left out, order kept. */
  ghost predicate Subsequence<T>(xs: seq<T>, ys: seq<T>)
    decreases |ys|
  {
    if |xs| == 0 then true
    else if |ys| == 0 then false
    else (xs[0] == ys[0] && Subsequence(xs[1..], ys[1..])) || Subsequence(xs, ys[1..])
  }

  /** Leaving elements out never adds occurrences. */
  lemma {:induction false} SubsequenceMultiset<T>(xs: seq<T>, ys: seq<T>)
    requires Subsequence(xs, ys)
    ensures multiset(xs) <= multiset(ys)
    decreases |ys|
  {
    if |xs| > 0 {
      assert ys == [ys[0]] + ys[1..];
      if xs[0] == ys[0] && Subsequence(xs[1..], ys[1..]) {
        SubsequenceMultiset(xs[1..], ys[1..]);
        assert xs == [xs[0]] + xs[1..];
      } else {
        SubsequenceMultiset(xs, ys[1..]);
      }
    }
  }

  /** The elements of `s` that `keep` accepts, in order. */
  function Filter<T(==,!new)>(s: seq<T>, keep: T -> bool): (r: seq<T>)
    ensures Subsequence(r, s)
    ensures forall x :: multiset(r)[x] == if keep(x) then multiset(s)[x] else 0
    decreases |s|
  {
    if |s| == 0 then []
    else
      assert s == [s[0]] + s[1..];
      if keep(s[0]) then [s[0]] + Filter(s[1..], keep) else Filter(s[1..], keep)
  }

  /** The two properties above determine the filter: any subsequence that
      keeps exactly the accepted elements, with their multiplicity, is it. */
  lemma {:induction false} FilterUnique<T(!new)>(s: seq<T>, keep: T -> bool, r: seq<T>)
    requires Subsequence(r, s)
    requires forall x :: multiset(r)[x] == if keep(x) then multiset(s)[x] else 0
    ensures r == Filter(s, keep)
    decreases |s|
  {
    if |s| > 0 {
      var head := s[0];
      var tail := s[1..];
      assert s == [head] + tail;
      if Subsequence(r, tail) {
        SubsequenceMultiset(r, tail);
      }
      if keep(head) {
        assert multiset(r)[head] == multiset(tail)[head] + 1;
        assert r[0] == head && Subsequence(r[1..], tail);
        assert r == [head] + r[1..];
        FilterUnique(tail, keep, r[1..]);
      } else {
        assert |r| == 0 || r[0] != head;
        assert Subsequence(r, tail);
        FilterUnique(tail, keep, r);
      }
    }
  }
}
