/** `Array.prototype.filter` and `Array.prototype.map`, and the order they keep. */
module Sequences {

  /** `r` is `s` with some elements left out, the rest in their order. */
  ghost predicate IsSubsequence<T>(r: seq<T>, s: seq<T>)
    decreases |s|
  {
    r == [] || (s != [] && ((r[0] == s[0] && IsSubsequence(r[1..], s[1..])) || IsSubsequence(r, s[1..])))
  }

  lemma {:induction false} SubsequenceTransitive<T>(a: seq<T>, b: seq<T>, c: seq<T>)
    requires IsSubsequence(a, b) && IsSubsequence(b, c)
    ensures IsSubsequence(a, c)
    decreases |c|
  {
    if a != [] {
      if b[0] == c[0] && IsSubsequence(b[1..], c[1..]) {
        if a[0] == b[0] && IsSubsequence(a[1..], b[1..]) {
          SubsequenceTransitive(a[1..], b[1..], c[1..]);
        } else {
          SubsequenceTransitive(a, b[1..], c[1..]);
        }
      } else {
        SubsequenceTransitive(a, b, c[1..]);
      }
    }
  }

  /** `r` is what filtering `s` with `p` must give: a subsequence of `s`
      holding every occurrence of an element that satisfies `p` and no
      occurrence of any other. */
  ghost predicate IsFilterOf<T(!new)>(r: seq<T>, s: seq<T>, p: T -> bool)
  {
    IsSubsequence(r, s) && forall x :: multiset(r)[x] == if p(x) then multiset(s)[x] else 0
  }

  /** `s.filter(p)`: exactly the elements of `s` that satisfy `p`, in order. */
  function Filter<T(!new)>(s: seq<T>, p: T -> bool): (r: seq<T>)
    ensures forall x :: x in r <==> x in s && p(x)
    ensures IsSubsequence(r, s)
  {
    if s == [] then []
    else
      var rest := Filter(s[1..], p);
      assert forall x :: x in s <==> x == s[0] || x in s[1..];
      if p(s[0]) then
        assert ([s[0]] + rest)[1..] == rest;
        [s[0]] + rest
      else rest
  }

  /** `Filter` keeps each element that satisfies `p` as often as `s` holds
      it, and no other: it is a filter of `s` by `p`. */
  lemma {:induction false} FilterCount<T(!new)>(s: seq<T>, p: T -> bool)
    ensures IsFilterOf(Filter(s, p), s, p)
    decreases |s|
  {
    if s != [] {
      assert s == [s[0]] + s[1..];
      FilterCount(s[1..], p);
      if p(s[0]) {
        FilterKeep(s[0], s[1..], p);
      } else {
        FilterSkip(s[0], s[1..], p);
      }
    }
  }

  /** A subsequence holds each element at most as often as the list. */
  lemma {:induction false} SubsequenceMultiset<T>(r: seq<T>, s: seq<T>)
    requires IsSubsequence(r, s)
    ensures multiset(r) <= multiset(s)
    decreases |s|
  {
    if r != [] {
      assert s == [s[0]] + s[1..];
      if r[0] == s[0] && IsSubsequence(r[1..], s[1..]) {
        assert r == [r[0]] + r[1..];
        SubsequenceMultiset(r[1..], s[1..]);
      } else {
        SubsequenceMultiset(r, s[1..]);
      }
    }
  }

  /** `Filter` is the only list that is a filter of `s` by `p`: the
      description pins the result down. */
  lemma {:induction false} FilterUnique<T(!new)>(r: seq<T>, s: seq<T>, p: T -> bool)
    requires IsFilterOf(r, s, p)
    ensures r == Filter(s, p)
    decreases |s|
  {
    if s != [] {
      var a := s[0];
      assert s == [a] + s[1..];
      if r != [] && r[0] == a && IsSubsequence(r[1..], s[1..]) {
        assert r == [a] + r[1..];
        FilterUnique(r[1..], s[1..], p);
      } else {
        SubsequenceMultiset(r, s[1..]);
        FilterUnique(r, s[1..], p);
      }
    }
  }

  /** Filtering a list that starts with an element `p` accepts keeps it
      in front. */
  lemma FilterKeep<T(!new)>(x: T, rest: seq<T>, p: T -> bool)
    requires p(x)
    ensures Filter([x] + rest, p) == [x] + Filter(rest, p)
  {
    assert ([x] + rest)[1..] == rest;
  }

  /** Filtering a list that starts with an element `p` rejects drops it. */
  lemma FilterSkip<T(!new)>(x: T, rest: seq<T>, p: T -> bool)
    requires !p(x)
    ensures Filter([x] + rest, p) == Filter(rest, p)
  {
    assert ([x] + rest)[1..] == rest;
  }

  /** Filtering with a predicate every element satisfies keeps the list. */
  lemma {:induction false} FilterAll<T(!new)>(s: seq<T>, p: T -> bool)
    requires forall x :: x in s ==> p(x)
    ensures Filter(s, p) == s
  {
    if s != [] {
      assert s[0] in s;
      assert forall x :: x in s[1..] ==> x in s;
      FilterAll(s[1..], p);
      assert s == [s[0]] + s[1..];
    }
  }

  /** `s.map(f)`. */
  function Map<T, U>(s: seq<T>, f: T -> U): (r: seq<U>)
    ensures |r| == |s|
    ensures forall k :: 0 <= k < |s| ==> r[k] == f(s[k])
  {
    seq(|s|, k requires 0 <= k < |s| => f(s[k]))
  }

  /** Filtering mapped values is mapping the filtered list, when the
      predicates agree on the elements of `s`. */
  lemma {:induction false} FilterMap<T(!new), U(!new)>(s: seq<T>, f: T -> U, q: U -> bool, p: T -> bool)
    requires forall x :: x in s ==> p(x) == q(f(x))
    ensures Filter(Map(s, f), q) == Map(Filter(s, p), f)
    decreases |s|
  {
    if s != [] {
      assert s == [s[0]] + s[1..];
      assert s[0] in s;
      assert forall x :: x in s[1..] ==> x in s;
      FilterMap(s[1..], f, q, p);
      FilterMapStep(s[0], s[1..], f, q, p);
    }
  }

  lemma FilterMapStep<T(!new), U(!new)>(a: T, tail: seq<T>, f: T -> U, q: U -> bool, p: T -> bool)
    requires p(a) == q(f(a))
    requires Filter(Map(tail, f), q) == Map(Filter(tail, p), f)
    ensures Filter(Map([a] + tail, f), q) == Map(Filter([a] + tail, p), f)
  {
    assert Map([a] + tail, f) == [f(a)] + Map(tail, f);
    if p(a) {
      FilterKeep(f(a), Map(tail, f), q);
      FilterKeep(a, tail, p);
      assert Map([a] + Filter(tail, p), f) == [f(a)] + Map(Filter(tail, p), f);
    } else {
      FilterSkip(f(a), Map(tail, f), q);
      FilterSkip(a, tail, p);
    }
  }

  /** Mapping keeps a subsequence a subsequence. */
  lemma {:induction false} MapSubsequence<T, U>(r: seq<T>, s: seq<T>, f: T -> U)
    requires IsSubsequence(r, s)
    ensures IsSubsequence(Map(r, f), Map(s, f))
    decreases |s|
  {
    if r != [] {
      assert Map(s, f)[1..] == Map(s[1..], f);
      if r[0] == s[0] && IsSubsequence(r[1..], s[1..]) {
        assert Map(r, f)[1..] == Map(r[1..], f);
        MapSubsequence(r[1..], s[1..], f);
      } else {
        MapSubsequence(r, s[1..], f);
      }
    }
  }

  /** A subsequence of a list ordered by `less` is ordered by `less`. */
  lemma {:induction false} SubsequenceOrdered<T>(r: seq<T>, s: seq<T>, less: (T, T) -> bool)
    requires IsSubsequence(r, s)
    requires forall i, j :: 0 <= i < j < |s| ==> less(s[i], s[j])
    ensures forall i, j :: 0 <= i < j < |r| ==> less(r[i], r[j])
    decreases |s|
  {
    if r != [] {
      if r[0] == s[0] && IsSubsequence(r[1..], s[1..]) {
        SubsequenceOrdered(r[1..], s[1..], less);
        SubsequenceMembers(r[1..], s[1..]);
        forall i, j | 0 <= i < j < |r| ensures less(r[i], r[j]) {
          if i == 0 {
            assert r[j] == r[1..][j - 1] && r[j] in r[1..];
            var k :| 0 <= k < |s[1..]| && s[1..][k] == r[j];
            assert less(s[0], s[k + 1]);
          } else {
            assert r[i] == r[1..][i - 1] && r[j] == r[1..][j - 1];
          }
        }
      } else {
        SubsequenceOrdered(r, s[1..], less);
      }
    }
  }

  /** Every element of a subsequence is an element of the list. */
  lemma {:induction false} SubsequenceMembers<T>(r: seq<T>, s: seq<T>)
    requires IsSubsequence(r, s)
    ensures forall x :: x in r ==> x in s
    decreases |s|
  {
    if r != [] {
      if r[0] == s[0] && IsSubsequence(r[1..], s[1..]) {
        SubsequenceMembers(r[1..], s[1..]);
        assert forall x :: x in r ==> x == r[0] || x in r[1..];
      } else {
        SubsequenceMembers(r, s[1..]);
      }
    }
  }
}
