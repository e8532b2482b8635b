/** The three array operations the holidays page relies on, with the meaning
    ECMAScript gives them: `filter` (an order-preserving selection), `some`
    (an existential test) and `slice` (a clamped contiguous window). */
module JsArrays {

  /** `s.filter(keep)`: the elements of `s` that satisfy `keep`, in their
      original order. */
  function Filter<T>(s: seq<T>, keep: T -> bool): (r: seq<T>)
    ensures |r| <= |s|
    ensures forall i :: 0 <= i < |r| ==> r[i] in s && keep(r[i])
    ensures forall i :: 0 <= i < |s| && keep(s[i]) ==> s[i] in r
  {
    if s == [] then []
    else if keep(s[0]) then [s[0]] + Filter(s[1..], keep)
    else Filter(s[1..], keep)
  }

  /** `s.some(p)`: true exactly when some element of `s` satisfies `p`. */
  function Any<T>(s: seq<T>, p: T -> bool): (b: bool)
    ensures b <==> exists i :: 0 <= i < |s| && p(s[i])
  {
    if s == [] then false
    else p(s[0]) || Any(s[1..], p)
  }

  /** The conjunction of two element tests, as one test. */
  function Both<T>(p: T -> bool, q: T -> bool): T -> bool
  {
    x => p(x) && q(x)
  }

  /** `r` is obtained from `s` by deleting elements, keeping the order. */
  ghost predicate IsSubsequence<T>(r: seq<T>, s: seq<T>)
    decreases |s|
  {
    if s == [] then r == []
    else (r != [] && r[0] == s[0] && IsSubsequence(r[1..], s[1..])) || IsSubsequence(r, s[1..])
  }

  /** The filtered list is an order-preserving subsequence of the input. */
  lemma {:induction false} FilterIsSubsequence<T>(s: seq<T>, keep: T -> bool)
    ensures IsSubsequence(Filter(s, keep), s)
  {
    if s != [] {
      FilterIsSubsequence(s[1..], keep);
      var r := Filter(s, keep);
      if keep(s[0]) {
        assert r[0] == s[0] && r[1..] == Filter(s[1..], keep);
      }
    }
  }

  /** Filtering keeps every copy of a kept element and no copy of a dropped one. */
  lemma {:induction false} FilterMultiplicity<T>(s: seq<T>, keep: T -> bool, x: T)
    ensures multiset(Filter(s, keep))[x] == if keep(x) then multiset(s)[x] else 0
  {
    if s != [] {
      FilterMultiplicity(s[1..], keep, x);
      assert s == [s[0]] + s[1..];
      assert multiset(s) == multiset([s[0]]) + multiset(s[1..]);
      if keep(s[0]) {
        assert multiset(Filter(s, keep)) == multiset([s[0]]) + multiset(Filter(s[1..], keep));
      }
    }
  }

  /** Filtering a concatenation filters each part (with the multiplicity
      lemma, this pins the result down completely). */
  lemma {:induction false} FilterConcat<T>(a: seq<T>, b: seq<T>, keep: T -> bool)
    ensures Filter(a + b, keep) == Filter(a, keep) + Filter(b, keep)
  {
    if a != [] {
      assert (a + b)[0] == a[0];
      assert (a + b)[1..] == a[1..] + b;
      FilterConcat(a[1..], b, keep);
      if keep(a[0]) {
        assert Filter(a + b, keep) == [a[0]] + (Filter(a[1..], keep) + Filter(b, keep));
        assert Filter(a, keep) == [a[0]] + Filter(a[1..], keep);
        assert [a[0]] + (Filter(a[1..], keep) + Filter(b, keep))
            == ([a[0]] + Filter(a[1..], keep)) + Filter(b, keep);
      } else {
        assert Filter(a + b, keep) == Filter(a[1..], keep) + Filter(b, keep);
      }
    } else {
      assert a + b == b;
    }
  }

  /** A test that every element passes leaves the list as it is. */
  lemma {:induction false} FilterKeepsAll<T>(s: seq<T>, keep: T -> bool)
    requires forall i :: 0 <= i < |s| ==> keep(s[i])
    ensures Filter(s, keep) == s
  {
    if s != [] {
      assert keep(s[0]);
      FilterKeepsAll(s[1..], keep);
    }
  }

  /** Filtering depends only on which elements the test accepts. */
  lemma {:induction false} FilterSameTest<T>(s: seq<T>, p: T -> bool, q: T -> bool)
    requires forall x :: p(x) == q(x)
    ensures Filter(s, p) == Filter(s, q)
  {
    if s != [] {
      FilterSameTest(s[1..], p, q);
    }
  }

  /** Two filters in a row are one filter by the conjunction of the tests. */
  lemma {:induction false} FilterFilter<T>(s: seq<T>, p: T -> bool, q: T -> bool)
    ensures Filter(Filter(s, p), q) == Filter(s, Both(p, q))
  {
    if s != [] {
      FilterFilter(s[1..], p, q);
      if p(s[0]) {
        assert Filter([s[0]] + Filter(s[1..], p), q)
            == Filter([s[0]], q) + Filter(Filter(s[1..], p), q) by {
          FilterConcat([s[0]], Filter(s[1..], p), q);
        }
        assert Filter([s[0]], q) == if q(s[0]) then [s[0]] else [];
      }
    }
  }

  /** A stricter test keeps a subsequence of what a looser test keeps, so
      never more elements. */
  lemma {:induction false} FilterNarrower<T>(s: seq<T>, strict: T -> bool, loose: T -> bool)
    requires forall x :: strict(x) ==> loose(x)
    ensures Filter(s, strict) == Filter(Filter(s, loose), strict)
    ensures |Filter(s, strict)| <= |Filter(s, loose)|
  {
    if s != [] {
      FilterNarrower(s[1..], strict, loose);
      if loose(s[0]) {
        assert Filter([s[0]] + Filter(s[1..], loose), strict)
            == Filter([s[0]], strict) + Filter(Filter(s[1..], loose), strict) by {
          FilterConcat([s[0]], Filter(s[1..], loose), strict);
        }
        assert Filter([s[0]], strict) == if strict(s[0]) then [s[0]] else [];
      }
    }
  }

  /** ECMAScript's relative index for `slice`: a negative argument counts from
      the end; the result is clamped into `[0, len]`. */
  function RelativeIndex(k: int, len: nat): (i: nat)
    ensures i <= len
  {
    if k < 0 then (if len + k < 0 then 0 else len + k)
    else if k < len then k else len
  }

  /** `s.slice(start, end)`: the contiguous run of `s` from the relative
      start up to (not including) the relative end, empty when the end does
      not lie after the start. */
  function Slice<T>(s: seq<T>, start: int, end: int): (r: seq<T>)
    ensures RelativeIndex(start, |s|) + |r| <= |s|
    ensures 0 <= start <= end ==> |r| <= end - start
    ensures |r| == if RelativeIndex(start, |s|) < RelativeIndex(end, |s|)
                   then RelativeIndex(end, |s|) - RelativeIndex(start, |s|) else 0
    ensures forall i :: 0 <= i < |r| ==> r[i] == s[RelativeIndex(start, |s|) + i]
  {
    var from := RelativeIndex(start, |s|);
    var to := RelativeIndex(end, |s|);
    if from < to then s[from..to] else []
  }
}
