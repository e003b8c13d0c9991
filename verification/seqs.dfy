/** Sequence vocabulary shared by the modules that model ordered Java collections
    (a LinkedHashMap's key order, a stream pipeline, a list of tree children). */
module Seqs {

  predicate NoDuplicates<T(==)>(s: seq<T>) {
    forall i, j :: 0 <= i < j < |s| ==> s[i] != s[j]
  }

  /** `a` is obtained from `b` by deleting elements, keeping the order of the rest. */
  predicate IsSubsequence<T(==)>(a: seq<T>, b: seq<T>)
    decreases |b|
  {
    if |a| == 0 then true
    else if |b| == 0 then false
    else if a[0] == b[0] then IsSubsequence(a[1..], b[1..])
    else IsSubsequence(a, b[1..])
  }

  /** A stream's `filter`. */
  function Filter<T>(s: seq<T>, p: T -> bool): (r: seq<T>)
    ensures |r| <= |s|
    ensures forall i :: 0 <= i < |r| ==> r[i] in s && p(r[i])
    ensures forall i :: 0 <= i < |s| && p(s[i]) ==> s[i] in r
  {
    if |s| == 0 then []
    else if p(s[0]) then [s[0]] + Filter(s[1..], p)
    else Filter(s[1..], p)
  }

  /** A stream's `map`. */
  function Map<T, U>(s: seq<T>, f: T -> U): (r: seq<U>)
    ensures |r| == |s|
    ensures forall i :: 0 <= i < |s| ==> r[i] == f(s[i])
  {
    if |s| == 0 then [] else [f(s[0])] + Map(s[1..], f)
  }

  lemma {:induction false} FilterIsSubsequence<T>(s: seq<T>, p: T -> bool)
    ensures IsSubsequence(Filter(s, p), s)
    decreases |s|
  {
    if |s| > 0 {
      FilterIsSubsequence(s[1..], p);
      if p(s[0]) {
        var r := Filter(s, p);
        assert r[0] == s[0] && r[1..] == Filter(s[1..], p);
      } else {
        SubsequenceOfTail(Filter(s, p), s);
      }
    }
  }

  /** Dropping the first element of the longer sequence keeps a subsequence a subsequence. */
  lemma {:induction false} SubsequenceOfTail<T>(a: seq<T>, b: seq<T>)
    requires |b| > 0 && IsSubsequence(a, b[1..])
    ensures IsSubsequence(a, b)
    decreases |b|, 0
  {
    if |a| > 0 && a[0] == b[0] {
      SubsequenceDropHead(a, b[1..]);
    }
  }

  /** Dropping the first element of the shorter sequence keeps a subsequence a subsequence. */
  lemma {:induction false} SubsequenceDropHead<T>(a: seq<T>, b: seq<T>)
    requires |a| > 0 && IsSubsequence(a, b)
    ensures IsSubsequence(a[1..], b)
    decreases |b|, 1
  {
    if a[0] == b[0] {
      SubsequenceOfTail(a[1..], b);
    } else {
      SubsequenceDropHead(a, b[1..]);
      SubsequenceOfTail(a[1..], b);
    }
  }

  lemma {:induction false} SubsequenceIsTransitive<T>(a: seq<T>, b: seq<T>, c: seq<T>)
    requires IsSubsequence(a, b) && IsSubsequence(b, c)
    ensures IsSubsequence(a, c)
    decreases |c|
  {
    if |a| > 0 {
      if b[0] == c[0] {
        if a[0] == b[0] {
          SubsequenceIsTransitive(a[1..], b[1..], c[1..]);
        } else {
          SubsequenceIsTransitive(a, b[1..], c[1..]);
          SubsequenceOfTail(a, c);
        }
      } else {
        SubsequenceIsTransitive(a, b, c[1..]);
        SubsequenceOfTail(a, c);
      }
    }
  }

  lemma {:induction false} SubsequenceElements<T>(a: seq<T>, b: seq<T>)
    requires IsSubsequence(a, b)
    ensures forall x :: x in a ==> x in b
    decreases |b|
  {
    if |a| > 0 {
      if a[0] == b[0] {
        SubsequenceElements(a[1..], b[1..]);
        forall x | x in a ensures x in b {
          if x != a[0] {
            assert x in a[1..];
          }
        }
      } else {
        SubsequenceElements(a, b[1..]);
      }
    }
  }

  lemma {:induction false} FilterKeepsNoDuplicates<T>(s: seq<T>, p: T -> bool)
    requires NoDuplicates(s)
    ensures NoDuplicates(Filter(s, p))
    decreases |s|
  {
    if |s| > 0 {
      assert NoDuplicates(s[1..]) by {
        forall i, j | 0 <= i < j < |s| - 1 ensures s[1..][i] != s[1..][j] {
          assert s[1..][i] == s[i + 1] && s[1..][j] == s[j + 1];
        }
      }
      FilterKeepsNoDuplicates(s[1..], p);
      if p(s[0]) {
        var t := Filter(s[1..], p);
        assert s[0] !in s[1..];
        assert s[0] !in t;
        var r := [s[0]] + t;
        forall i, j | 0 <= i < j < |r| ensures r[i] != r[j] {
          if i == 0 {
            assert r[j] == t[j - 1];
          } else {
            assert r[i] == t[i - 1] && r[j] == t[j - 1];
          }
        }
      }
    }
  }

  /** Filtering after mapping is mapping after filtering by the composed predicate. */
  lemma {:induction false} FilterMap<T, U>(s: seq<T>, f: T -> U, p: U -> bool)
    ensures Filter(Map(s, f), p) == Map(Filter(s, x => p(f(x))), f)
    decreases |s|
  {
    if |s| > 0 {
      FilterMap(s[1..], f, p);
      assert Map(s, f)[1..] == Map(s[1..], f);
    }
  }

  /** A sequence without repetitions has as many elements as its set of elements. */
  lemma {:induction false} DistinctCardinality<T>(s: seq<T>)
    requires NoDuplicates(s)
    ensures |set x | x in s| == |s|
    decreases |s|
  {
    if |s| > 0 {
      var t := s[1..];
      assert NoDuplicates(t) by {
        forall i, j | 0 <= i < j < |t| ensures t[i] != t[j] {
          assert t[i] == s[i + 1] && t[j] == s[j + 1];
        }
      }
      DistinctCardinality(t);
      assert s[0] !in t;
      assert (set x | x in s) == (set x | x in t) + {s[0]};
    }
  }

  lemma {:induction false} FilterAppend<T>(a: seq<T>, b: seq<T>, p: T -> bool)
    ensures Filter(a + b, p) == Filter(a, p) + Filter(b, p)
    decreases |a|
  {
    if |a| > 0 {
      FilterAppend(a[1..], b, p);
      assert (a + b)[1..] == a[1..] + b;
    } else {
      assert a + b == b;
    }
  }

  /** A filter that every element passes changes nothing. */
  lemma {:induction false} FilterAllPass<T>(s: seq<T>, p: T -> bool)
    requires forall i :: 0 <= i < |s| ==> p(s[i])
    ensures Filter(s, p) == s
    decreases |s|
  {
    if |s| > 0 {
      FilterAllPass(s[1..], p);
      assert [s[0]] + s[1..] == s;
    }
  }

  lemma {:induction false} SubsequenceIsReflexive<T>(s: seq<T>)
    ensures IsSubsequence(s, s)
    decreases |s|
  {
    if |s| > 0 {
      SubsequenceIsReflexive(s[1..]);
    }
  }

  /** Subsequences of two sequences concatenate to a subsequence of their concatenation. */
  lemma {:induction false} SubsequenceAppend<T>(a1: seq<T>, b1: seq<T>, a2: seq<T>, b2: seq<T>)
    requires IsSubsequence(a1, b1) && IsSubsequence(a2, b2)
    ensures IsSubsequence(a1 + a2, b1 + b2)
    decreases |b1|
  {
    if |b1| == 0 {
      assert a1 + a2 == a2 && b1 + b2 == b2;
    } else if |a1| > 0 && a1[0] == b1[0] {
      SubsequenceAppend(a1[1..], b1[1..], a2, b2);
      assert (a1 + a2)[1..] == a1[1..] + a2;
      assert (b1 + b2)[1..] == b1[1..] + b2;
    } else {
      SubsequenceAppend(a1, b1[1..], a2, b2);
      assert (b1 + b2)[1..] == b1[1..] + b2;
      SubsequenceOfTail(a1 + a2, b1 + b2);
    }
  }
}
