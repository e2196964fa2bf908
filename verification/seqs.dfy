/** Sequence operations with the meaning of JavaScript's array methods. */
module Seqs {

  /** `a` can be obtained from `b` by deleting elements, keeping the order of the rest. */
  predicate IsSubsequence<T(==)>(a: seq<T>, b: seq<T>)
    decreases |a| + |b|
  {
    |a| == 0 ||
    (|b| > 0 && ((a[0] == b[0] && IsSubsequence(a[1..], b[1..])) || IsSubsequence(a, b[1..])))
  }

  /** `s.filter(p)`: the elements of `s` that satisfy `p`, in their original order. */
  function Filter<T(==,!new)>(s: seq<T>, p: T -> bool): (r: seq<T>)
    ensures |r| <= |s|
    ensures forall x :: x in r <==> x in s && p(x)
    ensures IsSubsequence(r, s)
  {
    if |s| == 0 then []
    else
      var rest := Filter(s[1..], p);
      if p(s[0]) then
        assert ([s[0]] + rest)[1..] == rest;
        [s[0]] + rest
      else rest
  }

  /** `filter` keeps every occurrence of a kept element and none of the others:
      each element occurs in the result as often as in `s` when it satisfies `p`. */
  lemma {:induction false} FilterCounts<T(!new)>(s: seq<T>, p: T -> bool)
    ensures forall x :: multiset(Filter(s, p))[x] == if p(x) then multiset(s)[x] else 0
  {
    if |s| > 0 {
      FilterCounts(s[1..], p);
      assert s == [s[0]] + s[1..];
    }
  }

  /** A sequence without members is empty. */
  lemma NoMemberIsEmpty<T>(s: seq<T>)
    ensures (forall x :: x !in s) ==> s == []
  {
    if s != [] {
      assert s[0] in s;
    }
  }

  /** Filtering keeps a sequence unchanged exactly when every element passes. */
  lemma {:induction false} FilterKeepsAll<T(!new)>(s: seq<T>, p: T -> bool)
    ensures Filter(s, p) == s <==> forall x :: x in s ==> p(x)
  {
    if |s| > 0 {
      FilterKeepsAll(s[1..], p);
      if !p(s[0]) {
        assert |Filter(s, p)| <= |s[1..]| < |s|;
      }
    }
  }

  /** Filtering distributes over concatenation. */
  lemma {:induction false} FilterAppend<T(!new)>(a: seq<T>, b: seq<T>, p: T -> bool)
    ensures Filter(a + b, p) == Filter(a, p) + Filter(b, p)
  {
    if |a| == 0 {
      assert a + b == b;
    } else {
      assert (a + b)[1..] == a[1..] + b;
      FilterAppend(a[1..], b, p);
    }
  }

  /** The list with the element at `k` removed, written as JavaScript's
      `s.filter((_, index) => index !== k)`: walks the positions from `from`. */
  function DropIndexFrom<T>(s: seq<T>, k: int, from: int): (r: seq<T>)
    decreases |s|
  {
    if |s| == 0 then []
    else (if from == k then [] else [s[0]]) + DropIndexFrom(s[1..], k, from + 1)
  }

  /** `s.filter((_, index) => index !== k)`. */
  function DropIndex<T>(s: seq<T>, k: int): (r: seq<T>)
  {
    DropIndexFrom(s, k, 0)
  }

  /** Removing by index drops exactly the element at `k` and keeps the rest in order;
      an index outside the list changes nothing. */
  lemma DropIndexSpec<T>(s: seq<T>, k: int)
    ensures 0 <= k < |s| ==> DropIndex(s, k) == s[..k] + s[k + 1..]
    ensures !(0 <= k < |s|) ==> DropIndex(s, k) == s
  {
    DropIndexFromSpec(s, k, 0);
    assert s[0..] == s;
  }

  lemma {:induction false} DropIndexFromSpec<T>(s: seq<T>, k: int, from: int)
    ensures from <= k < from + |s| ==> DropIndexFrom(s, k, from) == s[..k - from] + s[k - from + 1..]
    ensures !(from <= k < from + |s|) ==> DropIndexFrom(s, k, from) == s
  {
    if |s| > 0 {
      DropIndexFromSpec(s[1..], k, from + 1);
      if from == k {
        assert s[..0] + s[1..] == s[1..];
      } else if from < k < from + |s| {
        DropIndexFromLater(s, k, from);
      } else {
        assert s == [s[0]] + s[1..];
      }
    }
  }

  lemma DropIndexFromLater<T>(s: seq<T>, k: int, from: int)
    requires from < k < from + |s|
    requires DropIndexFrom(s[1..], k, from + 1) == s[1..][..k - from - 1] + s[1..][k - from..]
    ensures DropIndexFrom(s, k, from) == s[..k - from] + s[k - from + 1..]
  {
    var t, j := s[1..], k - from;
    var a, b := t[..j - 1], t[j..];
    assert DropIndexFrom(s, k, from) == [s[0]] + (a + b);
    assert s[..j] == [s[0]] + a;
    assert s[j + 1..] == b;
    assert [s[0]] + (a + b) == ([s[0]] + a) + b;
  }

}
