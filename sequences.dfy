/**
 * The iterator adaptors the instruction parser chains together
 * (`skip_while`, `skip`, `next`, `take_while`, `filter`, `map`), written as
 * functions on finite sequences, together with the facts about them that
 * the parser's properties rest on.
 */
module Sequences {
  import opened Options

  /** Index of the first element equal to `x`, or `|s|` when there is none. */
  function IndexOf<T(==)>(s: seq<T>, x: T): (i: nat)
    ensures i <= |s|
    ensures i < |s| ==> s[i] == x
    ensures forall j :: 0 <= j < i ==> s[j] != x
    ensures i == |s| <==> x !in s
  {
    if s == [] then 0
    else if s[0] == x then 0
    else 1 + IndexOf(s[1..], x)
  }

  /** Index of the first element that fails `p`, or `|s|` when all satisfy it. */
  function FirstFailing<T>(s: seq<T>, p: T -> bool): (i: nat)
    ensures i <= |s|
    ensures i < |s| ==> !p(s[i])
    ensures forall j :: 0 <= j < i ==> p(s[j])
  {
    if s == [] || !p(s[0]) then 0 else 1 + FirstFailing(s[1..], p)
  }

  /** `Iterator::skip_while`: drops the longest prefix whose elements satisfy `p`. */
  function SkipWhile<T>(s: seq<T>, p: T -> bool): (r: seq<T>)
    ensures |r| <= |s| && r == s[|s| - |r|..]
    ensures forall j :: 0 <= j < |s| - |r| ==> p(s[j])
    ensures r != [] ==> !p(r[0])
  {
    if s == [] || !p(s[0]) then s else SkipWhile(s[1..], p)
  }

  /** `skip_while` passes over a prefix that satisfies `p` entirely. */
  lemma {:induction false} SkipWhilePrefix<T>(pre: seq<T>, rest: seq<T>, p: T -> bool)
    requires forall k :: 0 <= k < |pre| ==> p(pre[k])
    ensures SkipWhile(pre + rest, p) == SkipWhile(rest, p)
    decreases |pre|
  {
    if pre != [] {
      assert (pre + rest)[0] == pre[0];
      assert (pre + rest)[1..] == pre[1..] + rest;
      SkipWhilePrefix(pre[1..], rest, p);
    } else {
      assert pre + rest == rest;
    }
  }

  /** `Iterator::skip(n)`: drops the first `n` elements, or all of them. */
  function Skip<T>(s: seq<T>, n: nat): (r: seq<T>)
    ensures |r| == if n <= |s| then |s| - n else 0
    ensures forall j :: 0 <= j < |r| ==> r[j] == s[n + j]
  {
    if n <= |s| then s[n..] else []
  }

  /** `Iterator::next`: the first element, if any. */
  function Next<T>(s: seq<T>): (r: Option<T>)
    ensures r.Some? <==> |s| > 0
    ensures r.Some? ==> r.value == s[0]
  {
    if s == [] then None else Some(s[0])
  }

  /** `Iterator::take_while`: the longest prefix whose elements satisfy `p`. */
  function TakeWhile<T>(s: seq<T>, p: T -> bool): (r: seq<T>)
    ensures |r| <= |s| && r == s[..|r|]
    ensures forall j :: 0 <= j < |r| ==> p(r[j])
    ensures |r| < |s| ==> !p(s[|r|])
  {
    if s == [] || !p(s[0]) then [] else [s[0]] + TakeWhile(s[1..], p)
  }

  /** `Iterator::filter`: the elements that satisfy `p`, in their original order. */
  function Filter<T(==)>(s: seq<T>, p: T -> bool): (r: seq<T>)
    ensures |r| <= |s|
    ensures forall j :: 0 <= j < |r| ==> p(r[j])
    ensures forall x :: x in r ==> x in s && p(x)
    ensures forall j :: 0 <= j < |s| && p(s[j]) ==> s[j] in r
  {
    if s == [] then []
    else (if p(s[0]) then [s[0]] else []) + Filter(s[1..], p)
  }

  /**
   * `filter` keeps every occurrence of a kept element and drops every
   * occurrence of the others: duplicates are neither merged nor lost.
   */
  lemma {:induction false} FilterCount<T(!new)>(s: seq<T>, p: T -> bool)
    ensures forall x :: multiset(Filter(s, p))[x] == if p(x) then multiset(s)[x] else 0
  {
    if s != [] {
      FilterCount(s[1..], p);
      assert s == [s[0]] + s[1..];
    }
  }

  /** `take_while` stops exactly at the first element that fails `p`. */
  lemma TakeWhileToFirstFailing<T>(s: seq<T>, p: T -> bool)
    ensures TakeWhile(s, p) == s[..FirstFailing(s, p)]
  {
  }

  /** `a` is `b` with some elements deleted, the order of the rest kept. */
  predicate IsSubsequence<T(==)>(a: seq<T>, b: seq<T>)
    decreases |b|
  {
    if a == [] then true
    else if b == [] then false
    else if a[0] == b[0] then IsSubsequence(a[1..], b[1..])
    else IsSubsequence(a, b[1..])
  }

  /** Filtering keeps exactly the kept elements of each half. */
  lemma {:induction false} FilterAppend<T>(a: seq<T>, b: seq<T>, p: T -> bool)
    ensures Filter(a + b, p) == Filter(a, p) + Filter(b, p)
  {
    if a == [] {
      assert a + b == b;
    } else {
      assert (a + b)[0] == a[0];
      assert (a + b)[1..] == a[1..] + b;
      FilterAppend(a[1..], b, p);
    }
  }

  /** Deleting the first element of the longer sequence keeps a subsequence one. */
  lemma {:induction false} SubsequenceOfTail<T>(a: seq<T>, b: seq<T>)
    requires b != [] && IsSubsequence(a, b[1..])
    ensures IsSubsequence(a, b)
    decreases |b|, 0
  {
    if a != [] && a[0] == b[0] {
      // IsSubsequence(a, b) needs IsSubsequence(a[1..], b[1..]), which
      // follows from IsSubsequence(a, b[1..]) by dropping a[0].
      SubsequenceDropHead(a, b[1..]);
    }
  }

  /** A subsequence stays one when its first element is removed. */
  lemma {:induction false} SubsequenceDropHead<T>(a: seq<T>, b: seq<T>)
    requires a != [] && IsSubsequence(a, b)
    ensures IsSubsequence(a[1..], b)
    decreases |b|, 1
  {
    assert b != [];
    if a[0] == b[0] {
      SubsequenceOfTail(a[1..], b);
    } else {
      SubsequenceDropHead(a, b[1..]);
      SubsequenceOfTail(a[1..], b);
    }
  }

  /** The filtered elements form a subsequence of the input. */
  lemma {:induction false} FilterIsSubsequence<T>(s: seq<T>, p: T -> bool)
    ensures IsSubsequence(Filter(s, p), s)
  {
    if s != [] {
      FilterIsSubsequence(s[1..], p);
      if p(s[0]) {
        assert Filter(s, p) == [s[0]] + Filter(s[1..], p);
        assert Filter(s, p)[1..] == Filter(s[1..], p);
      } else {
        assert Filter(s, p) == Filter(s[1..], p);
        SubsequenceOfTail(Filter(s, p), s);
      }
    }
  }

  /** A subsequence of a prefix is a subsequence of the whole sequence. */
  lemma {:induction false} SubsequenceOfPrefix<T>(a: seq<T>, b: seq<T>, k: nat)
    requires k <= |b| && IsSubsequence(a, b[..k])
    ensures IsSubsequence(a, b)
    decreases k
  {
    if a != [] {
      assert k > 0;
      var pre := b[..k];
      assert pre[0] == b[0];
      assert pre[1..] == b[1..][..k - 1];
      if a[0] == b[0] {
        SubsequenceOfPrefix(a[1..], b[1..], k - 1);
      } else {
        SubsequenceOfPrefix(a, b[1..], k - 1);
        SubsequenceOfTail(a, b);
      }
    }
  }
}
