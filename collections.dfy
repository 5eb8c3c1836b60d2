/** Generic helpers over sequences: the optional value, the order-preserving
    `filter` that the hint manager applies to its candidate and hint lists, and
    the subsequence relation it guarantees. */
module Collections {

  datatype Option<+T> = None | Some(value: T)

  /** `Array.prototype.filter`: keeps, in order, the elements satisfying `f`.
      Defined from the back so that a loop that appends matches one by one
      follows the definition step by step. */
  function Filter<T(==,!new)>(s: seq<T>, f: T -> bool): (r: seq<T>)
    ensures |r| <= |s|
    ensures forall x :: x in r <==> x in s && f(x)
    decreases |s|
  {
    if s == [] then []
    else
      assert s == s[..|s| - 1] + [s[|s| - 1]];
      Filter(s[..|s| - 1], f) + (if f(s[|s| - 1]) then [s[|s| - 1]] else [])
  }

  /** `a` is `b` with some elements removed, the rest kept in order. */
  predicate IsSubseq<T(==)>(a: seq<T>, b: seq<T>)
    decreases |b|
  {
    if a == [] then true
    else if b == [] then false
    else if a[|a| - 1] == b[|b| - 1] then IsSubseq(a[..|a| - 1], b[..|b| - 1])
    else IsSubseq(a, b[..|b| - 1])
  }

  lemma {:induction false} SubseqRefl<T(!new)>(s: seq<T>)
    ensures IsSubseq(s, s)
    decreases |s|
  {
    if s != [] {
      SubseqRefl(s[..|s| - 1]);
    }
  }

  /** A subsequence of a prefix is a subsequence of the whole. */
  lemma {:induction false} SubseqOfPrefix<T(!new)>(a: seq<T>, b: seq<T>)
    requires b != [] && IsSubseq(a, b[..|b| - 1])
    ensures IsSubseq(a, b)
    decreases |b|, |a|
  {
    if a != [] && a[|a| - 1] == b[|b| - 1] {
      SubseqDropLast(a, b[..|b| - 1]);
    }
  }

  /** Dropping the last element of a subsequence keeps it a subsequence. */
  lemma {:induction false} SubseqDropLast<T(!new)>(a: seq<T>, b: seq<T>)
    requires a != [] && IsSubseq(a, b)
    ensures IsSubseq(a[..|a| - 1], b)
    decreases |b|, |a|
  {
    if a[|a| - 1] == b[|b| - 1] {
      SubseqOfPrefix(a[..|a| - 1], b);
    } else {
      SubseqDropLast(a, b[..|b| - 1]);
      SubseqOfPrefix(a[..|a| - 1], b);
    }
  }

  /** Whatever `filter` keeps is a subsequence of its input: order is preserved
      and nothing is added or repeated. */
  lemma {:induction false} FilterIsSubseq<T(!new)>(s: seq<T>, f: T -> bool)
    ensures IsSubseq(Filter(s, f), s)
    decreases |s|
  {
    if s != [] {
      var init, last := s[..|s| - 1], s[|s| - 1];
      FilterIsSubseq(init, f);
      if f(last) {
        assert Filter(s, f)[..|Filter(s, f)| - 1] == Filter(init, f);
      } else {
        assert Filter(s, f) == Filter(init, f);
        SubseqOfPrefix(Filter(s, f), s);
      }
    }
  }

  /** A filter whose test every element passes gives back its input. */
  lemma {:induction false} FilterAll<T(!new)>(s: seq<T>, f: T -> bool)
    requires forall x :: x in s ==> f(x)
    ensures Filter(s, f) == s
    decreases |s|
  {
    if s != [] {
      var init := s[..|s| - 1];
      assert s == init + [s[|s| - 1]];
      assert f(s[|s| - 1]);
      FilterAll(init, f);
    }
  }

  /** A filter that exactly one position passes gives back that one element. */
  lemma {:induction false} FilterSingle<T(!new)>(s: seq<T>, f: T -> bool, j: nat)
    requires j < |s| && f(s[j])
    requires forall k :: 0 <= k < |s| && k != j ==> !f(s[k])
    ensures Filter(s, f) == [s[j]]
    decreases |s|
  {
    var init := s[..|s| - 1];
    if j == |s| - 1 {
      FilterNone(init, f);
    } else {
      FilterSingle(init, f, j);
    }
  }

  lemma {:induction false} FilterNone<T(!new)>(s: seq<T>, f: T -> bool)
    requires forall k :: 0 <= k < |s| ==> !f(s[k])
    ensures Filter(s, f) == []
    decreases |s|
  {
    if s != [] {
      FilterNone(s[..|s| - 1], f);
    }
  }

  /** `filter` keeps every copy of an element that passes and no copy of one
      that fails: it never removes duplicates. */
  lemma {:induction false} FilterCount<T(!new)>(s: seq<T>, f: T -> bool, x: T)
    ensures multiset(Filter(s, f))[x] == if f(x) then multiset(s)[x] else 0
    decreases |s|
  {
    if s != [] {
      var init, last := s[..|s| - 1], s[|s| - 1];
      FilterCount(init, f, x);
      assert s == init + [last];
    }
  }

  /** Filtering with a stronger test keeps a subsequence of what a weaker test
      keeps. */
  lemma {:induction false} FilterMonotone<T(!new)>(s: seq<T>, strong: T -> bool, weak: T -> bool)
    requires forall x :: strong(x) ==> weak(x)
    ensures IsSubseq(Filter(s, strong), Filter(s, weak))
    decreases |s|
  {
    if s != [] {
      var init, last := s[..|s| - 1], s[|s| - 1];
      FilterMonotone(init, strong, weak);
      var a, b := Filter(s, strong), Filter(s, weak);
      if strong(last) {
        assert a[..|a| - 1] == Filter(init, strong);
        assert b[..|b| - 1] == Filter(init, weak);
      } else if weak(last) {
        assert a == Filter(init, strong);
        assert b[..|b| - 1] == Filter(init, weak);
        SubseqOfPrefix(a, b);
      } else {
        assert a == Filter(init, strong) && b == Filter(init, weak);
      }
    }
  }

  /** Two different members force a length of at least two. */
  lemma TwoMembers<T(!new)>(s: seq<T>, x: T, y: T)
    requires x in s && y in s && x != y
    ensures |s| >= 2
  {
    var i :| 0 <= i < |s| && s[i] == x;
    var j :| 0 <= j < |s| && s[j] == y;
    assert i != j;
  }
}
