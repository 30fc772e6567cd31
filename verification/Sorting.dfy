/** A stable sort by a total preorder, as Python's `sorted` and `list.sort`. */
module Sorting {
  import opened Lists

  ghost predicate TotalPreorder<T(!new)>(le: (T, T) -> bool) {
    && (forall x, y :: le(x, y) || le(y, x))
    && (forall x, y, z :: le(x, y) && le(y, z) ==> le(x, z))
  }

  ghost predicate SortedBy<T>(s: seq<T>, le: (T, T) -> bool) {
    forall i, j | 0 <= i < j < |s| :: le(s[i], s[j])
  }

  function InsertBy<T>(x: T, s: seq<T>, le: (T, T) -> bool): seq<T> {
    if s == [] || le(x, s[0]) then [x] + s else [s[0]] + InsertBy(x, s[1..], le)
  }

  function SortBy<T>(s: seq<T>, le: (T, T) -> bool): seq<T> {
    if s == [] then [] else InsertBy(s[0], SortBy(s[1..], le), le)
  }

  lemma {:induction false} InsertPermutes<T>(x: T, s: seq<T>, le: (T, T) -> bool)
    ensures multiset(InsertBy(x, s, le)) == multiset([x]) + multiset(s)
  {
    if s != [] && !le(x, s[0]) {
      InsertPermutes(x, s[1..], le);
      assert s == [s[0]] + s[1..];
    }
  }

  lemma {:induction false} SortPermutes<T>(s: seq<T>, le: (T, T) -> bool)
    ensures multiset(SortBy(s, le)) == multiset(s)
  {
    if s != [] {
      SortPermutes(s[1..], le);
      InsertPermutes(s[0], SortBy(s[1..], le), le);
      assert s == [s[0]] + s[1..];
    }
  }

  lemma {:induction false} InsertSorts<T(!new)>(x: T, s: seq<T>, le: (T, T) -> bool)
    requires TotalPreorder(le) && SortedBy(s, le)
    ensures SortedBy(InsertBy(x, s, le), le)
  {
    if s != [] && !le(x, s[0]) {
      InsertSorts(x, s[1..], le);
      var r := InsertBy(x, s[1..], le);
      InsertPermutes(x, s[1..], le);
      forall k | 0 <= k < |r|
        ensures le(s[0], r[k])
      {
        assert r[k] in multiset(r);
        if r[k] != x {
          assert r[k] in multiset(s[1..]);
        }
      }
    }
  }

  lemma {:induction false} SortSorts<T(!new)>(s: seq<T>, le: (T, T) -> bool)
    requires TotalPreorder(le)
    ensures SortedBy(SortBy(s, le), le)
  {
    if s != [] {
      SortSorts(s[1..], le);
      InsertSorts(s[0], SortBy(s[1..], le), le);
    }
  }

  lemma SortKeepsMembers<T>(s: seq<T>, le: (T, T) -> bool)
    ensures |SortBy(s, le)| == |s| && forall x :: x in SortBy(s, le) <==> x in s
  {
    SortPermutes(s, le);
    assert |multiset(SortBy(s, le))| == |multiset(s)|;
    forall x
      ensures x in SortBy(s, le) <==> x in s
    {
      assert x in multiset(SortBy(s, le)) <==> x in multiset(s);
    }
  }

  predicate DistinctBy<T, K(==)>(s: seq<T>, key: T -> K) {
    forall i, j | 0 <= i < j < |s| :: key(s[i]) != key(s[j])
  }

  lemma {:induction false} InsertKeepsDistinct<T, K>(x: T, s: seq<T>, le: (T, T) -> bool, key: T -> K)
    requires DistinctBy(s, key) && forall y | y in s :: key(y) != key(x)
    ensures DistinctBy(InsertBy(x, s, le), key)
  {
    if s != [] && !le(x, s[0]) {
      var r := InsertBy(x, s[1..], le);
      InsertKeepsDistinct(x, s[1..], le, key);
      InsertPermutes(x, s[1..], le);
      forall k | 0 <= k < |r|
        ensures key(r[k]) != key(s[0])
      {
        assert r[k] in multiset(r);
        if r[k] != x {
          assert r[k] in multiset(s[1..]);
        }
      }
    }
  }

  /** Sorting neither merges nor splits: keys that differed pairwise still do. */
  lemma {:induction false} SortKeepsDistinct<T, K>(s: seq<T>, le: (T, T) -> bool, key: T -> K)
    requires DistinctBy(s, key)
    ensures DistinctBy(SortBy(s, le), key)
  {
    if s != [] {
      SortKeepsDistinct(s[1..], le, key);
      var rest, sorted := s[1..], SortBy(s[1..], le);
      SortPermutes(rest, le);
      forall y | y in sorted
        ensures key(y) != key(s[0])
      {
        assert y in multiset(sorted);
        var k :| 0 <= k < |rest| && rest[k] == y;
        assert s[k + 1] == y;
      }
      InsertKeepsDistinct(s[0], SortBy(s[1..], le), le, key);
    }
  }

  lemma {:induction false} InsertIntoFront<T(!new)>(x: T, s: seq<T>, t: seq<T>, le: (T, T) -> bool)
    requires forall y | y in t :: le(x, y)
    ensures InsertBy(x, s + t, le) == InsertBy(x, s, le) + t
  {
    if s == [] {
      assert s + t == t;
    } else if !le(x, s[0]) {
      assert (s + t)[1..] == s[1..] + t;
      InsertIntoFront(x, s[1..], t, le);
    }
  }

  /** When everything in ys comes strictly after everything in xs, the two are sorted apart. */
  lemma {:induction false} SortApart<T(!new)>(xs: seq<T>, ys: seq<T>, le: (T, T) -> bool)
    requires TotalPreorder(le) && forall x, y | x in xs && y in ys :: !le(y, x)
    ensures SortBy(xs + ys, le) == SortBy(xs, le) + SortBy(ys, le)
  {
    if xs == [] {
      assert xs + ys == ys;
    } else {
      assert (xs + ys)[1..] == xs[1..] + ys;
      assert xs[0] in xs;
      SortApart(xs[1..], ys, le);
      SortKeepsMembers(ys, le);
      InsertIntoFront(xs[0], SortBy(xs[1..], le), SortBy(ys, le), le);
    }
  }

  /** The items chosen by p all rank alike. */
  predicate Alike<T>(le: (T, T) -> bool, p: T -> bool, s: seq<T>) {
    forall i, j | 0 <= i < |s| && 0 <= j < |s| && p(s[i]) && p(s[j]) :: le(s[i], s[j])
  }

  lemma {:induction false} InsertStable<T(!new)>(x: T, s: seq<T>, le: (T, T) -> bool, p: T -> bool)
    requires p(x) ==> forall y | y in s && p(y) :: le(x, y)
    ensures Filter(InsertBy(x, s, le), p) == Filter([x] + s, p)
  {
    FilterConcat([x], s, p);
    if s != [] && !le(x, s[0]) {
      var head, rest := s[0], InsertBy(x, s[1..], le);
      InsertStable(x, s[1..], le, p);
      FilterConcat([head], rest, p);
      FilterConcat([head], s[1..], p);
      FilterConcat([x], s[1..], p);
      assert s == [head] + s[1..];
      FilterOne(x, p);
      FilterOne(head, p);
      SwapEmpty(Filter([x], p), Filter([head], p), Filter(s[1..], p));
    }
  }

  lemma SwapEmpty<T>(a: seq<T>, b: seq<T>, c: seq<T>)
    requires a == [] || b == []
    ensures a + (b + c) == b + (a + c)
  {
  }

  lemma FilterOne<T(!new)>(x: T, p: T -> bool)
    ensures Filter([x], p) == if p(x) then [x] else []
  {
    assert [x][1..] == [];
  }

  /** The sort is stable: items that rank alike keep their order. */
  lemma {:induction false} SortStable<T(!new)>(s: seq<T>, le: (T, T) -> bool, p: T -> bool)
    requires Alike(le, p, s)
    ensures Filter(SortBy(s, le), p) == Filter(s, p)
  {
    if s != [] {
      var rest, sorted := s[1..], SortBy(s[1..], le);
      assert forall i | 0 <= i < |rest| :: rest[i] == s[i + 1];
      SortStable(rest, le, p);
      SortPermutes(rest, le);
      forall y | y in sorted && p(y) && p(s[0])
        ensures le(s[0], y)
      {
        assert y in multiset(sorted);
        var k :| 0 <= k < |rest| && rest[k] == y;
        assert s[k + 1] == y;
      }
      InsertStable(s[0], sorted, le, p);
      assert ([s[0]] + sorted)[1..] == sorted;
    }
  }
}
