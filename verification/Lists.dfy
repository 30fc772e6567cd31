/** Concatenating a list of lists. */
module Lists {

  function Concat<T>(xss: seq<seq<T>>): seq<T> {
    if xss == [] then [] else Concat(xss[..|xss| - 1]) + xss[|xss| - 1]
  }

  lemma {:induction false} ConcatSplits<T>(a: seq<seq<T>>, b: seq<seq<T>>)
    ensures Concat(a + b) == Concat(a) + Concat(b)
  {
    if b == [] {
      assert a + b == a;
    } else {
      var front, last := b[..|b| - 1], b[|b| - 1];
      assert (a + b)[..|a + b| - 1] == a + front && (a + b)[|a + b| - 1] == last;
      ConcatSplits(a, front);
      assert Concat(a) + (Concat(front) + last) == Concat(a) + Concat(front) + last;
    }
  }

  lemma ConcatTwo<T>(x: seq<T>, y: seq<T>)
    ensures Concat([x, y]) == x + y
  {
    assert [x, y][..1] == [x] && [x][..0] == [];
    assert Concat([x]) == Concat([]) + x == x;
  }

  lemma ConcatHead<T>(xss: seq<seq<T>>)
    requires xss != []
    ensures Concat(xss) == xss[0] + Concat(xss[1..])
  {
    assert [xss[0]][..0] == [] && xss == [xss[0]] + xss[1..];
    ConcatSplits([xss[0]], xss[1..]);
  }

  lemma {:induction false} InConcat<T>(xss: seq<seq<T>>, i: nat)
    requires i < |xss|
    ensures forall k | 0 <= k < |xss[i]| :: xss[i][k] in Concat(xss)
  {
    if i < |xss| - 1 {
      InConcat(xss[..|xss| - 1], i);
    }
  }

  lemma {:induction false} FromConcat<T>(xss: seq<seq<T>>, x: T) returns (i: nat)
    requires x in Concat(xss)
    ensures i < |xss| && x in xss[i]
  {
    if x in xss[|xss| - 1] {
      i := |xss| - 1;
    } else {
      i := FromConcat(xss[..|xss| - 1], x);
    }
  }

  /** The items that satisfy p, in order. */
  function Filter<T(!new)>(s: seq<T>, p: T -> bool): (r: seq<T>)
    ensures forall x :: x in r <==> x in s && p(x)
  {
    if s == [] then [] else (if p(s[0]) then [s[0]] else []) + Filter(s[1..], p)
  }

  lemma {:induction false} FilterConcat<T(!new)>(xs: seq<T>, ys: seq<T>, p: T -> bool)
    ensures Filter(xs + ys, p) == Filter(xs, p) + Filter(ys, p)
  {
    if xs == [] {
      assert xs + ys == ys;
    } else {
      assert (xs + ys)[1..] == xs[1..] + ys;
      FilterConcat(xs[1..], ys, p);
    }
  }
}
