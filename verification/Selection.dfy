/** Taking items from a ranked list while they fit a budget, skipping those that do not. */
module Selection {

  function Total<T>(xs: seq<T>, size: T -> nat): nat {
    if xs == [] then 0 else Total(xs[..|xs| - 1], size) + size(xs[|xs| - 1])
  }

  /** The items taken: each that still fits in what the earlier ones left. */
  function Pick<T>(ranked: seq<T>, budget: int, size: T -> nat): seq<T> {
    if ranked == [] then []
    else
      var taken, x := Pick(ranked[..|ranked| - 1], budget, size), ranked[|ranked| - 1];
      if size(x) > budget - Total(taken, size) then taken else taken + [x]
  }

  function Omit<T>(ranked: seq<T>, budget: int, size: T -> nat): seq<T> {
    if ranked == [] then []
    else
      var left, x := Omit(ranked[..|ranked| - 1], budget, size), ranked[|ranked| - 1];
      if size(x) > budget - Total(Pick(ranked[..|ranked| - 1], budget, size), size) then left + [x] else left
  }

  lemma PickStep<T>(ranked: seq<T>, i: nat, budget: int, size: T -> nat)
    requires i < |ranked|
    ensures var taken, left, x := Pick(ranked[..i], budget, size), Omit(ranked[..i], budget, size), ranked[i];
            var room := budget - Total(taken, size);
            && Pick(ranked[..i + 1], budget, size) == (if size(x) > room then taken else taken + [x])
            && Omit(ranked[..i + 1], budget, size) == (if size(x) > room then left + [x] else left)
            && Total(taken + [x], size) == Total(taken, size) + size(x)
  {
    assert ranked[..i + 1][..i] == ranked[..i];
  }

  lemma {:induction false} TotalConcat<T>(a: seq<T>, b: seq<T>, size: T -> nat)
    ensures Total(a + b, size) == Total(a, size) + Total(b, size)
  {
    if b == [] {
      assert a + b == a;
    } else {
      assert (a + b)[..|a + b| - 1] == a + b[..|b| - 1];
      TotalConcat(a, b[..|b| - 1], size);
    }
  }

  lemma {:induction false} TotalPermutes<T>(a: seq<T>, b: seq<T>, size: T -> nat)
    requires multiset(a) == multiset(b)
    ensures Total(a, size) == Total(b, size)
    decreases |a|
  {
    if a == [] {
      assert |multiset(b)| == 0;
    } else {
      var n := |a| - 1;
      var x := a[n];
      assert x in multiset(b);
      var i :| 0 <= i < |b| && b[i] == x;
      var rest := b[..i] + b[i + 1..];
      Without(b, i);
      assert a == a[..n] + [x];
      MultisetSnoc(a[..n], x);
      assert multiset(a[..n]) == multiset(a) - multiset{x} && multiset(rest) == multiset(b) - multiset{x};
      TotalPermutes(a[..n], rest, size);
      TotalWithout(b, i, size);
    }
  }

  lemma Without<T>(b: seq<T>, i: nat)
    requires i < |b|
    ensures multiset(b) == multiset(b[..i] + b[i + 1..]) + multiset{b[i]}
  {
    assert b == b[..i] + [b[i]] + b[i + 1..];
  }

  lemma TotalOne<T>(x: T, size: T -> nat)
    ensures Total([x], size) == size(x)
  {
  }

  lemma TotalWithout<T>(b: seq<T>, i: nat, size: T -> nat)
    requires i < |b|
    ensures Total(b, size) == Total(b[..i] + b[i + 1..], size) + size(b[i])
  {
    var front, x, back := b[..i], b[i], b[i + 1..];
    assert b[i..] == [x] + back;
    assert b == front + b[i..];
    TotalConcat(front, [x] + back, size);
    TotalConcat([x], back, size);
    TotalConcat(front, back, size);
    TotalOne(x, size);
  }

  lemma MultisetSnoc<T>(xs: seq<T>, x: T)
    ensures multiset(xs + [x]) == multiset(xs) + multiset{x}
  {
  }

  /** Taken and omitted items partition the list. */
  lemma {:induction false} PickPartitions<T>(ranked: seq<T>, budget: int, size: T -> nat)
    ensures multiset(Pick(ranked, budget, size)) + multiset(Omit(ranked, budget, size)) == multiset(ranked)
  {
    if ranked != [] {
      var front, x := ranked[..|ranked| - 1], ranked[|ranked| - 1];
      PickPartitions(front, budget, size);
      SnocEither(Pick(front, budget, size), Omit(front, budget, size), front, x);
      PickOne(front, x, budget, size);
      assert ranked == front + [x];
    }
  }

  /** One more item is either taken or omitted. */
  lemma PickOne<T>(front: seq<T>, x: T, budget: int, size: T -> nat)
    ensures var taken, left := Pick(front, budget, size), Omit(front, budget, size);
            || (Pick(front + [x], budget, size) == taken + [x] && Omit(front + [x], budget, size) == left)
            || (Pick(front + [x], budget, size) == taken && Omit(front + [x], budget, size) == left + [x])
  {
    assert (front + [x])[..|front|] == front;
  }

  lemma SnocEither<T>(taken: seq<T>, left: seq<T>, all: seq<T>, x: T)
    requires multiset(taken) + multiset(left) == multiset(all)
    ensures multiset(taken + [x]) + multiset(left) == multiset(all + [x])
    ensures multiset(taken) + multiset(left + [x]) == multiset(all + [x])
  {
    MultisetSnoc(all, x);
    MultisetSnoc(taken, x);
    MultisetSnoc(left, x);
  }

  /** The items taken stay within the budget, and nothing omitted fits in what they leave. */
  lemma {:induction false} PickBounds<T>(ranked: seq<T>, budget: int, size: T -> nat)
    ensures var taken := Pick(ranked, budget, size);
            && (taken == [] || Total(taken, size) <= budget)
            && forall x | x in Omit(ranked, budget, size) :: size(x) > budget - Total(taken, size)
  {
    if ranked != [] {
      PickBounds(ranked[..|ranked| - 1], budget, size);
      var taken, x := Pick(ranked[..|ranked| - 1], budget, size), ranked[|ranked| - 1];
      assert Total(taken + [x], size) == Total(taken, size) + size(x);
    }
  }

  /** What comes later in the ranking never changes what was taken before it. */
  lemma {:induction false} LaterDoesNotDisplace<T>(a: seq<T>, b: seq<T>, budget: int, size: T -> nat)
    ensures Pick(a, budget, size) <= Pick(a + b, budget, size)
  {
    if b == [] {
      assert a + b == a;
    } else {
      assert (a + b)[..|a + b| - 1] == a + b[..|b| - 1];
      LaterDoesNotDisplace(a, b[..|b| - 1], budget, size);
    }
  }

  lemma {:induction false} PickAll<T>(ranked: seq<T>, budget: int, size: T -> nat)
    ensures Omit(ranked, budget, size) == [] <==> ranked == [] || Total(ranked, size) <= budget
    ensures Omit(ranked, budget, size) == [] ==> Pick(ranked, budget, size) == ranked
  {
    if ranked != [] {
      var n := |ranked| - 1;
      PickAll(ranked[..n], budget, size);
      assert ranked == ranked[..n] + [ranked[n]];
    }
  }
}
