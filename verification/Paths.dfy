/**
 Directed paths in a finite set of arcs.

 This module is about graphs only: repeats and their removal, the bound on duplicate-free
 paths, acyclicity, and what one new arc does to it.
 */
module Paths {
  type Node = nat
  type Arcs = set<(Node, Node)>

  predicate IsPath(g: Arcs, p: seq<Node>) {
    |p| >= 2 && forall i | 0 <= i < |p| - 1 :: (p[i], p[i + 1]) in g
  }

  /** p runs from a to b along arcs of g; nodes may repeat. */
  predicate Leads(g: Arcs, p: seq<Node>, a: Node, b: Node) {
    IsPath(g, p) && p[0] == a && p[|p| - 1] == b
  }

  ghost predicate Reach(g: Arcs, a: Node, b: Node) {
    exists p :: Leads(g, p, a, b)
  }

  predicate Distinct(p: seq<Node>) {
    forall i, j | 0 <= i < j < |p| :: p[i] != p[j]
  }

  ghost predicate Acyclic(g: Arcs) {
    forall x :: !Reach(g, x, x)
  }

  function Nodes(g: Arcs): set<Node> {
    (set e | e in g :: e.0) + (set e | e in g :: e.1)
  }

  function Transpose(g: Arcs): Arcs {
    set e | e in g :: (e.1, e.0)
  }

  function Reverse(p: seq<Node>): (r: seq<Node>)
    ensures |r| == |p| && forall i | 0 <= i < |p| :: r[i] == p[|p| - 1 - i]
  {
    seq(|p|, i requires 0 <= i < |p| => p[|p| - 1 - i])
  }

  /** Cutting every loop out of a path between different nodes leaves a path with the same ends. */
  lemma RemoveLoops(g: Arcs, p: seq<Node>) returns (q: seq<Node>)
    requires IsPath(g, p) && p[0] != p[|p| - 1]
    ensures Leads(g, q, p[0], p[|p| - 1]) && Distinct(q) && |q| <= |p|
    decreases |p|
  {
    if Distinct(p) {
      q := p;
    } else {
      var i, j :| 0 <= i < j < |p| && p[i] == p[j];
      q := RemoveLoops(g, p[..i + 1] + p[j + 1..]);
    }
  }

  /** A duplicate-free sequence over s is no longer than s is large. */
  lemma {:induction false} DistinctIsShort(p: seq<Node>, s: set<Node>)
    requires Distinct(p) && forall x | x in p :: x in s
    ensures |p| <= |s|
  {
    if |p| > 0 {
      var last := p[|p| - 1];
      DistinctIsShort(p[..|p| - 1], s - {last});
    }
  }

  lemma PathInNodes(g: Arcs, p: seq<Node>)
    requires IsPath(g, p)
    ensures forall x | x in p :: x in Nodes(g)
  {
    forall k | 0 <= k < |p|
      ensures p[k] in Nodes(g)
    {
      if k == 0 {
        assert (p[0], p[1]) in g;
      } else {
        assert (p[k - 1], p[(k - 1) + 1]) in g;
      }
    }
  }

  lemma Append(g: Arcs, p: seq<Node>, q: seq<Node>)
    requires IsPath(g, p) && IsPath(g, q) && p[|p| - 1] == q[0]
    ensures Leads(g, p + q[1..], p[0], q[|q| - 1])
  {
  }

  lemma FirstArc(g: Arcs, a: Node, b: Node) returns (c: Node)
    requires Reach(g, a, b)
    ensures (a, c) in g
  {
    var p :| Leads(g, p, a, b);
    assert (p[0], p[0 + 1]) in g;
    c := p[1];
  }

  lemma ReachTransitive(g: Arcs, a: Node, b: Node, c: Node)
    requires Reach(g, a, b) && Reach(g, b, c)
    ensures Reach(g, a, c)
  {
    var p :| Leads(g, p, a, b);
    var q :| Leads(g, q, b, c);
    Append(g, p, q);
  }

  lemma ReachMonotone(g: Arcs, h: Arcs, a: Node, b: Node)
    requires g <= h && Reach(g, a, b)
    ensures Reach(h, a, b)
  {
    var p :| Leads(g, p, a, b);
    assert Leads(h, p, a, b);
  }

  lemma TransposePath(g: Arcs, p: seq<Node>)
    requires IsPath(g, p)
    ensures Leads(Transpose(g), Reverse(p), p[|p| - 1], p[0])
  {
    var r := Reverse(p);
    forall i | 0 <= i < |r| - 1
      ensures (r[i], r[i + 1]) in Transpose(g)
    {
      var k := |p| - 2 - i;
      assert (p[k], p[k + 1]) in g;
    }
  }

  lemma TransposeReach(g: Arcs, a: Node, b: Node)
    ensures Reach(g, a, b) <==> Reach(Transpose(g), b, a)
  {
    if Reach(g, a, b) {
      var p :| Leads(g, p, a, b);
      TransposePath(g, p);
    }
    if Reach(Transpose(g), b, a) {
      var p :| Leads(Transpose(g), p, b, a);
      TransposePath(Transpose(g), p);
      assert Transpose(Transpose(g)) == g by {
        forall e | e in g
          ensures e in Transpose(Transpose(g))
        {
          assert (e.1, e.0) in Transpose(g);
        }
      }
    }
  }

  /** Reversing every arc neither makes nor breaks a cycle. */
  lemma TransposeAcyclic(g: Arcs)
    ensures Acyclic(g) <==> Acyclic(Transpose(g))
  {
    forall x {
      TransposeReach(g, x, x);
    }
  }

  /** One new arc closes a cycle in an acyclic graph exactly when its head already reaches its tail. */
  lemma AddArc(g: Arcs, u: Node, v: Node)
    requires Acyclic(g) && u != v
    ensures Acyclic(g + {(u, v)}) <==> !Reach(g, v, u)
  {
    var h := g + {(u, v)};
    if Reach(g, v, u) {
      var p :| Leads(g, p, v, u);
      assert Leads(h, [u] + p, u, u);
      assert Reach(h, u, u);
    }
    if !Acyclic(h) {
      var x :| Reach(h, x, x);
      var p :| Leads(h, p, x, x);
      var q := RotateToArc(g, u, v, p);
      q := RemoveLoops(h, q);
      // A duplicate-free path from v to u meets u only at its end, so the new arc is not on it.
      forall i | 0 <= i < |q| - 1
        ensures (q[i], q[i + 1]) in g
      {
        assert (q[i], q[i + 1]) in h;
        assert q[i] != q[|q| - 1];
      }
      assert Leads(g, q, v, u);
    }
  }

  /** A closed path of g + {(u, v)} uses the new arc, so it can be turned into a path from v to u. */
  lemma RotateToArc(g: Arcs, u: Node, v: Node, p: seq<Node>) returns (q: seq<Node>)
    requires Acyclic(g) && u != v
    requires IsPath(g + {(u, v)}, p) && p[0] == p[|p| - 1]
    ensures Leads(g + {(u, v)}, q, v, u)
  {
    var h := g + {(u, v)};
    if forall i | 0 <= i < |p| - 1 :: (p[i], p[i + 1]) in g {
      assert Leads(g, p, p[0], p[0]);
      assert Reach(g, p[0], p[0]);
      assert false;
    }
    var i :| 0 <= i < |p| - 1 && (p[i], p[i + 1]) !in g;
    assert (p[i], p[i + 1]) in h;
    q := p[i + 1..] + p[1..i + 1];
    forall k | 0 <= k < |q| - 1
      ensures (q[k], q[k + 1]) in h
    {
      var m := |p| - i - 1;
      if k < m - 1 {
        assert (p[i + 1 + k], p[i + 1 + k + 1]) in h;
      } else if k == m - 1 {
        assert (p[0], p[0 + 1]) in h;
      } else {
        assert (p[k - m + 1], p[k - m + 1 + 1]) in h;
      }
    }
  }
}
