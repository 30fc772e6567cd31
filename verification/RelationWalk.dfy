/**
 The two recursive queries of engine/relationship_resolver.py.

 Both keep a working set of rows carrying the path walked so far, and extend a row only to a
 node its path has not met. The working set of round k is `Frontier(.., k)`.
 */
module RelationWalk {
  import opened Paths
  import opened RelationTable

  /** A row of the working set: the path walked and the type of its last edge. */
  datatype Hop = Hop(path: seq<Node>, rel: RelationType) {
    function Node(): Node
      requires path != []
    {
      path[|path| - 1]
    }
  }

  /** A row of the amendment chain. */
  datatype ChainRow = ChainRow(node: Node, rel: RelationType, depth: nat)

  const CHAIN_TYPES: set<RelationType> := {Amends, AmendedBy, Supersedes, SupersededBy}

  function Base(es: set<Edge>, types: set<RelationType>, x: Node): (rows: set<Hop>)
    ensures forall h | h in rows :: |h.path| == 2
  {
    set e | e in es && e.src == x && e.rel in types :: Hop([e.src, e.tgt], e.rel)
  }

  function Extend(es: set<Edge>, types: set<RelationType>, rows: set<Hop>): (next: set<Hop>)
    requires forall h | h in rows :: |h.path| >= 2
    ensures forall n | n in next :: |n.path| >= 2
  {
    set h, e | h in rows && e in es && e.src == h.Node() && e.rel in types && e.tgt !in h.path
      :: Hop(h.path + [e.tgt], e.rel)
  }

  function Frontier(es: set<Edge>, types: set<RelationType>, x: Node, k: nat): (rows: set<Hop>)
    ensures forall h | h in rows :: |h.path| >= 2
  {
    if k == 0 then Base(es, types, x) else Extend(es, types, Frontier(es, types, x, k - 1))
  }

  /** The paths the queries build: only the second node may repeat the first. */
  predicate WalkPath(g: Arcs, p: seq<Node>) {
    IsPath(g, p) && forall i | 2 <= i < |p| :: p[i] !in p[..i]
  }

  predicate IsHop(es: set<Edge>, types: set<RelationType>, x: Node, h: Hop) {
    && WalkPath(ArcsOf(es, types), h.path) && h.path[0] == x
    && h.rel in types && Edge(h.path[|h.path| - 2], h.Node(), h.rel) in es
  }

  lemma BaseExact(es: set<Edge>, types: set<RelationType>, x: Node, h: Hop)
    ensures h in Base(es, types, x) <==> |h.path| == 2 && IsHop(es, types, x, h)
  {
    if h in Base(es, types, x) {
      assert Edge(h.path[0], h.path[1], h.rel) in es;
    }
    if |h.path| == 2 && IsHop(es, types, x, h) {
      var e := Edge(h.path[0], h.path[1], h.rel);
      assert h == Hop([e.src, e.tgt], e.rel);
    }
  }

  lemma ExtendedFrom(es: set<Edge>, types: set<RelationType>, rows: set<Hop>, h: Hop) returns (h0: Hop, e: Edge)
    requires (forall r | r in rows :: |r.path| >= 2) && h in Extend(es, types, rows)
    ensures h0 in rows && e in es && e.src == h0.Node() && e.rel in types && e.tgt !in h0.path
    ensures h == Hop(h0.path + [e.tgt], e.rel)
  {
    h0, e :| h0 in rows && e in es && e.src == h0.Node() && e.rel in types && e.tgt !in h0.path
      && h == Hop(h0.path + [e.tgt], e.rel);
  }

  lemma ExtendIsHop(es: set<Edge>, types: set<RelationType>, x: Node, h: Hop, e: Edge)
    requires IsHop(es, types, x, h)
    requires e in es && e.src == h.Node() && e.rel in types && e.tgt !in h.path
    ensures IsHop(es, types, x, Hop(h.path + [e.tgt], e.rel))
  {
    assert (e.src, e.tgt) in ArcsOf(es, types);
    ExtendWalk(ArcsOf(es, types), h.path, e.tgt);
    assert e == Edge(e.src, e.tgt, e.rel);
  }

  lemma ShortenHop(es: set<Edge>, types: set<RelationType>, x: Node, h: Hop) returns (h0: Hop, e: Edge)
    requires IsHop(es, types, x, h) && |h.path| > 2
    ensures IsHop(es, types, x, h0) && |h0.path| == |h.path| - 1
    ensures e in es && e.src == h0.Node() && e.rel in types && e.tgt !in h0.path
    ensures h == Hop(h0.path + [e.tgt], e.rel)
  {
    var n := |h.path| - 1;
    ShortenWalk(ArcsOf(es, types), h.path);
    var a :| a in es && a.rel in types && (a.src, a.tgt) == (h.path[n - 2], h.path[n - 1]);
    assert a == Edge(h.path[n - 2], h.path[n - 1], a.rel);
    h0 := Hop(h.path[..n], a.rel);
    e := Edge(h.path[n - 1], h.path[n], h.rel);
    assert h.path == h0.path + [e.tgt];
  }

  lemma ExtendHas(es: set<Edge>, types: set<RelationType>, rows: set<Hop>, h0: Hop, e: Edge)
    requires forall r | r in rows :: |r.path| >= 2
    requires h0 in rows && e in es && e.src == h0.Node() && e.rel in types && e.tgt !in h0.path
    ensures Hop(h0.path + [e.tgt], e.rel) in Extend(es, types, rows)
  {
  }

  predicate IsRound(es: set<Edge>, types: set<RelationType>, x: Node, n: nat, h: Hop) {
    |h.path| == n && IsHop(es, types, x, h)
  }

  lemma NextRound(es: set<Edge>, types: set<RelationType>, x: Node, n: nat, rows: set<Hop>, h: Hop)
    requires n >= 2 && (forall r | r in rows :: |r.path| >= 2) && forall r :: r in rows <==> IsRound(es, types, x, n, r)
    ensures h in Extend(es, types, rows) <==> IsRound(es, types, x, n + 1, h)
  {
    if h in Extend(es, types, rows) {
      var h0, e := ExtendedFrom(es, types, rows, h);
      ExtendIsHop(es, types, x, h0, e);
    }
    if IsRound(es, types, x, n + 1, h) {
      var h0, e := ShortenHop(es, types, x, h);
      assert IsRound(es, types, x, n, h0);
      ExtendHas(es, types, rows, h0, e);
    }
  }

  /** Round k holds exactly the walk paths of k + 1 arcs, once per type of the last one. */
  lemma {:induction false} FrontierExact(es: set<Edge>, types: set<RelationType>, x: Node, k: nat, h: Hop)
    ensures h in Frontier(es, types, x, k) <==> |h.path| == k + 2 && IsHop(es, types, x, h)
  {
    if k == 0 {
      BaseExact(es, types, x, h);
    } else {
      var rows, n := Frontier(es, types, x, k - 1), k + 1;
      forall r
        ensures r in rows <==> IsRound(es, types, x, n, r)
      {
        FrontierExact(es, types, x, k - 1, r);
      }
      NextRound(es, types, x, n, rows, h);
    }
  }

  lemma ExtendWalk(g: Arcs, p: seq<Node>, v: Node)
    requires WalkPath(g, p) && (p[|p| - 1], v) in g && v !in p
    ensures WalkPath(g, p + [v])
  {
    var q := p + [v];
    forall i | 2 <= i < |q|
      ensures q[i] !in q[..i]
    {
      assert q[..i] == p[..i];
    }
  }

  lemma ShortenWalk(g: Arcs, p: seq<Node>)
    requires WalkPath(g, p) && |p| > 2
    ensures WalkPath(g, p[..|p| - 1])
    ensures (p[|p| - 3], p[|p| - 2]) in g
  {
    var n := |p| - 1;
    assert (p[n - 2], p[(n - 2) + 1]) in g;
    forall i | 2 <= i < n
      ensures p[..n][i] !in p[..n][..i]
    {
      assert p[..n][..i] == p[..i];
    }
  }

  /** An empty round ends the recursion: no longer walk path exists. */
  lemma {:induction false} EmptyRoundEnds(es: set<Edge>, types: set<RelationType>, x: Node, k: nat, h: Hop)
    requires Frontier(es, types, x, k) == {} && IsHop(es, types, x, h)
    ensures |h.path| < k + 2
    decreases |h.path|
  {
    if |h.path| == k + 2 {
      FrontierExact(es, types, x, k, h);
    } else if |h.path| > k + 2 {
      var h0, _ := ShortenHop(es, types, x, h);
      EmptyRoundEnds(es, types, x, k, h0);
    }
  }

  /** No round outlives the number of nodes, so both queries terminate. */
  lemma RoundBound(es: set<Edge>, types: set<RelationType>, x: Node, k: nat)
    requires Frontier(es, types, x, k) != {}
    ensures k < |Nodes(ArcsOf(es, types))|
  {
    var h :| h in Frontier(es, types, x, k);
    FrontierExact(es, types, x, k, h);
    var p := h.path;
    PathInNodes(ArcsOf(es, types), p);
    forall i, j | 1 <= i < j < |p|
      ensures p[i] != p[j]
    {
      assert p[i] == p[..j][i];
    }
    DistinctIsShort(p[1..], Nodes(ArcsOf(es, types)));
  }

  lemma DistinctIsWalk(g: Arcs, p: seq<Node>)
    requires IsPath(g, p) && Distinct(p)
    ensures WalkPath(g, p)
  {
  }

  /** Walk paths lose nothing: a node other than the start is on one exactly when it is reachable. */
  lemma WalkReaches(es: set<Edge>, types: set<RelationType>, x: Node, y: Node)
    requires x != y
    ensures Reach(ArcsOf(es, types), x, y) <==> exists h :: IsHop(es, types, x, h) && h.Node() == y
  {
    var g := ArcsOf(es, types);
    if Reach(g, x, y) {
      var p :| Leads(g, p, x, y);
      var h := ShortHop(es, types, p);
    }
    if h :| IsHop(es, types, x, h) && h.Node() == y {
      assert Leads(g, h.path, x, y);
    }
  }

  /** Every path between different nodes is matched by a row that is no deeper. */
  lemma ShortHop(es: set<Edge>, types: set<RelationType>, p: seq<Node>) returns (h: Hop)
    requires IsPath(ArcsOf(es, types), p) && p[0] != p[|p| - 1]
    ensures IsHop(es, types, p[0], h) && h.Node() == p[|p| - 1] && |h.path| <= |p|
  {
    var g := ArcsOf(es, types);
    var q := RemoveLoops(g, p);
    DistinctIsWalk(g, q);
    assert (q[|q| - 2], q[|q| - 2 + 1]) in g;
    var a :| a in es && a.rel in types && (a.src, a.tgt) == (q[|q| - 2], q[|q| - 1]);
    h := Hop(q, a.rel);
  }

  /** A walk comes back to its start only along a self edge. */
  lemma WalkHome(es: set<Edge>, types: set<RelationType>, x: Node, h: Hop)
    requires IsHop(es, types, x, h) && h.Node() == x
    ensures h.path == [x, x] && Edge(x, x, h.rel) in es
  {
    if |h.path| > 2 {
      EndsDiffer(ArcsOf(es, types), h.path);
    }
  }

  lemma EndsDiffer(g: Arcs, p: seq<Node>)
    requires WalkPath(g, p) && |p| > 2
    ensures p[0] != p[|p| - 1]
  {
    var n := |p| - 1;
    assert p[..n][0] == p[0];
  }

  predicate Hits(rows: set<Hop>, y: Node)
    requires forall h | h in rows :: |h.path| >= 2
  {
    exists h | h in rows :: h.Node() == y
  }

  ghost predicate HitBefore(es: set<Edge>, types: set<RelationType>, x: Node, y: Node, k: nat) {
    exists j | 0 <= j < k :: Hits(Frontier(es, types, x, j), y)
  }

  /** The cycle guard's query: true exactly when some path, repeats allowed, leads from x to y. */
  method PathExists(es: set<Edge>, x: Node, y: Node, rt: RelationType) returns (found: bool)
    ensures found <==> WalkFinds(es, x, y, rt)
  {
    var k := 0;
    var frontier := Base(es, {rt}, x);
    found := false;
    while frontier != {}
      invariant frontier == Frontier(es, {rt}, x, k)
      invariant found <==> HitBefore(es, {rt}, x, y, k)
      decreases |Nodes(ArcsOf(es, {rt}))| - k
    {
      RoundBound(es, {rt}, x, k);
      found := found || Hits(frontier, y);
      frontier := Extend(es, {rt}, frontier);
      k := k + 1;
    }
    HitIsWalk(es, rt, x, y, k);
  }

  lemma HitIsWalk(es: set<Edge>, rt: RelationType, x: Node, y: Node, k: nat)
    requires Frontier(es, {rt}, x, k) == {}
    ensures HitBefore(es, {rt}, x, y, k) <==> WalkFinds(es, x, y, rt)
  {
    if HitBefore(es, {rt}, x, y, k) {
      HitWalks(es, rt, x, y, k);
    }
    if WalkFinds(es, x, y, rt) {
      WalkHits(es, rt, x, y, k);
    }
  }

  lemma HitWalks(es: set<Edge>, rt: RelationType, x: Node, y: Node, k: nat)
    requires HitBefore(es, {rt}, x, y, k)
    ensures WalkFinds(es, x, y, rt)
  {
    var j :| 0 <= j < k && Hits(Frontier(es, {rt}, x, j), y);
    var h :| h in Frontier(es, {rt}, x, j) && h.Node() == y;
    FrontierExact(es, {rt}, x, j, h);
    if x == y {
      WalkHome(es, {rt}, x, h);
    } else {
      WalkReaches(es, {rt}, x, y);
    }
  }

  lemma WalkHits(es: set<Edge>, rt: RelationType, x: Node, y: Node, k: nat)
    requires Frontier(es, {rt}, x, k) == {} && WalkFinds(es, x, y, rt)
    ensures HitBefore(es, {rt}, x, y, k)
  {
    var h: Hop;
    if x == y {
      h := Hop([x, x], rt);
      assert (x, x) in ArcsOf(es, {rt});
    } else {
      WalkReaches(es, {rt}, x, y);
      h :| IsHop(es, {rt}, x, h) && h.Node() == y;
    }
    EmptyRoundEnds(es, {rt}, x, k, h);
    FrontierExact(es, {rt}, x, |h.path| - 2, h);
    assert Hits(Frontier(es, {rt}, x, |h.path| - 2), y);
  }

  // ---- the amendment chain ---------------------------------------------

  predicate RowOf(es: set<Edge>, x: Node, h: Hop, row: ChainRow) {
    IsHop(es, CHAIN_TYPES, x, h) && row == ChainRow(h.Node(), h.rel, |h.path| - 1)
  }

  ghost predicate IsChainRow(es: set<Edge>, x: Node, row: ChainRow) {
    exists h :: RowOf(es, x, h, row)
  }

  predicate DepthOrdered(rows: seq<ChainRow>) {
    forall i, j | 0 <= i < j < |rows| :: rows[i].depth <= rows[j].depth && rows[i] != rows[j]
  }

  predicate InRound(frontier: set<Hop>, d: nat, row: ChainRow)
    requires forall h | h in frontier :: |h.path| >= 2
  {
    row.depth == d && exists h | h in frontier :: h.Node() == row.node && h.rel == row.rel
  }

  /** The rows listed are those of depth at most d. */
  ghost predicate ListsTo(es: set<Edge>, x: Node, rows: seq<ChainRow>, d: nat) {
    forall row :: row in rows <==> row.depth <= d && IsChainRow(es, x, row)
  }

  /** The amendment chain: distinct rows, shallow ones first. */
  method GetAmendmentChain(es: set<Edge>, x: Node) returns (rows: seq<ChainRow>)
    ensures forall row :: row in rows <==> IsChainRow(es, x, row)
    ensures DepthOrdered(rows)
  {
    var k := 0;
    var frontier := Base(es, CHAIN_TYPES, x);
    rows := [];
    RowDepths(es, x);
    while frontier != {}
      invariant frontier == Frontier(es, CHAIN_TYPES, x, k)
      invariant ListsTo(es, x, rows, k)
      invariant DepthOrdered(rows)
      decreases |Nodes(ArcsOf(es, CHAIN_TYPES))| - k
    {
      RoundBound(es, CHAIN_TYPES, x, k);
      ghost var before := rows;
      rows := AddRound(rows, frontier, k + 1);
      ListsRound(es, x, k, before, rows);
      frontier := Extend(es, CHAIN_TYPES, frontier);
      k := k + 1;
    }
    RoundsExhausted(es, x, k);
  }

  lemma ListsRound(es: set<Edge>, x: Node, k: nat, before: seq<ChainRow>, rows: seq<ChainRow>)
    requires ListsTo(es, x, before, k)
    requires forall row :: row in rows <==> row in before || InRound(Frontier(es, CHAIN_TYPES, x, k), k + 1, row)
    ensures ListsTo(es, x, rows, k + 1)
  {
    RoundRows(es, x, k);
  }

  lemma RoundsExhausted(es: set<Edge>, x: Node, k: nat)
    requires Frontier(es, CHAIN_TYPES, x, k) == {}
    ensures forall row | IsChainRow(es, x, row) :: row.depth <= k
  {
    forall row | IsChainRow(es, x, row)
      ensures row.depth <= k
    {
      var h :| RowOf(es, x, h, row);
      EmptyRoundEnds(es, CHAIN_TYPES, x, k, h);
    }
  }

  method AddRound(before: seq<ChainRow>, frontier: set<Hop>, d: nat) returns (rows: seq<ChainRow>)
    requires forall h | h in frontier :: |h.path| >= 2
    requires DepthOrdered(before) && forall row | row in before :: row.depth < d
    ensures forall row :: row in rows <==> row in before || InRound(frontier, d, row)
    ensures DepthOrdered(rows)
  {
    rows := before;
    var rest := frontier;
    while rest != {}
      invariant rest <= frontier
      invariant forall row :: row in rows <==> row in before || InRound(frontier - rest, d, row)
      invariant DepthOrdered(rows)
    {
      var h :| h in rest;
      var row := ChainRow(h.Node(), h.rel, d);
      if row !in rows {
        rows := rows + [row];
      }
      ghost var done := frontier - rest;
      rest := rest - {h};
      assert frontier - rest == done + {h};
    }
    assert frontier - rest == frontier;
  }

  lemma RowDepths(es: set<Edge>, x: Node)
    ensures forall row | IsChainRow(es, x, row) :: row.depth >= 1
  {
  }

  lemma RoundRows(es: set<Edge>, x: Node, k: nat)
    ensures forall row :: InRound(Frontier(es, CHAIN_TYPES, x, k), k + 1, row)
                          <==> row.depth == k + 1 && IsChainRow(es, x, row)
  {
    var frontier := Frontier(es, CHAIN_TYPES, x, k);
    forall row
      ensures InRound(frontier, k + 1, row) <==> row.depth == k + 1 && IsChainRow(es, x, row)
    {
      if InRound(frontier, k + 1, row) {
        var h :| h in frontier && h.Node() == row.node && h.rel == row.rel;
        FrontierExact(es, CHAIN_TYPES, x, k, h);
        assert RowOf(es, x, h, row);
      }
      if row.depth == k + 1 && IsChainRow(es, x, row) {
        var h :| RowOf(es, x, h, row);
        FrontierExact(es, CHAIN_TYPES, x, k, h);
      }
    }
  }

  // ---- connected components --------------------------------------------

  function ChainArcs(es: set<Edge>): Arcs {
    ArcsOf(es, CHAIN_TYPES)
  }

  /** An amendment or supersession edge from a to b. */
  predicate ChainStep(es: set<Edge>, a: Node, b: Node) {
    || Edge(a, b, Amends) in es || Edge(a, b, AmendedBy) in es
    || Edge(a, b, Supersedes) in es || Edge(a, b, SupersededBy) in es
  }

  /** p goes from x to y along chain edges. */
  predicate ChainPath(es: set<Edge>, p: seq<Node>, x: Node, y: Node) {
    && |p| >= 2 && p[0] == x && p[|p| - 1] == y
    && forall i | 0 <= i < |p| - 1 :: ChainStep(es, p[i], p[i + 1])
  }

  /** p goes from x to y along chain edges, taken in either direction. */
  predicate Link(es: set<Edge>, p: seq<Node>, x: Node, y: Node) {
    && |p| >= 2 && p[0] == x && p[|p| - 1] == y
    && forall i | 0 <= i < |p| - 1 :: ChainStep(es, p[i], p[i + 1]) || ChainStep(es, p[i + 1], p[i])
  }

  /** Joined by amendment or supersession edges, in either direction. */
  ghost predicate Connected(es: set<Edge>, x: Node, y: Node) {
    x == y || exists p :: Link(es, p, x, y)
  }

  lemma StepIsArc(es: set<Edge>, a: Node, b: Node)
    ensures ChainStep(es, a, b) <==> (a, b) in ChainArcs(es)
  {
    if (a, b) in ChainArcs(es) {
      var e :| e in es && e.rel in CHAIN_TYPES && (e.src, e.tgt) == (a, b);
      assert e == Edge(a, b, e.rel);
    }
    forall r | Edge(a, b, r) in es && r in CHAIN_TYPES
      ensures (a, b) in ChainArcs(es)
    {
      var e := Edge(a, b, r);
      assert (e.src, e.tgt) == (a, b);
    }
  }

  lemma PathIsChain(es: set<Edge>, p: seq<Node>, x: Node, y: Node)
    ensures Leads(ChainArcs(es), p, x, y) <==> ChainPath(es, p, x, y)
  {
    forall i | 0 <= i < |p| - 1
      ensures ChainStep(es, p[i], p[i + 1]) <==> (p[i], p[i + 1]) in ChainArcs(es)
    {
      StepIsArc(es, p[i], p[i + 1]);
    }
  }

  lemma LinkIsPath(es: set<Edge>, p: seq<Node>, x: Node, y: Node)
    ensures Leads(ChainArcs(es) + Transpose(ChainArcs(es)), p, x, y) <==> Link(es, p, x, y)
  {
    forall i | 0 <= i < |p| - 1
      ensures ChainStep(es, p[i], p[i + 1]) || ChainStep(es, p[i + 1], p[i])
              <==> (p[i], p[i + 1]) in ChainArcs(es) + Transpose(ChainArcs(es))
    {
      StepIsArc(es, p[i], p[i + 1]);
      StepIsArc(es, p[i + 1], p[i]);
      TransposeHas(ChainArcs(es), p[i], p[i + 1]);
    }
  }

  lemma TransposeHas(g: Arcs, a: Node, b: Node)
    ensures (a, b) in Transpose(g) <==> (b, a) in g
  {
    if (b, a) in g {
      assert ((b, a).1, (b, a).0) == (a, b);
    }
  }

  lemma ConnectedReaches(es: set<Edge>, x: Node, y: Node)
    ensures Connected(es, x, y) <==> x == y || Reach(ChainArcs(es) + Transpose(ChainArcs(es)), x, y)
  {
    var g := ChainArcs(es) + Transpose(ChainArcs(es));
    if p :| Link(es, p, x, y) {
      LinkIsPath(es, p, x, y);
    }
    if p :| Leads(g, p, x, y) {
      LinkIsPath(es, p, x, y);
    }
  }

  /** At depth one the chain lists the regulation's own amendment and supersession edges, and no others. */
  lemma DirectRows(es: set<Edge>, x: Node, y: Node, r: RelationType)
    ensures IsChainRow(es, x, ChainRow(y, r, 1)) <==>
              Edge(x, y, r) in es && (r == Amends || r == AmendedBy || r == Supersedes || r == SupersededBy)
  {
    if Edge(x, y, r) in es && r in CHAIN_TYPES {
      var h := Hop([x, y], r);
      StepIsArc(es, x, y);
      assert RowOf(es, x, h, ChainRow(y, r, 1));
    }
  }

  /** y is listed in the chain of x, or is x. */
  ghost predicate Member(es: set<Edge>, x: Node, y: Node) {
    x == y || exists row :: IsChainRow(es, x, row) && row.node == y
  }

  predicate InverseClosed(es: set<Edge>) {
    forall e | e in es :: Twin(e) in es
  }

  lemma ChainArcsSymmetric(es: set<Edge>)
    requires InverseClosed(es)
    ensures Transpose(ChainArcs(es)) == ChainArcs(es)
  {
    var g := ChainArcs(es);
    forall a | a in g
      ensures (a.1, a.0) in g
    {
      var e :| e in es && e.rel in CHAIN_TYPES && (e.src, e.tgt) == a;
      assert Twin(e) in es && Twin(e).rel in CHAIN_TYPES;
    }
    forall a | a in g
      ensures a in Transpose(g)
    {
      assert (a.1, a.0) in g;
    }
  }

  lemma MemberReaches(es: set<Edge>, x: Node, y: Node)
    ensures Member(es, x, y) <==> x == y || Reach(ChainArcs(es), x, y)
  {
    if x != y {
      WalkReaches(es, CHAIN_TYPES, x, y);
      if row :| IsChainRow(es, x, row) && row.node == y {
        var h :| RowOf(es, x, h, row);
      }
      if h :| IsHop(es, CHAIN_TYPES, x, h) && h.Node() == y {
        assert RowOf(es, x, h, ChainRow(y, h.rel, |h.path| - 1));
      }
    }
  }

  /** On an inverse-closed graph the chain of x, with x itself, is the connected component of x. */
  lemma ChainIsComponent(es: set<Edge>, x: Node, y: Node)
    requires InverseClosed(es)
    ensures Member(es, x, y) <==> Connected(es, x, y)
  {
    MemberReaches(es, x, y);
    ConnectedReaches(es, x, y);
    ChainArcsSymmetric(es);
    assert ChainArcs(es) + Transpose(ChainArcs(es)) == ChainArcs(es);
  }

  /** All members of a chain list the same component, whichever of them is asked. */
  lemma ChainsAgree(es: set<Edge>, x: Node, y: Node, z: Node)
    requires InverseClosed(es) && Member(es, x, y)
    ensures Member(es, y, x)
    ensures Member(es, x, z) <==> Member(es, y, z)
  {
    var g := ChainArcs(es);
    ChainArcsSymmetric(es);
    MemberReaches(es, x, y);
    MemberReaches(es, y, x);
    MemberReaches(es, x, z);
    MemberReaches(es, y, z);
    if x != y {
      TransposeReach(g, x, y);
      if Reach(g, x, z) {
        ReachTransitive(g, y, x, z);
      }
      if Reach(g, y, z) {
        ReachTransitive(g, x, y, z);
      }
    }
  }

  /** d is the number of edges on a shortest chain path from x to y. */
  ghost predicate IsDistance(es: set<Edge>, x: Node, y: Node, d: nat) {
    && (exists p :: ChainPath(es, p, x, y) && |p| == d + 1)
    && (forall p | ChainPath(es, p, x, y) :: d + 1 <= |p|)
  }

  /** The least depth at which a node is listed is its distance from the start. */
  lemma LeastDepthIsDistance(es: set<Edge>, x: Node, row: ChainRow)
    requires IsChainRow(es, x, row) && row.node != x
    ensures (forall other | IsChainRow(es, x, other) && other.node == row.node :: row.depth <= other.depth)
            <==> IsDistance(es, x, row.node, row.depth)
  {
    var h :| RowOf(es, x, h, row);
    PathIsChain(es, h.path, x, row.node);
    if forall other | IsChainRow(es, x, other) && other.node == row.node :: row.depth <= other.depth {
      forall p | ChainPath(es, p, x, row.node)
        ensures row.depth + 1 <= |p|
      {
        PathIsChain(es, p, x, row.node);
        var s := ShortHop(es, CHAIN_TYPES, p);
        var other := ChainRow(row.node, s.rel, |s.path| - 1);
        assert RowOf(es, x, s, other);
      }
    }
    if IsDistance(es, x, row.node, row.depth) {
      forall other | IsChainRow(es, x, other) && other.node == row.node
        ensures row.depth <= other.depth
      {
        var o :| RowOf(es, x, o, other);
        PathIsChain(es, o.path, x, row.node);
      }
    }
  }
}
