/**
 The typed edge table of engine/relationship_resolver.py, as a value: the cycle guard, the
 automatic inverse, first-writer-wins dedup, and what runs of writes keep.
 */
module RelationTable {
  import opened Options
  import opened Paths

  datatype RelationType = Amends | AmendedBy | References | Supersedes | SupersededBy | Related

  datatype Provenance = TextExtracted | ApiSourced

  datatype Edge = Edge(src: Node, tgt: Node, rel: RelationType)

  datatype Payload = Payload(reference: string, confidence: real, source: Provenance)

  /** The unique constraint on (source, target, type) makes the table a map. */
  type Table = map<Edge, Payload>

  datatype Write = Write(edge: Edge, payload: Payload)

  function Inverse(r: RelationType): RelationType {
    match r
    case Amends => AmendedBy
    case AmendedBy => Amends
    case Supersedes => SupersededBy
    case SupersededBy => Supersedes
    case References => References
    case Related => Related
  }

  function Twin(e: Edge): Edge {
    Edge(e.tgt, e.src, Inverse(e.rel))
  }

  function ArcsOf(es: set<Edge>, types: set<RelationType>): Arcs {
    set e | e in es && e.rel in types :: (e.src, e.tgt)
  }

  /** Only these two types are checked for loops before a write. */
  predicate Guarded(r: RelationType) {
    r == Supersedes || r == Amends
  }

  /** The check constraints of the table: no self edge, confidence within [0, 1]. */
  predicate Accepts(e: Edge, p: Payload) {
    e.src != e.tgt && 0.0 <= p.confidence <= 1.0
  }

  /** What the path query answers: reachability, except that only a self edge leads from a node to itself. */
  ghost predicate WalkFinds(es: set<Edge>, a: Node, b: Node, r: RelationType) {
    if a == b then Edge(a, a, r) in es else Reach(ArcsOf(es, {r}), a, b)
  }

  ghost predicate Skipped(t: Table, e: Edge) {
    Guarded(e.rel) && WalkFinds(t.Keys, e.tgt, e.src, e.rel)
  }

  function Insert(t: Table, e: Edge, p: Payload): Result<Table> {
    if !Accepts(e, p) then Err
    else if e in t then Ok(t)
    else Ok(t[e := p])
  }

  ghost function Apply(t: Table, w: Write): Result<Table> {
    if Skipped(t, w.edge) then Ok(t)
    else
      var one := Insert(t, w.edge, w.payload);
      if one.Err? then Err else Insert(one.value, Twin(w.edge), w.payload)
  }

  /** A write that raises is rolled back and leaves the table as it was. */
  ghost function Step(t: Table, w: Write): Table {
    var r := Apply(t, w);
    if r.Ok? then r.value else t
  }

  ghost function Run(t: Table, ws: seq<Write>): Table {
    if ws == [] then t else Step(Run(t, ws[..|ws| - 1]), ws[|ws| - 1])
  }

  // ---- twins ------------------------------------------------------------

  predicate TwinClosed(t: Table) {
    forall e | e in t :: Twin(e) in t && t[Twin(e)] == t[e]
  }

  predicate Sound(t: Table) {
    TwinClosed(t) && forall e | e in t :: Accepts(e, t[e])
  }

  lemma TwinOfTwin(e: Edge)
    ensures Twin(Twin(e)) == e
  {
  }

  /** A write that goes through adds its edge and the twin, and an edge already there keeps its payload. */
  lemma FirstWriterWins(t: Table, w: Write, e: Edge)
    requires !Skipped(t, w.edge) && Apply(t, w).Ok?
    ensures var u := Apply(t, w).value;
            && (e in u <==> e in t || e == w.edge || e == Twin(w.edge))
            && (e in u ==> u[e] == if e in t then t[e] else w.payload)
  {
  }

  lemma StepKeepsTwins(t: Table, w: Write)
    requires Sound(t)
    ensures Sound(Step(t, w))
  {
    if !Skipped(t, w.edge) && Apply(t, w).Ok? {
      var u := Step(t, w);
      forall e | e in u
        ensures Twin(e) in u && u[Twin(e)] == u[e] && Accepts(e, u[e])
      {
        TwinOfTwin(e);
        TwinOfTwin(w.edge);
        FirstWriterWins(t, w, e);
        FirstWriterWins(t, w, Twin(e));
        assert e in t <==> Twin(e) in t;
      }
    }
  }

  /** Over every run, each edge has its inverse with the same reference, confidence and source. */
  lemma {:induction false} RunKeepsTwins(t: Table, ws: seq<Write>)
    requires Sound(t)
    ensures Sound(Run(t, ws))
  {
    if ws != [] {
      RunKeepsTwins(t, ws[..|ws| - 1]);
      StepKeepsTwins(Run(t, ws[..|ws| - 1]), ws[|ws| - 1]);
    }
  }

  /** In a twin-closed table the edges of the inverse type are the type's own edges reversed. */
  lemma TwinArcs(t: Table, r: RelationType)
    requires TwinClosed(t)
    ensures ArcsOf(t.Keys, {Inverse(r)}) == Transpose(ArcsOf(t.Keys, {r}))
  {
    var g, h := ArcsOf(t.Keys, {r}), ArcsOf(t.Keys, {Inverse(r)});
    forall a | a in h
      ensures a in Transpose(g)
    {
      assert Twin(Edge(a.0, a.1, Inverse(r))) == Edge(a.1, a.0, r);
      assert (a.1, a.0) in g;
    }
    forall a | a in Transpose(g)
      ensures a in h
    {
      assert Twin(Edge(a.1, a.0, r)) in t;
    }
  }

  /** What closure under twins means, type by type. */
  lemma TwinsWrittenOut(t: Table, a: Node, b: Node)
    requires Sound(t)
    ensures Edge(a, b, Amends) in t <==> Edge(b, a, AmendedBy) in t
    ensures Edge(a, b, Supersedes) in t <==> Edge(b, a, SupersededBy) in t
    ensures Edge(a, b, References) in t <==> Edge(b, a, References) in t
    ensures Edge(a, b, Related) in t <==> Edge(b, a, Related) in t
    ensures forall e | e in t :: e.src != e.tgt && 0.0 <= t[e].confidence <= 1.0
  {
    forall r
      ensures Edge(a, b, r) in t <==> Edge(b, a, Inverse(r)) in t
    {
      TwinOfTwin(Edge(a, b, r));
      assert Twin(Edge(a, b, r)) == Edge(b, a, Inverse(r));
    }
  }

  // ---- acyclicity -------------------------------------------------------

  ghost predicate TypeAcyclic(t: Table, r: RelationType) {
    Acyclic(ArcsOf(t.Keys, {r}))
  }

  /** Neither the amendment graph nor the supersession graph has a cycle, in either direction. */
  ghost predicate ChainAcyclic(t: Table) {
    && TypeAcyclic(t, Amends) && TypeAcyclic(t, AmendedBy)
    && TypeAcyclic(t, Supersedes) && TypeAcyclic(t, SupersededBy)
  }

  /** The unguarded write closes a loop: its automatic inverse completes a path already there. */
  ghost predicate Closes(t: Table, w: Write) {
    && Accepts(w.edge, w.payload)
    && (w.edge.rel == AmendedBy || w.edge.rel == SupersededBy)
    && Reach(ArcsOf(t.Keys, {Inverse(w.edge.rel)}), w.edge.src, w.edge.tgt)
  }

  lemma ArcsAfter(t: Table, w: Write, r: RelationType)
    requires !Skipped(t, w.edge) && Accepts(w.edge, w.payload)
    ensures Step(t, w).Keys == t.Keys + {w.edge, Twin(w.edge)}
    ensures var g, h := ArcsOf(t.Keys, {r}), ArcsOf(Step(t, w).Keys, {r});
            var e := w.edge;
            && (e.rel == r && Inverse(e.rel) != r ==> h == g + {(e.src, e.tgt)})
            && (e.rel != r && Inverse(e.rel) == r ==> h == g + {(e.tgt, e.src)})
            && (e.rel != r && Inverse(e.rel) != r ==> h == g)
  {
    var e, t' := w.edge, Step(t, w);
    assert t'.Keys == t.Keys + {e, Twin(e)};
    var g := ArcsOf(t'.Keys, {r});
    if e.rel == r {
      assert e in t'.Keys && (e.src, e.tgt) in g;
    }
    if Inverse(e.rel) == r {
      assert Twin(e) in t'.Keys && (e.tgt, e.src) in g;
    }
  }

  lemma ForwardAcyclic(t: Table)
    requires TwinClosed(t)
    ensures ChainAcyclic(t) <==> TypeAcyclic(t, Amends) && TypeAcyclic(t, Supersedes)
  {
    TwinArcs(t, Amends);
    TransposeAcyclic(ArcsOf(t.Keys, {Amends}));
    TwinArcs(t, Supersedes);
    TransposeAcyclic(ArcsOf(t.Keys, {Supersedes}));
  }

  lemma StepTypeAcyclic(t: Table, w: Write, r: RelationType)
    requires Guarded(r) && TypeAcyclic(t, r)
    ensures TypeAcyclic(Step(t, w), r) <==> !(Closes(t, w) && Inverse(w.edge.rel) == r)
  {
    var e, g := w.edge, ArcsOf(t.Keys, {r});
    if Accepts(e, w.payload) && !Skipped(t, e) {
      ArcsAfter(t, w, r);
      if e.rel == r {
        AddArc(g, e.src, e.tgt);
      } else if Inverse(e.rel) == r {
        AddArc(g, e.tgt, e.src);
      }
    }
  }

  /** One write keeps the four chain graphs acyclic exactly when it is not an unguarded closing write. */
  lemma StepAcyclicExactly(t: Table, w: Write)
    requires Sound(t) && ChainAcyclic(t)
    ensures ChainAcyclic(Step(t, w)) <==> !Closes(t, w)
  {
    StepKeepsTwins(t, w);
    ForwardAcyclic(Step(t, w));
    StepTypeAcyclic(t, w, Amends);
    StepTypeAcyclic(t, w, Supersedes);
  }

  lemma {:induction false} RunAcyclicPrefix(t: Table, ws: seq<Write>)
    requires Sound(t) && ChainAcyclic(t)
    requires forall k | 0 <= k < |ws| :: !Closes(Run(t, ws[..k]), ws[k])
    ensures ChainAcyclic(Run(t, ws))
  {
    if ws != [] {
      var n := |ws| - 1;
      forall k | 0 <= k < n
        ensures !Closes(Run(t, ws[..n][..k]), ws[..n][k])
      {
        assert ws[..n][..k] == ws[..k];
      }
      RunAcyclicPrefix(t, ws[..n]);
      RunKeepsTwins(t, ws[..n]);
      StepAcyclicExactly(Run(t, ws[..n]), ws[n]);
    }
  }

  lemma ClosingPrefix(t: Table, ws: seq<Write>, k: nat)
    requires Sound(t) && k < |ws| && Closes(Run(t, ws[..k]), ws[k]) && ChainAcyclic(Run(t, ws[..k]))
    ensures !ChainAcyclic(Run(t, ws[..k + 1]))
  {
    RunKeepsTwins(t, ws[..k]);
    StepAcyclicExactly(Run(t, ws[..k]), ws[k]);
    assert ws[..k + 1][..k] == ws[..k];
  }

  lemma OpenPrefix(t: Table, ws: seq<Write>, k: nat)
    requires Sound(t) && ChainAcyclic(t) && k <= |ws|
    requires forall j | 0 <= j < |ws| :: !Closes(Run(t, ws[..j]), ws[j])
    ensures ChainAcyclic(Run(t, ws[..k]))
  {
    forall j | 0 <= j < k
      ensures !Closes(Run(t, ws[..k][..j]), ws[..k][j])
    {
      assert ws[..k][..j] == ws[..j];
    }
    RunAcyclicPrefix(t, ws[..k]);
  }

  /** A run stays acyclic throughout exactly when none of its steps is an unguarded closing write. */
  lemma RunAcyclicExactly(t: Table, ws: seq<Write>)
    requires Sound(t) && ChainAcyclic(t)
    ensures (forall k | 0 <= k <= |ws| :: ChainAcyclic(Run(t, ws[..k])))
            <==> (forall k | 0 <= k < |ws| :: !Closes(Run(t, ws[..k]), ws[k]))
  {
    if k :| 0 <= k < |ws| && Closes(Run(t, ws[..k]), ws[k]) {
      if ChainAcyclic(Run(t, ws[..k])) {
        ClosingPrefix(t, ws, k);
      }
    } else {
      forall k | 0 <= k <= |ws| {
        OpenPrefix(t, ws, k);
      }
    }
  }

  /** From the empty table, a run that never writes an inverse type directly stays acyclic. */
  lemma GuardedRunAcyclic(ws: seq<Write>)
    requires forall w | w in ws :: w.edge.rel != AmendedBy && w.edge.rel != SupersededBy
    ensures ChainAcyclic(Run(map[], ws))
  {
    EmptyTableAcyclic();
    forall k | 0 <= k < |ws|
      ensures !Closes(Run(map[], ws[..k]), ws[k])
    {
      assert ws[k] in ws;
    }
    RunAcyclicPrefix(map[], ws);
  }

  lemma EmptyTableAcyclic()
    ensures Sound(map[]) && ChainAcyclic(map[])
  {
    var t: Table := map[];
    forall r, x
      ensures !Reach(ArcsOf(t.Keys, {r}), x, x)
    {
      if Reach(ArcsOf(t.Keys, {r}), x, x) {
        var _ := FirstArc(ArcsOf(t.Keys, {r}), x, x);
      }
    }
  }

  /** The guard does not look at amended_by: "0 amends 1" then "0 amended_by 1" makes 0 amend itself. */
  lemma UnguardedInverseMakesCycle(p: Payload)
    requires 0.0 <= p.confidence <= 1.0
    ensures var ws := [Write(Edge(0, 1, Amends), p), Write(Edge(0, 1, AmendedBy), p)];
            Reach(ArcsOf(Run(map[], ws).Keys, {Amends}), 0, 0)
  {
    var w0, w1 := Write(Edge(0, 1, Amends), p), Write(Edge(0, 1, AmendedBy), p);
    var t0: Table := map[];
    EmptyTableAcyclic();
    var g0 := ArcsOf(t0.Keys, {Amends});
    if Reach(g0, 1, 0) {
      var _ := FirstArc(g0, 1, 0);
    }
    ArcsAfter(t0, w0, Amends);
    var t1 := Step(t0, w0);
    assert Run(t0, [w0]) == t1 by {
      assert [w0][..0] == [];
    }
    ArcsAfter(t1, w1, Amends);
    assert [w0, w1][..1] == [w0];
    assert Run(t0, [w0, w1]) == Step(t1, w1);
    assert Leads(ArcsOf(Step(t1, w1).Keys, {Amends}), [0, 1, 0], 0, 0);
  }

  // ---- absorption -------------------------------------------------------

  predicate Within(t: Table, u: Table) {
    forall e | e in t :: e in u && u[e] == t[e]
  }

  /** Repeating the write changes nothing. */
  ghost predicate Absorbs(t: Table, w: Write) {
    Apply(t, w) == Ok(t)
  }

  lemma WalkMonotone(t: Table, u: Table, a: Node, b: Node, r: RelationType)
    requires Within(t, u) && WalkFinds(t.Keys, a, b, r)
    ensures WalkFinds(u.Keys, a, b, r)
  {
    if a != b {
      ReachMonotone(ArcsOf(t.Keys, {r}), ArcsOf(u.Keys, {r}), a, b);
    }
  }

  /** A cycle in a table is a cycle in any larger one. */
  lemma CyclesStay(t: Table, u: Table)
    requires Within(t, u) && !ChainAcyclic(t)
    ensures !ChainAcyclic(u)
  {
    forall r, x | Reach(ArcsOf(t.Keys, {r}), x, x)
      ensures Reach(ArcsOf(u.Keys, {r}), x, x)
    {
      ReachMonotone(ArcsOf(t.Keys, {r}), ArcsOf(u.Keys, {r}), x, x);
    }
  }

  lemma WriteGrows(t: Table, w: Write)
    requires Apply(t, w).Ok?
    ensures Within(t, Apply(t, w).value)
    ensures Absorbs(Apply(t, w).value, w)
  {
  }

  /** Skipped writes stay skipped and made writes stay made, because tables only grow. */
  lemma AbsorbsMonotone(t: Table, u: Table, w: Write)
    requires Within(t, u) && Absorbs(t, w)
    ensures Absorbs(u, w)
  {
    if Skipped(t, w.edge) {
      WalkMonotone(t, u, w.edge.tgt, w.edge.src, w.edge.rel);
    } else {
      assert w.edge in t && Twin(w.edge) in t;
    }
  }
}
