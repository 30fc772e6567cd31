/**
 Relationship resolution (engine/relationship_resolver.py): the store that the resolver updates
 in place, and the value-level account of one call that its methods are proved against.
 */
module RelationshipResolver {
  import opened Options
  import opened Paths
  import opened RelationTable
  import RelationWalk

  const TEXT_CONFIDENCE: real := 0.5

  datatype ApiRelation = ApiRelation(target: string, rel: RelationType, confidence: real)

  datatype Item = Mention(text: string) | Api(relation: ApiRelation)

  /** Regulations by id, each with its source id, and the edge table. Ids below `next` are taken. */
  datatype Graph = Graph(regs: map<Node, string>, next: Node, edges: Table)

  /** The unique constraint on source ids, and the freshness of new ids. */
  predicate Keyed(g: Graph) {
    && (forall n | n in g.regs :: n < g.next)
    && (forall m, n | m in g.regs && n in g.regs && m != n :: g.regs[m] != g.regs[n])
  }

  /** Keyed, with every edge between known regulations and paired with its twin. */
  predicate WellKept(g: Graph) {
    && Keyed(g)
    && (forall e | e in g.edges :: e.src in g.regs && e.tgt in g.regs)
    && Sound(g.edges)
  }

  ghost function IdOf(regs: map<Node, string>, sid: string): Option<Node> {
    if exists n :: n in regs && regs[n] == sid then
      var n :| n in regs && regs[n] == sid;
      Some(n)
    else None
  }

  ghost function Stub(g: Graph, sid: string): (Graph, Node) {
    match IdOf(g.regs, sid)
    case Some(n) => (g, n)
    case None => (Graph(g.regs[g.next := sid], g.next + 1, g.edges), g.next)
  }

  function WriteOf(src: Node, tgt: Node, item: Item): Write {
    match item
    case Mention(text) => Write(Edge(src, tgt, References), Payload(text, TEXT_CONFIDENCE, TextExtracted))
    case Api(rel) => Write(Edge(src, tgt, rel.rel), Payload("api", rel.confidence, ApiSourced))
  }

  function TargetOf(item: Item, norm: string -> string): string {
    match item
    case Mention(text) => norm(text)
    case Api(rel) => norm(rel.target)
  }

  /** Self references are passed over, and so are relations without a target. */
  predicate PassedOver(sid: string, item: Item, norm: string -> string) {
    TargetOf(item, norm) == sid || (item.Api? && TargetOf(item, norm) == "")
  }

  ghost function Link(g: Graph, src: Node, target: string, item: Item): Result<Graph> {
    var (g1, tgt) := Stub(g, target);
    var r := Apply(g1.edges, WriteOf(src, tgt, item));
    if r.Ok? then Ok(g1.(edges := r.value)) else Err
  }

  ghost function ResolveItem(g: Graph, src: Node, item: Item, norm: string -> string): Result<Graph>
    requires src in g.regs
  {
    if PassedOver(g.regs[src], item, norm) then Ok(g) else Link(g, src, TargetOf(item, norm), item)
  }

  ghost function ResolveItems(g: Graph, src: Node, items: seq<Item>, norm: string -> string): (r: Result<Graph>)
    requires src in g.regs
    ensures r.Ok? ==> g.regs.Keys <= r.value.regs.Keys
  {
    if items == [] then Ok(g)
    else
      var r := ResolveItems(g, src, items[..|items| - 1], norm);
      if r.Err? then Err else ResolveItem(r.value, src, items[|items| - 1], norm)
  }

  function MentionItems(mentions: seq<string>): seq<Item> {
    seq(|mentions|, i requires 0 <= i < |mentions| => Mention(mentions[i]))
  }

  function RelationItems(relations: seq<ApiRelation>): seq<Item> {
    seq(|relations|, i requires 0 <= i < |relations| => Api(relations[i]))
  }

  function ItemsOf(mentions: seq<string>, relations: seq<ApiRelation>): seq<Item> {
    MentionItems(mentions) + RelationItems(relations)
  }

  /** One call. An unknown source does nothing; a rejected write raises and rolls everything back. */
  ghost function Resolve(g: Graph, src: Node, mentions: seq<string>, relations: seq<ApiRelation>,
                         norm: string -> string): Graph {
    if src !in g.regs then g
    else
      var r := ResolveItems(g, src, ItemsOf(mentions, relations), norm);
      if r.Ok? then r.value else g
  }

  /** No regulation, edge or payload is lost or changed. */
  predicate Grows(g: Graph, h: Graph) {
    && g.next <= h.next
    && (forall n | n in g.regs :: n in h.regs && h.regs[n] == g.regs[n])
    && Within(g.edges, h.edges)
  }

  // ---- idempotence ------------------------------------------------------

  lemma IdOfKnown(g: Graph, n: Node)
    requires Keyed(g) && n in g.regs
    ensures IdOf(g.regs, g.regs[n]) == Some(n)
  {
  }

  lemma StubIsKnown(g: Graph, sid: string)
    requires Keyed(g)
    ensures var (h, n) := Stub(g, sid);
            Keyed(h) && Grows(g, h) && n in h.regs && h.regs[n] == sid
  {
  }

  lemma ItemGrows(g: Graph, src: Node, item: Item, norm: string -> string)
    requires Keyed(g) && src in g.regs && ResolveItem(g, src, item, norm).Ok?
    ensures var h := ResolveItem(g, src, item, norm).value;
            Keyed(h) && Grows(g, h)
  {
    if !PassedOver(g.regs[src], item, norm) {
      var (g1, tgt) := Stub(g, TargetOf(item, norm));
      StubIsKnown(g, TargetOf(item, norm));
      WriteGrows(g1.edges, WriteOf(src, tgt, item));
    }
  }

  /** A call that succeeds only adds: every regulation, edge and payload is kept. */
  lemma {:induction false} ItemsGrow(g: Graph, src: Node, items: seq<Item>, norm: string -> string)
    requires Keyed(g) && src in g.regs && ResolveItems(g, src, items, norm).Ok?
    ensures var h := ResolveItems(g, src, items, norm).value;
            Keyed(h) && Grows(g, h)
  {
    if items != [] {
      var n := |items| - 1;
      ItemsGrow(g, src, items[..n], norm);
      ItemGrows(ResolveItems(g, src, items[..n], norm).value, src, items[n], norm);
    }
  }

  ghost predicate Settled(g: Graph, src: Node, item: Item, norm: string -> string) {
    src in g.regs && ResolveItem(g, src, item, norm) == Ok(g)
  }

  lemma ItemSettles(g: Graph, src: Node, item: Item, norm: string -> string)
    requires Keyed(g) && src in g.regs && ResolveItem(g, src, item, norm).Ok?
    ensures Settled(ResolveItem(g, src, item, norm).value, src, item, norm)
  {
    if !PassedOver(g.regs[src], item, norm) {
      var (g1, tgt) := Stub(g, TargetOf(item, norm));
      StubIsKnown(g, TargetOf(item, norm));
      var w := WriteOf(src, tgt, item);
      WriteGrows(g1.edges, w);
      IdOfKnown(g1, tgt);
    }
  }

  lemma SettledMonotone(g: Graph, h: Graph, src: Node, item: Item, norm: string -> string)
    requires Keyed(g) && Keyed(h) && Grows(g, h) && Settled(g, src, item, norm)
    ensures Settled(h, src, item, norm)
  {
    if !PassedOver(g.regs[src], item, norm) {
      var (g1, tgt) := Stub(g, TargetOf(item, norm));
      StubIsKnown(g, TargetOf(item, norm));
      assert g1.next == g.next;
      IdOfKnown(h, tgt);
      AbsorbsMonotone(g.edges, h.edges, WriteOf(src, tgt, item));
    }
  }

  lemma {:induction false} ItemsSettle(g: Graph, src: Node, items: seq<Item>, norm: string -> string, i: nat)
    requires Keyed(g) && src in g.regs && ResolveItems(g, src, items, norm).Ok? && i < |items|
    ensures Settled(ResolveItems(g, src, items, norm).value, src, items[i], norm)
  {
    var n := |items| - 1;
    var h := ResolveItems(g, src, items[..n], norm).value;
    ItemsGrow(g, src, items[..n], norm);
    if i == n {
      ItemSettles(h, src, items[n], norm);
    } else {
      ItemsSettle(g, src, items[..n], norm, i);
      ItemGrows(h, src, items[n], norm);
      SettledMonotone(h, ResolveItems(g, src, items, norm).value, src, items[i], norm);
    }
  }

  lemma {:induction false} SettledItemsDoNothing(g: Graph, src: Node, items: seq<Item>, norm: string -> string)
    requires src in g.regs
    requires forall i | 0 <= i < |items| :: Settled(g, src, items[i], norm)
    ensures ResolveItems(g, src, items, norm) == Ok(g)
  {
    if items != [] {
      SettledItemsDoNothing(g, src, items[..|items| - 1], norm);
    }
  }

  /** Repeating a call changes neither nodes nor edges, whatever the edges were before the first one. */
  lemma ResolveIdempotent(g: Graph, src: Node, mentions: seq<string>, relations: seq<ApiRelation>,
                          norm: string -> string)
    requires Keyed(g)
    ensures var h := Resolve(g, src, mentions, relations, norm);
            Resolve(h, src, mentions, relations, norm) == h
  {
    var items := ItemsOf(mentions, relations);
    if src in g.regs && ResolveItems(g, src, items, norm).Ok? {
      var h := ResolveItems(g, src, items, norm).value;
      forall i | 0 <= i < |items|
        ensures Settled(h, src, items[i], norm)
      {
        ItemsSettle(g, src, items, norm, i);
      }
      SettledItemsDoNothing(h, src, items, norm);
    }
  }

  /** The item left an edge to the regulation it names, or that edge would close a loop. */
  ghost predicate Recorded(h: Graph, src: Node, item: Item, norm: string -> string) {
    exists n :: n in h.regs && h.regs[n] == TargetOf(item, norm)
                && (WriteOf(src, n, item).edge in h.edges || Skipped(h.edges, WriteOf(src, n, item).edge))
  }

  lemma SettledIsRecorded(h: Graph, src: Node, item: Item, norm: string -> string)
    requires Keyed(h) && Settled(h, src, item, norm) && !PassedOver(h.regs[src], item, norm)
    ensures Recorded(h, src, item, norm)
  {
    var (g1, n) := Stub(h, TargetOf(item, norm));
    StubIsKnown(h, TargetOf(item, norm));
    var w := WriteOf(src, n, item);
    if !Skipped(h.edges, w.edge) {
      FirstWriterWins(h.edges, w, w.edge);
    }
  }

  /** After a call each item is passed over, or has its edge, or its edge would close a loop. */
  lemma ResolveRecords(g: Graph, src: Node, mentions: seq<string>, relations: seq<ApiRelation>,
                       norm: string -> string, i: nat)
    requires Keyed(g) && src in g.regs
    requires i < |ItemsOf(mentions, relations)|
    requires ResolveItems(g, src, ItemsOf(mentions, relations), norm).Ok?
    ensures var item, h := ItemsOf(mentions, relations)[i], Resolve(g, src, mentions, relations, norm);
            PassedOver(g.regs[src], item, norm) || Recorded(h, src, item, norm)
  {
    var items := ItemsOf(mentions, relations);
    var h := Resolve(g, src, mentions, relations, norm);
    ItemsSettle(g, src, items, norm, i);
    ItemsGrow(g, src, items, norm);
    if !PassedOver(g.regs[src], items[i], norm) {
      SettledIsRecorded(h, src, items[i], norm);
    }
  }

  // ---- nothing invented -------------------------------------------------

  /** The edge, or its twin, is what this item writes to the regulation it names, with this item's payload. */
  ghost predicate Made(h: Graph, src: Node, item: Item, norm: string -> string, e: Edge) {
    && e in h.edges
    && exists n :: n in h.regs && h.regs[n] == TargetOf(item, norm)
                   && (e == WriteOf(src, n, item).edge || e == Twin(WriteOf(src, n, item).edge))
                   && h.edges[e] == WriteOf(src, n, item).payload
  }

  lemma MadeMonotone(g: Graph, h: Graph, src: Node, item: Item, norm: string -> string, e: Edge)
    requires Grows(g, h) && Made(g, src, item, norm, e)
    ensures Made(h, src, item, norm, e)
  {
    var n :| n in g.regs && g.regs[n] == TargetOf(item, norm)
             && (e == WriteOf(src, n, item).edge || e == Twin(WriteOf(src, n, item).edge))
             && g.edges[e] == WriteOf(src, n, item).payload;
    assert n in h.regs && h.regs[n] == g.regs[n];
  }

  lemma ItemInventsNothing(g: Graph, src: Node, item: Item, norm: string -> string)
    requires Keyed(g) && src in g.regs && ResolveItem(g, src, item, norm).Ok?
    ensures var h := ResolveItem(g, src, item, norm).value;
            && (forall e | e in h.edges && e !in g.edges ::
                  !PassedOver(g.regs[src], item, norm) && Made(h, src, item, norm, e))
            && (forall n | n in h.regs && n !in g.regs ::
                  !PassedOver(g.regs[src], item, norm) && h.regs[n] == TargetOf(item, norm))
  {
    if !PassedOver(g.regs[src], item, norm) {
      var (g1, tgt) := Stub(g, TargetOf(item, norm));
      var w := WriteOf(src, tgt, item);
      var h := ResolveItem(g, src, item, norm).value;
      StubIsKnown(g, TargetOf(item, norm));
      if !Skipped(g1.edges, w.edge) {
        forall e | e in h.edges && e !in g.edges
          ensures Made(h, src, item, norm, e)
        {
          FirstWriterWins(g1.edges, w, e);
          assert tgt in h.regs && h.regs[tgt] == TargetOf(item, norm);
        }
      }
    }
  }

  ghost predicate MadeBySome(h: Graph, src: Node, sid: string, items: seq<Item>, norm: string -> string, e: Edge) {
    exists i | 0 <= i < |items| :: !PassedOver(sid, items[i], norm) && Made(h, src, items[i], norm, e)
  }

  ghost predicate NamedBySome(name: string, sid: string, items: seq<Item>, norm: string -> string) {
    exists i | 0 <= i < |items| :: !PassedOver(sid, items[i], norm) && name == TargetOf(items[i], norm)
  }

  lemma MadeBySomeMonotone(g: Graph, h: Graph, src: Node, sid: string, items: seq<Item>, norm: string -> string,
                           e: Edge)
    requires Grows(g, h) && items != [] && MadeBySome(g, src, sid, items[..|items| - 1], norm, e)
    ensures MadeBySome(h, src, sid, items, norm, e)
  {
    var front := items[..|items| - 1];
    var i :| 0 <= i < |front| && !PassedOver(sid, front[i], norm) && Made(g, src, front[i], norm, e);
    MadeMonotone(g, h, src, items[i], norm, e);
  }

  lemma NamedBySomeMonotone(name: string, sid: string, items: seq<Item>, norm: string -> string)
    requires items != [] && NamedBySome(name, sid, items[..|items| - 1], norm)
    ensures NamedBySome(name, sid, items, norm)
  {
    var front := items[..|items| - 1];
    var i :| 0 <= i < |front| && !PassedOver(sid, front[i], norm) && name == TargetOf(front[i], norm);
    assert items[i] == front[i];
  }

  /**
   Every new edge is some item's own edge or its twin, with that item's payload, and every new
   regulation is named by an item.
   */
  lemma {:induction false} ItemsInventNothing(g: Graph, src: Node, items: seq<Item>, norm: string -> string)
    requires Keyed(g) && src in g.regs && ResolveItems(g, src, items, norm).Ok?
    ensures var h := ResolveItems(g, src, items, norm).value;
            && (forall e | e in h.edges && e !in g.edges :: MadeBySome(h, src, g.regs[src], items, norm, e))
            && (forall n | n in h.regs && n !in g.regs :: NamedBySome(h.regs[n], g.regs[src], items, norm))
  {
    if items != [] {
      var n, sid := |items| - 1, g.regs[src];
      var front, item := items[..n], items[n];
      var g1 := ResolveItems(g, src, front, norm).value;
      var h := ResolveItem(g1, src, item, norm).value;
      ItemsGrow(g, src, front, norm);
      ItemGrows(g1, src, item, norm);
      ItemsInventNothing(g, src, front, norm);
      ItemInventsNothing(g1, src, item, norm);
      forall e | e in h.edges && e !in g.edges
        ensures MadeBySome(h, src, sid, items, norm, e)
      {
        if e in g1.edges {
          MadeBySomeMonotone(g1, h, src, sid, items, norm, e);
        } else {
          assert items[n] == item;
        }
      }
      forall m | m in h.regs && m !in g.regs
        ensures NamedBySome(h.regs[m], sid, items, norm)
      {
        if m in g1.regs {
          NamedBySomeMonotone(g1.regs[m], sid, items, norm);
        } else {
          assert items[n] == item;
        }
      }
    }
  }

  // ---- what a call writes, said of its inputs ----------------------------

  /** The regulation with this source id stands at the other end of the edge, seen from src. */
  predicate Joins(g: Graph, src: Node, sid: string, e: Edge) {
    || (e.src == src && e.tgt in g.regs && g.regs[e.tgt] == sid)
    || (e.tgt == src && e.src in g.regs && g.regs[e.src] == sid)
  }

  /** A citation in the text names another regulation. */
  predicate Cites(g: Graph, src: Node, mentions: seq<string>, norm: string -> string, m: string)
    requires src in g.regs
  {
    m in mentions && norm(m) != g.regs[src]
  }

  predicate Relates(g: Graph, src: Node, relations: seq<ApiRelation>, norm: string -> string, r: ApiRelation)
    requires src in g.regs
  {
    r in relations && norm(r.target) != "" && norm(r.target) != g.regs[src]
  }

  ghost predicate Succeeds(g: Graph, src: Node, mentions: seq<string>, relations: seq<ApiRelation>,
                           norm: string -> string) {
    src in g.regs && ResolveItems(g, src, ItemsOf(mentions, relations), norm).Ok?
  }

  lemma SettledIndex(g: Graph, src: Node, mentions: seq<string>, relations: seq<ApiRelation>,
                     norm: string -> string, item: Item)
    requires Keyed(g) && Succeeds(g, src, mentions, relations, norm) && item in ItemsOf(mentions, relations)
    ensures var h := Resolve(g, src, mentions, relations, norm);
            Keyed(h) && Grows(g, h) && Settled(h, src, item, norm)
  {
    var items := ItemsOf(mentions, relations);
    var i :| 0 <= i < |items| && items[i] == item;
    ItemsGrow(g, src, items, norm);
    ItemsSettle(g, src, items, norm, i);
  }

  lemma MentionIsItem(mentions: seq<string>, relations: seq<ApiRelation>, m: string)
    requires m in mentions
    ensures Mention(m) in ItemsOf(mentions, relations)
  {
    var i :| 0 <= i < |mentions| && mentions[i] == m;
    assert ItemsOf(mentions, relations)[i] == Mention(m);
  }

  lemma RelationIsItem(mentions: seq<string>, relations: seq<ApiRelation>, r: ApiRelation)
    requires r in relations
    ensures Api(r) in ItemsOf(mentions, relations)
  {
    var i :| 0 <= i < |relations| && relations[i] == r;
    assert ItemsOf(mentions, relations)[|mentions| + i] == Api(r);
  }

  /** Every citation of another regulation is recorded as a reference, both ways. */
  lemma MentionsRecorded(g: Graph, src: Node, mentions: seq<string>, relations: seq<ApiRelation>,
                         norm: string -> string, m: string)
    requires Keyed(g) && Succeeds(g, src, mentions, relations, norm) && Cites(g, src, mentions, norm, m)
    ensures var h := Resolve(g, src, mentions, relations, norm);
            exists n :: n in h.regs && h.regs[n] == norm(m)
                        && Edge(src, n, References) in h.edges && Edge(n, src, References) in h.edges
  {
    var h := Resolve(g, src, mentions, relations, norm);
    MentionIsItem(mentions, relations, m);
    SettledIndex(g, src, mentions, relations, norm, Mention(m));
    var (h1, n) := Stub(h, norm(m));
    StubIsKnown(h, norm(m));
    FirstWriterWins(h.edges, WriteOf(src, n, Mention(m)), Edge(src, n, References));
    FirstWriterWins(h.edges, WriteOf(src, n, Mention(m)), Edge(n, src, References));
  }

  /** Every API relation to another regulation is recorded under its type, unless that would close a guarded loop. */
  lemma RelationsRecorded(g: Graph, src: Node, mentions: seq<string>, relations: seq<ApiRelation>,
                          norm: string -> string, r: ApiRelation)
    requires Keyed(g) && Succeeds(g, src, mentions, relations, norm) && Relates(g, src, relations, norm, r)
    ensures var h := Resolve(g, src, mentions, relations, norm);
            exists n :: n in h.regs && h.regs[n] == norm(r.target)
                        && (Edge(src, n, r.rel) in h.edges
                            || ((r.rel == Amends || r.rel == Supersedes)
                                && Reach(ArcsOf(h.edges.Keys, {r.rel}), n, src)))
  {
    var h := Resolve(g, src, mentions, relations, norm);
    RelationIsItem(mentions, relations, r);
    SettledIndex(g, src, mentions, relations, norm, Api(r));
    var (h1, n) := Stub(h, norm(r.target));
    StubIsKnown(h, norm(r.target));
    var w := WriteOf(src, n, Api(r));
    if !Skipped(h.edges, w.edge) {
      FirstWriterWins(h.edges, w, Edge(src, n, r.rel));
    }
  }

  /** The new edge is a reference written for this citation. */
  predicate CitationEdge(h: Graph, src: Node, norm: string -> string, m: string, e: Edge) {
    && e in h.edges && e.rel == References && Joins(h, src, norm(m), e)
    && h.edges[e] == Payload(m, 0.5, TextExtracted)
  }

  /** The new edge was written for this relation: under its type, or back under the inverse type. */
  predicate RelationEdge(h: Graph, src: Node, norm: string -> string, r: ApiRelation, e: Edge) {
    && e in h.edges && Joins(h, src, norm(r.target), e)
    && ((e.rel == r.rel && e.src == src) || (e.rel == Inverse(r.rel) && e.tgt == src))
    && h.edges[e] == Payload("api", r.confidence, ApiSourced)
  }

  /** A new edge comes from a citation or a relation of the call; only relations bring types other than references. */
  lemma NewEdgesExplained(g: Graph, src: Node, mentions: seq<string>, relations: seq<ApiRelation>,
                          norm: string -> string, e: Edge)
    requires Keyed(g) && Succeeds(g, src, mentions, relations, norm)
    requires e in Resolve(g, src, mentions, relations, norm).edges && e !in g.edges
    ensures var h := Resolve(g, src, mentions, relations, norm);
            || (exists m | Cites(g, src, mentions, norm, m) :: CitationEdge(h, src, norm, m, e))
            || (exists r | Relates(g, src, relations, norm, r) :: RelationEdge(h, src, norm, r, e))
  {
    var items, h := ItemsOf(mentions, relations), Resolve(g, src, mentions, relations, norm);
    ItemsInventNothing(g, src, items, norm);
    var i :| 0 <= i < |items| && !PassedOver(g.regs[src], items[i], norm) && Made(h, src, items[i], norm, e);
    if items[i].Mention? {
      MadeByMention(h, src, items[i].text, norm, e);
      assert Cites(g, src, mentions, norm, items[i].text);
    } else {
      MadeByRelation(h, src, items[i].relation, norm, e);
      assert Relates(g, src, relations, norm, items[i].relation);
    }
  }

  lemma MadeByMention(h: Graph, src: Node, m: string, norm: string -> string, e: Edge)
    requires Made(h, src, Mention(m), norm, e)
    ensures CitationEdge(h, src, norm, m, e)
  {
  }

  lemma MadeByRelation(h: Graph, src: Node, r: ApiRelation, norm: string -> string, e: Edge)
    requires Made(h, src, Api(r), norm, e)
    ensures RelationEdge(h, src, norm, r, e)
  {
  }

  /** The first citation of a regulation not yet referred to gives the edge its text; no relation can. */
  lemma FirstMentionWins(g: Graph, src: Node, mentions: seq<string>, relations: seq<ApiRelation>,
                         norm: string -> string, k: nat)
    requires WellKept(g) && Succeeds(g, src, mentions, relations, norm)
    requires k < |mentions| && norm(mentions[k]) != g.regs[src]
    requires forall j | 0 <= j < k :: norm(mentions[j]) != norm(mentions[k])
    ensures var h := Resolve(g, src, mentions, relations, norm);
            exists n :: n in h.regs && h.regs[n] == norm(mentions[k]) && Edge(src, n, References) in h.edges
                        && (Edge(src, n, References) !in g.edges ==>
                              h.edges[Edge(src, n, References)] == Payload(mentions[k], 0.5, TextExtracted))
  {
    var items, m := ItemsOf(mentions, relations), mentions[k];
    var before := ItemsOf(mentions[..k], []);
    assert items == before + [Mention(m)] + items[k + 1..];
    ItemsInTwo(g, src, before + [Mention(m)], items[k + 1..], norm);
    assert (before + [Mention(m)])[..k] == before;
    var g1 := ResolveItems(g, src, before, norm).value;
    var g2 := ResolveItem(g1, src, Mention(m), norm).value;
    ItemsGrow(g, src, before, norm);
    ItemsKeepOrder(g, src, before, norm);
    ItemGrows(g1, src, Mention(m), norm);
    var n := MentionWrites(g1, src, m, norm);
    var e := Edge(src, n, References);
    if e !in g.edges && e in g1.edges {
      NewEdgesExplained(g, src, mentions[..k], [], norm, e);
    }
    ItemsGrow(g2, src, items[k + 1..], norm);
  }

  lemma MentionWrites(g: Graph, src: Node, m: string, norm: string -> string) returns (n: Node)
    requires WellKept(g) && src in g.regs && norm(m) != g.regs[src] && ResolveItem(g, src, Mention(m), norm).Ok?
    ensures var h := ResolveItem(g, src, Mention(m), norm).value;
            && n in h.regs && h.regs[n] == norm(m) && Edge(src, n, References) in h.edges
            && (Edge(src, n, References) !in g.edges ==>
                  h.edges[Edge(src, n, References)] == Payload(m, 0.5, TextExtracted))
  {
    var (g1, tgt) := Stub(g, norm(m));
    n := tgt;
    StubIsKnown(g, norm(m));
    FirstWriterWins(g1.edges, WriteOf(src, n, Mention(m)), Edge(src, n, References));
  }

  /** A call whose relations all have a confidence within [0, 1] goes through. */
  lemma {:induction false} UnitConfidencesSuffice(g: Graph, src: Node, items: seq<Item>, norm: string -> string)
    requires Keyed(g) && src in g.regs
    requires forall i | 0 <= i < |items| && items[i].Api? :: 0.0 <= items[i].relation.confidence <= 1.0
    ensures ResolveItems(g, src, items, norm).Ok?
  {
    if items != [] {
      var n := |items| - 1;
      assert forall i | 0 <= i < n :: items[..n][i] == items[i];
      UnitConfidencesSuffice(g, src, items[..n], norm);
      ItemsGrow(g, src, items[..n], norm);
      UnitConfidenceSuffices(ResolveItems(g, src, items[..n], norm).value, src, items[n], norm);
    }
  }

  lemma UnitConfidenceSuffices(g: Graph, src: Node, item: Item, norm: string -> string)
    requires Keyed(g) && src in g.regs && (item.Api? ==> 0.0 <= item.relation.confidence <= 1.0)
    ensures ResolveItem(g, src, item, norm).Ok?
  {
    if !PassedOver(g.regs[src], item, norm) {
      var (h, tgt) := Stub(g, TargetOf(item, norm));
      StubIsKnown(g, TargetOf(item, norm));
      assert h.regs[tgt] != h.regs[src];
    }
  }

  /** A single relation outside [0, 1] that would be written is rejected, and the call leaves no trace. */
  lemma BadConfidenceRejected(g: Graph, src: Node, r: ApiRelation, norm: string -> string)
    requires src in g.regs && norm(r.target) != "" && norm(r.target) != g.regs[src]
    requires r.confidence < 0.0 || r.confidence > 1.0
    requires r.rel != Amends && r.rel != Supersedes
    ensures Resolve(g, src, [], [r], norm) == g
  {
    var items := ItemsOf([], [r]);
    assert items == [Api(r)] && items[..0] == [];
    assert ResolveItems(g, src, items, norm) == ResolveItem(g, src, Api(r), norm);
  }

  // ---- runs -------------------------------------------------------------

  /** What happens to the graph: a regulation is ingested, or one is resolved. */
  datatype Event =
    | Ingested(sid: string)
    | Resolved(src: Node, mentions: seq<string>, relations: seq<ApiRelation>)

  const EMPTY: Graph := Graph(map[], 0, map[])

  ghost function Happen(g: Graph, e: Event, norm: string -> string): Graph {
    match e
    case Ingested(sid) => Stub(g, sid).0
    case Resolved(src, mentions, relations) => Resolve(g, src, mentions, relations, norm)
  }

  ghost function History(es: seq<Event>, norm: string -> string): Graph {
    if es == [] then EMPTY else Happen(History(es[..|es| - 1], norm), es[|es| - 1], norm)
  }

  lemma WriteKeepsOrder(g: Graph, w: Write)
    requires WellKept(g) && w.edge.src in g.regs && w.edge.tgt in g.regs && Apply(g.edges, w).Ok?
    ensures WellKept(g.(edges := Apply(g.edges, w).value))
  {
    StepKeepsTwins(g.edges, w);
    if !Skipped(g.edges, w.edge) {
      forall e | e in Apply(g.edges, w).value
        ensures e.src in g.regs && e.tgt in g.regs
      {
        FirstWriterWins(g.edges, w, e);
      }
    }
  }

  lemma ItemKeepsOrder(g: Graph, src: Node, item: Item, norm: string -> string)
    requires WellKept(g) && src in g.regs && ResolveItem(g, src, item, norm).Ok?
    ensures WellKept(ResolveItem(g, src, item, norm).value)
  {
    if !PassedOver(g.regs[src], item, norm) {
      var (g1, tgt) := Stub(g, TargetOf(item, norm));
      StubIsKnown(g, TargetOf(item, norm));
      assert WellKept(g1);
      WriteKeepsOrder(g1, WriteOf(src, tgt, item));
    }
  }

  lemma {:induction false} ItemsKeepOrder(g: Graph, src: Node, items: seq<Item>, norm: string -> string)
    requires WellKept(g) && src in g.regs && ResolveItems(g, src, items, norm).Ok?
    ensures WellKept(ResolveItems(g, src, items, norm).value)
  {
    if items != [] {
      var n := |items| - 1;
      ItemsKeepOrder(g, src, items[..n], norm);
      ItemKeepsOrder(ResolveItems(g, src, items[..n], norm).value, src, items[n], norm);
    }
  }

  /** Over all runs every edge has its twin with the same reference, confidence and source. */
  lemma {:induction false} HistoryKeepsTwins(es: seq<Event>, norm: string -> string)
    ensures WellKept(History(es, norm))
  {
    if es != [] {
      var n := |es| - 1;
      var g := History(es[..n], norm);
      HistoryKeepsTwins(es[..n], norm);
      match es[n] {
        case Ingested(sid) => StubIsKnown(g, sid);
        case Resolved(src, mentions, relations) =>
          if src in g.regs && ResolveItems(g, src, ItemsOf(mentions, relations), norm).Ok? {
            ItemsKeepOrder(g, src, ItemsOf(mentions, relations), norm);
          }
      }
    }
  }

  /** In every graph the resolver can reach, an amendment chain is a connected component. */
  lemma HistoryChainIsComponent(es: seq<Event>, norm: string -> string, x: Node, y: Node)
    ensures var edges := History(es, norm).edges.Keys;
            RelationWalk.Member(edges, x, y) <==> RelationWalk.Connected(edges, x, y)
  {
    HistoryKeepsTwins(es, norm);
    RelationWalk.ChainIsComponent(History(es, norm).edges.Keys, x, y);
  }

  predicate InverseType(r: RelationType) {
    r == AmendedBy || r == SupersededBy
  }

  /** Writing this item would close a loop that the guard does not look for. */
  ghost predicate ItemCloses(g: Graph, src: Node, item: Item, norm: string -> string) {
    && src in g.regs && !PassedOver(g.regs[src], item, norm)
    && var (g1, tgt) := Stub(g, TargetOf(item, norm));
       Closes(g1.edges, WriteOf(src, tgt, item))
  }

  /** Item i closes a loop when its turn comes. */
  ghost predicate ClosesAt(g: Graph, src: Node, items: seq<Item>, i: nat, norm: string -> string)
    requires src in g.regs && i < |items|
  {
    var r := ResolveItems(g, src, items[..i], norm);
    r.Ok? && ItemCloses(r.value, src, items[i], norm)
  }

  ghost predicate ItemsClose(g: Graph, src: Node, items: seq<Item>, norm: string -> string)
    requires src in g.regs
  {
    exists i | 0 <= i < |items| :: ClosesAt(g, src, items, i, norm)
  }

  lemma ItemAcyclicExactly(g: Graph, src: Node, item: Item, norm: string -> string)
    requires WellKept(g) && ChainAcyclic(g.edges) && src in g.regs && ResolveItem(g, src, item, norm).Ok?
    ensures ChainAcyclic(ResolveItem(g, src, item, norm).value.edges) <==> !ItemCloses(g, src, item, norm)
  {
    if !PassedOver(g.regs[src], item, norm) {
      var (g1, tgt) := Stub(g, TargetOf(item, norm));
      StepAcyclicExactly(g1.edges, WriteOf(src, tgt, item));
    }
  }

  lemma ClosesAtSnoc(g: Graph, src: Node, items: seq<Item>, i: nat, norm: string -> string)
    requires src in g.regs && i < |items| - 1
    ensures ClosesAt(g, src, items[..|items| - 1], i, norm) <==> ClosesAt(g, src, items, i, norm)
  {
    assert items[..|items| - 1][..i] == items[..i];
  }

  lemma ItemsCloseSnoc(g: Graph, src: Node, items: seq<Item>, norm: string -> string)
    requires src in g.regs && items != []
    ensures var n := |items| - 1;
            ItemsClose(g, src, items, norm) <==>
              ItemsClose(g, src, items[..n], norm) || ClosesAt(g, src, items, n, norm)
  {
    forall i | 0 <= i < |items| - 1 {
      ClosesAtSnoc(g, src, items, i, norm);
    }
    var front := items[..|items| - 1];
    if i :| 0 <= i < |front| && ClosesAt(g, src, front, i, norm) {
      assert ClosesAt(g, src, items, i, norm);
    }
  }

  /** A call that goes through keeps the chain graphs acyclic exactly when none of its items closes a loop. */
  lemma {:induction false} ItemsAcyclicExactly(g: Graph, src: Node, items: seq<Item>, norm: string -> string)
    requires WellKept(g) && ChainAcyclic(g.edges) && src in g.regs && ResolveItems(g, src, items, norm).Ok?
    ensures ChainAcyclic(ResolveItems(g, src, items, norm).value.edges) <==> !ItemsClose(g, src, items, norm)
  {
    if items != [] {
      var n := |items| - 1;
      var h := ResolveItems(g, src, items[..n], norm).value;
      ItemsAcyclicExactly(g, src, items[..n], norm);
      ItemsKeepOrder(g, src, items[..n], norm);
      ItemsCloseSnoc(g, src, items, norm);
      if ChainAcyclic(h.edges) {
        ItemAcyclicExactly(h, src, items[n], norm);
      } else {
        ItemGrows(h, src, items[n], norm);
        CyclesStay(h.edges, ResolveItems(g, src, items, norm).value.edges);
      }
    }
  }

  /** An event closes a loop when it is a call that goes through and one of its items does. */
  ghost predicate EventCloses(g: Graph, e: Event, norm: string -> string) {
    && e.Resolved? && e.src in g.regs
    && ResolveItems(g, e.src, ItemsOf(e.mentions, e.relations), norm).Ok?
    && ItemsClose(g, e.src, ItemsOf(e.mentions, e.relations), norm)
  }

  lemma EventAcyclicExactly(g: Graph, e: Event, norm: string -> string)
    requires WellKept(g) && ChainAcyclic(g.edges)
    ensures ChainAcyclic(Happen(g, e, norm).edges) <==> !EventCloses(g, e, norm)
  {
    if e.Resolved? && e.src in g.regs && ResolveItems(g, e.src, ItemsOf(e.mentions, e.relations), norm).Ok? {
      ItemsAcyclicExactly(g, e.src, ItemsOf(e.mentions, e.relations), norm);
    }
  }

  lemma EventGrows(g: Graph, e: Event, norm: string -> string)
    requires Keyed(g)
    ensures Within(g.edges, Happen(g, e, norm).edges)
  {
    if e.Resolved? && e.src in g.regs && ResolveItems(g, e.src, ItemsOf(e.mentions, e.relations), norm).Ok? {
      ItemsGrow(g, e.src, ItemsOf(e.mentions, e.relations), norm);
    }
  }

  ghost predicate ClosesWhen(es: seq<Event>, k: nat, norm: string -> string)
    requires k < |es|
  {
    EventCloses(History(es[..k], norm), es[k], norm)
  }

  /** No event of the history closes a loop when it happens. */
  ghost predicate NeverCloses(es: seq<Event>, norm: string -> string) {
    forall k | 0 <= k < |es| :: !ClosesWhen(es, k, norm)
  }

  lemma ClosesWhenSnoc(es: seq<Event>, k: nat, norm: string -> string)
    requires k < |es| - 1
    ensures ClosesWhen(es[..|es| - 1], k, norm) <==> ClosesWhen(es, k, norm)
  {
    assert es[..|es| - 1][..k] == es[..k];
  }

  lemma NeverClosesSnoc(es: seq<Event>, norm: string -> string)
    requires es != []
    ensures var n := |es| - 1;
            NeverCloses(es, norm) <==> NeverCloses(es[..n], norm) && !ClosesWhen(es, n, norm)
  {
    var front := es[..|es| - 1];
    forall k | 0 <= k < |front|
      ensures ClosesWhen(front, k, norm) <==> ClosesWhen(es, k, norm)
    {
      ClosesWhenSnoc(es, k, norm);
    }
  }

  /** A history ends acyclic exactly when no event in it closed a loop when it happened. */
  lemma {:induction false} HistoryAcyclicExactly(es: seq<Event>, norm: string -> string)
    ensures ChainAcyclic(History(es, norm).edges) <==> NeverCloses(es, norm)
  {
    if es == [] {
      EmptyTableAcyclic();
    } else {
      var n := |es| - 1;
      var g := History(es[..n], norm);
      HistoryAcyclicExactly(es[..n], norm);
      HistoryKeepsTwins(es[..n], norm);
      NeverClosesSnoc(es, norm);
      if ChainAcyclic(g.edges) {
        EventAcyclicExactly(g, es[n], norm);
      } else {
        EventGrows(g, es[n], norm);
        CyclesStay(g.edges, History(es, norm).edges);
      }
    }
  }

  lemma OrdinaryNeverCloses(g: Graph, src: Node, mentions: seq<string>, relations: seq<ApiRelation>,
                            norm: string -> string)
    requires src in g.regs && forall r | r in relations :: !InverseType(r.rel)
    ensures !ItemsClose(g, src, ItemsOf(mentions, relations), norm)
  {
    var items := ItemsOf(mentions, relations);
    forall i | 0 <= i < |items|
      ensures items[i].Api? ==> !InverseType(items[i].relation.rel)
    {
      if items[i].Api? {
        assert items[i].relation in relations;
      }
    }
  }

  /** Runs in which no API relation has an inverse type keep all four chain graphs acyclic. */
  lemma HistoryAcyclic(es: seq<Event>, norm: string -> string)
    requires forall e | e in es && e.Resolved? :: forall r | r in e.relations :: !InverseType(r.rel)
    ensures ChainAcyclic(History(es, norm).edges)
  {
    forall k | 0 <= k < |es|
      ensures !ClosesWhen(es, k, norm)
    {
      var g := History(es[..k], norm);
      assert es[k] in es;
      if es[k].Resolved? && es[k].src in g.regs {
        OrdinaryNeverCloses(g, es[k].src, es[k].mentions, es[k].relations, norm);
      }
    }
    HistoryAcyclicExactly(es, norm);
  }

  lemma AmendsNew(g: Graph, src: Node, target: string, p: real, norm: string -> string) returns (h: Graph)
    requires WellKept(g) && src in g.regs && IdOf(g.regs, norm(target)) == None && norm(target) != ""
    requires 0.0 <= p <= 1.0
    ensures ResolveItem(g, src, Api(ApiRelation(target, Amends, p)), norm) == Ok(h)
    ensures Keyed(h) && h.regs == g.regs[g.next := norm(target)] && g.next != src
    ensures Edge(src, g.next, Amends) in h.edges
  {
    var g1 := Stub(g, norm(target)).0;
    var w := WriteOf(src, g.next, Api(ApiRelation(target, Amends, p)));
    NewIsUnreached(g, src);
    StubIsKnown(g, norm(target));
    FirstWriterWins(g1.edges, w, w.edge);
    h := g1.(edges := Apply(g1.edges, w).value);
  }

  lemma AmendedByKnown(g: Graph, src: Node, tgt: Node, target: string, q: real, norm: string -> string)
    returns (h: Graph)
    requires Keyed(g) && src in g.regs && tgt in g.regs && src != tgt && g.regs[tgt] == norm(target) != ""
    requires 0.0 <= q <= 1.0
    ensures ResolveItem(g, src, Api(ApiRelation(target, AmendedBy, q)), norm) == Ok(h)
    ensures Within(g.edges, h.edges) && Edge(tgt, src, Amends) in h.edges
  {
    var v := WriteOf(src, tgt, Api(ApiRelation(target, AmendedBy, q)));
    IdOfKnown(g, tgt);
    FirstWriterWins(g.edges, v, Twin(v.edge));
    WriteGrows(g.edges, v);
    h := g.(edges := Apply(g.edges, v).value);
  }

  /** One call is enough: a new regulation said both to be amended and to amend ends up amending in a circle. */
  lemma OneCallMakesCycle(g: Graph, src: Node, target: string, p: real, q: real, norm: string -> string)
    requires WellKept(g) && src in g.regs && IdOf(g.regs, norm(target)) == None && norm(target) != ""
    requires 0.0 <= p <= 1.0 && 0.0 <= q <= 1.0
    ensures var relations := [ApiRelation(target, Amends, p), ApiRelation(target, AmendedBy, q)];
            Reach(ArcsOf(Resolve(g, src, [], relations, norm).edges.Keys, {Amends}), src, src)
  {
    var first, second := Api(ApiRelation(target, Amends, p)), Api(ApiRelation(target, AmendedBy, q));
    assert ItemsOf([], [first.relation, second.relation]) == [first, second];
    var h := AmendsNew(g, src, target, p, norm);
    var h2 := AmendedByKnown(h, src, g.next, target, q, norm);
    ResolveTwo(g, src, first, h, second, norm);
    assert Edge(src, g.next, Amends) in h2.edges;
    assert Leads(ArcsOf(h2.edges.Keys, {Amends}), [src, g.next, src], src, src);
  }

  lemma ResolveTwo(g: Graph, src: Node, first: Item, h: Graph, second: Item, norm: string -> string)
    requires src in g.regs && src in h.regs && ResolveItem(g, src, first, norm) == Ok(h)
    ensures ResolveItems(g, src, [first, second], norm) == ResolveItem(h, src, second, norm)
  {
    assert [first, second][..1] == [first] && [first][..0] == [];
    assert ResolveItems(g, src, [first], norm) == Ok(h);
  }

  lemma NewIsUnreached(g: Graph, b: Node)
    requires WellKept(g)
    ensures !Reach(ArcsOf(g.edges.Keys, {Amends}), g.next, b)
  {
    var arcs := ArcsOf(g.edges.Keys, {Amends});
    assert forall a | a in arcs :: a.0 < g.next;
    if Reach(arcs, g.next, b) {
      var _ := FirstArc(arcs, g.next, b);
    }
  }

  // ---- the store --------------------------------------------------------

  class RelationStore {
    var regs: map<Node, string>
    var next: Node
    var edges: Table

    ghost function State(): Graph
      reads this
    {
      Graph(regs, next, edges)
    }

    constructor ()
      ensures State() == EMPTY
    {
      regs, next, edges := map[], 0, map[];
    }

    method GetOrCreateStub(sid: string) returns (id: Node)
      requires Keyed(State())
      modifies this`regs, this`next
      ensures (State(), id) == Stub(old(State()), sid)
    {
      if exists n | n in regs :: regs[n] == sid {
        id :| id in regs && regs[id] == sid;
        IdOfKnown(State(), id);
      } else {
        id := next;
        regs, next := regs[id := sid], next + 1;
      }
    }

    method InsertEdge(e: Edge, p: Payload) returns (ok: bool)
      modifies this`edges
      ensures ok == Insert(old(edges), e, p).Ok?
      ensures edges == if ok then Insert(old(edges), e, p).value else old(edges)
    {
      ok := Accepts(e, p);
      if ok && e !in edges {
        edges := edges[e := p];
      }
    }

    method WriteEdge(w: Write) returns (ok: bool)
      modifies this`edges
      ensures ok == Apply(old(edges), w).Ok?
      ensures ok ==> edges == Apply(old(edges), w).value
    {
      var e := w.edge;
      if Guarded(e.rel) {
        var closes := RelationWalk.PathExists(edges.Keys, e.tgt, e.src, e.rel);
        if closes {
          return true;
        }
      }
      ok := InsertEdge(e, w.payload);
      if ok {
        ok := InsertEdge(Twin(e), w.payload);
      }
    }

    /** One mention or API relation: its stub if needed, then its edge. */
    method Relate(src: Node, sid: string, item: Item, norm: string -> string) returns (ok: bool)
      requires Keyed(State()) && src in regs && regs[src] == sid
      modifies this
      ensures ok == ResolveItem(old(State()), src, item, norm).Ok?
      ensures ok ==> State() == ResolveItem(old(State()), src, item, norm).value
    {
      var target := TargetOf(item, norm);
      if target == sid || (item.Api? && target == "") {
        return true;
      }
      var tgt := GetOrCreateStub(target);
      ok := WriteEdge(WriteOf(src, tgt, item));
    }

    method RelateAll(src: Node, sid: string, items: seq<Item>, norm: string -> string) returns (ok: bool)
      requires Keyed(State()) && src in regs && regs[src] == sid
      modifies this
      ensures ok == ResolveItems(old(State()), src, items, norm).Ok?
      ensures ok ==> State() == ResolveItems(old(State()), src, items, norm).value
    {
      ok := true;
      var i := 0;
      while i < |items| && ok
        invariant 0 <= i <= |items|
        invariant if ok then ResolveItems(old(State()), src, items[..i], norm) == Ok(State())
                  else ResolveItems(old(State()), src, items, norm).Err?
      {
        Advance(old(State()), src, items, i, norm);
        ok := Relate(src, sid, items[i], norm);
        i := i + 1;
      }
      assert items[..|items|] == items;
    }

    /** Mentions first, then API relations; any rejected write undoes the whole call. */
    method ResolveRelationships(src: Node, mentions: seq<string>, relations: seq<ApiRelation>, norm: string -> string)
      requires Keyed(State())
      modifies this
      ensures State() == Resolve(old(State()), src, mentions, relations, norm)
    {
      if src !in regs {
        return;
      }
      var regs0, next0, edges0 := regs, next, edges;
      var cited, typed := MentionItems(mentions), RelationItems(relations);
      var ok := RelateAll(src, regs[src], cited, norm);
      ItemsInTwo(old(State()), src, cited, typed, norm);
      if ok {
        ItemsGrow(old(State()), src, cited, norm);
        ok := RelateAll(src, regs[src], typed, norm);
      }
      if !ok {
        regs, next, edges := regs0, next0, edges0;
      }
    }

    /** The note shown for a superseded regulation names one that supersedes it. */
    method RelationshipNote(reg: Node) returns (note: Option<string>)
      requires WellKept(State())
      ensures note.Some? <==> exists y :: Edge(y, reg, Supersedes) in edges
      ensures note.Some? ==> exists y :: Edge(y, reg, Supersedes) in edges && y in regs
                                         && note.value == "superseded by " + regs[y]
    {
      SupersededTwins(edges, reg);
      if y :| y in regs && Edge(reg, y, SupersededBy) in edges {
        note := Some("superseded by " + regs[y]);
      } else {
        note := None;
      }
    }
  }

  lemma SupersededTwins(t: Table, reg: Node)
    requires TwinClosed(t)
    ensures forall y :: Edge(y, reg, Supersedes) in t <==> Edge(reg, y, SupersededBy) in t
  {
    forall y
      ensures Edge(y, reg, Supersedes) in t <==> Edge(reg, y, SupersededBy) in t
    {
      assert Twin(Edge(y, reg, Supersedes)) == Edge(reg, y, SupersededBy);
      assert Twin(Edge(reg, y, SupersededBy)) == Edge(y, reg, Supersedes);
    }
  }

  lemma {:induction false} ItemsInTwo(g: Graph, src: Node, xs: seq<Item>, ys: seq<Item>, norm: string -> string)
    requires src in g.regs
    ensures var r := ResolveItems(g, src, xs, norm);
            ResolveItems(g, src, xs + ys, norm) == if r.Err? then Err else ResolveItems(r.value, src, ys, norm)
  {
    if ys == [] {
      assert xs + ys == xs;
    } else {
      var n := |ys| - 1;
      assert (xs + ys)[..|xs + ys| - 1] == xs + ys[..n];
      ItemsInTwo(g, src, xs, ys[..n], norm);
    }
  }

  /** Resolving one more item, as the loop of the store takes it. */
  lemma Advance(g: Graph, src: Node, items: seq<Item>, k: nat, norm: string -> string)
    requires Keyed(g) && src in g.regs && k < |items| && ResolveItems(g, src, items[..k], norm).Ok?
    ensures var h := ResolveItems(g, src, items[..k], norm).value;
            && Keyed(h) && src in h.regs && h.regs[src] == g.regs[src]
            && ResolveItems(g, src, items[..k + 1], norm) == ResolveItem(h, src, items[k], norm)
    ensures ResolveItems(g, src, items[..k + 1], norm).Err? ==> ResolveItems(g, src, items, norm).Err?
  {
    ItemsGrow(g, src, items[..k], norm);
    assert items[..k + 1][..k] == items[..k];
    if ResolveItems(g, src, items[..k + 1], norm).Err? {
      RejectionStands(g, src, items, k + 1, norm);
    }
  }

  lemma {:induction false} RejectionStands(g: Graph, src: Node, items: seq<Item>, k: nat, norm: string -> string)
    requires src in g.regs && k <= |items| && ResolveItems(g, src, items[..k], norm).Err?
    ensures ResolveItems(g, src, items, norm).Err?
  {
    if k == |items| {
      assert items[..k] == items;
    } else {
      assert items[..|items| - 1][..k] == items[..k];
      RejectionStands(g, src, items[..|items| - 1], k, norm);
    }
  }
}
