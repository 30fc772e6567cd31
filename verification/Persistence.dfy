/** Writing a validated record (pipeline.py): the regulation row, and its derived rows replaced as a whole. */
module Persistence {
  import opened Options
  import opened Conditions
  import opened ValidationAgent
  import opened Review
  import Decimal

  datatype Regulation = Regulation(
    sourceId: string,
    createdBy: string,
    jurisdiction: string,
    title: Option<string>,
    summary: Option<string>,
    documentType: Option<string>,
    filePath: Option<string>,
    ingested: bool,
    published: Option<string>,
    inForce: Option<string>,
    journal: Option<string>
  )

  datatype FieldRow = FieldRow(reg: RegId, field: MappedField, status: ReviewStatus)

  datatype ConditionRow = ConditionRow(reg: RegId, condition: Condition, status: ReviewStatus)

  /** What enrichment found; finding nothing at all reads as skipped. */
  datatype Fetched = Fetched(skipped: bool, published: Option<string>, inForce: Option<string>, journal: Option<string>)

  /** One document to persist: what validation made of it and what else is known. */
  datatype Document = Document(
    sourceId: string,
    record: Record,
    flags: seq<Flag>,
    summary: Option<string>,
    title: Option<string>,
    documentType: Option<string>,
    filePath: Option<string>,
    fetched: Fetched
  )

  datatype Tables = Tables(
    regs: map<RegId, Regulation>,
    next: RegId,
    fields: seq<FieldRow>,
    conditions: seq<ConditionRow>
  )

  // ---- reading flags back ----------------------------------------------

  function DigitsPrefix(s: string): nat {
    if s != "" && Decimal.IsDigit(s[0]) then 1 + DigitsPrefix(s[1..]) else 0
  }

  /** The index a flag names: the pattern applicability_condition[digits] at the start of the target. */
  function ParseTarget(target: string): Option<nat> {
    var p := "applicability_condition[";
    if !(p <= target) then None
    else
      var rest := target[|p|..];
      var d := DigitsPrefix(rest);
      if 0 < d < |rest| && rest[d] == ']' then Decimal.Parse(rest[..d]) else None
  }

  lemma {:induction false} DigitsPrefixOf(s: string, tail: string)
    requires forall i | 0 <= i < |s| :: Decimal.IsDigit(s[i])
    requires tail != "" && !Decimal.IsDigit(tail[0])
    ensures DigitsPrefix(s + tail) == |s|
  {
    if s == "" {
      assert s + tail == tail;
    } else {
      assert (s + tail)[1..] == s[1..] + tail;
      DigitsPrefixOf(s[1..], tail);
    }
  }

  /** The index written into a flag is read back. */
  lemma TargetRoundTrip(i: nat)
    ensures ParseTarget(ConditionTarget(i)) == Some(i)
  {
    var p, n := "applicability_condition[", Decimal.Print(i);
    Decimal.ParsePrint(i);
    assert ConditionTarget(i) == p + (n + "]");
    assert ConditionTarget(i)[|p|..] == n + "]";
    forall k | 0 <= k < |n|
      ensures Decimal.IsDigit(n[k])
    {
      assert n[k] in n;
    }
    DigitsPrefixOf(n, "]");
    assert (n + "]")[..|n|] == n;
  }

  /** Field names that flags mention, and condition indices that flags mention. */
  function FlaggedFields(flags: seq<Flag>): set<string> {
    set x | x in flags && ParseTarget(x.target).None? :: x.target
  }

  function FlaggedConditions(flags: seq<Flag>): set<nat> {
    set x | x in flags && ParseTarget(x.target).Some? :: ParseTarget(x.target).value
  }

  // ---- the rows ---------------------------------------------------------

  function StatusOf(pending: bool): ReviewStatus {
    if pending then Pending else AutoApproved
  }

  function FieldPending(f: MappedField, flags: seq<Flag>, threshold: real): bool {
    f.name in FlaggedFields(flags) || f.confidence < threshold
  }

  function ConditionPending(c: Condition, i: nat, flags: seq<Flag>, threshold: real): bool {
    i in FlaggedConditions(flags) || !c.structured || ConfidenceOf(c) < threshold
  }

  function FieldRows(reg: RegId, d: Document, threshold: real): seq<FieldRow> {
    seq(|d.record.fields|, i requires 0 <= i < |d.record.fields| =>
      FieldRow(reg, d.record.fields[i], StatusOf(FieldPending(d.record.fields[i], d.flags, threshold))))
  }

  function ConditionRows(reg: RegId, d: Document, threshold: real): seq<ConditionRow> {
    seq(|d.record.conditions|, i requires 0 <= i < |d.record.conditions| =>
      ConditionRow(reg, d.record.conditions[i],
                   StatusOf(ConditionPending(d.record.conditions[i], i, d.flags, threshold))))
  }

  /** The rows of the regulations to keep, in order. */
  function RowsOf<T>(rows: seq<T>, owner: T -> RegId, keep: RegId -> bool): seq<T> {
    if rows == [] then []
    else
      var front, x := RowsOf(rows[..|rows| - 1], owner, keep), rows[|rows| - 1];
      if keep(owner(x)) then front + [x] else front
  }

  function FieldOwner(): FieldRow -> RegId {
    (r: FieldRow) => r.reg
  }

  function ConditionOwner(): ConditionRow -> RegId {
    (r: ConditionRow) => r.reg
  }

  function Only(reg: RegId): RegId -> bool {
    (r: RegId) => r == reg
  }

  function AllBut(reg: RegId): RegId -> bool {
    (r: RegId) => r != reg
  }

  // ---- the regulation row ----------------------------------------------

  /** A nonempty new value, else the old one. */
  function Or(new_: Option<string>, old_: Option<string>): Option<string> {
    if new_.Some? && new_.value != "" then new_ else old_
  }

  const BLANK: Regulation := Regulation("", "pipeline", "", None, None, None, None, false, None, None, None)

  function Refresh(r: Regulation, d: Document): Regulation {
    var f := d.fetched;
    Regulation(
      d.sourceId,
      if r.createdBy == "resolution_engine" then "pipeline" else r.createdBy,
      d.record.jurisdiction,
      Or(d.title, r.title),
      Or(d.summary, r.summary),
      Or(d.documentType, r.documentType),
      d.filePath,
      true,
      if f.skipped then r.published else Or(f.published, r.published),
      if f.skipped then r.inForce else Or(f.inForce, r.inForce),
      if f.skipped then r.journal else Or(f.journal, r.journal))
  }

  /** Source ids are unique, and ids below `next` are taken. */
  predicate Keyed(t: Tables) {
    && (forall r | r in t.regs :: r < t.next)
    && (forall r, q | r in t.regs && q in t.regs && r != q :: t.regs[r].sourceId != t.regs[q].sourceId)
  }

  predicate Known(t: Tables, sourceId: string) {
    exists r | r in t.regs :: t.regs[r].sourceId == sourceId
  }

  ghost function IdFor(t: Tables, sourceId: string): RegId {
    if Known(t, sourceId) then
      var r :| r in t.regs && t.regs[r].sourceId == sourceId;
      r
    else t.next
  }

  ghost function Persist(t: Tables, d: Document, threshold: real): Tables {
    var id := IdFor(t, d.sourceId);
    var old_ := if id in t.regs && Known(t, d.sourceId) then t.regs[id] else BLANK;
    Tables(
      t.regs[id := Refresh(old_, d)],
      if Known(t, d.sourceId) then t.next else t.next + 1,
      RowsOf(t.fields, FieldOwner(), AllBut(id)) + FieldRows(id, d, threshold),
      RowsOf(t.conditions, ConditionOwner(), AllBut(id)) + ConditionRows(id, d, threshold))
  }

  // ---- replacement ------------------------------------------------------

  lemma {:induction false} RowsOfConcat<T>(a: seq<T>, b: seq<T>, owner: T -> RegId, keep: RegId -> bool)
    ensures RowsOf(a + b, owner, keep) == RowsOf(a, owner, keep) + RowsOf(b, owner, keep)
  {
    if b == [] {
      assert a + b == a;
    } else {
      assert (a + b)[..|a + b| - 1] == a + b[..|b| - 1];
      RowsOfConcat(a, b[..|b| - 1], owner, keep);
    }
  }

  lemma {:induction false} RowsOfUniform<T>(rows: seq<T>, owner: T -> RegId, reg: RegId, keep: RegId -> bool)
    requires forall i | 0 <= i < |rows| :: owner(rows[i]) == reg
    ensures RowsOf(rows, owner, keep) == if keep(reg) then rows else []
  {
    if rows != [] {
      RowsOfUniform(rows[..|rows| - 1], owner, reg, keep);
    }
  }

  lemma {:induction false} RowsOfRest<T>(rows: seq<T>, owner: T -> RegId, id: RegId, keep: RegId -> bool)
    ensures !keep(id) ==> RowsOf(RowsOf(rows, owner, AllBut(id)), owner, keep) == RowsOf(rows, owner, keep)
  {
    if rows != [] {
      var front, x := rows[..|rows| - 1], rows[|rows| - 1];
      RowsOfRest(front, owner, id, keep);
      if owner(x) != id {
        RowsOfConcat(RowsOf(front, owner, AllBut(id)), [x], owner, keep);
        RowsOfOne(x, owner, keep);
      }
    }
  }

  lemma RowsOfOne<T>(x: T, owner: T -> RegId, keep: RegId -> bool)
    ensures RowsOf([x], owner, keep) == if keep(owner(x)) then [x] else []
  {
    assert [x][..0] == [];
  }

  lemma {:induction false} NoneLeft<T>(rows: seq<T>, owner: T -> RegId, id: RegId)
    ensures RowsOf(RowsOf(rows, owner, AllBut(id)), owner, Only(id)) == []
  {
    if rows != [] {
      var front, x := rows[..|rows| - 1], rows[|rows| - 1];
      NoneLeft(front, owner, id);
      if owner(x) != id {
        RowsOfConcat(RowsOf(front, owner, AllBut(id)), [x], owner, Only(id));
        RowsOfOne(x, owner, Only(id));
      }
    }
  }

  /** Replacing one regulation's rows: it has the new ones, the others have their own. */
  lemma ReplaceRows<T>(rows: seq<T>, latest: seq<T>, owner: T -> RegId, id: RegId, reg: RegId)
    requires forall i | 0 <= i < |latest| :: owner(latest[i]) == id
    ensures var u := RowsOf(rows, owner, AllBut(id)) + latest;
            && RowsOf(u, owner, Only(reg)) == (if reg == id then latest else RowsOf(rows, owner, Only(reg)))
            && RowsOf(u, owner, AllBut(id)) == RowsOf(rows, owner, AllBut(id))
  {
    var rest := RowsOf(rows, owner, AllBut(id));
    RowsOfConcat(rest, latest, owner, Only(reg));
    RowsOfUniform(latest, owner, id, Only(reg));
    if reg == id {
      NoneLeft(rows, owner, id);
    } else {
      RowsOfRest(rows, owner, id, Only(reg));
    }
    RowsOfConcat(rest, latest, owner, AllBut(id));
    RowsOfUniform(latest, owner, id, AllBut(id));
    RowsOfRest(rows, owner, id, AllBut(id));
  }

  /** After ingestion the regulation has precisely the latest rows, in order; every other one keeps its own. */
  lemma PersistReplaces(t: Tables, d: Document, threshold: real, reg: RegId)
    ensures var id, u := IdFor(t, d.sourceId), Persist(t, d, threshold);
            && RowsOf(u.fields, FieldOwner(), Only(reg)) ==
                 (if reg == id then FieldRows(id, d, threshold) else RowsOf(t.fields, FieldOwner(), Only(reg)))
            && RowsOf(u.conditions, ConditionOwner(), Only(reg)) ==
                 (if reg == id then ConditionRows(id, d, threshold)
                  else RowsOf(t.conditions, ConditionOwner(), Only(reg)))
            && (reg in t.regs && reg != id ==> reg in u.regs && u.regs[reg] == t.regs[reg])
  {
    var id := IdFor(t, d.sourceId);
    ReplaceRows(t.fields, FieldRows(id, d, threshold), FieldOwner(), id, reg);
    ReplaceRows(t.conditions, ConditionRows(id, d, threshold), ConditionOwner(), id, reg);
  }

  lemma PersistKeyed(t: Tables, d: Document, threshold: real)
    requires Keyed(t)
    ensures var u := Persist(t, d, threshold);
            Keyed(u) && Known(u, d.sourceId) && IdFor(u, d.sourceId) == IdFor(t, d.sourceId)
  {
    var id, u := IdFor(t, d.sourceId), Persist(t, d, threshold);
    assert id in u.regs && u.regs[id].sourceId == d.sourceId;
    assert forall r | r in u.regs && r != id :: r in t.regs && u.regs[r] == t.regs[r];
  }

  lemma RefreshTwice(r: Regulation, d: Document)
    ensures Refresh(Refresh(r, d), d) == Refresh(r, d)
  {
  }

  /** Ingesting the same document again changes nothing at all. */
  lemma PersistIdempotent(t: Tables, d: Document, threshold: real)
    requires Keyed(t)
    ensures var u := Persist(t, d, threshold);
            Persist(u, d, threshold) == u
  {
    var id, u := IdFor(t, d.sourceId), Persist(t, d, threshold);
    PersistKeyed(t, d, threshold);
    var old_ := if id in t.regs && Known(t, d.sourceId) then t.regs[id] else BLANK;
    RefreshTwice(old_, d);
    assert u.regs[id := Refresh(u.regs[id], d)] == u.regs;
    ReplaceRows(t.fields, FieldRows(id, d, threshold), FieldOwner(), id, id);
    ReplaceRows(t.conditions, ConditionRows(id, d, threshold), ConditionOwner(), id, id);
  }

  // ---- runs of ingestion and citation -----------------------------------

  const EMPTY: Tables := Tables(map[], 0, [], [])

  /** What a citation leaves behind until the cited regulation is itself ingested. */
  function StubRow(sourceId: string): Regulation {
    Regulation(sourceId, "resolution_engine", "", None, None, None, None, false, None, None, None)
  }

  /** The relationship resolver looks a source id up and adds a stub if it is not there. */
  ghost function Cite(t: Tables, sourceId: string): Tables {
    if Known(t, sourceId) then t else t.(regs := t.regs[t.next := StubRow(sourceId)], next := t.next + 1)
  }

  /** What happens to the tables: a document is persisted, or some regulation cites a source id. */
  datatype Event = Ingested(document: Document) | Cited(sourceId: string)

  ghost function Happen(t: Tables, e: Event, threshold: real): Tables {
    match e
    case Ingested(d) => Persist(t, d, threshold)
    case Cited(sourceId) => Cite(t, sourceId)
  }

  ghost function History(es: seq<Event>, threshold: real): Tables {
    if es == [] then EMPTY else Happen(History(es[..|es| - 1], threshold), es[|es| - 1], threshold)
  }

  function Documents(es: seq<Event>): seq<Document> {
    if es == [] then []
    else
      var front, e := Documents(es[..|es| - 1]), es[|es| - 1];
      if e.Ingested? then front + [e.document] else front
  }

  function Citations(es: seq<Event>): set<string> {
    set e | e in es && e.Cited? :: e.sourceId
  }

  /** The last document with this source id. */
  function LastFor(ds: seq<Document>, sourceId: string): Option<Document> {
    if ds == [] then None
    else if ds[|ds| - 1].sourceId == sourceId then Some(ds[|ds| - 1])
    else LastFor(ds[..|ds| - 1], sourceId)
  }

  /** The last nonempty value that a document with this source id offered. */
  function Latest(ds: seq<Document>, sourceId: string, offer: Document -> Option<string>): Option<string> {
    if ds == [] then None
    else
      var d := ds[|ds| - 1];
      if d.sourceId == sourceId && offer(d).Some? && offer(d).value != "" then offer(d)
      else Latest(ds[..|ds| - 1], sourceId, offer)
  }

  function TitleOf(d: Document): Option<string> { d.title }

  function SummaryOf(d: Document): Option<string> { d.summary }

  function TypeOf(d: Document): Option<string> { d.documentType }

  function PublishedOf(d: Document): Option<string> { if d.fetched.skipped then None else d.fetched.published }

  function InForceOf(d: Document): Option<string> { if d.fetched.skipped then None else d.fetched.inForce }

  function JournalOf(d: Document): Option<string> { if d.fetched.skipped then None else d.fetched.journal }

  /** The regulation row holds the last nonempty value ever offered for each refreshed column. */
  ghost predicate UpToDate(r: Regulation, ds: seq<Document>, sourceId: string) {
    && r.sourceId == sourceId && r.ingested && r.createdBy == "pipeline"
    && r.title == Latest(ds, sourceId, TitleOf)
    && r.summary == Latest(ds, sourceId, SummaryOf)
    && r.documentType == Latest(ds, sourceId, TypeOf)
    && r.published == Latest(ds, sourceId, PublishedOf)
    && r.inForce == Latest(ds, sourceId, InForceOf)
    && r.journal == Latest(ds, sourceId, JournalOf)
  }

  ghost predicate HoldsExactly(t: Tables, id: RegId, d: Document, threshold: real) {
    && RowsOf(t.fields, FieldOwner(), Only(id)) == FieldRows(id, d, threshold)
    && RowsOf(t.conditions, ConditionOwner(), Only(id)) == ConditionRows(id, d, threshold)
    && id in t.regs && t.regs[id].jurisdiction == d.record.jurisdiction && t.regs[id].filePath == d.filePath
  }

  /** A regulation known only from citations has its stub row and nothing else. */
  ghost predicate IsStub(t: Tables, id: RegId, sourceId: string) {
    && RowsOf(t.fields, FieldOwner(), Only(id)) == [] && RowsOf(t.conditions, ConditionOwner(), Only(id)) == []
    && id in t.regs && t.regs[id] == StubRow(sourceId)
    && t.regs[id].createdBy == "resolution_engine" && !t.regs[id].ingested && t.regs[id].title == None
  }

  /** The tables tell, for one source id, the story of what happened so far. */
  ghost predicate Current(t: Tables, ds: seq<Document>, cited: set<string>, threshold: real, sourceId: string) {
    && (Known(t, sourceId) <==> LastFor(ds, sourceId).Some? || sourceId in cited)
    && (Known(t, sourceId) ==>
          var id := IdFor(t, sourceId);
          if LastFor(ds, sourceId).Some? then
            HoldsExactly(t, id, LastFor(ds, sourceId).value, threshold) && UpToDate(t.regs[id], ds, sourceId)
          else IsStub(t, id, sourceId))
  }

  /** Ids not yet taken have no rows. */
  ghost predicate NoStrays(t: Tables) {
    forall id | id >= t.next ::
      RowsOf(t.fields, FieldOwner(), Only(id)) == [] && RowsOf(t.conditions, ConditionOwner(), Only(id)) == []
  }

  lemma LatestSame(ds: seq<Document>, d: Document, sourceId: string)
    requires d.sourceId != sourceId
    ensures forall offer :: Latest(ds + [d], sourceId, offer) == Latest(ds, sourceId, offer)
    ensures LastFor(ds + [d], sourceId) == LastFor(ds, sourceId)
  {
    assert (ds + [d])[..|ds|] == ds;
  }

  lemma OtherKept(t: Tables, d: Document, threshold: real, sourceId: string)
    requires Keyed(t) && d.sourceId != sourceId
    ensures var u := Persist(t, d, threshold);
            && (Known(u, sourceId) <==> Known(t, sourceId))
            && (Known(t, sourceId) ==> IdFor(u, sourceId) == IdFor(t, sourceId)
                                       && IdFor(t, sourceId) != IdFor(t, d.sourceId))
  {
    var id, u := IdFor(t, d.sourceId), Persist(t, d, threshold);
    PersistKeyed(t, d, threshold);
    if r :| r in t.regs && t.regs[r].sourceId == sourceId {
      assert r != id && r in u.regs && u.regs[r].sourceId == sourceId;
    }
    if r :| r in u.regs && u.regs[r].sourceId == sourceId {
      assert r != id && r in t.regs && t.regs[r].sourceId == sourceId;
    }
  }

  lemma ColumnUpdates(old_: Option<string>, ds: seq<Document>, d: Document, offer: Document -> Option<string>)
    requires old_ == Latest(ds, d.sourceId, offer) || (old_ == None && LastFor(ds, d.sourceId).None?)
    ensures Or(offer(d), old_) == Latest(ds + [d], d.sourceId, offer)
  {
    assert (ds + [d])[..|ds|] == ds;
    if LastFor(ds, d.sourceId).None? {
      NothingOffered(ds, d.sourceId, offer);
    }
  }

  lemma RefreshUpdates(r: Regulation, ds: seq<Document>, d: Document)
    requires UpToDate(r, ds, d.sourceId) || (r in {BLANK, StubRow(d.sourceId)} && LastFor(ds, d.sourceId).None?)
    ensures UpToDate(Refresh(r, d), ds + [d], d.sourceId)
  {
    ColumnUpdates(r.title, ds, d, TitleOf);
    ColumnUpdates(r.summary, ds, d, SummaryOf);
    ColumnUpdates(r.documentType, ds, d, TypeOf);
    ColumnUpdates(r.published, ds, d, PublishedOf);
    ColumnUpdates(r.inForce, ds, d, InForceOf);
    ColumnUpdates(r.journal, ds, d, JournalOf);
  }

  lemma {:induction false} NothingOffered(ds: seq<Document>, sourceId: string, offer: Document -> Option<string>)
    requires LastFor(ds, sourceId).None?
    ensures Latest(ds, sourceId, offer) == None
  {
    if ds != [] {
      NothingOffered(ds[..|ds| - 1], sourceId, offer);
    }
  }

  lemma PersistKeepsCurrent(t: Tables, ds: seq<Document>, cited: set<string>, d: Document, threshold: real,
                            sourceId: string)
    requires Keyed(t) && Current(t, ds, cited, threshold, sourceId)
    ensures Current(Persist(t, d, threshold), ds + [d], cited, threshold, sourceId)
  {
    var u := Persist(t, d, threshold);
    PersistKeyed(t, d, threshold);
    assert (ds + [d])[..|ds|] == ds;
    PersistReplaces(t, d, threshold, IdFor(u, sourceId));
    if d.sourceId == sourceId {
      RefreshUpdates(if Known(t, sourceId) then t.regs[IdFor(t, sourceId)] else BLANK, ds, d);
    } else {
      LatestSame(ds, d, sourceId);
      OtherKept(t, d, threshold, sourceId);
    }
  }

  lemma PersistKeepsNoStrays(t: Tables, d: Document, threshold: real)
    requires Keyed(t) && NoStrays(t)
    ensures NoStrays(Persist(t, d, threshold))
  {
    var u := Persist(t, d, threshold);
    forall id | id >= u.next
      ensures RowsOf(u.fields, FieldOwner(), Only(id)) == [] && RowsOf(u.conditions, ConditionOwner(), Only(id)) == []
    {
      PersistReplaces(t, d, threshold, id);
    }
  }

  lemma CiteKeyed(t: Tables, sourceId: string, other: string)
    requires Keyed(t)
    ensures var u := Cite(t, sourceId);
            && Keyed(u) && (Known(u, other) <==> Known(t, other) || other == sourceId)
            && (Known(t, other) ==> IdFor(u, other) == IdFor(t, other))
            && (!Known(t, sourceId) ==> IdFor(u, sourceId) == t.next)
  {
    var u := Cite(t, sourceId);
    if !Known(t, sourceId) {
      assert t.next in u.regs && u.regs[t.next].sourceId == sourceId;
      assert forall r | r in t.regs :: r in u.regs && u.regs[r] == t.regs[r];
      if r :| r in u.regs && u.regs[r].sourceId == other {
        assert r == t.next || r in t.regs;
      }
    }
  }

  lemma CiteKeepsCurrent(t: Tables, ds: seq<Document>, cited: set<string>, sourceId: string, threshold: real,
                         other: string)
    requires Keyed(t) && NoStrays(t) && Current(t, ds, cited, threshold, other)
    ensures Current(Cite(t, sourceId), ds, cited + {sourceId}, threshold, other)
  {
    CiteKeyed(t, sourceId, other);
  }

  /** The tables tell the story of every source id. */
  ghost predicate AllCurrent(t: Tables, ds: seq<Document>, cited: set<string>, threshold: real) {
    forall sourceId: string :: Current(t, ds, cited, threshold, sourceId)
  }

  ghost predicate WellKept(t: Tables) {
    Keyed(t) && NoStrays(t)
  }

  lemma PersistKeepsAllCurrent(t: Tables, u: Tables, front: seq<Document>, ds: seq<Document>, cited: set<string>,
                               d: Document, threshold: real)
    requires WellKept(t) && AllCurrent(t, front, cited, threshold)
    requires u == Persist(t, d, threshold) && ds == front + [d]
    ensures WellKept(u) && AllCurrent(u, ds, cited, threshold)
  {
    PersistKeyed(t, d, threshold);
    PersistKeepsNoStrays(t, d, threshold);
    forall sourceId: string
      ensures Current(u, ds, cited, threshold, sourceId)
    {
      PersistKeepsCurrent(t, front, cited, d, threshold, sourceId);
    }
  }

  lemma CiteKeepsAllCurrent(t: Tables, u: Tables, ds: seq<Document>, before: set<string>, cited: set<string>,
                            sourceId: string, threshold: real)
    requires WellKept(t) && AllCurrent(t, ds, before, threshold)
    requires u == Cite(t, sourceId) && cited == before + {sourceId}
    ensures WellKept(u) && AllCurrent(u, ds, cited, threshold)
  {
    CiteKeyed(t, sourceId, sourceId);
    forall other: string
      ensures Current(u, ds, cited, threshold, other)
    {
      CiteKeepsCurrent(t, ds, before, sourceId, threshold, other);
    }
  }

  lemma NothingHappened(threshold: real)
    ensures WellKept(EMPTY) && AllCurrent(EMPTY, [], {}, threshold)
  {
  }

  /**
   After any run, a source id is known exactly when a document had it or a citation named it. With a
   document, its rows are those of the last one and its columns hold the last nonempty values ever
   offered; with citations alone it has a bare stub.
   */
  lemma {:induction false} LatestIngestStands(es: seq<Event>, threshold: real)
    ensures WellKept(History(es, threshold))
    ensures AllCurrent(History(es, threshold), Documents(es), Citations(es), threshold)
  {
    if es == [] {
      NothingHappened(threshold);
    } else {
      var front, e := es[..|es| - 1], es[|es| - 1];
      var t, u := History(front, threshold), History(es, threshold);
      LatestIngestStands(front, threshold);
      assert es == front + [e];
      match e {
        case Ingested(d) =>
          assert Citations(es) == Citations(front);
          PersistKeepsAllCurrent(t, u, Documents(front), Documents(es), Citations(es), d, threshold);
        case Cited(sourceId) =>
          assert Citations(es) == Citations(front) + {sourceId};
          CiteKeepsAllCurrent(t, u, Documents(es), Citations(front), Citations(es), sourceId, threshold);
      }
    }
  }

  /** A source id once known keeps its regulation: ingesting a cited regulation takes its stub over. */
  lemma IdStands(t: Tables, e: Event, threshold: real, sourceId: string)
    requires Keyed(t) && Known(t, sourceId)
    ensures var u := Happen(t, e, threshold);
            Known(u, sourceId) && IdFor(u, sourceId) == IdFor(t, sourceId)
  {
    match e {
      case Ingested(d) =>
        PersistKeyed(t, d, threshold);
        if d.sourceId != sourceId {
          OtherKept(t, d, threshold, sourceId);
        }
      case Cited(other) => CiteKeyed(t, other, sourceId);
    }
  }

  // ---- validation and persistence agree --------------------------------

  /** The flags are the ones validation raised for this record. */
  predicate Validated(d: Document, known: set<string>, threshold: real) {
    d.flags == Flags(d.record, known, threshold) && Controlled(d.record.fields)
  }

  /** A field row is pending exactly when a flag names it: when some field of its name is itself suspect. */
  lemma FieldRowsAgree(d: Document, reg: RegId, known: set<string>, threshold: real, i: nat)
    requires Validated(d, known, threshold) && i < |d.record.fields|
    ensures var row, f := FieldRows(reg, d, threshold)[i], d.record.fields[i];
            && |FieldRows(reg, d, threshold)| == |d.record.fields| && row.field == f && row.reg == reg
            && (row.status == Pending <==> NamedIn(d.flags, f.name))
            && (row.status == Pending <==>
                  exists g | g in d.record.fields :: g.name == f.name && Suspect(g, d.record.jurisdiction, threshold))
  {
    var f := d.record.fields[i];
    FieldFlaggedExactly(d.record, known, threshold, f);
    assert ParseTarget(f.name).None?;
    assert f.confidence < threshold ==> Suspect(f, d.record.jurisdiction, threshold);
  }

  /**
   A condition row is pending exactly when a flag names its index; so an auto-approved one is
   structured, at or above the threshold, and about a known parameter or none.
   */
  lemma ConditionRowsAgree(d: Document, reg: RegId, known: set<string>, threshold: real, i: nat)
    requires Validated(d, known, threshold) && i < |d.record.conditions|
    ensures var row, c := ConditionRows(reg, d, threshold)[i], d.record.conditions[i];
            && |ConditionRows(reg, d, threshold)| == |d.record.conditions| && row.condition == c && row.reg == reg
            && (row.status == Pending <==> NamedIn(d.flags, ConditionTarget(i)))
            && (row.status == AutoApproved <==>
                  && c.structured && ConfidenceOf(c) >= threshold
                  && (c.param.None? || c.param.value == "" || c.param.value in known))
  {
    ConditionFlaggedExactly(d.record, known, threshold, i);
    TargetRoundTrip(i);
    if i in FlaggedConditions(d.flags) {
      var x :| x in d.flags && ParseTarget(x.target) == Some(i);
      FlagTargets(d, known, threshold, x, i);
    }
  }

  lemma FlagTargets(d: Document, known: set<string>, threshold: real, x: Flag, i: nat)
    requires Validated(d, known, threshold) && x in d.flags && ParseTarget(x.target) == Some(i)
    ensures x.target == ConditionTarget(i)
  {
    var j := NamedCondition(d.record, known, threshold, x);
    TargetRoundTrip(j);
  }

  // ---- the store --------------------------------------------------------

  class Store {
    var regs: map<RegId, Regulation>
    var next: RegId
    var fields: seq<FieldRow>
    var conditions: seq<ConditionRow>

    ghost function View(): Tables
      reads this
    {
      Tables(regs, next, fields, conditions)
    }

    constructor ()
      ensures View() == EMPTY && Keyed(View())
    {
      regs, next, fields, conditions := map[], 0, [], [];
    }

    method DeleteRows(id: RegId)
      modifies this`fields, this`conditions
      ensures fields == RowsOf(old(fields), FieldOwner(), AllBut(id))
      ensures conditions == RowsOf(old(conditions), ConditionOwner(), AllBut(id))
    {
      fields := RowsOf(fields, FieldOwner(), AllBut(id));
      conditions := RowsOf(conditions, ConditionOwner(), AllBut(id));
    }

    method AddRows(id: RegId, d: Document, threshold: real)
      modifies this`fields, this`conditions
      ensures fields == old(fields) + FieldRows(id, d, threshold)
      ensures conditions == old(conditions) + ConditionRows(id, d, threshold)
    {
      var flagged, flaggedConditions := FlaggedFields(d.flags), FlaggedConditions(d.flags);
      var i := 0;
      while i < |d.record.fields|
        invariant 0 <= i <= |d.record.fields|
        invariant fields == old(fields) + FieldRows(id, d, threshold)[..i] && conditions == old(conditions)
      {
        var f := d.record.fields[i];
        fields := fields + [FieldRow(id, f, StatusOf(f.name in flagged || f.confidence < threshold))];
        i := i + 1;
      }
      i := 0;
      while i < |d.record.conditions|
        invariant 0 <= i <= |d.record.conditions|
        invariant conditions == old(conditions) + ConditionRows(id, d, threshold)[..i]
        invariant fields == old(fields) + FieldRows(id, d, threshold)
      {
        var c := d.record.conditions[i];
        conditions := conditions + [ConditionRow(id, c,
          StatusOf(i in flaggedConditions || !c.structured || ConfidenceOf(c) < threshold))];
        i := i + 1;
      }
    }

    /** Finds or creates the regulation, refreshes it, and replaces its derived rows. */
    method PersistDocument(d: Document, threshold: real) returns (id: RegId)
      requires Keyed(View())
      modifies this
      ensures View() == Persist(old(View()), d, threshold)
      ensures id == IdFor(old(View()), d.sourceId)
    {
      if r :| r in regs && regs[r].sourceId == d.sourceId {
        id := r;
        regs := regs[id := Refresh(regs[id], d)];
      } else {
        id := next;
        regs := regs[id := Refresh(BLANK, d)];
        next := next + 1;
      }
      DeleteRows(id);
      AddRows(id, d, threshold);
    }
  }
}
