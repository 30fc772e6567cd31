/** The wizard's query (engine/wizard_matcher.py): candidates by HS code, each evaluated, then ranked. */
module WizardQuery {
  import opened Options
  import opened Conditions
  import opened Lists
  import opened Review
  import opened Rounding
  import opened Sorting
  import WizardMatcher
  import HsMapper
  import RelationTable
  import RelationshipResolver

  datatype Answer = Answer(
    reg: RegId,
    title: string,
    summary: Option<string>,
    jurisdiction: string,
    verdict: WizardMatcher.Verdict,
    evidence: seq<string>,
    confidence: real,
    note: Option<string>
  )

  /** What the query reads of a regulation: its row and its conditions. */
  datatype Regulation = Regulation(
    sourceId: string,
    title: Option<string>,
    summary: Option<string>,
    jurisdiction: Option<string>,
    conditions: seq<Condition>
  )

  type Library = map<RegId, Regulation>

  function OwnReg(a: Answer): RegId {
    a.reg
  }

  function Rank(s: WizardMatcher.Status): nat {
    match s
    case Applies => 0
    case PossiblyApplies => 1
    case Uncertain => 2
    case Excluded => 3
  }

  /** Better status first, then higher confidence. */
  predicate Before(a: Answer, b: Answer) {
    || Rank(a.verdict.status) < Rank(b.verdict.status)
    || (Rank(a.verdict.status) == Rank(b.verdict.status) && a.confidence >= b.confidence)
  }

  /** Applying ones first, then possible, uncertain and excluded ones; within each, surer ones first. */
  predicate RankedBefore(a: Answer, b: Answer) {
    var s, t := a.verdict.status, b.verdict.status;
    && (t == WizardMatcher.Applies ==> s == WizardMatcher.Applies)
    && (t == WizardMatcher.PossiblyApplies ==> s == WizardMatcher.Applies || s == WizardMatcher.PossiblyApplies)
    && (t == WizardMatcher.Uncertain ==> s != WizardMatcher.Excluded)
    && (s == t ==> a.confidence >= b.confidence)
  }

  function MatchName(m: HsMapper.MatchType): string {
    match m
    case Exact => "exact"
    case Fuzzy => "fuzzy"
    case Manual => "manual"
    case Inferred => "inferred"
  }

  function References(drivers: seq<Condition>): seq<string> {
    if drivers == [] then []
    else (if drivers[0].reference != "" then [drivers[0].reference] else []) + References(drivers[1..])
  }

  function Evidence(c: HsMapper.Candidate, drivers: seq<Condition>): seq<string> {
    ["HS match: " + c.code + " (" + MatchName(c.match_) + ")"] + References(drivers)
  }

  function KnownConfidences(conds: seq<Condition>): seq<real> {
    if conds == [] then []
    else (if conds[0].confidence.Some? then [conds[0].confidence.value] else []) + KnownConfidences(conds[1..])
  }

  function Sum(xs: seq<real>): real {
    if xs == [] then 0.0 else xs[0] + Sum(xs[1..])
  }

  function Clamp(x: real): real {
    if x < 0.0 then 0.0 else if x > 1.0 then 1.0 else x
  }

  function Portion(x: real, s: real, n: real): real
    requires n > 0.0
  {
    x * (s / n)
  }

  /** The confidence times the average of the values, if there are any. */
  function Scaled(confidence: real, vals: seq<real>): real {
    if vals == [] then confidence else Portion(confidence, Sum(vals), |vals| as real)
  }

  /** The match confidence, scaled by the average confidence of the conditions that have one. */
  function Tempered(confidence: real, conds: seq<Condition>): real {
    Round3(Clamp(Scaled(confidence, KnownConfidences(conds))))
  }

  /** The text, unless it is absent or empty. */
  function OrElse(text: Option<string>, other: string): string {
    if text.Some? && text.value != "" then text.value else other
  }

  function AnswerFor(c: HsMapper.Candidate, r: Regulation, attrs: Attributes, note: Option<string>): Answer {
    var v := WizardMatcher.EvaluateRegulation(r.conditions, attrs);
    Answer(c.reg, OrElse(r.title, r.sourceId), r.summary, OrElse(r.jurisdiction, ""), v, Evidence(c, v.drivers),
           Tempered(c.confidence, r.conditions), note)
  }

  predicate UnitConfidences(conds: seq<Condition>) {
    forall c | c in conds && c.confidence.Some? :: InUnit(c.confidence.value)
  }

  lemma {:induction false} KnownInUnit(conds: seq<Condition>)
    requires UnitConfidences(conds)
    ensures forall x | x in KnownConfidences(conds) :: InUnit(x)
  {
    if conds != [] {
      assert conds[0] in conds;
      KnownInUnit(conds[1..]);
    }
  }

  lemma {:induction false} SumBound(xs: seq<real>)
    requires forall x | x in xs :: InUnit(x)
    ensures 0.0 <= Sum(xs) <= |xs| as real
  {
    if xs != [] {
      assert xs[0] in xs;
      SumBound(xs[1..]);
    }
  }

  lemma TimesUnit(x: real, q: real)
    requires 0.0 <= x && InUnit(q)
    ensures 0.0 <= x * q <= x
  {
    assert x * (1.0 - q) == x - x * q;
  }

  lemma UnitQuotient(s: real, n: real)
    requires 0.0 <= s <= n && n > 0.0
    ensures InUnit(s / n)
  {
  }

  lemma ScaleDown(x: real, s: real, n: real)
    requires 0.0 <= x && 0.0 <= s <= n && n > 0.0
    ensures 0.0 <= Portion(x, s, n) <= x
  {
    UnitQuotient(s, n);
    TimesUnit(x, s / n);
  }

  lemma ScaledBound(confidence: real, vals: seq<real>)
    requires 0.0 <= confidence && forall x | x in vals :: InUnit(x)
    ensures 0.0 <= Scaled(confidence, vals) <= confidence
  {
    if vals != [] {
      SumBound(vals);
      ScaleDown(confidence, Sum(vals), |vals| as real);
    }
  }

  lemma RoundedBound(x: real, confidence: real)
    requires 0.0 <= x <= confidence <= 1.0 && Round3(confidence) == confidence
    ensures InUnit(Round3(Clamp(x))) && Round3(Clamp(x)) <= confidence
  {
    Round3InUnit(x);
    Round3Monotone(x, confidence);
  }

  /** Tempering stays within [0, 1] and never raises a confidence that is already rounded. */
  lemma TemperedBound(confidence: real, conds: seq<Condition>)
    requires InUnit(confidence) && Round3(confidence) == confidence && UnitConfidences(conds)
    ensures InUnit(Tempered(confidence, conds)) && Tempered(confidence, conds) <= confidence
  {
    KnownInUnit(conds);
    ScaledBound(confidence, KnownConfidences(conds));
    RoundedBound(Scaled(confidence, KnownConfidences(conds)), confidence);
  }

  /** The average is a true average: conditions that all have confidence q scale by q. */
  lemma TemperedUniform(confidence: real, conds: seq<Condition>, q: real)
    requires InUnit(confidence) && InUnit(q)
    requires forall c | c in conds && c.confidence.Some? :: c.confidence.value == q
    ensures Tempered(confidence, conds)
            == Round3(if exists c | c in conds :: c.confidence.Some? then confidence * q else confidence)
  {
    KnownUniform(conds, q);
    ScaledUniform(confidence, KnownConfidences(conds), q);
    UnitProduct(confidence, q);
  }

  lemma UnitProduct(x: real, q: real)
    requires InUnit(x) && InUnit(q)
    ensures InUnit(x * q)
  {
    TimesUnit(x, q);
  }

  lemma ScaledUniform(confidence: real, vals: seq<real>, q: real)
    requires forall x | x in vals :: x == q
    ensures Scaled(confidence, vals) == (if vals != [] then confidence * q else confidence)
  {
    SumUniform(vals, q);
    if vals != [] {
      UniformPortion(confidence, q, |vals| as real);
    }
  }

  lemma {:induction false} KnownUniform(conds: seq<Condition>, q: real)
    requires forall c | c in conds && c.confidence.Some? :: c.confidence.value == q
    ensures forall x | x in KnownConfidences(conds) :: x == q
    ensures KnownConfidences(conds) != [] <==> exists c | c in conds :: c.confidence.Some?
  {
    if conds != [] {
      KnownUniform(conds[1..], q);
      assert conds == [conds[0]] + conds[1..];
    }
  }

  lemma {:induction false} SumUniform(xs: seq<real>, q: real)
    requires forall x | x in xs :: x == q
    ensures Sum(xs) == |xs| as real * q
  {
    if xs != [] {
      assert xs[0] in xs && forall x | x in xs[1..] :: x in xs;
      SumUniform(xs[1..], q);
      assert |xs| as real * q == (|xs| - 1) as real * q + q;
    }
  }

  lemma UniformPortion(x: real, q: real, n: real)
    requires n > 0.0
    ensures Portion(x, n * q, n) == x * q
  {
    assert n * q / n == q;
  }

  /** The stored confidences respect the table's check constraint. */
  predicate UnitRows(rows: seq<HsMapper.Hit>) {
    forall h | h in rows && h.row.confidence.Some? :: InUnit(h.row.confidence.value)
  }

  lemma CandidateInUnit(u: string, rows: seq<HsMapper.Hit>, c: HsMapper.Candidate)
    requires UnitRows(rows) && HsMapper.Faithful(u, rows, c)
    ensures InUnit(c.confidence) && Round3(c.confidence) == c.confidence
  {
    var h :| h in rows && HsMapper.Matches(u, h, c.reg) && c.confidence == Round3(HsMapper.Score(u, h).value);
    var s := HsMapper.Score(u, h).value;
    assert InUnit(s);
    Round3InUnit(s);
    Round3Idempotent(s);
  }

  lemma BeforeIsPreorder()
    ensures TotalPreorder(Before)
  {
  }

  /** The note is there exactly when some regulation supersedes this one, and names one that does. */
  ghost predicate NoteFits(g: RelationshipResolver.Graph, reg: RegId, note: Option<string>) {
    && (note.Some? <==> exists y :: RelationTable.Edge(y, reg, RelationTable.Supersedes) in g.edges)
    && (note.Some? ==> exists y :: RelationTable.Edge(y, reg, RelationTable.Supersedes) in g.edges && y in g.regs
                                   && note.value == "superseded by " + g.regs[y])
  }

  predicate HasReference(c: Condition) {
    c.reference != ""
  }

  /** The references of those drivers that have one, one for one and in order. */
  predicate ListsReferences(refs: seq<string>, drivers: seq<Condition>) {
    var cited := Filter(drivers, HasReference);
    |refs| == |cited| && forall i | 0 <= i < |refs| :: refs[i] == cited[i].reference
  }

  /** The status and the missing attributes say what the conditions say of these attributes. */
  ghost predicate VerdictFits(v: WizardMatcher.Verdict, conds: seq<Condition>, attrs: Attributes) {
    var excluded, unknown := WizardMatcher.AnyExcludes(conds, attrs), WizardMatcher.AnyUnknown(conds, attrs);
    var missing := WizardMatcher.MissingParams(conds, attrs);
    && (v.status == WizardMatcher.Excluded <==> excluded)
    && (v.status == WizardMatcher.Uncertain <==> conds == [] || (!excluded && unknown))
    && (v.status == WizardMatcher.PossiblyApplies <==> !excluded && !unknown && missing != {})
    && (v.status == WizardMatcher.Applies <==> conds != [] && !excluded && !unknown && missing == {})
    && v.missing == (if v.status == WizardMatcher.PossiblyApplies then missing else {})
    && v.drivers == WizardMatcher.EvaluateRegulation(conds, attrs).drivers
  }

  /** The first line of evidence names the code that matched and how it came to be mapped. */
  predicate MatchLine(line: string, c: HsMapper.Candidate) {
    && (c.match_ == HsMapper.Exact ==> line == "HS match: " + c.code + " (exact)")
    && (c.match_ == HsMapper.Fuzzy ==> line == "HS match: " + c.code + " (fuzzy)")
    && (c.match_ == HsMapper.Manual ==> line == "HS match: " + c.code + " (manual)")
    && (c.match_ == HsMapper.Inferred ==> line == "HS match: " + c.code + " (inferred)")
  }

  /** The match confidence times the mean of the confidences the conditions have, to three decimals. */
  predicate ConfidenceFits(confidence: real, matched: real, conds: seq<Condition>) {
    confidence == Round3(TimesMean(matched, KnownConfidences(conds)))
  }

  function TimesMean(x: real, vals: seq<real>): real {
    if vals == [] then x else x * (Sum(vals) / |vals| as real)
  }

  /** What an answer says, field by field, of the regulation, its candidate and the product. */
  ghost predicate Reports(a: Answer, c: HsMapper.Candidate, r: Regulation, attrs: Attributes) {
    && a.reg == c.reg
    && a.title == (if r.title.Some? && r.title.value != "" then r.title.value else r.sourceId)
    && a.summary == r.summary
    && a.jurisdiction == (if r.jurisdiction.Some? then r.jurisdiction.value else "")
    && VerdictFits(a.verdict, r.conditions, attrs)
    && |a.evidence| >= 1 && MatchLine(a.evidence[0], c) && ListsReferences(a.evidence[1..], a.verdict.drivers)
    && ConfidenceFits(a.confidence, c.confidence, r.conditions)
  }

  /** The answer for a regulation: what its own candidate and its own conditions say of the product. */
  ghost predicate Answers(u: string, rows: seq<HsMapper.Hit>, lib: Library, g: RelationshipResolver.Graph,
                          attrs: Attributes, a: Answer) {
    && a.reg in lib && NoteFits(g, a.reg, a.note) && InUnit(a.confidence)
    && exists c :: HsMapper.Faithful(u, rows, c) && Reports(a, c, lib[a.reg], attrs) && a.confidence <= c.confidence
  }

  lemma {:induction false} ReferencesListed(drivers: seq<Condition>)
    ensures ListsReferences(References(drivers), drivers)
  {
    if drivers != [] {
      ReferencesListed(drivers[1..]);
    }
  }

  lemma {:induction false} KnownConcat(xs: seq<Condition>, ys: seq<Condition>)
    ensures KnownConfidences(xs + ys) == KnownConfidences(xs) + KnownConfidences(ys)
  {
    if xs == [] {
      assert xs + ys == ys;
    } else {
      assert (xs + ys)[1..] == xs[1..] + ys;
      KnownConcat(xs[1..], ys);
    }
  }

  lemma {:induction false} SumConcat(xs: seq<real>, ys: seq<real>)
    ensures Sum(xs + ys) == Sum(xs) + Sum(ys)
  {
    if xs == [] {
      assert xs + ys == ys;
    } else {
      assert (xs + ys)[1..] == xs[1..] + ys;
      SumConcat(xs[1..], ys);
    }
  }

  /** The mean counts each known confidence once: it adds up over any split of the conditions. */
  lemma MeanAddsUp(xs: seq<Condition>, c: Condition, ys: seq<Condition>)
    ensures var all, rest := KnownConfidences(xs + [c] + ys), KnownConfidences(xs + ys);
            && |all| == |rest| + (if c.confidence.Some? then 1 else 0)
            && Sum(all) == Sum(rest) + (if c.confidence.Some? then c.confidence.value else 0.0)
    ensures KnownConfidences([]) == [] && Sum([]) == 0.0
  {
    KnownConcat(xs + [c], ys);
    KnownConcat(xs, [c]);
    KnownConcat(xs, ys);
    assert [c][1..] == [];
    var one := KnownConfidences([c]);
    assert one == if c.confidence.Some? then [c.confidence.value] else [];
    SumConcat(KnownConfidences(xs) + one, KnownConfidences(ys));
    SumConcat(KnownConfidences(xs), one);
    SumConcat(KnownConfidences(xs), KnownConfidences(ys));
    if c.confidence.Some? {
      assert one[1..] == [];
    }
  }

  predicate Answered(answers: seq<Answer>, reg: RegId) {
    exists a | a in answers :: a.reg == reg
  }

  ghost predicate Covers(answers: seq<Answer>, found: seq<HsMapper.Candidate>, lib: Library) {
    forall r :: Answered(answers, r) <==> r in lib && HsMapper.Listed(found, r)
  }

  lemma AnsweredSnoc(answers: seq<Answer>, a: Answer, r: RegId)
    ensures Answered(answers + [a], r) <==> Answered(answers, r) || a.reg == r
  {
    assert a in answers + [a];
    if x :| x in answers && x.reg == r {
      assert x in answers + [a];
    }
  }

  lemma ListedSnoc(found: seq<HsMapper.Candidate>, c: HsMapper.Candidate, r: RegId)
    ensures HsMapper.Listed(found + [c], r) <==> HsMapper.Listed(found, r) || c.reg == r
  {
    assert c in found + [c];
    if x :| x in found && x.reg == r {
      assert x in found + [c];
    }
  }

  lemma CoverOne(answers: seq<Answer>, found: seq<HsMapper.Candidate>, lib: Library, c: HsMapper.Candidate, a: Answer)
    requires Covers(answers, found, lib) && c.reg in lib && a.reg == c.reg
    ensures Covers(answers + [a], found + [c], lib)
  {
    forall r
      ensures Answered(answers + [a], r) <==> r in lib && HsMapper.Listed(found + [c], r)
    {
      AnsweredSnoc(answers, a, r);
      ListedSnoc(found, c, r);
    }
  }

  lemma CoverUnknown(answers: seq<Answer>, found: seq<HsMapper.Candidate>, lib: Library, c: HsMapper.Candidate)
    requires Covers(answers, found, lib) && c.reg !in lib
    ensures Covers(answers, found + [c], lib)
  {
    forall r
      ensures Answered(answers, r) <==> r in lib && HsMapper.Listed(found + [c], r)
    {
      ListedSnoc(found, c, r);
    }
  }

  /** The stored confidences of conditions respect the table's check constraint. */
  predicate UnitLibrary(lib: Library) {
    forall r | r in lib :: UnitConfidences(lib[r].conditions)
  }

  /**
   Every known regulation with a matching row is answered, once, and nothing else is; answers are
   ranked by status and then confidence, none is more confident than its HS match, and each carries a
   note exactly when its regulation is superseded.
   */
  method Query(rows: seq<HsMapper.Hit>, lib: Library, store: RelationshipResolver.RelationStore, hsCode: string,
               attrs: Attributes) returns (answers: seq<Answer>)
    requires UnitRows(rows) && UnitLibrary(lib) && RelationshipResolver.WellKept(store.State())
    ensures forall r :: Answered(answers, r) <==> r in lib && HsMapper.Answerable(HsMapper.Digits(hsCode), rows, r)
    ensures forall a | a in answers :: Answers(HsMapper.Digits(hsCode), rows, lib, store.State(), attrs, a)
    ensures forall i, j | 0 <= i < j < |answers| :: RankedBefore(answers[i], answers[j])
    ensures forall i, j | 0 <= i < j < |answers| :: answers[i].reg != answers[j].reg
  {
    ghost var u, g := HsMapper.Digits(hsCode), store.State();
    var found := HsMapper.FindRegulationsByHs(rows, hsCode);
    answers := [];
    var i := 0;
    while i < |found|
      invariant 0 <= i <= |found|
      invariant Answering(u, rows, lib, g, attrs, answers, found[..i])
    {
      var c := found[i];
      if c.reg in lib {
        var note := store.RelationshipNote(c.reg);
        AnswerNext(u, rows, lib, g, attrs, answers, found, i, note);
        answers := answers + [AnswerFor(c, lib[c.reg], attrs, note)];
      } else {
        assert found[..i + 1] == found[..i] + [c];
        CoverUnknown(answers, found[..i], lib, c);
      }
      i := i + 1;
    }
    assert found[..i] == found;
    Ranking(answers);
    answers := SortBy(answers, Before);
  }

  /** Where the loop stands: the known regulations among the candidates taken so far are answered, once each. */
  ghost predicate Answering(u: string, rows: seq<HsMapper.Hit>, lib: Library, g: RelationshipResolver.Graph,
                            attrs: Attributes, answers: seq<Answer>, taken: seq<HsMapper.Candidate>) {
    && Covers(answers, taken, lib)
    && (forall a | a in answers :: Answers(u, rows, lib, g, attrs, a))
    && DistinctBy(answers, OwnReg)
  }

  lemma AnswerNext(u: string, rows: seq<HsMapper.Hit>, lib: Library, g: RelationshipResolver.Graph, attrs: Attributes,
                   answers: seq<Answer>, found: seq<HsMapper.Candidate>, i: nat, note: Option<string>)
    requires UnitRows(rows) && UnitLibrary(lib)
    requires HsMapper.IsReply(u, rows, found) && i < |found| && found[i].reg in lib
    requires Answering(u, rows, lib, g, attrs, answers, found[..i]) && NoteFits(g, found[i].reg, note)
    ensures var c := found[i];
            Answering(u, rows, lib, g, attrs, answers + [AnswerFor(c, lib[c.reg], attrs, note)], found[..i + 1])
  {
    var c := found[i];
    var a := AnswerFor(c, lib[c.reg], attrs, note);
    assert found[..i + 1] == found[..i] + [c];
    CoverOne(answers, found[..i], lib, c, a);
    AnswerIsFaithful(u, rows, lib, g, attrs, c, note);
    NotYetAnswered(found, i);
    assert !Answered(answers, a.reg);
    StillDistinct(answers, a);
  }

  lemma StillDistinct(answers: seq<Answer>, a: Answer)
    requires DistinctBy(answers, OwnReg) && !Answered(answers, a.reg)
    ensures DistinctBy(answers + [a], OwnReg)
  {
    forall i | 0 <= i < |answers|
      ensures answers[i].reg != a.reg
    {
      assert answers[i] in answers;
    }
  }

  lemma Ranking(answers: seq<Answer>)
    requires DistinctBy(answers, OwnReg)
    ensures var ranked := SortBy(answers, Before);
            && SortedBy(ranked, Before)
            && (forall i, j | 0 <= i < j < |ranked| :: RankedBefore(ranked[i], ranked[j]))
            && DistinctBy(ranked, OwnReg)
            && (forall a :: a in ranked <==> a in answers)
            && (forall r :: Answered(ranked, r) <==> Answered(answers, r))
  {
    BeforeIsPreorder();
    SortSorts(answers, Before);
    SortKeepsMembers(answers, Before);
    SortKeepsDistinct(answers, Before, OwnReg);
  }

  lemma AnswerIsFaithful(u: string, rows: seq<HsMapper.Hit>, lib: Library, g: RelationshipResolver.Graph,
                         attrs: Attributes, c: HsMapper.Candidate, note: Option<string>)
    requires UnitRows(rows) && UnitLibrary(lib)
    requires HsMapper.Faithful(u, rows, c) && c.reg in lib && NoteFits(g, c.reg, note)
    ensures Answers(u, rows, lib, g, attrs, AnswerFor(c, lib[c.reg], attrs, note))
  {
    CandidateInUnit(u, rows, c);
    TemperedBound(c.confidence, lib[c.reg].conditions);
    AnswerReports(c, lib[c.reg], attrs, note);
  }

  lemma AnswerReports(c: HsMapper.Candidate, r: Regulation, attrs: Attributes, note: Option<string>)
    requires InUnit(c.confidence) && UnitConfidences(r.conditions)
    ensures Reports(AnswerFor(c, r, attrs, note), c, r, attrs)
  {
    VerdictReported(r.conditions, attrs);
    EvidenceReported(c, WizardMatcher.EvaluateRegulation(r.conditions, attrs).drivers);
    ConfidenceReported(c.confidence, r.conditions);
  }

  lemma EvidenceReported(c: HsMapper.Candidate, drivers: seq<Condition>)
    ensures var lines := Evidence(c, drivers);
            |lines| >= 1 && MatchLine(lines[0], c) && ListsReferences(lines[1..], drivers)
  {
    assert Evidence(c, drivers)[1..] == References(drivers);
    ReferencesListed(drivers);
  }

  lemma VerdictReported(conds: seq<Condition>, attrs: Attributes)
    ensures VerdictFits(WizardMatcher.EvaluateRegulation(conds, attrs), conds, attrs)
  {
    WizardMatcher.StatusMeaning(conds, attrs);
    WizardMatcher.MissingReported(conds, attrs);
  }

  lemma ConfidenceReported(matched: real, conds: seq<Condition>)
    requires InUnit(matched) && UnitConfidences(conds)
    ensures ConfidenceFits(Tempered(matched, conds), matched, conds)
  {
    KnownInUnit(conds);
    ScaledBound(matched, KnownConfidences(conds));
    ScaledByMean(matched, KnownConfidences(conds));
  }

  lemma ScaledByMean(matched: real, known: seq<real>)
    ensures Scaled(matched, known) == TimesMean(matched, known)
  {
  }

  lemma NotYetAnswered(found: seq<HsMapper.Candidate>, i: nat)
    requires i < |found| && forall k, l | 0 <= k < l < |found| :: found[k].reg != found[l].reg
    ensures !HsMapper.Listed(found[..i], found[i].reg)
  {
  }
}
