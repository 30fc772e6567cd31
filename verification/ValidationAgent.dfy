/** Review flags (agents/validation_agent.py): format, consistency, condition and confidence checks. */
module ValidationAgent {
  import opened Options
  import opened Conditions
  import Decimal

  /** A normalised value: text, a resolved or unresolved body, or another structured value. */
  datatype Canonical = Text(text: string) | Body(name: string, resolved: bool) | Route

  datatype MappedField = MappedField(
    name: string,
    canonical: Canonical,
    reference: string,
    confidence: real,
    segment: nat
  )

  datatype Reason =
    | LowConfidence | ConsistencyFail | UnstructuredCondition | UnresolvedAlias
    | InvalidHs | MissingRequiredField | UnknownParameter

  datatype Flag = Flag(target: string, reason: Reason)

  datatype Record = Record(jurisdiction: string, fields: seq<MappedField>, conditions: seq<Condition>)

  const MARKING_JURISDICTION: map<string, string> := map["CE" := "EU", "UKCA" := "UK", "EAC" := "EAEU"]

  function ValueOf(f: MappedField): string {
    match f.canonical
    case Text(s) => s
    case Body(name, _) => name
    case Route => ""
  }

  /** Six, eight or ten digits. */
  predicate ValidHs(s: string) {
    |s| in {6, 8, 10} && forall c | c in s :: Decimal.IsDigit(c)
  }

  predicate BadHs(f: MappedField) {
    f.name == "hs_code" && !ValidHs(if f.canonical.Text? then f.canonical.text else "")
  }

  predicate UnresolvedBody(f: MappedField) {
    f.name == "certification_body" && (f.canonical.Route? || (f.canonical.Body? && !f.canonical.resolved))
  }

  predicate ForeignMarking(f: MappedField, jurisdiction: string) {
    && f.name == "marking" && ValueOf(f) in MARKING_JURISDICTION && jurisdiction != ""
    && MARKING_JURISDICTION[ValueOf(f)] != jurisdiction
  }

  predicate Has(fields: seq<MappedField>, name: string) {
    exists f | f in fields :: f.name == name
  }

  predicate HasValue(fields: seq<MappedField>, name: string, value: string) {
    exists f | f in fields :: f.name == name && ValueOf(f) == value
  }

  /** Assessment by a third party, but nobody named to do it. */
  predicate UncertifiedThirdParty(fields: seq<MappedField>) {
    HasValue(fields, "conformity_assessment_type", "3rd-party") && !Has(fields, "certification_body")
  }

  /** A CE marking without a harmonized standard behind it. */
  predicate UnbackedMarking(fields: seq<MappedField>) {
    HasValue(fields, "marking", "CE") && !Has(fields, "standard_harmonized")
  }

  /** A conformity path that does not say for which kind of production. */
  predicate PathWithoutProduction(fields: seq<MappedField>) {
    && (Has(fields, "conformity_path_testing") || Has(fields, "conformity_path_inspection"))
    && !Has(fields, "production_type")
  }

  predicate UnknownParam(c: Condition, known: set<string>) {
    c.param.Some? && c.param.value != "" && c.param.value !in known
  }

  function ConfidenceOf(c: Condition): real {
    if c.confidence.Some? then c.confidence.value else 0.0
  }

  function ConditionTarget(i: nat): string {
    "applicability_condition[" + Decimal.Print(i) + "]"
  }

  // ---- what each check reports -----------------------------------------

  function FormatFlags(f: MappedField): seq<Flag> {
    (if BadHs(f) then [Flag("hs_code", InvalidHs)] else [])
    + (if UnresolvedBody(f) then [Flag("certification_body", UnresolvedAlias)] else [])
  }

  function MarkingFlags(f: MappedField, jurisdiction: string): seq<Flag> {
    if ForeignMarking(f, jurisdiction) then [Flag("marking", ConsistencyFail)] else []
  }

  function FieldConfidenceFlags(f: MappedField, threshold: real): seq<Flag> {
    if f.confidence < threshold then [Flag(f.name, LowConfidence)] else []
  }

  function ConditionFlags(c: Condition, i: nat, known: set<string>): seq<Flag> {
    if !c.structured then [Flag(ConditionTarget(i), UnstructuredCondition)]
    else if UnknownParam(c, known) then [Flag(ConditionTarget(i), UnknownParameter)]
    else []
  }

  function ConditionConfidenceFlags(c: Condition, i: nat, threshold: real): seq<Flag> {
    if ConfidenceOf(c) < threshold then [Flag(ConditionTarget(i), LowConfidence)] else []
  }

  /** The flags of a list, item by item, each told its position. */
  function Each<T>(xs: seq<T>, flagsOf: (T, nat) -> seq<Flag>): seq<Flag> {
    if xs == [] then [] else Each(xs[..|xs| - 1], flagsOf) + flagsOf(xs[|xs| - 1], |xs| - 1)
  }

  lemma {:induction false} EachHas<T>(xs: seq<T>, flagsOf: (T, nat) -> seq<Flag>, x: Flag)
    ensures x in Each(xs, flagsOf) <==> exists i | 0 <= i < |xs| :: x in flagsOf(xs[i], i)
  {
    if xs != [] {
      var n := |xs| - 1;
      EachHas(xs[..n], flagsOf, x);
      if i :| 0 <= i < n && x in flagsOf(xs[i], i) {
        assert xs[..n][i] == xs[i];
      }
      if i :| 0 <= i < n && x in flagsOf(xs[..n][i], i) {
        assert xs[..n][i] == xs[i];
      }
    }
  }

  lemma EachStep<T>(xs: seq<T>, i: nat, flagsOf: (T, nat) -> seq<Flag>)
    requires i < |xs|
    ensures Each(xs[..i + 1], flagsOf) == Each(xs[..i], flagsOf) + flagsOf(xs[i], i)
  {
    assert xs[..i + 1][..i] == xs[..i];
  }

  function AllFormat(fields: seq<MappedField>): seq<Flag> {
    Each(fields, (f: MappedField, _: nat) => FormatFlags(f))
  }

  function AllMarking(fields: seq<MappedField>, jurisdiction: string): seq<Flag> {
    Each(fields, (f: MappedField, _: nat) => MarkingFlags(f, jurisdiction))
  }

  function Companions(fields: seq<MappedField>): seq<Flag> {
    (if UncertifiedThirdParty(fields) then [Flag("certification_body", ConsistencyFail)] else [])
    + (if UnbackedMarking(fields) then [Flag("standard_harmonized", ConsistencyFail)] else [])
  }

  function AllConsistency(fields: seq<MappedField>, jurisdiction: string): seq<Flag> {
    Companions(fields) + AllMarking(fields, jurisdiction)
    + (if PathWithoutProduction(fields) then [Flag("production_type", MissingRequiredField)] else [])
  }

  function AllConditions(conditions: seq<Condition>, known: set<string>): seq<Flag> {
    Each(conditions, (c: Condition, i: nat) => ConditionFlags(c, i, known))
  }

  function AllConfidence(r: Record, threshold: real): seq<Flag> {
    Each(r.fields, (f: MappedField, _: nat) => FieldConfidenceFlags(f, threshold))
    + Each(r.conditions, (c: Condition, i: nat) => ConditionConfidenceFlags(c, i, threshold))
  }

  function Flags(r: Record, known: set<string>, threshold: real): seq<Flag> {
    AllFormat(r.fields) + AllConsistency(r.fields, r.jurisdiction) + AllConditions(r.conditions, known)
    + AllConfidence(r, threshold)
  }

  // ---- the checks -------------------------------------------------------

  method FormatChecks(fields: seq<MappedField>) returns (out: seq<Flag>)
    ensures out == AllFormat(fields)
  {
    out := [];
    var i := 0;
    while i < |fields|
      invariant 0 <= i <= |fields| && out == AllFormat(fields[..i])
    {
      EachStep(fields, i, (f: MappedField, _: nat) => FormatFlags(f));
      var f := fields[i];
      if f.name == "hs_code" {
        if !ValidHs(if f.canonical.Text? then f.canonical.text else "") {
          out := out + [Flag("hs_code", InvalidHs)];
        }
      }
      if f.name == "certification_body" && !f.canonical.Text? {
        if f.canonical.Route? || !f.canonical.resolved {
          out := out + [Flag("certification_body", UnresolvedAlias)];
        }
      }
      i := i + 1;
    }
    assert fields[..i] == fields;
  }

  method MarkingChecks(fields: seq<MappedField>, jurisdiction: string) returns (out: seq<Flag>)
    ensures out == AllMarking(fields, jurisdiction)
  {
    out := [];
    var i := 0;
    while i < |fields|
      invariant 0 <= i <= |fields| && out == AllMarking(fields[..i], jurisdiction)
    {
      EachStep(fields, i, (f: MappedField, _: nat) => MarkingFlags(f, jurisdiction));
      if fields[i].name == "marking" {
        var mark := ValueOf(fields[i]);
        if mark in MARKING_JURISDICTION && jurisdiction != "" && MARKING_JURISDICTION[mark] != jurisdiction {
          out := out + [Flag("marking", ConsistencyFail)];
        }
      }
      i := i + 1;
    }
    assert fields[..i] == fields;
  }

  method ConsistencyChecks(fields: seq<MappedField>, jurisdiction: string) returns (out: seq<Flag>)
    ensures out == AllConsistency(fields, jurisdiction)
    ensures forall x :: x in out <==> Inconsistent(fields, jurisdiction, x)
  {
    ConsistencyExactly(fields, jurisdiction);
    out := [];
    if HasValue(fields, "conformity_assessment_type", "3rd-party") && !Has(fields, "certification_body") {
      out := out + [Flag("certification_body", ConsistencyFail)];
    }
    if HasValue(fields, "marking", "CE") && !Has(fields, "standard_harmonized") {
      out := out + [Flag("standard_harmonized", ConsistencyFail)];
    }
    assert out == Companions(fields);
    var marks := MarkingChecks(fields, jurisdiction);
    out := out + marks;
    var hasPath := Has(fields, "conformity_path_testing") || Has(fields, "conformity_path_inspection");
    if hasPath && !Has(fields, "production_type") {
      out := out + [Flag("production_type", MissingRequiredField)];
    }
  }

  method ConditionChecks(conditions: seq<Condition>, known: set<string>) returns (out: seq<Flag>)
    ensures out == AllConditions(conditions, known)
  {
    out := [];
    var i := 0;
    while i < |conditions|
      invariant 0 <= i <= |conditions| && out == AllConditions(conditions[..i], known)
    {
      EachStep(conditions, i, (c: Condition, k: nat) => ConditionFlags(c, k, known));
      var c := conditions[i];
      if !c.structured {
        out := out + [Flag(ConditionTarget(i), UnstructuredCondition)];
      } else if c.param.Some? && c.param.value != "" && c.param.value !in known {
        out := out + [Flag(ConditionTarget(i), UnknownParameter)];
      }
      i := i + 1;
    }
    assert conditions[..i] == conditions;
  }

  method ConfidenceChecks(r: Record, threshold: real) returns (out: seq<Flag>)
    ensures out == AllConfidence(r, threshold)
  {
    out := [];
    var i := 0;
    while i < |r.fields|
      invariant 0 <= i <= |r.fields|
      invariant out == Each(r.fields[..i], (f: MappedField, _: nat) => FieldConfidenceFlags(f, threshold))
    {
      EachStep(r.fields, i, (f: MappedField, _: nat) => FieldConfidenceFlags(f, threshold));
      if r.fields[i].confidence < threshold {
        out := out + [Flag(r.fields[i].name, LowConfidence)];
      }
      i := i + 1;
    }
    assert r.fields[..i] == r.fields;
    ghost var before := out;
    i := 0;
    while i < |r.conditions|
      invariant 0 <= i <= |r.conditions|
      invariant out == before + Each(r.conditions[..i],
                                     (c: Condition, k: nat) => ConditionConfidenceFlags(c, k, threshold))
    {
      EachStep(r.conditions, i, (c: Condition, k: nat) => ConditionConfidenceFlags(c, k, threshold));
      if ConfidenceOf(r.conditions[i]) < threshold {
        out := out + [Flag(ConditionTarget(i), LowConfidence)];
      }
      i := i + 1;
    }
    assert r.conditions[..i] == r.conditions;
  }

  method Validate(r: Record, known: set<string>, threshold: real) returns (flags: seq<Flag>, pending: bool)
    ensures flags == Flags(r, known, threshold)
    ensures forall x :: x in flags <==> Warranted(r, known, threshold, x)
    ensures pending <==> NeedsAttention(r, known, threshold)
  {
    var format := FormatChecks(r.fields);
    var consistency := ConsistencyChecks(r.fields, r.jurisdiction);
    var conditions := ConditionChecks(r.conditions, known);
    var confidence := ConfidenceChecks(r, threshold);
    flags := format + consistency + conditions + confidence;
    FlagsExactly(r, known, threshold);
    PendingExactly(r, known, threshold);
    pending := flags != [];
  }

  // ---- what the flags mean ----------------------------------------------

  /** The taxonomy names the mapping stage gives to fields. */
  const FIELD_NAMES: set<string> := {
    "scope_description", "conformity_path_testing", "conformity_path_inspection", "conformity_assessment_type",
    "conformity_body_type", "technical_documentation", "production_type", "scope_param", "hs_code",
    "conformity_doc", "legal_entity", "standard_reference", "standard_harmonized", "marking",
    "certification_body", "exclusion", "conformity_route"
  }

  /** No field name starts like a condition target. */
  predicate Controlled(fields: seq<MappedField>) {
    forall f | f in fields :: !("applicability_condition[" <= f.name)
  }

  lemma TaxonomyIsControlled(fields: seq<MappedField>)
    requires forall f | f in fields :: f.name in FIELD_NAMES
    ensures Controlled(fields)
  {
    forall f | f in fields
      ensures !("applicability_condition[" <= f.name)
    {
      assert f.name[0] != "applicability_condition["[0];
    }
  }

  /** The field itself gives a reason for review. */
  predicate Suspect(f: MappedField, jurisdiction: string, threshold: real) {
    f.confidence < threshold || BadHs(f) || UnresolvedBody(f) || ForeignMarking(f, jurisdiction)
  }

  /** The condition is unstructured, below the threshold, or about a parameter outside the vocabulary. */
  predicate NeedsReview(c: Condition, known: set<string>, threshold: real) {
    !c.structured || ConfidenceOf(c) < threshold || UnknownParam(c, known)
  }

  /** The record as a whole gives a reason for review: in one of its parts, or by what it leaves out. */
  predicate NeedsAttention(r: Record, known: set<string>, threshold: real) {
    || (exists f | f in r.fields :: Suspect(f, r.jurisdiction, threshold))
    || (exists c | c in r.conditions :: NeedsReview(c, known, threshold))
    || UncertifiedThirdParty(r.fields) || UnbackedMarking(r.fields) || PathWithoutProduction(r.fields)
  }

  /** What each cross-field flag stands for. */
  predicate Inconsistent(fields: seq<MappedField>, jurisdiction: string, x: Flag) {
    || (x == Flag("certification_body", ConsistencyFail) && UncertifiedThirdParty(fields))
    || (x == Flag("standard_harmonized", ConsistencyFail) && UnbackedMarking(fields))
    || (x == Flag("marking", ConsistencyFail) && exists f | f in fields :: ForeignMarking(f, jurisdiction))
    || (x == Flag("production_type", MissingRequiredField) && PathWithoutProduction(fields))
  }

  /** What each flag stands for, reason by reason. */
  predicate Warranted(r: Record, known: set<string>, threshold: real, x: Flag) {
    match x.reason
    case LowConfidence =>
      || (exists f | f in r.fields :: f.name == x.target && f.confidence < threshold)
      || (exists i | 0 <= i < |r.conditions| ::
            ConditionTarget(i) == x.target && ConfidenceOf(r.conditions[i]) < threshold)
    case ConsistencyFail => Inconsistent(r.fields, r.jurisdiction, x)
    case UnstructuredCondition =>
      exists i | 0 <= i < |r.conditions| :: ConditionTarget(i) == x.target && !r.conditions[i].structured
    case UnresolvedAlias => x.target == "certification_body" && exists f | f in r.fields :: UnresolvedBody(f)
    case InvalidHs => x.target == "hs_code" && exists f | f in r.fields :: BadHs(f)
    case MissingRequiredField => Inconsistent(r.fields, r.jurisdiction, x)
    case UnknownParameter =>
      exists i | 0 <= i < |r.conditions| ::
        ConditionTarget(i) == x.target && r.conditions[i].structured && UnknownParam(r.conditions[i], known)
  }

  /** The value of a field as the cross-field checks read it: its text, or the name of the body it stands for. */
  predicate Reads(f: MappedField, name: string, value: string) {
    f.name == name && (f.canonical == Text(value) || (f.canonical.Body? && f.canonical.name == value)
                       || (f.canonical.Route? && value == ""))
  }

  /** When a field is suspect by itself, in full. */
  lemma SuspectMeans(f: MappedField, jurisdiction: string, threshold: real)
    ensures Suspect(f, jurisdiction, threshold) <==>
              || f.confidence < threshold
              || (f.name == "hs_code"
                  && !(f.canonical.Text? && |f.canonical.text| in {6, 8, 10}
                       && forall i | 0 <= i < |f.canonical.text| :: '0' <= f.canonical.text[i] <= '9'))
              || (f.name == "certification_body"
                  && (f.canonical.Route? || (f.canonical.Body? && !f.canonical.resolved)))
              || (jurisdiction != ""
                  && ((Reads(f, "marking", "CE") && jurisdiction != "EU")
                      || (Reads(f, "marking", "UKCA") && jurisdiction != "UK")
                      || (Reads(f, "marking", "EAC") && jurisdiction != "EAEU")))
  {
    if f.canonical.Text? {
      var t := f.canonical.text;
      if forall c | c in t :: Decimal.IsDigit(c) {
        assert forall i | 0 <= i < |t| :: Decimal.IsDigit(t[i]);
      }
    }
  }

  /** When a condition needs review, in full; one without a confidence counts as having none. */
  lemma ReviewMeans(c: Condition, known: set<string>, threshold: real)
    ensures NeedsReview(c, known, threshold) <==>
              || !c.structured
              || (c.confidence.None? && 0.0 < threshold) || (c.confidence.Some? && c.confidence.value < threshold)
              || (c.param.Some? && c.param.value != "" && c.param.value !in known)
  {
  }

  /** When a companion field is missing, in full. */
  lemma CompanionsMean(fields: seq<MappedField>)
    ensures UncertifiedThirdParty(fields) <==>
              (exists f | f in fields :: Reads(f, "conformity_assessment_type", "3rd-party"))
              && forall f | f in fields :: f.name != "certification_body"
    ensures UnbackedMarking(fields) <==>
              (exists f | f in fields :: Reads(f, "marking", "CE"))
              && forall f | f in fields :: f.name != "standard_harmonized"
    ensures PathWithoutProduction(fields) <==>
              (exists f | f in fields :: f.name in {"conformity_path_testing", "conformity_path_inspection"})
              && forall f | f in fields :: f.name != "production_type"
  {
    forall f, name, value
      ensures Reads(f, name, value) <==> f.name == name && ValueOf(f) == value
    {
    }
  }

  lemma FormatHas(fields: seq<MappedField>, x: Flag)
    ensures x in AllFormat(fields) <==>
              || (x == Flag("hs_code", InvalidHs) && exists f | f in fields :: BadHs(f))
              || (x == Flag("certification_body", UnresolvedAlias) && exists f | f in fields :: UnresolvedBody(f))
  {
    EachHas(fields, (f: MappedField, _: nat) => FormatFlags(f), x);
    if f :| f in fields && (BadHs(f) || UnresolvedBody(f)) {
      var i :| 0 <= i < |fields| && fields[i] == f;
    }
  }

  lemma MarkingHas(fields: seq<MappedField>, jurisdiction: string, x: Flag)
    ensures x in AllMarking(fields, jurisdiction) <==>
              x == Flag("marking", ConsistencyFail) && exists f | f in fields :: ForeignMarking(f, jurisdiction)
  {
    EachHas(fields, (f: MappedField, _: nat) => MarkingFlags(f, jurisdiction), x);
    if f :| f in fields && ForeignMarking(f, jurisdiction) {
      var i :| 0 <= i < |fields| && fields[i] == f;
    }
  }

  lemma ConsistencyExactly(fields: seq<MappedField>, jurisdiction: string)
    ensures forall x :: x in AllConsistency(fields, jurisdiction) <==> Inconsistent(fields, jurisdiction, x)
  {
    forall x
      ensures x in AllConsistency(fields, jurisdiction) <==> Inconsistent(fields, jurisdiction, x)
    {
      MarkingHas(fields, jurisdiction, x);
    }
  }

  lemma ConditionsHave(conditions: seq<Condition>, known: set<string>, x: Flag)
    ensures x in AllConditions(conditions, known) <==>
              exists i | 0 <= i < |conditions| ::
                ConditionTarget(i) == x.target
                && if conditions[i].structured then UnknownParam(conditions[i], known) && x.reason == UnknownParameter
                   else x.reason == UnstructuredCondition
  {
    EachHas(conditions, (c: Condition, i: nat) => ConditionFlags(c, i, known), x);
  }

  lemma ConfidenceHas(r: Record, threshold: real, x: Flag)
    ensures x in AllConfidence(r, threshold) <==>
              x.reason == LowConfidence && Warranted(r, {}, threshold, x)
  {
    EachHas(r.fields, (f: MappedField, _: nat) => FieldConfidenceFlags(f, threshold), x);
    EachHas(r.conditions, (c: Condition, i: nat) => ConditionConfidenceFlags(c, i, threshold), x);
    if f :| f in r.fields && f.name == x.target && f.confidence < threshold {
      var i :| 0 <= i < |r.fields| && r.fields[i] == f;
    }
  }

  /** A flag is raised exactly when the record warrants it. */
  lemma FlagsExactly(r: Record, known: set<string>, threshold: real)
    ensures forall x :: x in Flags(r, known, threshold) <==> Warranted(r, known, threshold, x)
  {
    ConsistencyExactly(r.fields, r.jurisdiction);
    forall x
      ensures x in Flags(r, known, threshold) <==> Warranted(r, known, threshold, x)
    {
      FormatHas(r.fields, x);
      ConditionsHave(r.conditions, known, x);
      ConfidenceHas(r, threshold, x);
    }
  }

  lemma WarrantNeedsAttention(r: Record, known: set<string>, threshold: real, x: Flag)
    requires Warranted(r, known, threshold, x)
    ensures NeedsAttention(r, known, threshold)
  {
    if f :| f in r.fields && (f.confidence < threshold || BadHs(f) || UnresolvedBody(f)
                              || ForeignMarking(f, r.jurisdiction)) {
      assert Suspect(f, r.jurisdiction, threshold);
    } else if i :| 0 <= i < |r.conditions| && NeedsReview(r.conditions[i], known, threshold) {
      assert r.conditions[i] in r.conditions;
    }
  }

  /** Some flag is raised exactly when the record needs attention. */
  lemma PendingExactly(r: Record, known: set<string>, threshold: real)
    ensures Flags(r, known, threshold) != [] <==> NeedsAttention(r, known, threshold)
  {
    var flags := Flags(r, known, threshold);
    FlagsExactly(r, known, threshold);
    if flags != [] {
      assert flags[0] in flags;
      WarrantNeedsAttention(r, known, threshold, flags[0]);
    }
    if f :| f in r.fields && Suspect(f, r.jurisdiction, threshold) {
      SuspectIsFlagged(r, known, threshold, f);
    }
    if c :| c in r.conditions && NeedsReview(c, known, threshold) {
      var i :| 0 <= i < |r.conditions| && r.conditions[i] == c;
      ReviewIsFlagged(r, known, threshold, i);
    }
    assert UncertifiedThirdParty(r.fields) ==> Flag("certification_body", ConsistencyFail) in flags;
    assert UnbackedMarking(r.fields) ==> Flag("standard_harmonized", ConsistencyFail) in flags;
    assert PathWithoutProduction(r.fields) ==> Flag("production_type", MissingRequiredField) in flags;
  }

  predicate NamedIn(flags: seq<Flag>, target: string) {
    exists x | x in flags :: x.target == target
  }

  lemma SuspectIsFlagged(r: Record, known: set<string>, threshold: real, f: MappedField)
    requires f in r.fields && Suspect(f, r.jurisdiction, threshold)
    ensures NamedIn(Flags(r, known, threshold), f.name)
  {
    FlagsExactly(r, known, threshold);
    var reason := if f.confidence < threshold then LowConfidence
                  else if BadHs(f) then InvalidHs
                  else if UnresolvedBody(f) then UnresolvedAlias
                  else ConsistencyFail;
    assert Warranted(r, known, threshold, Flag(f.name, reason));
  }

  lemma ReviewIsFlagged(r: Record, known: set<string>, threshold: real, i: nat)
    requires i < |r.conditions| && NeedsReview(r.conditions[i], known, threshold)
    ensures NamedIn(Flags(r, known, threshold), ConditionTarget(i))
  {
    FlagsExactly(r, known, threshold);
    var c := r.conditions[i];
    var reason := if !c.structured then UnstructuredCondition
                  else if ConfidenceOf(c) < threshold then LowConfidence
                  else UnknownParameter;
    assert Warranted(r, known, threshold, Flag(ConditionTarget(i), reason));
  }

  lemma ConditionTargetsDiffer(i: nat, j: nat)
    requires ConditionTarget(i) == ConditionTarget(j)
    ensures i == j
  {
    var p := "applicability_condition[";
    assert ConditionTarget(i)[|p|..|ConditionTarget(i)| - 1] == Decimal.Print(i);
    assert ConditionTarget(j)[|p|..|ConditionTarget(j)| - 1] == Decimal.Print(j);
    Decimal.ParsePrint(i);
    Decimal.ParsePrint(j);
  }

  /** A target that starts like a condition's is a condition's, and that condition needs review. */
  lemma NamedCondition(r: Record, known: set<string>, threshold: real, x: Flag) returns (i: nat)
    requires Controlled(r.fields) && x in Flags(r, known, threshold) && "applicability_condition[" <= x.target
    ensures i < |r.conditions| && x.target == ConditionTarget(i) && NeedsReview(r.conditions[i], known, threshold)
  {
    FlagsExactly(r, known, threshold);
    assert x.target[0] == 'a';
    if x.reason == LowConfidence {
      i :| 0 <= i < |r.conditions| && x.target == ConditionTarget(i) && ConfidenceOf(r.conditions[i]) < threshold;
    } else if x.reason == UnstructuredCondition {
      i :| 0 <= i < |r.conditions| && x.target == ConditionTarget(i) && !r.conditions[i].structured;
    } else {
      i :| 0 <= i < |r.conditions| && x.target == ConditionTarget(i) && UnknownParam(r.conditions[i], known);
    }
  }

  /** A flag that names a field of the record is there for a field of that name. */
  lemma NamedField(r: Record, known: set<string>, threshold: real, x: Flag) returns (g: MappedField)
    requires Controlled(r.fields) && Warranted(r, known, threshold, x) && Has(r.fields, x.target)
    ensures g in r.fields && g.name == x.target && Suspect(g, r.jurisdiction, threshold)
  {
    assert forall i: nat :: "applicability_condition[" <= ConditionTarget(i);
    if x.reason == LowConfidence {
      g :| g in r.fields && g.name == x.target && g.confidence < threshold;
    } else if x.reason == UnresolvedAlias {
      g :| g in r.fields && UnresolvedBody(g);
    } else if x.reason == InvalidHs {
      g :| g in r.fields && BadHs(g);
    } else {
      g :| g in r.fields && ForeignMarking(g, r.jurisdiction);
    }
  }

  /** A field present in the record is flagged exactly when some field of its name is itself suspect. */
  lemma FieldFlaggedExactly(r: Record, known: set<string>, threshold: real, f: MappedField)
    requires Controlled(r.fields) && f in r.fields
    ensures NamedIn(Flags(r, known, threshold), f.name) <==>
              exists g | g in r.fields :: g.name == f.name && Suspect(g, r.jurisdiction, threshold)
  {
    if x :| x in Flags(r, known, threshold) && x.target == f.name {
      FlagsExactly(r, known, threshold);
      var g := NamedField(r, known, threshold, x);
    }
    if g :| g in r.fields && g.name == f.name && Suspect(g, r.jurisdiction, threshold) {
      SuspectIsFlagged(r, known, threshold, g);
    }
  }

  /** A condition is flagged exactly when it needs review on its own account. */
  lemma ConditionFlaggedExactly(r: Record, known: set<string>, threshold: real, i: nat)
    requires Controlled(r.fields) && i < |r.conditions|
    ensures NamedIn(Flags(r, known, threshold), ConditionTarget(i)) <==> NeedsReview(r.conditions[i], known, threshold)
  {
    if NeedsReview(r.conditions[i], known, threshold) {
      ReviewIsFlagged(r, known, threshold, i);
    }
    if x :| x in Flags(r, known, threshold) && x.target == ConditionTarget(i) {
      var j := NamedCondition(r, known, threshold, x);
      ConditionTargetsDiffer(i, j);
    }
  }
}
