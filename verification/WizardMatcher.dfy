/**
 The partial-knowledge evaluator of engine/wizard_matcher.py: one condition to an outcome, a
 regulation's conditions to a status, and what more knowledge can and cannot change.
 */
module WizardMatcher {
  import opened Options
  import opened Conditions
  import opened Lists
  import opened MappingAgent

  datatype Outcome = True | False | Missing | Unknown

  datatype Status = Applies | PossiblyApplies | Uncertain | Excluded

  datatype Verdict = Verdict(status: Status, drivers: seq<Condition>, missing: set<string>)

  function Met(b: bool): Outcome {
    if b then True else False
  }

  function EvaluateNumber(c: Condition, x: real): Outcome {
    if c.vmin.Some? && c.vmax.Some? then Met(c.vmin.value <= x <= c.vmax.value)
    else if c.op == Some(Gt) then Met(c.vmin.Some? && x > c.vmin.value)
    else if c.op == Some(Ge) then Met(c.vmin.Some? && x >= c.vmin.value)
    else if c.op == Some(Lt) then Met(c.vmax.Some? && x < c.vmax.value)
    else if c.op == Some(Le) then Met(c.vmax.Some? && x <= c.vmax.value)
    else if c.op == Some(Eq) then Met(c.vmin.Some? && x == c.vmin.value)
    else if c.vmin.Some? then Met(x >= c.vmin.value)
    else if c.vmax.Some? then Met(x <= c.vmax.value)
    else Unknown
  }

  function EvaluateValue(c: Condition, u: Value): Outcome {
    if c.vbool.Some? then Met(u.truthy == c.vbool.value)
    else if c.venum.Some? then
      Met(if c.op == Some(NotIn) then u.text !in c.venum.value else u.text in c.venum.value)
    else if u.number.None? then Missing
    else EvaluateNumber(c, u.number.value)
  }

  /** A missing outcome always concerns the condition's own parameter. */
  function Evaluate(c: Condition, attrs: Attributes): Outcome {
    if !c.structured || c.param.None? then Unknown
    else if c.param.value !in attrs then Missing
    else EvaluateValue(c, attrs[c.param.value])
  }

  predicate TriggeredExclusion(c: Condition, attrs: Attributes) {
    c.kind == Exclusion && Evaluate(c, attrs) == True
  }

  predicate FailedInclusion(c: Condition, attrs: Attributes) {
    c.kind == Inclusion && Evaluate(c, attrs) == False
  }

  predicate SatisfiedInclusion(c: Condition, attrs: Attributes) {
    c.kind == Inclusion && Evaluate(c, attrs) == True
  }

  /** Parameters still needed; an empty name is not listed. */
  function MissingParams(conds: seq<Condition>, attrs: Attributes): set<string> {
    set c | c in conds && c.param.Some? && c.param.value != "" && Evaluate(c, attrs) == Missing :: c.param.value
  }

  function EvaluateRegulation(conds: seq<Condition>, attrs: Attributes): Verdict {
    var triggered := Filter(conds, c => TriggeredExclusion(c, attrs));
    var failed := Filter(conds, c => FailedInclusion(c, attrs));
    var satisfied := Filter(conds, c => SatisfiedInclusion(c, attrs));
    var unknown := Filter(conds, c => Evaluate(c, attrs) == Unknown);
    var missing := MissingParams(conds, attrs);
    if conds == [] then Verdict(Uncertain, [], {})
    else if triggered + failed != [] then Verdict(Excluded, triggered + failed, {})
    else if unknown != [] then Verdict(Uncertain, unknown, {})
    else if missing != {} then Verdict(PossiblyApplies, satisfied, missing)
    else Verdict(Applies, if satisfied != [] then satisfied else conds, {})
  }

  // ---- compile, then evaluate ------------------------------------------

  /**
   The compiler drops "not in" before two or more numbers and before a feature, and so reverses what
   the clause says.
   */
  predicate Reversed(raw: RawClause, t: Tables) {
    && NormOperator(raw.op, t) == Canon(NotIn)
    && (TypeOf(raw, t) == Boolean || (TypeOf(raw, t) == Range && |raw.nums| >= 2))
  }

  predicate Comparable(raw: RawClause, t: Tables, u: Value) {
    TypeOf(raw, t) == Range ==> u.number.Some?
  }

  lemma SpanIsInterval(nums: seq<real>, x: real)
    requires nums != []
    ensures Spanned(nums, x) <==> Least(nums) <= x <= Greatest(nums)
  {
    var lo, hi := Least(nums), Greatest(nums);
    var i :| 0 <= i < |nums| && nums[i] == lo;
    var j :| 0 <= j < |nums| && nums[j] == hi;
    if Spanned(nums, x) {
      var a :| 0 <= a < |nums| && nums[a] <= x;
      var b :| 0 <= b < |nums| && x <= nums[b];
      assert nums[a] in nums && nums[b] in nums;
    }
  }

  lemma RangeEvaluates(base: Condition, op: NormOp, nums: seq<real>, x: real)
    requires base.op == None && base.vmin == None && base.vmax == None
    requires if |nums| == 1 then op in {Between, Canon(Gt), Canon(Ge), Canon(Lt), Canon(Le), Canon(Eq)}
             else nums != [] && op in {Canon(In), Canon(NotIn), Between}
    ensures EvaluateNumber(StructureRange(base, op, nums), x)
            == Met(if |nums| >= 2 && op == Canon(NotIn) then !NumbersSay(op, nums, x) else NumbersSay(op, nums, x))
  {
    SpanIsInterval(nums, x);
  }

  /** Compiling and evaluating answers what the clause says of the value, or the opposite for a reversed clause. */
  lemma CompileThenEvaluate(raw: RawClause, t: Tables, attrs: Attributes)
    requires raw.rawText != "" && Plain(raw, t)
    requires raw.param != "" && raw.param in attrs && Comparable(raw, t, attrs[raw.param])
    ensures var says := Says(raw, t, attrs[raw.param]);
            Evaluate(Structure(raw, t).value, attrs) == Met(if Reversed(raw, t) then !says else says)
  {
    StructureKeeps(raw, t);
    if TypeOf(raw, t) == Range {
      RangeEvaluates(Unstructured(raw), NormOperator(raw.op, t), raw.nums, attrs[raw.param].number.value);
    }
  }

  /** The meaning of a plain clause is preserved for every comparable value exactly when it is not reversed. */
  lemma MeaningPreservedExactly(raw: RawClause, t: Tables)
    requires raw.rawText != "" && Plain(raw, t) && raw.param != ""
    ensures !Reversed(raw, t) <==>
            forall u | Comparable(raw, t, u) ::
              EvaluateValue(Structure(raw, t).value, u) == Met(Says(raw, t, u))
  {
    forall u | Comparable(raw, t, u)
      ensures EvaluateValue(Structure(raw, t).value, u)
              == Met(if Reversed(raw, t) then !Says(raw, t, u) else Says(raw, t, u))
    {
      CompileThenEvaluate(raw, t, map[raw.param := u]);
      StructureKeeps(raw, t);
    }
    var zero := Value(true, "0", Some(0.0));
    assert Comparable(raw, t, zero);
  }

  /** "voltage none of 50, 1000" compiles to the interval itself: 100 satisfies it and 10 fails it. */
  lemma ReversedRange(raw: RawClause, vocab: Vocabulary, attrs: Attributes, x: real)
    requires raw.param != "" && raw.rawText != "" && raw.nums == [50.0, 1000.0] && raw.op == "none of"
    requires raw.param in vocab && vocab[raw.param] == Range
    requires raw.param in attrs && attrs[raw.param].number == Some(x)
    ensures var c := Structure(raw, StandardTables(vocab)).value;
            && (x == 100.0 ==> Evaluate(c, attrs) == True)
            && (x == 10.0 ==> Evaluate(c, attrs) == False)
  {
    StandardNotIn(vocab);
    assert Spanned(raw.nums, x) <==> 50.0 <= x <= 1000.0 by {
      assert raw.nums[0] == 50.0 && raw.nums[1] == 1000.0;
    }
    CompileThenEvaluate(raw, StandardTables(vocab), attrs);
  }

  /** "battery excludes present" compiles to "has a battery": the product that has one satisfies it. */
  lemma ReversedFeature(raw: RawClause, vocab: Vocabulary, attrs: Attributes)
    requires raw.param != "" && raw.rawText != "" && raw.op == "excludes" && raw.word == "present"
    requires raw.param in vocab && vocab[raw.param] == Boolean && raw.param in attrs
    ensures var t := StandardTables(vocab);
            && Plain(raw, t) && Says(raw, t, attrs[raw.param]) == !attrs[raw.param].truthy
            && Evaluate(Structure(raw, t).value, attrs) == Met(attrs[raw.param].truthy)
  {
    StandardNotIn(vocab);
    CompileThenEvaluate(raw, StandardTables(vocab), attrs);
  }

  /** A compiled condition is unknown exactly when it is unstructured or names no parameter. */
  lemma CompiledIsEvaluable(raw: RawClause, t: Tables, attrs: Attributes)
    requires raw.rawText != ""
    ensures Evaluate(Structure(raw, t).value, attrs) == Unknown
            <==> !Structurable(raw, t) || raw.param == ""
  {
    StructureKeeps(raw, t);
  }

  /** A compiled condition is missing exactly when its attribute is absent, or no number where numbers are compared. */
  lemma CompiledIsMissing(raw: RawClause, t: Tables, attrs: Attributes)
    requires raw.rawText != "" && Structurable(raw, t) && raw.param != ""
    ensures Evaluate(Structure(raw, t).value, attrs) == Missing
            <==> raw.param !in attrs || !Comparable(raw, t, attrs[raw.param])
  {
    StructureKeeps(raw, t);
  }

  /** Without a comparison operator, or with both bounds, a range is closed and a bound it lacks does not bind. */
  lemma ImplicitBounds(c: Condition, x: real)
    requires c.op in {None, Some(In), Some(NotIn), Some(Contains)} || (c.vmin.Some? && c.vmax.Some?)
    ensures EvaluateNumber(c, x) == Unknown <==> c.vmin.None? && c.vmax.None?
    ensures EvaluateNumber(c, x) == False <==>
              (c.vmin.Some? && x < c.vmin.value) || (c.vmax.Some? && x > c.vmax.value)
    ensures EvaluateNumber(c, x) != Missing
  {
  }

  // ---- more knowledge ---------------------------------------------------

  /** The second query answers at least what the first one answers. */
  predicate Extends(attrs: Attributes, more: Attributes) {
    forall p | p in attrs :: p in more && more[p] == attrs[p]
  }

  /** No condition has an empty parameter name; every compiled condition qualifies. */
  predicate WellNamed(conds: seq<Condition>) {
    forall c | c in conds :: c.param != Some("")
  }

  lemma MissingIsListed(conds: seq<Condition>, attrs: Attributes, c: Condition)
    requires c in conds && c.param != Some("") && Evaluate(c, attrs) == Missing
    ensures c.param.Some? && c.param.value in MissingParams(conds, attrs)
  {
  }

  /** The attributes still needed are those named by a condition that is missing one. */
  lemma MissingMeans(conds: seq<Condition>, attrs: Attributes, p: string)
    ensures p in MissingParams(conds, attrs) <==>
              p != "" && exists c | c in conds :: c.param == Some(p) && Evaluate(c, attrs) == Missing
  {
  }

  lemma OutcomeIsFixed(c: Condition, attrs: Attributes, more: Attributes)
    requires Extends(attrs, more) && Evaluate(c, attrs) != Missing
    ensures Evaluate(c, more) == Evaluate(c, attrs)
  {
  }

  predicate AnyExcludes(conds: seq<Condition>, attrs: Attributes) {
    exists c | c in conds ::
      || (c.kind == Exclusion && Evaluate(c, attrs) == True)
      || (c.kind == Inclusion && Evaluate(c, attrs) == False)
  }

  predicate AnyUnknown(conds: seq<Condition>, attrs: Attributes) {
    exists c | c in conds :: Evaluate(c, attrs) == Unknown
  }

  /** What each status means, without regard to order. */
  lemma StatusMeaning(conds: seq<Condition>, attrs: Attributes)
    ensures var s := EvaluateRegulation(conds, attrs).status;
            var excluded, unknown := AnyExcludes(conds, attrs), AnyUnknown(conds, attrs);
            && (s == Excluded <==> excluded)
            && (s == Uncertain <==> conds == [] || (!excluded && unknown))
            && (s == PossiblyApplies <==> !excluded && !unknown && MissingParams(conds, attrs) != {})
            && (s == Applies <==> conds != [] && !excluded && !unknown && MissingParams(conds, attrs) == {})
  {
    var triggered := Filter(conds, c => TriggeredExclusion(c, attrs));
    var failed := Filter(conds, c => FailedInclusion(c, attrs));
    if c :| c in conds && (TriggeredExclusion(c, attrs) || FailedInclusion(c, attrs)) {
      assert c in triggered + failed;
    }
    if triggered + failed != [] {
      assert (triggered + failed)[0] in triggered + failed;
    }
    var unknown := Filter(conds, c => Evaluate(c, attrs) == Unknown);
    if unknown != [] {
      assert unknown[0] in unknown;
    }
    if conds == [] {
      assert MissingParams(conds, attrs) == {};
    }
  }

  /** More attributes never revise EXCLUDED, and can only exclude what was uncertain. */
  lemma MoreKnowledge(conds: seq<Condition>, attrs: Attributes, more: Attributes)
    requires Extends(attrs, more)
    ensures var s, t := EvaluateRegulation(conds, attrs).status, EvaluateRegulation(conds, more).status;
            && (s == Excluded ==> t == Excluded)
            && (s == Uncertain ==> t == Uncertain || t == Excluded)
            && (s == Applies && WellNamed(conds) ==> t == Applies)
  {
    StatusMeaning(conds, attrs);
    StatusMeaning(conds, more);
    forall c | c in conds && Evaluate(c, attrs) != Missing
      ensures Evaluate(c, more) == Evaluate(c, attrs)
    {
      OutcomeIsFixed(c, attrs, more);
    }
    if EvaluateRegulation(conds, attrs).status == Applies && WellNamed(conds) {
      AppliesIsKept(conds, attrs, more);
    }
  }

  /** With this value its outcome would keep the regulation from applying. */
  predicate Unsettles(c: Condition, u: Value) {
    var o := EvaluateValue(c, u);
    o == Unknown || (c.kind == Exclusion && o == True) || (c.kind == Inclusion && o == False)
  }

  /** Some condition with an empty parameter name would be settled against the regulation by some value. */
  ghost predicate Revisable(conds: seq<Condition>, attrs: Attributes) {
    "" !in attrs && exists c, u :: c in conds && c.structured && c.param == Some("") && Unsettles(c, u)
  }

  lemma AppliesIsKept(conds: seq<Condition>, attrs: Attributes, more: Attributes)
    requires Extends(attrs, more) && EvaluateRegulation(conds, attrs).status == Applies && !Revisable(conds, attrs)
    ensures EvaluateRegulation(conds, more).status == Applies
  {
    StatusMeaning(conds, attrs);
    StatusMeaning(conds, more);
    forall c | c in conds
      ensures Evaluate(c, more) != Unknown && !TriggeredExclusion(c, more) && !FailedInclusion(c, more)
      ensures Evaluate(c, more) == Missing ==> c.param == Some("")
    {
      if Evaluate(c, attrs) != Missing {
        OutcomeIsFixed(c, attrs, more);
      } else {
        if c.param != Some("") {
          MissingIsListed(conds, attrs, c);
        }
        if "" in more && "" !in attrs {
          assert !Unsettles(c, more[""]);
        }
      }
    }
    assert MissingParams(conds, more) == {};
  }

  /** APPLIES survives all further attributes exactly when no condition without a name can be settled against it. */
  lemma AppliesStableExactly(conds: seq<Condition>, attrs: Attributes)
    requires EvaluateRegulation(conds, attrs).status == Applies
    ensures (forall more | Extends(attrs, more) :: EvaluateRegulation(conds, more).status == Applies)
            <==> !Revisable(conds, attrs)
  {
    if Revisable(conds, attrs) {
      var c, u :| c in conds && c.structured && c.param == Some("") && Unsettles(c, u);
      var more := attrs["" := u];
      assert Extends(attrs, more);
      StatusMeaning(conds, more);
      assert Evaluate(c, more) == EvaluateValue(c, u);
      assert EvaluateRegulation(conds, more).status != Applies;
    } else {
      forall more | Extends(attrs, more)
        ensures EvaluateRegulation(conds, more).status == Applies
      {
        AppliesIsKept(conds, attrs, more);
      }
    }
  }

  /** A clause the product breaks excludes it, whatever else is known: from raw clause to verdict. */
  lemma BrokenClauseExcludes(raw: RawClause, t: Tables, conds: seq<Condition>, attrs: Attributes)
    requires raw.rawText != "" && Plain(raw, t) && !Reversed(raw, t) && Structure(raw, t).value in conds
    requires raw.param != "" && raw.param in attrs && Comparable(raw, t, attrs[raw.param])
    requires Says(raw, t, attrs[raw.param]) <==> Mentions(raw.kind, "excl")
    ensures EvaluateRegulation(conds, attrs).status == Excluded
  {
    var c := Structure(raw, t).value;
    CompileThenEvaluate(raw, t, attrs);
    KindKept(raw, t);
    assert TriggeredExclusion(c, attrs) || FailedInclusion(c, attrs);
    StatusMeaning(conds, attrs);
  }

  lemma KindKept(raw: RawClause, t: Tables)
    requires raw.rawText != ""
    ensures Structure(raw, t).value.kind == if Mentions(raw.kind, "excl") then Exclusion else Inclusion
  {
  }

  /** With an empty parameter name APPLIES can be revised: the unlisted attribute excludes when supplied. */
  lemma EmptyNameRevises(c: Condition, u: Value)
    requires c.param == Some("") && c.structured && c.kind == Inclusion && c.vbool == Some(true) && !u.truthy
    ensures EvaluateRegulation([c], map[]).status == Applies
    ensures EvaluateRegulation([c], map["" := u]).status == Excluded
  {
    StatusMeaning([c], map[]);
    StatusMeaning([c], map["" := u]);
    assert c in [c];
  }

  /** `more` gives a number for every listed missing attribute and keeps the other answers. */
  predicate Supplies(conds: seq<Condition>, attrs: Attributes, more: Attributes) {
    var missing := MissingParams(conds, attrs);
    && (forall p | p in missing :: p in more && more[p].number.Some?)
    && (forall p | p in attrs && p !in missing :: p in more && more[p] == attrs[p])
  }

  lemma SuppliedIsKnown(conds: seq<Condition>, attrs: Attributes, more: Attributes, c: Condition)
    requires Supplies(conds, attrs, more) && c in conds && c.param != Some("")
    ensures Evaluate(c, more) != Missing
  {
    if Evaluate(c, attrs) == Missing {
      MissingIsListed(conds, attrs, c);
    } else if c.structured && c.param.Some? {
      if c.param.value in MissingParams(conds, attrs) {
        assert more[c.param.value].number.Some?;
      } else {
        assert more[c.param.value] == attrs[c.param.value];
      }
    }
  }

  /** Numbers for every listed attribute settle a possible match. */
  lemma SupplyingMissing(conds: seq<Condition>, attrs: Attributes, more: Attributes)
    requires Supplies(conds, attrs, more)
    ensures EvaluateRegulation(conds, more).status != PossiblyApplies
  {
    forall p | p in MissingParams(conds, more)
      ensures false
    {
      var c :| c in conds && c.param == Some(p) && p != "" && Evaluate(c, more) == Missing;
      SuppliedIsKnown(conds, attrs, more, c);
    }
    StatusMeaning(conds, more);
  }

  lemma SameTests(xs: seq<Condition>, ys: seq<Condition>, attrs: Attributes)
    requires forall c :: c in xs <==> c in ys
    ensures AnyExcludes(xs, attrs) == AnyExcludes(ys, attrs) && AnyUnknown(xs, attrs) == AnyUnknown(ys, attrs)
  {
  }

  lemma SameMissing(xs: seq<Condition>, ys: seq<Condition>, attrs: Attributes)
    requires forall c :: c in xs <==> c in ys
    ensures MissingParams(xs, attrs) == MissingParams(ys, attrs)
  {
  }

  /** Order and repetition of conditions do not matter. */
  lemma OrderIrrelevant(xs: seq<Condition>, ys: seq<Condition>, attrs: Attributes)
    requires forall c :: c in xs <==> c in ys
    ensures EvaluateRegulation(xs, attrs).status == EvaluateRegulation(ys, attrs).status
    ensures EvaluateRegulation(xs, attrs).missing == EvaluateRegulation(ys, attrs).missing
  {
    assert xs != [] ==> xs[0] in ys;
    assert ys != [] ==> ys[0] in xs;
    SameTests(xs, ys, attrs);
    SameMissing(xs, ys, attrs);
    StatusMeaning(xs, attrs);
    StatusMeaning(ys, attrs);
    MissingReported(xs, attrs);
    MissingReported(ys, attrs);
  }

  /** Missing attributes are reported exactly with POSSIBLY_APPLIES. */
  lemma MissingReported(conds: seq<Condition>, attrs: Attributes)
    ensures var v := EvaluateRegulation(conds, attrs);
            v.missing == if v.status == PossiblyApplies then MissingParams(conds, attrs) else {}
  {
  }

  /** Which conditions drive each verdict: those that exclude, those unreadable, or those met. */
  lemma DriversExplain(conds: seq<Condition>, attrs: Attributes, c: Condition)
    ensures var v := EvaluateRegulation(conds, attrs);
            && (v.status == Excluded ==>
                  (c in v.drivers <==> c in conds && ((c.kind == Exclusion && Evaluate(c, attrs) == True)
                                                      || (c.kind == Inclusion && Evaluate(c, attrs) == False))))
            && (v.status == Uncertain ==> (c in v.drivers <==> c in conds && Evaluate(c, attrs) == Unknown))
            && (v.status == PossiblyApplies ==>
                  (c in v.drivers <==> c in conds && c.kind == Inclusion && Evaluate(c, attrs) == True))
            && (v.status == Applies && AnyMet(conds, attrs) ==>
                  (c in v.drivers <==> c in conds && c.kind == Inclusion && Evaluate(c, attrs) == True))
            && (v.status == Applies && !AnyMet(conds, attrs) ==> v.drivers == conds)
  {
    StatusMeaning(conds, attrs);
    var triggered := Filter(conds, c => TriggeredExclusion(c, attrs));
    var failed := Filter(conds, c => FailedInclusion(c, attrs));
    var satisfied := Filter(conds, c => SatisfiedInclusion(c, attrs));
    assert c in triggered + failed <==> c in triggered || c in failed;
    if d :| d in conds && d.kind == Inclusion && Evaluate(d, attrs) == True {
      assert d in satisfied;
    } else if satisfied != [] {
      assert satisfied[0] in satisfied;
    }
  }

  /** Some inclusion condition is met. */
  predicate AnyMet(conds: seq<Condition>, attrs: Attributes) {
    exists c | c in conds :: c.kind == Inclusion && Evaluate(c, attrs) == True
  }

  /** Exclusions that fired are listed before inclusions that failed. */
  lemma ExclusionsFirst(conds: seq<Condition>, attrs: Attributes, i: nat, j: nat)
    requires EvaluateRegulation(conds, attrs).status == Excluded
    requires i < j < |EvaluateRegulation(conds, attrs).drivers|
    ensures var ds := EvaluateRegulation(conds, attrs).drivers;
            ds[j].kind == Exclusion ==> ds[i].kind == Exclusion
  {
    StatusMeaning(conds, attrs);
    var triggered := Filter(conds, c => TriggeredExclusion(c, attrs));
    var failed := Filter(conds, c => FailedInclusion(c, attrs));
    var ds := EvaluateRegulation(conds, attrs).drivers;
    assert ds == triggered + failed;
    if i < |triggered| {
      assert ds[i] in triggered;
    } else {
      assert ds[j] in failed;
    }
  }

  /** A driver is one of the regulation's own conditions, and it justifies the status. */
  lemma DriversAreOwn(conds: seq<Condition>, attrs: Attributes)
    ensures var v := EvaluateRegulation(conds, attrs);
            && (forall c | c in v.drivers :: c in conds)
            && (v.drivers == [] ==> conds == [] || v.status == PossiblyApplies)
            && (v.status == Applies ==>
                  forall c | c in v.drivers ::
                    || (c.kind == Inclusion && Evaluate(c, attrs) == True)
                    || (c.kind == Exclusion && Evaluate(c, attrs) == False)
                    || c.param == Some(""))
  {
    StatusMeaning(conds, attrs);
    var v := EvaluateRegulation(conds, attrs);
    if v.status == Applies {
      forall c | c in v.drivers
        ensures || (c.kind == Inclusion && Evaluate(c, attrs) == True)
                || (c.kind == Exclusion && Evaluate(c, attrs) == False)
                || c.param == Some("")
      {
        if Evaluate(c, attrs) == Missing && c.param != Some("") {
          MissingIsListed(conds, attrs, c);
        }
      }
    }
  }
}
