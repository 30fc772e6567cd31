/**
 Writers and reverse query of the HS index together: which regulations a product code finds, told
 from the codes that were mapped and not from the rows.
 */
module HsCoverage {
  import opened Options
  import opened Review
  import opened HsMapper

  /** Equal, or the same six-digit heading. */
  predicate Related(u: string, code: string) {
    u != "" && code != "" && (u == code || (|u| >= 6 && |code| >= 6 && u[..6] == code[..6]))
  }

  predicate Covered(t: Table, reg: RegId, u: string) {
    exists k | k in t :: k.reg == reg && Related(u, Digits(k.code))
  }

  /** What one mapping offers a product code: any related literal code, or a related guess of six digits or more. */
  predicate Offers(m: Mapping, reg: RegId, u: string) {
    m.reg == reg &&
    match m
    case LiteralCodes(_, codes) => LiteralOffers(codes, u)
    case InferredCodes(_, guesses) => GuessOffers(guesses, u)
  }

  predicate LiteralOffers(codes: seq<string>, u: string) {
    exists raw | raw in codes :: Related(u, Digits(raw))
  }

  predicate GuessOffers(guesses: seq<Guess>, u: string) {
    exists g | g in guesses :: |Digits(g.code)| >= 6 && Related(u, Digits(g.code))
  }

  /** The call went through; inference with a confidence outside [0, 1] does not. */
  predicate Accepted(nomenclature: set<string>, ms: seq<Mapping>, i: nat)
    requires i < |ms|
  {
    ms[i].InferredCodes? ==> AddAll(PerformAll(map[], nomenclature, ms[..i]), ms[i].reg, ms[i].guesses).Ok?
  }

  /** Falling back to a six-digit parent loses no related product code and gains none. */
  lemma FallbackKeepsRelated(nomenclature: set<string>, raw: string, u: string)
    ensures Related(u, Digits(EntryFor(nomenclature, raw).code)) <==> Related(u, Digits(raw))
  {
    DigitsAreDigits(raw);
    DigitsOfDigits(Digits(raw));
    if |Digits(raw)| >= 6 {
      DigitsOfDigits(Digits(raw)[..6]);
    }
  }

  lemma CoveredWith(t: Table, k: Key, row: Row, reg: RegId, u: string)
    ensures Covered(t[k := row], reg, u) <==> Covered(t, reg, u) || (k.reg == reg && Related(u, Digits(k.code)))
  {
    var t1 := t[k := row];
    if j :| j in t && j.reg == reg && Related(u, Digits(j.code)) {
      assert j in t1;
    }
    if k.reg == reg && Related(u, Digits(k.code)) {
      assert k in t1;
    }
  }

  lemma {:induction false} LiteralCovers(t: Table, nomenclature: set<string>, r: RegId, codes: seq<string>, reg: RegId,
                                         u: string)
    ensures Covered(Literal(t, nomenclature, r, codes), reg, u)
            <==> Covered(t, reg, u) || Offers(LiteralCodes(r, codes), reg, u)
  {
    if codes != [] {
      var n := |codes| - 1;
      var es := EntriesFor(nomenclature, codes);
      assert es[..n] == EntriesFor(nomenclature, codes[..n]) && es[n] == EntryFor(nomenclature, codes[n]);
      LiteralCovers(t, nomenclature, r, codes[..n], reg, u);
      FallbackKeepsRelated(nomenclature, codes[n], u);
      var t1, k := UpsertAll(t, r, es[..n]), Key(es[n].code, r);
      CoveredWith(t1, k, Upsert(t1, r, es[n])[k], reg, u);
      assert codes == codes[..n] + [codes[n]];
    }
  }

  lemma {:induction false} InferenceCovers(t: Table, r: RegId, gs: seq<Guess>, reg: RegId, u: string)
    requires AddAll(t, r, gs).Ok?
    ensures Covered(AddAll(t, r, gs).value, reg, u) <==> Covered(t, reg, u) || Offers(InferredCodes(r, gs), reg, u)
  {
    if gs != [] {
      var n := |gs| - 1;
      InferenceCovers(t, r, gs[..n], reg, u);
      AddCovers(AddAll(t, r, gs[..n]).value, r, gs[n], reg, u);
      assert gs == gs[..n] + [gs[n]];
    }
  }

  lemma AddCovers(t: Table, r: RegId, g: Guess, reg: RegId, u: string)
    requires Add(t, r, g).Ok?
    ensures Covered(Add(t, r, g).value, reg, u) <==>
              Covered(t, reg, u) || (r == reg && |Digits(g.code)| >= 6 && Related(u, Digits(g.code)))
  {
    DigitsAreDigits(g.code);
    DigitsOfDigits(Digits(g.code));
    var k := Key(Digits(g.code), r);
    if |k.code| >= 6 {
      if k in t {
        assert t[k := t[k]] == t;
        CoveredWith(t, k, t[k], reg, u);
      } else {
        CoveredWith(t, k, Row(Some(g.confidence), Inferred, Pending), reg, u);
      }
    }
  }

  /** Mapping i went through and offered a related code. */
  predicate MappedAt(nomenclature: set<string>, ms: seq<Mapping>, i: nat, reg: RegId, u: string)
    requires i < |ms|
  {
    Accepted(nomenclature, ms, i) && Offers(ms[i], reg, u)
  }

  predicate Mapped(nomenclature: set<string>, ms: seq<Mapping>, reg: RegId, u: string) {
    exists i | 0 <= i < |ms| :: MappedAt(nomenclature, ms, i, reg, u)
  }

  lemma MappedAtSnoc(nomenclature: set<string>, ms: seq<Mapping>, i: nat, reg: RegId, u: string)
    requires i < |ms| - 1
    ensures MappedAt(nomenclature, ms[..|ms| - 1], i, reg, u) <==> MappedAt(nomenclature, ms, i, reg, u)
  {
    assert ms[..|ms| - 1][..i] == ms[..i];
  }

  lemma MappedSnoc(nomenclature: set<string>, ms: seq<Mapping>, reg: RegId, u: string)
    requires ms != []
    ensures var n := |ms| - 1;
            Mapped(nomenclature, ms, reg, u) <==>
              Mapped(nomenclature, ms[..n], reg, u) || MappedAt(nomenclature, ms, n, reg, u)
  {
    var front := ms[..|ms| - 1];
    forall i | 0 <= i < |front| {
      MappedAtSnoc(nomenclature, ms, i, reg, u);
    }
    if i :| 0 <= i < |front| && MappedAt(nomenclature, front, i, reg, u) {
      assert MappedAt(nomenclature, ms, i, reg, u);
    }
  }

  lemma {:induction false} RunCovers(nomenclature: set<string>, ms: seq<Mapping>, reg: RegId, u: string)
    ensures Covered(PerformAll(map[], nomenclature, ms), reg, u) <==> Mapped(nomenclature, ms, reg, u)
  {
    if ms != [] {
      var n := |ms| - 1;
      var t := PerformAll(map[], nomenclature, ms[..n]);
      RunCovers(nomenclature, ms[..n], reg, u);
      MappedSnoc(nomenclature, ms, reg, u);
      match ms[n] {
        case LiteralCodes(r, codes) => LiteralCovers(t, nomenclature, r, codes, reg, u);
        case InferredCodes(r, guesses) =>
          if AddAll(t, r, guesses).Ok? {
            InferenceCovers(t, r, guesses, reg, u);
          }
      }
    }
  }

  /** The rows read are those of the table, in any order. */
  ghost predicate RowsOf(rows: seq<Hit>, t: Table) {
    forall h :: h in rows <==> h.key in t && h.row == t[h.key]
  }

  lemma AnswerableIsCovered(u: string, rows: seq<Hit>, t: Table, reg: RegId)
    requires RowsOf(rows, t)
    ensures Answerable(u, rows, reg) <==> Covered(t, reg, u)
  {
    if Answerable(u, rows, reg) {
      var h :| h in rows && Matches(u, h, reg);
      assert h.key in t && Related(u, Digits(h.key.code));
    }
    if k :| k in t && k.reg == reg && Related(u, Digits(k.code)) {
      assert Hit(k, t[k]) in rows && Matches(u, Hit(k, t[k]), reg);
    }
  }

  /**
   No candidate is missed and none is made up: after any sequence of the two mappers, a product code
   finds a regulation exactly when some accepted mapping offered it a related code.
   */
  lemma NeverMisses(nomenclature: set<string>, ms: seq<Mapping>, rows: seq<Hit>, reg: RegId, u: string)
    requires RowsOf(rows, PerformAll(map[], nomenclature, ms))
    ensures Answerable(u, rows, reg) <==> Mapped(nomenclature, ms, reg, u)
  {
    AnswerableIsCovered(u, rows, PerformAll(map[], nomenclature, ms), reg);
    RunCovers(nomenclature, ms, reg, u);
  }
}
