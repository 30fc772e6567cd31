/**
 The HS code index of engine/hs_mapper.py: two writers that upsert or add rows, and the reverse
 query that keeps the best row per regulation while rounding inside its loop.
 */
module HsMapper {
  import opened Options
  import opened Review
  import opened Rounding

  datatype MatchType = Exact | Fuzzy | Manual | Inferred

  datatype Key = Key(code: string, reg: RegId)

  datatype Row = Row(confidence: Option<real>, match_: MatchType, status: ReviewStatus)

  /** The unique constraint on (code, regulation) makes the table a map. */
  type Table = map<Key, Row>

  datatype Entry = Entry(code: string, confidence: real, match_: MatchType, status: ReviewStatus)

  datatype Guess = Guess(code: string, confidence: real)

  function Digits(s: string): string {
    if s == "" then ""
    else (if '0' <= s[0] <= '9' then [s[0]] else "") + Digits(s[1..])
  }

  /** What a literal code asks for; it depends on the nomenclature, not on the table. */
  function EntryFor(nomenclature: set<string>, raw: string): Entry {
    var code := Digits(raw);
    if |code| < 6 then Entry(if code != "" then code else raw, 0.3, Fuzzy, Pending)
    else if code in nomenclature then Entry(code, 1.0, Exact, AutoApproved)
    else if code[..6] in nomenclature then Entry(code[..6], 0.7, Fuzzy, Pending)
    else Entry(code, 0.3, Fuzzy, Pending)
  }

  /** Insert, or refresh everything but the review status. */
  function Upsert(t: Table, reg: RegId, e: Entry): Table {
    var k := Key(e.code, reg);
    t[k := Row(Some(e.confidence), e.match_, if k in t then t[k].status else e.status)]
  }

  function EntriesFor(nomenclature: set<string>, codes: seq<string>): seq<Entry> {
    seq(|codes|, i requires 0 <= i < |codes| => EntryFor(nomenclature, codes[i]))
  }

  function UpsertAll(t: Table, reg: RegId, es: seq<Entry>): Table {
    if es == [] then t else Upsert(UpsertAll(t, reg, es[..|es| - 1]), reg, es[|es| - 1])
  }

  function Literal(t: Table, nomenclature: set<string>, reg: RegId, codes: seq<string>): Table {
    UpsertAll(t, reg, EntriesFor(nomenclature, codes))
  }

  /** A guess adds a pending row or nothing; a confidence outside [0, 1] is rejected by the table. */
  function Add(t: Table, reg: RegId, g: Guess): Result<Table> {
    var k := Key(Digits(g.code), reg);
    if |k.code| < 6 || k in t then Ok(t)
    else if !InUnit(g.confidence) then Err
    else Ok(t[k := Row(Some(g.confidence), Inferred, Pending)])
  }

  function AddAll(t: Table, reg: RegId, gs: seq<Guess>): Result<Table> {
    if gs == [] then Ok(t)
    else
      var r := AddAll(t, reg, gs[..|gs| - 1]);
      if r.Err? then Err else Add(r.value, reg, gs[|gs| - 1])
  }

  // ---- what the writers keep -------------------------------------------

  /** Rows stay, and a review status once given is never changed. */
  predicate KeepsReviews(t: Table, u: Table) {
    forall k | k in t :: k in u && u[k].status == t[k].status
  }

  function LastFor(es: seq<Entry>, code: string): Option<Entry> {
    if es == [] then None
    else if es[|es| - 1].code == code then Some(es[|es| - 1])
    else LastFor(es[..|es| - 1], code)
  }

  function FirstFor(es: seq<Entry>, code: string): Option<Entry> {
    if es == [] then None
    else if es[0].code == code then Some(es[0])
    else FirstFor(es[1..], code)
  }

  lemma {:induction false} FirstForSnoc(es: seq<Entry>, code: string)
    requires es != []
    ensures var n := |es| - 1;
            FirstFor(es, code) == if FirstFor(es[..n], code).Some? then FirstFor(es[..n], code)
                                  else if es[n].code == code then Some(es[n]) else None
  {
    if |es| > 1 && es[0].code != code {
      FirstForSnoc(es[1..], code);
      assert es[..|es| - 1][1..] == es[1..][..|es| - 2];
    }
  }

  /** The row of a key after a run of upserts: values from its last writer, status from its first. */
  lemma {:induction false} UpsertsClosed(t: Table, reg: RegId, es: seq<Entry>, k: Key)
    ensures var u := UpsertAll(t, reg, es);
            var first, last := FirstFor(es, k.code), LastFor(es, k.code);
            && (first.Some? <==> last.Some?)
            && (k in u <==> k in t || (k.reg == reg && last.Some?))
            && (k in u && (k.reg != reg || last.None?) ==> u[k] == t[k])
            && (k in u && k.reg == reg && last.Some? ==>
                  && u[k].confidence == Some(last.value.confidence)
                  && u[k].match_ == last.value.match_
                  && u[k].status == if k in t then t[k].status else first.value.status)
  {
    if es != [] {
      FirstForSnoc(es, k.code);
      UpsertsClosed(t, reg, es[..|es| - 1], k);
    }
  }

  /** Mapping one list of literal codes twice is mapping it once. */
  lemma LiteralIdempotent(t: Table, nomenclature: set<string>, reg: RegId, codes: seq<string>)
    ensures var u := Literal(t, nomenclature, reg, codes);
            Literal(u, nomenclature, reg, codes) == u
  {
    var es := EntriesFor(nomenclature, codes);
    var u := UpsertAll(t, reg, es);
    var v := UpsertAll(u, reg, es);
    forall k
      ensures k in u <==> k in v
      ensures k in u ==> u[k] == v[k]
    {
      UpsertsClosed(t, reg, es, k);
      UpsertsClosed(u, reg, es, k);
    }
  }

  /**
   A fuzzy row escapes the pending queue exactly when its key was already reviewed or was first
   written as an exact match in the same list.
   */
  lemma FuzzyEscapesExactly(t: Table, nomenclature: set<string>, reg: RegId, codes: seq<string>, code: string)
    requires var es := EntriesFor(nomenclature, codes); FirstFor(es, code).Some? && LastFor(es, code).Some?
    ensures var es, k := EntriesFor(nomenclature, codes), Key(code, reg);
            var u := Literal(t, nomenclature, reg, codes);
            && k in u
            && (u[k].match_ == Fuzzy && u[k].status != Pending <==>
                  && LastFor(es, code).value.match_ == Fuzzy
                  && (if k in t then t[k].status != Pending else FirstFor(es, code).value.match_ == Exact))
  {
    var es := EntriesFor(nomenclature, codes);
    UpsertsClosed(t, reg, es, Key(code, reg));
    FirstIsEntry(es, code);
  }

  lemma {:induction false} FirstIsEntry(es: seq<Entry>, code: string)
    requires FirstFor(es, code).Some?
    ensures FirstFor(es, code).value in es
  {
    if es[0].code != code {
      FirstIsEntry(es[1..], code);
    }
  }

  predicate AllDigits(s: string) {
    forall i | 0 <= i < |s| :: '0' <= s[i] <= '9'
  }

  /** A known six-digit code followed by one of its unknown extensions: fuzzy, yet auto-approved. */
  lemma FuzzyAutoApproved(reg: RegId, six: string, long: string)
    requires AllDigits(six) && AllDigits(long) && |six| == 6 && |long| > 6 && long[..6] == six
    ensures Literal(map[], {six}, reg, [six, long]) == map[Key(six, reg) := Row(Some(0.7), Fuzzy, AutoApproved)]
  {
    DigitsOfDigits(six);
    DigitsOfDigits(long);
    var es := EntriesFor({six}, [six, long]);
    assert es[0] == Entry(six, 1.0, Exact, AutoApproved);
    assert es[1] == Entry(six, 0.7, Fuzzy, Pending);
    assert es[..1] == [es[0]] && es[..1][..0] == [];
    var t: Table := map[];
    assert UpsertAll(t, reg, es[..1]) == Upsert(t, reg, es[0]);
  }

  lemma {:induction false} DigitsOfDigits(s: string)
    requires AllDigits(s)
    ensures Digits(s) == s
  {
    if s != "" {
      DigitsOfDigits(s[1..]);
      assert s == [s[0]] + s[1..];
    }
  }

  /** Inference touches no existing row, adds only pending inferred ones, and only well-formed codes. */
  lemma {:induction false} AddsOnly(t: Table, reg: RegId, gs: seq<Guess>)
    requires AddAll(t, reg, gs).Ok?
    ensures var u := AddAll(t, reg, gs).value;
            && |t| <= |u|
            && (forall k | k in t :: k in u && u[k] == t[k])
            && (forall k | k in u && k !in t ::
                  k.reg == reg && |k.code| >= 6 && u[k].match_ == Inferred && u[k].status == Pending)
  {
    if gs != [] {
      AddsOnly(t, reg, gs[..|gs| - 1]);
    }
  }

  /** The first guess of this code. */
  function FirstGuess(gs: seq<Guess>, code: string): Option<Guess> {
    if gs == [] then None
    else if Digits(gs[0].code) == code then Some(gs[0])
    else FirstGuess(gs[1..], code)
  }

  lemma {:induction false} FirstGuessSnoc(gs: seq<Guess>, code: string)
    requires gs != []
    ensures var n := |gs| - 1;
            FirstGuess(gs, code) == if FirstGuess(gs[..n], code).Some? then FirstGuess(gs[..n], code)
                                    else if Digits(gs[n].code) == code then Some(gs[n]) else None
  {
    if |gs| > 1 && Digits(gs[0].code) != code {
      FirstGuessSnoc(gs[1..], code);
      assert gs[..|gs| - 1][1..] == gs[1..][..|gs| - 2];
    }
  }

  /** A key has a row after inference exactly when it had one or was guessed with six digits; the first guess counts. */
  lemma {:induction false} InferenceClosed(t: Table, reg: RegId, gs: seq<Guess>, k: Key)
    requires AddAll(t, reg, gs).Ok?
    ensures var u, first := AddAll(t, reg, gs).value, FirstGuess(gs, k.code);
            && (k in u <==> k in t || (k.reg == reg && |k.code| >= 6 && first.Some?))
            && (k in t ==> u[k] == t[k])
            && (k in u && k !in t ==> u[k] == Row(Some(first.value.confidence), Inferred, Pending))
  {
    if gs != [] {
      FirstGuessSnoc(gs, k.code);
      InferenceClosed(t, reg, gs[..|gs| - 1], k);
    }
  }

  /** What one literal code leaves behind, told from its digits. */
  lemma OneLiteralCode(nomenclature: set<string>, reg: RegId, raw: string)
    ensures var code, t := Digits(raw), Literal(map[], nomenclature, reg, [raw]);
            && (|code| >= 6 && code in nomenclature ==> t == map[Key(code, reg) := Row(Some(1.0), Exact, AutoApproved)])
            && (|code| >= 6 && code !in nomenclature && code[..6] in nomenclature ==>
                  t == map[Key(code[..6], reg) := Row(Some(0.7), Fuzzy, Pending)])
            && (|code| >= 6 && code !in nomenclature && code[..6] !in nomenclature ==>
                  t == map[Key(code, reg) := Row(Some(0.3), Fuzzy, Pending)])
            && (0 < |code| < 6 ==> t == map[Key(code, reg) := Row(Some(0.3), Fuzzy, Pending)])
            && (code == "" ==> t == map[Key(raw, reg) := Row(Some(0.3), Fuzzy, Pending)])
  {
    var es, empty: Table := EntriesFor(nomenclature, [raw]), map[];
    assert es == [EntryFor(nomenclature, raw)] && es[..0] == [];
    assert UpsertAll(empty, reg, es) == Upsert(empty, reg, es[0]);
  }

  /** The digits of a text, in order: a part at a time, each digit kept and nothing else. */
  lemma {:induction false} DigitsConcat(a: string, b: string)
    ensures Digits(a + b) == Digits(a) + Digits(b)
  {
    if a == "" {
      assert a + b == b;
    } else {
      assert (a + b)[1..] == a[1..] + b;
      DigitsConcat(a[1..], b);
    }
  }

  datatype Mapping = LiteralCodes(reg: RegId, codes: seq<string>) | InferredCodes(reg: RegId, guesses: seq<Guess>)

  function Perform(t: Table, nomenclature: set<string>, m: Mapping): Table {
    match m
    case LiteralCodes(reg, codes) => Literal(t, nomenclature, reg, codes)
    case InferredCodes(reg, guesses) =>
      var r := AddAll(t, reg, guesses);
      if r.Ok? then r.value else t
  }

  function PerformAll(t: Table, nomenclature: set<string>, ms: seq<Mapping>): Table {
    if ms == [] then t else Perform(PerformAll(t, nomenclature, ms[..|ms| - 1]), nomenclature, ms[|ms| - 1])
  }

  lemma LiteralKeepsReviews(t: Table, nomenclature: set<string>, reg: RegId, codes: seq<string>)
    ensures KeepsReviews(t, Literal(t, nomenclature, reg, codes))
  {
    forall k | k in t {
      UpsertsClosed(t, reg, EntriesFor(nomenclature, codes), k);
    }
  }

  /** Over any sequence of the two mappers rows never disappear and keep their review status. */
  lemma {:induction false} MappersKeepReviews(t: Table, nomenclature: set<string>, ms: seq<Mapping>)
    ensures KeepsReviews(t, PerformAll(t, nomenclature, ms))
  {
    if ms != [] {
      var n := |ms| - 1;
      var u := PerformAll(t, nomenclature, ms[..n]);
      MappersKeepReviews(t, nomenclature, ms[..n]);
      match ms[n] {
        case LiteralCodes(reg, codes) => LiteralKeepsReviews(u, nomenclature, reg, codes);
        case InferredCodes(reg, guesses) =>
          if AddAll(u, reg, guesses).Ok? {
            AddsOnly(u, reg, guesses);
          }
      }
    }
  }

  /**
   How a row of the index may look: an auto-approved code is a digit code of the nomenclature, and
   if it is fuzzy it is a six-digit parent; an exact row is certain; an inferred row is pending.
   */
  predicate Routed(nomenclature: set<string>, k: Key, row: Row) {
    && (row.match_ == Exact || row.status == AutoApproved ==>
          AllDigits(k.code) && |k.code| >= 6 && k.code in nomenclature)
    && (row.match_ == Exact ==> row.confidence == Some(1.0))
    && (row.status == AutoApproved && row.match_ != Exact ==>
          row == Row(Some(0.7), Fuzzy, AutoApproved) && |k.code| == 6)
    && (row.match_ == Inferred ==> row.status == Pending)
    && row.match_ != Manual
    && row.confidence.Some? && InUnit(row.confidence.value)
  }

  predicate AllRouted(t: Table, nomenclature: set<string>) {
    forall k | k in t :: Routed(nomenclature, k, t[k])
  }

  lemma {:induction false} DigitsAreDigits(s: string)
    ensures AllDigits(Digits(s))
    ensures s != "" && AllDigits(s) ==> Digits(s) != ""
  {
    if s != "" {
      DigitsAreDigits(s[1..]);
    }
  }

  lemma UpsertRouted(t: Table, nomenclature: set<string>, reg: RegId, raw: string)
    requires AllRouted(t, nomenclature)
    ensures AllRouted(Upsert(t, reg, EntryFor(nomenclature, raw)), nomenclature)
  {
    DigitsAreDigits(raw);
  }

  lemma {:induction false} LiteralRouted(t: Table, nomenclature: set<string>, reg: RegId, codes: seq<string>)
    requires AllRouted(t, nomenclature)
    ensures AllRouted(Literal(t, nomenclature, reg, codes), nomenclature)
  {
    if codes != [] {
      var n := |codes| - 1;
      var es := EntriesFor(nomenclature, codes);
      LiteralRouted(t, nomenclature, reg, codes[..n]);
      assert es[..n] == EntriesFor(nomenclature, codes[..n]) && es[n] == EntryFor(nomenclature, codes[n]);
      UpsertRouted(UpsertAll(t, reg, es[..n]), nomenclature, reg, codes[n]);
    }
  }

  lemma {:induction false} InferenceRouted(t: Table, nomenclature: set<string>, reg: RegId, gs: seq<Guess>)
    requires AllRouted(t, nomenclature) && AddAll(t, reg, gs).Ok?
    ensures AllRouted(AddAll(t, reg, gs).value, nomenclature)
  {
    if gs != [] {
      InferenceRouted(t, nomenclature, reg, gs[..|gs| - 1]);
    }
  }

  /** Over any sequence of the two mappers, nothing outside the nomenclature is ever approved unseen. */
  lemma {:induction false} ApprovedAreKnown(nomenclature: set<string>, ms: seq<Mapping>)
    ensures AllRouted(PerformAll(map[], nomenclature, ms), nomenclature)
  {
    if ms != [] {
      var n := |ms| - 1;
      var u := PerformAll(map[], nomenclature, ms[..n]);
      ApprovedAreKnown(nomenclature, ms[..n]);
      match ms[n] {
        case LiteralCodes(reg, codes) => LiteralRouted(u, nomenclature, reg, codes);
        case InferredCodes(reg, guesses) =>
          if AddAll(u, reg, guesses).Ok? {
            InferenceRouted(u, nomenclature, reg, guesses);
          }
      }
    }
  }

  class HsIndex {
    var rows: Table
    const nomenclature: set<string>

    constructor (nomenclature: set<string>)
      ensures rows == map[] && this.nomenclature == nomenclature
    {
      rows := map[];
      this.nomenclature := nomenclature;
    }

    method UpsertRow(reg: RegId, e: Entry)
      modifies this`rows
      ensures rows == Upsert(old(rows), reg, e)
    {
      var k := Key(e.code, reg);
      var status := if k in rows then rows[k].status else e.status;
      rows := rows[k := Row(Some(e.confidence), e.match_, status)];
    }

    method MapRegulationHsCodes(reg: RegId, codes: seq<string>)
      modifies this`rows
      ensures rows == Literal(old(rows), nomenclature, reg, codes)
    {
      ghost var es := EntriesFor(nomenclature, codes);
      var i := 0;
      while i < |codes|
        invariant 0 <= i <= |codes|
        invariant rows == UpsertAll(old(rows), reg, es[..i])
      {
        assert es[..i + 1][..i] == es[..i] && es[..i + 1][i] == EntryFor(nomenclature, codes[i]);
        var code := Digits(codes[i]);
        if |code| < 6 {
          UpsertRow(reg, Entry(if code != "" then code else codes[i], 0.3, Fuzzy, Pending));
        } else if code in nomenclature {
          UpsertRow(reg, Entry(code, 1.0, Exact, AutoApproved));
        } else {
          var six := code[..6];
          if six in nomenclature {
            UpsertRow(reg, Entry(six, 0.7, Fuzzy, Pending));
          } else {
            UpsertRow(reg, Entry(code, 0.3, Fuzzy, Pending));
          }
        }
        i := i + 1;
      }
      assert es[..i] == es;
    }

    /** Returns the number of rows added; a rejected row undoes the whole call. */
    method MapInferredHsCodes(reg: RegId, guesses: seq<Guess>) returns (written: Result<nat>)
      modifies this`rows
      ensures written.Ok? <==> AddAll(old(rows), reg, guesses).Ok?
      ensures written.Ok? ==> rows == AddAll(old(rows), reg, guesses).value
                              && written.value == |rows| - |old(rows)|
      ensures written.Err? ==> rows == old(rows)
    {
      var before := rows;
      var count, i := 0, 0;
      while i < |guesses|
        invariant 0 <= i <= |guesses|
        invariant AddAll(old(rows), reg, guesses[..i]) == Ok(rows)
        invariant |rows| == |old(rows)| + count
      {
        assert guesses[..i + 1][..i] == guesses[..i];
        var k := Key(Digits(guesses[i].code), reg);
        if |k.code| >= 6 && k !in rows {
          if !InUnit(guesses[i].confidence) {
            AddFails(old(rows), reg, guesses, i + 1);
            rows := before;
            return Err;
          }
          rows := rows[k := Row(Some(guesses[i].confidence), Inferred, Pending)];
          count := count + 1;
        }
        i := i + 1;
      }
      assert guesses[..i] == guesses;
      return Ok(count);
    }
  }

  lemma {:induction false} AddFails(t: Table, reg: RegId, gs: seq<Guess>, i: nat)
    requires i <= |gs| && AddAll(t, reg, gs[..i]).Err?
    ensures AddAll(t, reg, gs).Err?
  {
    if i == |gs| {
      assert gs[..i] == gs;
    } else {
      assert gs[..|gs| - 1][..i] == gs[..i];
      AddFails(t, reg, gs[..|gs| - 1], i);
    }
  }

  // ---- reverse query ----------------------------------------------------

  /** One row as the query reads it. */
  datatype Hit = Hit(key: Key, row: Row)

  datatype Candidate = Candidate(reg: RegId, confidence: real, match_: MatchType, code: string, status: ReviewStatus)

  function MatchScore(u: string, code: string, stored: real): Option<real> {
    if u == "" || code == "" then None
    else if u == code then Some(stored)
    else if |u| >= 6 && |code| >= 6 && u[..6] == code[..6] then
      if code <= u || u <= code then Some(stored * 0.85) else Some(stored * 0.7)
    else None
  }

  /** Codes match exactly when equal or sharing six digits, in either order, and never score above what is stored. */
  lemma MatchesExactly(u: string, code: string, stored: real)
    requires InUnit(stored)
    ensures MatchScore(u, code, stored).Some? <==> u != "" && code != "" && (u == code || |LongestCommon(u, code)| >= 6)
    ensures MatchScore(u, code, stored) == MatchScore(code, u, stored)
    ensures MatchScore(u, code, stored).Some? ==> 0.0 <= MatchScore(u, code, stored).value <= stored
    ensures MatchScore(u, code, stored).Some? && stored > 0.0 ==>
              (MatchScore(u, code, stored).value == stored <==> u == code)
  {
    CommonPrefix(u, code, 6);
  }

  /** A full match scores as stored, a code within the other 85 percent of that, codes that part later 70 percent. */
  lemma ScoreMeans(u: string, h: Hit)
    requires Score(u, h).Some?
    ensures var code, common := Digits(h.key.code), LongestCommon(u, Digits(h.key.code));
            var stored := if h.row.confidence.Some? then h.row.confidence.value else 0.0;
            && (common == u && common == code ==> Score(u, h).value == stored)
            && (common == u && common != code ==> Score(u, h).value == stored * 0.85)
            && (common != u && common == code ==> Score(u, h).value == stored * 0.85)
            && (common != u && common != code ==> Score(u, h).value == stored * 0.7)
  {
    CommonIsPrefix(u, Digits(h.key.code));
  }

  lemma {:induction false} CommonIsPrefix(a: string, b: string)
    ensures LongestCommon(a, b) == a <==> a <= b
    ensures LongestCommon(a, b) == b <==> b <= a
  {
    if a != "" && b != "" && a[0] == b[0] {
      CommonIsPrefix(a[1..], b[1..]);
      assert a == [a[0]] + a[1..] && b == [b[0]] + b[1..];
      var c := LongestCommon(a[1..], b[1..]);
      assert LongestCommon(a, b)[1..] == c;
    }
  }

  function LongestCommon(a: string, b: string): string {
    if a == "" || b == "" || a[0] != b[0] then "" else [a[0]] + LongestCommon(a[1..], b[1..])
  }

  lemma {:induction false} CommonPrefix(a: string, b: string, n: nat)
    ensures |LongestCommon(a, b)| >= n <==> |a| >= n && |b| >= n && a[..n] == b[..n]
  {
    if n > 0 && a != "" && b != "" {
      CommonPrefix(a[1..], b[1..], n - 1);
      if |a| >= n && |b| >= n {
        assert a[..n] == [a[0]] + a[1..][..n - 1] && b[..n] == [b[0]] + b[1..][..n - 1];
        assert a[..n] == b[..n] ==> a[..n][0] == b[..n][0] && a[..n][1..] == b[..n][1..];
        assert a[..n][1..] == a[1..][..n - 1] && b[..n][1..] == b[1..][..n - 1];
      }
    }
  }

  function Score(u: string, h: Hit): Option<real> {
    MatchScore(u, Digits(h.key.code), if h.row.confidence.Some? then h.row.confidence.value else 0.0)
  }

  predicate Matches(u: string, h: Hit, reg: RegId) {
    h.key.reg == reg && Score(u, h).Some?
  }

  /** m is the highest score of the regulation's rows. */
  ghost predicate IsBest(u: string, rows: seq<Hit>, reg: RegId, m: real) {
    && (exists h | h in rows :: Matches(u, h, reg) && Score(u, h).value == m)
    && (forall h | h in rows && Matches(u, h, reg) :: Score(u, h).value <= m)
  }

  /** The candidate reports a row of its regulation that scores, up to rounding, as high as any. */
  ghost predicate Faithful(u: string, rows: seq<Hit>, c: Candidate) {
    && (exists m :: IsBest(u, rows, c.reg, m) && c.confidence == Round3(m))
    && (exists h | h in rows :: Matches(u, h, c.reg) && c.confidence == Round3(Score(u, h).value)
                                && c.code == h.key.code && c.match_ == h.row.match_ && c.status == h.row.status)
  }

  predicate Answerable(u: string, rows: seq<Hit>, reg: RegId) {
    exists h | h in rows :: Matches(u, h, reg)
  }

  predicate Listed(found: seq<Candidate>, reg: RegId) {
    exists c | c in found :: c.reg == reg
  }

  ghost predicate AnswersFor(u: string, rows: seq<Hit>, best: map<RegId, Candidate>, r: RegId) {
    && (r in best <==> Answerable(u, rows, r))
    && (r in best ==> best[r].reg == r && Faithful(u, rows, best[r]))
  }

  ghost predicate Answers(u: string, rows: seq<Hit>, best: map<RegId, Candidate>) {
    forall r :: AnswersFor(u, rows, best, r)
  }

  /** Comparing a raw score with a rounded best still ends at the rounded maximum. */
  lemma RoundedMaximum(best: real, score: real)
    ensures var kept := if score > Round3(best) then Round3(score) else Round3(best);
            kept == Round3(if score > best then score else best)
  {
    Round3Idempotent(best);
    if score > Round3(best) {
      Round3Monotone(Round3(best), score);
      if score <= best {
        Round3Monotone(score, best);
      }
    } else if score > best {
      Round3Monotone(best, score);
      Round3Monotone(score, Round3(best));
    }
  }

  function CandidateOf(u: string, h: Hit): Candidate
    requires Score(u, h).Some?
  {
    Candidate(h.key.reg, Round3(Score(u, h).value), h.row.match_, h.key.code, h.row.status)
  }

  function Better(u: string, h: Hit, best: map<RegId, Candidate>): map<RegId, Candidate>
    requires Score(u, h).Some?
  {
    var r := h.key.reg;
    if r !in best || Score(u, h).value > best[r].confidence then best[r := CandidateOf(u, h)] else best
  }

  /** One more row that scores: the loop body of the reverse query. */
  lemma TakeRow(u: string, rows: seq<Hit>, h: Hit, best: map<RegId, Candidate>)
    requires Answers(u, rows, best) && Score(u, h).Some?
    ensures Answers(u, rows + [h], Better(u, h, best))
  {
    forall r
      ensures AnswersFor(u, rows + [h], Better(u, h, best), r)
    {
      assert AnswersFor(u, rows, best, r);
      if r != h.key.reg {
        OtherRow(u, rows, h, best, r);
      } else if r in best {
        SameRegulation(u, rows, h, best[r]);
        MoreAnswerable(u, rows, h, r);
      } else {
        FirstOfRegulation(u, rows, h);
        MoreAnswerable(u, rows, h, r);
      }
    }
  }

  lemma MoreAnswerable(u: string, rows: seq<Hit>, h: Hit, r: RegId)
    ensures Answerable(u, rows + [h], r) <==> Answerable(u, rows, r) || Matches(u, h, r)
  {
    assert forall x :: x in rows + [h] <==> x in rows || x == h;
  }

  lemma FirstOfRegulation(u: string, rows: seq<Hit>, h: Hit)
    requires Score(u, h).Some? && forall x | x in rows :: !Matches(u, x, h.key.reg)
    ensures Faithful(u, rows + [h], CandidateOf(u, h))
  {
    var all := rows + [h];
    assert forall x :: x in all <==> x in rows || x == h;
    assert IsBest(u, all, h.key.reg, Score(u, h).value);
  }

  lemma SameRegulation(u: string, rows: seq<Hit>, h: Hit, c: Candidate)
    requires Score(u, h).Some? && h.key.reg == c.reg && Faithful(u, rows, c)
    ensures Faithful(u, rows + [h], if Score(u, h).value > c.confidence then CandidateOf(u, h) else c)
  {
    var s, all := Score(u, h).value, rows + [h];
    assert forall x :: x in all <==> x in rows || x == h;
    var m :| IsBest(u, rows, c.reg, m) && c.confidence == Round3(m);
    RoundedMaximum(m, s);
    assert IsBest(u, all, c.reg, if s > m then s else m);
  }

  lemma OtherRow(u: string, rows: seq<Hit>, h: Hit, best: map<RegId, Candidate>, r: RegId)
    requires AnswersFor(u, rows, best, r) && !Matches(u, h, r)
    ensures AnswersFor(u, rows + [h], best, r)
  {
    var all := rows + [h];
    assert forall x :: x in all <==> x in rows || x == h;
    MoreAnswerable(u, rows, h, r);
    if r in best {
      var m :| IsBest(u, rows, r, m) && best[r].confidence == Round3(m);
      assert IsBest(u, all, r, m);
    }
  }

  lemma SkipRow(u: string, rows: seq<Hit>, h: Hit, best: map<RegId, Candidate>)
    requires Answers(u, rows, best) && Score(u, h).None?
    ensures Answers(u, rows + [h], best)
  {
    forall r
      ensures AnswersFor(u, rows + [h], best, r)
    {
      OtherRow(u, rows, h, best, r);
    }
  }

  /** `order` lists the keys of `best` once each, as a dictionary remembers them. */
  ghost predicate Orders(order: seq<RegId>, best: map<RegId, Candidate>) {
    && (forall r :: r in order <==> r in best)
    && (forall a, b | 0 <= a < b < |order| :: order[a] != order[b])
  }

  function ValuesOf(order: seq<RegId>, best: map<RegId, Candidate>): (found: seq<Candidate>)
    requires Orders(order, best)
    ensures |found| == |order| && forall k | 0 <= k < |order| :: found[k] == best[order[k]]
  {
    seq(|order|, k requires 0 <= k < |order| && order[k] in best => best[order[k]])
  }

  ghost predicate IsReply(u: string, rows: seq<Hit>, found: seq<Candidate>) {
    && (forall r :: Listed(found, r) <==> Answerable(u, rows, r))
    && (forall c | c in found :: Faithful(u, rows, c))
    && (forall i, j | 0 <= i < j < |found| :: found[i].reg != found[j].reg)
  }

  lemma ValuesReply(u: string, rows: seq<Hit>, order: seq<RegId>, best: map<RegId, Candidate>)
    requires Orders(order, best) && Answers(u, rows, best)
    ensures IsReply(u, rows, ValuesOf(order, best))
  {
    var found := ValuesOf(order, best);
    forall k | 0 <= k < |order|
      ensures found[k].reg == order[k] && Faithful(u, rows, found[k])
    {
      assert AnswersFor(u, rows, best, order[k]);
    }
    forall r
      ensures Listed(found, r) <==> Answerable(u, rows, r)
    {
      assert AnswersFor(u, rows, best, r);
      if r in best {
        var k :| 0 <= k < |order| && order[k] == r;
        assert found[k] in found;
      }
    }
  }

  /** One candidate per regulation with a matching row, at the rounded maximum of its scores, in any row order. */
  method FindRegulationsByHs(rows: seq<Hit>, hsCode: string) returns (found: seq<Candidate>)
    ensures IsReply(Digits(hsCode), rows, found)
  {
    var u := Digits(hsCode);
    var best: map<RegId, Candidate> := map[];
    var order: seq<RegId> := [];
    var i := 0;
    while i < |rows|
      invariant 0 <= i <= |rows|
      invariant Answers(u, rows[..i], best)
      invariant Orders(order, best)
    {
      var h := rows[i];
      assert rows[..i + 1] == rows[..i] + [h];
      var score := Score(u, h);
      if score.None? {
        SkipRow(u, rows[..i], h, best);
      } else {
        TakeRow(u, rows[..i], h, best);
        var r := h.key.reg;
        if r !in best {
          order := order + [r];
        }
        if r !in best || score.value > best[r].confidence {
          best := best[r := CandidateOf(u, h)];
        }
      }
      i := i + 1;
    }
    assert rows[..i] == rows;
    ValuesReply(u, rows, order, best);
    found := ValuesOf(order, best);
  }

  /** The reported confidence is a function of the set of rows, not of their order. */
  lemma ConfidenceIgnoresOrder(u: string, xs: seq<Hit>, ys: seq<Hit>, c: Candidate, d: Candidate)
    requires forall h :: h in xs <==> h in ys
    requires Faithful(u, xs, c) && Faithful(u, ys, d) && c.reg == d.reg
    ensures c.confidence == d.confidence
  {
    var m :| IsBest(u, xs, c.reg, m) && c.confidence == Round3(m);
    var n :| IsBest(u, ys, d.reg, n) && d.confidence == Round3(n);
    assert m == n;
  }
}
