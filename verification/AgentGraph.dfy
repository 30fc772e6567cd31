/**
 The agentic ingestion graph (agentic/graph.py and its nodes) as a state machine. The critic is an
 arbitrary oracle, the turn cap an arbitrary number, and outputs are known by the extraction they
 come from: the n-th extraction has generation n.
 */
module AgentGraph {
  import opened Options

  const MAX_EXTRACT_ATTEMPTS: nat := 2

  datatype Decision = Accept | Reextract | RouteToHuman

  datatype Action = Extract | Validate | Enrich | Persist | Finish | Human

  datatype Node = Load | Planner | Extractor | MapValidate | Critic | Enricher | Persister | End

  /** What was written: a validated record and the extraction its mentions came from. */
  datatype Saved = Saved(validated: nat, extracted: nat)

  datatype State = State(
    celex: bool,
    node: Node,
    extract: Option<nat>,
    validation: Option<nat>,
    critic: Option<Decision>,
    attempts: nat,
    fetched: bool,
    regulation: Option<Saved>,
    steps: nat,
    visits: nat,
    persists: nat,
    first: Option<Decision>,
    fault: bool
  )

  function Init(celex: bool): State {
    State(celex, Load, None, None, None, 0, false, None, 0, 0, 0, None, false)
  }

  function CanonicalAction(s: State): Action {
    if s.regulation.Some? then Finish
    else if s.extract.None? then Extract
    else if s.validation.None? then Validate
    else if s.critic == Some(Reextract) && s.attempts < MAX_EXTRACT_ATTEMPTS then Extract
    else if s.critic == Some(RouteToHuman) && s.extract.None? then Human
    else if s.celex && !s.fetched then Enrich
    else Persist
  }

  /** The planner's choice on its next turn, with the loop guard. */
  function Choose(s: State, cap: int): Action {
    if s.steps + 1 > cap then
      if s.validation.Some? && s.regulation.None? then Persist else Finish
    else CanonicalAction(s)
  }

  function Route(a: Action): Node {
    match a
    case Extract => Extractor
    case Validate => MapValidate
    case Enrich => Enricher
    case Persist => Persister
    case Finish => End
    case Human => End
  }

  /** One node visit. A node that needs an output not yet there raises, recorded as a fault. */
  function Step(s: State, cap: int, d: Decision): State {
    var v := s.(visits := s.visits + 1);
    match s.node
    case Load => v.(node := Planner)
    case Planner => v.(node := Route(Choose(s, cap)), steps := s.steps + 1)
    case Extractor =>
      v.(node := Planner, attempts := s.attempts + 1, extract := Some(s.attempts + 1),
         validation := None, critic := None)
    case MapValidate =>
      if s.extract.None? then v.(node := End, fault := true)
      else v.(node := Critic, validation := s.extract)
    case Critic => v.(node := Planner, critic := Some(d), first := if s.first.None? then Some(d) else s.first)
    case Enricher => v.(node := Planner, fetched := true)
    case Persister =>
      if s.validation.None? || s.extract.None? then v.(node := End, fault := true)
      else v.(node := Planner, persists := s.persists + 1,
              regulation := Some(Saved(s.validation.value, s.extract.value)))
    case End => s
  }

  /** The state after n visits, for a critic that may answer anything at any time. */
  function Run(celex: bool, cap: int, critic: nat -> Decision, n: nat): State {
    if n == 0 then Init(celex) else Step(Run(celex, cap, critic, n - 1), cap, critic(n - 1))
  }

  // ---- the invariant ----------------------------------------------------

  function Bit(b: bool): nat {
    if b then 1 else 0
  }

  /** Validations made so far; the current extraction has one unless it is new. */
  function Validations(s: State): nat {
    if s.validation.Some? || s.attempts == 0 then s.attempts else s.attempts - 1
  }

  /** Turns taken by work already done. */
  function Turns(s: State): nat {
    s.attempts + Validations(s) + Bit(s.fetched) + Bit(s.regulation.Some?)
  }

  /** Holds of every reachable state: outputs agree on their generation, and nothing is done twice. */
  predicate Consistent(s: State) {
    && !s.fault
    && s.attempts <= MAX_EXTRACT_ATTEMPTS
    && s.extract == (if s.attempts == 0 then None else Some(s.attempts))
    && (s.validation.Some? ==> s.attempts > 0 && s.validation == s.extract)
    && (s.fetched ==> s.celex && s.validation.Some?)
    && (s.regulation.Some? ==> s.validation.Some? && s.regulation == Some(Saved(s.attempts, s.attempts)))
    && s.persists == Bit(s.regulation.Some?)
    && (s.attempts == 2 ==> s.first == Some(Reextract))
    && (s.node != Critic ==> (s.first.Some? <==> Validations(s) > 0))
    && (s.node != Critic && s.attempts == 1 && s.validation.Some? ==> s.critic == s.first)
  }

  /** Turn and visit counts follow from the work done and the node about to run. */
  predicate Counted(s: State) {
    match s.node
    case Load => s.steps == 0 && s.visits == 0 && s.attempts == 0 && s.validation.None? && s.regulation.None?
    case Planner => s.steps == Turns(s) && s.visits == 1 + s.steps + Turns(s) + Validations(s)
    case Extractor =>
      && s.steps == Turns(s) + 1 && s.visits == 1 + s.steps + Turns(s) + Validations(s)
      && s.regulation.None? && !s.fetched
      && (s.attempts == 0 || (s.attempts == 1 && s.validation.Some? && s.first == Some(Reextract)))
    case MapValidate =>
      && s.steps == Turns(s) + 1 && s.visits == 1 + s.steps + Turns(s) + Validations(s)
      && s.regulation.None? && s.attempts > 0 && s.validation.None?
    case Critic =>
      && s.steps == Turns(s) && s.visits == s.steps + Turns(s) + Validations(s)
      && s.regulation.None? && !s.fetched && s.validation.Some?
      && (s.attempts == 1 <==> s.first.None?)
    case Enricher =>
      && s.steps == Turns(s) + 1 && s.visits == 1 + s.steps + Turns(s) + Validations(s)
      && s.regulation.None? && s.celex && !s.fetched && s.validation.Some?
    case Persister =>
      && s.steps == Turns(s) + 1 && s.visits == 1 + s.steps + Turns(s) + Validations(s)
      && s.regulation.None? && s.validation.Some?
    case End => s.steps == Turns(s) + 1 && s.visits == 1 + s.steps + Turns(s) + Validations(s)
  }

  /** What the cap still allows at each node. */
  predicate Pending(s: State, cap: int) {
    match s.node
    case Extractor => s.steps <= cap
    case MapValidate => s.steps <= cap
    case Enricher => s.steps <= cap && (s.attempts == 1 ==> s.first != Some(Reextract))
    case Persister =>
      && s.steps <= cap + 1
      && (s.attempts == 1 ==> s.first != Some(Reextract) || cap == 2)
      && (s.celex && !s.fetched ==> cap == 2 || (cap == 4 && s.attempts == 2))
    case End =>
      && (s.regulation.Some? || (s.validation.None? && s.steps > cap))
      && s.steps <= (if cap < 0 then 1 else cap + 2)
    case _ => true
  }

  /** How the turn cap limits what can have been done. */
  predicate WithinCap(s: State, cap: int) {
    && (s.attempts >= 1 ==> cap >= 1)
    && (s.validation.Some? ==> cap >= 2)
    && (s.attempts == 2 ==> cap >= 3)
    && (s.attempts == 2 && s.validation.Some? ==> cap >= 4)
    && (s.regulation.Some? && s.attempts == 1 ==> s.first != Some(Reextract) || cap == 2)
    && (s.node != End && s.node != Persister && s.regulation.None? && s.steps > 0 ==> s.steps <= cap)
    && (s.regulation.Some? && s.node == Planner ==> s.steps <= cap + 1)
    && (s.fetched && s.attempts == 1 ==> s.first != Some(Reextract) && cap >= 3)
    && (s.fetched && s.attempts == 2 ==> cap >= 5)
    && (s.regulation.Some? && s.celex && !s.fetched ==> cap == 2 || (cap == 4 && s.attempts == 2))
  }

  predicate Invariant(s: State, cap: int) {
    Consistent(s) && Counted(s) && Pending(s, cap) && WithinCap(s, cap)
  }

  lemma TurnConsistent(s: State, cap: int, d: Decision)
    requires Invariant(s, cap) && s.node == Planner
    ensures Consistent(Step(s, cap, d))
  {
  }

  lemma WorkConsistent(s: State, cap: int, d: Decision)
    requires Invariant(s, cap) && s.node != Planner
    ensures Consistent(Step(s, cap, d))
  {
  }

  lemma TurnCounted(s: State, cap: int, d: Decision)
    requires Invariant(s, cap) && s.node == Planner
    ensures Counted(Step(s, cap, d))
  {
  }

  lemma ExtractionCounted(s: State, cap: int, d: Decision)
    requires Invariant(s, cap) && s.node in {Load, Extractor}
    ensures Counted(Step(s, cap, d))
  {
  }

  lemma ReviewCounted(s: State, cap: int, d: Decision)
    requires Invariant(s, cap) && s.node in {MapValidate, Critic}
    ensures Counted(Step(s, cap, d))
  {
  }

  lemma SavingCounted(s: State, cap: int, d: Decision)
    requires Invariant(s, cap) && s.node in {Enricher, Persister, End}
    ensures Counted(Step(s, cap, d))
  {
  }

  lemma WorkCounted(s: State, cap: int, d: Decision)
    requires Invariant(s, cap) && s.node != Planner
    ensures Counted(Step(s, cap, d))
  {
    if s.node in {Load, Extractor} {
      ExtractionCounted(s, cap, d);
    } else if s.node in {MapValidate, Critic} {
      ReviewCounted(s, cap, d);
    } else {
      SavingCounted(s, cap, d);
    }
  }

  lemma TurnWithinCap(s: State, cap: int, d: Decision)
    requires Invariant(s, cap) && s.node == Planner
    ensures Pending(Step(s, cap, d), cap) && WithinCap(Step(s, cap, d), cap)
  {
  }

  lemma WorkWithinCap(s: State, cap: int, d: Decision)
    requires Invariant(s, cap) && s.node != Planner
    ensures Pending(Step(s, cap, d), cap) && WithinCap(Step(s, cap, d), cap)
  {
  }

  lemma {:induction false} RunKeepsInvariant(celex: bool, cap: int, critic: nat -> Decision, n: nat)
    ensures Invariant(Run(celex, cap, critic, n), cap)
  {
    if n > 0 {
      RunKeepsInvariant(celex, cap, critic, n - 1);
      var s := Run(celex, cap, critic, n - 1);
      if s.node == Planner {
        TurnConsistent(s, cap, critic(n - 1));
        TurnCounted(s, cap, critic(n - 1));
        TurnWithinCap(s, cap, critic(n - 1));
      } else {
        WorkConsistent(s, cap, critic(n - 1));
        WorkCounted(s, cap, critic(n - 1));
        WorkWithinCap(s, cap, critic(n - 1));
      }
    }
  }

  // ---- what every run does ----------------------------------------------

  /**
   At every point of every run: at most min(7, cap + 2) planner turns and 16 node visits, at most two
   extractions and one write, no output missing when needed, and whatever is written was validated
   from the latest extraction.
   */
  lemma RunBounds(celex: bool, cap: int, critic: nat -> Decision, n: nat)
    ensures var s := Run(celex, cap, critic, n);
            && s.steps <= 7 && s.steps <= (if cap < 0 then 1 else cap + 2)
            && s.visits <= 16
            && s.attempts <= MAX_EXTRACT_ATTEMPTS && s.persists <= 1 && !s.fault
            && (s.regulation.Some? ==> s.regulation.value == Saved(s.attempts, s.attempts))
  {
    RunKeepsInvariant(celex, cap, critic, n);
  }

  lemma {:induction false} VisitsCount(celex: bool, cap: int, critic: nat -> Decision, n: nat)
    ensures var s := Run(celex, cap, critic, n);
            if s.node == End then s.visits <= n else s.visits == n
  {
    if n > 0 {
      VisitsCount(celex, cap, critic, n - 1);
      StepVisits(Run(celex, cap, critic, n - 1), cap, critic(n - 1));
    }
  }

  lemma StepVisits(s: State, cap: int, d: Decision)
    ensures Step(s, cap, d).visits == if s.node == End then s.visits else s.visits + 1
  {
  }

  /** Every run is over after 16 visits, within the recursion limit the graph is invoked with. */
  lemma RunEnds(celex: bool, cap: int, critic: nat -> Decision, n: nat)
    requires n >= 16
    ensures Run(celex, cap, critic, n).node == End
    ensures Run(celex, cap, critic, n).visits <= 16 <= if 4 * cap > 60 then 4 * cap else 60
  {
    RunKeepsInvariant(celex, cap, critic, n);
    VisitsCount(celex, cap, critic, n);
  }

  /** With a cap of two or more, the first five visits lead to the first review. */
  lemma Opening(celex: bool, cap: int, critic: nat -> Decision, n: nat)
    requires cap >= 2
    ensures n <= 5 ==> Run(celex, cap, critic, n).node != End && Run(celex, cap, critic, n).first.None?
    ensures n == 6 ==> Run(celex, cap, critic, n).first == Some(critic(5))
  {
    assert Run(celex, cap, critic, 0) == Init(celex);
    var s1 := Run(celex, cap, critic, 1);
    assert s1 == Init(celex).(node := Planner, visits := 1);
    var s2 := Run(celex, cap, critic, 2);
    assert s2 == s1.(node := Extractor, steps := 1, visits := 2);
    var s3 := Run(celex, cap, critic, 3);
    assert s3 == s2.(node := Planner, attempts := 1, extract := Some(1), visits := 3);
    var s4 := Run(celex, cap, critic, 4);
    assert s4 == s3.(node := MapValidate, steps := 2, visits := 4);
    var s5 := Run(celex, cap, critic, 5);
    assert s5 == s4.(node := Critic, validation := Some(1), visits := 5);
  }

  /** The first verdict is the critic's answer at the sixth visit, and it is never forgotten. */
  lemma {:induction false} FirstVerdict(celex: bool, cap: int, critic: nat -> Decision, n: nat)
    requires cap >= 2 && n >= 6
    ensures Run(celex, cap, critic, n).first == Some(critic(5))
  {
    if n == 6 {
      Opening(celex, cap, critic, 6);
    } else {
      FirstVerdict(celex, cap, critic, n - 1);
      FirstStays(Run(celex, cap, critic, n - 1), cap, critic(n - 1));
    }
  }

  lemma FirstStays(s: State, cap: int, d: Decision)
    requires s.first.Some?
    ensures Step(s, cap, d).first == s.first
  {
  }

  /**
   A finished run has written its record, once, exactly when the cap allows two turns and it is not
   the cap of three with a critic that sends the first extraction back.
   */
  lemma PersistsExactly(celex: bool, cap: int, critic: nat -> Decision, n: nat)
    requires Run(celex, cap, critic, n).node == End
    ensures var s := Run(celex, cap, critic, n);
            && (s.persists == 1 <==> cap >= 2 && !(cap == 3 && critic(5) == Reextract))
            && (s.persists == 1 <==> s.regulation.Some?)
  {
    RunKeepsInvariant(celex, cap, critic, n);
    if cap >= 2 {
      Opening(celex, cap, critic, n);
      FirstVerdict(celex, cap, critic, n);
    }
  }

  /** Whatever the critic answers, the document ends up written. */
  ghost predicate AlwaysPersists(celex: bool, cap: int) {
    forall critic: nat -> Decision, n: nat | n >= 16 :: Run(celex, cap, critic, n).persists == 1
  }

  /** Every critic's run writes its document exactly when the cap is at least two and not three. */
  lemma AlwaysPersistsExactly(celex: bool, cap: int)
    ensures AlwaysPersists(celex, cap) <==> cap >= 2 && cap != 3
  {
    forall critic: nat -> Decision, n: nat | n >= 16
      ensures Run(celex, cap, critic, n).persists == 1 <==> cap >= 2 && !(cap == 3 && critic(5) == Reextract)
    {
      RunEnds(celex, cap, critic, n);
      PersistsExactly(celex, cap, critic, n);
    }
    var strict: nat -> Decision := _ => Reextract;
    assert strict(5) == Reextract;
    assert AlwaysPersists(celex, cap) ==> Run(celex, cap, strict, 16).persists == 1;
  }

  /** With a cap of three, a critic that sends the first extraction back leaves the document unwritten. */
  lemma CapThreeLosesDocument(celex: bool, critic: nat -> Decision, n: nat)
    requires n >= 16 && critic(5) == Reextract
    ensures Run(celex, 3, critic, n).node == End && Run(celex, 3, critic, n).regulation.None?
  {
    RunEnds(celex, 3, critic, n);
    PersistsExactly(celex, 3, critic, n);
    RunKeepsInvariant(celex, 3, critic, n);
  }

  /** The human route is never taken: it asks for a missing extraction after one was reviewed. */
  lemma HumanNeverChosen(celex: bool, cap: int, critic: nat -> Decision, n: nat)
    ensures Choose(Run(celex, cap, critic, n), cap) != Human
  {
  }

  /** The same answer, with "route to a human" read as "accept". */
  function Lenient(d: Decision): Decision {
    if d == RouteToHuman then Accept else d
  }

  function LenientAnswer(a: Option<Decision>): Option<Decision> {
    if a.Some? then Some(Lenient(a.value)) else None
  }

  function LenientState(s: State): State {
    s.(critic := LenientAnswer(s.critic), first := LenientAnswer(s.first))
  }

  /** Asking for a human has no effect at all: the run goes as if the critic had accepted. */
  lemma {:induction false} HumanMeansAccept(celex: bool, cap: int, critic: nat -> Decision, lenient: nat -> Decision,
                                            n: nat)
    requires forall k :: lenient(k) == Lenient(critic(k))
    ensures Run(celex, cap, lenient, n) == LenientState(Run(celex, cap, critic, n))
  {
    if n > 0 {
      HumanMeansAccept(celex, cap, critic, lenient, n - 1);
      StepLenient(Run(celex, cap, critic, n - 1), cap, critic(n - 1));
    }
  }

  lemma StepLenient(s: State, cap: int, d: Decision)
    ensures Step(LenientState(s), cap, Lenient(d)) == LenientState(Step(s, cap, d))
  {
    if s.node == Planner {
      TurnLenient(s, cap, d);
    } else if s.node == Critic {
      ReviewLenient(s, cap, d);
    } else if s.node == MapValidate {
      ValidateLenient(s, cap, d);
    } else if s.node == Persister {
      SaveLenient(s, cap, d);
    } else {
      WorkLenient(s, cap, d);
    }
  }

  lemma TurnLenient(s: State, cap: int, d: Decision)
    requires s.node == Planner
    ensures Step(LenientState(s), cap, Lenient(d)) == LenientState(Step(s, cap, d))
  {
    ChooseLenient(s, cap);
  }

  lemma ReviewLenient(s: State, cap: int, d: Decision)
    requires s.node == Critic
    ensures Step(LenientState(s), cap, Lenient(d)) == LenientState(Step(s, cap, d))
  {
  }

  lemma WorkLenient(s: State, cap: int, d: Decision)
    requires s.node in {Load, Extractor, Enricher, End}
    ensures Step(LenientState(s), cap, Lenient(d)) == LenientState(Step(s, cap, d))
  {
  }

  lemma ValidateLenient(s: State, cap: int, d: Decision)
    requires s.node == MapValidate
    ensures Step(LenientState(s), cap, Lenient(d)) == LenientState(Step(s, cap, d))
  {
  }

  lemma SaveLenient(s: State, cap: int, d: Decision)
    requires s.node == Persister
    ensures Step(LenientState(s), cap, Lenient(d)) == LenientState(Step(s, cap, d))
  {
  }

  lemma ChooseLenient(s: State, cap: int)
    ensures Choose(LenientState(s), cap) == Choose(s, cap)
  {
  }

  /** A written document was reviewed, and its official metadata is missing only at two tight caps. */
  lemma WrittenExactly(celex: bool, cap: int, critic: nat -> Decision, n: nat)
    requires Run(celex, cap, critic, n).regulation.Some?
    ensures var s := Run(celex, cap, critic, n);
            && s.first == Some(critic(5))
            && (s.fetched <==> celex && cap != 2 && !(cap == 4 && critic(5) == Reextract))
  {
    RunKeepsInvariant(celex, cap, critic, n);
    RunKeepsCelex(celex, cap, critic, n);
    Opening(celex, cap, critic, n);
    FirstVerdict(celex, cap, critic, n);
  }

  lemma {:induction false} RunKeepsCelex(celex: bool, cap: int, critic: nat -> Decision, n: nat)
    ensures Run(celex, cap, critic, n).celex == celex
  {
    if n > 0 {
      RunKeepsCelex(celex, cap, critic, n - 1);
    }
  }
}
