/**
 The job queue of worker.py under any number of workers: row locks that skip locked rows, a claim
 that commits before the pipeline runs, and outcome writes that may be lost.
 */
module WorkerProtocol {
  import opened Options

  type JobId = nat
  type WorkerId = nat

  datatype Status = Queued | Processing | Done | Failed

  datatype Job = Job(status: Status, attempts: nat, createdAt: nat)

  /** Idle workers hold nothing; a claiming worker holds a row lock; the others own a claimed job. */
  datatype Activity = Idle | Claiming(job: JobId) | Running(job: JobId) | Finished(job: JobId, ok: bool) | Dead

  datatype State = State(
    jobs: map<JobId, Job>,
    errors: multiset<JobId>,
    workers: map<WorkerId, Activity>,
    stranded: set<JobId>
  )

  datatype Event =
    | Enqueue(id: JobId, at: nat)
    | Lock(w: WorkerId, id: JobId)
    | Commit(w: WorkerId, id: JobId)
    | Rollback(w: WorkerId)
    | Return(w: WorkerId, ok: bool)
    | Record(w: WorkerId)
    | LoseRecord(w: WorkerId)
    | Crash(w: WorkerId)

  const INITIAL: State := State(map[], multiset{}, map[], {})

  function Doing(s: State, w: WorkerId): Activity {
    if w in s.workers then s.workers[w] else Idle
  }

  function Now(s: State, w: WorkerId, a: Activity): map<WorkerId, Activity> {
    if a == Idle then s.workers - {w} else s.workers[w := a]
  }

  predicate Locked(s: State, j: JobId) {
    exists w | w in s.workers :: s.workers[w] == Claiming(j)
  }

  predicate Available(s: State, j: JobId) {
    j in s.jobs && s.jobs[j].status == Queued && !Locked(s, j)
  }

  /** The oldest queued row that nobody has locked. */
  predicate Oldest(s: State, j: JobId) {
    Available(s, j) && forall k | k in s.jobs && Available(s, k) :: s.jobs[j].createdAt <= s.jobs[k].createdAt
  }

  predicate Enabled(s: State, e: Event) {
    match e
    case Enqueue(j, _) => j !in s.jobs
    case Lock(w, j) => Doing(s, w) == Idle && Oldest(s, j)
    case Commit(w, j) => Doing(s, w) == Claiming(j) && j in s.jobs
    case Rollback(w) => Doing(s, w).Claiming?
    case Return(w, _) => Doing(s, w).Running?
    case Record(w) => Doing(s, w).Finished? && Doing(s, w).job in s.jobs
    case LoseRecord(w) => Doing(s, w).Finished?
    case Crash(w) => !Doing(s, w).Dead?
  }

  function Apply(s: State, e: Event): State
    requires Enabled(s, e)
  {
    match e
    case Enqueue(j, at) => s.(jobs := s.jobs[j := Job(Queued, 0, at)])
    case Lock(w, j) => s.(workers := Now(s, w, Claiming(j)))
    case Commit(w, j) =>
      s.(workers := Now(s, w, Running(j)),
         jobs := s.jobs[j := s.jobs[j].(status := Processing, attempts := s.jobs[j].attempts + 1)])
    case Rollback(w) => s.(workers := Now(s, w, Dead))
    case Return(w, ok) => s.(workers := Now(s, w, Finished(Doing(s, w).job, ok)))
    case Record(w) =>
      var j := Doing(s, w).job;
      var t := s.(workers := Now(s, w, Idle));
      if Doing(s, w).ok then t.(jobs := s.jobs[j := s.jobs[j].(status := Done)])
      else t.(jobs := s.jobs[j := s.jobs[j].(status := Failed)], errors := s.errors + multiset{j})
    case LoseRecord(w) =>
      s.(workers := Now(s, w, Idle), stranded := s.stranded + {Doing(s, w).job})
    case Crash(w) =>
      var a := Doing(s, w);
      s.(workers := Now(s, w, Dead),
         stranded := if a.Running? || a.Finished? then s.stranded + {a.job} else s.stranded)
  }

  /** The events happen one after another from s and end in t. */
  ghost predicate Leads(s: State, es: seq<Event>, t: State) {
    if es == [] then s == t
    else
      var front, last := es[..|es| - 1], es[|es| - 1];
      exists m :: Leads(s, front, m) && StepTo(m, last, t)
  }

  predicate StepTo(s: State, e: Event, t: State) {
    Enabled(s, e) && Apply(s, e) == t
  }

  // ---- what every step keeps -------------------------------------------

  predicate Busy(a: Activity) {
    a.Claiming? || a.Running? || a.Finished?
  }

  predicate Holds(a: Activity, j: JobId) {
    Busy(a) && a.job == j
  }

  predicate Clash(a: Activity, b: Activity) {
    Busy(a) && Busy(b) && a.job == b.job
  }

  predicate Owns(a: Activity, j: JobId) {
    (a.Running? || a.Finished?) && a.job == j
  }

  predicate Owned(s: State, j: JobId) {
    exists w | w in s.workers :: Owns(s.workers[w], j)
  }

  /** No two workers hold the same job. */
  predicate Exclusive(s: State) {
    forall v, w | v in s.workers && w in s.workers && v != w :: !Clash(s.workers[v], s.workers[w])
  }

  predicate HeldWell(s: State, a: Activity) {
    && (a.Claiming? ==> a.job in s.jobs && s.jobs[a.job].status == Queued)
    && (a.Running? || a.Finished? ==>
          a.job in s.jobs && s.jobs[a.job].status == Processing && a.job !in s.stranded)
  }

  /** One attempt once out of the queue, one error row exactly if failed, processing exactly if owned or stranded. */
  predicate JobWell(s: State, j: JobId) {
    && (j in s.jobs ==>
          && s.jobs[j].attempts == (if s.jobs[j].status == Queued then 0 else 1)
          && (s.jobs[j].status == Processing <==> j in s.stranded || Owned(s, j)))
    && s.errors[j] == (if j in s.jobs && s.jobs[j].status == Failed then 1 else 0)
    && (j in s.stranded ==> j in s.jobs)
  }

  ghost predicate Invariant(s: State) {
    Exclusive(s) && (forall w | w in s.workers :: HeldWell(s, s.workers[w])) && forall j :: JobWell(s, j)
  }

  lemma StepExclusive(s: State, e: Event)
    requires Invariant(s) && Enabled(s, e)
    ensures Exclusive(Apply(s, e))
  {
    if e.Lock? {
      forall v | v in s.workers
        ensures !Holds(s.workers[v], e.id)
      {
        assert HeldWell(s, s.workers[v]);
      }
    }
  }

  lemma StepHeldWell(s: State, e: Event, w: WorkerId)
    requires Invariant(s) && Enabled(s, e) && w in Apply(s, e).workers
    ensures HeldWell(Apply(s, e), Apply(s, e).workers[w])
  {
    if w in s.workers {
      assert HeldWell(s, s.workers[w]);
    }
    if !e.Enqueue? && e.w in s.workers {
      assert HeldWell(s, s.workers[e.w]);
      assert w in s.workers && w != e.w ==> !Clash(s.workers[w], s.workers[e.w]);
      assert Busy(s.workers[e.w]) ==> JobWell(s, s.workers[e.w].job);
    }
  }

  /** Ownership changes hands only for the worker that acts. */
  lemma StepOwned(s: State, e: Event, j: JobId)
    requires Invariant(s) && Enabled(s, e)
    ensures Owned(Apply(s, e), j) <==>
              if !e.Enqueue? && Holds(Doing(s, e.w), j) then
                e.Commit? || e.Return?
              else Owned(s, j)
  {
    var t := Apply(s, e);
    if !e.Enqueue? {
      if Owned(s, j) {
        var w :| w in s.workers && Owns(s.workers[w], j);
        assert w != e.w ==> w in t.workers && t.workers[w] == s.workers[w];
      }
      if Owned(t, j) {
        var w :| w in t.workers && Owns(t.workers[w], j);
        assert w != e.w ==> w in s.workers && t.workers[w] == s.workers[w];
      }
      if Holds(Doing(s, e.w), j) && (e.Commit? || e.Return?) {
        assert e.w in t.workers && Owns(t.workers[e.w], j);
      }
    }
  }

  lemma StepJobWell(s: State, e: Event, j: JobId)
    requires Invariant(s) && Enabled(s, e)
    ensures JobWell(Apply(s, e), j)
  {
    assert JobWell(s, j);
    StepOwned(s, e, j);
    if !e.Enqueue? && e.w in s.workers {
      assert HeldWell(s, s.workers[e.w]);
      assert Owns(s.workers[e.w], j) ==> Owned(s, j);
    }
  }

  lemma StepKeepsInvariant(s: State, e: Event)
    requires Invariant(s) && Enabled(s, e)
    ensures Invariant(Apply(s, e))
  {
    StepExclusive(s, e);
    forall w | w in Apply(s, e).workers {
      StepHeldWell(s, e, w);
    }
    forall j {
      StepJobWell(s, e, j);
    }
  }

  /** Whatever the interleaving, the queue stays consistent. */
  lemma {:induction false} RunKeepsInvariant(s: State, es: seq<Event>, t: State)
    requires Invariant(s) && Leads(s, es, t)
    ensures Invariant(t)
  {
    if es != [] {
      var m :| Leads(s, es[..|es| - 1], m) && StepTo(m, es[|es| - 1], t);
      RunKeepsInvariant(s, es[..|es| - 1], m);
      StepKeepsInvariant(m, es[|es| - 1]);
    }
  }

  // ---- what every run shows --------------------------------------------

  function Rank(s: Status): nat {
    match s
    case Queued => 0
    case Processing => 1
    case Done => 2
    case Failed => 2
  }

  lemma StepMovesForward(s: State, e: Event, j: JobId)
    requires Invariant(s) && Enabled(s, e) && j in s.jobs
    ensures var t := Apply(s, e);
            && j in t.jobs && t.jobs[j].createdAt == s.jobs[j].createdAt
            && (t.jobs[j].status == s.jobs[j].status || Rank(t.jobs[j].status) == Rank(s.jobs[j].status) + 1)
  {
    if !e.Enqueue? && e.w in s.workers {
      assert HeldWell(s, s.workers[e.w]);
    }
  }

  /** Jobs are never lost; a status only moves queued, processing, then done or failed, where it stays. */
  lemma {:induction false} StatusMovesForward(s: State, es: seq<Event>, t: State, j: JobId)
    requires Invariant(s) && Leads(s, es, t) && j in s.jobs
    ensures j in t.jobs && Rank(s.jobs[j].status) <= Rank(t.jobs[j].status)
    ensures Rank(s.jobs[j].status) == 2 ==> t.jobs[j].status == s.jobs[j].status
  {
    if es != [] {
      var m :| Leads(s, es[..|es| - 1], m) && StepTo(m, es[|es| - 1], t);
      StatusMovesForward(s, es[..|es| - 1], m, j);
      RunKeepsInvariant(s, es[..|es| - 1], m);
      StepMovesForward(m, es[|es| - 1], j);
    }
  }

  function Claims(es: seq<Event>, j: JobId): nat {
    if es == [] then 0
    else Claims(es[..|es| - 1], j) + if es[|es| - 1].Commit? && es[|es| - 1].id == j then 1 else 0
  }

  lemma StepCountsClaims(s: State, e: Event, j: JobId)
    requires Invariant(s) && Enabled(s, e)
    ensures var before, after := if j in s.jobs then s.jobs[j].attempts else 0,
                                 if j in Apply(s, e).jobs then Apply(s, e).jobs[j].attempts else 0;
            after == before + if e.Commit? && e.id == j then 1 else 0
  {
  }

  lemma InitialInvariant()
    ensures Invariant(INITIAL)
  {
  }

  /** From the empty queue no job is ever claimed twice, and its attempt counter says whether it was. */
  lemma {:induction false} ClaimedAtMostOnce(es: seq<Event>, t: State, j: JobId)
    requires Leads(INITIAL, es, t)
    ensures Claims(es, j) == (if j in t.jobs then t.jobs[j].attempts else 0) <= 1
  {
    InitialInvariant();
    RunKeepsInvariant(INITIAL, es, t);
    assert JobWell(t, j);
    if es != [] {
      var m :| Leads(INITIAL, es[..|es| - 1], m) && StepTo(m, es[|es| - 1], t);
      ClaimedAtMostOnce(es[..|es| - 1], m, j);
      RunKeepsInvariant(INITIAL, es[..|es| - 1], m);
      StepCountsClaims(m, es[|es| - 1], j);
    }
  }

  /** From the empty queue: ownership is exclusive, and a processing job is owned or stranded, never both. */
  lemma QueueConsistent(es: seq<Event>, t: State, j: JobId, v: WorkerId, w: WorkerId)
    requires Leads(INITIAL, es, t) && j in t.jobs
    ensures Holds(Doing(t, v), j) && Holds(Doing(t, w), j) ==> v == w
    ensures t.jobs[j].status == Processing <==> j in t.stranded || Owned(t, j)
    ensures !(j in t.stranded && Owned(t, j))
    ensures t.jobs[j].attempts == 1 <==> t.jobs[j].status != Queued
    ensures t.errors[j] == if t.jobs[j].status == Failed then 1 else 0
  {
    InitialInvariant();
    RunKeepsInvariant(INITIAL, es, t);
    assert JobWell(t, j);
    if Owned(t, j) {
      var u :| u in t.workers && Owns(t.workers[u], j);
      assert HeldWell(t, t.workers[u]);
    }
  }

  /** A job waiting in the queue can always be claimed by an idle worker unless all waiting jobs are locked. */
  lemma {:induction false} SomeOldest(s: State, js: set<JobId>) returns (j: JobId)
    requires js != {} && forall k | k in js :: k in s.jobs
    ensures j in js && forall k | k in js :: s.jobs[j].createdAt <= s.jobs[k].createdAt
    decreases js
  {
    j :| j in js;
    if js != {j} {
      var i := SomeOldest(s, js - {j});
      if s.jobs[i].createdAt < s.jobs[j].createdAt {
        j := i;
      }
    }
  }

  lemma ClaimPossible(s: State, w: WorkerId, k: JobId)
    requires Doing(s, w) == Idle && Available(s, k)
    ensures exists j :: Enabled(s, Lock(w, j))
  {
    var js := set i | i in s.jobs && Available(s, i);
    assert k in js;
    var j := SomeOldest(s, js);
    assert Enabled(s, Lock(w, j));
  }

  // ---- one worker among others -----------------------------------------

  lemma {:induction false} LeadsOn(s: State, a: seq<Event>, m: State, b: seq<Event>, t: State)
    requires Leads(s, a, m) && Leads(m, b, t)
    ensures Leads(s, a + b, t)
  {
    if b == [] {
      assert a + b == a;
    } else {
      var n := |b| - 1;
      var k :| Leads(m, b[..n], k) && StepTo(k, b[n], t);
      LeadsOn(s, a, m, b[..n], k);
      assert (a + b)[..|a + b| - 1] == a + b[..n];
    }
  }

  lemma LeadsOne(s: State, e: Event, t: State)
    requires StepTo(s, e, t)
    ensures Leads(s, [e], t)
  {
    assert [e][..0] == [];
    assert Leads(s, [], s);
  }

  predicate ByOther(e: Event, w: WorkerId) {
    e.Enqueue? || e.w != w
  }

  ghost predicate ByOthers(es: seq<Event>, w: WorkerId) {
    forall e | e in es :: ByOther(e, w)
  }

  /** What other workers and the enqueuers did while this worker was between two steps of its own. */
  ghost predicate Interleaves(s: State, w: WorkerId, t: State) {
    exists es :: ByOthers(es, w) && Leads(s, es, t)
  }

  /** Everybody else: what they make of the queue at each moment this worker gives way. */
  type World = (nat, State) -> State

  ghost predicate Lawful(world: World, w: WorkerId) {
    forall n: nat, s: State :: Interleaves(s, w, world(n, s))
  }

  ghost predicate Quiet(world: World) {
    forall n: nat, s: State :: world(n, s) == s
  }

  /** A world that stands still is lawful: a lone worker is a special case. */
  lemma QuietIsLawful(world: World, w: WorkerId)
    requires Quiet(world)
    ensures Lawful(world, w)
  {
    forall n: nat, s: State
      ensures Interleaves(s, w, world(n, s))
    {
      assert Leads(s, [], s) && ByOthers([], w);
    }
  }

  lemma StepByOther(s: State, e: Event, w: WorkerId)
    requires Invariant(s) && Enabled(s, e) && ByOther(e, w)
    ensures var t, a := Apply(s, e), Doing(s, w);
            && Doing(t, w) == a
            && (Busy(a) ==> a.job in s.jobs && a.job in t.jobs && t.jobs[a.job] == s.jobs[a.job])
  {
    if w in s.workers {
      assert HeldWell(s, s.workers[w]);
      if !e.Enqueue? && e.w in s.workers {
        assert !Clash(s.workers[w], s.workers[e.w]);
      }
    }
  }

  /** Whatever the others do, this worker keeps what it holds, and the job it holds is left alone. */
  lemma {:induction false} OthersLeave(s: State, es: seq<Event>, w: WorkerId, t: State)
    requires Invariant(s) && ByOthers(es, w) && Leads(s, es, t)
    ensures Invariant(t) && Doing(t, w) == Doing(s, w)
    ensures var a := Doing(s, w);
            Busy(a) ==> a.job in s.jobs && a.job in t.jobs && t.jobs[a.job] == s.jobs[a.job]
  {
    var a := Doing(s, w);
    if es == [] {
      assert w in s.workers ==> HeldWell(s, s.workers[w]);
    } else {
      var n := |es| - 1;
      var m :| Leads(s, es[..n], m) && StepTo(m, es[n], t);
      assert ByOther(es[n], w);
      OthersLeave(s, es[..n], w, m);
      StepKeepsInvariant(m, es[n]);
      StepByOther(m, es[n], w);
    }
  }

  /** The jobs a worker claims during a run, in order. */
  function Commits(es: seq<Event>, w: WorkerId): seq<JobId> {
    if es == [] then []
    else
      var e := es[|es| - 1];
      Commits(es[..|es| - 1], w) + if e.Commit? && e.w == w then [e.id] else []
  }

  lemma {:induction false} CommitsOn(a: seq<Event>, b: seq<Event>, w: WorkerId)
    ensures Commits(a + b, w) == Commits(a, w) + Commits(b, w)
  {
    if b == [] {
      assert a + b == a;
    } else {
      assert (a + b)[..|a + b| - 1] == a + b[..|b| - 1];
      CommitsOn(a, b[..|b| - 1], w);
    }
  }

  lemma {:induction false} OthersCommitNothing(es: seq<Event>, w: WorkerId)
    requires ByOthers(es, w)
    ensures Commits(es, w) == []
  {
    if es != [] {
      assert ByOther(es[|es| - 1], w);
      OthersCommitNothing(es[..|es| - 1], w);
    }
  }

  function CommitOf(e: Event, w: WorkerId): seq<JobId> {
    if e.Commit? && e.w == w then [e.id] else []
  }

  lemma CommitsOne(e: Event, w: WorkerId)
    ensures Commits([e], w) == CommitOf(e, w)
  {
    assert [e][..0] == [];
  }

  /** A run from s to t in which worker w claims exactly these jobs. */
  ghost predicate Does(s: State, w: WorkerId, claimed: seq<JobId>, t: State) {
    exists es :: Leads(s, es, t) && Commits(es, w) == claimed
  }

  lemma DoesOn(s: State, w: WorkerId, a: seq<JobId>, m: State, b: seq<JobId>, t: State)
    requires Does(s, w, a, m) && Does(m, w, b, t)
    ensures Does(s, w, a + b, t)
  {
    var es :| Leads(s, es, m) && Commits(es, w) == a;
    var fs :| Leads(m, fs, t) && Commits(fs, w) == b;
    LeadsOn(s, es, m, fs, t);
    CommitsOn(es, fs, w);
  }

  lemma DoesNothing(s: State, w: WorkerId)
    ensures Does(s, w, [], s)
  {
    assert Leads(s, [], s) && Commits([], w) == [];
  }

  lemma DoesOwn(s: State, e: Event, w: WorkerId, t: State)
    requires StepTo(s, e, t)
    ensures Does(s, w, CommitOf(e, w), t)
  {
    LeadsOne(s, e, t);
    CommitsOne(e, w);
  }

  lemma DoesWait(s: State, w: WorkerId, t: State)
    requires Interleaves(s, w, t)
    ensures Does(s, w, [], t)
  {
    var es :| ByOthers(es, w) && Leads(s, es, t);
    OthersCommitNothing(es, w);
  }

  lemma DoesKeepsInvariant(s: State, w: WorkerId, claimed: seq<JobId>, t: State)
    requires Invariant(s) && Does(s, w, claimed, t)
    ensures Invariant(t)
    ensures forall j | j in s.jobs && Rank(s.jobs[j].status) == 2 :: j in t.jobs && t.jobs[j].status == s.jobs[j].status
  {
    var es :| Leads(s, es, t) && Commits(es, w) == claimed;
    RunKeepsInvariant(s, es, t);
    forall j | j in s.jobs && Rank(s.jobs[j].status) == 2 {
      StatusMovesForward(s, es, t, j);
    }
  }

  function Waiting(jobs: map<JobId, Job>): set<JobId> {
    set j | j in jobs && jobs[j].status == Queued
  }

  /** What an outcome write makes of a job, if it goes through. */
  function Outcome(j: Job, ok: bool, written: bool): Job {
    if !written then j else j.(status := if ok then Done else Failed)
  }

  function OutcomeStatus(ok: bool, written: bool): Status {
    if !written then Processing else if ok then Done else Failed
  }

  function OutcomeEvent(w: WorkerId, written: bool): Event {
    if written then Record(w) else LoseRecord(w)
  }

  function JobsOf(claimed: Option<JobId>): seq<JobId> {
    if claimed.Some? then [claimed.value] else []
  }

  /** No other worker holds anything. */
  predicate Alone(s: State, w: WorkerId) {
    forall v | v in s.workers :: v == w
  }

  ghost predicate NoneAvailable(s: State) {
    forall j :: !Available(s, j)
  }

  predicate HasOutcome(s: State, j: JobId, succeeds: JobId -> bool, writes: JobId -> bool) {
    writes(j) ==> j in s.jobs && s.jobs[j].status == OutcomeStatus(succeeds(j), true)
  }

  /** Every outcome written for these jobs is there to see. */
  predicate Settled(s: State, taken: seq<JobId>, succeeds: JobId -> bool, writes: JobId -> bool) {
    forall j | j in taken :: HasOutcome(s, j, succeeds, writes)
  }

  function Claimed(j: Job): Job {
    j.(status := Processing, attempts := j.attempts + 1)
  }

  /** n of the waiting jobs have been taken, the oldest first; the others are untouched. */
  predicate Taken(before: map<JobId, Job>, now: map<JobId, Job>, n: nat) {
    && Waiting(now) <= Waiting(before) && |Waiting(now)| + n == |Waiting(before)|
    && (forall b | b in Waiting(now) :: now[b] == before[b])
    && (forall a, b | a in Waiting(before) && a !in Waiting(now) && b in Waiting(now) ::
          before[a].createdAt <= before[b].createdAt)
  }

  lemma TakeOne(before: map<JobId, Job>, s: State, n: nat, w: WorkerId, j: JobId, next: map<JobId, Job>, ok: bool,
                written: bool)
    requires Taken(before, s.jobs, n) && Alone(s, w) && Doing(s, w) == Idle && Oldest(s, j)
    requires next == s.jobs[j := Outcome(Claimed(s.jobs[j]), ok, written)]
    ensures Taken(before, next, n + 1)
  {
    assert Waiting(next) == Waiting(s.jobs) - {j};
    forall b | b in Waiting(next)
      ensures s.jobs[j].createdAt <= s.jobs[b].createdAt
    {
      assert Available(s, b);
    }
  }

  /** The shared queue as one worker sees and updates it; between its own steps the others have their turn. */
  class Worker {
    var jobs: map<JobId, Job>
    var errors: multiset<JobId>
    var workers: map<WorkerId, Activity>
    var stranded: set<JobId>
    var turn: nat
    const id: WorkerId

    function View(): State
      reads this
    {
      State(jobs, errors, workers, stranded)
    }

    constructor (id: WorkerId)
      ensures View() == INITIAL && this.id == id
    {
      jobs, errors, workers, stranded, turn := map[], multiset{}, map[], {}, 0;
      this.id := id;
    }

    method GiveWay(world: World)
      requires Invariant(View()) && Lawful(world, id)
      modifies this
      ensures View() == world(old(turn), old(View())) && Does(old(View()), id, [], View())
      ensures Invariant(View()) && Doing(View(), id) == Doing(old(View()), id)
      ensures var a := Doing(View(), id);
              Busy(a) ==> a.job in jobs && a.job in old(jobs) && jobs[a.job] == old(jobs)[a.job]
    {
      ghost var s := View();
      var t := world(turn, View());
      jobs, errors, workers, stranded, turn := t.jobs, t.errors, t.workers, t.stranded, turn + 1;
      ghost var es :| ByOthers(es, id) && Leads(s, es, t);
      OthersLeave(s, es, id, t);
      DoesWait(s, id, t);
    }

    /** The oldest queued job that nobody has locked, if there is one. */
    method FindOldest() returns (found: Option<JobId>)
      ensures found.None? ==> NoneAvailable(View())
      ensures found.Some? ==> Oldest(View(), found.value)
    {
      var queued := set j | j in jobs && Available(View(), j);
      if queued == {} {
        assert forall j :: Available(View(), j) ==> j in queued;
        return None;
      }
      var j :| j in queued;
      var rest := queued - {j};
      while rest != {}
        invariant rest <= queued && j in queued
        invariant forall k | k in queued - rest :: jobs[j].createdAt <= jobs[k].createdAt
      {
        var k :| k in rest;
        if jobs[k].createdAt < jobs[j].createdAt {
          j := k;
        }
        rest := rest - {k};
      }
      forall k | k in jobs && Available(View(), k)
        ensures jobs[j].createdAt <= jobs[k].createdAt
      {
        assert k in queued - rest;
      }
      return Some(j);
    }

    method LockRow(j: JobId)
      requires Invariant(View()) && Doing(View(), id) == Idle && Oldest(View(), j)
      modifies this`workers
      ensures workers == old(workers)[id := Claiming(j)] && Does(old(View()), id, [], View())
      ensures Invariant(View()) && Doing(View(), id) == Claiming(j)
    {
      StepKeepsInvariant(View(), Lock(id, j));
      DoesOwn(View(), Lock(id, j), id, Apply(View(), Lock(id, j)));
      workers := workers[id := Claiming(j)];
    }

    method CommitClaim(j: JobId)
      requires Invariant(View()) && Doing(View(), id) == Claiming(j) && j in jobs
      modifies this`workers, this`jobs
      ensures jobs == old(jobs)[j := Claimed(old(jobs)[j])] && workers == old(workers)[id := Running(j)]
      ensures Does(old(View()), id, [j], View())
      ensures Invariant(View()) && Doing(View(), id) == Running(j)
    {
      StepKeepsInvariant(View(), Commit(id, j));
      DoesOwn(View(), Commit(id, j), id, Apply(View(), Commit(id, j)));
      jobs := jobs[j := Claimed(jobs[j])];
      workers := workers[id := Running(j)];
    }

    /**
     One transaction: locks the oldest queued job that nobody else has locked, marks it as processing
     and commits; or finds no such job. The others may act before the lock and before the commit.
     */
    method ClaimOne(world: World) returns (claimed: Option<JobId>)
      requires Invariant(View()) && Lawful(world, id) && Doing(View(), id) == Idle
      modifies this
      ensures Invariant(View())
      ensures Does(old(View()), id, JobsOf(claimed), View())
      ensures claimed.None? ==> Doing(View(), id) == Idle && NoneAvailable(View())
      ensures claimed.Some? ==> Doing(View(), id) == Running(claimed.value)
      ensures Quiet(world) ==>
                if claimed.None? then View() == old(View())
                else
                  && Oldest(old(View()), claimed.value)
                  && jobs == old(jobs)[claimed.value := Claimed(old(jobs)[claimed.value])]
                  && (Alone(old(View()), id) ==> Alone(View(), id))
    {
      ghost var s0 := View();
      GiveWay(world);
      ghost var s1 := View();
      claimed := FindOldest();
      if claimed.None? {
        return;
      }
      LockRow(claimed.value);
      ghost var s2 := View();
      GiveWay(world);
      ghost var s3 := View();
      CommitClaim(claimed.value);
      DoesOn(s0, id, [], s1, [], s2);
      DoesOn(s0, id, [], s2, [], s3);
      DoesOn(s0, id, [], s3, [claimed.value], View());
    }

    method FinishRun(j: JobId, ok: bool)
      requires Invariant(View()) && Doing(View(), id) == Running(j)
      modifies this`workers
      ensures workers == old(workers)[id := Finished(j, ok)] && Does(old(View()), id, [], View())
      ensures Invariant(View()) && Doing(View(), id) == Finished(j, ok)
    {
      StepKeepsInvariant(View(), Return(id, ok));
      DoesOwn(View(), Return(id, ok), id, Apply(View(), Return(id, ok)));
      workers := workers[id := Finished(j, ok)];
    }

    /** While the pipeline runs the others go on; the job is still this worker's when it comes back. */
    method RunPipeline(j: JobId, ok: bool, world: World)
      requires Invariant(View()) && Lawful(world, id) && Doing(View(), id) == Running(j)
      modifies this
      ensures Invariant(View()) && Doing(View(), id) == Finished(j, ok) && Does(old(View()), id, [], View())
      ensures j in jobs && j in old(jobs) && jobs[j] == old(jobs)[j] && jobs[j].status == Processing
      ensures Quiet(world) ==> jobs == old(jobs) && (Alone(old(View()), id) ==> Alone(View(), id))
    {
      ghost var s0 := View();
      GiveWay(world);
      ghost var s1 := View();
      FinishRun(j, ok);
      ghost var s2 := View();
      GiveWay(world);
      DoesOn(s0, id, [], s1, [], s2);
      DoesOn(s0, id, [], s2, [], View());
      assert HeldWell(View(), workers[id]);
    }

    /** The best-effort write: on failure with one error row; a lost write strands the job. */
    method RecordOutcome(j: JobId, ok: bool, written: bool)
      requires Invariant(View()) && Doing(View(), id) == Finished(j, ok) && j in jobs
      modifies this
      ensures View() == Apply(old(View()), OutcomeEvent(id, written)) && Does(old(View()), id, [], View())
      ensures Invariant(View()) && Doing(View(), id) == Idle
      ensures jobs == old(jobs)[j := Outcome(old(jobs)[j], ok, written)]
      ensures jobs[j].status == if written then (if ok then Done else Failed) else old(jobs)[j].status
    {
      ghost var e := OutcomeEvent(id, written);
      StepKeepsInvariant(View(), e);
      DoesOwn(View(), e, id, Apply(View(), e));
      if !written {
        stranded := stranded + {j};
      } else if ok {
        jobs := jobs[j := jobs[j].(status := Done)];
      } else {
        jobs := jobs[j := jobs[j].(status := Failed)];
        errors := errors + multiset{j};
      }
      workers := workers - {id};
    }

    /** One job, from claim to outcome: the pipeline runs, then its outcome is written if the write goes through. */
    method Process(j: JobId, ok: bool, written: bool, world: World)
      requires Invariant(View()) && Lawful(world, id) && Doing(View(), id) == Running(j)
      modifies this
      ensures Invariant(View()) && Doing(View(), id) == Idle && Does(old(View()), id, [], View())
      ensures j in jobs && jobs[j].status == OutcomeStatus(ok, written)
      ensures Quiet(world) ==>
                && j in old(jobs) && jobs == old(jobs)[j := Outcome(old(jobs)[j], ok, written)]
                && (Alone(old(View()), id) ==> Alone(View(), id))
    {
      ghost var s := View();
      RunPipeline(j, ok, world);
      ghost var m := View();
      RecordOutcome(j, ok, written);
      DoesOn(s, id, [], m, [], View());
    }

    /** One turn of the loop: claim a job and process it. */
    method ProcessNext(succeeds: JobId -> bool, writes: JobId -> bool, world: World) returns (claimed: Option<JobId>)
      requires Invariant(View()) && Lawful(world, id) && Doing(View(), id) == Idle
      modifies this
      ensures Invariant(View()) && Doing(View(), id) == Idle
      ensures Does(old(View()), id, JobsOf(claimed), View())
      ensures claimed.None? ==> NoneAvailable(View())
      ensures claimed.Some? ==> HasOutcome(View(), claimed.value, succeeds, writes)
      ensures Quiet(world) && Alone(old(View()), id) ==>
                && Alone(View(), id)
                && if claimed.None? then jobs == old(jobs)
                   else
                     var j := claimed.value;
                     && Oldest(old(View()), j)
                     && jobs == old(jobs)[j := Outcome(Claimed(old(jobs)[j]), succeeds(j), writes(j))]
    {
      ghost var s := View();
      claimed := ClaimOne(world);
      if claimed.Some? {
        var j := claimed.value;
        ghost var m := View();
        Process(j, succeeds(j), writes(j), world);
        DoesOn(s, id, [j], m, [], View());
      }
    }

    /**
     However the others interleave, a batch is a run of the protocol in which this worker claims as many
     jobs as it counts; it stops early only when no job is to be had, and each outcome it wrote stands.
     Alone, it takes the oldest waiting jobs. Which pipelines succeed and which outcome writes go
     through is arbitrary.
     */
    method RunBatch(size: nat, succeeds: JobId -> bool, writes: JobId -> bool, world: World)
      returns (processed: nat, ghost taken: seq<JobId>)
      requires Invariant(View()) && Lawful(world, id) && Doing(View(), id) == Idle
      modifies this
      ensures Does(old(View()), id, taken, View()) && processed == |taken| <= size
      ensures Invariant(View()) && Doing(View(), id) == Idle
      ensures processed < size ==> NoneAvailable(View())
      ensures Settled(View(), taken, succeeds, writes)
      ensures Quiet(world) && Alone(old(View()), id) ==>
                && Taken(old(jobs), jobs, processed)
                && processed == if |Waiting(old(jobs))| < size then |Waiting(old(jobs))| else size
    {
      processed, taken := 0, [];
      DoesNothing(View(), id);
      ghost var alone := Quiet(world) && Alone(View(), id);
      while processed < size
        invariant Does(old(View()), id, taken, View()) && processed == |taken| <= size
        invariant Invariant(View()) && Doing(View(), id) == Idle
        invariant Settled(View(), taken, succeeds, writes)
        invariant alone ==> Alone(View(), id) && Taken(old(jobs), jobs, processed)
      {
        ghost var s := View();
        var claimed := ProcessNext(succeeds, writes, world);
        SettledOn(s, id, claimed, View(), taken, succeeds, writes);
        DoesOn(old(View()), id, taken, s, JobsOf(claimed), View());
        taken := taken + JobsOf(claimed);
        if claimed.None? {
          if alone {
            NobodyWaits(View(), id);
          }
          break;
        }
        if alone {
          TakeOne(old(jobs), s, processed, id, claimed.value, jobs, succeeds(claimed.value), writes(claimed.value));
        }
        processed := processed + 1;
      }
    }
  }

  lemma SettledOn(s: State, w: WorkerId, claimed: Option<JobId>, t: State, taken: seq<JobId>,
                  succeeds: JobId -> bool, writes: JobId -> bool)
    requires Invariant(s) && Does(s, w, JobsOf(claimed), t) && Settled(s, taken, succeeds, writes)
    requires claimed.Some? ==> HasOutcome(t, claimed.value, succeeds, writes)
    ensures Settled(t, taken + JobsOf(claimed), succeeds, writes)
  {
    DoesKeepsInvariant(s, w, JobsOf(claimed), t);
  }

  lemma NobodyWaits(s: State, w: WorkerId)
    requires Alone(s, w) && Doing(s, w) == Idle && NoneAvailable(s)
    ensures Waiting(s.jobs) == {}
  {
    forall j | j in s.jobs
      ensures s.jobs[j].status != Queued
    {
      assert !Available(s, j);
    }
  }
}
