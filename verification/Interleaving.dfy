/** Any number of workers racing over the same attempts. Each worker runs one transaction at a time;
    its writes become visible only when it commits, it may abort at any point, and the attempt row it
    has written stays locked until then. A run is any sequence of actions of any workers; an action
    that is not enabled, or is blocked on a locked row, leaves the system as it is. */
module Interleaving {
  import opened Common
  import opened Scoring
  import opened ExamStore
  import Recalculation
  import Worker

  datatype Phase =
    | Idle
    // an automatic submission: the claim has matched its row, the receipt is computed, the result is computed
    | Claimed(id: string, at: int, claimant: string)
    | Receipted(id: string, at: int, claimant: string, submittedAt: int, receipt: Receipt)
    | Calculated(id: string, at: int, claimant: string, submittedAt: int, receipt: Receipt, outcome: Outcome)
    // a result calculation: its reads are done, then its attempt row is written
    | Read(id: string, outcome: Outcome)
    | Written(id: string, outcome: Outcome)

  datatype System = System(db: Db, workers: map<string, Phase>)

  datatype Action =
    | ClaimRow(w: string, id: string, now: int, claimant: string)
    | TakeReceipt(w: string, now: int)
    | Calculate(w: string)
    | StartCalculation(w: string, id: string)
    | WriteCalculation(w: string)
    | Commit(w: string)
    | Abort(w: string)
    | SaveAnswer(questionId: string, answer: Answer)
    | EditReview(key: ReviewKey, review: Review)
    | Enrol(id: string, attempt: Attempt)

  predicate Locks(p: Phase, id: string) {
    !p.Idle? && !p.Read? && p.id == id
  }

  predicate Free(s: System, id: string) {
    forall w | w in s.workers :: !Locks(s.workers[w], id)
  }

  function PhaseOf(s: System, w: string): Phase {
    if w in s.workers then s.workers[w] else Idle
  }

  function Goto(s: System, w: string, p: Phase): System {
    s.(workers := s.workers[w := p])
  }

  /** A new attempt starts unclaimed, before any automatic submission. */
  predicate Fresh(a: Attempt) {
    a.claimedAt.None? && a.status != AutoSubmitted
  }

  function CommitPhase(db: Db, p: Phase): Db
    requires !p.Idle? ==> p.id in db.attempts
  {
    match p
    case Calculated(id, at, claimant, submittedAt, receipt, outcome) =>
      SubmitAll(db, id, at, claimant, submittedAt, receipt, outcome)
    case Written(id, outcome) => Store(db, id, outcome)
    case _ => db
  }

  function Committed(s: System, w: string, p: Phase): System
    requires !p.Idle? ==> p.id in s.db.attempts
  {
    System(CommitPhase(s.db, p), s.workers[w := Idle])
  }

  function AtCommit(s: System, w: string, p: Phase): System {
    if (p.Calculated? || p.Written?) && p.id in s.db.attempts then Committed(s, w, p) else s
  }

  /** Saving an answer updates the row of its attempt, so it waits for the transaction that holds it. */
  ghost predicate AnswerFree(s: System, questionId: string) {
    forall id, q | id in s.db.attempts && q in s.db.attempts[id].questions && q.id == questionId :: Free(s, id)
  }

  ghost function Next(s: System, a: Action): System {
    match a
    case ClaimRow(w, id, now, claimant) =>
      if PhaseOf(s, w).Idle? && Free(s, id) && Claimable(s.db, id, now)
      then Goto(s, w, Claimed(id, now, claimant)) else s
    case TakeReceipt(w, now) =>
      var p := PhaseOf(s, w);
      if p.Claimed? && p.id in s.db.attempts then
        var receipt := ReceiptFor(p.id, s.db.attempts[p.id].questions, s.db.answers, now);
        Goto(s, w, Receipted(p.id, p.at, p.claimant, now, receipt))
      else s
    case Calculate(w) =>
      var p := PhaseOf(s, w);
      if p.Receipted? && p.id in s.db.attempts
      then Goto(s, w, Calculated(p.id, p.at, p.claimant, p.submittedAt, p.receipt, Compute(s.db, p.id))) else s
    case StartCalculation(w, id) =>
      if PhaseOf(s, w).Idle? && id in s.db.attempts then Goto(s, w, Read(id, Compute(s.db, id))) else s
    case WriteCalculation(w) =>
      var p := PhaseOf(s, w);
      if p.Read? && Free(s, p.id) then Goto(s, w, Written(p.id, p.outcome)) else s
    case Commit(w) => AtCommit(s, w, PhaseOf(s, w))
    case Abort(w) => Goto(s, w, Idle)
    case SaveAnswer(questionId, answer) =>
      if AnswerFree(s, questionId) then s.(db := s.db.(answers := s.db.answers[questionId := answer])) else s
    case EditReview(key, review) => s.(db := s.db.(reviews := s.db.reviews[key := review]))
    case Enrol(id, attempt) =>
      if id !in s.db.attempts && Fresh(attempt)
      then s.(db := s.db.(attempts := s.db.attempts[id := attempt])) else s
  }

  /** What students, markers and enrolments write is stored at once: an answer when nobody holds a row of an
      attempt with its question, a review always, an attempt when it is new and unclaimed. */
  lemma OthersWrite(s: System, questionId: string, answer: Answer, key: ReviewKey, review: Review, id: string,
      attempt: Attempt)
    ensures (forall a, q, w | a in s.db.attempts && q in s.db.attempts[a].questions && q.id == questionId
        && w in s.workers :: !Locks(s.workers[w], a)) ==>
      Next(s, SaveAnswer(questionId, answer)) == s.(db := s.db.(answers := s.db.answers[questionId := answer]))
    ensures Next(s, EditReview(key, review)) == s.(db := s.db.(reviews := s.db.reviews[key := review]))
    ensures id !in s.db.attempts && attempt.claimedAt == None && attempt.status == InProgress ==>
      Next(s, Enrol(id, attempt)) == s.(db := s.db.(attempts := s.db.attempts[id := attempt]))
  {
  }

  ghost function Run(s: System, actions: seq<Action>): System {
    if actions == [] then s else Next(Run(s, actions[..|actions| - 1]), actions[|actions| - 1])
  }

  /** Unclaimed attempts, empty logs, nobody working. Receipts and results may already exist. */
  ghost predicate Initial(s: System) {
    && (forall id | id in s.db.attempts :: Fresh(s.db.attempts[id]))
    && s.db.events == [] && s.db.audits == [] && s.workers == map[]
  }

  function EventsFor(events: seq<Event>, id: string): nat {
    if events == [] then 0
    else EventsFor(events[..|events| - 1], id) + One(events[|events| - 1].attemptId == id)
  }

  // ---- the invariant ----

  predicate Consistent(db: Db, id: string)
    requires id in db.attempts
  {
    var a := db.attempts[id];
    && a.status != AutoSubmitted
    && (a.status == InProgress ==> a.claimedAt.None?)
    && (a.claimedAt.Some? ==> a.status in {UnderReview, Evaluated} && id in db.receipts && id in db.results)
    && EventsFor(db.events, id) == One(a.claimedAt.Some?)
  }

  ghost predicate Logged(db: Db) {
    && |db.audits| == |db.events|
    && (forall i | 0 <= i < |db.events| ::
          && db.events[i].attemptId in db.attempts
          && var a := db.attempts[db.events[i].attemptId];
             a.claimedBy == Some(db.events[i].claimedBy) && db.audits[i] == Audit(a.studentId, a.collegeId))
  }

  predicate OutcomeOk(p: Phase, db: Db) {
    && (!p.Idle? ==> p.id in db.attempts)
    && (p.Claimed? || p.Receipted? || p.Calculated? ==>
          db.attempts[p.id].status == InProgress && db.attempts[p.id].claimedAt.None?)
  }

  ghost predicate Safe(db: Db) {
    && (forall id | id in db.attempts :: Consistent(db, id))
    && (forall id | id !in db.attempts :: EventsFor(db.events, id) == 0)
    && Logged(db)
  }

  ghost predicate Exclusive(workers: map<string, Phase>) {
    forall v, w, id | v in workers && w in workers && Locks(workers[v], id) && Locks(workers[w], id) :: v == w
  }

  ghost predicate Inv(s: System) {
    && Safe(s.db)
    && Exclusive(s.workers)
    && (forall w | w in s.workers :: OutcomeOk(s.workers[w], s.db))
  }

  lemma InitialInv(s: System)
    requires Initial(s)
    ensures Inv(s)
  {
  }

  lemma EventsAppend(events: seq<Event>, e: Event, id: string)
    ensures EventsFor(events + [e], id) == EventsFor(events, id) + One(e.attemptId == id)
  {
    assert (events + [e])[..|events|] == events;
  }

  lemma {:induction false} EventSeen(events: seq<Event>, i: nat)
    requires i < |events|
    ensures EventsFor(events, events[i].attemptId) > 0
  {
    if i < |events| - 1 {
      EventSeen(events[..|events| - 1], i);
    }
  }

  /** The one attempt a commit changes, and what every commit leaves alone. */
  ghost predicate ChangesOnly(before: Db, after: Db, id: string) {
    && id in before.attempts && after.attempts.Keys == before.attempts.Keys
    && (forall k | k in before.attempts && k != id :: after.attempts[k] == before.attempts[k])
    && (forall k | k in before.receipts :: k in after.receipts && after.receipts[k] == before.receipts[k])
    && before.results.Keys <= after.results.Keys && id in after.results
    && after.attempts[id].status in {UnderReview, Evaluated}
    && after.attempts[id].studentId == before.attempts[id].studentId
    && after.attempts[id].collegeId == before.attempts[id].collegeId
  }

  ghost predicate CommitsClaim(before: Db, after: Db, id: string, claimant: string) {
    && ChangesOnly(before, after, id)
    && after.attempts[id].claimedAt.Some? && after.attempts[id].claimedBy == Some(claimant)
    && id in after.receipts
    && after.events == before.events + [Event(id, claimant)]
    && after.audits == before.audits + [Audit(before.attempts[id].studentId, before.attempts[id].collegeId)]
  }

  ghost predicate CommitsResult(before: Db, after: Db, id: string) {
    && ChangesOnly(before, after, id)
    && after.attempts[id].claimedAt == before.attempts[id].claimedAt
    && after.attempts[id].claimedBy == before.attempts[id].claimedBy
    && after.attempts[id].autoSubmittedAt == before.attempts[id].autoSubmittedAt
    && after.events == before.events && after.audits == before.audits
  }

  lemma CommitDispatch(s: System, w: string)
    ensures Next(s, Commit(w)) == AtCommit(s, w, PhaseOf(s, w))
  {
  }

  /** The step of a worker that is ready to commit. */
  lemma CommitIs(s: System, w: string, p: Phase)
    requires p == PhaseOf(s, w) && (p.Calculated? || p.Written?) && p.id in s.db.attempts
    ensures Next(s, Commit(w)) == Committed(s, w, p)
  {
    CommitDispatch(s, w);
    CommitReady(s, w, p);
  }

  lemma CommitReady(s: System, w: string, p: Phase)
    requires (p.Calculated? || p.Written?) && p.id in s.db.attempts
    ensures AtCommit(s, w, p) == Committed(s, w, p)
  {
  }

  lemma ClaimScope(db: Db, p: Phase)
    requires OutcomeOk(p, db) && p.Calculated?
    ensures ChangesOnly(db, CommitPhase(db, p), p.id)
  {
    SubmitAllScope(db, p.id, p.at, p.claimant, p.submittedAt, p.receipt, p.outcome);
  }

  lemma ClaimEffect(db: Db, p: Phase)
    requires OutcomeOk(p, db) && p.Calculated?
    ensures CommitsClaim(db, CommitPhase(db, p), p.id, p.claimant)
  {
    ClaimScope(db, p);
    SubmitAllScope(db, p.id, p.at, p.claimant, p.submittedAt, p.receipt, p.outcome);
  }

  lemma ResultEffect(db: Db, p: Phase)
    requires OutcomeOk(p, db) && p.Written?
    ensures CommitsResult(db, CommitPhase(db, p), p.id)
  {
    StoreEffect(db, p.id, p.outcome);
  }

  lemma StoreEffect(db: Db, id: string, o: Outcome)
    requires id in db.attempts
    ensures CommitsResult(db, Store(db, id, o), id)
  {
    StoreScope(db, id, o);
  }

  lemma CommitEffect(db: Db, p: Phase)
    requires OutcomeOk(p, db)
    ensures p.Calculated? ==> CommitsClaim(db, CommitPhase(db, p), p.id, p.claimant)
    ensures p.Written? ==> CommitsResult(db, CommitPhase(db, p), p.id)
  {
    if p.Calculated? {
      ClaimEffect(db, p);
    } else if p.Written? {
      ResultEffect(db, p);
    }
  }

  /** Committing the claim of an unclaimed attempt keeps the tables safe. */
  lemma CommitClaimSafe(db: Db, d: Db, id: string, claimant: string)
    requires Safe(db) && CommitsClaim(db, d, id, claimant) && db.attempts[id].claimedAt.None?
    ensures Safe(d)
  {
    assert Consistent(db, id);
    forall k ensures EventsFor(d.events, k) == EventsFor(db.events, k) + One(id == k) {
      EventsAppend(db.events, Event(id, claimant), k);
    }
    forall i | 0 <= i < |db.events| ensures db.events[i].attemptId != id {
      EventSeen(db.events, i);
    }
    forall k | k in d.attempts ensures Consistent(d, k) {
      assert Consistent(db, k);
    }
  }

  lemma CommitResultSafe(db: Db, d: Db, id: string)
    requires Safe(db) && CommitsResult(db, d, id)
    ensures Safe(d)
  {
    forall k | k in d.attempts ensures Consistent(d, k) {
      assert Consistent(db, k);
    }
  }

  /** What a commit does to other workers: nothing, since they hold other rows. */
  lemma CommitOthers(s: System, w: string)
    requires Inv(s) && (PhaseOf(s, w).Calculated? || PhaseOf(s, w).Written?)
    ensures forall v | v in s.workers && v != w :: OutcomeOk(s.workers[v], CommitPhase(s.db, s.workers[w]))
  {
    var p := s.workers[w];
    var d := CommitPhase(s.db, p);
    assert Locks(p, p.id);
    forall v | v in s.workers && v != w ensures OutcomeOk(s.workers[v], d) {
      var q := s.workers[v];
      assert OutcomeOk(q, s.db);
      if !q.Idle? && !q.Read? {
        assert Locks(q, q.id);
        assert q.id != p.id;
      }
    }
  }

  lemma CommitSafe(s: System, w: string)
    requires Inv(s) && (PhaseOf(s, w).Calculated? || PhaseOf(s, w).Written?)
    ensures Safe(CommitPhase(s.db, s.workers[w]))
  {
    var p := s.workers[w];
    assert OutcomeOk(p, s.db);
    CommitEffect(s.db, p);
    if p.Calculated? {
      CommitClaimSafe(s.db, CommitPhase(s.db, p), p.id, p.claimant);
    } else {
      CommitResultSafe(s.db, CommitPhase(s.db, p), p.id);
    }
  }

  lemma Together(d: Db, workers: map<string, Phase>, w: string)
    requires Safe(d) && Exclusive(workers)
    requires forall v | v in workers && v != w :: OutcomeOk(workers[v], d)
    ensures Inv(System(d, workers[w := Idle]))
  {
  }

  lemma CommitInv(s: System, w: string)
    requires Inv(s)
    ensures Inv(Next(s, Commit(w)))
  {
    var p := PhaseOf(s, w);
    if (p.Calculated? || p.Written?) && p.id in s.db.attempts {
      CommitSafe(s, w);
      CommitOthers(s, w);
      CommitIs(s, w, p);
      Together(CommitPhase(s.db, p), s.workers, w);
    }
  }

  /** The data the environment changes is not what the invariant speaks of. */
  lemma SameLedger(db: Db, d: Db)
    requires Safe(db) && d == db.(answers := d.answers, reviews := d.reviews)
    ensures Safe(d)
  {
    forall id | id in d.attempts ensures Consistent(d, id) {
      assert Consistent(db, id);
    }
  }

  lemma EnrolSafe(db: Db, id: string, attempt: Attempt)
    requires Safe(db) && id !in db.attempts && Fresh(attempt)
    ensures Safe(db.(attempts := db.attempts[id := attempt]))
  {
    var d := db.(attempts := db.attempts[id := attempt]);
    forall k | k in d.attempts ensures Consistent(d, k) {
      if k != id { assert Consistent(db, k); }
    }
  }

  lemma EnvironmentInv(s: System, a: Action)
    requires Inv(s) && (a.SaveAnswer? || a.EditReview? || a.Enrol?)
    ensures Inv(Next(s, a))
  {
    if a.Enrol? {
      if a.id !in s.db.attempts && Fresh(a.attempt) { EnrolSafe(s.db, a.id, a.attempt); }
    } else {
      SameLedger(s.db, Next(s, a).db);
    }
  }

  /** Moving inside a transaction changes no table. */
  lemma PrivateInv(s: System, w: string, p: Phase)
    requires Inv(s) && OutcomeOk(p, s.db)
    requires forall id | Locks(p, id) :: Locks(PhaseOf(s, w), id) || Free(s, id)
    ensures Inv(Goto(s, w, p))
  {
    var t := Goto(s, w, p);
    forall v, u, id | v in t.workers && u in t.workers && Locks(t.workers[v], id) && Locks(t.workers[u], id)
      ensures v == u
    {
    }
  }

  lemma NextInv(s: System, a: Action)
    requires Inv(s)
    ensures Inv(Next(s, a))
  {
    match a {
      case ClaimRow(w, id, now, claimant) =>
        if Next(s, a) != s { PrivateInv(s, w, Claimed(id, now, claimant)); }
      case TakeReceipt(w, now) =>
        if Next(s, a) != s { PrivateInv(s, w, Next(s, a).workers[w]); }
      case Calculate(w) =>
        if Next(s, a) != s { PrivateInv(s, w, Next(s, a).workers[w]); }
      case StartCalculation(w, id) =>
        if Next(s, a) != s { PrivateInv(s, w, Next(s, a).workers[w]); }
      case WriteCalculation(w) =>
        if Next(s, a) != s { PrivateInv(s, w, Next(s, a).workers[w]); }
      case Commit(w) => CommitInv(s, w);
      case Abort(w) => PrivateInv(s, w, Idle);
      case _ => EnvironmentInv(s, a);
    }
  }

  lemma {:induction false} RunInv(s: System, actions: seq<Action>)
    requires Inv(s)
    ensures Inv(Run(s, actions))
  {
    if actions != [] {
      RunInv(s, actions[..|actions| - 1]);
      NextInv(Run(s, actions[..|actions| - 1]), actions[|actions| - 1]);
    }
  }

  // ---- main results ----

  /** In every committed state of every interleaving: an attempt in progress is unclaimed; a claimed
      one is closed, with a receipt and a result; AUTO_SUBMITTED never shows; and an attempt has one
      AUTO_SUBMIT event, by its claimant, and the audit row that goes with it, exactly when claimed. */
  lemma EveryReachableState(s: System, actions: seq<Action>)
    requires Initial(s)
    ensures var db := Run(s, actions).db;
      && (forall id | id in db.attempts :: var a := db.attempts[id];
            && a.status != AutoSubmitted
            && (a.status == InProgress ==> a.claimedAt.None?)
            && (a.claimedAt.Some? ==> a.status in {UnderReview, Evaluated} && id in db.receipts && id in db.results)
            && EventsFor(db.events, id) == One(a.claimedAt.Some?))
      && (forall id :: EventsFor(db.events, id) <= 1)
      && |db.audits| == |db.events|
      && (forall i | 0 <= i < |db.events| :: db.events[i].attemptId in db.attempts
            && var a := db.attempts[db.events[i].attemptId];
               a.claimedBy == Some(db.events[i].claimedBy) && db.audits[i] == Audit(a.studentId, a.collegeId))
      && Worker.NoStaleClaims(db)
  {
    InitialInv(s);
    RunInv(s, actions);
    var db := Run(s, actions).db;
    forall id | id in db.attempts ensures Consistent(db, id) {
    }
  }

  /** What later commits may no longer change. */
  ghost predicate Permanent(before: Db, after: Db) {
    && before.attempts.Keys <= after.attempts.Keys
    && (forall id | id in before.receipts :: id in after.receipts && after.receipts[id] == before.receipts[id])
    && (forall id | id in before.attempts && before.attempts[id].claimedAt.Some? ::
          && after.attempts[id].claimedAt == before.attempts[id].claimedAt
          && after.attempts[id].claimedBy == before.attempts[id].claimedBy
          && after.attempts[id].autoSubmittedAt == before.attempts[id].autoSubmittedAt)
    && before.events <= after.events && before.audits <= after.audits
  }

  lemma CommitPermanent(before: Db, after: Db, p: Phase)
    requires OutcomeOk(p, before)
    requires (p.Calculated? && CommitsClaim(before, after, p.id, p.claimant)) || (p.Written?
      && CommitsResult(before, after, p.id))
    ensures Permanent(before, after)
  {
  }

  lemma NextPermanent(s: System, a: Action)
    requires Inv(s)
    ensures Permanent(s.db, Next(s, a).db)
  {
    if a.Commit? {
      var p := PhaseOf(s, a.w);
      if (p.Calculated? || p.Written?) && p.id in s.db.attempts {
        CommitIs(s, a.w, p);
        assert OutcomeOk(s.workers[a.w], s.db);
        CommitEffect(s.db, p);
        CommitPermanent(s.db, CommitPhase(s.db, p), p);
      }
    } else {
      NothingStored(s, a);
    }
  }

  lemma NothingStored(s: System, a: Action)
    requires !a.Commit?
    ensures var d, e := s.db, Next(s, a).db;
      && e.receipts == d.receipts && e.events == d.events && e.audits == d.audits
      && forall id | id in d.attempts :: id in e.attempts && e.attempts[id] == d.attempts[id]
  {
  }

  /** Over the rest of any run a receipt, a claim and the logged rows stay as they are. */
  lemma {:induction false} RunPermanent(s: System, actions: seq<Action>)
    requires Inv(s)
    ensures Permanent(s.db, Run(s, actions).db)
  {
    if actions != [] {
      var prefix := actions[..|actions| - 1];
      RunPermanent(s, prefix);
      RunInv(s, prefix);
      NextPermanent(Run(s, prefix), actions[|actions| - 1]);
    }
  }

  // ---- one worker alone ----

  lemma ClaimStep(s: System, w: string, id: string, at: int, claimant: string)
    requires PhaseOf(s, w).Idle? && Free(s, id)
    ensures Next(s, ClaimRow(w, id, at, claimant))
      == if Claimable(s.db, id, at) then Goto(s, w, Claimed(id, at, claimant)) else s
  {
  }

  lemma ReceiptStep(s: System, w: string, id: string, at: int, claimant: string, submittedAt: int)
    requires id in s.db.attempts
    ensures var receipt := ReceiptFor(id, s.db.attempts[id].questions, s.db.answers, submittedAt);
      Next(Goto(s, w, Claimed(id, at, claimant)), TakeReceipt(w, submittedAt))
      == Goto(s, w, Receipted(id, at, claimant, submittedAt, receipt))
  {
  }

  lemma CalculateStep(s: System, w: string, p: Phase)
    requires p.Receipted? && p.id in s.db.attempts
    ensures Next(Goto(s, w, p), Calculate(w))
      == Goto(s, w, Calculated(p.id, p.at, p.claimant, p.submittedAt, p.receipt, Compute(s.db, p.id)))
  {
    GotoTwice(s, w, p, Calculated(p.id, p.at, p.claimant, p.submittedAt, p.receipt, Compute(s.db, p.id)));
  }

  lemma GotoTwice(s: System, w: string, p: Phase, q: Phase)
    ensures Goto(Goto(s, w, p), w, q) == Goto(s, w, q) && PhaseOf(Goto(s, w, p), w) == p
  {
    assert s.workers[w := p][w := q] == s.workers[w := q];
  }

  lemma CommitStep(s: System, w: string, p: Phase)
    requires p.Calculated? && p.id in s.db.attempts
    ensures Next(Goto(s, w, p), Commit(w)).db
      == SubmitAll(s.db, p.id, p.at, p.claimant, p.submittedAt, p.receipt, p.outcome)
  {
    GotoTwice(s, w, p, Idle);
    CommitIs(Goto(s, w, p), w, p);
  }

  /** A claim and the two steps that follow it, in one go. */
  ghost function Prepared(s: System, w: string, id: string, claimant: string, at: int, submittedAt: int): System {
    Next(Next(Next(s, ClaimRow(w, id, at, claimant)), TakeReceipt(w, submittedAt)), Calculate(w))
  }

  /** Without interference the steps of a transaction are the sequential submission. */
  lemma UninterruptedCommit(s: System, w: string, id: string, claimant: string, at: int, submittedAt: int)
    requires PhaseOf(s, w).Idle? && Free(s, id)
    ensures Next(Prepared(s, w, id, claimant, at, submittedAt), Commit(w)).db
      == AutoSubmit(s.db, id, claimant, at, submittedAt)
  {
    ClaimStep(s, w, id, at, claimant);
    if Claimable(s.db, id, at) {
      var receipt := ReceiptFor(id, s.db.attempts[id].questions, s.db.answers, submittedAt);
      var receipted := Receipted(id, at, claimant, submittedAt, receipt);
      ReceiptStep(s, w, id, at, claimant, submittedAt);
      CalculateStep(s, w, receipted);
      CommitStep(s, w, Calculated(id, at, claimant, submittedAt, receipt, Compute(s.db, id)));
      var submitted := Submit(s.db, id, at, claimant, submittedAt, receipt);
      Recalculation.SameReads(submitted, s.db, id);
    }
  }

  /** A transaction that aborts, after any of its steps, leaves the tables as they were and its row
      free to be claimed again. */
  lemma AbortUndoes(s: System, w: string)
    requires Inv(s)
    ensures Next(s, Abort(w)).db == s.db
    ensures forall id | Free(s, id) || Locks(PhaseOf(s, w), id) :: Free(Next(s, Abort(w)), id)
  {
  }

  // ---- one count per claim ----

  /** What a transaction has counted is still so: the receipt, and the calculation after it. */
  ghost predicate Counts(db: Db, p: Phase) {
    p.Receipted? || p.Calculated? ==>
      && p.id in db.attempts
      && p.receipt.answerCount == CountAnswered(db.attempts[p.id].questions, db.answers)
      && (p.Calculated? ==> p.outcome.tally.attempted == p.receipt.answerCount)
  }

  ghost predicate AllCount(s: System) {
    forall w | w in s.workers :: Counts(s.db, s.workers[w])
  }

  lemma {:induction false} CountUnmoved(qs: seq<Question>, answers: map<string, Answer>, id: string, answer: Answer)
    requires forall q | q in qs :: q.id != id
    ensures CountAnswered(qs, answers[id := answer]) == CountAnswered(qs, answers)
  {
    if qs != [] {
      var init := qs[..|qs| - 1];
      assert qs == init + [qs[|qs| - 1]];
      CountUnmoved(init, answers, id, answer);
    }
  }

  lemma SaveCounts(s: System, questionId: string, answer: Answer)
    requires AllCount(s) && AnswerFree(s, questionId)
    ensures AllCount(Next(s, SaveAnswer(questionId, answer)))
  {
    var n := Next(s, SaveAnswer(questionId, answer));
    forall w | w in n.workers ensures Counts(n.db, n.workers[w]) {
      var p := s.workers[w];
      if p.Receipted? || p.Calculated? {
        assert Counts(s.db, p) && Locks(p, p.id) && !Free(s, p.id);
        CountUnmoved(s.db.attempts[p.id].questions, s.db.answers, questionId, answer);
      }
    }
  }

  lemma CommitCounts(db: Db, p: Phase, q: Phase)
    requires !p.Idle? ==> p.id in db.attempts
    requires Counts(db, q)
    ensures Counts(CommitPhase(db, p), q)
  {
  }

  lemma CountsStep(s: System, a: Action)
    requires AllCount(s)
    ensures AllCount(Next(s, a))
  {
    var n := Next(s, a);
    match a {
      case SaveAnswer(questionId, answer) =>
        if AnswerFree(s, questionId) { SaveCounts(s, questionId, answer); }
      case Calculate(w) =>
        var p := PhaseOf(s, w);
        if p.Receipted? && p.id in s.db.attempts { TallyAccounting(s.db.attempts[p.id].questions, s.db.answers); }
      case Commit(w) =>
        var p := PhaseOf(s, w);
        if (p.Calculated? || p.Written?) && p.id in s.db.attempts {
          forall v | v in s.workers ensures Counts(n.db, s.workers[v]) {
            CommitCounts(s.db, p, s.workers[v]);
          }
        }
      case _ =>
    }
  }

  /** In every reachable state the receipt of a claim agrees with its calculation, and with the answers
      stored: no answer of the attempt can be saved in between. */
  lemma {:induction false} ClaimsCountOnce(s: System, actions: seq<Action>)
    requires Initial(s)
    ensures AllCount(Run(s, actions))
  {
    if actions != [] {
      ClaimsCountOnce(s, actions[..|actions| - 1]);
      CountsStep(Run(s, actions[..|actions| - 1]), actions[|actions| - 1]);
    }
  }

  lemma StoredFigures(db: Db, id: string, claimant: string, at: int, submittedAt: int, receipt: Receipt, o: Outcome)
    requires id in db.attempts && id !in db.receipts
    ensures var d := SubmitAll(db, id, at, claimant, submittedAt, receipt, o);
      id in d.receipts && id in d.results && d.receipts[id] == receipt && d.results[id].tally == o.tally
  {
    SubmitAllScope(db, id, at, claimant, submittedAt, receipt, o);
  }

  /** So a claim that stores the attempt's first receipt stores a result that agrees with it. */
  lemma ClaimStoresAgreement(s: System, actions: seq<Action>, w: string)
    requires Initial(s)
    requires var p := PhaseOf(Run(s, actions), w); p.Calculated? && p.id !in Run(s, actions).db.receipts
    ensures var id := PhaseOf(Run(s, actions), w).id;
      var db := Next(Run(s, actions), Commit(w)).db;
      id in db.receipts && id in db.results && db.receipts[id].answerCount == db.results[id].tally.attempted
  {
    ClaimsCountOnce(s, actions);
    assert Counts(Run(s, actions).db, PhaseOf(Run(s, actions), w));
    ClaimCommits(Run(s, actions), w);
  }

  lemma ClaimCommits(s: System, w: string)
    requires var p := PhaseOf(s, w);
      p.Calculated? && p.id in s.db.attempts && p.id !in s.db.receipts
        && p.outcome.tally.attempted == p.receipt.answerCount
    ensures var id, db := PhaseOf(s, w).id, Next(s, Commit(w)).db;
      id in db.receipts && id in db.results && db.receipts[id].answerCount == db.results[id].tally.attempted
  {
    var p := PhaseOf(s, w);
    CommitIs(s, w, p);
    StoredFigures(s.db, p.id, p.claimant, p.at, p.submittedAt, p.receipt, p.outcome);
  }

  /** An answer whose save had to wait for the claim, and a calculation after it. */
  ghost function SavedLate(s: System, w: string, id: string, questionId: string, answer: Answer): System {
    Next(Next(Next(Next(s, SaveAnswer(questionId, answer)), StartCalculation(w, id)), WriteCalculation(w)), Commit(w))
  }

  /** The late answer shows in the result only: the receipt stays, and the result counts the answers of now. */
  lemma LateAnswer(s: System, w: string, id: string, questionId: string, answer: Answer)
    requires PhaseOf(s, w).Idle? && Free(s, id) && AnswerFree(s, questionId) && id in s.db.attempts
    ensures var db := SavedLate(s, w, id, questionId, answer).db;
      && db.receipts == s.db.receipts && id in db.results
      && db.results[id].tally.attempted
        == CountAnswered(s.db.attempts[id].questions, s.db.answers[questionId := answer])
  {
    var saved := System(s.db.(answers := s.db.answers[questionId := answer]), s.workers);
    assert Next(s, SaveAnswer(questionId, answer)) == saved;
    assert PhaseOf(saved, w) == PhaseOf(s, w) && Free(saved, id);
    CalculationSteps(saved, w, id);
    CalculationStores(saved.db, id);
  }

  lemma CalculationStores(db: Db, id: string)
    requires id in db.attempts
    ensures var d := Store(db, id, Compute(db, id));
      && d.receipts == db.receipts && id in d.results
      && d.results[id].tally.attempted == CountAnswered(db.attempts[id].questions, db.answers)
  {
    TallyAccounting(db.attempts[id].questions, db.answers);
  }

  lemma CalculationSteps(s: System, w: string, id: string)
    requires PhaseOf(s, w).Idle? && Free(s, id) && id in s.db.attempts
    ensures Next(Next(Next(s, StartCalculation(w, id)), WriteCalculation(w)), Commit(w)).db
      == Store(s.db, id, Compute(s.db, id))
  {
    var o := Compute(s.db, id);
    StartStep(s, w, id);
    WriteStep(s, w, id, o);
    StoreStep(s, w, id, o);
  }

  lemma StartStep(s: System, w: string, id: string)
    requires PhaseOf(s, w).Idle? && id in s.db.attempts
    ensures Next(s, StartCalculation(w, id)) == Goto(s, w, Read(id, Compute(s.db, id)))
  {
  }

  lemma StoreStep(s: System, w: string, id: string, o: Outcome)
    requires id in s.db.attempts
    ensures Next(Goto(s, w, Written(id, o)), Commit(w)).db == Store(s.db, id, o)
  {
    GotoTwice(s, w, Written(id, o), Idle);
    CommitIs(Goto(s, w, Written(id, o)), w, Written(id, o));
  }

  lemma WriteStep(s: System, w: string, id: string, o: Outcome)
    requires PhaseOf(s, w).Idle? && Free(s, id)
    ensures Next(Goto(s, w, Read(id, o)), WriteCalculation(w)) == Goto(s, w, Written(id, o))
  {
    var read := Goto(s, w, Read(id, o));
    assert Free(read, id);
    GotoTwice(s, w, Read(id, o), Written(id, o));
  }
}
