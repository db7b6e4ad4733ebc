/** The worker's own procedures, updating the tables row by row, and the expiry sweep. */
module Worker {
  import opened Common
  import opened Scoring
  import opened ExamStore
  import Recalculation
  import Text

  /** The most attempts one sweep takes. */
  const SWEEP_LIMIT: nat := 100

  // ---- what the sweep query may return ----

  function DueIds(db: Db, now: int): set<string> {
    set id | id in db.attempts && Due(db.attempts[id], now)
  }

  function Expiry(db: Db, id: string): int {
    if id in db.attempts then db.attempts[id].expiresAt else 0
  }

  ghost predicate Distinct(ids: seq<string>) {
    forall i, j | 0 <= i < j < |ids| :: ids[i] != ids[j]
  }

  function AsSet(ids: seq<string>): set<string> {
    set id | id in ids
  }

  /** `findMany` ordered by `expiresAt` and cut at the limit: any order among equal expiry times. */
  ghost predicate Selection(db: Db, now: int, limit: nat, ids: seq<string>) {
    && Distinct(ids)
    && AsSet(ids) <= DueIds(db, now)
    && |ids| == (if |DueIds(db, now)| < limit then |DueIds(db, now)| else limit)
    && (forall i, j | 0 <= i < j < |ids| :: Expiry(db, ids[i]) <= Expiry(db, ids[j]))
    && (forall id, other | id in ids && other in DueIds(db, now)
      && other !in ids :: Expiry(db, id) <= Expiry(db, other))
  }

  ghost predicate IsClosed(a: Attempt) {
    a.status in {UnderReview, Evaluated} && a.claimedAt.Some?
  }

  /** The effect of one sweep without failures: it closes the selected attempts nobody has claimed. */
  ghost predicate Swept(before: Db, after: Db, now: int, ids: seq<string>) {
    Selection(before, now, SWEEP_LIMIT, ids) && Progress(before, after, ids)
  }

  /** A sweep that ends early, with the failure of the submission after the first few. */
  ghost predicate PartialSweep(before: Db, after: Db, now: int, successes: nat) {
    exists ids :: Selection(before, now, SWEEP_LIMIT, ids) && Progress(before, after, Cut(ids, successes))
  }

  ghost predicate Submission(before: Db, after: Db, id: string, claimedBy: string, start: int, end: int) {
    exists at, submittedAt | start <= at <= submittedAt <= end ::
      after == AutoSubmit(before, id, claimedBy, at, submittedAt)
  }

  class ExamWorker {
    var db: Db
    var clock: int

    constructor (tables: Db, now: int)
      ensures db == tables && clock == now
    {
      db := tables;
      clock := now;
    }

    /** `new Date()`: time never runs backwards. */
    method Now() returns (t: int)
      modifies this`clock
      ensures old(clock) <= t && clock == t
    {
      t :| clock <= t;
      clock := t;
    }

    /** The recalculation: mark every question, sum the reviews, and write the result. */
    method CalculateResultTx(id: string) returns (found: bool)
      modifies this`db
      ensures found <==> id in old(db).attempts
      ensures db == if found then CalculateResult(old(db), id) else old(db)
    {
      found := id in db.attempts;
      if !found { return; }
      var a := db.attempts[id];
      var evaluations, reviews, tally := MarkQuestions(id, a.questions, db.answers, db.evaluations, db.reviews);
      var descriptiveScore, pendingReview := SumReviews(ReviewsOf(reviews, id));
      var scores := ScoresFor(a.totalMarks, a.passingMarks, tally.objectiveScore, descriptiveScore);
      var results :=
        if id in db.results then
          db.results[id := db.results[id].(scores := scores, tally := tally, ready := !pendingReview)]
        else
          db.results[id := Result(a.collegeId, a.assessmentId, a.studentId, scores, tally, !pendingReview, false)];
      db := db.(
        evaluations := evaluations, reviews := reviews, results := results,
        attempts := db.attempts[id := a.(
          scores := Some(scores), status := if pendingReview then UnderReview else Evaluated)]);
    }

    /** The claim and everything that depends on it, in one transaction. */
    method AutoSubmitAttempt(id: string, claimedBy: string)
      modifies this
      ensures old(clock) <= clock
      ensures Submission(old(db), db, id, claimedBy, old(clock), clock)
    {
      var at := Now();
      if !Claimable(db, id, at) {
        assert db == AutoSubmit(old(db), id, claimedBy, at, at);
        return;
      }
      db := db.(attempts := db.attempts[id := db.attempts[id].(claimedAt := Some(at), claimedBy := Some(claimedBy))]);
      var attempt := db.attempts[id];
      var answerCount := AnswerCount(attempt.questions, db.answers);
      var submittedAt := Now();
      db := db.(attempts := db.attempts[id := db.attempts[id].(
        status := AutoSubmitted, autoSubmittedAt := Some(submittedAt), lastActivityAt := submittedAt)]);
      if id !in db.receipts {
        db := db.(receipts := db.receipts[id := Receipt(
          "AUTO-" + Text.Upper(LastEight(id)) + "-" + Text.Shown(submittedAt), submittedAt, answerCount,
          |attempt.questions| - answerCount, AutoSubmitted)]);
      }
      assert db == Submit(old(db), id, at, claimedBy, submittedAt,
        ReceiptFor(id, attempt.questions, old(db).answers, submittedAt));
      var found := CalculateResultTx(id);
      db := db.(events := db.events + [Event(id, claimedBy)]);
      db := db.(audits := db.audits + [Audit(attempt.studentId, attempt.collegeId)]);
      assert db == AutoSubmit(old(db), id, claimedBy, at, submittedAt);
    }

    /** Take the earliest-expired attempts and submit them one after the other. The submission after
        `successes` ones fails, if the sweep gets there: it is rolled back and ends the sweep. */
    method SweepExpiredAttempts(claimedBy: string, successes: nat)
      modifies this
      ensures old(clock) <= clock
      ensures exists now | old(clock) <= now <= clock :: PartialSweep(old(db), db, now, successes)
      ensures successes >= SWEEP_LIMIT ==> exists now | old(clock) <= now <= clock :: Sweep(old(db), db, now)
    {
      var now := Now();
      var ids := FindDue(db, now);
      for i := 0 to |ids|
        invariant now <= clock && i <= successes
        invariant Progress(old(db), db, ids[..i])
      {
        if i == successes {
          assert Cut(ids, successes) == ids[..i];
          assert PartialSweep(old(db), db, now, successes);
          return;
        }
        label before:
        assert ids[..i + 1] == ids[..i] + [ids[i]];
        AutoSubmitAttempt(ids[i], claimedBy);
        ProgressStep(old(db), old@before(db), db, ids, i, now, claimedBy, old@before(clock), clock);
      }
      assert ids[..|ids|] == ids == Cut(ids, successes);
      assert PartialSweep(old(db), db, now, successes);
      assert Swept(old(db), db, now, ids);
      assert Sweep(old(db), db, now);
    }
  }

  /** An attempt was closed if it was submitted and unclaimed, and left alone otherwise. */
  ghost predicate Handled(before: Attempt, after: Attempt, submitted: bool) {
    && after.expiresAt == before.expiresAt
    && (if submitted && before.claimedAt.None? then IsClosed(after) else after == before)
  }

  /** The first attempts of a selection have been submitted. */
  ghost predicate Progress(before: Db, after: Db, ids: seq<string>) {
    && after.attempts.Keys == before.attempts.Keys
    && (forall id | id in before.attempts :: Handled(before.attempts[id], after.attempts[id], id in ids))
  }

  /** What a submission of a due attempt does to the attempts: it closes an unclaimed one. */
  lemma SubmissionEffect(before: Db, after: Db, id: string, claimedBy: string, start: int, end: int)
    requires Submission(before, after, id, claimedBy, start, end)
    requires id in before.attempts && Due(before.attempts[id], start)
    ensures after.attempts.Keys == before.attempts.Keys
    ensures forall other | other in before.attempts && other != id :: after.attempts[other] == before.attempts[other]
    ensures after.attempts[id].expiresAt == before.attempts[id].expiresAt
    ensures if before.attempts[id].claimedAt.None? then IsClosed(after.attempts[id])
            else after.attempts[id] == before.attempts[id]
  {
    var at, submittedAt :|
      start <= at <= submittedAt <= end && after == AutoSubmit(before, id, claimedBy, at, submittedAt);
    if before.attempts[id].claimedAt.None? {
      Recalculation.AutoSubmitCloses(before, id, claimedBy, at, submittedAt);
    }
  }

  lemma ProgressStep(before: Db, middle: Db, after: Db, ids: seq<string>, i: nat, now: int,
                     claimedBy: string, start: int, end: int)
    requires i < |ids| && Selection(before, now, SWEEP_LIMIT, ids) && now <= start
    requires Progress(before, middle, ids[..i])
    requires Submission(middle, after, ids[i], claimedBy, start, end)
    ensures Progress(before, after, ids[..i + 1])
  {
    var id := ids[i];
    assert id in AsSet(ids) && id in DueIds(before, now);
    assert id !in ids[..i];
    assert ids[..i + 1] == ids[..i] + [id];
    assert Handled(before.attempts[id], middle.attempts[id], false);
    SubmissionEffect(middle, after, id, claimedBy, start, end);
  }

  lemma {:induction false} EarliestExists(db: Db, ids: set<string>) returns (first: string)
    requires ids != {}
    ensures first in ids && forall other | other in ids :: Expiry(db, first) <= Expiry(db, other)
    decreases |ids|
  {
    first :| first in ids;
    if ids != {first} {
      var best := EarliestExists(db, ids - {first});
      first := if Expiry(db, best) <= Expiry(db, first) then best else first;
    }
  }

  /** The ids taken so far and the rest make up the due set. */
  ghost predicate Partition(db: Db, now: int, ids: seq<string>, rest: set<string>) {
    && AsSet(ids) + rest == DueIds(db, now)
    && |ids| + |rest| == |DueIds(db, now)|
    && (forall id | id in ids :: id !in rest)
  }

  /** They are distinct, sorted, and expire before the rest. */
  ghost predicate Ordered(db: Db, ids: seq<string>, rest: set<string>) {
    && Distinct(ids)
    && (forall i, j | 0 <= i < j < |ids| :: Expiry(db, ids[i]) <= Expiry(db, ids[j]))
    && (forall i, other | 0 <= i < |ids| && other in rest :: ids[i] != other && Expiry(db, ids[i]) <= Expiry(db, other))
  }

  lemma PartitionStep(db: Db, now: int, ids: seq<string>, rest: set<string>, id: string)
    requires Partition(db, now, ids, rest) && id in rest
    ensures Partition(db, now, ids + [id], rest - {id})
  {
    assert AsSet(ids + [id]) == AsSet(ids) + {id};
    assert AsSet(ids) + {id} + (rest - {id}) == AsSet(ids) + rest;
  }

  lemma OrderedStep(db: Db, ids: seq<string>, rest: set<string>, id: string)
    requires Ordered(db, ids, rest) && id in rest
    requires forall other | other in rest :: Expiry(db, id) <= Expiry(db, other)
    ensures Ordered(db, ids + [id], rest - {id})
  {
  }

  /** The query, as repeated choice of a due attempt that no other expires before. */
  method FindDue(db: Db, now: int) returns (ids: seq<string>)
    ensures Selection(db, now, SWEEP_LIMIT, ids)
  {
    ids := [];
    var rest := DueIds(db, now);
    assert AsSet(ids) == {};
    while rest != {} && |ids| < SWEEP_LIMIT
      invariant |ids| <= SWEEP_LIMIT && Partition(db, now, ids, rest) && Ordered(db, ids, rest)
      decreases rest
    {
      ghost var first := EarliestExists(db, rest);
      var id :| id in rest && forall other | other in rest :: Expiry(db, id) <= Expiry(db, other);
      PartitionStep(db, now, ids, rest, id);
      OrderedStep(db, ids, rest, id);
      ids := ids + [id];
      rest := rest - {id};
    }
  }

  method AnswerCount(qs: seq<Question>, answers: map<string, Answer>) returns (n: nat)
    ensures n == CountAnswered(qs, answers)
  {
    n := 0;
    for i := 0 to |qs|
      invariant n == CountAnswered(qs[..i], answers)
    {
      assert qs[..i + 1][..i] == qs[..i];
      var answer := AnswerTo(answers, qs[i]);
      if answer.Some? && IsAnswered(answer.value) {
        n := n + 1;
      }
    }
    assert qs[..|qs|] == qs;
  }

  lemma PrefixStep(qs: seq<Question>, i: nat, answers: map<string, Answer>)
    requires i < |qs|
    ensures RowsOf(qs[..i + 1], answers)
      == if Objective(qs[i].questionType) then RowsOf(qs[..i], answers)[qs[i].id := RowFor(qs[i], answers)]
         else RowsOf(qs[..i], answers)
    ensures TasksOf(qs[..i + 1])
      == if Manual(qs[i].questionType) && qs[i].id !in TasksOf(qs[..i])
         then TasksOf(qs[..i])[qs[i].id := qs[i].assignedMarks] else TasksOf(qs[..i])
  {
    assert qs[..i + 1][..i] == qs[..i];
  }

  lemma TallyStep(qs: seq<Question>, i: nat, answers: map<string, Answer>)
    requires i < |qs|
    ensures TallyOf(qs[..i + 1], answers) == TallyOf(qs[..i], answers).Plus(TallyOne(qs[i], AnswerTo(answers, qs[i])))
  {
    assert qs[..i + 1][..i] == qs[..i];
  }

  lemma RowsStep(qs: seq<Question>, i: nat, answers: map<string, Answer>, stored: map<string, EvaluationRow>)
    requires i < |qs|
    ensures MergeRows(stored, RowsOf(qs[..i + 1], answers))
      == if Objective(qs[i].questionType)
         then UpsertEvaluation(MergeRows(stored, RowsOf(qs[..i], answers)), qs[i].id, RowFor(qs[i], answers))
         else MergeRows(stored, RowsOf(qs[..i], answers))
  {
    PrefixStep(qs, i, answers);
    LinkOf(qs[..i], answers, qs[i]);
    MergeStep(stored, RowsOf(qs[..i], answers), qs[i].id, RowFor(qs[i], answers));
  }

  lemma TasksStep(qs: seq<Question>, i: nat, tasks: map<ReviewKey, Review>, id: string)
    requires i < |qs|
    ensures AddTasks(tasks, id, TasksOf(qs[..i + 1]))
      == if Manual(qs[i].questionType)
         then UpsertReview(AddTasks(tasks, id, TasksOf(qs[..i])), (id, qs[i].id), qs[i].assignedMarks)
         else AddTasks(tasks, id, TasksOf(qs[..i]))
  {
    PrefixStep(qs, i, map[]);
    TaskStep(tasks, id, TasksOf(qs[..i]), qs[i].id, qs[i].assignedMarks);
  }

  /** What the loop body stores: an evaluation, or a review task. */
  method MarkQuestion(
    id: string, q: Question, answers: map<string, Answer>,
    stored: map<string, EvaluationRow>, tasks: map<ReviewKey, Review>)
    returns (evaluations: map<string, EvaluationRow>, reviews: map<ReviewKey, Review>)
    ensures evaluations ==
      if Objective(q.questionType) then UpsertEvaluation(stored, q.id, RowFor(q, answers)) else stored
    ensures reviews == if Manual(q.questionType) then UpsertReview(tasks, (id, q.id), q.assignedMarks) else tasks
  {
    evaluations, reviews := stored, tasks;
    if Objective(q.questionType) {
      evaluations := UpsertEvaluation(evaluations, q.id, RowFor(q, answers));
    } else if Manual(q.questionType) {
      reviews := UpsertReview(reviews, (id, q.id), q.assignedMarks);
    }
  }

  /** The marking loop: one pass over the questions with five running counters, writing an
      evaluation or asking for a review as it goes. */
  method MarkQuestions(
    id: string, qs: seq<Question>, answers: map<string, Answer>,
    stored: map<string, EvaluationRow>, tasks: map<ReviewKey, Review>)
    returns (evaluations: map<string, EvaluationRow>, reviews: map<ReviewKey, Review>, tally: Tally)
    ensures evaluations == MergeRows(stored, RowsOf(qs, answers))
    ensures reviews == AddTasks(tasks, id, TasksOf(qs))
    ensures tally == TallyOf(qs, answers)
  {
    tally := ZERO;
    evaluations, reviews := stored, tasks;
    for i := 0 to |qs|
      invariant tally == TallyOf(qs[..i], answers)
      invariant evaluations == MergeRows(stored, RowsOf(qs[..i], answers))
      invariant reviews == AddTasks(tasks, id, TasksOf(qs[..i]))
    {
      TallyStep(qs, i, answers);
      RowsStep(qs, i, answers, stored);
      TasksStep(qs, i, tasks, id);
      tally := CountQuestion(tally, qs[i], AnswerTo(answers, qs[i]));
      evaluations, reviews := MarkQuestion(id, qs[i], answers, evaluations, reviews);
    }
    assert qs[..|qs|] == qs;
  }

  /** The counters' part of the loop body. */
  method CountQuestion(before: Tally, q: Question, answer: Option<Answer>) returns (tally: Tally)
    ensures tally == before.Plus(TallyOne(q, answer))
  {
    var answered := if answer.Some? then IsAnswered(answer.value) else false;
    tally := CountEvaluation(before, Objective(q.questionType), Evaluate(q, answer), answered);
  }

  method CountEvaluation(before: Tally, objective: bool, e: Evaluation, answered: bool) returns (tally: Tally)
    ensures tally == before.Plus(TallyFrom(objective, e, answered))
  {
    tally := before;
    if !answered {
      tally := tally.(unanswered := tally.unanswered + 1);
    } else {
      tally := tally.(attempted := tally.attempted + 1);
    }
    if objective {
      tally := tally.(objectiveScore := tally.objectiveScore + e.awardedMarks);
      if e.isCorrect == Some(true) {
        tally := tally.(correct := tally.correct + 1);
      } else if e.isCorrect == Some(false) && answered {
        tally := tally.(incorrect := tally.incorrect + 1);
      }
    }
  }

  lemma {:induction false} LinkOf(qs: seq<Question>, answers: map<string, Answer>, q: Question)
    ensures q.id in RowsOf(qs, answers) ==>
      RowsOf(qs, answers)[q.id].studentAnswerId == RowFor(q, answers).studentAnswerId
  {
    if qs != [] {
      LinkOf(qs[..|qs| - 1], answers, q);
    }
  }

  /** `reduce` and `some` over the review rows, taken in whatever order the query returns them. */
  method SumReviews(reviews: map<ReviewKey, Review>) returns (sum: real, pending: bool)
    ensures sum == SumMarks(reviews)
    ensures pending <==> PendingReview(reviews)
  {
    sum, pending := 0.0, false;
    var rest := reviews;
    while rest != map[]
      invariant rest.Keys <= reviews.Keys && forall k | k in rest :: rest[k] == reviews[k]
      invariant sum + SumMarks(rest) == SumMarks(reviews)
      invariant pending <==> exists k | k in reviews && k !in rest :: reviews[k].status != Completed
      decreases |rest|
    {
      var k :| k in rest;
      SumMarksAny(rest, k);
      sum := sum + rest[k].awardedMarks.GetOr(0.0);
      pending := pending || rest[k].status != Completed;
      rest := rest - {k};
    }
  }

  // ---- progress of repeated sweeps ----

  /** The state invariant the sweep query relies on: it does not filter out claimed rows. */
  ghost predicate NoStaleClaims(db: Db) {
    forall id | id in db.attempts && db.attempts[id].status == InProgress :: db.attempts[id].claimedAt.None?
  }

  lemma {:induction false} DistinctSize(ids: seq<string>)
    requires Distinct(ids)
    ensures |AsSet(ids)| == |ids|
  {
    if ids != [] {
      var n := |ids| - 1;
      DistinctSize(ids[..n]);
      assert AsSet(ids) == AsSet(ids[..n]) + {ids[n]};
    }
  }

  /** A sweep takes attempts that are in progress and past their time, at most 100, and leaves one out only
      when it has taken 100 that expire no later. */
  lemma SelectionMeaning(db: Db, now: int, ids: seq<string>)
    requires Selection(db, now, SWEEP_LIMIT, ids)
    ensures |ids| <= 100
    ensures forall id | id in ids ::
      id in db.attempts && db.attempts[id].status == InProgress && db.attempts[id].expiresAt <= now
    ensures forall id | id in db.attempts && id !in ids ::
      db.attempts[id].status == InProgress && db.attempts[id].expiresAt <= now ==>
        |ids| == 100 && forall other | other in ids :: db.attempts[other].expiresAt <= db.attempts[id].expiresAt
  {
    var due := DueIds(db, now);
    forall id | id in ids ensures id in due {
      assert id in AsSet(ids);
    }
    DistinctSize(ids);
    forall id | id in due && id !in ids ensures |ids| == 100 {
      SubsetSize(AsSet(ids), due - {id});
    }
    forall id, other | id in due && id !in ids && other in ids
      ensures db.attempts[other].expiresAt <= db.attempts[id].expiresAt
    {
      assert Expiry(db, other) <= Expiry(db, id);
    }
  }

  /** One sweep empties the due set by what it selected. */
  lemma SweepStep(before: Db, after: Db, now: int, ids: seq<string>)
    requires Swept(before, after, now, ids) && NoStaleClaims(before)
    ensures NoStaleClaims(after)
    ensures DueIds(after, now) == DueIds(before, now) - AsSet(ids)
    ensures |DueIds(after, now)|
      == (if |DueIds(before, now)| < SWEEP_LIMIT then 0 else |DueIds(before, now)| - SWEEP_LIMIT)
  {
    assert forall id | id in before.attempts :: Handled(before.attempts[id], after.attempts[id], id in ids);
    forall id | id in before.attempts
      ensures id in DueIds(after, now) <==> id in DueIds(before, now) && id !in ids
    {
      if id in ids { assert id in AsSet(ids); }
    }
    DistinctSize(ids);
  }

  /** A sweep moves every attempt it selects exactly when none of them carries a stale claim. */
  lemma SweepMovesAll(before: Db, after: Db, now: int, ids: seq<string>)
    requires Swept(before, after, now, ids)
    ensures (forall id | id in ids :: id in after.attempts && after.attempts[id].status != InProgress)
      <==> (forall id | id in ids :: id in before.attempts && before.attempts[id].claimedAt.None?)
  {
    forall id | id in ids
      ensures id in before.attempts && before.attempts[id].status == InProgress
      ensures id in after.attempts && Handled(before.attempts[id], after.attempts[id], true)
    {
      assert id in AsSet(ids) && id in DueIds(before, now);
    }
  }

  ghost predicate Sweep(before: Db, after: Db, now: int) {
    exists ids :: Swept(before, after, now, ids)
  }

  ghost predicate Sweeps(dbs: seq<Db>, nows: seq<int>) {
    && |dbs| == |nows| + 1
    && (forall i | 0 <= i < |nows| :: Sweep(dbs[i], dbs[i + 1], nows[i]))
    && (forall i, j | 0 <= i <= j < |nows| :: nows[i] <= nows[j])
  }

  /** Nothing becomes due that was not due at the first sweep. */
  ghost predicate NoNewExpiries(dbs: seq<Db>, nows: seq<int>) {
    |dbs| == |nows| + 1 && forall i | 0 <= i < |nows| :: DueIds(dbs[i], nows[i]) <= DueIds(dbs[0], nows[0])
  }

  lemma {:induction false} Backlog(dbs: seq<Db>, nows: seq<int>, k: nat)
    requires Sweeps(dbs, nows) && NoNewExpiries(dbs, nows) && NoStaleClaims(dbs[0]) && k < |nows|
    ensures NoStaleClaims(dbs[k])
    ensures forall id | id in dbs[k].attempts ::
      id in dbs[0].attempts && dbs[k].attempts[id].expiresAt == dbs[0].attempts[id].expiresAt
    ensures |DueIds(dbs[k], nows[k])| + SWEEP_LIMIT * k <= |DueIds(dbs[0], nows[0])| || DueIds(dbs[k], nows[k]) == {}
  {
    if k > 0 {
      Backlog(dbs, nows, k - 1);
      assert Sweep(dbs[k - 1], dbs[k - 1 + 1], nows[k - 1]);
      var ids :| Swept(dbs[k - 1], dbs[k], nows[k - 1], ids);
      SweepStep(dbs[k - 1], dbs[k], nows[k - 1], ids);
      var still, due := DueIds(dbs[k], nows[k - 1]), DueIds(dbs[k], nows[k]);
      assert due <= still by {
        forall id | id in due ensures id in still {
          assert id in DueIds(dbs[0], nows[0]);
        }
      }
      SubsetSize(due, still);
    }
  }

  lemma SubsetSize(a: set<string>, b: set<string>)
    requires a <= b
    ensures |a| <= |b|
  {
    assert b == a + (b - a);
  }

  /** With no new expiries, ceil(n / 100) sweeps clear a backlog of n expired attempts. */
  lemma SweepsClearBacklog(dbs: seq<Db>, nows: seq<int>)
    requires Sweeps(dbs, nows) && NoNewExpiries(dbs, nows) && NoStaleClaims(dbs[0]) && nows != []
    requires |DueIds(dbs[0], nows[0])| <= SWEEP_LIMIT * |nows|
    ensures DueIds(dbs[|nows|], nows[|nows| - 1]) == {}
  {
    var k := |nows| - 1;
    Backlog(dbs, nows, k);
    assert Sweep(dbs[k], dbs[k + 1], nows[k]);
    var ids :| Swept(dbs[k], dbs[k + 1], nows[k], ids);
    SweepStep(dbs[k], dbs[k + 1], nows[k], ids);
  }
}
