/** The exam tables the worker writes, as maps, and what one result calculation and one automatic
    submission do to them when nothing else runs. */
module ExamStore {
  import opened Common
  import opened Scoring
  import Sorting
  import Decimal
  import Text

  datatype Status =
    | NotStarted | InProgress | Submitted | AutoSubmitted | Expired | Cancelled | UnderReview | Evaluated

  datatype Pass = Pending | Passed | Failed

  datatype Scores = Scores(objective: real, descriptive: real, final: real, percentage: real, pass: Pass)

  datatype Attempt = Attempt(
    collegeId: string, assessmentId: string, studentId: string,
    status: Status, expiresAt: int,
    claimedAt: Option<int>, claimedBy: Option<string>, autoSubmittedAt: Option<int>, lastActivityAt: int,
    scores: Option<Scores>,
    questions: seq<Question>, totalMarks: real, passingMarks: Option<real>)

  datatype EvaluationRow = EvaluationRow(studentAnswerId: Option<string>, evaluation: Evaluation)

  datatype ReviewStatus = ReviewPending | Assigned | Completed

  datatype Review = Review(maxMarks: real, awardedMarks: Option<real>, status: ReviewStatus)

  datatype Result = Result(
    collegeId: string, assessmentId: string, studentId: string,
    scores: Scores, tally: Tally, ready: bool, isPublished: bool)

  datatype Receipt = Receipt(number: string, submittedAt: int, answerCount: nat, unansweredCount: int, status: Status)

  datatype Event = Event(attemptId: string, claimedBy: string)

  datatype Audit = Audit(userId: string, collegeId: string)

  type ReviewKey = (string, string)

  datatype Db = Db(
    attempts: map<string, Attempt>,
    answers: map<string, Answer>,
    evaluations: map<string, EvaluationRow>,
    reviews: map<ReviewKey, Review>,
    results: map<string, Result>,
    receipts: map<string, Receipt>,
    events: seq<Event>,
    audits: seq<Audit>)

  // ---- the two upserts of the marking loop ----

  /** `update: evaluation` leaves the answer link of an existing row alone. */
  function UpsertEvaluation(rows: map<string, EvaluationRow>, id: string, row: EvaluationRow): map<string,
      EvaluationRow> {
    rows[id := if id in rows then row.(studentAnswerId := rows[id].studentAnswerId) else row]
  }

  /** `update: {}`: an existing review task is not touched. */
  function UpsertReview(rows: map<ReviewKey, Review>, key: ReviewKey, maxMarks: real): map<ReviewKey, Review> {
    if key in rows then rows else rows[key := Review(maxMarks, None, ReviewPending)]
  }

  predicate Manual(t: QuestionType) {
    t.ShortAnswer? || t.Descriptive?
  }

  function RowFor(q: Question, answers: map<string, Answer>): EvaluationRow {
    var a := AnswerTo(answers, q);
    EvaluationRow(if a.Some? then Some(a.value.id) else None, Evaluate(q, a))
  }

  /** The rows the loop computes, by question. */
  function RowsOf(qs: seq<Question>, answers: map<string, Answer>): map<string, EvaluationRow> {
    if qs == [] then map[]
    else
      var q := qs[|qs| - 1];
      var rows := RowsOf(qs[..|qs| - 1], answers);
      if Objective(q.questionType) then rows[q.id := RowFor(q, answers)] else rows
  }

  /** The review tasks the loop asks for; the first question of a given id decides its marks. */
  function TasksOf(qs: seq<Question>): map<string, real> {
    if qs == [] then map[]
    else
      var q := qs[|qs| - 1];
      var tasks := TasksOf(qs[..|qs| - 1]);
      if Manual(q.questionType) && q.id !in tasks then tasks[q.id := q.assignedMarks] else tasks
  }

  function MergeRows(stored: map<string, EvaluationRow>, computed: map<string, EvaluationRow>): map<string,
      EvaluationRow> {
    stored + map id | id in computed ::
      if id in stored then computed[id].(studentAnswerId := stored[id].studentAnswerId) else computed[id]
  }

  function AddTasks(reviews: map<ReviewKey, Review>, attemptId: string, tasks: map<string, real>): map<ReviewKey,
      Review> {
    (map id | id in tasks :: (attemptId, id) := Review(tasks[id], None, ReviewPending)) + reviews
  }

  lemma MergeStep(stored: map<string, EvaluationRow>, computed: map<string, EvaluationRow>, id: string,
      row: EvaluationRow)
    requires id in computed ==> computed[id].studentAnswerId == row.studentAnswerId
    ensures UpsertEvaluation(MergeRows(stored, computed), id, row) == MergeRows(stored, computed[id := row])
  {
  }

  lemma TaskStep(reviews: map<ReviewKey, Review>, attemptId: string, tasks: map<string, real>, id: string, marks: real)
    ensures UpsertReview(AddTasks(reviews, attemptId, tasks), (attemptId, id), marks)
      == AddTasks(reviews, attemptId, if id in tasks then tasks else tasks[id := marks])
  {
  }

  // ---- the figures of a result ----

  function ReviewsOf(reviews: map<ReviewKey, Review>, attemptId: string): map<ReviewKey, Review> {
    map k | k in reviews && k.0 == attemptId :: reviews[k]
  }

  function MarksOf(r: Review): real {
    r.awardedMarks.GetOr(0.0)
  }

  ghost function SumMarks(reviews: map<ReviewKey, Review>): real {
    if reviews == map[] then 0.0
    else var k :| k in reviews; MarksOf(reviews[k]) + SumMarks(reviews - {k})
  }

  /** The sum is the same whichever row is taken first. */
  lemma {:induction false} SumMarksAny(reviews: map<ReviewKey, Review>, k: ReviewKey)
    requires k in reviews
    ensures SumMarks(reviews) == MarksOf(reviews[k]) + SumMarks(reviews - {k})
    decreases |reviews|
  {
    var first :| first in reviews && SumMarks(reviews) == MarksOf(reviews[first]) + SumMarks(reviews - {first});
    if first != k {
      SumMarksAny(reviews - {first}, k);
      SumMarksAny(reviews - {k}, first);
      assert reviews - {first} - {k} == reviews - {k} - {first};
    }
  }

  ghost predicate PendingReview(reviews: map<ReviewKey, Review>) {
    exists k | k in reviews :: reviews[k].status != Completed
  }

  function Min(a: real, b: real): real {
    if a <= b then a else b
  }

  function Percentage(total: real, totalMarks: real): real {
    if totalMarks > 0.0 then Decimal.Fixed(total / totalMarks * 100.0, 100.0) else 0.0
  }

  function ScoresFor(totalMarks: real, passingMarks: Option<real>, objective: real, descriptive: real): Scores {
    var total := Min(totalMarks, objective + descriptive);
    Scores(objective, descriptive, total, Percentage(total, totalMarks),
           match passingMarks
           case None => Pending
           case Some(p) => if total >= p then Passed else Failed)
  }

  /** Everything one calculation reads and decides. */
  datatype Outcome = Outcome(
    rows: map<string, EvaluationRow>, tasks: map<string, real>, tally: Tally, scores: Scores, pending: bool)

  ghost function Decide(
    rows: map<string, EvaluationRow>, tasks: map<string, real>, tally: Tally, reviews: map<ReviewKey, Review>,
    totalMarks: real, passingMarks: Option<real>): Outcome
  {
    Outcome(rows, tasks, tally,
            ScoresFor(totalMarks, passingMarks, tally.objectiveScore, SumMarks(reviews)), PendingReview(reviews))
  }

  /** The calculation reads the attempt, the answers and, after adding its own tasks, the reviews. */
  ghost function Compute(db: Db, id: string): Outcome
    requires id in db.attempts
  {
    var a := db.attempts[id];
    var tasks := TasksOf(a.questions);
    Decide(RowsOf(a.questions, db.answers), tasks, TallyOf(a.questions, db.answers),
           ReviewsOf(AddTasks(db.reviews, id, tasks), id), a.totalMarks, a.passingMarks)
  }

  function Closed(pending: bool): Status {
    if pending then UnderReview else Evaluated
  }

  function UpsertResult(results: map<string, Result>, id: string, a: Attempt, o: Outcome): map<string, Result> {
    results[id :=
      if id in results then results[id].(scores := o.scores, tally := o.tally, ready := !o.pending)
      else Result(a.collegeId, a.assessmentId, a.studentId, o.scores, o.tally, !o.pending, false)]
  }

  /** Writing an outcome down. */
  function Store(db: Db, id: string, o: Outcome): Db
    requires id in db.attempts
  {
    var a := db.attempts[id];
    db.(
      evaluations := MergeRows(db.evaluations, o.rows),
      reviews := AddTasks(db.reviews, id, o.tasks),
      results := UpsertResult(db.results, id, a, o),
      attempts := db.attempts[id := a.(scores := Some(o.scores), status := Closed(o.pending))])
  }

  ghost function CalculateResult(db: Db, id: string): Db
    requires id in db.attempts
  {
    Store(db, id, Compute(db, id))
  }

  // ---- automatic submission ----

  predicate Due(a: Attempt, now: int) {
    a.status == InProgress && a.expiresAt <= now
  }

  predicate Claimable(db: Db, id: string, now: int) {
    id in db.attempts && Due(db.attempts[id], now) && db.attempts[id].claimedAt.None?
  }

  function CountAnswered(qs: seq<Question>, answers: map<string, Answer>): nat {
    Count(qs, q => Counted(AnswerTo(answers, q)))
  }

  function LastEight(id: string): string {
    if |id| <= 8 then id else id[|id| - 8..]
  }

  function ReceiptFor(id: string, questions: seq<Question>, answers: map<string, Answer>, submittedAt: int): Receipt {
    var n := CountAnswered(questions, answers);
    var receiptNumber := "AUTO-" + Text.Upper(LastEight(id)) + "-" + Text.Shown(submittedAt);
    Receipt(receiptNumber, submittedAt, n, |questions| - n, AutoSubmitted)
  }

  function UpsertReceipt(receipts: map<string, Receipt>, id: string, r: Receipt): map<string, Receipt> {
    if id in receipts then receipts else receipts[id := r]
  }

  /** The writes of the transaction before the calculation: the claim, the status and the receipt. */
  function Claim(a: Attempt, at: int, claimant: string, submittedAt: int): Attempt {
    a.(claimedAt := Some(at), claimedBy := Some(claimant), status := AutoSubmitted,
       autoSubmittedAt := Some(submittedAt), lastActivityAt := submittedAt)
  }

  function Submit(db: Db, id: string, at: int, claimant: string, submittedAt: int, receipt: Receipt): Db
    requires id in db.attempts
  {
    db.(attempts := db.attempts[id := Claim(db.attempts[id], at, claimant, submittedAt)],
        receipts := UpsertReceipt(db.receipts, id, receipt))
  }

  function Log(db: Db, id: string, claimant: string): Db
    requires id in db.attempts
  {
    db.(events := db.events + [Event(id, claimant)],
        audits := db.audits + [Audit(db.attempts[id].studentId, db.attempts[id].collegeId)])
  }

  /** All the writes of the transaction. */
  function SubmitAll(db: Db, id: string, at: int, claimant: string, submittedAt: int, receipt: Receipt, o: Outcome): Db
    requires id in db.attempts
  {
    Log(Store(Submit(db, id, at, claimant, submittedAt, receipt), id, o), id, claimant)
  }

  lemma StoreScope(db: Db, id: string, o: Outcome)
    requires id in db.attempts
    ensures var d := Store(db, id, o);
      && d.attempts.Keys == db.attempts.Keys
      && (forall other | other in db.attempts && other != id :: d.attempts[other] == db.attempts[other])
      && d.attempts[id] == db.attempts[id].(scores := Some(o.scores), status := Closed(o.pending))
      && d.results.Keys == db.results.Keys + {id}
      && d.results[id].scores == o.scores && d.results[id].tally == o.tally && d.results[id].ready == !o.pending
      && (forall other | other in db.results && other != id :: d.results[other] == db.results[other])
      && d.receipts == db.receipts && d.events == db.events && d.audits == db.audits
  {
  }

  lemma SubmitAllScope(db: Db, id: string, at: int, claimant: string, submittedAt: int, receipt: Receipt, o: Outcome)
    requires id in db.attempts
    ensures var d := SubmitAll(db, id, at, claimant, submittedAt, receipt, o);
      && d.attempts.Keys == db.attempts.Keys
      && (forall other | other in db.attempts && other != id :: d.attempts[other] == db.attempts[other])
      && d.attempts[id] == Claim(db.attempts[id], at, claimant, submittedAt).(scores := Some(o.scores),
                                                                             status := Closed(o.pending))
      && d.results.Keys == db.results.Keys + {id}
      && d.results[id].scores == o.scores && d.results[id].tally == o.tally && d.results[id].ready == !o.pending
      && (forall other | other in db.results && other != id :: d.results[other] == db.results[other])
      && d.receipts == UpsertReceipt(db.receipts, id, receipt)
      && d.events == db.events + [Event(id, claimant)]
      && d.audits == db.audits + [Audit(db.attempts[id].studentId, db.attempts[id].collegeId)]
  {
    StoreScope(Submit(db, id, at, claimant, submittedAt, receipt), id, o);
  }

  /** One automatic submission that nothing interrupts. */
  ghost function AutoSubmit(db: Db, id: string, claimant: string, at: int, submittedAt: int): Db {
    if !Claimable(db, id, at) then db
    else
      var receipt := ReceiptFor(id, db.attempts[id].questions, db.answers, submittedAt);
      var submitted := Submit(db, id, at, claimant, submittedAt, receipt);
      SubmitAll(db, id, at, claimant, submittedAt, receipt, Compute(submitted, id))
  }
}
