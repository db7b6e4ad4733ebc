/** What repeating, reordering or reviewing does to a result calculation. */
module Recalculation {
  import opened Common
  import opened Scoring
  import opened ExamStore
  import opened Sorting
  import Decimal
  import Text

  /** Running the calculation again, with the same answers and reviews, changes nothing at all. */
  lemma Idempotent(db: Db, id: string)
    requires id in db.attempts
    ensures CalculateResult(CalculateResult(db, id), id) == CalculateResult(db, id)
  {
    var o := Compute(db, id);
    var once := Store(db, id, o);
    TasksKept(db.reviews, id, o.tasks);
    RowsKept(db.evaluations, o.rows);
    SameReads(once, db, id);
    StoreAgain(db, id, o);
  }

  /** What `Compute` reads. */
  lemma SameReads(d: Db, e: Db, id: string)
    requires id in d.attempts && id in e.attempts
    requires var a, b := d.attempts[id], e.attempts[id];
      a.questions == b.questions && a.totalMarks == b.totalMarks && a.passingMarks == b.passingMarks
    requires d.answers == e.answers
    requires var tasks := TasksOf(e.attempts[id].questions);
      AddTasks(d.reviews, id, tasks) == AddTasks(e.reviews, id, tasks)
    ensures Compute(d, id) == Compute(e, id)
  {
  }

  lemma StoreAgain(db: Db, id: string, o: Outcome)
    requires id in db.attempts
    ensures Store(Store(db, id, o), id, o) == Store(db, id, o)
  {
    TasksKept(db.reviews, id, o.tasks);
    RowsKept(db.evaluations, o.rows);
    ResultKept(db.results, id, db.attempts[id], o);
    var a := db.attempts[id].(scores := Some(o.scores), status := Closed(o.pending));
    assert db.attempts[id := a][id := a] == db.attempts[id := a];
  }

  lemma ResultKept(results: map<string, Result>, id: string, a: Attempt, o: Outcome)
    ensures forall b: Attempt ::
      UpsertResult(UpsertResult(results, id, a, o), id, b, o) == UpsertResult(results, id, a, o)
  {
  }

  lemma TasksKept(reviews: map<ReviewKey, Review>, id: string, tasks: map<string, real>)
    ensures AddTasks(AddTasks(reviews, id, tasks), id, tasks) == AddTasks(reviews, id, tasks)
  {
  }

  lemma RowsKept(stored: map<string, EvaluationRow>, computed: map<string, EvaluationRow>)
    ensures MergeRows(MergeRows(stored, computed), computed) == MergeRows(stored, computed)
  {
  }

  /** A calculation touches one attempt and no answer, receipt or log; a review that exists keeps its
      marks and status, and a publication flag stays. */
  lemma CalculationFrame(db: Db, id: string)
    requires id in db.attempts
    ensures var d := CalculateResult(db, id);
      && d.attempts.Keys == db.attempts.Keys
      && (forall other | other in db.attempts && other != id :: d.attempts[other] == db.attempts[other])
      && d.attempts[id] == db.attempts[id].(scores := d.attempts[id].scores, status := d.attempts[id].status)
      && d.attempts[id].status in {UnderReview, Evaluated}
      && d.answers == db.answers && d.receipts == db.receipts && d.events == db.events && d.audits == db.audits
      && (forall k | k in db.reviews :: k in d.reviews && d.reviews[k] == db.reviews[k])
      && id in d.results
      && (id in db.results ==> d.results[id].isPublished == db.results[id].isPublished)
  {
  }

  /** A review row of the attempt is not completed. */
  ghost predicate AwaitsReview(reviews: map<ReviewKey, Review>, id: string) {
    exists k | k in reviews :: k.0 == id && reviews[k].status in {ReviewPending, Assigned}
  }

  /** An attempt is evaluated, and its result ready, exactly when no review of it is outstanding. */
  lemma CalculationCloses(db: Db, id: string)
    requires id in db.attempts
    ensures var d := CalculateResult(db, id);
      && (d.attempts[id].status == UnderReview <==> AwaitsReview(d.reviews, id))
      && (d.attempts[id].status == Evaluated <==> !AwaitsReview(d.reviews, id))
      && (d.results[id].ready <==> !AwaitsReview(d.reviews, id))
  {
    var o := Compute(db, id);
    StoreScope(db, id, o);
    PendingMeaning(AddTasks(db.reviews, id, o.tasks), id);
    FiguresStored(db, id, db.attempts[id], o);
  }

  lemma PendingMeaning(reviews: map<ReviewKey, Review>, id: string)
    ensures PendingReview(ReviewsOf(reviews, id)) <==> AwaitsReview(reviews, id)
  {
    var own := ReviewsOf(reviews, id);
    if k :| k in reviews && k.0 == id && reviews[k].status in {ReviewPending, Assigned} {
      assert k in own && own[k].status != Completed;
    }
  }

  /** The stored figures: what the answers earn, what the reviews of the attempt award, and the counters.
      A result written for the first time belongs to the attempt's college, assessment and student and is
      not published. */
  lemma CalculationFigures(db: Db, id: string)
    requires id in db.attempts
    ensures var a, d := db.attempts[id], CalculateResult(db, id);
      && d.attempts[id].scores == Some(d.results[id].scores)
      && d.results[id].tally == TallyOf(a.questions, db.answers)
      && d.results[id].scores.objective == d.results[id].tally.objectiveScore
      && d.results[id].scores.descriptive == SumMarks(ReviewsOf(d.reviews, id))
      && d.results[id].scores
         == ScoresFor(a.totalMarks, a.passingMarks, d.results[id].scores.objective, d.results[id].scores.descriptive)
      && (id !in db.results ==>
          && d.results[id].collegeId == a.collegeId && d.results[id].assessmentId == a.assessmentId
          && d.results[id].studentId == a.studentId && !d.results[id].isPublished)
      && (id in db.results ==>
          d.results[id] == db.results[id].(scores := d.results[id].scores, tally := d.results[id].tally,
                                           ready := d.results[id].ready))
  {
    FiguresStored(db, id, db.attempts[id], Compute(db, id));
  }

  lemma FiguresStored(db: Db, id: string, a: Attempt, o: Outcome)
    requires id in db.attempts && a == db.attempts[id]
    ensures var d := Store(db, id, o);
      && d.attempts[id].scores == Some(o.scores) && d.results[id].scores == o.scores && d.results[id].tally == o.tally
      && d.reviews == AddTasks(db.reviews, id, o.tasks)
      && (id !in db.results ==>
          && d.results[id].collegeId == a.collegeId && d.results[id].assessmentId == a.assessmentId
          && d.results[id].studentId == a.studentId && !d.results[id].isPublished)
      && (id in db.results ==>
          d.results[id] == db.results[id].(scores := d.results[id].scores, tally := d.results[id].tally,
                                           ready := d.results[id].ready))
  {
  }

  /** The sum over the rows of one attempt: a row without a mark adds nothing, and a row of another attempt
      is not read. */
  lemma ReviewMarks(reviews: map<ReviewKey, Review>, k: ReviewKey, r: Review)
    requires k !in reviews
    ensures SumMarks(map[]) == 0.0
    ensures SumMarks(reviews[k := r])
      == SumMarks(reviews) + match r.awardedMarks { case None => 0.0 case Some(marks) => marks }
    ensures forall id ::
      ReviewsOf(reviews[k := r], id) == (if k.0 == id then ReviewsOf(reviews, id)[k := r] else ReviewsOf(reviews, id))
  {
    SumMarksAny(reviews[k := r], k);
    assert reviews[k := r] - {k} == reviews;
  }

  const MARKED_BY_WORKER: set<QuestionType> :=
    {SingleChoice, MultipleChoice, TrueFalse, FillInTheBlank, Numerical}

  const MARKED_BY_HAND: set<QuestionType> := {ShortAnswer, Descriptive}

  ghost predicate HasQuestion(qs: seq<Question>, id: string, types: set<QuestionType>) {
    exists q | q in qs :: q.id == id && q.questionType in types
  }

  /** A calculation stores the evaluation of every question it can mark, linked to the answer that was there
      when the row was first written, and leaves every other row alone. */
  lemma CalculationRows(db: Db, id: string, q: string)
    requires id in db.attempts && IdsDetermine(db.attempts[id].questions)
    ensures var d, qs := CalculateResult(db, id), db.attempts[id].questions;
      && (q in d.evaluations <==> q in db.evaluations || HasQuestion(qs, q, MARKED_BY_WORKER))
      && (q in db.evaluations && !HasQuestion(qs, q, MARKED_BY_WORKER) ==> d.evaluations[q] == db.evaluations[q])
      && (q in db.evaluations ==> d.evaluations[q].studentAnswerId == db.evaluations[q].studentAnswerId)
      && (q in d.evaluations && q !in db.evaluations ==>
          d.evaluations[q].studentAnswerId == if q in db.answers then Some(db.answers[q].id) else None)
      && (forall p | p in qs && p.id == q && p.questionType in MARKED_BY_WORKER ::
          d.evaluations[q].evaluation == Evaluate(p, if q in db.answers then Some(db.answers[q]) else None))
  {
    RowsStored(db.attempts[id].questions, db.answers, db.evaluations, q, RowsOf(db.attempts[id].questions, db.answers));
  }

  lemma RowsStored(
      qs: seq<Question>, answers: map<string, Answer>, stored: map<string, EvaluationRow>, q: string,
      computed: map<string, EvaluationRow>)
    requires IdsDetermine(qs) && computed == RowsOf(qs, answers)
    ensures var rows := MergeRows(stored, computed);
      && (q in rows <==> q in stored || HasQuestion(qs, q, MARKED_BY_WORKER))
      && (q in stored && !HasQuestion(qs, q, MARKED_BY_WORKER) ==> rows[q] == stored[q])
      && (q in stored ==> rows[q].studentAnswerId == stored[q].studentAnswerId)
      && (q in rows && q !in stored ==>
          rows[q].studentAnswerId == if q in answers then Some(answers[q].id) else None)
      && (forall p | p in qs && p.id == q && p.questionType in MARKED_BY_WORKER ::
          rows[q].evaluation == Evaluate(p, if q in answers then Some(answers[q]) else None))
  {
    RowsComputed(qs, answers, q, computed);
  }

  lemma RowsComputed(qs: seq<Question>, answers: map<string, Answer>, q: string, computed: map<string, EvaluationRow>)
    requires IdsDetermine(qs) && computed == RowsOf(qs, answers)
    ensures q in computed <==> HasQuestion(qs, q, MARKED_BY_WORKER)
    ensures forall p | p in qs && p.id == q && p.questionType in MARKED_BY_WORKER :: computed[q] == RowFor(p, answers)
  {
    RowsMeaning(qs, answers);
    forall t: QuestionType ensures t in MARKED_BY_WORKER <==> Objective(t) {
    }
  }

  /** It asks for a review of every question that is marked by hand and has none yet: pending, unmarked, out
      of the question's marks. */
  lemma CalculationTasks(db: Db, id: string, k: ReviewKey)
    requires id in db.attempts && IdsDetermine(db.attempts[id].questions) && k !in db.reviews
    ensures var d, qs := CalculateResult(db, id), db.attempts[id].questions;
      && (k in d.reviews <==> k.0 == id && HasQuestion(qs, k.1, MARKED_BY_HAND))
      && (forall p | p in qs && k == (id, p.id) && p.questionType in MARKED_BY_HAND ::
          d.reviews[k] == Review(p.assignedMarks, None, ReviewPending))
  {
    TasksComputed(db.attempts[id].questions, k.1, TasksOf(db.attempts[id].questions));
  }

  lemma TasksComputed(qs: seq<Question>, q: string, tasks: map<string, real>)
    requires IdsDetermine(qs) && tasks == TasksOf(qs)
    ensures q in tasks <==> HasQuestion(qs, q, MARKED_BY_HAND)
    ensures forall p | p in qs && p.id == q && p.questionType in MARKED_BY_HAND :: tasks[q] == p.assignedMarks
  {
    TasksMeaning(qs);
    forall t: QuestionType ensures t in MARKED_BY_HAND <==> Manual(t) {
    }
  }

  // ---- order ----

  /** An identifier belongs to one question. */
  ghost predicate IdsDetermine(qs: seq<Question>) {
    forall p, q | p in qs && q in qs && p.id == q.id :: p == q
  }

  lemma {:induction false} RowsMeaning(qs: seq<Question>, answers: map<string, Answer>)
    requires IdsDetermine(qs)
    ensures RowsOf(qs, answers).Keys == set q | q in qs && Objective(q.questionType) :: q.id
    ensures forall q | q in qs && Objective(q.questionType) :: RowsOf(qs, answers)[q.id] == RowFor(q, answers)
  {
    if qs != [] {
      var n := |qs| - 1;
      assert qs == qs[..n] + [qs[n]];
      assert forall q :: q in qs <==> q in qs[..n] || q == qs[n];
      RowsMeaning(qs[..n], answers);
    }
  }

  lemma {:induction false} TasksMeaning(qs: seq<Question>)
    requires IdsDetermine(qs)
    ensures TasksOf(qs).Keys == set q | q in qs && Manual(q.questionType) :: q.id
    ensures forall q | q in qs && Manual(q.questionType) :: TasksOf(qs)[q.id] == q.assignedMarks
  {
    if qs != [] {
      var n := |qs| - 1;
      assert qs == qs[..n] + [qs[n]];
      TasksMeaning(qs[..n]);
    }
  }

  /** The order in which the questions are read does not matter. */
  lemma QuestionOrder(db: Db, id: string, qs: seq<Question>)
    requires id in db.attempts && multiset(qs) == multiset(db.attempts[id].questions)
    requires IdsDetermine(qs)
    ensures Compute(db.(attempts := db.attempts[id := db.attempts[id].(questions := qs)]), id) == Compute(db, id)
  {
    SameMaps(qs, db.attempts[id].questions, db.answers);
    SumPermutation(qs, db.attempts[id].questions, Contribution(db.answers));
  }

  lemma SameMaps(ps: seq<Question>, qs: seq<Question>, answers: map<string, Answer>)
    requires multiset(ps) == multiset(qs) && IdsDetermine(ps)
    ensures RowsOf(ps, answers) == RowsOf(qs, answers) && TasksOf(ps) == TasksOf(qs)
  {
    forall q ensures q in ps <==> q in qs {
      SameElements(ps, qs, q);
    }
    RowsMeaning(ps, answers);
    RowsMeaning(qs, answers);
    TasksMeaning(ps);
    TasksMeaning(qs);
  }

  /** The same questions and answers, with keys and selections listed in other orders. */
  ghost predicate SameQuestions(ps: seq<Question>, qs: seq<Question>) {
    |ps| == |qs| && forall i | 0 <= i < |ps| :: SameQuestion(ps[i], qs[i])
  }

  ghost predicate SameAnswers(m: map<string, Answer>, n: map<string, Answer>) {
    m.Keys == n.Keys && forall k | k in m :: SameAnswer(Some(m[k]), Some(n[k]))
  }

  lemma SameContribution(p: Question, m: map<string, Answer>, q: Question, n: map<string, Answer>)
    requires SameQuestion(p, q) && SameAnswers(m, n)
    ensures Contribution(m)(p) == Contribution(n)(q) && RowFor(p, m) == RowFor(q, n)
  {
    KeyOrder(p, AnswerTo(m, p), q, AnswerTo(n, q));
    assert p.id == q.id && p.questionType == q.questionType;
  }

  lemma {:induction false} SameLoop(ps: seq<Question>, m: map<string, Answer>, qs: seq<Question>, n: map<string,
      Answer>)
    requires SameQuestions(ps, qs) && SameAnswers(m, n)
    ensures TallyOf(ps, m) == TallyOf(qs, n)
    ensures RowsOf(ps, m) == RowsOf(qs, n) && TasksOf(ps) == TasksOf(qs)
  {
    if ps != [] {
      var l := |ps| - 1;
      var p, q := ps[l], qs[l];
      assert SameQuestion(p, q);
      SameLoop(ps[..l], m, qs[..l], n);
      SameContribution(p, m, q, n);
      assert p.id == q.id && p.questionType == q.questionType && p.assignedMarks == q.assignedMarks;
    }
  }

  lemma SelectionOrder(db: Db, id: string, qs: seq<Question>, answers: map<string, Answer>)
    requires id in db.attempts
    requires SameQuestions(db.attempts[id].questions, qs) && SameAnswers(db.answers, answers)
    ensures Compute(db.(answers := answers, attempts := db.attempts[id := db.attempts[id].(questions := qs)]), id)
      == Compute(db, id)
  {
    SameLoop(db.attempts[id].questions, db.answers, qs, answers);
  }

  // ---- figures ----

  /** The total never exceeds the maximum; the percentage is the exact one to within half a
      hundredth. An attempt passes exactly when the total reaches the passing marks, if there are any. */
  lemma Figures(totalMarks: real, passingMarks: Option<real>, objective: real, descriptive: real)
    ensures var s := ScoresFor(totalMarks, passingMarks, objective, descriptive);
      && s.objective == objective && s.descriptive == descriptive
      && (s.pass == Pending <==> passingMarks.None?)
      && (s.pass == Passed <==> passingMarks.Some? && passingMarks.value <= s.final)
      && s.final <= totalMarks && s.final <= objective + descriptive
      && (s.final == totalMarks || s.final == objective + descriptive)
      && (totalMarks > 0.0 ==>
           && s.final / totalMarks * 100.0 - 0.005 <= s.percentage <= s.final / totalMarks * 100.0 + 0.005
           && s.percentage <= 100.0)
      && (totalMarks <= 0.0 ==> s.percentage == 0.0)
  {
    var s := ScoresFor(totalMarks, passingMarks, objective, descriptive);
    if totalMarks > 0.0 {
      Decimal.FixedError(s.final / totalMarks * 100.0, 100.0);
      PercentageMonotone(s.final, totalMarks, totalMarks);
      assert totalMarks / totalMarks == 1.0;
      Decimal.FixedExact(100.0, 10000, 100.0);
    }
  }

  lemma PercentageMonotone(score: real, better: real, totalMarks: real)
    requires score <= better
    ensures Percentage(score, totalMarks) <= Percentage(better, totalMarks)
  {
    if totalMarks > 0.0 {
      Decimal.QuotientMonotone(score, better, totalMarks);
      Decimal.FixedMonotone(score / totalMarks * 100.0, better / totalMarks * 100.0, 100.0);
    }
  }

  /** More marks never lose a percentage or a pass. */
  lemma MoreMarks(totalMarks: real, passingMarks: Option<real>, objective: real, descriptive: real, more: real)
    requires objective + descriptive <= more
    ensures var s, t := ScoresFor(totalMarks, passingMarks, objective, descriptive), ScoresFor(totalMarks,
      passingMarks, more, 0.0);
      s.final <= t.final && s.percentage <= t.percentage && (s.pass == Passed ==> t.pass == Passed)
  {
    PercentageMonotone(Min(totalMarks, objective + descriptive), Min(totalMarks, more), totalMarks);
  }

  /** When the answers do not change inside the transaction, a receipt written by it agrees with the
      result on the number of answered and unanswered questions. */
  lemma ReceiptAgrees(db: Db, id: string, claimant: string, at: int, submittedAt: int)
    requires Claimable(db, id, at) && id !in db.receipts
    ensures var d := AutoSubmit(db, id, claimant, at, submittedAt);
      && id in d.receipts && id in d.results
      && d.receipts[id].answerCount == d.results[id].tally.attempted
      && d.receipts[id].unansweredCount == d.results[id].tally.unanswered
  {
    TallyAccounting(db.attempts[id].questions, db.answers);
  }

  /** Something is written exactly when the attempt is in progress, its time is up and nobody has claimed
      it. */
  lemma SubmissionHappens(db: Db, id: string, claimant: string, at: int, submittedAt: int)
    ensures AutoSubmit(db, id, claimant, at, submittedAt) != db <==>
      && id in db.attempts && db.attempts[id].status == InProgress
      && db.attempts[id].expiresAt <= at && db.attempts[id].claimedAt == None
  {
    if Claimable(db, id, at) { AutoSubmitCloses(db, id, claimant, at, submittedAt); }
  }

  /** The receipt a submission writes first: numbered by the last eight characters of the attempt and the
      time, with the questions somebody answered and the others. */
  lemma FirstReceipt(db: Db, id: string, claimant: string, at: int, submittedAt: int, start: string, tail: string)
    requires Claimable(db, id, at) && id !in db.receipts
    requires id == start + tail && (|tail| == 8 || (start == "" && |tail| < 8))
    ensures var r, qs := AutoSubmit(db, id, claimant, at, submittedAt).receipts[id], db.attempts[id].questions;
      && r.answerCount == Count(qs, q => !Silent(q, db.answers))
      && r.unansweredCount == Count(qs, q => Silent(q, db.answers))
      && r.submittedAt == submittedAt && r.status == AutoSubmitted
      && r.number == "AUTO-" + Text.Upper(tail) + "-" + Text.Shown(submittedAt)
  {
    var qs := db.attempts[id].questions;
    var receipt := ReceiptFor(id, qs, db.answers, submittedAt);
    ReceiptWritten(db, id, claimant, at, submittedAt, receipt);
    ReceiptShows(id, qs, db.answers, submittedAt, start, tail, receipt);
  }

  lemma ReceiptShows(id: string, qs: seq<Question>, answers: map<string, Answer>, submittedAt: int, start: string,
      tail: string, r: Receipt)
    requires r == ReceiptFor(id, qs, answers, submittedAt)
    requires id == start + tail && (|tail| == 8 || (start == "" && |tail| < 8))
    ensures r.answerCount == Count(qs, q => !Silent(q, answers))
    ensures r.unansweredCount == Count(qs, q => Silent(q, answers))
    ensures r.submittedAt == submittedAt && r.status == AutoSubmitted
    ensures r.number == "AUTO-" + Text.Upper(tail) + "-" + Text.Shown(submittedAt)
  {
    assert LastEight(id) == tail;
    TallyMeaning(qs, answers);
    TallyAccounting(qs, answers);
  }

  lemma ReceiptWritten(db: Db, id: string, claimant: string, at: int, submittedAt: int, receipt: Receipt)
    requires Claimable(db, id, at) && id !in db.receipts
    requires receipt == ReceiptFor(id, db.attempts[id].questions, db.answers, submittedAt)
    ensures AutoSubmit(db, id, claimant, at, submittedAt).receipts[id] == receipt
  {
    var o := Compute(Submit(db, id, at, claimant, submittedAt, receipt), id);
    SubmitAllScope(db, id, at, claimant, submittedAt, receipt, o);
  }

  /** An uninterrupted submission closes the attempt: claimed, marked, with a receipt and a result. */
  lemma AutoSubmitCloses(db: Db, id: string, claimant: string, at: int, submittedAt: int)
    requires Claimable(db, id, at)
    ensures var d := AutoSubmit(db, id, claimant, at, submittedAt);
      && d.attempts.Keys == db.attempts.Keys
      && (forall other | other in db.attempts && other != id :: d.attempts[other] == db.attempts[other])
      && d.attempts[id].status in {UnderReview, Evaluated}
      && d.attempts[id].claimedBy == Some(claimant) && d.attempts[id].claimedAt == Some(at)
      && d.attempts[id].autoSubmittedAt == Some(submittedAt) && d.attempts[id].lastActivityAt == submittedAt
      && id in d.receipts && id in d.results
      && d.events == db.events + [Event(id, claimant)]
      && d.audits == db.audits + [Audit(db.attempts[id].studentId, db.attempts[id].collegeId)]
      && (forall k | k in db.receipts :: k in d.receipts && d.receipts[k] == db.receipts[k])
  {
    var receipt := ReceiptFor(id, db.attempts[id].questions, db.answers, submittedAt);
    var o := Compute(Submit(db, id, at, claimant, submittedAt, receipt), id);
    SubmitAllCloses(db, SubmitAll(db, id, at, claimant, submittedAt, receipt, o), id, claimant, at, submittedAt,
                    receipt, o);
  }

  lemma SubmitAllCloses(db: Db, d: Db, id: string, claimant: string, at: int, submittedAt: int, receipt: Receipt,
      o: Outcome)
    requires id in db.attempts && d == SubmitAll(db, id, at, claimant, submittedAt, receipt, o)
    ensures d.attempts.Keys == db.attempts.Keys
    ensures forall other | other in db.attempts && other != id :: d.attempts[other] == db.attempts[other]
    ensures d.attempts[id].status in {UnderReview, Evaluated}
    ensures d.attempts[id].claimedBy == Some(claimant) && d.attempts[id].claimedAt == Some(at)
    ensures d.attempts[id].autoSubmittedAt == Some(submittedAt) && d.attempts[id].lastActivityAt == submittedAt
    ensures id in d.receipts && id in d.results
    ensures d.events == db.events + [Event(id, claimant)]
    ensures d.audits == db.audits + [Audit(db.attempts[id].studentId, db.attempts[id].collegeId)]
    ensures forall k | k in db.receipts :: k in d.receipts && d.receipts[k] == db.receipts[k]
  {
    SubmitAllScope(db, id, at, claimant, submittedAt, receipt, o);
  }
}
