/** Objective marking: what one answer earns, and the counters one attempt adds up to.
    Marks are exact reals. */
module Scoring {
  import opened Common
  import opened Sorting
  import opened Text

  datatype QuestionType =
    | SingleChoice | MultipleChoice | TrueFalse | FillInTheBlank | Numerical
    | ShortAnswer | Descriptive | Coding

  /** What `Number(...)` can give. */
  datatype Num = Finite(value: real) | Infinite(positive: bool) | NotANumber

  /** The evaluator metadata after `stringArray` and `Number` have read it. */
  datatype Key = Key(
    correctOptionKeys: seq<string>, acceptedAnswers: seq<string>, numericalAnswer: Num, tolerance: Num)

  datatype Question = Question(
    id: string, questionType: QuestionType, assignedMarks: real, assignedNegativeMarks: real, key: Key)

  datatype Answer = Answer(
    id: string, selectedOptionKeys: seq<string>, textAnswer: Option<string>, numericalAnswer: Option<Num>)

  datatype Evaluation = Evaluation(
    isCorrect: Option<bool>, awardedMarks: real, maxMarks: real, negativeMarksApplied: real)

  predicate Objective(t: QuestionType) {
    Choice(t) || t.FillInTheBlank? || t.Numerical?
  }

  predicate Choice(t: QuestionType) {
    t.SingleChoice? || t.MultipleChoice? || t.TrueFalse?
  }

  function Abs(x: real): real {
    if x < 0.0 then -x else x
  }

  predicate HasText(a: Answer) {
    a.textAnswer.Some? && a.textAnswer.value != ""
  }

  /** The caller's notion of an answered row. */
  predicate IsAnswered(a: Answer) {
    a.selectedOptionKeys != [] || HasText(a) || a.numericalAnswer.Some?
  }

  predicate Counted(a: Option<Answer>) {
    a.Some? && IsAnswered(a.value)
  }

  function Fold(s: string): string {
    Lower(Trim(s))
  }

  function Chosen(a: Option<Answer>): seq<string> {
    if a.Some? then a.value.selectedOptionKeys else []
  }

  function TextOf(a: Option<Answer>): string {
    if a.Some? then a.value.textAnswer.GetOr("") else ""
  }

  function NumberOf(a: Option<Answer>): Num {
    if a.Some? then a.value.numericalAnswer.GetOr(NotANumber) else NotANumber
  }

  predicate WithinTolerance(actual: Num, expected: Num, tolerance: Num) {
    && expected.Finite? && actual.Finite?
    && (tolerance == Infinite(true) || (tolerance.Finite? && Abs(actual.value - expected.value) <= tolerance.value))
  }

  /** What the evaluator itself takes for an answer. With no answer row,
      `answer?.numericalAnswer !== null` compares `undefined` with `null` and is true, so a choice
      question without a row is marked as if it had been answered. */
  predicate Graded(q: Question, a: Option<Answer>) {
    match q.questionType
    case FillInTheBlank => |Fold(TextOf(a))| > 0
    case Numerical => NumberOf(a).Finite?
    case _ => Chosen(a) != [] || a.None? || HasText(a.value) || a.value.numericalAnswer.Some?
  }

  predicate Accepts(accepted: seq<string>, text: string) {
    exists i | 0 <= i < |accepted| :: Fold(accepted[i]) == text
  }

  predicate Correct(q: Question, a: Option<Answer>) {
    var correct := Sort(q.key.correctOptionKeys, LexLe);
    var selected := Sort(Chosen(a), LexLe);
    match q.questionType
    case SingleChoice => |selected| == 1 && correct != [] && selected[0] == correct[0]
    case TrueFalse => |selected| == 1 && correct != [] && selected[0] == correct[0]
    case MultipleChoice => selected == correct
    case FillInTheBlank => Accepts(q.key.acceptedAnswers, Fold(TextOf(a)))
    case Numerical => WithinTolerance(NumberOf(a), q.key.numericalAnswer, q.key.tolerance)
    case _ => false
  }

  function Evaluate(q: Question, a: Option<Answer>): Evaluation {
    Mark(q.assignedMarks, q.assignedNegativeMarks, Graded(q, a), Correct(q, a))
  }

  function Mark(marks: real, negativeMarks: real, graded: bool, correct: bool): Evaluation {
    var awarded := if !graded then 0.0 else if correct then marks else -Abs(negativeMarks);
    Evaluation(if graded then Some(correct) else None, awarded, marks,
               if awarded < 0.0 then Abs(awarded) else 0.0)
  }

  // ---- what the marks mean, without the sorting and the folding of the evaluator ----

  /** An answer row that holds nothing. */
  ghost predicate Hollow(a: Answer) {
    a.selectedOptionKeys == [] && a.textAnswer in {None, Some("")} && a.numericalAnswer.None?
  }

  /** No answer row, or one that holds nothing. */
  ghost predicate Silent(q: Question, answers: map<string, Answer>) {
    q.id in answers ==> Hollow(answers[q.id])
  }

  /** Nothing the evaluator would mark. */
  ghost predicate Blank(q: Question, a: Option<Answer>) {
    match q.questionType
    case FillInTheBlank => a.None? || a.value.textAnswer.None? || AllSpace(a.value.textAnswer.value)
    case Numerical => !(a.Some? && a.value.numericalAnswer.Some? && a.value.numericalAnswer.value.Finite?)
    case _ => a.Some? && Hollow(a.value)
  }

  /** The same texts up to the case of letters and the white space around them. */
  ghost predicate SameAnswerText(s: string, t: string) {
    exists u, v :: Trimmed(s, u) && Trimmed(t, v) && SameLetters(u, v)
  }

  lemma FoldMeaning(s: string, t: string)
    ensures Fold(s) == Fold(t) <==> SameAnswerText(s, t)
  {
    TrimMeaning(s, Trim(s));
    TrimMeaning(t, Trim(t));
    SameLower(Trim(s), Trim(t));
    if u, v :| Trimmed(s, u) && Trimmed(t, v) && SameLetters(u, v) {
      TrimMeaning(s, u);
      TrimMeaning(t, v);
    }
  }

  lemma FoldBlank(s: string)
    ensures Fold(s) == "" <==> AllSpace(s)
  {
    TrimmedBlank(s);
  }

  /** A number within the tolerance: at most that far away on either side. An infinite tolerance takes
      every number, one that is no number takes none. */
  ghost predicate Close(actual: Num, expected: Num, tolerance: Num) {
    match (actual, expected, tolerance)
    case (Finite(x), Finite(e), Finite(t)) => e - t <= x <= e + t
    case (Finite(_), Finite(_), Infinite(positive)) => positive
    case _ => false
  }

  /** A single choice is right when it is the one selected key and the first of the correct ones
      in string order; a multiple choice when the selected keys are the correct keys, counted. */
  ghost predicate Right(q: Question, a: Option<Answer>) {
    match q.questionType
    case MultipleChoice =>
      multiset(if a.Some? then a.value.selectedOptionKeys else []) == multiset(q.key.correctOptionKeys)
    case FillInTheBlank =>
      && a.Some? && a.value.textAnswer.Some?
      && exists s | s in q.key.acceptedAnswers :: SameAnswerText(s, a.value.textAnswer.value)
    case Numerical =>
      && a.Some? && a.value.numericalAnswer.Some?
      && Close(a.value.numericalAnswer.value, q.key.numericalAnswer, q.key.tolerance)
    case _ =>
      && a.Some? && |a.value.selectedOptionKeys| == 1
      && Least(a.value.selectedOptionKeys[0], q.key.correctOptionKeys)
  }

  ghost predicate Least(k: string, keys: seq<string>) {
    k in keys && forall c | c in keys :: LexLe(k, c)
  }

  lemma EmptyFold()
    ensures Fold("") == ""
  {
  }

  lemma SortedFirst(keys: seq<string>, k: string)
    ensures Sort(keys, LexLe) != [] && k == Sort(keys, LexLe)[0] <==> Least(k, keys)
  {
    LexIsTotalOrder();
    SortSorted(keys, LexLe);
    var s := Sort(keys, LexLe);
    if keys != [] {
      SameElements(s, keys, s[0]);
      forall c | c in keys ensures LexLe(s[0], c) {
        SameElements(s, keys, c);
      }
    }
  }

  lemma GradedMeaning(q: Question, a: Option<Answer>)
    ensures Graded(q, a) <==> !Blank(q, a)
  {
    FoldBlank(TextOf(a));
    assert |Fold(TextOf(a))| > 0 <==> Fold(TextOf(a)) != "";
  }

  lemma SingleMeaning(q: Question, a: Option<Answer>)
    requires q.questionType.SingleChoice? || q.questionType.TrueFalse?
    ensures Correct(q, a) <==> Right(q, a)
  {
    var chosen := Chosen(a);
    var selected := Sort(chosen, LexLe);
    if |chosen| == 1 {
      assert chosen == [chosen[0]] && selected[0] in multiset(selected);
      SortedFirst(q.key.correctOptionKeys, chosen[0]);
    }
  }

  lemma MultipleMeaning(q: Question, a: Option<Answer>)
    requires q.questionType == MultipleChoice
    ensures Correct(q, a) <==> Right(q, a)
  {
    LexIsTotalOrder();
    SortPermutation(Chosen(a), q.key.correctOptionKeys, LexLe);
  }

  lemma AcceptsMeaning(accepted: seq<string>, text: string)
    ensures Accepts(accepted, text) <==> exists s | s in accepted :: Fold(s) == text
  {
    if s :| s in accepted && Fold(s) == text {
      var i :| 0 <= i < |accepted| && accepted[i] == s;
    }
  }

  lemma FillInMeaning(q: Question, a: Option<Answer>)
    requires q.questionType == FillInTheBlank && !Blank(q, a)
    ensures Correct(q, a) <==> Right(q, a)
  {
    var accepted, text := q.key.acceptedAnswers, TextOf(a);
    AcceptsMeaning(accepted, Fold(text));
    forall s ensures Fold(s) == Fold(text) <==> SameAnswerText(s, text) {
      FoldMeaning(s, text);
    }
  }

  lemma ToleranceMeaning(actual: Num, expected: Num, tolerance: Num)
    ensures WithinTolerance(actual, expected, tolerance) <==> Close(actual, expected, tolerance)
  {
    if actual.Finite? && expected.Finite? && tolerance.Finite? {
      assert Abs(actual.value - expected.value) <= tolerance.value <==>
        expected.value - tolerance.value <= actual.value <= expected.value + tolerance.value;
    }
  }

  /** The penalty for a wrong answer, whatever the sign the negative marks are stored with. */
  function Penalty(q: Question): real {
    if q.assignedNegativeMarks < 0.0 then q.assignedNegativeMarks else -q.assignedNegativeMarks
  }

  /** The evaluator marks a blank answer with nothing, a right one with the assigned marks and any
      other with the negative marks, whatever the order of the selected and correct keys. */
  lemma EvaluateMeaning(q: Question, a: Option<Answer>)
    requires Objective(q.questionType)
    ensures var e := Evaluate(q, a);
      && e.isCorrect == (if Blank(q, a) then None else Some(Right(q, a)))
      && e.awardedMarks == (if Blank(q, a) then 0.0 else if Right(q, a) then q.assignedMarks else Penalty(q))
      && e.negativeMarksApplied == (if e.awardedMarks < 0.0 then -e.awardedMarks else 0.0)
      && e.maxMarks == q.assignedMarks
  {
    GradedMeaning(q, a);
    if !Blank(q, a) {
      match q.questionType {
        case MultipleChoice => MultipleMeaning(q, a);
        case FillInTheBlank => FillInMeaning(q, a);
        case Numerical => ToleranceMeaning(a.value.numericalAnswer.value, q.key.numericalAnswer, q.key.tolerance);
        case _ => SingleMeaning(q, a);
      }
    }
  }

  /** `question.answer`: the row is looked up by the question's identifier. */
  function AnswerTo(answers: map<string, Answer>, q: Question): Option<Answer> {
    if q.id in answers then Some(answers[q.id]) else None
  }

  /** A question nobody answered can still move the score, exactly when its answer row is missing
      and it is a choice question: it costs the negative marks, or, when a multiple choice question
      has no correct key, it earns the assigned marks. */
  lemma UnansweredMarks(q: Question, a: Option<Answer>)
    requires Objective(q.questionType) && !Counted(a)
    ensures Evaluate(q, a).awardedMarks != 0.0 <==>
      && a.None? && Choice(q.questionType)
      && (if q.questionType == MultipleChoice && q.key.correctOptionKeys == []
          then q.assignedMarks else q.assignedNegativeMarks) != 0.0
    ensures Evaluate(q, a).isCorrect == Some(true) <==> Phantom(q, a)
  {
    EvaluateMeaning(q, a);
    EmptyFold();
    if a.None? && q.questionType == MultipleChoice {
      assert |multiset(q.key.correctOptionKeys)| == |q.key.correctOptionKeys|;
    }
  }

  /** A right answer without an answer row: a multiple choice question that has no correct key. */
  predicate Phantom(q: Question, a: Option<Answer>) {
    a.None? && q.questionType == MultipleChoice && q.key.correctOptionKeys == []
  }

  // ---- the running counters of one attempt ----

  datatype Tally = Tally(objectiveScore: real, correct: nat, incorrect: nat, unanswered: nat, attempted: nat) {
    function Plus(t: Tally): Tally {
      Tally(objectiveScore + t.objectiveScore, correct + t.correct, incorrect + t.incorrect,
            unanswered + t.unanswered, attempted + t.attempted)
    }
  }

  const ZERO := Tally(0.0, 0, 0, 0, 0)

  function One(b: bool): nat {
    if b then 1 else 0
  }

  function TallyFrom(objective: bool, e: Evaluation, counted: bool): Tally {
    if objective then
      Tally(e.awardedMarks, One(e.isCorrect == Some(true)), One(e.isCorrect == Some(false) && counted),
            One(!counted), One(counted))
    else
      Tally(0.0, 0, 0, One(!counted), One(counted))
  }

  function TallyOne(q: Question, a: Option<Answer>): Tally {
    TallyFrom(Objective(q.questionType), Evaluate(q, a), Counted(a))
  }

  function SumOf(qs: seq<Question>, f: Question -> Tally): Tally {
    if qs == [] then ZERO else SumOf(qs[..|qs| - 1], f).Plus(f(qs[|qs| - 1]))
  }

  function Contribution(answers: map<string, Answer>): Question -> Tally {
    q => TallyOne(q, AnswerTo(answers, q))
  }

  function TallyOf(qs: seq<Question>, answers: map<string, Answer>): Tally {
    SumOf(qs, Contribution(answers))
  }

  function Count(qs: seq<Question>, p: Question -> bool): nat {
    if qs == [] then 0 else Count(qs[..|qs| - 1], p) + One(p(qs[|qs| - 1]))
  }

  function Total(qs: seq<Question>, f: Question -> real): real {
    if qs == [] then 0.0 else Total(qs[..|qs| - 1], f) + f(qs[|qs| - 1])
  }

  function ObjectiveMarks(q: Question): real {
    if Objective(q.questionType) then q.assignedMarks else 0.0
  }

  function ObjectivePenalty(q: Question): real {
    if Objective(q.questionType) then Abs(q.assignedNegativeMarks) else 0.0
  }

  lemma {:induction false} ScoreBounds(qs: seq<Question>, answers: map<string, Answer>)
    ensures (forall q | q in qs :: q.assignedMarks >= 0.0) ==>
      -Total(qs, ObjectivePenalty) <= TallyOf(qs, answers).objectiveScore <= Total(qs, ObjectiveMarks)
  {
    if qs != [] {
      ScoreBounds(qs[..|qs| - 1], answers);
      EarnedBounds(qs[|qs| - 1], answers);
    }
  }

  lemma EarnedBounds(q: Question, answers: map<string, Answer>)
    ensures q.assignedMarks >= 0.0 ==>
      -ObjectivePenalty(q) <= TallyOne(q, AnswerTo(answers, q)).objectiveScore <= ObjectiveMarks(q)
  {
    OneMeaning(q, answers);
  }

  /** Every question is attempted or unanswered. Every attempted question is right, wrong or not
      graded, and the right answers exceed that only by the phantoms. The marks stay between all the
      penalties and all the marks. */
  lemma {:induction false} TallyAccounting(qs: seq<Question>, answers: map<string, Answer>)
    ensures var t := TallyOf(qs, answers);
      && t.attempted + t.unanswered == |qs|
      && t.attempted == Count(qs, q => Counted(AnswerTo(answers, q)))
      && t.correct + t.incorrect + Count(qs, q => Ungraded(q, AnswerTo(answers, q)))
         == t.attempted + Count(qs, q => Phantom(q, AnswerTo(answers, q)))
    ensures (forall q | q in qs :: q.assignedMarks >= 0.0) ==>
      -Total(qs, ObjectivePenalty) <= TallyOf(qs, answers).objectiveScore <= Total(qs, ObjectiveMarks)
  {
    ScoreBounds(qs, answers);
    if qs != [] {
      var q := qs[|qs| - 1];
      TallyAccounting(qs[..|qs| - 1], answers);
      GradedMeaning(q, AnswerTo(answers, q));
      if Objective(q.questionType) && !Counted(AnswerTo(answers, q)) {
        UnansweredMarks(q, AnswerTo(answers, q));
      }
    }
  }

  /** Attempted, but with nothing the evaluator grades. */
  predicate Ungraded(q: Question, a: Option<Answer>) {
    Counted(a) && !(Objective(q.questionType) && Graded(q, a))
  }

  lemma {:induction false} CountNone(qs: seq<Question>, p: Question -> bool)
    requires forall q | q in qs :: !p(q)
    ensures Count(qs, p) == 0
  {
    if qs != [] { CountNone(qs[..|qs| - 1], p); }
  }

  /** What a question earns: nothing unless it is marked automatically and has something to mark. */
  ghost function Earned(q: Question, a: Option<Answer>): real {
    if !Objective(q.questionType) || Blank(q, a) then 0.0 else if Right(q, a) then q.assignedMarks else Penalty(q)
  }

  ghost predicate Scored(q: Question, a: Option<Answer>, right: bool) {
    Objective(q.questionType) && !Blank(q, a) && (Right(q, a) <==> right)
  }

  lemma OneMeaning(q: Question, answers: map<string, Answer>)
    ensures var t, a := TallyOne(q, AnswerTo(answers, q)), AnswerTo(answers, q);
      && t.objectiveScore == Earned(q, a)
      && t.correct == One(Scored(q, a, true))
      && t.incorrect == One(Scored(q, a, false) && !Silent(q, answers))
      && t.unanswered == One(Silent(q, answers))
      && t.attempted == One(!Silent(q, answers))
  {
    assert Counted(AnswerTo(answers, q)) <==> !Silent(q, answers);
    if Objective(q.questionType) { EvaluateMeaning(q, AnswerTo(answers, q)); }
  }

  /** Each counter is the number of questions it stands for, and the score the sum of what they earn. */
  lemma {:induction false} TallyMeaning(qs: seq<Question>, answers: map<string, Answer>)
    ensures var t := TallyOf(qs, answers);
      && t.objectiveScore == Total(qs, q => Earned(q, AnswerTo(answers, q)))
      && t.correct == Count(qs, q => Scored(q, AnswerTo(answers, q), true))
      && t.incorrect == Count(qs, q => Scored(q, AnswerTo(answers, q), false) && !Silent(q, answers))
      && t.unanswered == Count(qs, q => Silent(q, answers))
      && t.attempted == Count(qs, q => !Silent(q, answers))
  {
    if qs != [] {
      TallyMeaning(qs[..|qs| - 1], answers);
      OneMeaning(qs[|qs| - 1], answers);
    }
  }

  /** With a correct key for every multiple choice question nothing is counted right or wrong
      that was not attempted. */
  lemma GradedWithinAttempted(qs: seq<Question>, answers: map<string, Answer>)
    requires forall q | q in qs && q.questionType == MultipleChoice :: q.key.correctOptionKeys != []
    ensures TallyOf(qs, answers).correct + TallyOf(qs, answers).incorrect <= TallyOf(qs, answers).attempted
  {
    TallyAccounting(qs, answers);
    CountNone(qs, q => Phantom(q, AnswerTo(answers, q)));
  }

  // ---- order does not matter ----

  lemma {:induction false} SumMiddle(a: seq<Question>, q: Question, b: seq<Question>, f: Question -> Tally)
    ensures SumOf(a + [q] + b, f) == SumOf(a + b, f).Plus(f(q))
  {
    var n := |b| - 1;
    if b == [] {
      assert (a + [q] + b)[..|a|] == a && a + b == a;
    } else {
      SumMiddle(a, q, b[..n], f);
      assert (a + [q] + b)[..|a| + |b|] == a + [q] + b[..n];
      assert (a + b)[..|a| + n] == a + b[..n];
    }
  }

  lemma {:induction false} SumPermutation(a: seq<Question>, b: seq<Question>, f: Question -> Tally)
    requires multiset(a) == multiset(b)
    ensures SumOf(a, f) == SumOf(b, f)
  {
    if a == [] {
      assert |b| == |multiset(b)| == |multiset(a)|;
    } else {
      var n := |a| - 1;
      SameElements(a, b, a[n]);
      var i :| 0 <= i < |b| && b[i] == a[n];
      assert b == b[..i] + [b[i]] + b[i + 1..];
      SumMiddle(b[..i], b[i], b[i + 1..], f);
      SamePermutation(a, b, i);
      SumPermutation(a[..n], b[..i] + b[i + 1..], f);
    }
  }

  /** The same question with its correct and accepted keys listed in another order. */
  ghost predicate SameQuestion(p: Question, q: Question) {
    && p == q.(key := p.key)
    && p.key == q.key.(correctOptionKeys := p.key.correctOptionKeys, acceptedAnswers := p.key.acceptedAnswers)
    && multiset(p.key.correctOptionKeys) == multiset(q.key.correctOptionKeys)
    && multiset(p.key.acceptedAnswers) == multiset(q.key.acceptedAnswers)
  }

  ghost predicate SameAnswer(a: Option<Answer>, b: Option<Answer>) {
    && (a.Some? <==> b.Some?)
    && (a.Some? ==>
      && a.value == b.value.(selectedOptionKeys := a.value.selectedOptionKeys)
      && multiset(a.value.selectedOptionKeys) == multiset(b.value.selectedOptionKeys))
  }

  lemma SortOrder(a: seq<string>, b: seq<string>)
    requires multiset(a) == multiset(b)
    ensures Sort(a, LexLe) == Sort(b, LexLe) && |a| == |b|
  {
    LexIsTotalOrder();
    SortPermutation(a, b, LexLe);
    assert |a| == |multiset(a)| && |b| == |multiset(b)|;
  }

  /** Neither the order of the keys nor the order of the selection changes a mark. */
  lemma KeyOrder(p: Question, a: Option<Answer>, q: Question, b: Option<Answer>)
    requires SameQuestion(p, q) && SameAnswer(a, b)
    ensures Graded(p, a) == Graded(q, b) && Correct(p, a) == Correct(q, b)
    ensures Counted(a) == Counted(b) && Evaluate(p, a) == Evaluate(q, b)
  {
    SameGraded(p, a, q, b);
    SameCorrect(p, a, q, b);
    assert p.assignedMarks == q.assignedMarks && p.assignedNegativeMarks == q.assignedNegativeMarks;
  }

  lemma SameGraded(p: Question, a: Option<Answer>, q: Question, b: Option<Answer>)
    requires p.questionType == q.questionType && SameAnswer(a, b)
    ensures Graded(p, a) == Graded(q, b) && Counted(a) == Counted(b)
  {
    assert |Chosen(a)| == |multiset(Chosen(a))| && |Chosen(b)| == |multiset(Chosen(b))|;
    assert Chosen(a) != [] <==> Chosen(b) != [];
  }

  lemma SameCorrect(p: Question, a: Option<Answer>, q: Question, b: Option<Answer>)
    requires SameQuestion(p, q) && SameAnswer(a, b)
    ensures Correct(p, a) == Correct(q, b)
  {
    match p.questionType {
      case MultipleChoice => MultipleMeaning(p, a); MultipleMeaning(q, b);
      case FillInTheBlank => AcceptsOrder(p.key.acceptedAnswers, q.key.acceptedAnswers, Fold(TextOf(a)));
      case Numerical =>
      case ShortAnswer =>
      case Descriptive =>
      case Coding =>
      case _ =>
        SortOrder(Chosen(a), Chosen(b));
        SortOrder(p.key.correctOptionKeys, q.key.correctOptionKeys);
    }
  }

  lemma AcceptsOrder(a: seq<string>, b: seq<string>, text: string)
    requires multiset(a) == multiset(b)
    ensures Accepts(a, text) == Accepts(b, text)
  {
    AcceptsMeaning(a, text);
    AcceptsMeaning(b, text);
    forall s ensures s in a <==> s in b {
      SameElements(a, b, s);
    }
  }
}
