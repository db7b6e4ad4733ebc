/** Review of generated questions and their saving to the question bank: result statuses, the stored
    counters of a job, and the bank questions the job creates. */
module ReviewSave {
  import opened Common

  datatype Status = Pending | Approved | Rejected | Saved

  datatype Difficulty = Easy | Medium | Hard

  /** A generated result; its identity is its position in the job. */
  datatype Result = Result(
    text: string, suggested: Option<Difficulty>, approved: Option<Difficulty>, status: Status, questionId: Option<nat>)

  /** A bank question, with the result it was created from; its identity is its position in the bank. */
  datatype Question = Question(source: nat, title: string, text: string, difficulty: Difficulty)

  datatype Job = Job(
    results: seq<Result>, bank: seq<Question>, approvedCount: nat, rejectedCount: nat, generatedCount: nat)

  const TITLE: nat := 120

  function QuestionOf(id: nat, r: Result): Question {
    Question(id, Cut(r.text, TITLE), r.text, r.approved.GetOr(r.suggested.GetOr(Medium)))
  }

  function CountIn(results: seq<Result>, statuses: set<Status>): nat {
    if results == [] then 0
    else
      var n := |results| - 1;
      CountIn(results[..n], statuses) + if results[n].status in statuses then 1 else 0
  }

  function ApprovedIds(results: seq<Result>): seq<nat> {
    if results == [] then []
    else
      var n := |results| - 1;
      ApprovedIds(results[..n]) + if results[n].status == Approved then [n] else []
  }

  function Recount(job: Job): Job {
    job.(
      approvedCount := CountIn(job.results, {Approved, Saved}),
      rejectedCount := CountIn(job.results, {Rejected}),
      generatedCount := |job.results|)
  }

  // ---- the operations on values ----

  function Mark(r: Result, chosen: bool, to: Status): Result {
    if chosen then r.(status := to) else r
  }

  /** `updateMany` over the listed results, whatever their status. */
  function MarkAll(results: seq<Result>, ids: set<nat>, to: Status): seq<Result> {
    seq(|results|, i requires 0 <= i < |results| => Mark(results[i], i in ids, to))
  }

  /** The listed results that exist. */
  function Listed(ids: set<nat>, size: nat): set<nat> {
    set i | i in ids && i < size
  }

  /** A review. The decision rows are refused when a listed identity belongs to no stored result; the
      statuses have changed by then, and the recount does not happen. */
  function Review(job: Job, ids: set<nat>, to: Status, decisionsStored: bool): Job {
    var marked := job.(results := MarkAll(job.results, ids, to));
    if decisionsStored then Recount(marked) else marked
  }

  function PendingIds(results: seq<Result>): set<nat> {
    set i | 0 <= i < |results| && results[i].status == Pending
  }

  /** Regeneration rejects what is pending and queues the job again; it does not recount. */
  function Regenerate(job: Job): Job {
    job.(results := MarkAll(job.results, PendingIds(job.results), Rejected))
  }

  function Fresh(draft: (string, Option<Difficulty>)): Result {
    Result(draft.0, draft.1, draft.1, Pending, None)
  }

  /** The end of a generation: its results are added, and `generatedCount` counts only them. */
  function Generate(job: Job, drafts: seq<(string, Option<Difficulty>)>): Job {
    job.(
      results := job.results + seq(|drafts|, i requires 0 <= i < |drafts| => Fresh(drafts[i])),
      generatedCount := |drafts|)
  }

  function Edit(job: Job, id: nat, text: Option<string>, approved: Option<Difficulty>): Job {
    if id < |job.results| then
      var r := job.results[id];
      job.(results := job.results[id := r.(text := text.GetOr(r.text),
        approved := if approved.Some? then approved else r.approved)])
    else job
  }

  /** Saving the listed results of `fetched`, in order: a question each, then the result's new status. */
  function SaveList(fetched: seq<Result>, bank: seq<Question>, ids: seq<nat>): (seq<Result>, seq<Question>)
    requires forall k | 0 <= k < |ids| :: ids[k] < |fetched|
    ensures |SaveList(fetched, bank, ids).0| == |fetched|
  {
    if ids == [] then (fetched, bank)
    else
      var n := |ids| - 1;
      var (results, questions) := SaveList(fetched, bank, ids[..n]);
      (results[ids[n] := results[ids[n]].(status := Saved, questionId := Some(|questions|))],
       questions + [QuestionOf(ids[n], fetched[ids[n]])])
  }

  /** The approved results, in ascending order. */
  ghost predicate Lists(ids: seq<nat>, results: seq<Result>) {
    && (forall k | 0 <= k < |ids| :: ids[k] < |results| && results[ids[k]].status == Approved)
    && (forall j, k | 0 <= j < k < |ids| :: ids[j] < ids[k])
  }

  lemma {:induction false} ApprovedIdsMeaning(results: seq<Result>)
    ensures Lists(ApprovedIds(results), results)
    ensures forall i | 0 <= i < |results| && results[i].status == Approved :: i in ApprovedIds(results)
    ensures |ApprovedIds(results)| == CountIn(results, {Approved})
  {
    if results != [] {
      var n := |results| - 1;
      ApprovedIdsMeaning(results[..n]);
      var before := ApprovedIds(results[..n]);
      var ids := ApprovedIds(results);
      assert forall k | 0 <= k < |before| :: ids[k] == before[k] < n && results[..n][before[k]] == results[before[k]];
      forall i | 0 <= i < |results| && results[i].status == Approved ensures i in ids {
        if i < n {
          assert results[..n][i] == results[i];
          assert i in before;
        } else {
          assert ids[|before|] == n;
        }
      }
    }
  }

  function Save(job: Job): Job {
    ApprovedIdsMeaning(job.results);
    var (results, bank) := SaveList(job.results, job.bank, ApprovedIds(job.results));
    Recount(job.(results := results, bank := bank))
  }

  /** A save that fails after `done` approved results have been saved, with or without the question of the
      next one created; past the last one, it is the recount that fails. */
  function TornSave(job: Job, done: nat, created: bool): Job {
    ApprovedIdsMeaning(job.results);
    var ids := ApprovedIds(job.results);
    var (results, bank) := SaveList(job.results, job.bank, Cut(ids, done));
    job.(results := results,
         bank := bank + if created && done < |ids| then [QuestionOf(ids[done], job.results[ids[done]])] else [])
  }

  // ---- the service's rows, updated in place ----

  class ReviewService {
    var results: seq<Result>
    var bank: seq<Question>
    var approvedCount: nat
    var rejectedCount: nat
    var generatedCount: nat

    function State(): Job
      reads this
    {
      Job(results, bank, approvedCount, rejectedCount, generatedCount)
    }

    constructor ()
      ensures State() == Job([], [], 0, 0, 0)
    {
      results, bank, approvedCount, rejectedCount, generatedCount := [], [], 0, 0, 0;
    }

    method CountStatus(statuses: set<Status>) returns (count: nat)
      ensures count == CountIn(results, statuses)
    {
      count := 0;
      for i := 0 to |results|
        invariant count == CountIn(results[..i], statuses)
      {
        assert results[..i + 1][..i] == results[..i];
        if results[i].status in statuses { count := count + 1; }
      }
      assert results[..|results|] == results;
    }

    method RecountJob()
      modifies `approvedCount, `rejectedCount, `generatedCount
      ensures State() == Recount(old(State()))
    {
      var a := CountStatus({Approved, Saved});
      var r := CountStatus({Rejected});
      approvedCount, rejectedCount, generatedCount := a, r, |results|;
    }

    method UpdateMany(ids: set<nat>, to: Status) returns (count: nat)
      modifies `results
      ensures results == MarkAll(old(results), ids, to)
      ensures count == |Listed(ids, |old(results)|)|
    {
      ghost var before := results;
      count := 0;
      for i := 0 to |results|
        invariant |results| == |before|
        invariant forall k | 0 <= k < |before| :: results[k] == Mark(before[k], k < i && k in ids, to)
        invariant count == |Listed(ids, i)|
      {
        if i in ids {
          assert Listed(ids, i + 1) == Listed(ids, i) + {i};
          results := results[i := results[i].(status := to)];
          count := count + 1;
        } else {
          assert Listed(ids, i + 1) == Listed(ids, i);
        }
      }
    }

    method ReviewResults(ids: set<nat>, to: Status, decisionsStored: bool) returns (count: nat)
      modifies this
      ensures State() == Review(old(State()), ids, to, decisionsStored)
      ensures count == |Listed(ids, |old(results)|)|
    {
      count := UpdateMany(ids, to);
      if decisionsStored { RecountJob(); }
    }

    method RegenerateJob()
      modifies `results
      ensures State() == Regenerate(old(State()))
    {
      var _ := UpdateMany(PendingIds(results), Rejected);
    }

    method SaveApprovedToQuestionBank() returns (saved: seq<Question>)
      modifies this
      ensures State() == Save(old(State()))
      ensures bank == old(bank) + saved
    {
      ApprovedIdsMeaning(results);
      var fetched, ids := results, ApprovedIds(results);
      ghost var stored := bank;
      saved := [];
      for k := 0 to |ids|
        invariant (results, bank) == SaveList(fetched, stored, ids[..k])
        invariant bank == stored + saved
        invariant approvedCount == old(approvedCount) && rejectedCount == old(rejectedCount)
          && generatedCount == old(generatedCount)
      {
        assert ids[..k + 1][..k] == ids[..k];
        var question := QuestionOf(ids[k], fetched[ids[k]]);
        var questionId := |bank|;
        bank := bank + [question];
        results := results[ids[k] := results[ids[k]].(questionId := Some(questionId), status := Saved)];
        saved := saved + [question];
      }
      assert ids[..|ids|] == ids;
      RecountJob();
    }
  }

  // ---- what each operation does ----

  function InStatus(results: seq<Result>, statuses: set<Status>): set<nat> {
    set i | 0 <= i < |results| && results[i].status in statuses
  }

  lemma {:induction false} CountMeaning(results: seq<Result>, statuses: set<Status>)
    ensures CountIn(results, statuses) == |InStatus(results, statuses)|
  {
    if results != [] {
      var n := |results| - 1;
      CountMeaning(results[..n], statuses);
      var before := InStatus(results[..n], statuses);
      assert InStatus(results, statuses) == if results[n].status in statuses then before + {n} else before;
    }
  }

  /** The counters are the numbers of results that are approved or saved, that are rejected, and of all. */
  lemma RecountMeaning(job: Job)
    ensures var n := Recount(job);
      && n.results == job.results && n.bank == job.bank
      && n.approvedCount == |InStatus(job.results, {Approved, Saved})|
      && n.rejectedCount == |InStatus(job.results, {Rejected})|
      && n.generatedCount == |job.results|
  {
    CountMeaning(job.results, {Approved, Saved});
    CountMeaning(job.results, {Rejected});
  }

  /** A review gives the listed results their status and touches nothing else of them, no other result and no
      question; it recounts unless its decisions are refused. */
  lemma ReviewMeaning(job: Job, ids: set<nat>, to: Status, decisionsStored: bool)
    ensures var n := Review(job, ids, to, decisionsStored);
      && |n.results| == |job.results| && n.bank == job.bank
      && (forall i | 0 <= i < |job.results| && i in ids :: var r := n.results[i];
          && r.status == to && r.text == job.results[i].text && r.suggested == job.results[i].suggested
          && r.approved == job.results[i].approved && r.questionId == job.results[i].questionId)
      && (forall i | 0 <= i < |job.results| && i !in ids :: n.results[i] == job.results[i])
      && n == if decisionsStored then Recount(job.(results := n.results)) else job.(results := n.results)
  {
  }

  /** A regeneration rejects the pending results and changes nothing else. */
  lemma RegenerateMeaning(job: Job)
    ensures var n := Regenerate(job);
      && n == job.(results := n.results) && |n.results| == |job.results|
      && (forall i | 0 <= i < |job.results| ::
          if job.results[i].status == Pending
          then n.results[i].status == Rejected && n.results[i].(status := Pending) == job.results[i]
          else n.results[i] == job.results[i])
  {
    forall i | 0 <= i < |job.results| && job.results[i].status == Pending
      ensures job.results[i].(status := Rejected).(status := Pending) == job.results[i]
    {
    }
  }

  /** A generation adds its drafts as pending results without a question, the suggested difficulty approved for
      the time being, and counts them only. */
  lemma GenerateMeaning(job: Job, drafts: seq<(string, Option<Difficulty>)>)
    ensures var n := Generate(job, drafts);
      && n.results[..|job.results|] == job.results && |n.results| == |job.results| + |drafts|
      && (forall k | 0 <= k < |drafts| :: var r := n.results[|job.results| + k];
          && r.text == drafts[k].0 && r.suggested == r.approved == drafts[k].1 && r.status == Pending
          && r.questionId == None)
      && n.generatedCount == |drafts| && n == job.(results := n.results, generatedCount := n.generatedCount)
  {
  }

  /** An edit sets the text and the difficulty that it names on one result. */
  lemma EditMeaning(job: Job, id: nat, text: Option<string>, approved: Option<Difficulty>)
    ensures var n := Edit(job, id, text, approved);
      && n == job.(results := n.results) && |n.results| == |job.results|
      && (forall i | 0 <= i < |job.results| && i != id :: n.results[i] == job.results[i])
      && (id < |job.results| ==> var r, before := n.results[id], job.results[id];
          && r == before.(text := r.text, approved := r.approved)
          && (text == None ==> r.text == before.text) && (text.Some? ==> r.text == text.value)
          && (approved == None ==> r.approved == before.approved) && (approved.Some? ==> r.approved == approved))
  {
  }

  // ---- what one save does ----

  /** A question that carries a result: its text, the start of it as title, and the approved difficulty,
      else the suggested one, else medium. */
  ghost predicate MadeFrom(q: Question, id: nat, r: Result) {
    && q.source == id && q.text == r.text
    && q.title <= r.text && |q.title| == (if |r.text| < 120 then |r.text| else 120)
    && (r.approved.Some? ==> q.difficulty == r.approved.value)
    && (r.approved.None? && r.suggested.Some? ==> q.difficulty == r.suggested.value)
    && (r.approved.None? && r.suggested.None? ==> q.difficulty == Medium)
  }

  lemma QuestionIsMadeFrom(id: nat, r: Result)
    ensures MadeFrom(QuestionOf(id, r), id, r)
  {
  }

  ghost predicate SavedFrom(before: Result, after: Result, id: nat, bank: seq<Question>, from: nat) {
    && after == before.(status := Saved, questionId := after.questionId)
    && after.questionId.Some? && from <= after.questionId.value < |bank|
    && MadeFrom(bank[after.questionId.value], id, before)
  }

  lemma {:induction false} SaveListMeaning(fetched: seq<Result>, bank: seq<Question>, ids: seq<nat>)
    requires forall k | 0 <= k < |ids| :: ids[k] < |fetched|
    requires forall j, k | 0 <= j < k < |ids| :: ids[j] < ids[k]
    ensures var (results, questions) := SaveList(fetched, bank, ids);
      && |questions| == |bank| + |ids| && bank <= questions
      && (forall i | 0 <= i < |fetched| ::
            if i in ids then SavedFrom(fetched[i], results[i], i, questions, |bank|) else results[i] == fetched[i])
  {
    if ids != [] {
      var n := |ids| - 1;
      var init := ids[..n];
      assert ids == init + [ids[n]];
      SaveListMeaning(fetched, bank, init);
      QuestionIsMadeFrom(ids[n], fetched[ids[n]]);
      assert ids[n] !in init;
    }
  }

  /** A save turns exactly the approved results into saved ones, each naming a new bank question made
      from it; it changes no other result and no question already in the bank. */
  lemma SaveMeaning(job: Job)
    ensures var after := Save(job);
      && |after.results| == |job.results|
      && |after.bank| == |job.bank| + CountIn(job.results, {Approved}) && job.bank <= after.bank
      && (forall i | 0 <= i < |job.results| ::
            if job.results[i].status == Approved
            then SavedFrom(job.results[i], after.results[i], i, after.bank, |job.bank|)
            else after.results[i] == job.results[i])
  {
    ApprovedIdsMeaning(job.results);
    SaveListMeaning(job.results, job.bank, ApprovedIds(job.results));
  }

  // ---- the stored counters ----

  ghost predicate InSync(job: Job) {
    Recount(job) == job
  }

  lemma {:induction false} CountSplit(results: seq<Result>)
    ensures |results| ==
      CountIn(results, {Approved, Saved}) + CountIn(results, {Rejected}) + CountIn(results, {Pending})
    ensures CountIn(results, {Approved, Saved}) == CountIn(results, {Approved}) + CountIn(results, {Saved})
  {
    if results != [] {
      match results[|results| - 1].status { case Pending => case Approved => case Rejected => case Saved => }
      CountSplit(results[..|results| - 1]);
    }
  }

  /** Counters that agree with the rows satisfy approved + rejected <= generated, with equality exactly
      when nothing is pending. */
  lemma InSyncBound(job: Job)
    requires InSync(job)
    ensures job.approvedCount + job.rejectedCount <= job.generatedCount
    ensures job.approvedCount + job.rejectedCount == job.generatedCount <==> CountIn(job.results, {Pending}) == 0
  {
    CountSplit(job.results);
  }

  lemma {:induction false} CountPointwise(a: seq<Result>, b: seq<Result>, s: set<Status>)
    requires |a| == |b| && forall i | 0 <= i < |a| :: a[i].status in s <==> b[i].status in s
    ensures CountIn(a, s) == CountIn(b, s)
  {
    if a != [] {
      CountPointwise(a[..|a| - 1], b[..|a| - 1], s);
    }
  }

  lemma {:induction false} CountZero(results: seq<Result>, s: set<Status>)
    ensures CountIn(results, s) == 0 <==> forall i | 0 <= i < |results| :: results[i].status !in s
  {
    if results != [] {
      var n := |results| - 1;
      CountZero(results[..n], s);
      assert forall i | 0 <= i < n :: results[..n][i] == results[i];
    }
  }

  lemma {:induction false} CountAppend(a: seq<Result>, b: seq<Result>, s: set<Status>)
    ensures CountIn(a + b, s) == CountIn(a, s) + CountIn(b, s)
  {
    if b == [] {
      assert a + b == a;
    } else {
      var n := |b| - 1;
      CountAppend(a, b[..n], s);
      assert (a + b)[..|a + b| - 1] == a + b[..n];
    }
  }

  /** A save, whether or not it completes, leaves the approved and rejected totals of the rows alone. */
  lemma SaveKeepsTotals(job: Job, after: Job)
    requires |after.results| == |job.results|
    requires forall i | 0 <= i < |job.results| ::
      after.results[i].status == job.results[i].status || (job.results[i].status == Approved
        && after.results[i].status == Saved)
    ensures CountIn(after.results, {Approved, Saved}) == CountIn(job.results, {Approved, Saved})
    ensures CountIn(after.results, {Rejected}) == CountIn(job.results, {Rejected})
  {
    CountPointwise(job.results, after.results, {Approved, Saved});
    CountPointwise(job.results, after.results, {Rejected});
  }

  /** Saving leaves `approvedCount` unchanged exactly when it agreed with the rows before. */
  lemma SaveKeepsApprovedCount(job: Job)
    ensures Save(job).approvedCount == job.approvedCount <==>
      job.approvedCount == CountIn(job.results, {Approved, Saved})
  {
    SaveMeaning(job);
    SaveKeepsTotals(job, Save(job));
  }

  // ---- runs ----

  datatype Op =
    | OpReview(ids: set<nat>, to: Status, decisionsStored: bool)
    | OpRegenerate
    | OpGenerate(drafts: seq<(string, Option<Difficulty>)>)
    | OpEdit(id: nat, text: Option<string>, approved: Option<Difficulty>)
    | OpSave
    | OpTornSave(done: nat, created: bool)

  /** Reviews approve or reject, and nothing else. */
  predicate Legal(op: Op) {
    op.OpReview? ==> op.to in {Approved, Rejected}
  }

  function Step(job: Job, op: Op): Job {
    match op
    case OpReview(ids, to, stored) => Review(job, ids, to, stored)
    case OpRegenerate => Regenerate(job)
    case OpGenerate(drafts) => Generate(job, drafts)
    case OpEdit(id, text, approved) => Edit(job, id, text, approved)
    case OpSave => Save(job)
    case OpTornSave(done, created) => TornSave(job, done, created)
  }

  function Run(job: Job, ops: seq<Op>): Job {
    if ops == [] then job else Step(Run(job, ops[..|ops| - 1]), ops[|ops| - 1])
  }

  lemma TornSaveMeaning(job: Job, done: nat, created: bool)
    ensures var after := TornSave(job, done, created);
      var ids := ApprovedIds(job.results);
      && |after.results| == |job.results| && job.bank <= after.bank
      && |after.bank| == |job.bank| + |Cut(ids, done)| + (if created && done < |ids| then 1 else 0)
      && (forall i | 0 <= i < |job.results| ::
            if i in Cut(ids, done)
            then job.results[i].status == Approved
              && SavedFrom(job.results[i], after.results[i], i, after.bank, |job.bank|)
            else after.results[i] == job.results[i])
  {
    ApprovedIdsMeaning(job.results);
    SaveListMeaning(job.results, job.bank, Cut(ApprovedIds(job.results), done));
  }

  /** The statuses that count under the same counter. */
  function Counted(s: Status): set<Status> {
    match s
    case Pending => {Pending}
    case Rejected => {Rejected}
    case _ => {Approved, Saved}
  }

  /** Which steps keep the counters in agreement with the rows. */
  predicate KeepsSync(job: Job, op: Op) {
    match op
    case OpReview(ids, to, stored) => stored || forall i | i in Listed(ids,
      |job.results|) :: job.results[i].status in Counted(to)
    case OpRegenerate => CountIn(job.results, {Pending}) == 0
    case OpGenerate(_) => job.results == []
    case _ => true
  }

  lemma {:induction false} CountGrows(a: seq<Result>, b: seq<Result>, s: set<Status>)
    requires |a| == |b| && forall i | 0 <= i < |a| :: a[i].status in s ==> b[i].status in s
    ensures CountIn(a, s) <= CountIn(b, s)
    ensures CountIn(a, s) == CountIn(b, s) ==> forall i | 0 <= i < |a| :: b[i].status in s ==> a[i].status in s
  {
    if a != [] {
      var n := |a| - 1;
      CountGrows(a[..n], b[..n], s);
      assert forall i | 0 <= i < n :: a[..n][i] == a[i] && b[..n][i] == b[i];
    }
  }

  lemma UnrecordedReview(job: Job, ids: set<nat>, to: Status)
    requires InSync(job) && to in {Approved, Rejected}
    ensures InSync(Review(job, ids, to, false)) <==>
      forall i | i in Listed(ids, |job.results|) :: job.results[i].status in Counted(to)
  {
    var after := Review(job, ids, to, false);
    if forall i | i in Listed(ids, |job.results|) :: job.results[i].status in Counted(to) {
      forall i | 0 <= i < |job.results| ensures Counted(after.results[i].status) == Counted(job.results[i].status) {
        assert i in ids ==> i in Listed(ids, |job.results|);
      }
      CountPointwise(job.results, after.results, {Approved, Saved});
      CountPointwise(job.results, after.results, {Rejected});
    } else {
      CountGrows(job.results, after.results, Counted(to));
    }
  }

  lemma RegenerateTotals(job: Job)
    ensures var after := Regenerate(job);
      && CountIn(after.results, {Rejected}) == CountIn(job.results, {Rejected}) + CountIn(job.results, {Pending})
      && CountIn(after.results, {Approved, Saved}) == CountIn(job.results, {Approved, Saved})
  {
    var after := Regenerate(job);
    CountPointwise(job.results, after.results, {Approved, Saved});
    CountSplit(job.results);
    CountSplit(after.results);
    CountZero(after.results, {Pending});
  }

  /** Counters in agreement stay so after every edit, every save, even one that fails midway, and every
      completed review; after a review without decision rows, exactly when each listed result already
      counted as what it becomes; after a regeneration, exactly when nothing was pending; after a
      generation, exactly when the job had no results. */
  lemma SyncStep(job: Job, op: Op)
    requires InSync(job) && Legal(op)
    ensures InSync(Step(job, op)) <==> KeepsSync(job, op)
  {
    match op
    case OpReview(ids, to, stored) =>
      if !stored { UnrecordedReview(job, ids, to); }
    case OpRegenerate =>
      RegenerateTotals(job);
    case OpGenerate(drafts) =>
      var added := seq(|drafts|, i requires 0 <= i < |drafts| => Fresh(drafts[i]));
      CountAppend(job.results, added, {Approved, Saved});
      CountAppend(job.results, added, {Rejected});
      CountZero(added, {Approved, Saved});
      CountZero(added, {Rejected});
    case OpEdit(id, text, approved) =>
      CountPointwise(job.results, Step(job, op).results, {Approved, Saved});
      CountPointwise(job.results, Step(job, op).results, {Rejected});
    case OpSave =>
    case OpTornSave(done, created) =>
      TornSaveMeaning(job, done, created);
      SaveKeepsTotals(job, Step(job, op));
  }

  predicate OneGeneration(ops: seq<Op>) {
    forall i | 0 <= i < |ops| ::
      && ops[i] != OpRegenerate && (ops[i].OpGenerate? ==> i == 0) && (ops[i].OpReview? ==> ops[i].decisionsStored)
  }

  /** A job generated once, reviewed, edited and saved in any order keeps its counters right, so
      approved + rejected never exceeds generated, whatever saves fail midway. */
  lemma {:induction false} CountersOverRuns(ops: seq<Op>)
    requires OneGeneration(ops) && forall op | op in ops :: Legal(op)
    ensures var job := Run(Job([], [], 0, 0, 0), ops);
      InSync(job) && job.approvedCount + job.rejectedCount <= job.generatedCount
  {
    var start := Job([], [], 0, 0, 0);
    if ops != [] {
      var n := |ops| - 1;
      CountersOverRuns(ops[..n]);
      assert forall i | 0 <= i < n :: ops[..n][i] == ops[i];
      SyncStep(Run(start, ops[..n]), ops[n]);
    }
    InSyncBound(Run(start, ops));
  }

  /** The operations that recount. */
  predicate Recounts(op: Op) {
    op.OpSave? || (op.OpReview? && op.decisionsStored)
  }

  /** From step `m` on each step keeps the agreement. */
  predicate SyncFrom(job: Job, ops: seq<Op>, m: nat) {
    |ops| <= m
    || (SyncFrom(job, ops[..|ops| - 1], m) && KeepsSync(Run(job, ops[..|ops| - 1]), ops[|ops| - 1]))
  }

  /** A job is in agreement when each step since its last recount keeps the agreement, whatever happened
      before. */
  lemma {:induction false} CountersSinceRecount(job: Job, ops: seq<Op>, m: nat)
    requires m <= |ops| && forall op | op in ops :: Legal(op)
    requires if m == 0 then InSync(job) else Recounts(ops[m - 1])
    requires SyncFrom(job, ops, m)
    ensures InSync(Run(job, ops))
    decreases |ops|
  {
    var n := |ops| - 1;
    if m < |ops| {
      CountersSinceRecount(job, ops[..n], m);
      SyncStep(Run(job, ops[..n]), ops[n]);
    }
  }

  predicate NonePending(results: seq<Result>) {
    forall i | 0 <= i < |results| :: results[i].status != Pending
  }

  lemma NonePendingStep(job: Job, op: Op)
    requires NonePending(job.results) && Legal(op) && !op.OpGenerate?
    ensures NonePending(Step(job, op).results) && |Step(job, op).results| == |job.results|
  {
    match op
    case OpSave => SaveMeaning(job);
    case OpTornSave(done, created) => TornSaveMeaning(job, done, created);
    case _ =>
  }

  /** A recount counts every decided result. */
  lemma DecidedCount(job: Job, op: Op)
    requires NonePending(job.results) && Legal(op) && !op.OpGenerate?
    ensures var after := Step(job, op);
      after.approvedCount + after.rejectedCount
      == (if Recounts(op) then |job.results| else job.approvedCount + job.rejectedCount)
  {
    NonePendingStep(job, op);
    CountSplit(Step(job, op).results);
    CountZero(Step(job, op).results, {Pending});
  }

  ghost predicate AnyRecount(ops: seq<Op>) {
    exists k | 0 <= k < |ops| :: Recounts(ops[k])
  }

  lemma {:induction false} AfterRegeneration(job: Job, ops: seq<Op>)
    requires NonePending(job.results) && forall op | op in ops :: Legal(op) && !op.OpGenerate?
    ensures var after := Run(job, ops);
      && NonePending(after.results) && |after.results| == |job.results|
      && after.approvedCount + after.rejectedCount
         == if AnyRecount(ops) then |job.results| else job.approvedCount + job.rejectedCount
  {
    if ops != [] {
      var n := |ops| - 1;
      AfterRegeneration(job, ops[..n]);
      NonePendingStep(Run(job, ops[..n]), ops[n]);
      DecidedCount(Run(job, ops[..n]), ops[n]);
      RecountSplits(ops);
    }
  }

  lemma RecountSplits(ops: seq<Op>)
    requires ops != []
    ensures AnyRecount(ops) <==> AnyRecount(ops[..|ops| - 1]) || Recounts(ops[|ops| - 1])
  {
    var n := |ops| - 1;
    assert forall k | 0 <= k < n :: ops[..n][k] == ops[k];
    if k :| 0 <= k < n && Recounts(ops[..n][k]) { assert Recounts(ops[k]); }
    if k :| 0 <= k < |ops| && Recounts(ops[k]) {
      if k < n { assert Recounts(ops[..n][k]); }
    }
  }

  /** A regeneration starts a new batch that arrives later. When it does, after any reviews, edits and
      saves, the bound can fail until the next recount: it holds exactly when the batch is at least as
      large as the number of earlier results, if there was a recount meanwhile, and as the number of
      those approved or rejected before the regeneration, if there was none. */
  lemma RegeneratedBound(job: Job, ops: seq<Op>, drafts: seq<(string, Option<Difficulty>)>)
    requires InSync(job) && forall op | op in ops :: Legal(op) && !op.OpGenerate?
    ensures var after := Generate(Run(Regenerate(job), ops), drafts);
      && (after.approvedCount + after.rejectedCount <= after.generatedCount <==>
          (if AnyRecount(ops) then |job.results| else CountIn(job.results, {Approved, Saved, Rejected})) <= |drafts|)
      && Recount(after).approvedCount + Recount(after).rejectedCount == Recount(after).generatedCount - |drafts|
  {
    CountUnion(job.results);
    var regenerated := Regenerate(job);
    AfterRegeneration(regenerated, ops);
    var before := Run(regenerated, ops);
    CountSplit(before.results);
    CountZero(before.results, {Pending});
    var added := seq(|drafts|, i requires 0 <= i < |drafts| => Fresh(drafts[i]));
    CountAppend(before.results, added, {Approved, Saved});
    CountAppend(before.results, added, {Rejected});
    CountZero(added, {Approved, Saved});
    CountZero(added, {Rejected});
  }

  lemma {:induction false} CountUnion(results: seq<Result>)
    ensures CountIn(results, {Approved, Saved, Rejected})
      == CountIn(results, {Approved, Saved}) + CountIn(results, {Rejected})
  {
    if results != [] {
      CountUnion(results[..|results| - 1]);
    }
  }

  // ---- bank questions and moves ----

  /** How many results move from approved to saved. */
  function Moves(before: seq<Result>, after: seq<Result>): nat
    requires |before| <= |after|
  {
    if before == [] then 0
    else
      var n := |before| - 1;
      Moves(before[..n], after) + if before[n].status == Approved && after[n].status == Saved then 1 else 0
  }

  /** A save torn between its two writes leaves a question no result names. */
  function Orphans(job: Job, op: Op): nat {
    if op.OpTornSave? && op.created && op.done < CountIn(job.results, {Approved}) then 1 else 0
  }

  lemma {:induction false} MovesNone(before: seq<Result>, after: seq<Result>)
    requires |before| <= |after|
    requires forall i | 0 <= i < |before| && before[i].status == Approved :: after[i].status != Saved
    ensures Moves(before, after) == 0
  {
    if before != [] { MovesNone(before[..|before| - 1], after); }
  }

  lemma {:induction false} MovesAll(before: seq<Result>, after: seq<Result>)
    requires |before| <= |after|
    requires forall i | 0 <= i < |before| && before[i].status == Approved :: after[i].status == Saved
    ensures Moves(before, after) == CountIn(before, {Approved})
  {
    if before != [] { MovesAll(before[..|before| - 1], after); }
  }

  /** Counting the moved results of a listed selection. */
  lemma {:induction false} MovesListed(before: seq<Result>, after: seq<Result>, ids: seq<nat>)
    requires |before| <= |after|
    requires forall j, k | 0 <= j < k < |ids| :: ids[j] < ids[k]
    requires forall k | 0 <= k < |ids| :: ids[k] < |before|
    requires forall i | 0 <= i < |before| :: (before[i].status == Approved && after[i].status == Saved) <==> i in ids
    ensures Moves(before, after) == |ids|
  {
    if ids == [] {
      MovesNone(before, after);
    } else {
      var n, last := |before| - 1, |ids| - 1;
      if ids[last] == n {
        assert ids == ids[..last] + [n];
        MovesListed(before[..n], after, ids[..last]);
      } else {
        MovesListed(before[..n], after, ids);
      }
    }
  }

  lemma TornMoves(job: Job, done: nat, created: bool)
    ensures |TornSave(job, done, created).results| == |job.results|
    ensures |TornSave(job, done, created).bank| ==
      |job.bank| + Moves(job.results, TornSave(job, done, created).results) + Orphans(job, OpTornSave(done, created))
  {
    TornSaveMeaning(job, done, created);
    ApprovedIdsMeaning(job.results);
    MovesListed(job.results, TornSave(job, done, created).results, Cut(ApprovedIds(job.results), done));
  }

  /** Every step creates one question per result it moves from approved to saved, and one more if it is
      a save torn between the two writes; it alters no question already in the bank. */
  lemma BankStep(job: Job, op: Op)
    requires Legal(op)
    ensures var after := Step(job, op);
      && |job.results| <= |after.results| && job.bank <= after.bank
      && |after.bank| == |job.bank| + Moves(job.results, after.results) + Orphans(job, op)
  {
    var after := Step(job, op);
    match op
    case OpSave =>
      SaveMeaning(job);
      MovesAll(job.results, after.results);
    case OpTornSave(done, created) =>
      TornSaveMeaning(job, done, created);
      TornMoves(job, done, created);
    case OpReview(_, _, _) => MovesNone(job.results, after.results);
    case OpRegenerate => MovesNone(job.results, after.results);
    case OpGenerate(_) => MovesNone(job.results, after.results);
    case OpEdit(_, _, _) => MovesNone(job.results, after.results);
  }

  function TotalMoves(job: Job, ops: seq<Op>): nat
    requires forall op | op in ops :: Legal(op)
  {
    if ops == [] then 0
    else
      var n := |ops| - 1;
      var before := Run(job, ops[..n]);
      BankStep(before, ops[n]);
      TotalMoves(job, ops[..n]) + Moves(before.results, Step(before, ops[n]).results)
  }

  function TotalOrphans(job: Job, ops: seq<Op>): nat {
    if ops == [] then 0
    else TotalOrphans(job, ops[..|ops| - 1]) + Orphans(Run(job, ops[..|ops| - 1]), ops[|ops| - 1])
  }

  /** Over any run the job creates as many bank questions as results moved from approved to saved, plus
      one for each save torn between its two writes, and no question is lost or altered. */
  lemma {:induction false} BankAccounting(job: Job, ops: seq<Op>)
    requires forall op | op in ops :: Legal(op)
    ensures |Run(job, ops).bank| == |job.bank| + TotalMoves(job, ops) + TotalOrphans(job, ops)
    ensures job.bank <= Run(job, ops).bank
  {
    if ops != [] {
      var n := |ops| - 1;
      BankAccounting(job, ops[..n]);
      BankStep(Run(job, ops[..n]), ops[n]);
    }
  }

  // ---- which question a result names ----

  ghost predicate Linked(job: Job) {
    forall i | 0 <= i < |job.results| :: LinkedAt(job, i)
  }

  ghost predicate LinkedAt(job: Job, i: nat)
    requires i < |job.results|
  {
    var r := job.results[i];
    && (r.status == Saved ==> r.questionId.Some?)
    && (r.questionId.Some? ==> r.questionId.value < |job.bank| && job.bank[r.questionId.value].source == i)
  }

  lemma LinkedStep(job: Job, op: Op)
    requires Linked(job) && Legal(op)
    ensures Linked(Step(job, op))
  {
    var after := Step(job, op);
    BankStep(job, op);
    if op.OpSave? { SaveMeaning(job); }
    if op.OpTornSave? { TornSaveMeaning(job, op.done, op.created); }
    forall i | 0 <= i < |after.results| ensures LinkedAt(after, i) {
      if i < |job.results| { assert LinkedAt(job, i); }
    }
  }

  /** Every saved result names a question created from it, so no two results share one. */
  lemma {:induction false} SavedResultsAreLinked(ops: seq<Op>)
    requires forall op | op in ops :: Legal(op)
    ensures var job := Run(Job([], [], 0, 0, 0), ops);
      && Linked(job)
      && (forall i, k | 0 <= i < |job.results| && 0 <= k < |job.results| && job.results[i].status == Saved ::
            job.results[i].questionId == job.results[k].questionId ==> i == k)
  {
    if ops != [] {
      var n := |ops| - 1;
      SavedResultsAreLinked(ops[..n]);
      LinkedStep(Run(Job([], [], 0, 0, 0), ops[..n]), ops[n]);
    }
    var job := Run(Job([], [], 0, 0, 0), ops);
    forall i, k | 0 <= i < |job.results| && 0 <= k < |job.results| && job.results[i].status == Saved
      && job.results[i].questionId == job.results[k].questionId
      ensures i == k
    {
      assert LinkedAt(job, i) && LinkedAt(job, k);
    }
  }

  // ---- saving again ----

  ghost predicate NoneApproved(job: Job) {
    forall i | 0 <= i < |job.results| :: job.results[i].status != Approved
  }

  predicate Approves(op: Op) {
    op.OpReview? && op.to == Approved
  }

  lemma NoneApprovedStep(job: Job, op: Op)
    requires NoneApproved(job) && Legal(op) && !Approves(op)
    ensures NoneApproved(Step(job, op)) && Step(job, op).bank == job.bank
  {
    match op
    case OpSave =>
      CountZero(job.results, {Approved});
      SaveMeaning(job);
    case OpTornSave(done, created) =>
      CountZero(job.results, {Approved});
      ApprovedIdsMeaning(job.results);
      TornSaveMeaning(job, done, created);
    case OpReview(_, _, _) =>
    case OpRegenerate =>
    case OpGenerate(_) =>
    case OpEdit(_, _, _) =>
  }

  /** After a save, nothing reaches the bank until something is approved again: not through further
      saves, rejections, edits, regenerations or generations. */
  lemma {:induction false} SecondSaveCreatesNothing(job: Job, ops: seq<Op>)
    requires forall op | op in ops :: Legal(op) && !Approves(op)
    ensures NoneApproved(Run(Save(job), ops))
    ensures Run(Save(job), ops).bank == Save(job).bank
  {
    if ops == [] {
      SaveMeaning(job);
    } else {
      var n := |ops| - 1;
      SecondSaveCreatesNothing(job, ops[..n]);
      NoneApprovedStep(Run(Save(job), ops[..n]), ops[n]);
    }
  }

  /** A review does not look at the present status: approving a result that has a question, saved or
      rejected since, and saving again puts a second question into the bank from it, beside the first. */
  lemma ReapprovedIsSavedAgain(job: Job, id: nat)
    requires Linked(job) && id < |job.results| && job.results[id].questionId.Some?
    ensures var again := Save(Review(job, {id}, Approved, true));
      var first := job.results[id].questionId;
      var second := again.results[id].questionId;
      && first.Some? && second.Some? && first.value < |job.bank| <= second.value < |again.bank|
      && again.bank[first.value].source == id && again.bank[second.value].source == id
  {
    assert LinkedAt(job, id);
    SaveMeaning(Review(job, {id}, Approved, true));
  }

  /** The result a torn save stopped at is still approved, so the next save creates its question again. */
  lemma TornResultIsSavedAgain(job: Job, done: nat)
    requires done < |ApprovedIds(job.results)|
    ensures var torn := TornSave(job, done, true);
      var id := ApprovedIds(job.results)[done];
      && id < |torn.results| && torn.results[id] == job.results[id]
      && torn.bank != [] && MadeFrom(torn.bank[|torn.bank| - 1], id, job.results[id])
      && Save(torn).results[id].questionId.Some?
      && |torn.bank| <= Save(torn).results[id].questionId.value < |Save(torn).bank|
      && MadeFrom(Save(torn).bank[Save(torn).results[id].questionId.value], id, job.results[id])
  {
    ApprovedIdsMeaning(job.results);
    var ids := ApprovedIds(job.results);
    TornSaveMeaning(job, done, true);
    assert ids[done] in ids && ids[done] !in Cut(ids, done);
    SaveMeaning(TornSave(job, done, true));
  }

  // ---- one question per result ----

  /** The number of bank questions made from a result. */
  function QuestionsFrom(bank: seq<Question>, i: nat): nat {
    if bank == [] then 0
    else QuestionsFrom(bank[..|bank| - 1], i) + if bank[|bank| - 1].source == i then 1 else 0
  }

  predicate HasQuestion(job: Job, i: nat) {
    i < |job.results| && job.results[i].questionId.Some?
  }

  function One(b: bool): nat {
    if b then 1 else 0
  }

  /** The step moves the result from approved to saved. */
  predicate MovesAt(job: Job, op: Op, i: nat) {
    i < |job.results| && job.results[i].status == Approved
    && i < |Step(job, op).results| && Step(job, op).results[i].status == Saved
  }

  /** The step is a save torn between the two writes for the result. */
  predicate TornAt(job: Job, op: Op, i: nat) {
    op.OpTornSave? && op.created && op.done < |ApprovedIds(job.results)| && ApprovedIds(job.results)[op.done] == i
  }

  lemma {:induction false} FromSaveList(fetched: seq<Result>, bank: seq<Question>, ids: seq<nat>, i: nat)
    requires forall k | 0 <= k < |ids| :: ids[k] < |fetched|
    requires forall j, k | 0 <= j < k < |ids| :: ids[j] < ids[k]
    ensures QuestionsFrom(SaveList(fetched, bank, ids).1, i) == QuestionsFrom(bank, i) + One(i in ids)
  {
    if ids != [] {
      var n := |ids| - 1;
      FromSaveList(fetched, bank, ids[..n], i);
      FromAppend(SaveList(fetched, bank, ids[..n]).1, QuestionOf(ids[n], fetched[ids[n]]), i);
      assert ids == ids[..n] + [ids[n]];
      assert ids[n] !in ids[..n];
    }
  }

  lemma SaveFrom(job: Job, i: nat)
    ensures QuestionsFrom(Save(job).bank, i) == QuestionsFrom(job.bank, i) + One(MovesAt(job, OpSave, i))
    ensures HasQuestion(Save(job), i) <==> HasQuestion(job, i) || MovesAt(job, OpSave, i)
  {
    SaveMeaning(job);
    ApprovedIdsMeaning(job.results);
    FromSaveList(job.results, job.bank, ApprovedIds(job.results), i);
    assert MovesAt(job, OpSave, i) <==> i in ApprovedIds(job.results);
  }

  lemma FromAppend(bank: seq<Question>, q: Question, i: nat)
    ensures QuestionsFrom(bank + [q], i) == QuestionsFrom(bank, i) + One(q.source == i)
  {
    assert (bank + [q])[..|bank|] == bank;
  }

  lemma TornMovesAt(job: Job, done: nat, created: bool, i: nat)
    ensures var op, after := OpTornSave(done, created), TornSave(job, done, created);
      && (HasQuestion(after, i) <==> HasQuestion(job, i) || MovesAt(job, op, i))
      && (MovesAt(job, op, i) <==> i in Cut(ApprovedIds(job.results), done))
  {
    TornSaveMeaning(job, done, created);
    ApprovedIdsMeaning(job.results);
  }

  lemma TornFrom(job: Job, done: nat, created: bool, i: nat)
    ensures var op, after := OpTornSave(done, created), TornSave(job, done, created);
      QuestionsFrom(after.bank, i) == QuestionsFrom(job.bank, i) + One(MovesAt(job, op, i)) + One(TornAt(job, op, i))
  {
    TornMovesAt(job, done, created, i);
    ApprovedIdsMeaning(job.results);
    var ids := ApprovedIds(job.results);
    FromSaveList(job.results, job.bank, Cut(ids, done), i);
    var bank := SaveList(job.results, job.bank, Cut(ids, done)).1;
    if created && done < |ids| {
      FromAppend(bank, QuestionOf(ids[done], job.results[ids[done]]), i);
    } else {
      assert TornSave(job, done, created).bank == bank;
    }
  }

  /** A step adds to the questions from a result one for its move from approved to saved, and one if it is
      a save torn there. */
  lemma FromStep(job: Job, op: Op, i: nat)
    requires Legal(op)
    ensures var after := Step(job, op);
      && QuestionsFrom(after.bank, i) == QuestionsFrom(job.bank, i) + One(MovesAt(job, op, i)) + One(TornAt(job, op, i))
      && (HasQuestion(after, i) <==> HasQuestion(job, i) || MovesAt(job, op, i))
  {
    match op
    case OpSave => SaveFrom(job, i);
    case OpTornSave(done, created) =>
      TornFrom(job, done, created, i);
      TornMovesAt(job, done, created, i);
    case _ =>
  }

  function MovesOf(job: Job, ops: seq<Op>, i: nat): nat {
    if ops == [] then 0
    else MovesOf(job, ops[..|ops| - 1], i) + One(MovesAt(Run(job, ops[..|ops| - 1]), ops[|ops| - 1], i))
  }

  function TornsOf(job: Job, ops: seq<Op>, i: nat): nat {
    if ops == [] then 0
    else TornsOf(job, ops[..|ops| - 1], i) + One(TornAt(Run(job, ops[..|ops| - 1]), ops[|ops| - 1], i))
  }

  /** Over any run the bank questions made from a result are its moves from approved to saved and the saves
      torn at it. */
  lemma {:induction false} ResultAccounting(job: Job, ops: seq<Op>, i: nat)
    requires forall op | op in ops :: Legal(op)
    ensures QuestionsFrom(Run(job, ops).bank, i)
      == QuestionsFrom(job.bank, i) + MovesOf(job, ops, i) + TornsOf(job, ops, i)
  {
    if ops != [] {
      var n := |ops| - 1;
      ResultAccounting(job, ops[..n], i);
      FromStep(Run(job, ops[..n]), ops[n], i);
    }
  }

  /** Each result has in the bank the one question it names, or none. */
  ghost predicate OneQuestionEach(job: Job) {
    forall i: nat :: QuestionsFrom(job.bank, i) == One(HasQuestion(job, i))
  }

  /** No result that a save would process has a question already, and no save is torn between its two
      writes. */
  predicate SavesOnce(job: Job, op: Op) {
    match op
    case OpSave =>
      forall i | 0 <= i < |job.results| && job.results[i].status == Approved :: job.results[i].questionId.None?
    case OpTornSave(done, created) =>
      && (forall i | i in Cut(ApprovedIds(job.results), done) :: !HasQuestion(job, i))
      && !(created && done < |ApprovedIds(job.results)|)
    case _ => true
  }

  lemma SavesOnceMeaning(job: Job, op: Op)
    requires Legal(op)
    ensures SavesOnce(job, op) <==>
      forall i: nat :: !(MovesAt(job, op, i) && HasQuestion(job, i)) && !TornAt(job, op, i)
  {
    match op
    case OpSave =>
      SaveMeaning(job);
      forall i: nat ensures MovesAt(job, op, i) <==> i < |job.results| && job.results[i].status == Approved {
      }
      if i :| 0 <= i < |job.results| && job.results[i].status == Approved && job.results[i].questionId.Some? {
        assert MovesAt(job, op, i) && HasQuestion(job, i);
      }
    case OpTornSave(done, created) =>
      forall i: nat ensures MovesAt(job, op, i) <==> i in Cut(ApprovedIds(job.results), done) {
        TornMovesAt(job, done, created, i);
      }
      var ids := ApprovedIds(job.results);
      if created && done < |ids| { assert TornAt(job, op, ids[done]); }
      if i :| i in Cut(ids, done) && HasQuestion(job, i) {
        assert MovesAt(job, op, i);
      }
    case _ =>
  }

  /** A step keeps one question per result if and only if it is neither a save of an approved result that
      has a question already, nor a save torn between its two writes. */
  lemma OneQuestionStep(job: Job, op: Op)
    requires OneQuestionEach(job) && Legal(op)
    ensures OneQuestionEach(Step(job, op)) <==> SavesOnce(job, op)
  {
    SavesOnceMeaning(job, op);
    forall i: nat
      ensures QuestionsFrom(Step(job, op).bank, i) == One(HasQuestion(Step(job, op), i)) <==>
        !(MovesAt(job, op, i) && HasQuestion(job, i)) && !TornAt(job, op, i)
    {
      FromStep(job, op, i);
      assert QuestionsFrom(job.bank, i) == One(HasQuestion(job, i));
    }
  }

  /** A result that has been saved more often than it can name stays so. */
  lemma ExcessStays(job: Job, op: Op, i: nat)
    requires Legal(op) && QuestionsFrom(job.bank, i) > One(HasQuestion(job, i))
    ensures QuestionsFrom(Step(job, op).bank, i) > One(HasQuestion(Step(job, op), i))
  {
    FromStep(job, op, i);
  }

  lemma {:induction false} NeverFewer(job: Job, ops: seq<Op>, i: nat)
    requires OneQuestionEach(job) && forall op | op in ops :: Legal(op)
    ensures QuestionsFrom(Run(job, ops).bank, i) >= One(HasQuestion(Run(job, ops), i))
  {
    if ops == [] {
      assert QuestionsFrom(job.bank, i) == One(HasQuestion(job, i));
    } else {
      var n := |ops| - 1;
      NeverFewer(job, ops[..n], i);
      FromStep(Run(job, ops[..n]), ops[n], i);
    }
  }

  predicate SavesOnceAt(job: Job, ops: seq<Op>, k: nat)
    requires k < |ops|
  {
    SavesOnce(Run(job, ops[..k]), ops[k])
  }

  ghost predicate EverySaveOnce(job: Job, ops: seq<Op>) {
    forall k | 0 <= k < |ops| :: SavesOnceAt(job, ops, k)
  }

  lemma SaveOncePrefix(job: Job, ops: seq<Op>)
    requires ops != []
    ensures var n := |ops| - 1;
      EverySaveOnce(job, ops) <==> EverySaveOnce(job, ops[..n]) && SavesOnceAt(job, ops, n)
  {
    var n := |ops| - 1;
    forall k | 0 <= k < n ensures SavesOnceAt(job, ops[..n], k) == SavesOnceAt(job, ops, k) {
      SavesOnceAtPrefix(job, ops, n, k);
    }
  }

  lemma SavesOnceAtPrefix(job: Job, ops: seq<Op>, n: nat, k: nat)
    requires k < n <= |ops|
    ensures SavesOnceAt(job, ops[..n], k) == SavesOnceAt(job, ops, k)
  {
    assert ops[..n][..k] == ops[..k];
  }

  /** Over any run each result ends up with the one question it names, or none, if and only if every save of
      the run was complete and met no approved result that had a question already. */
  lemma {:induction false} OneQuestionOverRuns(job: Job, ops: seq<Op>)
    requires OneQuestionEach(job) && forall op | op in ops :: Legal(op)
    ensures OneQuestionEach(Run(job, ops)) <==> EverySaveOnce(job, ops)
  {
    if ops != [] {
      var n := |ops| - 1;
      var before := Run(job, ops[..n]);
      OneQuestionOverRuns(job, ops[..n]);
      SaveOncePrefix(job, ops);
      if OneQuestionEach(before) {
        OneQuestionStep(before, ops[n]);
      } else {
        var i: nat :| QuestionsFrom(before.bank, i) != One(HasQuestion(before, i));
        NeverFewer(job, ops[..n], i);
        ExcessStays(before, ops[n], i);
      }
    }
  }
}
