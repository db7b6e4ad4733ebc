/** Saves and reviews of one job that overlap. A save reads the approved results, then creates a question
    and updates a result in turn, and counts at the end; a review updates its results, then counts. The
    three counts of a call are taken one by one. Anything may happen between the steps of a call. */
module SaveRaces {
  import opened Common
  import opened ReviewSave

  /** How far a call has come. A save has results left to save, as it read them, and, once created, the
      question of the next one; a call that is going to fail may first create a question it never links. */
  datatype Phase =
    | Idle
    | Saving(todo: seq<nat>, fetched: seq<Result>, created: Option<nat>, orphan: Option<nat>, complete: bool)
    | Counting(approved: Option<nat>, rejected: Option<nat>, generated: Option<nat>)

  datatype System = System(job: Job, calls: map<string, Phase>)

  datatype Action =
    | Fetch(c: string, op: Op)
    | Create(c: string)
    | Update(c: string)
    | Finish(c: string)
    | Mark(c: string, ids: set<nat>, to: Status, decisionsStored: bool)
    | CountApproved(c: string)
    | CountRejected(c: string)
    | CountAll(c: string)
    | StoreCounts(c: string)
    | Elsewhere(op: Op)

  function PhaseOf(s: System, c: string): Phase {
    if c in s.calls then s.calls[c] else Idle
  }

  predicate IsSave(op: Op) {
    op.OpSave? || op.OpTornSave?
  }

  /** The results a save will save. */
  function Todo(job: Job, op: Op): seq<nat>
    requires IsSave(op)
  {
    if op.OpSave? then ApprovedIds(job.results) else Cut(ApprovedIds(job.results), op.done)
  }

  /** The result for which a failing save creates a question and does no more. */
  function Orphan(job: Job, op: Op): Option<nat>
    requires IsSave(op)
  {
    if op.OpTornSave? && op.created && op.done < |ApprovedIds(job.results)|
    then Some(ApprovedIds(job.results)[op.done])
    else None
  }

  const COUNTS := Counting(None, None, None)

  /** What a step of a call does to the job and to the call; a step that is not due does nothing. */
  function Act(job: Job, p: Phase, a: Action): (Job, Phase)
    requires !a.Elsewhere?
  {
    match a
    case Fetch(_, op) =>
      if p.Idle? && IsSave(op)
      then (job, Saving(Todo(job, op), job.results, None, Orphan(job, op), op.OpSave?))
      else (job, p)
    case Create(_) =>
      if p.Saving? && p.todo != [] && p.created.None? && p.todo[0] < |p.fetched| then
        (job.(bank := job.bank + [QuestionOf(p.todo[0], p.fetched[p.todo[0]])]), p.(created := Some(|job.bank|)))
      else if p.Saving? && p.todo == [] && p.orphan.Some? && p.orphan.value < |p.fetched| then
        (job.(bank := job.bank + [QuestionOf(p.orphan.value, p.fetched[p.orphan.value])]), Idle)
      else (job, p)
    case Update(_) =>
      if p.Saving? && p.todo != [] && p.created.Some? && p.todo[0] < |job.results| then
        var saved := job.results[p.todo[0]].(status := Saved, questionId := p.created);
        (job.(results := job.results[p.todo[0] := saved]), p.(todo := p.todo[1..], created := None))
      else (job, p)
    case Finish(_) =>
      if p.Saving? && p.todo == [] && p.orphan.None? then (job, if p.complete then COUNTS else Idle) else (job, p)
    case Mark(_, ids, to, stored) =>
      if p.Idle? && to in {Approved, Rejected}
      then (job.(results := MarkAll(job.results, ids, to)), if stored then COUNTS else Idle)
      else (job, p)
    case CountApproved(_) =>
      if p.Counting? then (job, p.(approved := Some(CountIn(job.results, {Approved, Saved})))) else (job, p)
    case CountRejected(_) =>
      if p.Counting? then (job, p.(rejected := Some(CountIn(job.results, {Rejected})))) else (job, p)
    case CountAll(_) => if p.Counting? then (job, p.(generated := Some(|job.results|))) else (job, p)
    case StoreCounts(_) =>
      if p.Counting? && p.approved.Some? && p.rejected.Some? && p.generated.Some? then
        (job.(approvedCount := p.approved.value, rejectedCount := p.rejected.value,
              generatedCount := p.generated.value), Idle)
      else (job, p)
  }

  /** Regenerations, generations and edits are one step each. */
  predicate OneStep(op: Op) {
    op.OpRegenerate? || op.OpGenerate? || op.OpEdit?
  }

  function Next(s: System, a: Action): System {
    if a.Elsewhere? then if OneStep(a.op) then s.(job := Step(s.job, a.op)) else s
    else
      var (job, p) := Act(s.job, PhaseOf(s, a.c), a);
      System(job, s.calls[a.c := p])
  }

  function Run(s: System, actions: seq<Action>): System {
    if actions == [] then s else Next(Run(s, actions[..|actions| - 1]), actions[|actions| - 1])
  }

  /** A regeneration, a generation or an edit takes its effect among the steps of other calls. A review whose
      decisions are refused has changed its results and ends without counting. */
  lemma OtherSteps(s: System, op: Op, c: string, ids: set<nat>, to: Status)
    requires OneStep(op) && PhaseOf(s, c).Idle? && to in {Approved, Rejected}
    ensures Next(s, Elsewhere(op)) == System(Step(s.job, op), s.calls)
    ensures Next(s, Mark(c, ids, to, false)) == System(Review(s.job, ids, to, false), s.calls[c := Idle])
  {
  }

  ghost predicate NobodyCalls(s: System) {
    forall c | c in s.calls :: s.calls[c].Idle?
  }

  // ---- questions from a result ----

  /** The call has created the question of the result and not yet updated the result. */
  predicate Makes(p: Phase, i: nat) {
    p.Saving? && p.todo != [] && p.created.Some? && p.todo[0] == i
  }

  function Making(s: System, i: nat): set<string> {
    set c | c in s.calls && Makes(s.calls[c], i)
  }

  /** The step updates the result. */
  predicate Updating(job: Job, p: Phase, a: Action, i: nat) {
    a.Update? && Makes(p, i) && i < |job.results|
  }

  /** The step creates a question from the result that nothing will link. */
  predicate Orphaning(p: Phase, a: Action, i: nat) {
    a.Create? && p.Saving? && p.todo == [] && p.orphan == Some(i) && i < |p.fetched|
  }

  predicate UpdatesAt(s: System, a: Action, i: nat) {
    !a.Elsewhere? && Updating(s.job, PhaseOf(s, a.c), a, i)
  }

  predicate OrphansAt(s: System, a: Action, i: nat) {
    !a.Elsewhere? && Orphaning(PhaseOf(s, a.c), a, i)
  }

  function Updates(s: System, actions: seq<Action>, i: nat): nat {
    if actions == [] then 0
    else
      var n := |actions| - 1;
      Updates(s, actions[..n], i) + One(UpdatesAt(Run(s, actions[..n]), actions[n], i))
  }

  function Orphaned(s: System, actions: seq<Action>, i: nat): nat {
    if actions == [] then 0
    else
      var n := |actions| - 1;
      Orphaned(s, actions[..n], i) + One(OrphansAt(Run(s, actions[..n]), actions[n], i))
  }

  lemma Without(calls: set<string>, c: string)
    ensures |calls| == |calls - {c}| + One(c in calls)
  {
    if c in calls { assert calls == (calls - {c}) + {c}; } else { assert calls - {c} == calls; }
  }

  lemma MakingMoves(s: System, c: string, job: Job, p: Phase, i: nat)
    ensures |Making(System(job, s.calls[c := p]), i)|
      == |Making(s, i)| - One(Makes(PhaseOf(s, c), i)) + One(Makes(p, i))
  {
    var before, after := Making(s, i), Making(System(job, s.calls[c := p]), i);
    assert after - {c} == before - {c};
    Without(before, c);
    Without(after, c);
  }

  /** What a step of a call adds to the questions from a result. */
  lemma ActQuestions(job: Job, p: Phase, a: Action, i: nat)
    requires !a.Elsewhere?
    ensures var (after, q) := Act(job, p, a);
      QuestionsFrom(after.bank, i) - One(Makes(q, i))
        == QuestionsFrom(job.bank, i) - One(Makes(p, i)) + One(Updating(job, p, a, i)) + One(Orphaning(p, a, i))
  {
    if a.Create? && p.Saving? {
      var id := if p.todo != [] then p.todo[0] else p.orphan.GetOr(0);
      if id < |p.fetched| { FromAppend(job.bank, QuestionOf(id, p.fetched[id]), i); }
    }
  }

  lemma QuestionStep(s: System, a: Action, i: nat)
    ensures QuestionsFrom(Next(s, a).job.bank, i) - |Making(Next(s, a), i)|
      == QuestionsFrom(s.job.bank, i) - |Making(s, i)| + One(UpdatesAt(s, a, i)) + One(OrphansAt(s, a, i))
  {
    if !a.Elsewhere? {
      var (job, p) := Act(s.job, PhaseOf(s, a.c), a);
      ActQuestions(s.job, PhaseOf(s, a.c), a, i);
      MakingMoves(s, a.c, job, p, i);
    }
  }

  /** Over every interleaving the bank questions made from a result are its updates, the questions that
      failing saves left unlinked, and those whose result is about to be updated. */
  lemma {:induction false} ResultAccounting(s: System, actions: seq<Action>, i: nat)
    requires NobodyCalls(s)
    ensures QuestionsFrom(Run(s, actions).job.bank, i) ==
      QuestionsFrom(s.job.bank, i) + Updates(s, actions, i) + Orphaned(s, actions, i)
      + |Making(Run(s, actions), i)|
  {
    if actions == [] {
      assert Making(s, i) == {};
    } else {
      ResultAccounting(s, actions[..|actions| - 1], i);
      QuestionStep(Run(s, actions[..|actions| - 1]), actions[|actions| - 1], i);
    }
  }

  // ---- all questions ----

  /** The call stands between the creation of a question and the update that links it. */
  predicate Mid(p: Phase) {
    p.Saving? && p.todo != [] && p.created.Some?
  }

  function AllMaking(s: System): set<string> {
    set c | c in s.calls && Mid(s.calls[c])
  }

  /** The step links a question. */
  predicate Links(job: Job, p: Phase, a: Action) {
    a.Update? && Mid(p) && p.todo[0] < |job.results|
  }

  /** The step creates a question that nothing will link. */
  predicate Leaves(p: Phase, a: Action) {
    a.Create? && p.Saving? && p.todo == [] && p.orphan.Some? && p.orphan.value < |p.fetched|
  }

  function AllLinked(s: System, actions: seq<Action>): nat {
    if actions == [] then 0
    else
      var n, before := |actions| - 1, Run(s, actions[..|actions| - 1]);
      AllLinked(s, actions[..n])
      + One(!actions[n].Elsewhere? && Links(before.job, PhaseOf(before, actions[n].c), actions[n]))
  }

  function AllLeft(s: System, actions: seq<Action>): nat {
    if actions == [] then 0
    else
      var n, before := |actions| - 1, Run(s, actions[..|actions| - 1]);
      AllLeft(s, actions[..n]) + One(!actions[n].Elsewhere? && Leaves(PhaseOf(before, actions[n].c), actions[n]))
  }

  lemma AllMakingMoves(s: System, c: string, job: Job, p: Phase)
    ensures |AllMaking(System(job, s.calls[c := p]))| == |AllMaking(s)| - One(Mid(PhaseOf(s, c))) + One(Mid(p))
  {
    var before, after := AllMaking(s), AllMaking(System(job, s.calls[c := p]));
    assert after - {c} == before - {c};
    Without(before, c);
    Without(after, c);
  }

  /** Over every interleaving the questions in the bank are the ones linked, those that failing saves left
      unlinked, and those about to be linked, beside the ones there before; none is lost or altered. */
  lemma {:induction false} BankAccounting(s: System, actions: seq<Action>)
    requires NobodyCalls(s)
    ensures s.job.bank <= Run(s, actions).job.bank
    ensures |Run(s, actions).job.bank| ==
      |s.job.bank| + AllLinked(s, actions) + AllLeft(s, actions) + |AllMaking(Run(s, actions))|
  {
    if actions == [] {
      assert AllMaking(s) == {};
    } else {
      var n := |actions| - 1;
      BankAccounting(s, actions[..n]);
      var before, a := Run(s, actions[..n]), actions[n];
      if !a.Elsewhere? {
        var (job, p) := Act(before.job, PhaseOf(before, a.c), a);
        AllMakingMoves(before, a.c, job, p);
      }
    }
  }

  // ---- one question per result ----

  predicate Holds(p: Phase, i: nat) {
    p.Saving? && i in p.todo
  }

  predicate Ascending(ids: seq<nat>) {
    forall j, k | 0 <= j < k < |ids| :: ids[j] < ids[k]
  }

  ghost predicate Ordered(s: System) {
    forall c | c in s.calls && s.calls[c].Saving? :: Ascending(s.calls[c].todo)
  }

  /** Two saves hold one result, a save holds a result that has a question, or a save is going to leave a
      question unlinked. */
  ghost predicate Clash(s: System) {
    || (exists c, d, i: nat :: c != d && Holds(PhaseOf(s, c), i) && Holds(PhaseOf(s, d), i))
    || (exists c, i: nat :: Holds(PhaseOf(s, c), i) && HasQuestion(s.job, i))
    || (exists c :: PhaseOf(s, c).Saving? && PhaseOf(s, c).orphan.Some?)
  }

  /** The questions from a result beyond the one it names and those about to be linked. */
  function Excess(s: System, i: nat): int {
    QuestionsFrom(s.job.bank, i) - |Making(s, i)| - One(HasQuestion(s.job, i))
  }

  ghost predicate Exceeds(s: System) {
    exists i: nat :: Excess(s, i) > 0
  }

  /** An update of a result that has a question already. */
  predicate Replaces(s: System, a: Action, i: nat) {
    UpdatesAt(s, a, i) && HasQuestion(s.job, i)
  }

  lemma ExcessStep(s: System, a: Action, i: nat)
    ensures Excess(Next(s, a), i) == Excess(s, i) + One(Replaces(s, a, i)) + One(OrphansAt(s, a, i))
  {
    QuestionStep(s, a, i);
    HasStep(s, a, i);
  }

  lemma HasStep(s: System, a: Action, i: nat)
    ensures HasQuestion(Next(s, a).job, i) <==> HasQuestion(s.job, i) || UpdatesAt(s, a, i)
  {
  }

  lemma HoldsStep(s: System, a: Action, c: string, i: nat)
    requires Ordered(s)
    ensures !(a.Fetch? && a.c == c) ==>
      (Holds(PhaseOf(Next(s, a), c), i) <==>
        Holds(PhaseOf(s, c), i) && !(UpdatesAt(s, a, i) && !a.Elsewhere? && a.c == c))
  {
    if !a.Elsewhere? && a.c == c && PhaseOf(s, c).Saving? && Ascending(PhaseOf(s, c).todo) {
      var todo := PhaseOf(s, c).todo;
      if todo != [] {
        assert i in todo <==> i == todo[0] || i in todo[1..];
        assert forall k | 0 <= k < |todo[1..]| :: todo[1..][k] == todo[k + 1] > todo[0];
      }
    }
  }

  /** What a fetching call holds. */
  lemma FetchHolds(s: System, c: string, op: Op, i: nat)
    ensures var p := PhaseOf(Next(s, Fetch(c, op)), c);
      if PhaseOf(s, c).Idle? && IsSave(op) then
        && (Holds(p, i) <==> i in Todo(s.job, op))
        && (p.Saving? && p.orphan == Orphan(s.job, op))
      else p == PhaseOf(s, c)
  {
  }

  lemma OrderedStep(s: System, a: Action)
    requires Ordered(s)
    ensures Ordered(Next(s, a))
  {
    if a.Fetch? && PhaseOf(s, a.c).Idle? && IsSave(a.op) { ApprovedIdsMeaning(s.job.results); }
  }

  lemma OrphanStep(s: System, a: Action, c: string)
    requires !(a.Fetch? && a.c == c)
    ensures PhaseOf(Next(s, a), c).Saving? && PhaseOf(Next(s, a), c).orphan.Some? ==>
      PhaseOf(s, c).Saving? && PhaseOf(s, c).orphan.Some?
    ensures PhaseOf(s, c).Saving? && PhaseOf(s, c).orphan.Some? ==>
      || (PhaseOf(Next(s, a), c).Saving? && PhaseOf(Next(s, a), c).orphan.Some?)
      || OrphansAt(s, a, PhaseOf(s, c).orphan.value)
  {
  }

  /** The step does harm: it updates a result that has a question or leaves a question unlinked. */
  ghost predicate Harms(s: System, a: Action) {
    exists i: nat :: Replaces(s, a, i) || OrphansAt(s, a, i)
  }

  lemma ClashStays(s: System, a: Action)
    requires Ordered(s) && Clash(s)
    ensures Clash(Next(s, a)) || Harms(s, a)
  {
    var n := Next(s, a);
    if c, d, i: nat :| c != d && Holds(PhaseOf(s, c), i) && Holds(PhaseOf(s, d), i) {
      HoldsStep(s, a, c, i);
      HoldsStep(s, a, d, i);
      HasStep(s, a, i);
      if UpdatesAt(s, a, i) {
        var e := if a.c == c then d else c;
        assert Holds(PhaseOf(n, e), i) && HasQuestion(n.job, i);
      } else {
        assert Holds(PhaseOf(n, c), i) && Holds(PhaseOf(n, d), i);
      }
    } else if c, i: nat :| Holds(PhaseOf(s, c), i) && HasQuestion(s.job, i) {
      HoldsStep(s, a, c, i);
      HasStep(s, a, i);
      if UpdatesAt(s, a, i) {
        assert Replaces(s, a, i);
      } else {
        assert Holds(PhaseOf(n, c), i) && HasQuestion(n.job, i);
      }
    } else {
      var c :| PhaseOf(s, c).Saving? && PhaseOf(s, c).orphan.Some?;
      if a.Fetch? && a.c == c {
        assert PhaseOf(n, c).Saving? && PhaseOf(n, c).orphan.Some?;
      } else {
        OrphanStep(s, a, c);
        if OrphansAt(s, a, PhaseOf(s, c).orphan.value) { assert Harms(s, a); }
      }
    }
  }

  lemma HarmIsClash(s: System, a: Action)
    requires Harms(s, a)
    ensures Clash(s)
  {
    var i: nat :| Replaces(s, a, i) || OrphansAt(s, a, i);
    if Replaces(s, a, i) {
      assert Holds(PhaseOf(s, a.c), i) && HasQuestion(s.job, i);
    } else {
      assert PhaseOf(s, a.c).Saving? && PhaseOf(s, a.c).orphan.Some?;
    }
  }

  predicate Fetches(s: System, a: Action) {
    a.Fetch? && PhaseOf(s, a.c).Idle? && IsSave(a.op)
  }

  /** Another save has fetched the result and not yet updated it. */
  ghost predicate Held(s: System, i: nat) {
    exists d :: Holds(PhaseOf(s, d), i)
  }

  /** A save that fetches may save what it fetches: the results have no question, it will not stop between
      its two writes, and no other save stands between its fetch and its update of one of them. */
  ghost predicate Clean(s: System, a: Action) {
    Fetches(s, a) ==> SavesOnce(s.job, a.op) && forall i | i in Todo(s.job, a.op) :: !Held(s, i)
  }

  lemma DirtyFetch(s: System, a: Action)
    requires !Clean(s, a)
    ensures Clash(Next(s, a))
  {
    var n := Next(s, a);
    ApprovedIdsMeaning(s.job.results);
    if SavesOnce(s.job, a.op) {
      var i :| i in Todo(s.job, a.op) && Held(s, i);
      var d :| Holds(PhaseOf(s, d), i);
      assert d != a.c && Holds(PhaseOf(n, a.c), i) && Holds(PhaseOf(n, d), i);
    } else if Orphan(s.job, a.op).Some? {
      assert PhaseOf(n, a.c).Saving? && PhaseOf(n, a.c).orphan.Some?;
    } else {
      var i: nat :| i in Todo(s.job, a.op) && HasQuestion(s.job, i);
      assert Holds(PhaseOf(n, a.c), i) && HasQuestion(n.job, i);
    }
  }

  lemma CleanStep(s: System, a: Action)
    requires Ordered(s) && !Clash(s) && Clean(s, a)
    ensures !Clash(Next(s, a))
  {
    var n := Next(s, a);
    if Fetches(s, a) { ApprovedIdsMeaning(s.job.results); }
    forall c, d, i: nat | c != d ensures !(Holds(PhaseOf(n, c), i) && Holds(PhaseOf(n, d), i)) {
      HeldBefore(s, a, c, i);
      HeldBefore(s, a, d, i);
      assert !(Holds(PhaseOf(s, c), i) && Holds(PhaseOf(s, d), i));
    }
    forall c, i: nat ensures !(Holds(PhaseOf(n, c), i) && HasQuestion(n.job, i)) {
      HeldBefore(s, a, c, i);
      HasStep(s, a, i);
      if UpdatesAt(s, a, i) && a.c != c {
        assert !(Holds(PhaseOf(s, c), i) && Holds(PhaseOf(s, a.c), i));
      }
    }
    forall c ensures !(PhaseOf(n, c).Saving? && PhaseOf(n, c).orphan.Some?) {
      if a.Fetch? && a.c == c { FetchHolds(s, c, a.op, 0); } else { OrphanStep(s, a, c); }
    }
  }

  /** What a call holds after a step it held before, or it has just fetched it. */
  lemma HeldBefore(s: System, a: Action, c: string, i: nat)
    requires Ordered(s) && Clean(s, a)
    ensures Holds(PhaseOf(Next(s, a), c), i) ==>
      || (Holds(PhaseOf(s, c), i) && !(UpdatesAt(s, a, i) && !a.Elsewhere? && a.c == c))
      || (Fetches(s, a) && a.c == c && !Held(s, i) && !HasQuestion(s.job, i))
  {
    if a.Fetch? && a.c == c {
      ApprovedIdsMeaning(s.job.results);
      FetchHolds(s, c, a.op, i);
    } else {
      HoldsStep(s, a, c, i);
    }
  }

  ghost predicate CleanRun(s: System, actions: seq<Action>) {
    actions == [] || (CleanRun(s, actions[..|actions| - 1])
      && Clean(Run(s, actions[..|actions| - 1]), actions[|actions| - 1]))
  }

  lemma SpoiledStep(s: System, a: Action)
    requires Ordered(s) && forall i: nat :: Excess(s, i) >= 0
    ensures Ordered(Next(s, a)) && forall i: nat :: Excess(Next(s, a), i) >= Excess(s, i)
    ensures Clash(Next(s, a)) || Exceeds(Next(s, a)) <==> Clash(s) || Exceeds(s) || !Clean(s, a)
  {
    var n := Next(s, a);
    OrderedStep(s, a);
    forall i: nat ensures Excess(n, i) == Excess(s, i) + One(Replaces(s, a, i)) + One(OrphansAt(s, a, i)) {
      ExcessStep(s, a, i);
    }
    if Harms(s, a) {
      HarmIsClash(s, a);
      var i: nat :| Replaces(s, a, i) || OrphansAt(s, a, i);
      assert Excess(n, i) > 0;
    } else if Clash(s) {
      ClashStays(s, a);
    } else if !Clean(s, a) {
      DirtyFetch(s, a);
    } else {
      CleanStep(s, a);
    }
    if i: nat :| Excess(s, i) > 0 { assert Excess(n, i) > 0; }
  }

  lemma {:induction false} SpoiledOverRuns(s: System, actions: seq<Action>)
    requires NobodyCalls(s) && OneQuestionEach(s.job)
    ensures Ordered(Run(s, actions)) && forall i: nat :: Excess(Run(s, actions), i) >= 0
    ensures Clash(Run(s, actions)) || Exceeds(Run(s, actions)) <==> !CleanRun(s, actions)
  {
    if actions == [] {
      forall i: nat ensures Excess(s, i) == 0 {
        assert Making(s, i) == {};
      }
    } else {
      SpoiledOverRuns(s, actions[..|actions| - 1]);
      SpoiledStep(Run(s, actions[..|actions| - 1]), actions[|actions| - 1]);
    }
  }

  /** Over every interleaving of saves, reviews, edits and generations in which all calls come to an end,
      each result has in the bank the one question it names, or none, if and only if every save, when it
      fetches, meets no approved result that has a question or that another save has fetched and not yet
      updated, and does not stop between its two writes. */
  lemma OneQuestionAmongSaves(s: System, actions: seq<Action>)
    requires NobodyCalls(s) && OneQuestionEach(s.job) && NobodyCalls(Run(s, actions))
    ensures OneQuestionEach(Run(s, actions).job) <==> CleanRun(s, actions)
  {
    var n := Run(s, actions);
    SpoiledOverRuns(s, actions);
    assert !Clash(n);
    forall i: nat ensures Excess(n, i) == QuestionsFrom(n.job.bank, i) - One(HasQuestion(n.job, i)) {
      assert Making(n, i) == {};
    }
    if OneQuestionEach(n.job) {
      assert forall i: nat :: Excess(n, i) == 0;
    } else {
      var i: nat :| QuestionsFrom(n.job.bank, i) != One(HasQuestion(n.job, i));
      assert Excess(n, i) > 0;
    }
  }

  // ---- calls that nothing interrupts ----

  lemma RunMore(s: System, actions: seq<Action>, a: Action)
    ensures Run(s, actions + [a]) == Next(Run(s, actions), a)
  {
    assert (actions + [a])[..|actions|] == actions;
  }

  lemma StepAlone(calls: map<string, Phase>, c: string, job: Job, p: Phase, a: Action)
    requires !a.Elsewhere? && a.c == c
    ensures Next(System(job, calls[c := p]), a) == System(Act(job, p, a).0, calls[c := Act(job, p, a).1])
  {
    assert calls[c := p][c := Act(job, p, a).1] == calls[c := Act(job, p, a).1];
  }

  predicate Alone(actions: seq<Action>, c: string) {
    forall i | 0 <= i < |actions| :: !actions[i].Elsewhere? && actions[i].c == c
  }

  function SavedUpTo(job: Job, op: Op, k: nat): Job
    requires IsSave(op) && k <= |Todo(job, op)|
  {
    ApprovedIdsMeaning(job.results);
    var (results, bank) := SaveList(job.results, job.bank, Todo(job, op)[..k]);
    job.(results := results, bank := bank)
  }

  function SavingFrom(job: Job, op: Op, k: nat): Phase
    requires IsSave(op) && k <= |Todo(job, op)|
  {
    Saving(Todo(job, op)[k..], job.results, None, Orphan(job, op), op.OpSave?)
  }

  lemma SaveOne(job: Job, op: Op, k: nat, c: string)
    requires IsSave(op) && k < |Todo(job, op)|
    ensures var (made, p) := Act(SavedUpTo(job, op, k), SavingFrom(job, op, k), Create(c));
      Act(made, p, Update(c)) == (SavedUpTo(job, op, k + 1), SavingFrom(job, op, k + 1))
  {
    var todo := Todo(job, op);
    TodoInJob(job, op, k);
    SavedOneMore(job, op, k, todo[k], SavedUpTo(job, op, k));
    assert todo[k..] == [todo[k]] + todo[k + 1..];
    CreateUpdate(SavedUpTo(job, op, k), todo[k], todo[k + 1..], job.results, Orphan(job, op), op.OpSave?, c);
  }

  lemma TodoInJob(job: Job, op: Op, k: nat)
    requires IsSave(op) && k < |Todo(job, op)|
    ensures Todo(job, op)[k] < |job.results| == |SavedUpTo(job, op, k).results|
  {
    ApprovedIdsMeaning(job.results);
  }

  lemma SavedOneMore(job: Job, op: Op, k: nat, id: nat, before: Job)
    requires IsSave(op) && k < |Todo(job, op)| && id == Todo(job, op)[k] && before == SavedUpTo(job, op, k)
    requires id < |job.results| == |before.results|
    ensures SavedUpTo(job, op, k + 1) == before.(
      results := before.results[id := before.results[id].(status := Saved, questionId := Some(|before.bank|))],
      bank := before.bank + [QuestionOf(id, job.results[id])])
  {
    assert Todo(job, op)[..k + 1][..k] == Todo(job, op)[..k];
  }

  lemma CreateUpdate(job: Job, id: nat, rest: seq<nat>, fetched: seq<Result>, orphan: Option<nat>, complete: bool,
      c: string)
    requires id < |fetched| == |job.results|
    ensures var (made, p) := Act(job, Saving([id] + rest, fetched, None, orphan, complete), Create(c));
      Act(made, p, Update(c)) == (
        job.(results := job.results[id := job.results[id].(status := Saved, questionId := Some(|job.bank|))],
             bank := job.bank + [QuestionOf(id, fetched[id])]),
        Saving(rest, fetched, None, orphan, complete))
  {
    assert ([id] + rest)[1..] == rest;
  }

  lemma AloneMore(a: seq<Action>, b: seq<Action>, c: string)
    requires Alone(a, c) && Alone(b, c)
    ensures Alone(a + b, c)
  {
  }

  lemma SaveNext(s: System, c: string, op: Op, k: nat, init: seq<Action>) returns (actions: seq<Action>)
    requires IsSave(op) && k < |Todo(s.job, op)| && Alone(init, c)
    requires Run(s, init) == System(SavedUpTo(s.job, op, k), s.calls[c := SavingFrom(s.job, op, k)])
    ensures Alone(actions, c)
    ensures Run(s, actions) == System(SavedUpTo(s.job, op, k + 1), s.calls[c := SavingFrom(s.job, op, k + 1)])
  {
    var job, p := SavedUpTo(s.job, op, k), SavingFrom(s.job, op, k);
    RunMore(s, init, Create(c));
    StepAlone(s.calls, c, job, p, Create(c));
    RunMore(s, init + [Create(c)], Update(c));
    StepAlone(s.calls, c, Act(job, p, Create(c)).0, Act(job, p, Create(c)).1, Update(c));
    SaveOne(s.job, op, k, c);
    AloneMore(init, [Create(c)], c);
    AloneMore(init + [Create(c)], [Update(c)], c);
    actions := init + [Create(c)] + [Update(c)];
  }

  lemma SaveFirst(s: System, c: string, op: Op)
    requires PhaseOf(s, c).Idle? && IsSave(op)
    ensures Run(s, [Fetch(c, op)]) == System(SavedUpTo(s.job, op, 0), s.calls[c := SavingFrom(s.job, op, 0)])
  {
    RunMore(s, [], Fetch(c, op));
    assert [] + [Fetch(c, op)] == [Fetch(c, op)];
    assert Todo(s.job, op)[..0] == [] && Todo(s.job, op)[0..] == Todo(s.job, op);
  }

  /** The steps of a save up to its last update. */
  lemma {:induction false} SaveSome(s: System, c: string, op: Op, k: nat) returns (actions: seq<Action>)
    requires PhaseOf(s, c).Idle? && IsSave(op) && k <= |Todo(s.job, op)|
    ensures Alone(actions, c)
    ensures Run(s, actions) == System(SavedUpTo(s.job, op, k), s.calls[c := SavingFrom(s.job, op, k)])
  {
    if k == 0 {
      actions := [Fetch(c, op)];
      SaveFirst(s, c, op);
    } else {
      var init := SaveSome(s, c, op, k - 1);
      actions := SaveNext(s, c, op, k - 1, init);
    }
  }

  function CountSteps(c: string): seq<Action> {
    [CountApproved(c), CountRejected(c), CountAll(c), StoreCounts(c)]
  }

  lemma {:induction false} RunConcat(s: System, a: seq<Action>, b: seq<Action>)
    ensures Run(s, a + b) == Run(Run(s, a), b)
  {
    if b == [] {
      assert a + b == a;
    } else {
      assert a + b == (a + b[..|b| - 1]) + [b[|b| - 1]];
      RunConcat(s, a, b[..|b| - 1]);
      RunMore(s, a + b[..|b| - 1], b[|b| - 1]);
    }
  }

  lemma CountsAlone(s: System, c: string)
    requires PhaseOf(s, c) == COUNTS
    ensures Run(s, CountSteps(c)) == System(Recount(s.job), s.calls[c := Idle])
  {
    var steps := CountSteps(c);
    assert steps[..3] == [CountApproved(c), CountRejected(c), CountAll(c)];
    assert steps[..3][..2] == [CountApproved(c), CountRejected(c)];
    assert steps[..3][..2][..1] == [CountApproved(c)];
    var p := COUNTS.(approved := Some(CountIn(s.job.results, {Approved, Saved})));
    var q := p.(rejected := Some(CountIn(s.job.results, {Rejected})));
    assert Run(s, steps[..3][..2][..1]) == System(s.job, s.calls[c := p]);
    assert Run(s, steps[..3][..2]) == System(s.job, s.calls[c := q]);
    assert Run(s, steps[..3]) == System(s.job, s.calls[c := q.(generated := Some(|s.job.results|))]);
  }

  /** How a failing save ends: with a question it does not link, or without. */
  function LastStep(job: Job, op: Op, c: string): Action
    requires IsSave(op)
  {
    if Orphan(job, op).Some? then Create(c) else Finish(c)
  }

  lemma AllSaved(job: Job, op: Op)
    requires IsSave(op)
    ensures var n := |Todo(job, op)|;
      && SavingFrom(job, op, n) == Saving([], job.results, None, Orphan(job, op), op.OpSave?)
      && (op.OpSave? ==> Save(job) == Recount(SavedUpTo(job, op, n)))
  {
    var todo := Todo(job, op);
    assert todo[..|todo|] == todo && todo[|todo|..] == [];
  }

  lemma TornSaved(job: Job, op: Op, c: string)
    requires op.OpTornSave?
    ensures var n := |Todo(job, op)|;
      Act(SavedUpTo(job, op, n), SavingFrom(job, op, n), LastStep(job, op, c)) == (Step(job, op), Idle)
  {
    ApprovedIdsMeaning(job.results);
    AllSaved(job, op);
    var todo := Todo(job, op);
    assert todo[..|todo|] == todo;
    var saved := SavedUpTo(job, op, |todo|);
    assert saved.bank + [] == saved.bank;
  }

  /** The end of a complete save: it counts. */
  lemma SaveCounts(s: System, c: string, init: seq<Action>, saved: Job, p: Phase) returns (actions: seq<Action>)
    requires Run(s, init) == System(saved, s.calls[c := p]) && Act(saved, p, Finish(c)) == (saved, COUNTS)
    requires Alone(init, c)
    ensures Alone(actions, c) && Run(s, actions) == System(Recount(saved), s.calls[c := Idle])
  {
    RunMore(s, init, Finish(c));
    StepAlone(s.calls, c, saved, p, Finish(c));
    AloneMore(init, [Finish(c)], c);
    actions := ThenCounts(s, c, init + [Finish(c)], saved);
  }

  lemma ThenCounts(s: System, c: string, init: seq<Action>, saved: Job) returns (actions: seq<Action>)
    requires Run(s, init) == System(saved, s.calls[c := COUNTS]) && Alone(init, c)
    ensures Alone(actions, c) && Run(s, actions) == System(Recount(saved), s.calls[c := Idle])
  {
    var counting, steps := System(saved, s.calls[c := COUNTS]), CountSteps(c);
    CountsAlone(counting, c);
    assert counting.calls[c := Idle] == s.calls[c := Idle];
    AloneMore(init, steps, c);
    RunConcat(s, init, steps);
    actions := init + steps;
  }

  lemma WholeSave(s: System, c: string) returns (actions: seq<Action>)
    requires PhaseOf(s, c).Idle?
    ensures Alone(actions, c) && Run(s, actions) == System(Save(s.job), s.calls[c := Idle])
  {
    var n := |Todo(s.job, OpSave)|;
    var init := SaveSome(s, c, OpSave, n);
    AllSaved(s.job, OpSave);
    actions := SaveCounts(s, c, init, SavedUpTo(s.job, OpSave, n), SavingFrom(s.job, OpSave, n));
  }

  /** The steps of a save that nothing interrupts are the save of the sequential service, complete or torn. */
  lemma UninterruptedSave(s: System, c: string, op: Op) returns (actions: seq<Action>)
    requires PhaseOf(s, c).Idle? && IsSave(op)
    ensures Alone(actions, c) && Run(s, actions) == System(Step(s.job, op), s.calls[c := Idle])
  {
    if op.OpSave? {
      actions := WholeSave(s, c);
    } else {
      var n, last := |Todo(s.job, op)|, LastStep(s.job, op, c);
      var init := SaveSome(s, c, op, n);
      RunMore(s, init, last);
      StepAlone(s.calls, c, SavedUpTo(s.job, op, n), SavingFrom(s.job, op, n), last);
      TornSaved(s.job, op, c);
      actions := init + [last];
    }
  }

  /** And so are those of a review. */
  lemma UninterruptedReview(s: System, c: string, ids: set<nat>, to: Status, decisionsStored: bool)
    requires PhaseOf(s, c).Idle? && to in {Approved, Rejected}
    ensures var marked := Next(s, Mark(c, ids, to, decisionsStored));
      (if decisionsStored then Run(marked, CountSteps(c)) else marked).job == Review(s.job, ids, to, decisionsStored)
  {
    if decisionsStored { CountsAlone(Next(s, Mark(c, ids, to, true)), c); }
  }

  // ---- what overlapping calls can do ----

  lemma OneApproved(r: Result)
    requires r.status == Approved
    ensures ApprovedIds([r]) == [0]
  {
    assert [r][..0] == [] && ApprovedIds([]) == [];
  }

  lemma TwoQuestions(q: Question)
    requires q.source == 0
    ensures QuestionsFrom([q, q], 0) == 2
  {
    FromAppend([], q, 0);
    FromAppend([q], q, 0);
    assert [] + [q] == [q] && [q] + [q] == [q, q];
  }

  lemma SavesTwice(s: System, r: Result, c: string, d: string)
    requires c != d && s.job.results == [r] && s.job.bank == []
    requires PhaseOf(s, c) == PhaseOf(s, d) == Saving([0], [r], None, None, true)
    ensures Next(Next(Next(Next(s, Create(c)), Update(c)), Create(d)), Update(d)).job.bank
      == [QuestionOf(0, r), QuestionOf(0, r)]
  {
    var first := Next(Next(s, Create(c)), Update(c));
    assert PhaseOf(first, d) == PhaseOf(s, d) && first.job.bank == [QuestionOf(0, r)];
  }

  /** Two saves that both fetch one approved result before either updates it create two questions. */
  lemma OverlappingSaves(r: Result, c: string, d: string)
    requires r.status == Approved && r.questionId.None? && c != d
    ensures var s := System(Job([r], [], 1, 0, 1), map[]);
      var fetched := Next(Next(s, Fetch(c, OpSave)), Fetch(d, OpSave));
      var n := Next(Next(Next(Next(fetched, Create(c)), Update(c)), Create(d)), Update(d));
      OneQuestionEach(s.job) && QuestionsFrom(n.job.bank, 0) == 2
  {
    var job, q := Job([r], [], 1, 0, 1), QuestionOf(0, r);
    var saving := Saving([0], [r], None, None, true);
    OneApproved(r);
    TwoQuestions(q);
    FetchedAs(System(job, map[]), c, saving);
    FetchedAs(System(job, map[c := saving]), d, saving);
    SavesTwice(System(job, map[c := saving, d := saving]), r, c, d);
  }

  lemma FetchedAs(s: System, c: string, saving: Phase)
    requires PhaseOf(s, c).Idle? && saving == Saving(ApprovedIds(s.job.results), s.job.results, None, None, true)
    ensures Next(s, Fetch(c, OpSave)) == System(s.job, s.calls[c := saving])
  {
  }

  lemma CountOne(r: Result, s: set<Status>)
    ensures CountIn([r], s) == One(r.status in s)
  {
    assert [r][..0] == [];
  }

  /** A review that counts while another one rejects counts a result both as approved and as rejected. */
  lemma OverlappingCounts(r: Result, c: string, d: string)
    requires r.status == Pending && c != d
    ensures var s := System(Job([r], [], 0, 0, 1), map[]);
      var approved := Next(Next(s, Mark(c, {0}, Approved, true)), CountApproved(c));
      var rejected := Next(approved, Mark(d, {0}, Rejected, true));
      var n := Next(Next(Next(rejected, CountRejected(c)), CountAll(c)), StoreCounts(c));
      InSync(s.job) && n.job.approvedCount == 1 && n.job.rejectedCount == 1 && n.job.generatedCount == 1
  {
    var s := System(Job([r], [], 0, 0, 1), map[]);
    var a, b := r.(status := Approved), r.(status := Rejected);
    CountOne(r, {Approved, Saved});
    CountOne(r, {Rejected});
    CountOne(a, {Approved, Saved});
    CountOne(b, {Rejected});
    assert MarkAll([r], {0}, Approved) == [a] && MarkAll([a], {0}, Rejected) == [b];
    var approved := Next(Next(s, Mark(c, {0}, Approved, true)), CountApproved(c));
    assert PhaseOf(approved, c) == COUNTS.(approved := Some(1)) && approved.job.results == [a];
    var rejected := Next(approved, Mark(d, {0}, Rejected, true));
    assert PhaseOf(rejected, c) == PhaseOf(approved, c) && rejected.job.results == [b];
  }
}
