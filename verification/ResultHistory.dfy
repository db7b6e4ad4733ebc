/** Where in an interleaved run the figures of receipts and results come from: the step at which a
    receipt was counted, and the step at which the last committed calculation of a result read. */
module ResultHistory {
  import opened Common
  import opened Scoring
  import opened ExamStore
  import opened Interleaving

  /** Steps of a run: of the receipt and of the calculation of each worker's transaction, of the receipts
      the run has stored, and of the last calculation committed for each attempt. */
  datatype Trace = Trace(
    taken: map<string, nat>, read: map<string, nat>, receipts: map<string, nat>, results: map<string, nat>)

  ghost function StateAt(s: System, actions: seq<Action>, m: nat): System
    requires m <= |actions|
  {
    Run(s, actions[..m])
  }

  /** The trace after step `k`. */
  function Traced(t: Trace, s: System, a: Action, k: nat): Trace {
    match a
    case TakeReceipt(w, _) =>
      if PhaseOf(s, w).Claimed? && PhaseOf(s, w).id in s.db.attempts then t.(taken := t.taken[w := k]) else t
    case Calculate(w) =>
      if PhaseOf(s, w).Receipted? && PhaseOf(s, w).id in s.db.attempts then t.(read := t.read[w := k]) else t
    case StartCalculation(w, id) =>
      if PhaseOf(s, w).Idle? && id in s.db.attempts then t.(read := t.read[w := k]) else t
    case Commit(w) =>
      var p := PhaseOf(s, w);
      if (p.Calculated? || p.Written?) && p.id in s.db.attempts && w in t.read then
        t.(results := t.results[p.id := t.read[w]],
           receipts := if p.Calculated? && p.id !in s.db.receipts && w in t.taken
                       then t.receipts[p.id := t.taken[w]] else t.receipts)
      else t
    case _ => t
  }

  ghost function TraceAt(s: System, actions: seq<Action>, m: nat): Trace
    requires m <= |actions|
  {
    if m == 0 then Trace(map[], map[], map[], map[])
    else Traced(TraceAt(s, actions, m - 1), StateAt(s, actions, m - 1), actions[m - 1], m - 1)
  }

  lemma StateStep(s: System, actions: seq<Action>, m: nat)
    requires m < |actions|
    ensures StateAt(s, actions, m + 1) == Next(StateAt(s, actions, m), actions[m])
  {
    assert actions[..m + 1][..m] == actions[..m];
  }

  // ---- what is read at a step ----

  /** The number of answered questions of an attempt before step `k`. */
  ghost function AnsweredAt(s: System, actions: seq<Action>, k: nat, id: string): nat
    requires k <= |actions| && id in StateAt(s, actions, k).db.attempts
  {
    CountAnswered(StateAt(s, actions, k).db.attempts[id].questions, StateAt(s, actions, k).db.answers)
  }

  ghost function ComputedAt(s: System, actions: seq<Action>, k: nat, id: string): Outcome
    requires k <= |actions| && id in StateAt(s, actions, k).db.attempts
  {
    Compute(StateAt(s, actions, k).db, id)
  }

  ghost predicate Existed(s: System, actions: seq<Action>, k: nat, m: nat, id: string)
    requires m <= |actions|
  {
    k < m && id in StateAt(s, actions, k).db.attempts
  }

  /** The receipt of a transaction counts the answers at its step. */
  ghost predicate TakenOk(s: System, actions: seq<Action>, m: nat, p: Phase, taken: map<string, nat>, w: string)
    requires m <= |actions|
  {
    p.Receipted? || p.Calculated? ==>
      && w in taken && Existed(s, actions, taken[w], m, p.id) && actions[taken[w]].TakeReceipt?
      && p.receipt.answerCount == AnsweredAt(s, actions, taken[w], p.id)
  }

  /** The outcome of a transaction is the calculation at its step. */
  ghost predicate ReadOk(s: System, actions: seq<Action>, m: nat, p: Phase, read: map<string, nat>, w: string)
    requires m <= |actions|
  {
    p.Calculated? || p.Read? || p.Written? ==>
      && w in read && Existed(s, actions, read[w], m, p.id)
      && (actions[read[w]].Calculate? || actions[read[w]].StartCalculation?)
      && p.outcome == ComputedAt(s, actions, read[w], p.id)
  }

  ghost predicate WorkersOk(s: System, actions: seq<Action>, m: nat, st: System, t: Trace)
    requires m <= |actions|
  {
    forall w | w in st.workers ::
      TakenOk(s, actions, m, st.workers[w], t.taken, w) && ReadOk(s, actions, m, st.workers[w], t.read, w)
  }

  predicate Shows(r: Result, o: Outcome) {
    r.scores == o.scores && r.tally == o.tally && r.ready == !o.pending
  }

  /** A stored receipt is older than the run or counts the answers at its step. */
  ghost predicate ReceiptOk(s: System, actions: seq<Action>, m: nat, db: Db, receipts: map<string, nat>, id: string)
    requires m <= |actions|
  {
    && (id in receipts ==>
          && id in db.receipts && Existed(s, actions, receipts[id], m, id) && actions[receipts[id]].TakeReceipt?
          && db.receipts[id].answerCount == AnsweredAt(s, actions, receipts[id], id))
    && (id in db.receipts && id !in receipts ==> id in s.db.receipts && db.receipts[id] == s.db.receipts[id])
  }

  /** A stored result is older than the run or shows the calculation at its step; a claimed attempt has one
      of the run. */
  ghost predicate ResultOk(s: System, actions: seq<Action>, m: nat, db: Db, results: map<string, nat>, id: string)
    requires m <= |actions|
  {
    && (id in results ==>
          && id in db.results && Existed(s, actions, results[id], m, id)
          && (actions[results[id]].Calculate? || actions[results[id]].StartCalculation?)
          && Shows(db.results[id], ComputedAt(s, actions, results[id], id)))
    && (id in db.results && id !in results ==> id in s.db.results && db.results[id] == s.db.results[id])
    && (id in db.attempts && db.attempts[id].claimedAt.Some? ==> id in results)
  }

  ghost predicate TraceOk(s: System, actions: seq<Action>, m: nat)
    requires m <= |actions|
  {
    var st, t := StateAt(s, actions, m), TraceAt(s, actions, m);
    && Inv(st)
    && WorkersOk(s, actions, m, st, t)
    && (forall id :: ReceiptOk(s, actions, m, st.db, t.receipts, id))
    && (forall id :: ResultOk(s, actions, m, st.db, t.results, id))
  }

  // ---- steps ----

  /** A commit stores its outcome under its attempt, and its receipt unless there is one. */
  lemma CommitFigures(db: Db, p: Phase)
    requires (p.Calculated? || p.Written?) && p.id in db.attempts
    ensures var d := CommitPhase(db, p);
      && d.results.Keys == db.results.Keys + {p.id} && Shows(d.results[p.id], p.outcome)
      && (forall id | id in db.results && id != p.id :: d.results[id] == db.results[id])
      && d.receipts == (if p.Calculated? then UpsertReceipt(db.receipts, p.id, p.receipt) else db.receipts)
      && d.attempts.Keys == db.attempts.Keys
      && (forall id | id in db.attempts && id != p.id :: d.attempts[id] == db.attempts[id])
  {
    if p.Calculated? {
      SubmitAllScope(db, p.id, p.at, p.claimant, p.submittedAt, p.receipt, p.outcome);
    } else {
      StoreScope(db, p.id, p.outcome);
    }
  }

  /** The one worker whose transaction a step may advance. */
  function Actor(a: Action): Option<string> {
    match a
    case ClaimRow(w, _, _, _) => Some(w)
    case TakeReceipt(w, _) => Some(w)
    case Calculate(w) => Some(w)
    case StartCalculation(w, _) => Some(w)
    case WriteCalculation(w) => Some(w)
    case Commit(w) => Some(w)
    case Abort(w) => Some(w)
    case _ => None
  }

  lemma OtherWorkers(t: Trace, st: System, a: Action, k: nat, w: string)
    requires Actor(a) != Some(w)
    ensures var n, u := Next(st, a), Traced(t, st, a, k);
      && (w in n.workers <==> w in st.workers) && (w in st.workers ==> n.workers[w] == st.workers[w])
      && (w in t.taken ==> w in u.taken && u.taken[w] == t.taken[w])
      && (w in t.read ==> w in u.read && u.read[w] == t.read[w])
  {
  }

  lemma ActorTaken(s: System, actions: seq<Action>, m: nat, w: string, st: System, t: Trace)
    requires m < |actions| && Actor(actions[m]) == Some(w) && st == StateAt(s, actions, m)
    requires w in st.workers ==> TakenOk(s, actions, m, st.workers[w], t.taken, w)
    ensures var n, u := Next(st, actions[m]), Traced(t, st, actions[m], m);
      w in n.workers ==> TakenOk(s, actions, m + 1, n.workers[w], u.taken, w)
  {
  }

  lemma ActorReads(s: System, actions: seq<Action>, m: nat, w: string, st: System, t: Trace)
    requires m < |actions| && Actor(actions[m]) == Some(w) && st == StateAt(s, actions, m)
    requires actions[m].Calculate? || actions[m].StartCalculation?
    requires w in st.workers ==> ReadOk(s, actions, m, st.workers[w], t.read, w)
    ensures var n, u := Next(st, actions[m]), Traced(t, st, actions[m], m);
      w in n.workers ==> ReadOk(s, actions, m + 1, n.workers[w], u.read, w)
  {
  }

  /** Any other step keeps what was read. */
  lemma ActorKeeps(t: Trace, st: System, a: Action, k: nat, w: string)
    requires Actor(a) == Some(w) && !a.Calculate? && !a.StartCalculation?
    ensures var n, u := Next(st, a), Traced(t, st, a, k);
      && u.read == t.read
      && (w in n.workers && (n.workers[w].Calculated? || n.workers[w].Read? || n.workers[w].Written?) ==>
            && w in st.workers && (st.workers[w].Calculated? || st.workers[w].Read? || st.workers[w].Written?)
            && n.workers[w].id == st.workers[w].id && n.workers[w].outcome == st.workers[w].outcome)
  {
  }

  lemma ActorRead(s: System, actions: seq<Action>, m: nat, w: string, st: System, t: Trace)
    requires m < |actions| && Actor(actions[m]) == Some(w) && st == StateAt(s, actions, m)
    requires w in st.workers ==> ReadOk(s, actions, m, st.workers[w], t.read, w)
    ensures var n, u := Next(st, actions[m]), Traced(t, st, actions[m], m);
      w in n.workers ==> ReadOk(s, actions, m + 1, n.workers[w], u.read, w)
  {
    if actions[m].Calculate? || actions[m].StartCalculation? {
      ActorReads(s, actions, m, w, st, t);
    } else {
      ActorKeeps(t, st, actions[m], m, w);
    }
  }

  lemma WorkersStep(s: System, actions: seq<Action>, m: nat)
    requires m < |actions| && TraceOk(s, actions, m)
    ensures WorkersOk(s, actions, m + 1, StateAt(s, actions, m + 1), TraceAt(s, actions, m + 1))
  {
    StateStep(s, actions, m);
    var st, t := StateAt(s, actions, m), TraceAt(s, actions, m);
    var n, u := StateAt(s, actions, m + 1), TraceAt(s, actions, m + 1);
    forall w | w in n.workers
      ensures TakenOk(s, actions, m + 1, n.workers[w], u.taken, w) && ReadOk(s, actions, m + 1, n.workers[w], u.read, w)
    {
      if Actor(actions[m]) == Some(w) {
        ActorTaken(s, actions, m, w, st, t);
        ActorRead(s, actions, m, w, st, t);
      } else {
        OtherWorkers(t, st, actions[m], m, w);
        assert TakenOk(s, actions, m, st.workers[w], t.taken, w) && ReadOk(s, actions, m, st.workers[w], t.read, w);
      }
    }
  }

  /** Only commits touch receipts and results, or claim an attempt. */
  lemma QuietStep(st: System, t: Trace, a: Action, k: nat)
    requires !(a.Commit? && Next(st, a) != st)
    ensures var n, u := Next(st, a), Traced(t, st, a, k);
      && n.db.receipts == st.db.receipts && n.db.results == st.db.results
      && u.receipts == t.receipts && u.results == t.results
      && (forall id | id in n.db.attempts && n.db.attempts[id].claimedAt.Some? ::
            id in st.db.attempts && st.db.attempts[id].claimedAt.Some?)
  {
    QuietTables(st, a);
  }

  lemma QuietTables(st: System, a: Action)
    requires !(a.Commit? && Next(st, a) != st)
    ensures var d, e := st.db, Next(st, a).db;
      && e.receipts == d.receipts && e.results == d.results
      && (forall id | id in e.attempts && e.attempts[id].claimedAt.Some? ::
            id in d.attempts && d.attempts[id].claimedAt.Some?)
  {
    match a
    case Commit(_) =>
    case Enrol(_, _) =>
    case _ =>
  }

  lemma TraceInit(s: System, actions: seq<Action>)
    requires Initial(s)
    ensures TraceOk(s, actions, 0)
  {
    assert actions[..0] == [];
    InitialInv(s);
  }

  predicate Effective(st: System, a: Action) {
    a.Commit? && (PhaseOf(st, a.w).Calculated? || PhaseOf(st, a.w).Written?) && PhaseOf(st, a.w).id in st.db.attempts
  }

  lemma TracedCommit(t: Trace, st: System, a: Action, k: nat)
    requires Effective(st, a) && a.w in t.read && (PhaseOf(st, a.w).Calculated? ==> a.w in t.taken)
    ensures var p, u := PhaseOf(st, a.w), Traced(t, st, a, k);
      && u.results == t.results[p.id := t.read[a.w]]
      && u.receipts ==
        (if p.Calculated? && p.id !in st.db.receipts then t.receipts[p.id := t.taken[a.w]] else t.receipts)
    ensures Next(st, a).db == CommitPhase(st.db, PhaseOf(st, a.w))
  {
  }

  lemma CommitTrace(s: System, actions: seq<Action>, m: nat)
    requires m < |actions| && TraceOk(s, actions, m) && Effective(StateAt(s, actions, m), actions[m])
    ensures var st, t := StateAt(s, actions, m), TraceAt(s, actions, m);
      var p, w := PhaseOf(st, actions[m].w), actions[m].w;
      && TakenOk(s, actions, m, p, t.taken, w) && ReadOk(s, actions, m, p, t.read, w)
      && w in t.read && (p.Calculated? ==> w in t.taken)
  {
    var st, t := StateAt(s, actions, m), TraceAt(s, actions, m);
    var w := actions[m].w;
    assert TakenOk(s, actions, m, st.workers[w], t.taken, w) && ReadOk(s, actions, m, st.workers[w], t.read, w);
  }

  /** What a commit does to the receipt of an attempt, given what it knows of its own transaction. */
  lemma ReceiptCommitted(s: System, actions: seq<Action>, m: nat, st: System, t: Trace, id: string)
    requires m < |actions| && Effective(st, actions[m])
    requires ReceiptOk(s, actions, m, st.db, t.receipts, id)
    requires TakenOk(s, actions, m, PhaseOf(st, actions[m].w), t.taken, actions[m].w)
    requires actions[m].w in t.read && (PhaseOf(st, actions[m].w).Calculated? ==> actions[m].w in t.taken)
    ensures ReceiptOk(s, actions, m + 1, Next(st, actions[m]).db, Traced(t, st, actions[m], m).receipts, id)
  {
    TracedCommit(t, st, actions[m], m);
    CommitFigures(st.db, PhaseOf(st, actions[m].w));
  }

  lemma ReceiptsStep(s: System, actions: seq<Action>, m: nat, id: string)
    requires m < |actions| && TraceOk(s, actions, m)
    ensures ReceiptOk(s, actions, m + 1, StateAt(s, actions, m + 1).db, TraceAt(s, actions, m + 1).receipts, id)
  {
    var st, t := StateAt(s, actions, m), TraceAt(s, actions, m);
    assert ReceiptOk(s, actions, m, st.db, t.receipts, id);
    StateStep(s, actions, m);
    if Effective(st, actions[m]) {
      CommitTrace(s, actions, m);
      ReceiptCommitted(s, actions, m, st, t, id);
    } else {
      QuietStep(st, t, actions[m], m);
    }
  }

  lemma ResultCommitted(s: System, actions: seq<Action>, m: nat, st: System, t: Trace, id: string)
    requires m < |actions| && Effective(st, actions[m])
    requires ResultOk(s, actions, m, st.db, t.results, id)
    requires ReadOk(s, actions, m, PhaseOf(st, actions[m].w), t.read, actions[m].w)
    requires actions[m].w in t.read && (PhaseOf(st, actions[m].w).Calculated? ==> actions[m].w in t.taken)
    ensures ResultOk(s, actions, m + 1, Next(st, actions[m]).db, Traced(t, st, actions[m], m).results, id)
  {
    TracedCommit(t, st, actions[m], m);
    CommitFigures(st.db, PhaseOf(st, actions[m].w));
  }

  lemma ResultsStep(s: System, actions: seq<Action>, m: nat, id: string)
    requires m < |actions| && TraceOk(s, actions, m)
    ensures ResultOk(s, actions, m + 1, StateAt(s, actions, m + 1).db, TraceAt(s, actions, m + 1).results, id)
  {
    var st, t := StateAt(s, actions, m), TraceAt(s, actions, m);
    assert ResultOk(s, actions, m, st.db, t.results, id);
    StateStep(s, actions, m);
    if Effective(st, actions[m]) {
      CommitTrace(s, actions, m);
      ResultCommitted(s, actions, m, st, t, id);
    } else {
      QuietStep(st, t, actions[m], m);
    }
  }

  lemma {:induction false} TraceHolds(s: System, actions: seq<Action>, m: nat)
    requires Initial(s) && m <= |actions|
    ensures TraceOk(s, actions, m)
  {
    if m == 0 {
      TraceInit(s, actions);
    } else {
      TraceHolds(s, actions, m - 1);
      StateStep(s, actions, m - 1);
      NextInv(StateAt(s, actions, m - 1), actions[m - 1]);
      WorkersStep(s, actions, m - 1);
      forall id ensures ReceiptOk(s, actions, m, StateAt(s, actions, m).db, TraceAt(s, actions, m).receipts, id) {
        ReceiptsStep(s, actions, m - 1, id);
      }
      forall id ensures ResultOk(s, actions, m, StateAt(s, actions, m).db, TraceAt(s, actions, m).results, id) {
        ResultsStep(s, actions, m - 1, id);
      }
    }
  }

  // ---- main results ----

  /** The number of answered questions when the receipt was made: at its step, or what it says if it is
      older than the run. */
  ghost function ReceiptCount(s: System, actions: seq<Action>, id: string): nat
    requires Initial(s) && id in Run(s, actions).db.receipts
  {
    TraceHolds(s, actions, |actions|);
    assert actions[..|actions|] == actions;
    var t := TraceAt(s, actions, |actions|);
    assert ReceiptOk(s, actions, |actions|, Run(s, actions).db, t.receipts, id);
    if id in t.receipts then AnsweredAt(s, actions, t.receipts[id], id) else s.db.receipts[id].answerCount
  }

  lemma ComputeCounts(db: Db, id: string)
    requires id in db.attempts
    ensures Compute(db, id).tally.attempted == CountAnswered(db.attempts[id].questions, db.answers)
  {
    TallyAccounting(db.attempts[id].questions, db.answers);
  }

  /** Over every run, receipt and result of a claimed attempt agree on the number of answered questions if
      and only if that number was the same when the receipt was made and when the last calculation
      committed for the attempt did its reads. */
  lemma ReceiptAgreement(s: System, actions: seq<Action>, id: string)
    requires Initial(s)
    requires var db := Run(s, actions).db; id in db.attempts && db.attempts[id].claimedAt.Some?
    ensures var db, t := Run(s, actions).db, TraceAt(s, actions, |actions|);
      && id in db.receipts && id in db.results
      && id in t.results && Existed(s, actions, t.results[id], |actions|, id)
      && (db.receipts[id].answerCount == db.results[id].tally.attempted <==>
          ReceiptCount(s, actions, id) == AnsweredAt(s, actions, t.results[id], id))
  {
    EveryReachableState(s, actions);
    TraceHolds(s, actions, |actions|);
    assert actions[..|actions|] == actions;
    var db, t := Run(s, actions).db, TraceAt(s, actions, |actions|);
    assert ReceiptOk(s, actions, |actions|, db, t.receipts, id);
    assert ResultOk(s, actions, |actions|, db, t.results, id);
    ComputeCounts(StateAt(s, actions, t.results[id]).db, id);
  }

  /** A result the run has stored is the calculation at the point where the last committed one read. */
  lemma CommittedAsRead(s: System, actions: seq<Action>, id: string)
    requires Initial(s) && id in TraceAt(s, actions, |actions|).results
    ensures var db, k := Run(s, actions).db, TraceAt(s, actions, |actions|).results[id];
      && id in db.results && Existed(s, actions, k, |actions|, id)
      && (actions[k].Calculate? || actions[k].StartCalculation?)
      && Shows(db.results[id], ComputedAt(s, actions, k, id))
  {
    TraceHolds(s, actions, |actions|);
    assert actions[..|actions|] == actions;
    var t := TraceAt(s, actions, |actions|);
    assert ResultOk(s, actions, |actions|, Run(s, actions).db, t.results, id);
  }

  // ---- stale results ----

  /** The two tables agree on the questions and the marks of an attempt. */
  ghost predicate SameParts(d: Db, e: Db, id: string) {
    && id in d.attempts && id in e.attempts
    && d.attempts[id].questions == e.attempts[id].questions
    && d.attempts[id].totalMarks == e.attempts[id].totalMarks
    && d.attempts[id].passingMarks == e.attempts[id].passingMarks
  }

  /** Everything a calculation of the attempt reads is the same in both. */
  ghost predicate SameInputs(d: Db, e: Db, id: string) {
    && SameParts(d, e, id)
    && (forall q | q in d.attempts[id].questions :: AnswerTo(d.answers, q) == AnswerTo(e.answers, q))
    && ReviewsOf(d.reviews, id) == ReviewsOf(e.reviews, id)
  }

  lemma {:induction false} SameRows(qs: seq<Question>, a: map<string, Answer>, b: map<string, Answer>)
    requires forall q | q in qs :: AnswerTo(a, q) == AnswerTo(b, q)
    ensures RowsOf(qs, a) == RowsOf(qs, b) && TallyOf(qs, a) == TallyOf(qs, b)
  {
    if qs != [] {
      var init := qs[..|qs| - 1];
      assert qs == init + [qs[|qs| - 1]];
      SameRows(init, a, b);
    }
  }

  lemma SameReviews(d: map<ReviewKey, Review>, e: map<ReviewKey, Review>, id: string, tasks: map<string, real>)
    requires ReviewsOf(d, id) == ReviewsOf(e, id)
    ensures ReviewsOf(AddTasks(d, id, tasks), id) == ReviewsOf(AddTasks(e, id, tasks), id)
  {
    forall k: ReviewKey | k.0 == id ensures (k in d <==> k in e) && (k in d ==> d[k] == e[k]) {
      assert k in ReviewsOf(d, id) <==> k in d;
      assert k in ReviewsOf(e, id) <==> k in e;
    }
  }

  lemma InputsDecide(d: Db, e: Db, id: string)
    requires SameInputs(d, e, id)
    ensures Compute(d, id) == Compute(e, id)
  {
    SameRows(d.attempts[id].questions, d.answers, e.answers);
    SameReviews(d.reviews, e.reviews, id, TasksOf(d.attempts[id].questions));
  }

  predicate SameFigures(a: Outcome, b: Outcome) {
    a.scores == b.scores && a.tally == b.tally && a.pending == b.pending
  }

  /** A stored result differs from what a calculation would give now exactly when the calculation's figures
      have changed since the last committed one read, so only if an answer or a review it read has. */
  lemma StaleResult(s: System, actions: seq<Action>, id: string)
    requires Initial(s) && id in TraceAt(s, actions, |actions|).results && id in Run(s, actions).db.attempts
    ensures var db, k := Run(s, actions).db, TraceAt(s, actions, |actions|).results[id];
      && id in db.results && Existed(s, actions, k, |actions|, id)
      && (Shows(db.results[id], Compute(db, id)) <==> SameFigures(ComputedAt(s, actions, k, id), Compute(db, id)))
      && (SameInputs(StateAt(s, actions, k).db, db, id) ==> Shows(db.results[id], Compute(db, id)))
  {
    CommittedAsRead(s, actions, id);
    var db, k := Run(s, actions).db, TraceAt(s, actions, |actions|).results[id];
    if SameInputs(StateAt(s, actions, k).db, db, id) {
      InputsDecide(StateAt(s, actions, k).db, db, id);
    }
  }

  /** The questions and the marks of an attempt never change, so what may change is its answers and its
      reviews. */
  lemma {:induction false} FixedParts(s: System, actions: seq<Action>, k: nat, m: nat, id: string)
    requires Initial(s) && k <= m <= |actions| && id in StateAt(s, actions, k).db.attempts
    ensures SameParts(StateAt(s, actions, k).db, StateAt(s, actions, m).db, id)
  {
    if k < m {
      FixedParts(s, actions, k, m - 1, id);
      StateStep(s, actions, m - 1);
      FixedStep(StateAt(s, actions, m - 1), actions[m - 1], id);
    }
  }

  lemma FixedStep(st: System, a: Action, id: string)
    requires id in st.db.attempts
    ensures SameParts(st.db, Next(st, a).db, id)
  {
    if a.Commit? {
      var p := PhaseOf(st, a.w);
      if (p.Calculated? || p.Written?) && p.id in st.db.attempts {
        CommitFixed(st.db, p, id);
      }
    }
  }

  lemma CommitFixed(db: Db, p: Phase, id: string)
    requires !p.Idle? && p.id in db.attempts && id in db.attempts
    ensures SameParts(db, CommitPhase(db, p), id)
  {
  }
}
