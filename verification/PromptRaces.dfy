/** Updates and rollbacks of one prompt template that overlap. Each reads the template and writes it later;
    an update writes the history it has read, with the state it has read as a new snapshot. */
module PromptRaces {
  import opened Common
  import opened PromptHistory
  import Text

  /** The template, and what each call under way has read. */
  datatype System = System(t: Template, calls: map<string, Template>)

  datatype Action =
    | ReadTemplate(c: string)
    | WriteUpdate(c: string, patch: Patch)
    | WriteRollback(c: string, version: nat)
    | GiveUp(c: string)
    | Deactivate

  /** The fields of an update go to the row as it is now, the history to the one that was read. */
  function Updated(t: Template, read: Template, p: Patch): Template {
    Update(t, p).(history := read.history + [Snapshot(read.version, read.content)])
  }

  /** A rollback writes what it has read, except for history and version. */
  function RolledBack(t: Template, read: Template, version: nat): Template {
    match Find(read.history, version)
    case None => t
    case Some(c) =>
      t.(content := c.(model := if c.model.Some? then c.model else read.content.model), version := t.version + 1)
  }

  function Next(s: System, a: Action): System {
    match a
    case ReadTemplate(c) => if c in s.calls then s else s.(calls := s.calls[c := s.t])
    case WriteUpdate(c, p) => if c in s.calls then System(Updated(s.t, s.calls[c], p), s.calls - {c}) else s
    case WriteRollback(c, v) => if c in s.calls then System(RolledBack(s.t, s.calls[c], v), s.calls - {c}) else s
    case GiveUp(c) => s.(calls := s.calls - {c})
    case Deactivate => s.(t := Delete(s.t))
  }

  function Run(s: System, actions: seq<Action>): System {
    if actions == [] then s else Next(Run(s, actions[..|actions| - 1]), actions[|actions| - 1])
  }

  /** A call that nothing interrupts is the sequential one. */
  lemma UninterruptedCall(s: System, c: string, p: Patch, version: nat)
    requires c !in s.calls
    ensures Next(Next(s, ReadTemplate(c)), WriteUpdate(c, p)) == System(Update(s.t, p), s.calls)
    ensures Next(Next(s, ReadTemplate(c)), WriteRollback(c, version)) == System(Rollback(s.t, version), s.calls)
  {
    assert s.calls[c := s.t] - {c} == s.calls;
  }

  /** A rollback that writes later puts the content it has read in the history, with the model it has read if the
      snapshot has none, whatever others have written meanwhile; it adds one version to the present one and keeps
      name, feature type and history. */
  lemma LateRollback(s: System, c: string, version: nat)
    requires c in s.calls && Find(s.calls[c].history, version).Some?
    ensures var n, snapshot := Next(s, WriteRollback(c, version)), Find(s.calls[c].history, version).value;
      && n.calls == s.calls - {c} && n.t == s.t.(content := n.t.content, version := s.t.version + 1)
      && n.t.content == snapshot.(model := n.t.content.model)
      && n.t.content.model == (if snapshot.model == None then s.calls[c].content.model else snapshot.model)
  {
  }

  /** A deletion deactivates at once, and a call that gives up writes nothing. */
  lemma OtherSteps(s: System, c: string)
    ensures Next(s, Deactivate) == System(s.t.(content := s.t.content.(active := false)), s.calls)
    ensures Next(s, GiveUp(c)).t == s.t && Next(s, GiveUp(c)).calls.Keys == s.calls.Keys - {c}
  {
  }

  ghost predicate Inv(s: System) {
    && Ascending(s.t.history, s.t.version)
    && forall c | c in s.calls ::
         && Ascending(s.calls[c].history, s.calls[c].version) && s.calls[c].version <= s.t.version
         && (s.calls[c].version == s.t.version ==> s.calls[c].history == s.t.history)
  }

  lemma NextInv(s: System, a: Action)
    requires Inv(s)
    ensures Inv(Next(s, a))
  {
    if a.WriteUpdate? && a.c in s.calls {
      var read := s.calls[a.c];
      forall i, j | 0 <= i < j <= |read.history|
        ensures Next(s, a).t.history[i].version < Next(s, a).t.history[j].version
      {
      }
    }
  }

  predicate Writes(s: System, a: Action) {
    a.WriteUpdate? && a.c in s.calls
  }

  /** The versions of the template that updates have left. */
  function Left(s: System, actions: seq<Action>): set<nat> {
    if actions == [] then {}
    else
      var n := |actions| - 1;
      Left(s, actions[..n]) + if Writes(Run(s, actions[..n]), actions[n]) then {Run(s, actions[..n]).t.version} else {}
  }

  /** An update writes the version it has read: no other call has written in between. */
  predicate UpToDate(s: System, a: Action) {
    Writes(s, a) ==> s.calls[a.c].version == s.t.version
  }

  predicate UpToDateRun(s: System, actions: seq<Action>) {
    actions == [] || (UpToDateRun(s, actions[..|actions| - 1])
      && UpToDate(Run(s, actions[..|actions| - 1]), actions[|actions| - 1]))
  }

  /** The versions of the snapshots. */
  function Versions(t: Template): set<nat> {
    set k | 0 <= k < |t.history| :: t.history[k].version
  }

  lemma VersionsAppend(history: seq<Snapshot>, last: Snapshot, t: Template, u: Template)
    requires t.history == history && u.history == history + [last]
    ensures Versions(u) == Versions(t) + {last.version}
  {
    assert u.history[|history|] == last;
    assert forall k | 0 <= k < |history| :: u.history[k] == history[k];
  }

  /** What a step makes of the recorded versions. */
  lemma VersionsStep(s: System, a: Action)
    requires Inv(s)
    ensures Versions(Next(s, a).t) ==
      if Writes(s, a) then Versions(s.calls[a.c]) + {s.calls[a.c].version} else Versions(s.t)
  {
    if Writes(s, a) {
      var read := s.calls[a.c];
      VersionsAppend(read.history, Snapshot(read.version, read.content), read, Next(s, a).t);
    }
  }

  /** Over every interleaving, every version that an update has left can be rolled back to if and only if no
      update writes after another call has written what it had read. */
  lemma {:induction false} RecordedAmongUpdates(s: System, actions: seq<Action>)
    requires Inv(s)
    ensures Inv(Run(s, actions)) && forall v | v in Left(s, actions) :: v < Run(s, actions).t.version
    ensures Left(s, actions) <= Versions(Run(s, actions).t) <==> UpToDateRun(s, actions)
  {
    if actions != [] {
      var before, a := Run(s, actions[..|actions| - 1]), actions[|actions| - 1];
      RecordedAmongUpdates(s, actions[..|actions| - 1]);
      NextInv(before, a);
      VersionsStep(before, a);
      if Writes(before, a) {
        var now := before.t.version;
        assert now in Left(s, actions);
        assert forall v | v in Versions(before.t) :: v < now;
        if UpToDate(before, a) {
          assert Versions(before.calls[a.c]) == Versions(before.t);
        } else {
          assert now !in Versions(Run(s, actions).t);
        }
      }
    }
  }

  /** Two updates of one version: the second forgets the version between them. */
  lemma OverlappingUpdates(t: Template, p: Patch, q: Patch, c: string, d: string)
    requires Ascending(t.history, t.version) && c != d
    ensures var read := Next(Next(System(t, map[]), ReadTemplate(c)), ReadTemplate(d));
      var n := Next(Next(read, WriteUpdate(c, p)), WriteUpdate(d, q)).t;
      n.version == t.version + 2 && Find(n.history, t.version + 1) == None
  {
    var history := t.history + [Snapshot(t.version, t.content)];
    assert Ascending(history, t.version + 1);
    FindMeaning(history, t.version + 1, t.version + 1);
  }
}
