/** Prompt templates: an update records the state it replaces, a rollback restores a recorded state,
    a deletion deactivates. */
module PromptHistory {
  import opened Common
  import Text

  /** The fields a snapshot holds. */
  datatype Content = Content(
    systemInstruction: string, userPromptTemplate: string, variables: seq<string>,
    providerCompatibility: seq<string>, temperature: real, maxTokens: int, model: Option<string>, active: bool)

  datatype Snapshot = Snapshot(version: nat, beforeState: Content)

  datatype Template = Template(
    name: string, featureType: string, content: Content, version: nat, history: seq<Snapshot>)

  /** What a creation is given; an absent field takes a default. */
  datatype Creation = Creation(
    name: string, featureType: string, systemInstruction: string, userPromptTemplate: string, variables: seq<string>,
    providerCompatibility: Option<seq<string>>, temperature: Option<real>, maxTokens: Option<int>,
    model: Option<string>, active: Option<bool>)

  /** The settings of the environment. */
  datatype Defaults = Defaults(temperature: real, maxTokens: int)

  const PROVIDERS: seq<string> := ["mock", "openai", "gemini", "anthropic", "azure-openai", "ollama"]

  /** A partial update; an absent field is left alone. */
  datatype Patch = Patch(
    name: Option<string>, featureType: Option<string>,
    systemInstruction: Option<string>, userPromptTemplate: Option<string>,
    variables: Option<seq<string>>, providerCompatibility: Option<seq<string>>,
    temperature: Option<real>, maxTokens: Option<int>, model: Option<string>, active: Option<bool>)

  const EXCERPT: nat := 4000

  function Excerpt(s: string): string {
    Cut(s, EXCERPT)
  }

  /** Blank text counts as absent. */
  function NonBlank(value: Option<string>): Option<string> {
    if value.Some? && Text.Trim(value.value) != "" then Some(Text.Trim(value.value)) else None
  }

  /** The schema starts versions at 1. */
  function Created(c: Creation, d: Defaults): Template {
    Template(
      Text.Trim(c.name), c.featureType,
      Content(Excerpt(c.systemInstruction), Excerpt(c.userPromptTemplate), c.variables,
              c.providerCompatibility.GetOr(PROVIDERS), c.temperature.GetOr(d.temperature),
              c.maxTokens.GetOr(d.maxTokens), NonBlank(c.model), c.active.GetOr(true)),
      1, [])
  }

  /** Text fields are cut to size, and an empty one counts as absent. */
  function TextOr(value: Option<string>, existing: string): string {
    if value.Some? && value.value != "" then Excerpt(value.value) else existing
  }

  function Patched(c: Content, p: Patch): Content {
    Content(
      TextOr(p.systemInstruction, c.systemInstruction), TextOr(p.userPromptTemplate, c.userPromptTemplate),
      p.variables.GetOr(c.variables), p.providerCompatibility.GetOr(c.providerCompatibility),
      p.temperature.GetOr(c.temperature), p.maxTokens.GetOr(c.maxTokens),
      if p.model.Some? then p.model else c.model, p.active.GetOr(c.active))
  }

  function Update(t: Template, p: Patch): Template {
    Template(
      if p.name.Some? then Text.Trim(p.name.value) else t.name, p.featureType.GetOr(t.featureType),
      Patched(t.content, p), t.version + 1,
      t.history + [Snapshot(t.version, t.content)])
  }

  function Delete(t: Template): Template {
    t.(content := t.content.(active := false))
  }

  /** The first snapshot of a version. */
  function Find(history: seq<Snapshot>, version: nat): Option<Content> {
    if history == [] then None
    else if history[0].version == version then Some(history[0].beforeState)
    else Find(history[1..], version)
  }

  /** A rollback restores every field, except that a snapshot without a model keeps the present one.
      It counts as a version but records nothing. */
  function Restored(t: Template, c: Content): Template {
    t.(content := c.(model := if c.model.Some? then c.model else t.content.model), version := t.version + 1)
  }

  function Rollback(t: Template, version: nat): Template {
    match Find(t.history, version)
    case None => t
    case Some(c) => Restored(t, c)
  }

  class PromptTemplate {
    var name: string
    var featureType: string
    var content: Content
    var version: nat
    var versionHistory: seq<Snapshot>

    function State(): Template
      reads this
    {
      Template(name, featureType, content, version, versionHistory)
    }

    /** `createPromptTemplate` */
    constructor (c: Creation, d: Defaults)
      ensures State() == Created(c, d)
    {
      name, featureType := Text.Trim(c.name), c.featureType;
      content := Content(
        Excerpt(c.systemInstruction), Excerpt(c.userPromptTemplate), c.variables,
        c.providerCompatibility.GetOr(PROVIDERS),
        c.temperature.GetOr(d.temperature),
        c.maxTokens.GetOr(d.maxTokens),
        NonBlank(c.model),
        c.active.GetOr(true));
      version, versionHistory := 1, [];
    }

    method UpdatePromptTemplate(p: Patch)
      modifies this
      ensures State() == Update(old(State()), p)
    {
      versionHistory := versionHistory + [Snapshot(version, content)];
      if p.name.Some? { name := Text.Trim(p.name.value); }
      featureType := p.featureType.GetOr(featureType);
      content := Content(
        TextOr(p.systemInstruction, content.systemInstruction),
        TextOr(p.userPromptTemplate, content.userPromptTemplate),
        p.variables.GetOr(content.variables),
        p.providerCompatibility.GetOr(content.providerCompatibility),
        p.temperature.GetOr(content.temperature),
        p.maxTokens.GetOr(content.maxTokens),
        if p.model.Some? then p.model else content.model,
        p.active.GetOr(content.active));
      version := version + 1;
    }

    method DeletePromptTemplate()
      modifies this
      ensures State() == Delete(old(State()))
    {
      content := content.(active := false);
    }

    method RollbackPromptTemplate(target: nat) returns (found: bool)
      modifies this
      ensures found <==> Find(old(versionHistory), target).Some?
      ensures State() == Rollback(old(State()), target)
    {
      var i := 0;
      while i < |versionHistory| && versionHistory[i].version != target
        invariant i <= |versionHistory|
        invariant Find(versionHistory, target) == Find(versionHistory[i..], target)
      {
        assert versionHistory[i..][1..] == versionHistory[i + 1..];
        i := i + 1;
      }
      found := i < |versionHistory|;
      if found {
        var beforeState := versionHistory[i].beforeState;
        content := beforeState.(model := if beforeState.model.Some? then beforeState.model else content.model);
        version := version + 1;
      }
    }
  }

  // ---- one call at a time ----

  /** A text field after an update: the first 4000 characters of what it names, unless that is nothing. */
  ghost predicate TextGiven(value: Option<string>, before: string, after: string) {
    if value in {None, Some("")} then after == before
    else after <= value.value && |after| == if |value.value| < 4000 then |value.value| else 4000
  }

  ghost predicate Given<T(!new)>(value: Option<T>, before: T, after: T) {
    (value.None? ==> after == before) && (value.Some? ==> after == value.value)
  }

  /** An update gives each field what the patch names for it, the name trimmed and the texts cut, and leaves the
      other fields alone. It adds one version, and a record of the version and content it replaces. */
  lemma UpdateMeaning(t: Template, p: Patch)
    ensures var n, c := Update(t, p), Update(t, p).content;
      && (p.name == None ==> n.name == t.name) && (p.name.Some? ==> Text.Trimmed(p.name.value, n.name))
      && Given(p.featureType, t.featureType, n.featureType)
      && TextGiven(p.systemInstruction, t.content.systemInstruction, c.systemInstruction)
      && TextGiven(p.userPromptTemplate, t.content.userPromptTemplate, c.userPromptTemplate)
      && Given(p.variables, t.content.variables, c.variables)
      && Given(p.providerCompatibility, t.content.providerCompatibility, c.providerCompatibility)
      && Given(p.temperature, t.content.temperature, c.temperature)
      && Given(p.maxTokens, t.content.maxTokens, c.maxTokens)
      && c.model == (if p.model == None then t.content.model else p.model)
      && Given(p.active, t.content.active, c.active)
      && n.version == t.version + 1 && n.history == t.history + [Snapshot(t.version, t.content)]
  {
    if p.name.Some? { Text.TrimMeaning(p.name.value, Text.Trim(p.name.value)); }
    TextOrGiven(p.systemInstruction, t.content.systemInstruction);
    TextOrGiven(p.userPromptTemplate, t.content.userPromptTemplate);
  }

  lemma TextOrGiven(value: Option<string>, existing: string)
    ensures TextGiven(value, existing, TextOr(value, existing))
  {
    if value.Some? { assert value == Some(value.value); }
  }

  /** A creation trims the name, cuts the texts, and gives an absent field its default: every provider, the
      settings of the environment, no model, active. A blank model counts as absent. */
  lemma CreatedMeaning(c: Creation, d: Defaults)
    ensures var t, s := Created(c, d), Created(c, d).content;
      && Text.Trimmed(c.name, t.name) && t.featureType == c.featureType && t.version == 1 && t.history == []
      && TextGiven(Some(c.systemInstruction), "", s.systemInstruction)
      && TextGiven(Some(c.userPromptTemplate), "", s.userPromptTemplate) && s.variables == c.variables
      && Given(c.providerCompatibility, ["mock", "openai", "gemini", "anthropic", "azure-openai", "ollama"],
               s.providerCompatibility)
      && Given(c.temperature, d.temperature, s.temperature) && Given(c.maxTokens, d.maxTokens, s.maxTokens)
      && (s.model == None <==> c.model.None? || Text.AllSpace(c.model.value))
      && (s.model.Some? ==> Text.Trimmed(c.model.value, s.model.value))
      && Given(c.active, true, s.active)
  {
    Text.TrimMeaning(c.name, Text.Trim(c.name));
    if c.model.Some? {
      Text.TrimmedBlank(c.model.value);
      Text.TrimMeaning(c.model.value, Text.Trim(c.model.value));
    }
  }

  /** A deletion leaves the template inactive and as it was otherwise. */
  lemma DeleteMeaning(t: Template)
    ensures var n := Delete(t);
      && !n.content.active && n.content.(active := t.content.active) == t.content
      && n.name == t.name && n.featureType == t.featureType && n.version == t.version && n.history == t.history
  {
    assert t.content.(active := false).(active := t.content.active) == t.content;
  }

  // ---- runs ----

  datatype Op = OpUpdate(patch: Patch) | OpRollback(version: nat) | OpDelete

  function Step(t: Template, op: Op): Template {
    match op
    case OpUpdate(p) => Update(t, p)
    case OpRollback(v) => Rollback(t, v)
    case OpDelete => Delete(t)
  }

  /** The states of a run, the first one included. */
  function States(t: Template, ops: seq<Op>): (r: seq<Template>)
    ensures |r| == |ops| + 1
  {
    if ops == [] then [t]
    else
      var before := States(t, ops[..|ops| - 1]);
      before + [Step(before[|before| - 1], ops[|ops| - 1])]
  }

  function Last(states: seq<Template>): Template
    requires states != []
  {
    states[|states| - 1]
  }

  /** The last content a version had during a run. */
  ghost predicate LastAt(states: seq<Template>, version: nat, c: Content) {
    exists i | 0 <= i < |states| ::
      && states[i].version == version && states[i].content == c
      && forall j | i < j < |states| :: states[j].version > version
  }

  ghost predicate Ascending(history: seq<Snapshot>, bound: nat) {
    && (forall i, j | 0 <= i < j < |history| :: history[i].version < history[j].version)
    && (forall i | 0 <= i < |history| :: history[i].version < bound)
  }

  ghost predicate Faithful(states: seq<Template>) {
    && states != []
    && (forall i | 0 <= i < |states| :: states[i].version <= Last(states).version)
    && Ascending(Last(states).history, Last(states).version)
    && (forall k | 0 <= k < |Last(states).history| ::
          LastAt(states, Last(states).history[k].version, Last(states).history[k].beforeState))
  }

  lemma LastAtExtends(states: seq<Template>, next: Template, version: nat, c: Content)
    requires LastAt(states, version, c) && next.version > version
    ensures LastAt(states + [next], version, c)
  {
    var i :| 0 <= i < |states| && states[i].version == version && states[i].content == c
      && forall j | i < j < |states| :: states[j].version > version;
    var more := states + [next];
    assert more[i] == states[i];
    forall j | i < j < |more| ensures more[j].version > version {
      if j < |states| { assert more[j] == states[j]; }
    }
  }

  lemma LastAtNow(states: seq<Template>, next: Template)
    requires states != [] && next.version > Last(states).version
    ensures LastAt(states + [next], Last(states).version, Last(states).content)
  {
    var more, i := states + [next], |states| - 1;
    assert more[i] == states[i] && forall j | i < j < |more| :: more[j] == next;
  }

  lemma FaithfulStep(states: seq<Template>, op: Op)
    requires Faithful(states)
    ensures Faithful(states + [Step(Last(states), op)])
  {
    var t := Last(states);
    var n := Step(t, op);
    var more := states + [n];
    assert t.version <= n.version && Last(more) == n;
    forall k | 0 <= k < |n.history| ensures LastAt(more, n.history[k].version, n.history[k].beforeState) {
      if k < |t.history| {
        assert n.history[k] == t.history[k];
        LastAtExtends(states, n, n.history[k].version, n.history[k].beforeState);
      } else {
        LastAtNow(states, n);
      }
    }
  }

  /** Over any run the recorded versions ascend, below the current one, and each snapshot is the
      content the template last had at that version. */
  lemma {:induction false} HistoryIsFaithful(t: Template, ops: seq<Op>)
    requires t.history == []
    ensures Faithful(States(t, ops))
  {
    if ops == [] {
      assert Last([t]) == t;
    } else {
      HistoryIsFaithful(t, ops[..|ops| - 1]);
      FaithfulStep(States(t, ops[..|ops| - 1]), ops[|ops| - 1]);
    }
  }

  lemma {:induction false} FindMeaning(history: seq<Snapshot>, version: nat, bound: nat)
    requires Ascending(history, bound)
    ensures Find(history, version).Some? <==> exists k | 0 <= k < |history| :: history[k].version == version
    ensures forall k | 0 <= k < |history|
      && history[k].version == version :: Find(history, version) == Some(history[k].beforeState)
  {
    if history != [] {
      var rest := history[1..];
      FindMeaning(rest, version, bound);
      forall k | 0 <= k < |history| && history[k].version == version
        ensures Find(history, version) == Some(history[k].beforeState)
      {
        if k > 0 { assert rest[k - 1] == history[k]; }
      }
      if history[0].version != version && Find(history, version).Some? {
        var k :| 0 <= k < |rest| && rest[k].version == version;
        assert history[k + 1].version == version;
      }
    }
  }

  /** Rolling back to a recorded version brings back the content the template last had there, except
      for a missing model; the content is exactly that one when the snapshot names a model or the
      template has none. */
  lemma RollbackRestores(t: Template, ops: seq<Op>, version: nat)
    requires t.history == [] && Find(Last(States(t, ops)).history, version).Some?
    ensures var s := Last(States(t, ops));
      var c := Find(s.history, version).value;
      && LastAt(States(t, ops), version, c)
      && Rollback(s, version).content.(model := c.model) == c
      && Rollback(s, version).content.model == (if c.model.Some? then c.model else s.content.model)
      && (Rollback(s, version).content == c <==> c.model.Some? || s.content.model.None?)
      && Rollback(s, version).version == s.version + 1 && Rollback(s, version).history == s.history
  {
    HistoryIsFaithful(t, ops);
    var s := Last(States(t, ops));
    FindMeaning(s.history, version, s.version);
  }

  /** An update undone by a rollback to the version before it leaves the old content, except that a
      model named for the first time by the update stays. */
  lemma UpdateThenRollback(t: Template, p: Patch)
    requires Ascending(t.history, t.version)
    ensures Rollback(Update(t, p), t.version).content == t.content <==> t.content.model.Some? || p.model.None?
  {
    var u := Update(t, p);
    assert Ascending(u.history, u.version);
    FindMeaning(u.history, t.version, u.version);
    assert u.history[|t.history|] == Snapshot(t.version, t.content);
  }

  /** The update that names every field of a content. */
  function PatchOf(c: Content): Patch {
    Patch(None, None, Some(c.systemInstruction), Some(c.userPromptTemplate), Some(c.variables),
          Some(c.providerCompatibility), Some(c.temperature), Some(c.maxTokens), c.model, Some(c.active))
  }

  predicate TextArrives(text: string, existing: string) {
    |text| <= EXCERPT && (text != "" || existing == "")
  }

  /** An update that names every field of a content brings that content about exactly when its texts fit
      and no text or model would have to be emptied. */
  lemma UpdateSetsContent(t: Template, c: Content)
    ensures Update(t, PatchOf(c)).content == c <==>
      && TextArrives(c.systemInstruction, t.content.systemInstruction)
      && TextArrives(c.userPromptTemplate, t.content.userPromptTemplate)
      && (c.model.Some? || t.content.model.None?)
  {
    TextOrMeaning(c.systemInstruction, t.content.systemInstruction);
    TextOrMeaning(c.userPromptTemplate, t.content.userPromptTemplate);
  }

  lemma TextOrMeaning(text: string, existing: string)
    ensures TextOr(Some(text), existing) == text <==> TextArrives(text, existing)
  {
  }

  /** Repeating an update changes the content no further, and an update that names nothing keeps it. */
  lemma UpdateAgain(t: Template, p: Patch)
    ensures Update(Update(t, p), p).content == Update(t, p).content
    ensures Update(t, Patch(None, None, None, None, None, None, None, None, None, None)).content == t.content
  {
  }

  /** The update that sends what a creation was given. */
  function Resent(c: Creation): Patch {
    Patch(Some(c.name), Some(c.featureType), Some(c.systemInstruction), Some(c.userPromptTemplate), Some(c.variables),
          c.providerCompatibility, c.temperature, c.maxTokens, c.model, c.active)
  }

  /** Sending the same data again changes a created template exactly when its model is blank or has blanks
      around it: a creation trims it and an update does not. */
  lemma CreatedThenUpdated(c: Creation, d: Defaults)
    ensures var t := Created(c, d);
      Update(t, Resent(c)) == t.(version := 2, history := [Snapshot(1, t.content)]) <==>
        c.model.None? || (c.model.value != "" && Text.Trim(c.model.value) == c.model.value)
  {
    var t := Created(c, d);
    assert t.history + [Snapshot(1, t.content)] == [Snapshot(1, t.content)];
    assert Update(t, Resent(c)).content == t.content.(model := if c.model.Some? then c.model else t.content.model);
  }

  ghost predicate Recorded(t: Template, version: nat) {
    exists k | 0 <= k < |t.history| :: t.history[k].version == version
  }

  lemma RecordedStep(t: Template, op: Op, v: nat)
    ensures Recorded(Step(t, op), v) <==> Recorded(t, v) || (op.OpUpdate? && v == t.version)
  {
    var n := Step(t, op);
    if k :| 0 <= k < |t.history| && t.history[k].version == v {
      assert n.history[k] == t.history[k];
    }
    if op.OpUpdate? && v == t.version {
      assert n.history[|t.history|].version == v;
    }
  }

  /** A version can be rolled back to exactly when the run left it by an update: versions left by a
      rollback are lost. */
  lemma {:induction false} RecordedExactly(t: Template, ops: seq<Op>, version: nat)
    requires t.history == []
    ensures Recorded(Last(States(t, ops)), version) <==>
      exists i | 0 <= i < |ops| :: ops[i].OpUpdate? && States(t, ops)[i].version == version
  {
    if ops != [] {
      var n := |ops| - 1;
      var before := States(t, ops[..n]);
      RecordedExactly(t, ops[..n], version);
      RecordedStep(Last(before), ops[n], version);
      assert forall i | 0 <= i < n :: ops[..n][i] == ops[i] && before[i] == States(t, ops)[i];
      if i :| 0 <= i < n && ops[..n][i].OpUpdate? && before[i].version == version {
        assert ops[i].OpUpdate? && States(t, ops)[i].version == version;
      }
      if ops[n].OpUpdate? && version == Last(before).version {
        assert States(t, ops)[n] == Last(before);
      }
      if i :| 0 <= i < |ops| && ops[i].OpUpdate? && States(t, ops)[i].version == version {
        if i < n { assert ops[..n][i].OpUpdate? && before[i].version == version; }
      }
    }
  }
}
