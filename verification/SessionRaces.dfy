/** Calls of `refresh` that interleave. A call reads the presented token, then creates the next session,
    then revokes the token it read; anything may happen between its steps, and it may fail after any of
    them. Logins, logouts and password resets are one step each. */
module SessionRaces {
  import opened Common
  import opened Sessions

  /** How far a call has come, with the token it presented. */
  datatype Phase = Idle | HasRead(hash: string) | HasCreated(hash: string, next: string)

  datatype System = System(store: Store, calls: map<string, Phase>)

  datatype Action =
    | ReadToken(c: string, hash: string, now: int)
    | CreateNext(c: string, now: int, next: string)
    | RevokeOld(c: string, now: int)
    | GiveUp(c: string)
    | Elsewhere(op: Op)

  function PhaseOf(s: System, c: string): Phase {
    if c in s.calls then s.calls[c] else Idle
  }

  /** The call has read the token and not yet revoked it. */
  predicate Holds(p: Phase, hash: string) {
    !p.Idle? && p.hash == hash
  }

  predicate Reads(s: System, a: Action) {
    a.ReadToken? && PhaseOf(s, a.c).Idle? && Accepts(s.store, a.hash, a.now)
  }

  function Next(s: System, a: Action): System {
    match a
    case ReadToken(c, hash, _) =>
      if Reads(s, a) then s.(calls := s.calls[c := HasRead(hash)]) else s
    case CreateNext(c, now, next) =>
      var p := PhaseOf(s, c);
      if p.HasRead? && p.hash in s.store.tokens && next !in s.store.tokens
      then
        System(CreateSession(s.store, s.store.tokens[p.hash].userId, now, next),
               s.calls[c := HasCreated(p.hash, next)])
      else s
    case RevokeOld(c, now) =>
      var p := PhaseOf(s, c);
      if p.HasCreated? && p.hash in s.store.tokens then
        var read := s.store.tokens[p.hash].(revokedAt := Some(now), replacedBy := Some(p.next));
        System(s.store.(tokens := s.store.tokens[p.hash := read]), s.calls[c := Idle])
      else s
    case GiveUp(c) => s.(calls := s.calls[c := Idle])
    case Elsewhere(op) => if !op.OpRefresh? && Allowed(s.store, op) then s.(store := Step(s.store, op)) else s
  }

  function Run(s: System, actions: seq<Action>): System {
    if actions == [] then s else Next(Run(s, actions[..|actions| - 1]), actions[|actions| - 1])
  }

  ghost predicate Inv(s: System) {
    forall c | c in s.calls && !s.calls[c].Idle? :: s.calls[c].hash in s.store.tokens
  }

  ghost predicate NobodyCalls(s: System) {
    forall c | c in s.calls :: s.calls[c].Idle?
  }

  lemma NextInv(s: System, a: Action)
    requires Inv(s)
    ensures Inv(Next(s, a))
  {
  }

  lemma {:induction false} RunInv(s: System, actions: seq<Action>)
    requires Inv(s)
    ensures Inv(Run(s, actions))
  {
    if actions != [] {
      RunInv(s, actions[..|actions| - 1]);
      NextInv(Run(s, actions[..|actions| - 1]), actions[|actions| - 1]);
    }
  }

  predicate OwnedBy(s: Store, hash: string, userId: string) {
    hash in s.tokens && s.tokens[hash].userId == userId
  }

  // ---- one call alone ----

  /** The three steps of a call that nothing interrupts are the refresh of the sequential service. */
  lemma UninterruptedRefresh(s: System, c: string, hash: string, now: int, next: string)
    requires PhaseOf(s, c).Idle? && next !in s.store.tokens
    ensures Next(Next(Next(s, ReadToken(c, hash, now)), CreateNext(c, now, next)), RevokeOld(c, now)).store
      == Refresh(s.store, hash, now, next)
  {
    if Accepts(s.store, hash, now) {
      var one := Next(s, ReadToken(c, hash, now));
      assert one == s.(calls := s.calls[c := HasRead(hash)]);
      var two := Next(one, CreateNext(c, now, next));
      assert PhaseOf(two, c) == HasCreated(hash, next);
    }
  }

  // ---- the number of sessions ----

  /** A user's sessions, expiry aside. */
  function Open(s: Store, userId: string): set<string> {
    set t | t in s.tokens && s.tokens[t].userId == userId && s.tokens[t].revokedAt.None?
  }

  /** The calls that have created a session of the user and not yet revoked the token they read. */
  function InFlight(s: System, userId: string): set<string> {
    set c | c in s.calls && s.calls[c].HasCreated? && OwnedBy(s.store, s.calls[c].hash, userId)
  }

  /** The step revokes a token of the user that is revoked already. */
  predicate Redundant(s: System, a: Action, userId: string) {
    a.RevokeOld? && PhaseOf(s, a.c).HasCreated? && OwnedBy(s.store, PhaseOf(s, a.c).hash, userId)
    && s.store.tokens[PhaseOf(s, a.c).hash].revokedAt.Some?
  }

  /** A call gives up between creating the user's next session and revoking the token it read. */
  predicate Abandons(s: System, a: Action, userId: string) {
    a.GiveUp? && a.c in InFlight(s, userId)
  }

  function One(b: bool): nat {
    if b then 1 else 0
  }

  function TotalRedundant(s: System, actions: seq<Action>, userId: string): nat {
    if actions == [] then 0
    else
      var n := |actions| - 1;
      TotalRedundant(s, actions[..n], userId) + One(Redundant(Run(s, actions[..n]), actions[n], userId))
  }

  function TotalAbandoned(s: System, actions: seq<Action>, userId: string): nat {
    if actions == [] then 0
    else
      var n := |actions| - 1;
      TotalAbandoned(s, actions[..n], userId) + One(Abandons(Run(s, actions[..n]), actions[n], userId))
  }

  lemma CreateOpens(s: Store, owner: string, now: int, next: string, userId: string)
    requires next !in s.tokens
    ensures Open(CreateSession(s, owner, now, next), userId) == Open(s, userId) + if owner == userId then {next} else {}
    ensures next !in Open(s, userId)
  {
  }

  lemma CreateFlies(s: System, c: string, now: int, next: string, userId: string)
    requires Inv(s) && PhaseOf(s, c).HasRead? && next !in s.store.tokens
    ensures InFlight(Next(s, CreateNext(c, now, next)), userId)
      == InFlight(s, userId) + if OwnedBy(s.store, s.calls[c].hash, userId) then {c} else {}
    ensures c !in InFlight(s, userId)
  {
  }

  lemma CreateCount(s: System, c: string, now: int, next: string, userId: string)
    requires Inv(s) && PhaseOf(s, c).HasRead? && next !in s.store.tokens
    ensures var n := Next(s, CreateNext(c, now, next));
      |Open(n.store, userId)| - |InFlight(n, userId)| == |Open(s.store, userId)| - |InFlight(s, userId)|
  {
    CreateOpens(s.store, s.store.tokens[s.calls[c].hash].userId, now, next, userId);
    CreateFlies(s, c, now, next, userId);
  }

  lemma RevokeCount(s: System, c: string, now: int, userId: string)
    requires Inv(s) && PhaseOf(s, c).HasCreated?
    ensures var n := Next(s, RevokeOld(c, now));
      |Open(n.store, userId)| - |InFlight(n, userId)|
      == |Open(s.store, userId)| - |InFlight(s, userId)| + One(Redundant(s, RevokeOld(c, now), userId))
  {
    var hash := s.calls[c].hash;
    RevokeOpen(s, c, now, userId);
    RevokeLands(s, c, now, userId);
    if OwnedBy(s.store, hash, userId) {
      assert hash in Open(s.store, userId) <==> !Redundant(s, RevokeOld(c, now), userId);
    }
  }

  lemma RevokeOpen(s: System, c: string, now: int, userId: string)
    requires Inv(s) && PhaseOf(s, c).HasCreated?
    ensures var n, hash := Next(s, RevokeOld(c, now)), s.calls[c].hash;
      Open(n.store, userId) == if OwnedBy(s.store, hash, userId) then Open(s.store, userId) - {hash}
        else Open(s.store, userId)
  {
  }

  lemma RevokeLands(s: System, c: string, now: int, userId: string)
    requires Inv(s) && PhaseOf(s, c).HasCreated?
    ensures var n, hash := Next(s, RevokeOld(c, now)), s.calls[c].hash;
      if OwnedBy(s.store, hash, userId) then
        c in InFlight(s, userId) && InFlight(n, userId) == InFlight(s, userId) - {c}
      else InFlight(n, userId) == InFlight(s, userId)
  {
  }

  lemma GiveUpCount(s: System, c: string, userId: string)
    requires Inv(s)
    ensures var n := Next(s, GiveUp(c));
      |Open(n.store, userId)| - |InFlight(n, userId)|
      == |Open(s.store, userId)| - |InFlight(s, userId)| + One(Abandons(s, GiveUp(c), userId))
  {
    assert InFlight(Next(s, GiveUp(c)), userId) == InFlight(s, userId) - {c};
  }

  lemma CountStep(s: System, a: Action, userId: string)
    requires Inv(s) && !a.Elsewhere?
    ensures var n := Next(s, a);
      |Open(n.store, userId)| - |InFlight(n, userId)|
      == |Open(s.store, userId)| - |InFlight(s, userId)| + One(Redundant(s, a, userId)) + One(Abandons(s, a, userId))
  {
    match a
    case ReadToken(c, hash, now) =>
      assert InFlight(Next(s, a), userId) == InFlight(s, userId);
    case CreateNext(c, now, next) =>
      if Next(s, a) != s { CreateCount(s, c, now, next, userId); }
    case RevokeOld(c, now) =>
      if Next(s, a) != s { RevokeCount(s, c, now, userId); }
    case GiveUp(c) => GiveUpCount(s, c, userId);
  }

  /** Calls of `refresh` and nothing else. */
  predicate RefreshesOnly(actions: seq<Action>) {
    forall i | 0 <= i < |actions| :: !actions[i].Elsewhere?
  }

  /** While only refreshes go on, a user's sessions grow by one for every call between its creation and
      its revocation, for every call that gave up there, and for every revocation that came too late. */
  lemma {:induction false} SessionAccounting(s: System, actions: seq<Action>, userId: string)
    requires NobodyCalls(s) && RefreshesOnly(actions)
    ensures Inv(Run(s, actions))
    ensures |Open(Run(s, actions).store, userId)| == |Open(s.store, userId)| + |InFlight(Run(s, actions), userId)|
      + TotalRedundant(s, actions, userId) + TotalAbandoned(s, actions, userId)
  {
    if actions == [] {
      assert InFlight(s, userId) == {};
    } else {
      var n := |actions| - 1;
      SessionAccounting(s, actions[..n], userId);
      NextInv(Run(s, actions[..n]), actions[n]);
      CountStep(Run(s, actions[..n]), actions[n], userId);
    }
  }

  // ---- calls that overlap ----

  /** The call reads a token of the user that another call has read and not yet revoked. */
  ghost predicate ReadsBetween(s: System, a: Action, userId: string) {
    Reads(s, a) && OwnedBy(s.store, a.hash, userId) && exists d | d in s.calls :: Holds(s.calls[d], a.hash)
  }

  ghost predicate OverlapAt(s: System, actions: seq<Action>, i: nat, userId: string)
    requires i < |actions|
  {
    ReadsBetween(Run(s, actions[..i]), actions[i], userId)
  }

  ghost predicate Overlap(s: System, actions: seq<Action>, userId: string) {
    exists i | 0 <= i < |actions| :: OverlapAt(s, actions, i, userId)
  }

  lemma OverlapAtPrefix(s: System, actions: seq<Action>, n: nat, i: nat, userId: string)
    requires i < n <= |actions|
    ensures OverlapAt(s, actions[..n], i, userId) == OverlapAt(s, actions, i, userId)
  {
    assert actions[..n][..i] == actions[..i];
  }

  lemma OverlapStep(s: System, actions: seq<Action>, userId: string)
    requires actions != []
    ensures var n := |actions| - 1;
      Overlap(s, actions, userId) <==> Overlap(s, actions[..n], userId) || OverlapAt(s, actions, n, userId)
  {
    var n := |actions| - 1;
    forall i | 0 <= i < n ensures OverlapAt(s, actions[..n], i, userId) == OverlapAt(s, actions, i, userId) {
      OverlapAtPrefix(s, actions, n, i, userId);
    }
    if i :| 0 <= i < |actions[..n]| && OverlapAt(s, actions[..n], i, userId) {
      assert OverlapAt(s, actions, i, userId);
    }
    if i :| 0 <= i < n && OverlapAt(s, actions, i, userId) {
      assert OverlapAt(s, actions[..n], i, userId);
    }
  }

  predicate HoldsOwned(s: System, c: string, hash: string, userId: string) {
    c in s.calls && Holds(s.calls[c], hash) && OwnedBy(s.store, hash, userId)
  }

  /** Two calls hold one token of the user, or one holds a revoked one. */
  ghost predicate Clash(s: System, userId: string) {
    || (exists c, d, hash :: c != d && HoldsOwned(s, c, hash, userId) && HoldsOwned(s, d, hash, userId))
    || (exists c, hash :: HoldsOwned(s, c, hash, userId) && s.store.tokens[hash].revokedAt.Some?)
  }

  lemma ClashArises(s: System, a: Action, userId: string)
    requires Inv(s) && !a.Elsewhere?
    requires Redundant(s, a, userId) || Clash(Next(s, a), userId)
    ensures Clash(s, userId) || ReadsBetween(s, a, userId)
  {
    var n := Next(s, a);
    if Redundant(s, a, userId) {
      assert HoldsOwned(s, a.c, PhaseOf(s, a.c).hash, userId);
    } else if c, d, hash :| c != d && HoldsOwned(n, c, hash, userId) && HoldsOwned(n, d, hash, userId) {
      if !HoldsOwned(s, c, hash, userId) {
        assert Reads(s, a) && HoldsOwned(s, d, hash, userId);
      } else if !HoldsOwned(s, d, hash, userId) {
        assert Reads(s, a) && HoldsOwned(s, c, hash, userId);
      }
    } else {
      var c, hash :| HoldsOwned(n, c, hash, userId) && n.store.tokens[hash].revokedAt.Some?;
      if HoldsOwned(s, c, hash, userId) && s.store.tokens[hash].revokedAt.None? {
        assert a.RevokeOld? && a.c != c && HoldsOwned(s, a.c, hash, userId);
      }
    }
  }

  lemma ClashStays(s: System, a: Action, userId: string)
    requires Inv(s) && !a.Elsewhere? && !a.GiveUp?
    requires Clash(s, userId) || ReadsBetween(s, a, userId)
    ensures Redundant(s, a, userId) || Clash(Next(s, a), userId)
  {
    var n := Next(s, a);
    if ReadsBetween(s, a, userId) {
      var d :| d in s.calls && Holds(s.calls[d], a.hash);
      assert HoldsOwned(n, a.c, a.hash, userId) && HoldsOwned(n, d, a.hash, userId);
    } else if c, d, hash :| c != d && HoldsOwned(s, c, hash, userId) && HoldsOwned(s, d, hash, userId) {
      assert HoldsOwned(n, c, hash, userId) || (a.RevokeOld? && a.c == c);
      assert HoldsOwned(n, d, hash, userId) || (a.RevokeOld? && a.c == d);
      if !HoldsOwned(n, c, hash, userId) {
        assert HoldsOwned(n, d, hash, userId) && n.store.tokens[hash].revokedAt.Some?;
      } else if !HoldsOwned(n, d, hash, userId) {
        assert HoldsOwned(n, c, hash, userId) && n.store.tokens[hash].revokedAt.Some?;
      }
    } else {
      var c, hash :| HoldsOwned(s, c, hash, userId) && s.store.tokens[hash].revokedAt.Some?;
      if !Redundant(s, a, userId) {
        assert HoldsOwned(n, c, hash, userId) && n.store.tokens[hash].revokedAt.Some?;
      }
    }
  }

  lemma {:induction false} OverlapShows(s: System, actions: seq<Action>, userId: string)
    requires NobodyCalls(s) && RefreshesOnly(actions) && NobodyGivesUp(actions)
    ensures Overlap(s, actions, userId) <==>
      TotalRedundant(s, actions, userId) > 0 || Clash(Run(s, actions), userId)
  {
    if actions != [] {
      var n := |actions| - 1;
      OverlapShows(s, actions[..n], userId);
      OverlapStep(s, actions, userId);
      SessionAccounting(s, actions[..n], userId);
      if Redundant(Run(s, actions[..n]), actions[n], userId) || Clash(Run(s, actions), userId) {
        ClashArises(Run(s, actions[..n]), actions[n], userId);
      }
      if Clash(Run(s, actions[..n]), userId) || ReadsBetween(Run(s, actions[..n]), actions[n], userId) {
        ClashStays(Run(s, actions[..n]), actions[n], userId);
      }
    }
  }

  predicate NobodyGivesUp(actions: seq<Action>) {
    forall i | 0 <= i < |actions| :: !actions[i].GiveUp?
  }

  /** Over every interleaving of calls of `refresh` that all finish, whatever tokens they present, a user
      keeps the number of sessions if and only if no call reads a token of the user between another
      call's read and revocation of it; otherwise the user ends up with more. */
  lemma SessionsKept(s: System, actions: seq<Action>, userId: string)
    requires NobodyCalls(s) && RefreshesOnly(actions) && NobodyGivesUp(actions) && NobodyCalls(Run(s, actions))
    ensures |Open(Run(s, actions).store, userId)| >= |Open(s.store, userId)|
    ensures |Open(Run(s, actions).store, userId)| == |Open(s.store, userId)| <==> !Overlap(s, actions, userId)
  {
    SessionAccounting(s, actions, userId);
    OverlapShows(s, actions, userId);
    NoneAbandoned(s, actions, userId);
    assert InFlight(Run(s, actions), userId) == {};
  }

  lemma {:induction false} NoneAbandoned(s: System, actions: seq<Action>, userId: string)
    requires NobodyGivesUp(actions)
    ensures TotalAbandoned(s, actions, userId) == 0
  {
    if actions != [] { NoneAbandoned(s, actions[..|actions| - 1], userId); }
  }

  lemma OpenIsLive(s: Store, userId: string, now: int)
    requires forall t | t in Open(s, userId) :: s.tokens[t].expiresAt > now
    ensures Sessions.Sessions(s, userId, now) == Open(s, userId)
  {
  }

  /** At a time when none of the user's sessions has run out, these are the sessions that are accepted, and
      their number is kept under the same condition. */
  lemma LiveSessionsKept(s: System, actions: seq<Action>, userId: string, now: int)
    requires NobodyCalls(s) && RefreshesOnly(actions) && NobodyGivesUp(actions) && NobodyCalls(Run(s, actions))
    requires forall t | t in Open(s.store, userId) :: s.store.tokens[t].expiresAt > now
    requires forall t | t in Open(Run(s, actions).store, userId) :: Run(s, actions).store.tokens[t].expiresAt > now
    ensures |Sessions.Sessions(Run(s, actions).store, userId, now)| == |Sessions.Sessions(s.store, userId, now)|
      <==> !Overlap(s, actions, userId)
  {
    SessionsKept(s, actions, userId);
    OpenIsLive(s.store, userId, now);
    OpenIsLive(Run(s, actions).store, userId, now);
  }

  // ---- a run that forks ----

  /** Two calls that both read the token before either revokes it. */
  function Fork(c: string, d: string, hash: string, now: int, first: string, second: string): seq<Action> {
    [ReadToken(c, hash, now), ReadToken(d, hash, now), CreateNext(c, now, first), CreateNext(d, now, second),
     RevokeOld(c, now), RevokeOld(d, now)]
  }

  lemma RunNext(s: System, actions: seq<Action>, i: nat)
    requires i < |actions|
    ensures Run(s, actions[..i + 1]) == Next(Run(s, actions[..i]), actions[i])
  {
    assert actions[..i + 1][..i] == actions[..i];
  }

  /** The tables after such a run: two sessions for the one token. */
  function Forked(s: Store, hash: string, now: int, first: string, second: string): Store
    requires hash in s.tokens
  {
    var userId := s.tokens[hash].userId;
    var created := CreateSession(CreateSession(s, userId, now, first), userId, now, second);
    created.(tokens := created.tokens[hash := s.tokens[hash].(revokedAt := Some(now), replacedBy := Some(second))])
  }

  lemma ForkReads(s: System, c: string, d: string, hash: string, now: int)
    requires NobodyCalls(s) && c != d && Accepts(s.store, hash, now)
    ensures var n := Next(Next(s, ReadToken(c, hash, now)), ReadToken(d, hash, now));
      PhaseOf(n, c) == HasRead(hash) && PhaseOf(n, d) == HasRead(hash) && n.store == s.store
  {
  }

  lemma ForkCreates(s: System, c: string, d: string, hash: string, now: int, first: string, second: string)
    requires c != d && hash in s.store.tokens && PhaseOf(s, c) == HasRead(hash) && PhaseOf(s, d) == HasRead(hash)
    requires first !in s.store.tokens && second !in s.store.tokens && first != second
    ensures var n := Next(Next(s, CreateNext(c, now, first)), CreateNext(d, now, second));
      var userId := s.store.tokens[hash].userId;
      && PhaseOf(n, c) == HasCreated(hash, first) && PhaseOf(n, d) == HasCreated(hash, second)
      && n.store == CreateSession(CreateSession(s.store, userId, now, first), userId, now, second)
  {
  }

  lemma ForkSteps(s: System, c: string, d: string, hash: string, now: int, first: string, second: string)
    requires NobodyCalls(s) && c != d && Accepts(s.store, hash, now)
    requires first !in s.store.tokens && second !in s.store.tokens && first != second
    ensures var read := Next(Next(s, ReadToken(c, hash, now)), ReadToken(d, hash, now));
      var created := Next(Next(read, CreateNext(c, now, first)), CreateNext(d, now, second));
      Next(Next(created, RevokeOld(c, now)), RevokeOld(d, now)).store == Forked(s.store, hash, now, first, second)
  {
    ForkReads(s, c, d, hash, now);
    var read := Next(Next(s, ReadToken(c, hash, now)), ReadToken(d, hash, now));
    ForkCreates(read, c, d, hash, now, first, second);
  }

  lemma ForkIsRun(s: System, c: string, d: string, hash: string, now: int, first: string, second: string)
    requires NobodyCalls(s) && c != d && Accepts(s.store, hash, now)
    requires first !in s.store.tokens && second !in s.store.tokens && first != second
    ensures Run(s, Fork(c, d, hash, now, first, second)).store == Forked(s.store, hash, now, first, second)
  {
    var all := Fork(c, d, hash, now, first, second);
    ForkSteps(s, c, d, hash, now, first, second);
    assert Run(s, all[..0]) == s && all[..6] == all;
    RunNext(s, all, 0);
    RunNext(s, all, 1);
    RunNext(s, all, 2);
    RunNext(s, all, 3);
    RunNext(s, all, 4);
    RunNext(s, all, 5);
  }

  /** Two calls that present one token at once exchange one session for two. */
  lemma ConcurrentRefreshForks(s: System, c: string, d: string, hash: string, now: int, first: string, second: string)
    requires NobodyCalls(s) && c != d && Accepts(s.store, hash, now) && s.store.ttl > 0
    requires first !in s.store.tokens && second !in s.store.tokens && first != second
    ensures var t := Run(s, Fork(c, d, hash, now, first, second)).store;
      var userId := s.store.tokens[hash].userId;
      && Accepts(t, first, now) && Accepts(t, second, now) && !Accepts(t, hash, now)
      && |Sessions.Sessions(t, userId, now)| == |Sessions.Sessions(s.store, userId, now)| + 1
  {
    ForkIsRun(s, c, d, hash, now, first, second);
    ForkAccepts(s.store, hash, now, first, second);
    ForkCounts(s.store, hash, now, first, second);
  }

  lemma ForkAccepts(s: Store, hash: string, now: int, first: string, second: string)
    requires Accepts(s, hash, now) && s.ttl > 0
    requires first !in s.tokens && second !in s.tokens && first != second
    ensures var t := Forked(s, hash, now, first, second);
      Accepts(t, first, now) && Accepts(t, second, now) && !Accepts(t, hash, now)
  {
  }

  lemma ForkSessions(s: Store, hash: string, now: int, first: string, second: string)
    requires Accepts(s, hash, now) && s.ttl > 0
    requires first !in s.tokens && second !in s.tokens && first != second
    ensures var userId := s.tokens[hash].userId;
      var before, after := Sessions.Sessions(s, userId, now),
        Sessions.Sessions(Forked(s, hash, now, first, second), userId, now);
      hash in before && first !in before && second !in before && after == before - {hash} + {first, second}
  {
  }

  lemma ForkCounts(s: Store, hash: string, now: int, first: string, second: string)
    requires Accepts(s, hash, now) && s.ttl > 0
    requires first !in s.tokens && second !in s.tokens && first != second
    ensures var t := Forked(s, hash, now, first, second);
      var userId := s.tokens[hash].userId;
      |Sessions.Sessions(t, userId, now)| == |Sessions.Sessions(s, userId, now)| + 1
  {
    var userId := s.tokens[hash].userId;
    var before := Sessions.Sessions(s, userId, now);
    ForkSessions(s, hash, now, first, second);
    assert before - {hash} + {first, second} == (before - {hash}) + {first} + {second};
  }

  // ---- a reset among refreshes ----

  /** The sessions that descend from a set of tokens, by any number of refreshes. */
  function Lineage(s: System, actions: seq<Action>, from: set<string>): set<string> {
    if actions == [] then from
    else
      var n := |actions| - 1;
      Lineage(s, actions[..n], from) + Descendant(Run(s, actions[..n]), actions[n], Lineage(s, actions[..n], from))
  }

  /** The session that a step creates out of one of the given tokens. */
  function Descendant(s: System, a: Action, from: set<string>): set<string> {
    if a.CreateNext? && PhaseOf(s, a.c).HasRead? && PhaseOf(s, a.c).hash in s.store.tokens && a.next !in s.store.tokens
      && PhaseOf(s, a.c).hash in from
    then {a.next} else {}
  }

  /** Nothing that ever descends from the tokens is accepted, at any time, whatever happens. */
  ghost predicate NeverAccepted(s: System, from: set<string>) {
    forall actions, t, at | t in Lineage(s, actions, from) :: !Accepts(Run(s, actions).store, t, at)
  }

  /** All the tokens are revoked, and no call is about to create a session out of one. */
  ghost predicate Spent(s: System, from: set<string>) {
    && (forall t | t in from :: t in s.store.tokens && s.store.tokens[t].revokedAt.Some?)
    && (forall c | c in s.calls && s.calls[c].HasRead? :: s.calls[c].hash !in from)
  }

  lemma SpentStep(s: System, a: Action, from: set<string>)
    requires Inv(s) && Spent(s, from)
    ensures Spent(Next(s, a), from) && Descendant(s, a, from) == {}
  {
    if a.Elsewhere? && Next(s, a) != s {
      assert Next(s, a).store == Step(s.store, a.op);
    }
  }

  lemma {:induction false} SpentForGood(s: System, actions: seq<Action>, from: set<string>)
    requires Inv(s) && Spent(s, from)
    ensures Inv(Run(s, actions)) && Spent(Run(s, actions), from) && Lineage(s, actions, from) == from
  {
    if actions != [] {
      var n := |actions| - 1;
      SpentForGood(s, actions[..n], from);
      NextInv(Run(s, actions[..n]), actions[n]);
      SpentStep(Run(s, actions[..n]), actions[n], from);
    }
  }

  function TokensOf(s: Store, userId: string): set<string> {
    set t | t in s.tokens && s.tokens[t].userId == userId
  }

  /** A call of `refresh` stands between its read and its creation of a session of the user. */
  ghost predicate ReadAhead(s: System, userId: string) {
    exists c | c in s.calls :: s.calls[c].HasRead? && OwnedBy(s.store, s.calls[c].hash, userId)
  }

  /** There is always a token that is new. */
  lemma {:induction false} NewToken(tokens: set<string>) returns (t: string)
    ensures t !in tokens && forall x | x in tokens :: |x| < |t|
    decreases |tokens|
  {
    if tokens == {} {
      t := "";
    } else {
      var x :| x in tokens;
      t := NewToken(tokens - {x});
      if |t| <= |x| { t := x + "+"; }
    }
  }

  lemma ReadAheadSurvives(s: System, userId: string, c: string, now: int)
    requires c in s.calls && s.calls[c].HasRead? && OwnedBy(s.store, s.calls[c].hash, userId)
    requires Enabled(s.store, userId) && s.store.ttl > 0
    ensures !NeverAccepted(s, TokensOf(s.store, userId))
  {
    var next := NewToken(s.store.tokens.Keys);
    var a := CreateNext(c, now, next);
    var from := TokensOf(s.store, userId);
    assert Run(s, [a][..0]) == s && Run(s, [a]) == Next(s, a);
    assert Lineage(s, [a][..0], from) == from;
    assert next in Lineage(s, [a], from);
    assert Accepts(Run(s, [a]).store, next, now);
  }

  lemma ResetLeaves(s: Store, reset: string, passwordHash: string, now: int)
    requires ResetAccepted(s, reset, now)
    ensures var userId := s.resets[reset].userId;
      var after := ResetPassword(s, reset, passwordHash, now);
      && TokensOf(after, userId) == TokensOf(s, userId) && Enabled(after, userId) && after.ttl == s.ttl
      && after.tokens.Keys == s.tokens.Keys
      && (forall t | t in s.tokens :: after.tokens[t].userId == s.tokens[t].userId)
      && (forall t | t in TokensOf(s, userId) :: after.tokens[t].revokedAt.Some?)
  {
  }

  /** After a password reset, among any calls of `refresh` under way and whatever happens later, no token
      the user had and no session that descends from one is ever accepted, if and only if no refresh of
      that user stands between its read and its creation when the reset commits. */
  lemma ResetAmongRefreshes(s: System, reset: string, passwordHash: string, now: int)
    requires Inv(s) && ResetAccepted(s.store, reset, now) && s.store.ttl > 0
    ensures var userId := s.store.resets[reset].userId;
      NeverAccepted(Next(s, Elsewhere(OpReset(reset, passwordHash, now))), TokensOf(s.store, userId))
      <==> !ReadAhead(s, userId)
  {
    var userId := s.store.resets[reset].userId;
    var after := Next(s, Elsewhere(OpReset(reset, passwordHash, now)));
    var from := TokensOf(s.store, userId);
    ResetLeaves(s.store, reset, passwordHash, now);
    assert after == System(ResetPassword(s.store, reset, passwordHash, now), s.calls);
    if c :| c in s.calls && s.calls[c].HasRead? && OwnedBy(s.store, s.calls[c].hash, userId) {
      ReadAheadSurvives(after, userId, c, now);
    } else {
      assert Inv(after) && Spent(after, from);
      forall actions, t, at | t in Lineage(after, actions, from) ensures !Accepts(Run(after, actions).store, t, at) {
        SpentForGood(after, actions, from);
      }
    }
  }
}
