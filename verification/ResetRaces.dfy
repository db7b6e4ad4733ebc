/** Requests for a password reset that overlap. A request revokes the user's active reset tokens and then
    creates one; anything may happen in between. */
module ResetRaces {
  import opened Common
  import opened Sessions

  /** The requests between their two writes, with their users. */
  datatype System = System(store: Store, calls: map<string, string>)

  datatype Action =
    | RevokeActive(c: string, userId: string)
    | CreateReset(c: string, now: int, next: string)
    | GiveUp(c: string)
    | Elsewhere(op: Op)

  function Revoked(r: ResetToken, userId: string): ResetToken {
    if r.userId == userId && r.status == Active then r.(status := ResetStatus.Revoked) else r
  }

  function Next(s: System, a: Action): System {
    match a
    case RevokeActive(c, userId) =>
      if c in s.calls || !Enabled(s.store, userId) then s
      else System(s.store.(resets := map r | r in s.store.resets :: Revoked(s.store.resets[r], userId)),
                  s.calls[c := userId])
    case CreateReset(c, now, next) =>
      if c in s.calls && next !in s.store.resets then
        System(s.store.(resets := s.store.resets[next := ResetToken(s.calls[c], now + RESET_TTL, Active)]),
               s.calls - {c})
      else s
    case GiveUp(c) => s.(calls := s.calls - {c})
    case Elsewhere(op) => if !op.OpRequestReset? && Allowed(s.store, op) then s.(store := Step(s.store, op)) else s
  }

  function Run(s: System, actions: seq<Action>): System {
    if actions == [] then s else Next(Run(s, actions[..|actions| - 1]), actions[|actions| - 1])
  }

  lemma UninterruptedRequest(s: System, c: string, userId: string, now: int, next: string)
    requires c !in s.calls && next !in s.store.resets
    ensures Next(Next(s, RevokeActive(c, userId)), CreateReset(c, now, next)).store
      == RequestReset(s.store, userId, now, next)
  {
    if Enabled(s.store, userId) {
      assert Next(s, RevokeActive(c, userId)).calls[c] == userId;
    }
  }

  /** Between the writes of a request anything else the service does takes its effect, and a request that gives up
      leaves the tables alone. */
  lemma OtherSteps(s: System, op: Op, c: string)
    requires !op.OpRequestReset? && Allowed(s.store, op)
    ensures Next(s, Elsewhere(op)) == System(Step(s.store, op), s.calls)
    ensures Next(s, GiveUp(c)).store == s.store && Next(s, GiveUp(c)).calls.Keys == s.calls.Keys - {c}
  {
  }

  /** The user's active reset tokens, expiry aside. */
  function ActiveOf(s: System, userId: string): set<string> {
    set r | r in s.store.resets && s.store.resets[r].userId == userId && s.store.resets[r].status == Active
  }

  predicate Pending(s: System, c: string, userId: string) {
    c in s.calls && s.calls[c] == userId
  }

  /** Two tokens of the user are active. */
  ghost predicate TwoActive(s: System, userId: string) {
    exists r, q :: r != q && r in ActiveOf(s, userId) && q in ActiveOf(s, userId)
  }

  /** A request of the user revokes while another one stands between its two writes. */
  ghost predicate Overlaps(s: System, a: Action, userId: string) {
    && a.RevokeActive? && a.userId == userId && a.c !in s.calls && Enabled(s.store, userId)
    && exists d :: Pending(s, d, userId)
  }

  ghost predicate OverlapIn(s: System, actions: seq<Action>, userId: string) {
    actions != [] && (OverlapIn(s, actions[..|actions| - 1], userId)
      || Overlaps(Run(s, actions[..|actions| - 1]), actions[|actions| - 1], userId))
  }

  /** Two tokens of the user are active at some moment of the run. */
  ghost predicate EverTwo(s: System, actions: seq<Action>, userId: string) {
    TwoActive(Run(s, actions), userId) || (actions != [] && EverTwo(s, actions[..|actions| - 1], userId))
  }

  /** Two requests of the user stand between their writes, or one does while a token is active. */
  ghost predicate Clash(s: System, userId: string) {
    || (exists c, d :: c != d && Pending(s, c, userId) && Pending(s, d, userId))
    || (exists c, r :: Pending(s, c, userId) && r in ActiveOf(s, userId))
  }

  /** Neither gives up a request nor uses a token. */
  predicate Undisturbed(a: Action) {
    !a.GiveUp? && !(a.Elsewhere? && a.op.OpReset?)
  }

  lemma ActiveStep(s: System, a: Action, userId: string)
    ensures var before, after := ActiveOf(s, userId), ActiveOf(Next(s, a), userId);
      if a.RevokeActive? && a.c !in s.calls && Enabled(s.store, a.userId) && a.userId == userId then after == {}
      else if a.CreateReset? && Pending(s, a.c, userId) && a.next !in s.store.resets
      then after == before + {a.next} && a.next !in before
      else after <= before && (!(a.Elsewhere? && a.op.OpReset?) ==> after == before)
  {
  }

  lemma PendingStep(s: System, a: Action, userId: string, c: string)
    ensures Pending(Next(s, a), c, userId) <==>
      || (Pending(s, c, userId) && !(a.GiveUp? && a.c == c)
          && !(a.CreateReset? && a.c == c && a.next !in s.store.resets))
      || (a.RevokeActive? && a.c == c && a.c !in s.calls && Enabled(s.store, a.userId) && a.userId == userId)
  {
  }

  lemma QuietStep(s: System, a: Action, userId: string)
    requires !Clash(s, userId) && !TwoActive(s, userId) && !Overlaps(s, a, userId)
    ensures !Clash(Next(s, a), userId) && !TwoActive(Next(s, a), userId)
  {
    var n := Next(s, a);
    ActiveStep(s, a, userId);
    forall c, d | c != d ensures !(Pending(n, c, userId) && Pending(n, d, userId)) {
      PendingStep(s, a, userId, c);
      PendingStep(s, a, userId, d);
      assert !(Pending(s, c, userId) && Pending(s, d, userId));
    }
    forall c, r ensures !(Pending(n, c, userId) && r in ActiveOf(n, userId)) {
      PendingStep(s, a, userId, c);
      assert !(Pending(s, c, userId) && r in ActiveOf(s, userId));
      if a.CreateReset? && c != a.c { assert !(Pending(s, c, userId) && Pending(s, a.c, userId)); }
    }
    forall r, q | r != q ensures !(r in ActiveOf(n, userId) && q in ActiveOf(n, userId)) {
      assert !(r in ActiveOf(s, userId) && q in ActiveOf(s, userId));
      if a.CreateReset? {
        assert !(Pending(s, a.c, userId) && r in ActiveOf(s, userId));
        assert !(Pending(s, a.c, userId) && q in ActiveOf(s, userId));
      }
    }
  }

  lemma ClashStep(s: System, a: Action, userId: string)
    requires (Clash(s, userId) && Undisturbed(a)) || Overlaps(s, a, userId)
    ensures Clash(Next(s, a), userId) || TwoActive(Next(s, a), userId)
  {
    var n := Next(s, a);
    ActiveStep(s, a, userId);
    if Overlaps(s, a, userId) {
      var d :| Pending(s, d, userId);
      assert Pending(n, a.c, userId) && Pending(n, d, userId) && a.c != d;
    } else if c, d :| c != d && Pending(s, c, userId) && Pending(s, d, userId) {
      PendingStep(s, a, userId, c);
      PendingStep(s, a, userId, d);
      if Pending(n, c, userId) && Pending(n, d, userId) {
      } else {
        var e := if a.c == c then d else c;
        assert Pending(n, e, userId) && a.next in ActiveOf(n, userId);
      }
    } else {
      var c, r :| Pending(s, c, userId) && r in ActiveOf(s, userId);
      PendingStep(s, a, userId, c);
      if Pending(n, c, userId) {
        assert r in ActiveOf(n, userId);
      } else {
        assert r in ActiveOf(n, userId) && a.next in ActiveOf(n, userId) && r != a.next;
      }
    }
  }

  ghost predicate NobodyAsks(s: System) {
    s.calls == map[]
  }

  /** Without overlapping requests a user never has two active reset tokens, whatever else happens. */
  lemma {:induction false} OneActive(s: System, actions: seq<Action>, userId: string)
    requires NobodyAsks(s) && !TwoActive(s, userId) && !OverlapIn(s, actions, userId)
    ensures !EverTwo(s, actions, userId) && !Clash(Run(s, actions), userId)
  {
    if actions != [] {
      OneActive(s, actions[..|actions| - 1], userId);
      QuietStep(Run(s, actions[..|actions| - 1]), actions[|actions| - 1], userId);
    }
  }

  predicate UndisturbedRun(actions: seq<Action>) {
    forall i | 0 <= i < |actions| :: Undisturbed(actions[i])
  }

  lemma {:induction false} OverlapShows(s: System, actions: seq<Action>, userId: string)
    requires OverlapIn(s, actions, userId) && UndisturbedRun(actions)
    ensures EverTwo(s, actions, userId) || Clash(Run(s, actions), userId)
  {
    var n := |actions| - 1;
    var before, a := Run(s, actions[..n]), actions[n];
    if OverlapIn(s, actions[..n], userId) {
      OverlapShows(s, actions[..n], userId);
      if Clash(before, userId) { ClashStep(before, a, userId); }
    } else {
      ClashStep(before, a, userId);
    }
  }

  /** Over every interleaving in which all requests finish and no token is used, a user has two active reset
      tokens at some moment if and only if a request revokes between another one's two writes. */
  lemma TwoActiveExactly(s: System, actions: seq<Action>, userId: string)
    requires NobodyAsks(s) && !TwoActive(s, userId) && NobodyAsks(Run(s, actions)) && UndisturbedRun(actions)
    ensures EverTwo(s, actions, userId) <==> OverlapIn(s, actions, userId)
  {
    if OverlapIn(s, actions, userId) {
      OverlapShows(s, actions, userId);
    } else {
      OneActive(s, actions, userId);
    }
  }
}
