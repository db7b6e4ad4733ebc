/** The browser's API client, whose callers share one refresh, composed with the server that rotates
    the refresh token. Requests, refreshes and responses interleave in any way. */
module SingleFlight {
  import opened Common
  import Sessions

  /** A call of `fetchWithAuth`: first fetch under way, waiting for the shared refresh, second fetch
      under way, finished. */
  datatype Phase = First | Waiting | Second | Done

  datatype Request = Request(phase: Phase, hits: nat)

  /** A refresh call under way: with the cookie it carries, or with the answer on its way back. */
  datatype Flight = Sent(token: Option<string>) | Answered(session: Option<string>)

  datatype System = System(
    requests: map<string, Request>,
    refreshing: bool,          // the module variable `refreshPromise` is set
    flights: seq<Flight>,
    late: seq<string>,         // the tokens of refreshes the browser gave up on and the server may still get
    cookie: Option<string>,
    server: Sessions.Store,
    presented: seq<string>,    // the tokens the server was shown since the last sign-in, in order
    refused: nat)              // how many of them it refused

  datatype Action =
    | Fetch(r: string)
    | Respond(r: string, status: int, refreshPath: bool)
    | Serve(i: nat, now: int, next: string)
    | Deliver(i: nat)
    | Lose(i: nat)
    | ServeLate(k: nat, now: int, next: string)
    | FinishSecond(r: string)
    | SignIn(userId: string, now: int, next: string)
    | Elsewhere(op: Sessions.Op)

  /** `refreshSession`: `refreshPromise ??= fetch(...)` sends a refresh only when none is shared. */
  function RefreshSession(s: System): System {
    if s.refreshing then s else s.(refreshing := true, flights := s.flights + [Sent(s.cookie)])
  }

  /** The shared promise resolves: it is cleared, and everyone waiting goes on. */
  function Resolve(s: System, i: nat, refreshed: bool): System
    requires i < |s.flights|
  {
    s.(refreshing := false, flights := s.flights[..i] + s.flights[i + 1..],
       requests := map r | r in s.requests ::
         var q := s.requests[r];
         if q.phase != Waiting then q else if refreshed then Request(Second, q.hits + 1) else q.(phase := Done))
  }

  function Presented(s: System, token: string, now: int): System {
    s.(presented := s.presented + [token],
       refused := s.refused + if Sessions.Accepts(s.server, token, now) then 0 else 1)
  }

  /** A sign-in that the server answers: the user is active, and the token is new. */
  predicate SignsIn(s: System, a: Action) {
    a.SignIn? && Sessions.Enabled(s.server, a.userId) && a.next !in s.server.tokens
  }

  /** The browser on a new page after a sign-in. What an earlier page had sent may still reach the server,
      as a refresh from elsewhere; an answer to it is overwritten by the new cookie. */
  function SignedIn(s: System, userId: string, now: int, next: string): System {
    System(map[], false, [], [], Some(next), Sessions.CreateSession(s.server, userId, now, next), [], 0)
  }

  function Next(s: System, a: Action): System {
    match a
    case Fetch(r) => if r in s.requests then s else s.(requests := s.requests[r := Request(First, 1)])
    case Respond(r, status, refreshPath) =>
      if r !in s.requests || s.requests[r].phase != First then s
      else if status != 401 || refreshPath then s.(requests := s.requests[r := s.requests[r].(phase := Done)])
      else RefreshSession(s.(requests := s.requests[r := s.requests[r].(phase := Waiting)]))
    case Serve(i, now, next) =>
      if i < |s.flights| && s.flights[i].Sent? && next !in s.server.tokens then
        match s.flights[i].token
        case None => s.(flights := s.flights[i := Answered(None)])
        case Some(t) =>
          var answer := if Sessions.Accepts(s.server, t, now) then Some(next) else None;
          Presented(s, t, now).(flights := s.flights[i := Answered(answer)],
                                server := Sessions.Refresh(s.server, t, now, next))
      else s
    case Deliver(i) =>
      if i < |s.flights| && s.flights[i].Answered? then
        var session := s.flights[i].session;
        Resolve(s.(cookie := if session.Some? then session else s.cookie), i, session.Some?)
      else s
    case Lose(i) =>
      if i < |s.flights| then
        var given := s.flights[i];
        Resolve(s.(late := s.late + if given.Sent? && given.token.Some? then [given.token.value] else []), i, false)
      else s
    case ServeLate(k, now, next) =>
      if k < |s.late| && next !in s.server.tokens then
        Presented(s, s.late[k], now).(late := s.late[..k] + s.late[k + 1..],
                                      server := Sessions.Refresh(s.server, s.late[k], now, next))
      else s
    case FinishSecond(r) =>
      if r in s.requests && s.requests[r].phase == Second
      then s.(requests := s.requests[r := s.requests[r].(phase := Done)]) else s
    case SignIn(userId, now, next) => if SignsIn(s, a) then SignedIn(s, userId, now, next) else s
    case Elsewhere(op) =>
      if Sessions.Allowed(s.server, op) then s.(server := Sessions.Step(s.server, op)) else s
  }

  function Run(s: System, actions: seq<Action>): System {
    if actions == [] then s else Next(Run(s, actions[..|actions| - 1]), actions[|actions| - 1])
  }

  ghost predicate Initial(s: System) {
    s.requests == map[] && !s.refreshing && s.flights == [] && s.late == [] && s.presented == [] && s.refused == 0
  }

  // ---- whatever happens: one refresh at a time, two hits at most ----

  predicate RequestOk(q: Request, refreshing: bool) {
    match q.phase
    case First => q.hits == 1
    case Waiting => q.hits == 1 && refreshing
    case Second => q.hits == 2
    case Done => q.hits <= 2
  }

  ghost predicate Inv(s: System) {
    && |s.flights| == (if s.refreshing then 1 else 0)
    && (forall r | r in s.requests :: RequestOk(s.requests[r], s.refreshing))
  }

  lemma NextInv(s: System, a: Action)
    requires Inv(s)
    ensures Inv(Next(s, a))
  {
  }

  /** In every run there is at most one refresh under way and no request hits its path three times. */
  lemma {:induction false} OneRefreshTwoHits(s: System, actions: seq<Action>)
    requires Initial(s)
    ensures Inv(Run(s, actions))
    ensures |Run(s, actions).flights| <= 1
    ensures forall r | r in Run(s, actions).requests :: Run(s, actions).requests[r].hits <= 2
  {
    if actions != [] {
      OneRefreshTwoHits(s, actions[..|actions| - 1]);
      NextInv(Run(s, actions[..|actions| - 1]), actions[|actions| - 1]);
    }
  }

  // ---- what each step does for a request ----

  /** A new call sends its first fetch. */
  lemma FetchMeaning(s: System, r: string)
    ensures Next(s, Fetch(r)).requests == if r in s.requests then s.requests else s.requests[r := Request(First, 1)]
    ensures Next(s, Fetch(r)) == s.(requests := Next(s, Fetch(r)).requests)
  {
  }

  /** A request answered with 401 waits for the shared refresh, which is sent with the present cookie unless it is
      under way already; any other answer, or one to a call of the refresh itself, ends the request. */
  lemma RespondMeaning(s: System, r: string, status: int, refreshPath: bool)
    requires r in s.requests && s.requests[r].phase == First
    ensures var n := Next(s, Respond(r, status, refreshPath));
      && n.requests.Keys == s.requests.Keys && n.requests[r].hits == s.requests[r].hits
      && n.requests[r].phase == (if status == 401 && !refreshPath then Waiting else Done)
      && (forall q | q in s.requests && q != r :: n.requests[q] == s.requests[q])
      && n.cookie == s.cookie && n.server == s.server
      && (if status == 401 && !refreshPath && !s.refreshing
          then n.refreshing && n.flights == s.flights + [Sent(s.cookie)]
          else n.refreshing == s.refreshing && n.flights == s.flights)
  {
  }

  /** When the refresh answers, an accepted session becomes the browser's and every waiting request is fetched a
      second time; after a refused one every waiting request ends. The next 401 may send another refresh. */
  lemma DeliverMeaning(s: System, i: nat)
    requires Inv(s) && i < |s.flights| && s.flights[i].Answered?
    ensures var n, session := Next(s, Deliver(i)), s.flights[i].session;
      && !n.refreshing && n.flights == [] && n.server == s.server && n.requests.Keys == s.requests.Keys
      && n.cookie == (if session.Some? then session else s.cookie)
      && (forall r | r in s.requests && s.requests[r].phase == Waiting ::
          n.requests[r] == if session.Some? then Request(Second, 2) else Request(Done, 1))
      && (forall r | r in s.requests && s.requests[r].phase != Waiting :: n.requests[r] == s.requests[r])
  {
  }

  /** A refresh that fails ends every waiting request and keeps the cookie. If the server has not seen it yet, its
      token may still reach the server later. */
  lemma LoseMeaning(s: System, i: nat)
    requires Inv(s) && i < |s.flights|
    ensures var n := Next(s, Lose(i));
      && !n.refreshing && n.flights == [] && n.server == s.server && n.requests.Keys == s.requests.Keys
      && n.cookie == s.cookie
      && n.late == s.late + (match s.flights[i] case Sent(Some(token)) => [token] case _ => [])
      && (forall r | r in s.requests ::
          n.requests[r] == if s.requests[r].phase == Waiting then Request(Done, 1) else s.requests[r])
  {
  }

  /** A served refresh shows the server the cookie it was sent with. It is answered with the new session exactly
      when the server accepts that token. */
  lemma ServeMeaning(s: System, i: nat, now: int, next: string)
    requires i < |s.flights| && s.flights[i].Sent? && next !in s.server.tokens
    ensures var n, token := Next(s, Serve(i, now, next)), s.flights[i].token;
      var accepted := token.Some? && Sessions.Accepts(s.server, token.value, now);
      && n.flights == s.flights[i := Answered(if accepted then Some(next) else None)]
      && n.server == (if token.Some? then Sessions.Refresh(s.server, token.value, now, next) else s.server)
      && n.presented == (if token.Some? then s.presented + [token.value] else s.presented)
      && n.refused == s.refused + (if token.Some? && !accepted then 1 else 0)
      && n.requests == s.requests && n.cookie == s.cookie && n.refreshing == s.refreshing
  {
  }

  /** A late refresh shows its token to the server, which answers nobody; what happens elsewhere takes its effect on the
      server. */
  lemma ServerMeaning(s: System, k: nat, now: int, next: string, op: Sessions.Op)
    ensures k < |s.late| && next !in s.server.tokens ==>
      var n := Next(s, ServeLate(k, now, next));
      && n.server == Sessions.Refresh(s.server, s.late[k], now, next)
      && n.presented == s.presented + [s.late[k]] && n.late == s.late[..k] + s.late[k + 1..]
      && n.refused == s.refused + (if Sessions.Accepts(s.server, s.late[k], now) then 0 else 1)
      && n.requests == s.requests && n.flights == s.flights && n.cookie == s.cookie
    ensures Sessions.Allowed(s.server, op) ==>
      Next(s, Elsewhere(op)) == s.(server := Sessions.Step(s.server, op))
  {
  }

  /** A call under way can always end, in three steps at most. */
  lemma CanFinish(s: System, r: string, now: int, next: string) returns (actions: seq<Action>)
    requires Inv(s) && r in s.requests
    ensures |actions| <= 3
    ensures r in Run(s, actions).requests && Run(s, actions).requests[r].phase == Done
    ensures forall k | 0 <= k < |actions| :: actions[k].Respond? || actions[k].Lose? || actions[k].FinishSecond?
  {
    match s.requests[r].phase {
      case Done => actions := [];
      case First => actions := [Respond(r, 200, false)];
      case Second => actions := [FinishSecond(r)];
      case Waiting => actions := [Lose(0)];
    }
    if actions != [] {
      assert actions[..0] == [];
      assert Run(s, actions) == Next(Run(s, actions[..0]), actions[0]);
    }
  }

  // ---- while responses arrive and nobody ends the session ----

  /** The token the browser holds, or is about to receive. */
  function Current(s: System): Option<string> {
    if |s.flights| == 1 && s.flights[0].Answered? then s.flights[0].session else s.cookie
  }

  /** The session does not expire, and what happens elsewhere is neither a logout nor a reset nor a use of
      this browser's token. Responses may get lost. */
  predicate Calm(s: System, a: Action) {
    match a
    case Serve(i, now, _) => Unexpired(s, now)
    case ServeLate(k, now, _) => k < |s.late| && Some(s.late[k]) == Current(s) ==> Unexpired(s, now)
    case Elsewhere(op) => !op.OpLogout? && !op.OpReset? && !(op.OpRefresh? && Some(op.hash) == Current(s))
    case _ => true
  }

  predicate Unexpired(s: System, now: int) {
    Current(s).Some? && Current(s).value in s.server.tokens ==> now < s.server.tokens[Current(s).value].expiresAt
  }

  /** No accepted answer is lost, and no refresh that the browser gave up on is served after all. */
  predicate Arrives(s: System, a: Action) {
    match a
    case Lose(i) => !(i < |s.flights| && s.flights[i].Answered? && s.flights[i].session.Some?)
    case ServeLate(k, _, next) => !(k < |s.late| && next !in s.server.tokens)
    case _ => true
  }

  /** Every step since the last sign-in is calm. */
  predicate CalmRun(s: System, actions: seq<Action>) {
    actions == [] || SignsIn(Run(s, actions[..|actions| - 1]), actions[|actions| - 1])
    || (CalmRun(s, actions[..|actions| - 1])
        && Calm(Run(s, actions[..|actions| - 1]), actions[|actions| - 1]))
  }

  /** Since the last sign-in every answer arrives. */
  predicate ArrivingRun(s: System, actions: seq<Action>) {
    actions == [] || SignsIn(Run(s, actions[..|actions| - 1]), actions[|actions| - 1])
    || (ArrivingRun(s, actions[..|actions| - 1])
        && Arrives(Run(s, actions[..|actions| - 1]), actions[|actions| - 1]))
  }

  ghost predicate LoggedIn(s: System) {
    && Current(s).Some? && Current(s).value in s.server.tokens
    && s.server.tokens[Current(s).value].revokedAt.None?
    && Sessions.Enabled(s.server, s.server.tokens[Current(s).value].userId)
  }

  ghost predicate NoRepeats(p: seq<string>) {
    forall i, j | 0 <= i < j < |p| :: p[i] != p[j]
  }

  predicate RevokedIn(server: Sessions.Store, t: string) {
    t in server.tokens && server.tokens[t].revokedAt.Some?
  }

  ghost predicate QuietInv(s: System) {
    && Inv(s) && LoggedIn(s) && s.refused == 0
    && (s.refreshing && s.flights[0].Sent? ==> s.flights[0].token == s.cookie)
    && (s.refreshing && s.flights[0].Answered? ==> s.cookie.Some? && s.cookie.value in s.presented)
    && (forall t | t in s.presented :: RevokedIn(s.server, t))
    && (forall k | 0 <= k < |s.late| :: s.late[k] in s.presented || Some(s.late[k]) == s.cookie)
    && NoRepeats(s.presented)
  }

  lemma RevokedStays(server: Sessions.Store, op: Sessions.Op, t: string)
    requires Sessions.Allowed(server, op) && RevokedIn(server, t)
    ensures RevokedIn(Sessions.Step(server, op), t)
  {
  }

  lemma ServeStep(s: System, i: nat, now: int, next: string)
    requires QuietInv(s) && Calm(s, Serve(i, now, next)) && Next(s, Serve(i, now, next)) != s
    ensures QuietInv(Next(s, Serve(i, now, next)))
  {
    var n := Next(s, Serve(i, now, next));
    var t := s.cookie.value;
    NextInv(s, Serve(i, now, next));
    assert s.flights == [Sent(s.cookie)] && Sessions.Accepts(s.server, t, now);
    assert n.flights == [Answered(Some(next))];
    assert n.presented == s.presented + [t] && n.presented[|s.presented|] == t;
    assert t !in s.presented && n.refused == 0;
    assert RevokedIn(n.server, t);
    forall u | u in s.presented ensures RevokedIn(n.server, u) {
      assert RevokedIn(s.server, u);
    }
    forall k | 0 <= k < |n.late| ensures n.late[k] in n.presented || Some(n.late[k]) == n.cookie {
      assert n.late[k] == s.late[k];
    }
    assert LoggedIn(n);
  }

  lemma QuietStep(s: System, a: Action)
    requires QuietInv(s) && Calm(s, a) && Arrives(s, a)
    ensures QuietInv(Next(s, a))
  {
    NextInv(s, a);
    var n := Next(s, a);
    match a {
      case Serve(i, now, next) =>
        if n != s { ServeStep(s, i, now, next); }
      case Elsewhere(op) =>
        if n != s {
          forall t | RevokedIn(s.server, t) ensures RevokedIn(n.server, t) {
            RevokedStays(s.server, op, t);
          }
        }
      case _ =>
    }
  }

  /** Whatever went before, a sign-in starts afresh. */
  lemma SignInStarts(s: System, a: Action)
    requires SignsIn(s, a)
    ensures Initial(Next(s, a)) && LoggedIn(Next(s, a)) && QuietInv(Next(s, a))
  {
  }

  /** Since the last sign-in, while answers arrive no refresh token is presented twice, none is refused, and
      the browser stays logged in; a refresh that gets lost before it is served or accepted does no harm. */
  lemma {:induction false} NoTokenTwice(s: System, actions: seq<Action>)
    requires Initial(s) && LoggedIn(s) && CalmRun(s, actions) && ArrivingRun(s, actions)
    ensures QuietInv(Run(s, actions))
    ensures NoRepeats(Run(s, actions).presented) && Run(s, actions).refused == 0 && LoggedIn(Run(s, actions))
  {
    if actions != [] {
      var before, a := Run(s, actions[..|actions| - 1]), actions[|actions| - 1];
      if SignsIn(before, a) {
        SignInStarts(before, a);
      } else {
        NoTokenTwice(s, actions[..|actions| - 1]);
        QuietStep(before, a);
      }
    }
  }

  // ---- when an answer is lost ----

  /** The browser holds a token that was presented and is revoked, and nothing better is on its way. */
  ghost predicate Stuck(s: System, t: string) {
    && Inv(s) && s.cookie == Some(t) && t in s.presented && RevokedIn(s.server, t)
    && (s.refreshing ==> s.flights[0] == Sent(Some(t)) || s.flights[0] == Answered(None))
  }

  lemma StuckStep(s: System, a: Action, t: string)
    requires Stuck(s, t) && !SignsIn(s, a)
    ensures Stuck(Next(s, a), t)
  {
    NextInv(s, a);
    if a.Elsewhere? && Sessions.Allowed(s.server, a.op) {
      RevokedStays(s.server, a.op, t);
    }
  }

  lemma {:induction false} StuckForGood(s: System, actions: seq<Action>, t: string)
    requires Stuck(s, t) && forall i | 0 <= i < |actions| :: !actions[i].SignIn?
    ensures Stuck(Run(s, actions), t)
  {
    if actions != [] {
      StuckForGood(s, actions[..|actions| - 1], t);
      StuckStep(Run(s, actions[..|actions| - 1]), actions[|actions| - 1], t);
    }
  }

  lemma LossSticks(s: System, i: nat)
    requires QuietInv(s) && !Arrives(s, Lose(i))
    ensures s.cookie.Some? && Stuck(Next(s, Lose(i)), s.cookie.value)
  {
    NextInv(s, Lose(i));
  }

  /** Once an accepted answer is lost, every refresh that is served before the next sign-in, whatever else
      happens in between, shows the same token again and is refused. */
  lemma LostAnswerRepeats(s: System, i: nat, actions: seq<Action>, j: nat, now: int, next: string)
    requires QuietInv(s) && !Arrives(s, Lose(i))
    requires forall k | 0 <= k < |actions| :: !actions[k].SignIn?
    requires var later := Run(Next(s, Lose(i)), actions);
      j < |later.flights| && later.flights[j].Sent? && next !in later.server.tokens
    ensures var later := Run(Next(s, Lose(i)), actions);
      var n := Next(later, Serve(j, now, next));
      && s.cookie.Some? && s.cookie.value in later.presented
      && n.presented == later.presented + [s.cookie.value] && n.refused == later.refused + 1
  {
    LossSticks(s, i);
    StuckForGood(Next(s, Lose(i)), actions, s.cookie.value);
    StuckServe(Run(Next(s, Lose(i)), actions), s.cookie.value, j, now, next);
  }

  lemma StuckServe(s: System, t: string, j: nat, now: int, next: string)
    requires Stuck(s, t) && j < |s.flights| && s.flights[j].Sent? && next !in s.server.tokens
    ensures var n := Next(s, Serve(j, now, next));
      n.presented == s.presented + [t] && n.refused == s.refused + 1
  {
  }

  /** A refresh served after the browser gave up on it either shows a token again and is refused, or takes
      the browser's token away from it. */
  lemma LateService(s: System, k: nat, now: int, next: string)
    requires QuietInv(s) && Calm(s, ServeLate(k, now, next)) && !Arrives(s, ServeLate(k, now, next))
    ensures var n := Next(s, ServeLate(k, now, next));
      if s.late[k] in s.presented then n.refused == 1 else Stuck(n, s.late[k])
  {
    NextInv(s, ServeLate(k, now, next));
    var t := s.late[k];
    if t in s.presented {
      assert RevokedIn(s.server, t);
    } else {
      assert Some(t) == s.cookie;
      assert Sessions.Accepts(s.server, t, now);
    }
  }

  ghost predicate Harmed(s: System) {
    s.refused > 0 || exists t :: Stuck(s, t)
  }

  lemma HarmStays(s: System, a: Action)
    requires Harmed(s) && !SignsIn(s, a)
    ensures Harmed(Next(s, a))
  {
    if t :| Stuck(s, t) { StuckStep(s, a, t); }
  }

  lemma {:induction false} CalmRunSplits(s: System, actions: seq<Action>)
    requires Initial(s) && LoggedIn(s) && CalmRun(s, actions)
    ensures if ArrivingRun(s, actions) then QuietInv(Run(s, actions)) else Harmed(Run(s, actions))
  {
    if actions != [] {
      var n := |actions| - 1;
      var before, a := Run(s, actions[..n]), actions[n];
      if SignsIn(before, a) {
        SignInStarts(before, a);
        return;
      }
      CalmRunSplits(s, actions[..n]);
      if !ArrivingRun(s, actions[..n]) {
        HarmStays(before, a);
      } else if Arrives(before, a) {
        QuietStep(before, a);
      } else if a.Lose? {
        LossSticks(before, a.i);
      } else {
        LateService(before, a.k, a.now, a.next);
      }
    }
  }

  /** As long as the session has not expired and nobody has ended it since the last sign-in, the browser is
      logged in with no token refused since if and only if no accepted answer has been lost since, and no
      refresh served that the browser had given up on; then no token was presented twice either. */
  lemma StaysLoggedIn(s: System, actions: seq<Action>)
    requires Initial(s) && LoggedIn(s) && CalmRun(s, actions)
    ensures LoggedIn(Run(s, actions)) && Run(s, actions).refused == 0 <==> ArrivingRun(s, actions)
    ensures ArrivingRun(s, actions) ==> NoRepeats(Run(s, actions).presented)
  {
    CalmRunSplits(s, actions);
  }
}
