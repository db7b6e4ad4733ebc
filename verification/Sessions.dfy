/** Refresh tokens on the server: creation, rotation, logout and password reset. A token is known by
    its hash, which is taken to be injective; random tokens are taken to be new. */
module Sessions {
  import opened Common

  datatype Token = Token(userId: string, expiresAt: int, revokedAt: Option<int>, replacedBy: Option<string>)

  datatype ResetStatus = Active | Used | Revoked

  datatype ResetToken = ResetToken(userId: string, expiresAt: int, status: ResetStatus)

  /** `enabled`: the user, and the college if there is one, are active. */
  datatype User = User(enabled: bool, passwordHash: string)

  datatype Store = Store(
    users: map<string, User>, tokens: map<string, Token>, resets: map<string, ResetToken>, ttl: int)

  predicate Enabled(s: Store, userId: string) {
    userId in s.users && s.users[userId].enabled
  }

  predicate Live(t: Token, now: int) {
    t.revokedAt.None? && t.expiresAt > now
  }

  /** The check of `refresh`. */
  predicate Accepts(s: Store, hash: string, now: int) {
    hash in s.tokens && Live(s.tokens[hash], now) && Enabled(s, s.tokens[hash].userId)
  }

  function CreateSession(s: Store, userId: string, now: int, next: string): Store {
    s.(tokens := s.tokens[next := Token(userId, now + s.ttl, None, None)])
  }

  function Refresh(s: Store, hash: string, now: int, next: string): Store {
    if !Accepts(s, hash, now) then s
    else
      var created := CreateSession(s, s.tokens[hash].userId, now, next);
      created.(tokens := created.tokens[hash := s.tokens[hash].(revokedAt := Some(now), replacedBy := Some(next))])
  }

  function Revoke(t: Token, now: int): Token {
    if t.revokedAt.None? then t.(revokedAt := Some(now)) else t
  }

  function Logout(s: Store, hash: string, now: int): Store {
    if hash in s.tokens then s.(tokens := s.tokens[hash := Revoke(s.tokens[hash], now)]) else s
  }

  const RESET_TTL := 30 * 60 * 1000

  function RequestReset(s: Store, userId: string, now: int, next: string): Store {
    if !Enabled(s, userId) then s
    else
      var revoked := map r | r in s.resets ::
        if s.resets[r].userId == userId
          && s.resets[r].status == Active then s.resets[r].(status := Revoked) else s.resets[r];
      s.(resets := revoked[next := ResetToken(userId, now + RESET_TTL, Active)])
  }

  predicate ResetAccepted(s: Store, hash: string, now: int) {
    && hash in s.resets && s.resets[hash].status == Active && s.resets[hash].expiresAt > now
    && Enabled(s, s.resets[hash].userId)
  }

  function RevokeAll(tokens: map<string, Token>, userId: string, now: int): map<string, Token> {
    map t | t in tokens :: if tokens[t].userId == userId then Revoke(tokens[t], now) else tokens[t]
  }

  function ResetPassword(s: Store, hash: string, passwordHash: string, now: int): Store {
    if !ResetAccepted(s, hash, now) then s
    else
      var userId := s.resets[hash].userId;
      s.(users := s.users[userId := s.users[userId].(passwordHash := passwordHash)],
         resets := s.resets[hash := s.resets[hash].(status := Used)],
         tokens := RevokeAll(s.tokens, userId, now))
  }

  /** The service, whose tables change row by row. */
  class AuthService {
    var users: map<string, User>
    var tokens: map<string, Token>
    var resets: map<string, ResetToken>
    const ttl: int

    function State(): Store
      reads this
    {
      Store(users, tokens, resets, ttl)
    }

    constructor (users: map<string, User>, ttl: int)
      ensures State() == Store(users, map[], map[], ttl)
    {
      this.users, this.tokens, this.resets, this.ttl := users, map[], map[], ttl;
    }

    /** A successful login, after the password check. */
    method OpenSession(userId: string, now: int, hash: string)
      requires hash !in tokens
      modifies this
      ensures State() == CreateSession(old(State()), userId, now, hash)
    {
      tokens := tokens[hash := Token(userId, now + ttl, None, None)];
    }

    method RefreshSession(hash: Option<string>, now: int, next: string) returns (session: Option<string>)
      requires next !in tokens
      modifies this
      ensures session == (if hash.Some? && Accepts(old(State()), hash.value, now) then Some(next) else None)
      ensures State() == if hash.Some? then Refresh(old(State()), hash.value, now, next) else old(State())
    {
      if hash.None? { return None; }
      var presented := hash.value;
      if presented !in tokens || tokens[presented].revokedAt.Some? || tokens[presented].expiresAt <= now
         || tokens[presented].userId !in users || !users[tokens[presented].userId].enabled {
        return None;
      }
      OpenSession(tokens[presented].userId, now, next);
      tokens := tokens[presented := tokens[presented].(revokedAt := Some(now), replacedBy := Some(next))];
      return Some(next);
    }

    method EndSession(hash: string, now: int)
      modifies this
      ensures State() == Logout(old(State()), hash, now)
    {
      if hash in tokens && tokens[hash].revokedAt.None? {
        tokens := tokens[hash := tokens[hash].(revokedAt := Some(now))];
      }
      assert hash in old(tokens) ==> tokens == old(tokens)[hash := Revoke(old(tokens)[hash], now)];
    }

    method RequestPasswordReset(userId: string, now: int, next: string)
      requires next !in resets
      modifies this
      ensures State() == RequestReset(old(State()), userId, now, next)
    {
      if userId !in users || !users[userId].enabled { return; }
      var rest := resets.Keys;
      while rest != {}
        invariant rest <= old(resets).Keys == resets.Keys
        invariant users == old(users) && tokens == old(tokens)
        invariant forall r | r in resets ::
          resets[r] == if r !in rest && old(resets)[r].userId == userId && old(resets)[r].status == Active
                       then old(resets)[r].(status := Revoked) else old(resets)[r]
        decreases rest
      {
        var r :| r in rest;
        if resets[r].userId == userId && resets[r].status == Active {
          resets := resets[r := resets[r].(status := Revoked)];
        }
        rest := rest - {r};
      }
      resets := resets[next := ResetToken(userId, now + RESET_TTL, Active)];
    }

    method CompletePasswordReset(hash: string, passwordHash: string, now: int) returns (accepted: bool)
      modifies this
      ensures accepted <==> ResetAccepted(old(State()), hash, now)
      ensures State() == ResetPassword(old(State()), hash, passwordHash, now)
    {
      accepted := hash in resets && resets[hash].status == Active && resets[hash].expiresAt > now
                  && resets[hash].userId in users && users[resets[hash].userId].enabled;
      if !accepted { return; }
      var userId := resets[hash].userId;
      users := users[userId := users[userId].(passwordHash := passwordHash)];
      resets := resets[hash := resets[hash].(status := Used)];
      var rest := tokens.Keys;
      while rest != {}
        invariant rest <= old(tokens).Keys == tokens.Keys
        invariant users == old(users)[userId := old(users)[userId].(passwordHash := passwordHash)]
        invariant resets == old(resets)[hash := old(resets)[hash].(status := Used)]
        invariant forall t | t in tokens ::
          tokens[t] == if t !in rest
            && old(tokens)[t].userId == userId then Revoke(old(tokens)[t], now) else old(tokens)[t]
        decreases rest
      {
        var t :| t in rest;
        if tokens[t].userId == userId && tokens[t].revokedAt.None? {
          tokens := tokens[t := tokens[t].(revokedAt := Some(now))];
        }
        rest := rest - {t};
      }
      assert tokens == RevokeAll(old(tokens), userId, now);
    }
  }

  // ---- sequential runs ----

  datatype Op =
    | OpLogin(userId: string, now: int, next: string)
    | OpRefresh(hash: string, now: int, next: string)
    | OpLogout(hash: string, now: int)
    | OpRequestReset(userId: string, now: int, next: string)
    | OpReset(hash: string, passwordHash: string, now: int)

  /** Random tokens are new. */
  predicate Allowed(s: Store, op: Op) {
    match op
    case OpLogin(_, _, next) => next !in s.tokens
    case OpRefresh(_, _, next) => next !in s.tokens
    case OpRequestReset(_, _, next) => next !in s.resets
    case _ => true
  }

  function Step(s: Store, op: Op): Store {
    match op
    case OpLogin(userId, now, next) => CreateSession(s, userId, now, next)
    case OpRefresh(hash, now, next) => Refresh(s, hash, now, next)
    case OpLogout(hash, now) => Logout(s, hash, now)
    case OpRequestReset(userId, now, next) => RequestReset(s, userId, now, next)
    case OpReset(hash, passwordHash, now) => ResetPassword(s, hash, passwordHash, now)
  }

  function After(s: Store, ops: seq<Op>): Store {
    if ops == [] then s else Step(After(s, ops[..|ops| - 1]), ops[|ops| - 1])
  }

  predicate Run(s: Store, ops: seq<Op>) {
    ops == [] || (Run(s, ops[..|ops| - 1]) && Allowed(After(s, ops[..|ops| - 1]), ops[|ops| - 1]))
  }

  // ---- chains ----

  /** `a` was rotated into `b`. */
  predicate Replaces(s: Store, a: string, b: string) {
    a in s.tokens && s.tokens[a].replacedBy == Some(b)
  }

  /** The order in which tokens came into being explains every replacement: later, same user, from a
      revoked token, and never two tokens by one. */
  ghost predicate Chained(s: Store, born: map<string, nat>) {
    && born.Keys == s.tokens.Keys
    && (forall a, b | Replaces(s, a, b) ::
          b in s.tokens && born[a] < born[b] && s.tokens[a].revokedAt.Some? && s.tokens[a].userId == s.tokens[b].userId)
    && (forall a, b, c | Replaces(s, a, c) && Replaces(s, b, c) :: a == b)
  }

  function Born(s: Store, born: map<string, nat>, op: Op, time: nat): map<string, nat> {
    match op
    case OpLogin(_, _, next) => born[next := time]
    case OpRefresh(hash, now, next) => if Accepts(s, hash, now) then born[next := time] else born
    case _ => born
  }

  lemma ChainStep(s: Store, born: map<string, nat>, op: Op, time: nat)
    requires Chained(s, born) && Allowed(s, op)
    requires forall t | t in born :: born[t] < time
    ensures Chained(Step(s, op), Born(s, born, op, time))
    ensures forall t | t in Born(s, born, op, time) :: Born(s, born, op, time)[t] < time + 1
  {
    var n := Step(s, op);
    forall a, b | Replaces(n, a, b) && !Replaces(s, a, b) ensures op.OpRefresh? && a == op.hash && b == op.next {
    }
    forall a, b | Replaces(s, a, b) ensures Replaces(n, a, b) || (op.OpRefresh? && a == op.hash) {
    }
  }

  lemma {:induction false} RunChained(s: Store, ops: seq<Op>) returns (born: map<string, nat>)
    requires s.tokens == map[] && Run(s, ops)
    ensures Chained(After(s, ops), born)
    ensures forall t | t in born :: born[t] < |ops|
  {
    if ops == [] {
      born := map[];
    } else {
      var n := |ops| - 1;
      var before := RunChained(s, ops[..n]);
      ChainStep(After(s, ops[..n]), before, ops[n], n);
      born := Born(After(s, ops[..n]), before, ops[n], n);
    }
  }

  /** A path along `replacedById`. */
  ghost predicate Path(s: Store, p: seq<string>) {
    p != [] && forall i | 0 <= i < |p| - 1 :: Replaces(s, p[i], p[i + 1])
  }

  lemma {:induction false} PathAscends(s: Store, born: map<string, nat>, p: seq<string>)
    requires Chained(s, born) && Path(s, p) && |p| > 1
    ensures p[0] in born && p[|p| - 1] in born && born[p[0]] < born[p[|p| - 1]]
  {
    var n := |p| - 1;
    assert Replaces(s, p[n - 1], p[n - 1 + 1]);
    if n > 1 {
      assert Path(s, p[..n]) by {
        forall i | 0 <= i < n - 1 ensures Replaces(s, p[..n][i], p[..n][i + 1]) {
          assert Replaces(s, p[i], p[i + 1]);
        }
      }
      PathAscends(s, born, p[..n]);
    }
  }

  /** After any run the replacements form disjoint acyclic chains of one user's tokens: nobody is
      reached twice, no path returns to its start, and every replaced token is revoked. */
  lemma ChainsAreAcyclic(s: Store, ops: seq<Op>)
    requires s.tokens == map[] && Run(s, ops)
    ensures var t := After(s, ops);
      && (forall p | Path(t, p) && |p| > 1 :: p[0] != p[|p| - 1])
      && (forall a, b, c | Replaces(t, a, c) && Replaces(t, b, c) :: a == b)
      && (forall a, b | Replaces(t, a, b) ::
            b in t.tokens && t.tokens[a].revokedAt.Some? && t.tokens[a].userId == t.tokens[b].userId)
  {
    var born := RunChained(s, ops);
    forall p | Path(After(s, ops), p) && |p| > 1 ensures p[0] != p[|p| - 1] {
      PathAscends(After(s, ops), born, p);
    }
  }

  // ---- one call at a time ----

  /** A new session can be refreshed for its lifetime, while its user is enabled. */
  lemma SessionLifetime(s: Store, userId: string, now: int, next: string, later: int)
    ensures Accepts(CreateSession(s, userId, now, next), next, later) <==>
      userId in s.users && s.users[userId].enabled && later < now + s.ttl
  {
  }

  /** A refresh changes something exactly when its token is known, not revoked, not expired and of an enabled
      user. It then adds one token of that user and revokes the one shown, in favour of the new one. */
  lemma RefreshEffect(s: Store, hash: string, now: int, next: string)
    requires next !in s.tokens
    ensures var n := Refresh(s, hash, now, next);
      && (n != s <==>
          && hash in s.tokens && s.tokens[hash].revokedAt == None && now < s.tokens[hash].expiresAt
          && s.tokens[hash].userId in s.users && s.users[s.tokens[hash].userId].enabled)
      && n.users == s.users && n.resets == s.resets && n.ttl == s.ttl
      && (n != s ==>
          && n.tokens.Keys == s.tokens.Keys + {next}
          && (forall t | t in s.tokens && t != hash :: n.tokens[t] == s.tokens[t])
          && Replaces(n, hash, next) && n.tokens[hash].revokedAt == Some(now)
          && n.tokens[next] == Token(s.tokens[hash].userId, now + s.ttl, None, None))
  {
    if Accepts(s, hash, now) { assert next in Refresh(s, hash, now, next).tokens; }
  }

  /** After a logout the token shown is never accepted again, whatever follows. */
  lemma LogoutEnds(s: Store, hash: string, now: int, ops: seq<Op>, later: int)
    requires hash in s.tokens && Run(Logout(s, hash, now), ops)
    ensures !Accepts(After(Logout(s, hash, now), ops), hash, later)
  {
    StaysRevoked(Logout(s, hash, now), ops, hash);
  }

  /** It changes no other token, no user and no reset, and a token revoked before keeps its time. */
  lemma LogoutFrame(s: Store, hash: string, now: int)
    ensures var n := Logout(s, hash, now);
      && n.users == s.users && n.resets == s.resets && n.ttl == s.ttl && n.tokens.Keys == s.tokens.Keys
      && (forall t | t in s.tokens && t != hash :: n.tokens[t] == s.tokens[t])
      && (hash in s.tokens ==>
          n.tokens[hash] == s.tokens[hash].(
            revokedAt := if s.tokens[hash].revokedAt == None then Some(now) else s.tokens[hash].revokedAt))
  {
  }

  /** A request by an enabled user opens a reset for half an hour and closes that user's earlier ones; any
      other request does nothing. */
  lemma ResetLifetime(s: Store, userId: string, now: int, next: string, later: int)
    requires next !in s.resets
    ensures var n := RequestReset(s, userId, now, next);
      && (ResetAccepted(n, next, later) <==>
          userId in s.users && s.users[userId].enabled && later < now + 30 * 60 * 1000)
      && (n == s <==> !(userId in s.users && s.users[userId].enabled))
      && n.users == s.users && n.tokens == s.tokens && n.ttl == s.ttl
      && (forall r | r in s.resets ::
          && r in n.resets
          && n.resets[r] == if n != s && s.resets[r].userId == userId && s.resets[r].status == Active
                            then s.resets[r].(status := Revoked) else s.resets[r])
  {
    if Enabled(s, userId) { assert next in RequestReset(s, userId, now, next).resets; }
  }

  /** A reset is accepted for an active, unexpired token of an enabled user. It gives that user the new
      password, uses up the token, revokes the user's live tokens, and changes nothing else; a refused one
      changes nothing. */
  lemma ResetEffect(s: Store, hash: string, passwordHash: string, now: int)
    ensures ResetAccepted(s, hash, now) <==>
      && hash in s.resets && s.resets[hash].status == Active && now < s.resets[hash].expiresAt
      && s.resets[hash].userId in s.users && s.users[s.resets[hash].userId].enabled
    ensures var n := ResetPassword(s, hash, passwordHash, now);
      if !ResetAccepted(s, hash, now) then n == s
      else
        var userId := s.resets[hash].userId;
        && n.users.Keys == s.users.Keys && n.users[userId].passwordHash == passwordHash && n.users[userId].enabled
        && (forall u | u in s.users && u != userId :: n.users[u] == s.users[u])
        && n.resets.Keys == s.resets.Keys && n.resets[hash] == s.resets[hash].(status := Used)
        && (forall r | r in s.resets && r != hash :: n.resets[r] == s.resets[r])
        && n.tokens.Keys == s.tokens.Keys && n.ttl == s.ttl
        && (forall t | t in s.tokens ::
            n.tokens[t] == if s.tokens[t].userId == userId && s.tokens[t].revokedAt == None
                           then s.tokens[t].(revokedAt := Some(now)) else s.tokens[t])
  {
  }

  lemma {:induction false} StaysSpent(s: Store, ops: seq<Op>, r: string)
    requires Run(s, ops) && r in s.resets && s.resets[r].status != Active
    ensures r in After(s, ops).resets && After(s, ops).resets[r].status != Active
  {
    if ops != [] { StaysSpent(s, ops[..|ops| - 1], r); }
  }

  /** A reset token is accepted once. */
  lemma ResetOnce(s: Store, hash: string, passwordHash: string, now: int, ops: seq<Op>, later: int)
    requires ResetAccepted(s, hash, now)
    requires Run(ResetPassword(s, hash, passwordHash, now), ops)
    ensures !ResetAccepted(After(ResetPassword(s, hash, passwordHash, now), ops), hash, later)
  {
    StaysSpent(ResetPassword(s, hash, passwordHash, now), ops, hash);
  }

  // ---- revocation is for good ----

  lemma {:induction false} StaysRevoked(s: Store, ops: seq<Op>, hash: string)
    requires Run(s, ops) && hash in s.tokens && s.tokens[hash].revokedAt.Some?
    ensures hash in After(s, ops).tokens && After(s, ops).tokens[hash].revokedAt.Some?
  {
    if ops != [] { StaysRevoked(s, ops[..|ops| - 1], hash); }
  }

  /** A token that was accepted once is never accepted again, whatever happens in between. */
  lemma AcceptedOnce(s: Store, hash: string, now: int, next: string, ops: seq<Op>, later: int)
    requires Accepts(s, hash, now) && next !in s.tokens
    requires Run(Refresh(s, hash, now, next), ops)
    ensures !Accepts(After(Refresh(s, hash, now, next), ops), hash, later)
  {
    StaysRevoked(Refresh(s, hash, now, next), ops, hash);
  }

  /** After a password reset no earlier token of the user is accepted, then or later. */
  lemma ResetRevokesAll(s: Store, reset: string, passwordHash: string, now: int, hash: string, ops: seq<Op>, later: int)
    requires ResetAccepted(s, reset, now) && hash in s.tokens && s.tokens[hash].userId == s.resets[reset].userId
    requires Run(ResetPassword(s, reset, passwordHash, now), ops)
    ensures !Accepts(After(ResetPassword(s, reset, passwordHash, now), ops), hash, later)
  {
    StaysRevoked(ResetPassword(s, reset, passwordHash, now), ops, hash);
  }

  // ---- counting sessions ----

  function Sessions(s: Store, userId: string, now: int): set<string> {
    set t | t in s.tokens && s.tokens[t].userId == userId && Live(s.tokens[t], now)
  }

  /** An accepted refresh swaps one live session of the user for another; nobody else's change. */
  lemma RefreshKeepsSessions(s: Store, hash: string, now: int, next: string, userId: string)
    requires Accepts(s, hash, now) && next !in s.tokens && s.ttl > 0
    ensures var n := Refresh(s, hash, now, next);
      && |Sessions(n, userId, now)| == |Sessions(s, userId, now)|
      && Sessions(n, userId, now) == (if userId == s.tokens[hash].userId
                                      then Sessions(s, userId, now) - {hash} + {next} else Sessions(s, userId, now))
      && Accepts(n, next, now)
  {
    RefreshEffect(s, hash, now, next);
    SwapSession(s, Refresh(s, hash, now, next), hash, now, next, userId);
    if userId == s.tokens[hash].userId { SwapSize(Sessions(s, userId, now), hash, next); }
  }

  lemma SwapSession(s: Store, n: Store, hash: string, now: int, next: string, userId: string)
    requires hash in s.tokens && Live(s.tokens[hash], now) && next !in s.tokens && s.ttl > 0
    requires n.tokens.Keys == s.tokens.Keys + {next}
    requires forall t | t in s.tokens && t != hash :: n.tokens[t] == s.tokens[t]
    requires n.tokens[hash].revokedAt.Some?
    requires n.tokens[next] == Token(s.tokens[hash].userId, now + s.ttl, None, None)
    ensures Sessions(n, userId, now) == (if userId == s.tokens[hash].userId
                                         then Sessions(s, userId, now) - {hash} + {next} else Sessions(s, userId, now))
    ensures userId == s.tokens[hash].userId ==>
      hash in Sessions(s, userId, now) && next !in Sessions(s, userId, now)
  {
  }

  lemma SwapSize(before: set<string>, hash: string, next: string)
    requires hash in before && next !in before
    ensures |before - {hash} + {next}| == |before|
  {
  }

  // ---- reset tokens ----

  ghost predicate OneActiveReset(s: Store) {
    forall a, b | a in s.resets && b in s.resets && s.resets[a].status == Active && s.resets[b].status == Active
      && s.resets[a].userId == s.resets[b].userId :: a == b
  }

  /** A user has at most one active reset token, and a used or revoked one never comes back. */
  lemma {:induction false} ResetTokens(s: Store, ops: seq<Op>)
    requires OneActiveReset(s) && Run(s, ops)
    ensures OneActiveReset(After(s, ops))
    ensures forall r | r in s.resets && s.resets[r].status != Active ::
      r in After(s, ops).resets && After(s, ops).resets[r].status != Active
  {
    if ops != [] {
      ResetTokens(s, ops[..|ops| - 1]);
      OneActiveStep(After(s, ops[..|ops| - 1]), ops[|ops| - 1]);
    }
    forall r | r in s.resets && s.resets[r].status != Active
      ensures r in After(s, ops).resets && After(s, ops).resets[r].status != Active
    {
      StaysSpent(s, ops, r);
    }
  }

  lemma OneActiveStep(s: Store, op: Op)
    requires OneActiveReset(s) && Allowed(s, op)
    ensures OneActiveReset(Step(s, op))
  {
  }
}
