/** Refresh-token rotation: login and the authorization-code grant start a chain, each refresh deletes the
    presented token before it saves the next one, and revocation deletes. Handlers are atomic here. */
module RefreshRotation {
  import opened Options

  /** What a refresh token stands for. */
  datatype Grant = Grant(userID: string, clientID: string, scope: string)

  datatype Entry = Entry(grant: Grant, deadline: Option<int>)

  /** lineage, origins and chains record the past: the chain of every token ever issued, the grant each
      chain began with, and how many chains there are. No handler reads them. */
  datatype State = State(
    store: map<string, Entry>,
    now: int,
    lineage: map<string, nat>,
    origins: map<nat, Grant>,
    chains: nat)

  /** minted is the random token a handler would issue. */
  datatype Action =
    | CodeGrant(grant: Grant, ttl: int, minted: string)
    | Login(userID: string, minted: string)
    | RefreshGrant(token: string, clientID: string, userExists: bool, ttl: int, minted: string)
    | AdminRefresh(token: string, userExists: bool, idleTooLong: bool, minted: string)
    | Revoke(token: string)
    | Tick(now: int)
    | Sweep

  datatype Answer = Refused | Issued(token: string, grant: Grant) | Done

  const ADMIN_CLIENT_ID := "sso-admin"
  const ADMIN_SCOPE := "openid profile email roles"

  const EMPTY := State(map[], 0, map[], map[], 0)

  function Deadline(now: int, ttl: int, defaultTTL: int): Option<int> {
    var effective := if ttl <= 0 then defaultTTL else ttl;
    if effective > 0 then Some(now + effective) else None
  }

  predicate Live(s: State, token: string) {
    token in s.store && (s.store[token].deadline.Some? ==> s.now <= s.store[token].deadline.value)
  }

  /** Random tokens have not been seen before, and the clock does not run backwards. */
  predicate Enabled(s: State, a: Action) {
    match a
    case CodeGrant(_, _, minted) => minted !in s.lineage
    case Login(_, minted) => minted !in s.lineage
    case RefreshGrant(_, _, _, _, minted) => minted !in s.lineage
    case AdminRefresh(_, _, _, minted) => minted !in s.lineage
    case Revoke(_) => true
    case Tick(now) => s.now <= now
    case Sweep => true
  }

  function Begin(s: State, grant: Grant, deadline: Option<int>, minted: string): State {
    State(s.store[minted := Entry(grant, deadline)], s.now, s.lineage[minted := s.chains],
          s.origins[s.chains := grant], s.chains + 1)
  }

  function Burn(s: State, token: string): State {
    s.(store := s.store - {token})
  }

  function Rotate(s: State, token: string, deadline: Option<int>, minted: string): State
    requires token in s.store
  {
    s.(store := (s.store - {token})[minted := Entry(s.store[token].grant, deadline)],
       lineage := s.lineage[minted := ChainOf(s.lineage, token)])
  }

  function ChainOf(lineage: map<string, nat>, token: string): nat {
    if token in lineage then lineage[token] else 0
  }

  /** A refresh gets as far as deleting the token it was given. */
  predicate Accepted(s: State, a: Action) {
    match a
    case RefreshGrant(token, clientID, _, _, _) => token != "" && Live(s, token) && s.store[token].grant.clientID == clientID
    case AdminRefresh(token, userExists, _, _) => token != "" && Live(s, token) && userExists
    case _ => false
  }

  /** Having deleted it, the refresh also issues the next one. */
  predicate Renews(a: Action) {
    match a
    case RefreshGrant(_, _, userExists, _, _) => userExists
    case AdminRefresh(_, _, idleTooLong, _) => !idleTooLong
    case _ => false
  }

  function Next(s: State, a: Action, defaultTTL: int): State {
    match a
    case CodeGrant(grant, ttl, minted) => Begin(s, grant, Deadline(s.now, ttl, defaultTTL), minted)
    case Login(userID, minted) =>
      Begin(s, Grant(userID, ADMIN_CLIENT_ID, ADMIN_SCOPE), Deadline(s.now, 0, defaultTTL), minted)
    case RefreshGrant(token, _, _, ttl, minted) =>
      if !Accepted(s, a) then s
      else if Renews(a) then Rotate(s, token, Deadline(s.now, ttl, defaultTTL), minted)
      else Burn(s, token)
    case AdminRefresh(token, _, _, minted) =>
      if !Accepted(s, a) then s
      else if Renews(a) then Rotate(s, token, Deadline(s.now, 0, defaultTTL), minted)
      else Burn(s, token)
    case Revoke(token) => if token == "" then s else Burn(s, token)
    case Tick(now) => s.(now := now)
    case Sweep => s.(store := map t | t in s.store && Live(s, t) :: s.store[t])
  }

  function AnswerTo(s: State, a: Action): Answer {
    match a
    case CodeGrant(grant, _, minted) => Issued(minted, grant)
    case Login(userID, minted) => Issued(minted, Grant(userID, ADMIN_CLIENT_ID, ADMIN_SCOPE))
    case RefreshGrant(token, _, _, _, minted) =>
      if Accepted(s, a) && Renews(a) then Issued(minted, s.store[token].grant) else Refused
    case AdminRefresh(token, _, _, minted) =>
      if Accepted(s, a) && Renews(a) then Issued(minted, s.store[token].grant) else Refused
    case _ => Done
  }

  // ---- the handlers, step by step ------------------------------------------------------------------

  class TokenService {
    var store: map<string, Entry>
    const defaultTTL: int
    ghost var lineage: map<string, nat>
    ghost var origins: map<nat, Grant>
    ghost var chains: nat

    constructor (defaultTTL: int)
      ensures this.defaultTTL == defaultTTL && View(0) == EMPTY
    {
      this.defaultTTL, store, lineage, origins, chains := defaultTTL, map[], map[], map[], 0;
    }

    ghost function View(now: int): State
      reads this
    {
      State(store, now, lineage, origins, chains)
    }

    method LoadRefreshToken(token: string, now: int) returns (grant: Option<Grant>)
      ensures grant == if Live(View(now), token) then Some(store[token].grant) else None
    {
      if token !in store { return None; }
      var e := store[token];
      if e.deadline.Some? && now > e.deadline.value { return None; }
      return Some(e.grant);
    }

    method DeleteRefreshToken(token: string)
      modifies this`store
      ensures store == old(store) - {token}
    {
      store := store - {token};
    }

    method SaveRefreshToken(grant: Grant, ttl: int, minted: string, now: int)
      modifies this`store
      ensures store == old(store)[minted := Entry(grant, Deadline(now, ttl, defaultTTL))]
    {
      var effective := if ttl <= 0 then defaultTTL else ttl;
      store := store[minted := Entry(grant, if effective > 0 then Some(now + effective) else None)];
    }

    method HandleAuthCodeGrant(grant: Grant, ttl: int, minted: string, now: int) returns (answer: Answer)
      requires Enabled(View(now), CodeGrant(grant, ttl, minted))
      modifies this
      ensures View(now) == Next(old(View(now)), CodeGrant(grant, ttl, minted), defaultTTL)
      ensures answer == AnswerTo(old(View(now)), CodeGrant(grant, ttl, minted))
    {
      SaveRefreshToken(grant, ttl, minted, now);
      lineage, origins, chains := lineage[minted := chains], origins[chains := grant], chains + 1;
      return Issued(minted, grant);
    }

    method HandleLogin(userID: string, minted: string, now: int) returns (answer: Answer)
      requires Enabled(View(now), Login(userID, minted))
      modifies this
      ensures View(now) == Next(old(View(now)), Login(userID, minted), defaultTTL)
      ensures answer == AnswerTo(old(View(now)), Login(userID, minted))
    {
      var grant := Grant(userID, ADMIN_CLIENT_ID, ADMIN_SCOPE);
      SaveRefreshToken(grant, 0, minted, now);
      lineage, origins, chains := lineage[minted := chains], origins[chains := grant], chains + 1;
      return Issued(minted, grant);
    }

    /** The token endpoint: the client is checked before the old token is deleted, the user after. */
    method HandleRefreshTokenGrant(token: string, clientID: string, userExists: bool, ttl: int, minted: string, now: int)
      returns (answer: Answer)
      requires Enabled(View(now), RefreshGrant(token, clientID, userExists, ttl, minted))
      modifies this
      ensures View(now) == Next(old(View(now)), RefreshGrant(token, clientID, userExists, ttl, minted), defaultTTL)
      ensures answer == AnswerTo(old(View(now)), RefreshGrant(token, clientID, userExists, ttl, minted))
    {
      if token == "" { return Refused; }
      var grant := LoadRefreshToken(token, now);
      if grant.None? { return Refused; }
      if grant.value.clientID != clientID { return Refused; }
      DeleteRefreshToken(token);
      if !userExists { return Refused; }
      SaveRefreshToken(grant.value, ttl, minted, now);
      lineage := lineage[minted := ChainOf(lineage, token)];
      return Issued(minted, grant.value);
    }

    /** The console's refresh: the user is checked before the old token is deleted, and an idle session
        deletes it without a successor. */
    method HandleRefresh(token: string, userExists: bool, idleTooLong: bool, minted: string, now: int)
      returns (answer: Answer)
      requires Enabled(View(now), AdminRefresh(token, userExists, idleTooLong, minted))
      modifies this
      ensures View(now) == Next(old(View(now)), AdminRefresh(token, userExists, idleTooLong, minted), defaultTTL)
      ensures answer == AnswerTo(old(View(now)), AdminRefresh(token, userExists, idleTooLong, minted))
    {
      if token == "" { return Refused; }
      var grant := LoadRefreshToken(token, now);
      if grant.None? { return Refused; }
      if !userExists { return Refused; }
      if idleTooLong {
        DeleteRefreshToken(token);
        return Refused;
      }
      DeleteRefreshToken(token);
      SaveRefreshToken(grant.value, 0, minted, now);
      lineage := lineage[minted := ChainOf(lineage, token)];
      return Issued(minted, grant.value);
    }

    method HandleRevoke(token: string, now: int) returns (answer: Answer)
      modifies this`store
      ensures View(now) == Next(old(View(now)), Revoke(token), defaultTTL) && answer == Done
    {
      if token == "" { return Done; }
      DeleteRefreshToken(token);
      return Done;
    }
  }

  // ---- runs ---------------------------------------------------------------------------------------------

  ghost predicate IsRun(s: State, actions: seq<Action>, ttl: int)
    decreases |actions|
  {
    actions != [] ==> Enabled(s, actions[0]) && IsRun(Next(s, actions[0], ttl), actions[1..], ttl)
  }

  function Run(s: State, actions: seq<Action>, ttl: int): State
    decreases |actions|
  {
    if actions == [] then s else Run(Next(s, actions[0], ttl), actions[1..], ttl)
  }

  ghost predicate Recorded(s: State) {
    && (forall t | t in s.store :: t in s.lineage)
    && (forall t | t in s.lineage :: s.lineage[t] < s.chains && s.lineage[t] in s.origins)
    && (forall t | t in s.store :: s.store[t].grant == s.origins[s.lineage[t]])
  }

  lemma StepKeepsRecord(s: State, a: Action, ttl: int)
    requires Recorded(s) && Enabled(s, a)
    ensures Recorded(Next(s, a, ttl))
  {
  }

  /** One token per chain, carrying what the chain was granted. */
  ghost predicate Inv(s: State) {
    && Recorded(s)
    && (forall t, u | t in s.store && u in s.store && s.lineage[t] == s.lineage[u] :: t == u)
  }

  lemma StepKeepsOne(s: State, a: Action, ttl: int, t: string, u: string)
    requires Inv(s) && Enabled(s, a) && Recorded(Next(s, a, ttl))
    requires t in Next(s, a, ttl).store && u in Next(s, a, ttl).store
    requires Next(s, a, ttl).lineage[t] == Next(s, a, ttl).lineage[u]
    ensures t == u
  {
  }

  lemma StepKeepsInv(s: State, a: Action, ttl: int)
    requires Inv(s) && Enabled(s, a)
    ensures Inv(Next(s, a, ttl))
  {
    StepKeepsRecord(s, a, ttl);
    var n := Next(s, a, ttl);
    forall t, u | t in n.store && u in n.store && n.lineage[t] == n.lineage[u] ensures t == u {
      StepKeepsOne(s, a, ttl, t, u);
    }
  }

  lemma {:induction false} RunKeepsInv(s: State, actions: seq<Action>, ttl: int)
    requires Inv(s) && IsRun(s, actions, ttl)
    ensures Inv(Run(s, actions, ttl))
    decreases |actions|
  {
    if actions != [] {
      StepKeepsInv(s, actions[0], ttl);
      RunKeepsInv(Next(s, actions[0], ttl), actions[1..], ttl);
    }
  }

  /** In every state any run of the handlers reaches, two stored tokens of one chain are one token, and
      every stored token carries the user, client and scope its chain began with. */
  lemma OneTokenPerChain(actions: seq<Action>, ttl: int)
    requires IsRun(EMPTY, actions, ttl)
    ensures var s := Run(EMPTY, actions, ttl);
      && (forall t | t in s.store :: t in s.lineage && s.lineage[t] in s.origins && s.store[t].grant == s.origins[s.lineage[t]])
      && (forall t, u | t in s.store && u in s.store && s.lineage[t] == s.lineage[u] :: t == u)
  {
    RunKeepsInv(EMPTY, actions, ttl);
  }

  /** The client a refresh acts for: the one the token endpoint authenticated, or the console itself. */
  function ActsFor(a: Action): string
    requires a.RefreshGrant? || a.AdminRefresh?
  {
    if a.RefreshGrant? then a.clientID else ADMIN_CLIENT_ID
  }

  /** In any run, a refresh hands out the grant its chain began with. It does so for another client than
      the chain's (against section 6 of RFC 6749) exactly when the console refreshes an unexpired token of
      another client whose user exists and is not idle too long; the token endpoint never does. */
  lemma RenewedForAnotherIff(actions: seq<Action>, ttl: int, a: Action)
    requires IsRun(EMPTY, actions, ttl) && (a.RefreshGrant? || a.AdminRefresh?)
    ensures var s := Run(EMPTY, actions, ttl);
      && (AnswerTo(s, a).Issued? ==>
            && a.token in s.lineage && s.lineage[a.token] in s.origins && Live(s, a.token)
            && AnswerTo(s, a).grant == s.origins[s.lineage[a.token]])
      && (AnswerTo(s, a).Issued? && AnswerTo(s, a).grant.clientID != ActsFor(a) <==>
            && a.AdminRefresh? && a.token != "" && Live(s, a.token) && a.userExists && !a.idleTooLong
            && s.store[a.token].grant.clientID != ADMIN_CLIENT_ID)
  {
    RunKeepsInv(EMPTY, actions, ttl);
  }

  /** A run in which the console renews the token of an application that is no party to it. */
  lemma ConsoleRenewsForeignToken(ttl: int)
    requires ttl > 0
    ensures var actions := [CodeGrant(Grant("u", "app", "openid"), 0, "t1")];
      var a := AdminRefresh("t1", true, false, "t2");
      && IsRun(EMPTY, actions, ttl) && Enabled(Run(EMPTY, actions, ttl), a)
      && AnswerTo(Run(EMPTY, actions, ttl), a) == Issued("t2", Grant("u", "app", "openid"))
      && Grant("u", "app", "openid").clientID != ActsFor(a)
  {
    var actions := [CodeGrant(Grant("u", "app", "openid"), 0, "t1")];
    var s := Next(EMPTY, actions[0], ttl);
    assert actions[1..] == [];
    assert Run(s, actions[1..], ttl) == s;
    assert "t1" != "t2" && |"app"| != |ADMIN_CLIENT_ID|;
  }

  ghost predicate ChainDead(s: State, chain: nat) {
    forall t | t in s.store && t in s.lineage :: s.lineage[t] != chain
  }

  lemma StepKeepsDead(s: State, a: Action, ttl: int, chain: nat)
    requires Inv(s) && Enabled(s, a) && ChainDead(s, chain) && chain < s.chains
    ensures ChainDead(Next(s, a, ttl), chain) && chain < Next(s, a, ttl).chains
  {
  }

  /** A chain without a stored token never gets one again. */
  lemma {:induction false} DeadStaysDead(s: State, actions: seq<Action>, ttl: int, chain: nat)
    requires Inv(s) && IsRun(s, actions, ttl) && ChainDead(s, chain) && chain < s.chains
    ensures ChainDead(Run(s, actions, ttl), chain)
    decreases |actions|
  {
    if actions != [] {
      StepKeepsInv(s, actions[0], ttl);
      StepKeepsDead(s, actions[0], ttl, chain);
      DeadStaysDead(Next(s, actions[0], ttl), actions[1..], ttl, chain);
    }
  }

  /** Revoking a chain's token ends the chain: whatever runs afterwards, no token of the chain is
      accepted by either refresh handler. */
  lemma RevokeEndsChain(s: State, token: string, actions: seq<Action>, ttl: int, later: Action)
    requires Inv(s) && token != "" && token in s.store
    requires IsRun(Next(s, Revoke(token), ttl), actions, ttl)
    requires var end := Run(Next(s, Revoke(token), ttl), actions, ttl);
      && (later.RefreshGrant? || later.AdminRefresh?)
      && later.token in end.lineage && end.lineage[later.token] == s.lineage[token]
    ensures !Accepted(Run(Next(s, Revoke(token), ttl), actions, ttl), later)
  {
    var s' := Next(s, Revoke(token), ttl);
    StepKeepsInv(s, Revoke(token), ttl);
    DeadStaysDead(s', actions, ttl, s.lineage[token]);
    RunKeepsInv(s', actions, ttl);
  }

  lemma StepKeepsSpent(s: State, a: Action, ttl: int, token: string)
    requires Inv(s) && Enabled(s, a) && token in s.lineage && token !in s.store
    ensures token in Next(s, a, ttl).lineage && token !in Next(s, a, ttl).store
  {
  }

  lemma {:induction false} SpentStaysSpent(s: State, actions: seq<Action>, ttl: int, token: string)
    requires Inv(s) && IsRun(s, actions, ttl) && token in s.lineage && token !in s.store
    ensures token !in Run(s, actions, ttl).store
    decreases |actions|
  {
    if actions != [] {
      StepKeepsInv(s, actions[0], ttl);
      StepKeepsSpent(s, actions[0], ttl, token);
      SpentStaysSpent(Next(s, actions[0], ttl), actions[1..], ttl, token);
    }
  }

  /** A token a refresh accepted is never accepted again, in any later run, whether or not the refresh
      went on to issue a successor; the successor is in the same chain with the same grant. */
  lemma AcceptedOnce(s: State, a: Action, actions: seq<Action>, ttl: int, later: Action)
    requires Inv(s) && Enabled(s, a) && Accepted(s, a)
    requires IsRun(Next(s, a, ttl), actions, ttl)
    requires (later.RefreshGrant? || later.AdminRefresh?) && later.token == a.token
    ensures !Accepted(Run(Next(s, a, ttl), actions, ttl), later)
    ensures AnswerTo(s, a).Issued? ==>
              && AnswerTo(s, a).token == a.minted && a.minted in Next(s, a, ttl).store
              && Next(s, a, ttl).lineage[a.minted] == s.lineage[a.token]
              && AnswerTo(s, a).grant == s.origins[s.lineage[a.token]] == Next(s, a, ttl).store[a.minted].grant
  {
    StepKeepsInv(s, a, ttl);
    SpentStaysSpent(Next(s, a, ttl), actions, ttl, a.token);
  }

  // ---- how long a token lives ------------------------------------------------------------------------------

  /** No step of the run revokes the token or accepts it for a refresh. */
  predicate Spares(s: State, actions: seq<Action>, ttl: int, token: string)
    decreases |actions|
  {
    actions != [] ==>
      && !(actions[0].Revoke? && actions[0].token == token)
      && !((actions[0].RefreshGrant? || actions[0].AdminRefresh?) && actions[0].token == token && Accepted(s, actions[0]))
      && Spares(Next(s, actions[0], ttl), actions[1..], ttl, token)
  }

  /** The token is stored until end, or it has been swept after it; without an end it is stored. */
  predicate Aging(s: State, token: string, grant: Grant, issued: int, d: int) {
    && issued <= s.now && token in s.lineage
    && (token in s.store ==> s.store[token].grant == grant && s.store[token].deadline == if d > 0 then Some(issued + d) else None)
    && (token !in s.store ==> d > 0 && s.now > issued + d)
  }

  lemma StepAges(s: State, a: Action, ttl: int, token: string, grant: Grant, issued: int, d: int)
    requires Aging(s, token, grant, issued, d) && Enabled(s, a) && Spares(s, [a], ttl, token)
    ensures Aging(Next(s, a, ttl), token, grant, issued, d)
  {
    assert [a][0] == a;
  }

  lemma {:induction false} RunAges(s: State, actions: seq<Action>, ttl: int, token: string, grant: Grant, issued: int, d: int)
    requires Aging(s, token, grant, issued, d) && IsRun(s, actions, ttl) && Spares(s, actions, ttl, token)
    ensures Aging(Run(s, actions, ttl), token, grant, issued, d)
    decreases |actions|
  {
    if actions != [] {
      assert Spares(s, [actions[0]], ttl, token) by { assert [actions[0]][1..] == []; }
      StepAges(s, actions[0], ttl, token, grant, issued, d);
      RunAges(Next(s, actions[0], ttl), actions[1..], ttl, token, grant, issued, d);
    }
  }

  /** A token issued by a code grant, a login or either refresh, and neither revoked nor used for a refresh
      since, is accepted at time t by its client, and by the console for a user who exists, exactly when t is
      at most d after the issue, where d is the client's lifetime if positive and the default otherwise, the
      console's always being the default; with d <= 0 it never expires. */
  lemma TokenLivesExactly(s: State, a: Action, actions: seq<Action>, defaultTTL: int, t: int, later: Action)
    requires Enabled(s, a) && AnswerTo(s, a).Issued? && AnswerTo(s, a).token != ""
    requires IsRun(Next(s, a, defaultTTL), actions, defaultTTL)
    requires Spares(Next(s, a, defaultTTL), actions, defaultTTL, AnswerTo(s, a).token)
    requires var grant := AnswerTo(s, a).grant;
      || (later.RefreshGrant? && later.token == AnswerTo(s, a).token && later.clientID == grant.clientID)
      || (later.AdminRefresh? && later.token == AnswerTo(s, a).token && later.userExists)
    ensures var d := if (a.CodeGrant? || a.RefreshGrant?) && a.ttl > 0 then a.ttl else defaultTTL;
      var end := Run(Next(s, a, defaultTTL), actions, defaultTTL);
      t >= end.now ==> (Accepted(Next(end, Tick(t), defaultTTL), later) <==> d <= 0 || t <= s.now + d)
  {
    var d := if (a.CodeGrant? || a.RefreshGrant?) && a.ttl > 0 then a.ttl else defaultTTL;
    RunAges(Next(s, a, defaultTTL), actions, defaultTTL, AnswerTo(s, a).token, AnswerTo(s, a).grant, s.now, d);
  }

  // ---- what a handler does, written out --------------------------------------------------------------------

  predicate Expired(s: State, token: string)
    requires token in s.store
  {
    s.store[token].deadline.Some? && s.now > s.store[token].deadline.value
  }

  /** Refused, and nothing stored changes. */
  predicate Untouched(s: State, a: Action, ttl: int) { AnswerTo(s, a) == Refused && Next(s, a, ttl).store == s.store }

  /** Refused, and the token is gone. */
  predicate UsedUp(s: State, a: Action, ttl: int, token: string) {
    AnswerTo(s, a) == Refused && Next(s, a, ttl).store == s.store - {token}
  }

  /** The token is replaced by the minted one, which carries its grant. */
  predicate Replaced(s: State, a: Action, ttl: int, token: string, minted: string)
    requires token in s.store
  {
    var n := Next(s, a, ttl);
    && AnswerTo(s, a) == Issued(minted, s.store[token].grant)
    && n.store.Keys == s.store.Keys - {token} + {minted} && n.store[minted].grant == s.store[token].grant
    && forall t | t in s.store && t != token && t != minted :: n.store[t] == s.store[t]
  }

  /** The token endpoint refuses an unknown, expired or foreign token and keeps it; it uses up its client's
      token, and replaces it if the user still exists. */
  lemma TokenEndpointSays(s: State, a: Action, ttl: int)
    requires a.RefreshGrant? && Enabled(s, a)
    ensures if a.token == "" || a.token !in s.store || Expired(s, a.token) || s.store[a.token].grant.clientID != a.clientID
            then Untouched(s, a, ttl)
            else if a.userExists then Replaced(s, a, ttl, a.token, a.minted)
            else UsedUp(s, a, ttl, a.token)
  {
  }

  /** The console refuses an unknown or expired token, or one whose user is gone, and keeps it; it uses up any
      other, and replaces it unless the session was idle too long. */
  lemma ConsoleSays(s: State, a: Action, ttl: int)
    requires a.AdminRefresh? && Enabled(s, a)
    ensures if a.token == "" || a.token !in s.store || Expired(s, a.token) || !a.userExists then Untouched(s, a, ttl)
            else if !a.idleTooLong then Replaced(s, a, ttl, a.token, a.minted)
            else UsedUp(s, a, ttl, a.token)
  {
  }

  /** A code grant and a login store the minted token next to the others, the console's own for a login; a
      revocation removes its token and a sweep the expired ones. */
  lemma OtherHandlersSay(s: State, a: Action, ttl: int)
    requires Enabled(s, a)
    ensures a.CodeGrant? || a.Login? ==>
              var grant := if a.CodeGrant? then a.grant else Grant(a.userID, "sso-admin", "openid profile email roles");
              var n := Next(s, a, ttl);
              && AnswerTo(s, a) == Issued(a.minted, grant) && n.store.Keys == s.store.Keys + {a.minted}
              && n.store[a.minted].grant == grant && forall t | t in s.store && t != a.minted :: n.store[t] == s.store[t]
    ensures a.Revoke? ==> Next(s, a, ttl).store == if a.token == "" then s.store else s.store - {a.token}
    ensures a.Sweep? ==> forall t :: t in Next(s, a, ttl).store <==> t in s.store && !Expired(s, t)
    ensures a.Sweep? ==> forall t | t in Next(s, a, ttl).store :: Next(s, a, ttl).store[t] == s.store[t]
  {
  }
}
