/** One-time credentials: authorization codes, CAS tickets, captcha challenges and tickets, and WeCom
    states are each redeemed by a Get, then a Del, then an answer, and requests may interleave. */
module OneTime {
  import opened Options
  import opened DeptPaths

  datatype Kind = KAuthCode | KCasTicket | KChallenge | KCaptchaTicket | KState

  datatype Key = Key(kind: Kind, secret: string)

  /** What is stored under a key when it is issued. */
  datatype Credential =
    | AuthCode(clientID: string, redirectURI: string, userID: string, scope: string, challenge: string, challengeMethod: string)
    | CasTicket(service: string, userID: string)
    | Challenge(expectX: int)
    | CaptchaTicket
    | WeComState(mode: string)

  /** What a request presents besides the key. laterOK sums up the checks after redemption that depend on
      other tables, such as the user still existing. */
  datatype Presented =
    | ForCode(client: string, redirect: string, verifier: string, laterOK: bool)
    | ForTicket(service: string, laterOK: bool)
    | ForChallenge(x: int, durationMs: int)
    | ForCaptchaTicket
    | ForState

  function KindOf(c: Credential): Kind {
    match c
    case AuthCode(_, _, _, _, _, _) => KAuthCode
    case CasTicket(_, _) => KCasTicket
    case Challenge(_) => KChallenge
    case CaptchaTicket => KCaptchaTicket
    case WeComState(_) => KState
  }

  function KindFor(p: Presented): Kind {
    match p
    case ForCode(_, _, _, _) => KAuthCode
    case ForTicket(_, _) => KCasTicket
    case ForChallenge(_, _) => KChallenge
    case ForCaptchaTicket => KCaptchaTicket
    case ForState => KState
  }

  // ---- the checks ------------------------------------------------------------------------------------

  const MIN_DRAG_MS := 250
  const MATCH_TOLERANCE := 6

  predicate TrailingMark(c: char) { c == '?' || c == '/' }

  /** Issuing stores, and redeeming compares, the URI without its trailing '?' and '/'. */
  method NormalizeRedirectURI(uri: string) returns (r: string)
    ensures r == TrimRight(uri, TrailingMark)
  {
    r := uri;
    while |r| > 0 && (r[|r| - 1] == '?' || r[|r| - 1] == '/')
      invariant TrimRight(r, TrailingMark) == TrimRight(uri, TrailingMark)
      decreases |r|
    {
      r := r[..|r| - 1];
    }
  }

  /** Only S256 is accepted; s256 is the base64url SHA-256 of the verifier. */
  predicate VerifyPKCE(s256: string -> string, verifier: string, challenge: string, challengeMethod: string) {
    challengeMethod == "S256" && s256(verifier) == challenge
  }

  predicate MatchService(want: string, got: string) {
    want != "" && TrimRight(want, IsSlash) == TrimRight(got, IsSlash)
  }

  const STATE_PREFIX := "wecom."

  /** Checked before the store is read. */
  predicate Admissible(secret: string, p: Presented) {
    match p
    case ForCode(_, _, _, _) => true
    case ForTicket(service, _) => secret != "" && service != ""
    case ForChallenge(_, _) => secret != ""
    case ForCaptchaTicket => secret != ""
    case ForState => STATE_PREFIX <= secret
  }

  /** Checked before the Del: a code presented by another client is refused and stays redeemable. */
  predicate BeforeDel(secret: string, c: Credential, p: Presented) {
    KindOf(c) == KindFor(p) && Admissible(secret, p) && (c.AuthCode? ==> c.clientID == p.client)
  }

  /** Checked after the Del: failing here uses the credential up. */
  predicate AfterDel(s256: string -> string, c: Credential, p: Presented)
    requires KindOf(c) == KindFor(p)
  {
    match c
    case AuthCode(_, redirectURI, _, _, challenge, challengeMethod) =>
      && redirectURI == TrimRight(p.redirect, TrailingMark)
      && (challenge != "" ==> VerifyPKCE(s256, p.verifier, challenge, challengeMethod))
      && p.laterOK
    case CasTicket(service, _) => MatchService(service, p.service) && p.laterOK
    case Challenge(expectX) =>
      p.durationMs >= MIN_DRAG_MS && -MATCH_TOLERANCE <= p.x - expectX <= MATCH_TOLERANCE
    case CaptchaTicket => true
    case WeComState(_) => true
  }

  // ---- one request on its own -----------------------------------------------------------------------------

  datatype Entry = Entry(cred: Credential, deadline: Option<int>)

  type Store = map<Key, Entry>

  predicate Live(store: Store, key: Key, now: int) {
    key in store && (store[key].deadline.Some? ==> now <= store[key].deadline.value)
  }

  /** Accepted exactly when the credential is live and both checks pass. */
  function GrantedTo(s256: string -> string, store: Store, key: Key, p: Presented, now: int): Option<Credential> {
    if Live(store, key, now) && BeforeDel(key.secret, store[key].cred, p) && AfterDel(s256, store[key].cred, p)
    then Some(store[key].cred) else None
  }

  /** Used up as soon as it is live and the first check passes. */
  function StoreAfter(store: Store, key: Key, p: Presented, now: int): Store {
    if Live(store, key, now) && BeforeDel(key.secret, store[key].cred, p) then store - {key} else store
  }

  class CredentialStore {
    var store: Store
    const s256: string -> string

    constructor (s256: string -> string)
      ensures this.s256 == s256 && store == map[]
    {
      this.s256, store := s256, map[];
    }

    method Issue(key: Key, cred: Credential, ttl: int, now: int)
      modifies this
      ensures store == old(store)[key := Entry(cred, if ttl > 0 then Some(now + ttl) else None)]
    {
      store := store[key := Entry(cred, if ttl > 0 then Some(now + ttl) else None)];
    }

    /** A whole redemption without interference. */
    method Redeem(key: Key, p: Presented, now: int) returns (granted: Option<Credential>)
      modifies this
      ensures granted == GrantedTo(s256, old(store), key, p, now)
      ensures store == StoreAfter(old(store), key, p, now)
    {
      if key !in store { return None; }
      var e := store[key];
      if e.deadline.Some? && now > e.deadline.value { return None; }
      if !BeforeDel(key.secret, e.cred, p) { return None; }
      store := store - {key};
      if !AfterDel(s256, e.cred, p) { return None; }
      return Some(e.cred);
    }
  }

  // ---- what a redemption asks for, written out -----------------------------------------------------------

  /** The two services are the same up to slashes at their ends. */
  predicate SameButSlashes(a: string, b: string) {
    exists n: nat | n <= |a| && n <= |b| ::
      && a[..n] == b[..n] && (n > 0 ==> a[n - 1] != '/')
      && (forall i | n <= i < |a| :: a[i] == '/') && (forall i | n <= i < |b| :: b[i] == '/')
  }

  /** issued is the URI got without the question marks and slashes at its end. */
  predicate IsWithoutMarks(got: string, issued: string) {
    && issued <= got && (forall i | |issued| <= i < |got| :: got[i] == '?' || got[i] == '/')
    && (issued != "" ==> issued[|issued| - 1] != '?' && issued[|issued| - 1] != '/')
  }

  lemma TrimRightIs(s: string, n: nat, cut: char -> bool)
    requires n <= |s| && (n > 0 ==> !cut(s[n - 1])) && forall i | n <= i < |s| :: cut(s[i])
    ensures TrimRight(s, cut) == s[..n]
  {
    TrimRightIsPrefix(s, cut);
  }

  lemma TrimmedAlikeIff(a: string, b: string)
    ensures TrimRight(a, IsSlash) == TrimRight(b, IsSlash) <==> SameButSlashes(a, b)
  {
    TrimRightIsPrefix(a, IsSlash);
    TrimRightIsPrefix(b, IsSlash);
    if TrimRight(a, IsSlash) == TrimRight(b, IsSlash) {
      var n := |TrimRight(a, IsSlash)|;
      assert a[..n] == b[..n];
    }
    if SameButSlashes(a, b) {
      var n: nat :| n <= |a| && n <= |b| && a[..n] == b[..n] && (n > 0 ==> a[n - 1] != '/')
        && (forall i | n <= i < |a| :: a[i] == '/') && (forall i | n <= i < |b| :: b[i] == '/');
      assert n > 0 ==> b[n - 1] == b[..n][n - 1] == a[..n][n - 1];
      TrimRightIs(a, n, IsSlash);
      TrimRightIs(b, n, IsSlash);
    }
  }

  lemma TrimmedMarksIff(got: string, issued: string)
    ensures issued == TrimRight(got, TrailingMark) <==> IsWithoutMarks(got, issued)
  {
    TrimRightIsPrefix(got, TrailingMark);
    if IsWithoutMarks(got, issued) { TrimRightIs(got, |issued|, TrailingMark); }
  }

  /** What a live credential c asks of the request that presents it under the key's secret. */
  predicate Asks(s256: string -> string, secret: string, c: Credential, p: Presented) {
    match (c, p)
    case (AuthCode(clientID, redirectURI, _, _, challenge, challengeMethod), ForCode(client, redirect, verifier, laterOK)) =>
      && client == clientID && IsWithoutMarks(redirect, redirectURI)
      && (challenge == "" || (challengeMethod == "S256" && s256(verifier) == challenge)) && laterOK
    case (CasTicket(issued, _), ForTicket(service, laterOK)) =>
      secret != "" && service != "" && issued != "" && SameButSlashes(issued, service) && laterOK
    case (Challenge(expectX), ForChallenge(x, durationMs)) =>
      secret != "" && -6 <= x - expectX <= 6 && durationMs >= 250
    case (CaptchaTicket, ForCaptchaTicket) => secret != ""
    case (WeComState(_), ForState) => |secret| >= 6 && secret[..6] == "wecom."
    case _ => false
  }

  /** What it asks before it is used up. */
  predicate AsksFirst(secret: string, c: Credential, p: Presented) {
    match (c, p)
    case (AuthCode(clientID, _, _, _, _, _), ForCode(client, _, _, _)) => client == clientID
    case (CasTicket(_, _), ForTicket(service, _)) => secret != "" && service != ""
    case (Challenge(_), ForChallenge(_, _)) => secret != ""
    case (CaptchaTicket, ForCaptchaTicket) => secret != ""
    case (WeComState(_), ForState) => |secret| >= 6 && secret[..6] == "wecom."
    case _ => false
  }

  /** A redemption is granted exactly when the credential is stored, not past its deadline, and gets what it
      asks for; it is used up exactly when it gets what it asks for first. */
  lemma RedeemedExactly(s256: string -> string, store: Store, key: Key, p: Presented, now: int)
    ensures var live := key in store && (store[key].deadline.None? || now <= store[key].deadline.value);
      && GrantedTo(s256, store, key, p, now)
         == (if live && Asks(s256, key.secret, store[key].cred, p) then Some(store[key].cred) else None)
      && StoreAfter(store, key, p, now) == (if live && AsksFirst(key.secret, store[key].cred, p) then store - {key} else store)
  {
    if key in store {
      match (store[key].cred, p)
      case (AuthCode(_, redirectURI, _, _, _, _), ForCode(_, redirect, _, _)) => TrimmedMarksIff(redirect, redirectURI);
      case (CasTicket(issued, _), ForTicket(service, _)) => TrimmedAlikeIff(issued, service);
      case _ =>
    }
  }

  // ---- interleaved requests ------------------------------------------------------------------------------------

  datatype Phase = Begun | Holding(cred: Credential) | Consumed(cred: Credential) | Refused | Granted(cred: Credential)

  datatype Request = Request(key: Key, presented: Presented, phase: Phase)

  datatype Event = Got(r: nat) | Deleted(r: nat) | Succeeded(r: nat)

  /** issued and history record the past; no step looks at them but to keep secrets fresh. */
  datatype State = State(
    store: Store,
    requests: map<nat, Request>,
    now: int,
    issued: map<Key, Entry>,
    history: seq<Event>)

  datatype Action =
    | Issuing(key: Key, cred: Credential, deadline: Option<int>)
    | Begin(r: nat, key: Key, presented: Presented)
    | Get(r: nat)
    | Del(r: nat)
    | Reply(r: nat)
    | Tick(now: int)
    | Sweep

  const INITIAL := State(map[], map[], 0, map[], [])

  /** Secrets are random, so a key is issued at most once; a request runs Get, Del, Reply in this order. */
  predicate Enabled(s: State, a: Action) {
    match a
    case Issuing(key, cred, deadline) => key !in s.issued && KindOf(cred) == key.kind
    case Begin(r, key, presented) => r !in s.requests && KindFor(presented) == key.kind
    case Get(r) => r in s.requests && s.requests[r].phase.Begun?
    case Del(r) => r in s.requests && s.requests[r].phase.Holding?
    case Reply(r) => r in s.requests && s.requests[r].phase.Consumed?
    case Tick(now) => s.now <= now
    case Sweep => true
  }

  function WithPhase(s: State, r: nat, phase: Phase): map<nat, Request>
    requires r in s.requests
  {
    s.requests[r := s.requests[r].(phase := phase)]
  }

  function Next(s256: string -> string, s: State, a: Action): State
    requires Enabled(s, a)
  {
    match a
    case Issuing(key, cred, deadline) =>
      s.(store := s.store[key := Entry(cred, deadline)], issued := s.issued[key := Entry(cred, deadline)])
    case Begin(r, key, presented) => s.(requests := s.requests[r := Request(key, presented, Begun)])
    case Get(r) =>
      var q := s.requests[r];
      if Live(s.store, q.key, s.now) && BeforeDel(q.key.secret, s.store[q.key].cred, q.presented)
      then s.(requests := WithPhase(s, r, Holding(s.store[q.key].cred)), history := s.history + [Got(r)])
      else s.(requests := WithPhase(s, r, Refused))
    case Del(r) =>
      var q := s.requests[r];
      s.(store := s.store - {q.key}, requests := WithPhase(s, r, Consumed(q.phase.cred)),
         history := s.history + [Deleted(r)])
    case Reply(r) =>
      var q := s.requests[r];
      if KindOf(q.phase.cred) == KindFor(q.presented) && AfterDel(s256, q.phase.cred, q.presented)
      then s.(requests := WithPhase(s, r, Granted(q.phase.cred)), history := s.history + [Succeeded(r)])
      else s.(requests := WithPhase(s, r, Refused))
    case Tick(now) => s.(now := now)
    case Sweep => s.(store := map k | k in s.store && Live(s.store, k, s.now) :: s.store[k])
  }

  /** Time only passes, and a sweep drops exactly the entries past their deadline. */
  lemma TimeAndSweepSay(s256: string -> string, s: State, now: int)
    requires s.now <= now
    ensures Enabled(s, Tick(now)) && Next(s256, s, Tick(now)) == State(s.store, s.requests, now, s.issued, s.history)
    ensures var n := Next(s256, s, Sweep);
      && (forall k :: k in n.store <==> k in s.store && (s.store[k].deadline.None? || s.now <= s.store[k].deadline.value))
      && (forall k | k in n.store :: n.store[k] == s.store[k])
      && n.requests == s.requests && n.now == s.now && n.issued == s.issued && n.history == s.history
  {
  }

  predicate IsRun(s256: string -> string, s: State, actions: seq<Action>)
    decreases |actions|
  {
    actions != [] ==> Enabled(s, actions[0]) && IsRun(s256, Next(s256, s, actions[0]), actions[1..])
  }

  function Run(s256: string -> string, s: State, actions: seq<Action>): State
    requires IsRun(s256, s, actions)
    decreases |actions|
  {
    if actions == [] then s else Run(s256, Next(s256, s, actions[0]), actions[1..])
  }

  /** Get, Del and Reply of one request back to back are one whole redemption. */
  lemma UndisturbedIsRedeem(s256: string -> string, s: State, r: nat)
    requires r in s.requests && s.requests[r].phase.Begun?
    ensures var q := s.requests[r];
      var s1 := Next(s256, s, Get(r));
      if Enabled(s1, Del(r)) then
        var s2 := Next(s256, s1, Del(r));
        && Enabled(s2, Reply(r))
        && var s3 := Next(s256, s2, Reply(r));
          && s3.store == StoreAfter(s.store, q.key, q.presented, s.now)
          && s3.requests[r].phase == (match GrantedTo(s256, s.store, q.key, q.presented, s.now)
                                      case Some(c) => Granted(c)
                                      case None => Refused)
      else
        && s1.store == s.store == StoreAfter(s.store, q.key, q.presented, s.now)
        && s1.requests[r].phase == Refused && GrantedTo(s256, s.store, q.key, q.presented, s.now).None?
  {
  }

  // ---- what every step keeps ---------------------------------------------------------------------------------------

  predicate Did(s: State, e: Event) { e in s.history }

  /** A key any request has deleted is out of the store for good. */
  ghost predicate DeletedIsGone(s: State) {
    forall r | Deleted(r) in s.history :: r in s.requests && s.requests[r].key !in s.store && s.requests[r].key in s.issued
  }

  predicate StoreIsIssued(s: State) {
    forall k | k in s.store :: k in s.issued && s.store[k] == s.issued[k]
  }

  /** Every successful Get on a key comes before every Del on it. */
  predicate GetsBeforeDels(s: State) {
    forall i, j | 0 <= i < |s.history| && 0 <= j < |s.history| && s.history[i].Got? && s.history[j].Deleted?
      && s.history[i].r in s.requests && s.history[j].r in s.requests
      && s.requests[s.history[i].r].key == s.requests[s.history[j].r].key :: i < j
  }

  /** The request passes every check against what was issued under its key. */
  predicate Passes(s256: string -> string, s: State, q: Request)
    requires q.key in s.issued
  {
    var c := s.issued[q.key].cred;
    BeforeDel(q.key.secret, c, q.presented) && AfterDel(s256, c, q.presented)
  }

  /** What a request in each phase has done and holds. */
  predicate PhaseOK(s256: string -> string, s: State, r: nat)
    requires r in s.requests
  {
    var q := s.requests[r];
    match q.phase
    case Begun => !Did(s, Got(r)) && !Did(s, Deleted(r)) && !Did(s, Succeeded(r))
    case Refused => !Did(s, Succeeded(r)) && (Did(s, Deleted(r)) ==> q.key in s.issued && !Passes(s256, s, q))
    case Holding(c) =>
      Did(s, Got(r)) && !Did(s, Succeeded(r))
      && q.key in s.issued && s.issued[q.key].cred == c && BeforeDel(q.key.secret, c, q.presented)
    case Consumed(c) =>
      Did(s, Got(r)) && Did(s, Deleted(r)) && !Did(s, Succeeded(r))
      && q.key in s.issued && s.issued[q.key].cred == c && BeforeDel(q.key.secret, c, q.presented)
    case Granted(c) =>
      Did(s, Got(r)) && Did(s, Deleted(r)) && Did(s, Succeeded(r))
      && q.key in s.issued && s.issued[q.key].cred == c && BeforeDel(q.key.secret, c, q.presented) && AfterDel(s256, c, q.presented)
  }

  predicate HistoryKnown(s: State) { forall e | e in s.history :: e.r in s.requests }

  ghost predicate Inv(s256: string -> string, s: State) {
    && StoreIsIssued(s) && DeletedIsGone(s) && GetsBeforeDels(s) && HistoryKnown(s)
    && forall r | r in s.requests :: PhaseOK(s256, s, r)
  }

  lemma StepKeepsOrder(s256: string -> string, s: State, a: Action)
    requires Inv(s256, s) && Enabled(s, a)
    ensures GetsBeforeDels(Next(s256, s, a)) && HistoryKnown(Next(s256, s, a))
  {
    var s' := Next(s256, s, a);
    StepKeepsKnown(s256, s, a);
    assert forall j | 0 <= j < |s.history| :: s.history[j] in s.history;
    forall i: nat, j: nat | i < |s'.history| && j < |s'.history| && s'.history[i].Got? && s'.history[j].Deleted?
      && s'.history[i].r in s'.requests && s'.history[j].r in s'.requests
      && s'.requests[s'.history[i].r].key == s'.requests[s'.history[j].r].key
      ensures i < j
    {
      StepKeepsPair(s256, s, a, i, j);
    }
  }

  /** A step adds at most one event, and no request changes its key. */
  lemma StepKeepsKnown(s256: string -> string, s: State, a: Action)
    requires HistoryKnown(s) && Enabled(s, a)
    ensures HistoryKnown(Next(s256, s, a))
    ensures s.history <= Next(s256, s, a).history && |Next(s256, s, a).history| <= |s.history| + 1
    ensures forall r | r in s.requests :: r in Next(s256, s, a).requests && Next(s256, s, a).requests[r].key == s.requests[r].key
  {
  }

  lemma StepKeepsPair(s256: string -> string, s: State, a: Action, i: nat, j: nat)
    requires GetsBeforeDels(s) && DeletedIsGone(s) && HistoryKnown(s) && Enabled(s, a)
    requires forall k | 0 <= k < |s.history| :: s.history[k] in s.history
    requires var h := Next(s256, s, a).history; var q := Next(s256, s, a).requests;
      && i < |h| && j < |h| && h[i].Got? && h[j].Deleted? && h[i].r in q && h[j].r in q && q[h[i].r].key == q[h[j].r].key
    ensures i < j
  {
    StepKeepsKnown(s256, s, a);
    var n := |s.history|;
    if j < n {
      assert s.history[j] in s.history;
      if i < n { assert s.history[i] in s.history; }
    }
  }

  lemma StepKeepsStoreIssued(s256: string -> string, s: State, a: Action)
    requires StoreIsIssued(s) && Enabled(s, a)
    ensures StoreIsIssued(Next(s256, s, a))
  {
  }

  lemma StepKeepsGone(s256: string -> string, s: State, a: Action, r: nat)
    requires StoreIsIssued(s) && DeletedIsGone(s) && Enabled(s, a) && Deleted(r) in Next(s256, s, a).history
    requires r in s.requests ==> PhaseOK(s256, s, r)
    ensures var n := Next(s256, s, a);
      r in n.requests && n.requests[r].key !in n.store && n.requests[r].key in n.issued
  {
  }

  lemma StepKeepsStore(s256: string -> string, s: State, a: Action)
    requires Inv(s256, s) && Enabled(s, a)
    ensures StoreIsIssued(Next(s256, s, a)) && DeletedIsGone(Next(s256, s, a))
  {
    StepKeepsStoreIssued(s256, s, a);
    forall r | Deleted(r) in Next(s256, s, a).history
      ensures var n := Next(s256, s, a);
        r in n.requests && n.requests[r].key !in n.store && n.requests[r].key in n.issued {
      StepKeepsGone(s256, s, a, r);
    }
  }

  lemma StepKeepsOtherPhase(s256: string -> string, s: State, a: Action, r: nat)
    requires StoreIsIssued(s) && Enabled(s, a) && r in s.requests && PhaseOK(s256, s, r)
    requires r in Next(s256, s, a).requests && Next(s256, s, a).requests[r] == s.requests[r]
    ensures PhaseOK(s256, Next(s256, s, a), r)
  {
  }

  lemma StepMovesPhase(s256: string -> string, s: State, a: Action, r: nat)
    requires StoreIsIssued(s) && HistoryKnown(s) && Enabled(s, a) && (r in s.requests ==> PhaseOK(s256, s, r))
    requires r in Next(s256, s, a).requests && (r in s.requests ==> Next(s256, s, a).requests[r] != s.requests[r])
    ensures PhaseOK(s256, Next(s256, s, a), r)
  {
  }

  lemma StepKeepsPhases(s256: string -> string, s: State, a: Action, r: nat)
    requires Inv(s256, s) && Enabled(s, a) && r in Next(s256, s, a).requests
    ensures PhaseOK(s256, Next(s256, s, a), r)
  {
    if r in s.requests && Next(s256, s, a).requests[r] == s.requests[r] {
      StepKeepsOtherPhase(s256, s, a, r);
    } else {
      StepMovesPhase(s256, s, a, r);
    }
  }

  lemma {:induction false} ReachableInv(s256: string -> string, s: State, actions: seq<Action>)
    requires Inv(s256, s) && IsRun(s256, s, actions)
    ensures Inv(s256, Run(s256, s, actions))
    decreases |actions|
  {
    if actions != [] {
      var a := actions[0];
      StepKeepsOrder(s256, s, a);
      StepKeepsStore(s256, s, a);
      forall r | r in Next(s256, s, a).requests ensures PhaseOK(s256, Next(s256, s, a), r) { StepKeepsPhases(s256, s, a, r); }
      ReachableInv(s256, Next(s256, s, a), actions[1..]);
    }
  }

  // ---- the theorems -----------------------------------------------------------------------------------------------------

  /** Under any interleaving, a request that succeeded did its Get before any Del on the key, its own
      included; and it was granted exactly what was issued under the key, having passed every check. */
  lemma SuccessMeansGotBeforeAnyDel(s256: string -> string, actions: seq<Action>, r: nat)
    requires IsRun(s256, INITIAL, actions)
    requires Did(Run(s256, INITIAL, actions), Succeeded(r))
    ensures var s := Run(s256, INITIAL, actions);
      && r in s.requests && s.requests[r].key in s.issued
      && s.requests[r].phase == Granted(s.issued[s.requests[r].key].cred)
      && BeforeDel(s.requests[r].key.secret, s.issued[s.requests[r].key].cred, s.requests[r].presented)
      && AfterDel(s256, s.issued[s.requests[r].key].cred, s.requests[r].presented)
      && exists i | 0 <= i < |s.history| :: s.history[i] == Got(r)
           && forall j | 0 <= j < |s.history| && s.history[j].Deleted? && s.history[j].r in s.requests
                && s.requests[s.history[j].r].key == s.requests[r].key :: i < j
  {
    ReachableInv(s256, INITIAL, actions);
    var s := Run(s256, INITIAL, actions);
    assert PhaseOK(s256, s, r);
    var i :| 0 <= i < |s.history| && s.history[i] == Got(r);
  }

  /** The tokens of a redeemed authorization code go only to the client, the redirect URI and the PKCE
      challenge the code was issued for (RFC 6749 section 4.1.3, RFC 7636 section 4.6). */
  lemma CodeGoesToItsClient(s256: string -> string, actions: seq<Action>, r: nat, q: Request)
    requires IsRun(s256, INITIAL, actions)
    requires Did(Run(s256, INITIAL, actions), Succeeded(r))
    requires var s := Run(s256, INITIAL, actions);
      r in s.requests && q == s.requests[r] && q.key.kind == KAuthCode && KindFor(q.presented) == KAuthCode
    ensures var s := Run(s256, INITIAL, actions);
      && q.key in s.issued && s.issued[q.key].cred.AuthCode?
      && var code := s.issued[q.key].cred;
        && code.clientID == q.presented.client
        && code.redirectURI == TrimRight(q.presented.redirect, TrailingMark)
        && (code.challenge == "" || (code.challengeMethod == "S256" && code.challenge == s256(q.presented.verifier)))
  {
    SuccessMeansGotBeforeAnyDel(s256, actions, r);
  }

  /** A redeemed CAS ticket is one issued for the service that presents it, up to slashes at the end, and
      neither name of the service is empty. */
  lemma TicketGoesToItsService(s256: string -> string, actions: seq<Action>, r: nat, q: Request)
    requires IsRun(s256, INITIAL, actions)
    requires Did(Run(s256, INITIAL, actions), Succeeded(r))
    requires var s := Run(s256, INITIAL, actions);
      r in s.requests && q == s.requests[r] && q.key.kind == KCasTicket && KindFor(q.presented) == KCasTicket
    ensures var s := Run(s256, INITIAL, actions);
      && q.key in s.issued && s.issued[q.key].cred.CasTicket?
      && var issued := s.issued[q.key].cred.service;
        issued != "" && q.presented.service != "" && SameButSlashes(issued, q.presented.service)
  {
    SuccessMeansGotBeforeAnyDel(s256, actions, r);
    var s := Run(s256, INITIAL, actions);
    TrimmedAlikeIff(s.issued[q.key].cred.service, q.presented.service);
  }

  /** A solved challenge was answered within 6 of the expected place and in no less than 250 milliseconds. */
  lemma ChallengeNeedsAim(s256: string -> string, actions: seq<Action>, r: nat, q: Request)
    requires IsRun(s256, INITIAL, actions)
    requires Did(Run(s256, INITIAL, actions), Succeeded(r))
    requires var s := Run(s256, INITIAL, actions);
      r in s.requests && q == s.requests[r] && q.key.kind == KChallenge && KindFor(q.presented) == KChallenge
    ensures var s := Run(s256, INITIAL, actions);
      && q.key in s.issued && s.issued[q.key].cred.Challenge?
      && var off := q.presented.x - s.issued[q.key].cred.expectX;
        -6 <= off <= 6 && q.presented.durationMs >= 250
  {
    SuccessMeansGotBeforeAnyDel(s256, actions, r);
  }

  predicate Crossed(h: seq<Event>, p: nat, q: nat, gp: nat, gq: nat, dp: nat, dq: nat) {
    && gp < dq < |h| && gq < dp < |h|
    && h[gp] == Got(p) && h[gq] == Got(q) && h[dp] == Deleted(p) && h[dq] == Deleted(q)
  }

  /** Each of the two requests read the store before the other's Del. */
  ghost predicate Overlapped(h: seq<Event>, p: nat, q: nat) {
    exists gp, gq, dp, dq :: Crossed(h, p, q, gp, gq, dp, dq)
  }

  lemma SuccessReadAndDeleted(s256: string -> string, s: State, r: nat)
    requires r in s.requests && PhaseOK(s256, s, r) && Did(s, Succeeded(r))
    ensures Did(s, Got(r)) && Did(s, Deleted(r))
  {
  }

  predicate ReadsPrecede(h: seq<Event>, p: nat, q: nat) {
    forall i, j | 0 <= i < |h| && 0 <= j < |h| && h[i] == Got(p) && h[j] == Deleted(q) :: i < j
  }

  lemma GetsPrecede(s: State, p: nat, q: nat)
    requires GetsBeforeDels(s)
    requires p in s.requests && q in s.requests && s.requests[p].key == s.requests[q].key
    ensures ReadsPrecede(s.history, p, q)
  {
  }

  lemma CrossedReadsOverlap(h: seq<Event>, p: nat, q: nat)
    requires Got(p) in h && Got(q) in h && Deleted(p) in h && Deleted(q) in h
    requires ReadsPrecede(h, p, q) && ReadsPrecede(h, q, p)
    ensures Overlapped(h, p, q)
  {
    var gp :| 0 <= gp < |h| && h[gp] == Got(p);
    var gq :| 0 <= gq < |h| && h[gq] == Got(q);
    var dp :| 0 <= dp < |h| && h[dp] == Deleted(p);
    var dq :| 0 <= dq < |h| && h[dq] == Deleted(q);
    assert gp < dq && gq < dp;
    assert Crossed(h, p, q, gp, gq, dp, dq);
  }

  /** Two requests that both redeem one key overlapped. */
  lemma DoubleRedemptionOverlaps(s256: string -> string, actions: seq<Action>, p: nat, q: nat)
    requires IsRun(s256, INITIAL, actions)
    requires var s := Run(s256, INITIAL, actions);
      p != q && Did(s, Succeeded(p)) && Did(s, Succeeded(q))
      && p in s.requests && q in s.requests && s.requests[p].key == s.requests[q].key
    ensures Overlapped(Run(s256, INITIAL, actions).history, p, q)
  {
    ReachableInv(s256, INITIAL, actions);
    var s := Run(s256, INITIAL, actions);
    SuccessReadAndDeleted(s256, s, p);
    SuccessReadAndDeleted(s256, s, q);
    GetsPrecede(s, p, q);
    GetsPrecede(s, q, p);
    CrossedReadsOverlap(s.history, p, q);
  }

  predicate Answered(s: State, r: nat) {
    r in s.requests && (s.requests[r].phase.Refused? || s.requests[r].phase.Granted?)
  }

  /** Answered after its Del and passing every check, a request has succeeded. */
  lemma DeletedAndPassingSucceeds(s256: string -> string, s: State, r: nat)
    requires Answered(s, r) && PhaseOK(s256, s, r) && Did(s, Deleted(r))
    requires s.requests[r].key in s.issued && Passes(s256, s, s.requests[r])
    ensures Did(s, Succeeded(r))
  {
  }

  lemma OverlappedDeleted(h: seq<Event>, p: nat, q: nat)
    requires Overlapped(h, p, q)
    ensures Deleted(p) in h && Deleted(q) in h
  {
  }

  /** Exactly when a value is redeemed twice: of two answered requests on one key that both pass the
      checks, both succeed if and only if each read the store before the other's Del. */
  lemma BothSucceedIffOverlapped(s256: string -> string, actions: seq<Action>, p: nat, q: nat)
    requires IsRun(s256, INITIAL, actions) && p != q
    requires var s := Run(s256, INITIAL, actions);
      && Answered(s, p) && Answered(s, q) && s.requests[p].key == s.requests[q].key && s.requests[p].key in s.issued
      && Passes(s256, s, s.requests[p]) && Passes(s256, s, s.requests[q])
    ensures var s := Run(s256, INITIAL, actions);
      Did(s, Succeeded(p)) && Did(s, Succeeded(q)) <==> Overlapped(s.history, p, q)
  {
    ReachableInv(s256, INITIAL, actions);
    var s := Run(s256, INITIAL, actions);
    if Overlapped(s.history, p, q) {
      OverlappedDeleted(s.history, p, q);
      DeletedAndPassingSucceeds(s256, s, p);
      DeletedAndPassingSucceeds(s256, s, q);
    } else if Did(s, Succeeded(p)) && Did(s, Succeeded(q)) {
      DoubleRedemptionOverlaps(s256, actions, p, q);
    }
  }

  /** So once one request has finished its Del, no request that reads later redeems the key. */
  lemma NoRedemptionAfterDel(s256: string -> string, actions: seq<Action>, p: nat, q: nat, dp: nat, gq: nat)
    requires IsRun(s256, INITIAL, actions)
    requires var s := Run(s256, INITIAL, actions);
      && dp < |s.history| && gq < |s.history| && s.history[dp] == Deleted(p) && s.history[gq] == Got(q)
      && p in s.requests && q in s.requests && s.requests[p].key == s.requests[q].key
    ensures gq < dp
  {
    ReachableInv(s256, INITIAL, actions);
  }

  // ---- the overlap is real ------------------------------------------------------------------------------

  function Reading(key: Key, cred: Credential, p: Presented): seq<Action> {
    [Issuing(key, cred, None), Begin(1, key, p), Begin(2, key, p), Get(1), Get(2)]
  }

  const DELETING := [Del(1), Del(2), Reply(1), Reply(2)]

  function BothHold(key: Key, cred: Credential, p: Presented): State {
    var q := Request(key, p, Holding(cred));
    State(map[key := Entry(cred, None)], map[1 := q, 2 := q], 0, map[key := Entry(cred, None)], [Got(1), Got(2)])
  }

  function BothBegun(key: Key, cred: Credential, p: Presented): State {
    var q := Request(key, p, Begun);
    State(map[key := Entry(cred, None)], map[1 := q, 2 := q], 0, map[key := Entry(cred, None)], [])
  }

  lemma BothRead(s256: string -> string, key: Key, cred: Credential, p: Presented)
    requires KindOf(cred) == key.kind == KindFor(p) && BeforeDel(key.secret, cred, p)
    ensures IsRun(s256, INITIAL, Reading(key, cred, p))
    ensures Run(s256, INITIAL, Reading(key, cred, p)) == BothHold(key, cred, p)
  {
    var acts := Reading(key, cred, p);
    var s1 := Next(s256, INITIAL, acts[0]);
    var s2 := Next(s256, s1, acts[1]);
    var s3 := Next(s256, s2, acts[2]);
    var s4 := Next(s256, s3, acts[3]);
    var s5 := Next(s256, s4, acts[4]);
    assert s3 == BothBegun(key, cred, p);
    assert s5 == BothHold(key, cred, p);
    RunStep(s256, s4, acts, 4, s5);
    RunStep(s256, s3, acts, 3, s5);
    RunStep(s256, s2, acts, 2, s5);
    RunStep(s256, s1, acts, 1, s5);
    RunStep(s256, INITIAL, acts, 0, s5);
    assert acts[0..] == acts;
  }

  lemma BothAreGranted(s256: string -> string, key: Key, cred: Credential, p: Presented)
    requires KindOf(cred) == KindFor(p) && AfterDel(s256, cred, p)
    ensures IsRun(s256, BothHold(key, cred, p), DELETING)
    ensures var s := Run(s256, BothHold(key, cred, p), DELETING);
      Did(s, Succeeded(1)) && Did(s, Succeeded(2))
  {
    var s0 := BothHold(key, cred, p);
    var s1 := Next(s256, s0, Del(1));
    var s2 := Next(s256, s1, Del(2));
    var s3 := Next(s256, s2, Reply(1));
    var s4 := Next(s256, s3, Reply(2));
    RunStep(s256, s3, DELETING, 3, s4);
    RunStep(s256, s2, DELETING, 2, s4);
    RunStep(s256, s1, DELETING, 1, s4);
    RunStep(s256, s0, DELETING, 0, s4);
    assert DELETING[0..] == DELETING;
    assert s4.history[5] == Succeeded(2) && s4.history[4] == Succeeded(1);
  }

  /** So the bound is exact: any credential that one request can redeem, two overlapping ones redeem twice. */
  lemma RaceGrantsTwice(s256: string -> string, key: Key, cred: Credential, p: Presented)
    requires KindOf(cred) == key.kind == KindFor(p) && BeforeDel(key.secret, cred, p) && AfterDel(s256, cred, p)
    ensures var actions := Reading(key, cred, p) + DELETING;
      && IsRun(s256, INITIAL, actions)
      && Did(Run(s256, INITIAL, actions), Succeeded(1)) && Did(Run(s256, INITIAL, actions), Succeeded(2))
  {
    BothRead(s256, key, cred, p);
    BothAreGranted(s256, key, cred, p);
    RunsCompose(s256, INITIAL, Reading(key, cred, p), DELETING);
  }

  lemma {:induction false} RunsCompose(s256: string -> string, s: State, a: seq<Action>, b: seq<Action>)
    requires IsRun(s256, s, a) && IsRun(s256, Run(s256, s, a), b)
    ensures IsRun(s256, s, a + b) && Run(s256, s, a + b) == Run(s256, Run(s256, s, a), b)
    decreases |a|
  {
    if a == [] {
      assert a + b == b;
    } else {
      RunsCompose(s256, Next(s256, s, a[0]), a[1..], b);
      assert (a + b)[0] == a[0] && (a + b)[1..] == a[1..] + b;
    }
  }

  lemma RunStep(s256: string -> string, s: State, actions: seq<Action>, i: nat, final: State)
    requires i < |actions| && Enabled(s, actions[i])
    requires i + 1 == |actions| ==> Next(s256, s, actions[i]) == final
    requires i + 1 < |actions| ==>
               IsRun(s256, Next(s256, s, actions[i]), actions[i + 1..])
               && Run(s256, Next(s256, s, actions[i]), actions[i + 1..]) == final
    ensures IsRun(s256, s, actions[i..]) && Run(s256, s, actions[i..]) == final
  {
    assert actions[i..][0] == actions[i] && actions[i..][1..] == actions[i + 1..];
  }
}
