/** Refresh requests whose Load, Delete and Save steps interleave with each other and with revocation.
    What a token stands for survives every interleaving. A chain is safe from a second token exactly while
    its store and its refreshes under way fit one token, and a chain is ended for good exactly when it has
    neither a stored token nor a refresh under way. */
module RefreshRaces {
  import RefreshRotation

  type Grant = RefreshRotation.Grant

  /** A refresh between its Load and its Save. */
  datatype Pending = Pending(token: string, grant: Grant, deleted: bool)

  datatype State = State(
    store: map<string, Grant>,
    pending: map<nat, Pending>,
    lineage: map<string, nat>,
    origins: map<nat, Grant>,
    chains: nat)

  /** Vanish covers expiry and sweeping; Drop a refresh that ends after its Delete, the user being gone. */
  datatype Action =
    | Begin(grant: Grant, minted: string)
    | Load(r: nat, token: string)
    | Delete(r: nat)
    | Save(r: nat, minted: string)
    | Drop(r: nat)
    | Revoke(token: string)
    | Vanish(token: string)

  const EMPTY := State(map[], map[], map[], map[], 0)

  predicate Enabled(s: State, a: Action) {
    match a
    case Begin(_, minted) => minted !in s.lineage
    case Load(r, token) => r !in s.pending && token in s.store
    case Delete(r) => r in s.pending && !s.pending[r].deleted
    case Save(r, minted) => r in s.pending && s.pending[r].deleted && minted !in s.lineage
    case Drop(r) => r in s.pending && s.pending[r].deleted
    case Revoke(_) => true
    case Vanish(_) => true
  }

  function ChainOf(s: State, token: string): nat {
    if token in s.lineage then s.lineage[token] else 0
  }

  function Next(s: State, a: Action): State
    requires Enabled(s, a)
  {
    match a
    case Begin(grant, minted) =>
      State(s.store[minted := grant], s.pending, s.lineage[minted := s.chains], s.origins[s.chains := grant], s.chains + 1)
    case Load(r, token) => s.(pending := s.pending[r := Pending(token, s.store[token], false)])
    case Delete(r) =>
      s.(store := s.store - {s.pending[r].token}, pending := s.pending[r := s.pending[r].(deleted := true)])
    case Save(r, minted) =>
      s.(store := s.store[minted := s.pending[r].grant], pending := s.pending - {r},
         lineage := s.lineage[minted := ChainOf(s, s.pending[r].token)])
    case Drop(r) => s.(pending := s.pending - {r})
    case Revoke(token) => s.(store := s.store - {token})
    case Vanish(token) => s.(store := s.store - {token})
  }

  predicate IsRun(s: State, actions: seq<Action>)
    decreases |actions|
  {
    actions != [] ==> Enabled(s, actions[0]) && IsRun(Next(s, actions[0]), actions[1..])
  }

  function Run(s: State, actions: seq<Action>): State
    requires IsRun(s, actions)
    decreases |actions|
  {
    if actions == [] then s else Run(Next(s, actions[0]), actions[1..])
  }

  // ---- what a token stands for ----------------------------------------------------------------------------

  ghost predicate Agrees(s: State) {
    && (forall t | t in s.lineage :: s.lineage[t] < s.chains && s.lineage[t] in s.origins)
    && (forall t | t in s.store :: t in s.lineage && s.store[t] == s.origins[s.lineage[t]])
    && (forall r | r in s.pending ::
          s.pending[r].token in s.lineage && s.pending[r].grant == s.origins[s.lineage[s.pending[r].token]])
  }

  lemma StepKeepsAgreement(s: State, a: Action)
    requires Agrees(s) && Enabled(s, a)
    ensures Agrees(Next(s, a))
  {
  }

  /** Under every interleaving, each token of a chain carries the user, client and scope of its grant. */
  lemma {:induction false} RunKeepsAgreement(s: State, actions: seq<Action>)
    requires Agrees(s) && IsRun(s, actions)
    ensures Agrees(Run(s, actions))
    decreases |actions|
  {
    if actions != [] {
      StepKeepsAgreement(s, actions[0]);
      RunKeepsAgreement(Next(s, actions[0]), actions[1..]);
    }
  }

  // ---- one token per chain -----------------------------------------------------------------------------------

  /** A refresh starts only when no other is under way on its chain. */
  ghost predicate Serial(s: State, a: Action) {
    a.Load? ==> forall r | r in s.pending :: ChainOf(s, s.pending[r].token) != ChainOf(s, a.token)
  }

  ghost predicate IsSerialRun(s: State, actions: seq<Action>)
    decreases |actions|
  {
    actions != [] ==> Enabled(s, actions[0]) && Serial(s, actions[0]) && IsSerialRun(Next(s, actions[0]), actions[1..])
  }

  ghost predicate OnePerChain(s: State) {
    forall t, u | t in s.store && u in s.store && ChainOf(s, t) == ChainOf(s, u) :: t == u
  }

  /** While a refresh is under way its chain stores the token it was given, or, after the Delete, none. */
  ghost predicate PendingOwnsChain(s: State) {
    && (forall r, q | r in s.pending && q in s.pending
          && ChainOf(s, s.pending[r].token) == ChainOf(s, s.pending[q].token) :: r == q)
    && (forall r, t | r in s.pending && t in s.store && ChainOf(s, s.pending[r].token) == ChainOf(s, t) ::
          t == s.pending[r].token && !s.pending[r].deleted)
  }

  lemma StepKeepsChains(s: State, a: Action, t: string)
    requires Agrees(s) && Enabled(s, a) && t in s.lineage
    ensures t in Next(s, a).lineage && ChainOf(Next(s, a), t) == ChainOf(s, t) < s.chains
  {
  }

  lemma StepKeepsOnePerChain(s: State, a: Action, t: string, u: string)
    requires Agrees(s) && OnePerChain(s) && PendingOwnsChain(s) && Enabled(s, a)
    requires t in Next(s, a).store && u in Next(s, a).store && ChainOf(Next(s, a), t) == ChainOf(Next(s, a), u)
    ensures t == u
  {
    if t in s.store { StepKeepsChains(s, a, t); }
    if u in s.store { StepKeepsChains(s, a, u); }
  }

  lemma StepKeepsPendingApart(s: State, a: Action, r: nat, q: nat)
    requires Agrees(s) && PendingOwnsChain(s) && Enabled(s, a) && Serial(s, a)
    requires r in Next(s, a).pending && q in Next(s, a).pending
    requires ChainOf(Next(s, a), Next(s, a).pending[r].token) == ChainOf(Next(s, a), Next(s, a).pending[q].token)
    ensures r == q
  {
    if r in s.pending { StepKeepsChains(s, a, s.pending[r].token); }
    if q in s.pending { StepKeepsChains(s, a, s.pending[q].token); }
  }

  lemma StepKeepsPendingOwner(s: State, a: Action, r: nat, t: string)
    requires Agrees(s) && OnePerChain(s) && PendingOwnsChain(s) && Enabled(s, a)
    requires r in Next(s, a).pending && t in Next(s, a).store
    requires ChainOf(Next(s, a), Next(s, a).pending[r].token) == ChainOf(Next(s, a), t)
    ensures t == Next(s, a).pending[r].token && !Next(s, a).pending[r].deleted
  {
    if r in s.pending { StepKeepsChains(s, a, s.pending[r].token); }
    if t in s.store { StepKeepsChains(s, a, t); }
  }

  lemma StepKeepsOne(s: State, a: Action)
    requires Agrees(s) && OnePerChain(s) && PendingOwnsChain(s) && Enabled(s, a) && Serial(s, a)
    ensures OnePerChain(Next(s, a)) && PendingOwnsChain(Next(s, a))
  {
    var n := Next(s, a);
    forall t, u | t in n.store && u in n.store && ChainOf(n, t) == ChainOf(n, u) ensures t == u {
      StepKeepsOnePerChain(s, a, t, u);
    }
    forall r, q | r in n.pending && q in n.pending
      && ChainOf(n, n.pending[r].token) == ChainOf(n, n.pending[q].token) ensures r == q {
      StepKeepsPendingApart(s, a, r, q);
    }
    forall r, t | r in n.pending && t in n.store && ChainOf(n, n.pending[r].token) == ChainOf(n, t)
      ensures t == n.pending[r].token && !n.pending[r].deleted {
      StepKeepsPendingOwner(s, a, r, t);
    }
  }

  /** If refreshes of one chain do not overlap, whatever else interleaves, a chain never has two tokens. */
  lemma {:induction false} SerialRunsKeepOne(s: State, actions: seq<Action>)
    requires Agrees(s) && OnePerChain(s) && PendingOwnsChain(s) && IsSerialRun(s, actions)
    ensures IsRun(s, actions) && OnePerChain(Run(s, actions))
    decreases |actions|
  {
    if actions != [] {
      StepKeepsAgreement(s, actions[0]);
      StepKeepsOne(s, actions[0]);
      SerialRunsKeepOne(Next(s, actions[0]), actions[1..]);
    }
  }

  lemma RunStep(s: State, actions: seq<Action>, i: nat, final: State)
    requires i < |actions| && Enabled(s, actions[i])
    requires i + 1 == |actions| ==> Next(s, actions[i]) == final
    requires i + 1 < |actions| ==>
               IsRun(Next(s, actions[i]), actions[i + 1..]) && Run(Next(s, actions[i]), actions[i + 1..]) == final
    ensures IsRun(s, actions[i..]) && Run(s, actions[i..]) == final
  {
    assert actions[i..][0] == actions[i] && actions[i..][1..] == actions[i + 1..];
  }

  /** The condition is needed: from any state with a stored token and two idle request numbers, two
      overlapping refreshes leave two tokens in the chain. */
  lemma OverlapForksChain(s: State, token: string, p: nat, q: nat, mintedP: string, mintedQ: string)
    requires Agrees(s) && token in s.store && p != q && p !in s.pending && q !in s.pending
    requires mintedP !in s.lineage && mintedQ !in s.lineage && mintedP != mintedQ
    ensures var actions := [Load(p, token), Load(q, token), Delete(p), Delete(q), Save(p, mintedP), Save(q, mintedQ)];
      IsRun(s, actions) && !OnePerChain(Run(s, actions))
  {
    var actions := [Load(p, token), Load(q, token), Delete(p), Delete(q), Save(p, mintedP), Save(q, mintedQ)];
    var s1 := Next(s, actions[0]);
    var s2 := Next(s1, actions[1]);
    var s6 := SavesBoth(s2, p, q, mintedP, mintedQ);
    assert actions[2..] == [Delete(p), Delete(q), Save(p, mintedP), Save(q, mintedQ)];
    RunStep(s1, actions, 1, s6);
    RunStep(s, actions, 0, s6);
    assert actions[0..] == actions;
  }

  lemma SavesBoth(s: State, p: nat, q: nat, mintedP: string, mintedQ: string) returns (end: State)
    requires p != q && p in s.pending && q in s.pending && s.pending[p] == s.pending[q] && !s.pending[p].deleted
    requires s.pending[p].token in s.lineage && mintedP !in s.lineage && mintedQ !in s.lineage && mintedP != mintedQ
    ensures var actions := [Delete(p), Delete(q), Save(p, mintedP), Save(q, mintedQ)];
      IsRun(s, actions) && Run(s, actions) == end && !OnePerChain(end)
  {
    var actions := [Delete(p), Delete(q), Save(p, mintedP), Save(q, mintedQ)];
    var s1 := Next(s, actions[0]);
    var s2 := Next(s1, actions[1]);
    var s3 := Next(s2, actions[2]);
    end := Next(s3, actions[3]);
    RunStep(s3, actions, 3, end);
    RunStep(s2, actions, 2, end);
    RunStep(s1, actions, 1, end);
    RunStep(s, actions, 0, end);
    assert actions[0..] == actions;
    assert mintedP in end.store && mintedQ in end.store && ChainOf(end, mintedP) == ChainOf(end, mintedQ);
  }

  /** Nor does revocation end a chain while a refresh of it is under way: the refresh has its grant in
      hand and saves a successor of the revoked token. */
  lemma RefreshOutlivesRevoke(s: State, token: string, p: nat, minted: string)
    requires Agrees(s) && token in s.store && p !in s.pending && minted !in s.lineage
    ensures var actions := [Load(p, token), Revoke(token), Delete(p), Save(p, minted)];
      && IsRun(s, actions) && minted in Run(s, actions).store
      && ChainOf(Run(s, actions), minted) == ChainOf(s, token)
  {
    var actions := [Load(p, token), Revoke(token), Delete(p), Save(p, minted)];
    var s1 := Next(s, actions[0]);
    var s2 := Next(s1, actions[1]);
    var s3 := Next(s2, actions[2]);
    var s4 := Next(s3, actions[3]);
    RunStep(s3, actions, 3, s4);
    RunStep(s2, actions, 2, s4);
    RunStep(s1, actions, 1, s4);
    RunStep(s, actions, 0, s4);
    assert actions[0..] == actions;
  }

  ghost predicate ChainIdle(s: State, chain: nat) {
    && (forall t | t in s.store :: ChainOf(s, t) != chain)
    && (forall r | r in s.pending :: ChainOf(s, s.pending[r].token) != chain)
  }

  lemma StepKeepsIdle(s: State, a: Action, chain: nat)
    requires Agrees(s) && Enabled(s, a) && ChainIdle(s, chain) && chain < s.chains
    ensures ChainIdle(Next(s, a), chain) && chain < Next(s, a).chains
  {
  }

  /** With no refresh under way, a chain without a stored token stays without one under every interleaving. */
  lemma {:induction false} IdleChainStaysDead(s: State, actions: seq<Action>, chain: nat)
    requires Agrees(s) && IsRun(s, actions) && ChainIdle(s, chain) && chain < s.chains
    ensures ChainIdle(Run(s, actions), chain)
    decreases |actions|
  {
    if actions != [] {
      StepKeepsAgreement(s, actions[0]);
      StepKeepsIdle(s, actions[0], chain);
      IdleChainStaysDead(Next(s, actions[0]), actions[1..], chain);
    }
  }

  // ---- the conditions are exact -------------------------------------------------------------------------

  lemma {:induction false} LongerThanAll(used: set<string>) returns (n: nat)
    ensures forall t | t in used :: |t| < n
    decreases used
  {
    if used == {} { return 0; }
    var u :| u in used;
    n := LongerThanAll(used - {u});
    if n <= |u| { n := |u| + 1; }
  }

  /** Tokens never run out. */
  lemma FreshToken(used: set<string>) returns (minted: string)
    ensures minted !in used
  {
    var n := LongerThanAll(used);
    minted := seq(n, _ => 'x');
  }

  /** What is left to do of a refresh under way. */
  function Finish(s: State, r: nat, minted: string): seq<Action>
    requires r in s.pending
  {
    if s.pending[r].deleted then [Save(r, minted)] else [Delete(r), Save(r, minted)]
  }

  function Finished(s: State, r: nat, minted: string): State
    requires r in s.pending
  {
    var p := s.pending[r];
    var kept := if p.deleted then s.store else s.store - {p.token};
    s.(store := kept[minted := p.grant], pending := s.pending - {r}, lineage := s.lineage[minted := ChainOf(s, p.token)])
  }

  lemma FinishRuns(s: State, r: nat, minted: string)
    requires r in s.pending && minted !in s.lineage
    ensures IsSerialRun(s, Finish(s, r, minted)) && IsRun(s, Finish(s, r, minted))
    ensures Run(s, Finish(s, r, minted)) == Finished(s, r, minted)
  {
    var actions := Finish(s, r, minted);
    if s.pending[r].deleted {
      assert actions[1..] == [];
    } else {
      var s1 := Next(s, Delete(r));
      assert actions[1..] == [Save(r, minted)] && [Save(r, minted)][1..] == [];
      assert s1.pending - {r} == s.pending - {r};
      assert Run(s1, [Save(r, minted)]) == Finished(s, r, minted);
    }
  }

  lemma {:induction false} SerialCompose(s: State, a: seq<Action>, b: seq<Action>)
    requires IsSerialRun(s, a) && IsRun(s, a) && IsSerialRun(Run(s, a), b) && IsRun(Run(s, a), b)
    ensures IsSerialRun(s, a + b) && IsRun(s, a + b) && Run(s, a + b) == Run(Run(s, a), b)
    decreases |a|
  {
    if a == [] {
      assert a + b == b;
    } else {
      assert (a + b)[0] == a[0] && (a + b)[1..] == a[1..] + b;
      SerialCompose(Next(s, a[0]), a[1..], b);
    }
  }

  lemma TwoStoredFork(s: State, t: string, u: string)
    requires t in s.store && u in s.store && t != u && ChainOf(s, t) == ChainOf(s, u)
    ensures !OnePerChain(s)
  {
  }

  /** A refresh under way beside a token of its chain that it will not delete. */
  lemma StrangerForks(s: State, r: nat, t: string) returns (actions: seq<Action>)
    requires Agrees(s) && r in s.pending && t in s.store && ChainOf(s, s.pending[r].token) == ChainOf(s, t)
    requires t != s.pending[r].token || s.pending[r].deleted
    ensures IsSerialRun(s, actions) && IsRun(s, actions) && !OnePerChain(Run(s, actions))
  {
    var minted := FreshToken(s.lineage.Keys);
    actions := Finish(s, r, minted);
    FinishRuns(s, r, minted);
    TwoStoredFork(Finished(s, r, minted), t, minted);
  }

  /** Two refreshes under way on one chain. */
  lemma PairForks(s: State, r: nat, q: nat) returns (actions: seq<Action>)
    requires Agrees(s) && r in s.pending && q in s.pending && r != q
    requires ChainOf(s, s.pending[r].token) == ChainOf(s, s.pending[q].token)
    ensures IsSerialRun(s, actions) && IsRun(s, actions) && !OnePerChain(Run(s, actions))
  {
    var m := FreshToken(s.lineage.Keys);
    var s1 := Finished(s, r, m);
    var n := FreshToken(s1.lineage.Keys);
    FinishRuns(s, r, m);
    FinishRuns(s1, q, n);
    actions := Finish(s, r, m) + Finish(s1, q, n);
    SerialCompose(s, Finish(s, r, m), Finish(s1, q, n));
    var s2 := Finished(s1, q, n);
    assert m in s2.store && n in s2.store && m != n;
    TwoStoredFork(s2, m, n);
  }

  ghost predicate SafeFromForks(s: State) {
    forall actions | IsSerialRun(s, actions) && IsRun(s, actions) :: OnePerChain(Run(s, actions))
  }

  /** From a state, no continuation without overlapping refreshes stores two tokens of a chain exactly when
      no chain stores two already and every refresh under way has its chain to itself. */
  lemma SafeIffPendingOwns(s: State)
    requires Agrees(s)
    ensures SafeFromForks(s) <==> OnePerChain(s) && PendingOwnsChain(s)
  {
    if OnePerChain(s) && PendingOwnsChain(s) {
      forall actions | IsSerialRun(s, actions) && IsRun(s, actions) ensures OnePerChain(Run(s, actions)) {
        SerialRunsKeepOne(s, actions);
      }
    }
    if SafeFromForks(s) {
      assert IsSerialRun(s, []) && IsRun(s, []) && Run(s, []) == s;
      forall r, q | r in s.pending && q in s.pending
        && ChainOf(s, s.pending[r].token) == ChainOf(s, s.pending[q].token) ensures r == q {
        if r != q { var actions := PairForks(s, r, q); }
      }
      forall r, t | r in s.pending && t in s.store && ChainOf(s, s.pending[r].token) == ChainOf(s, t)
        ensures t == s.pending[r].token && !s.pending[r].deleted {
        if t != s.pending[r].token || s.pending[r].deleted { var actions := StrangerForks(s, r, t); }
      }
    }
  }

  ghost predicate ChainDead(s: State, chain: nat) {
    forall t | t in s.store :: ChainOf(s, t) != chain
  }

  ghost predicate EndedForGood(s: State, chain: nat) {
    forall actions | IsRun(s, actions) :: ChainDead(Run(s, actions), chain)
  }

  /** A refresh under way stores a token of its chain when it finishes. */
  lemma PendingRevives(s: State, r: nat) returns (actions: seq<Action>)
    requires Agrees(s) && r in s.pending
    ensures IsRun(s, actions) && !ChainDead(Run(s, actions), ChainOf(s, s.pending[r].token))
  {
    var minted := FreshToken(s.lineage.Keys);
    actions := Finish(s, r, minted);
    FinishRuns(s, r, minted);
    assert minted in Finished(s, r, minted).store;
  }

  /** No run from a state stores a token of a chain exactly when the chain has no stored token and no
      refresh under way. */
  lemma EndedIffIdle(s: State, chain: nat)
    requires Agrees(s) && chain < s.chains
    ensures EndedForGood(s, chain) <==> ChainIdle(s, chain)
  {
    if ChainIdle(s, chain) {
      forall actions | IsRun(s, actions) ensures ChainDead(Run(s, actions), chain) { IdleChainStaysDead(s, actions, chain); }
    }
    if EndedForGood(s, chain) {
      assert IsRun(s, []) && Run(s, []) == s;
      forall r | r in s.pending ensures ChainOf(s, s.pending[r].token) != chain {
        if ChainOf(s, s.pending[r].token) == chain { var actions := PendingRevives(s, r); }
      }
    }
  }

  /** So revoking the token of a chain ends the chain exactly when no refresh of it is under way. */
  lemma RevokeEndsIff(s: State, token: string)
    requires Agrees(s) && OnePerChain(s) && token in s.store
    ensures EndedForGood(Next(s, Revoke(token)), ChainOf(s, token)) <==>
            forall r | r in s.pending :: ChainOf(s, s.pending[r].token) != ChainOf(s, token)
  {
    StepKeepsAgreement(s, Revoke(token));
    EndedIffIdle(Next(s, Revoke(token)), ChainOf(s, token));
  }

  /** A grant or login stores its token under a chain of its own; a revocation or an expiry removes one. */
  lemma OtherStepsSay(s: State, a: Action)
    requires Enabled(s, a)
    ensures a.Begin? ==>
              Next(s, a) == State(s.store[a.minted := a.grant], s.pending, s.lineage[a.minted := s.chains],
                                  s.origins[s.chains := a.grant], s.chains + 1)
    ensures a.Revoke? || a.Vanish? ==>
              Next(s, a) == State(s.store - {a.token}, s.pending, s.lineage, s.origins, s.chains)
  {
  }

  // ---- one refresh on its own --------------------------------------------------------------------------------

  function Alone(r: nat, token: string, last: Action): seq<Action> { [Load(r, token), Delete(r), last] }

  /** The steps of one refresh back to back are the atomic handler: the token is replaced by the minted one of
      the same chain and grant, or, if the user is gone, removed; nothing else changes. */
  lemma UndisturbedIsAtomic(s: State, r: nat, token: string, minted: string, userExists: bool)
    requires Agrees(s) && token in s.store && r !in s.pending && minted !in s.lineage
    ensures var actions := Alone(r, token, if userExists then Save(r, minted) else Drop(r));
      && IsRun(s, actions)
      && var n := Run(s, actions);
        && n.store == (if userExists then (s.store - {token})[minted := s.store[token]] else s.store - {token})
        && n.lineage == (if userExists then s.lineage[minted := s.lineage[token]] else s.lineage)
        && n.pending == s.pending && n.origins == s.origins && n.chains == s.chains
  {
    var actions := Alone(r, token, if userExists then Save(r, minted) else Drop(r));
    var s1 := Next(s, actions[0]);
    var s2 := Next(s1, actions[1]);
    var s3 := Next(s2, actions[2]);
    assert s3.pending == s.pending;
    RunStep(s2, actions, 2, s3);
    RunStep(s1, actions, 1, s3);
    RunStep(s, actions, 0, s3);
    assert actions[0..] == actions;
  }
}
