/** Login lockout: failures are counted under a folded login name, the account the exact name stands for is
    locked when its count reaches the threshold, and a lock ends by time or by an administrator. */
module Lockout {
  import opened Options

  /** What stays fixed: who the exact login names stand for, the policy, how names are folded into counter
      keys (trimming and lower-casing), which accounts are enabled, and which names are ever submitted. */
  datatype Env = Env(
    byUsername: map<string, nat>,
    byEmail: map<string, nat>,
    threshold: int,
    duration: int,
    fold: string -> string,
    enabled: nat -> bool,
    submitted: string -> bool)

  const FAIL_WINDOW := 600

  /** A failure count and when the store may forget it; an expired count that was not swept goes on. */
  datatype Counter = Counter(count: int, deadline: int)

  datatype Lock = Lock(locked: bool, until: Option<int>, reason: string)

  const UNLOCKED := Lock(false, None, "")

  datatype State = State(counters: map<string, Counter>, locks: map<nat, Lock>, now: int)

  /** What the surroundings decide about one attempt: the IP ban, the captcha, the password, and whether a
      right password also gets past the login rules to a session. */
  datatype Attempt = Attempt(name: string, banned: bool, captchaOK: bool, passwordOK: bool, admitted: bool)

  datatype Action =
    | Login(attempt: Attempt, now: int)
    | AdminLock(id: nat, lock: bool, reason: string)
    | Sweep(now: int)

  datatype Answer =
    | Banned | AlreadyLocked | NeedCaptcha | Disabled | Failed(remaining: int) | LockedNow | Denied | LoggedIn | Done

  function Resolve(env: Env, name: string): Option<nat> {
    if name in env.byUsername then Some(env.byUsername[name])
    else if name in env.byEmail then Some(env.byEmail[name])
    else None
  }

  function LockOf(s: State, id: nat): Lock { if id in s.locks then s.locks[id] else UNLOCKED }

  function CountOf(s: State, key: string): int { if key in s.counters then s.counters[key].count else 0 }

  function Enforced(l: Lock, now: int): Lock {
    if l.locked && l.until.Some? && now > l.until.value then UNLOCKED else l
  }

  function LockAfterFailures(env: Env, now: int): Lock {
    Lock(true, if env.duration > 0 then Some(now + env.duration) else None, "login_failure")
  }

  /** The account is looked up, and freed if its lock has run out. */
  function LookedUp(env: Env, s: State, name: string, now: int): State {
    var id := Resolve(env, name);
    if id.Some? && LockOf(s, id.value) != Enforced(LockOf(s, id.value), now)
    then s.(locks := s.locks[id.value := UNLOCKED], now := now)
    else s.(now := now)
  }

  predicate Refused(env: Env, s: State, a: Attempt) {
    var id := Resolve(env, a.name);
    id.Some? && LockOf(s, id.value).locked
  }

  predicate PasswordAccepted(env: Env, a: Attempt) {
    var id := Resolve(env, a.name);
    id.Some? && env.enabled(id.value) && a.passwordOK
  }

  /** A wrong password, or a name that stands for nobody. */
  function AfterFailure(env: Env, s: State, name: string, now: int): State {
    var key := env.fold(name);
    var count := CountOf(s, key) + 1;
    var id := Resolve(env, name);
    if count > 0 && count >= env.threshold && id.Some?
    then s.(counters := s.counters - {key}, locks := s.locks[id.value := LockAfterFailures(env, now)])
    else s.(counters := s.counters[key := Counter(count, now + FAIL_WINDOW)])
  }

  /** What an attempt comes to, the account looked up. */
  function AnswerTo(env: Env, s: State, a: Attempt): Answer {
    var id := Resolve(env, a.name);
    if Refused(env, s, a) then AlreadyLocked
    else if !a.captchaOK then NeedCaptcha
    else if id.Some? && !env.enabled(id.value) then Disabled
    else if PasswordAccepted(env, a) then (if a.admitted then LoggedIn else Denied)
    else FailureAnswer(env, s, a.name)
  }

  function FailureAnswer(env: Env, s: State, name: string): Answer {
    var count := CountOf(s, env.fold(name)) + 1;
    if count > 0 && count >= env.threshold && Resolve(env, name).Some? then LockedNow
    else Failed(if env.threshold < count then 0 else env.threshold - count)
  }

  function Answered(env: Env, s: State, action: Action): Answer {
    match action
    case Login(a, now) => if a.banned then Banned else AnswerTo(env, LookedUp(env, s, a.name, now), a)
    case _ => Done
  }

  function Next(env: Env, s: State, action: Action): State {
    match action
    case Login(a, now) =>
      if a.banned then s.(now := now)
      else
        var t := LookedUp(env, s, a.name, now);
        (match AnswerTo(env, t, a)
         case Failed(_) => AfterFailure(env, t, a.name, now)
         case LockedNow => AfterFailure(env, t, a.name, now)
         case LoggedIn => t.(counters := t.counters - {env.fold(a.name)})
         case _ => t)
    case AdminLock(id, lock, reason) =>
      s.(locks := s.locks[id := Lock(lock, None, if lock then reason else "")])
    case Sweep(now) =>
      s.(counters := map k | k in s.counters && now <= s.counters[k].deadline :: s.counters[k], now := now)
  }

  // ---- the handler, step by step --------------------------------------------------------------------

  class AuthHandler {
    const env: Env
    var counters: map<string, Counter>
    var locks: map<nat, Lock>

    constructor (env: Env)
      ensures this.env == env && counters == map[] && locks == map[]
    {
      this.env, counters, locks := env, map[], map[];
    }

    ghost function View(now: int): State
      reads this
    {
      State(counters, locks, now)
    }

    method FindLoginUser(name: string, now: int) returns (id: Option<nat>)
      modifies `locks
      ensures id == Resolve(env, name) && View(now) == LookedUp(env, old(View(now)), name, now)
    {
      if name in env.byUsername { id := Some(env.byUsername[name]); }
      else if name in env.byEmail { id := Some(env.byEmail[name]); }
      else { return None; }
      if id.value in locks {
        var l := locks[id.value];
        if l.locked && l.until.Some? && now > l.until.value { locks := locks[id.value := UNLOCKED]; }
      }
    }

    method RecordUserFail(name: string, now: int) returns (count: int)
      modifies `counters
      ensures count == CountOf(old(View(now)), env.fold(name)) + 1
      ensures counters == old(counters)[env.fold(name) := Counter(count, now + FAIL_WINDOW)]
    {
      var key := env.fold(name);
      count := if key in counters then counters[key].count + 1 else 1;
      counters := counters[key := Counter(count, now + FAIL_WINDOW)];
    }

    method ClearUserFail(name: string)
      modifies `counters
      ensures counters == old(counters) - {env.fold(name)}
    {
      counters := counters - {env.fold(name)};
    }

    method LockUntil(id: nat, until: Option<int>, reason: string)
      modifies `locks
      ensures locks == old(locks)[id := Lock(true, until, reason)]
    {
      locks := locks[id := Lock(true, until, reason)];
    }

    /** The administrator's switch. */
    method SetLock(id: nat, lock: bool, reason: string, now: int)
      modifies `locks
      ensures View(now) == Next(env, old(View(now)), AdminLock(id, lock, reason))
    {
      locks := locks[id := Lock(lock, None, if lock then reason else "")];
    }

    /** A wrong password or an unknown name: count, and lock at the threshold. */
    method FailLogin(name: string, id: Option<nat>, now: int) returns (answer: Answer)
      requires id == Resolve(env, name)
      modifies this
      ensures View(now) == AfterFailure(env, old(View(now)), name, now)
      ensures answer == FailureAnswer(env, old(View(now)), name)
    {
      ghost var before := counters;
      var count := RecordUserFail(name, now);
      if count > 0 && count >= env.threshold && id.Some? {
        LockUntil(id.value, if env.duration > 0 then Some(now + env.duration) else None, "login_failure");
        ClearUserFail(name);
        assert counters == before - {env.fold(name)};
        return LockedNow;
      }
      return Failed(if env.threshold < count then 0 else env.threshold - count);
    }

    method HandleLogin(a: Attempt, now: int) returns (answer: Answer)
      modifies this
      ensures answer == Answered(env, old(View(now)), Login(a, now))
      ensures View(now) == Next(env, old(View(now)), Login(a, now))
    {
      if a.banned { return Banned; }
      var id := FindLoginUser(a.name, now);
      if id.Some? && id.value in locks && locks[id.value].locked { return AlreadyLocked; }
      if !a.captchaOK { return NeedCaptcha; }
      if id.Some? && !env.enabled(id.value) { return Disabled; }
      if id.Some? && a.passwordOK {
        if !a.admitted { return Denied; }
        ClearUserFail(a.name);
        return LoggedIn;
      }
      answer := FailLogin(a.name, id, now);
    }
  }

  // ---- runs ----------------------------------------------------------------------------------------------

  /** The clock does not run backwards and only submitted names occur. */
  predicate Enabled(env: Env, s: State, action: Action) {
    match action
    case Login(a, now) => s.now <= now && env.submitted(a.name)
    case AdminLock(_, _, _) => true
    case Sweep(now) => s.now <= now
  }

  predicate IsRun(env: Env, s: State, actions: seq<Action>)
    decreases |actions|
  {
    actions != [] ==> Enabled(env, s, actions[0]) && IsRun(env, Next(env, s, actions[0]), actions[1..])
  }

  function Run(env: Env, s: State, actions: seq<Action>): State
    decreases |actions|
  {
    if actions == [] then s else Run(env, Next(env, s, actions[0]), actions[1..])
  }

  /** Runs move time forward, whichever of their steps looks at the clock. */
  lemma {:induction false} RunsForward(env: Env, s: State, actions: seq<Action>)
    requires IsRun(env, s, actions)
    ensures s.now <= Run(env, s, actions).now
    ensures actions != [] && !actions[0].AdminLock? ==> s.now <= actions[0].now <= Run(env, s, actions).now
    decreases |actions|
  {
    if actions != [] { RunsForward(env, Next(env, s, actions[0]), actions[1..]); }
  }

  function Initial(now: int): State { State(map[], map[], now) }

  // ---- how many failures an unlocked account can have -------------------------------------------------------

  /** An unlocked account has fewer than threshold failures under each of its login names. */
  ghost predicate Bounded(env: Env, s: State) {
    forall name | Resolve(env, name).Some? && !LockOf(s, Resolve(env, name).value).locked ::
      CountOf(s, env.fold(name)) < env.threshold
  }

  /** No submitted name that stands for nobody is counted under the key of a name that stands for somebody. */
  ghost predicate NoStrays(env: Env) {
    forall name, stray | Resolve(env, name).Some? && env.submitted(stray) && Resolve(env, stray).None? ::
      env.fold(name) != env.fold(stray)
  }

  /** What makes the bound inductive: it holds for locked accounts too. */
  ghost predicate Inv(env: Env, s: State) {
    forall name | Resolve(env, name).Some? :: CountOf(s, env.fold(name)) < env.threshold
  }

  lemma StepKeepsInv(env: Env, s: State, action: Action)
    requires env.threshold > 0 && NoStrays(env) && Inv(env, s) && Enabled(env, s, action)
    ensures Inv(env, Next(env, s, action))
  {
    forall name | Resolve(env, name).Some? ensures CountOf(Next(env, s, action), env.fold(name)) < env.threshold {
      assert CountOf(s, env.fold(name)) < env.threshold;
    }
  }

  lemma {:induction false} RunKeepsInv(env: Env, s: State, actions: seq<Action>)
    requires env.threshold > 0 && NoStrays(env) && Inv(env, s) && IsRun(env, s, actions)
    ensures Inv(env, Run(env, s, actions))
    decreases |actions|
  {
    if actions != [] {
      StepKeepsInv(env, s, actions[0]);
      RunKeepsInv(env, Next(env, s, actions[0]), actions[1..]);
    }
  }

  function Failing(name: string, now: int, n: nat): seq<Action> {
    if n == 0 then [] else [Login(Attempt(name, false, true, false, false), now)] + Failing(name, now, n - 1)
  }

  /** Failures under a name that stands for nobody are counted and lock nobody. */
  lemma {:induction false} StrayFailuresCount(env: Env, s: State, name: string, n: nat)
    requires Resolve(env, name).None? && env.submitted(name) && CountOf(s, env.fold(name)) >= 0
    ensures var actions := Failing(name, s.now, n);
      && IsRun(env, s, actions) && Run(env, s, actions).locks == s.locks
      && CountOf(Run(env, s, actions), env.fold(name)) == CountOf(s, env.fold(name)) + n
    decreases n
  {
    if n > 0 {
      var step := Login(Attempt(name, false, true, false, false), s.now);
      assert Failing(name, s.now, n)[1..] == Failing(name, s.now, n - 1);
      StrayFailuresCount(env, Next(env, s, step), name, n - 1);
    }
  }

  ghost predicate AlwaysBounded(env: Env) {
    forall now: int, actions | IsRun(env, Initial(now), actions) :: Bounded(env, Run(env, Initial(now), actions))
  }

  /** Unlocked accounts stay below the threshold in every run exactly when no submitted stray name shares
      a counter with an account. */
  lemma BoundedIffNoStrays(env: Env)
    requires env.threshold > 0
    ensures AlwaysBounded(env) <==> NoStrays(env)
  {
    if NoStrays(env) {
      forall now: int, actions | IsRun(env, Initial(now), actions) ensures Bounded(env, Run(env, Initial(now), actions)) {
        RunKeepsInv(env, Initial(now), actions);
      }
    } else {
      var name, stray :| Resolve(env, name).Some? && env.submitted(stray) && Resolve(env, stray).None?
                         && env.fold(name) == env.fold(stray);
      var actions := Failing(stray, 0, env.threshold);
      StrayFailuresCount(env, Initial(0), stray, env.threshold);
      assert !Bounded(env, Run(env, Initial(0), actions));
    }
  }

  /** In particular the bound holds when every account name and every submitted name is its own fold, such
      as a trimmed lower-case name. */
  lemma FoldedNamesAreBounded(env: Env)
    requires env.threshold > 0
    requires forall name | Resolve(env, name).Some? || env.submitted(name) :: env.fold(name) == name
    ensures AlwaysBounded(env)
  {
    BoundedIffNoStrays(env);
  }

  /** A run in which an unlocked account has a full counter: threshold failures as "Alice", with "alice" the
      account's name and folding to lower case. */
  lemma OtherSpellingOverflows()
    ensures var fold := (name: string) => if name == "Alice" then "alice" else name;
      var env := Env(map["alice" := 1], map[], 1, 600, fold, (id: nat) => true, (name: string) => true);
      var s := Run(env, Initial(0), Failing("Alice", 0, 1));
      && IsRun(env, Initial(0), Failing("Alice", 0, 1)) && !LockOf(s, 1).locked
      && Resolve(env, "alice") == Some(1) && CountOf(s, env.fold("alice")) == env.threshold
  {
    var fold := (name: string) => if name == "Alice" then "alice" else name;
    var env := Env(map["alice" := 1], map[], 1, 600, fold, (id: nat) => true, (name: string) => true);
    assert "Alice"[0] != "alice"[0];
    StrayFailuresCount(env, Initial(0), "Alice", 1);
  }

  /** An account spelt in lower case has a stray as soon as somebody submits another spelling of it. */
  lemma OtherSpellingIsStray(env: Env, name: string, spelling: string)
    requires env.threshold > 0 && Resolve(env, name).Some? && env.submitted(spelling)
    requires Resolve(env, spelling).None? && env.fold(spelling) == env.fold(name)
    ensures !AlwaysBounded(env)
  {
    BoundedIffNoStrays(env);
  }

  /** From a clean counter and an unlocked, enabled account, the first threshold-1 wrong passwords only
      count, and the next one locks and zeroes the counter. */
  lemma {:induction false} LocksAtThreshold(env: Env, s: State, name: string, n: nat)
    requires env.submitted(name) && Resolve(env, name).Some? && env.enabled(Resolve(env, name).value)
    requires !LockOf(s, Resolve(env, name).value).locked
    requires 0 <= CountOf(s, env.fold(name)) && CountOf(s, env.fold(name)) + n == env.threshold && n > 0
    ensures var actions := Failing(name, s.now, n); var t := Run(env, s, actions);
      && IsRun(env, s, actions)
      && LockOf(t, Resolve(env, name).value) == LockAfterFailures(env, s.now)
      && CountOf(t, env.fold(name)) == 0
    decreases n
  {
    var step := Login(Attempt(name, false, true, false, false), s.now);
    var t := Next(env, s, step);
    assert Failing(name, s.now, n)[1..] == Failing(name, s.now, n - 1);
    if n > 1 {
      assert !LockOf(t, Resolve(env, name).value).locked && CountOf(t, env.fold(name)) == CountOf(s, env.fold(name)) + 1;
      LocksAtThreshold(env, t, name, n - 1);
    } else {
      assert Failing(name, s.now, 0) == [];
    }
  }

  // ---- how long a lock lasts ---------------------------------------------------------------------------------

  predicate ReachesAuthenticate(answer: Answer) {
    answer.Disabled? || answer.Failed? || answer.LockedNow? || answer.Denied? || answer.LoggedIn?
  }

  predicate NoAdmin(actions: seq<Action>, id: nat) {
    forall i | 0 <= i < |actions| :: actions[i].AdminLock? ==> actions[i].id != id
  }

  /** Every attempt comes no later than the lock's end; a lock without end admits any time. */
  predicate Within(actions: seq<Action>, until: Option<int>) {
    until.Some? ==> forall i | 0 <= i < |actions| :: actions[i].Login? ==> actions[i].now <= until.value
  }

  lemma StepKeepsLock(env: Env, s: State, action: Action, id: nat, l: Lock)
    requires LockOf(s, id) == l && l.locked && (action.AdminLock? ==> action.id != id)
    requires l.until.Some? && action.Login? ==> action.now <= l.until.value
    ensures LockOf(Next(env, s, action), id) == l
  {
  }

  lemma {:induction false} RunKeepsLock(env: Env, s: State, actions: seq<Action>, id: nat, l: Lock)
    requires LockOf(s, id) == l && l.locked && NoAdmin(actions, id) && Within(actions, l.until)
    ensures LockOf(Run(env, s, actions), id) == l
    decreases |actions|
  {
    if actions != [] {
      assert NoAdmin(actions[1..], id) && Within(actions[1..], l.until);
      StepKeepsLock(env, s, actions[0], id, l);
      RunKeepsLock(env, Next(env, s, actions[0]), actions[1..], id, l);
    }
  }

  /** An account locked by failures at time t with duration d > 0: whatever is tried in between, the next
      attempt under any of its names, not banned and past the captcha, reaches Authenticate exactly when it
      comes after t + d. With d = 0 it never does. An administrator is left out of the run. */
  lemma LockLastsExactly(env: Env, s: State, trigger: Attempt, t: int, actions: seq<Action>, later: Attempt, now: int)
    requires Answered(env, s, Login(trigger, t)) == LockedNow
    requires NoAdmin(actions, Resolve(env, trigger.name).value)
    requires Within(actions, if env.duration > 0 then Some(t + env.duration) else None)
    requires Resolve(env, later.name) == Resolve(env, trigger.name) && !later.banned && later.captchaOK
    ensures ReachesAuthenticate(Answered(env, Run(env, Next(env, s, Login(trigger, t)), actions), Login(later, now)))
            <==> env.duration > 0 && now > t + env.duration
  {
    var id := Resolve(env, trigger.name).value;
    var locked := Next(env, s, Login(trigger, t));
    assert LockOf(locked, id) == LockAfterFailures(env, t);
    RunKeepsLock(env, locked, actions, id, LockAfterFailures(env, t));
  }

  /** Fewer failures than the count still allows leave the account unlocked. */
  lemma {:induction false} BelowThresholdStaysOpen(env: Env, s: State, name: string, n: nat)
    requires env.submitted(name) && Resolve(env, name).Some? && env.enabled(Resolve(env, name).value)
    requires !LockOf(s, Resolve(env, name).value).locked
    requires 0 <= CountOf(s, env.fold(name)) && CountOf(s, env.fold(name)) + n < env.threshold
    ensures var t := Run(env, s, Failing(name, s.now, n));
      !LockOf(t, Resolve(env, name).value).locked && CountOf(t, env.fold(name)) == CountOf(s, env.fold(name)) + n
    decreases n
  {
    if n > 0 {
      var step := Login(Attempt(name, false, true, false, false), s.now);
      var t := Next(env, s, step);
      assert Failing(name, s.now, n)[1..] == Failing(name, s.now, n - 1);
      assert !LockOf(t, Resolve(env, name).value).locked && CountOf(t, env.fold(name)) == CountOf(s, env.fold(name)) + 1;
      BelowThresholdStaysOpen(env, t, name, n - 1);
    }
  }

  /** A completed login gives the whole budget back: right after it fewer than threshold wrong passwords
      under that name leave the account open, and exactly threshold of them lock it. */
  lemma LoginRestoresBudget(env: Env, s: State, a: Attempt, now: int, n: nat)
    requires Answered(env, s, Login(a, now)) == LoggedIn && env.submitted(a.name) && 0 < n <= env.threshold
    ensures var t := Run(env, Next(env, s, Login(a, now)), Failing(a.name, now, n));
      LockOf(t, Resolve(env, a.name).value).locked <==> n == env.threshold
  {
    var t := Next(env, s, Login(a, now));
    assert CountOf(t, env.fold(a.name)) == 0 && t.now == now;
    if n == env.threshold { LocksAtThreshold(env, t, a.name, n); } else { BelowThresholdStaysOpen(env, t, a.name, n); }
  }

  // ---- one attempt, written out -------------------------------------------------------------------------------

  /** The user name decides before the email address. */
  predicate StandsFor(env: Env, name: string, id: nat) {
    (name in env.byUsername && env.byUsername[name] == id)
    || (name !in env.byUsername && name in env.byEmail && env.byEmail[name] == id)
  }

  predicate NobodysName(env: Env, name: string) { name !in env.byUsername && name !in env.byEmail }

  /** The account is locked and the lock has not run out. */
  predicate LockedAt(s: State, id: nat, now: int) {
    id in s.locks && s.locks[id].locked && (s.locks[id].until.None? || now <= s.locks[id].until.value)
  }

  predicate RightPassword(env: Env, a: Attempt, id: nat) { StandsFor(env, a.name, id) && env.enabled(id) && a.passwordOK }

  /** A ban comes first, then the lock, the captcha and a disabled account; the right password logs in, unless
      the login rules turn it down; anything else is a failure. */
  lemma WhichAnswer(env: Env, s: State, a: Attempt, now: int)
    ensures var answer := Answered(env, s, Login(a, now));
      && (answer == Banned <==> a.banned)
      && (answer == AlreadyLocked <==> !a.banned && exists id :: StandsFor(env, a.name, id) && LockedAt(s, id, now))
      && var open := !a.banned && forall id | StandsFor(env, a.name, id) :: !LockedAt(s, id, now);
        && (answer == NeedCaptcha <==> open && !a.captchaOK)
        && (answer == Disabled <==> open && a.captchaOK && exists id :: StandsFor(env, a.name, id) && !env.enabled(id))
        && (answer == LoggedIn <==> open && a.captchaOK && a.admitted && exists id :: RightPassword(env, a, id))
        && (answer == Denied <==> open && a.captchaOK && !a.admitted && exists id :: RightPassword(env, a, id))
        && (answer.Failed? || answer == LockedNow <==>
              && open && a.captchaOK
              && (NobodysName(env, a.name) || (!a.passwordOK && exists id :: StandsFor(env, a.name, id) && env.enabled(id))))
  {
    var id := Resolve(env, a.name);
    ResolveIs(env, a.name);
    if id.Some? {
      assert StandsFor(env, a.name, id.value);
      assert RightPassword(env, a, id.value) <==> env.enabled(id.value) && a.passwordOK;
      assert Refused(env, LookedUp(env, s, a.name, now), a) <==> LockedAt(s, id.value, now);
    }
  }

  lemma ResolveIs(env: Env, name: string)
    ensures Resolve(env, name).None? <==> NobodysName(env, name)
    ensures forall id: nat :: StandsFor(env, name, id) <==> Resolve(env, name) == Some(id)
  {
  }

  /** The count a further failure under the name comes to. */
  function NextCount(env: Env, s: State, name: string): int {
    1 + if env.fold(name) in s.counters then s.counters[env.fold(name)].count else 0
  }

  /** A failure locks the account at the threshold, for duration seconds or until an administrator unlocks it,
      and forgets the count; below it the count is kept for ten minutes and the answer says what is left. */
  lemma FailureSays(env: Env, s: State, a: Attempt, now: int)
    requires Answered(env, s, Login(a, now)).Failed? || Answered(env, s, Login(a, now)) == LockedNow
    ensures var answer, n, count := Answered(env, s, Login(a, now)), Next(env, s, Login(a, now)), NextCount(env, s, a.name);
      && (answer == LockedNow <==> !NobodysName(env, a.name) && count > 0 && count >= env.threshold)
      && (answer == LockedNow ==> n.counters == s.counters - {env.fold(a.name)} && forall id | StandsFor(env, a.name, id) ::
            n.locks == s.locks[id := Lock(true, if env.duration > 0 then Some(now + env.duration) else None, "login_failure")])
      && (answer.Failed? ==>
            && n.counters == s.counters[env.fold(a.name) := Counter(count, now + 600)]
            && (answer.remaining == env.threshold - count || (answer.remaining == 0 && env.threshold < count)))
  {
    ResolveIs(env, a.name);
    FailureCounts(env, s, a, now);
  }

  lemma FailureCounts(env: Env, s: State, a: Attempt, now: int)
    ensures var t := LookedUp(env, s, a.name, now);
      t.counters == s.counters && t.now == now && CountOf(t, env.fold(a.name)) + 1 == NextCount(env, s, a.name)
  {
  }

  /** Other answers keep the counters, but for a completed login, which clears the name's. */
  lemma OtherAnswersSay(env: Env, s: State, a: Attempt, now: int)
    requires !Answered(env, s, Login(a, now)).Failed? && Answered(env, s, Login(a, now)) != LockedNow
    ensures var answer, n := Answered(env, s, Login(a, now)), Next(env, s, Login(a, now));
      n.now == now && n.counters == if answer == LoggedIn then s.counters - {env.fold(a.name)} else s.counters
  {
  }

  /** Unless it locks, an attempt changes at most one lock: one that has run out, of the account asked for. */
  lemma LocksSay(env: Env, s: State, a: Attempt, now: int)
    requires Answered(env, s, Login(a, now)) != LockedNow
    ensures var n := Next(env, s, Login(a, now));
      forall id: nat :: LockOf(n, id) == if !a.banned && StandsFor(env, a.name, id) && !LockedAt(s, id, now) && LockOf(s, id).locked
                                         then Lock(false, None, "") else LockOf(s, id)
  {
    ResolveIs(env, a.name);
  }

  /** An administrator's lock has no end and his unlock no reason; a sweep drops the counts past their time. */
  lemma AdminAndSweepSay(env: Env, s: State, action: Action)
    ensures action.AdminLock? ==>
              && Next(env, s, action).counters == s.counters
              && Next(env, s, action).locks == s.locks[action.id := Lock(action.lock, None, if action.lock then action.reason else "")]
    ensures action.Sweep? ==>
              && Next(env, s, action).locks == s.locks && Next(env, s, action).now == action.now
              && forall k :: k in Next(env, s, action).counters <==> k in s.counters && action.now <= s.counters[k].deadline
    ensures action.Sweep? ==> forall k | k in Next(env, s, action).counters :: Next(env, s, action).counters[k] == s.counters[k]
  {
  }
}
