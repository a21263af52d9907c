/** The cached site URL: readers fill the cache from the database under a lock, setters write the database
    first and invalidate the cache afterwards, and all their steps interleave. Every written value has a
    version, its place in the order of database writes. */
module SiteUrlCache {
  import opened Options

  // ---- one call at a time -----------------------------------------------------------------------------

  const SITE_URL := ("platform", "site_url")

  class ConfigRepository {
    var rows: map<(string, string), string>
    var siteURL: string
    var loaded: bool

    ghost predicate Valid()
      reads this
    {
      loaded ==> siteURL == Row(SITE_URL)
    }

    function Row(key: (string, string)): string
      reads this
    {
      if key in rows then rows[key] else ""
    }

    constructor (rows: map<(string, string), string>)
      ensures Valid() && this.rows == rows
    {
      this.rows, siteURL, loaded := rows, "", false;
    }

    /** The cached value is the row's, whatever was set in between. */
    method SiteURL() returns (url: string)
      requires Valid()
      modifies `siteURL, `loaded
      ensures Valid() && loaded && url == Row(SITE_URL)
      ensures url == if ("platform", "site_url") in rows then rows[("platform", "site_url")] else ""
    {
      if !loaded {
        siteURL := Row(SITE_URL);
        loaded := true;
      }
      url := siteURL;
    }

    method InvalidateSiteURL()
      modifies `loaded
      ensures !loaded
    {
      loaded := false;
    }

    /** The invalidation is deferred, so it also runs when the database refuses the write. */
    method Set(category: string, key: string, value: string, accepted: bool)
      requires Valid()
      modifies `rows, `loaded
      ensures Valid() && rows == if accepted then old(rows)[(category, key) := value] else old(rows)
      ensures loaded == (old(loaded) && !(category == "platform" && key == "site_url"))
    {
      if accepted { rows := rows[(category, key) := value]; }
      if category == "platform" && key == "site_url" { InvalidateSiteURL(); }
    }
  }

  // ---- interleaved calls ------------------------------------------------------------------------------

  /** since is the newest version that was certain when the call began; history only. */
  datatype Reader =
    | Checking(since: nat)
    | Waiting(since: nat)
    | Locked(since: nat)
    | Fetched(since: nat, version: nat)

  datatype Setter = Writing(value: string) | Written(version: nat) | Failed

  datatype Result = Result(since: nat, version: nat, value: string)

  /** values lists every value the database row has had, oldest first; the last one is the current row.
      certain is the newest version that a finished Set wrote or a finished read returned; history only. */
  datatype State = State(
    values: seq<string>,
    siteURL: string,
    cached: nat,
    loaded: bool,
    lock: Option<nat>,
    readers: map<nat, Reader>,
    setters: map<nat, Setter>,
    certain: nat,
    results: seq<Result>)

  datatype Action =
    | BeginRead(r: nat)
    | FastCheck(r: nat)
    | Lock(r: nat)
    | Fetch(r: nat)
    | Publish(r: nat)
    | BeginSet(w: nat, value: string)
    | Write(w: nat)
    | FailWrite(w: nat)
    | Invalidate(w: nat)

  function Initial(row: string): State {
    State([row], "", 0, false, None, map[], map[], 0, [])
  }

  function Current(s: State): nat
    requires s.values != []
  {
    |s.values| - 1
  }

  predicate Enabled(s: State, a: Action) {
    s.values != [] &&
    match a
    case BeginRead(r) => r !in s.readers
    case FastCheck(r) => r in s.readers && s.readers[r].Checking?
    case Lock(r) => r in s.readers && s.readers[r].Waiting? && s.lock.None?
    case Fetch(r) => r in s.readers && s.readers[r].Locked? && s.lock == Some(r)
    case Publish(r) => r in s.readers && s.readers[r].Fetched? && s.lock == Some(r) && s.readers[r].version < |s.values|
    case BeginSet(w, _) => w !in s.setters
    case Write(w) => w in s.setters && s.setters[w].Writing?
    case FailWrite(w) => w in s.setters && s.setters[w].Writing?
    case Invalidate(w) => w in s.setters && !s.setters[w].Writing? && s.lock.None?
  }

  function Max(a: nat, b: nat): nat { if a < b then b else a }

  /** A read answers from the cache. */
  function Answered(s: State, r: nat): State
    requires r in s.readers
  {
    s.(readers := s.readers - {r}, certain := Max(s.certain, s.cached),
       results := s.results + [Result(s.readers[r].since, s.cached, s.siteURL)])
  }

  function Next(s: State, a: Action): State
    requires Enabled(s, a)
  {
    match a
    case BeginRead(r) => s.(readers := s.readers[r := Checking(s.certain)])
    case FastCheck(r) =>
      if s.loaded then Answered(s, r) else s.(readers := s.readers[r := Waiting(s.readers[r].since)])
    case Lock(r) =>
      if s.loaded then Answered(s, r)
      else s.(lock := Some(r), readers := s.readers[r := Locked(s.readers[r].since)])
    case Fetch(r) => s.(readers := s.readers[r := Fetched(s.readers[r].since, Current(s))])
    case Publish(r) =>
      var version := s.readers[r].version;
      Answered(s.(siteURL := s.values[version], cached := version, loaded := true, lock := None), r)
    case BeginSet(w, value) => s.(setters := s.setters[w := Writing(value)])
    case Write(w) =>
      s.(values := s.values + [s.setters[w].value], setters := s.setters[w := Written(|s.values|)])
    case FailWrite(w) => s.(setters := s.setters[w := Failed])
    case Invalidate(w) =>
      s.(loaded := false, setters := s.setters - {w},
         certain := if s.setters[w].Written? then Max(s.certain, s.setters[w].version) else s.certain)
  }

  predicate IsRun(s: State, actions: seq<Action>)
    decreases |actions|
  {
    actions != [] ==> Enabled(s, actions[0]) && IsRun(Next(s, actions[0]), actions[1..])
  }

  function Run(s: State, actions: seq<Action>): State
    requires IsRun(s, actions)
    decreases |actions|
  {
    if actions == [] then s else Run(Next(s, actions[0]), actions[1..])
  }

  // ---- what every step keeps -------------------------------------------------------------------------

  /** A setter between its database write and its invalidation. */
  ghost predicate Pending(s: State, version: nat) {
    exists w :: w in s.setters && s.setters[w] == Written(version)
  }

  ghost predicate CacheFresh(s: State) {
    && s.values != [] && s.cached < |s.values| && s.certain < |s.values|
    && (s.loaded ==> s.siteURL == s.values[s.cached] && s.certain <= s.cached)
    && (forall v: nat | s.loaded && s.cached < v < |s.values| :: Pending(s, v))
  }

  /** The reader holding the lock found a row no older than what was certain, and invalidation waits. */
  ghost predicate ReadersFresh(s: State) {
    && (forall r | r in s.readers :: s.readers[r].since <= s.certain)
    && (forall r | r in s.readers && (s.readers[r].Locked? || s.readers[r].Fetched?) :: s.lock == Some(r) && !s.loaded)
    && (forall r | r in s.readers && s.readers[r].Fetched? ::
          && s.certain <= s.readers[r].version < |s.values|
          && forall v: nat | s.readers[r].version < v < |s.values| :: Pending(s, v))
  }

  ghost predicate SettersKnown(s: State) {
    forall w | w in s.setters && s.setters[w].Written? :: s.setters[w].version < |s.values|
  }

  ghost predicate ResultsFresh(s: State) {
    forall i | 0 <= i < |s.results| ::
      && s.results[i].since <= s.results[i].version < |s.values|
      && s.results[i].value == s.values[s.results[i].version]
  }

  ghost predicate Inv(s: State) {
    CacheFresh(s) && ReadersFresh(s) && SettersKnown(s) && ResultsFresh(s)
  }

  /** No step but an invalidation ends a pending version, and that one unloads the cache. */
  lemma StepKeepsPending(s: State, a: Action, v: nat)
    requires Enabled(s, a) && Pending(s, v) && !a.Invalidate?
    ensures Pending(Next(s, a), v)
  {
    var w :| w in s.setters && s.setters[w] == Written(v);
    assert Next(s, a).setters[w] == Written(v);
  }

  lemma WriteIsPending(s: State, w: nat)
    requires Enabled(s, Write(w))
    ensures Pending(Next(s, Write(w)), |s.values|)
  {
    assert Next(s, Write(w)).setters[w] == Written(|s.values|);
  }

  lemma StepKeepsCacheFresh(s: State, a: Action)
    requires Inv(s) && Enabled(s, a)
    ensures CacheFresh(Next(s, a))
  {
    var n := Next(s, a);
    forall v: nat | n.loaded && n.cached < v < |n.values| ensures Pending(n, v) {
      if a.Write? && v == |s.values| { WriteIsPending(s, a.w); } else { StepKeepsPending(s, a, v); }
    }
  }

  lemma StepKeepsReader(s: State, a: Action, r: nat, v: nat)
    requires Inv(s) && Enabled(s, a)
    requires r in Next(s, a).readers && Next(s, a).readers[r].Fetched?
    requires Next(s, a).readers[r].version < v < |Next(s, a).values|
    ensures Pending(Next(s, a), v)
  {
    if a.Write? && v == |s.values| { WriteIsPending(s, a.w); }
    else if r in s.readers && s.readers[r].Fetched? { StepKeepsPending(s, a, v); }
  }

  lemma StepKeepsReadersFresh(s: State, a: Action)
    requires Inv(s) && Enabled(s, a)
    ensures ReadersFresh(Next(s, a))
  {
    var n := Next(s, a);
    forall r, v: nat | r in n.readers && n.readers[r].Fetched? && n.readers[r].version < v < |n.values|
      ensures Pending(n, v) {
      StepKeepsReader(s, a, r, v);
    }
  }

  lemma StepKeepsResults(s: State, a: Action)
    requires Inv(s) && Enabled(s, a)
    ensures SettersKnown(Next(s, a)) && ResultsFresh(Next(s, a))
  {
  }

  lemma StepKeepsInv(s: State, a: Action)
    requires Inv(s) && Enabled(s, a)
    ensures Inv(Next(s, a))
  {
    StepKeepsCacheFresh(s, a);
    StepKeepsReadersFresh(s, a);
    StepKeepsResults(s, a);
  }

  lemma {:induction false} RunKeepsInv(s: State, actions: seq<Action>)
    requires Inv(s) && IsRun(s, actions)
    ensures Inv(Run(s, actions))
    decreases |actions|
  {
    if actions != [] {
      StepKeepsInv(s, actions[0]);
      RunKeepsInv(Next(s, actions[0]), actions[1..]);
    }
  }

  // ---- the theorems -----------------------------------------------------------------------------------

  /** A loaded cache is the database row unless a setter is between its write and its invalidation. */
  lemma LoadedIsCurrent(row: string, actions: seq<Action>)
    requires IsRun(Initial(row), actions)
    ensures var s := Run(Initial(row), actions);
      && s.values != []
      && (s.loaded && (forall w | w in s.setters :: !s.setters[w].Written?) ==> s.siteURL == s.values[Current(s)])
  {
    RunKeepsInv(Initial(row), actions);
    var s := Run(Initial(row), actions);
    if s.loaded && s.cached < Current(s) {
      assert Pending(s, Current(s));
    }
  }

  lemma StepKeepsSince(s: State, a: Action, r: nat, v: nat)
    requires Enabled(s, a) && v <= s.certain && (r in s.readers ==> v <= s.readers[r].since)
    ensures v <= Next(s, a).certain && (r in Next(s, a).readers ==> v <= Next(s, a).readers[r].since)
  {
  }

  lemma {:induction false} RunKeepsSince(s: State, actions: seq<Action>, r: nat, v: nat)
    requires IsRun(s, actions) && v <= s.certain && (r in s.readers ==> v <= s.readers[r].since)
    ensures v <= Run(s, actions).certain
    ensures r in Run(s, actions).readers ==> v <= Run(s, actions).readers[r].since
    decreases |actions|
  {
    if actions != [] {
      StepKeepsSince(s, actions[0], r, v);
      RunKeepsSince(Next(s, actions[0]), actions[1..], r, v);
    }
  }

  /** The action by which read r returns. */
  predicate Returns(s: State, a: Action, r: nat) {
    && Enabled(s, a)
    && (a == FastCheck(r) || a == Lock(r) || a == Publish(r))
    && |Next(s, a).results| == |s.results| + 1
  }

  /** A SiteURL call that begins once version v is certain -- a Set that wrote it has returned, or a read
      has returned it -- answers with v or a newer value, under every interleaving. */
  lemma ReadsAreFresh(s: State, r: nat, actions: seq<Action>, last: Action, v: nat)
    requires Inv(s) && v <= s.certain && r !in s.readers
    requires IsRun(s, actions) && Returns(Run(s, actions), last, r)
    ensures var n := Next(Run(s, actions), last);
      && var result := n.results[|n.results| - 1];
      && v <= result.version < |n.values| && result.value == n.values[result.version]
  {
    RunKeepsSince(s, actions, r, v);
    RunKeepsInv(s, actions);
    StepKeepsResults(Run(s, actions), last);
  }

  /** What makes a version certain: the return of the Set that wrote it, and the return of a read. */
  lemma ReturnsMakeCertain(s: State, a: Action)
    requires Inv(s) && Enabled(s, a)
    ensures a.Invalidate? && s.setters[a.w].Written? ==> s.setters[a.w].version <= Next(s, a).certain
    ensures |Next(s, a).results| == |s.results| + 1 ==> Next(s, a).results[|s.results|].version <= Next(s, a).certain
    ensures s.certain <= Next(s, a).certain
  {
  }

  /** So a SiteURL call that begins after a Set has returned never answers an older value, whatever else
      runs in between. */
  lemma ReadAfterSetIsFresh(s: State, w: nat, between: seq<Action>, r: nat, during: seq<Action>, last: Action)
    requires Inv(s) && Enabled(s, Invalidate(w)) && s.setters[w].Written?
    requires IsRun(Next(s, Invalidate(w)), between)
    requires var begun := Run(Next(s, Invalidate(w)), between);
      r !in begun.readers && IsRun(begun, during) && Returns(Run(begun, during), last, r)
    ensures var begun := Run(Next(s, Invalidate(w)), between);
      var n := Next(Run(begun, during), last);
      var result := n.results[|n.results| - 1];
      s.setters[w].version <= result.version < |n.values| && result.value == n.values[result.version]
  {
    var returned := Next(s, Invalidate(w));
    StepKeepsInv(s, Invalidate(w));
    ReturnsMakeCertain(s, Invalidate(w));
    RunKeepsInv(returned, between);
    CertainGrows(returned, between);
    ReadsAreFresh(Run(returned, between), r, during, last, s.setters[w].version);
  }

  lemma {:induction false} CertainGrows(s: State, actions: seq<Action>)
    requires Inv(s) && IsRun(s, actions)
    ensures s.certain <= Run(s, actions).certain
    decreases |actions|
  {
    if actions != [] {
      ReturnsMakeCertain(s, actions[0]);
      StepKeepsInv(s, actions[0]);
      CertainGrows(Next(s, actions[0]), actions[1..]);
    }
  }

  /** In particular two reads, one after the other, never go back in time. */
  lemma ReadsDoNotGoBack(s: State, first: Action, p: nat, q: nat, actions: seq<Action>, last: Action)
    requires Inv(s) && Returns(s, first, p) && q !in Next(s, first).readers
    requires IsRun(Next(s, first), actions) && Returns(Run(Next(s, first), actions), last, q)
    ensures var n := Next(Run(Next(s, first), actions), last);
      Next(s, first).results[|s.results|].version <= n.results[|n.results| - 1].version
  {
    StepKeepsInv(s, first);
    ReturnsMakeCertain(s, first);
    ReadsAreFresh(Next(s, first), q, actions, last, Next(s, first).results[|s.results|].version);
  }

  /** The window is real: between a Set's write and its invalidation a loaded cache still answers with
      the old value. */
  lemma StaleUntilInvalidated(s: State, w: nat, r: nat)
    requires Inv(s) && s.loaded && w in s.setters && s.setters[w].Writing? && r !in s.readers
    ensures var actions := [Write(w), BeginRead(r), FastCheck(r)];
      && IsRun(s, actions)
      && var n := Run(s, actions);
        && n.results != [] && n.values != []
        && n.results[|n.results| - 1].version == s.cached < Current(n)
  {
    var actions := [Write(w), BeginRead(r), FastCheck(r)];
    var s1 := Next(s, actions[0]);
    var s2 := Next(s1, actions[1]);
    var s3 := Next(s2, actions[2]);
    assert actions[1..] == [BeginRead(r), FastCheck(r)] && [BeginRead(r), FastCheck(r)][1..] == [FastCheck(r)];
    assert [FastCheck(r)][1..] == [];
    assert IsRun(s3, []) && Run(s3, []) == s3;
    assert IsRun(s2, [FastCheck(r)]) && Run(s2, [FastCheck(r)]) == s3;
    assert IsRun(s1, [BeginRead(r), FastCheck(r)]) && Run(s1, [BeginRead(r), FastCheck(r)]) == s3;
    assert IsRun(s, actions) && Run(s, actions) == s3;
  }

  // ---- one call at a time, step by step ---------------------------------------------------------------------

  lemma RunStep(s: State, actions: seq<Action>, i: nat, final: State)
    requires i < |actions| && Enabled(s, actions[i])
    requires i + 1 == |actions| ==> Next(s, actions[i]) == final
    requires i + 1 < |actions| ==>
               IsRun(Next(s, actions[i]), actions[i + 1..]) && Run(Next(s, actions[i]), actions[i + 1..]) == final
    ensures IsRun(s, actions[i..]) && Run(s, actions[i..]) == final
  {
    assert actions[i..][0] == actions[i] && actions[i..][1..] == actions[i + 1..];
  }

  function HitSteps(r: nat): seq<Action> { [BeginRead(r), FastCheck(r)] }

  function MissSteps(r: nat): seq<Action> { [BeginRead(r), FastCheck(r), Lock(r), Fetch(r), Publish(r)] }

  function SetSteps(w: nat, value: string, accepted: bool): seq<Action> {
    [BeginSet(w, value), if accepted then Write(w) else FailWrite(w), Invalidate(w)]
  }

  /** A read that finds the cache loaded answers from it, and changes nothing else. */
  lemma ReadFromCache(s: State, r: nat)
    requires s.values != [] && r !in s.readers && s.loaded
    ensures IsRun(s, HitSteps(r))
    ensures var n := Run(s, HitSteps(r));
      && n.results == s.results + [Result(s.certain, s.cached, s.siteURL)] && n.readers == s.readers && n.loaded
      && n.values == s.values && n.siteURL == s.siteURL && n.cached == s.cached && n.lock == s.lock && n.setters == s.setters
  {
    var actions := HitSteps(r);
    var s1 := Next(s, actions[0]);
    var s2 := Next(s1, actions[1]);
    assert s2.readers == s.readers;
    RunStep(s1, actions, 1, s2);
    RunStep(s, actions, 0, s2);
    assert actions[0..] == actions;
  }

  /** A read that finds the cache unloaded takes the lock, fetches the current row, loads the cache with it,
      gives the lock back and answers the row. */
  lemma ReadFromRow(s: State, r: nat)
    requires s.values != [] && r !in s.readers && !s.loaded && s.lock.None?
    ensures IsRun(s, MissSteps(r))
    ensures var n, last := Run(s, MissSteps(r)), |s.values| - 1;
      && n.results == s.results + [Result(s.certain, last, s.values[last])] && n.readers == s.readers
      && n.loaded && n.siteURL == s.values[last] && n.cached == last
      && n.values == s.values && n.lock == s.lock && n.setters == s.setters
  {
    var s1 := Next(s, BeginRead(r));
    var s2 := Next(s1, FastCheck(r));
    var s3 := Next(s2, Lock(r));
    var s4 := Next(s3, Fetch(r));
    var s5 := Next(s4, Publish(r));
    assert s5.readers == s.readers;
    MissRuns(s, r, s1, s2, s3, s4, s5);
  }

  lemma MissRuns(s: State, r: nat, s1: State, s2: State, s3: State, s4: State, s5: State)
    requires Enabled(s, BeginRead(r)) && s1 == Next(s, BeginRead(r)) && Enabled(s1, FastCheck(r)) && s2 == Next(s1, FastCheck(r))
    requires Enabled(s2, Lock(r)) && s3 == Next(s2, Lock(r)) && Enabled(s3, Fetch(r)) && s4 == Next(s3, Fetch(r))
    requires Enabled(s4, Publish(r)) && s5 == Next(s4, Publish(r))
    ensures IsRun(s, MissSteps(r)) && Run(s, MissSteps(r)) == s5
  {
    var actions := MissSteps(r);
    RunStep(s4, actions, 4, s5);
    RunStep(s3, actions, 3, s5);
    RunStep(s2, actions, 2, s5);
    RunStep(s1, actions, 1, s5);
    RunStep(s, actions, 0, s5);
    assert actions[0..] == actions;
  }

  /** A setter whose write is accepted makes its value the row, one whose write fails leaves the row; both leave
      the cache unloaded. */
  lemma SetUnloads(s: State, w: nat, value: string, accepted: bool)
    requires s.values != [] && w !in s.setters && s.lock.None?
    ensures IsRun(s, SetSteps(w, value, accepted))
    ensures var n := Run(s, SetSteps(w, value, accepted));
      && n.values == (if accepted then s.values + [value] else s.values) && !n.loaded && n.setters == s.setters
      && n.siteURL == s.siteURL && n.cached == s.cached && n.lock == s.lock && n.readers == s.readers && n.results == s.results
  {
    var actions := SetSteps(w, value, accepted);
    var s1 := Next(s, actions[0]);
    var s2 := Next(s1, actions[1]);
    var s3 := Next(s2, actions[2]);
    assert s3.setters == s.setters;
    RunStep(s2, actions, 2, s3);
    RunStep(s1, actions, 1, s3);
    RunStep(s, actions, 0, s3);
    assert actions[0..] == actions;
  }
}
