/** The probe scheduler's interval mailbox: SetInterval calls and the scheduler's loop share a one-slot
    channel and interleave step by step. */
module Mailbox {
  import opened Options

  /** Where a SetInterval call stands once it has stored its interval. */
  datatype Setter = Trying(d: int) | Draining(d: int) | Sending(d: int)

  /** The loop: its first probe round, an interval in hand that is not yet the ticker's, ticking, or cancelled. */
  datatype Loop = NotStarted | FirstRun | Holding(d: int) | Ticking(d: int) | Stopped

  /** lastSent records the latest value put in the slot; no step reads it. */
  datatype State = State(interval: int, slot: Option<int>, loop: Loop, setters: map<nat, Setter>, lastSent: Option<int>)

  datatype Action =
    | SetInterval(r: nat, seconds: int)
    | TrySend(r: nat)
    | Drain(r: nat)
    | Send(r: nat)
    | Start
    | ReadInterval
    | NewTicker
    | Receive
    | Tick
    | Stop

  const DEFAULT_INTERVAL := 30

  function Initial(seconds: int): State {
    State(if seconds <= 0 then DEFAULT_INTERVAL else seconds, None, NotStarted, map[], None)
  }

  /** A plain send waits for an empty slot; everything else can always go on. */
  predicate Enabled(s: State, a: Action) {
    match a
    case SetInterval(r, _) => r !in s.setters
    case TrySend(r) => r in s.setters && s.setters[r].Trying?
    case Drain(r) => r in s.setters && s.setters[r].Draining?
    case Send(r) => r in s.setters && s.setters[r].Sending? && s.slot.None?
    case Start => s.loop.NotStarted?
    case ReadInterval => s.loop.FirstRun?
    case NewTicker => s.loop.Holding?
    case Receive => s.loop.Ticking? && s.slot.Some?
    case Tick => s.loop.Ticking?
    case Stop => s.loop.Ticking?
  }

  function Next(s: State, a: Action): State
    requires Enabled(s, a)
  {
    match a
    case SetInterval(r, seconds) =>
      if seconds <= 0 || seconds == s.interval then s
      else s.(interval := seconds, setters := s.setters[r := Trying(seconds)])
    case TrySend(r) =>
      var d := s.setters[r].d;
      if s.slot.None? then s.(slot := Some(d), lastSent := Some(d), setters := s.setters - {r})
      else s.(setters := s.setters[r := Draining(d)])
    case Drain(r) => s.(slot := None, setters := s.setters[r := Sending(s.setters[r].d)])
    case Send(r) =>
      var d := s.setters[r].d;
      s.(slot := Some(d), lastSent := Some(d), setters := s.setters - {r})
    case Start => s.(loop := FirstRun)
    case ReadInterval => s.(loop := Holding(s.interval))
    case NewTicker => s.(loop := Ticking(s.loop.d))
    case Receive => s.(loop := Holding(s.slot.value), slot := None)
    case Tick => s
    case Stop => s.(loop := Stopped)
  }

  predicate IsRun(s: State, actions: seq<Action>)
    decreases |actions|
  {
    actions != [] ==> Enabled(s, actions[0]) && IsRun(Next(s, actions[0]), actions[1..])
  }

  function Run(s: State, actions: seq<Action>): State
    requires IsRun(s, actions)
    decreases |actions|
  {
    if actions == [] then s else Run(Next(s, actions[0]), actions[1..])
  }

  predicate Idle(s: State) { s.setters == map[] }

  /** The newest interval is in the slot, in the loop's hand, or already the ticker's period; a loop still
      in its first round is going to read it. */
  predicate Settled(s: State) {
    match s.slot
    case Some(d) => d == s.interval
    case None => (s.loop.Holding? || s.loop.Ticking?) ==> s.loop.d == s.interval
  }

  // ---- one SetInterval call at a time ---------------------------------------------------------------------

  predicate IsSerialRun(s: State, actions: seq<Action>)
    decreases |actions|
  {
    actions != [] ==>
      && Enabled(s, actions[0]) && (actions[0].SetInterval? ==> Idle(s))
      && IsSerialRun(Next(s, actions[0]), actions[1..])
  }

  /** The one call under way carries the newest interval, and after its drain the slot stays empty. */
  ghost predicate SerialInv(s: State) {
    && (forall r, q | r in s.setters && q in s.setters :: r == q)
    && (forall r | r in s.setters :: s.setters[r].d == s.interval && (s.setters[r].Sending? ==> s.slot.None?))
    && (Idle(s) ==> Settled(s))
  }

  lemma SerialStep(s: State, a: Action)
    requires SerialInv(s) && Enabled(s, a) && (a.SetInterval? ==> Idle(s))
    ensures SerialInv(Next(s, a))
  {
    var n := Next(s, a);
    assert a.Drain? ==> a.r in n.setters;
    if Idle(n) {
      match a
      case SetInterval(r, _) => assert n == s || r in n.setters;
      case TrySend(r) => assert n.slot == Some(s.setters[r].d) || r in n.setters;
      case Drain(r) =>
      case Send(r) => assert n.slot == Some(s.setters[r].d);
      case _ => assert n.setters == s.setters && Settled(s);
    }
  }

  predicate Blocked(s: State, r: nat) { r in s.setters && s.setters[r].Sending? && s.slot.Some? }

  /** A call past its drain waits for as long as the slot is full. */
  lemma BlockedWaits(s: State, r: nat)
    requires r in s.setters && s.setters[r].Sending?
    ensures Blocked(s, r) <==> !Enabled(s, Send(r))
  {
  }

  /** With one caller at a time no call ever blocks, and whenever none is under way the newest interval is
      in the slot, in hand or in force. */
  lemma {:induction false} SerialRunsSettle(s: State, actions: seq<Action>)
    requires SerialInv(s) && IsSerialRun(s, actions)
    ensures IsRun(s, actions)
    ensures forall r :: !Blocked(Run(s, actions), r)
    ensures Idle(Run(s, actions)) ==> Settled(Run(s, actions))
    decreases |actions|
  {
    if actions != [] {
      SerialStep(s, actions[0]);
      SerialRunsSettle(Next(s, actions[0]), actions[1..]);
    }
  }

  lemma SerialFromStart(seconds: int, actions: seq<Action>)
    requires IsSerialRun(Initial(seconds), actions)
    ensures IsRun(Initial(seconds), actions)
    ensures forall r :: !Blocked(Run(Initial(seconds), actions), r)
    ensures Idle(Run(Initial(seconds), actions)) ==> Settled(Run(Initial(seconds), actions))
  {
    SerialRunsSettle(Initial(seconds), actions);
  }

  /** The loop's own steps. */
  predicate LoopAction(a: Action) { a.ReadInterval? || a.NewTicker? || a.Receive? || a.Tick? }

  /** How far the loop is from ticking at what is settled. */
  function Distance(s: State): nat {
    match s.loop
    case FirstRun => if s.slot.Some? then 4 else 2
    case Holding(_) => if s.slot.Some? then 3 else 1
    case Ticking(_) => if s.slot.Some? then 2 else 0
    case _ => 0
  }

  function CountBusy(actions: seq<Action>): nat {
    if actions == [] then 0 else (if actions[0].Tick? then 0 else 1) + CountBusy(actions[1..])
  }

  lemma LoopStepCloser(s: State, a: Action)
    requires Settled(s) && Enabled(s, a) && LoopAction(a)
    ensures Settled(Next(s, a)) && Next(s, a).interval == s.interval
    ensures !Next(s, a).loop.NotStarted? && !Next(s, a).loop.Stopped?
    ensures Distance(Next(s, a)) + (if a.Tick? then 0 else 1) == Distance(s)
  {
  }

  /** From a settled state, however the loop's select chooses between slot and ticker, the loop stays
      settled, takes at most four steps other than ticks, and once none is left it ticks at the newest
      interval with the slot empty. */
  lemma {:induction false} LoopCatchesUp(s: State, actions: seq<Action>)
    requires Settled(s) && !s.loop.NotStarted? && !s.loop.Stopped?
    requires IsRun(s, actions) && forall i | 0 <= i < |actions| :: LoopAction(actions[i])
    ensures var t := Run(s, actions);
      && Settled(t) && t.interval == s.interval
      && CountBusy(actions) + Distance(t) == Distance(s) <= 4
      && (Distance(t) == 0 <==> t.loop == Ticking(s.interval) && t.slot == None)
      && (Distance(t) > 0 <==> exists a :: LoopAction(a) && !a.Tick? && Enabled(t, a))
    decreases |actions|
  {
    if actions == [] {
      assert Distance(s) > 0 ==> Enabled(s, ReadInterval) || Enabled(s, NewTicker) || Enabled(s, Receive);
    } else {
      LoopStepCloser(s, actions[0]);
      LoopCatchesUp(Next(s, actions[0]), actions[1..]);
    }
  }

  // ---- any number of calls -----------------------------------------------------------------------------------

  ghost predicate SomeSending(s: State) { exists r :: r in s.setters && s.setters[r].Sending? }

  /** What holds under every interleaving: the slot, or with no sender past its drain the loop, has the
      value sent last; before the first send nothing has left the initial interval but calls under way. */
  ghost predicate Inv(s: State, initial: int) {
    && (s.slot.Some? ==> s.lastSent == s.slot)
    && (s.slot.None? && s.lastSent.Some? && !SomeSending(s) ==>
          match s.loop
          case NotStarted => false
          case FirstRun => false
          case Holding(d) => s.lastSent == Some(d)
          case Ticking(d) => s.lastSent == Some(d)
          case Stopped => true)
    && (s.lastSent.None? && Idle(s) ==>
          s.interval == initial && ((s.loop.Holding? || s.loop.Ticking?) ==> s.loop.d == initial))
  }

  lemma StepKeepsInv(s: State, a: Action, initial: int)
    requires Inv(s, initial) && Enabled(s, a)
    ensures Inv(Next(s, a), initial)
  {
    var n := Next(s, a);
    match a
    case SetInterval(r, _) =>
      if n != s {
        assert r in n.setters;
        if SomeSending(s) {
          var q :| q in s.setters && s.setters[q].Sending?;
          assert n.setters[q].Sending?;
        }
      }
    case TrySend(r) =>
      if SomeSending(s) {
        var q :| q in s.setters && s.setters[q].Sending?;
        assert q in n.setters && n.setters[q].Sending?;
      }
    case Drain(r) =>
      assert n.setters[r].Sending?;
    case _ =>
  }

  lemma {:induction false} RunKeepsInv(s: State, actions: seq<Action>, initial: int)
    requires Inv(s, initial) && IsRun(s, actions)
    ensures Inv(Run(s, actions), initial)
    decreases |actions|
  {
    if actions != [] {
      StepKeepsInv(s, actions[0], initial);
      RunKeepsInv(Next(s, actions[0]), actions[1..], initial);
    }
  }

  /** Under any interleaving of any number of calls: once all have returned and while the loop lives, the
      newest interval is honoured exactly when the call that sent last sent the interval stored last. */
  lemma SettledIffLastSenderIsNewest(seconds: int, actions: seq<Action>)
    requires IsRun(Initial(seconds), actions)
    requires var s := Run(Initial(seconds), actions); Idle(s) && !s.loop.Stopped?
    ensures var s := Run(Initial(seconds), actions);
      Settled(s) <==> s.lastSent.None? || s.lastSent == Some(s.interval)
  {
    var first := Initial(seconds);
    RunKeepsInv(first, actions, first.interval);
    assert !SomeSending(Run(first, actions));
  }

  lemma RunStep(s: State, actions: seq<Action>, i: nat, final: State)
    requires i < |actions| && Enabled(s, actions[i])
    requires i + 1 == |actions| ==> Next(s, actions[i]) == final
    requires i + 1 < |actions| ==>
               IsRun(Next(s, actions[i]), actions[i + 1..]) && Run(Next(s, actions[i]), actions[i + 1..]) == final
    ensures IsRun(s, actions[i..]) && Run(s, actions[i..]) == final
  {
    assert actions[i..][0] == actions[i] && actions[i..][1..] == actions[i + 1..];
  }

  /** Two calls at once can leave the older interval in the slot with the newer one stored: the older call
      stored first and sent last. Asking for the newer interval again is then ignored as no change. */
  lemma TwoCallersCanLose(seconds: int, older: int, newer: int)
    requires older > 0 && newer > 0 && older != newer
    requires older != Initial(seconds).interval && newer != Initial(seconds).interval
    ensures var actions := [SetInterval(1, older), SetInterval(2, newer), TrySend(2), TrySend(1), Drain(1), Send(1)];
      && IsRun(Initial(seconds), actions)
      && var s := Run(Initial(seconds), actions);
        && Idle(s) && !Settled(s) && s.slot == Some(older) && s.interval == newer
        && forall r :: Next(s, SetInterval(r, newer)) == s
  {
    var actions := [SetInterval(1, older), SetInterval(2, newer), TrySend(2), TrySend(1), Drain(1), Send(1)];
    var s0 := Initial(seconds);
    var s1 := Next(s0, actions[0]);
    var s2 := Next(s1, actions[1]);
    assert s2 == BothStored(older, newer);
    var s6 := OlderSendsLast(older, newer);
    assert actions[2..] == OLDER_LAST;
    RunStep(s1, actions, 1, s6);
    RunStep(s0, actions, 0, s6);
    assert actions[0..] == actions;
  }

  const OLDER_LAST := [TrySend(2), TrySend(1), Drain(1), Send(1)]

  function BothStored(older: int, newer: int): State {
    State(newer, None, NotStarted, map[1 := Trying(older), 2 := Trying(newer)], None)
  }

  lemma OlderSendsLast(older: int, newer: int) returns (end: State)
    ensures IsRun(BothStored(older, newer), OLDER_LAST) && Run(BothStored(older, newer), OLDER_LAST) == end
    ensures end == State(newer, Some(older), NotStarted, map[], Some(older))
  {
    var s2 := BothStored(older, newer);
    var s3 := Next(s2, TrySend(2));
    assert s3 == State(newer, Some(newer), NotStarted, map[1 := Trying(older)], Some(newer));
    var s4 := Next(s3, TrySend(1));
    var s5 := Next(s4, Drain(1));
    end := Next(s5, Send(1));
    assert end.setters == map[];
    RunStep(s5, OLDER_LAST, 3, end);
    RunStep(s4, OLDER_LAST, 2, end);
    RunStep(s3, OLDER_LAST, 1, end);
    RunStep(s2, OLDER_LAST, 0, end);
    assert OLDER_LAST[0..] == OLDER_LAST;
  }

  /** Two overlapping calls on a slot filled before can leave one of them blocked: both drain, one sends. */
  lemma TwoCallersCanBlock(seconds: int, a: int, b: int, c: int)
    requires a > 0 && b > 0 && c > 0 && a != b && b != c && a != Initial(seconds).interval
    ensures IsRun(Initial(seconds), Filling(a, b, c) + BOTH_DRAIN)
    ensures Blocked(Run(Initial(seconds), Filling(a, b, c) + BOTH_DRAIN), 3)
  {
    BothWait(seconds, a, b, c);
    var s := TwoWaiting(a, b, c);
    var s1 := Next(s, TrySend(2));
    var s2 := Next(s1, TrySend(3));
    var s3 := Next(s2, Drain(2));
    var s4 := Next(s3, Drain(3));
    var s5 := Next(s4, Send(2));
    RunStep(s4, BOTH_DRAIN, 4, s5);
    RunStep(s3, BOTH_DRAIN, 3, s5);
    RunStep(s2, BOTH_DRAIN, 2, s5);
    RunStep(s1, BOTH_DRAIN, 1, s5);
    RunStep(s, BOTH_DRAIN, 0, s5);
    assert BOTH_DRAIN[0..] == BOTH_DRAIN;
    RunsCompose(Initial(seconds), Filling(a, b, c), BOTH_DRAIN);
  }

  function Filling(a: int, b: int, c: int): seq<Action> {
    [SetInterval(1, a), TrySend(1), SetInterval(2, b), SetInterval(3, c)]
  }

  const BOTH_DRAIN := [TrySend(2), TrySend(3), Drain(2), Drain(3), Send(2)]

  function TwoWaiting(a: int, b: int, c: int): State {
    State(c, Some(a), NotStarted, map[2 := Trying(b), 3 := Trying(c)], Some(a))
  }

  lemma BothWait(seconds: int, a: int, b: int, c: int)
    requires a > 0 && b > 0 && c > 0 && a != b && b != c && a != Initial(seconds).interval
    ensures IsRun(Initial(seconds), Filling(a, b, c))
    ensures Run(Initial(seconds), Filling(a, b, c)) == TwoWaiting(a, b, c)
  {
    var actions := Filling(a, b, c);
    var s := Initial(seconds);
    var s1 := Next(s, actions[0]);
    var s2 := Next(s1, actions[1]);
    assert s2.setters == map[];
    var s3 := Next(s2, actions[2]);
    var s4 := Next(s3, actions[3]);
    RunStep(s3, actions, 3, s4);
    RunStep(s2, actions, 2, s4);
    RunStep(s1, actions, 1, s4);
    RunStep(s, actions, 0, s4);
    assert actions[0..] == actions;
  }

  lemma {:induction false} RunsCompose(s: State, a: seq<Action>, b: seq<Action>)
    requires IsRun(s, a) && IsRun(Run(s, a), b)
    ensures IsRun(s, a + b) && Run(s, a + b) == Run(Run(s, a), b)
    decreases |a|
  {
    if a == [] {
      assert a + b == b;
    } else {
      RunsCompose(Next(s, a[0]), a[1..], b);
      assert (a + b)[0] == a[0] && (a + b)[1..] == a[1..] + b;
    }
  }

  // ---- when a call can block, exactly --------------------------------------------------------------------

  predicate NoNewCalls(actions: seq<Action>) { forall i | 0 <= i < |actions| :: !actions[i].SetInterval? }

  ghost predicate SomeBlocked(s: State) { exists r :: Blocked(s, r) }

  /** With no further SetInterval call, some schedule of the calls under way and the loop blocks one. */
  ghost predicate CanBlock(s: State) {
    exists actions :: NoNewCalls(actions) && IsRun(s, actions) && SomeBlocked(Run(s, actions))
  }

  /** Two calls that have only stored their intervals, before an empty slot: the first to send returns. */
  predicate TwoFresh(s: State) {
    |s.setters| == 2 && s.slot.None? && forall r | r in s.setters :: s.setters[r].Trying?
  }

  predicate AtMostOne(s: State) { forall r, q | r in s.setters && q in s.setters :: r == q }

  /** Nobody is blocked, and at most one call is under way or two fresh ones are. */
  ghost predicate Harmless(s: State) { !SomeBlocked(s) && (AtMostOne(s) || TwoFresh(s)) }

  lemma PairHasTwo(s: State, r: nat, q: nat, t: nat)
    requires |s.setters| == 2 && r in s.setters && q in s.setters && t in s.setters && r != q
    ensures t == r || t == q
  {
    var rest := s.setters.Keys - {r, q};
    assert |rest| == 0;
    assert t !in rest;
  }

  lemma HarmlessStep(s: State, a: Action)
    requires Harmless(s) && Enabled(s, a) && !a.SetInterval?
    ensures Harmless(Next(s, a))
  {
    var n := Next(s, a);
    if TwoFresh(s) && a.TrySend? {
      forall r, q | r in n.setters && q in n.setters ensures r == q {
        if r != q { PairHasTwo(s, r, q, a.r); }
      }
    } else if AtMostOne(s) {
      forall r ensures !Blocked(n, r) { assert !Blocked(s, r); }
    }
    assert AtMostOne(n) || TwoFresh(n);
    forall r ensures !Blocked(n, r) { assert !Blocked(s, r); }
  }

  lemma {:induction false} HarmlessRun(s: State, actions: seq<Action>)
    requires Harmless(s) && NoNewCalls(actions) && IsRun(s, actions)
    ensures !SomeBlocked(Run(s, actions))
    decreases |actions|
  {
    if actions != [] {
      HarmlessStep(s, actions[0]);
      assert NoNewCalls(actions[1..]);
      HarmlessRun(Next(s, actions[0]), actions[1..]);
    }
  }

  lemma CanBlockBefore(s: State, a: Action)
    requires Enabled(s, a) && !a.SetInterval? && CanBlock(Next(s, a))
    ensures CanBlock(s)
  {
    var actions :| NoNewCalls(actions) && IsRun(Next(s, a), actions) && SomeBlocked(Run(Next(s, a), actions));
    assert ([a] + actions)[0] == a && ([a] + actions)[1..] == actions;
    assert NoNewCalls([a] + actions);
  }

  lemma BlockedCanBlock(s: State, r: nat)
    requires Blocked(s, r)
    ensures CanBlock(s)
  {
    assert NoNewCalls([]) && IsRun(s, []) && Run(s, []) == s;
  }

  /** One call past its drain, another one ready to fill the slot. */
  lemma SendingMeetsAny(s: State, r: nat, q: nat)
    requires r in s.setters && q in s.setters && r != q && s.setters[r].Sending?
    ensures CanBlock(s)
  {
    if s.slot.Some? {
      BlockedCanBlock(s, r);
    } else {
      match s.setters[q]
      case Trying(_) =>
        BlockedCanBlock(Next(s, TrySend(q)), r);
        CanBlockBefore(s, TrySend(q));
      case Sending(_) =>
        BlockedCanBlock(Next(s, Send(q)), r);
        CanBlockBefore(s, Send(q));
      case Draining(_) =>
        var t := Next(s, Drain(q));
        BlockedCanBlock(Next(t, Send(q)), r);
        CanBlockBefore(t, Send(q));
        CanBlockBefore(s, Drain(q));
    }
  }

  lemma DrainingMeetsAny(s: State, r: nat, q: nat)
    requires r in s.setters && q in s.setters && r != q && s.setters[r].Draining?
    ensures CanBlock(s)
  {
    SendingMeetsAny(Next(s, Drain(r)), r, q);
    CanBlockBefore(s, Drain(r));
  }

  lemma FullSlotMeetsAny(s: State, r: nat, q: nat)
    requires r in s.setters && q in s.setters && r != q && s.slot.Some?
    ensures CanBlock(s)
  {
    match s.setters[r]
    case Trying(_) =>
      DrainingMeetsAny(Next(s, TrySend(r)), r, q);
      CanBlockBefore(s, TrySend(r));
    case Draining(_) => DrainingMeetsAny(s, r, q);
    case Sending(_) => SendingMeetsAny(s, r, q);
  }

  lemma ThirdCall(s: State, r: nat, q: nat) returns (t: nat)
    requires r in s.setters && q in s.setters && r != q && |s.setters| != 2
    ensures t in s.setters && t != r && t != q
  {
    var rest := s.setters.Keys - {r, q};
    assert s.setters.Keys == rest + {r, q};
    assert |s.setters.Keys| == |rest| + 2;
    t :| t in rest;
  }

  /** With no further SetInterval call, a call can block exactly when one is blocked already, or two or
      more are under way and they are not just two fresh ones. */
  lemma CanBlockIff(s: State)
    ensures CanBlock(s) <==> SomeBlocked(s) || (|s.setters| >= 2 && !TwoFresh(s))
  {
    if SomeBlocked(s) {
      var r :| Blocked(s, r);
      BlockedCanBlock(s, r);
    } else if |s.setters| >= 2 && !TwoFresh(s) {
      var r := TwoCalls(s);
      var q :| q in s.setters && q != r;
      CrowdCanBlock(s, r, q);
    } else {
      FewAreHarmless(s);
      forall actions | NoNewCalls(actions) && IsRun(s, actions) ensures !SomeBlocked(Run(s, actions)) {
        HarmlessRun(s, actions);
      }
    }
  }

  lemma TwoCalls(s: State) returns (r: nat)
    requires |s.setters| >= 2
    ensures r in s.setters && exists q :: q in s.setters && q != r
  {
    r :| r in s.setters.Keys;
    var rest := s.setters.Keys - {r};
    assert |rest| == |s.setters.Keys| - 1;
    var q :| q in rest;
  }

  lemma FewAreHarmless(s: State)
    requires !SomeBlocked(s) && (|s.setters| < 2 || TwoFresh(s))
    ensures Harmless(s)
  {
    forall r, q | r in s.setters && q in s.setters && |s.setters| < 2 ensures r == q {
      assert |s.setters.Keys - {r}| == |s.setters.Keys| - 1;
      assert r != q ==> q in s.setters.Keys - {r};
    }
  }

  lemma CrowdCanBlock(s: State, r: nat, q: nat)
    requires r in s.setters && q in s.setters && r != q && !TwoFresh(s)
    ensures CanBlock(s)
  {
    if s.slot.Some? {
      FullSlotMeetsAny(s, r, q);
    } else if t: nat :| t in s.setters && !s.setters[t].Trying? {
      var other := if t == r then q else r;
      if s.setters[t].Draining? { DrainingMeetsAny(s, t, other); } else { SendingMeetsAny(s, t, other); }
    } else {
      var t := ThirdCall(s, r, q);
      FullSlotMeetsAny(Next(s, TrySend(t)), r, q);
      CanBlockBefore(s, TrySend(t));
    }
  }

  /** The steps of one SetInterval call before an empty and before a full slot. */
  function CallSteps(r: nat, seconds: int, full: bool): seq<Action> {
    if full then [SetInterval(r, seconds), TrySend(r), Drain(r), Send(r)] else [SetInterval(r, seconds), TrySend(r)]
  }

  /** A call on its own with a new positive interval stores it, puts it in the slot instead of whatever was there,
      and returns; the loop is where it was. Any other call changes nothing. */
  lemma CallAlone(s: State, r: nat, seconds: int)
    requires r !in s.setters
    ensures seconds <= 0 || seconds == s.interval ==>
      Enabled(s, SetInterval(r, seconds)) && Next(s, SetInterval(r, seconds)) == s
    ensures seconds > 0 && seconds != s.interval ==>
              var actions := CallSteps(r, seconds, s.slot.Some?);
              && IsRun(s, actions)
              && Run(s, actions) == State(seconds, Some(seconds), s.loop, s.setters, Some(seconds))
  {
    if seconds > 0 && seconds != s.interval {
      var actions := CallSteps(r, seconds, s.slot.Some?);
      var end := State(seconds, Some(seconds), s.loop, s.setters, Some(seconds));
      var s1 := Next(s, actions[0]);
      var s2 := Next(s1, actions[1]);
      if s.slot.Some? {
        var s3 := Next(s2, actions[2]);
        assert Next(s3, actions[3]).setters == s.setters;
        RunStep(s3, actions, 3, end);
        RunStep(s2, actions, 2, end);
      } else {
        assert s2.setters == s.setters;
      }
      RunStep(s1, actions, 1, end);
      RunStep(s, actions, 0, end);
      assert actions[0..] == actions;
    }
  }

  /** The loop on its own: it starts with the stored interval and, whenever the slot is full, takes the interval
      out of it and makes it the ticker's. */
  lemma LoopAlone(s: State)
    ensures Enabled(s, Start) <==> s.loop == NotStarted
    ensures s.loop == NotStarted ==> Next(s, Start) == s.(loop := FirstRun)
    ensures s.loop == FirstRun ==>
              && Enabled(s, ReadInterval) && Enabled(Next(s, ReadInterval), NewTicker)
              && Next(Next(s, ReadInterval), NewTicker) == s.(loop := Ticking(s.interval))
    ensures s.loop.Ticking? && s.slot.Some? ==>
              && Enabled(s, Receive) && Enabled(Next(s, Receive), NewTicker)
              && Next(Next(s, Receive), NewTicker) == s.(loop := Ticking(s.slot.value), slot := None)
    ensures s.loop.Ticking? ==> Enabled(s, Tick) && Next(s, Tick) == s
    ensures s.loop.Ticking? ==> Enabled(s, Stop) && Next(s, Stop) == s.(loop := Stopped)
    ensures Initial(0).interval == Initial(-1).interval == 30 && Initial(1).interval == 1
  {
  }

  // ---- when the newest interval can be lost, exactly -------------------------------------------------------

  predicate Lost(s: State) { Idle(s) && !Settled(s) && !s.loop.Stopped? }

  /** With no further SetInterval call, some schedule lets every call return and leaves a live loop without
      the newest interval in slot, hand or force. */
  ghost predicate CanLose(s: State) {
    exists actions :: NoNewCalls(actions) && IsRun(s, actions) && Lost(Run(s, actions))
  }

  /** The calls under way carry the newest interval, and with none under way it is honoured. */
  predicate Agreed(s: State) {
    (forall r | r in s.setters :: s.setters[r].d == s.interval) && (Idle(s) ==> Settled(s))
  }

  lemma AgreedStep(s: State, a: Action)
    requires Agreed(s) && Enabled(s, a) && !a.SetInterval?
    ensures Agreed(Next(s, a))
  {
    var n := Next(s, a);
    assert a.Drain? ==> a.r in n.setters;
    if a.TrySend? && s.slot.Some? { assert a.r in n.setters; }
  }

  lemma {:induction false} AgreedRun(s: State, actions: seq<Action>)
    requires Agreed(s) && NoNewCalls(actions) && IsRun(s, actions)
    ensures Agreed(Run(s, actions))
    decreases |actions|
  {
    if actions != [] {
      AgreedStep(s, actions[0]);
      assert NoNewCalls(actions[1..]);
      AgreedRun(Next(s, actions[0]), actions[1..]);
    }
  }

  lemma CanLoseBefore(s: State, a: Action)
    requires Enabled(s, a) && !a.SetInterval? && CanLose(Next(s, a))
    ensures CanLose(s)
  {
    var actions :| NoNewCalls(actions) && IsRun(Next(s, a), actions) && Lost(Run(Next(s, a), actions));
    assert ([a] + actions)[0] == a && ([a] + actions)[1..] == actions;
    assert NoNewCalls([a] + actions);
  }

  /** How far a live loop is from emptying the slot. */
  function ToReceive(s: State): nat {
    match s.loop
    case NotStarted => 3
    case FirstRun => 2
    case Holding(_) => 1
    case _ => 0
  }

  /** t is reached from s without a new call. */
  ghost predicate Leads(s: State, t: State) {
    t.interval == s.interval && !t.loop.Stopped? && (CanLose(t) ==> CanLose(s))
  }

  /** A live loop gets round to emptying the slot. */
  lemma {:induction false} LoopEmptiesSlot(s: State) returns (t: State)
    requires !s.loop.Stopped?
    ensures Leads(s, t) && t.slot.None? && t.setters == s.setters
    decreases ToReceive(s)
  {
    if s.slot.None? { return s; }
    var a := match s.loop
      case NotStarted => Start
      case FirstRun => ReadInterval
      case Holding(_) => NewTicker
      case _ => Receive;
    if CanLose(Next(s, a)) { CanLoseBefore(s, a); }
    if a.Receive? { t := Next(s, a); } else { t := LoopEmptiesSlot(Next(s, a)); }
  }

  /** Any call under way can return next, its interval in the slot. */
  lemma CallReturns(s: State, r: nat) returns (t: State)
    requires !s.loop.Stopped? && r in s.setters
    ensures Leads(s, t) && t.slot == Some(s.setters[r].d) && t.setters == s.setters - {r}
  {
    var e := LoopEmptiesSlot(s);
    match e.setters[r]
    case Trying(_) =>
      t := Next(e, TrySend(r));
      if CanLose(t) { CanLoseBefore(e, TrySend(r)); }
    case Sending(_) =>
      t := Next(e, Send(r));
      if CanLose(t) { CanLoseBefore(e, Send(r)); }
    case Draining(_) =>
      var m := Next(e, Drain(r));
      t := Next(m, Send(r));
      if CanLose(t) {
        CanLoseBefore(m, Send(r));
        CanLoseBefore(e, Drain(r));
      }
  }

  /** A call that carries another interval can be the last to send. */
  lemma {:induction false} OtherSendsLast(s: State, r: nat)
    requires !s.loop.Stopped? && r in s.setters && s.setters[r].d != s.interval
    ensures CanLose(s)
    decreases |s.setters|
  {
    if q :| q in s.setters && q != r {
      var t := CallReturns(s, q);
      assert t.setters.Keys == s.setters.Keys - {q};
      OtherSendsLast(t, r);
    } else {
      var t := CallReturns(s, r);
      assert t.setters == map[];
      assert NoNewCalls([]) && IsRun(t, []) && Run(t, []) == t && Lost(t);
    }
  }

  lemma {:induction false} StoppedStays(s: State, actions: seq<Action>)
    requires s.loop.Stopped? && IsRun(s, actions)
    ensures Run(s, actions).loop.Stopped?
    decreases |actions|
  {
    if actions != [] { StoppedStays(Next(s, actions[0]), actions[1..]); }
  }

  /** With no further SetInterval call, a live loop can lose the newest interval exactly when nobody is calling
      and it is lost already, or a call under way carries another one. */
  lemma CanLoseIff(s: State)
    ensures CanLose(s) <==>
              !s.loop.Stopped? && ((Idle(s) && !Settled(s)) || exists r :: r in s.setters && s.setters[r].d != s.interval)
  {
    if s.loop.Stopped? {
      forall actions | IsRun(s, actions) ensures !Lost(Run(s, actions)) { StoppedStays(s, actions); }
    } else if r :| r in s.setters && s.setters[r].d != s.interval {
      OtherSendsLast(s, r);
    } else if Lost(s) {
      assert NoNewCalls([]) && IsRun(s, []) && Run(s, []) == s;
    } else {
      forall actions | NoNewCalls(actions) && IsRun(s, actions) ensures !Lost(Run(s, actions)) {
        AgreedRun(s, actions);
      }
    }
  }
}
