/** The daily roll-up of probes: one row per client and day, updated in place by every probe. */
module DailyRollup {
  import opened Options
  import opened Sorting

  datatype Day = Day(year: int, month: int, day: int)

  datatype Probe = Probe(clientID: string, day: Day, status: string, ms: int)

  datatype Daily = Daily(total: int, success: int, avgMs: int, maxMs: int, worst: string)

  type Key = (string, Day)

  type Rows = map<Key, Daily>

  const UP := "up"
  const DEGRADED := "degraded"
  const DOWN := "down"
  const MAINTENANCE := "maintenance"
  const NO_DATA := "no_data"

  /** A status outside the table ranks like "up". */
  function Rank(status: string): int {
    if status == UP then 0
    else if status == MAINTENANCE then 1
    else if status == DEGRADED then 2
    else if status == DOWN then 3
    else if status == NO_DATA then -1
    else 0
  }

  predicate WorseStatus(a: string, b: string) { Rank(a) > Rank(b) }

  predicate Succeeds(status: string) { status == UP || status == DEGRADED }

  /** Integer division towards zero. */
  function TruncDiv(a: int, n: int): int
    requires n > 0
  {
    if a >= 0 then a / n else -(-a / n)
  }

  /** The row a day's probes leave behind, oldest probe first. */
  function Rolled(probes: seq<Probe>): Option<Daily> {
    if probes == [] then None
    else
      var p := probes[|probes| - 1];
      Some(Roll(Rolled(probes[..|probes| - 1]), p.status, p.ms))
  }

  function Roll(row: Option<Daily>, status: string, ms: int): Daily {
    var success := if Succeeds(status) then 1 else 0;
    match row
    case None => Daily(1, success, ms, ms, status)
    case Some(d) =>
      var total := d.total + 1;
      Daily(total, d.success + success,
            if total > 0 then TruncDiv(d.avgMs * (total - 1) + ms, total) else d.avgMs,
            if ms > d.maxMs then ms else d.maxMs,
            if WorseStatus(status, d.worst) then status else d.worst)
  }

  function Lookup(rows: Rows, key: Key): Option<Daily> {
    if key in rows then Some(rows[key]) else None
  }

  class MonitorRepository {
    var rows: Rows

    constructor ()
      ensures rows == map[]
    {
      rows := map[];
    }

    method UpsertDaily(clientID: string, day: Day, status: string, responseMs: int)
      modifies this
      ensures rows == old(rows)[(clientID, day) := Roll(Lookup(old(rows), (clientID, day)), status, responseMs)]
    {
      var key := (clientID, day);
      var success := 0;
      if status == UP || status == DEGRADED { success := 1; }
      if key !in rows {
        rows := rows[key := Daily(1, success, responseMs, responseMs, status)];
        return;
      }
      var daily := rows[key];
      daily := daily.(total := daily.total + 1);
      daily := daily.(success := daily.success + success);
      if daily.total > 0 {
        daily := daily.(avgMs := TruncDiv(daily.avgMs * (daily.total - 1) + responseMs, daily.total));
      }
      if responseMs > daily.maxMs { daily := daily.(maxMs := responseMs); }
      if WorseStatus(status, daily.worst) { daily := daily.(worst := status); }
      rows := rows[key := daily];
    }

    /** Any list of probes, of any clients and days, leaves each row the roll-up of its own probes. */
    method UpsertAll(probes: seq<Probe>)
      requires rows == map[]
      modifies this
      ensures AllRolled(rows, probes)
    {
      for n := 0 to |probes|
        invariant AllRolled(rows, probes[..n])
      {
        ghost var before := rows;
        UpsertDaily(probes[n].clientID, probes[n].day, probes[n].status, probes[n].ms);
        assert probes[..n + 1] == probes[..n] + [probes[n]];
        AllRolledNext(before, rows, probes[..n], probes[n]);
      }
      assert probes[..|probes|] == probes;
    }
  }

  ghost predicate AllRolled(rows: Rows, probes: seq<Probe>) {
    forall key :: Lookup(rows, key) == Rolled(Of(probes, key))
  }

  lemma AllRolledNext(before: Rows, after: Rows, probes: seq<Probe>, p: Probe)
    requires AllRolled(before, probes)
    requires after == before[(p.clientID, p.day) := Roll(Lookup(before, (p.clientID, p.day)), p.status, p.ms)]
    ensures AllRolled(after, probes + [p])
  {
    forall key ensures Lookup(after, key) == Rolled(Of(probes + [p], key)) {
      RolledNext(probes, p, key);
    }
  }

  /** The probes of one client and day, in order. */
  function Of(probes: seq<Probe>, key: Key): seq<Probe> {
    if probes == [] then []
    else
      var rest := Of(probes[..|probes| - 1], key);
      var p := probes[|probes| - 1];
      if (p.clientID, p.day) == key then rest + [p] else rest
  }

  lemma RolledNext(probes: seq<Probe>, p: Probe, key: Key)
    ensures Rolled(Of(probes + [p], key)) ==
              if (p.clientID, p.day) == key then Some(Roll(Rolled(Of(probes, key)), p.status, p.ms)) else Rolled(Of(probes, key))
  {
    assert (probes + [p])[..|probes|] == probes;
    var rest := Of(probes, key);
    assert (rest + [p])[..|rest|] == rest;
  }

  // ---- what the row says about the probes ----------------------------------------------------------

  function Sum(probes: seq<Probe>): int {
    if probes == [] then 0 else Sum(probes[..|probes| - 1]) + probes[|probes| - 1].ms
  }

  function Successes(probes: seq<Probe>): nat {
    if probes == [] then 0
    else Successes(probes[..|probes| - 1]) + if Succeeds(probes[|probes| - 1].status) then 1 else 0
  }

  /** Total and success count are exact, the maximum is attained and bounds every probe. */
  lemma {:induction false} CountsAndMaximum(probes: seq<Probe>)
    requires probes != []
    ensures Rolled(probes).Some?
    ensures var d := Rolled(probes).value;
      && d.total == |probes| && d.success == Successes(probes)
      && (forall i | 0 <= i < |probes| :: probes[i].ms <= d.maxMs)
      && (exists i | 0 <= i < |probes| :: probes[i].ms == d.maxMs)
  {
    var n := |probes| - 1;
    if n == 0 {
      assert probes[..0] == [];
      assert probes[0].ms == Rolled(probes).value.maxMs;
    } else {
      var front := probes[..n];
      CountsAndMaximum(front);
      var i :| 0 <= i < n && front[i].ms == Rolled(front).value.maxMs;
      assert probes[i].ms == Rolled(front).value.maxMs;
      assert forall j | 0 <= j < n :: probes[j] == front[j];
    }
  }

  /** Probe i has the status worst, none ranks higher, and the earlier ones rank lower. */
  predicate FirstWorst(probes: seq<Probe>, i: nat, worst: string) {
    && i < |probes| && probes[i].status == worst
    && (forall j | 0 <= j < |probes| :: Rank(probes[j].status) <= Rank(worst))
    && (forall j | 0 <= j < i :: Rank(probes[j].status) < Rank(worst))
  }

  lemma FirstWorstStep(probes: seq<Probe>, p: Probe, i: nat, worst: string)
    requires FirstWorst(probes, i, worst)
    ensures if WorseStatus(p.status, worst) then FirstWorst(probes + [p], |probes|, p.status)
            else FirstWorst(probes + [p], i, worst)
  {
  }

  /** The worst status is that of the first probe of the highest rank. */
  lemma {:induction false} WorstIsFirstWorst(probes: seq<Probe>)
    requires probes != []
    ensures Rolled(probes).Some? && exists i :: FirstWorst(probes, i, Rolled(probes).value.worst)
  {
    var n := |probes| - 1;
    if n == 0 {
      assert probes[..0] == [];
      assert FirstWorst(probes, 0, Rolled(probes).value.worst);
    } else {
      WorstIsFirstWorst(probes[..n]);
      var i :| FirstWorst(probes[..n], i, Rolled(probes[..n]).value.worst);
      FirstWorstStep(probes[..n], probes[n], i, Rolled(probes[..n]).value.worst);
      assert probes == probes[..n] + [probes[n]];
    }
  }

  predicate NonNegative(probes: seq<Probe>) { forall i | 0 <= i < |probes| :: probes[i].ms >= 0 }

  lemma {:induction false} Scaled(n: int, a: int, b: int)
    requires n > 0 && a > b
    ensures n * a >= n * b + n
    decreases a - b
  {
    assert n * a == n * (a - 1) + n;
    if a > b + 1 { Scaled(n, a - 1, b); }
  }

  lemma Remainder(total: int, n: int)
    requires n > 0
    ensures n * (total / n) <= total < n * (total / n) + n
  {
  }

  lemma QuotientAtMost(n: int, total: int, a: int, high: int)
    requires n > 0 && n * a <= total <= n * high
    ensures a <= high
  {
    if a > high { Scaled(n, a, high); }
  }

  lemma QuotientAtLeast(n: int, total: int, a: int, low: int)
    requires n > 0 && n * low <= total < n * a + n
    ensures low <= a
  {
    if low > a { Scaled(n, low, a); }
  }

  lemma TimesMonotone(n: int, a: int, b: int)
    requires n >= 0 && a <= b
    ensures a * n <= b * n
  {
    if a < b && n > 0 { Scaled(n, b, a); }
  }

  /** One truncated step loses less than one unit per probe and stays between its inputs. */
  lemma MeanStep(avg: int, n: int, ms: int, a: int)
    requires n >= 1 && avg >= 0 && ms >= 0 && a == TruncDiv(avg * n + ms, n + 1)
    ensures 0 <= avg * n + ms - (n + 1) * a <= n
    ensures (avg <= ms ==> avg <= a <= ms) && (ms <= avg ==> ms <= a <= avg)
  {
    TimesMonotone(n, 0, avg);
    Remainder(avg * n + ms, n + 1);
    Between(avg, ms, n, a, avg * n, ms * n, avg * n + ms);
  }

  lemma Between(avg: int, ms: int, n: int, a: int, avgN: int, msN: int, total: int)
    requires n >= 1 && avgN == avg * n && msN == ms * n && total == avgN + ms
    requires (n + 1) * a <= total < (n + 1) * a + (n + 1)
    ensures (avg <= ms ==> avg <= a <= ms) && (ms <= avg ==> ms <= a <= avg)
  {
    OneMore(n, avg);
    OneMore(n, ms);
    if avg <= ms {
      TimesMonotone(n, avg, ms);
      QuotientAtLeast(n + 1, total, a, avg);
      QuotientAtMost(n + 1, total, a, ms);
    }
    if ms <= avg {
      TimesMonotone(n, ms, avg);
      QuotientAtLeast(n + 1, total, a, ms);
      QuotientAtMost(n + 1, total, a, avg);
    }
  }

  lemma OneMore(n: int, a: int)
    ensures (n + 1) * a == a * n + a
  {
  }

  /** The truncated running mean never exceeds the true mean, falls short by less than half a unit per
      probe, and lies between the smallest and the largest time. */
  lemma {:induction false} MeanDrift(probes: seq<Probe>)
    requires probes != [] && NonNegative(probes)
    ensures Rolled(probes).Some?
    ensures var n := |probes|; var a := Rolled(probes).value.avgMs;
      && 0 <= Sum(probes) - n * a && 2 * (Sum(probes) - n * a) <= n * (n - 1)
      && (exists i | 0 <= i < n :: probes[i].ms <= a) && (exists i | 0 <= i < n :: a <= probes[i].ms)
  {
    var n := |probes| - 1;
    var x := probes[n].ms;
    if n == 0 {
      assert probes[..0] == [];
      assert probes[0].ms == Rolled(probes).value.avgMs;
    } else {
      var front := probes[..n];
      MeanDrift(front);
      CountsAndMaximum(front);
      var avg := Rolled(front).value.avgMs;
      var lo :| 0 <= lo < n && front[lo].ms <= avg;
      var hi :| 0 <= hi < n && avg <= front[hi].ms;
      assert probes[lo] == front[lo] && probes[hi] == front[hi];
      var a := Rolled(probes).value.avgMs;
      MeanStep(avg, n, x, a);
      DriftAdds(Sum(front), avg, n, x, a);
      assert probes[if avg <= x then lo else n].ms <= a <= probes[if avg <= x then n else hi].ms;
    }
  }

  lemma DriftAdds(sum: int, avg: int, n: int, x: int, a: int)
    requires n >= 1 && 0 <= sum - n * avg && 2 * (sum - n * avg) <= n * (n - 1)
    requires 0 <= avg * n + x - (n + 1) * a <= n
    ensures 0 <= sum + x - (n + 1) * a && 2 * (sum + x - (n + 1) * a) <= (n + 1) * n
  {
    assert sum + x - (n + 1) * a == (sum - n * avg) + (avg * n + x - (n + 1) * a);
    assert n * (n - 1) + 2 * n == (n + 1) * n;
  }

  /** Probes taking 0, 1, ..., n-1 milliseconds. */
  function Ramp(n: nat, key: Key): seq<Probe> {
    if n == 0 then [] else Ramp(n - 1, key) + [Probe(key.0, key.1, UP, n - 1)]
  }

  lemma {:induction false} RampIs(n: nat, key: Key)
    ensures var probes := Ramp(n, key);
      |probes| == n && NonNegative(probes) && (n > 0 ==> probes[..n - 1] == Ramp(n - 1, key) && probes[n - 1].ms == n - 1)
  {
    if n > 0 { RampIs(n - 1, key); }
  }

  lemma {:induction false} RampSum(n: nat, key: Key)
    ensures 2 * Sum(Ramp(n, key)) == n * (n - 1)
  {
    RampIs(n, key);
    if n > 0 {
      RampSum(n - 1, key);
      OneMore(n - 1, n - 2);
      OneMore(n - 1, n - 1);
    }
  }

  lemma NothingAdded(n: int)
    requires n > 0
    ensures TruncDiv(0 * (n - 1) + (n - 1), n) == 0
  {
  }

  lemma {:induction false} RampMean(n: nat, key: Key)
    requires n > 0
    ensures Rolled(Ramp(n, key)).Some?
    ensures Rolled(Ramp(n, key)).value.avgMs == 0 && Rolled(Ramp(n, key)).value.total == n
  {
    RampIs(n, key);
    if n > 1 {
      RampMean(n - 1, key);
      NothingAdded(n);
    } else {
      RampIs(0, key);
    }
  }

  /** The bound is reached for every n: times 0, 1, ..., n-1 are reported as an average of 0. */
  lemma {:induction false} DriftIsReached(n: nat, key: Key)
    requires n > 0
    ensures var probes := Ramp(n, key);
      && |probes| == n && NonNegative(probes) && Rolled(probes).Some?
      && Rolled(probes).value.avgMs == 0 && Rolled(probes).value.total == n && 2 * Sum(probes) == n * (n - 1)
  {
    RampIs(n, key);
    RampSum(n, key);
    RampMean(n, key);
  }

  // ---- statuses by name ------------------------------------------------------------------------------------

  predicate Occurs(probes: seq<Probe>, status: string) { exists i | 0 <= i < |probes| :: probes[i].status == status }

  predicate Ranked(status: string) {
    status == "up" || status == "maintenance" || status == "degraded" || status == "down" || status == "no_data"
  }

  /** One outage makes the day "down"; short of that one degraded probe makes it "degraded", and short of that
      one probe under maintenance makes it that. Otherwise the day has the status of the first probe there was
      any data for, or "no_data" if there was none. */
  lemma WorstSays(probes: seq<Probe>)
    requires probes != []
    ensures Rolled(probes).Some?
    ensures var worst := Rolled(probes).value.worst;
      && (worst == "down" <==> Occurs(probes, "down"))
      && (worst == "degraded" <==> Occurs(probes, "degraded") && !Occurs(probes, "down"))
      && (worst == "maintenance" <==> Occurs(probes, "maintenance") && !Occurs(probes, "degraded") && !Occurs(probes, "down"))
      && (worst == "no_data" <==> forall i | 0 <= i < |probes| :: probes[i].status == "no_data")
      && (worst == "up" || !Ranked(worst) ==> exists i ::
            && 0 <= i < |probes| && probes[i].status == worst && forall j | 0 <= j < i :: probes[j].status == "no_data")
  {
    WorstIsFirstWorst(probes);
    var worst := Rolled(probes).value.worst;
    var i :| FirstWorst(probes, i, worst);
    forall j | 0 <= j < |probes| ensures Rank(probes[j].status) <= Rank(worst) { }
    RanksSay(worst);
    forall j | 0 <= j < |probes| ensures RankSays(probes[j].status) { RanksSay(probes[j].status); }
  }

  predicate RankSays(status: string) {
    && (status == "down" <==> Rank(status) >= 3) && (status == "degraded" <==> 2 <= Rank(status) < 3)
    && (status == "maintenance" <==> 1 <= Rank(status) < 2) && (status == "no_data" <==> Rank(status) < 0)
  }

  lemma RanksSay(status: string)
    ensures RankSays(status) && Rank("down") == 3 && Rank("degraded") == 2 && Rank("maintenance") == 1
  {
  }

  /** The successes are the probes that came out "up" or "degraded". */
  lemma {:induction false} SuccessesAre(probes: seq<Probe>)
    ensures Successes(probes) == |IndicesWith(probes, (p: Probe) => p.status == "up" || p.status == "degraded")|
  {
    var good := (p: Probe) => p.status == "up" || p.status == "degraded";
    if probes == [] {
      assert IndicesWith(probes, good) == {};
    } else {
      SuccessesAre(probes[..|probes| - 1]);
      IndicesSnoc(probes, good);
    }
  }

  /** a is total / n, cut towards zero. */
  predicate IsQuotient(total: int, n: nat, a: int) {
    if total >= 0 then n * a <= total < n * a + n else n * a - n < total <= n * a
  }

  lemma TruncDivIs(total: int, n: nat)
    requires n > 0
    ensures IsQuotient(total, n, TruncDiv(total, n))
  {
    if total >= 0 {
      Remainder(total, n);
    } else {
      Remainder(-total, n);
      Negated(n, -total / n);
    }
  }

  lemma Negated(n: int, a: int)
    ensures n * -a == -(n * a)
  {
  }

  /** The first probe is its own average; each further one moves the average to the quotient, cut towards
      zero, of the old one weighted with the n earlier probes. */
  lemma MeanMoves(d: Daily, n: nat, status: string, ms: int)
    requires d.total == n > 0
    ensures Roll(None, status, ms).avgMs == ms
    ensures IsQuotient(d.avgMs * n + ms, n + 1, Roll(Some(d), status, ms).avgMs)
  {
    var total := d.total + 1;
    assert total - 1 == n;
    TruncDivIs(d.avgMs * n + ms, n + 1);
  }
}
