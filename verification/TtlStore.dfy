/** The in-memory key-value store: entries with deadlines, and a collector that sweeps expired ones. */
module TtlStore {
  import opened Options

  /** What a key holds: a number written by Incr, or any other bytes. */
  datatype Value = Count(n: int) | Text(s: string)

  datatype Entry = Entry(value: Value, expiresAt: Option<int>)

  type Data = map<string, Entry>

  predicate Expired(e: Entry, now: int) { e.expiresAt.Some? && now > e.expiresAt.value }

  datatype Op = Set(key: string, value: Value, ttl: int)
              | Get(key: string)
              | Del(keys: seq<string>)
              | Incr(key: string, ttl: int)
              | Sweep

  datatype Result = Done | Found(value: Value) | NotFound | Number(n: int)

  function Deadline(now: int, ttl: int): Option<int> { if ttl > 0 then Some(now + ttl) else None }

  function Swept(d: Data, now: int): Data { map k | k in d && !Expired(d[k], now) :: d[k] }

  function Without(d: Data, keys: seq<string>): Data { map k | k in d && k !in keys :: d[k] }

  /** The stored number, or 0 for a missing key or bytes that are no number; the deadline is not looked at. */
  function CountOf(d: Data, key: string): int {
    if key in d && d[key].value.Count? then d[key].value.n else 0
  }

  function After(d: Data, now: int, op: Op): Data {
    match op
    case Set(key, value, ttl) => d[key := Entry(value, Deadline(now, ttl))]
    case Get(_) => d
    case Del(keys) => Without(d, keys)
    case Incr(key, ttl) => d[key := Entry(Count(CountOf(d, key) + 1), Some(now + ttl))]
    case Sweep => Swept(d, now)
  }

  function Answer(d: Data, now: int, op: Op): Result {
    match op
    case Set(_, _, _) => Done
    case Get(key) => if key in d && !Expired(d[key], now) then Found(d[key].value) else NotFound
    case Del(_) => Done
    case Incr(key, _) => Number(CountOf(d, key) + 1)
    case Sweep => Done
  }

  class MemoryStore {
    var data: Data

    constructor ()
      ensures data == map[]
    {
      data := map[];
    }

    method Put(key: string, value: Value, ttl: int, now: int)
      modifies this
      ensures data == After(old(data), now, Set(key, value, ttl))
    {
      var exp: Option<int> := None;
      if ttl > 0 { exp := Some(now + ttl); }
      data := data[key := Entry(value, exp)];
    }

    method Lookup(key: string, now: int) returns (r: Option<Value>)
      ensures (if r.Some? then Found(r.value) else NotFound) == Answer(data, now, Get(key))
    {
      if key !in data { return None; }
      var v := data[key];
      if v.expiresAt.Some? && now > v.expiresAt.value { return None; }
      return Some(v.value);
    }

    method Delete(keys: seq<string>, now: int)
      modifies this
      ensures data == After(old(data), now, Del(keys))
    {
      for i := 0 to |keys|
        invariant data == Without(old(data), keys[..i])
      {
        data := data - {keys[i]};
        assert keys[..i + 1] == keys[..i] + [keys[i]];
      }
      assert keys[..|keys|] == keys;
    }

    method Increment(key: string, ttl: int, now: int) returns (n: int)
      modifies this
      ensures data == After(old(data), now, Incr(key, ttl))
      ensures Number(n) == Answer(old(data), now, Incr(key, ttl))
    {
      n := 0;
      if key in data && data[key].value.Count? { n := data[key].value.n; }
      n := n + 1;
      data := data[key := Entry(Count(n), Some(now + ttl))];
    }

    /** One tick of the collector. */
    method CollectGarbage(now: int)
      modifies this
      ensures data == After(old(data), now, Sweep)
    {
      var rest := data.Keys;
      while rest != {}
        invariant rest <= old(data).Keys
        invariant data == map k | k in old(data) && (k in rest || !Expired(old(data)[k], now)) :: old(data)[k]
        decreases rest
      {
        var k :| k in rest;
        rest := rest - {k};
        if data[k].expiresAt.Some? && now > data[k].expiresAt.value { data := data - {k}; }
      }
    }
  }

  // ---- runs -----------------------------------------------------------------------------------------

  datatype Timed = Timed(now: int, op: Op)

  predicate Monotone(ops: seq<Timed>) { forall i, j | 0 <= i < j < |ops| :: ops[i].now <= ops[j].now }

  /** What the callers see: the answers, sweeps giving none. */
  function Answers(d: Data, ops: seq<Timed>): seq<Result>
    decreases |ops|
  {
    if ops == [] then []
    else
      var t := ops[0];
      (if t.op.Sweep? then [] else [Answer(d, t.now, t.op)]) + Answers(After(d, t.now, t.op), ops[1..])
  }

  function Final(d: Data, ops: seq<Timed>): Data
    decreases |ops|
  {
    if ops == [] then d else Final(After(d, ops[0].now, ops[0].op), ops[1..])
  }

  function WithoutSweeps(ops: seq<Timed>): seq<Timed>
    decreases |ops|
  {
    if ops == [] then []
    else (if ops[0].op.Sweep? then [] else [ops[0]]) + WithoutSweeps(ops[1..])
  }

  /** An Incr that would carry on counting from an entry that has expired but not been swept. */
  predicate StaleIncr(d: Data, t: Timed) {
    t.op.Incr? && t.op.key in d && Expired(d[t.op.key], t.now) && CountOf(d, t.op.key) != 0
  }

  predicate NoStaleIncr(d: Data, ops: seq<Timed>)
    decreases |ops|
  {
    ops != [] ==> !StaleIncr(d, ops[0]) && NoStaleIncr(After(d, ops[0].now, ops[0].op), ops[1..])
  }

  // ---- sweeps do not show ---------------------------------------------------------------------------------

  /** The swept copy: part of the unswept one, which has only expired entries besides. */
  predicate SweptCopy(swept: Data, full: Data, now: int) {
    && (forall k | k in swept :: k in full && swept[k] == full[k])
    && (forall k | k in full && k !in swept :: Expired(full[k], now))
  }

  lemma SameAnswer(swept: Data, full: Data, t: Timed)
    requires SweptCopy(swept, full, t.now) && !t.op.Sweep? && !StaleIncr(full, t)
    ensures Answer(swept, t.now, t.op) == Answer(full, t.now, t.op)
    ensures SweptCopy(After(swept, t.now, t.op), After(full, t.now, t.op), t.now)
  {
  }

  lemma {:induction false} SweepsDoNotShow(swept: Data, full: Data, ops: seq<Timed>, start: int)
    requires SweptCopy(swept, full, start) && Monotone(ops) && (ops != [] ==> start <= ops[0].now)
    requires NoStaleIncr(full, WithoutSweeps(ops))
    ensures Answers(swept, ops) == Answers(full, WithoutSweeps(ops))
    decreases |ops|
  {
    if ops != [] {
      var t, rest := ops[0], ops[1..];
      assert SweptCopy(swept, full, t.now);
      if t.op.Sweep? {
        assert WithoutSweeps(ops) == WithoutSweeps(rest);
        assert SweptCopy(Swept(swept, t.now), full, t.now);
        SweepsDoNotShow(Swept(swept, t.now), full, rest, t.now);
      } else {
        assert WithoutSweeps(ops)[0] == t && WithoutSweeps(ops)[1..] == WithoutSweeps(rest);
        SameAnswer(swept, full, t);
        SweepsDoNotShow(After(swept, t.now, t.op), After(full, t.now, t.op), rest, t.now);
      }
    }
  }

  // ---- and the one case in which they do -------------------------------------------------------------------

  lemma {:induction false} AnswersConcat(d: Data, a: seq<Timed>, b: seq<Timed>)
    ensures Answers(d, a + b) == Answers(d, a) + Answers(Final(d, a), b)
    decreases |a|
  {
    if a == [] {
      assert a + b == b;
    } else {
      assert (a + b)[1..] == a[1..] + b;
      AnswersConcat(After(d, a[0].now, a[0].op), a[1..], b);
    }
  }

  lemma {:induction false} WithoutSweepsConcat(a: seq<Timed>, b: seq<Timed>)
    ensures WithoutSweeps(a + b) == WithoutSweeps(a) + WithoutSweeps(b)
    decreases |a|
  {
    if a == [] {
      assert a + b == b;
    } else {
      assert (a + b)[1..] == a[1..] + b;
      WithoutSweepsConcat(a[1..], b);
    }
  }

  predicate SweepFree(ops: seq<Timed>) { forall t | t in ops :: !t.op.Sweep? }

  lemma {:induction false} SweepFreeIsItself(ops: seq<Timed>)
    requires SweepFree(ops)
    ensures WithoutSweeps(ops) == ops
    decreases |ops|
  {
    if ops != [] { SweepFreeIsItself(ops[1..]); }
  }

  lemma {:induction false} FindStale(d: Data, ops: seq<Timed>) returns (i: nat)
    requires !NoStaleIncr(d, ops)
    ensures i < |ops| && StaleIncr(Final(d, ops[..i]), ops[i])
    decreases |ops|
  {
    if StaleIncr(d, ops[0]) {
      i := 0;
    } else {
      var k := FindStale(After(d, ops[0].now, ops[0].op), ops[1..]);
      i := k + 1;
      assert ops[..i][1..] == ops[1..][..k];
    }
  }

  /** The run with one sweep inserted at step i. */
  function SweepAt(ops: seq<Timed>, i: nat): seq<Timed>
    requires i < |ops|
  {
    ops[..i] + [Timed(ops[i].now, Sweep)] + ops[i..]
  }

  lemma SweepAtStrips(ops: seq<Timed>, i: nat)
    requires SweepFree(ops) && i < |ops|
    ensures WithoutSweeps(SweepAt(ops, i)) == ops
  {
    var a, b, sweep := ops[..i], ops[i..], Timed(ops[i].now, Sweep);
    assert SweepFree(a) && SweepFree(b);
    WovenStrips(a, sweep, b);
    assert a + b == ops;
  }

  lemma WovenStrips(a: seq<Timed>, sweep: Timed, b: seq<Timed>)
    requires SweepFree(a) && SweepFree(b) && sweep.op.Sweep?
    ensures WithoutSweeps(a + [sweep] + b) == a + b
  {
    SweepFreeIsItself(a);
    SweepFreeIsItself(b);
    OneMoreSweep(a, sweep);
    WithoutSweepsConcat(a + [sweep], b);
  }

  lemma OneMoreSweep(a: seq<Timed>, sweep: Timed)
    requires sweep.op.Sweep?
    ensures WithoutSweeps(a + [sweep]) == WithoutSweeps(a)
  {
    WithoutSweepsConcat(a, [sweep]);
    assert [sweep][1..] == [];
    assert WithoutSweeps(a) + [] == WithoutSweeps(a);
  }

  lemma SweepAtMonotone(ops: seq<Timed>, i: nat)
    requires Monotone(ops) && i < |ops|
    ensures Monotone(SweepAt(ops, i))
  {
    var woven := SweepAt(ops, i);
    forall x, y | 0 <= x < y < |woven| ensures woven[x].now <= woven[y].now {
      var x' := if x < i then x else if x == i then i else x - 1;
      var y' := if y < i then y else if y == i then i else y - 1;
      assert woven[x].now == ops[x'].now && woven[y].now == ops[y'].now;
    }
  }

  /** A sweep just before a stale Incr makes it start again from 1. */
  lemma SweepAtStaleShows(d: Data, ops: seq<Timed>, i: nat)
    requires SweepFree(ops) && i < |ops| && StaleIncr(Final(d, ops[..i]), ops[i])
    ensures Answers(d, SweepAt(ops, i)) != Answers(d, ops)
  {
    var a, b, sweep := ops[..i], ops[i..], Timed(ops[i].now, Sweep);
    var mid := Final(d, a);
    assert a + b == ops && SweepAt(ops, i) == a + ([sweep] + b);
    AnswersConcat(d, a, b);
    AnswersConcat(d, a, [sweep] + b);
    assert ([sweep] + b)[1..] == b;
    var n := |Answers(d, a)|;
    assert Answers(d, ops)[n] == Answer(mid, ops[i].now, ops[i].op);
    assert Answers(d, SweepAt(ops, i))[n] == Answer(Swept(mid, sweep.now), ops[i].now, ops[i].op) == Number(1);
  }

  /** Sweeping at any moments of a run with a non-decreasing clock changes no answer, exactly when no
      Incr of the run hits an expired entry that still counts. */
  lemma SweepsTransparentIff(d: Data, ops: seq<Timed>)
    requires SweepFree(ops) && Monotone(ops)
    ensures NoStaleIncr(d, ops) <==>
            forall woven: seq<Timed> | WithoutSweeps(woven) == ops && Monotone(woven) :: Answers(d, woven) == Answers(d, ops)
  {
    if NoStaleIncr(d, ops) {
      forall woven: seq<Timed> | WithoutSweeps(woven) == ops && Monotone(woven) ensures Answers(d, woven) == Answers(d, ops) {
        SweepsDoNotShow(d, d, woven, if woven == [] then 0 else woven[0].now);
      }
    } else {
      var i := FindStale(d, ops);
      SweepAtStrips(ops, i);
      SweepAtMonotone(ops, i);
      SweepAtStaleShows(d, ops, i);
    }
  }

  /** A sweep that shows: an Incr ten ticks after the key was set to expire in five answers 2, or 1 if the
      collector came by first. */
  lemma SweepCanShow()
    ensures var plain := [Timed(0, Set("k", Count(1), 5)), Timed(10, Incr("k", 5))];
      var swept := [Timed(0, Set("k", Count(1), 5)), Timed(10, Sweep), Timed(10, Incr("k", 5))];
      && WithoutSweeps(swept) == plain && Answers(map[], plain) == [Done, Number(2)]
      && Answers(map[], swept) == [Done, Number(1)]
  {
    var set1, sweep, incr := Timed(0, Set("k", Count(1), 5)), Timed(10, Sweep), Timed(10, Incr("k", 5));
    var d := After(map[], 0, set1.op);
    assert Swept(d, 10) == map[];
    OneAnswer(d, incr);
    OneAnswer(map[], incr);
    assert [set1, incr][1..] == [incr];
    assert [set1, sweep, incr][1..] == [sweep, incr] && [sweep, incr][1..] == [incr];
    assert Answers(d, [sweep, incr]) == Answers(map[], [incr]);
    assert SweepFree([set1]) && SweepFree([incr]);
    WovenStrips([set1], sweep, [incr]);
    assert [set1] + [sweep] + [incr] == [set1, sweep, incr] && [set1] + [incr] == [set1, incr];
  }

  lemma OneAnswer(d: Data, t: Timed)
    requires !t.op.Sweep?
    ensures Answers(d, [t]) == [Answer(d, t.now, t.op)]
  {
    assert [t][1..] == [];
  }

  /** Set, Get and Del alone never show a sweep. */
  lemma {:induction false} NoIncrNoStale(d: Data, ops: seq<Timed>)
    requires forall t | t in ops :: !t.op.Incr?
    ensures NoStaleIncr(d, ops)
    decreases |ops|
  {
    if ops != [] { NoIncrNoStale(After(d, ops[0].now, ops[0].op), ops[1..]); }
  }

  // ---- counting ------------------------------------------------------------------------------------------------

  function CountsSeen(d: Data, ops: seq<Timed>, key: string): seq<int>
    decreases |ops|
  {
    if ops == [] then []
    else
      var t := ops[0];
      (if t.op.Incr? && t.op.key == key then [CountOf(d, key) + 1] else [])
      + CountsSeen(After(d, t.now, t.op), ops[1..], key)
  }

  predicate LeavesAlone(op: Op, key: string) {
    match op
    case Set(k, _, _) => k != key
    case Del(keys) => key !in keys
    case _ => true
  }

  /** Each Incr of the key comes within ttl of the one before. */
  predicate Spaced(ops: seq<Timed>, key: string, ttl: int, last: Option<int>)
    decreases |ops|
  {
    ops != [] ==>
      var t := ops[0];
      && LeavesAlone(t.op, key)
      && if t.op.Incr? && t.op.key == key
         then t.op.ttl == ttl && (last.Some? ==> t.now <= last.value + ttl) && Spaced(ops[1..], key, ttl, Some(t.now))
         else Spaced(ops[1..], key, ttl, last)
  }

  function Upward(from: int, n: nat): seq<int>
    decreases n
  {
    if n == 0 then [] else [from] + Upward(from + 1, n - 1)
  }

  lemma {:induction false} NoMoreIncr(d: Data, ops: seq<Timed>, key: string, ttl: int, last: int)
    requires Monotone(ops) && Spaced(ops, key, ttl, Some(last)) && (ops != [] ==> ops[0].now > last + ttl)
    ensures CountsSeen(d, ops, key) == []
    decreases |ops|
  {
    if ops != [] {
      assert ops[1..] != [] ==> ops[1..][0].now >= ops[0].now;
      NoMoreIncr(After(d, ops[0].now, ops[0].op), ops[1..], key, ttl, last);
    }
  }

  /** Incr calls on an unused key, each within ttl of the last, answer 1, 2, 3, ... whatever sweeps and
      operations on other keys come between. */
  lemma {:induction false} SpacedIncrsCount(d: Data, ops: seq<Timed>, key: string, ttl: int, c: nat, last: int)
    requires Monotone(ops) && Spaced(ops, key, ttl, if c == 0 then None else Some(last))
    requires if c == 0 then key !in d else key in d && d[key] == Entry(Count(c), Some(last + ttl))
    ensures CountsSeen(d, ops, key) == Upward(c + 1, |CountsSeen(d, ops, key)|)
    decreases |ops|
  {
    if ops != [] {
      var t, rest := ops[0], ops[1..];
      var d' := After(d, t.now, t.op);
      if t.op.Incr? && t.op.key == key {
        SpacedIncrsCount(d', rest, key, ttl, c + 1, t.now);
      } else if t.op.Sweep? && c > 0 && t.now > last + ttl {
        NoMoreIncr(d', rest, key, ttl, last);
      } else {
        SpacedIncrsCount(d', rest, key, ttl, c, last);
      }
    }
  }

  // ---- how long a value is seen ------------------------------------------------------------------------------

  predicate LeavesKey(op: Op, key: string) {
    match op
    case Set(k, _, _) => k != key
    case Get(_) => true
    case Del(keys) => key !in keys
    case Incr(k, _) => k != key
    case Sweep => true
  }

  /** The entry is stored, or was swept once it had expired. */
  predicate Kept(d: Data, key: string, e: Entry, now: int) { if key in d then d[key] == e else Expired(e, now) }

  lemma {:induction false} KeptThrough(d: Data, ops: seq<Timed>, key: string, e: Entry, start: int, now: int)
    requires Kept(d, key, e, start) && Monotone(ops) && start <= now
    requires forall i | 0 <= i < |ops| :: start <= ops[i].now <= now && LeavesKey(ops[i].op, key)
    ensures Kept(Final(d, ops), key, e, now)
    decreases |ops|
  {
    if ops != [] {
      var t := ops[0];
      assert Kept(After(d, t.now, t.op), key, e, t.now);
      forall i | 0 <= i < |ops[1..]| ensures t.now <= ops[1..][i].now <= now && LeavesKey(ops[1..][i].op, key) {
        assert ops[1..][i] == ops[i + 1];
      }
      KeptThrough(After(d, t.now, t.op), ops[1..], key, e, t.now, now);
    }
  }

  /** A value set at time start is found at time now, whatever is done to other keys and however often the
      collector comes by, exactly when the lifetime was not positive or has not passed; so is the number an Incr
      leaves, which always expires. */
  lemma ValueIsSeen(d: Data, start: int, op: Op, key: string, ops: seq<Timed>, now: int)
    requires (op.Set? || op.Incr?) && op.key == key && Monotone(ops) && start <= now
    requires forall i | 0 <= i < |ops| :: start <= ops[i].now <= now && LeavesKey(ops[i].op, key)
    ensures var answer := Answer(Final(After(d, start, op), ops), now, Get(key));
      answer == if (op.Set? && op.ttl <= 0) || now <= start + op.ttl
                then Found(if op.Set? then op.value else Count(Answer(d, start, op).n)) else NotFound
  {
    KeptThrough(After(d, start, op), ops, key, After(d, start, op)[key], start, now);
  }

  lemma {:induction false} StaysAway(d: Data, ops: seq<Timed>, key: string)
    requires key !in d && forall i | 0 <= i < |ops| :: LeavesKey(ops[i].op, key)
    ensures key !in Final(d, ops)
    decreases |ops|
  {
    if ops != [] {
      assert forall i | 0 <= i < |ops[1..]| :: ops[1..][i] == ops[i + 1];
      StaysAway(After(d, ops[0].now, ops[0].op), ops[1..], key);
    }
  }

  /** A deleted key is not found until it is written again. */
  lemma DeletedIsUnseen(d: Data, start: int, keys: seq<string>, key: string, ops: seq<Timed>, now: int)
    requires key in keys && forall i | 0 <= i < |ops| :: LeavesKey(ops[i].op, key)
    ensures Answer(Final(After(d, start, Del(keys)), ops), now, Get(key)) == NotFound
  {
    StaysAway(After(d, start, Del(keys)), ops, key);
  }
}
