/** The session manager: sessions live in a key-value store with deadlines, an index remembers which ones
    this process created, and listing prunes the index. */
module Sessions {
  import opened Options
  import opened Sorting

  datatype Session = Session(
    sid: string, userID: string, username: string, displayName: string, isStaff: bool,
    ip: string, userAgent: string, createdAt: int, expiresAt: int)

  datatype Entry = Entry(session: Session, deadline: Option<int>)

  predicate Alive(e: Entry, now: int) { e.deadline.Some? ==> now <= e.deadline.value }

  const DEFAULT_TTL := 8 * 60 * 60

  /** The order of ListAll. */
  predicate Newer(a: Session, b: Session) { a.createdAt > b.createdAt }

  lemma NewerIsWeakOrder()
    ensures WeakOrder(Newer)
  {
  }

  function Rows(created: map<string, Entry>, sids: set<string>): set<Session> {
    set sid | sid in sids && sid in created :: created[sid].session
  }

  lemma OneMoreRow(created: map<string, Entry>, seen: set<string>, sid: string, result: seq<Session>)
    requires sid in created && sid !in seen && Lists(result, Rows(created, seen))
    requires forall k | k in created :: created[k].session.sid == k
    ensures Lists(result + [created[sid].session], Rows(created, seen + {sid}))
  {
    var row := created[sid].session;
    assert row !in result;
    forall x ensures x in result + [row] <==> x in Rows(created, seen + {sid}) {
      assert x in result <==> x in Rows(created, seen);
    }
  }

  lemma SomeRow(created: map<string, Entry>, sids: set<string>)
    requires sids != {} && sids <= created.Keys
    ensures exists x :: x in Rows(created, sids)
  {
    var sid :| sid in sids;
    assert created[sid].session in Rows(created, sids);
  }

  lemma ListedMeansPresent(list: seq<Session>, rows: set<Session>)
    requires Lists(list, rows)
    ensures list != [] ==> rows != {}
  {
    if list != [] { assert list[0] in list; }
  }

  lemma {:induction false} OneRowEach(created: map<string, Entry>, sids: set<string>, list: seq<Session>)
    requires Lists(list, Rows(created, sids)) && sids <= created.Keys
    requires forall k | k in created :: created[k].session.sid == k
    ensures |list| == |sids|
    decreases sids
  {
    if sids == {} {
      assert Rows(created, sids) == {};
      ListedMeansPresent(list, Rows(created, sids));
    } else {
      SomeRow(created, sids);
      var n := |list| - 1;
      assert list[n] in list;
      var sid := list[n].sid;
      assert forall x :: x in list <==> x == list[n] || x in list[..n];
      assert list[n] !in list[..n];
      OneRowEach(created, sids - {sid}, list[..n]);
    }
  }

  class Manager {
    var store: map<string, Entry>
    var index: set<string>
    const ttl: int
    /** Every session this manager created and did not delete, expired or not; and the latest time seen. */
    ghost var created: map<string, Entry>
    ghost var clock: int

    /** The index holds exactly created sessions; one missing from the index or the store has expired. */
    ghost predicate Valid()
      reads this
    {
      && index <= created.Keys
      && (forall sid | sid in created && Alive(created[sid], clock) :: sid in index && sid in store)
      && (forall sid | sid in created && sid in store :: store[sid] == created[sid])
      && (forall sid | sid in created :: sid != "" && created[sid].session.sid == sid)
    }

    /** Created here, not deleted, not expired. */
    ghost function Online(now: int): set<string>
      reads this
    {
      set sid | sid in created && Alive(created[sid], now)
    }

    /** Created here, not deleted, and not expired when the store is asked about it. */
    ghost function Seen(at: string -> int): set<string>
      reads this
    {
      set sid | sid in created && Alive(created[sid], at(sid))
    }

    /** A restarted process finds the sessions of its predecessor in the store, and knows none of them. */
    constructor (store: map<string, Entry>, ttl: int, now: int)
      ensures Valid() && created == map[] && this.store == store && clock == now
      ensures this.ttl == if ttl == 0 then 28800 else ttl
    {
      this.store, this.ttl := store, if ttl == 0 then DEFAULT_TTL else ttl;
      index, created, clock := {}, map[], now;
    }

    /** sid is random, hence new; now is when the store takes the session. */
    method Create(sid: string, userID: string, username: string, displayName: string, isStaff: bool,
                  ip: string, userAgent: string, createdAt: int, now: int) returns (session: Session)
      requires Valid() && clock <= now
      requires sid != "" && sid !in store && sid !in created
      modifies this
      ensures Valid() && clock == now
      ensures session == Session(sid, userID, username, displayName, isStaff, ip, userAgent, createdAt, createdAt + ttl)
      ensures sid in created && created[sid].session == session && created == old(created)[sid := created[sid]]
      ensures created[sid].deadline == if ttl <= 0 then None else Some(now + ttl)
      ensures store == old(store)[sid := created[sid]]
    {
      session := Session(sid, userID, username, displayName, isStaff, ip, userAgent, createdAt, createdAt + ttl);
      var e := Entry(session, if ttl > 0 then Some(now + ttl) else None);
      store := store[sid := e];
      index := index + {sid};
      created, clock := created[sid := e], now;
    }

    method Get(sid: string, now: int) returns (found: Option<Session>)
      ensures found.Some? <==> sid != "" && sid in store && (store[sid].deadline.None? || now <= store[sid].deadline.value)
      ensures found.Some? ==> found.value == store[sid].session
    {
      if sid == "" || sid !in store { return None; }
      var e := store[sid];
      if e.deadline.Some? && now > e.deadline.value { return None; }
      return Some(e.session);
    }

    method Delete(sid: string)
      requires Valid()
      modifies this
      ensures Valid() && created == old(created) - {sid} && store == old(store) - {sid} && clock == old(clock)
    {
      index := index - {sid};
      store := store - {sid};
      created := created - {sid};
    }

    /** The store's collector may run at any time. */
    method Sweep(now: int)
      requires Valid() && clock <= now
      modifies this
      ensures Valid() && clock == now && index == old(index) && created == old(created)
      ensures Online(now) == old(Online(now))
    {
      store := map k | k in store && Alive(store[k], now) :: store[k];
      clock := now;
    }

    lemma SeenIsIndexed(at: string -> int)
      requires Valid() && forall sid :: clock <= at(sid)
      ensures Seen(at) <= index && Seen(at) <= store.Keys && Seen(at) <= Online(clock)
    {
      forall sid | sid in Seen(at) ensures sid in index && sid in store && sid in Online(clock) {
        assert Alive(created[sid], clock);
      }
    }

    lemma IndexedAreFound(sid: string, at: string -> int)
      requires Valid() && sid in index && forall sid :: clock <= at(sid)
      ensures sid in created && sid != "" && created[sid].session.sid == sid
      ensures sid in store && Alive(store[sid], at(sid)) <==> sid in Seen(at)
      ensures sid in store ==> store[sid] == created[sid]
    {
      if sid in Seen(at) { SeenIsIndexed(at); }
    }

    /** The reading half of ListAll: asks the store for every indexed session, each at its own instant, and
        notes the ones gone. */
    method Collect(at: string -> int) returns (result: seq<Session>, stale: set<string>)
      requires Valid() && forall sid :: clock <= at(sid)
      ensures stale == index - Seen(at)
      ensures Lists(result, Rows(created, Seen(at)))
    {
      SeenIsIndexed(at);
      ghost var live := Seen(at);
      ghost var seen: set<string> := {};
      result, stale := [], {};
      var ids := index;
      while ids != {}
        invariant ids <= index && seen == live * (index - ids)
        invariant stale == index - ids - live
        invariant Lists(result, Rows(created, seen))
        decreases ids
      {
        var sid :| sid in ids;
        var sd := Get(sid, at(sid));
        IndexedAreFound(sid, at);
        assert index - (ids - {sid}) == index - ids + {sid};
        ids := ids - {sid};
        if sd.None? {
          stale := stale + {sid};
        } else {
          OneMoreRow(created, seen, sid, result);
          result := result + [sd.value];
          seen := seen + {sid};
        }
      }
      assert seen == live;
    }

    /** Exactly the sessions alive when the store is asked about each, each once, newest first; afterwards
        the index is exactly that set. It has every session still online at the end and none that was not
        online at the start; asked at one instant it is the sessions online then. */
    method ListAll(at: string -> int, now: int) returns (list: seq<Session>)
      requires Valid() && forall sid :: clock <= at(sid) <= now
      modifies this
      ensures Valid() && clock == now && store == old(store) && created == old(created)
      ensures index == Seen(at) && Online(now) <= index <= old(Online(clock))
      ensures (forall sid :: at(sid) == now) ==> index == Online(now)
      ensures forall i, j | 0 <= i < j < |list| :: list[i].createdAt >= list[j].createdAt
      ensures Lists(list, Rows(created, index)) && |list| == |index|
    {
      var result, stale := Collect(at);
      SeenIsIndexed(at);
      index := index - stale;
      clock := now;
      NewerIsWeakOrder();
      list := SortSlice(result, Newer);
      Rearranged(result, list, Rows(created, Seen(at)));
      OneRowEach(created, Seen(at), list);
    }

    method Count(at: string -> int, now: int) returns (n: nat)
      requires Valid() && forall sid :: clock <= at(sid) <= now
      modifies this
      ensures Valid() && n == |Seen(at)| && index == Seen(at)
      ensures store == old(store) && created == old(created) && clock == now
    {
      var list := ListAll(at, now);
      n := |list|;
    }
  }
}
