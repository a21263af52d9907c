/** The import buffer: the rows an administrator previews and edits before importing, rebuilt by every
    pull of the remote directory without losing the edits. */
module ImportBuffer {
  import opened DeptPaths

  datatype Row = Row(
    provider: string,
    externalID: string,
    name: string,
    username: string,
    email: string,
    usernameEdited: string,
    emailEdited: string)

  /** A remote user as a pull sees it: computed preview values, and whether it resolves to a department. */
  datatype Incoming = Incoming(externalID: string, name: string, username: string, email: string, inScope: bool)

  datatype Field = Username | Email

  function EditedValue(r: Row, f: Field): string { if f == Username then r.usernameEdited else r.emailEdited }

  function ShownValue(r: Row, f: Field): string { if f == Username then r.username else r.email }

  predicate Is(r: Row, p: string, e: string) { r.provider == p && r.externalID == e }

  // ---- the two operations as functions on rows --------------------------------------------------------

  function WithEdit(r: Row, f: Field, v: string): Row {
    if f == Username then r.(username := v, usernameEdited := v) else r.(email := v, emailEdited := v)
  }

  /** The first row of the external id takes the edited value. */
  function EditRows(rows: seq<Row>, p: string, e: string, f: Field, v: string): seq<Row> {
    if rows == [] then []
    else if Is(rows[0], p, e) then [WithEdit(rows[0], f, v)] + rows[1..]
    else [rows[0]] + EditRows(rows[1..], p, e, f, v)
  }

  /** The edited value on record for an external id; a later row overrides an earlier one. */
  function EditOf(rows: seq<Row>, p: string, e: string, f: Field): string {
    if rows == [] then ""
    else
      var r := rows[|rows| - 1];
      if Is(r, p, e) && EditedValue(r, f) != "" then EditedValue(r, f) else EditOf(rows[..|rows| - 1], p, e, f)
  }

  function Rebuilt(prior: seq<Row>, p: string, u: Incoming): Row {
    var ue, ee := EditOf(prior, p, u.externalID, Username), EditOf(prior, p, u.externalID, Email);
    Row(p, u.externalID, u.name, if ue != "" then ue else u.username, if ee != "" then ee else u.email, ue, ee)
  }

  predicate Mentions(users: seq<Incoming>, e: string) { exists i | 0 <= i < |users| :: users[i].externalID == e }

  /** The first mention of the external id resolves to a department. */
  predicate InScope(users: seq<Incoming>, e: string) {
    users != [] &&
    var n := |users| - 1;
    InScope(users[..n], e) || (users[n].externalID == e && !Mentions(users[..n], e) && users[n].inScope)
  }

  /** The first mention of an external id decides; later ones are duplicates. */
  function RebuiltRows(prior: seq<Row>, p: string, users: seq<Incoming>): seq<Row> {
    if users == [] then []
    else
      var n := |users| - 1;
      var u := users[n];
      var before := RebuiltRows(prior, p, users[..n]);
      if u.externalID == "" || Mentions(users[..n], u.externalID) || !u.inScope then before
      else before + [Rebuilt(prior, p, u)]
  }

  function OtherProviders(rows: seq<Row>, p: string): seq<Row> {
    if rows == [] then []
    else
      var r := rows[|rows| - 1];
      var before := OtherProviders(rows[..|rows| - 1], p);
      if r.provider != p then before + [r] else before
  }

  function PullRows(rows: seq<Row>, p: string, users: seq<Incoming>): seq<Row> {
    OtherProviders(rows, p) + RebuiltRows(rows, p, users)
  }

  // ---- the table ---------------------------------------------------------------------------------------

  datatype EditResult = MissingID | NotFound | Invalid | Conflict | Edited

  /** strings.LastIndex(v, "@"). */
  function LastAt(v: string): (i: int)
    ensures -1 <= i < |v| && (i >= 0 ==> v[i] == '@')
    ensures forall k | i < k < |v| :: v[k] != '@'
  {
    if v == "" then -1 else if v[|v| - 1] == '@' then |v| - 1 else LastAt(v[..|v| - 1])
  }

  /** An '@' that is neither first nor last, and a dot after the last one. */
  predicate IsValidEmail(value: string) {
    var v := TrimSpace(value);
    0 < LastAt(v) < |v| - 1 && exists i | LastAt(v) < i < |v| :: v[i] == '.'
  }

  predicate Acceptable(f: Field, target: string) {
    target != "" && (f == Email ==> IsValidEmail(target))
  }

  class Buffer {
    var rows: seq<Row>

    constructor (rows: seq<Row>)
      ensures this.rows == rows
    {
      this.rows := rows;
    }

    /** EditBufferField with the sanitized value: an empty value, a malformed address and a value some
        local user already holds are not written. */
    method EditBufferField(p: string, externalID: string, f: Field, target: string, takenByUser: bool) returns (r: EditResult)
      modifies this
      ensures var e := TrimSpace(externalID);
        && (r == MissingID <==> e == "")
        && (r == NotFound <==> e != "" && forall i | 0 <= i < |old(rows)| :: !Is(old(rows)[i], p, e))
        && (r == Edited <==> e != "" && target != "" && (f == Email ==> IsValidEmail(target)) && !takenByUser
                             && exists i | 0 <= i < |old(rows)| :: Is(old(rows)[i], p, e))
        && rows == if r == Edited then EditRows(old(rows), p, e, f, target) else old(rows)
      ensures r == Invalid ==> target == "" || (f == Email && !IsValidEmail(target))
      ensures r == Conflict ==> takenByUser && target != "" && (f == Email ==> IsValidEmail(target))
    {
      var e := TrimSpace(externalID);
      if e == "" { return MissingID; }
      var i := 0;
      while i < |rows| && !Is(rows[i], p, e)
        invariant i <= |rows| && rows == old(rows)
        invariant forall k | 0 <= k < i :: !Is(rows[k], p, e)
      {
        i := i + 1;
      }
      if i == |rows| { return NotFound; }
      if !Acceptable(f, target) { return Invalid; }
      if takenByUser { return Conflict; }
      EditsAt(rows, p, e, f, target, i);
      rows := rows[i := WithEdit(rows[i], f, target)];
      return Edited;
    }

    /** storeSnapshot's buffer half: read the edits, rebuild this provider's rows, keep the others. */
    method Pull(p: string, users: seq<Incoming>)
      modifies this
      ensures rows == PullRows(old(rows), p, users)
    {
      var editedUsernames := ReadEdits(p, Username);
      var editedEmails := ReadEdits(p, Email);
      var rebuilt: seq<Row> := [];
      var seen: set<string> := {};
      for i := 0 to |users|
        invariant rows == old(rows)
        invariant rebuilt == RebuiltRows(rows, p, users[..i])
        invariant forall e :: e in seen <==> e != "" && Mentions(users[..i], e)
      {
        var u := users[i];
        assert users[..i + 1][..i] == users[..i];
        MentionsSnoc(users, i);
        if u.externalID != "" && u.externalID !in seen {
          seen := seen + {u.externalID};
          if u.inScope {
            var username, email := u.username, u.email;
            var ue := if u.externalID in editedUsernames then editedUsernames[u.externalID] else "";
            var ee := if u.externalID in editedEmails then editedEmails[u.externalID] else "";
            if ue != "" { username := ue; }
            if ee != "" { email := ee; }
            rebuilt := rebuilt + [Row(p, u.externalID, u.name, username, email, ue, ee)];
          }
        }
      }
      assert users[..|users|] == users;
      var kept: seq<Row> := [];
      for i := 0 to |rows|
        invariant rows == old(rows) && kept == OtherProviders(rows[..i], p)
      {
        assert rows[..i + 1][..i] == rows[..i];
        if rows[i].provider != p { kept := kept + [rows[i]]; }
      }
      assert rows[..|rows|] == rows;
      rows := kept + rebuilt;
    }

    method ReadEdits(p: string, f: Field) returns (edits: map<string, string>)
      ensures forall e :: (if e in edits then edits[e] else "") == EditOf(rows, p, e, f)
    {
      edits := map[];
      for i := 0 to |rows|
        invariant forall e :: (if e in edits then edits[e] else "") == EditOf(rows[..i], p, e, f)
      {
        assert rows[..i + 1][..i] == rows[..i];
        if rows[i].provider == p && EditedValue(rows[i], f) != "" {
          edits := edits[rows[i].externalID := EditedValue(rows[i], f)];
        }
      }
      assert rows[..|rows|] == rows;
    }
  }

  lemma {:induction false} EditsAt(rows: seq<Row>, p: string, e: string, f: Field, v: string, i: nat)
    requires i < |rows| && Is(rows[i], p, e) && forall k | 0 <= k < i :: !Is(rows[k], p, e)
    ensures EditRows(rows, p, e, f, v) == rows[i := WithEdit(rows[i], f, v)]
    decreases |rows|
  {
    if i > 0 {
      EditsAt(rows[1..], p, e, f, v, i - 1);
      assert rows[i := WithEdit(rows[i], f, v)] == [rows[0]] + rows[1..][i - 1 := WithEdit(rows[i], f, v)];
    } else {
      assert rows[0 := WithEdit(rows[0], f, v)] == [WithEdit(rows[0], f, v)] + rows[1..];
    }
  }

  lemma MentionsSnoc(users: seq<Incoming>, i: nat)
    requires i < |users|
    ensures forall e :: Mentions(users[..i + 1], e) <==> Mentions(users[..i], e) || users[i].externalID == e
  {
    forall e ensures Mentions(users[..i + 1], e) <==> Mentions(users[..i], e) || users[i].externalID == e {
      if Mentions(users[..i], e) {
        var k :| 0 <= k < i && users[..i][k].externalID == e;
        assert users[..i + 1][k].externalID == e;
      }
      if users[i].externalID == e { assert users[..i + 1][i].externalID == e; }
    }
  }

  // ---- one row per external id ------------------------------------------------------------------------------

  predicate OnePerID(rows: seq<Row>, p: string) {
    forall i, j | 0 <= i < j < |rows| && rows[i].provider == p && rows[j].provider == p ::
      rows[i].externalID != rows[j].externalID
  }

  predicate FromPull(r: Row, p: string, users: seq<Incoming>) {
    r.provider == p && Mentions(users, r.externalID) && InScope(users, r.externalID)
  }

  /** A pull's rows are its provider's, one for each external id in scope. */
  lemma {:induction false} RebuiltAre(prior: seq<Row>, p: string, users: seq<Incoming>)
    ensures forall r | r in RebuiltRows(prior, p, users) :: FromPull(r, p, users)
    ensures DistinctIDs(RebuiltRows(prior, p, users))
  {
    if users != [] {
      var n := |users| - 1;
      var u := users[n];
      var before := RebuiltRows(prior, p, users[..n]);
      RebuiltAre(prior, p, users[..n]);
      MentionsSnoc(users, n);
      assert users[..n + 1] == users;
      forall r | r in before ensures FromPull(r, p, users) { assert FromPull(r, p, users[..n]); }
      if !(u.externalID == "" || Mentions(users[..n], u.externalID) || !u.inScope) {
        assert FromPull(Rebuilt(prior, p, u), p, users);
        forall i | 0 <= i < |before| ensures before[i].externalID != u.externalID {
          assert before[i] in before && FromPull(before[i], p, users[..n]);
        }
      }
    }
  }

  /** A pull leaves the provider with one row per external id, whatever was there before. */
  lemma PullMakesUnique(rows: seq<Row>, p: string, users: seq<Incoming>)
    ensures OnePerID(PullRows(rows, p, users), p)
  {
    var o, r := OtherProviders(rows, p), RebuiltRows(rows, p, users);
    RebuiltAre(rows, p, users);
    OthersAre(rows, p);
    var all := PullRows(rows, p, users);
    forall i, j | 0 <= i < j < |all| && all[i].provider == p && all[j].provider == p
      ensures all[i].externalID != all[j].externalID
    {
      assert i >= |o| && all[i] == r[i - |o|] && all[j] == r[j - |o|];
    }
  }

  lemma {:induction false} OthersAre(rows: seq<Row>, p: string)
    ensures forall i | 0 <= i < |OtherProviders(rows, p)| :: OtherProviders(rows, p)[i].provider != p
  {
    if rows != [] { OthersAre(rows[..|rows| - 1], p); }
  }

  lemma {:induction false} EditKeepsIDs(rows: seq<Row>, p: string, e: string, f: Field, v: string)
    ensures |EditRows(rows, p, e, f, v)| == |rows|
    ensures forall i | 0 <= i < |rows| ::
              EditRows(rows, p, e, f, v)[i].provider == rows[i].provider
              && EditRows(rows, p, e, f, v)[i].externalID == rows[i].externalID
  {
    if rows != [] { EditKeepsIDs(rows[1..], p, e, f, v); }
  }

  /** Other providers' rows: a pull or an edit for p never touches them. */
  lemma {:induction false} RowsOfOther(rows: seq<Row>, p: string, q: string)
    requires q != p
    ensures OfProvider(OtherProviders(rows, p), q) == OfProvider(rows, q)
  {
    if rows != [] {
      var n := |rows| - 1;
      RowsOfOther(rows[..n], p, q);
      if rows[n].provider != p {
        var r := OtherProviders(rows[..n], p);
        assert (r + [rows[n]])[..|r|] == r;
      }
    }
  }

  function OfProvider(rows: seq<Row>, q: string): seq<Row> {
    if rows == [] then []
    else
      var r := rows[|rows| - 1];
      var before := OfProvider(rows[..|rows| - 1], q);
      if r.provider == q then before + [r] else before
  }

  lemma {:induction false} OfProviderConcat(a: seq<Row>, b: seq<Row>, q: string)
    ensures OfProvider(a + b, q) == OfProvider(a, q) + OfProvider(b, q)
    decreases |b|
  {
    if b == [] {
      assert a + b == a;
    } else {
      var n := |b| - 1;
      assert (a + b)[..|a + b| - 1] == a + b[..n];
      OfProviderConcat(a, b[..n], q);
    }
  }

  lemma {:induction false} NoneOfProvider(rows: seq<Row>, q: string)
    requires forall i | 0 <= i < |rows| :: rows[i].provider != q
    ensures OfProvider(rows, q) == []
  {
    if rows != [] { NoneOfProvider(rows[..|rows| - 1], q); }
  }

  lemma PullKeepsOthers(rows: seq<Row>, p: string, users: seq<Incoming>, q: string)
    requires q != p
    ensures OfProvider(PullRows(rows, p, users), q) == OfProvider(rows, q)
  {
    OfProviderConcat(OtherProviders(rows, p), RebuiltRows(rows, p, users), q);
    RowsOfOther(rows, p, q);
    RebuiltAre(rows, p, users);
    forall i | 0 <= i < |RebuiltRows(rows, p, users)| ensures RebuiltRows(rows, p, users)[i].provider != q {
      assert FromPull(RebuiltRows(rows, p, users)[i], p, users);
    }
    NoneOfProvider(RebuiltRows(rows, p, users), q);
  }

  lemma {:induction false} EditKeepsOthers(rows: seq<Row>, p: string, e: string, f: Field, v: string, q: string)
    requires q != p
    ensures OfProvider(EditRows(rows, p, e, f, v), q) == OfProvider(rows, q)
  {
    if rows != [] {
      var rest := rows[1..];
      assert rows == [rows[0]] + rest;
      OfProviderConcat([rows[0]], rest, q);
      if Is(rows[0], p, e) {
        OfProviderConcat([WithEdit(rows[0], f, v)], rest, q);
        NoneOfProvider([WithEdit(rows[0], f, v)], q);
        NoneOfProvider([rows[0]], q);
      } else {
        EditKeepsOthers(rest, p, e, f, v, q);
        OfProviderConcat([rows[0]], EditRows(rest, p, e, f, v), q);
      }
    }
  }

  // ---- whole histories ------------------------------------------------------------------------------------------

  datatype Event = EditEvent(p: string, e: string, f: Field, v: string) | PullEvent(p: string, users: seq<Incoming>)

  function Step(rows: seq<Row>, ev: Event): seq<Row> {
    match ev
    case EditEvent(p, e, f, v) => EditRows(rows, p, e, f, v)
    case PullEvent(p, users) => PullRows(rows, p, users)
  }

  function Run(rows: seq<Row>, events: seq<Event>): seq<Row>
    decreases |events|
  {
    if events == [] then rows else Run(Step(rows, events[0]), events[1..])
  }

  /** In every reachable buffer each provider has at most one row per external id. */
  lemma {:induction false} ReachableIsUnique(rows: seq<Row>, events: seq<Event>, p: string)
    requires OnePerID(rows, p)
    ensures OnePerID(Run(rows, events), p)
    decreases |events|
  {
    if events != [] {
      match events[0]
      case EditEvent(q, e, f, v) =>
        EditKeepsIDs(rows, q, e, f, v);
        ReachableIsUnique(Step(rows, events[0]), events[1..], p);
      case PullEvent(q, users) =>
        if q == p {
          PullMakesUnique(rows, p, users);
        } else {
          PullKeepsUnique(rows, q, users, p);
        }
        ReachableIsUnique(Step(rows, events[0]), events[1..], p);
    }
  }

  lemma PullKeepsUnique(rows: seq<Row>, q: string, users: seq<Incoming>, p: string)
    requires q != p && OnePerID(rows, p)
    ensures OnePerID(PullRows(rows, q, users), p)
  {
    PullKeepsOthers(rows, q, users, p);
    UniqueByProvider(rows, p);
    UniqueByProvider(PullRows(rows, q, users), p);
  }

  lemma {:induction false} OfProviderAre(rows: seq<Row>, p: string)
    ensures forall r :: r in OfProvider(rows, p) <==> r in rows && r.provider == p
  {
    if rows != [] {
      var n := |rows| - 1;
      OfProviderAre(rows[..n], p);
      assert rows == rows[..n] + [rows[n]];
    }
  }

  predicate DistinctIDs(rows: seq<Row>) { forall i, j | 0 <= i < j < |rows| :: rows[i].externalID != rows[j].externalID }

  lemma {:induction false} UniqueByProvider(rows: seq<Row>, p: string)
    ensures OnePerID(rows, p) <==> DistinctIDs(OfProvider(rows, p))
  {
    if rows != [] {
      var n := |rows| - 1;
      UniqueByProvider(rows[..n], p);
      OfProviderAre(rows[..n], p);
      if rows[n].provider == p {
        OnePerSnoc(rows, p);
        DistinctSnoc(OfProvider(rows[..n], p), rows[n]);
      } else {
        OnePerSkip(rows, p);
      }
    }
  }

  predicate NewID(rows: seq<Row>, p: string, e: string) {
    forall r | r in rows && r.provider == p :: r.externalID != e
  }

  lemma OnePerSnoc(rows: seq<Row>, p: string)
    requires rows != [] && rows[|rows| - 1].provider == p
    ensures var n := |rows| - 1;
      OnePerID(rows, p) <==> OnePerID(rows[..n], p) && NewID(rows[..n], p, rows[n].externalID)
  {
    var n := |rows| - 1;
    if OnePerID(rows, p) {
      forall r | r in rows[..n] && r.provider == p ensures r.externalID != rows[n].externalID {
        var i :| 0 <= i < n && rows[..n][i] == r;
        assert rows[i] == r;
      }
    }
    if OnePerID(rows[..n], p) && NewID(rows[..n], p, rows[n].externalID) {
      forall i, j | 0 <= i < j < |rows| && rows[i].provider == p && rows[j].provider == p
        ensures rows[i].externalID != rows[j].externalID
      {
        assert rows[..n][i] == rows[i] && rows[i] in rows[..n];
        if j < n { assert rows[..n][j] == rows[j]; }
      }
    }
  }

  lemma OnePerSkip(rows: seq<Row>, p: string)
    requires rows != [] && rows[|rows| - 1].provider != p
    ensures OnePerID(rows, p) <==> OnePerID(rows[..|rows| - 1], p)
  {
    var n := |rows| - 1;
    if OnePerID(rows[..n], p) {
      forall i, j | 0 <= i < j < |rows| && rows[i].provider == p && rows[j].provider == p
        ensures rows[i].externalID != rows[j].externalID
      {
        assert rows[..n][i] == rows[i] && rows[..n][j] == rows[j];
      }
    }
  }

  lemma DistinctSnoc(rows: seq<Row>, r: Row)
    ensures DistinctIDs(rows + [r]) <==> DistinctIDs(rows) && forall x | x in rows :: x.externalID != r.externalID
  {
    var all := rows + [r];
    if DistinctIDs(all) {
      forall i, j | 0 <= i < j < |rows| ensures rows[i].externalID != rows[j].externalID {
        assert all[i] == rows[i] && all[j] == rows[j];
      }
      forall x | x in rows ensures x.externalID != r.externalID {
        var i :| 0 <= i < |rows| && rows[i] == x;
        assert all[i] == x && all[|rows|] == r;
      }
    }
  }

  // ---- edits survive -----------------------------------------------------------------------------------------------

  /** Every pull of the provider still has the external id in scope. */
  predicate KeptInScope(events: seq<Event>, p: string, e: string) {
    forall ev | ev in events && ev.PullEvent? && ev.p == p :: InScope(ev.users, e)
  }

  /** No other successful edit of this field of this row. */
  predicate NotEditedAgain(events: seq<Event>, p: string, e: string, f: Field) {
    forall ev | ev in events && ev.EditEvent? :: !(ev.p == p && ev.e == e && ev.f == f)
  }

  /** The external id has a row, and every row of it shows the edited value. */
  predicate Holds(rows: seq<Row>, p: string, e: string, f: Field, v: string) {
    && (exists r | r in rows :: Is(r, p, e))
    && forall r | r in rows && Is(r, p, e) :: EditedValue(r, f) == v && ShownValue(r, f) == v
  }

  /** No row of the external id records an edit of the field. */
  predicate Lost(rows: seq<Row>, p: string, e: string, f: Field) {
    forall r | r in rows && Is(r, p, e) :: EditedValue(r, f) == ""
  }

  lemma {:induction false} EditOfHeld(rows: seq<Row>, p: string, e: string, f: Field, v: string)
    requires v != "" && Holds(rows, p, e, f, v)
    ensures EditOf(rows, p, e, f) == v
  {
    var n := |rows| - 1;
    assert rows == rows[..n] + [rows[n]];
    if !Is(rows[n], p, e) { EditOfHeld(rows[..n], p, e, f, v); }
  }

  lemma {:induction false} EditOfLost(rows: seq<Row>, p: string, e: string, f: Field)
    requires Lost(rows, p, e, f)
    ensures EditOf(rows, p, e, f) == ""
  {
    if rows != [] {
      var n := |rows| - 1;
      assert rows == rows[..n] + [rows[n]];
      EditOfLost(rows[..n], p, e, f);
    }
  }

  /** Where a pull's rows come from. */
  lemma {:induction false} RebuiltFor(prior: seq<Row>, p: string, users: seq<Incoming>, e: string)
    requires e != ""
    ensures (exists r | r in RebuiltRows(prior, p, users) :: Is(r, p, e)) <==> InScope(users, e)
    ensures forall r | r in RebuiltRows(prior, p, users) && Is(r, p, e) :: CarriesEdits(r, prior, p, e)
  {
    if users != [] {
      var n := |users| - 1;
      var u := users[n];
      RebuiltFor(prior, p, users[..n], e);
      if !(u.externalID == "" || Mentions(users[..n], u.externalID) || !u.inScope) {
        var row := Rebuilt(prior, p, u);
        var all := RebuiltRows(prior, p, users[..n]) + [row];
        assert all[|all| - 1] == row;
        if u.externalID == e { assert row in all && Is(row, p, e) && CarriesEdits(row, prior, p, e); }
      }
    }
  }

  predicate CarriesEdits(r: Row, prior: seq<Row>, p: string, e: string) {
    && r.usernameEdited == EditOf(prior, p, e, Username) && r.emailEdited == EditOf(prior, p, e, Email)
    && (r.usernameEdited != "" ==> r.username == r.usernameEdited)
    && (r.emailEdited != "" ==> r.email == r.emailEdited)
  }

  lemma PullOfSame(rows: seq<Row>, p: string, users: seq<Incoming>, e: string, r: Row)
    requires r in PullRows(rows, p, users) && Is(r, p, e)
    ensures r in RebuiltRows(rows, p, users)
  {
    OthersAre(rows, p);
    var o := OtherProviders(rows, p);
    assert forall i | 0 <= i < |o| :: !Is(o[i], p, e);
  }

  lemma PullHolds(rows: seq<Row>, p: string, users: seq<Incoming>, e: string, f: Field, v: string)
    requires e != "" && v != "" && Holds(rows, p, e, f, v)
    ensures if InScope(users, e) then Holds(PullRows(rows, p, users), p, e, f, v)
            else forall r | r in PullRows(rows, p, users) :: !Is(r, p, e)
  {
    EditOfHeld(rows, p, e, f, v);
    RebuiltFor(rows, p, users, e);
    var all := PullRows(rows, p, users);
    forall r | r in all && Is(r, p, e)
      ensures InScope(users, e) && EditedValue(r, f) == v && ShownValue(r, f) == v
    {
      PullOfSame(rows, p, users, e, r);
      assert CarriesEdits(r, rows, p, e);
    }
    if InScope(users, e) {
      var r :| r in RebuiltRows(rows, p, users) && Is(r, p, e);
      assert r in all;
    }
  }

  lemma PullStaysLost(rows: seq<Row>, p: string, users: seq<Incoming>, e: string, f: Field)
    requires e != "" && Lost(rows, p, e, f)
    ensures Lost(PullRows(rows, p, users), p, e, f)
  {
    EditOfLost(rows, p, e, f);
    RebuiltFor(rows, p, users, e);
    forall r | r in PullRows(rows, p, users) && Is(r, p, e) ensures EditedValue(r, f) == "" {
      PullOfSame(rows, p, users, e, r);
      assert CarriesEdits(r, rows, p, e);
    }
  }

  /** Rows of another provider pass through a pull, and no others appear. */
  lemma PullOfOther(rows: seq<Row>, q: string, users: seq<Incoming>, p: string, r: Row)
    requires q != p && r.provider == p
    ensures r in PullRows(rows, q, users) <==> r in rows
  {
    PullKeepsOthers(rows, q, users, p);
    OfProviderAre(rows, p);
    OfProviderAre(PullRows(rows, q, users), p);
    assert r in OfProvider(rows, p) <==> r in rows;
  }

  /** An edit of another row or another field leaves this row's field as it was. */
  lemma {:induction false} EditElsewhere(rows: seq<Row>, q: string, d: string, g: Field, w: string,
                                         p: string, e: string, f: Field, v: string)
    requires !(q == p && d == e && g == f)
    ensures Holds(rows, p, e, f, v) ==> Holds(EditRows(rows, q, d, g, w), p, e, f, v)
    ensures Lost(rows, p, e, f) ==> Lost(EditRows(rows, q, d, g, w), p, e, f)
  {
    var after := EditRows(rows, q, d, g, w);
    EditKeepsIDs(rows, q, d, g, w);
    EditChanges(rows, q, d, g, w);
    if Holds(rows, p, e, f, v) {
      var r :| r in rows && Is(r, p, e);
      var i :| 0 <= i < |rows| && rows[i] == r;
      assert after[i] in after && Is(after[i], p, e);
    }
    forall i | 0 <= i < |rows| && Is(after[i], p, e)
      ensures EditedValue(after[i], f) == EditedValue(rows[i], f) && ShownValue(after[i], f) == ShownValue(rows[i], f)
      ensures rows[i] in rows && Is(rows[i], p, e)
    {
    }
  }

  lemma {:induction false} EditChanges(rows: seq<Row>, q: string, d: string, g: Field, w: string)
    ensures |EditRows(rows, q, d, g, w)| == |rows|
    ensures forall i | 0 <= i < |rows| :: EditRows(rows, q, d, g, w)[i] == rows[i]
              || (Is(rows[i], q, d) && EditRows(rows, q, d, g, w)[i] == WithEdit(rows[i], g, w))
  {
    if rows != [] { EditChanges(rows[1..], q, d, g, w); }
  }

  lemma StepElsewhere(rows: seq<Row>, ev: Event, p: string, e: string, f: Field, v: string)
    requires e != "" && v != ""
    requires ev.EditEvent? ==> !(ev.p == p && ev.e == e && ev.f == f)
    ensures Lost(rows, p, e, f) ==> Lost(Step(rows, ev), p, e, f)
    ensures Holds(rows, p, e, f, v) ==>
              if ev.PullEvent? && ev.p == p && !InScope(ev.users, e) then Lost(Step(rows, ev), p, e, f)
              else Holds(Step(rows, ev), p, e, f, v)
  {
    match ev
    case EditEvent(q, d, g, w) => EditElsewhere(rows, q, d, g, w, p, e, f, v);
    case PullEvent(q, users) =>
      if q == p {
        if Holds(rows, p, e, f, v) { PullHolds(rows, p, users, e, f, v); }
        if Lost(rows, p, e, f) { PullStaysLost(rows, p, users, e, f); }
      } else {
        forall r: Row | r.provider == p ensures r in PullRows(rows, q, users) <==> r in rows {
          PullOfOther(rows, q, users, p, r);
        }
      }
  }

  lemma {:induction false} RunStaysLost(rows: seq<Row>, events: seq<Event>, p: string, e: string, f: Field)
    requires e != "" && Lost(rows, p, e, f) && NotEditedAgain(events, p, e, f)
    ensures Lost(Run(rows, events), p, e, f)
    decreases |events|
  {
    if events != [] {
      StepElsewhere(rows, events[0], p, e, f, "x");
      RunStaysLost(Step(rows, events[0]), events[1..], p, e, f);
    }
  }

  /** The latest edit of a field is what every later buffer shows, exactly as long as every pull since
      still had the external id in scope; after a pull without it the edit is gone for good. */
  lemma {:induction false} EditSurvivesIff(rows: seq<Row>, events: seq<Event>, p: string, e: string, f: Field, v: string)
    requires e != "" && v != "" && Holds(rows, p, e, f, v) && NotEditedAgain(events, p, e, f)
    ensures if KeptInScope(events, p, e) then Holds(Run(rows, events), p, e, f, v)
            else Lost(Run(rows, events), p, e, f)
    decreases |events|
  {
    if events != [] {
      var ev, rest := events[0], events[1..];
      StepElsewhere(rows, ev, p, e, f, v);
      if ev.PullEvent? && ev.p == p && !InScope(ev.users, e) {
        RunStaysLost(Step(rows, ev), rest, p, e, f);
      } else {
        EditSurvivesIff(Step(rows, ev), rest, p, e, f, v);
        assert KeptInScope(events, p, e) <==> KeptInScope(rest, p, e) by {
          assert forall x :: x in events <==> x == ev || x in rest;
        }
      }
    }
  }

  /** A successful edit puts the value in place, in a buffer with one row per external id. */
  lemma EditTakesHold(rows: seq<Row>, p: string, e: string, f: Field, v: string, i: nat)
    requires OnePerID(rows, p) && i < |rows| && Is(rows[i], p, e)
    ensures Holds(EditRows(rows, p, e, f, v), p, e, f, v)
  {
    EditsAt(rows, p, e, f, v, i);
    var after := rows[i := WithEdit(rows[i], f, v)];
    assert after[i] in after && Is(after[i], p, e);
    assert forall j | 0 <= j < |rows| && j != i :: !Is(after[j], p, e);
    forall r | r in after && Is(r, p, e) ensures EditedValue(r, f) == v && ShownValue(r, f) == v {
      var j :| 0 <= j < |after| && after[j] == r;
    }
  }

  lemma {:induction false} RunsCompose(rows: seq<Row>, a: seq<Event>, b: seq<Event>)
    ensures Run(rows, a + b) == Run(Run(rows, a), b)
    decreases |a|
  {
    if a == [] {
      assert a + b == b;
    } else {
      assert (a + b)[0] == a[0] && (a + b)[1..] == a[1..] + b;
      RunsCompose(Step(rows, a[0]), a[1..], b);
    }
  }

  lemma HoldsIsNotLost(rows: seq<Row>, p: string, e: string, f: Field, v: string)
    requires v != "" && Holds(rows, p, e, f, v)
    ensures !Lost(rows, p, e, f)
  {
  }

  lemma EditHoldsAfter(before: seq<Event>, p: string, e: string, f: Field, v: string)
    requires exists r | r in Run([], before) :: Is(r, p, e)
    ensures Holds(Step(Run([], before), EditEvent(p, e, f, v)), p, e, f, v)
  {
    var rows := Run([], before);
    ReachableIsUnique([], before, p);
    var r :| r in rows && Is(r, p, e);
    var i: nat :| i < |rows| && rows[i] == r;
    EditTakesHold(rows, p, e, f, v, i);
  }

  lemma SplitAtEdit(before: seq<Event>, edit: Event, after: seq<Event>)
    ensures Run([], before + [edit] + after) == Run(Step(Run([], before), edit), after)
  {
    RunsCompose([], before, [edit] + after);
    assert before + ([edit] + after) == before + [edit] + after;
    assert ([edit] + after)[1..] == after;
  }

  /** Anywhere in a history of edits and pulls that starts from an empty buffer: an edit of a row that is
      there, not repeated later, is what the buffer shows in the end exactly when every later pull of the
      provider kept the external id in scope; otherwise no trace of it is left. */
  lemma EditInHistorySurvivesIff(before: seq<Event>, p: string, e: string, f: Field, v: string, after: seq<Event>)
    requires e != "" && v != "" && NotEditedAgain(after, p, e, f)
    requires exists r | r in Run([], before) :: Is(r, p, e)
    ensures var end := Run([], before + [EditEvent(p, e, f, v)] + after);
      && (Holds(end, p, e, f, v) <==> KeptInScope(after, p, e))
      && (Lost(end, p, e, f) <==> !KeptInScope(after, p, e))
  {
    var edit := EditEvent(p, e, f, v);
    SplitAtEdit(before, edit, after);
    EditHoldsAfter(before, p, e, f, v);
    var start := Step(Run([], before), edit);
    EditSurvivesIff(start, after, p, e, f, v);
    if KeptInScope(after, p, e) { HoldsIsNotLost(Run(start, after), p, e, f, v); }
    else if Holds(Run(start, after), p, e, f, v) { HoldsIsNotLost(Run(start, after), p, e, f, v); }
  }

  // ---- rows and values, written out --------------------------------------------------------------------------

  /** v is the last edited value on record for the external id, "" if there is none. */
  ghost predicate OnRecord(rows: seq<Row>, p: string, e: string, edited: Row -> string, v: string) {
    if v == "" then forall i | 0 <= i < |rows| && rows[i].provider == p && rows[i].externalID == e :: edited(rows[i]) == ""
    else exists i :: LastEdited(rows, p, e, edited, v, i)
  }

  ghost predicate LastEdited(rows: seq<Row>, p: string, e: string, edited: Row -> string, v: string, i: nat) {
    && i < |rows| && rows[i].provider == p && rows[i].externalID == e && edited(rows[i]) == v
    && forall j | i < j < |rows| && rows[j].provider == p && rows[j].externalID == e :: edited(rows[j]) == ""
  }

  lemma {:induction false} EditIsOnRecord(rows: seq<Row>, p: string, e: string, f: Field, edited: Row -> string)
    requires forall r :: edited(r) == EditedValue(r, f)
    ensures OnRecord(rows, p, e, edited, EditOf(rows, p, e, f))
  {
    if rows != [] {
      var n := |rows| - 1;
      var v := EditOf(rows, p, e, f);
      EditIsOnRecord(rows[..n], p, e, f, edited);
      if Is(rows[n], p, e) && EditedValue(rows[n], f) != "" {
        assert LastEdited(rows, p, e, edited, v, n);
      } else if v != "" {
        var i: nat :| LastEdited(rows[..n], p, e, edited, v, i);
        assert forall j | i < j < n :: rows[j] == rows[..n][j];
        assert LastEdited(rows, p, e, edited, v, i);
      } else {
        assert forall j | 0 <= j < n :: rows[j] == rows[..n][j];
      }
    }
  }

  /** The row shows the remote user: the name, the columns that were not edited as the pull computed them, and
      the edited ones as they were edited. */
  ghost predicate Shows(prior: seq<Row>, p: string, u: Incoming, r: Row) {
    && r.provider == p && r.externalID == u.externalID != "" && r.name == u.name
    && OnRecord(prior, p, u.externalID, (q: Row) => q.usernameEdited, r.usernameEdited)
    && OnRecord(prior, p, u.externalID, (q: Row) => q.emailEdited, r.emailEdited)
    && r.username == (if r.usernameEdited == "" then u.username else r.usernameEdited)
    && r.email == (if r.emailEdited == "" then u.email else r.emailEdited)
  }

  predicate FirstMention(users: seq<Incoming>, i: nat) {
    i < |users| && forall j | 0 <= j < i :: users[j].externalID != users[i].externalID
  }

  ghost predicate ShownFrom(prior: seq<Row>, p: string, users: seq<Incoming>, r: Row) {
    exists i: nat :: FirstMention(users, i) && users[i].inScope && Shows(prior, p, users[i], r)
  }

  lemma RebuiltShows(prior: seq<Row>, p: string, u: Incoming)
    requires u.externalID != ""
    ensures Shows(prior, p, u, Rebuilt(prior, p, u))
  {
    EditIsOnRecord(prior, p, u.externalID, Username, (q: Row) => q.usernameEdited);
    EditIsOnRecord(prior, p, u.externalID, Email, (q: Row) => q.emailEdited);
  }

  predicate Kept(users: seq<Incoming>, i: nat) {
    FirstMention(users, i) && users[i].inScope && users[i].externalID != ""
  }

  lemma LastKept(users: seq<Incoming>)
    requires users != []
    ensures var n := |users| - 1; var u := users[n];
      Kept(users, n) <==> !(u.externalID == "" || Mentions(users[..n], u.externalID) || !u.inScope)
  {
    var n := |users| - 1;
    if j :| 0 <= j < n && users[j].externalID == users[n].externalID { assert users[..n][j].externalID == users[n].externalID; }
  }

  lemma {:induction false} RebuiltRowsShow(prior: seq<Row>, p: string, users: seq<Incoming>)
    ensures forall r | r in RebuiltRows(prior, p, users) :: ShownFrom(prior, p, users, r)
    decreases |users|
  {
    if users != [] {
      var n := |users| - 1;
      var before := RebuiltRows(prior, p, users[..n]);
      RebuiltRowsShow(prior, p, users[..n]);
      LastKept(users);
      if Kept(users, n) { RebuiltShows(prior, p, users[n]); }
      forall r | r in RebuiltRows(prior, p, users) ensures ShownFrom(prior, p, users, r) {
        if r in before { ShownStill(prior, p, users, r); }
      }
    }
  }

  lemma {:induction false} KeptAreShown(prior: seq<Row>, p: string, users: seq<Incoming>, i: nat) returns (r: Row)
    requires Kept(users, i)
    ensures r in RebuiltRows(prior, p, users) && Shows(prior, p, users[i], r)
    decreases |users|
  {
    var n := |users| - 1;
    if i < n {
      r := KeptAreShown(prior, p, users[..n], i);
    } else {
      LastKept(users);
      RebuiltShows(prior, p, users[n]);
      r := Rebuilt(prior, p, users[n]);
    }
  }

  lemma ShownStill(prior: seq<Row>, p: string, users: seq<Incoming>, r: Row)
    requires users != [] && ShownFrom(prior, p, users[..|users| - 1], r)
    ensures ShownFrom(prior, p, users, r)
  {
    var front := users[..|users| - 1];
    var i: nat :| FirstMention(front, i) && front[i].inScope && Shows(prior, p, front[i], r);
    assert FirstMention(users, i) && users[i] == front[i];
  }

  /** A pull leaves the provider exactly the users the snapshot first mentions in scope, each showing what the
      snapshot says but for what was edited. */
  lemma PullShows(rows: seq<Row>, p: string, users: seq<Incoming>)
    ensures forall r | r in PullRows(rows, p, users) && r.provider == p :: ShownFrom(rows, p, users, r)
    ensures forall i: nat | Kept(users, i) :: exists r | r in PullRows(rows, p, users) :: Shows(rows, p, users[i], r)
  {
    RebuiltRowsShow(rows, p, users);
    OthersAre(rows, p);
    forall i: nat | Kept(users, i) ensures exists r | r in PullRows(rows, p, users) :: Shows(rows, p, users[i], r) {
      var r := KeptAreShown(rows, p, users, i);
      assert r in PullRows(rows, p, users);
    }
  }

  /** An edit writes the shown column and the record of the edit, in the first row of the external id. */
  lemma EditSays(rows: seq<Row>, p: string, e: string, f: Field, v: string, i: nat)
    requires i < |rows| && rows[i].provider == p && rows[i].externalID == e
    requires forall k | 0 <= k < i :: rows[k].provider != p || rows[k].externalID != e
    ensures EditRows(rows, p, e, f, v) ==
              rows[i := if f == Username then rows[i].(username := v, usernameEdited := v)
                        else rows[i].(email := v, emailEdited := v)]
  {
    EditsAt(rows, p, e, f, v, i);
  }

  /** An address has an at sign that is neither its first nor its last character, and a dot after the last. */
  lemma ValidEmailSays(value: string)
    ensures var v := TrimSpace(value);
      IsValidEmail(value) <==> exists a, d | 0 < a < d < |v| :: v[a] == '@' && v[d] == '.'
                                             && forall k | a < k < |v| :: v[k] != '@'
  {
    var v := TrimSpace(value);
    if IsValidEmail(value) {
      var d :| LastAt(v) < d < |v| && v[d] == '.';
      assert v[LastAt(v)] == '@';
    }
  }
}
