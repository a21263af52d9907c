/** Applying remote users to the user table: matching them to local accounts, creating or updating,
    and keeping user names, emails and phones unique at every write. */
module UserImport {
  import opened Options
  import opened DeptPaths
  import opened PrimaryKeys
  import opened UniqueNames

  /** One remote user after field mapping. generatedEmail is what generateEmail makes of it. */
  datatype Remote = Remote(
    externalID: string,
    nickname: string,
    sourceUsername: string,
    email: string,
    phone: string,
    position: string,
    active: bool,
    departed: bool,
    generatedEmail: string,
    dept: Option<nat>)

  datatype Config = Config(usernameStrategy: string, emailStrategy: string, lower: string -> string)

  // ---- user name bases -----------------------------------------------------------------------------

  predicate Allowed(c: char) { 'a' <= c <= 'z' || '0' <= c <= '9' || c == '.' || c == '_' || c == '-' }

  predicate IsMark(c: char) { c == '.' || c == '_' || c == '-' }

  predicate AllAllowed(s: string) { forall i | 0 <= i < |s| :: Allowed(s[i]) }

  function KeepAllowed(s: string): string {
    if s == "" then "" else (if Allowed(s[0]) then [s[0]] else []) + KeepAllowed(s[1..])
  }

  function SanitizeUsername(cfg: Config, value: string): string {
    Trim(KeepAllowed(cfg.lower(TrimSpace(value))), IsMark)
  }

  predicate IsLatin(s: string) {
    var t := TrimSpace(s);
    t != "" && forall i | 0 <= i < |t| :: 'a' <= t[i] <= 'z' || 'A' <= t[i] <= 'Z' || '0' <= t[i] <= '9'
  }

  /** An all-digit source is Latin, so the source's digit branch is never reached. */
  function NormalizeUsernameBase(cfg: Config, sourceUsername: string, nickname: string): string {
    var source := cfg.lower(TrimSpace(sourceUsername));
    var nick := cfg.lower(TrimSpace(nickname));
    if cfg.usernameStrategy in ["pinyin", "smart_pinyin", ""] then
      if source != "" && IsLatin(source) then SanitizeUsername(cfg, source)
      else if nick != "" && IsLatin(nick) then SanitizeUsername(cfg, nick)
      else SanitizeUsername(cfg, source)
    else SanitizeUsername(cfg, source)
  }

  /** strings.ToLower leaves strings of lower-case letters, digits and marks alone. */
  ghost predicate LowerFixes(cfg: Config) { forall s: string | AllAllowed(s) :: cfg.lower(s) == s }

  lemma {:induction false} KeepAllowedIsAllowed(s: string)
    ensures AllAllowed(KeepAllowed(s))
  {
    if s != "" { KeepAllowedIsAllowed(s[1..]); }
  }

  lemma SanitizedIsAllowed(cfg: Config, value: string)
    ensures AllAllowed(SanitizeUsername(cfg, value))
  {
    var s := KeepAllowed(cfg.lower(TrimSpace(value)));
    KeepAllowedIsAllowed(s);
    KeepAllowedIsAllowed(cfg.lower(TrimSpace(value)));
    TrimLeftIsSuffix(s, IsMark);
    TrimRightIsPrefix(TrimLeft(s, IsMark), IsMark);
  }

  lemma {:induction false} ItoaIsAllowed(n: nat)
    ensures AllAllowed(Itoa(n))
  {
    if n >= 10 { ItoaIsAllowed(n / 10); }
  }

  lemma {:induction false} ChainedIsAllowed(name: string, n: nat)
    requires AllAllowed(name)
    ensures AllAllowed(ChainedName(name, n)) && |ChainedName(name, n)| >= |name|
  {
    if n > 1 {
      ChainedIsAllowed(name, n - 1);
      ItoaIsAllowed(n);
    }
  }

  lemma AllowedIsNotBlank(s: string)
    requires AllAllowed(s) && s != ""
    ensures TrimSpace(s) != ""
  {
    TrimFixed(s, IsSpace);
  }

  function UsernameBase(cfg: Config, sourceUsername: string, nickname: string): string {
    var base := NormalizeUsernameBase(cfg, sourceUsername, nickname);
    if base == "" then "user" else base
  }

  /** generateUsername: the first free numbered form of the base name. */
  method GenerateUsername(users: Users, cfg: Config, sourceUsername: string, nickname: string, current: Option<nat>)
    returns (candidate: string)
    ensures FirstNumbered(users, UsernameBase(cfg, sourceUsername, nickname), current, candidate)
    ensures AllAllowed(candidate) && candidate != "" && !ValueTaken(users, Username, candidate, current)
  {
    var base := NormalizeUsernameBase(cfg, sourceUsername, nickname);
    if base == "" { base := "user"; }
    assert AllAllowed(base) by {
      var source, nick := cfg.lower(TrimSpace(sourceUsername)), cfg.lower(TrimSpace(nickname));
      SanitizedIsAllowed(cfg, source);
      SanitizedIsAllowed(cfg, nick);
    }
    candidate := FirstFreeNumbered(users, base, current);
    ghost var n: nat :| n <= |users| + 1 && FirstFree(users, Username, Numbered(base), current, n)
                        && candidate == NumberedName(base, n);
    ItoaIsAllowed(n);
  }

  /** What resolveImportUsername makes of an edited name. */
  ghost predicate IsImportName(users: Users, cfg: Config, sourceUsername: string, nickname: string,
                               current: Option<nat>, override: string, name: string) {
    if SanitizeUsername(cfg, override) == "" then FirstNumbered(users, UsernameBase(cfg, sourceUsername, nickname), current, name)
    else FirstChained(users, SanitizeUsername(cfg, override), current, name)
  }

  /** resolveImportUsername: an edited name, sanitized, with numbers chained on while it is taken. */
  method ResolveImportUsername(users: Users, cfg: Config, sourceUsername: string, nickname: string,
                               current: Option<nat>, override: string) returns (target: string)
    ensures IsImportName(users, cfg, sourceUsername, nickname, current, override, target)
    ensures AllAllowed(target) && target != "" && !ValueTaken(users, Username, target, current)
  {
    target := SanitizeUsername(cfg, override);
    if target == "" {
      target := GenerateUsername(users, cfg, sourceUsername, nickname, current);
      return;
    }
    var start := target;
    SanitizedIsAllowed(cfg, override);
    target := FirstFreeChained(users, start, current);
    ghost var n: nat :| n <= |users| + 1 && FirstFree(users, Username, Chained(start), current, n)
                        && target == ChainedName(start, n);
    ChainedIsAllowed(start, n);
  }

  // ---- emails ---------------------------------------------------------------------------------------

  predicate HasAt(s: string) { exists i | 0 <= i < |s| :: s[i] == '@' }

  lemma HasAtIsNotBlank(s: string)
    requires HasAt(s)
    ensures TrimSpace(s) != ""
  {
    TrimLeftIsSuffix(s, IsSpace);
    TrimRightIsPrefix(TrimLeft(s, IsSpace), IsSpace);
    var i :| 0 <= i < |s| && s[i] == '@';
    assert !IsSpace(s[i]);
    if TrimLeft(s, IsSpace) != "" { assert !IsSpace(TrimLeft(s, IsSpace)[0]); }
  }

  lemma NumberedEmailHasAt(email: string, n: nat)
    requires HasAt(email)
    ensures HasAt(NumberedEmail(email, n))
  {
    var i :| 0 <= i < |email| && email[i] == '@';
    var at := IndexAt(email);
    var r := NumberedEmail(email, n);
    if n > 1 && at >= 0 && i >= at {
      assert r[i + |Itoa(n)|] == '@';
    } else {
      assert r[i] == '@';
    }
  }

  /** The address resolveAssignEmail assigns: with a strategy and a generated address its first free
      numbered form, else the remote address if it is free. */
  ghost predicate IsAssigned(users: Users, cfg: Config, r: Remote, current: Option<nat>, email: Option<string>) {
    var raw := TrimSpace(r.email);
    if TrimSpace(cfg.emailStrategy) == "" || r.generatedEmail == "" then
      email == if raw == "" || ValueTaken(users, Email, raw, current) then None else Some(raw)
    else email.Some? && FirstEmail(users, r.generatedEmail, current, email.value)
  }

  /** resolveAssignEmail: by strategy, generated with numbers until free; else the remote address if free. */
  method ResolveAssignEmail(users: Users, cfg: Config, r: Remote, current: Option<nat>) returns (email: Option<string>)
    requires r.generatedEmail != "" ==> HasAt(r.generatedEmail)
    ensures IsAssigned(users, cfg, r, current, email)
    ensures email.Some? ==> TrimSpace(email.value) != "" && !ValueTaken(users, Email, email.value, current)
  {
    var raw := TrimSpace(r.email);
    TrimEnds(r.email, IsSpace);
    TrimFixed(raw, IsSpace);
    if TrimSpace(cfg.emailStrategy) == "" || r.generatedEmail == "" {
      if raw == "" || ValueTaken(users, Email, raw, current) { return None; }
      return Some(raw);
    }
    var cand := FirstFreeEmail(users, r.generatedEmail, current);
    ghost var n: nat :| n <= |users| + 1
                        && FirstFree(users, Email, NumberedEmails(r.generatedEmail), current, n)
                        && cand == NumberedEmail(r.generatedEmail, n);
    NumberedEmailHasAt(r.generatedEmail, n);
    HasAtIsNotBlank(cand);
    return Some(cand);
  }

  // ---- the unique columns -------------------------------------------------------------------------------

  predicate Distinct(users: Users, f: Field) {
    forall a, b | a in users && b in users && a != b && ValueOf(users[a], f).Some? ::
      ValueOf(users[a], f) != ValueOf(users[b], f)
  }

  /** Distinct user names in lower case, distinct emails, distinct phones. */
  predicate UniqueColumns(cfg: Config, users: Users) {
    && (forall id | id in users :: cfg.lower(users[id].username) == users[id].username)
    && Distinct(users, Username) && Distinct(users, Email) && Distinct(users, Phone)
  }

  /** A column of a saved row may keep its value or take a free one. */
  predicate FreeOrKept(users: Users, id: nat, u: User, f: Field) {
    || ValueOf(u, f).None?
    || (id in users && ValueOf(users[id], f) == ValueOf(u, f))
    || (TrimSpace(ValueOf(u, f).value) != "" && !ValueTaken(users, f, ValueOf(u, f).value, Some(id)))
  }

  lemma SaveKeepsDistinct(users: Users, id: nat, u: User, f: Field)
    requires Distinct(users, f) && FreeOrKept(users, id, u, f)
    ensures Distinct(users[id := u], f)
  {
    var after := users[id := u];
    forall other | other in users && other != id && ValueOf(u, f).Some?
      ensures ValueOf(users[other], f) != ValueOf(u, f)
    {
      assert Held(users, f, ValueOf(u, f).value, Some(id), other) <==> ValueOf(users[other], f) == ValueOf(u, f);
    }
  }

  lemma SaveKeepsUnique(cfg: Config, users: Users, id: nat, u: User)
    requires UniqueColumns(cfg, users) && cfg.lower(u.username) == u.username
    requires FreeOrKept(users, id, u, Username) && FreeOrKept(users, id, u, Email) && FreeOrKept(users, id, u, Phone)
    ensures UniqueColumns(cfg, users[id := u])
  {
    SaveKeepsDistinct(users, id, u, Username);
    SaveKeepsDistinct(users, id, u, Email);
    SaveKeepsDistinct(users, id, u, Phone);
  }

  // ---- applyRemoteUser -------------------------------------------------------------------------------------

  datatype Outcome = MissingID | Departed | Created | Updated

  function WithDomainAccount(users: Users, account: string): set<nat> {
    set id | id in users && users[id].domainAccount == account
  }

  function WithEmail(users: Users, email: string): set<nat> {
    set id | id in users && users[id].email == Some(email)
  }

  function WithUsername(users: Users, username: string): set<nat> {
    set id | id in users && users[id].username == username
  }

  /** The local account of a remote user: by binding, else domain account, else email, else user name. */
  ghost function FindUser(cfg: Config, users: Users, bindings: map<string, nat>, r: Remote): Option<nat> {
    if r.externalID in bindings && bindings[r.externalID] in users then Some(bindings[r.externalID])
    else
      var byAccount := FirstOf(WithDomainAccount(users, r.externalID));
      if byAccount.Some? then byAccount
      else
        var byEmail := FirstOf(WithEmail(users, r.email));
        if r.email != "" && byEmail.Some? then byEmail
        else FirstOf(WithUsername(users, cfg.lower(r.sourceUsername)))
  }

  predicate IsNumeric(s: string) {
    var t := TrimSpace(s);
    t != "" && forall i | 0 <= i < |t| :: '0' <= t[i] <= '9'
  }

  predicate ShouldNormalize(cfg: Config, current: string, source: string) {
    var c, s := TrimSpace(current), TrimSpace(source);
    c == "" || IsNumeric(c) || c == s || c == cfg.lower(s)
  }

  function HireStatus(active: bool): string { if active then "active" else "resigned" }

  // ---- the rows a sync writes ------------------------------------------------------------------------------

  /** The name of a new account: generated, unless the import edited it to something else. */
  ghost predicate IsNewName(cfg: Config, users: Users, r: Remote, override: string, name: string) {
    exists generated ::
      && FirstNumbered(users, UsernameBase(cfg, r.sourceUsername, r.nickname), None, generated)
      && if override != "" && override != generated
         then IsImportName(users, cfg, r.sourceUsername, r.nickname, None, override, name) else name == generated
  }

  /** The email of a new account: the edited one if it is free, else the assigned one, else the remote one. */
  ghost predicate IsNewEmail(cfg: Config, users: Users, r: Remote, override: string, email: Option<string>) {
    if override != "" then email == if ValueTaken(users, Email, override, None) then None else Some(override)
    else
      exists given ::
        && IsAssigned(users, cfg, r, None, given)
        && email == if given.Some? then given
                    else if r.email != "" && !ValueTaken(users, Email, r.email, None) then Some(r.email) else None
  }

  ghost predicate IsNewRow(cfg: Config, users: Users, r: Remote, overrideUsername: string, overrideEmail: string, u: User) {
    && IsNewName(cfg, users, r, overrideUsername, u.username) && IsNewEmail(cfg, users, r, overrideEmail, u.email)
    && u.phone == (if r.phone != "" && !ValueTaken(users, Phone, r.phone, None) then Some(r.phone) else None)
    && u == User(u.username, r.nickname, u.email, u.phone, r.position, r.externalID, HireStatus(r.active), r.dept,
                 r.active, false, "", false)
  }

  /** The name the sync would settle on by itself for an existing account. */
  ghost predicate IsNaturalName(cfg: Config, users: Users, id: nat, r: Remote, name: string)
    requires id in users
  {
    if ShouldNormalize(cfg, users[id].username, r.sourceUsername)
    then FirstNumbered(users, UsernameBase(cfg, r.sourceUsername, r.nickname), Some(id), name)
    else name == cfg.lower(users[id].username)
  }

  /** The name of an updated account: the edited one if it differs from the natural one; else the natural
      one, unless an administrator edited the profile. */
  ghost predicate IsUpdatedName(cfg: Config, users: Users, id: nat, r: Remote, override: string, name: string)
    requires id in users
  {
    || (IsKeptName(cfg, users, id, r, name)
        && (override == "" || IsNaturalName(cfg, users, id, r, override)))
    || (override != ""
        && (exists natural :: natural != override && IsNaturalName(cfg, users, id, r, natural))
        && IsImportName(users, cfg, r.sourceUsername, r.nickname, Some(id), override, name))
  }

  ghost predicate IsKeptName(cfg: Config, users: Users, id: nat, r: Remote, name: string)
    requires id in users
  {
    if users[id].manuallyEdited then name == users[id].username else IsNaturalName(cfg, users, id, r, name)
  }

  ghost predicate IsUpdatedRow(cfg: Config, users: Users, id: nat, r: Remote, overrideUsername: string,
                               overrideEmail: string, u: User)
    requires id in users
  {
    && IsUpdatedName(cfg, users, id, r, overrideUsername, u.username)
    && u.email == (if overrideEmail != "" && !ValueTaken(users, Email, overrideEmail, Some(id))
                   then Some(overrideEmail) else users[id].email)
    && u.phone == (if r.phone == "" then None
                   else if ValueTaken(users, Phone, r.phone, Some(id)) then users[id].phone else Some(r.phone))
    && u == users[id].(username := u.username, nickname := r.nickname, email := u.email, phone := u.phone,
                       position := r.position, domainAccount := r.externalID, hireStatus := HireStatus(r.active),
                       dept := r.dept, isActive := r.active)
  }

  // ---- what one remote user does to the tables ------------------------------------------------------------

  datatype Tables = Rows(users: Users, bindings: map<string, nat>, next: nat)

  ghost function Expected(cfg: Config, t: Tables, r: Remote): Outcome {
    if r.externalID == "" then MissingID
    else if r.departed then Departed
    else if FindUser(cfg, t.users, t.bindings, r).None? then Created
    else Updated
  }

  /** From the tables t, remote user r leads to the tables t' with outcome o. */
  ghost predicate Applied(cfg: Config, t: Tables, r: Remote, overrideUsername: string, overrideEmail: string,
                          o: Outcome, t': Tables) {
    var found := FindUser(cfg, t.users, t.bindings, r);
    match o
    case MissingID => t' == t
    case Departed =>
      t' == if found.None? then t else t.(users := t.users[found.value := Resigned(t.users[found.value])])
    case Created =>
      && t.next in t'.users
      && t' == Rows(t.users[t.next := t'.users[t.next]], t.bindings[r.externalID := t.next], t.next + 1)
      && IsNewRow(cfg, t.users, r, overrideUsername, overrideEmail, t'.users[t.next])
    case Updated =>
      && found.Some? && found.value in t'.users
      && t' == Rows(t.users[found.value := t'.users[found.value]], t.bindings[r.externalID := found.value], t.next)
      && IsUpdatedRow(cfg, t.users, found.value, r, overrideUsername, overrideEmail, t'.users[found.value])
  }

  /** A remote user who has a live local account bound to the external id. */
  predicate IsKnown(t: Tables, externalID: string) {
    externalID in t.bindings && t.bindings[externalID] in t.users
  }

  lemma AppliedKnows(cfg: Config, t: Tables, r: Remote, o: Outcome, t': Tables)
    requires o == Expected(cfg, t, r) && Applied(cfg, t, r, "", "", o, t')
    ensures t.users.Keys <= t'.users.Keys && t'.next == t.next + if o == Created then 1 else 0
    ensures forall e | IsKnown(t, e) :: IsKnown(t', e)
    ensures Counted(r) ==> IsKnown(t', r.externalID)
    ensures o == Created ==> Counted(r) && !IsKnown(t, r.externalID)
  {
  }

  /** No column of the row is blank or held by anybody. */
  predicate FreshRow(users: Users, u: User) {
    && TrimSpace(u.username) != "" && !ValueTaken(users, Username, u.username, None)
    && (u.email.Some? ==> TrimSpace(u.email.value) != "" && !ValueTaken(users, Email, u.email.value, None))
    && (u.phone.Some? ==> TrimSpace(u.phone.value) != "" && !ValueTaken(users, Phone, u.phone.value, None))
  }

  lemma FreshRowIsFree(users: Users, next: nat, u: User)
    requires FreshRow(users, u)
    ensures FreeOrKept(users, next, u, Username) && FreeOrKept(users, next, u, Email) && FreeOrKept(users, next, u, Phone)
  {
    FreeValue(users, next, u, Username);
    FreeValue(users, next, u, Email);
    FreeValue(users, next, u, Phone);
  }

  lemma UpdatedRowIsFree(cfg: Config, users: Users, id: nat, r: Remote, overrideUsername: string, overrideEmail: string,
                         u: User)
    requires id in users && Tidy(r) && TrimSpace(overrideEmail) == overrideEmail
    requires IsUpdatedRow(cfg, users, id, r, overrideUsername, overrideEmail, u)
    ensures FreeOrKept(users, id, u, Email) && FreeOrKept(users, id, u, Phone)
  {
  }

  lemma FreeValue(users: Users, next: nat, u: User, f: Field)
    requires ValueOf(u, f).Some? ==> TrimSpace(ValueOf(u, f).value) != "" && !ValueTaken(users, f, ValueOf(u, f).value, None)
    ensures FreeOrKept(users, next, u, f)
  {
    if ValueOf(u, f).Some? { NotTakenByNew(users, f, ValueOf(u, f).value, next); }
  }

  // ---- what an outcome means, column by column ---------------------------------------------------------------

  /** A departed user's account is disabled and locked; no other column of it changes. */
  predicate IsDisabled(before: User, after: User) {
    && !after.isActive && after.isLocked && after.hireStatus == "resigned" && after.lockReason == "source_missing"
    && after == before.(isActive := after.isActive, isLocked := after.isLocked, hireStatus := after.hireStatus,
                        lockReason := after.lockReason)
  }

  /** The columns every import takes over from the remote user. */
  predicate TakesOver(r: Remote, u: User) {
    && u.nickname == r.nickname && u.position == r.position && u.domainAccount == r.externalID && u.dept == r.dept
    && u.isActive == r.active && (u.hireStatus == "active" <==> r.active) && (u.hireStatus == "resigned" <==> !r.active)
  }

  /** A blank value, or one no other user has. */
  ghost predicate EmailFree(users: Users, self: Option<nat>, email: string) {
    TrimSpace(email) == "" || forall id | id in users && self != Some(id) :: users[id].email != Some(email)
  }

  ghost predicate PhoneFree(users: Users, self: Option<nat>, phone: string) {
    TrimSpace(phone) == "" || forall id | id in users && self != Some(id) :: users[id].phone != Some(phone)
  }

  lemma FreeIsNotTaken(users: Users, self: Option<nat>, value: string)
    ensures EmailFree(users, self, value) <==> !ValueTaken(users, Email, value, self)
    ensures PhoneFree(users, self, value) <==> !ValueTaken(users, Phone, value, self)
  {
    TakenIs(users, value, self);
  }

  ghost predicate IsLowestWith(users: Users, id: nat, same: User -> bool) {
    id in users && same(users[id]) && forall x | x in users && same(users[x]) :: id <= x
  }

  ghost predicate NobodyWith(users: Users, same: User -> bool) { forall x | x in users :: !same(users[x]) }

  /** The account of a remote user: the live one bound to the external id; failing that the first with the id
      as domain account, then the first with the email unless that is empty, then the first with the source
      user name in lower case. */
  ghost predicate IsAccountOf(cfg: Config, users: Users, bindings: map<string, nat>, r: Remote, id: nat) {
    if r.externalID in bindings && bindings[r.externalID] in users then id == bindings[r.externalID]
    else
      || IsLowestWith(users, id, (u: User) => u.domainAccount == r.externalID)
      || (NobodyWith(users, (u: User) => u.domainAccount == r.externalID) && r.email != ""
          && IsLowestWith(users, id, (u: User) => u.email == Some(r.email)))
      || (NobodyWith(users, (u: User) => u.domainAccount == r.externalID)
          && (r.email == "" || NobodyWith(users, (u: User) => u.email == Some(r.email)))
          && IsLowestWith(users, id, (u: User) => u.username == cfg.lower(r.sourceUsername)))
  }

  lemma LowestOf(users: Users, s: set<nat>, same: User -> bool, id: nat)
    requires forall x :: x in s <==> x in users && same(users[x])
    ensures FirstOf(s) == Some(id) <==> IsLowestWith(users, id, same)
    ensures FirstOf(s).None? <==> NobodyWith(users, same)
  {
  }

  lemma FoundIsAccount(cfg: Config, users: Users, bindings: map<string, nat>, r: Remote, id: nat)
    ensures FindUser(cfg, users, bindings, r) == Some(id) <==> IsAccountOf(cfg, users, bindings, r, id)
  {
    LowestOf(users, WithDomainAccount(users, r.externalID), (u: User) => u.domainAccount == r.externalID, id);
    LowestOf(users, WithEmail(users, r.email), (u: User) => u.email == Some(r.email), id);
    LowestOf(users, WithUsername(users, cfg.lower(r.sourceUsername)), (u: User) => u.username == cfg.lower(r.sourceUsername), id);
  }

  /** What one remote user comes to, column by column. */
  ghost predicate ComesTo(cfg: Config, t: Tables, r: Remote, overrideEmail: string, o: Outcome, t': Tables) {
    match o
    case MissingID => r.externalID == "" && t' == t
    case Departed =>
      && r.externalID != "" && r.departed && t'.bindings == t.bindings && t'.next == t.next
      && ((forall id :: !IsAccountOf(cfg, t.users, t.bindings, r, id)) ==> t'.users == t.users)
      && (forall id | IsAccountOf(cfg, t.users, t.bindings, r, id) ::
            id in t.users && id in t'.users && t'.users == t.users[id := t'.users[id]] && IsDisabled(t.users[id], t'.users[id]))
    case Created =>
      && r.externalID != "" && !r.departed && (forall id :: !IsAccountOf(cfg, t.users, t.bindings, r, id))
      && t.next in t'.users && t'.next == t.next + 1 && t'.bindings == t.bindings[r.externalID := t.next]
      && t'.users == t.users[t.next := t'.users[t.next]] && IsNewAccount(t.users, r, overrideEmail, t'.users[t.next])
    case Updated =>
      && r.externalID != "" && !r.departed && t'.next == t.next
      && exists id :: IsAccountOf(cfg, t.users, t.bindings, r, id) && UpdatesRow(t, r, overrideEmail, id, t')
  }

  /** A new account is unlocked and takes the remote phone, and an edited email, if nobody has it. */
  ghost predicate IsNewAccount(users: Users, r: Remote, overrideEmail: string, u: User) {
    && TakesOver(r, u) && !u.isLocked && u.lockReason == "" && !u.manuallyEdited
    && u.phone == (if r.phone != "" && PhoneFree(users, None, r.phone) then Some(r.phone) else None)
    && (overrideEmail != "" ==> u.email == if EmailFree(users, None, overrideEmail) then Some(overrideEmail) else None)
  }

  /** An update keeps lock and email but for an edited email nobody else has; a phone somebody else has is not
      taken over, an empty one clears the column. */
  ghost predicate UpdatesRow(t: Tables, r: Remote, overrideEmail: string, id: nat, t': Tables) {
    && id in t.users && id in t'.users && t'.users == t.users[id := t'.users[id]]
    && t'.bindings == t.bindings[r.externalID := id]
    && var before, u := t.users[id], t'.users[id];
      && TakesOver(r, u) && u.isLocked == before.isLocked && u.lockReason == before.lockReason
      && u.manuallyEdited == before.manuallyEdited
      && u.email == (if overrideEmail != "" && EmailFree(t.users, Some(id), overrideEmail) then Some(overrideEmail)
                     else before.email)
      && u.phone == (if r.phone == "" then None else if PhoneFree(t.users, Some(id), r.phone) then Some(r.phone)
                     else before.phone)
  }

  ghost predicate OnlyAccount(cfg: Config, t: Tables, r: Remote, found: Option<nat>) {
    forall id: nat :: IsAccountOf(cfg, t.users, t.bindings, r, id) <==> found == Some(id)
  }

  lemma OnlyFound(cfg: Config, t: Tables, r: Remote)
    ensures OnlyAccount(cfg, t, r, FindUser(cfg, t.users, t.bindings, r))
  {
    forall id: nat ensures IsAccountOf(cfg, t.users, t.bindings, r, id) <==> FindUser(cfg, t.users, t.bindings, r) == Some(id) {
      FoundIsAccount(cfg, t.users, t.bindings, r, id);
    }
  }

  lemma NewRowIsAccount(cfg: Config, users: Users, r: Remote, overrideUsername: string, overrideEmail: string, u: User)
    requires IsNewRow(cfg, users, r, overrideUsername, overrideEmail, u)
    ensures IsNewAccount(users, r, overrideEmail, u)
  {
    FreeIsNotTaken(users, None, r.phone);
    FreeIsNotTaken(users, None, overrideEmail);
  }

  lemma UpdatedRowUpdates(cfg: Config, t: Tables, id: nat, r: Remote, overrideUsername: string, overrideEmail: string,
                          t': Tables)
    requires id in t.users && id in t'.users && t'.users == t.users[id := t'.users[id]]
    requires t'.bindings == t.bindings[r.externalID := id]
    requires IsUpdatedRow(cfg, t.users, id, r, overrideUsername, overrideEmail, t'.users[id])
    ensures UpdatesRow(t, r, overrideEmail, id, t')
  {
    FreeIsNotTaken(t.users, Some(id), r.phone);
    FreeIsNotTaken(t.users, Some(id), overrideEmail);
  }

  lemma FoundIsRow(cfg: Config, t: Tables, r: Remote)
    ensures var found := FindUser(cfg, t.users, t.bindings, r); found.Some? ==> found.value in t.users
  {
  }

  lemma AppliedComesTo(cfg: Config, t: Tables, r: Remote, overrideUsername: string, overrideEmail: string,
                       o: Outcome, t': Tables)
    requires o == Expected(cfg, t, r) && Applied(cfg, t, r, overrideUsername, overrideEmail, o, t')
    ensures ComesTo(cfg, t, r, overrideEmail, o, t')
  {
    var found := FindUser(cfg, t.users, t.bindings, r);
    OnlyFound(cfg, t, r);
    FoundIsRow(cfg, t, r);
    match o
    case MissingID =>
    case Departed =>
      forall id | IsAccountOf(cfg, t.users, t.bindings, r, id)
        ensures id in t.users && id in t'.users && t'.users == t.users[id := t'.users[id]] && IsDisabled(t.users[id], t'.users[id]) {
        assert found == Some(id);
      }
    case Created => NewRowIsAccount(cfg, t.users, r, overrideUsername, overrideEmail, t'.users[t.next]);
    case Updated =>
      UpdatedRowUpdates(cfg, t, found.value, r, overrideUsername, overrideEmail, t');
      assert IsAccountOf(cfg, t.users, t.bindings, r, found.value);
  }

  // ---- names and addresses, written out ------------------------------------------------------------------------

  predicate IsLetterOrDigit(c: char) {
    var n := c as int;
    48 <= n <= 57 || 65 <= n <= 90 || 97 <= n <= 122
  }

  predicate LettersAndDigits(s: string) { s != "" && forall i | 0 <= i < |s| :: IsLetterOrDigit(s[i]) }

  predicate OnlyDigits(s: string) { s != "" && forall i | 0 <= i < |s| :: 48 <= s[i] as int <= 57 }

  predicate IsDotDashUnderscore(c: char) { c as int == 45 || c as int == 46 || c as int == 95 }

  predicate DotDashUnderscore(s: string) { forall i | 0 <= i < |s| :: IsDotDashUnderscore(s[i]) }

  /** A lower-case letter, a digit, a dot, a dash or an underscore is kept, any other character dropped. */
  lemma KeepAllowedNext(c: char, s: string)
    ensures KeepAllowed("") == ""
    ensures KeepAllowed([c] + s) ==
              (if (IsLetterOrDigit(c) && !(65 <= c as int <= 90)) || IsDotDashUnderscore(c) then [c] else "") + KeepAllowed(s)
  {
    assert ([c] + s)[0] == c && ([c] + s)[1..] == s;
  }

  /** Sanitizing keeps the allowed characters of the lower-case value, but for dots, dashes and underscores at
      the ends. */
  lemma SanitizedIs(cfg: Config, value: string) returns (front: string, back: string)
    ensures var r := SanitizeUsername(cfg, value);
      && KeepAllowed(cfg.lower(TrimSpace(value))) == front + r + back && DotDashUnderscore(front) && DotDashUnderscore(back)
      && (r != "" ==> !IsDotDashUnderscore(r[0]) && !IsDotDashUnderscore(r[|r| - 1]))
  {
    front, back := TrimSplits(KeepAllowed(cfg.lower(TrimSpace(value))), IsMark);
    assert forall c :: IsMark(c) <==> IsDotDashUnderscore(c);
  }

  lemma TrimSplits(s: string, cut: char -> bool) returns (front: string, back: string)
    ensures var r := Trim(s, cut);
      && s == front + r + back && (forall i | 0 <= i < |front| :: cut(front[i])) && (forall i | 0 <= i < |back| :: cut(back[i]))
      && (r != "" ==> !cut(r[0]) && !cut(r[|r| - 1]))
  {
    front := TrimLeftSplits(s, cut);
    back := TrimRightSplits(TrimLeft(s, cut), cut);
    TrimEnds(s, cut);
  }

  lemma TrimLeftSplits(s: string, cut: char -> bool) returns (front: string)
    ensures s == front + TrimLeft(s, cut) && forall i | 0 <= i < |front| :: cut(front[i])
  {
    TrimLeftIsSuffix(s, cut);
    front := s[..|s| - |TrimLeft(s, cut)|];
  }

  lemma TrimRightSplits(s: string, cut: char -> bool) returns (back: string)
    ensures s == TrimRight(s, cut) + back && forall i | 0 <= i < |back| :: cut(back[i])
  {
    TrimRightIsPrefix(s, cut);
    back := s[|TrimRight(s, cut)|..];
  }

  /** The base of a generated name is the source name sanitized, unless the strategy asks for pinyin, the
      source is not made of letters and digits, and the nickname is; "user" stands in for an empty one. */
  lemma BaseIs(cfg: Config, sourceUsername: string, nickname: string)
    ensures var source, nick := cfg.lower(TrimSpace(sourceUsername)), cfg.lower(TrimSpace(nickname));
      var pinyin := cfg.usernameStrategy == "pinyin" || cfg.usernameStrategy == "smart_pinyin" || cfg.usernameStrategy == "";
      var base := SanitizeUsername(cfg, if pinyin && !LettersAndDigits(TrimSpace(source)) && LettersAndDigits(TrimSpace(nick))
                                        then nick else source);
      UsernameBase(cfg, sourceUsername, nickname) == if base == "" then "user" else base
  {
    var source, nick := cfg.lower(TrimSpace(sourceUsername)), cfg.lower(TrimSpace(nickname));
    TrimFixed("", IsSpace);
    LatinIs(source);
    LatinIs(nick);
  }

  lemma LatinIs(s: string)
    ensures IsLatin(s) <==> LettersAndDigits(TrimSpace(s))
  {
  }

  /** A name somebody chose: not blank, not a number, and not the source name in either case. */
  predicate IsChosen(cfg: Config, current: string, source: string) {
    var c, s := TrimSpace(current), TrimSpace(source);
    c != "" && !OnlyDigits(c) && c != s && c != cfg.lower(s)
  }

  lemma NormalizedUnlessChosen(cfg: Config, current: string, source: string)
    ensures ShouldNormalize(cfg, current, source) <==> !IsChosen(cfg, current, source)
  {
    NumericIs(TrimSpace(current));
    TrimTwice(current);
  }

  lemma NumericIs(s: string)
    ensures IsNumeric(s) <==> OnlyDigits(TrimSpace(s))
  {
  }

  lemma TrimTwice(s: string)
    ensures TrimSpace(TrimSpace(s)) == TrimSpace(s)
  {
    TrimEnds(s, IsSpace);
    TrimFixed(TrimSpace(s), IsSpace);
  }

  /** Without an edited name, an update leaves the name alone if an administrator edited the profile, puts a
      chosen one in lower case, and replaces any other by the first free numbered form of the base. */
  lemma UpdatedNameSays(cfg: Config, users: Users, id: nat, r: Remote, name: string)
    requires id in users && IsUpdatedName(cfg, users, id, r, "", name)
    ensures if users[id].manuallyEdited then name == users[id].username
            else if IsChosen(cfg, users[id].username, r.sourceUsername) then name == cfg.lower(users[id].username)
            else FirstNumbered(users, UsernameBase(cfg, r.sourceUsername, r.nickname), Some(id), name)
  {
    NormalizedUnlessChosen(cfg, users[id].username, r.sourceUsername);
  }

  /** An edited name that is not blank once sanitized is taken, with numbers chained on while it is in use; a
      new account gets the generated name if the edit says just that. */
  lemma NewNameSays(cfg: Config, users: Users, r: Remote, override: string, name: string)
    requires IsNewName(cfg, users, r, override, name)
    ensures override == "" ==> FirstNumbered(users, UsernameBase(cfg, r.sourceUsername, r.nickname), None, name)
    ensures override != "" ==>
              || (name == override && FirstNumbered(users, UsernameBase(cfg, r.sourceUsername, r.nickname), None, name))
              || (if SanitizeUsername(cfg, override) != "" then FirstChained(users, SanitizeUsername(cfg, override), None, name)
                  else FirstNumbered(users, UsernameBase(cfg, r.sourceUsername, r.nickname), None, name))
  {
  }

  /** Without an edited address a new account gets the first free form of the generated one under a strategy,
      else the remote one if nobody has it. */
  lemma NewEmailSays(cfg: Config, users: Users, r: Remote, email: Option<string>)
    requires Tidy(r) && IsNewEmail(cfg, users, r, "", email)
    ensures if TrimSpace(cfg.emailStrategy) != "" && r.generatedEmail != ""
            then email.Some? && FirstEmail(users, r.generatedEmail, None, email.value)
            else email == if r.email != "" && EmailFree(users, None, r.email) then Some(r.email) else None
  {
    FreeIsNotTaken(users, None, r.email);
  }

  class UserTables {
    var users: Users
    var bindings: map<string, nat>
    var next: nat
    const cfg: Config

    constructor (cfg: Config, users: Users, bindings: map<string, nat>, next: nat)
      ensures this.cfg == cfg && this.users == users && this.bindings == bindings && this.next == next
    {
      this.cfg, this.users, this.bindings, this.next := cfg, users, bindings, next;
    }

    /** The user table's columns are unique, and row ids in use are below next. */
    ghost predicate Valid()
      reads this
    {
      LowerFixes(cfg) && UniqueColumns(cfg, users) && forall id | id in users :: id < next
    }

    method Find(r: Remote) returns (id: Option<nat>)
      ensures id == FindUser(cfg, users, bindings, r)
    {
      id := None;
      if r.externalID in bindings && bindings[r.externalID] in users { id := Some(bindings[r.externalID]); }
      if id.None? { id := PickFirst(WithDomainAccount(users, r.externalID)); }
      if id.None? && r.email != "" { id := PickFirst(WithEmail(users, r.email)); }
      if id.None? { id := PickFirst(WithUsername(users, cfg.lower(r.sourceUsername))); }
    }

    /** The user name an update settles on. */
    method UpdatedUsername(id: nat, r: Remote, overrideUsername: string) returns (username: string)
      requires Valid() && id in users
      ensures cfg.lower(username) == username
      ensures username == users[id].username || (AllAllowed(username) && username != "" && !ValueTaken(users, Username, username, Some(id)))
      ensures IsUpdatedName(cfg, users, id, r, overrideUsername, username)
    {
      var u := users[id];
      username := u.username;
      var normalize := ShouldNormalize(cfg, u.username, r.sourceUsername);
      if overrideUsername != "" {
        var natural := cfg.lower(u.username);
        if normalize { natural := GenerateUsername(users, cfg, r.sourceUsername, r.nickname, Some(id)); }
        assert IsNaturalName(cfg, users, id, r, natural);
        if overrideUsername != natural {
          username := ResolveImportUsername(users, cfg, r.sourceUsername, r.nickname, Some(id), overrideUsername);
          return;
        }
      }
      if !u.manuallyEdited {
        if normalize {
          username := GenerateUsername(users, cfg, r.sourceUsername, r.nickname, Some(id));
        } else {
          username := cfg.lower(u.username);
        }
      }
    }

    method NewName(r: Remote, overrideUsername: string) returns (username: string)
      requires Valid()
      ensures IsNewName(cfg, users, r, overrideUsername, username)
      ensures cfg.lower(username) == username && TrimSpace(username) != "" && !ValueTaken(users, Username, username, None)
    {
      username := GenerateUsername(users, cfg, r.sourceUsername, r.nickname, None);
      if overrideUsername != "" && overrideUsername != username {
        username := ResolveImportUsername(users, cfg, r.sourceUsername, r.nickname, None, overrideUsername);
      }
      AllowedIsNotBlank(username);
    }

    method NewEmail(r: Remote, overrideEmail: string) returns (email: Option<string>)
      requires Tidy(r) && TrimSpace(overrideEmail) == overrideEmail
      ensures IsNewEmail(cfg, users, r, overrideEmail, email)
      ensures email.Some? ==> TrimSpace(email.value) != "" && !ValueTaken(users, Email, email.value, None)
    {
      email := None;
      if overrideEmail != "" {
        if !ValueTaken(users, Email, overrideEmail, None) { email := Some(overrideEmail); }
      } else {
        if r.email != "" && !ValueTaken(users, Email, r.email, None) { email := Some(r.email); }
        var assignEmail := ResolveAssignEmail(users, cfg, r, None);
        if assignEmail.Some? { email := assignEmail; }
      }
    }

    method NewUser(r: Remote, overrideUsername: string, overrideEmail: string) returns (u: User)
      requires Valid() && Tidy(r) && TrimSpace(overrideEmail) == overrideEmail
      ensures IsNewRow(cfg, users, r, overrideUsername, overrideEmail, u)
      ensures cfg.lower(u.username) == u.username && FreshRow(users, u)
    {
      var username := NewName(r, overrideUsername);
      var email := NewEmail(r, overrideEmail);
      var phone := NewPhone(r);
      u := User(username, r.nickname, email, phone, r.position, r.externalID, HireStatus(r.active), r.dept, r.active,
                false, "", false);
    }

    method NewPhone(r: Remote) returns (phone: Option<string>)
      requires Tidy(r)
      ensures phone == if r.phone != "" && !ValueTaken(users, Phone, r.phone, None) then Some(r.phone) else None
      ensures phone.Some? ==> TrimSpace(phone.value) != ""
    {
      phone := None;
      if r.phone != "" && !ValueTaken(users, Phone, r.phone, None) { phone := Some(r.phone); }
    }

    /** The updated row. An existing account keeps its email unless the import overrides it. */
    method UpdatedUser(id: nat, r: Remote, overrideUsername: string, overrideEmail: string) returns (u: User)
      requires Valid() && Tidy(r) && TrimSpace(overrideEmail) == overrideEmail
      requires id in users
      ensures IsUpdatedRow(cfg, users, id, r, overrideUsername, overrideEmail, u)
      ensures cfg.lower(u.username) == u.username && FreeOrKept(users, id, u, Username)
    {
      var username := UpdatedUsername(id, r, overrideUsername);
      if username != users[id].username { AllowedIsNotBlank(username); }
      u := users[id].(nickname := r.nickname, position := r.position, domainAccount := r.externalID,
                      hireStatus := HireStatus(r.active), isActive := r.active, dept := r.dept, username := username);
      if overrideEmail != "" && !ValueTaken(users, Email, overrideEmail, Some(id)) { u := u.(email := Some(overrideEmail)); }
      if r.phone == "" {
        u := u.(phone := None);
      } else if !ValueTaken(users, Phone, r.phone, Some(id)) {
        u := u.(phone := Some(r.phone));
      }
    }

    /** tx.Create and tx.Save. */
    method Save(id: nat, u: User)
      requires Valid() && id < next && cfg.lower(u.username) == u.username
      requires FreeOrKept(users, id, u, Username) && FreeOrKept(users, id, u, Email) && FreeOrKept(users, id, u, Phone)
      modifies this`users
      ensures Valid() && users == old(users)[id := u]
    {
      SaveKeepsUnique(cfg, users, id, u);
      users := users[id := u];
    }

    ghost function Tables(): (t: Tables)
      reads this
    {
      Rows(users, bindings, next)
    }

    method CreateAccount(r: Remote, overrideUsername: string, overrideEmail: string)
      requires Valid() && Tidy(r) && TrimSpace(overrideEmail) == overrideEmail
      modifies this
      ensures Valid() && Applied(cfg, old(Tables()), r, overrideUsername, overrideEmail, Created, Tables())
    {
      var u := NewUser(r, overrideUsername, overrideEmail);
      FreshRowIsFree(users, next, u);
      var id := next;
      next := next + 1;
      Save(id, u);
      bindings := bindings[r.externalID := id];
    }

    method UpdateAccount(id: nat, r: Remote, overrideUsername: string, overrideEmail: string)
      requires Valid() && Tidy(r) && TrimSpace(overrideEmail) == overrideEmail
      requires id in users && FindUser(cfg, users, bindings, r) == Some(id)
      modifies this
      ensures Valid() && Applied(cfg, old(Tables()), r, overrideUsername, overrideEmail, Updated, Tables())
    {
      var u := UpdatedUser(id, r, overrideUsername, overrideEmail);
      UpdatedRowIsFree(cfg, users, id, r, overrideUsername, overrideEmail, u);
      Save(id, u);
      bindings := bindings[r.externalID := id];
    }

    /** One remote user. The only write to the user table is its last step, and it leaves the unique
        columns unique. */
    method ApplyRemoteUser(r: Remote, overrideUsername: string, overrideEmail: string) returns (o: Outcome)
      requires Valid() && Tidy(r) && TrimSpace(overrideEmail) == overrideEmail
      modifies this
      ensures Valid()
      ensures o == Expected(cfg, old(Tables()), r)
      ensures Applied(cfg, old(Tables()), r, overrideUsername, overrideEmail, o, Tables())
      ensures ComesTo(cfg, old(Tables()), r, overrideEmail, o, Tables())
      ensures o == Departed ==> forall id | IsAccountOf(cfg, old(users), old(bindings), r, id) ::
                && id in old(users)
                && users == old(users)[id := old(users)[id].(isActive := false, isLocked := true, hireStatus := "resigned",
                                                             lockReason := "source_missing")]
      ensures o == Created ==>
                && old(next) in users && users[old(next)].isActive == r.active && !users[old(next)].isLocked
                && (users[old(next)].hireStatus == "active" <==> r.active)
      ensures o == Updated ==> forall id | IsAccountOf(cfg, old(users), old(bindings), r, id) ::
                id in users && users[id].isActive == r.active && (users[id].hireStatus == "active" <==> r.active)
    {
      ghost var before := Tables();
      o := ApplyOne(r, overrideUsername, overrideEmail);
      AppliedComesTo(cfg, before, r, overrideUsername, overrideEmail, o, Tables());
      OnlyFound(cfg, before, r);
    }

    method ApplyOne(r: Remote, overrideUsername: string, overrideEmail: string) returns (o: Outcome)
      requires Valid() && Tidy(r) && TrimSpace(overrideEmail) == overrideEmail
      modifies this
      ensures Valid()
      ensures o == Expected(cfg, old(Tables()), r)
      ensures Applied(cfg, old(Tables()), r, overrideUsername, overrideEmail, o, Tables())
    {
      if r.externalID == "" { return MissingID; }
      var found := Find(r);
      if r.departed {
        if found.Some? { Save(found.value, Resigned(users[found.value])); }
        return Departed;
      }
      if found.None? {
        CreateAccount(r, overrideUsername, overrideEmail);
        return Created;
      }
      UpdateAccount(found.value, r, overrideUsername, overrideEmail);
      return Updated;
    }

    /** A remote user who has a live local account bound to the external id. */
    predicate Known(externalID: string)
      reads this
    {
      IsKnown(Rows(users, bindings, next), externalID)
    }

    /** The first n remote users are known, leaving out those without an id and those departed. */
    ghost predicate AllKnown(remotes: seq<Remote>, n: nat)
      requires n <= |remotes|
      reads this
    {
      forall i | 0 <= i < n && Counted(remotes[i]) :: Known(remotes[i].externalID)
    }

    /** What one user of a full sync means for who is known. */
    method ApplyNext(remotes: seq<Remote>, n: nat) returns (created: bool)
      requires Valid() && AllTidy(remotes) && n < |remotes| && AllKnown(remotes, n)
      modifies this
      ensures Valid()
      ensures AllKnown(remotes, n + 1)
      ensures next == old(next) + (if created then 1 else 0) && old(users).Keys <= users.Keys
      ensures forall e | old(Known(e)) :: Known(e)
      ensures created ==> Counted(remotes[n]) && !old(Known(remotes[n].externalID))
    {
      TrimFixed("", IsSpace);
      assert Tidy(remotes[n]);
      ghost var before := Tables();
      var o := ApplyOne(remotes[n], "", "");
      created := o == Created;
      AppliedKnows(cfg, before, remotes[n], o, Tables());
    }

    /** All users of a snapshot in turn, as a full sync applies them. Afterwards every non-departed
        user is known, and when they all were before, nobody is created: so a second pass over the
        same snapshot creates nobody. */
    method ApplyRemoteUsers(remotes: seq<Remote>) returns (created: nat)
      requires Valid() && AllTidy(remotes)
      modifies this
      ensures Valid() && AllKnown(remotes, |remotes|)
      ensures next == old(next) + created && old(users).Keys <= users.Keys
      ensures old(AllKnown(remotes, |remotes|)) ==> created == 0
    {
      created := 0;
      var n := 0;
      while n < |remotes|
        invariant n <= |remotes|
        invariant Valid()
        invariant AllKnown(remotes, n)
        invariant next == old(next) + created && old(users).Keys <= users.Keys
        invariant forall e | old(Known(e)) :: Known(e)
        invariant old(AllKnown(remotes, |remotes|)) ==> created == 0
      {
        var c := ApplyNext(remotes, n);
        if c { created := created + 1; }
        n := n + 1;
      }
    }
  }

  predicate AllTidy(remotes: seq<Remote>) { forall i | 0 <= i < |remotes| :: Tidy(remotes[i]) }

  function Resigned(u: User): User {
    u.(isActive := false, hireStatus := "resigned", isLocked := true, lockReason := "source_missing")
  }

  predicate Counted(r: Remote) { r.externalID != "" && !r.departed }

  /** Field values arrive trimmed, and a generated address contains an at sign. */
  predicate Tidy(r: Remote) {
    TrimSpace(r.email) == r.email && TrimSpace(r.phone) == r.phone && (r.generatedEmail != "" ==> HasAt(r.generatedEmail))
  }

  /** A new row's id cannot be the holder of a taken value. */
  lemma NotTakenByNew(users: Users, f: Field, value: string, next: nat)
    requires !ValueTaken(users, f, value, None)
    ensures !ValueTaken(users, f, value, Some(next))
  {
    forall id | id in users && Held(users, f, value, Some(next), id) ensures Held(users, f, value, None, id) {
    }
  }
}
