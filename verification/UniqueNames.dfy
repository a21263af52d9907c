/** Finding a free user name or email: the candidate loops that append numbers until nobody else
    holds the value. */
module UniqueNames {
  import opened Options
  import opened DeptPaths

  datatype User = User(
    username: string,
    nickname: string,
    email: Option<string>,
    phone: Option<string>,
    position: string,
    domainAccount: string,
    hireStatus: string,
    dept: Option<nat>,
    isActive: bool,
    isLocked: bool,
    lockReason: string,
    manuallyEdited: bool)

  type Users = map<nat, User>

  datatype Field = Username | Email | Phone

  function ValueOf(u: User, f: Field): Option<string> {
    match f
    case Username => Some(u.username)
    case Email => u.email
    case Phone => u.phone
  }

  /** Somebody other than current holds the value; blank values are never taken. */
  predicate ValueTaken(users: Users, f: Field, value: string, current: Option<nat>) {
    TrimSpace(value) != "" && exists id | id in users :: Held(users, f, value, current, id)
  }

  predicate Held(users: Users, f: Field, value: string, current: Option<nat>, id: nat) {
    id in users && current != Some(id) && ValueOf(users[id], f) == Some(value)
  }

  // ---- strconv.Itoa --------------------------------------------------------------------------

  function Digit(n: nat): char
    requires n < 10
  {
    ['0', '1', '2', '3', '4', '5', '6', '7', '8', '9'][n]
  }

  function Itoa(n: nat): string {
    if n < 10 then [Digit(n)] else Itoa(n / 10) + [Digit(n % 10)]
  }

  lemma {:induction false} ItoaInjective(m: nat, n: nat)
    requires Itoa(m) == Itoa(n)
    ensures m == n
    decreases m
  {
    var a, b := Itoa(m), Itoa(n);
    ItoaLength(m);
    ItoaLength(n);
    assert a[|a| - 1] == Digit(m % 10) && b[|b| - 1] == Digit(n % 10);
    assert m % 10 == n % 10;
    if m >= 10 {
      assert Itoa(m / 10) == a[..|a| - 1] == b[..|b| - 1] == Itoa(n / 10);
      ItoaInjective(m / 10, n / 10);
    }
  }

  lemma {:induction false} ItoaLength(n: nat)
    ensures |Itoa(n)| >= 1 && (n >= 10 <==> |Itoa(n)| >= 2)
  {
    if n >= 10 { ItoaLength(n / 10); }
  }

  lemma {:induction false} ItoaIsDigits(n: nat)
    ensures forall i | 0 <= i < |Itoa(n)| :: '0' <= Itoa(n)[i] <= '9'
  {
    if n >= 10 { ItoaIsDigits(n / 10); }
  }

  // ---- candidates -------------------------------------------------------------------------------

  /** Distinct values that are all taken need at least as many users. */
  lemma {:induction false} Pigeonhole(users: Users, f: Field, tried: seq<string>, current: Option<nat>)
    requires forall i, j | 0 <= i < j < |tried| :: tried[i] != tried[j]
    requires forall i | 0 <= i < |tried| :: ValueTaken(users, f, tried[i], current)
    ensures |tried| <= |users|
    decreases |tried|
  {
    if tried != [] {
      var n := |tried| - 1;
      assert ValueTaken(users, f, tried[n], current);
      var id: nat :| id in users && Held(users, f, tried[n], current, id);
      var rest := map x | x in users && x != id :: users[x];
      assert rest.Keys == users.Keys - {id} && |rest.Keys| == |users| - 1;
      forall i | 0 <= i < n ensures ValueTaken(rest, f, tried[..n][i], current) {
        assert tried[i] != tried[n] && ValueTaken(users, f, tried[i], current);
        var other: nat :| other in users && Held(users, f, tried[i], current, other);
        assert Held(rest, f, tried[i], current, other);
      }
      Pigeonhole(rest, f, tried[..n], current);
    }
  }

  /** The n-th candidate is free and all earlier ones are taken. */
  ghost predicate FirstFree(users: Users, f: Field, cand: nat -> string, current: Option<nat>, n: nat) {
    1 <= n && !ValueTaken(users, f, cand(n), current)
    && forall i: nat | 1 <= i < n :: ValueTaken(users, f, cand(i), current)
  }

  /** The first m candidates are taken. */
  ghost predicate AllTaken(users: Users, f: Field, cand: nat -> string, current: Option<nat>, m: nat) {
    forall i: nat | 1 <= i <= m :: ValueTaken(users, f, cand(i), current)
  }

  lemma OneMoreTaken(users: Users, f: Field, cand: nat -> string, current: Option<nat>, m: nat)
    requires AllTaken(users, f, cand, current, m) && ValueTaken(users, f, cand(m + 1), current)
    ensures AllTaken(users, f, cand, current, m + 1)
  {
  }

  lemma NoneTakenYet(users: Users, f: Field, cand: nat -> string, current: Option<nat>)
    ensures AllTaken(users, f, cand, current, 0)
  {
  }

  lemma FirstFreeAfter(users: Users, f: Field, cand: nat -> string, current: Option<nat>, m: nat)
    requires AllTaken(users, f, cand, current, m) && !ValueTaken(users, f, cand(m + 1), current)
    ensures FirstFree(users, f, cand, current, m + 1)
  {
  }

  /** The first m candidates can only all be taken if there are m users. */
  lemma ProbesBounded(users: Users, f: Field, cand: nat -> string, current: Option<nat>, m: nat)
    requires forall i: nat, j: nat | 1 <= i < j <= m :: cand(i) != cand(j)
    requires AllTaken(users, f, cand, current, m)
    ensures m <= |users|
  {
    var tried := seq(m, k requires 0 <= k < m => cand(k + 1));
    Pigeonhole(users, f, tried, current);
  }

  /** base, base2, base3, ... */
  function NumberedName(base: string, i: nat): string {
    if i <= 1 then base else base + Itoa(i)
  }

  function Numbered(base: string): nat -> string { (i: nat) => NumberedName(base, i) }

  lemma NumberedNamesDiffer(base: string, i: nat, j: nat)
    requires 1 <= i < j
    ensures NumberedName(base, i) != NumberedName(base, j)
  {
    ItoaLength(j);
    if i > 1 && NumberedName(base, i) == NumberedName(base, j) {
      assert NumberedName(base, i)[|base|..] == Itoa(i) && NumberedName(base, j)[|base|..] == Itoa(j);
      ItoaInjective(i, j);
    }
    assert i <= 1 ==> |NumberedName(base, j)| > |base|;
  }

  lemma NumberedBounded(users: Users, base: string, current: Option<nat>, m: nat)
    requires AllTaken(users, Username, Numbered(base), current, m)
    ensures m <= |users|
  {
    var cand := Numbered(base);
    forall i: nat, j: nat | 1 <= i < j <= m ensures cand(i) != cand(j) { NumberedNamesDiffer(base, i, j); }
    ProbesBounded(users, Username, cand, current, m);
  }

  /** The first free one of base, base2, base3, ... */
  ghost predicate FirstNumbered(users: Users, base: string, current: Option<nat>, name: string) {
    exists n: nat | n <= |users| + 1 :: FirstFree(users, Username, Numbered(base), current, n) && name == NumberedName(base, n)
  }

  lemma FirstNumberedFound(users: Users, base: string, current: Option<nat>, m: nat, candidate: string)
    requires AllTaken(users, Username, Numbered(base), current, m) && m <= |users|
    requires candidate == NumberedName(base, m + 1) && !ValueTaken(users, Username, candidate, current)
    ensures FirstNumbered(users, base, current, candidate)
  {
    FirstFreeAfter(users, Username, Numbered(base), current, m);
  }

  lemma FirstNumberedNext(users: Users, base: string, current: Option<nat>, m: nat, candidate: string)
    requires AllTaken(users, Username, Numbered(base), current, m)
    requires candidate == NumberedName(base, m + 1) && ValueTaken(users, Username, candidate, current)
    ensures AllTaken(users, Username, Numbered(base), current, m + 1) && m + 1 <= |users|
  {
    OneMoreTaken(users, Username, Numbered(base), current, m);
    NumberedBounded(users, base, current, m + 1);
  }

  /** generateUsername's loop: the first free numbered name, found within |users| + 1 probes. */
  method FirstFreeNumbered(users: Users, base: string, current: Option<nat>) returns (candidate: string)
    ensures !ValueTaken(users, Username, candidate, current)
    ensures FirstNumbered(users, base, current, candidate)
  {
    candidate := base;
    var i: nat := 2;
    NoneTakenYet(users, Username, Numbered(base), current);
    while ValueTaken(users, Username, candidate, current)
      invariant 2 <= i <= |users| + 2 && candidate == NumberedName(base, i - 1)
      invariant AllTaken(users, Username, Numbered(base), current, i - 2)
      decreases |users| + 2 - i
    {
      FirstNumberedNext(users, base, current, i - 2, candidate);
      candidate := base + Itoa(i);
      i := i + 1;
    }
    FirstNumberedFound(users, base, current, i - 2, candidate);
  }

  /** name, name2, name23, name234, ... : the import loop appends to the previous candidate. */
  function ChainedName(name: string, i: nat): string {
    if i <= 1 then name else ChainedName(name, i - 1) + Itoa(i)
  }

  function Chained(name: string): nat -> string { (i: nat) => ChainedName(name, i) }

  lemma {:induction false} ChainedNamesGrow(name: string, i: nat, j: nat)
    requires 1 <= i < j
    ensures |ChainedName(name, i)| < |ChainedName(name, j)|
    decreases j
  {
    ItoaLength(j);
    if i < j - 1 { ChainedNamesGrow(name, i, j - 1); }
  }

  lemma ChainedBounded(users: Users, name: string, current: Option<nat>, m: nat)
    requires AllTaken(users, Username, Chained(name), current, m)
    ensures m <= |users|
  {
    var cand := Chained(name);
    forall i: nat, j: nat | 1 <= i < j <= m ensures cand(i) != cand(j) { ChainedNamesGrow(name, i, j); }
    ProbesBounded(users, Username, cand, current, m);
  }

  /** The first free one of name, name2, name23, ... */
  ghost predicate FirstChained(users: Users, start: string, current: Option<nat>, name: string) {
    exists n: nat | n <= |users| + 1 :: FirstFree(users, Username, Chained(start), current, n) && name == ChainedName(start, n)
  }

  lemma FirstChainedFound(users: Users, start: string, current: Option<nat>, m: nat, target: string)
    requires AllTaken(users, Username, Chained(start), current, m) && m <= |users|
    requires target == ChainedName(start, m + 1) && !ValueTaken(users, Username, target, current)
    ensures FirstChained(users, start, current, target)
  {
    FirstFreeAfter(users, Username, Chained(start), current, m);
  }

  lemma FirstChainedNext(users: Users, start: string, current: Option<nat>, m: nat, target: string)
    requires AllTaken(users, Username, Chained(start), current, m)
    requires target == ChainedName(start, m + 1) && ValueTaken(users, Username, target, current)
    ensures AllTaken(users, Username, Chained(start), current, m + 1) && m + 1 <= |users|
  {
    OneMoreTaken(users, Username, Chained(start), current, m);
    ChainedBounded(users, start, current, m + 1);
  }

  /** resolveImportUsername's loop, likewise within |users| + 1 probes. */
  method FirstFreeChained(users: Users, name: string, current: Option<nat>) returns (target: string)
    ensures !ValueTaken(users, Username, target, current)
    ensures FirstChained(users, name, current, target)
  {
    target := name;
    var i: nat := 2;
    NoneTakenYet(users, Username, Chained(name), current);
    while ValueTaken(users, Username, target, current)
      invariant 2 <= i <= |users| + 2 && target == ChainedName(name, i - 1)
      invariant AllTaken(users, Username, Chained(name), current, i - 2)
      decreases |users| + 2 - i
    {
      FirstChainedNext(users, name, current, i - 2, target);
      target := target + Itoa(i);
      i := i + 1;
    }
    FirstChainedFound(users, name, current, i - 2, target);
  }

  /** strings.Index(s, "@"), -1 when absent. */
  function IndexAt(s: string): (i: int)
    ensures -1 <= i < |s|
  {
    if s == "" then -1
    else if s[0] == '@' then 0
    else
      var rest := IndexAt(s[1..]);
      if rest < 0 then -1 else rest + 1
  }

  /** local@d, local2@d, local3@d, ... */
  function NumberedEmail(email: string, i: nat): string {
    var at := IndexAt(email);
    if i <= 1 then email
    else if at < 0 then email + Itoa(i)
    else email[..at] + Itoa(i) + email[at..]
  }

  function NumberedEmails(email: string): nat -> string { (i: nat) => NumberedEmail(email, i) }

  lemma NumberedEmailsDiffer(email: string, i: nat, j: nat)
    requires 1 <= i < j
    ensures NumberedEmail(email, i) != NumberedEmail(email, j)
  {
    var at := IndexAt(email);
    var k := if at < 0 then |email| else at;
    var a, b := NumberedEmail(email, i), NumberedEmail(email, j);
    ItoaLength(j);
    assert |b| == |email| + |Itoa(j)|;
    if i > 1 && a == b {
      assert |a| == |email| + |Itoa(i)|;
      assert a[k..k + |Itoa(i)|] == Itoa(i) && b[k..k + |Itoa(j)|] == Itoa(j);
      ItoaInjective(i, j);
    }
  }

  lemma NumberedEmailsBounded(users: Users, email: string, current: Option<nat>, m: nat)
    requires AllTaken(users, Email, NumberedEmails(email), current, m)
    ensures m <= |users|
  {
    var cand := NumberedEmails(email);
    forall i: nat, j: nat | 1 <= i < j <= m ensures cand(i) != cand(j) { NumberedEmailsDiffer(email, i, j); }
    ProbesBounded(users, Email, cand, current, m);
  }

  /** The first free one of local@d, local2@d, local3@d, ... */
  ghost predicate FirstEmail(users: Users, gen: string, current: Option<nat>, email: string) {
    exists n: nat | n <= |users| + 1 :: FirstFree(users, Email, NumberedEmails(gen), current, n) && email == NumberedEmail(gen, n)
  }

  lemma FirstEmailFound(users: Users, gen: string, current: Option<nat>, m: nat, cand: string)
    requires AllTaken(users, Email, NumberedEmails(gen), current, m) && m <= |users|
    requires cand == NumberedEmail(gen, m + 1) && !ValueTaken(users, Email, cand, current)
    ensures FirstEmail(users, gen, current, cand)
  {
    FirstFreeAfter(users, Email, NumberedEmails(gen), current, m);
  }

  lemma FirstEmailNext(users: Users, gen: string, current: Option<nat>, m: nat, cand: string)
    requires AllTaken(users, Email, NumberedEmails(gen), current, m)
    requires cand == NumberedEmail(gen, m + 1) && ValueTaken(users, Email, cand, current)
    ensures AllTaken(users, Email, NumberedEmails(gen), current, m + 1) && m + 1 <= |users|
  {
    OneMoreTaken(users, Email, NumberedEmails(gen), current, m);
    NumberedEmailsBounded(users, gen, current, m + 1);
  }

  /** resolveAssignEmail's loop over a generated address. */
  method FirstFreeEmail(users: Users, gen: string, current: Option<nat>) returns (cand: string)
    ensures !ValueTaken(users, Email, cand, current)
    ensures FirstEmail(users, gen, current, cand)
  {
    cand := gen;
    var at := IndexAt(gen);
    var i: nat := 2;
    NoneTakenYet(users, Email, NumberedEmails(gen), current);
    while ValueTaken(users, Email, cand, current)
      invariant 2 <= i <= |users| + 2 && cand == NumberedEmail(gen, i - 1)
      invariant AllTaken(users, Email, NumberedEmails(gen), current, i - 2)
      decreases |users| + 2 - i
    {
      FirstEmailNext(users, gen, current, i - 2, cand);
      if at < 0 { cand := gen + Itoa(i); } else { cand := gen[..at] + Itoa(i) + gen[at..]; }
      i := i + 1;
    }
    FirstEmailFound(users, gen, current, i - 2, cand);
  }

  // ---- values and candidates, written out ---------------------------------------------------------------------

  /** A value is taken when it is not blank and some other user's column is exactly it. */
  lemma TakenIs(users: Users, value: string, self: Option<nat>)
    ensures ValueTaken(users, Username, value, self)
       <==> TrimSpace(value) != "" && exists id | id in users :: self != Some(id) && users[id].username == value
    ensures ValueTaken(users, Email, value, self)
       <==> TrimSpace(value) != "" && exists id | id in users :: self != Some(id) && users[id].email == Some(value)
    ensures ValueTaken(users, Phone, value, self)
       <==> TrimSpace(value) != "" && exists id | id in users :: self != Some(id) && users[id].phone == Some(value)
  {
    forall id | id in users
      ensures Held(users, Username, value, self, id) <==> self != Some(id) && users[id].username == value
      ensures Held(users, Email, value, self, id) <==> self != Some(id) && users[id].email == Some(value)
      ensures Held(users, Phone, value, self, id) <==> self != Some(id) && users[id].phone == Some(value) {
    }
  }

  /** The number a string of digits says. */
  function NumberSaid(s: string): int {
    if s == "" then 0 else 10 * NumberSaid(s[..|s| - 1]) + (s[|s| - 1] as int - 48)
  }

  /** The digits of n say n, and do not begin with a zero unless n is 0. */
  lemma {:induction false} ItoaSays(n: nat)
    ensures NumberSaid(Itoa(n)) == n && (n > 0 ==> Itoa(n)[0] != '0')
  {
    ItoaIsDigits(n);
    if n >= 10 {
      ItoaSays(n / 10);
      ItoaLength(n / 10);
      assert Itoa(n)[..|Itoa(n)| - 1] == Itoa(n / 10);
    } else {
      assert [Digit(n)][..0] == "";
    }
  }

  /** The second and third candidates of each kind; a number goes before the first at sign of an address. */
  lemma CandidatesSay(name: string, local: string, domain: string)
    requires forall i | 0 <= i < |local| :: local[i] != '@'
    ensures NumberedName(name, 1) == ChainedName(name, 1) == name
    ensures NumberedName(name, 2) == name + "2" && NumberedName(name, 3) == name + "3"
    ensures ChainedName(name, 2) == name + "2" && ChainedName(name, 3) == name + "2" + "3"
    ensures forall n: nat | n > 1 :: NumberedEmail(local + "@" + domain, n) == local + Itoa(n) + "@" + domain
    ensures NumberedEmail(local + "@" + domain, 1) == local + "@" + domain
  {
    assert Itoa(2) == "2" && Itoa(3) == "3";
    var email := local + "@" + domain;
    FirstAt(local, "@" + domain);
    assert email == local + ("@" + domain);
    assert email[..|local|] == local && email[|local|..] == "@" + domain;
    forall n: nat | n > 1 ensures NumberedEmail(email, n) == local + Itoa(n) + "@" + domain {
      assert local + Itoa(n) + ("@" + domain) == local + Itoa(n) + "@" + domain;
    }
  }

  lemma {:induction false} FirstAt(local: string, rest: string)
    requires (forall i | 0 <= i < |local| :: local[i] != '@') && rest != "" && rest[0] == '@'
    ensures IndexAt(local + rest) == |local|
  {
    if local == "" {
      assert local + rest == rest;
    } else {
      assert (local + rest)[1..] == local[1..] + rest;
      FirstAt(local[1..], rest);
    }
  }
}
