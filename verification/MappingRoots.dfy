/** Which remote roots mapping mode fetches, and which part of a snapshot a list of roots keeps. */
module MappingRoots {
  import opened DeptPaths
  import opened Sorting

  datatype Mapping = Mapping(included: bool, remotePath: string)

  // ---- mappingRoots ---------------------------------------------------------------------------

  predicate Counts(m: Mapping) { m.included && TrimSpace(m.remotePath) != "" }

  function Included(mappings: seq<Mapping>): set<string> {
    set i | 0 <= i < |mappings| && Counts(mappings[i]) :: TrimSpace(mappings[i].remotePath)
  }

  /** The remote paths of the included mappings, trimmed, without blank ones. */
  lemma IncludedAre(mappings: seq<Mapping>, x: string)
    ensures x in Included(mappings) <==> x != "" && exists m | m in mappings :: m.included && TrimSpace(m.remotePath) == x
  {
    if m :| m in mappings && m.included && TrimSpace(m.remotePath) == x {
      var i :| 0 <= i < |mappings| && mappings[i] == m;
      assert x != "" ==> Counts(mappings[i]);
    }
  }

  /** The paths no other path of the set covers. */
  function Minimal(s: set<string>): set<string> {
    set x | x in s && forall y | y in s :: Covers(y, x) ==> y == x
  }

  /** Minimal paths cover everything. */
  lemma {:induction false} MinimalCovers(s: set<string>, x: string)
    requires x in s
    ensures exists m | m in Minimal(s) :: Covers(m, x)
    decreases |x|
  {
    if x !in Minimal(s) {
      var y :| y in s && Covers(y, x) && y != x;
      MinimalCovers(s, y);
      var m :| m in Minimal(s) && Covers(m, y);
      CoversTrans(m, y, x);
    } else {
      assert Covers(x, x);
    }
  }

  /** One more path: covered ones are dropped with it, or it is dropped itself. */
  lemma MinimalInsert(s: set<string>, x: string)
    ensures Minimal(s + {x}) ==
            if exists p | p in Minimal(s) :: Covers(p, x) then Minimal(s)
            else (set y | y in Minimal(s) && !Covers(x, y)) + {x}
  {
    if p :| p in Minimal(s) && Covers(p, x) {
      forall y ensures y in Minimal(s + {x}) <==> y in Minimal(s) {
        if y in Minimal(s) && Covers(x, y) { CoversTrans(p, x, y); CoversAntisym(x, y); }
        if y in Minimal(s + {x}) && y == x { assert p == x; }
      }
    } else {
      forall y ensures y in Minimal(s + {x}) <==> y == x || (y in Minimal(s) && !Covers(x, y)) {
        if y == x {
          forall z | z in s + {x} && Covers(z, x) ensures z == x {
            if z in s {
              MinimalCovers(s, z);
              var m :| m in Minimal(s) && Covers(m, z);
              CoversTrans(m, z, x);
            }
          }
        }
      }
    }
  }

  method CoveredByAny(seen: set<string>, path: string) returns (dup: bool)
    ensures dup <==> exists p | p in seen :: Covers(p, path)
  {
    dup := false;
    var rest := seen;
    while rest != {}
      invariant rest <= seen
      invariant forall p | p in seen - rest :: !Covers(p, path)
      decreases rest
    {
      var parent :| parent in rest;
      rest := rest - {parent};
      if path == parent || HasPrefix(path, parent + "/") { return true; }
    }
  }

  method DropCovered(seen: set<string>, path: string) returns (r: set<string>)
    ensures r == set y | y in seen && !Covers(path, y)
  {
    r := seen;
    var rest := seen;
    while rest != {}
      invariant rest <= seen
      invariant r == set y | y in seen && (y in rest || !Covers(path, y))
      decreases rest
    {
      var existing :| existing in rest;
      rest := rest - {existing};
      if existing == path || HasPrefix(existing, path + "/") { r := r - {existing}; }
    }
  }

  /** The result lists the minimal included paths, each once, in string order: an antichain that covers
      every included path. */
  method FindMappingRoots(mappings: seq<Mapping>) returns (out: seq<string>)
    ensures Lists(out, Minimal(Included(mappings))) && Sorted(out, StringLess)
    ensures forall a, b | a in out && b in out && a != b :: !Covers(a, b)
    ensures forall x | x in Included(mappings) :: exists m | m in out :: Covers(m, x)
  {
    var seen: set<string> := {};
    for i := 0 to |mappings|
      invariant seen == Minimal(Included(mappings[..i]))
    {
      IncludedSnoc(mappings, i);
      if Counts(mappings[i]) {
        var rp := TrimSpace(mappings[i].remotePath);
        MinimalInsert(Included(mappings[..i]), rp);
        var dup := CoveredByAny(seen, rp);
        if !dup {
          seen := DropCovered(seen, rp);
          seen := seen + {rp};
        }
      }
    }
    assert mappings[..|mappings|] == mappings;
    StringLessIsTotalOrder();
    out := SortSet(seen, StringLess);
    forall x | x in Included(mappings) ensures exists m | m in out :: Covers(m, x) { MinimalCovers(Included(mappings), x); }
  }

  lemma IncludedSnoc(mappings: seq<Mapping>, i: nat)
    requires i < |mappings|
    ensures Included(mappings[..i + 1]) ==
            Included(mappings[..i]) + if Counts(mappings[i]) then {TrimSpace(mappings[i].remotePath)} else {}
  {
    var a, b := mappings[..i], mappings[..i + 1];
    forall x | x in Included(b) ensures x in Included(a) || (Counts(mappings[i]) && x == TrimSpace(mappings[i].remotePath)) {
      var k :| 0 <= k < |b| && Counts(b[k]) && TrimSpace(b[k].remotePath) == x;
      if k < i { assert a[k] == b[k]; }
    }
    forall x | x in Included(a) ensures x in Included(b) {
      var k :| 0 <= k < |a| && Counts(a[k]) && TrimSpace(a[k].remotePath) == x;
      assert b[k] == a[k];
    }
    if Counts(mappings[i]) { assert b[i] == mappings[i]; }
  }

  /** The order in which the mappings are configured does not show in the result. */
  lemma RootsOrderIndependent(a: seq<Mapping>, b: seq<Mapping>, rootsA: seq<string>, rootsB: seq<string>)
    requires Included(a) == Included(b)
    requires Lists(rootsA, Minimal(Included(a))) && Sorted(rootsA, StringLess)
    requires Lists(rootsB, Minimal(Included(b))) && Sorted(rootsB, StringLess)
    ensures rootsA == rootsB
  {
    StringLessIsTotalOrder();
    SortedListingUnique(rootsA, rootsB, Minimal(Included(a)), StringLess);
  }

  // ---- filterDirectorySnapshot -----------------------------------------------------------------------

  function Clean(path: string): string { "/" + Trim(TrimSpace(path), IsSlash) }

  /** path lies in the cone of some root; a root of slashes only is ignored. */
  predicate InScope(roots: set<string>, path: string) {
    exists r | r in roots :: InCone(r, path)
  }

  predicate InCone(root: string, path: string) { Clean(root) != "/" && Covers(Clean(root), Clean(path)) }

  predicate HasRoot(roots: set<string>) { exists r | r in roots :: Clean(r) != "/" }

  datatype Dept = Dept(id: nat, path: string)

  datatype User = User(id: nat, departmentPath: string, departmentPaths: seq<string>)

  datatype Snapshot = Snapshot(departments: seq<Dept>, users: seq<User>)

  function ScopedPaths(roots: set<string>, paths: seq<string>): seq<string> {
    if paths == [] then []
    else
      var n := |paths| - 1;
      var kept := ScopedPaths(roots, paths[..n]);
      if InScope(roots, paths[n]) then kept + [paths[n]] else kept
  }

  function ScopedDepts(roots: set<string>, departments: seq<Dept>): seq<Dept> {
    if departments == [] then []
    else
      var n := |departments| - 1;
      var kept := ScopedDepts(roots, departments[..n]);
      if InScope(roots, departments[n].path) then kept + [departments[n]] else kept
  }

  function ScopedUsers(roots: set<string>, users: seq<User>): seq<User> {
    if users == [] then []
    else
      var n := |users| - 1;
      var u := users[n];
      var kept := ScopedUsers(roots, users[..n]);
      if InScope(roots, u.departmentPath) then kept + [u.(departmentPaths := ScopedPaths(roots, u.departmentPaths))]
      else kept
  }

  /** No usable root means no filtering. */
  function Filtered(snap: Snapshot, roots: set<string>): Snapshot {
    if !HasRoot(roots) then snap
    else Snapshot(ScopedDepts(roots, snap.departments), ScopedUsers(roots, snap.users))
  }

  method FilterDirectorySnapshot(snap: Snapshot, roots: seq<string>) returns (r: Snapshot)
    ensures r == Filtered(snap, set x | x in roots)
  {
    var all := set x | x in roots;
    if !HasRoot(all) { return snap; }
    var departments := FilterDepts(all, snap.departments);
    var users := FilterUsers(all, snap.users);
    r := Snapshot(departments, users);
  }

  method FilterDepts(all: set<string>, depts: seq<Dept>) returns (kept: seq<Dept>)
    ensures kept == ScopedDepts(all, depts)
  {
    kept := [];
    for i := 0 to |depts|
      invariant kept == ScopedDepts(all, depts[..i])
    {
      assert depts[..i + 1][..i] == depts[..i];
      if InScope(all, depts[i].path) { kept := kept + [depts[i]]; }
    }
    assert depts[..|depts|] == depts;
  }

  method FilterPaths(all: set<string>, paths: seq<string>) returns (kept: seq<string>)
    ensures kept == ScopedPaths(all, paths)
  {
    kept := [];
    for k := 0 to |paths|
      invariant kept == ScopedPaths(all, paths[..k])
    {
      assert paths[..k + 1][..k] == paths[..k];
      if InScope(all, paths[k]) { kept := kept + [paths[k]]; }
    }
    assert paths[..|paths|] == paths;
  }

  method FilterUsers(all: set<string>, users: seq<User>) returns (kept: seq<User>)
    ensures kept == ScopedUsers(all, users)
  {
    kept := [];
    for i := 0 to |users|
      invariant kept == ScopedUsers(all, users[..i])
    {
      assert users[..i + 1][..i] == users[..i];
      var u := users[i];
      if InScope(all, u.departmentPath) {
        var paths := FilterPaths(all, u.departmentPaths);
        kept := kept + [u.(departmentPaths := paths)];
      }
    }
    assert users[..|users|] == users;
  }

  // ---- filtering twice ------------------------------------------------------------------------------------

  lemma {:induction false} ScopedPathsTwice(roots: set<string>, paths: seq<string>)
    ensures ScopedPaths(roots, ScopedPaths(roots, paths)) == ScopedPaths(roots, paths)
  {
    if paths != [] {
      var n := |paths| - 1;
      ScopedPathsTwice(roots, paths[..n]);
      if InScope(roots, paths[n]) {
        var r := ScopedPaths(roots, paths[..n]);
        assert (r + [paths[n]])[..|r|] == r;
      }
    }
  }

  lemma {:induction false} ScopedDeptsTwice(roots: set<string>, departments: seq<Dept>)
    ensures ScopedDepts(roots, ScopedDepts(roots, departments)) == ScopedDepts(roots, departments)
  {
    if departments != [] {
      var n := |departments| - 1;
      ScopedDeptsTwice(roots, departments[..n]);
      if InScope(roots, departments[n].path) {
        var r := ScopedDepts(roots, departments[..n]);
        assert (r + [departments[n]])[..|r|] == r;
      }
    }
  }

  lemma {:induction false} ScopedUsersTwice(roots: set<string>, users: seq<User>)
    ensures ScopedUsers(roots, ScopedUsers(roots, users)) == ScopedUsers(roots, users)
  {
    if users != [] {
      var n := |users| - 1;
      ScopedUsersTwice(roots, users[..n]);
      if InScope(roots, users[n].departmentPath) {
        var r := ScopedUsers(roots, users[..n]);
        var u := users[n].(departmentPaths := ScopedPaths(roots, users[n].departmentPaths));
        ScopedPathsTwice(roots, users[n].departmentPaths);
        assert (r + [u])[..|r|] == r;
      }
    }
  }

  /** Filtering a filtered snapshot changes nothing. */
  lemma FilteringTwice(snap: Snapshot, roots: set<string>)
    ensures Filtered(Filtered(snap, roots), roots) == Filtered(snap, roots)
  {
    ScopedDeptsTwice(roots, snap.departments);
    ScopedUsersTwice(roots, snap.users);
  }

  // ---- pruned roots against the full list ----------------------------------------------------------------

  lemma {:induction false} TrimLeftConcat(a: string, b: string, cut: char -> bool)
    requires TrimLeft(a, cut) != ""
    ensures TrimLeft(a + b, cut) == TrimLeft(a, cut) + b
  {
    if cut(a[0]) {
      assert (a + b)[1..] == a[1..] + b;
      TrimLeftConcat(a[1..], b, cut);
    }
  }

  lemma {:induction false} TrimRightConcat(a: string, b: string, cut: char -> bool)
    ensures TrimRight(a + b, cut) == if TrimRight(b, cut) == "" then TrimRight(a, cut) else a + TrimRight(b, cut)
    decreases |b|
  {
    if b == "" {
      assert a + b == a;
    } else if cut(b[|b| - 1]) {
      assert (a + b)[..|a + b| - 1] == a + b[..|b| - 1];
      TrimRightConcat(a, b[..|b| - 1], cut);
    }
  }

  predicate SlashOnly(path: string) { Clean(path) == "/" }

  /** Appending "/..." to a path that is more than slashes keeps its trimmed form as a prefix. */
  lemma TrimSlashAppend(m: string, w: string)
    requires w != "" && w[0] == '/' && TrimLeft(m, IsSlash) != ""
    ensures Covers("/" + Trim(m, IsSlash), "/" + Trim(m + w, IsSlash))
  {
    var lm := TrimLeft(m, IsSlash);
    var rm, rw := TrimRight(lm, IsSlash), TrimRight(w, IsSlash);
    TrimLeftConcat(m, w, IsSlash);
    TrimRightConcat(lm, w, IsSlash);
    TrimRightIsPrefix(lm, IsSlash);
    TrimRightIsPrefix(w, IsSlash);
    PrefixCovers(lm, rm, rw);
  }

  lemma PrefixCovers(lm: string, rm: string, rw: string)
    requires |rm| <= |lm| && lm[..|rm|] == rm && (forall i | |rm| <= i < |lm| :: IsSlash(lm[i]))
    requires rw != "" ==> rw[0] == '/'
    ensures Covers("/" + rm, "/" + (if rw == "" then rm else lm + rw))
  {
    if rw != "" {
      CoversAppend("/" + rm, lm[|rm|..], rw);
      assert lm == rm + lm[|rm|..];
      assert "/" + (lm + rw) == "/" + rm + lm[|rm|..] + rw;
    }
  }

  lemma CoversAppend(a: string, slashes: string, rest: string)
    requires (forall i | 0 <= i < |slashes| :: IsSlash(slashes[i])) && rest != "" && rest[0] == '/'
    ensures Covers(a, a + slashes + rest)
  {
    var b := a + slashes + rest;
    assert b[|a|] == '/' && b[..|a|] == a;
    assert b[..|a| + 1] == a + "/";
  }

  /** Below a root that is more than slashes, cleaned paths stay below the cleaned root. */
  lemma CleanKeepsCovers(m: string, x: string)
    requires TrimSpace(m) == m && TrimSpace(x) == x && !SlashOnly(m) && Covers(m, x)
    ensures Covers(Clean(m), Clean(x))
  {
    if x != m {
      var w := x[|m|..];
      assert x == m + w && w[0] == x[|m|] == (m + "/")[|m|];
      assert TrimLeft(m, IsSlash) == "" ==> Clean(m) == "/";
      TrimSlashAppend(m, w);
    }
  }

  /** Every included root that is more than slashes is reached by one that no slash-only root hides. */
  predicate NothingHidden(s: set<string>) {
    forall x | x in s && !SlashOnly(x) :: Reached(s, x)
  }

  predicate Reached(s: set<string>, x: string) {
    exists y | y in s :: Unhidden(s, y) && Covers(Clean(y), Clean(x))
  }

  predicate Unhidden(s: set<string>, y: string) {
    !SlashOnly(y) && forall m | m in s && SlashOnly(m) :: !Covers(m, y)
  }

  lemma ReachesKeptRoot(s: set<string>, y: string, path: string)
    requires forall x | x in s :: TrimSpace(x) == x
    requires y in s && Unhidden(s, y) && Covers(Clean(y), Clean(path))
    ensures InScope(Minimal(s), path)
  {
    MinimalCovers(s, y);
    var m :| m in Minimal(s) && Covers(m, y);
    CleanKeepsCovers(m, y);
    CoversTrans(Clean(m), Clean(y), Clean(path));
  }

  /** The pruned roots have the same scope as the full list exactly when nothing is hidden. */
  lemma PrunedScopeIff(s: set<string>)
    requires forall x | x in s :: TrimSpace(x) == x
    ensures (forall path :: InScope(Minimal(s), path) <==> InScope(s, path)) <==> NothingHidden(s)
  {
    if NothingHidden(s) {
      forall path ensures InScope(Minimal(s), path) <==> InScope(s, path) { PrunedScopeKept(s, path); }
    }
    if forall path :: InScope(Minimal(s), path) <==> InScope(s, path) {
      forall x | x in s && !SlashOnly(x) ensures Reached(s, x) {
        assert Covers(Clean(x), Clean(x));
        assert InScope(s, x);
        ScopeNeedsUnhidden(s, x);
      }
    }
  }

  lemma ScopeMonotone(a: set<string>, b: set<string>, path: string)
    requires a <= b && InScope(a, path)
    ensures InScope(b, path)
  {
  }

  lemma PrunedScopeKept(s: set<string>, path: string)
    requires (forall x | x in s :: TrimSpace(x) == x) && NothingHidden(s)
    ensures InScope(Minimal(s), path) <==> InScope(s, path)
  {
    if InScope(Minimal(s), path) {
      ScopeMonotone(Minimal(s), s, path);
    } else if InScope(s, path) {
      FullScopeKept(s, path);
    }
  }

  lemma FullScopeKept(s: set<string>, path: string)
    requires (forall x | x in s :: TrimSpace(x) == x) && NothingHidden(s) && InScope(s, path)
    ensures InScope(Minimal(s), path)
  {
    var x :| x in s && InCone(x, path);
    RootInScope(s, x, path);
  }

  lemma RootInScope(s: set<string>, x: string, path: string)
    requires forall z | z in s :: TrimSpace(z) == z
    requires Reached(s, x)
    requires Covers(Clean(x), Clean(path))
    ensures InScope(Minimal(s), path)
  {
    var y :| y in s && Unhidden(s, y) && Covers(Clean(y), Clean(x));
    CoversTrans(Clean(y), Clean(x), Clean(path));
    ReachesKeptRoot(s, y, path);
  }

  lemma ScopeNeedsUnhidden(s: set<string>, path: string)
    requires InScope(Minimal(s), path)
    ensures Reached(s, path)
  {
    var m :| m in Minimal(s) && InCone(m, path);
    assert Unhidden(s, m);
  }

  lemma {:induction false} SameScopeSamePaths(a: set<string>, b: set<string>, paths: seq<string>)
    requires forall path :: InScope(a, path) <==> InScope(b, path)
    ensures ScopedPaths(a, paths) == ScopedPaths(b, paths)
  {
    if paths != [] { SameScopeSamePaths(a, b, paths[..|paths| - 1]); }
  }

  lemma {:induction false} SameScopeSameDepts(a: set<string>, b: set<string>, departments: seq<Dept>)
    requires forall path :: InScope(a, path) <==> InScope(b, path)
    ensures ScopedDepts(a, departments) == ScopedDepts(b, departments)
  {
    if departments != [] { SameScopeSameDepts(a, b, departments[..|departments| - 1]); }
  }

  lemma {:induction false} SameScopeSameUsers(a: set<string>, b: set<string>, users: seq<User>)
    requires forall path :: InScope(a, path) <==> InScope(b, path)
    ensures ScopedUsers(a, users) == ScopedUsers(b, users)
  {
    if users != [] {
      var n := |users| - 1;
      SameScopeSameUsers(a, b, users[..n]);
      SameScopeSamePaths(a, b, users[n].departmentPaths);
    }
  }

  /** Fetching only the pruned roots keeps the same departments and users as the full list. */
  lemma PrunedRootsFilterAlike(snap: Snapshot, s: set<string>)
    requires (forall x | x in s :: TrimSpace(x) == x) && NothingHidden(s)
    ensures Filtered(snap, Minimal(s)) == Filtered(snap, s)
  {
    PrunedScopeIff(s);
    if x :| x in s && Clean(x) != "/" {
      assert Covers(Clean(x), Clean(x));
      assert InScope(s, x);
      assert InScope(Minimal(s), x);
    }
    assert HasRoot(Minimal(s)) <==> HasRoot(s);
    SameScopeSameDepts(Minimal(s), s, snap.departments);
    SameScopeSameUsers(Minimal(s), s, snap.users);
  }

  function OneDept(path: string): Snapshot { Snapshot([Dept(1, path)], []) }

  lemma OneDeptKeptIff(roots: set<string>, path: string)
    requires HasRoot(roots)
    ensures Filtered(OneDept(path), roots) == OneDept(path) <==> InScope(roots, path)
  {
    var d := Dept(1, path);
    assert [d][..0] == [] && ScopedDepts(roots, []) == [];
    assert ScopedDepts(roots, [d]) == if InScope(roots, path) then [d] else [];
  }

  /** A hidden root shows in the filter: a lone department at it is kept by the full list alone; or, when the
      pruned list has no usable root and so filters nothing, one at "" is kept by the pruned list alone. */
  lemma HiddenRootShows(s: set<string>, x: string)
    requires (forall y | y in s :: TrimSpace(y) == y) && x in s && !SlashOnly(x) && !Reached(s, x)
    ensures exists snap :: Filtered(snap, Minimal(s)) != Filtered(snap, s)
  {
    assert InScope(s, x) by { assert Covers(Clean(x), Clean(x)); }
    if HasRoot(Minimal(s)) {
      if InScope(Minimal(s), x) { ScopeNeedsUnhidden(s, x); }
      OneDeptKeptIff(Minimal(s), x);
      OneDeptKeptIff(s, x);
      assert Filtered(OneDept(x), Minimal(s)) != Filtered(OneDept(x), s);
    } else {
      NothingBelowRootsIsEmpty(s);
      OneDeptKeptIff(s, "");
      assert Filtered(OneDept(""), Minimal(s)) != Filtered(OneDept(""), s);
    }
  }

  lemma NothingBelowRootsIsEmpty(s: set<string>)
    ensures !InScope(s, "")
  {
    assert Clean("") == "/";
  }

  /** Over all snapshots, the pruned roots filter as the full list does exactly when nothing is hidden. */
  lemma PrunedFilterIff(s: set<string>)
    requires forall x | x in s :: TrimSpace(x) == x
    ensures (forall snap :: Filtered(snap, Minimal(s)) == Filtered(snap, s)) <==> NothingHidden(s)
  {
    if NothingHidden(s) {
      forall snap ensures Filtered(snap, Minimal(s)) == Filtered(snap, s) { PrunedRootsFilterAlike(snap, s); }
    } else {
      var x :| x in s && !SlashOnly(x) && !Reached(s, x);
      HiddenRootShows(s, x);
    }
  }

  lemma NoSlashRootHidesNothing(s: set<string>)
    requires forall x | x in s :: !SlashOnly(x)
    ensures NothingHidden(s)
  {
    forall x | x in s ensures Reached(s, x) {
      assert Unhidden(s, x) && Covers(Clean(x), Clean(x));
    }
  }

  /** In particular the two filter alike when no included path is made of slashes only, as no normalised path
      is. */
  lemma NormalisedRootsFilterAlike(snap: Snapshot, s: set<string>)
    requires forall x | x in s :: TrimSpace(x) == x && !SlashOnly(x)
    ensures Filtered(snap, Minimal(s)) == Filtered(snap, s)
  {
    NoSlashRootHidesNothing(s);
    PrunedRootsFilterAlike(snap, s);
  }

  /** The failing family, such as "/" with "//b": slash-only roots above all the others. The pruned list
      then keeps slash-only roots alone and filters nothing at all. */
  lemma SlashRootsHideTheRest(s: set<string>, x: string, snap: Snapshot)
    requires x in s && !SlashOnly(x)
    requires forall y | y in s && !SlashOnly(y) :: exists m | m in s :: SlashOnly(m) && Covers(m, y)
    ensures !NothingHidden(s)
    ensures HasRoot(s) && Filtered(snap, Minimal(s)) == snap
  {
    forall y | y in s ensures !Unhidden(s, y) {
    }
    forall y | y in Minimal(s) ensures SlashOnly(y) {
    }
  }

  lemma SlashesAreNoSpace()
    ensures !IsSpace('/') && !IsSpace('b') && !IsSpace('c')
  {
  }

  lemma CleanedTexts()
    ensures Clean("/") == "/" && Clean("//b") == "/b" && Clean("/c") == "/c"
  {
    SlashesAreNoSpace();
    TrimFixed("/", IsSpace);
    TrimFixed("//b", IsSpace);
    TrimFixed("/c", IsSpace);
    assert "/"[1..] == "" && "//b"[1..] == "/b" && "/b"[1..] == "b" && "/c"[1..] == "c";
    assert TrimLeft("/", IsSlash) == "";
    assert TrimLeft("b", IsSlash) == "b" && TrimLeft("/b", IsSlash) == "b" && TrimLeft("//b", IsSlash) == "b";
    assert TrimLeft("c", IsSlash) == "c" && TrimLeft("/c", IsSlash) == "c";
    assert TrimRight("b", IsSlash) == "b" && TrimRight("c", IsSlash) == "c";
  }

  lemma COutOfScope()
    ensures !InScope({"/", "//b"}, "/c") && HasRoot({"/", "//b"})
  {
    CleanedTexts();
    assert "/c"[1] != "/b"[1];
    assert "//b" in {"/", "//b"};
  }

  lemma SlashCoversB()
    ensures Covers("/", "//b") && SlashOnly("/") && !SlashOnly("//b")
  {
    CleanedTexts();
    assert "//b"[..2] == "/" + "/";
  }

  lemma OneDeptFiltered(d: Dept, roots: set<string>)
    requires HasRoot(roots) && !InScope(roots, d.path)
    ensures Filtered(Snapshot([d], []), roots).departments == []
  {
    assert [d][..0] == [];
    assert ScopedDepts(roots, [d]) == ScopedDepts(roots, []);
  }

  /** Concretely: with "/" and "//b" mapped, the department "/c" is out of scope of the full list and kept
      by the pruned one. */
  lemma SlashHidesB()
    ensures var s := {"/", "//b"};
      var snap := Snapshot([Dept(1, "/c")], []);
      && Filtered(snap, s).departments == [] && Filtered(snap, Minimal(s)) == snap && !NothingHidden(s)
  {
    var s := {"/", "//b"};
    COutOfScope();
    OneDeptFiltered(Dept(1, "/c"), s);
    SlashCoversB();
    assert "/" in s && "//b" in s;
    forall y | y in s && !SlashOnly(y) ensures exists m | m in s :: SlashOnly(m) && Covers(m, y) {
      assert y == "//b";
    }
    SlashRootsHideTheRest(s, "//b", Snapshot([Dept(1, "/c")], []));
  }

  // ---- what the filter keeps, written out ----------------------------------------------------------------------

  /** Without outer spaces, and then without outer slashes. */
  function Bare(path: string): string { Trim(TrimSpace(path), IsSlash) }

  /** The path is a root, or starts with one and a slash; roots that are bare of text do not count. */
  predicate AtOrBelow(roots: set<string>, path: string) {
    exists r | r in roots :: BareBelow(Bare(r), Bare(path))
  }

  predicate BareBelow(root: string, path: string) {
    root != "" && (path == root || (|path| > |root| && path[..|root|] == root && path[|root|] == '/'))
  }

  lemma InScopeIs(roots: set<string>, path: string)
    ensures InScope(roots, path) <==> AtOrBelow(roots, path)
  {
    forall r | r in roots ensures InCone(r, path) <==> BareBelow(Bare(r), Bare(path)) { SlashInFront(Bare(r), Bare(path)); }
  }

  lemma SlashInFront(root: string, path: string)
    ensures ("/" + root != "/" && Covers("/" + root, "/" + path)) <==> BareBelow(root, path)
  {
    var a, b := "/" + root, "/" + path;
    assert a[1..] == root && b[1..] == path;
    if HasPrefix(b, a + "/") {
      assert b[..|a|] == a && b[|a|] == (a + "/")[|a|];
      assert path[..|root|] == b[..|a|][1..];
    }
    if BareBelow(root, path) && path != root { assert b[..|a| + 1] == a + "/"; }
  }

  lemma HasRootIs(roots: set<string>)
    ensures HasRoot(roots) <==> exists r | r in roots :: Bare(r) != ""
  {
    forall r | r in roots ensures Clean(r) != "/" <==> Bare(r) != "" { assert ("/" + Bare(r))[1..] == Bare(r); }
  }

  /** A list is filtered piece by piece. */
  lemma {:induction false} ScopedPathsConcat(roots: set<string>, a: seq<string>, b: seq<string>)
    ensures ScopedPaths(roots, a + b) == ScopedPaths(roots, a) + ScopedPaths(roots, b)
    decreases |b|
  {
    if b == [] {
      assert a + b == a;
    } else {
      assert (a + b)[..|a + b| - 1] == a + b[..|b| - 1];
      ScopedPathsConcat(roots, a, b[..|b| - 1]);
    }
  }

  lemma {:induction false} ScopedDeptsConcat(roots: set<string>, a: seq<Dept>, b: seq<Dept>)
    ensures ScopedDepts(roots, a + b) == ScopedDepts(roots, a) + ScopedDepts(roots, b)
    decreases |b|
  {
    if b == [] {
      assert a + b == a;
    } else {
      assert (a + b)[..|a + b| - 1] == a + b[..|b| - 1];
      ScopedDeptsConcat(roots, a, b[..|b| - 1]);
    }
  }

  lemma {:induction false} ScopedUsersConcat(roots: set<string>, a: seq<User>, b: seq<User>)
    ensures ScopedUsers(roots, a + b) == ScopedUsers(roots, a) + ScopedUsers(roots, b)
    decreases |b|
  {
    if b == [] {
      assert a + b == a;
    } else {
      assert (a + b)[..|a + b| - 1] == a + b[..|b| - 1];
      ScopedUsersConcat(roots, a, b[..|b| - 1]);
    }
  }

  /** Of a user's paths exactly those at or below a root are kept. */
  lemma {:induction false} PathsKept(roots: set<string>, paths: seq<string>, q: string)
    ensures q in ScopedPaths(roots, paths) <==> q in paths && AtOrBelow(roots, q)
  {
    if paths != [] {
      var n := |paths| - 1;
      PathsKept(roots, paths[..n], q);
      InScopeIs(roots, paths[n]);
      assert paths == paths[..n] + [paths[n]];
    }
  }

  /** One department, or one user, is kept exactly if its path, or main path, is at or below a root; a kept user
      loses the paths that are not. Without a root that is more than spaces and slashes all are kept. */
  lemma OneKept(roots: set<string>, d: Dept, u: User)
    ensures var kept := Filtered(Snapshot([d], [u]), roots);
      if forall r | r in roots :: Bare(r) == "" then kept == Snapshot([d], [u])
      else
        && kept.departments == (if AtOrBelow(roots, d.path) then [d] else [])
        && (!AtOrBelow(roots, u.departmentPath) ==> kept.users == [])
        && (AtOrBelow(roots, u.departmentPath) ==>
              && |kept.users| == 1 && kept.users[0].id == u.id && kept.users[0].departmentPath == u.departmentPath
              && forall q :: q in kept.users[0].departmentPaths <==> q in u.departmentPaths && AtOrBelow(roots, q))
  {
    HasRootIs(roots);
    InScopeIs(roots, d.path);
    InScopeIs(roots, u.departmentPath);
    forall q ensures q in ScopedPaths(roots, u.departmentPaths) <==> q in u.departmentPaths && AtOrBelow(roots, q) {
      PathsKept(roots, u.departmentPaths, q);
    }
    assert [d][..0] == [] && [u][..0] == [];
    assert ScopedDepts(roots, []) == [] && ScopedUsers(roots, []) == [];
    assert ScopedDepts(roots, [d]) == if InScope(roots, d.path) then [d] else [];
    assert ScopedUsers(roots, [u]) == if InScope(roots, u.departmentPath)
                                      then [u.(departmentPaths := ScopedPaths(roots, u.departmentPaths))] else [];
  }

  /** Departments and users are filtered one by one, in order. */
  lemma FilteredInOrder(roots: set<string>, a: Snapshot, b: Snapshot)
    ensures var whole, x, y := Filtered(Snapshot(a.departments + b.departments, a.users + b.users), roots),
                               Filtered(a, roots), Filtered(b, roots);
      whole == Snapshot(x.departments + y.departments, x.users + y.users)
  {
    ScopedDeptsConcat(roots, a.departments, b.departments);
    ScopedUsersConcat(roots, a.users, b.users);
  }
}
