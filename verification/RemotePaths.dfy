/** The department paths a remote snapshot mentions: how they are collected, and the order in which
    the sync processes them. */
module RemotePaths {
  import opened DeptPaths
  import opened Sorting

  datatype RemoteDept = RemoteDept(path: string, departmentPath: string, externalID: string, id: string)

  datatype RemoteUser = RemoteUser(departmentPath: string, departmentPaths: seq<string>)

  datatype Snapshot = Snapshot(departments: seq<RemoteDept>, users: seq<RemoteUser>)

  function FirstNonEmpty(a: string, b: string): string {
    if TrimSpace(a) != "" then TrimSpace(a) else TrimSpace(b)
  }

  // ---- the collected paths ---------------------------------------------------------------------

  function DeptPath(d: RemoteDept): string { FirstNonEmpty(d.path, d.departmentPath) }

  function RawDeptPaths(departments: seq<RemoteDept>): seq<string> {
    if departments == [] then []
    else RawDeptPaths(departments[..|departments| - 1]) + [DeptPath(departments[|departments| - 1])]
  }

  function RawUserPaths(users: seq<RemoteUser>): seq<string> {
    if users == [] then []
    else
      var u := users[|users| - 1];
      RawUserPaths(users[..|users| - 1]) + u.departmentPaths + [u.departmentPath]
  }

  /** Every path the snapshot mentions, with all its ancestors. */
  function Collected(raws: seq<string>, strip: string): set<string> {
    if raws == [] then {}
    else Collected(raws[..|raws| - 1], strip) + Prefixes(LocalDepartmentPath(raws[|raws| - 1], strip))
  }

  function SnapshotPaths(snap: Snapshot, strip: string): set<string> {
    Collected(RawDeptPaths(snap.departments) + RawUserPaths(snap.users), strip)
  }

  /** A path and its ancestors, from the path up. */
  lemma PrefixesUnfold(path: string)
    requires path != ""
    ensures Prefixes(path) == {path} + Prefixes(ParentPath(path)) && |ParentPath(path)| < |path|
  {
  }

  lemma AddFirst<T>(r: set<T>, x: T, rest: set<T>)
    ensures r + ({x} + rest) == (r + {x}) + rest
  {
  }

  /** A path and its ancestors, added from the path up. */
  method AddPrefixes(paths: set<string>, start: string) returns (r: set<string>)
    ensures r == paths + Prefixes(start)
  {
    r := paths;
    var path := start;
    ghost var all := paths + Prefixes(start);
    while path != ""
      invariant all == r + Prefixes(path)
      decreases |path|
    {
      PrefixesUnfold(path);
      AddFirst(r, path, Prefixes(ParentPath(path)));
      r := r + {path};
      path := ParentPath(path);
    }
  }

  /** The source's add closure: one more raw path. */
  method Add(paths: set<string>, raw: string, strip: string, ghost raws: seq<string>) returns (r: set<string>)
    requires paths == Collected(raws, strip)
    ensures r == Collected(raws + [raw], strip)
  {
    assert (raws + [raw])[..|raws|] == raws;
    r := AddPrefixes(paths, LocalDepartmentPath(raw, strip));
  }

  method AddUser(paths: set<string>, u: RemoteUser, strip: string, ghost raws: seq<string>) returns (r: set<string>)
    requires paths == Collected(raws, strip)
    ensures r == Collected(raws + u.departmentPaths + [u.departmentPath], strip)
  {
    r := AddAll(paths, u.departmentPaths, strip, raws);
    r := Add(r, u.departmentPath, strip, raws + u.departmentPaths);
  }

  method AddAll(paths: set<string>, more: seq<string>, strip: string, ghost raws: seq<string>) returns (r: set<string>)
    requires paths == Collected(raws, strip)
    ensures r == Collected(raws + more, strip)
  {
    r := paths;
    AllRaws(raws, more);
    for k := 0 to |more|
      invariant r == Collected(FirstRaws(raws, more, k), strip)
    {
      NextRaw(raws, more, k);
      r := Add(r, more[k], strip, FirstRaws(raws, more, k));
    }
  }

  function FirstRaws(raws: seq<string>, more: seq<string>, k: nat): seq<string>
    requires k <= |more|
  {
    raws + more[..k]
  }

  lemma NextRaw(raws: seq<string>, more: seq<string>, k: nat)
    requires k < |more|
    ensures FirstRaws(raws, more, k) + [more[k]] == FirstRaws(raws, more, k + 1)
  {
  }

  lemma AllRaws(raws: seq<string>, more: seq<string>)
    ensures FirstRaws(raws, more, 0) == raws && FirstRaws(raws, more, |more|) == raws + more
  {
    assert more[..|more|] == more;
  }

  method CollectDepartments(depts: seq<RemoteDept>, strip: string) returns (paths: set<string>)
    ensures paths == Collected(RawDeptPaths(depts), strip)
  {
    paths := {};
    for i := 0 to |depts|
      invariant paths == Collected(RawDeptPaths(depts[..i]), strip)
    {
      assert depts[..i + 1][..i] == depts[..i];
      paths := Add(paths, DeptPath(depts[i]), strip, RawDeptPaths(depts[..i]));
    }
    assert depts[..|depts|] == depts;
  }

  /** Every department and user path of the snapshot, stripped of the prefix, with all its ancestors. */
  method CollectRemoteDepartmentPaths(snap: Snapshot, strip: string) returns (paths: set<string>)
    ensures paths == SnapshotPaths(snap, strip)
    ensures forall p :: p in paths <==> Mentioned(snap, strip, p)
  {
    paths := CollectDepartments(snap.departments, strip);
    var users := snap.users;
    ghost var raws := RawDeptPaths(snap.departments);
    assert raws + RawUserPaths(users[..0]) == raws;
    for i := 0 to |users|
      invariant paths == Collected(raws + RawUserPaths(users[..i]), strip)
    {
      RawUserPathsSnoc(raws, users, i);
      paths := AddUser(paths, users[i], strip, raws + RawUserPaths(users[..i]));
    }
    assert users[..|users|] == users;
    forall p ensures p in paths <==> Mentioned(snap, strip, p) { MentionedIff(snap, strip, p); }
  }

  /** Some department, or some user as the main path or among the others, leaves p. */
  ghost predicate Mentioned(snap: Snapshot, strip: string, p: string) {
    || (exists d | d in snap.departments ::
          Leaves(if TrimSpace(d.path) != "" then TrimSpace(d.path) else TrimSpace(d.departmentPath), strip, p))
    || (exists u | u in snap.users :: UserMentions(u, strip, p))
  }

  ghost predicate UserMentions(u: RemoteUser, strip: string, p: string) {
    Leaves(u.departmentPath, strip, p) || exists raw | raw in u.departmentPaths :: Leaves(raw, strip, p)
  }

  lemma RawUserPathsSnoc(raws: seq<string>, users: seq<RemoteUser>, i: nat)
    requires i < |users|
    ensures raws + RawUserPaths(users[..i + 1])
         == raws + RawUserPaths(users[..i]) + users[i].departmentPaths + [users[i].departmentPath]
  {
    assert users[..i + 1][..i] == users[..i];
  }

  lemma {:induction false} RawDeptPathsIff(departments: seq<RemoteDept>, raw: string)
    ensures raw in RawDeptPaths(departments) <==> exists d | d in departments ::
              raw == if TrimSpace(d.path) != "" then TrimSpace(d.path) else TrimSpace(d.departmentPath)
  {
    if departments != [] {
      var n := |departments| - 1;
      RawDeptPathsIff(departments[..n], raw);
      assert departments == departments[..n] + [departments[n]];
    }
  }

  lemma {:induction false} RawUserPathsIff(users: seq<RemoteUser>, raw: string)
    ensures raw in RawUserPaths(users) <==> exists u | u in users :: raw == u.departmentPath || raw in u.departmentPaths
  {
    if users != [] {
      var n := |users| - 1;
      RawUserPathsIff(users[..n], raw);
      assert users == users[..n] + [users[n]];
    }
  }

  lemma MentionedIff(snap: Snapshot, strip: string, p: string)
    ensures p in SnapshotPaths(snap, strip) <==> Mentioned(snap, strip, p)
  {
    var depts, users := RawDeptPaths(snap.departments), RawUserPaths(snap.users);
    CollectedIff(depts + users, strip, p);
    if raw :| raw in depts + users && Leaves(raw, strip, p) {
      RawDeptPathsIff(snap.departments, raw);
      RawUserPathsIff(snap.users, raw);
    }
    if d :| d in snap.departments
            && Leaves(if TrimSpace(d.path) != "" then TrimSpace(d.path) else TrimSpace(d.departmentPath), strip, p) {
      RawDeptPathsIff(snap.departments, if TrimSpace(d.path) != "" then TrimSpace(d.path) else TrimSpace(d.departmentPath));
    }
    if u :| u in snap.users && UserMentions(u, strip, p) {
      var raw :| (raw == u.departmentPath || raw in u.departmentPaths) && Leaves(raw, strip, p);
      RawUserPathsIff(snap.users, raw);
    }
  }

  /** p is what the raw path leaves of the stripped prefix, or an ancestor of that. */
  ghost predicate Leaves(raw: string, strip: string, p: string) {
    exists local | Strips(TrimSlashes(raw), TrimSlashes(strip), local) :: p in Prefixes(local)
  }

  lemma LeavesLocal(raw: string, strip: string, p: string)
    ensures Leaves(raw, strip, p) <==> p in Prefixes(LocalDepartmentPath(raw, strip))
  {
    LocalPathStrips(raw, strip);
    if Leaves(raw, strip, p) {
      var local :| Strips(TrimSlashes(raw), TrimSlashes(strip), local) && p in Prefixes(local);
      StripsOne(TrimSlashes(raw), TrimSlashes(strip), local, LocalDepartmentPath(raw, strip));
    }
  }

  lemma CollectedSnoc(raws: seq<string>, strip: string, p: string)
    requires raws != []
    ensures var n := |raws| - 1;
      p in Collected(raws, strip) <==> p in Collected(raws[..n], strip) || Leaves(raws[n], strip, p)
  {
    LeavesLocal(raws[|raws| - 1], strip, p);
  }

  /** A path is collected exactly when some raw path leaves it. */
  lemma {:induction false} CollectedIff(raws: seq<string>, strip: string, p: string)
    ensures p in Collected(raws, strip) <==> SomeLeaves(raws, strip, p)
  {
    if raws != [] {
      var n := |raws| - 1;
      CollectedIff(raws[..n], strip, p);
      CollectedSnoc(raws, strip, p);
      SomeLeavesSnoc(raws, strip, p);
    }
  }

  ghost predicate SomeLeaves(raws: seq<string>, strip: string, p: string) {
    exists raw | raw in raws :: Leaves(raw, strip, p)
  }

  lemma SomeLeavesSnoc(raws: seq<string>, strip: string, p: string)
    requires raws != []
    ensures var n := |raws| - 1;
      SomeLeaves(raws, strip, p) <==> SomeLeaves(raws[..n], strip, p) || Leaves(raws[n], strip, p)
  {
    var n := |raws| - 1;
    if raw :| raw in raws && Leaves(raw, strip, p) { assert raw in raws[..n] || raw == raws[n]; }
    if raw :| raw in raws[..n] && Leaves(raw, strip, p) { assert raw in raws; }
    assert raws[n] in raws;
  }

  /** On raw paths with trimmed segments the stripped prefix, or a path below it, is collected exactly when a
      raw path says the prefix twice over. */
  lemma PrefixSaidTwice(raws: seq<string>, strip: string)
    requires TrimSlashes(strip) != "" && forall raw | raw in raws :: Tight(raw)
    ensures var prefix := TrimSlashes(strip);
      (exists p | p in Collected(raws, strip) :: Covers(prefix, p))
      <==> exists raw | raw in raws :: Covers(prefix + "/" + prefix, TrimSlashes(raw))
  {
    var prefix := TrimSlashes(strip);
    if p :| p in Collected(raws, strip) && Covers(prefix, p) {
      CollectedIff(raws, strip, p);
      var raw :| raw in raws && Leaves(raw, strip, p);
      SaysTwice(raw, strip, p);
    }
    if raw :| raw in raws && Covers(prefix + "/" + prefix, TrimSlashes(raw)) {
      TwiceLeavesPrefix(raw, strip);
      CollectedIff(raws, strip, prefix);
      assert Covers(prefix, prefix);
    }
  }

  lemma SaysTwice(raw: string, strip: string, p: string)
    requires Tight(raw) && TrimSlashes(strip) != "" && Leaves(raw, strip, p) && Covers(TrimSlashes(strip), p)
    ensures Covers(TrimSlashes(strip) + "/" + TrimSlashes(strip), TrimSlashes(raw))
  {
    var prefix, local := TrimSlashes(strip), LocalDepartmentPath(raw, strip);
    LeavesLocal(raw, strip, p);
    LocalPathStrips(raw, strip);
    NeatLocalPath(raw, strip);
    PrefixesAreCovers(local, p);
    CoversTrans(prefix, p, local);
    SaidTwice(prefix, local);
  }

  lemma TwiceLeavesPrefix(raw: string, strip: string)
    requires Tight(raw) && TrimSlashes(strip) != "" && Covers(TrimSlashes(strip) + "/" + TrimSlashes(strip), TrimSlashes(raw))
    ensures Leaves(raw, strip, TrimSlashes(strip))
  {
    var prefix, local := TrimSlashes(strip), LocalDepartmentPath(raw, strip);
    var twice := prefix + "/" + prefix;
    assert Covers(prefix, twice) by { assert twice[..|prefix| + 1] == prefix + "/"; }
    CoversTrans(prefix, twice, TrimSlashes(raw));
    LocalPathStrips(raw, strip);
    NeatLocalPath(raw, strip);
    assert TrimSlashes(raw) != prefix;
    assert local == TrimSlashes(raw)[|prefix| + 1..];
    assert Covers(prefix, local) by {
      if TrimSlashes(raw) != twice { assert local[..|prefix| + 1] == (twice + "/")[|prefix| + 1..] == prefix + "/"; }
    }
    PrefixesAreCovers(local, prefix);
    LeavesLocal(raw, strip, prefix);
  }

  lemma SaidTwice(prefix: string, local: string)
    requires Covers(prefix, local)
    ensures Covers(prefix + "/" + prefix, prefix + "/" + local)
  {
    if local != prefix {
      var twice := prefix + "/" + prefix;
      assert local == prefix + "/" + local[|prefix| + 1..];
      assert prefix + "/" + local == twice + "/" + local[|prefix| + 1..];
    }
  }

  lemma {:induction false} CollectedHas(raws: seq<string>, strip: string, raw: string)
    requires raw in raws
    ensures Prefixes(LocalDepartmentPath(raw, strip)) <= Collected(raws, strip)
  {
    var n := |raws| - 1;
    if raw != raws[n] { CollectedHas(raws[..n], strip, raw); }
  }

  lemma {:induction false} DeptPathListed(departments: seq<RemoteDept>, d: RemoteDept)
    requires d in departments
    ensures DeptPath(d) in RawDeptPaths(departments)
  {
    var n := |departments| - 1;
    if d != departments[n] { DeptPathListed(departments[..n], d); }
  }

  /** The local path of every remote department is collected. */
  lemma DeptPathCollected(snap: Snapshot, strip: string, d: RemoteDept)
    requires d in snap.departments && LocalDepartmentPath(DeptPath(d), strip) != ""
    ensures LocalDepartmentPath(DeptPath(d), strip) in SnapshotPaths(snap, strip)
  {
    DeptPathListed(snap.departments, d);
    CollectedHas(RawDeptPaths(snap.departments) + RawUserPaths(snap.users), strip, DeptPath(d));
  }

  /** Collected paths are non-empty and closed under taking the parent. */
  lemma {:induction false} CollectedClosed(raws: seq<string>, strip: string, p: string)
    requires p in Collected(raws, strip)
    ensures p != ""
    ensures ParentPath(p) != "" ==> ParentPath(p) in Collected(raws, strip)
  {
    var n := |raws| - 1;
    if p in Collected(raws[..n], strip) {
      CollectedClosed(raws[..n], strip, p);
    } else {
      PrefixesClosed(LocalDepartmentPath(raws[n], strip), p);
    }
  }

  // ---- their order --------------------------------------------------------------------------------

  /** Shallow first, then by string. */
  predicate PathLess(a: string, b: string) {
    PathDepth(a) < PathDepth(b) || (PathDepth(a) == PathDepth(b) && StringLess(a, b))
  }

  lemma PathLessIsTotalOrder()
    ensures WeakOrder(PathLess)
    ensures forall x, y :: PathLess(x, y) || PathLess(y, x) || x == y
  {
    StringLessIsTotalOrder();
  }

  /** The one order in which the source processes a set of paths. */
  ghost predicate Processes(paths: seq<string>, all: set<string>) {
    Sorted(paths, PathLess) && Lists(paths, all)
  }

  lemma ProcessingOrderUnique(a: seq<string>, b: seq<string>, all: set<string>)
    requires Processes(a, all) && Processes(b, all)
    ensures a == b
  {
    PathLessIsTotalOrder();
    SortedListingUnique(a, b, all, PathLess);
  }

  /** Of two paths the shallower is processed first, of two equally deep ones the smaller string. */
  lemma ProcessingOrderSays(paths: seq<string>, all: set<string>, i: nat, j: nat)
    requires Processes(paths, all) && i < j < |paths|
    ensures PathDepth(paths[i]) <= PathDepth(paths[j])
    ensures PathDepth(paths[i]) == PathDepth(paths[j]) ==> exists k: nat :: FirstBelowAt(paths[i], paths[j], k)
  {
    StringLessIsTotalOrder();
    assert paths[i] != paths[j];
    StringLessIff(paths[i], paths[j]);
  }

  method SortedPaths(snap: Snapshot, strip: string) returns (paths: seq<string>)
    ensures Processes(paths, SnapshotPaths(snap, strip))
  {
    var all := CollectRemoteDepartmentPaths(snap, strip);
    PathLessIsTotalOrder();
    paths := SortSet(all, PathLess);
  }
}
