/** The automatic sync from snapshot to tables: building the binding keys, laying the departments
    out, and the follow-up pass that counts matches and binds every path. */
module DirectorySync {
  import opened Options
  import opened Sorting
  import opened DeptPaths
  import opened DeptForest
  import opened DeptIndex
  import opened RemotePaths
  import opened AutoSync
  import opened AutoSyncExact
  import opened AutoSyncRerun

  // ---- paths with their keys ---------------------------------------------------------------------------

  /** The remote department recorded for each path; a later one replaces an earlier one. */
  function RemoteByPath(departments: seq<RemoteDept>, strip: string): map<string, RemoteDept> {
    if departments == [] then map[]
    else
      var d := departments[|departments| - 1];
      var earlier := RemoteByPath(departments[..|departments| - 1], strip);
      var path := LocalDepartmentPath(DeptPath(d), strip);
      if path != "" then earlier[path := d] else earlier
  }

  function ExternalID(remotes: map<string, RemoteDept>, path: string): string {
    if path in remotes then FirstNonEmpty(remotes[path].externalID, remotes[path].id) else ""
  }

  function BindingKey(remotes: map<string, RemoteDept>, path: string): string {
    if ExternalID(remotes, path) != "" then "id:" + ExternalID(remotes, path) else "path:" + path
  }

  function ItemOf(remotes: map<string, RemoteDept>, path: string): Item {
    Item(path, ParentPath(path), LeafName(path), BindingKey(remotes, path))
  }

  function ItemsOf(remotes: map<string, RemoteDept>, paths: seq<string>): (items: seq<Item>)
    ensures |items| == |paths| && forall i | 0 <= i < |paths| :: items[i] == ItemOf(remotes, paths[i])
  {
    seq(|paths|, i requires 0 <= i < |paths| => ItemOf(remotes, paths[i]))
  }

  lemma ParentComesFirst(paths: seq<string>, all: set<string>, i: nat) returns (j: nat)
    requires Processes(paths, all) && i < |paths| && ParentPath(paths[i]) in all && ParentPath(paths[i]) != ""
    ensures j < i && paths[j] == ParentPath(paths[i])
  {
    assert ParentPath(paths[i]) in paths;
    j :| 0 <= j < |paths| && paths[j] == ParentPath(paths[i]);
    ParentIsShallower(paths[i]);
    assert PathLess(paths[j], paths[i]);
  }

  /** Processing order lists every path once and its parent before it. */
  lemma ItemsWellOrdered(remotes: map<string, RemoteDept>, raws: seq<string>, strip: string, paths: seq<string>)
    requires Processes(paths, Collected(raws, strip))
    ensures WellOrdered(ItemsOf(remotes, paths))
  {
    var items := ItemsOf(remotes, paths);
    forall i | 0 <= i < |items| ensures items[i].path != "" && ParentListed(items, i) {
      assert paths[i] in paths;
      CollectedClosed(raws, strip, paths[i]);
      if ParentPath(paths[i]) != "" {
        var j := ParentComesFirst(paths, Collected(raws, strip), i);
        assert items[j].path == items[i].parent;
      }
    }
  }

  /** Distinct external ids give distinct binding keys. */
  lemma DistinctIDsGiveDistinctKeys(remotes: map<string, RemoteDept>, all: set<string>, paths: seq<string>)
    requires Processes(paths, all)
    requires forall p, q | p in all && q in all && p != q && ExternalID(remotes, p) != "" ::
               ExternalID(remotes, p) != ExternalID(remotes, q)
    ensures DistinctKeys(ItemsOf(remotes, paths))
  {
    var items := ItemsOf(remotes, paths);
    forall i, j | 0 <= i < j < |items| ensures items[i].key != items[j].key {
      assert paths[i] in paths && paths[j] in paths;
      KeysDiffer(remotes, paths[i], paths[j]);
    }
  }

  lemma KeysDiffer(remotes: map<string, RemoteDept>, p: string, q: string)
    requires p != q
    requires ExternalID(remotes, p) != "" ==> ExternalID(remotes, p) != ExternalID(remotes, q)
    requires ExternalID(remotes, q) != "" ==> ExternalID(remotes, p) != ExternalID(remotes, q)
    ensures BindingKey(remotes, p) != BindingKey(remotes, q)
  {
    var a, b := BindingKey(remotes, p), BindingKey(remotes, q);
    if ExternalID(remotes, p) != "" && ExternalID(remotes, q) != "" {
      assert a[3..] == ExternalID(remotes, p) && b[3..] == ExternalID(remotes, q);
    } else if ExternalID(remotes, p) == "" && ExternalID(remotes, q) == "" {
      assert a[5..] == p && b[5..] == q;
    } else {
      assert a[0] != b[0];
    }
  }

  /** The department's own path, or the alternative one. */
  predicate SaysPath(d: RemoteDept, strip: string, p: string) {
    p != "" && LocalDepartmentPath(if TrimSpace(d.path) != "" then TrimSpace(d.path) else TrimSpace(d.departmentPath), strip) == p
  }

  predicate LastSaying(departments: seq<RemoteDept>, strip: string, p: string, i: nat) {
    LastWith(departments, (d: RemoteDept) => SaysPath(d, strip, p), i)
  }

  lemma {:induction false} RemoteIsLast(departments: seq<RemoteDept>, strip: string, p: string)
    ensures var remotes := RemoteByPath(departments, strip);
      && (p in remotes <==> exists i: nat :: LastSaying(departments, strip, p, i))
      && (p in remotes ==> forall i: nat | LastSaying(departments, strip, p, i) :: remotes[p] == departments[i])
  {
    if departments != [] {
      var n := |departments| - 1;
      RemoteIsLast(departments[..n], strip, p);
      if SaysPath(departments[n], strip, p) {
        assert LastSaying(departments, strip, p, n);
      } else {
        forall i: nat ensures LastSaying(departments, strip, p, i) <==> LastSaying(departments[..n], strip, p, i) {
          LastWithSnoc(departments, (d: RemoteDept) => SaysPath(d, strip, p), i);
        }
      }
    }
  }

  /** The binding key of a path: "id:" and the external id, or else the id, of the last department of that path if
      one of the two is not blank; otherwise "path:" and the path. */
  lemma BindingKeySays(departments: seq<RemoteDept>, strip: string, p: string)
    ensures var key := BindingKey(RemoteByPath(departments, strip), p);
      && (forall i: nat | LastSaying(departments, strip, p, i) :: key ==
            if TrimSpace(departments[i].externalID) != "" then "id:" + TrimSpace(departments[i].externalID)
            else if TrimSpace(departments[i].id) != "" then "id:" + TrimSpace(departments[i].id)
            else "path:" + p)
      && ((forall i: nat :: !LastSaying(departments, strip, p, i)) ==> key == "path:" + p)
  {
    RemoteIsLast(departments, strip, p);
  }

  /** A path passes the trimming condition exactly when trimming leaves it alone. */
  lemma TrimmedIff(remotes: map<string, RemoteDept>, paths: seq<string>)
    ensures Trimmed(ItemsOf(remotes, paths)) <==> forall i | 0 <= i < |paths| :: TrimSlashes(paths[i]) == paths[i]
  {
    var items := ItemsOf(remotes, paths);
    forall i | 0 <= i < |paths| ensures TrimmedItem(items[i]) <==> TrimSlashes(paths[i]) == paths[i] {
      PathSplits(paths[i]);
    }
  }

  lemma IDKeyIsNoPathKey(id: string, path: string)
    ensures "id:" + id != PathKey(path)
  {
    assert ("id:" + id)[0] == 'i' && PathKey(path)[0] == 'p';
  }

  lemma PathKeyIsOwn(remotes: map<string, RemoteDept>, p: string, q: string)
    requires BindingKey(remotes, p) == PathKey(q)
    ensures p == q
  {
    if ExternalID(remotes, p) != "" {
      IDKeyIsNoPathKey(ExternalID(remotes, p), q);
    } else {
      assert ("path:" + p)[5..] == p && PathKey(q)[5..] == q;
    }
  }

  /** Only a path without an external id is keyed by its own "path:" key. */
  lemma ItemsHaveShapedKeys(remotes: map<string, RemoteDept>, all: set<string>, paths: seq<string>)
    requires Processes(paths, all)
    ensures ShapedKeys(ItemsOf(remotes, paths))
  {
    var items := ItemsOf(remotes, paths);
    forall i, j | 0 <= i < |items| && 0 <= j < |items| && items[i].key == PathKey(items[j].path) ensures i == j {
      PathKeyIsOwn(remotes, paths[i], paths[j]);
      assert NoDuplicates(paths);
    }
  }

  /** Syncing the same snapshot again leaves the department table and every binding exactly as they
      are, from any starting state; index2 is whatever index the second sync builds. */
  lemma SecondSyncIsIdentity(s: State, mount: Option<Id>, remotes: map<string, RemoteDept>, raws: seq<string>,
                             strip: string, paths: seq<string>, index2: map<string, Id>)
    requires Valid(s, mount) && Processes(paths, Collected(raws, strip))
    ensures var items := ItemsOf(remotes, paths);
      var a := Apply(s, mount, items);
      var b := Apply(a.(index := index2), mount, items);
      b.depts == a.depts && b.bindings == a.bindings && b.next == a.next
  {
    ItemsWellOrdered(remotes, raws, strip, paths);
    ItemsHaveShapedKeys(remotes, Collected(raws, strip), paths);
    ApplyTwice(s, mount, ItemsOf(remotes, paths), index2);
  }

  /** The first sync of a provider: with every collected path stable under trimming and external ids
      distinct, each path becomes the path of a department of its own, the table stays a forest, and
      rows no path is laid on keep every field. */
  lemma FirstSyncLaysOutTree(s: State, mount: Option<Id>, remotes: map<string, RemoteDept>, raws: seq<string>,
                             strip: string, paths: seq<string>)
    requires Valid(s, mount) && Acyclic(s.depts) && MountPresent(s, mount)
    requires s.bindings == map[] && IsIndex(s.depts, mount, s.index)
    requires Processes(paths, Collected(raws, strip))
    requires forall p | p in Collected(raws, strip) :: TrimSlashes(p) == p
    requires forall p, q | p in Collected(raws, strip) && q in Collected(raws, strip) && p != q
               && ExternalID(remotes, p) != "" :: ExternalID(remotes, p) != ExternalID(remotes, q)
    ensures var r := Run(s, mount, ItemsOf(remotes, paths));
      && Acyclic(r.depts)
      && (forall p | p in Collected(raws, strip) :: p in r.index && RelPath(r.depts, mount, r.index[p]) == Some(p))
      && (forall x | x in s.depts && (forall p | p in Collected(raws, strip) :: r.index[p] != x) ::
            x in r.depts && r.depts[x] == s.depts[x])
  {
    FirstRunItems(remotes, raws, strip, paths);
    FirstRun(s, mount, ItemsOf(remotes, paths));
    ReadOffPaths(s, mount, remotes, Collected(raws, strip), paths);
  }

  lemma FirstRunItems(remotes: map<string, RemoteDept>, raws: seq<string>, strip: string, paths: seq<string>)
    requires Processes(paths, Collected(raws, strip))
    requires forall p | p in Collected(raws, strip) :: TrimSlashes(p) == p
    requires forall p, q | p in Collected(raws, strip) && q in Collected(raws, strip) && p != q
               && ExternalID(remotes, p) != "" :: ExternalID(remotes, p) != ExternalID(remotes, q)
    ensures var items := ItemsOf(remotes, paths);
      WellOrdered(items) && Trimmed(items) && DistinctKeys(items)
  {
    ItemsWellOrdered(remotes, raws, strip, paths);
    DistinctIDsGiveDistinctKeys(remotes, Collected(raws, strip), paths);
    assert forall i | 0 <= i < |paths| :: paths[i] in paths;
    TrimmedIff(remotes, paths);
  }

  /** What holds of every item holds of every collected path. */
  lemma ReadOffPaths(s: State, mount: Option<Id>, remotes: map<string, RemoteDept>, all: set<string>, paths: seq<string>)
    requires Valid(s, mount) && Processes(paths, all) && WellOrdered(ItemsOf(remotes, paths))
    requires Correct(Run(s, mount, ItemsOf(remotes, paths)), mount, ItemsOf(remotes, paths))
    ensures var r := Run(s, mount, ItemsOf(remotes, paths));
      && (forall p | p in all :: p in r.index && RelPath(r.depts, mount, r.index[p]) == Some(p))
      && (forall x | x in s.depts && (forall p | p in all :: r.index[p] != x) :: x in r.depts && r.depts[x] == s.depts[x])
  {
    var items := ItemsOf(remotes, paths);
    var r := Run(s, mount, items);
    forall p | p in all ensures p in r.index && RelPath(r.depts, mount, r.index[p]) == Some(p) {
      assert p in paths;
      var i :| 0 <= i < |paths| && paths[i] == p;
      assert ReadsBack(r, mount, items[i]);
    }
    forall x | x in s.depts && (forall p | p in all :: r.index[p] != x) ensures x in r.depts && r.depts[x] == s.depts[x] {
      forall i | 0 <= i < |items| ensures At(r, items[i]) != x { assert paths[i] in paths; }
      RunUntouched(s, mount, items, x);
    }
  }

  // ---- from the raw snapshot ---------------------------------------------------------------------------

  function RawPaths(snap: Snapshot): seq<string> { RawDeptPaths(snap.departments) + RawUserPaths(snap.users) }

  /** Every segment of every path in the snapshot is written trimmed. */
  predicate TightSnapshot(snap: Snapshot) { forall raw | raw in RawPaths(snap) :: Tight(raw) }

  function DeptID(d: RemoteDept): string { FirstNonEmpty(d.externalID, d.id) }

  /** No two remote departments carry the same id. */
  predicate DistinctIDs(departments: seq<RemoteDept>) {
    forall i, j | 0 <= i < j < |departments| && DeptID(departments[i]) != "" ::
      DeptID(departments[i]) != DeptID(departments[j])
  }

  lemma {:induction false} CollectedFrom(raws: seq<string>, strip: string, p: string)
    requires p in Collected(raws, strip)
    ensures exists raw :: raw in raws && p in Prefixes(LocalDepartmentPath(raw, strip))
  {
    var n := |raws| - 1;
    if p in Collected(raws[..n], strip) { CollectedFrom(raws[..n], strip, p); } else { assert raws[n] in raws; }
  }

  lemma {:induction false} RecordedFrom(departments: seq<RemoteDept>, strip: string, p: string) returns (i: nat)
    requires p in RemoteByPath(departments, strip)
    ensures i < |departments| && RemoteByPath(departments, strip)[p] == departments[i]
    ensures LocalDepartmentPath(DeptPath(departments[i]), strip) == p
  {
    var n := |departments| - 1;
    if p != "" && LocalDepartmentPath(DeptPath(departments[n]), strip) == p { i := n; }
    else { i := RecordedFrom(departments[..n], strip, p); }
  }

  lemma TightIsStable(snap: Snapshot, strip: string, p: string)
    requires TightSnapshot(snap) && p in SnapshotPaths(snap, strip)
    ensures TrimSlashes(p) == p && Neat(p)
  {
    CollectedFrom(RawPaths(snap), strip, p);
    var raw :| raw in RawPaths(snap) && p in Prefixes(LocalDepartmentPath(raw, strip));
    TightPathsAreStable(raw, strip, p);
  }

  lemma DistinctPathIDs(departments: seq<RemoteDept>, strip: string, p: string, q: string)
    requires DistinctIDs(departments) && p != q
    requires ExternalID(RemoteByPath(departments, strip), p) != ""
    ensures ExternalID(RemoteByPath(departments, strip), p) != ExternalID(RemoteByPath(departments, strip), q)
  {
    var i := RecordedFrom(departments, strip, p);
    if q in RemoteByPath(departments, strip) {
      var j := RecordedFrom(departments, strip, q);
      assert i != j;
    }
  }

  /** What the first sync of a provider is promised: a snapshot whose segments are trimmed and whose ids
      are distinct, a forest with the mount in it, and no bindings yet. */
  ghost predicate FirstContact(depts: Table, bindings: map<string, Binding>, mount: Option<Id>, snap: Snapshot) {
    && TightSnapshot(snap) && DistinctIDs(snap.departments)
    && Acyclic(depts) && bindings == map[] && (mount.Some? ==> mount.value in depts)
  }

  /** Every path of the snapshot is bound to a department that reads back at it, in a forest. */
  ghost predicate LaidOut(depts: Table, bindings: map<string, Binding>, mount: Option<Id>, snap: Snapshot, strip: string) {
    && Acyclic(depts)
    && forall p | p in SnapshotPaths(snap, strip) ::
         var key := BindingKey(RemoteByPath(snap.departments, strip), p);
         key in bindings && RelPath(depts, mount, bindings[key].localID) == Some(p)
  }

  /** End to end: after first contact the whole remote tree is laid out, dry run or not. */
  lemma FirstContactLaysOut(s: State, mount: Option<Id>, snap: Snapshot, strip: string, paths: seq<string>)
    requires Valid(s, mount) && IsIndex(s.depts, mount, s.index) && FirstContact(s.depts, s.bindings, mount, snap)
    requires Processes(paths, SnapshotPaths(snap, strip))
    ensures var items := ItemsOf(RemoteByPath(snap.departments, strip), paths);
      var r := Run(s, mount, items);
      && LaidOut(r.depts, r.bindings, mount, snap, strip)
      && LaidOut(r.depts, Apply(s, mount, items).bindings, mount, snap, strip)
  {
    var remotes, all := RemoteByPath(snap.departments, strip), SnapshotPaths(snap, strip);
    var items := ItemsOf(remotes, paths);
    forall p | p in all ensures TrimSlashes(p) == p { TightIsStable(snap, strip, p); }
    forall p, q | p in all && q in all && p != q && ExternalID(remotes, p) != ""
      ensures ExternalID(remotes, p) != ExternalID(remotes, q) {
      DistinctPathIDs(snap.departments, strip, p, q);
    }
    FirstSyncLaysOutTree(s, mount, remotes, RawPaths(snap), strip, paths);
    ItemsWellOrdered(remotes, RawPaths(snap), strip, paths);
    ItemsHaveShapedKeys(remotes, all, paths);
    forall p | p in all
      ensures var key, r := BindingKey(remotes, p), Run(s, mount, items);
        && key in r.bindings && key in Apply(s, mount, items).bindings
        && Apply(s, mount, items).bindings[key] == r.bindings[key] && r.bindings[key].localID == r.index[p]
    {
      BoundAtPath(s, mount, remotes, all, paths, p);
    }
  }

  lemma BoundAtPath(s: State, mount: Option<Id>, remotes: map<string, RemoteDept>, all: set<string>,
                    paths: seq<string>, p: string)
    requires Valid(s, mount) && Processes(paths, all) && p in all
    requires WellOrdered(ItemsOf(remotes, paths)) && ShapedKeys(ItemsOf(remotes, paths))
    ensures var r := Run(s, mount, ItemsOf(remotes, paths));
      var b := Apply(s, mount, ItemsOf(remotes, paths)).bindings;
      var key := BindingKey(remotes, p);
      && key in r.bindings && p in r.index && r.bindings[key].localID == r.index[p]
      && key in b && b[key] == r.bindings[key]
  {
    var items := ItemsOf(remotes, paths);
    assert p in paths;
    var i :| 0 <= i < |paths| && paths[i] == p;
    RunBinds(s, mount, items);
    assert Bound(Run(s, mount, items), items[i]);
    UsedKeyKept(s, mount, items, i);
  }
}
