/** The sync service over its tables: the department rows and this provider's department bindings
    are updated step by step, as the source does inside its transaction. */
module DirectorySyncService {
  import opened Options
  import opened DeptPaths
  import opened DeptForest
  import opened DeptIndex
  import opened Sorting
  import opened RemotePaths
  import opened AutoSync
  import opened AutoSyncRerun
  import opened AutoSyncSettled
  import opened DirectorySync

  method BuildRemoteByPath(departments: seq<RemoteDept>, strip: string) returns (remotes: map<string, RemoteDept>)
    ensures remotes == RemoteByPath(departments, strip)
  {
    remotes := map[];
    for i := 0 to |departments|
      invariant remotes == RemoteByPath(departments[..i], strip)
    {
      assert departments[..i + 1][..i] == departments[..i];
      var path := LocalDepartmentPath(DeptPath(departments[i]), strip);
      if path != "" { remotes := remotes[path := departments[i]]; }
    }
    assert departments[..|departments|] == departments;
  }

  class Directory {
    var depts: Table
    var bindings: map<string, Binding>
    var next: Id

    constructor (depts: Table, bindings: map<string, Binding>, next: Id)
      ensures this.depts == depts && this.bindings == bindings && this.next == next
    {
      this.depts, this.bindings, this.next := depts, bindings, next;
    }

    ghost function Tables(index: map<string, Id>): State
      reads this
    {
      State(depts, bindings, index, next)
    }

    /** One path: follow the binding, else the index, else create; then record both. */
    method EnsureDepartment(mount: Option<Id>, it: Item, index: map<string, Id>) returns (index': map<string, Id>)
      modifies this
      ensures Tables(index') == Step(old(Tables(index)), mount, it)
    {
      var parentID := mount;
      if it.parent != "" && it.parent in index { parentID := Some(index[it.parent]); }
      var dept: Option<Id> := None;
      if it.key in bindings && bindings[it.key].localID in depts { dept := Some(bindings[it.key].localID); }
      if dept.None? && it.path in index && index[it.path] in depts { dept := Some(index[it.path]); }
      var id;
      if dept.None? {
        id := next;
        next := next + 1;
        depts := depts[id := Dept(it.leaf, parentID, 0, Some(DESCRIPTION))];
      } else {
        id := dept.value;
        depts := depts[id := depts[id].(name := it.leaf, parent := parentID, description := Some(DESCRIPTION))];
      }
      index' := index[it.path := id];
      bindings := bindings[it.key := Binding(id, it.path)];
    }

    /** ensureAutomaticDepartments: the run over the snapshot's paths in processing order, from the
        path index of the table as it stands. */
    method EnsureAutomaticDepartments(mount: Option<Id>, snap: Snapshot, strip: string, order: seq<Id>)
      returns (index: map<string, Id>, paths: seq<string>)
      modifies this
      ensures Processes(paths, SnapshotPaths(snap, strip))
      ensures Tables(index) == Run(old(Tables(PathIndex(depts, mount, order))), mount,
                                   ItemsOf(RemoteByPath(snap.departments, strip), paths))
    {
      index := BuildDepartmentPathIndex(depts, mount, order);
      var remotes := BuildRemoteByPath(snap.departments, strip);
      paths := SortedPaths(snap, strip);
      ghost var start := Tables(index);
      ghost var items := ItemsOf(remotes, paths);
      for i := 0 to |paths|
        invariant Tables(index) == Run(start, mount, items[..i])
      {
        RunSnoc(start, mount, items, i);
        index := EnsureDepartment(mount, ItemOf(remotes, paths[i]), index);
      }
      assert items[..|items|] == items;
    }

    /** One path of the follow-up loop: count a match and bind its "path:" key. The else branch, in which the
        source creates a department and its binding, only reports that it was reached: MatchPaths shows that it
        never is, because the layout has resolved every path. */
    method MatchPath(localPath: string, index: map<string, Id>, dryRun: bool) returns (created: bool)
      modifies this
      ensures created <==> localPath !in index && PathKey(localPath) !in old(bindings)
      ensures localPath in index ==> depts == old(depts) && next == old(next)
      ensures localPath in index ==>
                bindings == if dryRun then old(bindings)
                            else old(bindings)[PathKey(localPath) := Binding(index[localPath], localPath)]
    {
      created := false;
      var localID: Option<Id> := None;
      if localPath in index { localID := Some(index[localPath]); }
      if localID.None? && PathKey(localPath) in bindings { localID := Some(bindings[PathKey(localPath)].localID); }
      if localID.Some? {
        if !dryRun { bindings := bindings[PathKey(localPath) := Binding(localID.value, localPath)]; }
      } else {
        created := true;
      }
    }

    /** The follow-up loop over resolved paths creates nothing. */
    method MatchPaths(paths: seq<string>, index: map<string, Id>, dryRun: bool, ghost r: State, ghost items: seq<Item>)
      returns (created: int, matched: int)
      requires |items| == |paths| && depts == r.depts && next == r.next && bindings == r.bindings && index == r.index
      requires forall i | 0 <= i < |paths| :: items[i].path == paths[i] && Bound(r, items[i])
      modifies this
      ensures created == 0 && matched == |paths|
      ensures depts == r.depts && next == r.next
      ensures bindings == if dryRun then r.bindings else FollowUp(r.bindings, r, items)
    {
      created, matched := 0, 0;
      for i := 0 to |paths|
        invariant created == 0 && matched == i
        invariant depts == r.depts && next == r.next
        invariant bindings == if dryRun then r.bindings else FollowUp(r.bindings, r, items[..i])
      {
        assert items[..i + 1][..i] == items[..i];
        assert Bound(r, items[i]);
        var c := MatchPath(paths[i], index, dryRun);
        if c { created := created + 1; } else { matched := matched + 1; }
      }
      assert items[..|items|] == items;
    }

    /** The department half of applySnapshot in automatic mode. Every path is already resolved when
        the follow-up loop reaches it, so that loop only counts matches and binds "path:" keys. */
    method SyncDepartments(mount: Option<Id>, snap: Snapshot, strip: string, order: seq<Id>, dryRun: bool)
      returns (created: int, matched: int, paths: seq<string>)
      requires Valid(Tables(map[]), mount)
      modifies this
      ensures created == 0 && matched == |SnapshotPaths(snap, strip)|
      ensures Processes(paths, SnapshotPaths(snap, strip))
      ensures var s := old(Tables(PathIndex(depts, mount, order)));
              var items := ItemsOf(RemoteByPath(snap.departments, strip), paths);
              var r := if dryRun then Run(s, mount, items) else Apply(s, mount, items);
              depts == r.depts && bindings == r.bindings && next == r.next
    {
      ghost var s := Tables(PathIndex(depts, mount, order));
      PathIndexReadsBack(depts, mount, order);
      var index;
      index, paths := EnsureAutomaticDepartments(mount, snap, strip, order);
      ghost var items := ItemsOf(RemoteByPath(snap.departments, strip), paths);
      AllBound(s, mount, snap, strip, paths);
      created, matched := MatchPaths(paths, index, dryRun, Run(s, mount, items), items);
      ListsCount(paths, SnapshotPaths(snap, strip));
    }

    /** The departments of a whole sync: once in the transaction that stores the snapshot, which knows of
        no dry run, and once more in the transaction that applies it. Dry and real syncs leave the same
        department table; a dry run leaves departments and bindings alone exactly when they were settled;
        and after first contact with a provider every path is laid out. order and order2 are the row
        orders the two transactions happen to read. */
    method Sync(mount: Option<Id>, snap: Snapshot, strip: string, order: seq<Id>, order2: seq<Id>, dryRun: bool)
      returns (created: int, matched: int, ghost items: seq<Item>)
      requires Valid(Tables(map[]), mount)
      modifies this
      ensures created == 0 && matched == |SnapshotPaths(snap, strip)|
      ensures WellOrdered(items) && (forall p :: p in SnapshotPaths(snap, strip) <==> exists it :: it in items && it.path == p)
      ensures var s := old(Tables(PathIndex(depts, mount, order)));
              && depts == Run(s, mount, items).depts && next == Run(s, mount, items).next
              && bindings == (if dryRun then Run(s, mount, items) else Apply(s, mount, items)).bindings
      ensures dryRun ==> (depts == old(depts) && bindings == old(bindings)
                          <==> Settled(old(Tables(PathIndex(depts, mount, order))), mount, items))
      ensures old(FirstContact(depts, bindings, mount, snap)) ==> LaidOut(depts, bindings, mount, snap, strip)
    {
      ghost var s := Tables(PathIndex(depts, mount, order));
      PathIndexReadsBack(depts, mount, order);
      var index, paths := EnsureAutomaticDepartments(mount, snap, strip, order);
      items := ItemsOf(RemoteByPath(snap.departments, strip), paths);
      SyncFacts(s, mount, snap, strip, paths);
      RunGrows(s, mount, items);
      ghost var index2 := PathIndex(depts, mount, order2);
      var paths2;
      created, matched, paths2 := SyncDepartments(mount, snap, strip, order2, dryRun);
      ProcessingOrderUnique(paths, paths2, SnapshotPaths(snap, strip));
      SecondLayoutIsIdle(s, mount, items, index2);
      UnchangedIffSettled(s, mount, items);
      if FirstContact(s.depts, s.bindings, mount, snap) { FirstContactLaysOut(s, mount, snap, strip, paths); }
    }
  }

  lemma SyncFacts(s: State, mount: Option<Id>, snap: Snapshot, strip: string, paths: seq<string>)
    requires Processes(paths, SnapshotPaths(snap, strip))
    ensures var items := ItemsOf(RemoteByPath(snap.departments, strip), paths);
      && WellOrdered(items)
      && forall p :: p in SnapshotPaths(snap, strip) <==> exists it :: it in items && it.path == p
  {
    var items := ItemsOf(RemoteByPath(snap.departments, strip), paths);
    ItemsWellOrdered(RemoteByPath(snap.departments, strip), RawPaths(snap), strip, paths);
    forall p ensures p in SnapshotPaths(snap, strip) <==> exists it :: it in items && it.path == p {
      if p in paths {
        var i :| 0 <= i < |paths| && paths[i] == p;
        assert items[i] in items;
      }
    }
  }

  lemma AllBound(s: State, mount: Option<Id>, snap: Snapshot, strip: string, paths: seq<string>)
    requires Valid(s, mount) && Processes(paths, SnapshotPaths(snap, strip))
    ensures var items := ItemsOf(RemoteByPath(snap.departments, strip), paths);
      forall i | 0 <= i < |items| :: Bound(Run(s, mount, items), items[i])
  {
    ItemsWellOrdered(RemoteByPath(snap.departments, strip),
                     RawDeptPaths(snap.departments) + RawUserPaths(snap.users), strip, paths);
    RunBinds(s, mount, ItemsOf(RemoteByPath(snap.departments, strip), paths));
  }

  lemma {:induction false} ListsCount(r: seq<string>, s: set<string>)
    requires Lists(r, s)
    ensures |r| == |s|
  {
    if r == [] {
      assert s == {};
    } else {
      var n := |r| - 1;
      assert r == r[..n] + [r[n]];
      assert r[n] !in r[..n];
      ListsCount(r[..n], s - {r[n]});
    }
  }
}
