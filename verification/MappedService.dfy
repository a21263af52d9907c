/** Mapping mode of a sync over the tables it updates: ensureMappedDepartmentSubtrees, which writes department
    rows and "mapped:path:" bindings unless it runs dry, and applySnapshot's loop over the matched remote
    departments, which writes their "path:" bindings. */
module MappedService {
  import opened Options
  import opened DeptPaths
  import opened DeptForest
  import opened PrimaryKeys
  import opened RemotePaths
  import opened MappedSync
  import opened MappedRuns
  import opened MappedDryRun
  import opened MappedPlaces
  import opened MappedSnapshot
  import opened MappedTargets
  import opened Sorting
  import AutoSync
  import AutoSyncRerun
  import DirectorySync

  const MAPPED_PREFIX := "mapped:path:"

  function MappedKey(path: string): string { MAPPED_PREFIX + path }

  function PathKey(path: string): string { AutoSyncRerun.PathKey(path) }

  lemma MappedKeysDiffer(a: string, b: string)
    ensures MappedKey(a) == MappedKey(b) ==> a == b
  {
    assert MappedKey(a)[|MAPPED_PREFIX|..] == a && MappedKey(b)[|MAPPED_PREFIX|..] == b;
  }

  lemma KeysSay(path: string)
    ensures MappedKey(path) == "mapped:path:" + path && PathKey(path) == "path:" + path
  {
  }

  lemma KeysApart(a: string, b: string)
    ensures MappedKey(a) != PathKey(b)
  {
    assert MappedKey(a)[0] == 'm' && PathKey(b)[0] == 'p';
  }

  // ---- the bindings of resolved paths ---------------------------------------------------------------------

  /** Every resolved path is bound to its department. */
  predicate Marked(bindings: Bindings, resolved: map<string, Id>) {
    forall c | c in resolved :: MappedKey(c) in bindings && bindings[MappedKey(c)] == AutoSync.Binding(resolved[c], c)
  }

  function KeysOf(prefix: string, resolved: map<string, Id>): set<string> { set c | c in resolved :: prefix + c }

  /** A binding for every resolved path, under the path's key. */
  function BindingsOf(prefix: string, resolved: map<string, Id>): Bindings {
    map k | k in KeysOf(prefix, resolved) && |prefix| <= |k| && k[|prefix|..] in resolved ::
      AutoSync.Binding(resolved[k[|prefix|..]], k[|prefix|..])
  }

  lemma BindingsOfAt(prefix: string, resolved: map<string, Id>)
    ensures BindingsOf(prefix, resolved).Keys == KeysOf(prefix, resolved)
    ensures forall c | c in resolved ::
              prefix + c in BindingsOf(prefix, resolved)
              && BindingsOf(prefix, resolved)[prefix + c] == AutoSync.Binding(resolved[c], c)
  {
    forall c | c in resolved
      ensures prefix + c in BindingsOf(prefix, resolved)
      ensures BindingsOf(prefix, resolved)[prefix + c] == AutoSync.Binding(resolved[c], c) {
      assert (prefix + c)[|prefix|..] == c;
    }
  }

  lemma BindingsOfNext(prefix: string, resolved: map<string, Id>, c: string, id: Id)
    requires c !in resolved
    ensures BindingsOf(prefix, resolved[c := id]) == BindingsOf(prefix, resolved)[prefix + c := AutoSync.Binding(id, c)]
  {
    var a, b := BindingsOf(prefix, resolved), BindingsOf(prefix, resolved[c := id]);
    BindingsOfAt(prefix, resolved);
    BindingsOfAt(prefix, resolved[c := id]);
    assert b.Keys == a.Keys + {prefix + c};
    forall k | k in b ensures b[k] == a[prefix + c := AutoSync.Binding(id, c)][k] {
      var d :| d in resolved[c := id] && k == prefix + d;
      assert k[|prefix|..] == d && (prefix + c)[|prefix|..] == c;
    }
  }

  /** The bindings with every resolved path's written over them. */
  function MarkedWith(bindings: Bindings, resolved: map<string, Id>): Bindings {
    bindings + BindingsOf(MAPPED_PREFIX, resolved)
  }

  /** Resolved paths are bound to their departments; bindings under all other keys are as they were. */
  lemma MarkedWithAt(bindings: Bindings, resolved: map<string, Id>)
    ensures var b := MarkedWith(bindings, resolved);
      && Marked(b, resolved)
      && forall k | k !in KeysOf(MAPPED_PREFIX, resolved) ::
           (k in b <==> k in bindings) && (k in bindings ==> b[k] == bindings[k])
  {
    BindingsOfAt(MAPPED_PREFIX, resolved);
  }

  lemma MarkedStays(bindings: Bindings, resolved: map<string, Id>)
    ensures MarkedWith(bindings, resolved) == bindings <==> Marked(bindings, resolved)
  {
    MarkedWithAt(bindings, resolved);
    var b := MarkedWith(bindings, resolved);
    if Marked(bindings, resolved) {
      forall k ensures (k in b <==> k in bindings) && (k in bindings ==> b[k] == bindings[k]) {
        if k in KeysOf(MAPPED_PREFIX, resolved) { var c :| c in resolved && k == MappedKey(c); }
      }
    }
  }

  lemma MarkNext(bindings: Bindings, resolved: map<string, Id>, c: string, id: Id)
    requires c !in resolved
    ensures MarkedWith(bindings, resolved[c := id])
         == MarkedWith(bindings, resolved)[MappedKey(c) := AutoSync.Binding(id, c)]
  {
    BindingsOfNext(MAPPED_PREFIX, resolved, c, id);
    MergeNext(bindings, BindingsOf(MAPPED_PREFIX, resolved), MappedKey(c), AutoSync.Binding(id, c));
  }

  lemma MergeNext<K, V>(a: map<K, V>, b: map<K, V>, k: K, v: V)
    ensures a + b[k := v] == (a + b)[k := v]
  {
  }

  lemma NothingMarked(bindings: Bindings)
    ensures MarkedWith(bindings, map[]) == bindings
  {
    MarkedStays(bindings, map[]);
  }

  // ---- the bindings of matched remote departments ---------------------------------------------------------

  /** The remote department has a path of its own, and that path is resolved. */
  predicate Matched(d: RemoteDept, resolved: map<string, Id>, strip: string) {
    TrimSpace(d.path) != "" && LocalDepartmentPath(TrimSpace(d.path), strip) in resolved
  }

  function MatchBinding(d: RemoteDept, resolved: map<string, Id>, strip: string): AutoSync.Binding
    requires Matched(d, resolved, strip)
  {
    AutoSync.Binding(resolved[LocalDepartmentPath(TrimSpace(d.path), strip)], TrimSpace(d.path))
  }

  /** applySnapshot binds the path of every matched remote department to where it resolved. */
  function WithMatches(bindings: Bindings, resolved: map<string, Id>, departments: seq<RemoteDept>,
                       strip: string): Bindings
  {
    if departments == [] then bindings
    else
      var n := |departments| - 1;
      var b := WithMatches(bindings, resolved, departments[..n], strip);
      if !Matched(departments[n], resolved, strip) then b
      else b[PathKey(TrimSpace(departments[n].path)) := MatchBinding(departments[n], resolved, strip)]
  }

  function CountMatched(resolved: map<string, Id>, departments: seq<RemoteDept>, strip: string): nat {
    if departments == [] then 0
    else
      var n := |departments| - 1;
      CountMatched(resolved, departments[..n], strip) + if Matched(departments[n], resolved, strip) then 1 else 0
  }

  /** Every matched department counts once, however often its path occurs. */
  lemma {:induction false} CountMatchedIs(resolved: map<string, Id>, departments: seq<RemoteDept>, strip: string)
    ensures CountMatched(resolved, departments, strip)
         == |IndicesWith(departments, (d: RemoteDept) => Matched(d, resolved, strip))|
  {
    var matched := (d: RemoteDept) => Matched(d, resolved, strip);
    if departments == [] {
      assert IndicesWith(departments, matched) == {};
    } else {
      CountMatchedIs(resolved, departments[..|departments| - 1], strip);
      IndicesSnoc(departments, matched);
    }
  }

  predicate BoundAs(bindings: Bindings, d: RemoteDept, resolved: map<string, Id>, strip: string)
    requires Matched(d, resolved, strip)
  {
    var k := PathKey(TrimSpace(d.path));
    k in bindings && bindings[k] == MatchBinding(d, resolved, strip)
  }

  /** The paths of matched remote departments are bound to where they resolved. */
  predicate MatchesBound(bindings: Bindings, resolved: map<string, Id>, departments: seq<RemoteDept>, strip: string) {
    forall d | d in departments && Matched(d, resolved, strip) :: BoundAs(bindings, d, resolved, strip)
  }

  /** k is the key of a matched remote department's path. */
  predicate MatchKey(k: string, resolved: map<string, Id>, departments: seq<RemoteDept>, strip: string) {
    exists d | d in departments :: Matched(d, resolved, strip) && k == PathKey(TrimSpace(d.path))
  }

  /** For a snapshot with trimmed segments a remote department is matched exactly when it has a path of its own
      and that path is a mapped root or below one; it is then bound to where its local path was resolved. */
  lemma MatchedSays(t: Table, next: Id, roots: map<string, Id>, snap: Snapshot, strip: string, paths: seq<string>,
                    d: RemoteDept)
    requires Valid(State(t, roots, next)) && DirectorySync.TightSnapshot(snap) && "" !in roots
    requires Processes(paths, SnapshotPaths(snap, strip)) && d in snap.departments
    ensures var r, local := RunPaths(State(t, roots, next), roots, paths), LocalDepartmentPath(TrimSpace(d.path), strip);
      && (Matched(d, r.resolved, strip) <==> TrimSpace(d.path) != "" && exists root | root in roots :: Covers(root, local))
      && (Matched(d, r.resolved, strip) ==>
            local in r.resolved && MatchBinding(d, r.resolved, strip) == AutoSync.Binding(r.resolved[local], TrimSpace(d.path)))
  {
    if TrimSpace(d.path) != "" { MatchedIffMapped(t, next, roots, snap, strip, paths, d); }
  }

  lemma SamePathSameBinding(a: RemoteDept, b: RemoteDept, resolved: map<string, Id>, strip: string)
    requires Matched(a, resolved, strip) && Matched(b, resolved, strip)
    requires PathKey(TrimSpace(a.path)) == PathKey(TrimSpace(b.path))
    ensures MatchBinding(a, resolved, strip) == MatchBinding(b, resolved, strip)
  {
    if TrimSpace(a.path) != TrimSpace(b.path) { AutoSyncRerun.PathKeysDiffer(TrimSpace(a.path), TrimSpace(b.path)); }
  }

  /** After the loop matched departments are bound, whatever their order and however often a path occurs, and
      bindings under all other keys are as they were. */
  lemma {:induction false} WithMatchesAt(bindings: Bindings, resolved: map<string, Id>, departments: seq<RemoteDept>,
                                         strip: string)
    ensures var b := WithMatches(bindings, resolved, departments, strip);
      && MatchesBound(b, resolved, departments, strip)
      && forall k | !MatchKey(k, resolved, departments, strip) ::
           (k in b <==> k in bindings) && (k in bindings ==> b[k] == bindings[k])
    decreases |departments|
  {
    if departments != [] {
      var n := |departments| - 1;
      var a := WithMatches(bindings, resolved, departments[..n], strip);
      var b := WithMatches(bindings, resolved, departments, strip);
      WithMatchesAt(bindings, resolved, departments[..n], strip);
      forall d | d in departments && Matched(d, resolved, strip) ensures BoundAs(b, d, resolved, strip) {
        MatchAfterOneMore(a, b, resolved, departments, strip, d);
      }
      forall k | !MatchKey(k, resolved, departments, strip)
        ensures (k in b <==> k in bindings) && (k in bindings ==> b[k] == bindings[k]) {
        assert departments[n] in departments && !MatchKey(k, resolved, departments[..n], strip);
      }
    }
  }

  lemma MatchAfterOneMore(a: Bindings, b: Bindings, resolved: map<string, Id>, departments: seq<RemoteDept>,
                          strip: string, d: RemoteDept)
    requires departments != [] && d in departments && Matched(d, resolved, strip)
    requires MatchesBound(a, resolved, departments[..|departments| - 1], strip)
    requires var last := departments[|departments| - 1];
      b == if !Matched(last, resolved, strip) then a
           else a[PathKey(TrimSpace(last.path)) := MatchBinding(last, resolved, strip)]
    ensures BoundAs(b, d, resolved, strip)
  {
    var n := |departments| - 1;
    var last := departments[n];
    if d != last {
      assert d in departments[..n];
      assert BoundAs(a, d, resolved, strip);
      if Matched(last, resolved, strip) && PathKey(TrimSpace(d.path)) == PathKey(TrimSpace(last.path)) {
        SamePathSameBinding(d, last, resolved, strip);
      }
    }
  }

  lemma {:induction false} MatchesStay(bindings: Bindings, resolved: map<string, Id>, departments: seq<RemoteDept>,
                                       strip: string)
    ensures WithMatches(bindings, resolved, departments, strip) == bindings
       <==> MatchesBound(bindings, resolved, departments, strip)
    decreases |departments|
  {
    WithMatchesAt(bindings, resolved, departments, strip);
    if MatchesBound(bindings, resolved, departments, strip) && departments != [] {
      var n := |departments| - 1;
      assert forall d | d in departments[..n] :: d in departments;
      MatchesStay(bindings, resolved, departments[..n], strip);
      assert departments[n] in departments;
    }
  }

  /** The loop writes no key of a resolved path, so both kinds of bindings stay exactly when each does. */
  lemma BothStay(bindings: Bindings, resolved: map<string, Id>, departments: seq<RemoteDept>, strip: string)
    ensures var b := WithMatches(MarkedWith(bindings, resolved), resolved, departments, strip);
      && Marked(b, resolved)
      && (b == bindings <==> Marked(bindings, resolved) && MatchesBound(bindings, resolved, departments, strip))
  {
    var a := MarkedWith(bindings, resolved);
    var b := WithMatches(a, resolved, departments, strip);
    MarkedWithAt(bindings, resolved);
    MarkedStays(bindings, resolved);
    WithMatchesAt(a, resolved, departments, strip);
    MatchesStay(bindings, resolved, departments, strip);
    forall c | c in resolved ensures !MatchKey(MappedKey(c), resolved, departments, strip) {
      forall d | d in departments ensures MappedKey(c) != PathKey(TrimSpace(d.path)) { KeysApart(c, TrimSpace(d.path)); }
    }
  }

  // ---- when a sync has nothing to write -------------------------------------------------------------------

  /** Every path of the layout is in place and bound to the department there. */
  ghost predicate Settled(t: Table, bindings: Bindings, roots: map<string, Id>, paths: seq<string>) {
    forall c | c in LayoutPaths(roots, paths) :: SettledAt(PlaceOf(t, roots, c), bindings, c)
  }

  predicate SettledAt(p: Place, bindings: Bindings, c: string) {
    InPlace(p) && MappedKey(c) in bindings && bindings[MappedKey(c)] == AutoSync.Binding(p.row, c)
  }

  /** A layout keeps rows and bindings exactly when the tables are settled. */
  lemma SettledIff(t: Table, next: Id, bindings: Bindings, roots: map<string, Id>, paths: seq<string>)
    requires Valid(State(t, roots, next))
    ensures var r := RunPaths(State(t, roots, next), roots, paths);
      r.depts == t && Marked(bindings, r.resolved) <==> Settled(t, bindings, roots, paths)
  {
    var r := RunPaths(State(t, roots, next), roots, paths);
    UnchangedIffInPlace(t, next, roots, paths);
    SharedIffSamePlace(t, next, roots, paths);
    if Settled(t, bindings, roots, paths) {
      forall c | c in LayoutPaths(roots, paths) ensures InPlace(PlaceOf(t, roots, c)) {
        assert SettledAt(PlaceOf(t, roots, c), bindings, c);
      }
      forall c | c in r.resolved
        ensures MappedKey(c) in bindings && bindings[MappedKey(c)] == AutoSync.Binding(r.resolved[c], c) {
        assert SettledAt(PlaceOf(t, roots, c), bindings, c);
      }
    }
  }

  // ---- targets beside layouts -------------------------------------------------------------------------------

  lemma FoundRootsAreRows(start: Tables, targets: map<string, Target>, site: Site, roots: map<string, Id>)
    requires Known(start, targets, site) && AllFound(start, targets, site, roots)
    ensures Valid(State(start.depts, roots, start.next))
  {
    forall c | c in roots ensures roots[c] in start.depts { assert Found(start, targets[c], site, roots[c]); }
  }

  /** Layout and matching write no "newdept:" binding. */
  lemma BindingsKeepTargets(base: Bindings, resolved: map<string, Id>, departments: seq<RemoteDept>, strip: string,
                            k: string)
    requires k in base && k != "" && k[0] == 'n'
    ensures var marked := MarkedWith(base, resolved);
      var matched := WithMatches(marked, resolved, departments, strip);
      k in marked && marked[k] == base[k] && k in matched && matched[k] == base[k]
  {
    var marked := MarkedWith(base, resolved);
    MarkedWithAt(base, resolved);
    WithMatchesAt(marked, resolved, departments, strip);
    assert k !in KeysOf(MAPPED_PREFIX, resolved) by {
      forall c | c in resolved ensures k != MappedKey(c) { assert MappedKey(c)[0] == 'm'; }
    }
    assert !MatchKey(k, resolved, departments, strip) by {
      forall d | d in departments ensures k != PathKey(TrimSpace(d.path)) { assert PathKey(TrimSpace(d.path))[0] == 'p'; }
    }
  }

  lemma LayoutIsLater(start: Tables, roots: map<string, Id>, paths: seq<string>, departments: seq<RemoteDept>,
                      strip: string)
    requires Valid(State(start.depts, roots, start.next))
    ensures var r := RunPaths(State(start.depts, roots, start.next), roots, paths);
      var marked := MarkedWith(start.bindings, r.resolved);
      && Valid(r)
      && Later(start, Tables(r.depts, marked, r.next))
      && Later(start, Tables(r.depts, WithMatches(marked, r.resolved, departments, strip), r.next))
  {
    var st := State(start.depts, roots, start.next);
    var r := RunPaths(st, roots, paths);
    assert Linked(st, roots);
    RunKeeps(st, roots, paths);
    forall k | k in start.bindings && k != "" && k[0] == 'n'
      ensures var marked := MarkedWith(start.bindings, r.resolved);
        var matched := WithMatches(marked, r.resolved, departments, strip);
        k in marked && marked[k] == start.bindings[k] && k in matched && matched[k] == start.bindings[k] {
      BindingsKeepTargets(start.bindings, r.resolved, departments, strip, k);
    }
  }

  /** After layout, with or without matching, every target is found where it was. */
  lemma LayoutKeepsTargets(start: Tables, targets: map<string, Target>, site: Site, roots: map<string, Id>,
                           paths: seq<string>, departments: seq<RemoteDept>, strip: string)
    requires Known(start, targets, site) && AllFound(start, targets, site, roots)
    ensures Valid(State(start.depts, roots, start.next))
    ensures var r := RunPaths(State(start.depts, roots, start.next), roots, paths);
      var marked := MarkedWith(start.bindings, r.resolved);
      && Known(Tables(r.depts, marked, r.next), targets, site)
      && AllFound(Tables(r.depts, marked, r.next), targets, site, roots)
      && AllFound(Tables(r.depts, WithMatches(marked, r.resolved, departments, strip), r.next), targets, site, roots)
  {
    FoundRootsAreRows(start, targets, site, roots);
    LayoutIsLater(start, roots, paths, departments, strip);
    var r := RunPaths(State(start.depts, roots, start.next), roots, paths);
    var marked := MarkedWith(start.bindings, r.resolved);
    forall c | c in targets
      ensures Found(Tables(r.depts, marked, r.next), targets[c], site, roots[c])
      ensures Found(Tables(r.depts, WithMatches(marked, r.resolved, departments, strip), r.next), targets[c], site, roots[c]) {
      StaysFound(start, Tables(r.depts, marked, r.next), targets, targets[c], site, roots[c]);
      StaysFound(start, Tables(r.depts, WithMatches(marked, r.resolved, departments, strip), r.next), targets,
                 targets[c], site, roots[c]);
    }
  }

  /** When targets and layout together leave the tables as they were. b is what the bindings come to, and
      settled what that takes of them beyond the targets. */
  lemma WholeSyncKeepsIff(first: Tables, start: Tables, targets: map<string, Target>, site: Site, order: seq<string>,
                          roots: map<string, Id>, paths: seq<string>, b: Bindings, settled: bool)
    requires Known(first, targets, site) && Lists(order, targets.Keys)
    requires start == EnsureAll(first, targets, site, order, false) && AllFound(start, targets, site, roots)
    requires Valid(State(start.depts, roots, start.next))
    requires var r := RunPaths(State(start.depts, roots, start.next), roots, paths);
      start == first ==> (r.depts == first.depts && b == first.bindings <==> settled)
    ensures var r := RunPaths(State(start.depts, roots, start.next), roots, paths);
      r.depts == first.depts && b == first.bindings <==> AllFound(first, targets, site, roots) && settled
  {
    var st := State(start.depts, roots, start.next);
    var r := RunPaths(st, roots, paths);
    TargetsKeepIff(first, targets, site, order, roots);
    AllLater(first, targets, site, order);
    assert Linked(st, roots);
    RunKeeps(st, roots, paths);
    if r.depts == first.depts {
      assert start.depts == first.depts by { SameDomain(first.depts, start.depts, r.depts); }
    }
  }

  lemma SyncKeepsForest(first: Tables, start: Tables, targets: map<string, Target>, site: Site, order: seq<string>,
                        roots: map<string, Id>, paths: seq<string>)
    requires Known(first, targets, site) && Lists(order, targets.Keys) && Acyclic(first.depts)
    requires start == EnsureAll(first, targets, site, order, false) && Valid(State(start.depts, roots, start.next))
    ensures Acyclic(RunPaths(State(start.depts, roots, start.next), roots, paths).depts)
  {
    TargetsKeepForest(first, targets, site, order);
    var st := State(start.depts, roots, start.next);
    assert Linked(st, roots);
    RunKeepsForest(st, roots, paths);
  }

  lemma SameDomain(a: Table, b: Table, c: Table)
    requires (forall x | x in a :: x in b && b[x] == a[x]) && (forall x | x in b :: x in c) && c == a
    ensures b == a
  {
  }

  lemma StepIsDryWalk(st: State, roots: map<string, Id>, path: string, root: string)
    requires LongestKey(roots.Keys, path) == Some(root) && path != root && Covers(root, path) && root in roots
    ensures DryStep(st, roots, path) == DryWalk(st, roots[root], root, Split(path[|root| + 1..]))
  {
  }

  /** The loop over the roots has done those not in rest. */
  lemma RootTaken(roots: map<string, Id>, rest: set<string>, c: string)
    ensures roots - {} == roots && roots - roots.Keys == map[]
    ensures c in rest && c in roots ==> c !in roots - rest && (roots - rest)[c := roots[c]] == roots - (rest - {c})
  {
  }

  class MappedDirectory {
    var depts: Table
    var bindings: Bindings
    var next: Id

    constructor (depts: Table, bindings: Bindings, next: Id)
      ensures this.depts == depts && this.bindings == bindings && this.next == next
    {
      this.depts, this.bindings, this.next := depts, bindings, next;
    }

    ghost function Now(resolved: map<string, Id>): State
      reads this
    {
      State(depts, resolved, next)
    }

    ghost function All(): Tables
      reads this
    {
      Tables(depts, bindings, next)
    }

    /** One mapping's local department. */
    method EnsureTargetDept(target: Target, site: Site, dryRun: bool) returns (id: Id)
      modifies this
      ensures (All(), id) == EnsureTarget(old(All()), target, site, dryRun)
    {
      match target
      case Existing(localID) => return localID;
      case Create(name, parent, remoteKey) =>
        var parentID := parent;
        if parentID.Some? && parentID.value !in depts {
          parentID := if site.mount.Some? && site.mount.value in depts then site.mount else None;
        }
        var extID := TargetKey(site.provider, parentID, name);
        if extID in bindings && bindings[extID].localID in depts { return bindings[extID].localID; }
        ghost var stale := bindings;
        bindings := bindings - {extID};
        id := next;
        next := next + 1;
        if !dryRun {
          depts := depts[id := Dept(name, parentID, 0, Some(ON_DEMAND))];
          bindings := bindings[extID := AutoSync.Binding(id, remoteKey)];
          assert bindings == stale[extID := AutoSync.Binding(id, remoteKey)];
        }
    }

    /** The loop over the mappings, in whatever order the map is iterated. Every target ends up with its
        department, unless a dry run stands in an id for one that has none. */
    method EnsureTargets(targets: map<string, Target>, site: Site, dryRun: bool)
      returns (roots: map<string, Id>, ghost order: seq<string>)
      requires Known(All(), targets, site)
      modifies this
      ensures Lists(order, targets.Keys) && All() == EnsureAll(old(All()), targets, site, order, dryRun)
      ensures roots.Keys == targets.Keys && (!dryRun ==> AllFound(All(), targets, site, roots))
      ensures Steady(old(All()), All(), targets, site, roots)
      ensures !dryRun && NoTargetBound(old(bindings)) ==> AllOwn(old(All()), All(), targets, site, roots)
    {
      roots, order := map[], [];
      var rest := targets.Keys;
      ghost var start := All();
      while rest != {}
        invariant rest <= targets.Keys && roots.Keys == targets.Keys - rest && Lists(order, targets.Keys - rest)
        invariant Resolving(start, All(), targets, site, order, roots, dryRun)
        decreases rest
      {
        var c :| c in rest;
        rest := rest - {c};
        ResolveNext(start, All(), targets, site, order, roots, dryRun, c);
        var id := EnsureTargetDept(targets[c], site, dryRun);
        order := order + [c];
        roots := roots[c := id];
      }
      if !dryRun && NoTargetBound(start.bindings) { OwnDepartments(start, targets, site, order, roots); }
    }

    /** In a dry run a missing child gets a random id and no row. */
    method FindOrCreateMappedChild(parent: Id, name: string, dryRun: bool) returns (id: Id, created: bool)
      modifies `depts, `next
      ensures !dryRun ==> (depts, id, next) == FindOrCreate(old(depts), old(next), parent, name)
      ensures dryRun ==> depts == old(depts) && (id, next) == Probe(depts, old(next), parent, name)
      ensures next == old(next) + if created then 1 else 0
    {
      var found := PickFirst(Matches(depts, parent, name));
      created := found.None?;
      if !created {
        id := found.value;
      } else {
        id := next;
        next := next + 1;
        if !dryRun { depts := depts[id := Dept(name, Some(parent), 0, Some(DESCRIPTION))]; }
      }
    }

    /** The inner loop over the names below a resolved path. base is what the bindings were before the layout. */
    method WalkNames(start: Id, path: string, names: seq<string>, before: map<string, Id>, dryRun: bool,
                     ghost base: Bindings)
      returns (resolved: map<string, Id>, created: nat)
      modifies this
      ensures Now(resolved) == if dryRun then DryWalk(old(Now(before)), start, path, names)
                               else Walk(old(Now(before)), start, path, names)
      ensures next == old(next) + created
      ensures dryRun ==> bindings == old(bindings)
      ensures !dryRun && old(bindings) == MarkedWith(base, before) ==> bindings == MarkedWith(base, resolved)
    {
      resolved, created := before, 0;
      var parentID, currentPath := start, path;
      ghost var st0 := Now(before);
      for i := 0 to |names|
        invariant !dryRun ==> Walk(Now(resolved), parentID, currentPath, names[i..]) == Walk(st0, start, path, names)
        invariant dryRun ==> DryWalk(Now(resolved), parentID, currentPath, names[i..]) == DryWalk(st0, start, path, names)
        invariant next == old(next) + created && (dryRun ==> bindings == old(bindings))
        invariant !dryRun && old(bindings) == MarkedWith(base, before) ==> bindings == MarkedWith(base, resolved)
      {
        var name := TrimSpace(names[i]);
        assert names[i..][0] == names[i] && names[i..][1..] == names[i + 1..];
        if name != "" {
          currentPath := currentPath + "/" + name;
          if currentPath in resolved {
            parentID := resolved[currentPath];
          } else {
            var id, isNew := FindOrCreateMappedChild(parentID, name, dryRun);
            if isNew { created := created + 1; }
            parentID := id;
            if !dryRun { UpsertBinding(currentPath, id, resolved, base); }
            resolved := resolved[currentPath := id];
          }
        }
      }
    }

    method UpsertBinding(path: string, id: Id, ghost resolved: map<string, Id>, ghost base: Bindings)
      requires path !in resolved
      modifies `bindings
      ensures bindings == old(bindings)[MappedKey(path) := AutoSync.Binding(id, path)]
      ensures old(bindings) == MarkedWith(base, resolved) ==> bindings == MarkedWith(base, resolved[path := id])
    {
      MarkNext(base, resolved, path, id);
      bindings := bindings[MappedKey(path) := AutoSync.Binding(id, path)];
    }

    /** The loop over the mapped roots, in whatever order the map is iterated. */
    method MarkRoots(roots: map<string, Id>, dryRun: bool) returns (resolved: map<string, Id>)
      modifies `bindings
      ensures resolved == roots
      ensures bindings == if dryRun then old(bindings) else MarkedWith(old(bindings), roots)
    {
      resolved := map[];
      var rest := roots.Keys;
      NothingMarked(bindings);
      ghost var base := bindings;
      while rest != {}
        invariant rest <= roots.Keys && resolved == roots - rest
        invariant bindings == if dryRun then base else MarkedWith(base, resolved)
        decreases rest
      {
        var c :| c in rest;
        RootTaken(roots, rest, c);
        rest := rest - {c};
        if !dryRun { UpsertBinding(c, roots[c], resolved, base); }
        resolved := resolved[c := roots[c]];
      }
      RootTaken(roots, rest, "");
    }

    /** Every path in turn, under its longest mapped root. A real run writes the rows of the specified run,
        binds every resolved path and leaves all other bindings alone; a dry run resolves the same paths and
        writes neither rows nor bindings. created counts the rows, or the ids that stand in for them. */
    method EnsureMappedDepartmentSubtrees(roots: map<string, Id>, paths: seq<string>, dryRun: bool)
      returns (resolved: map<string, Id>, created: nat)
      requires Valid(Now(roots))
      modifies this
      ensures !dryRun ==> Now(resolved) == RunPaths(old(Now(roots)), roots, paths)
      ensures dryRun ==> depts == old(depts)
                         && Now(resolved) == DryRunPaths(old(Now(roots)), roots, paths)
                         && resolved.Keys == RunPaths(old(Now(roots)), roots, paths).resolved.Keys
      ensures bindings == if dryRun then old(bindings) else MarkedWith(old(bindings), resolved)
      ensures next == old(next) + created
    {
      created := 0;
      resolved := MarkRoots(roots, dryRun);
      ghost var st0, base := Now(roots), old(bindings);
      DryRunForetells(depts, next, roots, paths);
      for i := 0 to |paths|
        invariant !dryRun ==> RunPaths(Now(resolved), roots, paths[i..]) == RunPaths(st0, roots, paths)
        invariant dryRun ==> DryRunPaths(Now(resolved), roots, paths[i..]) == DryRunPaths(st0, roots, paths)
        invariant next == old(next) + created
        invariant bindings == if dryRun then base else MarkedWith(base, resolved)
      {
        ghost var before := Now(resolved);
        var c;
        resolved, c := EnsurePath(roots, paths[i], resolved, dryRun, base);
        created := created + c;
        if dryRun { NextDryPath(before, Now(resolved), roots, paths, i); }
        else { NextPath(before, Now(resolved), roots, paths, i); }
      }
    }

    method EnsurePath(roots: map<string, Id>, path: string, before: map<string, Id>, dryRun: bool, ghost base: Bindings)
      returns (resolved: map<string, Id>, created: nat)
      modifies this
      ensures Now(resolved) == if dryRun then DryStep(old(Now(before)), roots, path)
                               else StepPath(old(Now(before)), roots, path)
      ensures next == old(next) + created
      ensures dryRun ==> bindings == old(bindings)
      ensures !dryRun && old(bindings) == MarkedWith(base, before) ==> bindings == MarkedWith(base, resolved)
    {
      resolved, created := before, 0;
      ghost var st := Now(before);
      var bestRoot := LongestPrefixKey(roots.Keys, path);
      if bestRoot != "" && path != bestRoot {
        var names := Split(path[|bestRoot| + 1..]);
        if dryRun { StepIsDryWalk(st, roots, path, bestRoot); } else { StepIsWalk(st, roots, path, bestRoot); }
        resolved, created := WalkNames(roots[bestRoot], bestRoot, names, before, dryRun, base);
      }
    }

    /** applySnapshot's loop in mapping mode: count every remote department whose path is resolved, and bind
        the path unless the sync is a dry run. */
    method MatchDepartments(departments: seq<RemoteDept>, resolved: map<string, Id>, strip: string, dryRun: bool)
      returns (matched: nat)
      modifies `bindings
      ensures matched == CountMatched(resolved, departments, strip)
      ensures bindings == if dryRun then old(bindings) else WithMatches(old(bindings), resolved, departments, strip)
    {
      matched := 0;
      for i := 0 to |departments|
        invariant matched == CountMatched(resolved, departments[..i], strip)
        invariant bindings == if dryRun then old(bindings)
                              else WithMatches(old(bindings), resolved, departments[..i], strip)
      {
        assert departments[..i + 1][..i] == departments[..i];
        var rp := TrimSpace(departments[i].path);
        var localPath := LocalDepartmentPath(rp, strip);
        if rp != "" && localPath in resolved {
          matched := matched + 1;
          if !dryRun { bindings := bindings[PathKey(rp) := AutoSync.Binding(resolved[localPath], rp)]; }
        }
      }
      assert departments[..|departments|] == departments;
    }

    /** The departments while the snapshot is stored: targets, then subtrees, for real. start is what the tables
        say once the targets are there. */
    method StoreDepartments(targets: map<string, Target>, site: Site, snap: Snapshot, strip: string)
      returns (resolved: map<string, Id>, roots: map<string, Id>, ghost order: seq<string>, ghost start: Tables,
               ghost paths: seq<string>)
      requires Known(All(), targets, site)
      modifies this
      ensures Lists(order, targets.Keys) && start == EnsureAll(old(All()), targets, site, order, false)
      ensures Known(start, targets, site) && AllFound(start, targets, site, roots)
      ensures Valid(State(start.depts, roots, start.next))
      ensures Processes(paths, SnapshotPaths(snap, strip))
      ensures Now(resolved) == RunPaths(State(start.depts, roots, start.next), roots, paths)
      ensures bindings == MarkedWith(start.bindings, resolved)
    {
      ghost var first := All();
      roots, order := EnsureTargets(targets, site, false);
      start := All();
      AllLater(first, targets, site, order);
      FoundRootsAreRows(start, targets, site, roots);
      var listed := SortedPaths(snap, strip);
      paths := listed;
      var created;
      resolved, created := EnsureMappedDepartmentSubtrees(roots, listed, false);
    }

    /** The departments while the snapshot is applied, after storing has laid out everything: nothing is created
        or announced, and remote departments are matched. */
    method ApplyDepartments(targets: map<string, Target>, site: Site, snap: Snapshot, strip: string, dryRun: bool,
                            ghost roots: map<string, Id>, ghost paths: seq<string>, ghost laid: map<string, Id>)
      returns (resolved: map<string, Id>, announced: nat, matched: nat)
      requires Known(All(), targets, site) && AllFound(All(), targets, site, roots) && Valid(Now(roots))
      requires Processes(paths, SnapshotPaths(snap, strip)) && Marked(bindings, laid)
      requires RunPaths(Now(roots), roots, paths) == DryRunPaths(Now(roots), roots, paths) == Now(laid)
      modifies this
      ensures depts == old(depts) && next == old(next) && resolved == laid && announced == 0
      ensures matched == CountMatched(resolved, snap.departments, strip)
      ensures bindings == if dryRun then old(bindings) else WithMatches(old(bindings), resolved, snap.departments, strip)
    {
      ghost var before := All();
      var roots2, order := EnsureTargets(targets, site, dryRun);
      SteadyEnds(before, All(), targets, site, roots2, roots);
      var listed := SortedPaths(snap, strip);
      ProcessingOrderUnique(paths, listed, SnapshotPaths(snap, strip));
      MarkedStays(bindings, laid);
      resolved, announced := EnsureMappedDepartmentSubtrees(roots2, listed, dryRun);
      matched := MatchDepartments(snap.departments, resolved, strip, dryRun);
    }

    /** The departments of a whole sync in mapping mode: targets and subtrees are laid out for real while the
        snapshot is stored, and once more, dry or not, while it is applied; then remote departments are matched.
        A dry sync leaves the same rows and the same "newdept:" and "mapped:path:" bindings as a real one and
        only lacks the "path:" bindings of matched departments. It leaves rows and bindings alone exactly when
        all targets were found and the tables were settled; a real one, when matched departments were bound
        too. Either leaves them so. */
    method Sync(targets: map<string, Target>, site: Site, snap: Snapshot, strip: string, dryRun: bool)
      returns (resolved: map<string, Id>, announced: nat, matched: nat, roots: map<string, Id>,
               ghost order: seq<string>, ghost start: Tables, ghost paths: seq<string>)
      requires Known(All(), targets, site)
      modifies this
      ensures Lists(order, targets.Keys) && start == EnsureAll(old(All()), targets, site, order, false)
      ensures AllFound(start, targets, site, roots) && Processes(paths, SnapshotPaths(snap, strip))
      ensures Now(resolved) == RunPaths(State(start.depts, roots, start.next), roots, paths)
      ensures var marked := MarkedWith(start.bindings, resolved);
              bindings == if dryRun then marked else WithMatches(marked, resolved, snap.departments, strip)
      ensures announced == 0 && matched == CountMatched(resolved, snap.departments, strip)
      ensures depts == start.depts <==> DryRunPaths(State(start.depts, roots, start.next), roots, paths).next == start.next
      ensures depts == old(depts) && bindings == old(bindings)
              <==> old(AllFound(All(), targets, site, roots)) && old(Settled(depts, bindings, roots, paths))
                   && (dryRun || MatchesBound(old(bindings), resolved, snap.departments, strip))
      ensures old(Acyclic(depts)) ==> Acyclic(depts)
      ensures AllFound(All(), targets, site, roots) && Settled(depts, bindings, roots, paths)
              && (!dryRun ==> MatchesBound(bindings, resolved, snap.departments, strip))
    {
      ghost var first := All();
      var laid;
      laid, roots, order, start, paths := StoreDepartments(targets, site, snap, strip);
      SecondLayoutIsIdle(start.depts, start.next, roots, paths);
      LayoutKeepsTargets(start, targets, site, roots, paths, snap.departments, strip);
      MarkedWithAt(start.bindings, laid);
      resolved, announced, matched := ApplyDepartments(targets, site, snap, strip, dryRun, roots, paths, laid);
      UnchangedIffNothingAnnounced(start.depts, start.next, roots, paths);
      SyncSettles(start.depts, start.next, start.bindings, roots, paths, snap.departments, strip);
      if Acyclic(first.depts) { SyncKeepsForest(first, start, targets, site, order, roots, paths); }
      WholeSyncKeepsIff(first, start, targets, site, order, roots, paths, bindings,
                        Settled(first.depts, first.bindings, roots, paths)
                        && (dryRun || MatchesBound(first.bindings, resolved, snap.departments, strip)));
    }
  }

  /** What the tables say after a sync, and when that is what they said before. */
  lemma SyncSettles(t: Table, next: Id, base: Bindings, roots: map<string, Id>, paths: seq<string>,
                    departments: seq<RemoteDept>, strip: string)
    requires Valid(State(t, roots, next))
    ensures var r := RunPaths(State(t, roots, next), roots, paths);
      var marked := MarkedWith(base, r.resolved);
      var matched := WithMatches(marked, r.resolved, departments, strip);
      && Settled(r.depts, marked, roots, paths) && Settled(r.depts, matched, roots, paths)
      && MatchesBound(matched, r.resolved, departments, strip)
      && (r.depts == t && marked == base <==> Settled(t, base, roots, paths))
      && (r.depts == t && matched == base
          <==> Settled(t, base, roots, paths) && MatchesBound(base, r.resolved, departments, strip))
  {
    var r := RunPaths(State(t, roots, next), roots, paths);
    var marked := MarkedWith(base, r.resolved);
    SecondLayoutIsIdle(t, next, roots, paths);
    MarkedWithAt(base, r.resolved);
    MarkedStays(base, r.resolved);
    BothStay(base, r.resolved, departments, strip);
    WithMatchesAt(marked, r.resolved, departments, strip);
    SettledIff(t, next, base, roots, paths);
    SettledIff(r.depts, r.next, marked, roots, paths);
    SettledIff(r.depts, r.next, WithMatches(marked, r.resolved, departments, strip), roots, paths);
  }

  function RootAndChild(root: string, path: string): Bindings {
    map[MappedKey(root) := AutoSync.Binding(1, root), MappedKey(path) := AutoSync.Binding(2, path)]
  }

  lemma TwoMarked(resolved: map<string, Id>, root: string, path: string)
    requires root != path && resolved == map[root := 1, path := 2]
    ensures MarkedWith(map[], resolved) == RootAndChild(root, path)
  {
    NothingMarked(map[]);
    MarkNext(map[], map[], root, 1);
    MarkNext(map[], map[root := 1], path, 2);
    assert map[][root := 1] == map[root := 1] && map[root := 1][path := 2] == resolved;
  }

  lemma {:induction false} SplitOne(s: string)
    requires NoSlash(s)
    ensures Split(s) == [s]
  {
    if s != "" {
      SplitOne(s[1..]);
      assert [s[0]] + s[1..] == s && [s[1..]][1..] == [];
    }
  }

  lemma ChildLaid(t: Table, roots: map<string, Id>, root: string, name: string)
    requires t == map[1 := Dept("Local", None, 0, None)] && root != "" && roots == map[root := 1]
    requires name != "" && NoSlash(name) && TrimSpace(name) == name
    ensures StepPath(State(t, roots, 2), roots, root + "/" + name)
         == State(t[2 := Dept(name, Some(1), 0, Some(MappedSync.DESCRIPTION))], map[root := 1, root + "/" + name := 2], 3)
  {
    var path, st := root + "/" + name, State(t, roots, 2);
    assert Covers(root, path) by { assert path[..|root| + 1] == root + "/"; }
    LongestIs(roots.Keys, path, root);
    StepIsWalk(st, roots, path, root);
    assert path[|root| + 1..] == name;
    SplitOne(name);
    ChildCreated(t, roots, root, path, name);
  }

  lemma ChildCreated(t: Table, roots: map<string, Id>, root: string, path: string, name: string)
    requires t == map[1 := Dept("Local", None, 0, None)] && roots == map[root := 1]
    requires path == root + "/" + name && path != root && name != "" && TrimSpace(name) == name
    ensures Walk(State(t, roots, 2), 1, root, [name])
         == State(t[2 := Dept(name, Some(1), 0, Some(MappedSync.DESCRIPTION))], map[root := 1, path := 2], 3)
  {
    assert [name][1..] == [];
    assert Matches(t, 1, name) == {};
  }

  lemma OnePathRun(st: State, roots: map<string, Id>, path: string)
    ensures RunPaths(st, roots, [path]) == StepPath(st, roots, path)
  {
    assert [path][0] == path && [path][1..] == [];
  }

  /** A dry sync can write: with one mapped root and a new path below it, it creates the department and binds
      root and path. */
  lemma DrySyncWrites(t: Table, roots: map<string, Id>, root: string, name: string)
    requires t == map[1 := Dept("Local", None, 0, None)] && root != "" && roots == map[root := 1]
    requires name != "" && NoSlash(name) && TrimSpace(name) == name
    ensures var r := RunPaths(State(t, roots, 2), roots, [root + "/" + name]);
      && r.depts == t[2 := Dept(name, Some(1), 0, Some(MappedSync.DESCRIPTION))]
      && MarkedWith(map[], r.resolved) == RootAndChild(root, root + "/" + name)
      && !Settled(t, map[], roots, [root + "/" + name])
  {
    var path := root + "/" + name;
    var r := RunPaths(State(t, roots, 2), roots, [path]);
    assert r == State(t[2 := Dept(name, Some(1), 0, Some(MappedSync.DESCRIPTION))], map[root := 1, path := 2], 3) by {
      ChildLaid(t, roots, root, name);
      OnePathRun(State(t, roots, 2), roots, path);
    }
    assert !Settled(t, map[], roots, [path]) by { NewRowUnsettled(t, roots, path, r, 2); }
    TwoMarked(r.resolved, root, path);
  }

  lemma NewRowUnsettled(t: Table, roots: map<string, Id>, path: string, r: State, x: Id)
    requires Valid(State(t, roots, 2)) && r == RunPaths(State(t, roots, 2), roots, [path]) && x in r.depts && x !in t
    ensures !Settled(t, map[], roots, [path])
  {
    SettledIff(t, 2, map[], roots, [path]);
  }

  /** Concretely, the path "A/x" below the mapped root "A". */
  lemma DrySyncCanWrite()
    ensures var t, roots := map[1 := Dept("Local", None, 0, None)], map["A" := 1];
      var r := RunPaths(State(t, roots, 2), roots, ["A/x"]);
      && Valid(State(t, roots, 2)) && r.depts == t[2 := Dept("x", Some(1), 0, Some(MappedSync.DESCRIPTION))]
      && MarkedWith(map[], r.resolved) == RootAndChild("A", "A/x") && !Settled(t, map[], roots, ["A/x"])
  {
    TrimFixed("x", IsSpace);
    assert "A" + "/" + "x" == "A/x";
    DrySyncWrites(map[1 := Dept("Local", None, 0, None)], map["A" := 1], "A", "x");
  }

  lemma NextPath(a: State, b: State, roots: map<string, Id>, paths: seq<string>, i: nat)
    requires i < |paths| && b == StepPath(a, roots, paths[i])
    ensures RunPaths(a, roots, paths[i..]) == RunPaths(b, roots, paths[i + 1..])
  {
    assert paths[i..][0] == paths[i] && paths[i..][1..] == paths[i + 1..];
  }

  lemma NextDryPath(a: State, b: State, roots: map<string, Id>, paths: seq<string>, i: nat)
    requires i < |paths| && b == DryStep(a, roots, paths[i])
    ensures DryRunPaths(a, roots, paths[i..]) == DryRunPaths(b, roots, paths[i + 1..])
  {
    assert paths[i..][0] == paths[i] && paths[i..][1..] == paths[i + 1..];
  }
}
