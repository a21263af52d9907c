/** Mapping mode without writing: a dry run looks children up and stands in a random id for each one it
    would create. */
module MappedDryRun {
  import opened Options
  import opened DeptPaths
  import opened DeptForest
  import opened MappedSync
  import opened MappedRuns

  /** findOrCreateMappedChild in a dry run: the table is only read. */
  ghost function Probe(t: Table, next: Id, parent: Id, name: string): (Id, Id) {
    match First(t, parent, name)
    case Some(id) => (id, next)
    case None => (next, next + 1)
  }

  ghost function DryWalk(st: State, parent: Id, path: string, names: seq<string>): State
    decreases |names|
  {
    if names == [] then st
    else
      var name := TrimSpace(names[0]);
      var current := path + "/" + name;
      if name == "" then DryWalk(st, parent, path, names[1..])
      else if current in st.resolved then DryWalk(st, st.resolved[current], current, names[1..])
      else
        var (id, next) := Probe(st.depts, st.next, parent, name);
        DryWalk(State(st.depts, st.resolved[current := id], next), id, current, names[1..])
  }

  ghost function DryStep(st: State, roots: map<string, Id>, path: string): State {
    var root := LongestKey(roots.Keys, path);
    if root.None? || path == root.value then st
    else DryWalk(st, roots[root.value], root.value, Split(path[|root.value| + 1..]))
  }

  ghost function DryRunPaths(st: State, roots: map<string, Id>, paths: seq<string>): State
    decreases |paths|
  {
    if paths == [] then st else DryRunPaths(DryStep(st, roots, paths[0]), roots, paths[1..])
  }

  // ---- side by side with the real run -----------------------------------------------------------------------

  /** The rows t have ids below n. */
  predicate OldRows(t: Table, n: Id) {
    forall x | x in t :: x < n && (t[x].parent.Some? ==> t[x].parent.value < n)
  }

  /** The dry run knows an existing department, then the real run has the same; or both stand at new ones. */
  predicate SameOrNew(t: Table, n: Id, dry: Id, actual: Id) {
    if dry in t then actual == dry else n <= dry && n <= actual
  }

  /** The dry run d beside the real run r, both started from the rows t: the same paths are resolved, alike. */
  ghost predicate Alike(t: Table, n: Id, d: State, r: State) {
    && OldRows(t, n) && d.depts == t && n <= r.next
    && (forall x | x in r.depts :: x < r.next) && (forall x | x in r.depts && x !in t :: n <= x)
    && (forall x | x in t :: x in r.depts && r.depts[x] == t[x])
    && SameFinds(t, r.depts)
    && d.resolved.Keys == r.resolved.Keys
    && (forall c | c in d.resolved :: SameOrNew(t, n, d.resolved[c], r.resolved[c]))
  }

  /** Paths at a department the dry run made up. */
  function NewPaths(t: Table, resolved: map<string, Id>): set<string> {
    set c | c in resolved && resolved[c] !in t
  }

  /** x is the department of one of the paths a. */
  predicate Stands(a: set<string>, m: map<string, Id>, x: Id) { exists c | c in a && c in m :: m[c] == x }

  /** What the paths a are mapped to: their departments, or their places. */
  function Image<V>(a: set<string>, m: map<string, V>): set<V> {
    set c | c in a && c in m :: m[c]
  }

  /** The dry run counts its new paths, the real run its new rows, and every new row is some new path's. */
  ghost predicate Tallied(t: Table, n: Id, d: State, r: State) {
    && d.next == n + |NewPaths(t, d.resolved)|
    && (forall c | c in NewPaths(t, d.resolved) :: c in r.resolved && n <= r.resolved[c] < r.next)
    && (forall x: Id | n <= x < r.next :: Stands(NewPaths(t, d.resolved), r.resolved, x))
  }

  lemma ChildOfKnown(t: Table, n: Id, parent: Id, name: string)
    requires OldRows(t, n)
    ensures First(t, parent, name).Some? ==> First(t, parent, name).value in t && parent < n
  {
    if First(t, parent, name).Some? { assert First(t, parent, name).value in Matches(t, parent, name); }
  }

  /** A row found in the grown table under a parent that is new, or that had no such child, is new. */
  lemma FoundIsNew(t: Table, n: Id, rows: Table, dryParent: Id, parent: Id, name: string)
    requires OldRows(t, n) && SameOrNew(t, n, dryParent, parent) && First(t, dryParent, name).None?
    requires (forall x | x in rows && x !in t :: n <= x) && (forall x | x in t :: x in rows && rows[x] == t[x])
    ensures First(rows, parent, name).Some? ==> n <= First(rows, parent, name).value && First(rows, parent, name).value !in t
  {
    if First(rows, parent, name).Some? {
      var x := First(rows, parent, name).value;
      assert x in Matches(rows, parent, name);
      assert x in t ==> x in Matches(t, parent, name);
    }
  }

  lemma OneChildAlike(t: Table, n: Id, d: State, r: State, dryParent: Id, parent: Id, name: string, current: string)
    requires Alike(t, n, d, r) && n <= d.next && SameOrNew(t, n, dryParent, parent) && current !in d.resolved
    ensures var (dryID, dryNext) := Probe(d.depts, d.next, dryParent, name);
      var (rows, id, next) := FindOrCreate(r.depts, r.next, parent, name);
      && SameOrNew(t, n, dryID, id)
      && Alike(t, n, State(d.depts, d.resolved[current := dryID], dryNext), State(rows, r.resolved[current := id], next))
  {
    var (rows, id, next) := FindOrCreate(r.depts, r.next, parent, name);
    FindOrCreateAdds(r.depts, r.next, parent, name);
    SameFindsTrans(t, r.depts, rows);
    ChildOfKnown(t, n, dryParent, name);
    if First(t, dryParent, name).Some? {
      assert First(r.depts, parent, name) == First(t, dryParent, name);
    } else {
      FoundIsNew(t, n, r.depts, dryParent, parent, name);
    }
  }

  lemma OneChildTallied(t: Table, n: Id, d: State, r: State, dryParent: Id, parent: Id, name: string, current: string)
    requires Alike(t, n, d, r) && Tallied(t, n, d, r) && SameOrNew(t, n, dryParent, parent) && current !in d.resolved
    ensures var (dryID, dryNext) := Probe(d.depts, d.next, dryParent, name);
      var (rows, id, next) := FindOrCreate(r.depts, r.next, parent, name);
      Tallied(t, n, State(d.depts, d.resolved[current := dryID], dryNext), State(rows, r.resolved[current := id], next))
  {
    var (dryID, dryNext) := Probe(d.depts, d.next, dryParent, name);
    var (rows, id, next) := FindOrCreate(r.depts, r.next, parent, name);
    ChildOfKnown(t, n, dryParent, name);
    if First(t, dryParent, name).Some? {
      assert First(r.depts, parent, name) == First(t, dryParent, name);
    } else {
      FoundIsNew(t, n, r.depts, dryParent, parent, name);
      FoundIsRow(r.depts, parent, name);
      assert d.next !in t && n <= d.next;
    }
    TallyNext(t, n, d, r, current, dryID, dryNext, rows, id, next);
  }

  lemma NewPathsNext(t: Table, resolved: map<string, Id>, current: string, dryID: Id)
    requires current !in resolved
    ensures var before, after := NewPaths(t, resolved), NewPaths(t, resolved[current := dryID]);
      && after == (if dryID in t then before else before + {current})
      && |after| == |before| + if dryID in t then 0 else 1
  {
    var before, after := NewPaths(t, resolved), NewPaths(t, resolved[current := dryID]);
    assert after == if dryID in t then before else before + {current};
    assert current !in before;
  }

  lemma TallyNext(t: Table, n: Id, d: State, r: State, current: string, dryID: Id, dryNext: Id, rows: Table, id: Id, next: Id)
    requires Tallied(t, n, d, r) && d.resolved.Keys == r.resolved.Keys && current !in d.resolved && n <= r.next
    requires if dryID in t then dryNext == d.next && next == r.next
             else dryNext == d.next + 1 && n <= id < next && (next == r.next || (next == r.next + 1 && id == r.next))
    ensures Tallied(t, n, State(d.depts, d.resolved[current := dryID], dryNext), State(rows, r.resolved[current := id], next))
  {
    var before, after := NewPaths(t, d.resolved), NewPaths(t, d.resolved[current := dryID]);
    NewPathsNext(t, d.resolved, current, dryID);
    NewRowsStandFor(before, after, r.resolved, current, id, n, r.next, next, r.resolved[current := id]);
  }

  lemma NewRowsStandFor(before: set<string>, after: set<string>, resolved: map<string, Id>, current: string, id: Id,
                        n: Id, next: Id, next': Id, m: map<string, Id>)
    requires m == resolved[current := id] && before <= after <= before + {current} && current !in resolved
    requires next' == next || (next' == next + 1 && id == next && current in after)
    requires forall x: Id | n <= x < next :: Stands(before, resolved, x)
    ensures forall x: Id | n <= x < next' :: Stands(after, m, x)
  {
    forall x: Id | n <= x < next' ensures Stands(after, m, x) {
      if x < next {
        assert Stands(before, resolved, x);
        var c :| c in before && c in resolved && resolved[c] == x;
        assert m[c] == x;
      } else {
        assert m[current] == x;
      }
    }
  }

  lemma FoundIsRow(t: Table, parent: Id, name: string)
    ensures First(t, parent, name).Some? ==> First(t, parent, name).value in t
  {
    if First(t, parent, name).Some? { assert First(t, parent, name).value in Matches(t, parent, name); }
  }

  lemma {:induction false} WalksAlike(t: Table, n: Id, d: State, r: State, dryParent: Id, parent: Id,
                                      path: string, names: seq<string>)
    requires Alike(t, n, d, r) && Tallied(t, n, d, r) && SameOrNew(t, n, dryParent, parent)
    ensures Alike(t, n, DryWalk(d, dryParent, path, names), Walk(r, parent, path, names))
    ensures Tallied(t, n, DryWalk(d, dryParent, path, names), Walk(r, parent, path, names))
    decreases |names|
  {
    if names != [] {
      var name, rest := TrimSpace(names[0]), names[1..];
      var current := path + "/" + name;
      if name == "" {
        WalksAlike(t, n, d, r, dryParent, parent, path, rest);
      } else if current in d.resolved {
        WalksAlike(t, n, d, r, d.resolved[current], r.resolved[current], current, rest);
      } else {
        var (dryID, dryNext) := Probe(d.depts, d.next, dryParent, name);
        var (rows, id, next) := FindOrCreate(r.depts, r.next, parent, name);
        OneChildAlike(t, n, d, r, dryParent, parent, name, current);
        OneChildTallied(t, n, d, r, dryParent, parent, name, current);
        WalksAlike(t, n, State(d.depts, d.resolved[current := dryID], dryNext),
                   State(rows, r.resolved[current := id], next), dryID, id, current, rest);
      }
    }
  }

  lemma StepsAlike(t: Table, n: Id, d: State, r: State, roots: map<string, Id>, path: string)
    requires Alike(t, n, d, r) && Tallied(t, n, d, r) && forall c | c in roots :: roots[c] in t
    ensures Alike(t, n, DryStep(d, roots, path), StepPath(r, roots, path))
    ensures Tallied(t, n, DryStep(d, roots, path), StepPath(r, roots, path))
  {
    var root := LongestKey(roots.Keys, path);
    if root.None? || path == root.value {
      assert DryStep(d, roots, path) == d && StepPath(r, roots, path) == r;
    } else {
      var id, names := roots[root.value], Split(path[|root.value| + 1..]);
      assert SameOrNew(t, n, id, id);
      WalksAlike(t, n, d, r, id, id, root.value, names);
      assert DryStep(d, roots, path) == DryWalk(d, id, root.value, names);
      assert StepPath(r, roots, path) == Walk(r, id, root.value, names);
    }
  }

  lemma {:induction false} RunsAlike(t: Table, n: Id, d: State, r: State, roots: map<string, Id>, paths: seq<string>)
    requires Alike(t, n, d, r) && Tallied(t, n, d, r) && forall c | c in roots :: roots[c] in t
    ensures Alike(t, n, DryRunPaths(d, roots, paths), RunPaths(r, roots, paths))
    ensures Tallied(t, n, DryRunPaths(d, roots, paths), RunPaths(r, roots, paths))
    decreases |paths|
  {
    if paths != [] {
      StepsAlike(t, n, d, r, roots, paths[0]);
      RunsAlike(t, n, DryStep(d, roots, paths[0]), StepPath(r, roots, paths[0]), roots, paths[1..]);
    }
  }

  lemma StartsAlike(t: Table, next: Id, roots: map<string, Id>)
    requires Valid(State(t, roots, next))
    ensures Alike(t, next, State(t, roots, next), State(t, roots, next))
    ensures Tallied(t, next, State(t, roots, next), State(t, roots, next))
  {
    assert NewPaths(t, roots) == {};
  }

  // ---- how the counts compare ------------------------------------------------------------------------------

  /** No two paths of a share their department, or their place. */
  ghost predicate OneEach<V(!new)>(a: set<string>, m: map<string, V>) {
    forall b, c | b in a && c in a && b in m && c in m && m[b] == m[c] :: b == c
  }

  lemma {:induction false} FewerDepartments<V(!new)>(a: set<string>, m: map<string, V>)
    requires a <= m.Keys
    ensures |Image(a, m)| <= |a| && (|Image(a, m)| == |a| <==> OneEach(a, m))
    decreases a
  {
    if a == {} {
      assert Image(a, m) == {};
    } else {
      var c :| c in a;
      var rest := a - {c};
      FewerDepartments(rest, m);
      assert a == rest + {c};
      assert Image(a, m) == Image(rest, m) + {m[c]};
      if m[c] in Image(rest, m) {
        var b :| b in rest && b in m && m[b] == m[c];
        assert !OneEach(a, m);
      } else {
        OneMoreEach(rest, c, m);
      }
    }
  }

  lemma OneMoreEach<V(!new)>(rest: set<string>, c: string, m: map<string, V>)
    requires rest + {c} <= m.Keys && c !in rest && m[c] !in Image(rest, m)
    ensures OneEach(rest + {c}, m) <==> OneEach(rest, m)
  {
    assert forall b | b in rest :: m[b] in Image(rest, m);
  }

  lemma {:induction false} IdsBetween(n: Id, m: Id, s: set<Id>)
    requires n <= m && forall x :: x in s <==> n <= x < m
    ensures |s| == m - n
    decreases m
  {
    if n == m {
      assert s == {};
    } else {
      IdsBetween(n, m - 1, s - {m - 1});
      assert m - 1 in s;
    }
  }

  /** A dry run writes no row and resolves exactly the paths the real run resolves, each to the same
      department where one exists already. It announces as many new departments as the real run creates
      exactly when no two paths share a department the real run creates, and more otherwise. */
  lemma DryRunForetells(t: Table, next: Id, roots: map<string, Id>, paths: seq<string>)
    requires Valid(State(t, roots, next))
    ensures var d, r := DryRunPaths(State(t, roots, next), roots, paths), RunPaths(State(t, roots, next), roots, paths);
      && d.depts == t && d.resolved.Keys == r.resolved.Keys && r.next <= d.next
      && (forall c | c in d.resolved && d.resolved[c] in t :: r.resolved[c] == d.resolved[c])
      && (r.next == d.next <==>
            forall b, c | b in r.resolved && c in r.resolved && r.resolved[b] == r.resolved[c] && r.resolved[b] !in t :: b == c)
  {
    var st := State(t, roots, next);
    var d, r := DryRunPaths(st, roots, paths), RunPaths(st, roots, paths);
    StartsAlike(t, next, roots);
    RunsAlike(t, next, st, st, roots, paths);
    CompareCounts(t, next, d, r);
  }

  /** The real run has as many new rows as its new paths have departments. */
  lemma NewRowsCounted(t: Table, n: Id, d: State, r: State)
    requires Alike(t, n, d, r) && Tallied(t, n, d, r)
    ensures |Image(NewPaths(t, d.resolved), r.resolved)| == r.next - n
  {
    var a := NewPaths(t, d.resolved);
    forall x | x in Image(a, r.resolved) ensures n <= x < r.next {
      var c :| c in a && c in r.resolved && r.resolved[c] == x;
    }
    forall x: Id | n <= x < r.next ensures x in Image(a, r.resolved) { assert Stands(a, r.resolved, x); }
    IdsBetween(n, r.next, Image(a, r.resolved));
  }

  lemma CompareCounts(t: Table, n: Id, d: State, r: State)
    requires Alike(t, n, d, r) && Tallied(t, n, d, r)
    ensures r.next <= d.next
    ensures r.next == d.next <==>
              forall b, c | b in r.resolved && c in r.resolved && r.resolved[b] == r.resolved[c] && r.resolved[b] !in t :: b == c
  {
    FewerDepartments(NewPaths(t, d.resolved), r.resolved);
    NewRowsCounted(t, n, d, r);
    NewAlike(t, n, d, r);
  }

  lemma NewAlike(t: Table, n: Id, d: State, r: State)
    requires Alike(t, n, d, r)
    ensures forall c | c in r.resolved :: r.resolved[c] !in t <==> c in NewPaths(t, d.resolved)
  {
    forall c | c in r.resolved ensures r.resolved[c] !in t <==> c in NewPaths(t, d.resolved) {
      assert SameOrNew(t, n, d.resolved[c], r.resolved[c]);
    }
  }

  /** It can announce more: two roots pinned to one department share the child the real run creates. */
  lemma DryRunCanAnnounceMore()
    ensures var st := State(map[1 := Dept("Local", None, 0, None)], map["A" := 1, "B" := 1], 2);
      && Valid(st)
      && var d := Walk(Walk(st, 1, "A", ["x"]), 1, "B", ["x"]);
         var dry := DryWalk(DryWalk(st, 1, "A", ["x"]), 1, "B", ["x"]);
         d.next == 3 && dry.next == 4
  {
    var st := State(map[1 := Dept("Local", None, 0, None)], map["A" := 1, "B" := 1], 2);
    TrimFixed("x", IsSpace);
    assert ["x"][1..] == [];
    assert "A" + "/" + "x" == "A/x" && "B" + "/" + "x" == "B/x";
    assert Matches(st.depts, 1, "x") == {};
    var t := st.depts[2 := Dept("x", Some(1), 0, Some(MappedSync.DESCRIPTION))];
    assert Matches(t, 1, "x") == {2};
    assert "A/x" !in st.resolved && "B/x" !in st.resolved && "A/x"[0] != "B/x"[0];
    assert Walk(st, 1, "A", ["x"]) == State(t, st.resolved["A/x" := 2], 3);
    assert DryWalk(st, 1, "A", ["x"]) == State(st.depts, st.resolved["A/x" := 2], 3);
  }

  /** A whole sync lays the mapped subtrees out while it stores the snapshot, dry run or not. It leaves the
      department table alone exactly when a dry run of the layout would have announced nothing. */
  lemma UnchangedIffNothingAnnounced(t: Table, next: Id, roots: map<string, Id>, paths: seq<string>)
    requires Valid(State(t, roots, next))
    ensures var d, r := DryRunPaths(State(t, roots, next), roots, paths), RunPaths(State(t, roots, next), roots, paths);
      r.depts == t <==> d.next == next
  {
    var st := State(t, roots, next);
    var d, r := DryRunPaths(st, roots, paths), RunPaths(st, roots, paths);
    StartsAlike(t, next, roots);
    RunsAlike(t, next, st, st, roots, paths);
    assert Linked(st, roots);
    RunKeeps(st, roots, paths);
    NoRowIffNoPath(t, next, d, r);
  }

  lemma NoRowIffNoPath(t: Table, n: Id, d: State, r: State)
    requires Alike(t, n, d, r) && Tallied(t, n, d, r) && Valid(r)
    ensures r.depts == t <==> d.next == n
  {
    var a := NewPaths(t, d.resolved);
    NewAlike(t, n, d, r);
    NewRowsCounted(t, n, d, r);
    assert forall c | c in r.resolved :: r.resolved[c] in r.depts;
    if r.depts == t { assert a == {}; }
    if d.next == n {
      assert a == {} && Image(a, r.resolved) == {};
      assert r.next == n;
    }
  }

  /** Applying the snapshot afterwards finds every path in place and creates or announces nothing. */
  lemma SecondLayoutIsIdle(t: Table, next: Id, roots: map<string, Id>, paths: seq<string>)
    requires Valid(State(t, roots, next))
    ensures var r := RunPaths(State(t, roots, next), roots, paths);
      && Valid(State(r.depts, roots, r.next))
      && RunPaths(State(r.depts, roots, r.next), roots, paths) == r
      && DryRunPaths(State(r.depts, roots, r.next), roots, paths) == r
  {
    var st := State(t, roots, next);
    var r := RunPaths(st, roots, paths);
    assert Linked(st, roots);
    RunKeeps(st, roots, paths);
    SecondRunCreatesNothing(t, next, roots, paths);
    DryRunForetells(r.depts, r.next, roots, paths);
    var d := DryRunPaths(State(r.depts, roots, r.next), roots, paths);
    assert forall c | c in r.resolved :: r.resolved[c] in r.depts;
    assert d.next == r.next;
    NothingNewMeansSame(r.depts, r.next, roots, paths);
  }

  lemma NothingNewMeansSame(t: Table, next: Id, roots: map<string, Id>, paths: seq<string>)
    requires Valid(State(t, roots, next))
    requires DryRunPaths(State(t, roots, next), roots, paths).next == next
    ensures DryRunPaths(State(t, roots, next), roots, paths) == RunPaths(State(t, roots, next), roots, paths)
  {
    var st := State(t, roots, next);
    var d, r := DryRunPaths(st, roots, paths), RunPaths(st, roots, paths);
    StartsAlike(t, next, roots);
    RunsAlike(t, next, st, st, roots, paths);
    UnchangedIffNothingAnnounced(t, next, roots, paths);
    CompareCounts(t, next, d, r);
    assert NewPaths(t, d.resolved) == {};
    forall c | c in d.resolved ensures r.resolved[c] == d.resolved[c] { assert c !in NewPaths(t, d.resolved); }
  }
}
