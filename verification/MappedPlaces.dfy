/** Where the paths of a mapped layout stand in the department table before it runs, and what the layout makes
    of them: one department for every place with names missing, shared by all paths at that place. */
module MappedPlaces {
  import opened Options
  import opened DeptPaths
  import opened DeptForest
  import opened MappedSync
  import opened MappedRuns
  import opened MappedDryRun

  /** The deepest existing department on the way down to a path, and the names missing below it. */
  datatype Place = Under(row: Id, missing: seq<string>) | Nowhere

  ghost function ChildPlace(t: Table, p: Place, name: string): Place {
    match p
    case Nowhere => Nowhere
    case Under(row, missing) =>
      if missing == [] && First(t, row, name).Some? then Under(First(t, row, name).value, [])
      else Under(row, missing + [name])
  }

  ghost function PlaceOf(t: Table, roots: map<string, Id>, c: string): Place
    decreases |c|
  {
    if c in roots then Under(roots[c], [])
    else if LastSlash(c) < 0 then Nowhere
    else ChildPlace(t, PlaceOf(t, roots, BeforeLastSlash(c)), AfterLastSlash(c))
  }

  predicate InPlace(p: Place) { p.Under? && p.missing == [] }

  // ---- the paths of a layout ---------------------------------------------------------------------------

  /** Every path passed on the way down the names, blanks left out. */
  function WalkPaths(path: string, names: seq<string>): set<string>
    decreases |names|
  {
    if names == [] then {}
    else
      var name := TrimSpace(names[0]);
      if name == "" then WalkPaths(path, names[1..])
      else {path + "/" + name} + WalkPaths(path + "/" + name, names[1..])
  }

  ghost function PathsBelowRoot(roots: map<string, Id>, path: string): set<string> {
    var root := LongestKey(roots.Keys, path);
    if root.None? || path == root.value then {} else WalkPaths(root.value, Split(path[|root.value| + 1..]))
  }

  /** The mapped roots, and what lies between a collected path and its longest root. */
  ghost function LayoutPaths(roots: map<string, Id>, paths: seq<string>): set<string> {
    if paths == [] then roots.Keys else PathsBelowRoot(roots, paths[0]) + LayoutPaths(roots, paths[1..])
  }

  lemma {:induction false} WalkedBelow(path: string, names: seq<string>, c: string)
    requires c in WalkPaths(path, names)
    ensures Covers(path, c)
    decreases |names|
  {
    var name, rest := TrimSpace(names[0]), names[1..];
    var current := path + "/" + name;
    if name == "" {
      WalkedBelow(path, rest, c);
    } else {
      assert Covers(path, current) by { assert current[..|path| + 1] == path + "/"; }
      if c != current {
        WalkedBelow(current, rest, c);
        CoversTrans(path, current, c);
      }
    }
  }

  /** Every path of a layout is a mapped root or below one. */
  lemma {:induction false} LaidBelowRoots(roots: map<string, Id>, paths: seq<string>, c: string)
    requires c in LayoutPaths(roots, paths)
    ensures exists root | root in roots :: Covers(root, c)
  {
    if c in roots {
      assert Covers(c, c);
    } else if c in PathsBelowRoot(roots, paths[0]) {
      var root := LongestKey(roots.Keys, paths[0]).value;
      WalkedBelow(root, Split(paths[0][|root| + 1..]), c);
    } else {
      LaidBelowRoots(roots, paths[1..], c);
    }
  }

  lemma {:induction false} WalkResolves(st: State, parent: Id, path: string, names: seq<string>)
    ensures Walk(st, parent, path, names).resolved.Keys == st.resolved.Keys + WalkPaths(path, names)
    decreases |names|
  {
    if names != [] {
      var name, rest := TrimSpace(names[0]), names[1..];
      var current := path + "/" + name;
      if name == "" {
        WalkResolves(st, parent, path, rest);
      } else if current in st.resolved {
        WalkResolves(st, st.resolved[current], current, rest);
      } else {
        var (t, id, next) := FindOrCreate(st.depts, st.next, parent, name);
        WalkResolves(State(t, st.resolved[current := id], next), id, current, rest);
      }
    }
  }

  lemma StepResolvesBelow(st: State, roots: map<string, Id>, path: string)
    ensures StepPath(st, roots, path).resolved.Keys == st.resolved.Keys + PathsBelowRoot(roots, path)
  {
    var root := LongestKey(roots.Keys, path);
    if root.None? || path == root.value {
      assert StepPath(st, roots, path) == st;
    } else {
      var names := Split(path[|root.value| + 1..]);
      WalkResolves(st, roots[root.value], root.value, names);
      assert StepPath(st, roots, path) == Walk(st, roots[root.value], root.value, names);
    }
  }

  lemma {:induction false} RunResolves(st: State, roots: map<string, Id>, paths: seq<string>)
    requires roots.Keys <= st.resolved.Keys
    ensures RunPaths(st, roots, paths).resolved.Keys == st.resolved.Keys + LayoutPaths(roots, paths)
    decreases |paths|
  {
    if paths != [] {
      StepResolvesBelow(st, roots, paths[0]);
      RunResolves(StepPath(st, roots, paths[0]), roots, paths[1..]);
    }
  }

  // ---- what stands at a place ----------------------------------------------------------------------------

  /** The names missing lead from row, through rows added to t only, to x. */
  predicate StandsFor(t: Table, rows: Table, x: Id, row: Id, missing: seq<string>)
    decreases |missing|
  {
    if missing == [] then x == row && row in t
    else
      var n := |missing| - 1;
      && x in rows && x !in t && rows[x].name == missing[n] && rows[x].parent.Some?
      && StandsFor(t, rows, rows[x].parent.value, row, missing[..n])
  }

  predicate OneRowEach(t: Table, rows: Table) {
    forall x, y | x in rows && y in rows && x !in t && y !in t
      && rows[x].name == rows[y].name && rows[x].parent == rows[y].parent :: x == y
  }

  lemma {:induction false} PlaceHasOneRow(t: Table, rows: Table, x: Id, y: Id, row: Id, missing: seq<string>)
    requires OneRowEach(t, rows) && StandsFor(t, rows, x, row, missing) && StandsFor(t, rows, y, row, missing)
    ensures x == y
    decreases |missing|
  {
    if missing != [] {
      PlaceHasOneRow(t, rows, rows[x].parent.value, rows[y].parent.value, row, missing[..|missing| - 1]);
    }
  }

  lemma {:induction false} RowHasOnePlace(t: Table, rows: Table, x: Id, row: Id, missing: seq<string>,
                                          row': Id, missing': seq<string>)
    requires StandsFor(t, rows, x, row, missing) && StandsFor(t, rows, x, row', missing')
    ensures row == row' && missing == missing'
    decreases |missing|
  {
    assert missing == [] <==> missing' == [];
    if missing != [] {
      var n, n' := |missing| - 1, |missing'| - 1;
      RowHasOnePlace(t, rows, rows[x].parent.value, row, missing[..n], row', missing'[..n']);
      assert missing == missing[..n] + [missing[n]] && missing' == missing'[..n'] + [missing'[n']];
    }
  }

  lemma {:induction false} StandsStill(t: Table, rows: Table, rows': Table, x: Id, row: Id, missing: seq<string>)
    requires StandsFor(t, rows, x, row, missing)
    requires forall y | y in rows :: y in rows' && rows'[y] == rows[y]
    ensures StandsFor(t, rows', x, row, missing)
    decreases |missing|
  {
    if missing != [] { StandsStill(t, rows, rows', rows[x].parent.value, row, missing[..|missing| - 1]); }
  }

  /** A run from the rows t has every resolved path stand at its place. */
  ghost predicate Placed(t: Table, n: Id, roots: map<string, Id>, st: State) {
    && GrownFrom(t, n, st.depts) && roots.Keys <= st.resolved.Keys
    && forall c | c in st.resolved :: PlacedAt(t, roots, st.depts, c, st.resolved[c])
  }

  ghost predicate GrownFrom(t: Table, n: Id, rows: Table) {
    && OldRows(t, n) && SameFinds(t, rows) && OneRowEach(t, rows)
    && (forall x | x in rows && x !in t :: n <= x) && (forall x | x in t :: x in rows && rows[x] == t[x])
  }

  ghost predicate PlacedAt(t: Table, roots: map<string, Id>, rows: Table, c: string, x: Id) {
    var p := PlaceOf(t, roots, c);
    p.Under? && StandsFor(t, rows, x, p.row, p.missing)
  }

  lemma OneMoreGrown(t: Table, n: Id, rows: Table, next: Id, parent: Id, name: string)
    requires GrownFrom(t, n, rows) && n <= next && forall x | x in rows :: x < next
    ensures GrownFrom(t, n, FindOrCreate(rows, next, parent, name).0)
  {
    FindOrCreateAdds(rows, next, parent, name);
    SameFindsTrans(t, rows, FindOrCreate(rows, next, parent, name).0);
    if First(rows, parent, name).None? {
      forall x | x in rows ensures rows[x].name != name || rows[x].parent != Some(parent) {
        assert x !in Matches(rows, parent, name);
      }
    }
  }

  /** A found or created child stands at the child's place. */
  lemma ChildStands(t: Table, n: Id, rows: Table, next: Id, parent: Id, name: string, p: Place)
    requires GrownFrom(t, n, rows) && n <= next && (forall x | x in rows :: x < next)
    requires p.Under? && StandsFor(t, rows, parent, p.row, p.missing)
    ensures var (rows', id, next') := FindOrCreate(rows, next, parent, name);
      var q := ChildPlace(t, p, name);
      q.Under? && StandsFor(t, rows', id, q.row, q.missing)
  {
    var (rows', id, next') := FindOrCreate(rows, next, parent, name);
    FindOrCreateAdds(rows, next, parent, name);
    if p.missing == [] && First(t, parent, name).Some? {
      assert First(t, parent, name).value in Matches(t, parent, name);
      assert First(rows, parent, name) == First(t, parent, name);
    } else {
      assert id !in t by {
        assert id in t ==> id in Matches(t, parent, name);
      }
      assert (p.missing + [name])[..|p.missing|] == p.missing;
      StandsStill(t, rows, rows', parent, p.row, p.missing);
    }
  }

  lemma PlaceOfChild(t: Table, roots: map<string, Id>, path: string, name: string)
    requires NoSlash(name) && path + "/" + name !in roots
    ensures PlaceOf(t, roots, path + "/" + name) == ChildPlace(t, PlaceOf(t, roots, path), name)
  {
    LastSlashOf(path, name);
    LastSlashIsLast(path + "/" + name);
    assert (path + "/" + name)[|path|] == '/';
  }

  lemma ChildPlaced(t: Table, n: Id, roots: map<string, Id>, st: State, path: string, name: string)
    requires Valid(st) && Placed(t, n, roots, st) && n <= st.next
    requires path in st.resolved && NoSlash(name) && path + "/" + name !in st.resolved
    ensures var (rows, id, next) := FindOrCreate(st.depts, st.next, st.resolved[path], name);
      Placed(t, n, roots, State(rows, st.resolved[path + "/" + name := id], next))
  {
    var parent, current := st.resolved[path], path + "/" + name;
    var (rows, id, next) := FindOrCreate(st.depts, st.next, parent, name);
    var resolved := st.resolved[current := id];
    FindOrCreateAdds(st.depts, st.next, parent, name);
    OneMoreGrown(t, n, st.depts, st.next, parent, name);
    forall c | c in resolved ensures PlacedAt(t, roots, rows, c, resolved[c]) {
      if c == current {
        PlaceOfChild(t, roots, path, name);
        ChildStands(t, n, st.depts, st.next, parent, name, PlaceOf(t, roots, path));
      } else {
        var p := PlaceOf(t, roots, c);
        assert PlacedAt(t, roots, st.depts, c, st.resolved[c]);
        StandsStill(t, st.depts, rows, st.resolved[c], p.row, p.missing);
      }
    }
  }

  lemma {:induction false} WalkPlaced(t: Table, n: Id, roots: map<string, Id>, st: State, path: string, names: seq<string>)
    requires Valid(st) && Placed(t, n, roots, st) && n <= st.next && path in st.resolved
    requires forall i | 0 <= i < |names| :: NoSlash(names[i])
    ensures Placed(t, n, roots, Walk(st, st.resolved[path], path, names))
    decreases |names|
  {
    if names != [] {
      var name, rest := TrimSpace(names[0]), names[1..];
      var current := path + "/" + name;
      assert forall i | 0 <= i < |rest| :: rest[i] == names[i + 1];
      TrimKeepsNoSlash(names[0]);
      if name == "" {
        WalkPlaced(t, n, roots, st, path, rest);
      } else if current in st.resolved {
        WalkPlaced(t, n, roots, st, current, rest);
      } else {
        var (rows, id, next) := FindOrCreate(st.depts, st.next, st.resolved[path], name);
        FindOrCreateAdds(st.depts, st.next, st.resolved[path], name);
        StepValid(st, path, name, current, rows, id, next);
        ChildPlaced(t, n, roots, st, path, name);
        WalkPlaced(t, n, roots, State(rows, st.resolved[current := id], next), current, rest);
      }
    }
  }

  lemma {:induction false} RunPlaced(t: Table, n: Id, roots: map<string, Id>, st: State, paths: seq<string>)
    requires Valid(st) && Linked(st, roots) && Placed(t, n, roots, st) && n <= st.next
    ensures Placed(t, n, roots, RunPaths(st, roots, paths))
    decreases |paths|
  {
    if paths != [] {
      var path := paths[0];
      var root := LongestKey(roots.Keys, path);
      StepKeeps(st, roots, path);
      if root.Some? && path != root.value {
        RootsResolved(st, roots, root.value);
        SplitHasNoSlash(path[|root.value| + 1..]);
        WalkPlaced(t, n, roots, st, root.value, Split(path[|root.value| + 1..]));
      }
      RunPlaced(t, n, roots, StepPath(st, roots, path), paths[1..]);
    }
  }

  // ---- the main results ------------------------------------------------------------------------------------

  /** A layout resolves its paths and no others; a path keeps the department that is in place for it and gets
      a new one otherwise; and two paths share a department exactly when the table had them at the same
      place. */
  lemma SharedIffSamePlace(t: Table, next: Id, roots: map<string, Id>, paths: seq<string>)
    requires Valid(State(t, roots, next))
    ensures var r := RunPaths(State(t, roots, next), roots, paths);
      && r.resolved.Keys == LayoutPaths(roots, paths)
      && (forall c | c in r.resolved :: var p := PlaceOf(t, roots, c);
            p.Under? && p.row in t && if InPlace(p) then r.resolved[c] == p.row else r.resolved[c] !in t)
      && (forall b, c | b in r.resolved && c in r.resolved ::
            r.resolved[b] == r.resolved[c] <==> PlaceOf(t, roots, b) == PlaceOf(t, roots, c))
  {
    var st := State(t, roots, next);
    var r := RunPaths(st, roots, paths);
    RunResolves(st, roots, paths);
    RootsLaid(roots, paths);
    RunPlaced(t, next, roots, st, paths);
    forall c | c in r.resolved ensures PlacedAt(t, roots, r.depts, c, r.resolved[c]) && PlaceOf(t, roots, c).row in t {
      var p := PlaceOf(t, roots, c);
      FootIsOld(t, r.depts, r.resolved[c], p.row, p.missing);
    }
    forall b, c | b in r.resolved && c in r.resolved
      ensures r.resolved[b] == r.resolved[c] <==> PlaceOf(t, roots, b) == PlaceOf(t, roots, c) {
      SameRowIffSamePlace(t, r.depts, r.resolved[b], r.resolved[c], PlaceOf(t, roots, b), PlaceOf(t, roots, c));
    }
  }

  lemma {:induction false} RootsLaid(roots: map<string, Id>, paths: seq<string>)
    ensures roots.Keys <= LayoutPaths(roots, paths)
  {
    if paths != [] { RootsLaid(roots, paths[1..]); }
  }

  lemma {:induction false} FootIsOld(t: Table, rows: Table, x: Id, row: Id, missing: seq<string>)
    requires StandsFor(t, rows, x, row, missing)
    ensures row in t
    decreases |missing|
  {
    if missing != [] { FootIsOld(t, rows, rows[x].parent.value, row, missing[..|missing| - 1]); }
  }

  lemma SameRowIffSamePlace(t: Table, rows: Table, x: Id, y: Id, p: Place, q: Place)
    requires OneRowEach(t, rows) && p.Under? && q.Under?
    requires StandsFor(t, rows, x, p.row, p.missing) && StandsFor(t, rows, y, q.row, q.missing)
    ensures x == y <==> p == q
  {
    if x == y { RowHasOnePlace(t, rows, x, p.row, p.missing, q.row, q.missing); }
    if p == q { PlaceHasOneRow(t, rows, x, y, p.row, p.missing); }
  }

  /** The paths of a layout that have no department of their own in the table. */
  ghost function NotInPlace(t: Table, roots: map<string, Id>, paths: seq<string>): set<string> {
    set c | c in LayoutPaths(roots, paths) && !InPlace(PlaceOf(t, roots, c))
  }

  ghost function Places(t: Table, roots: map<string, Id>, a: set<string>): map<string, Place> {
    map c | c in a :: PlaceOf(t, roots, c)
  }

  predicate Together(b: string, c: string, m: map<string, Id>, p: map<string, Place>)
    requires b in m && c in m && b in p && c in p
  {
    m[b] == m[c] <==> p[b] == p[c]
  }

  /** Two maps that identify the same paths have images of the same size. */
  lemma {:induction false} SameCount(a: set<string>, m: map<string, Id>, p: map<string, Place>)
    requires a <= m.Keys && a <= p.Keys && forall b, c | b in a && c in a :: Together(b, c, m, p)
    ensures |Image(a, m)| == |Image(a, p)|
    decreases a
  {
    if a == {} {
      assert Image(a, m) == {} && Image(a, p) == {};
    } else {
      var c :| c in a;
      var rest := a - {c};
      SameCount(rest, m, p);
      OneMore(rest, c, m);
      OneMore(rest, c, p);
      assert a == rest + {c};
      AddedToBoth(rest, c, m, p);
    }
  }

  lemma AddedToBoth(rest: set<string>, c: string, m: map<string, Id>, p: map<string, Place>)
    requires rest <= m.Keys && rest <= p.Keys && c in m && c in p && forall b | b in rest :: Together(b, c, m, p)
    ensures m[c] in Image(rest, m) <==> p[c] in Image(rest, p)
  {
    if m[c] in Image(rest, m) {
      var b :| b in rest && m[b] == m[c];
      assert Together(b, c, m, p);
    }
    if p[c] in Image(rest, p) {
      var b :| b in rest && p[b] == p[c];
      assert Together(b, c, m, p);
    }
  }

  lemma OneMore<V>(rest: set<string>, c: string, m: map<string, V>)
    requires c in m && c !in rest
    ensures Image(rest + {c}, m) == Image(rest, m) + {m[c]}
    ensures |Image(rest + {c}, m)| == |Image(rest, m)| + if m[c] in Image(rest, m) then 0 else 1
  {
    assert Image(rest + {c}, m) == Image(rest, m) + {m[c]};
  }

  /** A dry layout announces one department for every path without one; the real layout creates one for every
      place of such paths; the two agree exactly when no two such paths are at one place. */
  lemma CountsByPlace(t: Table, next: Id, roots: map<string, Id>, paths: seq<string>)
    requires Valid(State(t, roots, next))
    ensures var a := NotInPlace(t, roots, paths);
      && DryRunPaths(State(t, roots, next), roots, paths).next == next + |a|
      && RunPaths(State(t, roots, next), roots, paths).next == next + |Image(a, Places(t, roots, a))|
      && |Image(a, Places(t, roots, a))| <= |a|
      && (|Image(a, Places(t, roots, a))| == |a| <==> OneEach(a, Places(t, roots, a)))
  {
    var st := State(t, roots, next);
    var d, r := DryRunPaths(st, roots, paths), RunPaths(st, roots, paths);
    StartsAlike(t, next, roots);
    RunsAlike(t, next, st, st, roots, paths);
    NewRowsCounted(t, next, d, r);
    PlacesCounted(t, next, roots, paths, d, r);
    var a := NotInPlace(t, roots, paths);
    FewerDepartments(a, Places(t, roots, a));
  }

  lemma PlacesCounted(t: Table, next: Id, roots: map<string, Id>, paths: seq<string>, d: State, r: State)
    requires Valid(State(t, roots, next)) && Alike(t, next, d, r) && r == RunPaths(State(t, roots, next), roots, paths)
    ensures var a := NotInPlace(t, roots, paths);
      && NewPaths(t, d.resolved) == a && a <= r.resolved.Keys
      && |Image(a, r.resolved)| == |Image(a, Places(t, roots, a))|
  {
    var a := NotInPlace(t, roots, paths);
    SharedIffSamePlace(t, next, roots, paths);
    NewAlike(t, next, d, r);
    assert NewPaths(t, d.resolved) == a;
    forall b, c | b in a && c in a ensures Together(b, c, r.resolved, Places(t, roots, a)) { }
    SameCount(a, r.resolved, Places(t, roots, a));
  }

  /** A layout changes no row exactly when every path is in place, which is exactly when a dry one announces
      nothing. */
  lemma UnchangedIffInPlace(t: Table, next: Id, roots: map<string, Id>, paths: seq<string>)
    requires Valid(State(t, roots, next))
    ensures RunPaths(State(t, roots, next), roots, paths).depts == t
       <==> forall c | c in LayoutPaths(roots, paths) :: InPlace(PlaceOf(t, roots, c))
    ensures DryRunPaths(State(t, roots, next), roots, paths).next == next
       <==> forall c | c in LayoutPaths(roots, paths) :: InPlace(PlaceOf(t, roots, c))
  {
    CountsByPlace(t, next, roots, paths);
    UnchangedIffNothingAnnounced(t, next, roots, paths);
    var a := NotInPlace(t, roots, paths);
    if a == {} {
      forall c | c in LayoutPaths(roots, paths) ensures InPlace(PlaceOf(t, roots, c)) { assert c !in a; }
      assert Image(a, Places(t, roots, a)) == {};
    } else {
      var c :| c in a;
      assert c in LayoutPaths(roots, paths) && !InPlace(PlaceOf(t, roots, c));
    }
  }
}
