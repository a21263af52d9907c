/** Whole mapping-mode runs: every collected path below a pinned root is spelled by a chain of
    departments, a second run creates nothing, and users land on the longest resolved prefix. */
module MappedRuns {
  import opened Options
  import opened DeptPaths
  import opened DeptForest
  import opened MappedSync

  /** One path: find its longest pinned root and walk the rest of it. */
  ghost function StepPath(st: State, roots: map<string, Id>, path: string): State {
    var root := LongestKey(roots.Keys, path);
    if root.None? || path == root.value then st
    else Walk(st, roots[root.value], root.value, Split(path[|root.value| + 1..]))
  }

  ghost function RunPaths(st: State, roots: map<string, Id>, paths: seq<string>): State
    decreases |paths|
  {
    if paths == [] then st else RunPaths(StepPath(st, roots, paths[0]), roots, paths[1..])
  }

  /** Every pinned root is resolved to its pinned department from the start. */
  lemma RootsResolved(st: State, roots: map<string, Id>, r: string)
    requires Linked(st, roots) && r in roots
    ensures r in st.resolved && st.resolved[r] == roots[r]
  {
    assert LinkedAt(st, roots, r);
  }

  lemma StepKeeps(st: State, roots: map<string, Id>, path: string)
    requires Valid(st) && Linked(st, roots)
    ensures Valid(StepPath(st, roots, path)) && Linked(StepPath(st, roots, path), roots)
    ensures Grows(st, StepPath(st, roots, path))
  {
    var root := LongestKey(roots.Keys, path);
    if root.None? || path == root.value {
      assert StepPath(st, roots, path) == st;
    } else {
      var names := Split(path[|root.value| + 1..]);
      RootsResolved(st, roots, root.value);
      SplitHasNoSlash(path[|root.value| + 1..]);
      WalkKeeps(st, roots, root.value, names);
      assert StepPath(st, roots, path) == Walk(st, st.resolved[root.value], root.value, names);
    }
  }

  lemma {:induction false} RunKeeps(st: State, roots: map<string, Id>, paths: seq<string>)
    requires Valid(st) && Linked(st, roots)
    ensures var r := RunPaths(st, roots, paths);
      Valid(r) && Linked(r, roots) && Grows(st, r)
    decreases |paths|
  {
    if paths != [] {
      var st' := StepPath(st, roots, paths[0]);
      StepKeeps(st, roots, paths[0]);
      RunKeeps(st', roots, paths[1..]);
      GrowsTrans(st, st', RunPaths(st', roots, paths[1..]));
    }
  }

  lemma {:induction false} RunKeepsForest(st: State, roots: map<string, Id>, paths: seq<string>)
    requires Valid(st) && Linked(st, roots) && Acyclic(st.depts)
    ensures Acyclic(RunPaths(st, roots, paths).depts)
    decreases |paths|
  {
    if paths != [] {
      StepKeeps(st, roots, paths[0]);
      var root := LongestKey(roots.Keys, paths[0]);
      if root.Some? && paths[0] != root.value {
        RootsResolved(st, roots, root.value);
        WalkKeepsForest(st, roots[root.value], root.value, Split(paths[0][|root.value| + 1..]));
      }
      RunKeepsForest(StepPath(st, roots, paths[0]), roots, paths[1..]);
    }
  }

  // ---- the chain of names ------------------------------------------------------------------------------

  /** From id up to top, the names read segments. */
  predicate Spells(t: Table, id: Id, top: Id, segments: seq<string>)
    decreases |segments|
  {
    if segments == [] then id == top
    else
      var n := |segments| - 1;
      id in t && t[id].name == segments[n] && t[id].parent.Some? && Spells(t, t[id].parent.value, top, segments[..n])
  }

  /** Links can be followed from a resolved path up to its longest root. */
  lemma {:induction false} LinksSpell(st: State, roots: map<string, Id>, root: string, segments: seq<string>, path: string)
    requires Linked(st, roots) && IsLongest(roots.Keys, path, root)
    requires Covers(Extended(root, segments), path)
    requires Extended(root, segments) in st.resolved
    requires forall i | 0 <= i < |segments| :: NoSlash(segments[i])
    ensures Spells(st.depts, st.resolved[Extended(root, segments)], roots[root], segments)
    decreases |segments|
  {
    var c := Extended(root, segments);
    assert LinkedAt(st, roots, c);
    if segments != [] {
      var n := |segments| - 1;
      ExtendedSnoc(root, segments);
      ExtendedCovered(root, segments, n);
      ExtendedCovered(root, segments, |segments|);
      assert segments[..|segments|] == segments;
      var q, name :| Link(st, c, q, name);
      LastSlashOf(q, name);
      LastSlashOf(Extended(root, segments[..n]), segments[n]);
      CoversTrans(Extended(root, segments[..n]), c, path);
      LinksSpell(st, roots, root, segments[..n], path);
    }
  }

  lemma LongestIs(keys: set<string>, path: string, root: string)
    requires IsLongest(keys, path, root)
    ensures LongestKey(keys, path) == Some(root)
  {
    LongestUnique(keys, path, LongestKey(keys, path).value, root);
  }

  lemma WalkBelow(st: State, roots: map<string, Id>, root: string, below: string)
    requires Valid(st) && Linked(st, roots) && root in st.resolved
    ensures Extended(root, Kept(Split(below))) in Walk(st, st.resolved[root], root, Split(below)).resolved
  {
    SplitHasNoSlash(below);
    WalkReaches(st, roots, root, Split(below));
  }

  lemma StepIsWalk(st: State, roots: map<string, Id>, path: string, root: string)
    requires LongestKey(roots.Keys, path) == Some(root) && path != root && Covers(root, path)
    requires root in roots
    ensures StepPath(st, roots, path) == Walk(st, roots[root], root, Split(path[|root| + 1..]))
  {
  }

  lemma StepResolves(st: State, roots: map<string, Id>, path: string, root: string, below: string)
    requires Valid(st) && Linked(st, roots)
    requires IsLongest(roots.Keys, path, root) && path != root && below == path[|root| + 1..]
    ensures Extended(root, Kept(Split(below))) in StepPath(st, roots, path).resolved
  {
    LongestIs(roots.Keys, path, root);
    StepIsWalk(st, roots, path, root);
    RootsResolved(st, roots, root);
    WalkBelow(st, roots, root, below);
  }

  lemma {:induction false} ProcessedResolves(st: State, roots: map<string, Id>, paths: seq<string>, i: nat, c: string)
    requires Valid(st) && Linked(st, roots) && i < |paths|
    requires c in StepPath(RunPaths(st, roots, paths[..i]), roots, paths[i]).resolved
    ensures c in RunPaths(st, roots, paths).resolved
    decreases |paths|
  {
    var st' := StepPath(st, roots, paths[0]);
    StepKeeps(st, roots, paths[0]);
    if i == 0 {
      RunKeeps(st', roots, paths[1..]);
    } else {
      assert paths[..i][1..] == paths[1..][..i - 1];
      ProcessedResolves(st', roots, paths[1..], i - 1, c);
    }
  }

  /** Every collected path below its longest pinned root, written with trimmed non-empty segments,
      resolves to a department whose names up to the root's department spell the rest of the path. */
  lemma SubtreeIsSpelled(st: State, roots: map<string, Id>, paths: seq<string>, i: nat, root: string)
    requires Valid(st) && Linked(st, roots) && i < |paths|
    requires IsLongest(roots.Keys, paths[i], root) && paths[i] != root
    requires Kept(Split(paths[i][|root| + 1..])) == Split(paths[i][|root| + 1..])
    ensures var r := RunPaths(st, roots, paths);
      paths[i] in r.resolved
      && Spells(r.depts, r.resolved[paths[i]], roots[root], Split(paths[i][|root| + 1..]))
  {
    var path := paths[i];
    var below := path[|root| + 1..];
    assert path == root + "/" + below;
    SplitBelow(root, below);
    SplitHasNoSlash(below);
    RunKeeps(st, roots, paths[..i]);
    StepResolves(RunPaths(st, roots, paths[..i]), roots, path, root, below);
    ProcessedResolves(st, roots, paths, i, path);
    RunKeeps(st, roots, paths);
    LinksSpell(RunPaths(st, roots, paths), roots, root, Split(below), path);
  }

  // ---- running again ---------------------------------------------------------------------------------------

  lemma {:induction false} RunAgain(st: State, roots: map<string, Id>, paths: seq<string>, t2: Table, next2: Id)
    requires Valid(st) && Linked(st, roots)
    requires SameFinds(RunPaths(st, roots, paths).depts, t2)
    ensures RunPaths(State(t2, st.resolved, next2), roots, paths)
         == State(t2, RunPaths(st, roots, paths).resolved, next2)
    decreases |paths|
  {
    if paths != [] {
      var path, rest := paths[0], paths[1..];
      var st' := StepPath(st, roots, path);
      StepKeeps(st, roots, path);
      RunKeeps(st', roots, rest);
      SameFindsTrans(st'.depts, RunPaths(st', roots, rest).depts, t2);
      var root := LongestKey(roots.Keys, path);
      if root.Some? && path != root.value {
        RootsResolved(st, roots, root.value);
        SplitHasNoSlash(path[|root.value| + 1..]);
        WalkAgain(st, roots, root.value, Split(path[|root.value| + 1..]), t2, next2);
      }
      assert StepPath(State(t2, st.resolved, next2), roots, path) == State(t2, st'.resolved, next2);
      RunAgain(st', roots, rest, t2, next2);
    }
  }

  lemma SameFindsTrans(a: Table, b: Table, c: Table)
    requires SameFinds(a, b) && SameFinds(b, c)
    ensures SameFinds(a, c)
  {
    forall p, name | First(a, p, name).Some? ensures First(c, p, name) == First(a, p, name) {
      assert First(b, p, name) == First(a, p, name);
    }
  }

  /** A second run over the same paths creates no department and resolves every path as before. */
  lemma SecondRunCreatesNothing(t: Table, next: Id, roots: map<string, Id>, paths: seq<string>)
    requires Valid(State(t, roots, next))
    ensures var r := RunPaths(State(t, roots, next), roots, paths);
      RunPaths(State(r.depts, roots, r.next), roots, paths) == r
  {
    var st := State(t, roots, next);
    var r := RunPaths(st, roots, paths);
    assert Linked(st, roots);
    RunAgain(st, roots, paths, r.depts, r.next);
  }

  // ---- users ---------------------------------------------------------------------------------------------------

  /** The first of the user's paths with a resolved prefix decides, by its longest resolved prefix. */
  ghost function ResolveIn(resolver: map<string, Id>, paths: seq<string>): Option<Id> {
    if paths == [] then None
    else
      var key := LongestKey(resolver.Keys, paths[0]);
      if paths[0] != "" && key.Some? then Some(resolver[key.value]) else ResolveIn(resolver, paths[1..])
  }

  /** The source's scan over the map, in whatever order the map is iterated. */
  method LongestPrefixKey(keys: set<string>, path: string) returns (best: string)
    ensures LongestKey(keys, path) == if best == "" then None else Some(best)
  {
    best := "";
    var rest := keys;
    while rest != {}
      invariant rest <= keys
      invariant best != "" ==> best in keys && Covers(best, path)
      invariant forall k | k in keys - rest && k != "" && Covers(k, path) :: |k| <= |best|
      decreases rest
    {
      var key :| key in rest;
      rest := rest - {key};
      if key != "" && (key == path || HasPrefix(path, key + "/")) && |key| > |best| { best := key; }
    }
    if best != "" {
      LongestIs(keys, path, best);
    }
  }

  /** Whatever the iteration order, a user gets the department of the longest resolved prefix in mapping
      mode, and the exact match or the mount in automatic mode. */
  method ResolveUserDepartment(primary: string, others: seq<string>, strip: string, resolver: map<string, Id>,
                               mappingMode: bool, mount: Option<Id>) returns (dept: Option<Id>)
    ensures mappingMode ==> dept == ResolveIn(resolver, LocalPaths(CandidatePaths(primary, others), strip))
    ensures !mappingMode ==> dept == ResolveExactly(resolver, LocalPaths(CandidatePaths(primary, others), strip), mount)
  {
    var paths := BuildCandidates(primary, others);
    for i := 0 to |paths|
      invariant mappingMode ==> ResolveIn(resolver, LocalPaths(paths, strip)) == ResolveIn(resolver, LocalPaths(paths, strip)[i..])
      invariant !mappingMode ==>
        ResolveExactly(resolver, LocalPaths(paths, strip), mount) == ResolveExactly(resolver, LocalPaths(paths, strip)[i..], mount)
    {
      var localPath := LocalDepartmentPath(paths[i], strip);
      ghost var rest := LocalPaths(paths, strip)[i..];
      assert rest[0] == localPath && rest[1..] == LocalPaths(paths, strip)[i + 1..];
      if localPath != "" {
        if localPath in resolver {
          ExactIsLongest(resolver.Keys, localPath);
          return Some(resolver[localPath]);
        }
        if mappingMode {
          var bestKey := LongestPrefixKey(resolver.Keys, localPath);
          if bestKey != "" { return Some(resolver[bestKey]); }
        }
      }
    }
    if mappingMode { return None; }
    return mount;
  }

  function ResolveExactly(resolver: map<string, Id>, paths: seq<string>, mount: Option<Id>): Option<Id> {
    if paths == [] then mount
    else if paths[0] != "" && paths[0] in resolver then Some(resolver[paths[0]])
    else ResolveExactly(resolver, paths[1..], mount)
  }

  lemma ExactIsLongest(keys: set<string>, path: string)
    requires path in keys && path != ""
    ensures LongestKey(keys, path) == Some(path)
  {
    LongestIs(keys, path, path);
  }

  function OtherPaths(primary: string, others: seq<string>): seq<string> {
    if others == [] then []
    else
      var p := TrimSpace(others[|others| - 1]);
      OtherPaths(primary, others[..|others| - 1]) + if p != "" && p != TrimSpace(primary) then [p] else []
  }

  /** The main department path first, then the user's other paths without repeating it. */
  function CandidatePaths(primary: string, others: seq<string>): seq<string> {
    (if TrimSpace(primary) != "" then [TrimSpace(primary)] else []) + OtherPaths(primary, others)
  }

  function LocalPaths(paths: seq<string>, strip: string): (r: seq<string>)
    ensures |r| == |paths|
  {
    seq(|paths|, i requires 0 <= i < |paths| => LocalDepartmentPath(paths[i], strip))
  }

  method BuildCandidates(primary: string, others: seq<string>) returns (paths: seq<string>)
    ensures paths == CandidatePaths(primary, others)
  {
    paths := [];
    var main := TrimSpace(primary);
    if main != "" { paths := [main]; }
    ghost var head := paths;
    for i := 0 to |others|
      invariant paths == head + OtherPaths(primary, others[..i])
    {
      assert others[..i + 1][..i] == others[..i];
      var path := TrimSpace(others[i]);
      if path != "" && path != main { paths := paths + [path]; }
    }
    assert others[..|others|] == others;
  }

  /** The longest resolved prefix of a collected path is the path itself once it is resolved. */
  lemma ResolvedPathWins(resolver: map<string, Id>, path: string, rest: seq<string>)
    requires path in resolver && path != ""
    ensures ResolveIn(resolver, [path] + rest) == Some(resolver[path])
  {
    ExactIsLongest(resolver.Keys, path);
  }

  predicate IsAmong(others: seq<string>, q: string) { exists i | 0 <= i < |others| :: TrimSpace(others[i]) == q }

  lemma AmongSnoc(others: seq<string>, q: string)
    requires others != []
    ensures var n := |others| - 1; IsAmong(others, q) <==> IsAmong(others[..n], q) || TrimSpace(others[n]) == q
  {
    var n := |others| - 1;
    assert forall i | 0 <= i < n :: others[..n][i] == others[i];
  }

  lemma {:induction false} OtherPathsAre(primary: string, others: seq<string>, q: string)
    ensures q in OtherPaths(primary, others) <==> q != "" && q != TrimSpace(primary) && IsAmong(others, q)
  {
    if others != [] {
      OtherPathsAre(primary, others[..|others| - 1], q);
      AmongSnoc(others, q);
    }
  }

  /** The main path comes first, unless it is blank; after it come the other paths that are not blank and do not
      repeat it. */
  lemma MainPathFirst(primary: string, others: seq<string>)
    ensures var paths, main := CandidatePaths(primary, others), TrimSpace(primary);
      && (main != "" ==> paths != [] && paths[0] == main && forall i | 0 < i < |paths| :: paths[i] != main)
      && forall q | q != main :: q in paths <==> q != "" && IsAmong(others, q)
  {
    var main, rest := TrimSpace(primary), OtherPaths(primary, others);
    forall q ensures q in rest <==> q != "" && q != main && IsAmong(others, q) {
      OtherPathsAre(primary, others, q);
    }
    var paths := CandidatePaths(primary, others);
    if main != "" {
      assert forall i | 0 < i < |paths| :: paths[i] == rest[i - 1] && rest[i - 1] in rest;
    }
  }

  /** Below a resolved path the main path decides, whatever the other paths say: in mapping mode the user goes to
      the department of its longest resolved prefix, in automatic mode to that of the path itself. */
  lemma MainPathDecides(primary: string, others: seq<string>, strip: string, resolver: map<string, Id>, mount: Option<Id>)
    requires TrimSpace(primary) != ""
    ensures var local := LocalDepartmentPath(TrimSpace(primary), strip);
      var paths := LocalPaths(CandidatePaths(primary, others), strip);
      && (forall root | IsLongest(resolver.Keys, local, root) && local != "" :: ResolveIn(resolver, paths) == Some(resolver[root]))
      && (local != "" && local in resolver ==> ResolveExactly(resolver, paths, mount) == Some(resolver[local]))
  {
    MainPathFirst(primary, others);
    var local := LocalDepartmentPath(TrimSpace(primary), strip);
    forall root | IsLongest(resolver.Keys, local, root) ensures LongestKey(resolver.Keys, local) == Some(root) {
      LongestIs(resolver.Keys, local, root);
    }
  }

  /** When nothing of the user's paths is resolved, mapping mode leaves the user out and automatic mode uses the
      mount. */
  lemma {:induction false} NothingResolved(paths: seq<string>, resolver: map<string, Id>, mount: Option<Id>)
    ensures (forall p, k | p in paths && p != "" && k in resolver && k != "" :: !Covers(k, p)) ==> ResolveIn(resolver, paths) == None
    ensures (forall p | p in paths && p != "" :: p !in resolver) ==> ResolveExactly(resolver, paths, mount) == mount
    decreases |paths|
  {
    if paths != [] {
      assert forall p | p in paths[1..] :: p in paths;
      NothingResolved(paths[1..], resolver, mount);
    }
  }
}
