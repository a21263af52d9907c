/** Mapping mode end to end: what a snapshot with trimmed segments is promised. */
module MappedSnapshot {
  import opened Options
  import opened DeptPaths
  import opened DeptForest
  import opened RemotePaths
  import opened MappedSync
  import opened MappedRuns
  import opened MappedPlaces
  import DirectorySync

  predicate NotBlank(s: string) { s != "" && TrimSpace(s) == s }

  /** The first piece may continue one that began earlier: it starts with c and does not end in a space;
      the others are not blank. */
  predicate GoodPieces(pieces: seq<string>, c: char) {
    && pieces != []
    && (c != '/' ==> pieces[0] != "" && pieces[0][0] == c && !IsSpace(pieces[0][|pieces[0]| - 1]))
    && (forall i | 0 < i < |pieces| :: NotBlank(pieces[i]))
  }

  /** The pieces of a tight string without empty segments. */
  lemma {:induction false} PiecesAreTrimmed(s: string)
    requires TightAfterFirst(s) && s != "" && s[|s| - 1] != '/' && !HasDoubleSlash(s)
    ensures GoodPieces(Split(s), s[0])
    decreases |s|
  {
    var t := s[1..];
    if t == "" {
      assert Split(t) == [""];
      assert !IsSpace(s[0]);
    } else {
      assert TightAfterFirst(t) by { assert forall i | 0 <= i < |t| :: t[i] == s[i + 1]; }
      assert !HasDoubleSlash(t) by {
        assert forall i: nat | i < |t| && DoubleSlashAt(t, i) :: DoubleSlashAt(s, i + 1);
      }
      PiecesAreTrimmed(t);
      assert DoubleSlashAt(s, 0) <==> s[0] == '/' && t[0] == '/';
      FirstPiece(s, Split(t));
    }
  }

  lemma FirstPiece(s: string, rest: seq<string>)
    requires |s| >= 2 && TightAfterFirst(s) && !DoubleSlashAt(s, 0)
    requires GoodPieces(rest, s[1]) && (s[1] == '/' ==> rest[0] == "")
    ensures GoodPieces(if s[0] == '/' then [""] + rest else [[s[0]] + rest[0]] + rest[1..], s[0])
  {
    if s[0] == '/' { TrimFixed(rest[0], IsSpace); }
  }

  lemma {:induction false} KeepsAll(names: seq<string>)
    requires forall i | 0 <= i < |names| :: NotBlank(names[i])
    ensures Kept(names) == names
  {
    if names != [] { KeepsAll(names[1..]); }
  }

  lemma NeatIsKept(s: string)
    requires Neat(s) && s != ""
    ensures Kept(Split(s)) == Split(s)
  {
    PiecesAreTrimmed(s);
    TrimFixed(Split(s)[0], IsSpace);
    KeepsAll(Split(s));
  }

  lemma TailIsKept(p: string, root: string)
    requires Neat(p) && Covers(root, p) && p != root
    ensures Kept(Split(p[|root| + 1..])) == Split(p[|root| + 1..])
  {
    var k := |root|;
    assert p[k] == (root + "/")[k];
    assert DoubleSlashAt(p, k) == (k + 1 < |p| && p[k + 1] == '/');
    NeatSlice(p, k + 1, |p|);
    assert p[k + 1..] == p[k + 1..|p|];
    NeatIsKept(p[k + 1..]);
  }

  lemma RootsAreLinked(t: Table, next: Id, roots: map<string, Id>)
    ensures Linked(State(t, roots, next), roots)
  {
  }

  /** End to end: every path of a snapshot with trimmed segments that lies below its longest mapped root is
      resolved, and names spell it up to the root's department. */
  lemma SnapshotIsSpelled(t: Table, next: Id, roots: map<string, Id>, snap: Snapshot, strip: string,
                          paths: seq<string>, p: string, root: string)
    requires Valid(State(t, roots, next)) && DirectorySync.TightSnapshot(snap)
    requires Processes(paths, SnapshotPaths(snap, strip)) && p in SnapshotPaths(snap, strip)
    requires IsLongest(roots.Keys, p, root) && p != root
    ensures var r := RunPaths(State(t, roots, next), roots, paths);
      p in r.resolved && Spells(r.depts, r.resolved[p], roots[root], Split(p[|root| + 1..]))
  {
    DirectorySync.TightIsStable(snap, strip, p);
    TailIsKept(p, root);
    assert p in paths;
    var i: nat :| i < |paths| && paths[i] == p;
    RootsAreLinked(t, next, roots);
    SubtreeIsSpelled(State(t, roots, next), roots, paths, i, root);
  }

  lemma {:induction false} LongestExists(keys: set<string>, path: string, k: string)
    requires "" !in keys && k in keys && Covers(k, path)
    ensures LongestKey(keys, path).Some?
    decreases |path| - |k|
  {
    if !IsLongest(keys, path, k) {
      var longer :| longer in keys && longer != "" && Covers(longer, path) && |longer| > |k|;
      LongestExists(keys, path, longer);
    }
  }

  /** End to end: a remote department with a path of its own is matched exactly when the path is a mapped root
      or below one. */
  lemma MatchedIffMapped(t: Table, next: Id, roots: map<string, Id>, snap: Snapshot, strip: string,
                         paths: seq<string>, d: RemoteDept)
    requires Valid(State(t, roots, next)) && DirectorySync.TightSnapshot(snap) && "" !in roots
    requires Processes(paths, SnapshotPaths(snap, strip)) && d in snap.departments && TrimSpace(d.path) != ""
    ensures LocalDepartmentPath(TrimSpace(d.path), strip) in RunPaths(State(t, roots, next), roots, paths).resolved
       <==> exists root | root in roots :: Covers(root, LocalDepartmentPath(TrimSpace(d.path), strip))
  {
    var p := LocalDepartmentPath(TrimSpace(d.path), strip);
    SharedIffSamePlace(t, next, roots, paths);
    if p in LayoutPaths(roots, paths) { LaidBelowRoots(roots, paths, p); }
    if k :| k in roots && Covers(k, p) {
      LongestExists(roots.Keys, p, k);
      var root := LongestKey(roots.Keys, p).value;
      if p == root {
        RootsLaid(roots, paths);
      } else {
        DeptPathCollected(snap, strip, d);
        SnapshotIsSpelled(t, next, roots, snap, strip, paths, p, root);
      }
    }
  }
}
