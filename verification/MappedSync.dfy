/** Mapping mode of the directory sync: the administrator pins some remote departments to local ones,
    and everything below a pinned department is laid out under its local counterpart. */
module MappedSync {
  import opened Options
  import opened DeptPaths
  import opened DeptForest
  import opened PrimaryKeys

  const DESCRIPTION := "enterprise directory mapped subtree sync"

  // ---- splitting a path into names ----------------------------------------------------------------

  /** strings.Split(s, "/"). */
  function Split(s: string): (r: seq<string>)
    ensures r != []
  {
    if s == "" then [""]
    else
      var rest := Split(s[1..]);
      if s[0] == '/' then [""] + rest else [[s[0]] + rest[0]] + rest[1..]
  }

  /** A path extended by one segment after another. */
  function Extended(path: string, segments: seq<string>): string
    decreases |segments|
  {
    if segments == [] then path else Extended(path + "/" + segments[0], segments[1..])
  }

  lemma {:induction false} ExtendedShift(x: string, path: string, segments: seq<string>)
    ensures Extended(x + path, segments) == x + Extended(path, segments)
    decreases |segments|
  {
    if segments == [] {
    } else {
      assert x + path + "/" + segments[0] == x + (path + "/" + segments[0]);
      ExtendedShift(x, path + "/" + segments[0], segments[1..]);
    }
  }

  lemma {:induction false} SplitJoins(s: string)
    ensures Extended(Split(s)[0], Split(s)[1..]) == s
  {
    if s != "" {
      var rest := Split(s[1..]);
      SplitJoins(s[1..]);
      if s[0] == '/' {
        assert ([""] + rest)[1..] == rest;
        assert "" + "/" + rest[0] == "/" + rest[0];
        ExtendedShift("/", rest[0], rest[1..]);
      } else {
        ExtendedShift([s[0]], rest[0], rest[1..]);
      }
    }
  }

  /** Splitting what lies below a root and extending the root by the pieces gives the path back. */
  lemma SplitBelow(root: string, s: string)
    ensures Extended(root, Split(s)) == root + "/" + s
  {
    SplitJoins(s);
    ExtendedShift(root + "/", Split(s)[0], Split(s)[1..]);
  }

  lemma {:induction false} ExtendedSnoc(path: string, segments: seq<string>)
    requires segments != []
    ensures var n := |segments| - 1;
      Extended(path, segments) == Extended(path, segments[..n]) + "/" + segments[n]
    decreases |segments|
  {
    var n := |segments| - 1;
    if n > 0 {
      ExtendedSnoc(path + "/" + segments[0], segments[1..]);
      assert segments[1..][..n - 1] == segments[..n][1..];
    }
  }

  lemma {:induction false} ExtendedCovered(path: string, segments: seq<string>, k: nat)
    requires k <= |segments|
    ensures Covers(Extended(path, segments[..k]), Extended(path, segments))
    ensures |Extended(path, segments[..k])| >= |path| + k
    decreases |segments|
  {
    if k == |segments| {
      assert segments[..k] == segments;
    }
    if segments != [] {
      var n := |segments| - 1;
      ExtendedSnoc(path, segments);
      if k <= n {
        ExtendedCovered(path, segments[..n], k);
        assert segments[..n][..k] == segments[..k];
        var a, b := Extended(path, segments[..n]), Extended(path, segments);
        assert b[..|a| + 1] == a + "/";
        CoversTrans(Extended(path, segments[..k]), a, b);
      } else {
        ExtendedCovered(path, segments[..n], n);
        assert segments[..n][..n] == segments[..n];
      }
    }
  }

  predicate NoSlash(s: string) { forall i | 0 <= i < |s| :: s[i] != '/' }

  lemma {:induction false} SplitHasNoSlash(s: string)
    ensures forall i | 0 <= i < |Split(s)| :: NoSlash(Split(s)[i])
  {
    if s != "" { SplitHasNoSlash(s[1..]); }
  }

  lemma TrimKeepsNoSlash(s: string)
    requires NoSlash(s)
    ensures NoSlash(TrimSpace(s))
  {
    TrimLeftIsSuffix(s, IsSpace);
    TrimRightIsPrefix(TrimLeft(s, IsSpace), IsSpace);
  }

  lemma LastSlashOf(q: string, name: string)
    requires NoSlash(name)
    ensures BeforeLastSlash(q + "/" + name) == q && AfterLastSlash(q + "/" + name) == name
  {
    var s := q + "/" + name;
    LastSlashIsLast(s);
    assert s[|q|] == '/';
    assert forall k | |q| < k < |s| :: s[k] == name[k - |q| - 1] != '/';
  }

  // ---- find or create a child ------------------------------------------------------------------------

  function Matches(t: Table, parent: Id, name: string): set<Id> {
    set x | x in t && t[x].name == name && t[x].parent == Some(parent)
  }

  /** tx.First by name and parent. */
  ghost function First(t: Table, parent: Id, name: string): Option<Id> {
    FirstOf(Matches(t, parent, name))
  }

  datatype State = State(depts: Table, resolved: map<string, Id>, next: Id)

  /** findOrCreateMappedChild. */
  ghost function FindOrCreate(t: Table, next: Id, parent: Id, name: string): (Table, Id, Id) {
    match First(t, parent, name)
    case Some(id) => (t, id, next)
    case None => (t[next := Dept(name, Some(parent), 0, Some(DESCRIPTION))], next, next + 1)
  }

  /** The inner loop: from a resolved path, resolve one name after another. */
  ghost function Walk(st: State, parent: Id, path: string, names: seq<string>): State
    decreases |names|
  {
    if names == [] then st
    else
      var name := TrimSpace(names[0]);
      var current := path + "/" + name;
      if name == "" then Walk(st, parent, path, names[1..])
      else if current in st.resolved then Walk(st, st.resolved[current], current, names[1..])
      else
        var (t, id, next) := FindOrCreate(st.depts, st.next, parent, name);
        Walk(State(t, st.resolved[current := id], next), id, current, names[1..])
  }

  /** root is the longest pinned path that is path or above it. */
  predicate IsLongest(keys: set<string>, path: string, root: string) {
    root in keys && root != "" && Covers(root, path)
    && forall k | k in keys && k != "" && Covers(k, path) :: |k| <= |root|
  }

  lemma LongestUnique(keys: set<string>, path: string, a: string, b: string)
    requires IsLongest(keys, path, a) && IsLongest(keys, path, b)
    ensures a == b
  {
    CoversLinear(a, b, path);
  }

  ghost function LongestKey(keys: set<string>, path: string): (r: Option<string>)
    ensures r.Some? ==> IsLongest(keys, path, r.value)
  {
    if k :| IsLongest(keys, path, k) then Some(k) else None
  }

  // ---- what a walk keeps --------------------------------------------------------------------------------

  predicate Valid(st: State) {
    && (forall x | x in st.depts :: x < st.next && (st.depts[x].parent.Some? ==> st.depts[x].parent.value < st.next))
    && (forall c | c in st.resolved :: st.resolved[c] in st.depts)
  }

  /** c is the path q extended by one name, and its department is q's child of that name. */
  predicate Link(st: State, c: string, q: string, name: string)
    requires c in st.resolved
  {
    && c == q + "/" + name && NoSlash(name)
    && q in st.resolved && st.resolved[c] in st.depts
    && st.depts[st.resolved[c]].name == name
    && st.depts[st.resolved[c]].parent == Some(st.resolved[q])
  }

  /** A resolved path is a pinned root, or linked to the path one segment above it. */
  ghost predicate LinkedAt(st: State, roots: map<string, Id>, c: string)
    requires c in st.resolved
  {
    if c in roots then st.resolved[c] == roots[c] else exists q, name :: Link(st, c, q, name)
  }

  ghost predicate Linked(st: State, roots: map<string, Id>) {
    roots.Keys <= st.resolved.Keys && forall c | c in st.resolved :: LinkedAt(st, roots, c)
  }

  /** Rows and resolved paths are only added, and a lookup that found a child finds the same one. */
  ghost predicate Grows(a: State, b: State) {
    && a.next <= b.next
    && (forall x | x in a.depts :: x in b.depts && b.depts[x] == a.depts[x])
    && (forall x | x in b.depts && x !in a.depts :: a.next <= x)
    && (forall c | c in a.resolved :: c in b.resolved && b.resolved[c] == a.resolved[c])
    && SameFinds(a.depts, b.depts)
  }

  ghost predicate SameFinds(t: Table, t': Table) {
    forall p, name | First(t, p, name).Some? :: First(t', p, name) == First(t, p, name)
  }

  /** What findOrCreateMappedChild promises its caller. */
  ghost predicate Added(t: Table, next: Id, parent: Id, name: string, t': Table, id: Id, next': Id) {
    && id in t' && t'[id].name == name && t'[id].parent == Some(parent)
    && (forall x | x in t :: x in t' && t'[x] == t[x])
    && (forall x | x in t' && x !in t :: x == next < next' && t'[x].parent == Some(parent))
    && next <= next'
    && SameFinds(t, t')
  }

  lemma FindOrCreateAdds(t: Table, next: Id, parent: Id, name: string)
    requires forall x | x in t :: x < next
    ensures var (t', id, next') := FindOrCreate(t, next, parent, name);
      Added(t, next, parent, name, t', id, next') && First(t', parent, name) == Some(id)
  {
    var (t', id, next') := FindOrCreate(t, next, parent, name);
    if First(t, parent, name).None? {
      assert Matches(t', parent, name) == {next};
      forall p, n | First(t, p, n).Some? ensures First(t', p, n) == First(t, p, n) {
        assert Matches(t', p, n) == Matches(t, p, n);
      }
    }
  }

  lemma LinkKept(st: State, st': State, roots: map<string, Id>, c: string)
    requires c in st.resolved && LinkedAt(st, roots, c)
    requires forall x | x in st.depts :: x in st'.depts && st'.depts[x] == st.depts[x]
    requires forall k | k in st.resolved :: k in st'.resolved && st'.resolved[k] == st.resolved[k]
    ensures LinkedAt(st', roots, c)
  {
    if c !in roots {
      var q, name :| Link(st, c, q, name);
      assert Link(st', c, q, name);
    }
  }

  /** One name resolved by lookup or creation. */
  lemma StepValid(st: State, path: string, name: string, current: string, t: Table, id: Id, next: Id)
    requires Valid(st) && path in st.resolved && current !in st.resolved
    requires Added(st.depts, st.next, st.resolved[path], name, t, id, next)
    ensures Valid(State(t, st.resolved[current := id], next))
  {
  }

  lemma StepGrows(st: State, path: string, name: string, current: string, t: Table, id: Id, next: Id)
    requires Valid(st) && path in st.resolved && current !in st.resolved
    requires Added(st.depts, st.next, st.resolved[path], name, t, id, next)
    ensures Grows(st, State(t, st.resolved[current := id], next))
  {
  }

  lemma StepLinkedAt(st: State, roots: map<string, Id>, path: string, name: string, current: string,
                     t: Table, id: Id, next: Id, c: string)
    requires path in st.resolved && NoSlash(name)
    requires current == path + "/" + name && current !in st.resolved && current !in roots
    requires id in t && t[id].name == name && t[id].parent == Some(st.resolved[path])
    requires forall x | x in st.depts :: x in t && t[x] == st.depts[x]
    requires c == current || (c in st.resolved && LinkedAt(st, roots, c))
    ensures LinkedAt(State(t, st.resolved[current := id], next), roots, c)
  {
    var st' := State(t, st.resolved[current := id], next);
    if c == current {
      assert Link(st', c, path, name);
    } else {
      LinkKept(st, st', roots, c);
    }
  }

  lemma StepLinked(st: State, roots: map<string, Id>, path: string, name: string, current: string, t: Table, id: Id, next: Id)
    requires Linked(st, roots) && path in st.resolved && NoSlash(name)
    requires current == path + "/" + name && current !in st.resolved
    requires Added(st.depts, st.next, st.resolved[path], name, t, id, next)
    ensures Linked(State(t, st.resolved[current := id], next), roots)
  {
    var st' := State(t, st.resolved[current := id], next);
    forall c | c in st'.resolved ensures LinkedAt(st', roots, c) {
      StepLinkedAt(st, roots, path, name, current, t, id, next, c);
    }
  }

  lemma GrowsTrans(a: State, b: State, c: State)
    requires Grows(a, b) && Grows(b, c)
    ensures Grows(a, c)
  {
  }

  /** The segments the source keeps: trimmed, blanks dropped. */
  function Kept(names: seq<string>): seq<string> {
    if names == [] then []
    else (if TrimSpace(names[0]) == "" then [] else [TrimSpace(names[0])]) + Kept(names[1..])
  }

  /** A walk keeps every link and only adds rows and resolved paths. */
  lemma {:induction false} WalkKeeps(st: State, roots: map<string, Id>, path: string, names: seq<string>)
    requires Valid(st) && Linked(st, roots) && path in st.resolved
    requires forall i | 0 <= i < |names| :: NoSlash(names[i])
    ensures var r := Walk(st, st.resolved[path], path, names);
      Valid(r) && Linked(r, roots) && Grows(st, r)
    decreases |names|
  {
    if names != [] {
      var name, rest := TrimSpace(names[0]), names[1..];
      var current := path + "/" + name;
      assert forall i | 0 <= i < |rest| :: rest[i] == names[i + 1];
      TrimKeepsNoSlash(names[0]);
      if name == "" {
        WalkKeeps(st, roots, path, rest);
      } else if current in st.resolved {
        WalkKeeps(st, roots, current, rest);
      } else {
        var (t, id, next) := FindOrCreate(st.depts, st.next, st.resolved[path], name);
        FindOrCreateAdds(st.depts, st.next, st.resolved[path], name);
        var st' := State(t, st.resolved[current := id], next);
        StepValid(st, path, name, current, t, id, next);
        StepLinked(st, roots, path, name, current, t, id, next);
        StepGrows(st, path, name, current, t, id, next);
        WalkKeeps(st', roots, current, rest);
        GrowsTrans(st, st', Walk(st', id, current, rest));
      }
    }
  }

  /** A walk resolves the whole path it walked. */
  lemma {:induction false} WalkReaches(st: State, roots: map<string, Id>, path: string, names: seq<string>)
    requires Valid(st) && Linked(st, roots) && path in st.resolved
    requires forall i | 0 <= i < |names| :: NoSlash(names[i])
    ensures Extended(path, Kept(names)) in Walk(st, st.resolved[path], path, names).resolved
    decreases |names|
  {
    if names != [] {
      var name, rest := TrimSpace(names[0]), names[1..];
      var current := path + "/" + name;
      assert forall i | 0 <= i < |rest| :: rest[i] == names[i + 1];
      TrimKeepsNoSlash(names[0]);
      if name == "" {
        assert Kept(names) == Kept(rest);
        WalkReaches(st, roots, path, rest);
      } else {
        assert Kept(names)[0] == name && Kept(names)[1..] == Kept(rest);
        if current in st.resolved {
          WalkReaches(st, roots, current, rest);
        } else {
          var (t, id, next) := FindOrCreate(st.depts, st.next, st.resolved[path], name);
          FindOrCreateAdds(st.depts, st.next, st.resolved[path], name);
          var st' := State(t, st.resolved[current := id], next);
          StepValid(st, path, name, current, t, id, next);
          StepLinked(st, roots, path, name, current, t, id, next);
          WalkReaches(st', roots, current, rest);
        }
      }
    }
  }

  lemma {:induction false} WalkKeepsForest(st: State, parent: Id, path: string, names: seq<string>)
    requires Valid(st) && Acyclic(st.depts) && parent in st.depts
    ensures Acyclic(Walk(st, parent, path, names).depts)
    decreases |names|
  {
    if names != [] {
      var name, rest := TrimSpace(names[0]), names[1..];
      var current := path + "/" + name;
      if name == "" {
        WalkKeepsForest(st, parent, path, rest);
      } else if current in st.resolved {
        WalkKeepsForest(st, st.resolved[current], current, rest);
      } else {
        var (t, id, next) := FindOrCreate(st.depts, st.next, parent, name);
        FindOrCreateAdds(st.depts, st.next, parent, name);
        if First(st.depts, parent, name).None? {
          AcyclicAddLeaf(st.depts, st.next, Dept(name, Some(parent), 0, Some(DESCRIPTION)));
        }
        WalkKeepsForest(State(t, st.resolved[current := id], next), id, current, rest);
      }
    }
  }

  // ---- walking again ---------------------------------------------------------------------------------

  /** In a table that finds whatever the first walk found, the same walk resolves the same paths to the
      same departments and creates nothing. */
  lemma {:induction false} WalkAgain(st: State, roots: map<string, Id>, path: string, names: seq<string>, t2: Table, next2: Id)
    requires Valid(st) && Linked(st, roots) && path in st.resolved
    requires forall i | 0 <= i < |names| :: NoSlash(names[i])
    requires SameFinds(Walk(st, st.resolved[path], path, names).depts, t2)
    ensures Walk(State(t2, st.resolved, next2), st.resolved[path], path, names)
         == State(t2, Walk(st, st.resolved[path], path, names).resolved, next2)
    decreases |names|
  {
    if names != [] {
      var name, rest := TrimSpace(names[0]), names[1..];
      var current := path + "/" + name;
      assert forall i | 0 <= i < |rest| :: rest[i] == names[i + 1];
      TrimKeepsNoSlash(names[0]);
      if name == "" {
        WalkAgain(st, roots, path, rest, t2, next2);
      } else if current in st.resolved {
        WalkAgain(st, roots, current, rest, t2, next2);
      } else {
        var parent := st.resolved[path];
        var (t, id, next) := FindOrCreate(st.depts, st.next, parent, name);
        FindOrCreateAdds(st.depts, st.next, parent, name);
        var st' := State(t, st.resolved[current := id], next);
        StepValid(st, path, name, current, t, id, next);
        StepLinked(st, roots, path, name, current, t, id, next);
        WalkKeeps(st', roots, current, rest);
        FoundAgain(t, Walk(st', id, current, rest).depts, t2, parent, name, id);
        WalkAgain(st', roots, current, rest, t2, next2);
        assert FindOrCreate(t2, next2, parent, name) == (t2, id, next2);
      }
    }
  }

  lemma FoundAgain(a: Table, b: Table, c: Table, parent: Id, name: string, id: Id)
    requires SameFinds(a, b) && SameFinds(b, c) && First(a, parent, name) == Some(id)
    ensures First(c, parent, name) == Some(id)
  {
    assert First(b, parent, name) == First(a, parent, name);
  }
}
