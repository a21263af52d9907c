/** Where a department sits: its path of names up to the mount department, and the index from
    paths to departments that the directory sync builds before it touches the table. */
module DeptIndex {
  import opened Options
  import opened DeptForest

  /** The names from just below the mount down to cursor, or None when the walk meets a row twice,
      a missing row, or the top without passing the mount. */
  function NamesTo(t: Table, mount: Option<Id>, cursor: Id, visited: set<Id>): Option<seq<string>>
    decreases t.Keys - visited
  {
    if cursor in visited || cursor !in t then None
    else if mount == Some(cursor) then Some([])
    else match t[cursor].parent
      case None => if mount.Some? then None else Some([t[cursor].name])
      case Some(p) => Extend(NamesTo(t, mount, p, visited + {cursor}), [t[cursor].name])
  }

  function Extend(prefix: Option<seq<string>>, parts: seq<string>): Option<seq<string>> {
    if prefix.None? then None else Some(prefix.value + parts)
  }

  /** strings.Join(parts, "/"). */
  function Join(parts: seq<string>): string {
    if |parts| == 0 then ""
    else if |parts| == 1 then parts[0]
    else Join(parts[..|parts| - 1]) + "/" + parts[|parts| - 1]
  }

  function RelPath(t: Table, mount: Option<Id>, id: Id): Option<string> {
    var names := NamesTo(t, mount, id, {});
    if names.None? then None else Some(Join(names.value))
  }

  method DepartmentRelativePath(t: Table, id: Id, mount: Option<Id>) returns (path: string, ok: bool)
    ensures (if ok then Some(path) else None) == RelPath(t, mount, id)
  {
    var parts: seq<string> := [];
    var cursor := id;
    var visited: set<Id> := {};
    ghost var names := NamesTo(t, mount, id, {});
    assert names.Some? ==> names.value + parts == names.value;
    while true
      invariant visited <= t.Keys
      invariant names == Extend(NamesTo(t, mount, cursor, visited), parts)
      decreases t.Keys - visited
    {
      if cursor in visited { return "", false; }
      if cursor !in t { return "", false; }
      var dept := t[cursor];
      if mount == Some(cursor) { break; }
      ghost var above := if dept.parent.Some? then NamesTo(t, mount, dept.parent.value, visited + {cursor}) else None;
      assert above.Some? ==> above.value + [dept.name] + parts == above.value + ([dept.name] + parts);
      visited := visited + {cursor};
      parts := [dept.name] + parts;
      if dept.parent.None? {
        if mount.Some? { return "", false; }
        break;
      }
      cursor := dept.parent.value;
    }
    assert names.Some? && names.value == parts;
    return Join(parts), true;
  }

  // ---- reading a path step by step -----------------------------------------------------------

  lemma {:induction false} VisitedOffChain(t: Table, mount: Option<Id>, x: Id, visited: set<Id>, extra: set<Id>)
    requires forall v | v in extra :: !Under(t, x, v)
    ensures NamesTo(t, mount, x, visited + extra) == NamesTo(t, mount, x, visited)
    decreases t.Keys - visited
  {
    UnderStep(t, x, x);
    if x in t && x !in visited && mount != Some(x) && t[x].parent.Some? {
      var p := t[x].parent.value;
      forall v | v in extra ensures !Under(t, p, v) { UnderStep(t, x, v); }
      VisitedOffChain(t, mount, p, visited + {x}, extra);
      assert visited + {x} + extra == visited + extra + {x};
    }
  }

  lemma NamesStep(t: Table, mount: Option<Id>, x: Id)
    requires Ends(t, x)
    requires x in t && mount != Some(x) && t[x].parent.Some?
    ensures NamesTo(t, mount, x, {}) == Extend(NamesTo(t, mount, t[x].parent.value, {}), [t[x].name])
  {
    var p := t[x].parent.value;
    if Under(t, p, x) {
      UnderStep(t, p, p);
      UnderStep(t, x, p);
      UnderAntisym(t, x, p);
      assert Climb(t, x, 1) == Some(p) by { assert Climb(t, p, 0) == Some(p); }
      EndsNoCycle(t, x, 1);
    }
    VisitedOffChain(t, mount, p, {}, {x});
  }

  /** How a path reads, in terms of the parent's path. */
  lemma RelPathStep(t: Table, mount: Option<Id>, x: Id)
    requires Ends(t, x)
    requires x in t && mount != Some(x)
    ensures var r := RelPath(t, mount, x);
      match t[x].parent
      case None => r == if mount.None? then Some(t[x].name) else None
      case Some(p) =>
        if mount == Some(p) && p in t then r == Some(t[x].name)
        else r == if RelPath(t, mount, p).None? then None else Some(RelPath(t, mount, p).value + "/" + t[x].name)
  {
    if t[x].parent.Some? {
      var p := t[x].parent.value;
      NamesStep(t, mount, x);
      var above := NamesTo(t, mount, p, {});
      if above.Some? {
        var parts := above.value + [t[x].name];
        assert parts[..|parts| - 1] == above.value;
        assert above.value == [] ==> mount == Some(p);
      }
    }
  }

  /** A readable row below the mount has the mount among its proper ancestors. */
  lemma {:induction false} RelPathReaches(t: Table, m: Id, x: Id, visited: set<Id>)
    requires NamesTo(t, Some(m), x, visited).Some?
    ensures Under(t, x, m) && m in t
    decreases t.Keys - visited
  {
    UnderStep(t, x, m);
    if x != m {
      RelPathReaches(t, m, t[x].parent.value, visited + {x});
    }
  }

  // ---- the path index ------------------------------------------------------------------------

  /** Later rows of the query overwrite earlier ones with the same path. */
  function PathIndex(t: Table, mount: Option<Id>, order: seq<Id>): map<string, Id> {
    if order == [] then map[]
    else
      var earlier := PathIndex(t, mount, order[..|order| - 1]);
      var id := order[|order| - 1];
      var path := RelPath(t, mount, id);
      if path.Some? && path.value != "" then earlier[path.value := id] else earlier
  }

  method BuildDepartmentPathIndex(t: Table, mount: Option<Id>, order: seq<Id>) returns (out: map<string, Id>)
    ensures out == PathIndex(t, mount, order)
  {
    out := map[];
    for i := 0 to |order|
      invariant out == PathIndex(t, mount, order[..i])
    {
      assert order[..i + 1][..i] == order[..i];
      var path, ok := DepartmentRelativePath(t, order[i], mount);
      if ok && path != "" { out := out[path := order[i]]; }
    }
    assert order[..|order|] == order;
  }

  /** The index lists exactly the readable paths, each with a department that reads back at it. */
  lemma {:induction false} PathIndexReadsBack(t: Table, mount: Option<Id>, order: seq<Id>)
    ensures var out := PathIndex(t, mount, order);
      && (forall p | p in out :: p != "" && out[p] in order && RelPath(t, mount, out[p]) == Some(p))
      && (forall id | id in order && RelPath(t, mount, id).Some? && RelPath(t, mount, id).value != ""
           :: RelPath(t, mount, id).value in out)
  {
    if order != [] {
      PathIndexReadsBack(t, mount, order[..|order| - 1]);
      assert order == order[..|order| - 1] + [order[|order| - 1]];
    }
  }

  predicate IsIndex(t: Table, mount: Option<Id>, index: map<string, Id>) {
    forall p | p in index :: p != "" && RelPath(t, mount, index[p]) == Some(p)
  }

  /** An indexed department is neither the mount nor above it. */
  lemma IndexedBelowMount(t: Table, m: Id, x: Id)
    requires Acyclic(t)
    requires RelPath(t, Some(m), x).Some? && RelPath(t, Some(m), x).value != ""
    ensures !Under(t, m, x)
  {
    RelPathReaches(t, m, x, {});
    if Under(t, m, x) {
      AcyclicEnds(t, x);
      UnderAntisym(t, x, m);
    }
  }
}
