/** The administrator's operations on the department table: moving a department, listing a subtree,
    building the tree for display, and resetting the departments the sync created. */
module Departments {
  import opened Options
  import opened DeptForest
  import AutoSync
  import MappedSync
  import MappedTargets
  import opened Sorting

  // ---- Move -----------------------------------------------------------------------------------

  datatype MoveResult = Moved | NotFound | OntoItself | OntoDescendant

  class DepartmentTable {
    var depts: Table

    constructor (depts: Table)
      ensures this.depts == depts
    {
      this.depts := depts;
    }

    /** Accepted exactly when the department exists and the new parent is outside its own subtree. */
    method Move(id: Id, parentID: Option<Id>) returns (r: MoveResult)
      requires Acyclic(depts)
      modifies this
      ensures r == Moved <==> id in old(depts) && (parentID.Some? ==> !Under(old(depts), parentID.value, id))
      ensures r == NotFound <==> id !in old(depts)
      ensures r == OntoItself <==> id in old(depts) && parentID == Some(id)
      ensures depts == if r == Moved then old(depts)[id := old(depts)[id].(parent := parentID)] else old(depts)
      ensures Acyclic(depts)
    {
      if id !in depts { return NotFound; }
      if parentID.None? {
        depts := depts[id := depts[id].(parent := None)];
        MoveKeepsForest(old(depts), id, None);
        return Moved;
      }
      UnderStep(depts, parentID.value, id);
      if parentID.value == id { return OntoItself; }
      var cursor := parentID;
      AcyclicEnds(depts, parentID.value);
      ghost var n: nat :| Grounded(depts, parentID.value, n);
      while cursor.Some?
        invariant cursor.Some? ==> Grounded(depts, cursor.value, n)
        invariant Under(depts, parentID.value, id) <==> cursor.Some? && Under(depts, cursor.value, id)
        invariant depts == old(depts)
        decreases n
      {
        UnderStep(depts, cursor.value, id);
        if cursor.value == id { return OntoDescendant; }
        if cursor.value !in depts { break; }
        cursor := depts[cursor.value].parent;
        n := n - 1;
      }
      depts := depts[id := depts[id].(parent := parentID)];
      MoveKeepsForest(old(depts), id, parentID);
      return Moved;
    }
  }

  lemma MoveKeepsForest(t: Table, id: Id, parentID: Option<Id>)
    requires Acyclic(t) && id in t
    requires parentID.Some? ==> !Under(t, parentID.value, id)
    ensures Acyclic(t[id := t[id].(parent := parentID)])
  {
    var t' := t[id := t[id].(parent := parentID)];
    if parentID.Some? {
      AcyclicEnds(t, parentID.value);
      var n: nat :| Grounded(t, parentID.value, n);
      EndsUnchanged(t, t', parentID.value, n);
    }
    EndsStep(t', id);
    AcyclicAfterChange(t, t');
  }

  /** Without the check, a move under a descendant always closes a cycle. */
  lemma MoveUnderDescendantCloses(t: Table, id: Id, p: Id)
    requires id in t && Under(t, p, id)
    ensures !Acyclic(t[id := t[id].(parent := Some(p))])
  {
    var t' := t[id := t[id].(parent := Some(p))];
    if Acyclic(t') {
      var k: nat :| Climb(t, p, k) == Some(id);
      var j := FirstHit(t, p, id, k);
      forall i: nat | i < j ensures SameParentAt(t, t', Climb(t, p, i)) { ClimbShorter(t, p, i, j); }
      ClimbUnchanged(t, t', p, j);
      assert Climb(t', id, j + 1) == Some(id);
      EndsNoCycle(t', id, j + 1);
    }
  }

  lemma {:induction false} FirstHit(t: Table, p: Id, a: Id, k: nat) returns (j: nat)
    requires Climb(t, p, k) == Some(a)
    ensures Climb(t, p, j) == Some(a) && j <= k
    ensures forall i: nat | i < j :: Climb(t, p, i) != Some(a)
    decreases k
  {
    if i: nat :| i < k && Climb(t, p, i) == Some(a) {
      j := FirstHit(t, p, a, i);
    } else {
      j := k;
    }
  }

  // ---- GetChildIDs --------------------------------------------------------------------------------

  /** The rows of dept's subtree. */
  ghost function Below(t: Table, dept: Id): set<Id> { set x | x in t && Under(t, x, dept) }

  function ChildrenOf(t: Table, dept: Id, order: seq<Id>): seq<Id> {
    if order == [] then []
    else
      var x := order[|order| - 1];
      ChildrenOf(t, dept, order[..|order| - 1]) + if ParentOf(t, x) == Some(dept) then [x] else []
  }

  lemma {:induction false} ChildrenAre(t: Table, dept: Id, order: seq<Id>)
    requires NoDuplicates(order)
    ensures NoDuplicates(ChildrenOf(t, dept, order))
    ensures forall x :: x in ChildrenOf(t, dept, order) <==> x in order && ParentOf(t, x) == Some(dept)
  {
    if order != [] {
      var n := |order| - 1;
      ChildrenAre(t, dept, order[..n]);
      assert order == order[..n] + [order[n]];
      assert order[n] !in order[..n];
    }
  }

  lemma ChildIsBelow(t: Table, dept: Id, c: Id)
    requires Acyclic(t) && ParentOf(t, c) == Some(dept)
    ensures Below(t, c) <= Below(t, dept)
    ensures !Under(t, dept, c)
    ensures dept in t ==> Below(t, c) < Below(t, dept)
  {
    UnderStep(t, dept, dept);
    UnderStep(t, c, dept);
    forall x | x in Below(t, c) ensures x in Below(t, dept) { UnderTrans(t, x, c, dept); }
    if Under(t, dept, c) {
      AcyclicEnds(t, c);
      UnderAntisym(t, c, dept);
      assert Climb(t, dept, 0) == Some(dept);
      EndsNoCycle(t, c, 1);
    }
    if dept in t { assert dept in Below(t, dept) && dept !in Below(t, c); }
  }

  /** Subtrees of two children share no row. */
  lemma SiblingsDisjoint(t: Table, dept: Id, c: Id, d: Id, x: Id)
    requires Acyclic(t) && c != d && ParentOf(t, c) == Some(dept) && ParentOf(t, d) == Some(dept)
    ensures !(Under(t, x, c) && Under(t, x, d))
  {
    if Under(t, x, c) && Under(t, x, d) {
      UnderLinear(t, x, c, d);
      UnderStep(t, c, d);
      UnderStep(t, d, c);
      ChildIsBelow(t, dept, c);
      ChildIsBelow(t, dept, d);
    }
  }

  /** The id itself and every row below it, each once, whatever order the child queries answer in. */
  method GetChildIDs(t: Table, order: seq<Id>, dept: Id) returns (ids: seq<Id>)
    requires Acyclic(t) && Lists(order, t.Keys)
    ensures NoDuplicates(ids)
    ensures forall x :: x in ids <==> x == dept || (x in t && Under(t, x, dept))
    decreases if dept in t then 0 else 1, Below(t, dept)
  {
    ids := [dept];
    var children := ChildrenOf(t, dept, order);
    ChildrenAre(t, dept, order);
    for i := 0 to |children|
      invariant NoDuplicates(ids)
      invariant forall x :: x in ids <==> x == dept || exists k | 0 <= k < i :: x in t && Under(t, x, children[k])
    {
      var c := children[i];
      assert c in children;
      ChildIsBelow(t, dept, c);
      UnderStep(t, c, c);
      var childIDs := GetChildIDs(t, order, c);
      forall a, b | 0 <= a < |ids| && 0 <= b < |childIDs| ensures ids[a] != childIDs[b] {
        var x := ids[a];
        assert x in ids && childIDs[b] in childIDs;
        if x == childIDs[b] && x != dept {
          var k :| 0 <= k < i && x in t && Under(t, x, children[k]);
          assert children[k] in children;
          SiblingsDisjoint(t, dept, children[k], c, x);
        }
      }
      ids := ids + childIDs;
    }
    forall x ensures x in ids <==> x == dept || (x in t && Under(t, x, dept)) {
      BelowViaChild(t, dept, x, children);
    }
  }

  lemma {:induction false} BelowViaChild(t: Table, dept: Id, x: Id, children: seq<Id>)
    requires forall c :: c in children <==> c in t && ParentOf(t, c) == Some(dept)
    ensures x in t && Under(t, x, dept) && x != dept <==>
            x in t && x != dept && exists k | 0 <= k < |children| :: Under(t, x, children[k])
  {
    if x in t && Under(t, x, dept) && x != dept {
      var j: nat :| Climb(t, x, j) == Some(dept);
      ClimbShorter(t, x, j - 1, j);
      var c := Climb(t, x, j - 1).value;
      ClimbAdd(t, x, j - 1, 1);
      assert Climb(t, c, 1) == Some(dept);
      assert c in children;
      assert Under(t, x, c);
    }
    if k :| 0 <= k < |children| && Under(t, x, children[k]) {
      assert children[k] in children;
      UnderStep(t, dept, dept);
      UnderStep(t, children[k], dept);
      UnderTrans(t, x, children[k], dept);
    }
  }

  // ---- Tree -------------------------------------------------------------------------------------------

  /** A row without a parent, or whose parent row is missing, is shown at the top. */
  predicate IsTop(t: Table, x: Id) { x in t && (t[x].parent.None? || t[x].parent.value !in t) }

  function Tops(t: Table, order: seq<Id>): seq<Id> {
    if order == [] then []
    else
      var x := order[|order| - 1];
      Tops(t, order[..|order| - 1]) + if IsTop(t, x) then [x] else []
  }

  lemma TopsNext(t: Table, order: seq<Id>, i: nat)
    requires i < |order|
    ensures Tops(t, order[..i + 1]) == Tops(t, order[..i]) + if IsTop(t, order[i]) then [order[i]] else []
  {
    assert order[..i + 1][..i] == order[..i];
  }

  lemma ChildrenNext(t: Table, p: Id, order: seq<Id>, i: nat)
    requires i < |order| && order[i] in t
    ensures ChildrenOf(t, p, order[..i + 1]) ==
              ChildrenOf(t, p, order[..i]) + if t[order[i]].parent == Some(p) then [order[i]] else []
  {
    assert order[..i + 1][..i] == order[..i];
  }

  function ChildLists(t: Table, order: seq<Id>): (lists: map<Id, seq<Id>>)
    ensures lists.Keys == t.Keys
  {
    map p | p in t :: ChildrenOf(t, p, order)
  }

  lemma ChildListsNext(t: Table, order: seq<Id>, i: nat)
    requires i < |order| && order[i] in t
    ensures ChildLists(t, order[..i + 1]) == AddChild(t, ChildLists(t, order[..i]), order[i])
  {
    var before, after := ChildLists(t, order[..i]), ChildLists(t, order[..i + 1]);
    var added := AddChild(t, before, order[i]);
    forall p | p in t ensures after[p] == added[p] {
      ChildrenNext(t, p, order, i);
    }
    assert added.Keys == after.Keys;
  }

  function AddChild(t: Table, lists: map<Id, seq<Id>>, x: Id): map<Id, seq<Id>>
    requires x in t && lists.Keys == t.Keys
  {
    if t[x].parent.Some? && t[x].parent.value in t
    then lists[t[x].parent.value := lists[t[x].parent.value] + [x]] else lists
  }

  /** One pass over the rows: each is appended to its parent's children or to the roots. */
  method BuildTree(t: Table, order: seq<Id>) returns (roots: seq<Id>, children: map<Id, seq<Id>>)
    requires Lists(order, t.Keys)
    ensures roots == Tops(t, order) && children == ChildLists(t, order)
  {
    roots := [];
    children := map p | p in t :: [];
    for i := 0 to |order|
      invariant roots == Tops(t, order[..i]) && children == ChildLists(t, order[..i])
    {
      var x := order[i];
      assert x in order;
      TopsNext(t, order, i);
      ChildListsNext(t, order, i);
      if t[x].parent.None? {
        roots := roots + [x];
      } else if t[x].parent.value in t {
        var p := t[x].parent.value;
        children := children[p := children[p] + [x]];
      } else {
        roots := roots + [x];
      }
    }
    assert order[..|order|] == order;
  }

  lemma {:induction false} TopsAre(t: Table, order: seq<Id>)
    requires NoDuplicates(order)
    ensures NoDuplicates(Tops(t, order))
    ensures forall x :: x in Tops(t, order) <==> x in order && IsTop(t, x)
  {
    if order != [] {
      var n := |order| - 1;
      TopsAre(t, order[..n]);
      assert order == order[..n] + [order[n]];
      assert order[n] !in order[..n];
    }
  }

  /** Every department stands in exactly one list of the tree, once: among the roots or among the
      children of its parent. */
  lemma TreePlacesOnce(t: Table, order: seq<Id>, x: Id)
    requires Lists(order, t.Keys) && x in t
    ensures NoDuplicates(Tops(t, order)) && forall p | p in t :: NoDuplicates(ChildrenOf(t, p, order))
    ensures x in Tops(t, order) <==> forall p | p in t :: x !in ChildrenOf(t, p, order)
    ensures forall p, q | p in t && q in t && x in ChildrenOf(t, p, order) && x in ChildrenOf(t, q, order) :: p == q
  {
    TopsAre(t, order);
    forall p | p in t
      ensures NoDuplicates(ChildrenOf(t, p, order))
      ensures x in ChildrenOf(t, p, order) <==> t[x].parent == Some(p)
    {
      ChildrenAre(t, p, order);
    }
  }

  /** x is shown n levels below a root of the tree. */
  ghost predicate ShownAt(t: Table, order: seq<Id>, x: Id, n: nat)
    decreases n, 1
  {
    if n == 0 then x in Tops(t, order) else exists p :: ShownBelow(t, order, x, p, n)
  }

  ghost predicate ShownBelow(t: Table, order: seq<Id>, x: Id, p: Id, n: nat)
    decreases n, 0
  {
    n > 0 && p in t && x in ChildrenOf(t, p, order) && ShownAt(t, order, p, n - 1)
  }

  ghost predicate Shown(t: Table, order: seq<Id>, x: Id) { exists n: nat :: ShownAt(t, order, x, n) }

  lemma TopEnds(t: Table, x: Id)
    requires IsTop(t, x)
    ensures Ends(t, x)
  {
    EndsStep(t, x);
    if t[x].parent.Some? { EndsStep(t, t[x].parent.value); }
  }

  lemma TopRowEnds(t: Table, order: seq<Id>, x: Id)
    requires NoDuplicates(order) && x in Tops(t, order)
    ensures Ends(t, x)
  {
    TopsAre(t, order);
    TopEnds(t, x);
  }

  lemma ChildRowEnds(t: Table, order: seq<Id>, x: Id, p: Id)
    requires NoDuplicates(order) && p in t && x in ChildrenOf(t, p, order) && Ends(t, p)
    ensures Ends(t, x)
  {
    ChildrenAre(t, p, order);
    EndsStep(t, x);
  }

  lemma {:induction false} ShownEnds(t: Table, order: seq<Id>, x: Id, n: nat)
    requires NoDuplicates(order) && ShownAt(t, order, x, n)
    ensures Ends(t, x)
    decreases n
  {
    if n == 0 {
      TopRowEnds(t, order, x);
    } else {
      var p :| ShownBelow(t, order, x, p, n);
      ShownEnds(t, order, p, n - 1);
      ChildRowEnds(t, order, x, p);
    }
  }

  lemma {:induction false} GroundedShown(t: Table, order: seq<Id>, x: Id, n: nat)
    requires Lists(order, t.Keys) && x in t && Grounded(t, x, n)
    ensures Shown(t, order, x)
    decreases n
  {
    TopsAre(t, order);
    assert x in order;
    if IsTop(t, x) {
      assert ShownAt(t, order, x, 0);
    } else {
      var p := t[x].parent.value;
      GroundedShown(t, order, p, n - 1);
      ChildrenAre(t, p, order);
      var k: nat :| ShownAt(t, order, p, k);
      assert ShownBelow(t, order, x, p, k + 1);
      assert ShownAt(t, order, x, k + 1);
    }
  }

  /** Reading the tree from its roots shows every department exactly when the table is a forest. */
  lemma TreeShowsAllIffForest(t: Table, order: seq<Id>)
    requires Lists(order, t.Keys)
    ensures (forall x | x in t :: Shown(t, order, x)) <==> Acyclic(t)
  {
    if forall x | x in t :: Shown(t, order, x) {
      forall x | x in t ensures Ends(t, x) {
        var n: nat :| ShownAt(t, order, x, n);
        ShownEnds(t, order, x, n);
      }
    }
    if Acyclic(t) {
      forall x | x in t ensures Shown(t, order, x) {
        var n: nat :| Grounded(t, x, n);
        GroundedShown(t, order, x, n);
      }
    }
  }

  // ---- ResetManagedDepartments ----------------------------------------------------------------------

  const MANAGED_DESCRIPTIONS := {
    "third-party directory sync",
    "enterprise wecom directory sync",
    "enterprise directory mapped subtree sync",
    "directory sync on-demand"
  }

  function ManagedDepartments(t: Table): set<Id> {
    set x | x in t && t[x].description.Some? && t[x].description.value in MANAGED_DESCRIPTIONS
  }

  /** The marks the syncs leave on the departments they create. */
  predicate IsSyncMark(mark: string) {
    || mark == AutoSync.DESCRIPTION || mark == MappedSync.DESCRIPTION || mark == MappedTargets.ON_DEMAND
    || mark == "third-party directory sync"
  }

  /** A row is deleted exactly when it carries one of them. */
  lemma ManagedAre(t: Table, x: Id)
    ensures x in ManagedDepartments(t) <==> x in t && t[x].description.Some? && IsSyncMark(t[x].description.value)
    ensures AutoSync.DESCRIPTION == "enterprise wecom directory sync"
    ensures MappedSync.DESCRIPTION == "enterprise directory mapped subtree sync"
    ensures MappedTargets.ON_DEMAND == "directory sync on-demand"
  {
  }

  predicate OneOf(gone: set<Id>, x: Option<Id>) { x.Some? && x.value in gone }

  /** Where users and kept children go: the mount, if it exists and is not itself deleted. */
  function Fallback(t: Table, gone: set<Id>, mount: Option<Id>): Option<Id> {
    if mount.Some? && mount.value in t && mount.value !in gone then mount else None
  }

  /** Delete the rows of gone and hang their kept children under the fallback. */
  function ResetDepts(t: Table, gone: set<Id>, fallback: Option<Id>): Table {
    map x | x in t && x !in gone :: if OneOf(gone, t[x].parent) then t[x].(parent := fallback) else t[x]
  }

  function ResetUsers(users: map<nat, Option<Id>>, gone: set<Id>, fallback: Option<Id>): map<nat, Option<Id>> {
    map u | u in users :: if OneOf(gone, users[u]) then fallback else users[u]
  }

  function Members(users: map<nat, Option<Id>>, gone: set<Id>): set<nat> { set u | u in users && OneOf(gone, users[u]) }

  datatype BindingKey = BindingKey(provider: string, externalType: string, externalID: string)

  class ResetTables {
    var depts: Table
    var users: map<nat, Option<Id>>
    var bindings: map<BindingKey, Id>
    var buffered: set<(string, string)>
    /** The setting that maps remote departments to local ones. */
    var mappings: seq<(string, Id)>

    constructor (depts: Table, users: map<nat, Option<Id>>, bindings: map<BindingKey, Id>, buffered: set<(string, string)>,
                 mappings: seq<(string, Id)>)
      ensures this.depts == depts && this.users == users && this.bindings == bindings && this.buffered == buffered
      ensures this.mappings == mappings
    {
      this.depts, this.users, this.bindings, this.buffered := depts, users, bindings, buffered;
      this.mappings := mappings;
    }

    /** The three updates of the transaction: move users out, move kept children out, delete. */
    method DeleteDepartments(gone: set<Id>, fallback: Option<Id>) returns (usersMoved: nat)
      requires gone <= depts.Keys
      modifies this`depts, this`users
      ensures depts == ResetDepts(old(depts), gone, fallback)
      ensures users == ResetUsers(old(users), gone, fallback)
      ensures usersMoved == |Members(old(users), gone)|
    {
      usersMoved := |set u | u in users && users[u].Some? && users[u].value in gone|;
      assert Members(users, gone) == set u | u in users && users[u].Some? && users[u].value in gone;
      users := map u | u in users :: if users[u].Some? && users[u].value in gone then fallback else users[u];
      depts := map x | x in depts ::
        if depts[x].parent.Some? && depts[x].parent.value in gone && x !in gone
        then depts[x].(parent := fallback) else depts[x];
      depts := depts - gone;
    }

    method DeleteBindings(provider: string) returns (bindingsDeleted: nat)
      modifies this`bindings
      ensures bindings == map k | k in old(bindings) && !(k.provider == provider && k.externalType == "department") ::
                            old(bindings)[k]
      ensures bindingsDeleted == |old(bindings)| - |bindings|
    {
      var stale := set k | k in bindings && k.provider == provider && k.externalType == "department";
      var kept := bindings - stale;
      assert kept.Keys == bindings.Keys - stale;
      bindingsDeleted := |stale|;
      bindings := kept;
    }

    method ResetManagedDepartments(provider: string, mount: Option<Id>)
      returns (usersMoved: nat, deleted: nat, bindingsDeleted: nat)
      modifies this
      ensures var gone := ManagedDepartments(old(depts));
              var fb := Fallback(old(depts), gone, mount);
              && depts == ResetDepts(old(depts), gone, fb)
              && users == ResetUsers(old(users), gone, fb)
              && usersMoved == |Members(old(users), gone)| && deleted == |gone|
              && (forall u | u in users :: !OneOf(gone, users[u]))
              && (forall x | x in depts :: x !in gone && !OneOf(gone, depts[x].parent))
      ensures bindings == map k | k in old(bindings) && !(k.provider == provider && k.externalType == "department") ::
                            old(bindings)[k]
      ensures bindingsDeleted == |old(bindings)| - |bindings|
      ensures buffered == set b | b in old(buffered) && b.0 != provider
      ensures mappings == []
    {
      var managed := ManagedDepartments(depts);
      usersMoved := ClearDepartments(managed, mount);
      deleted := |managed|;
      bindingsDeleted := DeleteBindings(provider);
      buffered := set b | b in buffered && b.0 != provider;
      mappings := [];
      ResetLeavesNoDangling(old(depts), old(users), managed, mount);
    }

    method ClearDepartments(managed: set<Id>, mount: Option<Id>) returns (usersMoved: nat)
      requires managed <= depts.Keys
      modifies this`depts, this`users
      ensures depts == ResetDepts(old(depts), managed, Fallback(old(depts), managed, mount))
      ensures users == ResetUsers(old(users), managed, Fallback(old(depts), managed, mount))
      ensures usersMoved == |Members(old(users), managed)|
    {
      var fallback: Option<Id> := None;
      if mount.Some? && mount.value !in managed && mount.value in depts { fallback := mount; }
      usersMoved := 0;
      if |managed| > 0 {
        usersMoved := DeleteDepartments(managed, fallback);
      } else {
        NothingToClear(depts, users, fallback);
      }
    }
  }

  lemma NothingToClear(t: Table, users: map<nat, Option<Id>>, fallback: Option<Id>)
    ensures ResetDepts(t, {}, fallback) == t && ResetUsers(users, {}, fallback) == users && Members(users, {}) == {}
  {
  }

  /** After a reset no user and no department points at a deleted row. */
  lemma ResetLeavesNoDangling(t: Table, users: map<nat, Option<Id>>, gone: set<Id>, mount: Option<Id>)
    ensures var fb := Fallback(t, gone, mount);
      && (forall u | u in users :: !OneOf(gone, ResetUsers(users, gone, fb)[u]))
      && (forall x | x in ResetDepts(t, gone, fb) :: x !in gone && !OneOf(gone, ResetDepts(t, gone, fb)[x].parent))
  {
  }

  /** A reset keeps the table a forest exactly when no deleted department stands above the mount: one
      that does hands its kept child, which leads down to the mount, back to the mount. */
  lemma ResetKeepsForestIff(t: Table, gone: set<Id>, mount: Option<Id>)
    requires Acyclic(t)
    ensures var fb := Fallback(t, gone, mount);
      Acyclic(ResetDepts(t, gone, fb)) <==> (fb.Some? ==> forall a | a in gone :: !Under(t, fb.value, a))
  {
    var fb := Fallback(t, gone, mount);
    if fb.None? {
      ResetToTop(t, gone);
    } else if forall a | a in gone :: !Under(t, fb.value, a) {
      ResetBelowClear(t, gone, fb.value);
    } else {
      var a :| a in gone && Under(t, fb.value, a);
      var k: nat :| Climb(t, fb.value, k) == Some(a);
      ResetClosesCycle(t, gone, fb.value, k);
    }
  }

  /** A reset that closes a cycle: managed department 1 above department 2 above the mount 3. Department 2
      is kept and hung under the mount. */
  lemma ResetCanCloseCycle()
    ensures var t: Table := map[1 := Dept("M", None, 0, Some("directory sync on-demand")), 2 := Dept("K", Some(1), 0, None),
                                3 := Dept("Mount", Some(2), 0, None)];
      && Acyclic(t) && ManagedDepartments(t) == {1} && Fallback(t, {1}, Some(3)) == Some(3)
      && !Acyclic(ResetDepts(t, {1}, Some(3)))
  {
    var t: Table := map[1 := Dept("M", None, 0, Some("directory sync on-demand")), 2 := Dept("K", Some(1), 0, None),
                        3 := Dept("Mount", Some(2), 0, None)];
    assert Grounded(t, 1, 1) && Grounded(t, 2, 2) && Grounded(t, 3, 3);
    assert Climb(t, 3, 1) == Some(2) && Climb(t, 3, 2) == Some(1);
    assert Under(t, 3, 1);
    ResetKeepsForestIff(t, {1}, Some(3));
  }

  lemma ResetToTop(t: Table, gone: set<Id>)
    requires Acyclic(t)
    ensures Acyclic(ResetDepts(t, gone, None))
  {
    var t' := ResetDepts(t, gone, None);
    forall y ensures ParentOf(t', y) == ParentOf(t, y) || Ends(t', y) { EndsStep(t', y); }
    AcyclicAfterChange(t, t');
  }

  lemma ResetBelowClear(t: Table, gone: set<Id>, m: Id)
    requires Acyclic(t) && forall a | a in gone :: !Under(t, m, a)
    ensures Acyclic(ResetDepts(t, gone, Some(m)))
  {
    var t' := ResetDepts(t, gone, Some(m));
    forall y | Under(t, m, y) ensures ParentOf(t', y) == ParentOf(t, y) {
      if ParentOf(t, y).Some? {
        var p := ParentOf(t, y).value;
        UnderStep(t, p, p);
        UnderStep(t, y, p);
        UnderTrans(t, m, y, p);
      }
    }
    AcyclicEnds(t, m);
    var n: nat :| Grounded(t, m, n);
    EndsUnchanged(t, t', m, n);
    forall y ensures ParentOf(t', y) == ParentOf(t, y) || Ends(t', y) { EndsStep(t', y); }
    AcyclicAfterChange(t, t');
  }

  /** The rows from the mount up to the first deleted one keep their parents. */
  lemma ChainBeforeFirstGone(t: Table, gone: set<Id>, m: Id, k: nat, i: nat)
    requires i < k && Climb(t, m, k).Some?
    requires forall j: nat | j <= k && Climb(t, m, j).Some? :: Climb(t, m, j).value in gone <==> j == k
    ensures Climb(t, m, i).Some? && Climb(t, m, i + 1) == ParentOf(t, Climb(t, m, i).value)
    ensures i + 1 < k ==> SameParentAt(t, ResetDepts(t, gone, Some(m)), Climb(t, m, i))
    ensures i + 1 == k ==> ParentOf(ResetDepts(t, gone, Some(m)), Climb(t, m, i).value) == Some(m)
  {
    ClimbShorter(t, m, i, k);
    ClimbShorter(t, m, i + 1, k);
    ClimbAdd(t, m, i, 1);
    var y := Climb(t, m, i).value;
    assert Climb(t, Climb(t, m, i + 1).value, 0) == Climb(t, m, i + 1);
    assert Climb(t, y, 1) == ParentOf(t, y);
    assert y !in gone;
  }

  lemma {:induction false} ResetClosesCycle(t: Table, gone: set<Id>, m: Id, k: nat)
    requires Acyclic(t) && m in t && m !in gone
    requires Climb(t, m, k).Some? && Climb(t, m, k).value in gone
    ensures !Acyclic(ResetDepts(t, gone, Some(m)))
    decreases k
  {
    if j: nat :| j < k && Climb(t, m, j).Some? && Climb(t, m, j).value in gone {
      ResetClosesCycle(t, gone, m, j);
    } else {
      var t' := ResetDepts(t, gone, Some(m));
      assert Climb(t, m, 0) == Some(m);
      ClimbShorter(t, m, k - 1, k);
      var c := Climb(t, m, k - 1).value;
      forall i: nat | i < k - 1 ensures SameParentAt(t, t', Climb(t, m, i)) {
        ChainBeforeFirstGone(t, gone, m, k, i);
      }
      ChainBeforeFirstGone(t, gone, m, k, k - 1);
      ClimbUnchanged(t, t', m, k - 1);
      ClimbAdd(t', m, k - 1, 1);
      assert Climb(t', m, 0) == Some(m) && Climb(t', c, 1) == Some(m);
      assert Climb(t', m, k) == Some(m);
      if Acyclic(t') { EndsNoCycle(t', m, k); }
    }
  }
}
