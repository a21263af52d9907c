/** Automatic mode of the directory sync: every collected remote path becomes one local department
    below the mount, followed by a stable binding key through later renames and moves. */
module AutoSync {
  import opened Options
  import opened DeptForest

  const DESCRIPTION := "enterprise wecom directory sync"

  /** One collected path with its parent path, leaf name and binding key. */
  datatype Item = Item(path: string, parent: string, leaf: string, key: string)

  datatype Binding = Binding(localID: Id, remotePath: string)

  /** The department table, this provider's department bindings by external id, the path index and
      the next unused row id. */
  datatype State = State(depts: Table, bindings: map<string, Binding>, index: map<string, Id>, next: Id)

  // ---- one path, then a whole run --------------------------------------------------------------

  function ParentID(index: map<string, Id>, mount: Option<Id>, it: Item): Option<Id> {
    if it.parent != "" && it.parent in index then Some(index[it.parent]) else mount
  }

  /** The existing department a path is laid on: the bound one first, else the indexed one. */
  function Pick(s: State, it: Item): Option<Id> {
    if it.key in s.bindings && s.bindings[it.key].localID in s.depts then Some(s.bindings[it.key].localID)
    else if it.path in s.index && s.index[it.path] in s.depts then Some(s.index[it.path])
    else None
  }

  function Step(s: State, mount: Option<Id>, it: Item): State {
    var parent := ParentID(s.index, mount, it);
    var picked := Pick(s, it);
    var id := if picked.Some? then picked.value else s.next;
    var row := if picked.Some?
      then s.depts[id].(name := it.leaf, parent := parent, description := Some(DESCRIPTION))
      else Dept(it.leaf, parent, 0, Some(DESCRIPTION));
    State(s.depts[id := row], s.bindings[it.key := Binding(id, it.path)], s.index[it.path := id],
          if picked.Some? then s.next else s.next + 1)
  }

  /** A path is laid below the department its parent is indexed at, or below the mount; on the live department its
      key is bound to, else on the live one it is indexed at, else on a new one. The department keeps its sort
      order, a new one has none, and every other row stays. */
  lemma StepSays(s: State, mount: Option<Id>, it: Item)
    ensures var n := Step(s, mount, it);
      && it.path in n.index
      && var x := n.index[it.path];
        && (if it.key in s.bindings && s.bindings[it.key].localID in s.depts then x == s.bindings[it.key].localID
            else if it.path in s.index && s.index[it.path] in s.depts then x == s.index[it.path]
            else x == s.next && n.next == s.next + 1)
        && n.bindings == s.bindings[it.key := Binding(x, it.path)] && n.index == s.index[it.path := x]
        && x in n.depts && n.depts == s.depts[x := n.depts[x]] && n.depts[x].name == it.leaf
        && n.depts[x].parent == (if it.parent != "" && it.parent in s.index then Some(s.index[it.parent]) else mount)
        && (x in s.depts && x != s.next ==> n.depts[x].sortOrder == s.depts[x].sortOrder)
        && (x !in s.depts ==> n.depts[x].sortOrder == 0)
  {
  }

  function Run(s: State, mount: Option<Id>, items: seq<Item>): State {
    if items == [] then s
    else Step(Run(s, mount, items[..|items| - 1]), mount, items[|items| - 1])
  }

  lemma RunSnoc(s: State, mount: Option<Id>, items: seq<Item>, i: nat)
    requires i < |items|
    ensures Run(s, mount, items[..i + 1]) == Step(Run(s, mount, items[..i]), mount, items[i])
  {
    assert items[..i + 1][..i] == items[..i];
  }

  /** Row ids in use are below next: a new row never collides with a row, a binding or the mount. */
  predicate Valid(s: State, mount: Option<Id>) {
    && (forall x | x in s.depts :: x < s.next && (s.depts[x].parent.Some? ==> s.depts[x].parent.value < s.next))
    && (forall k | k in s.bindings :: s.bindings[k].localID < s.next)
    && (forall p | p in s.index :: s.index[p] in s.depts)
    && (mount.Some? ==> mount.value < s.next)
  }

  /** Paths are listed once each, and a parent path comes before its children. */
  predicate WellOrdered(items: seq<Item>) {
    && (forall i, j | 0 <= i < j < |items| :: items[i].path != items[j].path)
    && (forall i | 0 <= i < |items| :: items[i].path != "" && ParentListed(items, i))
  }

  predicate ParentListed(items: seq<Item>, i: nat)
    requires i < |items|
  {
    items[i].parent == "" || exists j | 0 <= j < i :: items[j].path == items[i].parent
  }

  lemma WellOrderedPrefix(items: seq<Item>, n: nat)
    requires n <= |items| && WellOrdered(items)
    ensures WellOrdered(items[..n])
  {
    forall i | 0 <= i < n ensures ParentListed(items[..n], i) {
      assert ParentListed(items, i);
      if items[i].parent != "" {
        var j :| 0 <= j < i && items[j].path == items[i].parent;
        assert items[..n][j].path == items[..n][i].parent;
      }
    }
  }

  /** The department a path is indexed at. */
  function At(r: State, it: Item): Id {
    if it.path in r.index then r.index[it.path] else 0
  }

  // ---- what every run keeps ------------------------------------------------------------------

  lemma {:induction false} RunGrows(s: State, mount: Option<Id>, items: seq<Item>)
    requires Valid(s, mount)
    ensures var r := Run(s, mount, items);
      && Valid(r, mount) && s.next <= r.next
      && s.depts.Keys <= r.depts.Keys
      && (forall x | x in r.depts && x !in s.depts :: s.next <= x)
      && (forall x | x in s.depts :: r.depts[x].sortOrder == s.depts[x].sortOrder)
  {
    if items != [] { RunGrows(s, mount, items[..|items| - 1]); }
  }

  /** Each processed path ends up indexed at a live department, which its key is bound to. */
  lemma {:induction false} RunBinds(s: State, mount: Option<Id>, items: seq<Item>)
    requires Valid(s, mount) && WellOrdered(items)
    ensures var r := Run(s, mount, items);
      forall i | 0 <= i < |items| :: Bound(r, items[i])
  {
    if items != [] {
      var n := |items| - 1;
      WellOrderedPrefix(items, n);
      RunBinds(s, mount, items[..n]);
      RunGrows(s, mount, items[..n]);
      var q := Run(s, mount, items[..n]);
      forall i | 0 <= i < |items| ensures Bound(Run(s, mount, items), items[i]) {
        if i < n { assert Bound(q, items[..n][i]); }
      }
    }
  }

  predicate Bound(r: State, it: Item) {
    && it.path in r.index && r.index[it.path] in r.depts
    && it.key in r.bindings && r.bindings[it.key].localID == r.index[it.path]
  }

  /** What a run leaves alone. */
  lemma {:induction false} RunFrame(s: State, mount: Option<Id>, items: seq<Item>)
    requires Valid(s, mount) && WellOrdered(items)
    ensures var r := Run(s, mount, items);
      && (forall p | forall i | 0 <= i < |items| :: items[i].path != p ::
            (p in r.index <==> p in s.index) && (p in s.index ==> r.index[p] == s.index[p]))
      && (forall k | forall i | 0 <= i < |items| :: items[i].key != k ::
            (k in r.bindings <==> k in s.bindings) && (k in s.bindings ==> r.bindings[k] == s.bindings[k]))
  {
    if items != [] {
      var n := |items| - 1;
      WellOrderedPrefix(items, n);
      RunFrame(s, mount, items[..n]);
      var q, r := Run(s, mount, items[..n]), Run(s, mount, items);
      forall p | forall i | 0 <= i < |items| :: items[i].path != p
        ensures (p in r.index <==> p in s.index) && (p in s.index ==> r.index[p] == s.index[p])
      {
        assert forall i | 0 <= i < n :: items[..n][i].path != p;
        assert items[n].path != p;
      }
      forall k | forall i | 0 <= i < |items| :: items[i].key != k
        ensures (k in r.bindings <==> k in s.bindings) && (k in s.bindings ==> r.bindings[k] == s.bindings[k])
      {
        assert forall i | 0 <= i < n :: items[..n][i].key != k;
        assert items[n].key != k;
      }
    }
  }

  lemma IndexKeptByStep(q: State, mount: Option<Id>, it: Item, other: Item)
    requires it.path != other.path
    ensures At(Step(q, mount, it), other) == At(q, other)
  {
  }

  lemma BoundInPrefix(s: State, mount: Option<Id>, items: seq<Item>, n: nat, i: nat)
    requires Valid(s, mount) && WellOrdered(items) && i < n <= |items|
    ensures Bound(Run(s, mount, items[..n]), items[i])
  {
    WellOrderedPrefix(items, n);
    RunBinds(s, mount, items[..n]);
    assert items[..n][i] == items[i];
  }

  lemma IndexKeptOnce(s: State, mount: Option<Id>, items: seq<Item>, k: nat, i: nat)
    requires i < k < |items| && items[k].path != items[i].path
    ensures At(Run(s, mount, items[..k + 1]), items[i]) == At(Run(s, mount, items[..k]), items[i])
  {
    RunSnoc(s, mount, items, k);
    IndexKeptByStep(Run(s, mount, items[..k]), mount, items[k], items[i]);
  }

  lemma {:induction false} IndexStableUpTo(s: State, mount: Option<Id>, items: seq<Item>, n: nat, m: nat, i: nat)
    requires i < n <= m <= |items| && forall k | n <= k < m :: items[k].path != items[i].path
    ensures At(Run(s, mount, items[..m]), items[i]) == At(Run(s, mount, items[..n]), items[i])
    decreases m
  {
    if n < m {
      IndexStableUpTo(s, mount, items, n, m - 1, i);
      IndexKeptOnce(s, mount, items, m - 1, i);
    }
  }

  /** Later steps do not move the index entry of an earlier path. */
  lemma IndexStable(s: State, mount: Option<Id>, items: seq<Item>, n: nat, i: nat)
    requires Valid(s, mount) && WellOrdered(items) && i < n <= |items|
    ensures Bound(Run(s, mount, items[..n]), items[i])
    ensures Bound(Run(s, mount, items), items[i])
    ensures At(Run(s, mount, items), items[i]) == At(Run(s, mount, items[..n]), items[i])
  {
    BoundInPrefix(s, mount, items, n, i);
    BoundInPrefix(s, mount, items, |items|, i);
    IndexStableUpTo(s, mount, items, n, |items|, i);
    assert items[..|items|] == items;
  }

  /** A row no processed path is laid on is untouched. */
  lemma {:induction false} RunUntouched(s: State, mount: Option<Id>, items: seq<Item>, x: Id)
    requires Valid(s, mount) && WellOrdered(items)
    requires x in s.depts
    requires forall i | 0 <= i < |items| :: At(Run(s, mount, items), items[i]) != x
    ensures x in Run(s, mount, items).depts && Run(s, mount, items).depts[x] == s.depts[x]
  {
    if items != [] {
      var n := |items| - 1;
      WellOrderedPrefix(items, n);
      RunGrows(s, mount, items[..n]);
      forall i | 0 <= i < n ensures At(Run(s, mount, items[..n]), items[..n][i]) != x {
        IndexStable(s, mount, items, n, i);
        assert items[..n][i] == items[i];
      }
      RunUntouched(s, mount, items[..n], x);
      assert At(Run(s, mount, items), items[n]) != x;
    }
  }

  /** The row carries the path's leaf name, its parent's department (the mount at top level) and
      the sync's mark. */
  predicate Written(r: State, mount: Option<Id>, it: Item) {
    && (it.parent != "" ==> it.parent in r.index)
    && At(r, it) in r.depts
    && r.depts[At(r, it)].name == it.leaf
    && r.depts[At(r, it)].parent == ParentID(r.index, mount, it)
    && r.depts[At(r, it)].description == Some(DESCRIPTION)
  }

  lemma ParentIndexed(s: State, mount: Option<Id>, items: seq<Item>, i: nat)
    requires Valid(s, mount) && WellOrdered(items) && i < |items| && items[i].parent != ""
    ensures items[i].parent in Run(s, mount, items[..i]).index && items[i].parent in Run(s, mount, items).index
    ensures Run(s, mount, items).index[items[i].parent] == Run(s, mount, items[..i]).index[items[i].parent]
    ensures exists k | 0 <= k < i :: items[k].path == items[i].parent
  {
    assert ParentListed(items, i);
    var k :| 0 <= k < i && items[k].path == items[i].parent;
    IndexStable(s, mount, items, i, k);
  }

  /** The row of the last path laid on it carries that path's name, parent and mark. */
  lemma {:induction false} LastWriter(s: State, mount: Option<Id>, items: seq<Item>, n: nat, i: nat)
    requires Valid(s, mount) && WellOrdered(items) && i < n <= |items|
    requires forall j | i < j < |items| :: At(Run(s, mount, items), items[j]) != At(Run(s, mount, items), items[i])
    ensures Written(Run(s, mount, items[..n]), mount, items[i])
    decreases n
  {
    var m := n - 1;
    var it := items[m];
    RunSnoc(s, mount, items, m);
    if i == m {
      if it.parent != "" { ParentIndexed(s, mount, items, i); }
    } else {
      LastWriter(s, mount, items, m, i);
      var q, r := Run(s, mount, items[..m]), Run(s, mount, items[..n]);
      IndexStable(s, mount, items, n, i);
      IndexStable(s, mount, items, n, m);
      assert At(r, it) != At(r, items[i]);
      assert it.path != items[i].path;
      if items[i].parent != "" {
        ParentIndexed(s, mount, items, i);
        var k :| 0 <= k < i && items[k].path == items[i].parent;
        assert items[k].path != items[m].path;
      }
    }
  }

  // ---- which department a path gets ---------------------------------------------------------------

  predicate DistinctKeys(items: seq<Item>) {
    forall i, j | 0 <= i < j < |items| :: items[i].key != items[j].key
  }

  /** With distinct keys, the department of every path is settled before the run starts. */
  lemma PicksAreStatic(s: State, mount: Option<Id>, items: seq<Item>, i: nat)
    requires Valid(s, mount) && WellOrdered(items) && DistinctKeys(items) && i < |items|
    ensures Pick(Run(s, mount, items[..i]), items[i]) == Pick(s, items[i])
    ensures At(Run(s, mount, items), items[i]) ==
            if Pick(s, items[i]).Some? then Pick(s, items[i]).value else Run(s, mount, items[..i]).next
  {
    var q, it := Run(s, mount, items[..i]), items[i];
    assert Pick(q, it) == Pick(s, it) by {
      WellOrderedPrefix(items, i);
      assert forall k | 0 <= k < i :: items[..i][k].key != it.key && items[..i][k].path != it.path;
      PickBeforeRun(s, mount, items[..i], it);
    }
    assert Run(s, mount, items[..i + 1]) == Step(q, mount, it) by { RunSnoc(s, mount, items, i); }
    assert At(Run(s, mount, items), it) == At(Step(q, mount, it), it) by { IndexStable(s, mount, items, i + 1, i); }
  }

  /** Paths with other keys and other names leave a path's pick as it was. */
  lemma PickBeforeRun(s: State, mount: Option<Id>, items: seq<Item>, it: Item)
    requires Valid(s, mount) && WellOrdered(items)
    requires forall k | 0 <= k < |items| :: items[k].key != it.key && items[k].path != it.path
    ensures Pick(Run(s, mount, items), it) == Pick(s, it)
  {
    RunGrows(s, mount, items);
    RunFrame(s, mount, items);
  }

  lemma StepNext(s: State, mount: Option<Id>, it: Item)
    ensures Step(s, mount, it).next == if Pick(s, it).Some? then s.next else s.next + 1
  {
  }

  lemma {:induction false} NextMonotone(s: State, mount: Option<Id>, items: seq<Item>, i: nat, j: nat)
    requires i <= j <= |items|
    ensures Run(s, mount, items[..i]).next <= Run(s, mount, items[..j]).next
    decreases j
  {
    if i < j {
      var k := j - 1;
      NextMonotone(s, mount, items, i, k);
      RunSnoc(s, mount, items, k);
      StepNext(Run(s, mount, items[..k]), mount, items[k]);
    }
  }

  /** Departments created for two different paths are different new rows. */
  lemma FreshAreDistinct(s: State, mount: Option<Id>, items: seq<Item>, i: nat, j: nat)
    requires Valid(s, mount) && WellOrdered(items) && DistinctKeys(items) && i < j < |items|
    requires Pick(s, items[i]).None? && Pick(s, items[j]).None?
    ensures s.next <= At(Run(s, mount, items), items[i]) < At(Run(s, mount, items), items[j])
  {
    var q := Run(s, mount, items[..i]);
    assert At(Run(s, mount, items), items[i]) == q.next && Pick(q, items[i]).None? by {
      PicksAreStatic(s, mount, items, i);
    }
    assert At(Run(s, mount, items), items[j]) == Run(s, mount, items[..j]).next by {
      PicksAreStatic(s, mount, items, j);
    }
    assert s.next <= q.next by {
      WellOrderedPrefix(items, i);
      RunGrows(s, mount, items[..i]);
    }
    assert Run(s, mount, items[..i + 1]).next == q.next + 1 by {
      RunSnoc(s, mount, items, i);
      StepNext(q, mount, items[i]);
    }
    NextMonotone(s, mount, items, i + 1, j);
  }

  /** When every path finds a department, none is created. */
  lemma {:induction false} NothingCreated(s: State, mount: Option<Id>, items: seq<Item>, n: nat)
    requires Valid(s, mount) && WellOrdered(items) && DistinctKeys(items) && n <= |items|
    requires forall i | 0 <= i < |items| :: Pick(s, items[i]).Some?
    ensures Run(s, mount, items[..n]).next == s.next
    ensures Run(s, mount, items[..n]).depts.Keys == s.depts.Keys
  {
    if n > 0 {
      NothingCreated(s, mount, items, n - 1);
      RunSnoc(s, mount, items, n - 1);
      PicksAreStatic(s, mount, items, n - 1);
    }
  }
}
