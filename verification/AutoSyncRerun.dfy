/** Re-running an automatic sync with the same snapshot changes nothing, whatever state the first
    run started from. */
module AutoSyncRerun {
  import opened Options
  import opened DeptForest
  import opened AutoSync

  ghost predicate Touched(r: State, items: seq<Item>, n: nat, x: Id)
    requires n <= |items|
  {
    exists i | 0 <= i < n :: At(r, items[i]) == x
  }

  ghost predicate KeyUsed(items: seq<Item>, n: nat, k: string)
    requires n <= |items|
  {
    exists i | 0 <= i < n :: items[i].key == k
  }

  /** The second run, n paths in: rows and bindings already rewritten look as they did at that point
      of the first run, all others as the first run left them. */
  ghost predicate Replays(q1: State, q2: State, r: State, s2: State, items: seq<Item>, n: nat)
    requires n <= |items|
  {
    && q2.next == s2.next
    && IndexReplays(q2, r, items, n)
    && RowsReplay(q1.depts, q2.depts, r, items, n)
    && BindingsReplay(q1.bindings, q2.bindings, s2.bindings, items, n)
  }

  ghost predicate IndexReplays(q2: State, r: State, items: seq<Item>, n: nat)
    requires n <= |items|
  {
    forall i | 0 <= i < n :: items[i].path in q2.index && At(q2, items[i]) == At(r, items[i])
  }

  ghost predicate RowsReplay(d1: Table, d2: Table, r: State, items: seq<Item>, n: nat)
    requires n <= |items|
  {
    && d2.Keys == r.depts.Keys
    && forall x | x in r.depts ::
         if Touched(r, items, n, x) then x in d1 && d2[x] == d1[x] else d2[x] == r.depts[x]
  }

  ghost predicate BindingsReplay(b1: map<string, Binding>, b2: map<string, Binding>, b: map<string, Binding>,
                                 items: seq<Item>, n: nat)
    requires n <= |items|
  {
    forall k ::
      if KeyUsed(items, n, k) then k in b1 && k in b2 && b2[k] == b1[k]
      else (k in b2 <==> k in b) && (k in b ==> b2[k] == b[k])
  }

  /** The state a second run starts from: the first run's table, and a binding for every key. */
  predicate AfterRun(r: State, s2: State, items: seq<Item>) {
    && s2.depts == r.depts
    && forall i | 0 <= i < |items| ::
         items[i].key in s2.bindings && s2.bindings[items[i].key].localID == At(r, items[i])
  }

  lemma {:induction false} RunsCompose(s: State, mount: Option<Id>, a: seq<Item>, b: seq<Item>)
    ensures Run(s, mount, a + b) == Run(Run(s, mount, a), mount, b)
    decreases |b|
  {
    if b == [] {
      assert a + b == a;
    } else {
      var n := |b| - 1;
      assert a + b[..n] + [b[n]] == a + b && b[..n] + [b[n]] == b;
      assert Run(s, mount, a + b) == Step(Run(s, mount, a + b[..n]), mount, b[n]) by {
        RunOneMore(s, mount, a + b[..n], b[n]);
      }
      assert Run(Run(s, mount, a), mount, b) == Step(Run(Run(s, mount, a), mount, b[..n]), mount, b[n]) by {
        RunOneMore(Run(s, mount, a), mount, b[..n], b[n]);
      }
      RunsCompose(s, mount, a, b[..n]);
    }
  }

  lemma RunOneMore(s: State, mount: Option<Id>, a: seq<Item>, it: Item)
    ensures Run(s, mount, a + [it]) == Step(Run(s, mount, a), mount, it)
  {
    assert (a + [it])[..|a|] == a;
  }

  lemma SortOrderKept(s: State, mount: Option<Id>, items: seq<Item>, n: nat, m: nat, x: Id)
    requires Valid(s, mount) && n <= m <= |items|
    requires x in Run(s, mount, items[..n]).depts
    ensures x in Run(s, mount, items[..m]).depts
    ensures Run(s, mount, items[..m]).depts[x].sortOrder == Run(s, mount, items[..n]).depts[x].sortOrder
  {
    var q := Run(s, mount, items[..n]);
    assert Run(s, mount, items[..m]) == Run(q, mount, items[n..m]) by {
      assert items[..n] + items[n..m] == items[..m];
      RunsCompose(s, mount, items[..n], items[n..m]);
    }
    assert Valid(q, mount) by { RunGrows(s, mount, items[..n]); }
    RunGrows(q, mount, items[n..m]);
  }

  lemma SameParent(s: State, s2: State, mount: Option<Id>, items: seq<Item>, n: nat)
    requires Valid(s, mount) && WellOrdered(items) && n < |items|
    requires Replays(Run(s, mount, items[..n]), Run(s2, mount, items[..n]), Run(s, mount, items), s2, items, n)
    ensures ParentID(Run(s2, mount, items[..n]).index, mount, items[n])
         == ParentID(Run(s, mount, items[..n]).index, mount, items[n])
  {
    if items[n].parent != "" {
      ParentIndexed(s, mount, items, n);
      var k :| 0 <= k < n && items[k].path == items[n].parent;
      assert items[k].path in Run(s2, mount, items[..n]).index;
      IndexStable(s, mount, items, n, k);
    }
  }

  lemma SamePick(s: State, s2: State, mount: Option<Id>, items: seq<Item>, n: nat)
    requires Valid(s, mount) && WellOrdered(items) && n < |items|
    requires AfterRun(Run(s, mount, items), s2, items)
    requires Replays(Run(s, mount, items[..n]), Run(s2, mount, items[..n]), Run(s, mount, items), s2, items, n)
    ensures Pick(Run(s2, mount, items[..n]), items[n]) == Some(At(Run(s, mount, items), items[n]))
  {
    var r, q1 := Run(s, mount, items), Run(s, mount, items[..n]);
    RunBinds(s, mount, items);
    assert Bound(r, items[n]);
    if KeyUsed(items, n, items[n].key) {
      var i :| 0 <= i < n && items[i].key == items[n].key;
      IndexStable(s, mount, items, n, i);
      assert Bound(r, items[i]);
    }
  }

  lemma StepShape(q: State, mount: Option<Id>, it: Item)
    ensures var p := Step(q, mount, it);
      var x := At(p, it);
      && x in p.depts
      && p.depts == q.depts[x := Dept(it.leaf, ParentID(q.index, mount, it), p.depts[x].sortOrder, Some(DESCRIPTION))]
      && p.bindings == q.bindings[it.key := Binding(x, it.path)]
      && p.index == q.index[it.path := x]
      && (Pick(q, it) == Some(x) ==> x in q.depts && p.depts[x].sortOrder == q.depts[x].sortOrder && p.next == q.next)
  {
  }

  lemma RowsStep(d1: Table, d2: Table, r: State, items: seq<Item>, n: nat, row: Dept)
    requires n < |items| && At(r, items[n]) in r.depts
    requires RowsReplay(d1, d2, r, items, n)
    ensures RowsReplay(d1[At(r, items[n]) := row], d2[At(r, items[n]) := row], r, items, n + 1)
  {
    var x := At(r, items[n]);
    forall y ensures Touched(r, items, n + 1, y) <==> Touched(r, items, n, y) || y == x {
      if Touched(r, items, n, y) {
        var i :| 0 <= i < n && At(r, items[i]) == y;
        assert At(r, items[i]) == y;
      }
      assert At(r, items[n]) == x;
    }
  }

  lemma BindingsStep(b1: map<string, Binding>, b2: map<string, Binding>, b: map<string, Binding>,
                     items: seq<Item>, n: nat, v: Binding)
    requires n < |items| && BindingsReplay(b1, b2, b, items, n)
    ensures BindingsReplay(b1[items[n].key := v], b2[items[n].key := v], b, items, n + 1)
  {
    forall k ensures KeyUsed(items, n + 1, k) <==> KeyUsed(items, n, k) || k == items[n].key {
      if KeyUsed(items, n, k) {
        var i :| 0 <= i < n && items[i].key == k;
        assert items[i].key == k;
      }
      assert items[n].key == items[n].key;
    }
  }

  lemma IndexStep(q2: State, r: State, items: seq<Item>, n: nat, p2: State)
    requires n < |items| && WellOrdered(items) && IndexReplays(q2, r, items, n)
    requires p2.index == q2.index[items[n].path := At(r, items[n])]
    ensures IndexReplays(p2, r, items, n + 1)
  {
    forall i | 0 <= i < n + 1 ensures items[i].path in p2.index && At(p2, items[i]) == At(r, items[i]) {
      if i < n { assert items[i].path in q2.index && items[i].path != items[n].path; }
    }
  }

  /** The sort order the second run sees is the one every state of the first run had. */
  lemma ReplayedSortOrder(s: State, mount: Option<Id>, items: seq<Item>, n: nat, x: Id, d2: Table)
    requires Valid(s, mount) && WellOrdered(items) && n < |items| && x in Run(s, mount, items).depts
    requires x in Run(s, mount, items[..n + 1]).depts && x in d2
    requires RowsReplay(Run(s, mount, items[..n]).depts, d2, Run(s, mount, items), items, n)
    ensures d2[x].sortOrder == Run(s, mount, items[..n + 1]).depts[x].sortOrder
  {
    assert items[..|items|] == items;
    SortOrderKept(s, mount, items, n + 1, |items|, x);
    if Touched(Run(s, mount, items), items, n, x) { SortOrderKept(s, mount, items, n, |items|, x); }
  }

  /** Two states that pick the same department, under the same parent and with the same sort order, have the
      same row written. */
  lemma SameStep(q1: State, q2: State, mount: Option<Id>, it: Item, x: Id) returns (row: Dept)
    requires At(Step(q1, mount, it), it) == x && Pick(q2, it) == Some(x)
    requires ParentID(q2.index, mount, it) == ParentID(q1.index, mount, it)
    requires x in q2.depts && x in Step(q1, mount, it).depts
    requires q2.depts[x].sortOrder == Step(q1, mount, it).depts[x].sortOrder
    ensures Step(q1, mount, it).depts == q1.depts[x := row] && Step(q2, mount, it).depts == q2.depts[x := row]
    ensures At(Step(q2, mount, it), it) == x
  {
    StepShape(q1, mount, it);
    StepShape(q2, mount, it);
    row := Step(q1, mount, it).depts[x];
  }

  lemma StepLandsAt(s: State, mount: Option<Id>, items: seq<Item>, n: nat)
    requires Valid(s, mount) && WellOrdered(items) && n < |items|
    ensures var x := At(Run(s, mount, items), items[n]);
      && Run(s, mount, items[..n + 1]) == Step(Run(s, mount, items[..n]), mount, items[n])
      && At(Run(s, mount, items[..n + 1]), items[n]) == x
      && x in Run(s, mount, items[..n + 1]).depts && x in Run(s, mount, items).depts
  {
    RunSnoc(s, mount, items, n);
    IndexStable(s, mount, items, n + 1, n);
  }

  /** Both runs write the same row at step n. */
  lemma SameRow(s: State, s2: State, mount: Option<Id>, items: seq<Item>, n: nat) returns (row: Dept)
    requires Valid(s, mount) && WellOrdered(items) && n < |items|
    requires AfterRun(Run(s, mount, items), s2, items)
    requires Replays(Run(s, mount, items[..n]), Run(s2, mount, items[..n]), Run(s, mount, items), s2, items, n)
    ensures var x := At(Run(s, mount, items), items[n]);
      && x in Run(s, mount, items).depts
      && Run(s, mount, items[..n + 1]).depts == Run(s, mount, items[..n]).depts[x := row]
      && Run(s2, mount, items[..n + 1]).depts == Run(s2, mount, items[..n]).depts[x := row]
      && At(Run(s, mount, items[..n + 1]), items[n]) == At(Run(s2, mount, items[..n + 1]), items[n]) == x
  {
    var it := items[n];
    var q1, q2 := Run(s, mount, items[..n]), Run(s2, mount, items[..n]);
    var x := At(Run(s, mount, items), it);
    StepLandsAt(s, mount, items, n);
    SamePick(s, s2, mount, items, n);
    SameParent(s, s2, mount, items, n);
    ReplayedSortOrder(s, mount, items, n, x, q2.depts);
    row := SameStep(q1, q2, mount, it, x);
    assert Run(s2, mount, items[..n + 1]) == Step(q2, mount, it) by { RunSnoc(s2, mount, items, n); }
  }

  lemma ReplayStep(s: State, s2: State, mount: Option<Id>, items: seq<Item>, n: nat)
    requires Valid(s, mount) && WellOrdered(items) && n < |items|
    requires AfterRun(Run(s, mount, items), s2, items)
    requires Replays(Run(s, mount, items[..n]), Run(s2, mount, items[..n]), Run(s, mount, items), s2, items, n)
    ensures Replays(Run(s, mount, items[..n + 1]), Run(s2, mount, items[..n + 1]), Run(s, mount, items), s2, items, n + 1)
  {
    var r, it := Run(s, mount, items), items[n];
    var q1, q2 := Run(s, mount, items[..n]), Run(s2, mount, items[..n]);
    var p2 := Run(s2, mount, items[..n + 1]);
    var x := At(r, it);
    var row := SameRow(s, s2, mount, items, n);
    RowsStep(q1.depts, q2.depts, r, items, n, row);
    RunSnoc(s, mount, items, n);
    RunSnoc(s2, mount, items, n);
    StepShape(q1, mount, it);
    StepShape(q2, mount, it);
    BindingsStep(q1.bindings, q2.bindings, s2.bindings, items, n, Binding(x, it.path));
    IndexStep(q2, r, items, n, p2);
    SamePick(s, s2, mount, items, n);
  }

  lemma {:induction false} Replay(s: State, s2: State, mount: Option<Id>, items: seq<Item>, n: nat)
    requires Valid(s, mount) && WellOrdered(items) && n <= |items|
    requires AfterRun(Run(s, mount, items), s2, items)
    ensures Replays(Run(s, mount, items[..n]), Run(s2, mount, items[..n]), Run(s, mount, items), s2, items, n)
    decreases n
  {
    if n == 0 {
      RunGrows(s, mount, items);
    } else {
      Replay(s, s2, mount, items, n - 1);
      ReplayStep(s, s2, mount, items, n - 1);
    }
  }

  /** A second run over the same paths rewrites every row and binding to what it already is. The
      bindings may meanwhile have gained other keys; index2 is whatever index the second run builds. */
  lemma RerunChangesNothing(s: State, mount: Option<Id>, items: seq<Item>, bindings2: map<string, Binding>,
                            index2: map<string, Id>)
    requires Valid(s, mount) && WellOrdered(items)
    requires forall k | KeyUsed(items, |items|, k) ::
               k in Run(s, mount, items).bindings && k in bindings2 && bindings2[k] == Run(s, mount, items).bindings[k]
    ensures var r := Run(s, mount, items);
      var r2 := Run(State(r.depts, bindings2, index2, r.next), mount, items);
      && r2.depts == r.depts && r2.bindings == bindings2 && r2.next == r.next
      && forall i | 0 <= i < |items| :: At(r2, items[i]) == At(r, items[i])
  {
    var r := Run(s, mount, items);
    var s2 := State(r.depts, bindings2, index2, r.next);
    StartsAfterRun(s, mount, items, s2);
    Replay(s, s2, mount, items, |items|);
    assert items[..|items|] == items;
    SameTables(r, Run(s2, mount, items), items);
    SameBindings(r.bindings, Run(s2, mount, items).bindings, bindings2, items);
  }

  lemma StartsAfterRun(s: State, mount: Option<Id>, items: seq<Item>, s2: State)
    requires Valid(s, mount) && WellOrdered(items) && s2.depts == Run(s, mount, items).depts
    requires forall k | KeyUsed(items, |items|, k) ::
               k in Run(s, mount, items).bindings && k in s2.bindings && s2.bindings[k] == Run(s, mount, items).bindings[k]
    ensures AfterRun(Run(s, mount, items), s2, items)
  {
    RunBinds(s, mount, items);
    var r := Run(s, mount, items);
    forall i | 0 <= i < |items|
      ensures items[i].key in s2.bindings && s2.bindings[items[i].key].localID == At(r, items[i])
    {
      assert Bound(r, items[i]);
      assert KeyUsed(items, |items|, items[i].key);
    }
  }

  lemma SameBindings(b1: map<string, Binding>, b2: map<string, Binding>, b: map<string, Binding>, items: seq<Item>)
    requires BindingsReplay(b1, b2, b, items, |items|)
    requires forall k | KeyUsed(items, |items|, k) :: k in b1 && k in b && b[k] == b1[k]
    ensures b2 == b
  {
    assert forall k :: (k in b2 <==> k in b) && (k in b ==> b2[k] == b[k]);
  }

  lemma SameTables(r: State, r2: State, items: seq<Item>)
    requires RowsReplay(r.depts, r2.depts, r, items, |items|)
    ensures r2.depts == r.depts
  {
  }

  // ---- the follow-up pass -----------------------------------------------------------------------------

  function PathKey(path: string): string { "path:" + path }

  /** applySnapshot then binds "path:<p>" of every collected path to the department it resolved to. */
  function FollowUp(bindings: map<string, Binding>, r: State, items: seq<Item>): map<string, Binding> {
    if items == [] then bindings
    else
      var it := items[|items| - 1];
      FollowUp(bindings, r, items[..|items| - 1])[PathKey(it.path) := Binding(At(r, it), it.path)]
  }

  /** The state after the sync and its follow-up pass. */
  function Apply(s: State, mount: Option<Id>, items: seq<Item>): State {
    var r := Run(s, mount, items);
    r.(bindings := FollowUp(r.bindings, r, items))
  }

  lemma PathKeysDiffer(p: string, q: string)
    requires p != q
    ensures PathKey(p) != PathKey(q)
  {
    assert PathKey(p)[5..] == p && PathKey(q)[5..] == q;
  }

  lemma {:induction false} FollowUpBinds(bindings: map<string, Binding>, r: State, items: seq<Item>, i: nat)
    requires WellOrdered(items) && i < |items|
    ensures var b := FollowUp(bindings, r, items);
      PathKey(items[i].path) in b && b[PathKey(items[i].path)] == Binding(At(r, items[i]), items[i].path)
    decreases |items|
  {
    var n := |items| - 1;
    if i < n {
      WellOrderedPrefix(items, n);
      FollowUpBinds(bindings, r, items[..n], i);
      PathKeysDiffer(items[i].path, items[n].path);
    }
  }

  lemma {:induction false} FollowUpKeeps(bindings: map<string, Binding>, r: State, items: seq<Item>, k: string)
    requires forall i | 0 <= i < |items| :: k != PathKey(items[i].path)
    ensures var b := FollowUp(bindings, r, items);
      (k in b <==> k in bindings) && (k in bindings ==> b[k] == bindings[k])
    decreases |items|
  {
    if items != [] { FollowUpKeeps(bindings, r, items[..|items| - 1], k); }
  }

  lemma FollowUpAt(bindings: map<string, Binding>, r: State, items: seq<Item>)
    requires WellOrdered(items)
    ensures var b := FollowUp(bindings, r, items);
      && (forall i | 0 <= i < |items| ::
            PathKey(items[i].path) in b && b[PathKey(items[i].path)] == Binding(At(r, items[i]), items[i].path))
      && (forall k | (forall i | 0 <= i < |items| :: k != PathKey(items[i].path)) ::
            (k in b <==> k in bindings) && (k in bindings ==> b[k] == bindings[k]))
  {
    var b := FollowUp(bindings, r, items);
    forall i | 0 <= i < |items|
      ensures PathKey(items[i].path) in b && b[PathKey(items[i].path)] == Binding(At(r, items[i]), items[i].path) {
      FollowUpBinds(bindings, r, items, i);
    }
    forall k | forall i | 0 <= i < |items| :: k != PathKey(items[i].path)
      ensures (k in b <==> k in bindings) && (k in bindings ==> b[k] == bindings[k]) {
      FollowUpKeeps(bindings, r, items, k);
    }
  }

  /** Doing the follow-up again on its own result changes nothing. */
  lemma {:induction false} FollowUpTwice(b: map<string, Binding>, r: State, r2: State, items: seq<Item>)
    requires forall i | 0 <= i < |items| ::
               At(r2, items[i]) == At(r, items[i]) && PathKey(items[i].path) in b
               && b[PathKey(items[i].path)] == Binding(At(r, items[i]), items[i].path)
    ensures FollowUp(b, r2, items) == b
  {
    if items != [] {
      var n := |items| - 1;
      forall i | 0 <= i < n
        ensures At(r2, items[..n][i]) == At(r, items[..n][i]) && PathKey(items[..n][i].path) in b
        ensures b[PathKey(items[..n][i].path)] == Binding(At(r, items[..n][i]), items[..n][i].path)
      {
        assert items[..n][i] == items[i];
      }
      FollowUpTwice(b, r, r2, items[..n]);
      assert At(r2, items[n]) == At(r, items[n]);
    }
  }

  /** The binding of a key holds the department and path of the last path that used it. */
  lemma {:induction false} LastBinder(s: State, mount: Option<Id>, items: seq<Item>, n: nat, i: nat)
    requires Valid(s, mount) && WellOrdered(items) && i < n <= |items|
    requires forall j | i < j < |items| :: items[j].key != items[i].key
    ensures items[i].key in Run(s, mount, items[..n]).bindings
    ensures Run(s, mount, items[..n]).bindings[items[i].key] == Binding(At(Run(s, mount, items), items[i]), items[i].path)
    decreases n
  {
    var m := n - 1;
    RunSnoc(s, mount, items, m);
    StepShape(Run(s, mount, items[..m]), mount, items[m]);
    if i == m {
      IndexStable(s, mount, items, n, i);
    } else {
      LastBinder(s, mount, items, m, i);
    }
  }

  /** A binding key that is some path's "path:" key belongs to that path. */
  predicate ShapedKeys(items: seq<Item>) {
    forall i, j | 0 <= i < |items| && 0 <= j < |items| && items[i].key == PathKey(items[j].path) :: i == j
  }

  /** The follow-up writes each used key with the value the run already gave it. */
  lemma UsedKeyKept(s: State, mount: Option<Id>, items: seq<Item>, i: nat)
    requires Valid(s, mount) && WellOrdered(items) && ShapedKeys(items) && i < |items|
    ensures var r := Run(s, mount, items);
      var b := FollowUp(r.bindings, r, items);
      items[i].key in r.bindings && items[i].key in b && b[items[i].key] == r.bindings[items[i].key]
  {
    var r := Run(s, mount, items);
    RunBinds(s, mount, items);
    assert Bound(r, items[i]);
    FollowUpAt(r.bindings, r, items);
    var k := items[i].key;
    if k == PathKey(items[i].path) {
      assert forall j | i < j < |items| :: items[j].key != k;
      LastBinder(s, mount, items, |items|, i);
      assert items[..|items|] == items;
    } else {
      assert forall j | 0 <= j < |items| :: k != PathKey(items[j].path);
    }
  }

  /** Sync and follow-up, done twice, equal sync and follow-up done once. */
  lemma ApplyTwice(s: State, mount: Option<Id>, items: seq<Item>, index2: map<string, Id>)
    requires Valid(s, mount) && WellOrdered(items) && ShapedKeys(items)
    ensures var a := Apply(s, mount, items);
      var b := Apply(a.(index := index2), mount, items);
      b.depts == a.depts && b.bindings == a.bindings && b.next == a.next
  {
    var r := Run(s, mount, items);
    var b := FollowUp(r.bindings, r, items);
    forall k | KeyUsed(items, |items|, k) ensures k in r.bindings && k in b && b[k] == r.bindings[k] {
      var i :| 0 <= i < |items| && items[i].key == k;
      UsedKeyKept(s, mount, items, i);
    }
    RerunChangesNothing(s, mount, items, b, index2);
    var r2 := Run(State(r.depts, b, index2, r.next), mount, items);
    FollowUpAt(r.bindings, r, items);
    FollowUpTwice(b, r, r2, items);
  }
}
