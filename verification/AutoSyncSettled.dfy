/** Which tables an automatic run leaves exactly as they are. A dry run of the sync lays departments out
    like a real one, so this is also when a dry run writes nothing. */
module AutoSyncSettled {
  import opened Options
  import opened DeptForest
  import opened AutoSync
  import opened AutoSyncRerun

  /** Every path's key is bound to a live department. */
  predicate AllHomed(s: State, items: seq<Item>) {
    forall i | 0 <= i < |items| :: items[i].key in s.bindings && s.bindings[items[i].key].localID in s.depts
  }

  /** The department a path's key is bound to. */
  function Home(s: State, it: Item): Id {
    if it.key in s.bindings then s.bindings[it.key].localID else 0
  }

  /** Where a path's department belongs: below the home of the path's parent, or below the mount. */
  predicate Hangs(s: State, mount: Option<Id>, items: seq<Item>, i: nat, parent: Option<Id>)
    requires i < |items|
  {
    if items[i].parent == "" then parent == mount
    else forall k | 0 <= k < |items| && items[k].path == items[i].parent :: parent == Some(Home(s, items[k]))
  }

  predicate RowSettled(s: State, mount: Option<Id>, items: seq<Item>, i: nat)
    requires i < |items| && Home(s, items[i]) in s.depts
  {
    var row := s.depts[Home(s, items[i])];
    row.name == items[i].leaf && row.description == Some(DESCRIPTION) && Hangs(s, mount, items, i, row.parent)
  }

  predicate LastOnKey(items: seq<Item>, i: nat)
    requires i < |items|
  {
    forall j | i < j < |items| :: items[j].key != items[i].key
  }

  predicate LastOnHome(s: State, items: seq<Item>, i: nat)
    requires i < |items|
  {
    forall j | i < j < |items| :: Home(s, items[j]) != Home(s, items[i])
  }

  /** Readable off the tables: every key is bound to a live department, and of the paths that share a key
      or a department the last one is what the binding and the row say. */
  predicate Settled(s: State, mount: Option<Id>, items: seq<Item>) {
    && AllHomed(s, items)
    && (forall i | 0 <= i < |items| && LastOnKey(items, i) :: s.bindings[items[i].key].remotePath == items[i].path)
    && (forall i | 0 <= i < |items| && LastOnHome(s, items, i) :: RowSettled(s, mount, items, i))
  }

  // ---- homes decide the whole run ------------------------------------------------------------------------

  /** n paths in, every key keeps its department, no row was added, and paths sit at their homes. */
  predicate AtHome(s: State, q: State, items: seq<Item>, n: nat)
    requires n <= |items|
  {
    && q.depts.Keys == s.depts.Keys && q.next == s.next
    && q.bindings.Keys == s.bindings.Keys
    && (forall k | k in s.bindings :: q.bindings[k].localID == s.bindings[k].localID)
    && (forall i | 0 <= i < n :: items[i].path in q.index && q.index[items[i].path] == Home(s, items[i]))
  }

  lemma HomeStep(s: State, mount: Option<Id>, q: State, items: seq<Item>, n: nat)
    requires n < |items| && WellOrdered(items) && AtHome(s, q, items, n)
    requires items[n].key in s.bindings && s.bindings[items[n].key].localID in s.depts
    ensures AtHome(s, Step(q, mount, items[n]), items, n + 1)
  {
    assert Pick(q, items[n]) == Some(Home(s, items[n]));
    assert forall i | 0 <= i < n :: items[i].path != items[n].path;
  }

  lemma StartsHome(s: State, mount: Option<Id>, items: seq<Item>)
    ensures AtHome(s, Run(s, mount, items[..0]), items, 0)
  {
  }

  lemma {:induction false} RunStaysHome(s: State, mount: Option<Id>, items: seq<Item>, n: nat)
    requires WellOrdered(items) && AllHomed(s, items) && n <= |items|
    ensures AtHome(s, Run(s, mount, items[..n]), items, n)
    decreases n
  {
    if n == 0 {
      StartsHome(s, mount, items);
    } else {
      var m := n - 1;
      RunStaysHome(s, mount, items, m);
      assert Run(s, mount, items[..n]) == Step(Run(s, mount, items[..m]), mount, items[m]) by { RunSnoc(s, mount, items, m); }
      HomeStep(s, mount, Run(s, mount, items[..m]), items, m);
    }
  }

  lemma {:induction false} LastUser(items: seq<Item>, i: nat, n: nat) returns (l: nat)
    requires i < n <= |items| && forall j | n <= j < |items| :: items[j].key != items[i].key
    ensures l < |items| && items[l].key == items[i].key && LastOnKey(items, l)
    decreases n
  {
    if items[n - 1].key == items[i].key { l := n - 1; } else { l := LastUser(items, i, n - 1); }
  }

  lemma {:induction false} LastResident(s: State, items: seq<Item>, i: nat, n: nat) returns (l: nat)
    requires i < n <= |items| && forall j | n <= j < |items| :: Home(s, items[j]) != Home(s, items[i])
    ensures l < |items| && Home(s, items[l]) == Home(s, items[i]) && LastOnHome(s, items, l)
    decreases n
  {
    if Home(s, items[n - 1]) == Home(s, items[i]) { l := n - 1; } else { l := LastResident(s, items, i, n - 1); }
  }

  // ---- the run writes what is already there --------------------------------------------------------------

  lemma SettledBinding(s: State, mount: Option<Id>, items: seq<Item>, i: nat)
    requires Valid(s, mount) && WellOrdered(items) && Settled(s, mount, items) && i < |items|
    ensures items[i].key in Run(s, mount, items).bindings
    ensures Run(s, mount, items).bindings[items[i].key] == s.bindings[items[i].key]
  {
    var l := LastUser(items, i, |items|);
    LastBinder(s, mount, items, |items|, l);
    assert items[..|items|] == items;
    RunStaysHome(s, mount, items, |items|);
  }

  lemma SettledRow(s: State, mount: Option<Id>, items: seq<Item>, i: nat)
    requires Valid(s, mount) && WellOrdered(items) && Settled(s, mount, items) && i < |items|
    ensures Home(s, items[i]) in Run(s, mount, items).depts
    ensures Run(s, mount, items).depts[Home(s, items[i])] == s.depts[Home(s, items[i])]
  {
    var r := Run(s, mount, items);
    var l := LastResident(s, items, i, |items|);
    var x := Home(s, items[l]);
    AtHomeInTheEnd(s, mount, items);
    assert Written(r, mount, items[l]) by {
      assert items[..|items|] == items;
      LastWriter(s, mount, items, |items|, l);
    }
    assert r.depts[x].sortOrder == s.depts[x].sortOrder by { RunGrows(s, mount, items); }
    assert RowSettled(s, mount, items, l);
    SameParentOfSettled(s, mount, items, l, r);
  }

  lemma AtHomeInTheEnd(s: State, mount: Option<Id>, items: seq<Item>)
    requires WellOrdered(items) && AllHomed(s, items)
    ensures AtHome(s, Run(s, mount, items), items, |items|)
  {
    RunStaysHome(s, mount, items, |items|);
    assert items[..|items|] == items;
  }

  lemma SameParentOfSettled(s: State, mount: Option<Id>, items: seq<Item>, l: nat, r: State)
    requires WellOrdered(items) && AllHomed(s, items) && l < |items| && AtHome(s, r, items, |items|)
    requires RowSettled(s, mount, items, l)
    ensures ParentID(r.index, mount, items[l]) == s.depts[Home(s, items[l])].parent
  {
    assert ParentListed(items, l);
    if items[l].parent != "" {
      var k :| 0 <= k < l && items[k].path == items[l].parent;
    }
  }

  lemma SettledRowsKept(s: State, mount: Option<Id>, items: seq<Item>)
    requires Valid(s, mount) && WellOrdered(items) && Settled(s, mount, items)
    ensures Run(s, mount, items).depts == s.depts
  {
    var r := Run(s, mount, items);
    RunStaysHome(s, mount, items, |items|);
    assert items[..|items|] == items;
    forall x | x in s.depts ensures r.depts[x] == s.depts[x] {
      if i: nat :| i < |items| && Home(s, items[i]) == x {
        SettledRow(s, mount, items, i);
      } else {
        RunUntouched(s, mount, items, x);
      }
    }
  }

  lemma SettledBindingsKept(s: State, mount: Option<Id>, items: seq<Item>)
    requires Valid(s, mount) && WellOrdered(items) && Settled(s, mount, items)
    ensures Run(s, mount, items).bindings == s.bindings
  {
    var r := Run(s, mount, items);
    RunStaysHome(s, mount, items, |items|);
    assert items[..|items|] == items;
    RunFrame(s, mount, items);
    forall k | k in s.bindings ensures r.bindings[k] == s.bindings[k] {
      if i: nat :| i < |items| && items[i].key == k { SettledBinding(s, mount, items, i); }
    }
  }

  // ---- a run that changes nothing found it so --------------------------------------------------------------

  lemma KeptIsHomed(s: State, mount: Option<Id>, items: seq<Item>)
    requires Valid(s, mount) && WellOrdered(items)
    requires Run(s, mount, items).depts == s.depts && Run(s, mount, items).bindings == s.bindings
    ensures AllHomed(s, items)
    ensures forall i | 0 <= i < |items| ::
              items[i].path in Run(s, mount, items).index && At(Run(s, mount, items), items[i]) == Home(s, items[i])
  {
    RunBinds(s, mount, items);
    forall i | 0 <= i < |items| ensures Bound(Run(s, mount, items), items[i]) {}
  }

  lemma KeptRow(s: State, mount: Option<Id>, items: seq<Item>, i: nat)
    requires Valid(s, mount) && WellOrdered(items) && AllHomed(s, items)
    requires Run(s, mount, items).depts == s.depts && Run(s, mount, items).bindings == s.bindings
    requires i < |items| && LastOnHome(s, items, i)
    ensures RowSettled(s, mount, items, i)
  {
    var r := Run(s, mount, items);
    KeptIsHomed(s, mount, items);
    assert items[..|items|] == items;
    LastWriter(s, mount, items, |items|, i);
  }

  /** A run leaves departments and bindings as they are exactly when it finds them settled. */
  lemma UnchangedIffSettled(s: State, mount: Option<Id>, items: seq<Item>)
    requires Valid(s, mount) && WellOrdered(items)
    ensures Run(s, mount, items).depts == s.depts && Run(s, mount, items).bindings == s.bindings
            <==> Settled(s, mount, items)
  {
    if Settled(s, mount, items) {
      SettledRowsKept(s, mount, items);
      SettledBindingsKept(s, mount, items);
    }
    if Run(s, mount, items).depts == s.depts && Run(s, mount, items).bindings == s.bindings {
      KeptIsHomed(s, mount, items);
      assert items[..|items|] == items;
      forall i | 0 <= i < |items| && LastOnKey(items, i) ensures s.bindings[items[i].key].remotePath == items[i].path {
        LastBinder(s, mount, items, |items|, i);
      }
      forall i | 0 <= i < |items| && LastOnHome(s, items, i) ensures RowSettled(s, mount, items, i) {
        KeptRow(s, mount, items, i);
      }
    }
  }

  /** With distinct keys bound to distinct departments, the condition is about each path alone: its key is
      bound to it and its row has its leaf, its parent and the sync's mark. */
  lemma SettledPathByPath(s: State, mount: Option<Id>, items: seq<Item>)
    requires Valid(s, mount) && WellOrdered(items) && DistinctKeys(items) && AllHomed(s, items)
    requires forall i, j | 0 <= i < j < |items| :: Home(s, items[i]) != Home(s, items[j])
    ensures Run(s, mount, items).depts == s.depts && Run(s, mount, items).bindings == s.bindings <==>
            forall i | 0 <= i < |items| ::
              s.bindings[items[i].key] == Binding(Home(s, items[i]), items[i].path) && RowSettled(s, mount, items, i)
  {
    UnchangedIffSettled(s, mount, items);
    assert forall i | 0 <= i < |items| :: LastOnKey(items, i) && LastOnHome(s, items, i);
  }

  // ---- the sync runs twice ------------------------------------------------------------------------------

  lemma {:induction false} FollowUpReadsIndex(b: map<string, Binding>, r: State, r2: State, items: seq<Item>)
    requires forall i | 0 <= i < |items| :: At(r2, items[i]) == At(r, items[i])
    ensures FollowUp(b, r2, items) == FollowUp(b, r, items)
  {
    if items != [] {
      var n := |items| - 1;
      assert forall i | 0 <= i < n :: items[..n][i] == items[i];
      FollowUpReadsIndex(b, r, r2, items[..n]);
    }
  }

  /** A sync lays the departments out once while it stores the snapshot and once more while it applies it;
      the second time finds everything in place. */
  lemma SecondLayoutIsIdle(s: State, mount: Option<Id>, items: seq<Item>, index2: map<string, Id>)
    requires Valid(s, mount) && WellOrdered(items)
    ensures var r := Run(s, mount, items);
      && Run(r.(index := index2), mount, items).depts == r.depts
      && Run(r.(index := index2), mount, items).bindings == r.bindings
      && Run(r.(index := index2), mount, items).next == r.next
      && Apply(r.(index := index2), mount, items).bindings == Apply(s, mount, items).bindings
  {
    var r := Run(s, mount, items);
    RunBinds(s, mount, items);
    forall k | KeyUsed(items, |items|, k) ensures k in r.bindings {
      var i :| 0 <= i < |items| && items[i].key == k;
      assert Bound(r, items[i]);
    }
    RerunChangesNothing(s, mount, items, r.bindings, index2);
    FollowUpReadsIndex(r.bindings, r, Run(r.(index := index2), mount, items), items);
  }

  /** A dry run that writes: an empty table, and a snapshot with the one path "A". */
  lemma DryRunCanWrite()
    ensures var s := State(map[], map[], map[], 1);
      var items := [Item("A", "", "A", "path:A")];
      && Valid(s, None) && WellOrdered(items) && !Settled(s, None, items)
      && Run(s, None, items).depts == map[1 := Dept("A", None, 0, Some(DESCRIPTION))]
      && Run(s, None, items).bindings == map["path:A" := Binding(1, "A")]
  {
    var s, items := State(map[], map[], map[], 1), [Item("A", "", "A", "path:A")];
    assert items[..0] == [];
    assert !AllHomed(s, items) by { assert items[0].key !in s.bindings; }
  }
}
