/** When an automatic run lays the remote tree out correctly, exactly; and that repeating it
    changes nothing. */
module AutoSyncExact {
  import opened Options
  import opened DeptForest
  import opened DeptIndex
  import opened AutoSync

  // ---- the property and its condition ---------------------------------------------------------

  predicate ReadsBack(r: State, mount: Option<Id>, it: Item) {
    it.path in r.index && RelPath(r.depts, mount, r.index[it.path]) == Some(it.path)
  }

  /** The table is a forest and every collected path is the path of its own department. */
  ghost predicate Correct(r: State, mount: Option<Id>, items: seq<Item>) {
    Acyclic(r.depts) && forall i | 0 <= i < |items| :: ReadsBack(r, mount, items[i])
  }

  predicate MountPresent(s: State, mount: Option<Id>) { mount.Some? ==> mount.value in s.depts }

  predicate TrimmedItem(it: Item) {
    it.path == if it.parent == "" then it.leaf else it.parent + "/" + it.leaf
  }

  predicate Trimmed(items: seq<Item>) { forall i | 0 <= i < |items| :: TrimmedItem(items[i]) }

  predicate DistinctPicks(s: State, items: seq<Item>) {
    forall i, j | 0 <= i < j < |items| && Pick(s, items[i]).Some? && Pick(s, items[j]).Some? ::
      Pick(s, items[i]) != Pick(s, items[j])
  }

  ghost predicate BelowMount(s: State, mount: Option<Id>, items: seq<Item>) {
    mount.Some? ==>
      forall i | 0 <= i < |items| && Pick(s, items[i]).Some? :: !Under(s.depts, mount.value, Pick(s, items[i]).value)
  }

  /** Readable off the tables before the run: the mount exists, no path changes under another trim,
      and the keys and the picked departments are distinct and not at or above the mount. */
  ghost predicate Sound(s: State, mount: Option<Id>, items: seq<Item>) {
    items == [] ||
    (MountPresent(s, mount) && Trimmed(items) && DistinctKeys(items) && DistinctPicks(s, items)
     && BelowMount(s, mount, items))
  }

  // ---- sound runs are correct ------------------------------------------------------------------

  lemma SoundSeparates(s: State, mount: Option<Id>, items: seq<Item>, i: nat, j: nat)
    requires Valid(s, mount) && WellOrdered(items) && Sound(s, mount, items)
    requires i < j < |items|
    ensures At(Run(s, mount, items), items[i]) != At(Run(s, mount, items), items[j])
  {
    PickedOrFresh(s, mount, items, i);
    PickedOrFresh(s, mount, items, j);
    if Pick(s, items[i]).None? && Pick(s, items[j]).None? { FreshAreDistinct(s, mount, items, i, j); }
  }

  lemma PickedOrFresh(s: State, mount: Option<Id>, items: seq<Item>, i: nat)
    requires Valid(s, mount) && WellOrdered(items) && DistinctKeys(items) && i < |items|
    ensures var x := At(Run(s, mount, items), items[i]);
      if Pick(s, items[i]).Some? then x == Pick(s, items[i]).value && x in s.depts else s.next <= x
  {
    PicksAreStatic(s, mount, items, i);
    WellOrderedPrefix(items, i);
    RunGrows(s, mount, items[..i]);
  }

  lemma {:induction false} ChainIsOld(s: State, mount: Option<Id>, x: Id, k: nat)
    requires Valid(s, mount) && x < s.next && Climb(s.depts, x, k).Some?
    ensures Climb(s.depts, x, k).value < s.next
    decreases k
  {
    if k > 0 { ChainIsOld(s, mount, ParentOf(s.depts, x).value, k - 1); }
  }

  lemma SoundOffMount(s: State, m: Id, items: seq<Item>, i: nat)
    requires Valid(s, Some(m)) && WellOrdered(items) && Sound(s, Some(m), items) && i < |items|
    ensures !Under(s.depts, m, At(Run(s, Some(m), items), items[i]))
  {
    PickedOrFresh(s, Some(m), items, i);
    var x := At(Run(s, Some(m), items), items[i]);
    if Under(s.depts, m, x) {
      var k: nat :| Climb(s.depts, m, k) == Some(x);
      ChainIsOld(s, Some(m), m, k);
    }
  }

  /** A row that exists only after the run was created for some path. */
  lemma {:induction false} NewRowsAreIndexed(s: State, mount: Option<Id>, items: seq<Item>, x: Id)
    requires Valid(s, mount) && WellOrdered(items)
    requires x in Run(s, mount, items).depts && x !in s.depts
    ensures exists i | 0 <= i < |items| :: At(Run(s, mount, items), items[i]) == x
  {
    if items != [] {
      var n := |items| - 1;
      var q, r := Run(s, mount, items[..n]), Run(s, mount, items);
      WellOrderedPrefix(items, n);
      if x in q.depts {
        NewRowsAreIndexed(s, mount, items[..n], x);
        var i :| 0 <= i < n && At(q, items[..n][i]) == x;
        IndexStable(s, mount, items, n, i);
        assert At(r, items[i]) == x;
      } else {
        assert At(r, items[n]) == x;
      }
    }
  }

  /** A row keeps its parent unless some path is laid on it. */
  lemma ParentKept(s: State, mount: Option<Id>, items: seq<Item>, y: Id)
    requires Valid(s, mount) && WellOrdered(items)
    requires forall i | 0 <= i < |items| :: At(Run(s, mount, items), items[i]) != y
    ensures ParentOf(Run(s, mount, items).depts, y) == ParentOf(s.depts, y)
  {
    if y in s.depts {
      RunUntouched(s, mount, items, y);
    } else if y in Run(s, mount, items).depts {
      NewRowsAreIndexed(s, mount, items, y);
    }
  }

  lemma MountEnds(s: State, m: Id, items: seq<Item>)
    requires Valid(s, Some(m)) && WellOrdered(items) && Sound(s, Some(m), items) && Acyclic(s.depts)
    ensures Ends(Run(s, Some(m), items).depts, m)
  {
    var r := Run(s, Some(m), items);
    AcyclicEnds(s.depts, m);
    var n: nat :| Grounded(s.depts, m, n);
    forall y | Under(s.depts, m, y) ensures ParentOf(r.depts, y) == ParentOf(s.depts, y) {
      forall i | 0 <= i < |items| ensures At(r, items[i]) != y { SoundOffMount(s, m, items, i); }
      ParentKept(s, Some(m), items, y);
    }
    EndsUnchanged(s.depts, r.depts, m, n);
  }

  lemma SoundIsWritten(s: State, mount: Option<Id>, items: seq<Item>, i: nat)
    requires Valid(s, mount) && WellOrdered(items) && Sound(s, mount, items) && i < |items|
    ensures Bound(Run(s, mount, items), items[i])
    ensures Written(Run(s, mount, items), mount, items[i])
    ensures mount != Some(At(Run(s, mount, items), items[i]))
    ensures mount.Some? ==> mount.value in Run(s, mount, items).depts
  {
    var r, x := Run(s, mount, items), At(Run(s, mount, items), items[i]);
    RunBinds(s, mount, items);
    assert Bound(r, items[i]);
    forall j | i < j < |items| ensures At(r, items[j]) != x { SoundSeparates(s, mount, items, i, j); }
    LastWriter(s, mount, items, |items|, i);
    assert items[..|items|] == items;
    RunGrows(s, mount, items);
    if mount.Some? {
      SoundOffMount(s, mount.value, items, i);
      UnderStep(s.depts, mount.value, mount.value);
    }
  }

  lemma {:induction false} SoundReadsBack(s: State, mount: Option<Id>, items: seq<Item>, i: nat)
    requires Valid(s, mount) && WellOrdered(items) && Sound(s, mount, items) && Acyclic(s.depts)
    requires i < |items|
    ensures Ends(Run(s, mount, items).depts, At(Run(s, mount, items), items[i]))
    ensures ReadsBack(Run(s, mount, items), mount, items[i])
    decreases i
  {
    var r, it := Run(s, mount, items), items[i];
    var x := At(r, it);
    SoundIsWritten(s, mount, items, i);
    EndsStep(r.depts, x);
    if it.parent == "" {
      if mount.Some? { MountEnds(s, mount.value, items); }
    } else {
      ParentIndexed(s, mount, items, i);
      var k :| 0 <= k < i && items[k].path == it.parent;
      SoundReadsBack(s, mount, items, k);
      SoundIsWritten(s, mount, items, k);
    }
    assert TrimmedItem(it);
    RelPathStep(r.depts, mount, x);
  }

  lemma SoundIsCorrect(s: State, mount: Option<Id>, items: seq<Item>)
    requires Valid(s, mount) && WellOrdered(items) && Sound(s, mount, items) && Acyclic(s.depts)
    ensures Correct(Run(s, mount, items), mount, items)
  {
    var r := Run(s, mount, items);
    forall i | 0 <= i < |items| ensures ReadsBack(r, mount, items[i]) { SoundReadsBack(s, mount, items, i); }
    forall y ensures ParentOf(r.depts, y) == ParentOf(s.depts, y) || Ends(r.depts, y) {
      if exists i | 0 <= i < |items| :: At(r, items[i]) == y {
        var i :| 0 <= i < |items| && At(r, items[i]) == y;
        SoundReadsBack(s, mount, items, i);
      } else {
        ParentKept(s, mount, items, y);
      }
    }
    AcyclicAfterChange(s.depts, r.depts);
  }

  // ---- correct runs were sound -------------------------------------------------------------------

  lemma CorrectSeparates(r: State, mount: Option<Id>, items: seq<Item>, i: nat, j: nat)
    requires WellOrdered(items) && Correct(r, mount, items) && i < j < |items|
    ensures At(r, items[i]) != At(r, items[j])
  {
    assert ReadsBack(r, mount, items[i]) && ReadsBack(r, mount, items[j]);
  }

  lemma CorrectHasDistinctKeysAndPicks(s: State, mount: Option<Id>, items: seq<Item>)
    requires Valid(s, mount) && WellOrdered(items) && Correct(Run(s, mount, items), mount, items)
    ensures DistinctKeys(items) && DistinctPicks(s, items)
  {
    var r := Run(s, mount, items);
    RunBinds(s, mount, items);
    forall i, j | 0 <= i < j < |items| ensures items[i].key != items[j].key {
      CorrectSeparates(r, mount, items, i, j);
      assert Bound(r, items[i]) && Bound(r, items[j]);
    }
    forall i, j | 0 <= i < j < |items| && Pick(s, items[i]).Some? && Pick(s, items[j]).Some?
      ensures Pick(s, items[i]) != Pick(s, items[j])
    {
      CorrectSeparates(r, mount, items, i, j);
      PicksAreStatic(s, mount, items, i);
      PicksAreStatic(s, mount, items, j);
    }
  }

  lemma CorrectIsWritten(s: State, mount: Option<Id>, items: seq<Item>, i: nat)
    requires Valid(s, mount) && WellOrdered(items) && i < |items|
    requires Correct(Run(s, mount, items), mount, items)
    ensures Written(Run(s, mount, items), mount, items[i])
  {
    var r := Run(s, mount, items);
    forall j | i < j < |items| ensures At(r, items[j]) != At(r, items[i]) { CorrectSeparates(r, mount, items, i, j); }
    LastWriter(s, mount, items, |items|, i);
    assert items[..|items|] == items;
  }

  lemma CorrectHasMountAndTrims(s: State, mount: Option<Id>, items: seq<Item>, i: nat)
    requires Valid(s, mount) && WellOrdered(items) && i < |items|
    requires Correct(Run(s, mount, items), mount, items)
    ensures items[i].parent == "" ==> MountPresent(s, mount)
    ensures TrimmedItem(items[i])
  {
    var r, it := Run(s, mount, items), items[i];
    var x := At(r, it);
    CorrectIsWritten(s, mount, items, i);
    assert ReadsBack(r, mount, it);
    assert Ends(r.depts, x) by { AcyclicEnds(r.depts, x); }
    assert mount != Some(x);
    RelPathStep(r.depts, mount, x);
    assert mount.Some? && mount.value in r.depts && mount.value < s.next ==> mount.value in s.depts by {
      RunGrows(s, mount, items);
    }
    if it.parent != "" {
      ParentIndexed(s, mount, items, i);
      var k :| 0 <= k < i && items[k].path == it.parent;
      assert ReadsBack(r, mount, items[k]);
    }
  }

  /** Were a picked department the mount or above it, the chain from the mount would run into the
      departments laid out below the mount. */
  lemma {:induction false} CorrectAvoidsChain(s: State, m: Id, items: seq<Item>, k: nat)
    requires Valid(s, Some(m)) && WellOrdered(items)
    requires Correct(Run(s, Some(m), items), Some(m), items)
    requires Climb(s.depts, m, k).Some?
    ensures forall i | 0 <= i < |items| :: Climb(s.depts, m, k) != Some(At(Run(s, Some(m), items), items[i]))
    decreases k
  {
    var r := Run(s, Some(m), items);
    forall i | 0 <= i < |items| ensures Climb(s.depts, m, k) != Some(At(r, items[i])) {
      var x := At(r, items[i]);
      if Climb(s.depts, m, k) == Some(x) {
        forall j: nat | j < k ensures SameParentAt(s.depts, r.depts, Climb(s.depts, m, j)) {
          ClimbShorter(s.depts, m, j, k);
          CorrectAvoidsChain(s, m, items, j);
          ParentKept(s, Some(m), items, Climb(s.depts, m, j).value);
        }
        ClimbUnchanged(s.depts, r.depts, m, k);
        assert ReadsBack(r, Some(m), items[i]);
        IndexedBelowMount(r.depts, m, x);
      }
    }
  }

  lemma CorrectIsBelowMount(s: State, mount: Option<Id>, items: seq<Item>)
    requires Valid(s, mount) && WellOrdered(items) && Correct(Run(s, mount, items), mount, items)
    ensures BelowMount(s, mount, items)
  {
    CorrectHasDistinctKeysAndPicks(s, mount, items);
    if mount.Some? {
      forall i | 0 <= i < |items| && Pick(s, items[i]).Some?
        ensures !Under(s.depts, mount.value, Pick(s, items[i]).value)
      {
        PicksAreStatic(s, mount, items, i);
        if Under(s.depts, mount.value, Pick(s, items[i]).value) {
          var k: nat :| Climb(s.depts, mount.value, k) == Some(Pick(s, items[i]).value);
          CorrectAvoidsChain(s, mount.value, items, k);
        }
      }
    }
  }

  // ---- the main theorem -------------------------------------------------------------------------

  /** From any forest, a run lays every collected path on its own department, readable at that path
      in a table that is still a forest, exactly when it started sound. */
  lemma CorrectIffSound(s: State, mount: Option<Id>, items: seq<Item>)
    requires Valid(s, mount) && WellOrdered(items) && Acyclic(s.depts)
    ensures Correct(Run(s, mount, items), mount, items) <==> Sound(s, mount, items)
  {
    if Sound(s, mount, items) { SoundIsCorrect(s, mount, items); }
    if Correct(Run(s, mount, items), mount, items) && items != [] {
      CorrectHasDistinctKeysAndPicks(s, mount, items);
      CorrectIsBelowMount(s, mount, items);
      assert ParentListed(items, 0);
      CorrectHasMountAndTrims(s, mount, items, 0);
      forall i | 0 <= i < |items| ensures TrimmedItem(items[i]) { CorrectHasMountAndTrims(s, mount, items, i); }
    }
  }

  /** First contact with a provider: no bindings yet, distinct keys, trimmed paths. Each path gets
      its own department, and every department no path is laid on keeps its whole row. */
  lemma FirstRun(s: State, mount: Option<Id>, items: seq<Item>)
    requires Valid(s, mount) && WellOrdered(items) && Acyclic(s.depts)
    requires s.bindings == map[] && IsIndex(s.depts, mount, s.index)
    requires MountPresent(s, mount) && Trimmed(items) && DistinctKeys(items)
    ensures Correct(Run(s, mount, items), mount, items)
    ensures forall i, j | 0 <= i < j < |items| ::
              At(Run(s, mount, items), items[i]) != At(Run(s, mount, items), items[j])
    ensures forall x | x in s.depts && (forall i | 0 <= i < |items| :: At(Run(s, mount, items), items[i]) != x) ::
              x in Run(s, mount, items).depts && Run(s, mount, items).depts[x] == s.depts[x]
  {
    if mount.Some? {
      forall i | 0 <= i < |items| && Pick(s, items[i]).Some?
        ensures !Under(s.depts, mount.value, Pick(s, items[i]).value)
      {
        IndexedBelowMount(s.depts, mount.value, Pick(s, items[i]).value);
      }
    }
    assert Sound(s, mount, items);
    SoundIsCorrect(s, mount, items);
    forall i, j | 0 <= i < j < |items|
      ensures At(Run(s, mount, items), items[i]) != At(Run(s, mount, items), items[j])
    {
      SoundSeparates(s, mount, items, i, j);
    }
    forall x | x in s.depts && (forall i | 0 <= i < |items| :: At(Run(s, mount, items), items[i]) != x)
      ensures x in Run(s, mount, items).depts && Run(s, mount, items).depts[x] == s.depts[x]
    {
      RunUntouched(s, mount, items, x);
    }
  }

  /** Every key already bound to its own department, none at or above the mount: the run creates
      nothing, keeps each department's id, and renames or moves it to read back at its new path. */
  lemma BoundRun(s: State, mount: Option<Id>, items: seq<Item>)
    requires Valid(s, mount) && WellOrdered(items) && Acyclic(s.depts)
    requires MountPresent(s, mount) && Trimmed(items) && DistinctKeys(items)
    requires forall i | 0 <= i < |items| :: items[i].key in s.bindings && s.bindings[items[i].key].localID in s.depts
    requires forall i, j | 0 <= i < j < |items| ::
               s.bindings[items[i].key].localID != s.bindings[items[j].key].localID
    requires mount.Some? ==> forall i | 0 <= i < |items| ::
               !Under(s.depts, mount.value, s.bindings[items[i].key].localID)
    ensures Run(s, mount, items).depts.Keys == s.depts.Keys && Run(s, mount, items).next == s.next
    ensures forall i | 0 <= i < |items| :: At(Run(s, mount, items), items[i]) == s.bindings[items[i].key].localID
    ensures Correct(Run(s, mount, items), mount, items)
  {
    SoundIsCorrect(s, mount, items);
    NothingCreated(s, mount, items, |items|);
    assert items[..|items|] == items;
    forall i | 0 <= i < |items|
      ensures At(Run(s, mount, items), items[i]) == s.bindings[items[i].key].localID
    {
      PicksAreStatic(s, mount, items, i);
    }
  }

  /** The family that fails: a new remote department takes over a name whose local department is
      still bound to a renamed one. Both paths are laid on that one row. */
  lemma ReusedNameMerges(s: State, mount: Option<Id>, items: seq<Item>, i: nat, j: nat)
    requires Valid(s, mount) && WellOrdered(items) && Acyclic(s.depts) && DistinctKeys(items)
    requires i < |items| && j < |items| && i != j
    requires items[i].key !in s.bindings && items[i].path in s.index
    requires items[j].key in s.bindings && s.bindings[items[j].key].localID == s.index[items[i].path]
    ensures At(Run(s, mount, items), items[i]) == At(Run(s, mount, items), items[j])
    ensures !Correct(Run(s, mount, items), mount, items)
  {
    PicksAreStatic(s, mount, items, i);
    PicksAreStatic(s, mount, items, j);
    if Correct(Run(s, mount, items), mount, items) { CorrectHasDistinctKeysAndPicks(s, mount, items); }
  }

  /** Remote department 5 was "A" and is now "B"; remote department 6 is the new "A". */
  function RenamedState(): State {
    State(map[1 := Dept("A", None, 0, Some(DESCRIPTION))], map["id:5" := Binding(1, "A")], map["A" := 1], 2)
  }

  function RenamedItems(): seq<Item> {
    [Item("A", "", "A", "id:6"), Item("B", "", "B", "id:5")]
  }

  lemma RenamedStateIsPlausible()
    ensures Valid(RenamedState(), None) && IsIndex(RenamedState().depts, None, RenamedState().index)
    ensures Acyclic(RenamedState().depts)
  {
    assert Grounded(RenamedState().depts, 1, 1);
  }

  lemma RenamedItemsArePlausible()
    ensures WellOrdered(RenamedItems()) && Trimmed(RenamedItems()) && DistinctKeys(RenamedItems())
  {
    assert RenamedItems()[0].key[3] != RenamedItems()[1].key[3];
    assert RenamedItems()[0].path[0] != RenamedItems()[1].path[0];
  }

  lemma RenameAndReuseMerges()
    ensures Valid(RenamedState(), None) && IsIndex(RenamedState().depts, None, RenamedState().index)
    ensures WellOrdered(RenamedItems()) && Trimmed(RenamedItems()) && DistinctKeys(RenamedItems())
    ensures Acyclic(RenamedState().depts)
    ensures !Correct(Run(RenamedState(), None, RenamedItems()), None, RenamedItems())
  {
    RenamedStateIsPlausible();
    RenamedItemsArePlausible();
    assert "id:6" !in RenamedState().bindings by { assert "id:6"[3] != "id:5"[3]; }
    ReusedNameMerges(RenamedState(), None, RenamedItems(), 0, 1);
  }
}
