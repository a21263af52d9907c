/** The local departments that mapped roots are pinned to, read off the configured mappings: an existing one, or
    one to be created by name, which is remembered under a "newdept:" binding. */
module MappedTargets {
  import opened Options
  import opened DeptPaths
  import opened DeptForest
  import opened Sorting
  import opened UniqueNames
  import AutoSync

  type Bindings = map<string, AutoSync.Binding>

  const ON_DEMAND := "directory sync on-demand"

  datatype Target = Existing(id: Id) | Create(name: string, parent: Option<Id>, remoteKey: string)

  datatype Tables = Tables(depts: Table, bindings: Bindings, next: Id)

  /** What a mapping is resolved against: the provider and the mount department. */
  datatype Site = Site(provider: string, mount: Option<Id>)

  // ---- buildMappingResolver ------------------------------------------------------------------------------

  datatype Mapping = Mapping(included: bool, remotePath: string, createLocal: bool, newName: string,
                             newParent: Option<Id>, local: Option<Id>)

  predicate Pins(m: Mapping, strip: string) {
    m.included && TrimSpace(m.remotePath) != "" && LocalDepartmentPath(m.remotePath, strip) != ""
  }

  predicate Creates(m: Mapping) { m.createLocal && TrimSpace(m.newName) != "" }

  /** The mapping names an existing department that is gone. */
  predicate Dangling(t: Table, m: Mapping, strip: string) {
    Pins(m, strip) && !Creates(m) && m.local.Some? && m.local.value !in t
  }

  /** The remote path of the first mapping that creates the department name under parent. */
  function FirstKey(mappings: seq<Mapping>, strip: string, parent: Option<Id>, name: string): string {
    if mappings == [] then ""
    else
      var n := |mappings| - 1;
      var m, k := mappings[n], FirstKey(mappings[..n], strip, parent, name);
      if k == "" && Pins(m, strip) && Creates(m) && m.newParent == parent && m.newName == name
      then LocalDepartmentPath(m.remotePath, strip) else k
  }

  /** A later mapping of the same path replaces an earlier one. */
  function TargetsOf(mappings: seq<Mapping>, strip: string): map<string, Target> {
    if mappings == [] then map[]
    else
      var n := |mappings| - 1;
      var m, earlier := mappings[n], TargetsOf(mappings[..n], strip);
      var key := LocalDepartmentPath(m.remotePath, strip);
      if !Pins(m, strip) then earlier
      else if Creates(m) then
        earlier[key := Create(TrimSpace(m.newName), m.newParent, FirstKey(mappings, strip, m.newParent, m.newName))]
      else if m.local.Some? then earlier[key := Existing(m.local.value)]
      else earlier
  }

  /** firsts holds the first path of every department to be created. */
  ghost predicate Remembers(firsts: map<(Option<Id>, string), string>, mappings: seq<Mapping>, strip: string) {
    forall parent, name :: FirstKey(mappings, strip, parent, name) == KeyIn(firsts, parent, name)
  }

  function KeyIn(firsts: map<(Option<Id>, string), string>, parent: Option<Id>, name: string): string {
    if (parent, name) in firsts then firsts[(parent, name)] else ""
  }

  function NextFirsts(firsts: map<(Option<Id>, string), string>, m: Mapping, strip: string)
    : map<(Option<Id>, string), string>
  {
    if Pins(m, strip) && Creates(m) && KeyIn(firsts, m.newParent, m.newName) == ""
    then firsts[(m.newParent, m.newName) := LocalDepartmentPath(m.remotePath, strip)] else firsts
  }

  lemma FirstKeyNext(mappings: seq<Mapping>, i: nat, strip: string, parent: Option<Id>, name: string)
    requires i < |mappings|
    ensures var m, k := mappings[i], FirstKey(mappings[..i], strip, parent, name);
      FirstKey(mappings[..i + 1], strip, parent, name) ==
        if k == "" && Pins(m, strip) && Creates(m) && m.newParent == parent && m.newName == name
        then LocalDepartmentPath(m.remotePath, strip) else k
  {
    assert mappings[..i + 1][..i] == mappings[..i];
  }

  lemma RemembersNext(firsts: map<(Option<Id>, string), string>, mappings: seq<Mapping>, i: nat, strip: string)
    requires i < |mappings| && Remembers(firsts, mappings[..i], strip)
    ensures Remembers(NextFirsts(firsts, mappings[i], strip), mappings[..i + 1], strip)
  {
    var next := NextFirsts(firsts, mappings[i], strip);
    forall parent, name ensures FirstKey(mappings[..i + 1], strip, parent, name) == KeyIn(next, parent, name) {
      FirstKeyNext(mappings, i, strip, parent, name);
      assert FirstKey(mappings[..i], strip, parent, name) == KeyIn(firsts, parent, name);
    }
  }

  lemma TargetsNext(mappings: seq<Mapping>, i: nat, strip: string)
    requires i < |mappings|
    ensures var m, earlier := mappings[i], TargetsOf(mappings[..i], strip);
      var key := LocalDepartmentPath(m.remotePath, strip);
      TargetsOf(mappings[..i + 1], strip) ==
        if !Pins(m, strip) then earlier
        else if Creates(m) then
          earlier[key := Create(TrimSpace(m.newName), m.newParent,
                                FirstKey(mappings[..i + 1], strip, m.newParent, m.newName))]
        else if m.local.Some? then earlier[key := Existing(m.local.value)]
        else earlier
  {
    assert mappings[..i + 1][..i] == mappings[..i];
  }

  /** The resolver so far: no mapping dangles, and out has every target. */
  ghost predicate Built(t: Table, mappings: seq<Mapping>, strip: string, out: map<string, Target>,
                        firsts: map<(Option<Id>, string), string>)
  {
    && out == TargetsOf(mappings, strip) && "" !in out && Remembers(firsts, mappings, strip)
    && (forall c | c in out && out[c].Existing? :: out[c].id in t)
    && (forall m | m in mappings :: !Dangling(t, m, strip))
  }

  function NextTargets(out: map<string, Target>, firsts: map<(Option<Id>, string), string>, m: Mapping, strip: string)
    : map<string, Target>
  {
    var key := LocalDepartmentPath(m.remotePath, strip);
    if !Pins(m, strip) then out
    else if Creates(m) then out[key := Create(TrimSpace(m.newName), m.newParent, KeyIn(firsts, m.newParent, m.newName))]
    else if m.local.Some? then out[key := Existing(m.local.value)]
    else out
  }

  lemma BuiltNext(t: Table, mappings: seq<Mapping>, i: nat, strip: string, out: map<string, Target>,
                  firsts: map<(Option<Id>, string), string>)
    requires i < |mappings| && Built(t, mappings[..i], strip, out, firsts) && !Dangling(t, mappings[i], strip)
    ensures var next := NextFirsts(firsts, mappings[i], strip);
      Built(t, mappings[..i + 1], strip, NextTargets(out, next, mappings[i], strip), next)
  {
    var m := mappings[i];
    RemembersNext(firsts, mappings, i, strip);
    TargetsNext(mappings, i, strip);
    assert FirstKey(mappings[..i + 1], strip, m.newParent, m.newName)
        == KeyIn(NextFirsts(firsts, m, strip), m.newParent, m.newName);
    assert mappings[..i + 1] == mappings[..i] + [m];
  }

  /** The loop over the mappings fails exactly when one names a department that is gone; otherwise it gives
      every mapped path its target, and existing ones exist. */
  method BuildMappingResolver(t: Table, mappings: seq<Mapping>, strip: string) returns (r: Option<map<string, Target>>)
    ensures r.None? <==> exists m | m in mappings ::
              && m.included && TrimSpace(m.remotePath) != "" && LocalDepartmentPath(m.remotePath, strip) != ""
              && !(m.createLocal && TrimSpace(m.newName) != "") && m.local.Some? && m.local.value !in t
    ensures r.Some? ==> r.value == TargetsOf(mappings, strip) && "" !in r.value
    ensures r.Some? ==> forall c | c in r.value && r.value[c].Existing? :: r.value[c].id in t
  {
    var out: map<string, Target> := map[];
    var firsts: map<(Option<Id>, string), string> := map[];
    for i := 0 to |mappings|
      invariant Built(t, mappings[..i], strip, out, firsts)
    {
      var m := mappings[i];
      if Dangling(t, m, strip) { return None; }
      BuiltNext(t, mappings, i, strip, out, firsts);
      firsts := NextFirsts(firsts, m, strip);
      out := NextTargets(out, firsts, m, strip);
    }
    assert mappings[..|mappings|] == mappings;
    return Some(out);
  }

  /** The mapping gives the remote path c a target. */
  predicate Gives(m: Mapping, strip: string, c: string) {
    && m.included && TrimSpace(m.remotePath) != "" && LocalDepartmentPath(m.remotePath, strip) == c && c != ""
    && ((m.createLocal && TrimSpace(m.newName) != "") || m.local.Some?)
  }

  predicate LastGiving(mappings: seq<Mapping>, strip: string, c: string, i: nat) {
    LastWith(mappings, (m: Mapping) => Gives(m, strip, c), i)
  }

  /** The target a mapping asks for: a new department if it names one, else the existing one. */
  predicate AsksFor(m: Mapping, target: Target) {
    if m.createLocal && TrimSpace(m.newName) != ""
    then target.Create? && target.name == TrimSpace(m.newName) && target.parent == m.newParent
    else target.Existing? && m.local == Some(target.id)
  }

  /** The path has a target exactly when some mapping gives it one, and then what the last such mapping asks
      for. */
  ghost predicate TargetIsLast(targets: map<string, Target>, mappings: seq<Mapping>, strip: string, c: string) {
    && (c in targets <==> exists i: nat :: LastGiving(mappings, strip, c, i))
    && (c in targets ==> forall i: nat | LastGiving(mappings, strip, c, i) :: AsksFor(mappings[i], targets[c]))
  }

  lemma {:induction false} TargetsSay(mappings: seq<Mapping>, strip: string, c: string)
    ensures TargetIsLast(TargetsOf(mappings, strip), mappings, strip, c)
  {
    if mappings != [] {
      var n := |mappings| - 1;
      TargetsSay(mappings[..n], strip, c);
      if Gives(mappings[n], strip, c) {
        assert LastGiving(mappings, strip, c, n);
      } else {
        assert (c in TargetsOf(mappings, strip)) == (c in TargetsOf(mappings[..n], strip));
        forall i: nat ensures LastGiving(mappings, strip, c, i) <==> LastGiving(mappings[..n], strip, c, i) {
          LastWithSnoc(mappings, (m: Mapping) => Gives(m, strip, c), i);
        }
      }
    }
  }

  // ---- ensureTargetDept ----------------------------------------------------------------------------------

  function TargetKey(provider: string, parent: Option<Id>, name: string): string {
    "newdept:" + provider + ":" + IdPart(parent) + ":" + name
  }

  /** A parent that was deleted is replaced by the mount, and a deleted mount by the top level. */
  function LiveParent(t: Table, parent: Option<Id>, mount: Option<Id>): Option<Id> {
    if parent.None? || parent.value in t then parent
    else if mount.Some? && mount.value in t then mount
    else None
  }

  function KeyOf(t: Table, target: Target, site: Site): string
    requires target.Create?
  {
    TargetKey(site.provider, LiveParent(t, target.parent, site.mount), target.name)
  }

  /** id is the target's department: it exists and, for a created one, the binding says so. */
  predicate Found(s: Tables, target: Target, site: Site, id: Id) {
    && id in s.depts
    && match target
       case Existing(x) => id == x
       case Create(_, _, _) =>
         var k := KeyOf(s.depts, target, site);
         k in s.bindings && s.bindings[k].localID == id
  }

  /** ensureTargetDept: a live binding is followed; a stale one is dropped and the department created, or in a
      dry run given an id only. */
  function EnsureTarget(s: Tables, target: Target, site: Site, dryRun: bool): (Tables, Id) {
    match target
    case Existing(id) => (s, id)
    case Create(name, parent, remoteKey) =>
      var k := KeyOf(s.depts, target, site);
      if k in s.bindings && s.bindings[k].localID in s.depts then (s, s.bindings[k].localID)
      else if dryRun then (Tables(s.depts, s.bindings - {k}, s.next + 1), s.next)
      else
        var row := Dept(name, LiveParent(s.depts, parent, site.mount), 0, Some(ON_DEMAND));
        (Tables(s.depts[s.next := row], s.bindings[k := AutoSync.Binding(s.next, remoteKey)], s.next + 1), s.next)
  }

  /** All targets in some order of the map's keys. */
  function EnsureAll(s: Tables, targets: map<string, Target>, site: Site, order: seq<string>, dryRun: bool): Tables
    requires forall c | c in order :: c in targets
  {
    if order == [] then s
    else
      var n := |order| - 1;
      EnsureTarget(EnsureAll(s, targets, site, order[..n], dryRun), targets[order[n]], site, dryRun).0
  }

  /** Rows, parents, mapped departments and the mount all have ids handed out earlier, and departments mapped as
      existing do exist. */
  predicate Known(s: Tables, targets: map<string, Target>, site: Site) {
    && (forall x | x in s.depts :: x < s.next && (s.depts[x].parent.Some? ==> s.depts[x].parent.value < s.next))
    && (site.mount.Some? ==> site.mount.value < s.next)
    && (forall c | c in targets :: KnownTarget(s, targets[c]))
  }

  predicate KnownTarget(s: Tables, target: Target) {
    match target
    case Existing(id) => id in s.depts
    case Create(_, parent, _) => parent.Some? ==> parent.value < s.next
  }

  /** Later tables: rows are only added, under ids not handed out before, and "newdept:" bindings stay or go to
      a department that exists. */
  predicate Later(a: Tables, b: Tables) {
    && a.next <= b.next && (forall x | x in a.depts :: x in b.depts && b.depts[x] == a.depts[x])
    && (forall x | x in b.depts && x !in a.depts :: a.next <= x)
    && (forall k | k in a.bindings && a.bindings[k].localID in a.depts && k != "" && k[0] == 'n' ::
          k in b.bindings && b.bindings[k].localID == a.bindings[k].localID)
  }

  lemma TargetKeyStarts(provider: string, parent: Option<Id>, name: string)
    ensures var k := TargetKey(provider, parent, name); k != "" && k[0] == 'n'
  {
  }

  lemma SameKey(a: Tables, b: Tables, targets: map<string, Target>, target: Target, site: Site)
    requires Known(a, targets, site) && KnownTarget(a, target) && Later(a, b) && target.Create?
    ensures KeyOf(b.depts, target, site) == KeyOf(a.depts, target, site)
  {
  }

  /** What was found stays found. */
  lemma StaysFound(a: Tables, b: Tables, targets: map<string, Target>, target: Target, site: Site, id: Id)
    requires Known(a, targets, site) && KnownTarget(a, target) && Later(a, b) && Found(a, target, site, id)
    ensures Found(b, target, site, id)
  {
    if target.Create? {
      SameKey(a, b, targets, target, site);
      TargetKeyStarts(site.provider, LiveParent(a.depts, target.parent, site.mount), target.name);
    }
  }

  lemma TargetStep(s: Tables, targets: map<string, Target>, target: Target, site: Site)
    requires Known(s, targets, site) && KnownTarget(s, target)
    ensures var (s', id) := EnsureTarget(s, target, site, false);
      Later(s, s') && Known(s', targets, site) && Found(s', target, site, id)
  {
    var (s', id) := EnsureTarget(s, target, site, false);
    if target.Create? {
      assert Later(s, s');
      SameKey(s, s', targets, target, site);
    }
  }

  lemma LaterTrans(a: Tables, b: Tables, c: Tables)
    requires Later(a, b) && Later(b, c)
    ensures Later(a, c)
  {
  }

  lemma {:induction false} AllLater(s: Tables, targets: map<string, Target>, site: Site, order: seq<string>)
    requires Known(s, targets, site) && forall c | c in order :: c in targets
    ensures var r := EnsureAll(s, targets, site, order, false); Later(s, r) && Known(r, targets, site)
    decreases |order|
  {
    if order != [] {
      var n := |order| - 1;
      var q := EnsureAll(s, targets, site, order[..n], false);
      AllLater(s, targets, site, order[..n]);
      TargetStep(q, targets, targets[order[n]], site);
      LaterTrans(s, q, EnsureTarget(q, targets[order[n]], site, false).0);
    }
  }

  /** A stale binding is repaired: a department of that name is created under the live parent, and the binding
      goes to it. */
  lemma StaleTargetRepaired(s: Tables, targets: map<string, Target>, target: Target, site: Site)
    requires Known(s, targets, site) && KnownTarget(s, target) && target.Create?
    requires var k := KeyOf(s.depts, target, site); k in s.bindings && s.bindings[k].localID !in s.depts
    ensures var (s', id) := EnsureTarget(s, target, site, false);
      && id !in s.depts && id in s'.depts && s'.depts[id].name == target.name
      && s'.depts[id].parent == LiveParent(s.depts, target.parent, site.mount)
      && (s'.depts[id].parent.Some? ==> s'.depts[id].parent.value in s.depts)
      && Found(s', target, site, id)
  {
    TargetStep(s, targets, target, site);
  }

  /** A dry run creates nothing: a target without a live binding gets an id nobody has and loses the binding it
      has. */
  lemma DryTargetSays(s: Tables, targets: map<string, Target>, target: Target, site: Site)
    requires Known(s, targets, site) && KnownTarget(s, target) && !exists id :: Found(s, target, site, id)
    ensures var (s', id) := EnsureTarget(s, target, site, true);
      && s'.depts == s.depts && id !in s.depts && s.next <= id < s'.next
      && target.Create? && s'.bindings == s.bindings - {KeyOf(s.depts, target, site)}
  {
    match target
    case Existing(id) => assert Found(s, target, site, id);
    case Create(_, _, _) =>
      var k := KeyOf(s.depts, target, site);
      if k in s.bindings && s.bindings[k].localID in s.depts { assert Found(s, target, site, s.bindings[k].localID); }
  }

  lemma TargetKeepsForest(s: Tables, targets: map<string, Target>, target: Target, site: Site)
    requires Known(s, targets, site) && Acyclic(s.depts)
    ensures Acyclic(EnsureTarget(s, target, site, false).0.depts)
  {
    var after := EnsureTarget(s, target, site, false).0.depts;
    assert after == s.depts || s.next in after;
    if target.Create? && s.next in after {
      AcyclicAddLeaf(s.depts, s.next, Dept(target.name, LiveParent(s.depts, target.parent, site.mount), 0, Some(ON_DEMAND)));
    }
  }

  /** Departments are created under departments that exist, so the table stays a forest. */
  lemma {:induction false} TargetsKeepForest(s: Tables, targets: map<string, Target>, site: Site, order: seq<string>)
    requires Known(s, targets, site) && Acyclic(s.depts) && forall c | c in order :: c in targets
    ensures Acyclic(EnsureAll(s, targets, site, order, false).depts)
    decreases |order|
  {
    if order != [] {
      var n := |order| - 1;
      TargetsKeepForest(s, targets, site, order[..n]);
      AllLater(s, targets, site, order[..n]);
      TargetKeepsForest(EnsureAll(s, targets, site, order[..n], false), targets, targets[order[n]], site);
    }
  }

  /** A target that is found is left as it is, dry or not. */
  lemma FoundIsKept(s: Tables, target: Target, site: Site, id: Id, dryRun: bool)
    requires Found(s, target, site, id)
    ensures EnsureTarget(s, target, site, dryRun) == (s, id)
  {
  }

  predicate AllFound(s: Tables, targets: map<string, Target>, site: Site, roots: map<string, Id>) {
    roots.Keys == targets.Keys && forall c | c in targets :: Found(s, targets[c], site, roots[c])
  }

  /** Once found, all targets are found again, whatever the order, dry or not. */
  lemma {:induction false} AllFoundAgain(s: Tables, targets: map<string, Target>, site: Site, roots: map<string, Id>,
                                         order: seq<string>, dryRun: bool)
    requires AllFound(s, targets, site, roots) && forall c | c in order :: c in targets
    ensures EnsureAll(s, targets, site, order, dryRun) == s
    decreases |order|
  {
    if order != [] {
      var n := |order| - 1;
      AllFoundAgain(s, targets, site, roots, order[..n], dryRun);
      FoundIsKept(s, targets[order[n]], site, roots[order[n]], dryRun);
    }
  }

  /** Targets that leave the rows alone were found to begin with. */
  lemma {:induction false} SameRowsMeansFound(s: Tables, targets: map<string, Target>, site: Site, order: seq<string>,
                                              roots: map<string, Id>)
    requires Known(s, targets, site) && forall c | c in order :: c in targets
    requires EnsureAll(s, targets, site, order, false).depts == s.depts
    ensures EnsureAll(s, targets, site, order, false) == s
    decreases |order|
  {
    if order != [] {
      var n := |order| - 1;
      var q := EnsureAll(s, targets, site, order[..n], false);
      AllLater(s, targets, site, order[..n]);
      TargetStep(q, targets, targets[order[n]], site);
      assert q.depts == s.depts;
      SameRowsMeansFound(s, targets, site, order[..n], roots);
      assert s.next !in s.depts;
    }
  }

  /** Resolving the targets changes no table exactly when it adds no row, exactly when all were found. */
  lemma TargetsKeepIff(s: Tables, targets: map<string, Target>, site: Site, order: seq<string>, roots: map<string, Id>)
    requires Known(s, targets, site) && Lists(order, targets.Keys)
    requires AllFound(EnsureAll(s, targets, site, order, false), targets, site, roots)
    ensures EnsureAll(s, targets, site, order, false) == s <==> AllFound(s, targets, site, roots)
    ensures EnsureAll(s, targets, site, order, false).depts == s.depts <==> AllFound(s, targets, site, roots)
  {
    if EnsureAll(s, targets, site, order, false).depts == s.depts { SameRowsMeansFound(s, targets, site, order, roots); }
    if AllFound(s, targets, site, roots) { AllFoundAgain(s, targets, site, roots, order, false); }
  }

  /** The loop over the targets, after those in order: the ids are roots. */
  ghost predicate Resolving(start: Tables, now: Tables, targets: map<string, Target>, site: Site, order: seq<string>,
                            roots: map<string, Id>, dryRun: bool)
  {
    && (forall c | c in order :: c in targets) && roots.Keys <= targets.Keys
    && now == EnsureAll(start, targets, site, order, dryRun)
    && (!dryRun ==> RootsFound(now, targets, site, roots))
    && Steady(start, now, targets, site, roots)
  }

  /** If all targets were found to begin with, the tables are as they were and the ids those found. */
  ghost predicate Steady(start: Tables, now: Tables, targets: map<string, Target>, site: Site, roots: map<string, Id>) {
    forall known | AllFound(start, targets, site, known) :: now == start && Agree(roots, known)
  }

  predicate RootsFound(now: Tables, targets: map<string, Target>, site: Site, roots: map<string, Id>)
    requires roots.Keys <= targets.Keys
  {
    forall c | c in roots :: Found(now, targets[c], site, roots[c])
  }

  predicate Agree(roots: map<string, Id>, known: map<string, Id>) {
    forall c | c in roots && c in known :: roots[c] == known[c]
  }

  lemma FoundNext(now: Tables, targets: map<string, Target>, site: Site, roots: map<string, Id>, c: string)
    requires Known(now, targets, site) && c in targets && roots.Keys <= targets.Keys
    requires RootsFound(now, targets, site, roots)
    ensures var (next, id) := EnsureTarget(now, targets[c], site, false);
      RootsFound(next, targets, site, roots[c := id])
  {
    var (next, id) := EnsureTarget(now, targets[c], site, false);
    TargetStep(now, targets, targets[c], site);
    forall d | d in roots ensures Found(next, targets[d], site, roots[d]) {
      StaysFound(now, next, targets, targets[d], site, roots[d]);
    }
  }

  lemma OneMoreTarget(start: Tables, now: Tables, targets: map<string, Target>, site: Site, order: seq<string>,
                      dryRun: bool, c: string)
    requires (forall d | d in order :: d in targets) && c in targets
    requires now == EnsureAll(start, targets, site, order, dryRun)
    ensures EnsureTarget(now, targets[c], site, dryRun).0 == EnsureAll(start, targets, site, order + [c], dryRun)
  {
    assert (order + [c])[..|order|] == order;
  }

  lemma SteadyEnds(start: Tables, now: Tables, targets: map<string, Target>, site: Site, roots: map<string, Id>,
                   known: map<string, Id>)
    requires Steady(start, now, targets, site, roots) && AllFound(start, targets, site, known) && roots.Keys == targets.Keys
    ensures now == start && roots == known
  {
  }

  lemma SteadyNext(start: Tables, now: Tables, targets: map<string, Target>, site: Site, roots: map<string, Id>,
                   dryRun: bool, c: string)
    requires Steady(start, now, targets, site, roots) && c in targets
    ensures var (next, id) := EnsureTarget(now, targets[c], site, dryRun);
      Steady(start, next, targets, site, roots[c := id])
  {
    var (next, id) := EnsureTarget(now, targets[c], site, dryRun);
    forall known | AllFound(start, targets, site, known) ensures next == start && Agree(roots[c := id], known) {
      FoundIsKept(start, targets[c], site, known[c], dryRun);
    }
  }

  lemma ResolveNext(start: Tables, now: Tables, targets: map<string, Target>, site: Site, order: seq<string>,
                    roots: map<string, Id>, dryRun: bool, c: string)
    requires Known(start, targets, site) && Resolving(start, now, targets, site, order, roots, dryRun)
    requires c in targets && c !in roots
    ensures var (next, id) := EnsureTarget(now, targets[c], site, dryRun);
      Resolving(start, next, targets, site, order + [c], roots[c := id], dryRun)
  {
    OneMoreTarget(start, now, targets, site, order, dryRun, c);
    if !dryRun {
      AllLater(start, targets, site, order);
      FoundNext(now, targets, site, roots, c);
    }
    SteadyNext(start, now, targets, site, roots, dryRun, c);
  }

  // ---- which targets share a department ----------------------------------------------------------------------

  /** Keys tell parents and names apart: an id is all digits, so the colon after it can be found. */
  lemma TargetKeyInjective(provider: string, parent: Option<Id>, name: string, parent': Option<Id>, name': string)
    requires TargetKey(provider, parent, name) == TargetKey(provider, parent', name')
    ensures parent == parent' && name == name'
  {
    var head := "newdept:" + provider + ":";
    var a, b := IdPart(parent), IdPart(parent');
    assert TargetKey(provider, parent, name) == head + (a + ":" + name);
    assert TargetKey(provider, parent', name') == head + (b + ":" + name');
    assert (head + (a + ":" + name))[|head|..] == a + ":" + name;
    assert (head + (b + ":" + name'))[|head|..] == b + ":" + name';
    IdPartHasNoColon(parent);
    IdPartHasNoColon(parent');
    BeforeColon(a, name, b, name');
    if parent.Some? && parent'.Some? { ItoaInjective(parent.value, parent'.value); }
    if parent.Some? { ItoaLength(parent.value); }
    if parent'.Some? { ItoaLength(parent'.value); }
  }

  lemma TargetKeySays(provider: string, parent: Id, name: string)
    ensures TargetKey(provider, None, name) == "newdept:" + provider + "::" + name
    ensures TargetKey(provider, Some(parent), name) == "newdept:" + provider + ":" + Itoa(parent) + ":" + name
  {
    assert "newdept:" + provider + ":" + "" + ":" + name == "newdept:" + provider + "::" + name;
  }

  function IdPart(parent: Option<Id>): string { if parent.Some? then Itoa(parent.value) else "" }

  lemma IdPartHasNoColon(parent: Option<Id>)
    ensures forall i | 0 <= i < |IdPart(parent)| :: IdPart(parent)[i] != ':'
  {
    if parent.Some? { ItoaIsDigits(parent.value); }
  }

  lemma BeforeColon(a: string, x: string, b: string, y: string)
    requires a + ":" + x == b + ":" + y
    requires (forall i | 0 <= i < |a| :: a[i] != ':') && forall i | 0 <= i < |b| :: b[i] != ':'
    ensures a == b && x == y
  {
    var s := a + ":" + x;
    assert s[|a|] == ':' && s[|b|] == (b + ":" + y)[|b|] == ':';
    assert (forall i | 0 <= i < |a| :: s[i] == a[i]) && forall i | 0 <= i < |b| :: s[i] == b[i];
    assert s[..|a|] == a && (b + ":" + y)[..|b|] == b;
    assert s[|a| + 1..] == x && (b + ":" + y)[|b| + 1..] == y;
  }

  predicate IsTargetKey(k: string) { |k| >= 8 && k[..8] == "newdept:" }

  /** No target has ever been bound. */
  predicate NoTargetBound(bindings: Bindings) { forall k | k in bindings :: !IsTargetKey(k) }

  /** The rows that resolving has made: one for every target key bound since, with the name and parent of the
      key. */
  ghost predicate Made(s: Tables, q: Tables, site: Site) {
    && s.next <= q.next && (forall k | k in s.bindings && !IsTargetKey(k) :: k in q.bindings && q.bindings[k] == s.bindings[k])
    && (forall k | k in q.bindings && IsTargetKey(k) :: MadeFor(s, q, site, k))
    && (forall k, l | k in q.bindings && l in q.bindings && IsTargetKey(k) && IsTargetKey(l)
          && q.bindings[k].localID == q.bindings[l].localID :: k == l)
  }

  /** The row bound to k is new and carries what k says. */
  ghost predicate MadeFor(s: Tables, q: Tables, site: Site, k: string)
    requires k in q.bindings
  {
    var x := q.bindings[k].localID;
    && s.next <= x < q.next && x in q.depts && q.depts[x].description == Some(ON_DEMAND)
    && k == TargetKey(site.provider, q.depts[x].parent, q.depts[x].name)
  }

  lemma MakesTarget(s: Tables, q: Tables, targets: map<string, Target>, target: Target, site: Site)
    requires Known(q, targets, site) && KnownTarget(q, target) && Made(s, q, site)
    ensures Made(s, EnsureTarget(q, target, site, false).0, site)
  {
    var (q', id) := EnsureTarget(q, target, site, false);
    if target.Create? {
      var parent := LiveParent(q.depts, target.parent, site.mount);
      var k := KeyOf(q.depts, target, site);
      KeyIsTargetKey(site.provider, parent, target.name);
      forall l | l in q'.bindings && IsTargetKey(l) ensures MadeFor(s, q', site, l) {
        if l != k { assert MadeFor(s, q, site, l); }
        else if q'.next == q.next { assert MadeFor(s, q, site, l); }
      }
    }
  }

  lemma KeyIsTargetKey(provider: string, parent: Option<Id>, name: string)
    ensures IsTargetKey(TargetKey(provider, parent, name))
  {
    var k := TargetKey(provider, parent, name);
    assert k == "newdept:" + (provider + ":" + IdPart(parent) + ":" + name);
  }

  lemma {:induction false} AllMade(s: Tables, targets: map<string, Target>, site: Site, order: seq<string>)
    requires Known(s, targets, site) && NoTargetBound(s.bindings) && forall c | c in order :: c in targets
    ensures Made(s, EnsureAll(s, targets, site, order, false), site)
    decreases |order|
  {
    if order != [] {
      var n := |order| - 1;
      AllMade(s, targets, site, order[..n]);
      AllLater(s, targets, site, order[..n]);
      MakesTarget(s, EnsureAll(s, targets, site, order[..n], false), targets, targets[order[n]], site);
    }
  }

  /** The department of a target to be created is new, of that name, and under its parent, or under the mount
      or at the top if the parent is gone. */
  predicate OwnRow(s: Tables, q: Tables, target: Target, site: Site, id: Id) {
    target.Create? ==>
      && id !in s.depts && id in q.depts && q.depts[id].name == target.name
      && q.depts[id].parent == (if target.parent.None? || target.parent.value in s.depts then target.parent
                                else if site.mount.Some? && site.mount.value in s.depts then site.mount else None)
  }

  /** Two targets to be created have one department exactly when name and parent of it are the same. */
  predicate SharedAsNamed(q: Tables, a: Target, b: Target, x: Id, y: Id) {
    a.Create? && b.Create? && x in q.depts && y in q.depts ==>
      (x == y <==> a.name == b.name && q.depts[x].parent == q.depts[y].parent)
  }

  predicate AllOwn(s: Tables, q: Tables, targets: map<string, Target>, site: Site, roots: map<string, Id>) {
    && roots.Keys == targets.Keys && (forall c | c in targets :: OwnRow(s, q, targets[c], site, roots[c]))
    && (forall b, c | b in targets && c in targets :: SharedAsNamed(q, targets[b], targets[c], roots[b], roots[c]))
  }

  /** Where no target was bound before, every target to be created gets its own department, shared exactly by
      those of one name under one parent. */
  lemma OwnDepartments(s: Tables, targets: map<string, Target>, site: Site, order: seq<string>, roots: map<string, Id>)
    requires Known(s, targets, site) && NoTargetBound(s.bindings) && Lists(order, targets.Keys)
    requires AllFound(EnsureAll(s, targets, site, order, false), targets, site, roots)
    ensures AllOwn(s, EnsureAll(s, targets, site, order, false), targets, site, roots)
  {
    var q := EnsureAll(s, targets, site, order, false);
    AllMade(s, targets, site, order);
    AllLater(s, targets, site, order);
    forall c | c in targets ensures OwnRow(s, q, targets[c], site, roots[c]) {
      assert Found(q, targets[c], site, roots[c]);
      if targets[c].Create? { FoundRowSays(s, q, targets, targets[c], site, roots[c]); }
    }
    forall b, c | b in targets && c in targets ensures SharedAsNamed(q, targets[b], targets[c], roots[b], roots[c]) {
      assert Found(q, targets[b], site, roots[b]) && Found(q, targets[c], site, roots[c]);
      if targets[b].Create? && targets[c].Create? {
        FoundRowSays(s, q, targets, targets[b], site, roots[b]);
        FoundRowSays(s, q, targets, targets[c], site, roots[c]);
      }
    }
  }

  lemma FoundRowSays(s: Tables, q: Tables, targets: map<string, Target>, target: Target, site: Site, id: Id)
    requires Known(s, targets, site) && KnownTarget(s, target) && Later(s, q) && Made(s, q, site)
    requires target.Create? && Found(q, target, site, id)
    ensures id !in s.depts && id in q.depts && q.depts[id].name == target.name
    ensures q.depts[id].parent == LiveParent(s.depts, target.parent, site.mount) == LiveParent(q.depts, target.parent, site.mount)
  {
    var k := KeyOf(q.depts, target, site);
    SameKey(s, q, targets, target, site);
    KeyIsTargetKey(site.provider, LiveParent(q.depts, target.parent, site.mount), target.name);
    assert MadeFor(s, q, site, k);
    TargetKeyInjective(site.provider, LiveParent(q.depts, target.parent, site.mount), target.name, q.depts[id].parent, q.depts[id].name);
  }
}
