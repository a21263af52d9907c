/** The department table and its parent relation. */
module DeptForest {
  import opened Options

  type Id = nat

  datatype Dept = Dept(name: string, parent: Option<Id>, sortOrder: int, description: Option<string>)

  type Table = map<Id, Dept>

  function ParentOf(t: Table, x: Id): Option<Id> {
    if x in t then t[x].parent else None
  }

  /** The k-th ancestor of x; a dangling parent id still counts as one step. */
  function Climb(t: Table, x: Id, k: nat): Option<Id>
    decreases k
  {
    if k == 0 then Some(x)
    else match ParentOf(t, x)
      case None => None
      case Some(p) => Climb(t, p, k - 1)
  }

  /** x is a itself or lies in a's subtree. */
  ghost predicate Under(t: Table, x: Id, a: Id) { exists k: nat :: Climb(t, x, k) == Some(a) }

  /** The chain of parents from x ends within n rows. */
  ghost predicate Grounded(t: Table, x: Id, n: nat)
    decreases n
  {
    n > 0 && (ParentOf(t, x).None? || Grounded(t, ParentOf(t, x).value, n - 1))
  }

  ghost predicate Ends(t: Table, x: Id) { exists n: nat :: Grounded(t, x, n) }

  /** Every chain of parents ends. */
  ghost predicate Acyclic(t: Table) { forall x | x in t :: Ends(t, x) }

  // ---- chains ---------------------------------------------------------------------------

  lemma {:induction false} ClimbAdd(t: Table, x: Id, j: nat, k: nat)
    requires Climb(t, x, j).Some?
    ensures Climb(t, x, j + k) == Climb(t, Climb(t, x, j).value, k)
    decreases j
  {
    if j > 0 { ClimbAdd(t, ParentOf(t, x).value, j - 1, k); }
  }

  lemma {:induction false} ClimbShorter(t: Table, x: Id, j: nat, k: nat)
    requires j <= k && Climb(t, x, k).Some?
    ensures Climb(t, x, j).Some?
    decreases j
  {
    if j > 0 { ClimbShorter(t, ParentOf(t, x).value, j - 1, k - 1); }
  }

  lemma {:induction false} GroundedClimb(t: Table, x: Id, n: nat, k: nat)
    requires Grounded(t, x, n) && Climb(t, x, k).Some?
    ensures k < n && Grounded(t, Climb(t, x, k).value, n - k)
    decreases k
  {
    if k > 0 { GroundedClimb(t, ParentOf(t, x).value, n - 1, k - 1); }
  }

  lemma {:induction false} GroundedNoCycle(t: Table, x: Id, n: nat, k: nat)
    requires Grounded(t, x, n) && k > 0
    ensures Climb(t, x, k) != Some(x)
    decreases n
  {
    if Climb(t, x, k) == Some(x) {
      GroundedClimb(t, x, n, k);
      GroundedNoCycle(t, x, n - k, k);
    }
  }

  lemma EndsNoCycle(t: Table, x: Id, k: nat)
    requires Ends(t, x) && k > 0
    ensures Climb(t, x, k) != Some(x)
  {
    var n: nat :| Grounded(t, x, n);
    GroundedNoCycle(t, x, n, k);
  }

  lemma EndsStep(t: Table, x: Id)
    ensures Ends(t, x) <==> ParentOf(t, x).None? || Ends(t, ParentOf(t, x).value)
  {
    if ParentOf(t, x).None? {
      assert Grounded(t, x, 1);
    } else {
      var p := ParentOf(t, x).value;
      if Ends(t, p) {
        var n: nat :| Grounded(t, p, n);
        assert Grounded(t, x, n + 1);
      }
      if Ends(t, x) {
        var n: nat :| Grounded(t, x, n);
        assert Grounded(t, p, n - 1);
      }
    }
  }

  lemma UnderTrans(t: Table, x: Id, y: Id, z: Id)
    requires Under(t, x, y) && Under(t, y, z)
    ensures Under(t, x, z)
  {
    var j: nat :| Climb(t, x, j) == Some(y);
    var k: nat :| Climb(t, y, k) == Some(z);
    ClimbAdd(t, x, j, k);
  }

  lemma UnderStep(t: Table, x: Id, a: Id)
    ensures Under(t, x, a) <==> x == a || (ParentOf(t, x).Some? && Under(t, ParentOf(t, x).value, a))
  {
    if x == a {
      assert Climb(t, x, 0) == Some(a);
    } else if ParentOf(t, x).Some? {
      var p := ParentOf(t, x).value;
      if Under(t, p, a) {
        var k: nat :| Climb(t, p, k) == Some(a);
        assert Climb(t, x, k + 1) == Some(a);
      }
      if Under(t, x, a) {
        var k: nat :| Climb(t, x, k) == Some(a);
        assert Climb(t, p, k - 1) == Some(a);
      }
    }
  }

  /** Two ancestors of one row lie on one chain. */
  lemma UnderLinear(t: Table, x: Id, a: Id, b: Id)
    requires Under(t, x, a) && Under(t, x, b)
    ensures Under(t, a, b) || Under(t, b, a)
  {
    var j: nat :| Climb(t, x, j) == Some(a);
    var k: nat :| Climb(t, x, k) == Some(b);
    if j <= k {
      ClimbAdd(t, x, j, k - j);
      assert Climb(t, a, k - j) == Some(b);
    } else {
      ClimbAdd(t, x, k, j - k);
      assert Climb(t, b, j - k) == Some(a);
    }
  }

  /** On an ending chain, mutual ancestors coincide. */
  lemma UnderAntisym(t: Table, x: Id, y: Id)
    requires Ends(t, x) && Under(t, x, y) && Under(t, y, x)
    ensures x == y
  {
    var j: nat :| Climb(t, x, j) == Some(y);
    var k: nat :| Climb(t, y, k) == Some(x);
    ClimbAdd(t, x, j, k);
    if j + k > 0 { EndsNoCycle(t, x, j + k); }
  }

  // ---- acyclicity is the absence of cycles --------------------------------------------------

  ghost predicate NoCycle(t: Table) {
    forall x, k: nat | x in t && k > 0 :: Climb(t, x, k) != Some(x)
  }

  ghost predicate StrictlyUnder(t: Table, x: Id, a: Id) { exists k: nat :: k > 0 && Climb(t, x, k) == Some(a) }

  /** Walking up a finite table without ever meeting a row twice must stop. */
  lemma {:induction false} WalkEnds(t: Table, x: Id, seen: set<Id>)
    requires NoCycle(t)
    requires seen <= t.Keys
    requires forall s | s in seen :: StrictlyUnder(t, s, x)
    ensures Ends(t, x)
    decreases t.Keys - seen
  {
    EndsStep(t, x);
    if ParentOf(t, x).Some? {
      var p := ParentOf(t, x).value;
      assert x !in seen;
      forall s | s in seen + {x}
        ensures StrictlyUnder(t, s, p)
      {
        if s == x {
          assert Climb(t, p, 0) == Some(p);
          assert Climb(t, x, 1) == Some(p);
        } else {
          var k: nat :| k > 0 && Climb(t, s, k) == Some(x);
          ClimbAdd(t, s, k, 1);
          assert Climb(t, p, 0) == Some(p);
          assert Climb(t, s, k + 1) == Some(p);
        }
      }
      WalkEnds(t, p, seen + {x});
    }
  }

  lemma AcyclicIffNoCycle(t: Table)
    ensures Acyclic(t) <==> NoCycle(t)
  {
    if NoCycle(t) {
      forall x | x in t ensures Ends(t, x) { WalkEnds(t, x, {}); }
    }
    if Acyclic(t) {
      forall x, k: nat | x in t && k > 0 ensures Climb(t, x, k) != Some(x) { EndsNoCycle(t, x, k); }
    }
  }

  /** Rows outside the table end at once, so in an acyclic table every chain ends. */
  lemma AcyclicEnds(t: Table, x: Id)
    requires Acyclic(t)
    ensures Ends(t, x)
  {
    EndsStep(t, x);
  }

  // ---- a change of parents -----------------------------------------------------------------

  /** Chains that avoid every changed row are the same in both tables. */
  lemma {:induction false} EndsUnchanged(t: Table, t': Table, x: Id, n: nat)
    requires Grounded(t, x, n)
    requires forall y | Under(t, x, y) :: ParentOf(t', y) == ParentOf(t, y)
    ensures Ends(t', x)
    decreases n
  {
    UnderStep(t, x, x);
    EndsStep(t', x);
    if ParentOf(t, x).Some? {
      var p := ParentOf(t, x).value;
      forall y | Under(t, p, y) ensures ParentOf(t', y) == ParentOf(t, y) { UnderStep(t, x, y); }
      EndsUnchanged(t, t', p, n - 1);
    }
  }

  /** If every changed row ends in the new table, every row that ended before still ends. */
  lemma {:induction false} EndsThroughChanged(t: Table, t': Table, x: Id, n: nat)
    requires Grounded(t, x, n)
    requires forall y :: ParentOf(t', y) == ParentOf(t, y) || Ends(t', y)
    ensures Ends(t', x)
    decreases n
  {
    EndsStep(t', x);
    if !Ends(t', x) && ParentOf(t, x).Some? {
      EndsThroughChanged(t, t', ParentOf(t, x).value, n - 1);
    }
  }

  lemma AcyclicAfterChange(t: Table, t': Table)
    requires Acyclic(t)
    requires forall y :: ParentOf(t', y) == ParentOf(t, y) || Ends(t', y)
    ensures Acyclic(t')
  {
    forall x | x in t' ensures Ends(t', x) {
      AcyclicEnds(t, x);
      var n: nat :| Grounded(t, x, n);
      EndsThroughChanged(t, t', x, n);
    }
  }

  ghost predicate SameParentAt(t: Table, t': Table, x: Option<Id>) {
    x.Some? && ParentOf(t', x.value) == ParentOf(t, x.value)
  }

  /** Climbing along unchanged rows. */
  lemma {:induction false} ClimbUnchanged(t: Table, t': Table, x: Id, k: nat)
    requires Climb(t, x, k).Some?
    requires forall j: nat | j < k :: SameParentAt(t, t', Climb(t, x, j))
    ensures Climb(t', x, k) == Climb(t, x, k)
    decreases k
  {
    if k > 0 {
      assert Climb(t, x, 0) == Some(x);
      var p := ParentOf(t, x).value;
      forall j: nat | j < k - 1
        ensures SameParentAt(t, t', Climb(t, p, j))
      {
        assert Climb(t, x, j + 1) == Climb(t, p, j);
      }
      ClimbUnchanged(t, t', p, k - 1);
    }
  }

  /** Hanging a new leaf under an existing chain closes no cycle. */
  lemma {:induction false} EndsAddLeaf(t: Table, leaf: Id, row: Dept, x: Id, n: nat)
    requires Grounded(t, x, n) && x != leaf
    requires forall y | y in t :: t[y].parent != Some(leaf)
    ensures Ends(t[leaf := row], x)
    decreases n
  {
    EndsStep(t[leaf := row], x);
    if ParentOf(t, x).Some? { EndsAddLeaf(t, leaf, row, ParentOf(t, x).value, n - 1); }
  }

  lemma AcyclicAddLeaf(t: Table, leaf: Id, row: Dept)
    requires Acyclic(t) && leaf !in t && row.parent != Some(leaf)
    requires forall y | y in t :: t[y].parent != Some(leaf)
    ensures Acyclic(t[leaf := row])
  {
    var t' := t[leaf := row];
    forall x | x in t' ensures Ends(t', x) {
      EndsStep(t', x);
      var y := if x == leaf && row.parent.Some? then row.parent.value else x;
      if y != leaf {
        AcyclicEnds(t, y);
        var n: nat :| Grounded(t, y, n);
        EndsAddLeaf(t, leaf, row, y, n);
      }
    }
  }
}
