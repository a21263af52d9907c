/** sort.Slice and sort.Strings: an ordering given by a less function, and the order of strings. */
module Sorting {

  /** less is irreflexive and incomparability is transitive: what sort.Slice asks of its callers. */
  ghost predicate WeakOrder<T(!new)>(less: (T, T) -> bool) {
    && (forall a, b :: less(a, b) ==> !less(b, a))
    && (forall a, b, c :: !less(a, b) && !less(b, c) ==> !less(a, c))
  }

  predicate Sorted<T>(s: seq<T>, less: (T, T) -> bool) {
    forall i, j | 0 <= i < j < |s| :: !less(s[j], s[i])
  }

  lemma InsertKeepsSorted<T(!new)>(r: seq<T>, x: T, k: nat, less: (T, T) -> bool)
    requires WeakOrder(less) && Sorted(r, less) && k <= |r|
    requires forall j | k <= j < |r| :: less(x, r[j])
    requires k > 0 ==> !less(x, r[k - 1])
    ensures Sorted(r[..k] + [x] + r[k..], less)
  {
    if k > 0 {
      forall i | 0 <= i < k ensures !less(x, r[i]) {
        if i < k - 1 { assert !less(x, r[k - 1]) && !less(r[k - 1], r[i]); }
      }
    }
    var t := r[..k] + [x] + r[k..];
    forall i, j | 0 <= i < j < |t| ensures !less(t[j], t[i]) {
      assert t[i] == if i < k then r[i] else if i == k then x else r[i - 1];
      assert t[j] == if j < k then r[j] else if j == k then x else r[j - 1];
    }
  }

  /** The sorted rearrangement sort.Slice leaves behind. */
  method SortSlice<T(!new)>(s: seq<T>, less: (T, T) -> bool) returns (r: seq<T>)
    requires WeakOrder(less)
    ensures Sorted(r, less) && multiset(r) == multiset(s)
  {
    r := [];
    for n := 0 to |s|
      invariant Sorted(r, less) && multiset(r) == multiset(s[..n])
    {
      var k := |r|;
      while k > 0 && less(s[n], r[k - 1])
        invariant 0 <= k <= |r|
        invariant forall j | k <= j < |r| :: less(s[n], r[j])
      {
        k := k - 1;
      }
      InsertKeepsSorted(r, s[n], k, less);
      assert r == r[..k] + r[k..];
      assert s[..n + 1] == s[..n] + [s[n]];
      r := r[..k] + [s[n]] + r[k..];
    }
    assert s[..|s|] == s;
  }

  /** The elements of a set, each once, in the order of less. */
  method SortSet<T(==, !new)>(s: set<T>, less: (T, T) -> bool) returns (r: seq<T>)
    requires WeakOrder(less)
    ensures Sorted(r, less) && Lists(r, s)
  {
    var list: seq<T> := [];
    var rest := s;
    while rest != {}
      invariant rest <= s && Lists(list, s - rest)
      decreases rest
    {
      var x :| x in rest;
      list, rest := list + [x], rest - {x};
    }
    r := SortSlice(list, less);
    Rearranged(list, r, s);
  }

  /** r names every element of s exactly once. */
  ghost predicate Lists<T(!new)>(r: seq<T>, s: set<T>) {
    (forall x :: x in r <==> x in s) && NoDuplicates(r)
  }

  ghost predicate NoDuplicates<T>(r: seq<T>) { forall i, j | 0 <= i < j < |r| :: r[i] != r[j] }

  lemma Rearranged<T(!new)>(a: seq<T>, b: seq<T>, s: set<T>)
    requires Lists(a, s) && multiset(a) == multiset(b)
    ensures Lists(b, s)
  {
    forall x ensures x in b <==> x in s {
      assert x in a <==> x in multiset(a);
      assert x in b <==> x in multiset(b);
    }
    CountsAtMostOne(a);
    NoDuplicatesFromCounts(b);
  }

  lemma {:induction false} CountsAtMostOne<T(!new)>(a: seq<T>)
    requires NoDuplicates(a)
    ensures forall x :: multiset(a)[x] <= 1
  {
    if a != [] {
      var n := |a| - 1;
      CountsAtMostOne(a[..n]);
      assert a == a[..n] + [a[n]];
      assert a[n] !in a[..n];
    }
  }

  lemma NoDuplicatesFromCounts<T(!new)>(b: seq<T>)
    requires forall x :: multiset(b)[x] <= 1
    ensures NoDuplicates(b)
  {
    forall i, j | 0 <= i < j < |b| ensures b[i] != b[j] {
      assert b == b[..j] + [b[j]] + b[j + 1..];
      assert multiset(b)[b[j]] == multiset(b[..j])[b[j]] + 1 + multiset(b[j + 1..])[b[j]];
      assert b[j] !in b[..j];
      assert b[..j][i] == b[i];
    }
  }

  /** Two sorted listings of one set under a total order are the same list. */
  lemma {:induction false} SortedListingUnique<T(!new)>(a: seq<T>, b: seq<T>, s: set<T>, less: (T, T) -> bool)
    requires WeakOrder(less) && forall x, y :: less(x, y) || less(y, x) || x == y
    requires Sorted(a, less) && Sorted(b, less) && Lists(a, s) && Lists(b, s)
    ensures a == b
    decreases |a|
  {
    if a == [] {
      assert forall i | 0 <= i < |b| :: b[i] in b;
    } else {
      assert a[0] in a;
      assert b != [] && b[0] in b;
      assert a[0] == b[0];
      var rest := s - {a[0]};
      forall x ensures (x in a[1..] <==> x in rest) && (x in b[1..] <==> x in rest) {
        assert x in a <==> x == a[0] || x in a[1..];
        assert x in b <==> x == b[0] || x in b[1..];
      }
      SortedListingUnique(a[1..], b[1..], rest, less);
    }
  }

  // ---- strings ----------------------------------------------------------------------------

  /** The order of sort.Strings. */
  predicate StringLess(a: string, b: string) {
    if a == "" || b == "" then a == "" && b != ""
    else a[0] < b[0] || (a[0] == b[0] && StringLess(a[1..], b[1..]))
  }

  /** a and b agree up to k, where a is over or has the smaller character. */
  predicate FirstBelowAt(a: string, b: string, k: nat) {
    k <= |a| && k < |b| && a[..k] == b[..k] && (k == |a| || a[k] < b[k])
  }

  /** Strings compare by the first place where they differ, and a proper prefix comes first. */
  lemma {:induction false} StringLessIff(a: string, b: string)
    ensures StringLess(a, b) <==> exists k: nat :: FirstBelowAt(a, b, k)
  {
    if a == "" || b == "" {
      if StringLess(a, b) { assert FirstBelowAt(a, b, 0); }
    } else {
      StringLessIff(a[1..], b[1..]);
      if StringLess(a, b) {
        if a[0] < b[0] {
          assert FirstBelowAt(a, b, 0);
        } else {
          var k: nat :| FirstBelowAt(a[1..], b[1..], k);
          assert a[..k + 1] == [a[0]] + a[1..][..k] && b[..k + 1] == [b[0]] + b[1..][..k];
          assert FirstBelowAt(a, b, k + 1);
        }
      }
      if k: nat :| FirstBelowAt(a, b, k) && k > 0 {
        assert a[0] == a[..k][0] == b[..k][0] == b[0];
        assert a[1..][..k - 1] == a[..k][1..] && b[1..][..k - 1] == b[..k][1..];
        assert FirstBelowAt(a[1..], b[1..], k - 1);
      }
    }
  }

  lemma {:induction false} StringLessAsym(a: string, b: string)
    ensures !(StringLess(a, b) && StringLess(b, a))
    ensures StringLess(a, b) || StringLess(b, a) || a == b
  {
    if a != "" && b != "" {
      StringLessAsym(a[1..], b[1..]);
      if a[0] == b[0] && a[1..] == b[1..] { assert a == [a[0]] + a[1..] == b; }
    }
  }

  lemma {:induction false} StringLessNegTrans(a: string, b: string, c: string)
    requires !StringLess(a, b) && !StringLess(b, c)
    ensures !StringLess(a, c)
  {
    if a != "" && b != "" && c != "" && a[0] == b[0] == c[0] { StringLessNegTrans(a[1..], b[1..], c[1..]); }
  }

  lemma StringLessIsTotalOrder()
    ensures WeakOrder(StringLess)
    ensures forall x, y :: StringLess(x, y) || StringLess(y, x) || x == y
  {
    forall a, b ensures StringLess(a, b) ==> !StringLess(b, a)
                ensures StringLess(a, b) || StringLess(b, a) || a == b { StringLessAsym(a, b); }
    forall a, b, c | !StringLess(a, b) && !StringLess(b, c) ensures !StringLess(a, c) { StringLessNegTrans(a, b, c); }
  }

  // ---- the last element with a property ------------------------------------------------------------------

  predicate LastWith<T>(s: seq<T>, holds: T -> bool, i: nat) {
    i < |s| && holds(s[i]) && forall j | i < j < |s| :: !holds(s[j])
  }

  /** An element more without the property leaves the last one with it where it is. */
  lemma LastWithSnoc<T>(s: seq<T>, holds: T -> bool, i: nat)
    requires s != [] && !holds(s[|s| - 1])
    ensures LastWith(s, holds, i) <==> LastWith(s[..|s| - 1], holds, i)
  {
    var n := |s| - 1;
    if LastWith(s[..n], holds, i) {
      forall j | i < j < |s| ensures !holds(s[j]) { assert j < n ==> s[..n][j] == s[j]; }
    }
  }

  /** Where the elements with a property are. */
  function IndicesWith<T>(s: seq<T>, holds: T -> bool): set<nat> { set i: nat | i < |s| && holds(s[i]) }

  lemma IndicesSnoc<T>(s: seq<T>, holds: T -> bool)
    requires s != []
    ensures var n := |s| - 1; |IndicesWith(s, holds)| == |IndicesWith(s[..n], holds)| + if holds(s[n]) then 1 else 0
  {
    var n := |s| - 1;
    var front := IndicesWith(s[..n], holds);
    assert IndicesWith(s, holds) == front + if holds(s[n]) then {n} else {};
    assert n !in front;
  }
}
