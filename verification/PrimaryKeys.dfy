/** gorm's First: of the matching rows, the one with the lowest primary key. */
module PrimaryKeys {
  import opened Options

  predicate IsLowest(s: set<nat>, x: nat) { x in s && forall y | y in s :: x <= y }

  lemma {:induction false} LowestExists(s: set<nat>)
    requires s != {}
    ensures exists x :: IsLowest(s, x)
    decreases s
  {
    var a :| a in s;
    var rest := s - {a};
    if rest == {} {
      assert IsLowest({a}, a) && s == {a};
    } else {
      LowestExists(rest);
      var b :| IsLowest(rest, b);
      LowestOfTwo(s, a, b);
    }
  }

  lemma LowestOfTwo(s: set<nat>, a: nat, b: nat)
    requires a in s && IsLowest(s - {a}, b)
    ensures IsLowest(s, if a <= b then a else b)
  {
    forall y | y in s ensures (if a <= b then a else b) <= y {
      if y != a { assert y in s - {a}; }
    }
  }

  ghost function FirstOf(s: set<nat>): (r: Option<nat>)
    ensures if r.Some? then r.value in s && forall y | y in s :: r.value <= y else s == {}
  {
    if s == {} then None
    else
      LowestExists(s);
      var x :| IsLowest(s, x);
      Some(x)
  }

  method PickFirst(s: set<nat>) returns (r: Option<nat>)
    ensures r == FirstOf(s)
  {
    if s == {} { return None; }
    LowestExists(s);
    var x :| IsLowest(s, x);
    r := Some(x);
  }
}
