/** Iteration over `std::set` and `std::map` goes through their keys in ascending order. */
module Ordered {
  ghost predicate Ascending(s: seq<nat>) {
    forall i, j | 0 <= i < j < |s| :: s[i] < s[j]
  }

  predicate Least(s: set<nat>, x: nat) {
    x in s && forall y | y in s :: x <= y
  }

  lemma {:induction false} HasLeast(s: set<nat>)
    requires s != {}
    ensures exists x :: Least(s, x)
    decreases |s|
  {
    var z :| z in s;
    var rest := s - {z};
    assert forall y | y in s :: y == z || y in rest;
    if rest == {} {
      assert Least(s, z);
    } else {
      HasLeast(rest);
      var w :| Least(rest, w);
      assert Least(s, if z < w then z else w);
    }
  }

  // The elements of a set in ascending order.
  function InOrder(s: set<nat>): (r: seq<nat>)
    ensures Ascending(r) && |r| == |s|
    ensures forall x :: x in r <==> x in s
    decreases |s|
  {
    if s == {} then []
    else
      HasLeast(s);
      var x :| x in s && Least(s, x);
      var rest := InOrder(s - {x});
      LeastFirst(s, x, rest);
      [x] + rest
  }

  lemma LeastFirst(s: set<nat>, x: nat, rest: seq<nat>)
    requires Least(s, x) && Ascending(rest) && forall y :: y in rest <==> y in s - {x}
    ensures Ascending([x] + rest)
    ensures forall y :: y in [x] + rest <==> y in s
  {
    forall i | 0 <= i < |rest| ensures x < rest[i] {
      assert rest[i] in rest;
    }
    forall y ensures y in [x] + rest <==> y in s {
      assert y in [x] + rest <==> y == x || y in rest;
    }
  }
}
