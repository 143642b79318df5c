/** Picking "the first" row among those that match: the least key. */
module Lookup {
  import opened Wrappers

  /** A finite set of integers that holds `x` has a least element. */
  lemma {:induction false} LeastExists(s: set<int>, x: int)
    requires x in s
    ensures exists k :: k in s && forall j :: j in s ==> k <= j
    decreases s
  {
    if !(forall j :: j in s ==> x <= j) {
      var y :| y in s && y < x;
      var rest := s - {x};
      assert y in rest;
      LeastExists(rest, y);
      var m :| m in rest && forall j :: j in rest ==> m <= j;
      assert forall j :: j in s ==> j == x || j in rest;
      assert forall j :: j in s ==> m <= j;
    }
  }

  /** The least element of a set that has one. */
  function Least(s: set<int>): (k: int)
    requires exists x :: x in s
    ensures k in s
    ensures forall j :: j in s ==> k <= j
  {
    var x :| x in s;
    LeastExists(s, x);
    var k :| k in s && forall j :: j in s ==> k <= j; k
  }

  /** The least key of `m` whose value passes `keep`, or None when no value does. */
  function FirstMatch<V>(m: map<int, V>, keep: V -> bool): (r: Option<int>)
    ensures r.None? <==> forall k :: k in m ==> !keep(m[k])
    ensures r.Some? ==> r.value in m && keep(m[r.value])
    ensures r.Some? ==> forall k :: k in m && keep(m[k]) ==> r.value <= k
  {
    var hits := set k | k in m && keep(m[k]);
    if forall k :: k in m ==> !keep(m[k]) then None
    else
      var w :| w in m && keep(m[w]);
      assert w in hits;
      var k := Least(hits);
      assert forall j :: j in m && keep(m[j]) ==> j in hits;
      Some(k)
  }
}
