/** Small facts about sequences of ids, and the smaller of two numbers. */
module Sequences {

  function Min(a: int, b: int): int {
    if a < b then a else b
  }

  predicate NoDup(q: seq<nat>) {
    forall i, j :: 0 <= i < j < |q| ==> q[i] != q[j]
  }

  ghost function Lengths(qs: seq<seq<nat>>): nat {
    if qs == [] then 0 else Lengths(qs[..|qs| - 1]) + |qs[|qs| - 1]|
  }

  lemma {:induction false} Cardinality(q: seq<nat>, s: set<nat>)
    requires NoDup(q) && forall x :: x in q <==> x in s
    ensures |q| == |s|
  {
    if q == [] {
      assert s == {};
    } else {
      var n := |q| - 1;
      var init, last := q[..n], q[n];
      assert q == init + [last];
      assert last !in init;
      Cardinality(init, s - {last});
    }
  }
}
