// Bottom-up merge sort of a list without duplicates, as sequences: what one merge and one pass do,
// and why the last pass leaves a sorted, stable permutation.
module MergeSort {
  import opened Links
  import opened Sequences

  type Comparator = (Id, Id) -> int

  predicate Le(cmp: Comparator, a: Id, b: Id) {
    cmp(a, b) <= 0
  }

  /** The comparator orders the items of `q` in one line, ties allowed. */
  ghost predicate Preorder(cmp: Comparator, q: seq<Id>) {
    && (forall a, b :: a in q && b in q ==> Le(cmp, a, b) || Le(cmp, b, a))
    && (forall a, b, c :: a in q && b in q && c in q && Le(cmp, a, b) && Le(cmp, b, c) ==> Le(cmp, a, c))
  }

  ghost function Index(q: seq<Id>, x: Id): (i: nat)
    requires x in q
    ensures i < |q| && q[i] == x
  {
    var i: nat :| i < |q| && q[i] == x;
    i
  }

  /** `a` may stand before `b`: it is no greater, and if they tie it stood before it in `orig`. */
  ghost predicate Asc(cmp: Comparator, orig: seq<Id>, a: Id, b: Id) {
    && a in orig && b in orig && Le(cmp, a, b)
    && (Le(cmp, b, a) ==> Index(orig, a) < Index(orig, b))
  }

  /** Sorted, and ties in their original order. */
  ghost predicate Ascending(cmp: Comparator, orig: seq<Id>, q: seq<Id>) {
    forall i, j :: 0 <= i < j < |q| ==> Asc(cmp, orig, q[i], q[j])
  }

  lemma {:induction false} AscTrans(cmp: Comparator, orig: seq<Id>, a: Id, b: Id, c: Id)
    requires Preorder(cmp, orig) && Asc(cmp, orig, a, b) && Asc(cmp, orig, b, c)
    ensures Asc(cmp, orig, a, c)
  {
    if Le(cmp, c, a) {
      assert Le(cmp, b, a) && Le(cmp, c, b);
    }
  }

  // ---- merging two runs

  function Merged(cmp: Comparator, p: seq<Id>, q: seq<Id>): (r: seq<Id>) {
    if p == [] then q
    else if q == [] then p
    else if Le(cmp, p[0], q[0]) then [p[0]] + Merged(cmp, p[1..], q)
    else [q[0]] + Merged(cmp, p, q[1..])
  }

  lemma {:induction false} MergedMembers(cmp: Comparator, p: seq<Id>, q: seq<Id>)
    ensures multiset(Merged(cmp, p, q)) == multiset(p) + multiset(q)
    ensures |Merged(cmp, p, q)| == |p| + |q|
  {
    if p != [] && q != [] {
      assert p == [p[0]] + p[1..] && q == [q[0]] + q[1..];
      if Le(cmp, p[0], q[0]) {
        MergedMembers(cmp, p[1..], q);
      } else {
        MergedMembers(cmp, p, q[1..]);
      }
    }
  }

  /** Everything in `p` stood before everything in `q`. */
  ghost predicate Earlier(orig: seq<Id>, p: seq<Id>, q: seq<Id>) {
    forall a, b :: a in p && b in q ==> a in orig && b in orig && Index(orig, a) < Index(orig, b)
  }

  lemma {:induction false} MergedAscending(cmp: Comparator, orig: seq<Id>, p: seq<Id>, q: seq<Id>)
    requires Preorder(cmp, orig) && Ascending(cmp, orig, p) && Ascending(cmp, orig, q) && Earlier(orig, p, q)
    ensures Ascending(cmp, orig, Merged(cmp, p, q))
  {
    if p != [] && q != [] {
      hide Asc, Preorder;
      assert p == [p[0]] + p[1..] && q == [q[0]] + q[1..];
      if Le(cmp, p[0], q[0]) {
        assert forall a :: a in p[1..] ==> a in p;
        MergedAscending(cmp, orig, p[1..], q);
        FirstOfP(cmp, orig, p, q);
        Prefixed(cmp, orig, p[0], p[1..], q);
      } else {
        assert forall b :: b in q[1..] ==> b in q;
        MergedAscending(cmp, orig, p, q[1..]);
        FirstOfQ(cmp, orig, p, q);
        Prefixed(cmp, orig, q[0], p, q[1..]);
      }
    }
  }

  lemma {:induction false} Prefixed(cmp: Comparator, orig: seq<Id>, x: Id, p: seq<Id>, q: seq<Id>)
    requires Ascending(cmp, orig, Merged(cmp, p, q))
    requires forall y :: y in p || y in q ==> Asc(cmp, orig, x, y)
    ensures Ascending(cmp, orig, [x] + Merged(cmp, p, q))
  {
    hide Asc, Merged;
    var m := Merged(cmp, p, q);
    MergedMembers(cmp, p, q);
    forall j | 0 <= j < |m|
      ensures Asc(cmp, orig, x, m[j])
    {
      assert m[j] in multiset(m);
    }
    var r := [x] + m;
    assert forall j :: 1 <= j < |r| ==> r[j] == m[j - 1];
  }

  lemma {:induction false} FirstOfP(cmp: Comparator, orig: seq<Id>, p: seq<Id>, q: seq<Id>)
    requires Preorder(cmp, orig) && Ascending(cmp, orig, p) && Ascending(cmp, orig, q) && Earlier(orig, p, q)
    requires p != [] && q != [] && Le(cmp, p[0], q[0])
    ensures forall y :: y in p[1..] || y in q ==> Asc(cmp, orig, p[0], y)
  {
    hide Preorder;
    assert p[0] in p && q[0] in q;
    assert Asc(cmp, orig, p[0], q[0]);
    Later(cmp, orig, p);
    forall j | 0 <= j < |q|
      ensures Asc(cmp, orig, p[0], q[j])
    {
      if j > 0 {
        AscTrans(cmp, orig, p[0], q[0], q[j]);
      }
    }
  }

  lemma {:induction false} FirstOfQ(cmp: Comparator, orig: seq<Id>, p: seq<Id>, q: seq<Id>)
    requires Preorder(cmp, orig) && Ascending(cmp, orig, p) && Ascending(cmp, orig, q) && Earlier(orig, p, q)
    requires p != [] && q != [] && !Le(cmp, p[0], q[0])
    ensures forall y :: y in p || y in q[1..] ==> Asc(cmp, orig, q[0], y)
  {
    assert p[0] in p && q[0] in q;
    assert Asc(cmp, orig, q[0], p[0]);
    hide Preorder;
    Later(cmp, orig, q);
    forall j | 0 <= j < |p|
      ensures Asc(cmp, orig, q[0], p[j])
    {
      if j > 0 {
        AscTrans(cmp, orig, q[0], p[0], p[j]);
      }
    }
  }

  lemma {:induction false} Later(cmp: Comparator, orig: seq<Id>, p: seq<Id>)
    requires Ascending(cmp, orig, p) && p != []
    ensures forall y :: y in p[1..] ==> Asc(cmp, orig, p[0], y)
  {
    hide Asc;
    forall y | y in p[1..]
      ensures Asc(cmp, orig, p[0], y)
    {
      var j :| 0 <= j < |p[1..]| && p[1..][j] == y;
      assert p[j + 1] == y;
    }
  }

  // ---- one pass

  /** Neighbouring runs of length `w` are merged. */
  function Pass(cmp: Comparator, s: seq<Id>, w: nat): (r: seq<Id>)
    requires w > 0
    decreases |s|
  {
    if s == [] then []
    else
      var k, m := Min(w, |s|), Min(2 * w, |s|);
      Merged(cmp, s[..k], s[k..m]) + Pass(cmp, s[m..], w)
  }

  /** How many merges that takes. */
  function Merges(n: nat, w: nat): nat
    requires w > 0
  {
    if n == 0 then 0 else 1 + Merges(n - Min(2 * w, n), w)
  }

  lemma {:induction false} OneMerge(n: nat, w: nat)
    requires w > 0
    ensures Merges(n, w) <= 1 <==> n <= 2 * w
  {
    if n > 2 * w {
      assert Merges(n - 2 * w, w) >= 1;
    }
  }

  lemma {:induction false} ThreeParts(s: seq<Id>, k: nat, m: nat)
    requires k <= m <= |s|
    ensures multiset(s) == multiset(s[..k]) + multiset(s[k..m]) + multiset(s[m..])
  {
    assert s == s[..k] + s[k..m] + s[m..];
  }

  lemma {:induction false} PassMembers(cmp: Comparator, s: seq<Id>, w: nat)
    requires w > 0
    ensures multiset(Pass(cmp, s, w)) == multiset(s) && |Pass(cmp, s, w)| == |s|
    decreases |s|
  {
    if s != [] {
      var k, m := Min(w, |s|), Min(2 * w, |s|);
      MergedMembers(cmp, s[..k], s[k..m]);
      PassMembers(cmp, s[m..], w);
      ThreeParts(s, k, m);
      hide Merged;
    }
  }

  /** A run holds the items of its stretch of `orig`, ascending. */
  ghost predicate Run(cmp: Comparator, orig: seq<Id>, o: seq<Id>, s: seq<Id>) {
    multiset(s) == multiset(o) && Ascending(cmp, orig, s)
  }

  /** `s` is made of runs of length `w` of the stretch `o`. */
  ghost predicate Runs(cmp: Comparator, orig: seq<Id>, o: seq<Id>, s: seq<Id>, w: nat)
    requires w > 0
    decreases |s|
  {
    && |o| == |s|
    && (s == [] || var k := Min(w, |s|);
          Run(cmp, orig, o[..k], s[..k]) && Runs(cmp, orig, o[k..], s[k..], w))
  }

  lemma {:induction false} SingleRuns(cmp: Comparator, orig: seq<Id>, o: seq<Id>)
    ensures Runs(cmp, orig, o, o, 1)
  {
    if o != [] {
      SingleRuns(cmp, orig, o[1..]);
      assert Ascending(cmp, orig, o[..1]);
    }
  }

  /** What stands in two stretches, one behind the other. */
  lemma {:induction false} Stretches(orig: seq<Id>, d: nat, e: nat, f: nat, p: seq<Id>, q: seq<Id>)
    requires NoDup(orig) && d <= e <= f <= |orig|
    requires multiset(p) == multiset(orig[d..e]) && multiset(q) == multiset(orig[e..f])
    ensures Earlier(orig, p, q)
  {
    forall a, b | a in p && b in q
      ensures a in orig && b in orig && Index(orig, a) < Index(orig, b)
    {
      assert a in multiset(p) && b in multiset(q);
      assert a in orig[d..e] && b in orig[e..f];
      var i :| d <= i < e && orig[i] == a;
      var j :| e <= j < f && orig[j] == b;
      assert Index(orig, a) == i && Index(orig, b) == j;
    }
  }

  lemma {:induction false} PassRuns(cmp: Comparator, orig: seq<Id>, d: nat, s: seq<Id>, w: nat)
    requires w > 0 && NoDup(orig) && Preorder(cmp, orig) && d <= |orig|
    requires Runs(cmp, orig, orig[d..], s, w)
    ensures Runs(cmp, orig, orig[d..], Pass(cmp, s, w), 2 * w)
    decreases |s|
  {
    hide Run, Runs, Preorder, NoDup, Merged, Pass;
    if s == [] {
      NoRuns(cmp, orig, orig[d..], w);
    } else {
      var k, m := Min(w, |s|), Min(2 * w, |s|);
      TwoRunsAt(cmp, orig, d, s, w);
      PassStep(cmp, s, w);
      var p, q, rest := s[..k], s[k..m], s[m..];
      MergedRun(cmp, orig, d, d + k, d + m, p, q);
      PassRuns(cmp, orig, d + m, rest, w);
      PassMembers(cmp, rest, w);
      JoinedAt(cmp, orig, d, m, Merged(cmp, p, q), Pass(cmp, rest, w), 2 * w);
    }
  }

  lemma {:induction false} NoRuns(cmp: Comparator, orig: seq<Id>, o: seq<Id>, w: nat)
    requires w > 0 && Runs(cmp, orig, o, [], w)
    ensures Runs(cmp, orig, o, Pass(cmp, [], w), 2 * w)
  {
  }

  lemma {:induction false} TwoRunsAt(cmp: Comparator, orig: seq<Id>, d: nat, s: seq<Id>, w: nat)
    requires w > 0 && s != [] && d <= |orig| && Runs(cmp, orig, orig[d..], s, w)
    ensures var k, m := Min(w, |s|), Min(2 * w, |s|);
            && d + |s| == |orig|
            && Run(cmp, orig, orig[d..d + k], s[..k]) && Run(cmp, orig, orig[d + k..d + m], s[k..m])
            && Runs(cmp, orig, orig[d + m..], s[m..], w)
  {
    hide Run, Runs;
    TwoRuns(cmp, orig, orig[d..], s, w);
    assert |orig[d..]| == |orig| - d;
    Stretch(orig, d, Min(w, |s|), Min(2 * w, |s|));
  }

  lemma {:induction false} JoinedAt(cmp: Comparator, orig: seq<Id>, d: nat, m: nat, r: seq<Id>, rest: seq<Id>, w: nat)
    requires w > 0 && r != [] && |r| == m && d + m + |rest| == |orig| && m == Min(w, m + |rest|)
    requires Run(cmp, orig, orig[d..d + m], r) && Runs(cmp, orig, orig[d + m..], rest, w)
    ensures Runs(cmp, orig, orig[d..], r + rest, w)
  {
    hide Run, Runs;
    Stretch(orig, d, m, m);
    Joined(cmp, orig, orig[d..], r, rest, w);
  }

  lemma {:induction false} PassStep(cmp: Comparator, s: seq<Id>, w: nat)
    requires w > 0 && s != []
    ensures var k, m := Min(w, |s|), Min(2 * w, |s|);
            Pass(cmp, s, w) == Merged(cmp, s[..k], s[k..m]) + Pass(cmp, s[m..], w)
  {
  }

  lemma {:induction false} MergedRun(cmp: Comparator, orig: seq<Id>, d: nat, e: nat, f: nat, p: seq<Id>, q: seq<Id>)
    requires NoDup(orig) && Preorder(cmp, orig) && d <= e <= f <= |orig|
    requires Run(cmp, orig, orig[d..e], p) && Run(cmp, orig, orig[e..f], q) && |p| + |q| == f - d
    ensures Run(cmp, orig, orig[d..f], Merged(cmp, p, q)) && |Merged(cmp, p, q)| == f - d
  {
    hide Preorder, NoDup, Ascending, Merged;
    Stretches(orig, d, e, f, p, q);
    MergedAscending(cmp, orig, p, q);
    MergedMembers(cmp, p, q);
    assert orig[d..f] == orig[d..e] + orig[e..f];
  }

  lemma {:induction false} Stretch(orig: seq<Id>, d: nat, k: nat, m: nat)
    requires d + m <= |orig| && k <= m
    ensures var o := orig[d..];
            && o[..k] == orig[d..d + k] && o[..m] == orig[d..d + m]
            && o[k..m] == orig[d + k..d + m] && o[m..] == orig[d + m..]
  {
  }

  lemma {:induction false} Joined(cmp: Comparator, orig: seq<Id>, o: seq<Id>, r: seq<Id>, rest: seq<Id>, w: nat)
    requires w > 0 && r != [] && |o| == |r| + |rest| && |r| == Min(w, |o|)
    requires Run(cmp, orig, o[..|r|], r) && Runs(cmp, orig, o[|r|..], rest, w)
    ensures Runs(cmp, orig, o, r + rest, w)
  {
    assert (r + rest)[..|r|] == r && (r + rest)[|r|..] == rest;
  }

  lemma {:induction false} TwoRuns(cmp: Comparator, orig: seq<Id>, o: seq<Id>, s: seq<Id>, w: nat)
    requires w > 0 && s != [] && Runs(cmp, orig, o, s, w)
    ensures var k, m := Min(w, |s|), Min(2 * w, |s|);
            && |o| == |s|
            && Run(cmp, orig, o[..k], s[..k]) && Run(cmp, orig, o[k..m], s[k..m])
            && Runs(cmp, orig, o[m..], s[m..], w)
  {
    assert Run(cmp, orig, [], []);
    hide Run;
    var k, m := Min(w, |s|), Min(2 * w, |s|);
    var o1, s1 := o[k..], s[k..];
    if s1 != [] {
      assert Min(w, |s1|) == m - k;
      assert o1[..m - k] == o[k..m] && s1[..m - k] == s[k..m];
      assert o1[m - k..] == o[m..] && s1[m - k..] == s[m..];
    } else {
      assert o[k..m] == [] && s[k..m] == [] && o[m..] == [] && s[m..] == [];
    }
  }

  /** The last pass: one run is the whole list. */
  lemma {:induction false} LastPass(cmp: Comparator, orig: seq<Id>, s: seq<Id>, w: nat)
    requires w > 0 && Runs(cmp, orig, orig, s, w) && |s| <= w
    ensures Ascending(cmp, orig, s) && multiset(s) == multiset(orig)
  {
    if s == [] {
      assert orig == [];
    } else {
      assert s[..|s|] == s && orig[..|s|] == orig;
    }
  }
}
