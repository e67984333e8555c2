// HASH_SRT: the merge sort of the insertion-order list, in place on its links.
module UthashSort {
  import opened Wrappers
  import opened Links
  import opened Sequences
  import opened MergeSort

  // ---- the list while it is being relinked

  /** Already put out: linked both ways, except that the last item's next is not set yet. */
  ghost predicate PutOut(l: Links, out: seq<Id>) {
    forall i :: 0 <= i < |out| ==>
      out[i] in l && l[out[i]].prev == At(out, i - 1) && (i + 1 < |out| ==> l[out[i]].next == Some(out[i + 1]))
  }

  /** A run still to be merged: it leads forward, and where its last item leads does not matter. */
  ghost predicate Segment(l: Links, p: seq<Id>) {
    forall i :: 0 <= i < |p| ==> p[i] in l && (i + 1 < |p| ==> l[p[i]].next == Some(p[i + 1]))
  }

  /** Three stretches that share no item: put out, the first run, and all the rest. */
  ghost predicate Apart(out: seq<Id>, p: seq<Id>, s: seq<Id>) {
    && NoDup(out) && NoDup(p) && NoDup(s)
    && (forall x :: x in out ==> x !in p && x !in s)
    && (forall x :: x in p ==> x !in s)
  }

  ghost predicate Merging(l: Links, out: seq<Id>, p: seq<Id>, s: seq<Id>) {
    Apart(out, p, s) && PutOut(l, out) && Segment(l, p) && Forward(l, s)
  }

  /** The next item goes behind `tail`. */
  function Emit(l: Links, tail: Option<Id>, e: Id): Links
    requires e in l && (tail.Some? ==> tail.value in l)
  {
    var l1 := if tail.Some? then SetNext(l, tail.value, Some(e)) else l;
    SetPrev(l1, e, tail)
  }

  lemma {:induction false} EmitKeeps(l: Links, out: seq<Id>, e: Id)
    requires PutOut(l, out) && NoDup(out) && e in l && e !in out
    ensures var tail := At(out, |out| - 1);
            && (tail.Some? ==> tail.value in l)
            && PutOut(Emit(l, tail, e), out + [e])
            && (forall y :: y in l && y != e && y !in out ==> y in Emit(l, tail, e) && Emit(l, tail, e)[y] == l[y])
  {
    var n := |out|;
    var tail := At(out, n - 1);
    assert n > 0 ==> out[n - 1] in l && out[n - 1] in out;
    var l', out' := Emit(l, tail, e), out + [e];
    forall i | 0 <= i <= n
      ensures out'[i] in l' && l'[out'[i]].prev == At(out', i - 1)
      ensures i + 1 <= n ==> l'[out'[i]].next == Some(out'[i + 1])
    {
      if i < n {
        assert out'[i] == out[i] && out[i] in out && out[i] in l;
        if i + 1 < n {
          Different(out, i, n - 1);
        }
      }
    }
  }

  lemma {:induction false} SegmentTail(l: Links, l': Links, out: seq<Id>, p: seq<Id>)
    requires Segment(l, p) && p != [] && NoDup(p)
    requires forall x :: x in p ==> x !in out
    requires forall y :: y in l && y != p[0] && y !in out ==> y in l' && l'[y] == l[y]
    ensures Segment(l', p[1..]) && (|p| > 1 ==> l[p[0]].next == At(p[1..], 0))
  {
    var r := p[1..];
    forall i | 0 <= i < |r|
      ensures r[i] in l' && (i + 1 < |r| ==> l'[r[i]].next == Some(r[i + 1]))
    {
      assert r[i] == p[i + 1] && p[i + 1] in p;
      Different(p, 0, i + 1);
    }
  }

  lemma {:induction false} SegmentFrame(l: Links, l': Links, p: seq<Id>)
    requires Segment(l, p) && forall i :: 0 <= i < |p| ==> p[i] in l' && l'[p[i]] == l[p[i]]
    ensures Segment(l', p)
  {
  }

  /** The first item of the first run is put out. */
  lemma {:induction false} EmitP(l: Links, out: seq<Id>, p: seq<Id>, s: seq<Id>)
    requires Merging(l, out, p, s) && p != []
    ensures var tail := At(out, |out| - 1);
            && p[0] in l && (tail.Some? ==> tail.value in l)
            && Merging(Emit(l, tail, p[0]), out + [p[0]], p[1..], s)
            && (|p| > 1 ==> l[p[0]].next == At(p[1..], 0))
  {
    hide Emit;
    assert p[0] in p && p == [p[0]] + p[1..];
    EmitKeeps(l, out, p[0]);
    var l' := Emit(l, At(out, |out| - 1), p[0]);
    SegmentTail(l, l', out, p);
    forall i | 0 <= i < |s|
      ensures s[i] in l' && l'[s[i]].next == l[s[i]].next
    {
      assert s[i] in s && s[i] in l;
    }
    ForwardFrame(l, l', s);
    ApartP(out, p, s);
  }

  lemma {:induction false} ApartP(out: seq<Id>, p: seq<Id>, s: seq<Id>)
    requires Apart(out, p, s) && p != []
    ensures Apart(out + [p[0]], p[1..], s)
  {
    assert p == [p[0]] + p[1..];
    assert p[0] in p && p[0] !in p[1..];
    assert forall x :: x in p[1..] ==> x in p;
    AppendNoDup(out, p[0]);
  }

  /** The first item of the rest is put out. */
  lemma {:induction false} EmitQ(l: Links, out: seq<Id>, p: seq<Id>, s: seq<Id>)
    requires Merging(l, out, p, s) && s != []
    ensures var tail := At(out, |out| - 1);
            && s[0] in l && (tail.Some? ==> tail.value in l)
            && Merging(Emit(l, tail, s[0]), out + [s[0]], p, s[1..])
            && l[s[0]].next == At(s[1..], 0)
  {
    hide Emit;
    assert s[0] in s && s == [s[0]] + s[1..];
    EmitKeeps(l, out, s[0]);
    var l' := Emit(l, At(out, |out| - 1), s[0]);
    ForwardTail(l, s);
    forall i | 0 <= i < |s| - 1
      ensures s[1..][i] in l' && l'[s[1..][i]].next == l[s[1..][i]].next
    {
      assert s[1..][i] == s[i + 1] && s[i + 1] in s;
      Different(s, 0, i + 1);
    }
    ForwardFrame(l, l', s[1..]);
    forall i | 0 <= i < |p|
      ensures p[i] in l' && l'[p[i]] == l[p[i]]
    {
      assert p[i] in p;
    }
    SegmentFrame(l, l', p);
    ApartQ(out, p, s);
  }

  lemma {:induction false} ApartQ(out: seq<Id>, p: seq<Id>, s: seq<Id>)
    requires Apart(out, p, s) && s != []
    ensures Apart(out + [s[0]], p, s[1..])
  {
    assert s == [s[0]] + s[1..];
    assert s[0] in s && s[0] !in s[1..];
    assert forall x :: x in s[1..] ==> x in s;
    AppendNoDup(out, s[0]);
  }

  // ---- one merge

  /** Merges the run of `psize` items at `p` with up to `w` items at `q`, behind `tail`. The ghosts
      give what is put out already, the first run, and everything from `q` on. */
  method MergeTwo(before: Links, p0: Option<Id>, psize0: nat, q0: Option<Id>, w: nat, tail0: Option<Id>,
                  list0: Option<Id>, cmp: Comparator, ghost out0: seq<Id>, ghost ps0: seq<Id>, ghost s0: seq<Id>)
    returns (l: Links, q: Option<Id>, tail: Option<Id>, list: Option<Id>, ghost out: seq<Id>)
    requires Merging(before, out0, ps0, s0) && psize0 == |ps0| && (ps0 != [] ==> p0 == Some(ps0[0])) && q0 == At(s0, 0)
    requires tail0 == At(out0, |out0| - 1) && list0 == At(out0, 0)
    ensures var m := Min(w, |s0|);
            && out == out0 + Merged(cmp, ps0, s0[..m])
            && Merging(l, out, [], s0[m..]) && q == At(s0[m..], 0)
    ensures tail == At(out, |out| - 1) && list == At(out, 0)
  {
    hide Merging, Emit;
    l, q, tail, list, out := before, q0, tail0, list0, out0;
    var p, psize, qsize := p0, psize0, w;
    ghost var m := Min(w, |s0|);
    ghost var ps, k := ps0, 0;
    assert s0[0..] == s0;
    while psize != 0 || (qsize != 0 && q.Some?)
      invariant 0 <= k <= m && qsize == w - k && psize == |ps| && (ps != [] ==> p == Some(ps[0]))
      invariant Merging(l, out, ps, s0[k..]) && q == At(s0, k)
      invariant out + Merged(cmp, ps, s0[k..m]) == out0 + Merged(cmp, ps0, s0[..m])
      invariant tail == At(out, |out| - 1) && list == At(out, 0)
      decreases psize + qsize
    {
      var fromP;
      if psize == 0 {
        fromP := false;
      } else if qsize == 0 || q.None? {
        fromP := true;
      } else {
        fromP := Le(cmp, p.value, q.value);
      }
      var e;
      ghost var s := s0[k..];
      MergeStep(cmp, ps, s0, k, m, out, fromP);
      if fromP {
        EmitP(l, out, ps, s);
        e := p.value;
        p := l[e].next;
        psize := psize - 1;
        ps := ps[1..];
      } else {
        EmitQ(l, out, ps, s);
        assert s[0] == s0[k] && s[1..] == s0[k + 1..];
        e := q.value;
        q := l[e].next;
        qsize := qsize - 1;
        k := k + 1;
      }
      l := Emit(l, tail, e);
      if tail.None? {
        list := Some(e);
      }
      tail := Some(e);
      out := out + [e];
    }
    assert s0[k..m] == [] || k < m;
    assert k == m;
    assert Merged(cmp, ps, s0[k..m]) == [];
  }

  lemma {:induction false} MergeStep(cmp: Comparator, ps: seq<Id>, s0: seq<Id>, k: nat, m: nat,
                                     out: seq<Id>, fromP: bool)
    requires k <= m <= |s0| && (ps != [] || k < m)
    requires fromP == (ps != [] && (k == m || Le(cmp, ps[0], s0[k])))
    ensures fromP ==> out + Merged(cmp, ps, s0[k..m]) == out + [ps[0]] + Merged(cmp, ps[1..], s0[k..m])
    ensures !fromP ==> k < m && out + Merged(cmp, ps, s0[k..m]) == out + [s0[k]] + Merged(cmp, ps, s0[k + 1..m])
  {
    var q := s0[k..m];
    if k < m {
      assert q[0] == s0[k] && q[1..] == s0[k + 1..m];
    }
    if fromP {
      assert ps == [ps[0]] + ps[1..];
    } else {
      assert q == [q[0]] + q[1..];
    }
  }

  // ---- one pass

  /** Walks over up to `w` items: where the second run starts, and how long the first one is. */
  method SkipRun(l: Links, p: Option<Id>, w: nat, ghost s: seq<Id>) returns (q: Option<Id>, psize: nat)
    requires w > 0 && s != [] && Forward(l, s) && p == At(s, 0)
    ensures psize == Min(w, |s|) && q == At(s, psize)
  {
    q, psize := p, 0;
    var i := 0;
    while i < w
      invariant 0 <= i == psize <= w && psize < |s| && q == At(s, psize)
    {
      psize := psize + 1;
      q := l[q.value].next;
      if q.None? {
        return;
      }
      i := i + 1;
    }
  }

  lemma {:induction false} SplitRuns(l: Links, out: seq<Id>, s: seq<Id>, k: nat)
    requires Merging(l, out, [], s) && k <= |s|
    ensures Merging(l, out, s[..k], s[k..])
  {
    var p, r := s[..k], s[k..];
    forall i | 0 <= i < |p|
      ensures p[i] in l && (i + 1 < |p| ==> l[p[i]].next == Some(p[i + 1]))
    {
      assert p[i] == s[i];
    }
    forall i | 0 <= i < |r|
      ensures r[i] in l && l[r[i]].next == At(r, i + 1)
    {
      assert r[i] == s[k + i];
    }
    assert Apart(out, p, r);
  }

  lemma {:induction false} Finish(l: Links, out: seq<Id>)
    requires Merging(l, out, [], []) && out != []
    ensures var last := out[|out| - 1];
            last in l && Linked(SetNext(l, last, None), out)
  {
    var n := |out|;
    var last := out[n - 1];
    assert last in l;
    var l' := SetNext(l, last, None);
    forall i | 0 <= i < n
      ensures out[i] in l' && l'[out[i]].next == At(out, i + 1) && l'[out[i]].prev == At(out, i - 1)
    {
      if i < n - 1 {
        Different(out, i, n - 1);
      }
    }
  }

  lemma {:induction false} StartPass(l: Links, s: seq<Id>)
    requires NoDup(s) && Forward(l, s)
    ensures Merging(l, [], [], s)
  {
  }

  /** The first two runs of what is left. */
  method MergePair(before: Links, p0: Option<Id>, w: nat, tail0: Option<Id>, list0: Option<Id>, cmp: Comparator,
                   ghost out0: seq<Id>, ghost s0: seq<Id>)
    returns (l: Links, p: Option<Id>, tail: Option<Id>, list: Option<Id>, ghost out: seq<Id>, ghost s: seq<Id>)
    requires w > 0 && s0 != [] && Merging(before, out0, [], s0) && p0 == At(s0, 0)
    requires tail0 == At(out0, |out0| - 1) && list0 == At(out0, 0)
    ensures Merging(l, out, [], s) && p == At(s, 0) && |s| == |s0| - Min(2 * w, |s0|)
    ensures out + Pass(cmp, s, w) == out0 + Pass(cmp, s0, w)
    ensures tail == At(out, |out| - 1) && list == At(out, 0)
  {
    hide Merging, Merged, Pass, Forward;
    ForwardRest(before, out0, s0);
    var q, psize := SkipRun(before, p0, w, s0);
    SplitRuns(before, out0, s0, psize);
    l, p, tail, list, out := MergeTwo(before, p0, psize, q, w, tail0, list0, cmp, out0, s0[..psize], s0[psize..]);
    s := s0[Min(2 * w, |s0|)..];
    Halved(s0, w);
    PassStep(cmp, s0, w);
    Associate(out0, Merged(cmp, s0[..psize], s0[psize..Min(2 * w, |s0|)]), Pass(cmp, s, w));
  }

  lemma {:induction false} Halved(s: seq<Id>, w: nat)
    ensures var k, m := Min(w, |s|), Min(2 * w, |s|);
            s[k..][..Min(w, |s| - k)] == s[k..m] && s[k..][Min(w, |s| - k)..] == s[m..]
  {
  }

  lemma {:induction false} Associate(a: seq<Id>, b: seq<Id>, c: seq<Id>)
    ensures (a + b) + c == a + (b + c)
  {
  }

  method MergePass(before: Links, list0: Option<Id>, w: nat, cmp: Comparator, ghost s0: seq<Id>)
    returns (l: Links, list: Option<Id>, tail: Option<Id>, nmerges: nat)
    requires w > 0 && s0 != [] && NoDup(s0) && Forward(before, s0) && list0 == At(s0, 0)
    ensures nmerges == Merges(|s0|, w) && Linked(l, Pass(cmp, s0, w))
    ensures list == At(Pass(cmp, s0, w), 0) && tail == At(Pass(cmp, s0, w), |s0| - 1)
  {
    hide Merging, Linked, Merged, Pass, Merges, NoDup, Forward, Min;
    var p := list0;
    l, list, tail, nmerges := before, None, None, 0;
    ghost var s, out := s0, [];
    StartPass(l, s);
    while p.Some?
      invariant Merging(l, out, [], s) && p == At(s, 0)
      invariant out + Pass(cmp, s, w) == Pass(cmp, s0, w) && nmerges + Merges(|s|, w) == Merges(|s0|, w)
      invariant tail == At(out, |out| - 1) && list == At(out, 0)
      decreases |s|
    {
      nmerges := nmerges + 1;
      MergesStep(|s|, w);
      l, p, tail, list, out, s := MergePair(l, p, w, tail, list, cmp, out, s);
    }
    assert s == [];
    EndPass(cmp, w);
    PassMembers(cmp, s0, w);
    assert out == out + [];
    Finish(l, out);
    l := SetNext(l, tail.value, None);
  }

  lemma {:induction false} MergesStep(n: nat, w: nat)
    requires w > 0 && n > 0
    ensures 0 < Min(2 * w, n) <= n && Merges(n, w) == 1 + Merges(n - Min(2 * w, n), w)
  {
  }

  lemma {:induction false} EndPass(cmp: Comparator, w: nat)
    requires w > 0
    ensures Pass(cmp, [], w) == [] && Merges(0, w) == 0
  {
  }

  lemma {:induction false} ForwardRest(l: Links, out: seq<Id>, s: seq<Id>)
    requires Merging(l, out, [], s)
    ensures Forward(l, s)
  {
  }

  // ---- the whole sort

  /** The links become those of a permutation of the list; if the comparator orders the items in one
      line, the permutation is sorted and keeps ties in order. */
  method Sort(before: Links, head: Id, cmp: Comparator, ghost orig: seq<Id>)
    returns (l: Links, list: Option<Id>, tail: Option<Id>, ghost order: seq<Id>)
    requires Linked(before, orig) && At(orig, 0) == Some(head)
    ensures Linked(l, order) && list == At(order, 0) && tail == At(order, |order| - 1)
    ensures multiset(order) == multiset(orig) && |order| == |orig|
    ensures Preorder(cmp, orig) ==> Ascending(cmp, orig, order)
  {
    hide Linked, Preorder, Ascending, Runs, Pass, Merges;
    LinkedList(before, orig);
    SingleRuns(cmp, orig, orig);
    l, list, order := before, Some(head), orig;
    var w := 1;
    while true
      invariant w > 0 && Linked(l, order) && list == At(order, 0)
      invariant multiset(order) == multiset(orig) && |order| == |orig|
      invariant Preorder(cmp, orig) ==> Runs(cmp, orig, orig, order, w)
      decreases |orig| - w
    {
      LinkedList(l, order);
      var nmerges;
      l, list, tail, nmerges := MergePass(l, list, w, cmp, order);
      PassMembers(cmp, order, w);
      OneMerge(|orig|, w);
      if Preorder(cmp, orig) {
        assert orig[0..] == orig;
        PassRuns(cmp, orig, 0, order, w);
      }
      order := Pass(cmp, order, w);
      if nmerges <= 1 {
        if Preorder(cmp, orig) {
          LastPass(cmp, orig, order, 2 * w);
        }
        return;
      }
      w := 2 * w;
    }
  }

  lemma {:induction false} LinkedList(l: Links, q: seq<Id>)
    requires Linked(l, q)
    ensures NoDup(q) && Forward(l, q)
  {
  }
}
