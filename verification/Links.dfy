// Intrusive doubly linked lists: every item carries its own links, and a list is where the
// links lead.
module Links {
  import opened Wrappers
  import opened Sequences

  type Id = nat

  datatype Link = Link(prev: Option<Id>, next: Option<Id>)

  /** The links of all items: the memory the lists live in. */
  type Links = map<Id, Link>

  function At(q: seq<Id>, i: int): Option<Id> {
    if 0 <= i < |q| then Some(q[i]) else None
  }

  /** Following `next` from the first item visits exactly `q`. */
  ghost predicate Forward(l: Links, q: seq<Id>) {
    forall i :: 0 <= i < |q| ==> q[i] in l && l[q[i]].next == At(q, i + 1)
  }

  /** `q` is a doubly linked list: both links of every item lead to its neighbours in `q`. */
  ghost predicate Linked(l: Links, q: seq<Id>) {
    NoDup(q) && Forward(l, q) && forall i :: 0 <= i < |q| ==> q[i] in l && l[q[i]].prev == At(q, i - 1)
  }

  function SetNext(l: Links, x: Id, v: Option<Id>): (r: Links)
    requires x in l
    ensures r.Keys == l.Keys
  {
    l[x := l[x].(next := v)]
  }

  function SetPrev(l: Links, x: Id, v: Option<Id>): (r: Links)
    requires x in l
    ensures r.Keys == l.Keys
  {
    l[x := l[x].(prev := v)]
  }

  /** A list whose items' links did not change is still that list. */
  lemma {:induction false} LinkedFrame(l: Links, l': Links, q: seq<Id>)
    requires Linked(l, q) && forall i :: 0 <= i < |q| ==> q[i] in l' && l'[q[i]] == l[q[i]]
    ensures Linked(l', q)
  {
  }

  lemma {:induction false} ForwardFrame(l: Links, l': Links, q: seq<Id>)
    requires Forward(l, q) && forall i :: 0 <= i < |q| ==> q[i] in l' && l'[q[i]].next == l[q[i]].next
    ensures Forward(l', q)
  {
  }

  /** Dropping the first item of a forward list leaves one. */
  lemma {:induction false} ForwardTail(l: Links, q: seq<Id>)
    requires Forward(l, q) && q != []
    ensures Forward(l, q[1..]) && l[q[0]].next == At(q[1..], 0)
  {
    forall i | 0 <= i < |q| - 1
      ensures q[1..][i] in l && l[q[1..][i]].next == At(q[1..], i + 1)
    {
      assert q[1..][i] == q[i + 1];
    }
  }

  // ---- adding in front

  /** `x` in front of the list that starts at `head`. */
  function PushFront(l: Links, head: Option<Id>, x: Id): (r: Links)
    requires head.Some? ==> head.value in l
  {
    var l1 := l[x := Link(None, head)];
    if head.Some? then SetPrev(l1, head.value, Some(x)) else l1
  }

  lemma {:induction false} PushFrontLinked(l: Links, q: seq<Id>, x: Id)
    requires Linked(l, q) && x !in q
    ensures Linked(PushFront(l, At(q, 0), x), [x] + q)
    ensures forall y :: y in l && y != x && y !in q ==>
              y in PushFront(l, At(q, 0), x) && PushFront(l, At(q, 0), x)[y] == l[y]
  {
    var l', q' := PushFront(l, At(q, 0), x), [x] + q;
    PrependNoDup(q, x);
    hide NoDup;
    assert q != [] ==> q[0] in q && q[0] in l;
    forall i | 0 <= i < |q'|
      ensures q'[i] in l' && l'[q'[i]].next == At(q', i + 1) && l'[q'[i]].prev == At(q', i - 1)
    {
      hide Linked, Forward;
      if i > 0 {
        LinkAt(l, q, i - 1);
        assert q'[i] == q[i - 1] && q[i - 1] in q;
        if i > 1 {
          Different(q, i - 1, 0);
        }
      }
    }
  }

  lemma {:induction false} PrependNoDup(q: seq<Id>, x: Id)
    requires NoDup(q) && x !in q
    ensures NoDup([x] + q)
  {
  }

  // ---- adding behind

  /** `x` behind `tail`. */
  function PushBack(l: Links, tail: Option<Id>, x: Id): (r: Links)
    requires tail.Some? ==> tail.value in l
  {
    var l1 := l[x := Link(tail, None)];
    if tail.Some? then SetNext(l1, tail.value, Some(x)) else l1
  }

  lemma {:induction false} AppendNoDup(q: seq<Id>, x: Id)
    requires NoDup(q) && x !in q
    ensures NoDup(q + [x])
  {
  }

  lemma {:induction false} PushBackLinked(l: Links, q: seq<Id>, x: Id)
    requires Linked(l, q) && x !in q
    ensures Linked(PushBack(l, At(q, |q| - 1), x), q + [x])
  {
    hide Linked, Forward, NoDup, PushBack;
    if q == [] {
      PushBackFirst(l, x);
      assert q + [x] == [x];
    } else {
      var n := |q|;
      LinkAt(l, q, n - 1);
      AppendNoDup(q, x);
      var l', q' := PushBack(l, Some(q[n - 1]), x), q + [x];
      forall i | 0 <= i <= n
        ensures q'[i] in l' && l'[q'[i]] == Link(At(q', i - 1), At(q', i + 1))
      {
        PushBackAt(l, q, x, i);
      }
      Linking(l', q');
    }
  }

  lemma {:induction false} Linking(l: Links, q: seq<Id>)
    requires NoDup(q) && forall i :: 0 <= i < |q| ==> q[i] in l && l[q[i]] == Link(At(q, i - 1), At(q, i + 1))
    ensures Linked(l, q)
  {
  }

  lemma {:induction false} PushBackFirst(l: Links, x: Id)
    ensures Linked(PushBack(l, None, x), [x])
  {
  }

  lemma {:induction false} PushBackAt(l: Links, q: seq<Id>, x: Id, i: nat)
    requires Linked(l, q) && x !in q && q != [] && i <= |q| && q[|q| - 1] in l
    ensures var l', q' := PushBack(l, Some(q[|q| - 1]), x), q + [x];
            q'[i] in l' && l'[q'[i]] == Link(At(q', i - 1), At(q', i + 1))
  {
    hide Linked, Forward, NoDup;
    var n := |q|;
    if i < n {
      LinkAt(l, q, i);
      assert q[i] in q;
      if i < n - 1 {
        Different(q, i, n - 1);
      }
    }
  }

  lemma {:induction false} Different(q: seq<Id>, i: nat, j: nat)
    requires NoDup(q) && i < |q| && j < |q| && i != j
    ensures q[i] != q[j]
  {
  }

  lemma {:induction false} LinkAt(l: Links, q: seq<Id>, i: nat)
    requires Linked(l, q) && i < |q|
    ensures NoDup(q) && q[i] in l && l[q[i]] == Link(At(q, i - 1), At(q, i + 1))
  {
  }

  // ---- taking out

  /** The neighbours of `x` are joined; the links of `x` itself are left as they are. */
  function Unlink(l: Links, x: Id): (r: Links)
    requires x in l && (l[x].prev.Some? ==> l[x].prev.value in l) && (l[x].next.Some? ==> l[x].next.value in l)
    ensures r.Keys == l.Keys
  {
    var l1 := if l[x].prev.Some? then SetNext(l, l[x].prev.value, l[x].next) else l;
    if l[x].next.Some? then SetPrev(l1, l[x].next.value, l[x].prev) else l1
  }

  function Cut(q: seq<Id>, i: nat): (r: seq<Id>)
    requires i < |q|
  {
    q[..i] + q[i + 1..]
  }

  lemma {:induction false} CutMembers(q: seq<Id>, i: nat)
    requires i < |q| && NoDup(q)
    ensures NoDup(Cut(q, i)) && forall y :: y in Cut(q, i) <==> y in q && y != q[i]
  {
    var r := Cut(q, i);
    assert forall j :: 0 <= j < |r| ==> r[j] == q[if j < i then j else j + 1];
    forall y | y in q && y != q[i]
      ensures y in r
    {
      var j :| 0 <= j < |q| && q[j] == y;
      assert r[if j < i then j else j - 1] == y;
    }
  }

  lemma {:induction false} UnlinkLinked(l: Links, q: seq<Id>, i: nat)
    requires Linked(l, q) && i < |q|
    ensures q[i] in l && l[q[i]] == Link(At(q, i - 1), At(q, i + 1))
    ensures (i > 0 ==> q[i - 1] in l) && (i + 1 < |q| ==> q[i + 1] in l)
    ensures Linked(Unlink(l, q[i]), Cut(q, i))
    ensures forall y :: y in l && y !in q ==> Unlink(l, q[i])[y] == l[y]
  {
    LinkAt(l, q, i);
    assert i > 0 ==> q[i - 1] in l && q[i - 1] in q;
    assert i + 1 < |q| ==> q[i + 1] in l && q[i + 1] in q;
    CutMembers(q, i);
    hide NoDup, Cut, Unlink;
    var l', r := Unlink(l, q[i]), Cut(q, i);
    forall j | 0 <= j < |r|
      ensures r[j] in l' && l'[r[j]].next == At(r, j + 1) && l'[r[j]].prev == At(r, j - 1)
    {
      CutAt(q, i);
      UnlinkAt(l, q, i, j);
    }
    assert forall y :: y in l && y !in q ==> l'[y] == l[y] by {
      UnlinkElsewhere(l, q, i);
    }
  }

  lemma {:induction false} UnlinkElsewhere(l: Links, q: seq<Id>, i: nat)
    requires Linked(l, q) && i < |q| && (i > 0 ==> q[i - 1] in l) && (i + 1 < |q| ==> q[i + 1] in l)
    ensures l[q[i]] == Link(At(q, i - 1), At(q, i + 1))
    ensures forall y :: y in l && y !in q ==> Unlink(l, q[i])[y] == l[y]
  {
    LinkAt(l, q, i);
    assert i > 0 ==> q[i - 1] in q;
    assert i + 1 < |q| ==> q[i + 1] in q;
    hide Linked, NoDup;
  }

  lemma {:induction false} CutAt(q: seq<Id>, i: nat)
    requires i < |q|
    ensures |Cut(q, i)| == |q| - 1
    ensures forall j :: 0 <= j < |q| - 1 ==> Cut(q, i)[j] == q[if j < i then j else j + 1]
  {
  }

  lemma {:induction false} UnlinkAt(l: Links, q: seq<Id>, i: nat, j: nat)
    requires Linked(l, q) && i < |q| && j < |q| - 1
    requires q[i] in l && l[q[i]] == Link(At(q, i - 1), At(q, i + 1))
    requires (i > 0 ==> q[i - 1] in l) && (i + 1 < |q| ==> q[i + 1] in l)
    ensures |Cut(q, i)| == |q| - 1
    ensures var l', r := Unlink(l, q[i]), Cut(q, i);
            r[j] in l' && l'[r[j]].next == At(r, j + 1) && l'[r[j]].prev == At(r, j - 1)
  {
    hide Linked, NoDup, Cut;
    var k := if j < i then j else j + 1;
    CutAt(q, i);
    LinkAt(l, q, k);
    if i > 0 && k != i - 1 {
      Different(q, k, i - 1);
    }
    if i + 1 < |q| && k != i + 1 {
      Different(q, k, i + 1);
    }
  }
}
