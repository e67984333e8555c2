// The buckets of uthash: the chain of every bucket, and moving items between chains.
module HashChains {
  import opened Wrappers
  import opened Links
  import opened Sequences

  type Key = string

  datatype Item = Item(key: Key, hashv: nat)

  type Items = map<Id, Item>

  datatype Bucket = Bucket(head: Option<Id>, count: nat, expandMult: nat)

  // ---- bucket numbers

  function Pow2(k: nat): (p: nat)
    ensures p > 0
  {
    if k == 0 then 1 else 2 * Pow2(k - 1)
  }

  /** Bitwise conjunction. */
  function And(x: nat, y: nat): nat {
    if x == 0 || y == 0 then 0 else x % 2 * (y % 2) + 2 * And(x / 2, y / 2)
  }

  function ToBkt(hashv: nat, numBuckets: nat): nat
    requires numBuckets > 0
  {
    And(hashv, numBuckets - 1)
  }

  /** The mask keeps the hash value modulo the number of buckets. */
  lemma {:induction false} ToBktIsRemainder(hashv: nat, k: nat)
    ensures ToBkt(hashv, Pow2(k)) == hashv % Pow2(k)
  {
    if k == 0 || hashv == 0 {
    } else {
      var h, m := hashv / 2, Pow2(k - 1);
      ToBktIsRemainder(h, k - 1);
      assert (Pow2(k) - 1) / 2 == m - 1 && (Pow2(k) - 1) % 2 == 1;
      Halves(hashv, m);
    }
  }

  lemma {:induction false} Halves(x: nat, m: nat)
    requires m > 0
    ensures x % (2 * m) == x % 2 + 2 * (x / 2 % m)
  {
    var q, r := x / 2 / m, x / 2 % m;
    assert x / 2 == q * m + r;
    assert x == q * (2 * m) + (2 * r + x % 2);
    Unique(x, 2 * m, q, 2 * r + x % 2);
  }

  lemma {:induction false} Unique(x: nat, m: nat, q: nat, r: nat)
    requires m > 0 && x == q * m + r && r < m
    ensures x % m == r
  {
    var q', r' := x / m, x % m;
    assert q' * m + r' == q * m + r;
    if q' < q {
      AtLeast(q' + 1, q, m);
    } else if q' > q {
      AtLeast(q + 1, q', m);
    }
  }

  lemma {:induction false} AtLeast(a: nat, b: nat, m: nat)
    requires a <= b
    ensures a * m <= b * m
  {
  }

  // ---- chains

  /** Bucket `b` of `n` chains exactly the members that hash to it and counts them. */
  ghost predicate ChainOk(l: Links, items: Items, members: set<Id>, bucket: Bucket, chain: seq<Id>, b: nat, n: nat)
    requires n > 0
  {
    && Linked(l, chain)
    && bucket.head == At(chain, 0) && bucket.count == |chain|
    && (forall x :: x in chain <==> x in members && x in items && ToBkt(items[x].hashv, n) == b)
  }

  ghost predicate Chained(l: Links, items: Items, members: set<Id>, buckets: seq<Bucket>, chains: seq<seq<Id>>) {
    && |chains| == |buckets| > 0
    && (forall b :: 0 <= b < |buckets| ==> ChainOk(l, items, members, buckets[b], chains[b], b, |buckets|))
  }

  lemma {:induction false} EmptyChains(l: Links, items: Items, buckets: seq<Bucket>, chains: seq<seq<Id>>)
    requires |chains| == |buckets| > 0
    requires forall b :: 0 <= b < |buckets| ==> buckets[b] == Bucket(None, 0, 0) && chains[b] == []
    ensures Chained(l, items, {}, buckets, chains)
  {
    forall b | 0 <= b < |buckets|
      ensures ChainOk(l, items, {}, buckets[b], chains[b], b, |buckets|)
    {
    }
  }

  /** One more member, in front of its chain. */
  lemma {:induction false} ChainMore(l: Links, items: Items, members: set<Id>, buckets: seq<Bucket>,
                                     chains: seq<seq<Id>>, x: Id, mult: nat)
    requires Chained(l, items, members, buckets, chains) && x !in members && x in items
    requires ToBkt(items[x].hashv, |buckets|) < |buckets|
    ensures var c := ToBkt(items[x].hashv, |buckets|);
            && (buckets[c].head.Some? ==> buckets[c].head.value in l)
            && buckets[c].head == At(chains[c], 0)
            && var l' := PushFront(l, buckets[c].head, x);
               && Chained(l', items, members + {x},
                          buckets[c := Bucket(Some(x), buckets[c].count + 1, mult)],
                          chains[c := [x] + chains[c]])
               && (forall y :: y in l && y != x && y !in members ==> y in l' && l'[y] == l[y])
  {
    var n := |buckets|;
    var c := ToBkt(items[x].hashv, n);
    assert ChainOk(l, items, members, buckets[c], chains[c], c, n);
    assert x !in chains[c];
    PushFrontLinked(l, chains[c], x);
    if chains[c] != [] {
      HeadIn(l, chains[c]);
    }
    var l' := PushFront(l, buckets[c].head, x);
    var buckets', chains' := buckets[c := Bucket(Some(x), buckets[c].count + 1, mult)], chains[c := [x] + chains[c]];
    hide PushFront, Linked, ToBkt;
    forall b | 0 <= b < n
      ensures ChainOk(l', items, members + {x}, buckets'[b], chains'[b], b, n)
    {
      assert ChainOk(l, items, members, buckets[b], chains[b], b, n);
      if b != c {
        Elsewhere(l, l', items, members, chains, b, c, n);
      }
    }
  }

  lemma {:induction false} HeadIn(l: Links, q: seq<Id>)
    requires Linked(l, q) && q != []
    ensures q[0] in l && q[0] in q
  {
  }

  /** Other chains do not notice. */
  lemma {:induction false} Elsewhere(l: Links, l': Links, items: Items, members: set<Id>, chains: seq<seq<Id>>,
                                     b: nat, c: nat, n: nat)
    requires b < |chains| && c < |chains| && b != c && n > 0 && Linked(l, chains[b])
    requires forall x :: x in chains[b] ==> x in members && x in items && ToBkt(items[x].hashv, n) == b
    requires forall x :: x in chains[c] ==> x in members && x in items && ToBkt(items[x].hashv, n) == c
    requires forall y :: y in l && y in members && y !in chains[c] ==> y in l' && l'[y] == l[y]
    ensures Linked(l', chains[b])
  {
    hide ToBkt;
    forall i | 0 <= i < |chains[b]|
      ensures chains[b][i] in l' && l'[chains[b][i]] == l[chains[b][i]]
    {
      assert chains[b][i] in chains[b];
    }
    LinkedFrame(l, l', chains[b]);
  }

  /** One member less. */
  lemma {:induction false} ChainLess(l: Links, items: Items, members: set<Id>, buckets: seq<Bucket>,
                                     chains: seq<seq<Id>>, c: nat, k: nat)
    requires Chained(l, items, members, buckets, chains) && c < |chains| && k < |chains[c]|
    ensures var x := chains[c][k];
            && x in members && x in l
            && l[x] == Link(At(chains[c], k - 1), At(chains[c], k + 1))
            && (k > 0 ==> chains[c][k - 1] in l) && (k + 1 < |chains[c]| ==> chains[c][k + 1] in l)
            && Chained(Unlink(l, x), items, members - {x},
                       buckets[c := Bucket(At(Cut(chains[c], k), 0), buckets[c].count - 1, buckets[c].expandMult)],
                       chains[c := Cut(chains[c], k)])
  {
    var n := |buckets|;
    assert ChainOk(l, items, members, buckets[c], chains[c], c, n);
    var x := chains[c][k];
    assert x in chains[c];
    UnlinkLinked(l, chains[c], k);
    LinkAt(l, chains[c], k);
    CutMembers(chains[c], k);
    var l' := Unlink(l, x);
    var chains' := chains[c := Cut(chains[c], k)];
    var buckets' := buckets[c := Bucket(At(Cut(chains[c], k), 0), buckets[c].count - 1, buckets[c].expandMult)];
    hide Unlink, Linked, ToBkt;
    forall b | 0 <= b < n
      ensures ChainOk(l', items, members - {x}, buckets'[b], chains'[b], b, n)
    {
      assert ChainOk(l, items, members, buckets[b], chains[b], b, n);
      if b != c {
        Elsewhere(l, l', items, members, chains, b, c, n);
      }
    }
  }

  // ---- doubling the number of buckets

  ghost function SetOf(q: seq<Id>): set<Id> {
    set x | x in q
  }

  function Over(count: nat, ideal: nat): nat {
    if count > ideal then count - ideal else 0
  }

  /** How many items stand beyond the ideal length of their chains. */
  function Excess(buckets: seq<Bucket>, ideal: nat): nat {
    if buckets == [] then 0
    else Excess(buckets[..|buckets| - 1], ideal) + Over(buckets[|buckets| - 1].count, ideal)
  }

  lemma {:induction false} ExcessUpdate(buckets: seq<Bucket>, c: nat, v: Bucket, ideal: nat)
    requires c < |buckets|
    ensures Excess(buckets[c := v], ideal) ==
            Excess(buckets, ideal) + Over(v.count, ideal) - Over(buckets[c].count, ideal)
  {
    var n := |buckets| - 1;
    if c == n {
      assert buckets[c := v][..n] == buckets[..n];
    } else {
      ExcessUpdate(buckets[..n], c, v, ideal);
      assert buckets[c := v][..n] == buckets[..n][c := v];
    }
  }

  lemma {:induction false} NoExcess(buckets: seq<Bucket>, ideal: nat)
    requires forall b :: 0 <= b < |buckets| ==> buckets[b].count == 0
    ensures Excess(buckets, ideal) == 0
  {
    if buckets != [] {
      NoExcess(buckets[..|buckets| - 1], ideal);
    }
  }

  lemma {:induction false} InRange(hashv: nat, k: nat)
    ensures ToBkt(hashv, Pow2(k)) < Pow2(k)
  {
    ToBktIsRemainder(hashv, k);
  }

  /** The chain that starts at `head` is moved, item by item, to the front of its items' new chains.
      `lg` is the logarithm of the new number of buckets. */
  method MoveChain(items: Items, before: Links, head: Option<Id>, given: seq<Bucket>, ideal: nat, lg: nat, over: nat,
                   ghost chain: seq<Id>, ghost members: set<Id>, ghost chainsBefore: seq<seq<Id>>)
    returns (l: Links, buckets: seq<Bucket>, nonideal: nat, ghost chains: seq<seq<Id>>)
    requires over == Excess(given, ideal)
    requires Chained(before, items, members, given, chainsBefore) && |given| == Pow2(lg)
    requires NoDup(chain) && Forward(before, chain) && head == At(chain, 0)
    requires forall x :: x in chain ==> x in items && x !in members
    ensures |buckets| == |given| && Chained(l, items, members + SetOf(chain), buckets, chains)
    ensures nonideal == Excess(buckets, ideal)
    ensures forall y :: y in before && y !in members && y !in chain ==> y in l && l[y] == before[y]
  {
    hide Chained, Pow2, Excess, Forward, NoDup, SetOf;
    l, buckets, nonideal, chains := before, given, over, chainsBefore;
    var thh := head;
    ghost var k := 0;
    ghost var done := members;
    NoneTaken(chain);
    while thh.Some?
      invariant 0 <= k <= |chain| && |buckets| == Pow2(lg) && nonideal == Excess(buckets, ideal)
      invariant Forward(l, chain[k..]) && thh == At(chain, k)
      invariant done == members + SetOf(chain[..k]) && Chained(l, items, done, buckets, chains)
      invariant forall y :: y in before && y !in members && y !in chain ==> y in l && l[y] == before[y]
      decreases |chain| - k
    {
      var x := thh.value;
      Taking(l, chain, k);
      var nxt := l[x].next;
      ghost var l0 := l;
      l, buckets, nonideal, chains := MoveItem(items, l, x, buckets, ideal, lg, nonideal, done, chains);
      StillForward(l0, l, chain, k + 1, done, x);
      done := done + {x};
      thh := nxt;
      k := k + 1;
    }
    assert chain[..k] == chain;
  }

  lemma {:induction false} NoneTaken(chain: seq<Id>)
    ensures chain[0..] == chain && SetOf(chain[..0]) == {}
  {
  }

  lemma {:induction false} Taking(l: Links, chain: seq<Id>, k: nat)
    requires NoDup(chain) && k < |chain| && Forward(l, chain[k..])
    ensures chain[k] in l && chain[k] in chain && l[chain[k]].next == At(chain, k + 1) && Forward(l, chain[k + 1..])
    ensures SetOf(chain[..k + 1]) == SetOf(chain[..k]) + {chain[k]}
    ensures forall y :: y in SetOf(chain[..k]) ==> y in chain
    ensures forall i :: k <= i < |chain| ==> chain[i] in chain && chain[i] !in SetOf(chain[..k])
  {
    ForwardTail(l, chain[k..]);
    assert chain[k..][0] == chain[k] && chain[k..][1..] == chain[k + 1..];
    assert chain[..k + 1] == chain[..k] + [chain[k]];
    hide Forward;
  }

  method MoveItem(items: Items, before: Links, x: Id, given: seq<Bucket>, ideal: nat, lg: nat, over: nat,
                  ghost members: set<Id>, ghost chainsBefore: seq<seq<Id>>)
    returns (l: Links, buckets: seq<Bucket>, nonideal: nat, ghost chains: seq<seq<Id>>)
    requires over == Excess(given, ideal) && x in items && x !in members
    requires Chained(before, items, members, given, chainsBefore) && |given| == Pow2(lg)
    ensures |buckets| == |given| && Chained(l, items, members + {x}, buckets, chains)
    ensures nonideal == Excess(buckets, ideal)
    ensures forall y :: y in before && y != x && y !in members ==> y in l && l[y] == before[y]
  {
    var c := ToBkt(items[x].hashv, |given|);
    InRange(items[x].hashv, lg);
    hide ToBkt, PushFront, Pow2, Excess, ChainOk;
    var bkt := given[c];
    var count := bkt.count + 1;
    var mult := bkt.expandMult;
    nonideal := over;
    if count > ideal {
      nonideal := nonideal + 1;
      if count > mult * ideal {
        mult := mult + 1;
      }
    }
    ExcessUpdate(given, c, Bucket(Some(x), count, mult), ideal);
    ChainMore(before, items, members, given, chainsBefore, x, mult);
    l := PushFront(before, bkt.head, x);
    buckets := given[c := Bucket(Some(x), count, mult)];
    chains := chainsBefore[c := [x] + chainsBefore[c]];
  }

  lemma {:induction false} StillForward(l: Links, l': Links, chain: seq<Id>, k: nat, done: set<Id>, x: Id)
    requires 0 < k <= |chain| && x == chain[k - 1] && NoDup(chain) && Forward(l, chain[k..])
    requires forall y :: y in l && y != x && y !in done ==> y in l' && l'[y] == l[y]
    requires forall i :: k <= i < |chain| ==> chain[i] !in done
    ensures Forward(l', chain[k..])
  {
    var rest := chain[k..];
    forall i | 0 <= i < |rest|
      ensures rest[i] in l' && l'[rest[i]].next == l[rest[i]].next
    {
      assert rest[i] == chain[k + i];
    }
    ForwardFrame(l, l', rest);
  }

  /** The members whose old bucket is below `i`. */
  ghost function Moved(items: Items, members: set<Id>, n: nat, i: nat): set<Id>
    requires n > 0
  {
    set x | x in members && x in items && ToBkt(items[x].hashv, n) < i
  }

  lemma {:induction false} MovedChain(l: Links, items: Items, members: set<Id>, buckets: seq<Bucket>,
                                      chains: seq<seq<Id>>, i: nat)
    requires Chained(l, items, members, buckets, chains) && i < |chains|
    ensures var n := |buckets|;
            && Moved(items, members, n, i) + SetOf(chains[i]) == Moved(items, members, n, i + 1)
            && NoDup(chains[i]) && buckets[i].head == At(chains[i], 0)
            && (forall x :: x in chains[i] ==> x in items && x !in Moved(items, members, n, i))
  {
    hide ToBkt, Linked;
    assert ChainOk(l, items, members, buckets[i], chains[i], i, |buckets|);
    assert NoDup(chains[i]) by {
      LinkedNoDup(l, chains[i]);
    }
  }

  lemma {:induction false} LinkedNoDup(l: Links, q: seq<Id>)
    requires Linked(l, q)
    ensures NoDup(q) && Forward(l, q)
  {
  }

  /** Chains that are still to be moved lead where they led. */
  ghost predicate Waiting(l: Links, chains: seq<seq<Id>>, i: nat) {
    forall b :: i <= b < |chains| ==> Forward(l, chains[b])
  }

  lemma {:induction false} StillWaiting(l: Links, l': Links, items: Items, members: set<Id>, buckets: seq<Bucket>,
                                        chains: seq<seq<Id>>, lc: Links, i: nat)
    requires Chained(lc, items, members, buckets, chains) && i < |chains| && Waiting(l, chains, i)
    requires forall y :: y in l && y !in Moved(items, members, |buckets|, i) && y !in chains[i] ==>
               y in l' && l'[y] == l[y]
    ensures Waiting(l', chains, i + 1)
  {
    hide ToBkt, Linked;
    var n := |buckets|;
    assert ChainOk(lc, items, members, buckets[i], chains[i], i, n);
    forall b | i + 1 <= b < |chains|
      ensures Forward(l', chains[b])
    {
      assert ChainOk(lc, items, members, buckets[b], chains[b], b, n);
      forall k | 0 <= k < |chains[b]|
        ensures chains[b][k] in l' && l'[chains[b][k]].next == l[chains[b][k]].next
      {
        assert chains[b][k] in chains[b];
      }
      ForwardFrame(l, l', chains[b]);
    }
  }

  lemma {:induction false} AllMoved(l: Links, items: Items, members: set<Id>, buckets: seq<Bucket>,
                                    chains: seq<seq<Id>>, lg: nat)
    requires Chained(l, items, members, buckets, chains) && |buckets| == Pow2(lg)
    requires forall x :: x in members ==> x in items
    ensures Moved(items, members, |buckets|, |buckets|) == members
  {
    forall x | x in members
      ensures ToBkt(items[x].hashv, |buckets|) < |buckets|
    {
      InRange(items[x].hashv, lg);
    }
  }

  /** Twice as many buckets hold the same members. */
  method Redistribute(items: Items, before: Links, buckets: seq<Bucket>, ideal: nat, lg: nat,
                      ghost members: set<Id>, ghost chains: seq<seq<Id>>)
    returns (l: Links, buckets': seq<Bucket>, nonideal: nat, ghost chains': seq<seq<Id>>)
    requires Chained(before, items, members, buckets, chains) && |buckets| == Pow2(lg)
    requires forall x :: x in members ==> x in items
    ensures |buckets'| == Pow2(lg + 1) && Chained(l, items, members, buckets', chains')
    ensures nonideal == Excess(buckets', ideal)
  {
    var n := |buckets|;
    assert Pow2(lg + 1) == 2 * n;
    AllMoved(before, items, members, buckets, chains, lg);
    l := before;
    buckets' := seq(2 * n, i => Bucket(None, 0, 0));
    chains' := seq(2 * n, i => []);
    EmptyChains(l, items, buckets', chains');
    NoExcess(buckets', ideal);
    nonideal := 0;
    assert Moved(items, members, n, 0) == {};
    FirstWaiting(l, items, members, buckets, chains);
    hide Chained, Excess, Moved, Pow2, Waiting;
    var i := 0;
    while i < n
      invariant 0 <= i <= n && |buckets'| == Pow2(lg + 1)
      invariant Chained(l, items, Moved(items, members, n, i), buckets', chains')
      invariant nonideal == Excess(buckets', ideal) && Waiting(l, chains, i)
    {
      MovedChain(before, items, members, buckets, chains, i);
      ThisWaiting(l, chains, i);
      ghost var l0 := l;
      l, buckets', nonideal, chains' := MoveChain(items, l, buckets[i].head, buckets', ideal, lg + 1, nonideal,
                                                  chains[i], Moved(items, members, n, i), chains');
      StillWaiting(l0, l, items, members, buckets, chains, before, i);
      i := i + 1;
    }
  }

  lemma {:induction false} FirstWaiting(l: Links, items: Items, members: set<Id>, buckets: seq<Bucket>,
                                        chains: seq<seq<Id>>)
    requires Chained(l, items, members, buckets, chains)
    ensures |chains| == |buckets| && Waiting(l, chains, 0)
  {
    hide Linked;
    forall b | 0 <= b < |chains|
      ensures Forward(l, chains[b])
    {
      assert ChainOk(l, items, members, buckets[b], chains[b], b, |buckets|);
      LinkedNoDup(l, chains[b]);
    }
  }

  lemma {:induction false} ThisWaiting(l: Links, chains: seq<seq<Id>>, i: nat)
    requires Waiting(l, chains, i) && i < |chains|
    ensures Forward(l, chains[i])
  {
  }
}
