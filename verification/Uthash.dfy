// uthash: an intrusive hash table. The items hang in bucket chains and, in the order they were
// added, in one doubly linked list.
module Uthash {
  import opened Wrappers
  import opened Links
  import opened Sequences
  import opened HashChains
  import opened MergeSort
  import UthashSort

  const INITIAL_NUM_BUCKETS_LOG2 := 5
  const BKT_CAPACITY_THRESH := 10

  /** Every listed item is keyed and hashed, and no two have the same key. */
  ghost predicate Keyed(items: Items, order: seq<Id>, hash: Key -> nat) {
    && (forall x :: x in order ==> x in items && items[x].hashv == hash(items[x].key))
    && (forall x, y :: x in order && y in order && x != y ==> items[x].key != items[y].key)
  }

  /** The list in order of insertion. */
  ghost predicate Listed(l: Links, order: seq<Id>, head: Option<Id>, tail: Option<Id>) {
    Linked(l, order) && head == At(order, 0) && tail == At(order, |order| - 1)
  }

  function Quotient(a: nat, b: nat): nat
    requires b > 0
  {
    a / b
  }

  /** The mean length of `n` chains, rounded up with a mask. */
  function IdealLength(numItems: nat, n: nat): nat
    requires n > 0
  {
    Quotient(numItems, n) + if And(numItems, n - 1) != 0 then 1 else 0
  }

  class HashTable {
    const hash: Key -> nat
    var items: Items
    var app: Links
    var bkt: Links
    var head: Option<Id>
    var tail: Option<Id>
    var buckets: seq<Bucket>
    var log2NumBuckets: nat
    var numItems: nat
    var idealChainMaxlen: nat
    var nonidealItems: nat
    var ineffExpands: nat
    var noexpand: bool
    ghost var order: seq<Id>
    ghost var chains: seq<seq<Id>>

    /** Buckets and list hold the same items; without a head there is no table. */
    ghost predicate Valid()
      reads this
    {
      && Keyed(items, order, hash)
      && Listed(app, order, head, tail)
      && (head.Some? ==> Chained(bkt, items, SetOf(order), buckets, chains) && numItems == |order| &&
                         |buckets| == Pow2(log2NumBuckets))
    }

    constructor (hash: Key -> nat)
      ensures Valid() && order == [] && this.hash == hash
    {
      this.hash := hash;
      items, app, bkt, head, tail, buckets := map[], map[], map[], None, None, [];
      log2NumBuckets, numItems, idealChainMaxlen, nonidealItems, ineffExpands, noexpand := 0, 0, 0, 0, 0, false;
      order, chains := [], [];
    }

    /** Finds exactly the items that are there. */
    method Find(key: Key) returns (r: Option<Id>)
      requires Valid()
      ensures r.Some? ==> r.value in order && r.value in items && items[r.value].key == key
      ensures r.None? ==> forall x :: x in order ==> x in items && items[x].key != key
    {
      if head.None? {
        return None;
      }
      var hashv := hash(key);
      InRange(hashv, log2NumBuckets);
      var b := ToBkt(hashv, |buckets|);
      hide ToBkt, Pow2;
      assert ChainOk(bkt, items, SetOf(order), buckets[b], chains[b], b, |buckets|);
      ghost var chain := chains[b];
      ghost var k := 0;
      r := buckets[b].head;
      while r.Some?
        invariant 0 <= k <= |chain| && r == At(chain, k)
        invariant forall j :: 0 <= j < k ==> items[chain[j]].key != key
        decreases |chain| - k
      {
        assert chain[k] in chain;
        LinkAt(bkt, chain, k);
        if items[r.value].hashv == hashv && items[r.value].key == key {
          return;
        }
        r := bkt[r.value].next;
        k := k + 1;
      }
    }

    /** The table's own integrity check finds nothing wrong. */
    method Fsck() returns (ok: bool)
      requires Valid()
      ensures ok
    {
      if head.None? {
        return true;
      }
      hide ToBkt, Pow2, Keyed, ChainOk;
      var count := 0;
      var i := 0;
      assert chains[..0] == [];
      while i < |buckets|
        invariant 0 <= i <= |buckets| && count == Lengths(chains[..i])
      {
        ChainOfBucket(bkt, items, SetOf(order), buckets, chains, i);
        var good, n := Walk(bkt, buckets[i].head, chains[i]);
        assert chains[..i + 1][..i] == chains[..i];
        count := count + n;
        if !good || buckets[i].count != n {
          return false;
        }
        i := i + 1;
      }
      AllChained(bkt, items, order, hash, buckets, chains, log2NumBuckets);
      assert chains[..i] == chains;
      if count != numItems {
        return false;
      }
      var good, n := Walk(app, head, order);
      return good && n == numItems;
    }

    /** Whether an item is in the table. */
    method Lists(x: Id) returns (there: bool)
      requires Valid()
      ensures there <==> x in order
    {
      hide Chained, Keyed;
      there := false;
      var r := head;
      ghost var k := 0;
      while r.Some?
        invariant 0 <= k <= |order| && r == At(order, k)
        invariant forall j :: 0 <= j < k ==> order[j] != x
        decreases |order| - k
      {
        hide Linked;
        LinkAt(app, order, k);
        if r.value == x {
          return true;
        }
        r := app[r.value].next;
        k := k + 1;
      }
    }

    /** Adds an item under a key that is not there yet. */
    method Add(x: Id, key: Key)
      requires Valid() && x !in order && forall y :: y in order ==> items[y].key != key
      modifies this
      ensures Valid() && order == old(order) + [x] && items == old(items)[x := Item(key, hash(key))]
    {
      hide Listed, Chained, Pow2, Keyed, SetOf, PushBack;
      var item := Item(key, hash(key));
      NewItem(items, order, hash, x, item);
      SetOfMore(order, x);
      if head.None? {
        Nothing(app, order, head, tail);
        app := app[x := Link(None, None)];
        MakeTable(x, items[x := item]);
        head := Some(x);
        assert order + [x] == [x];
        Single(app, x);
      } else {
        NewMember(bkt, items, SetOf(order), buckets, chains, x, item);
        Append(app, order, head, tail, x);
        app := PushBack(app, tail, x);
        tail := Some(x);
      }
      ghost var members := SetOf(order);
      items := items[x := item];
      order := order + [x];
      numItems := numItems + 1;
      AddToBkt(x, members);
    }

    method MakeTable(x: Id, ghost newItems: Items)
      modifies this`tail, this`buckets, this`log2NumBuckets, this`numItems, this`idealChainMaxlen,
               this`nonidealItems, this`ineffExpands, this`noexpand, this`chains
      ensures tail == Some(x) && numItems == 0 && |buckets| == Pow2(log2NumBuckets)
      ensures Chained(bkt, newItems, {}, buckets, chains)
    {
      numItems, idealChainMaxlen, nonidealItems, ineffExpands, noexpand := 0, 0, 0, 0, false;
      tail := Some(x);
      log2NumBuckets := INITIAL_NUM_BUCKETS_LOG2;
      assert Pow2(5) == 32;
      buckets := seq(32, i => Bucket(None, 0, 0));
      chains := seq(32, i => []);
      EmptyChains(bkt, newItems, buckets, chains);
    }

    /** Into its bucket, and twice as many buckets if that one has become too long. */
    method AddToBkt(x: Id, ghost members: set<Id>)
      requires x in items && x !in members && (forall y :: y in members ==> y in items)
      requires Chained(bkt, items, members, buckets, chains) && |buckets| == Pow2(log2NumBuckets)
      modifies this`bkt, this`buckets, this`log2NumBuckets, this`idealChainMaxlen, this`nonidealItems,
               this`ineffExpands, this`noexpand, this`chains
      ensures Chained(bkt, items, members + {x}, buckets, chains) && |buckets| == Pow2(log2NumBuckets)
    {
      InRange(items[x].hashv, log2NumBuckets);
      var b := ToBkt(items[x].hashv, |buckets|);
      hide ToBkt, Pow2, PushFront, ChainOk;
      ChainMore(bkt, items, members, buckets, chains, x, buckets[b].expandMult);
      bkt := PushFront(bkt, buckets[b].head, x);
      buckets := buckets[b := Bucket(Some(x), buckets[b].count + 1, buckets[b].expandMult)];
      chains := chains[b := [x] + chains[b]];
      if buckets[b].count >= (buckets[b].expandMult + 1) * BKT_CAPACITY_THRESH && !noexpand {
        ExpandBuckets(members + {x});
      }
    }

    /** The number of buckets doubles. The ideal chain length is the rounded-up mean, and a table that
        twice in a row has more than half its items beyond it is not expanded again. */
    method ExpandBuckets(ghost members: set<Id>)
      requires Chained(bkt, items, members, buckets, chains) && |buckets| == Pow2(log2NumBuckets)
      requires forall y :: y in members ==> y in items
      modifies this`bkt, this`buckets, this`log2NumBuckets, this`idealChainMaxlen, this`nonidealItems,
               this`ineffExpands, this`noexpand, this`chains
      ensures Chained(bkt, items, members, buckets, chains) && |buckets| == Pow2(log2NumBuckets)
      ensures |buckets| == 2 * |old(buckets)|
      ensures (idealChainMaxlen - 1) * |buckets| < numItems <= idealChainMaxlen * |buckets|
      ensures nonidealItems == Excess(buckets, idealChainMaxlen)
      ensures ineffExpands == if nonidealItems > numItems / 2 then old(ineffExpands) + 1 else 0
      ensures noexpand == (old(noexpand) || ineffExpands > 1)
    {
      hide Chained, Pow2, Excess, IdealLength;
      idealChainMaxlen := IdealLength(numItems, 2 * |buckets|);
      IdealIsCeiling(numItems, log2NumBuckets + 1);
      DoublePow2(log2NumBuckets);
      bkt, buckets, nonidealItems, chains :=
        Redistribute(items, bkt, buckets, idealChainMaxlen, log2NumBuckets, members, chains);
      log2NumBuckets := log2NumBuckets + 1;
      ineffExpands := if nonidealItems > numItems / 2 then ineffExpands + 1 else 0;
      if ineffExpands > 1 {
        noexpand := true;
      }
    }

    /** Takes out an item that is there. */
    method Delete(x: Id)
      requires Valid() && x in order
      modifies this
      ensures Valid() && items == old(items)
      ensures exists i :: 0 <= i < |old(order)| && old(order)[i] == x && order == Cut(old(order), i)
    {
      hide Chained, Pow2, Keyed, Listed;
      ghost var i :| 0 <= i < |order| && order[i] == x;
      ListedAt(app, order, head, tail, i);
      Fewer(items, order, hash, i);
      if app[x].prev.None? && app[x].next.None? {
        Emptied(items, app, hash, order, i);
        head, tail, buckets := None, None, [];
        chains, order := [], [];
        return;
      }
      Shorten(app, order, head, tail, i);
      if tail == Some(x) {
        tail := app[x].prev;
      }
      if app[x].prev.None? {
        head := app[x].next;
      }
      app := Unlink(app, x);
      DelInBkt(x, SetOf(order));
      numItems := numItems - 1;
      order := Cut(order, i);
    }

    /** Relinks the list; buckets and keys stay, so everything is found as before. */
    method Sort(cmp: Comparator)
      requires Valid()
      modifies this`app, this`head, this`tail, this`order
      ensures Valid() && multiset(order) == multiset(old(order))
      ensures Preorder(cmp, old(order)) ==> Ascending(cmp, old(order), order)
    {
      hide Chained, Keyed, Linked, Preorder, Ascending;
      if head.Some? {
        ghost var before := order;
        app, head, tail, order := UthashSort.Sort(app, head.value, cmp, order);
        SameMembers(before, order);
        KeyedSame(items, before, order, hash);
      } else {
        NothingToSort(cmp, order);
      }
    }

    method DelInBkt(x: Id, ghost members: set<Id>)
      requires x in items && x in members
      requires Chained(bkt, items, members, buckets, chains) && |buckets| == Pow2(log2NumBuckets)
      modifies this`bkt, this`buckets, this`chains
      ensures Chained(bkt, items, members - {x}, buckets, chains) && |buckets| == |old(buckets)|
    {
      InRange(items[x].hashv, log2NumBuckets);
      var b := ToBkt(items[x].hashv, |buckets|);
      hide ToBkt, Pow2, Linked, Unlink, Cut, ChainOk, NoDup;
      ghost var k := IndexIn(bkt, items, members, buckets, chains, x);
      ChainLess(bkt, items, members, buckets, chains, b, k);
      NewHead(chains[b], k);
      var first := if buckets[b].head == Some(x) then bkt[x].next else buckets[b].head;
      buckets := buckets[b := Bucket(first, buckets[b].count - 1, buckets[b].expandMult)];
      bkt := Unlink(bkt, x);
      chains := chains[b := Cut(chains[b], k)];
    }
  }

  lemma {:induction false} IndexIn(l: Links, items: Items, members: set<Id>, buckets: seq<Bucket>,
                                   chains: seq<seq<Id>>, x: Id) returns (k: nat)
    requires Chained(l, items, members, buckets, chains) && x in members && x in items
    requires ToBkt(items[x].hashv, |buckets|) < |buckets|
    ensures var b := ToBkt(items[x].hashv, |buckets|);
            && k < |chains[b]| && chains[b][k] == x && NoDup(chains[b])
            && buckets[b].head == At(chains[b], 0) && buckets[b].count == |chains[b]|
  {
    var b := ToBkt(items[x].hashv, |buckets|);
    assert ChainOk(l, items, members, buckets[b], chains[b], b, |buckets|);
    LinkedNoDup(l, chains[b]);
    assert x in chains[b];
    k :| 0 <= k < |chains[b]| && chains[b][k] == x;
  }

  // ---- checking

  /** Follows a list: whether every prev is right, and how many items there are. */
  method Walk(l: Links, head: Option<Id>, ghost q: seq<Id>) returns (good: bool, n: nat)
    requires Linked(l, q) && head == At(q, 0)
    ensures good && n == |q|
  {
    n := 0;
    good := true;
    var thh, prev := head, None;
    while thh.Some?
      invariant 0 <= n <= |q| && thh == At(q, n) && prev == At(q, n - 1) && good
      decreases |q| - n
    {
      LinkAt(l, q, n);
      if l[thh.value].prev != prev {
        good := false;
      }
      n := n + 1;
      prev := thh;
      thh := l[thh.value].next;
    }
  }

  lemma {:induction false} ChainOfBucket(l: Links, items: Items, members: set<Id>, buckets: seq<Bucket>,
                                         chains: seq<seq<Id>>, b: nat)
    requires Chained(l, items, members, buckets, chains) && b < |buckets|
    ensures Linked(l, chains[b]) && buckets[b].head == At(chains[b], 0) && buckets[b].count == |chains[b]|
  {
    assert ChainOk(l, items, members, buckets[b], chains[b], b, |buckets|);
  }

  lemma {:induction false} Disjoint(lower: set<Id>, chain: seq<Id>)
    requires NoDup(chain) && forall x :: x in chain ==> x !in lower
    ensures |lower + SetOf(chain)| == |lower| + |chain|
  {
    Cardinality(chain, SetOf(chain));
    assert lower !! SetOf(chain);
  }

  lemma {:induction false} ChainedBelow(l: Links, items: Items, members: set<Id>, buckets: seq<Bucket>,
                                        chains: seq<seq<Id>>, b: nat)
    requires Chained(l, items, members, buckets, chains) && b <= |buckets|
    ensures Lengths(chains[..b]) == |Moved(items, members, |buckets|, b)|
  {
    hide ToBkt, Linked, ChainOk, NoDup;
    var n := |buckets|;
    if b == 0 {
      assert Moved(items, members, n, 0) == {};
    } else {
      ChainedBelow(l, items, members, buckets, chains, b - 1);
      MovedChain(l, items, members, buckets, chains, b - 1);
      assert chains[..b][..b - 1] == chains[..b - 1];
      hide Chained, Moved;
      Disjoint(Moved(items, members, n, b - 1), chains[b - 1]);
    }
  }

  /** The chains hold as many items as the list. */
  lemma {:induction false} AllChained(l: Links, items: Items, order: seq<Id>, hash: Key -> nat,
                                      buckets: seq<Bucket>, chains: seq<seq<Id>>, lg: nat)
    requires Chained(l, items, SetOf(order), buckets, chains) && |buckets| == Pow2(lg)
    requires NoDup(order) && Keyed(items, order, hash)
    ensures Lengths(chains) == |order|
  {
    AllMoved(l, items, SetOf(order), buckets, chains, lg);
    ChainedBelow(l, items, SetOf(order), buckets, chains, |buckets|);
    assert chains[..|chains|] == chains;
    Cardinality(order, SetOf(order));
  }

  // ---- the list

  lemma {:induction false} NewItem(items: Items, order: seq<Id>, hash: Key -> nat, x: Id, item: Item)
    requires Keyed(items, order, hash) && x !in order && item.hashv == hash(item.key)
    requires forall y :: y in order ==> items[y].key != item.key
    ensures Keyed(items[x := item], order + [x], hash)
    ensures forall y :: y in SetOf(order) ==> y in items
  {
    assert forall y :: y in order + [x] <==> y in order || y == x;
  }

  lemma {:induction false} SetOfMore(q: seq<Id>, x: Id)
    ensures SetOf(q + [x]) == SetOf(q) + {x} && SetOf([]) == {} && (x !in q ==> x !in SetOf(q))
  {
  }

  lemma {:induction false} Nothing(l: Links, order: seq<Id>, head: Option<Id>, tail: Option<Id>)
    requires Listed(l, order, head, tail) && head.None?
    ensures order == []
  {
  }

  lemma {:induction false} Single(l: Links, x: Id)
    ensures x in l && l[x] == Link(None, None) ==> Listed(l, [x], Some(x), Some(x))
  {
  }

  lemma {:induction false} Append(l: Links, order: seq<Id>, head: Option<Id>, tail: Option<Id>, x: Id)
    requires Listed(l, order, head, tail) && head.Some? && x !in order
    ensures tail.Some? && tail.value in l && Listed(PushBack(l, tail, x), order + [x], head, Some(x))
  {
    PushBackLinked(l, order, x);
    LinkAt(l, order, |order| - 1);
    hide Linked, PushBack;
  }

  /** Giving an item that is in no chain a new key does not disturb the chains. */
  lemma {:induction false} NewMember(l: Links, items: Items, members: set<Id>, buckets: seq<Bucket>,
                                     chains: seq<seq<Id>>, x: Id, item: Item)
    requires Chained(l, items, members, buckets, chains) && x !in members
    ensures Chained(l, items[x := item], members, buckets, chains)
  {
    hide ToBkt, Linked;
    forall b | 0 <= b < |buckets|
      ensures ChainOk(l, items[x := item], members, buckets[b], chains[b], b, |buckets|)
    {
      assert ChainOk(l, items, members, buckets[b], chains[b], b, |buckets|);
    }
  }

  lemma {:induction false} IdealIsCeiling(numItems: nat, lg: nat)
    ensures var n, c := Pow2(lg), IdealLength(numItems, Pow2(lg));
            (c - 1) * n < numItems <= c * n
  {
    ToBktIsRemainder(numItems, lg);
    Ceiling(numItems, Pow2(lg));
    hide Pow2, And;
  }

  lemma {:induction false} DoublePow2(lg: nat)
    ensures Pow2(lg + 1) == 2 * Pow2(lg)
  {
  }

  lemma {:induction false} Ceiling(n: nat, b: nat)
    requires b > 0
    ensures var c := n / b + if n % b != 0 then 1 else 0;
            (c - 1) * b < n <= c * b
  {
    var q, r := n / b, n % b;
    assert n == q * b + r;
    assert (q + 1) * b == q * b + b && (q - 1) * b == q * b - b;
  }

  lemma {:induction false} ListedAt(l: Links, order: seq<Id>, head: Option<Id>, tail: Option<Id>, i: nat)
    requires Listed(l, order, head, tail) && i < |order|
    ensures NoDup(order) && head.Some? && order[i] in l && l[order[i]] == Link(At(order, i - 1), At(order, i + 1))
    ensures (i > 0 ==> order[i - 1] in l) && (i + 1 < |order| ==> order[i + 1] in l)
  {
    UnlinkLinked(l, order, i);
  }

  lemma {:induction false} Emptied(items: Items, l: Links, hash: Key -> nat, order: seq<Id>, i: nat)
    requires i < |order| && At(order, i - 1).None? && At(order, i + 1).None?
    ensures Cut(order, i) == [] && Keyed(items, [], hash) && Listed(l, [], None, None)
  {
  }

  lemma {:induction false} Shorten(l: Links, order: seq<Id>, head: Option<Id>, tail: Option<Id>, i: nat)
    requires Listed(l, order, head, tail) && i < |order| && |order| > 1
    requires order[i] in l && l[order[i]] == Link(At(order, i - 1), At(order, i + 1))
    requires (i > 0 ==> order[i - 1] in l) && (i + 1 < |order| ==> order[i + 1] in l)
    ensures Listed(Unlink(l, order[i]), Cut(order, i), if i == 0 then At(order, 1) else head,
                   if tail == Some(order[i]) then At(order, i - 1) else tail)
  {
    UnlinkLinked(l, order, i);
    CutAt(order, i);
    LinkAt(l, order, i);
    var n := |order|;
    if i < n - 1 {
      Different(order, i, n - 1);
    }
    hide Linked, Unlink, NoDup, Cut;
  }

  lemma {:induction false} Fewer(items: Items, order: seq<Id>, hash: Key -> nat, i: nat)
    requires Keyed(items, order, hash) && i < |order| && NoDup(order)
    ensures order[i] in items && Keyed(items, Cut(order, i), hash) && SetOf(Cut(order, i)) == SetOf(order) - {order[i]}
  {
    CutMembers(order, i);
    assert order[i] in order;
    hide Cut, NoDup;
  }

  lemma {:induction false} SameMembers(a: seq<Id>, b: seq<Id>)
    requires multiset(a) == multiset(b)
    ensures SetOf(a) == SetOf(b) && |a| == |b| && forall x :: x in a <==> x in b
  {
    assert forall x :: x in a <==> x in multiset(a);
    assert forall x :: x in b <==> x in multiset(b);
    assert |a| == |multiset(a)| && |b| == |multiset(b)|;
  }

  lemma {:induction false} KeyedSame(items: Items, a: seq<Id>, b: seq<Id>, hash: Key -> nat)
    requires Keyed(items, a, hash) && forall x :: x in a <==> x in b
    ensures Keyed(items, b, hash)
  {
  }

  lemma {:induction false} NothingToSort(cmp: Comparator, q: seq<Id>)
    requires At(q, 0).None?
    ensures Ascending(cmp, q, q)
  {
  }

  // ---- whole runs

  /** An add is made only under a key that is not there, of an item that is not there; a removal
      only of what is found. */
  datatype Act =
    | Put(x: Id, key: Key)
    | Take(key: Key)
    | SortBy(cmp: Comparator)

  ghost function After(m: map<Key, Id>, act: Act): map<Key, Id> {
    match act
    case Put(x, key) => if key in m || x in m.Values then m else m[key := x]
    case Take(key) => m - {key}
    case SortBy(_) => m
  }

  /** What the table should hold: a plain map. */
  ghost function Expected(acts: seq<Act>): map<Key, Id> {
    if acts == [] then map[]
    else
      After(Expected(acts[..|acts| - 1]), acts[|acts| - 1])
  }

  /** The listed items and their keys are the map. */
  ghost predicate Represents(items: Items, order: seq<Id>, m: map<Key, Id>) {
    && (forall k :: k in m ==> m[k] in order && m[k] in items && items[m[k]].key == k)
    && (forall x :: x in order ==> x in items && items[x].key in m && m[items[x].key] == x)
  }

  /** How one step changes the list of a table that holds `m`: an added item goes to the end, a removed
      one leaves a gap, a sort puts the same items in ascending order. */
  ghost predicate Relisted(q: seq<Id>, m: map<Key, Id>, act: Act, q': seq<Id>) {
    match act
    case Put(x, key) => q' == if key in m || x in m.Values then q else q + [x]
    case Take(key) =>
      if key in m then exists i :: 0 <= i < |q| && q[i] == m[key] && q' == Cut(q, i) else q' == q
    case SortBy(cmp) => multiset(q') == multiset(q) && (Preorder(cmp, q) ==> Ascending(cmp, q, q'))
  }

  /** The lists before, between and after the steps. */
  ghost predicate Listings(history: seq<seq<Id>>, acts: seq<Act>) {
    if acts == [] then history == [[]]
    else
      var n := |acts| - 1;
      && |history| == |acts| + 1 && Listings(history[..n + 1], acts[..n])
      && Relisted(history[n], Expected(acts[..n]), acts[n], history[n + 1])
  }

  /** Whatever is added, removed and sorted, find gives what the plain map gives, and the list goes
      from step to step as it should. */
  method Run(hash: Key -> nat, acts: seq<Act>, key: Key)
    returns (table: HashTable, found: Option<Id>, ghost history: seq<seq<Id>>)
    ensures fresh(table) && table.Valid()
    ensures found == if key in Expected(acts) then Some(Expected(acts)[key]) else None
    ensures Represents(table.items, table.order, Expected(acts))
    ensures Listings(history, acts) && |history| == |acts| + 1 && table.order == history[|acts|]
  {
    hide Relisted, Keyed, Listed, Chained;
    table := new HashTable(hash);
    history := [[]];
    var i := 0;
    while i < |acts|
      invariant 0 <= i <= |acts| && fresh(table) && table.Valid()
      invariant Represents(table.items, table.order, Expected(acts[..i]))
      invariant Listings(history, acts[..i]) && |history| == i + 1 && table.order == history[i]
    {
      assert acts[..i + 1][..i] == acts[..i];
      assert (history + [table.order])[..i + 1] == history;
      Perform(table, acts[i], Expected(acts[..i]));
      history := history + [table.order];
      assert history[..i + 1] == history[..|history| - 1];
      i := i + 1;
    }
    assert acts[..i] == acts;
    found := table.Find(key);
    Lookup(table.items, table.order, Expected(acts), key, found);
  }

  method Perform(table: HashTable, act: Act, ghost m: map<Key, Id>)
    requires table.Valid() && Represents(table.items, table.order, m)
    modifies table
    ensures table.Valid() && Represents(table.items, table.order, After(m, act))
    ensures Relisted(old(table.order), m, act, table.order)
  {
    ghost var items, order := table.items, table.order;
    match act {
      case Put(x, key) =>
        var found := table.Find(key);
        Lookup(items, order, m, key, found);
        var there := table.Lists(x);
        Member(items, order, m, x);
        if found.None? && !there {
          table.Add(x, key);
          Added(items, order, m, x, Item(key, table.hash(key)));
        }
      case Take(key) =>
        var found := table.Find(key);
        Lookup(items, order, m, key, found);
        if found.Some? {
          table.Delete(found.value);
          Deleted(items, order, table.order, m, key);
        } else {
          assert m - {key} == m;
        }
      case SortBy(cmp) =>
        table.Sort(cmp);
        SameMembers(order, table.order);
    }
  }

  lemma {:induction false} Lookup(items: Items, order: seq<Id>, m: map<Key, Id>, key: Key, found: Option<Id>)
    requires Represents(items, order, m)
    requires found.Some? ==> found.value in order && found.value in items && items[found.value].key == key
    requires found.None? ==> forall x :: x in order ==> x in items && items[x].key != key
    ensures found == if key in m then Some(m[key]) else None
  {
  }

  lemma {:induction false} Member(items: Items, order: seq<Id>, m: map<Key, Id>, x: Id)
    requires Represents(items, order, m)
    ensures x in order <==> x in m.Values
  {
    if x in order {
      assert items[x].key in m.Keys;
    }
  }

  lemma {:induction false} Added(items: Items, order: seq<Id>, m: map<Key, Id>, x: Id, item: Item)
    requires Represents(items, order, m) && x !in order && item.key !in m
    ensures Represents(items[x := item], order + [x], m[item.key := x])
  {
    assert forall y :: y in order + [x] <==> y in order || y == x;
  }

  lemma {:induction false} Deleted(items: Items, order: seq<Id>, order': seq<Id>, m: map<Key, Id>, key: Key)
    requires Represents(items, order, m) && key in m && NoDup(order)
    requires exists i :: 0 <= i < |order| && order[i] == m[key] && order' == Cut(order, i)
    ensures Represents(items, order', m - {key})
  {
    var i :| 0 <= i < |order| && order[i] == m[key] && order' == Cut(order, i);
    CutMembers(order, i);
    hide Cut, NoDup;
  }

  lemma {:induction false} NewHead(chain: seq<Id>, k: nat)
    requires k < |chain| && NoDup(chain)
    ensures At(Cut(chain, k), 0) == if At(chain, 0) == Some(chain[k]) then At(chain, k + 1) else At(chain, 0)
  {
    CutAt(chain, k);
    if k > 0 {
      Different(chain, 0, k);
    }
  }
}
