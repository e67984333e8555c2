/**
 The chain list of an evbuffer.

 A buffer is a list of chains. A chain is a block of memory with unused space
 before and after the bytes it stores. The buffer caches its total length, the
 position `last` of its last chain, and the slot `lastWithDatap` that holds the
 last chain with data: slot 0 is the buffer's `first` field, slot `k` the `next`
 field of chain `k - 1`.
 */
module Evbuffer {
  import opened Wrappers

  const EV_SIZE_MAX: nat := 0xffff_ffff_ffff_ffff
  const SIZE_T: nat := 0x1_0000_0000_0000_0000
  const EVBUFFER_CHAIN_MAX: nat := 0x7fff_ffff_ffff_ffff
  const EVBUFFER_CHAIN_SIZE: nat := 48
  const MIN_BUFFER_SIZE: nat := 1024
  const EVBUFFER_CHAIN_MAX_AUTO_SIZE: nat := 4096
  const MAX_TO_COPY_IN_EXPAND: nat := 4096
  const MAX_TO_REALIGN_IN_EXPAND: nat := 2048

  /**
   A block of `bufferLen` bytes that stores `data` from offset `misalign` on;
   `off` in the source is the length of `data`. EVBUFFER_IMMUTABLE chains are
   references to memory owned by someone else.
   */
  datatype Chain = Chain(bufferLen: nat, misalign: nat, data: seq<byte>, immutable: bool) {

    ghost predicate Ok() {
      && misalign + |data| <= bufferLen
      && (if immutable then misalign + |data| == bufferLen else 0 < bufferLen)
    }

    /** CHAIN_SPACE_LEN: room after the stored bytes. */
    function SpaceLen(): int {
      if immutable then 0 else bufferLen - (misalign + |data|)
    }

    /** Forgets the first `n` stored bytes. */
    function Skip(n: nat): Chain
      requires n <= |data|
    {
      this.(misalign := misalign + n, data := data[n..])
    }

    /** evbuffer_chain_should_realign */
    predicate ShouldRealign(datlen: nat) {
      bufferLen - |data| >= datlen && |data| < bufferLen / 2 && |data| <= MAX_TO_REALIGN_IN_EXPAND
    }
  }

  /** The bytes of all chains, in order. */
  ghost function Flatten(cs: seq<Chain>): seq<byte>
  {
    if cs == [] then [] else cs[0].data + Flatten(cs[1..])
  }

  lemma {:induction false} FlattenSplit(a: seq<Chain>, b: seq<Chain>)
    ensures Flatten(a + b) == Flatten(a) + Flatten(b)
    decreases |a|
  {
    if a == [] {
      assert a + b == b;
    } else {
      assert (a + b)[1..] == a[1..] + b;
      FlattenSplit(a[1..], b);
    }
  }

  lemma {:induction false} FlattenNone()
    ensures Flatten([]) == []
  {
  }

  lemma {:induction false} FlattenOne(c: Chain)
    ensures Flatten([c]) == c.data
  {
    assert [c][1..] == [];
    assert Flatten([c]) == c.data + [];
  }

  lemma {:induction false} FlattenCut(cs: seq<Chain>, k: nat)
    requires k <= |cs|
    ensures Flatten(cs) == Flatten(cs[..k]) + Flatten(cs[k..])
  {
    assert cs == cs[..k] + cs[k..];
    FlattenSplit(cs[..k], cs[k..]);
  }

  lemma {:induction false} FlattenNext(cs: seq<Chain>, k: nat)
    requires k < |cs|
    ensures Flatten(cs[k..]) == cs[k].data + Flatten(cs[k + 1..])
  {
    assert cs[k..][1..] == cs[k + 1..];
  }

  lemma {:induction false} FlattenLast(cs: seq<Chain>, k: nat)
    requires k < |cs|
    ensures Flatten(cs[..k + 1]) == Flatten(cs[..k]) + cs[k].data
  {
    hide Flatten;
    assert cs[..k + 1] == cs[..k] + [cs[k]];
    FlattenSplit(cs[..k], [cs[k]]);
    FlattenOne(cs[k]);
  }

  lemma {:induction false} FlattenMore(cs: seq<Chain>, a: nat, k: nat)
    requires a <= k < |cs|
    ensures Flatten(cs[a..k + 1]) == Flatten(cs[a..k]) + cs[k].data
  {
    hide Flatten;
    assert cs[a..k + 1] == cs[a..k] + [cs[k]];
    FlattenSplit(cs[a..k], [cs[k]]);
    FlattenOne(cs[k]);
  }

  lemma {:induction false} SliceToEnd(cs: seq<Chain>, k: nat)
    requires k <= |cs|
    ensures cs[k..|cs|] == cs[k..] && cs[|cs|..] == []
  {
  }

  lemma {:induction false} FlattenUpTo(cs: seq<Chain>, k: nat)
    requires k <= 1 && k <= |cs|
    ensures Flatten(cs[..k]) == if k == 0 then [] else cs[0].data
  {
    assert k == 0 ==> cs[..k] == [];
    assert k == 1 ==> cs[..k] == [cs[0]];
    if k == 1 {
      FlattenOne(cs[0]);
    }
  }

  lemma {:induction false} FlattenAt(cs: seq<Chain>, k: nat)
    requires k < |cs|
    ensures Flatten(cs) == Flatten(cs[..k]) + cs[k].data + Flatten(cs[k + 1..])
  {
    hide Flatten;
    FlattenCut(cs, k);
    FlattenNext(cs, k);
  }

  lemma {:induction false} FlattenUpdate(cs: seq<Chain>, k: nat, c: Chain)
    requires k < |cs|
    ensures Flatten(cs[k := c]) == Flatten(cs[..k]) + c.data + Flatten(cs[k + 1..])
  {
    hide Flatten;
    var u := cs[k := c];
    FlattenAt(u, k);
    assert u[..k] == cs[..k] && u[k + 1..] == cs[k + 1..];
  }

  lemma {:induction false} FlattenEmpty(cs: seq<Chain>)
    requires forall i :: 0 <= i < |cs| ==> cs[i].data == []
    ensures Flatten(cs) == []
    decreases |cs|
  {
    if cs != [] {
      FlattenEmpty(cs[1..]);
    }
  }

  /** Sound chains, among which an empty reference is only the last one. */
  ghost predicate AllOk(cs: seq<Chain>)
  {
    && (forall i :: 0 <= i < |cs| ==> cs[i].Ok())
    && (forall i :: 0 <= i < |cs| - 1 && cs[i].immutable ==> cs[i].data != [])
  }

  /** Which references are in a list: with `refs` 0 none, with 1 none that is empty. */
  ghost predicate Plain(cs: seq<Chain>, refs: nat)
  {
    forall i :: 0 <= i < |cs| && cs[i].immutable ==> refs > 0 && (cs[i].data == [] ==> refs > 1)
  }

  function Max(a: nat, b: nat): nat {
    if a < b then b else a
  }

  /** The references of two buffers after the second has been emptied into the first. */
  function MergedRefs(outLen: nat, outRefs: nat, inLen: nat, inRefs: nat): (nat, nat) {
    if inLen == 0 then (outRefs, inRefs)
    else if outLen == 0 then (inRefs, 0)
    else (Max(outRefs, inRefs), 0)
  }

  /** Slot `lwd` holds the last chain with data, and no empty chain precedes it. */
  ghost predicate Shape(cs: seq<Chain>, lwd: nat)
  {
    && (if cs == [] then lwd == 0 else lwd < |cs|)
    && (forall i :: 0 <= i < lwd && i < |cs| ==> cs[i].data != [])
    && (0 < lwd < |cs| ==> cs[lwd].data != [])
    && (forall i :: lwd < i < |cs| ==> cs[i].data == [])
  }

  /** The slot of the first chain, or of the second. */
  function Slot(second: bool): nat {
    if second then 1 else 0
  }

  lemma {:induction false} HasLast(cs: seq<Chain>, lwd: nat)
    requires Shape(cs, lwd) && cs != []
    ensures lwd < |cs|
  {
  }

  /** What is left after the last chain with data carries no bytes. */
  lemma {:induction false} ShapeTail(cs: seq<Chain>, lwd: nat)
    requires Shape(cs, lwd) && cs != []
    ensures Flatten(cs[lwd + 1..]) == []
    ensures Flatten(cs) == Flatten(cs[..lwd]) + cs[lwd].data
  {
    hide Flatten;
    FlattenEmpty(cs[lwd + 1..]);
    FlattenAt(cs, lwd);
  }

  /** Bytes appended to the last chain with data are appended to the buffer. */
  lemma {:induction false} GrowLast(cs: seq<Chain>, lwd: nat, c: Chain, d: seq<byte>)
    requires AllOk(cs) && Shape(cs, lwd) && cs != []
    requires c.Ok() && !c.immutable && c.data == cs[lwd].data + d
    ensures AllOk(cs[lwd := c]) && Shape(cs[lwd := c], lwd)
    ensures Flatten(cs[lwd := c]) == Flatten(cs) + d
  {
    hide Flatten;
    ShapeTail(cs, lwd);
    FlattenUpdate(cs, lwd, c);
  }

  /** A chain put at the end of a list of chains with data. */
  lemma {:induction false} PushLast(cs: seq<Chain>, c: Chain)
    requires AllOk(cs)
    requires forall i :: 0 <= i < |cs| ==> cs[i].data != []
    ensures AllOk(cs + [c]) <==> c.Ok()
    ensures Flatten(cs + [c]) == Flatten(cs) + c.data
    ensures Shape(cs + [c], if c.data != [] || cs == [] then |cs| else |cs| - 1)
  {
    hide Flatten;
    FlattenSplit(cs, [c]);
    FlattenOne(c);
    assert (cs + [c])[|cs|] == c;
  }

  /** Bytes put in front of the first chain are put in front of the buffer. */
  lemma {:induction false} GrowFirst(cs: seq<Chain>, lwd: nat, c: Chain, d: seq<byte>)
    requires AllOk(cs) && Shape(cs, lwd) && cs != []
    requires c.Ok() && !c.immutable && c.data == d + cs[0].data
    ensures AllOk(cs[0 := c]) && Shape(cs[0 := c], lwd)
    ensures Flatten(cs[0 := c]) == d + Flatten(cs)
  {
    hide Flatten;
    FlattenAt(cs, 0);
    FlattenUpdate(cs, 0, c);
    FlattenUpTo(cs, 0);
  }

  /** A chain put in front keeps the shape exactly when both it and the chain it precedes carry data. */
  lemma {:induction false} PushFirst(cs: seq<Chain>, lwd: nat, c: Chain)
    requires AllOk(cs) && Shape(cs, lwd) && cs != [] && c.Ok() && (c.immutable ==> c.data != [])
    ensures AllOk([c] + cs) && Flatten([c] + cs) == c.data + Flatten(cs)
    ensures Shape([c] + cs, lwd + 1) <==> c.data != [] && cs[0].data != []
  {
    assert ([c] + cs)[1..] == cs;
    assert ([c] + cs)[0] == c;
    assert forall i :: 1 <= i < |cs| + 1 ==> ([c] + cs)[i] == cs[i - 1];
  }

  /** A list of chains with data in front of a list that holds some data. */
  lemma {:induction false} JoinLists(a: seq<Chain>, b: seq<Chain>, lwd: nat)
    requires AllOk(a) && AllOk(b) && Shape(b, lwd) && Flatten(b) != []
    requires forall i :: 0 <= i < |a| ==> a[i].data != []
    ensures AllOk(a + b) && Shape(a + b, |a| + lwd) && Flatten(a + b) == Flatten(a) + Flatten(b)
  {
    FlattenSplit(a, b);
    DataAt(b, lwd);
  }

  /** A buffer with data has data in the chain its slot designates. */
  lemma {:induction false} DataAt(cs: seq<Chain>, lwd: nat)
    requires Shape(cs, lwd) && Flatten(cs) != []
    ensures cs != [] && cs[lwd].data != []
  {
    if cs[lwd].data == [] {
      FlattenEmpty(cs);
    }
  }

  /** Cutting `n` bytes, fewer than there are, off the front: the first `k` chains and part of the next. */
  lemma {:induction false} DropFront(cs: seq<Chain>, lwd: nat, k: nat, r: nat)
    requires AllOk(cs) && Shape(cs, lwd) && k < |cs| && r < |cs[k].data|
    ensures k <= lwd && |Flatten(cs[..k])| + r <= |Flatten(cs)|
    ensures AllOk([cs[k].Skip(r)] + cs[k + 1..]) && Shape([cs[k].Skip(r)] + cs[k + 1..], lwd - k)
    ensures Flatten([cs[k].Skip(r)] + cs[k + 1..]) == Flatten(cs)[|Flatten(cs[..k])| + r..]
    ensures Flatten(cs[..k]) + cs[k].data[..r] == Flatten(cs)[..|Flatten(cs[..k])| + r]
  {
    hide Flatten;
    DropShape(cs, lwd, k, r);
    hide Shape, AllOk;
    FlattenAt(cs, k);
    FlattenSplit([cs[k].Skip(r)], cs[k + 1..]);
    FlattenOne(cs[k].Skip(r));
    CutBytes(Flatten(cs[..k]), cs[k].data, Flatten(cs[k + 1..]), r);
  }

  lemma {:induction false} CutBytes(a: seq<byte>, d: seq<byte>, b: seq<byte>, r: nat)
    requires r <= |d|
    ensures (a + d + b)[|a| + r..] == d[r..] + b && (a + d + b)[..|a| + r] == a + d[..r]
  {
  }

  lemma {:induction false} DropShape(cs: seq<Chain>, lwd: nat, k: nat, r: nat)
    requires AllOk(cs) && Shape(cs, lwd) && k < |cs| && r < |cs[k].data|
    ensures k <= lwd && AllOk([cs[k].Skip(r)] + cs[k + 1..]) && Shape([cs[k].Skip(r)] + cs[k + 1..], lwd - k)
  {
    var u := [cs[k].Skip(r)] + cs[k + 1..];
    assert forall i :: 1 <= i < |u| ==> u[i] == cs[k + i];
  }

  /** A chain whose bytes are all wanted, when more are left, is not the last one with data. */
  lemma {:induction false} StrictlyBefore(cs: seq<Chain>, lwd: nat, k: nat, left: nat)
    requires Shape(cs, lwd) && k <= lwd && k < |cs|
    requires |cs[k].data| <= left < |Flatten(cs[k..])|
    ensures k < lwd
  {
    if k == lwd {
      ShapeTail(cs, lwd);
      FlattenNext(cs, k);
    }
  }

  lemma {:induction false} PrefixOk(cs: seq<Chain>, a: seq<Chain>, refs: nat)
    requires AllOk(cs) && Plain(cs, refs) && a <= cs
    ensures AllOk(a) && Plain(a, refs)
  {
    assert forall i :: 0 <= i < |a| ==> a[i] == cs[i];
  }

  /** Two lists of chains that all carry data. */
  lemma {:induction false} JoinData(a: seq<Chain>, b: seq<Chain>, refs: nat)
    requires AllOk(a) && AllOk(b) && Plain(a, refs) && Plain(b, refs) && b != []
    requires forall i :: 0 <= i < |a| ==> a[i].data != []
    requires forall i :: 0 <= i < |b| ==> b[i].data != []
    ensures AllOk(a + b) && Plain(a + b, refs) && Shape(a + b, |a| + |b| - 1)
    ensures Flatten(a + b) == Flatten(a) + Flatten(b)
    ensures forall i :: 0 <= i < |a| + |b| ==> (a + b)[i].data != []
  {
    hide Flatten;
    FlattenSplit(a, b);
  }

  lemma {:induction false} PlainDropped(cs: seq<Chain>, refs: nat, k: nat, r: nat)
    requires Plain(cs, refs) && k < |cs| && r < |cs[k].data|
    ensures Plain([cs[k].Skip(r)] + cs[k + 1..], refs)
  {
    var u := [cs[k].Skip(r)] + cs[k + 1..];
    assert forall i :: 1 <= i < |u| ==> u[i] == cs[k + i];
  }

  lemma {:induction false} PlainJoined(a: seq<Chain>, b: seq<Chain>, refs: nat, more: nat)
    requires Plain(a, refs) && Plain(b, more)
    ensures Plain(a + b, Max(refs, more))
  {
  }

  lemma {:induction false} PlainFirst(cs: seq<Chain>, refs: nat, c: Chain)
    requires Plain(cs, refs) && !c.immutable
    ensures Plain([c] + cs, refs)
  {
    assert forall i :: 1 <= i < |cs| + 1 ==> ([c] + cs)[i] == cs[i - 1];
  }

  /** A list of one chain that is not a reference. */
  lemma {:induction false} OneChain(c: Chain, refs: nat)
    requires c.Ok() && !c.immutable
    ensures AllOk([c]) && Plain([c], refs) && Shape([c], 0) && Flatten([c]) == c.data
  {
    FlattenOne(c);
  }

  lemma {:induction false} DesignatedOk(cs: seq<Chain>, lwd: nat)
    requires AllOk(cs) && Shape(cs, lwd) && cs != []
    ensures lwd < |cs| && cs[lwd].Ok()
  {
  }

  lemma {:induction false} FirstOk(cs: seq<Chain>)
    requires AllOk(cs) && cs != []
    ensures cs[0].Ok()
  {
  }

  /** Chains before the last one with data can be moved whole. */
  lemma {:induction false} WholeChains(cs: seq<Chain>, lwd: nat, k: nat)
    requires AllOk(cs) && Shape(cs, lwd) && k <= lwd && k <= |cs|
    ensures AllOk(cs[..k]) && forall i :: 0 <= i < k ==> cs[..k][i].data != []
    ensures k == 0 ==> Flatten(cs[..k]) == []
  {
  }

  /** The bytes of the whole chains at the front of a list that are together no more than `n`. */
  ghost function Whole(cs: seq<Chain>, n: nat): (w: nat)
    ensures w <= n
  {
    if cs == [] || |cs[0].data| > n then 0 else |cs[0].data| + Whole(cs[1..], n - |cs[0].data|)
  }

  lemma {:induction false} WholeNext(cs: seq<Chain>, k: nat, n: nat)
    requires k < |cs|
    ensures Whole(cs[k..], n) == if |cs[k].data| > n then 0 else |cs[k].data| + Whole(cs[k + 1..], n - |cs[k].data|)
  {
    assert cs[k..][1..] == cs[k + 1..];
  }

  /** A number stored in a `size_t`. */
  function Wrapped(n: nat): (r: nat)
    ensures r <= EV_SIZE_MAX && (n <= EV_SIZE_MAX ==> r == n)
  {
    n % SIZE_T
  }

  lemma {:induction false} WrappedSum(a: nat, b: nat)
    ensures Wrapped(Wrapped(a) + b) == Wrapped(a + b)
  {
  }

  /** Adding as much to the length as to the bytes added, or taking as much off as is counted as deleted. */
  lemma {:induction false} Balanced(len: nat, added: nat, deleted: nat, n: nat)
    ensures (Wrapped(len + n) + deleted - Wrapped(added + n)) % SIZE_T == (len + deleted - added) % SIZE_T
    ensures n <= len ==> (len - n + Wrapped(deleted + n) - added) % SIZE_T == (len + deleted - added) % SIZE_T
  {
    var p, q, r := (len + n) / SIZE_T, (added + n) / SIZE_T, (deleted + n) / SIZE_T;
    var balance := len + deleted - added;
    assert Wrapped(len + n) + deleted - Wrapped(added + n) == balance + (q - p) * SIZE_T;
    Around(balance, q - p);
    if n <= len {
      assert len - n + Wrapped(deleted + n) - added == balance + -r * SIZE_T;
      Around(balance, -r);
    }
  }

  lemma {:induction false} Around(x: int, k: int)
    ensures (x + k * SIZE_T) % SIZE_T == x % SIZE_T
  {
  }

  /**
   How many of the `n` bytes that evbuffer_remove_buffer takes off a source of `all` bytes in chains `cs`
   arrive in a destination of `len` bytes: those of whole chains are relinked, and the others copied if
   the length, which the relinking may have carried around, leaves room. The result of that copy is
   not looked at.
   */
  ghost function Arriving(len: nat, all: nat, cs: seq<Chain>, n: nat): nat
  {
    var w := Whole(cs, n);
    if n == all || Wrapped(len + w) + (n - w) <= EV_SIZE_MAX then n else w
  }

  /** What a destination that held `d` holds after evbuffer_remove_buffer has taken `n` of the bytes `s`. */
  ghost predicate Gained(d: seq<byte>, s: seq<byte>, cs: seq<Chain>, n: nat, d': seq<byte>)
  {
    n <= |s| && d' == d + s[..Arriving(|d|, |s|, cs, n)]
  }

  /**
   The move is exact if and only if the bytes are all there is, end with a chain, fit into the
   destination, or follow whole chains that alone do not fit.
   */
  lemma {:induction false} MoveIsExact(d: seq<byte>, s: seq<byte>, cs: seq<Chain>, n: nat, d': seq<byte>)
    requires Gained(d, s, cs, n, d') && |d| <= EV_SIZE_MAX && |s| <= EV_SIZE_MAX
    ensures d' == d + s[..n] <==>
              || n == |s| || Whole(cs, n) == n
              || |d| + n <= EV_SIZE_MAX || |d| + Whole(cs, n) > EV_SIZE_MAX
  {
    assert |d'| == |d| + Arriving(|d|, |s|, cs, n);
  }

  /** The destination's length still fits a `size_t` afterwards, exact or not. */
  lemma {:induction false} MoveFits(d: seq<byte>, s: seq<byte>, cs: seq<Chain>, n: nat, d': seq<byte>)
    requires Gained(d, s, cs, n, d') && |d| <= EV_SIZE_MAX && |s| <= EV_SIZE_MAX
    ensures |d'| <= EV_SIZE_MAX <==> |d| + n <= EV_SIZE_MAX || (n < |s| && |d| + Whole(cs, n) <= EV_SIZE_MAX)
  {
    assert |d'| == |d| + Arriving(|d|, |s|, cs, n);
  }

  /** It is not exact when a full destination is given the first of two bytes of one chain. */
  lemma {:induction false} MoveLosesAByte(d: seq<byte>)
    requires |d| == EV_SIZE_MAX
    ensures var cs := [Chain(2, 0, [1, 2], false)];
            Gained(d, [1, 2], cs, 1, d) && d != d + [1, 2][..1]
  {
    assert d + [1, 2][..0] == d;
    assert |d + [1, 2][..1]| == |d| + 1;
  }

  /** It is exact when a relinked byte carries the full destination's length around to 0. */
  lemma {:induction false} MoveWraps(d: seq<byte>)
    requires |d| == EV_SIZE_MAX
    ensures var cs := [Chain(1, 0, [1], false), Chain(2, 0, [2, 3], false)];
            Gained(d, [1, 2, 3], cs, 2, d + [1, 2])
  {
    var cs := [Chain(1, 0, [1], false), Chain(2, 0, [2, 3], false)];
    assert Whole(cs[1..], 1) == 0;
    assert [1, 2, 3][..2] == [1, 2];
  }

  /** A lone empty reference: a prepend moves the slot to it, so that no chain is known to hold data. */
  lemma {:induction false} PrependToEmptyReference(x: Chain)
    requires x.Ok() && !x.immutable && x.data != []
    ensures var empty := Chain(0, 0, [], true);
            && AllOk([empty]) && Shape([empty], 0)
            && !Shape([x] + [empty], 1) && Shape([x] + [empty], 0)
  {
    var cs := [x] + [Chain(0, 0, [], true)];
    assert cs[0] == x && cs[1].data == [];
  }

  /** What a pullup leaves: a first chain with the first `n` bytes, then the rest of the list. */
  lemma {:induction false} PullupShape(cs: seq<Chain>, lwd: nat, k: nat, r: nat, front: Chain)
    requires AllOk(cs) && Shape(cs, lwd) && k < |cs| && r < |cs[k].data| && front.Ok()
    requires front.data == Flatten(cs[..k]) + cs[k].data[..r] && front.data != []
    ensures k <= lwd && |front.data| <= |Flatten(cs)| && front.data == Flatten(cs)[..|front.data|]
    ensures var u := [front] + ([cs[k].Skip(r)] + cs[k + 1..]);
            AllOk(u) && Shape(u, lwd - k + 1) && Flatten(u) == Flatten(cs)
  {
    hide Flatten;
    DropFront(cs, lwd, k, r);
    var rest := [cs[k].Skip(r)] + cs[k + 1..];
    assert rest[0].data != [];
    PushFirst(rest, lwd - k, front);
    var n := |Flatten(cs[..k])| + r;
    assert Flatten(cs) == Flatten(cs)[..n] + Flatten(cs)[n..];
  }

  /** Room for new bytes in a run of chains, and how many of them have any. */
  ghost function Room(cs: seq<Chain>): int
  {
    if cs == [] then 0 else Room(cs[..|cs| - 1]) + cs[|cs| - 1].SpaceLen()
  }

  ghost function WithRoom(cs: seq<Chain>): nat
  {
    if cs == [] then 0 else WithRoom(cs[..|cs| - 1]) + if cs[|cs| - 1].SpaceLen() > 0 then 1 else 0
  }

  lemma {:induction false} RoomNext(cs: seq<Chain>, a: nat, b: nat)
    requires a <= b < |cs|
    ensures Room(cs[a..b + 1]) == Room(cs[a..b]) + cs[b].SpaceLen()
    ensures WithRoom(cs[a..b + 1]) == WithRoom(cs[a..b]) + if cs[b].SpaceLen() > 0 then 1 else 0
  {
    assert cs[a..b + 1][..b - a] == cs[a..b];
  }

  lemma {:induction false} RoomNone()
    ensures Room([]) == 0 && WithRoom([]) == 0
  {
  }

  /** The last two chains of a list, or its only one. */
  lemma {:induction false} RoomOfTwo(cs: seq<Chain>, lwd: nat)
    requires AllOk(cs) && lwd < |cs| <= lwd + 2
    ensures WithRoom(cs[lwd..]) <= 2
    ensures Room(cs[lwd..]) == cs[|cs| - 1].SpaceLen() + if |cs| == lwd + 2 then cs[lwd].SpaceLen() else 0
  {
    hide Room, WithRoom;
    RoomNone();
    assert cs[lwd..lwd] == [] && cs[lwd..] == cs[lwd..|cs|];
    RoomNext(cs, lwd, lwd);
    if |cs| == lwd + 2 {
      RoomNext(cs, lwd, lwd + 1);
    }
  }

  /** A C `size_t` returned as an `int`. */
  function CInt(n: nat): int {
    (n + 0x8000_0000) % 0x1_0000_0000 - 0x8000_0000
  }

  /** A power of two times the least size of a block. */
  predicate IsDoubling(n: nat) {
    n == MIN_BUFFER_SIZE || (n > MIN_BUFFER_SIZE && n % 2 == 0 && IsDoubling(n / 2))
  }

  class EvBuffer {
    var chains: seq<Chain>
    var last: int
    var lastWithDatap: nat
    var totalLen: nat
    var nAddForCb: nat
    var nDelForCb: nat
    var freezeStart: bool
    var freezeEnd: bool
    /** The references that have come into the list: none (0), non-empty ones (1), also empty ones (2). */
    ghost var refs: nat

    /** Everything but the shape of the list; the length fits. */
    ghost predicate Sound()
      reads this
    {
      && AllOk(chains)
      && Plain(chains, refs)
      && last == |chains| - 1
      && totalLen == |Contents()| <= EV_SIZE_MAX
    }

    ghost predicate Valid()
      reads this
    {
      Sound() && Shape(chains, lastWithDatap)
    }

    /** Valid but for the length, which may have wrapped. */
    ghost predicate Listed()
      reads this
    {
      && AllOk(chains)
      && Plain(chains, refs)
      && last == |chains| - 1
      && totalLen == Wrapped(|Contents()|)
      && Shape(chains, lastWithDatap)
    }

    /** The abstract value: one byte string. */
    ghost function Contents(): seq<byte>
      reads this
    {
      Flatten(chains)
    }

    /** The length callbacks have been told of, as a `size_t`; every operation keeps it. */
    ghost function Balance(): int
      reads this
    {
      (totalLen + nDelForCb - nAddForCb) % SIZE_T
    }

    constructor ()
      ensures Valid() && Contents() == []
      ensures !freezeStart && !freezeEnd && nAddForCb == 0 && nDelForCb == 0 && refs == 0
    {
      refs := 0;
      chains, last, lastWithDatap, totalLen := [], -1, 0, 0;
      nAddForCb, nDelForCb, freezeStart, freezeEnd := 0, 0, false, false;
    }

    /** evbuffer_chain_new: room for `size` bytes, rounded up with the header to a power of two. */
    static method ChainNew(size: nat) returns (c: Chain)
      ensures c.Ok() && !c.immutable && c.misalign == 0 && c.data == []
      ensures size <= c.bufferLen
      ensures var total, block := size + EVBUFFER_CHAIN_SIZE, c.bufferLen + EVBUFFER_CHAIN_SIZE;
              if total >= EVBUFFER_CHAIN_MAX / 2 then block == total
              else IsDoubling(block) && (block == MIN_BUFFER_SIZE || block < 2 * total)
    {
      var total := size + EVBUFFER_CHAIN_SIZE;
      var toAlloc := total;
      if total < EVBUFFER_CHAIN_MAX / 2 {
        toAlloc := MIN_BUFFER_SIZE;
        while toAlloc < total
          invariant MIN_BUFFER_SIZE <= toAlloc && IsDoubling(toAlloc)
          invariant toAlloc == MIN_BUFFER_SIZE || toAlloc < 2 * total
        {
          toAlloc := toAlloc * 2;
        }
      }
      c := Chain(toAlloc - EVBUFFER_CHAIN_SIZE, 0, [], false);
    }

    /** evbuffer_free_trailing_empty_chains: only chains with data are left; the caller fixes `last`. */
    method FreeTrailingEmptyChains() returns (ch: nat)
      requires Shape(chains, lastWithDatap)
      modifies `chains
      ensures ch == |chains| && chains <= old(chains) && Contents() == old(Contents())
      ensures forall i :: 0 <= i < |chains| ==> chains[i].data != []
      ensures if chains == [] then lastWithDatap == 0 else lastWithDatap == |chains| - 1
      ensures old(chains) != [] && old(chains[lastWithDatap].data) != [] ==> chains == old(chains[..lastWithDatap + 1])
    {
      hide Flatten;
      ch := lastWithDatap;
      while ch < |chains| && chains[ch].data != []
        invariant lastWithDatap <= ch <= |chains| && ch <= lastWithDatap + 1
        invariant forall i :: lastWithDatap <= i < ch ==> chains[i].data != []
        decreases |chains| - ch
      {
        ch := ch + 1;
      }
      FlattenCut(chains, ch);
      FlattenEmpty(chains[ch..]);
      if ch < |chains| {
        chains := chains[..ch];
      }
    }

    /** evbuffer_chain_insert: appends a chain, dropping trailing empty chains first. */
    method ChainInsert(chain: Chain)
      requires Listed() && Plain([chain], refs)
      modifies `chains, `last, `lastWithDatap, `totalLen
      ensures Contents() == old(Contents()) + chain.data && totalLen == Wrapped(old(totalLen) + |chain.data|)
      ensures Listed() <==> chain.Ok()
      ensures Valid() <==> chain.Ok() && |Contents()| <= EV_SIZE_MAX
      ensures chains != [] && chains[|chains| - 1] == chain && (old(chains) == [] ==> chains == [chain])
      ensures lastWithDatap <= |chains| - 1 <= lastWithDatap + 1
      ensures chain.data == [] && old(chains) != [] && old(chains[lastWithDatap].data) != [] ==>
                |chains| == old(lastWithDatap) + 2 && lastWithDatap == old(lastWithDatap)
    {
      hide Flatten, Wrapped;
      if lastWithDatap >= |chains| {
        PushLast([], chain);
        FlattenNone();
        assert [] + [chain] == [chain];
        chains, last := [chain], 0;
      } else {
        var chp := FreeTrailingEmptyChains();
        PushLast(chains, chain);
        assert chains[..chp] == chains;
        chains := chains[..chp] + [chain];
        if chain.data != [] {
          lastWithDatap := chp;
        }
        last := chp;
      }
      WrappedSum(|old(Contents())|, |chain.data|);
      totalLen := Wrapped(totalLen + |chain.data|);
    }

    /** memcpy of `d` to the end of the last chain with data, which becomes `full`. */
    method Fill(full: Chain, d: seq<byte>)
      requires Listed() && chains != [] && full.Ok() && !full.immutable
      requires full.data == chains[lastWithDatap].data + d
      modifies `chains, `totalLen, `nAddForCb
      ensures Listed() && Balance() == old(Balance()) && totalLen == Wrapped(old(totalLen) + |d|)
      ensures Contents() == old(Contents()) + d
      ensures chains == old(chains[lastWithDatap := full])
    {
      hide Flatten;
      GrowLast(chains, lastWithDatap, full, d);
      Balanced(totalLen, nAddForCb, nDelForCb, |d|);
      WrappedSum(|Contents()|, |d|);
      chains := chains[lastWithDatap := full];
      totalLen, nAddForCb := Wrapped(totalLen + |d|), Wrapped(nAddForCb + |d|);
    }

    /** The end of evbuffer_add: the last chain takes `remain` bytes, a new chain the rest. */
    method AddInNewChain(data: seq<byte>, remain: nat)
      requires Listed() && chains != [] && remain <= |data|
      requires lastWithDatap < |chains| && remain == chains[lastWithDatap].SpaceLen()
      modifies `chains, `last, `lastWithDatap, `totalLen, `nAddForCb
      ensures Listed() && Balance() == old(Balance())
      ensures Contents() == old(Contents()) + data
    {
      hide Flatten, Wrapped, Shape, AllOk, Plain;
      DesignatedOk(chains, lastWithDatap);
      var chain := chains[lastWithDatap];
      var toAlloc := chain.bufferLen;
      if toAlloc <= EVBUFFER_CHAIN_MAX_AUTO_SIZE / 2 {
        toAlloc := toAlloc * 2;
      }
      if |data| > toAlloc {
        toAlloc := |data|;
      }
      var tmp := ChainNew(toAlloc);
      if remain != 0 {
        Fill(chain.(data := chain.data + data[..remain]), data[..remain]);
      }
      assert Contents() == old(Contents()) + data[..remain];
      Balanced(totalLen, nAddForCb, nDelForCb, |data| - remain);
      tmp := tmp.(data := data[remain..]);
      OneChain(tmp, refs);
      ChainInsert(tmp);
      nAddForCb := Wrapped(nAddForCb + (|data| - remain));
      assert data == data[..remain] + data[remain..];
    }

    /** evbuffer_add: appends `data`, or refuses and changes nothing; a wrapped length is taken as it is. */
    method Add(data: seq<byte>) returns (ok: bool)
      requires Listed()
      modifies `chains, `last, `lastWithDatap, `totalLen, `nAddForCb
      ensures Listed() && (old(Valid()) ==> Valid()) && Balance() == old(Balance())
      ensures ok == (!freezeEnd && old(totalLen) + |data| <= EV_SIZE_MAX)
      ensures Contents() == if ok then old(Contents()) + data else old(Contents())
      ensures !ok ==> chains == old(chains)
    {
      hide Flatten;
      if freezeEnd {
        return false;
      }
      if totalLen + |data| > EV_SIZE_MAX {
        return false;
      }
      var k := if lastWithDatap < |chains| then lastWithDatap else last;
      if k < 0 {
        var initial := ChainNew(|data|);
        ChainInsert(initial);
        k := lastWithDatap;
      }
      var chain, remain := chains[k], 0;
      if !chain.immutable {
        remain := chain.bufferLen - chain.misalign - |chain.data|;
        if remain >= |data| {
          Fill(chain.(data := chain.data + data), data);
          return true;
        } else if chain.ShouldRealign(|data|) {
          Fill(chain.(misalign := 0, data := chain.data + data), data);
          return true;
        }
      }
      AddInNewChain(data, remain);
      return true;
    }

    /** evbuffer_add_reference: a chain over memory the caller owns. */
    method AddReference(data: seq<byte>) returns (ok: bool)
      requires Listed()
      modifies `chains, `last, `lastWithDatap, `totalLen, `nAddForCb, `refs
      ensures Listed() && ok == !freezeEnd && Balance() == old(Balance())
      ensures Valid() <==> |Contents()| <= EV_SIZE_MAX
      ensures refs == if ok then Max(old(refs), if data == [] then 2 else 1) else old(refs)
      ensures Contents() == if ok then old(Contents()) + data else old(Contents())
    {
      hide Flatten;
      var chain := Chain(|data|, 0, data, true);
      if freezeEnd {
        return false;
      }
      refs := Max(refs, if data == [] then 2 else 1);
      Balanced(totalLen, nAddForCb, nDelForCb, |data|);
      ChainInsert(chain);
      nAddForCb := Wrapped(nAddForCb + |data|);
      return true;
    }

    /**
     evbuffer_prepend: puts `data` in front. The shape survives unless the first chain is a reference
     and either it or `data` is empty.
     */
    method Prepend(data: seq<byte>) returns (ok: bool)
      requires Valid()
      modifies `chains, `last, `lastWithDatap, `totalLen, `nAddForCb
      ensures Sound() && Balance() == old(Balance())
      ensures ok == (!freezeStart && old(totalLen) + |data| <= EV_SIZE_MAX)
      ensures Contents() == if ok then data + old(Contents()) else old(Contents())
      ensures Valid() <==> !(ok && old(chains != [] && chains[0].immutable && (data == [] || chains[0].data == [])))
    {
      hide Flatten;
      if freezeStart {
        return false;
      }
      if totalLen + |data| > EV_SIZE_MAX {
        return false;
      }
      if chains == [] {
        var initial := ChainNew(|data|);
        ChainInsert(initial);
      }
      var chain, rest := chains[0], data;
      if !chain.immutable {
        if chain.data == [] {
          chain := chain.(misalign := chain.bufferLen);
        }
        if chain.misalign >= |data| {
          FillFront(chain.(data := data + chain.data, misalign := chain.misalign - |data|), data);
          return true;
        } else if chain.misalign != 0 {
          var cut := |data| - chain.misalign;
          rest := data[..cut];
          assert data == rest + data[cut..];
          FillFront(chain.(data := data[cut..] + chain.data, misalign := 0), data[cut..]);
        }
      }
      PrependChain(rest);
      return true;
    }

    /** memcpy of `d` in front of the bytes of the first chain, which becomes `full`. */
    method FillFront(full: Chain, d: seq<byte>)
      requires Valid() && chains != [] && full.Ok() && !full.immutable
      requires full.data == d + chains[0].data && totalLen + |d| <= EV_SIZE_MAX
      modifies `chains, `totalLen, `nAddForCb
      ensures Valid() && Balance() == old(Balance()) && totalLen == old(totalLen) + |d|
      ensures Contents() == d + old(Contents())
      ensures chains == old(chains[0 := full])
    {
      hide Flatten;
      GrowFirst(chains, lastWithDatap, full, d);
      Balanced(totalLen, nAddForCb, nDelForCb, |d|);
      chains := chains[0 := full];
      totalLen, nAddForCb := Wrapped(totalLen + |d|), Wrapped(nAddForCb + |d|);
    }

    /** The end of evbuffer_prepend: a new first chain, filled from its end. */
    method PrependChain(rest: seq<byte>)
      requires Valid() && chains != [] && totalLen + |rest| <= EV_SIZE_MAX
      modifies `chains, `last, `lastWithDatap, `totalLen, `nAddForCb
      ensures Sound() && Balance() == old(Balance())
      ensures Contents() == rest + old(Contents())
      ensures Valid() <==> rest != [] && old(chains)[0].data != []
    {
      hide Flatten;
      var tmp := ChainNew(|rest|);
      var front := tmp.(data := rest, misalign := tmp.bufferLen - |rest|);
      PushFirst(chains, lastWithDatap, front);
      chains, last := [front] + chains, last + 1;
      lastWithDatap := lastWithDatap + 1;
      Balanced(totalLen, nAddForCb, nDelForCb, |rest|);
      totalLen, nAddForCb := Wrapped(totalLen + |rest|), Wrapped(nAddForCb + |rest|);
    }

    /** evbuffer_drain: forgets the first `len` bytes. */
    method Drain(len: nat) returns (ok: bool)
      requires Valid()
      modifies `chains, `last, `lastWithDatap, `totalLen, `nDelForCb, `refs
      ensures Valid() && Balance() == old(Balance())
      ensures ok == (old(totalLen) == 0 || !freezeStart)
      ensures !ok ==> chains == old(chains)
      ensures ok && len <= old(totalLen) ==> Contents() == old(Contents())[len..]
      ensures ok && len > old(totalLen) ==> Contents() == []
      ensures refs == if ok && 0 < old(totalLen) <= len then 0 else old(refs)
    {
      hide Flatten;
      if totalLen == 0 {
        return true;
      }
      if freezeStart {
        return false;
      }
      Balanced(totalLen, nAddForCb, nDelForCb, if len >= totalLen then totalLen else len);
      if len >= totalLen {
        nDelForCb := Wrapped(nDelForCb + totalLen);
        ZeroChain();
      } else {
        DrainSome(len);
        nDelForCb := Wrapped(nDelForCb + len);
      }
      return true;
    }

    /** ZERO_CHAIN */
    method ZeroChain()
      modifies `chains, `last, `lastWithDatap, `totalLen, `refs
      ensures Valid() && Contents() == [] && totalLen == 0 && chains == [] && refs == 0
    {
      refs := 0;
      chains, last, lastWithDatap, totalLen := [], -1, 0, 0;
    }

    /** The loop of evbuffer_drain: frees whole chains, then shortens the next one. */
    method DrainSome(len: nat)
      requires Valid() && len < totalLen
      modifies `chains, `last, `lastWithDatap, `totalLen
      ensures Valid() && totalLen == old(totalLen) - len
      ensures Contents() == old(Contents())[len..]
    {
      hide Flatten, Shape, AllOk, Plain;
      totalLen := totalLen - len;
      var cs, remaining, k, lwdp := chains, len, 0, lastWithDatap;
      FlattenNone();
      assert cs[..0] == [] && cs[0..] == cs;
      while k < |cs| && remaining >= |cs[k].data|
        invariant k <= |cs| && 0 <= remaining == len - |Flatten(cs[..k])|
        invariant remaining < |Flatten(cs[k..])|
        invariant lwdp == if lastWithDatap <= k then 0 else lastWithDatap
        decreases |cs| - k
        modifies {}
      {
        FlattenNext(cs, k);
        FlattenLast(cs, k);
        remaining := remaining - |cs[k].data|;
        if k == lwdp {
          lwdp := 0;
        }
        if lwdp == k + 1 {
          lwdp := 0;
        }
        k := k + 1;
      }
      assert k < |cs| by {
        assert cs[|cs|..] == [];
      }
      DropFront(cs, lastWithDatap, k, remaining);
      PlainDropped(cs, refs, k, remaining);
      chains, last := [cs[k].Skip(remaining)] + cs[k + 1..], last - k;
      lastWithDatap := if lwdp == 0 then 0 else lwdp - k;
    }

    /**
     evbuffer_add_buffer: moves every chain of `inbuf` to the end of `outbuf`, which stays valid if and
     only if its new length fits.
     */
    static method AddBuffer(outbuf: EvBuffer, inbuf: EvBuffer) returns (ok: bool)
      requires outbuf.Valid() && inbuf.Valid()
      modifies outbuf, inbuf
      ensures inbuf.Valid() && outbuf.Listed() && (outbuf.Valid() <==> |outbuf.Contents()| <= EV_SIZE_MAX)
      ensures outbuf.Balance() == old(outbuf.Balance()) && inbuf.Balance() == old(inbuf.Balance())
      ensures outbuf.freezeStart == old(outbuf.freezeStart) && outbuf.freezeEnd == old(outbuf.freezeEnd)
      ensures inbuf.freezeStart == old(inbuf.freezeStart) && inbuf.freezeEnd == old(inbuf.freezeEnd)
      ensures ok == (old(inbuf.totalLen) == 0 || outbuf == inbuf || !(outbuf.freezeEnd || inbuf.freezeStart))
      ensures if ok && outbuf != inbuf then
                && outbuf.Contents() == old(outbuf.Contents()) + old(inbuf.Contents()) && inbuf.Contents() == []
                && (outbuf.refs, inbuf.refs) ==
                   old(MergedRefs(outbuf.totalLen, outbuf.refs, inbuf.totalLen, inbuf.refs))
              else
                && outbuf.Contents() == old(outbuf.Contents()) && inbuf.Contents() == old(inbuf.Contents())
                && outbuf.refs == old(outbuf.refs) && inbuf.refs == old(inbuf.refs)
    {
      hide Flatten, Wrapped;
      if inbuf.totalLen == 0 || outbuf == inbuf {
        return true;
      }
      if outbuf.freezeEnd || inbuf.freezeStart {
        return false;
      }
      var n := inbuf.totalLen;
      Balanced(outbuf.totalLen, outbuf.nAddForCb, outbuf.nDelForCb, n);
      Balanced(n, inbuf.nAddForCb, inbuf.nDelForCb, n);
      outbuf.JoinChains(inbuf);
      inbuf.ZeroChain();
      inbuf.nDelForCb, outbuf.nAddForCb := Wrapped(inbuf.nDelForCb + n), Wrapped(outbuf.nAddForCb + n);
      return true;
    }

    /** COPY_CHAIN or APPEND_CHAIN: the chains of `inbuf` behind what is here. */
    method JoinChains(inbuf: EvBuffer)
      requires Valid() && inbuf.Valid() && inbuf.totalLen != 0 && inbuf != this
      modifies `chains, `last, `lastWithDatap, `totalLen, `refs
      ensures Listed() && Contents() == old(Contents()) + inbuf.Contents()
      ensures totalLen == Wrapped(old(totalLen) + inbuf.totalLen)
      ensures refs == if old(totalLen) == 0 then inbuf.refs else Max(old(refs), inbuf.refs)
    {
      hide Flatten, Wrapped, Shape, AllOk, Plain;
      if totalLen == 0 {
        assert Contents() + inbuf.Contents() == inbuf.Contents();
        chains, last, refs := inbuf.chains, inbuf.last, inbuf.refs;
        lastWithDatap, totalLen := inbuf.lastWithDatap, inbuf.totalLen;
      } else {
        ghost var cs := chains;
        var chp := FreeTrailingEmptyChains();
        PrefixOk(cs, chains, refs);
        JoinLists(chains, inbuf.chains, inbuf.lastWithDatap);
        PlainJoined(chains, inbuf.chains, refs, inbuf.refs);
        refs := Max(refs, inbuf.refs);
        assert chains[..chp] == chains;
        chains, last := chains[..chp] + inbuf.chains, chp + inbuf.last;
        lastWithDatap := if inbuf.lastWithDatap == 0 then chp else chp + inbuf.lastWithDatap;
        totalLen := Wrapped(totalLen + inbuf.totalLen);
      }
    }

    /** advance_last_with_data */
    method AdvanceLastWithData()
      requires lastWithDatap < |chains|
      modifies `lastWithDatap
      ensures old(lastWithDatap) <= lastWithDatap < |chains|
      ensures lastWithDatap + 1 < |chains| ==> chains[lastWithDatap + 1].data == []
      ensures forall i :: old(lastWithDatap) < i <= lastWithDatap ==> chains[i].data != []
    {
      while lastWithDatap + 1 < |chains| && chains[lastWithDatap + 1].data != []
        invariant old(lastWithDatap) <= lastWithDatap < |chains|
        invariant forall i :: old(lastWithDatap) < i <= lastWithDatap ==> chains[i].data != []
        decreases |chains| - lastWithDatap
      {
        lastWithDatap := lastWithDatap + 1;
      }
    }

    /** The chain-moving half of evbuffer_remove_buffer: takes over `moved`, all of which carry data. */
    method TakeChains(moved: seq<Chain>, nread: nat)
      requires Listed() && AllOk(moved) && moved != [] && nread == |Flatten(moved)| && Plain(moved, refs)
      requires forall i :: 0 <= i < |moved| ==> moved[i].data != []
      modifies `chains, `last, `lastWithDatap, `totalLen, `nAddForCb
      ensures Listed() && Balance() == old(Balance())
      ensures Contents() == old(Contents()) + Flatten(moved)
      ensures totalLen == Wrapped(old(totalLen) + nread)
    {
      hide Flatten, Shape, AllOk, Plain, Wrapped;
      Balanced(totalLen, nAddForCb, nDelForCb, nread);
      WrappedSum(|Contents()|, nread);
      ghost var cs := chains;
      var chp := FreeTrailingEmptyChains();
      PrefixOk(cs, chains, refs);
      JoinData(chains, moved, refs);
      if chains == [] {
        assert [] + moved == moved;
        chains := moved;
      } else {
        assert chains[..chp] == chains;
        chains := chains[..chp] + moved;
      }
      last := |chains| - 1;
      AdvanceLastWithData();
      totalLen, nAddForCb := Wrapped(totalLen + nread), Wrapped(nAddForCb + nread);
    }

    /**
     evbuffer_remove_buffer: moves the first `datlen` bytes of `src` to the end of `dst`, whole
     chains by relinking and the rest by copying. The destination stays valid if and only if what arrives fits.
     */
    static method RemoveBuffer(src: EvBuffer, dst: EvBuffer, datlen: nat) returns (result: int)
      requires src.Valid() && dst.Valid()
      modifies src, dst
      ensures src.Valid() && dst.Listed() && (dst.Valid() <==> |dst.Contents()| <= EV_SIZE_MAX)
      ensures src.Balance() == old(src.Balance()) && dst.Balance() == old(dst.Balance())
      ensures src.freezeStart == old(src.freezeStart) && src.freezeEnd == old(src.freezeEnd)
      ensures dst.freezeStart == old(dst.freezeStart) && dst.freezeEnd == old(dst.freezeEnd)
      ensures var idle, frozen := datlen == 0 || src == dst, dst.freezeEnd || src.freezeStart;
              var n := if datlen < old(src.totalLen) then datlen else old(src.totalLen);
              if idle || frozen then
                && result == (if idle then 0 else -1)
                && src.Contents() == old(src.Contents()) && dst.Contents() == old(dst.Contents())
                && src.refs == old(src.refs) && dst.refs == old(dst.refs)
              else
                && result == CInt(n)
                && src.Contents() == old(src.Contents())[n..]
                && (dst.refs, src.refs) ==
                   (if n < old(src.totalLen) then (Max(old(dst.refs), old(src.refs)), old(src.refs))
                    else old(MergedRefs(dst.totalLen, dst.refs, src.totalLen, src.refs)))
                && Gained(old(dst.Contents()), old(src.Contents()), old(src.chains), n, dst.Contents())
    {
      hide Flatten;
      if datlen == 0 || src == dst {
        return 0;
      }
      if dst.freezeEnd || src.freezeStart {
        return -1;
      }
      if datlen >= src.totalLen {
        var n := src.totalLen;
        assert src.Contents()[..n] == src.Contents();
        var _ := AddBuffer(dst, src);
        return CInt(n);
      }
      MovePrefix(src, dst, datlen);
      return CInt(datlen);
    }

    /**
     The loop of evbuffer_remove_buffer: how many chains, with how many bytes, can be moved whole,
     and where the slot of the last chain with data goes. The last such chain is never passed.
     */
    static method CountChains(cs: seq<Chain>, lwd: nat, datlen: nat) returns (k: nat, nread: nat, lwdp: nat)
      requires AllOk(cs) && Shape(cs, lwd) && datlen < |Flatten(cs)|
      ensures k <= lwd < |cs| && nread == |Flatten(cs[..k])| <= datlen
      ensures datlen - nread < |cs[k].data|
      ensures lwdp == if lwd <= k then 0 else lwd
      ensures k == 0 <==> nread == 0
      ensures nread == Whole(cs, datlen)
    {
      hide Flatten, Whole;
      k, nread, lwdp := 0, 0, lwd;
      FlattenNone();
      assert cs[..0] == [] && cs[0..] == cs;
      while |cs[k].data| <= datlen - nread
        invariant k <= lwd < |cs| && nread == |Flatten(cs[..k])| <= datlen
        invariant datlen - nread < |Flatten(cs[k..])|
        invariant lwdp == if lwd <= k then 0 else lwd
        invariant k == 0 <==> nread == 0
        invariant Whole(cs, datlen) == nread + Whole(cs[k..], datlen - nread)
        decreases |cs| - k
      {
        WholeNext(cs, k, datlen - nread);
        StrictlyBefore(cs, lwd, k, datlen - nread);
        assert k != lwdp;
        FlattenNext(cs, k);
        FlattenLast(cs, k);
        nread := nread + |cs[k].data|;
        if lwdp == k + 1 {
          lwdp := 0;
        }
        k := k + 1;
      }
      WholeNext(cs, k, datlen - nread);
    }

    /** The general case of evbuffer_remove_buffer. */
    static method MovePrefix(src: EvBuffer, dst: EvBuffer, datlen: nat)
      requires src.Valid() && dst.Valid() && src != dst && datlen < src.totalLen && !dst.freezeEnd
      modifies src, dst
      ensures src.Valid() && dst.Listed() && (dst.Valid() <==> |dst.Contents()| <= EV_SIZE_MAX)
      ensures src.Balance() == old(src.Balance()) && dst.Balance() == old(dst.Balance())
      ensures src.freezeStart == old(src.freezeStart) && src.freezeEnd == old(src.freezeEnd)
      ensures dst.freezeStart == old(dst.freezeStart) && dst.freezeEnd == old(dst.freezeEnd)
      ensures src.refs == old(src.refs) && dst.refs == Max(old(dst.refs), old(src.refs))
      ensures src.Contents() == old(src.Contents())[datlen..]
      ensures Gained(old(dst.Contents()), old(src.Contents()), old(src.chains), datlen, dst.Contents())
    {
      hide Flatten, Shape, AllOk, Wrapped;
      var cs := src.chains;
      dst.refs := Max(dst.refs, src.refs);
      var k, nread, lwdp := CountChains(cs, src.lastWithDatap, datlen);
      var left := datlen - nread;
      DropFront(cs, src.lastWithDatap, k, left);
      WholeChains(cs, src.lastWithDatap, k);
      if nread != 0 {
        dst.TakeChains(cs[..k], nread);
      }
      assert dst.Contents() == old(dst.Contents()) + Flatten(cs[..k]);
      var _ := dst.Add(cs[k].data[..left]);
      src.TrimFront(k, left, lwdp, datlen);
    }

    /** What evbuffer_remove_buffer leaves in the source: chain `k` from byte `left` on, and the rest. */
    method TrimFront(k: nat, left: nat, lwdp: nat, datlen: nat)
      requires Valid() && k < |chains| && left < |chains[k].data| && datlen == |Flatten(chains[..k])| + left
      requires datlen <= totalLen && lwdp == if lastWithDatap <= k then 0 else lastWithDatap
      modifies `chains, `last, `lastWithDatap, `totalLen, `nDelForCb
      ensures Valid() && Balance() == old(Balance()) && Contents() == old(Contents())[datlen..]
    {
      hide Flatten, Shape, AllOk, Plain;
      DropFront(chains, lastWithDatap, k, left);
      PlainDropped(chains, refs, k, left);
      chains, last := [chains[k].Skip(left)] + chains[k + 1..], last - k;
      lastWithDatap := if lwdp == 0 then 0 else lwdp - k;
      Balanced(totalLen, nAddForCb, nDelForCb, datlen);
      totalLen, nDelForCb := totalLen - datlen, Wrapped(nDelForCb + datlen);
    }

    /**
     The copying loop of evbuffer_pullup: gathers from chain `start` on, whole chains while they fit into
     `size`, then part of the next one, and notes which of the chains the caches refer to were freed.
     */
    static method Gather(cs: seq<Chain>, lwd: nat, start: nat, size: nat)
      returns (k: nat, bytes: seq<byte>, left: nat, removedLastWithData: bool, removedLastWithDatap: bool)
      requires AllOk(cs) && Shape(cs, lwd) && start <= 1 <= lwd && 0 < size <= |Flatten(cs[start..])|
      ensures start <= k <= |cs| && left < size + 1
      ensures k < |cs| ==> left < |cs[k].data| && k <= lwd && bytes == Flatten(cs[start..k]) + cs[k].data[..left]
      ensures k == |cs| ==> left == 0 && bytes == Flatten(cs[start..]) && size == |bytes|
      ensures |bytes| == size
      ensures removedLastWithData == (lwd < k) && removedLastWithDatap == (start < lwd <= k)
    {
      hide Flatten;
      k, bytes, left, removedLastWithData, removedLastWithDatap := start, [], size, false, false;
      FlattenNone();
      assert cs[start..start] == [];
      FlattenCut(cs[start..], 0);
      while k < |cs| && left >= |cs[k].data|
        invariant start <= k <= |cs| && bytes == Flatten(cs[start..k]) && |bytes| + left == size
        invariant |bytes| + |Flatten(cs[k..])| == |Flatten(cs[start..])|
        invariant left <= |Flatten(cs[k..])|
        invariant removedLastWithData == (lwd < k) && removedLastWithDatap == (start < lwd <= k)
        decreases |cs| - k
      {
        FlattenNext(cs, k);
        FlattenMore(cs, start, k);
        bytes := bytes + cs[k].data;
        left := left - |cs[k].data|;
        if k == lwd {
          removedLastWithData := true;
        }
        if k + 1 == lwd {
          removedLastWithDatap := true;
        }
        k := k + 1;
      }
      if k < |cs| {
        bytes := bytes + cs[k].data[..left];
      } else {
        SliceToEnd(cs, start);
      }
    }

    /** evbuffer_pullup: makes the first `size` bytes (all, if negative) contiguous in the first chain. */
    method Pullup(size: int) returns (found: bool)
      requires Valid()
      modifies `chains, `last, `lastWithDatap
      ensures Valid() && Contents() == old(Contents())
      ensures var n := if size < 0 then totalLen else size;
              && found == (0 < n <= totalLen)
              && (found ==> chains != [] && n <= |chains[0].data| && chains[0].data[..n] == Contents()[..n])
    {
      hide Flatten;
      var n := if size < 0 then totalLen else size;
      if n == 0 || n > totalLen {
        return false;
      }
      DataAt(chains, lastWithDatap);
      assert chains[0..] == chains;
      FlattenNext(chains, 0);
      if |chains[0].data| >= n {
        return true;
      }
      PullupMore(n);
      return true;
    }

    /** The rest of evbuffer_pullup, when the first chain holds fewer than `n` bytes. */
    method PullupMore(n: nat)
      requires Valid() && n <= totalLen && chains != [] && |chains[0].data| < n
      modifies `chains, `last, `lastWithDatap
      ensures Valid() && Contents() == old(Contents())
      ensures chains != [] && |chains[0].data| == n && chains[0].data == Contents()[..n]
    {
      hide Flatten, Shape, AllOk, Plain;
      HasLast(chains, lastWithDatap);
      FirstOk(chains);
      assert 1 <= lastWithDatap by {
        ShapeTail(chains, lastWithDatap);
        assert chains[..0] == [];
        FlattenNone();
      }
      var cs, tmp, start := chains, chains[0], 1;
      if tmp.bufferLen - tmp.misalign < n {
        tmp := ChainNew(n);
        start := 0;
      }
      FlattenCut(cs, start);
      FlattenUpTo(cs, start);
      var k, bytes, left, removedLwd, removedLwdp := Gather(cs, lastWithDatap, start, n - |tmp.data|);
      var front := tmp.(data := tmp.data + bytes);
      if k < |cs| {
        FlattenCut(cs[..k], start);
        assert cs[..k][..start] == cs[..start] && cs[..k][start..] == cs[start..k];
        PullupShape(cs, lastWithDatap, k, left, front);
        PlainDropped(cs, refs, k, left);
        PlainFirst([cs[k].Skip(left)] + cs[k + 1..], refs, front);
        chains, last := [front] + ([cs[k].Skip(left)] + cs[k + 1..]), last - k + 1;
      } else {
        OneChain(front, refs);
        assert front.data == Flatten(cs);
        chains, last := [front], 0;
      }
      if removedLwd {
        lastWithDatap := 0;
      } else if removedLwdp {
        lastWithDatap := Slot(|chains| > 1 && chains[1].data != []);
      } else {
        lastWithDatap := lastWithDatap - k + 1;
      }
    }

    /** evbuffer_expand_singlechain: a chain at the end of the data with room for `datlen` more bytes. */
    method ExpandSinglechain(datlen: nat) returns (k: nat)
      requires Valid()
      modifies `chains, `last, `lastWithDatap, `totalLen
      ensures Valid() && Contents() == old(Contents())
      ensures lastWithDatap <= k < |chains| && k <= lastWithDatap + 1
      ensures chains[k].SpaceLen() >= datlen
    {
      hide Flatten;
      k := lastWithDatap;
      if k < |chains| && chains[k].SpaceLen() == 0 {
        k := k + 1;
      }
      if k == |chains| || chains[k].immutable {
        k := InsertNew(datlen);
        return;
      }
      if chains[k].SpaceLen() >= datlen {
        return;
      }
      if chains[k].data == [] {
        k := InsertNew(datlen);
        return;
      }
      assert k == lastWithDatap;
      if chains[k].ShouldRealign(datlen) {
        Replace(chains[k].(misalign := 0));
        return;
      }
      if chains[k].SpaceLen() < chains[k].bufferLen / 8 || |chains[k].data| > MAX_TO_COPY_IN_EXPAND
         || datlen >= EVBUFFER_CHAIN_MAX - |chains[k].data| {
        if k + 1 < |chains| && chains[k + 1].SpaceLen() >= datlen {
          k := k + 1;
        } else {
          k := InsertNew(datlen);
        }
      } else {
        var tmp := ChainNew(|chains[k].data| + datlen);
        Replace(tmp.(data := chains[k].data));
      }
    }

    /** evbuffer_chain_insert_new */
    method InsertNew(datlen: nat) returns (k: nat)
      requires Valid()
      modifies `chains, `last, `lastWithDatap, `totalLen
      ensures Valid() && Contents() == old(Contents())
      ensures lastWithDatap <= k < |chains| && k <= lastWithDatap + 1
      ensures k == |chains| - 1 && chains[k].SpaceLen() >= datlen
    {
      var chain := ChainNew(datlen);
      ChainInsert(chain);
      k := |chains| - 1;
    }

    /** Puts a chain with the same bytes in the place of the last chain with data. */
    method Replace(c: Chain)
      requires Valid() && chains != [] && c.Ok() && !c.immutable && c.data == chains[lastWithDatap].data
      modifies `chains
      ensures Valid() && Contents() == old(Contents()) && chains == old(chains)[lastWithDatap := c]
    {
      GrowLast(chains, lastWithDatap, c, []);
      chains := chains[lastWithDatap := c];
    }

    /**
     The scan of evbuffer_expand_fast_: realigns empty chains and adds up the room from the last chain
     with data on, until it is enough, `n` chains have some, or the list ends.
     */
    static method CountRoom(cs: seq<Chain>, lwd: nat, datlen: nat, n: nat)
      returns (r: seq<Chain>, m: nat, avail: int, used: nat)
      requires AllOk(cs) && Shape(cs, lwd) && cs != [] && 0 < n && !cs[|cs| - 1].immutable
      ensures AllOk(r) && Shape(r, lwd) && |r| == |cs| && Flatten(r) == Flatten(cs)
      ensures forall i :: 0 <= i < |cs| ==> r[i].data == cs[i].data && r[i].immutable == cs[i].immutable
      ensures lwd < m <= |r| && used <= n
      ensures avail == Room(r[lwd..m]) && used == WithRoom(r[lwd..m])
      ensures avail < datlen ==> used == n || m == |r|
      ensures r[lwd].data != [] ==> r[lwd].SpaceLen() <= avail
    {
      hide Flatten, Room, WithRoom;
      r, m, avail, used := cs, lwd, 0, 0;
      RoomNone();
      assert r[lwd..lwd] == [];
      while m < |r|
        invariant AllOk(r) && Shape(r, lwd) && |r| == |cs| && Flatten(r) == Flatten(cs)
        invariant forall i :: 0 <= i < |cs| ==> r[i].data == cs[i].data && r[i].immutable == cs[i].immutable
        invariant lwd <= m <= |r| && used < n
        invariant 0 <= avail == Room(r[lwd..m]) && used == WithRoom(r[lwd..m])
        invariant lwd < m && r[lwd].data != [] ==> r[lwd].SpaceLen() <= avail
        decreases |r| - m
      {
        if r[m].data != [] {
          assert m == lwd;
          RoomNext(r, lwd, m);
          var space := r[m].SpaceLen();
          if space != 0 {
            avail, used := avail + space, used + 1;
          }
        } else {
          var c := r[m].(misalign := 0);
          FlattenUpdate(r, m, c);
          FlattenAt(r, m);
          assert r[m := c][lwd..m] == r[lwd..m];
          r := r[m := c];
          RoomNext(r, lwd, m);
          avail, used := avail + c.bufferLen, used + 1;
        }
        m := m + 1;
        if avail >= datlen || used == n {
          break;
        }
      }
    }

    /** evbuffer_expand_fast_: room for `datlen` bytes in at most `n` chains from the last one with data on. */
    method ExpandFast(datlen: nat, n: nat) returns (ghost m: nat)
      requires Valid() && 2 <= n
      modifies `chains, `last, `lastWithDatap, `totalLen
      ensures Valid() && Contents() == old(Contents())
      ensures lastWithDatap <= m <= |chains| && WithRoom(chains[lastWithDatap..m]) <= n
      ensures Room(chains[lastWithDatap..m]) >= datlen
    {
      hide Flatten, Room, WithRoom;
      if last < 0 || chains[last].immutable {
        var k := InsertNew(datlen);
        m := |chains|;
        RoomOfTwo(chains, lastWithDatap);
        assert chains[lastWithDatap..m] == chains[lastWithDatap..];
        return;
      }
      var cs, end, avail, used := CountRoom(chains, lastWithDatap, datlen, n);
      chains := cs;
      hide Shape, AllOk;
      SliceToEnd(cs, lastWithDatap);
      if avail >= datlen {
        return end;
      }
      if used < n {
        OneMoreChain(datlen - avail);
      } else {
        ReplaceEmptyChains(datlen);
      }
      m := |chains|;
    }

    /** The chains in use and one more give enough room. */
    method OneMoreChain(missing: nat)
      requires Valid() && chains != [] && !chains[|chains| - 1].immutable
      modifies `chains, `last
      ensures Valid() && Contents() == old(Contents())
      ensures lastWithDatap < |old(chains)| && lastWithDatap < |chains|
      ensures Room(chains[lastWithDatap..|chains|]) >= Room(old(chains)[lastWithDatap..]) + missing
      ensures WithRoom(chains[lastWithDatap..|chains|]) <= WithRoom(old(chains)[lastWithDatap..]) + 1
    {
      hide Flatten, Room, WithRoom, Shape, AllOk;
      ghost var cs := chains;
      HasLast(cs, lastWithDatap);
      var tmp := ChainNew(missing);
      AppendEmpty(|chains|, tmp);
      assert cs[..|cs|] == cs;
      RoomNext(chains, lastWithDatap, |chains| - 1);
      assert chains[lastWithDatap..|chains| - 1] == cs[lastWithDatap..];
    }

    /** The last chain with data and one new chain, in place of all the empty ones, give enough room. */
    method ReplaceEmptyChains(datlen: nat)
      requires Valid() && chains != []
      requires chains[lastWithDatap].data != [] ==> chains[lastWithDatap].SpaceLen() <= datlen
      modifies `chains, `last
      ensures Valid() && lastWithDatap < |chains| && Contents() == old(Contents())
      ensures Room(chains[lastWithDatap..|chains|]) >= datlen && WithRoom(chains[lastWithDatap..|chains|]) <= 2
    {
      hide Flatten, Room, WithRoom;
      var room := 0;
      if chains[lastWithDatap].data != [] {
        room := chains[lastWithDatap].SpaceLen();
      }
      assert datlen >= room;
      var tmp := ChainNew(datlen - room);
      AppendEmpty(if chains[lastWithDatap].data == [] then 0 else lastWithDatap + 1, tmp);
      RoomOfTwo(chains, lastWithDatap);
      assert chains[lastWithDatap..|chains|] == chains[lastWithDatap..];
    }

    /** Drops the empty chains from position `keep` on and puts an empty chain in their place. */
    method AppendEmpty(keep: nat, c: Chain)
      requires Valid() && chains != [] && c.Ok() && !c.immutable && c.data == []
      requires keep > 0 ==> keep <= |chains| && (chains[keep - 1].immutable ==> chains[keep - 1].data != [])
      requires keep <= |chains| && (lastWithDatap < keep || (keep == 0 && chains[lastWithDatap].data == []))
      modifies `chains, `last
      ensures Valid() && Contents() == old(Contents())
      ensures chains == old(chains)[..keep] + [c]
    {
      hide Flatten;
      FlattenCut(chains, keep);
      FlattenEmpty(chains[keep..]);
      FlattenSplit(chains[..keep], [c]);
      FlattenOne(c);
      chains := chains[..keep] + [c];
      last := keep;
    }
  }
}
