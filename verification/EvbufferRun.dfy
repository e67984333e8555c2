// Whole runs over two evbuffers, against two plain byte strings.
module EvbufferRun {
  import opened Wrappers
  import opened Evbuffer

  /** An operation on one of two buffers, or from one to the other. */
  datatype Op =
    | Add(data: seq<byte>)
    | AddReference(data: seq<byte>)
    | Prepend(data: seq<byte>)
    | Drain(len: nat)
    | TakeAll
    | Give(datlen: nat)
    | Pullup(size: int)
    | ExpandSinglechain(datlen: nat)
    | ExpandFast(datlen: nat, n: nat)

  datatype Act = Act(onFirst: bool, op: Op)

  type Pair = (seq<byte>, seq<byte>)

  /** What an operation on a buffer that holds `x` does, beside one that holds `y`. */
  function Effect(x: seq<byte>, y: seq<byte>, op: Op): Pair {
    match op
    case Add(data) => (if |x| + |data| <= EV_SIZE_MAX then x + data else x, y)
    case AddReference(data) => (x + data, y)
    case Prepend(data) => (if |x| + |data| <= EV_SIZE_MAX then data + x else x, y)
    case Drain(len) => (if len <= |x| then x[len..] else [], y)
    case TakeAll => (x + y, [])
    case Give(n) => if n <= |x| then (x[n..], y + x[..n]) else ([], y + x)
    case Pullup(_) => (x, y)
    case ExpandSinglechain(_) => (x, y)
    case ExpandFast(_, _) => (x, y)
  }

  /**
   Which references may be in a buffer: none (0), non-empty ones (1), also an empty one (2). An operation
   on a buffer of length `m` and references `r`, beside one of length `n` and references `q`; a buffer
   that is emptied forgets them.
   */
  function RefsAfter(m: nat, r: nat, n: nat, q: nat, op: Op): (nat, nat) {
    match op
    case AddReference(data) => (Max(r, if data == [] then 2 else 1), q)
    case Drain(len) => (if 0 < m <= len then 0 else r, q)
    case TakeAll => MergedRefs(m, r, n, q)
    case Give(k) =>
      if k == 0 then (r, q)
      else if k < m then (r, Max(q, r))
      else var merged := MergedRefs(n, q, m, r); (merged.1, merged.0)
    case _ => (r, q)
  }

  function Step(s: Pair, act: Act): Pair {
    if act.onFirst then Effect(s.0, s.1, act.op)
    else var r := Effect(s.1, s.0, act.op); (r.1, r.0)
  }

  function RefsStep(s: Pair, refs: (nat, nat), act: Act): (nat, nat) {
    if act.onFirst then RefsAfter(|s.0|, refs.0, |s.1|, refs.1, act.op)
    else var r := RefsAfter(|s.1|, refs.1, |s.0|, refs.0, act.op); (r.1, r.0)
  }

  function Expected(acts: seq<Act>): Pair {
    if acts == [] then ([], []) else Step(Expected(acts[..|acts| - 1]), acts[|acts| - 1])
  }

  /** The references a run has left in the two buffers. */
  function Refs(acts: seq<Act>): (nat, nat) {
    if acts == [] then (0, 0)
    else
      var before := acts[..|acts| - 1];
      RefsStep(Expected(before), Refs(before), acts[|acts| - 1])
  }

  /**
   What a caller keeps to: no unchecked growth beyond a `size_t`, at least two chains for a fast expansion,
   and on a buffer with references no empty prepend, nor, with an empty one, a prepend while it has no bytes.
   */
  predicate Fits(x: seq<byte>, y: seq<byte>, refs: nat, op: Op) {
    match op
    case AddReference(data) => |x| + |data| <= EV_SIZE_MAX
    case Prepend(data) => (refs > 0 ==> data != []) && (refs > 1 ==> x != [])
    case TakeAll => |x| + |y| <= EV_SIZE_MAX
    case Give(n) => |y| + (if n < |x| then n else |x|) <= EV_SIZE_MAX
    case ExpandFast(_, n) => n >= 2
    case _ => true
  }

  predicate Usable(s: Pair, refs: (nat, nat), act: Act) {
    if act.onFirst then Fits(s.0, s.1, refs.0, act.op) else Fits(s.1, s.0, refs.1, act.op)
  }

  predicate WellUsed(acts: seq<Act>) {
    forall i :: 0 <= i < |acts| ==> Usable(Expected(acts[..i]), Refs(acts[..i]), acts[i])
  }

  ghost predicate Unfrozen(b: EvBuffer)
    reads b
  {
    b.Valid() && !b.freezeStart && !b.freezeEnd
  }

  method Perform(x: EvBuffer, y: EvBuffer, op: Op)
    requires x != y && Unfrozen(x) && Unfrozen(y)
    requires Fits(x.Contents(), y.Contents(), x.refs, op)
    modifies x, y
    ensures Unfrozen(x) && Unfrozen(y)
    ensures (x.refs, y.refs) == RefsAfter(|old(x.Contents())|, old(x.refs), |old(y.Contents())|, old(y.refs), op)
    ensures (x.Contents(), y.Contents()) == Effect(old(x.Contents()), old(y.Contents()), op)
  {
    hide Flatten, Shape, AllOk, Plain, Gained;
    match op {
      case Add(data) => var _ := x.Add(data);
      case AddReference(data) => var _ := x.AddReference(data);
      case Prepend(data) =>
        FirstChain(x.chains, x.lastWithDatap, x.refs);
        var _ := x.Prepend(data);
      case Drain(len) => var _ := x.Drain(len);
      case TakeAll =>
        var _ := EvBuffer.AddBuffer(x, y);
      case Give(n) => GiveTo(x, y, n);
      case Pullup(size) => var _ := x.Pullup(size);
      case ExpandSinglechain(datlen) => var _ := x.ExpandSinglechain(datlen);
      case ExpandFast(datlen, n) => ghost var _ := x.ExpandFast(datlen, n);
    }
  }

  method GiveTo(x: EvBuffer, y: EvBuffer, n: nat)
    requires x != y && Unfrozen(x) && Unfrozen(y) && Fits(x.Contents(), y.Contents(), x.refs, Give(n))
    modifies x, y
    ensures Unfrozen(x) && Unfrozen(y)
    ensures (x.refs, y.refs) == RefsAfter(|old(x.Contents())|, old(x.refs), |old(y.Contents())|, old(y.refs), Give(n))
    ensures (x.Contents(), y.Contents()) == Effect(old(x.Contents()), old(y.Contents()), Give(n))
  {
    hide Flatten, Shape, AllOk, Plain, Gained;
    ghost var c, d := x.Contents(), y.Contents();
    var _ := EvBuffer.RemoveBuffer(x, y, n);
    if n != 0 {
      MoveIsExact(d, c, old(x.chains), if n < |c| then n else |c|, y.Contents());
    }
    assert c[0..] == c && d + c[..0] == d && c[..|c|] == c && c[|c|..] == [];
  }

  /** With the references there can be, what the first chain of a buffer can be. */
  lemma {:induction false} FirstChain(cs: seq<Chain>, lwd: nat, refs: nat)
    requires Shape(cs, lwd) && Plain(cs, refs)
    ensures cs != [] && cs[0].immutable ==>
              refs > 0 && (cs[0].data == [] ==> refs > 1 && Flatten(cs) == [])
  {
    hide Flatten;
    if Flatten(cs) != [] {
      DataAt(cs, lwd);
    }
  }

  lemma {:induction false} NextStep(acts: seq<Act>, i: nat)
    requires WellUsed(acts) && i < |acts|
    ensures Usable(Expected(acts[..i]), Refs(acts[..i]), acts[i])
    ensures Refs(acts[..i + 1]) == RefsStep(Expected(acts[..i]), Refs(acts[..i]), acts[i])
    ensures Expected(acts[..i + 1]) == Step(Expected(acts[..i]), acts[i])
  {
    assert acts[..i + 1][..i] == acts[..i];
  }

  /** After any well used run the two chain lists hold what two plain byte strings would hold, with
      exact lengths, ends and last-data slots. */
  method Run(acts: seq<Act>) returns (a: EvBuffer, b: EvBuffer)
    requires WellUsed(acts)
    ensures fresh(a) && fresh(b) && a.Valid() && b.Valid()
    ensures (a.Contents(), b.Contents()) == Expected(acts)
  {
    hide Flatten, Shape, AllOk, Effect, RefsAfter, Fits;
    a := new EvBuffer();
    b := new EvBuffer();
    var i := 0;
    while i < |acts|
      invariant 0 <= i <= |acts| && a != b && fresh(a) && fresh(b) && Unfrozen(a) && Unfrozen(b)
      invariant (a.Contents(), b.Contents()) == Expected(acts[..i])
      invariant (a.refs, b.refs) == Refs(acts[..i])
    {
      NextStep(acts, i);
      hide Expected, Refs, Plain;
      if acts[i].onFirst {
        Perform(a, b, acts[i].op);
      } else {
        Perform(b, a, acts[i].op);
      }
      i := i + 1;
    }
    assert acts[..i] == acts;
  }
}
