// The memory of one chain: the copies of buffer.c on a fixed block of bytes, each proved to do to
// the stored bytes what the chain list takes it to do.
module ChainMemory {
  import opened Wrappers
  import opened Evbuffer

  class ChainBlock {
    const buffer: array<byte>
    var misalign: nat
    var off: nat

    ghost predicate Valid()
      reads this
    {
      misalign + off <= buffer.Length
    }

    /** The chain this block is. */
    ghost function Abs(): Chain
      requires Valid()
      reads this, buffer
    {
      Chain(buffer.Length, misalign, buffer[misalign..misalign + off], false)
    }

    constructor (size: nat)
      ensures Valid() && fresh(buffer) && Abs() == Chain(size, 0, [], false)
    {
      buffer := new byte[size](i => 0);
      misalign, off := 0, 0;
    }

    /** memcpy behind the stored bytes. */
    method Append(data: seq<byte>)
      requires Valid() && |data| <= Abs().SpaceLen()
      modifies `off, buffer
      ensures Valid() && Abs() == old(Abs()).(data := old(Abs()).data + data)
    {
      ghost var stored := Abs().data;
      CopyIn(misalign + off, data);
      off := off + |data|;
      assert buffer[misalign..misalign + off] == stored + data;
    }

    /** memcpy in front of the stored bytes. */
    method PutInFront(data: seq<byte>)
      requires Valid() && |data| <= misalign
      modifies `off, `misalign, buffer
      ensures Valid()
      ensures Abs() == old(Abs()).(misalign := old(misalign) - |data|, data := data + old(Abs()).data)
    {
      ghost var stored := Abs().data;
      CopyIn(misalign - |data|, data);
      misalign := misalign - |data|;
      off := off + |data|;
      assert buffer[misalign..misalign + off] == data + stored;
    }

    method CopyIn(at: nat, data: seq<byte>)
      requires at + |data| <= buffer.Length
      modifies buffer
      ensures buffer[at..at + |data|] == data
      ensures forall k :: 0 <= k < buffer.Length && !(at <= k < at + |data|) ==> buffer[k] == old(buffer[k])
    {
      var i := 0;
      while i < |data|
        invariant 0 <= i <= |data|
        invariant forall k :: 0 <= k < i ==> buffer[at + k] == data[k]
        invariant forall k :: 0 <= k < buffer.Length && !(at <= k < at + i) ==> buffer[k] == old(buffer[k])
      {
        buffer[at + i] := data[i];
        i := i + 1;
      }
    }

    /** evbuffer_chain_align: memmove to the start of the block, where source and target overlap. */
    method Align()
      requires Valid()
      modifies `misalign, buffer
      ensures Valid() && Abs() == old(Abs()).(misalign := 0)
    {
      var i := 0;
      while i < off
        invariant 0 <= i <= off
        invariant forall k :: 0 <= k < i ==> buffer[k] == old(buffer[misalign + k])
        invariant forall k :: i <= k < buffer.Length ==> buffer[k] == old(buffer[k])
        modifies buffer
      {
        buffer[i] := buffer[misalign + i];
        i := i + 1;
      }
      misalign := 0;
      assert buffer[0..off] == old(buffer[misalign..misalign + off]);
    }

    /** Draining moves the start of the stored bytes. */
    method Forget(n: nat)
      requires Valid() && n <= off
      modifies `misalign, `off
      ensures Valid() && Abs() == old(Abs()).Skip(n)
    {
      misalign, off := misalign + n, off - n;
    }
  }
}
