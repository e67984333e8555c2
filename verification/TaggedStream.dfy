/** Tagged records written to and read from evbuffers. */
module TaggedStream {
  import opened Wrappers
  import opened Evbuffer
  import opened Tagging

  const U32: nat := 0x1_0000_0000
  const I32: nat := 0x8000_0000

  datatype Record = Record(tag: nat, payload: seq<byte>)

  ghost predicate Writable(r: Record)
  {
    r.tag < U32 && |r.payload| < U32
  }

  function EncodedLength(n: nat): seq<byte>
    requires n < U32
  {
    DigitsBound(n);
    EncodedInt(n)
  }

  function EncodedRecord(r: Record): seq<byte>
    requires Writable(r)
  {
    EncodedTag(r.tag) + EncodedLength(|r.payload|) + r.payload
  }

  datatype Header = Header(tag: nat, len: nat, size: nat)

  /** The tag and the length at the front of `s`, and the bytes they take. */
  function HeaderOf(s: seq<byte>): (h: Option<Header>)
  {
    var t := DecodedTag(s, 0);
    if t.None? then None
    else
      TagFits(s, 0);
      var n := DecodedInt(s[t.value.1..], 8);
      if n.None? then None else Some(Header(t.value.0, n.value.0, t.value.1 + n.value.1))
  }

  lemma {:induction false} TagFits(s: seq<byte>, k: nat)
    ensures DecodedTag(s, k).Some? ==> 0 < DecodedTag(s, k).value.1 <= |s| && DecodedTag(s, k).value.1 + k <= 5
    decreases |s|
  {
    if s != [] {
      TagFits(s[1..], k + 1);
    }
  }

  lemma {:induction false} HeaderFits(s: seq<byte>)
    requires HeaderOf(s).Some?
    ensures 0 < HeaderOf(s).value.size <= |s| && HeaderOf(s).value.size <= 10
  {
    TagFits(s, 0);
  }

  /** The record evtag_unmarshal takes off the front of `s`, and what it leaves. */
  function NextRecord(s: seq<byte>): Option<(Record, seq<byte>)>
  {
    var h := HeaderOf(s);
    if h.None? then None
    else
      HeaderFits(s);
      var Header(tag, len, size) := h.value;
      if |s| - size < len || len >= I32 then None
      else Some((Record(tag, s[size..size + len]), s[size + len..]))
  }

  lemma {:induction false} HeaderRoundTrip(r: Record, rest: seq<byte>)
    requires Writable(r)
    ensures var size := |EncodedTag(r.tag)| + |EncodedLength(|r.payload|)|;
            && HeaderOf(EncodedRecord(r) + rest) == Some(Header(r.tag, |r.payload|, size))
            && |EncodedRecord(r)| == size + |r.payload|
            && (EncodedRecord(r) + rest)[size..] == r.payload + rest
  {
    hide DecodedTag, EncodedTag, DecodedInt, EncodedInt;
    var t, n := EncodedTag(r.tag), EncodedLength(|r.payload|);
    var s := EncodedRecord(r) + rest;
    assert s == t + (n + (r.payload + rest));
    TagRoundTrip(r.tag, n + (r.payload + rest));
    assert s[|t|..] == n + (r.payload + rest);
    DigitsBound(|r.payload|);
    IntRoundTrip(|r.payload|, r.payload + rest, 8);
  }

  /** A marshalled record is read back exactly when its payload is shorter than 2^31 bytes. */
  lemma {:induction false} RecordRoundTrip(r: Record, rest: seq<byte>)
    requires Writable(r)
    ensures NextRecord(EncodedRecord(r) + rest) == Some((r, rest)) <==> |r.payload| < I32
  {
    hide HeaderOf, EncodedRecord;
    HeaderRoundTrip(r, rest);
    var s, size := EncodedRecord(r) + rest, |EncodedTag(r.tag)| + |EncodedLength(|r.payload|)|;
    assert s[size..size + |r.payload|] == s[size..][..|r.payload|];
    assert s[size + |r.payload|..] == s[size..][|r.payload|..];
  }

  function EncodedStream(rs: seq<Record>): seq<byte>
    requires forall i :: 0 <= i < |rs| ==> Writable(rs[i])
  {
    if rs == [] then [] else EncodedRecord(rs[0]) + EncodedStream(rs[1..])
  }

  /** Unmarshalling until nothing is left. */
  function Records(s: seq<byte>): Option<seq<Record>>
    decreases |s|
  {
    if s == [] then Some([])
    else
      var n := NextRecord(s);
      if n.None? then None
      else
        HeaderFits(s);
        var more := Records(n.value.1);
        if more.None? then None else Some([n.value.0] + more.value)
  }

  /** Every concatenation of marshalled records unmarshals to the same list. */
  lemma {:induction false} StreamRoundTrip(rs: seq<Record>)
    requires forall i :: 0 <= i < |rs| ==> Writable(rs[i]) && |rs[i].payload| < I32
    ensures Records(EncodedStream(rs)) == Some(rs)
    decreases |rs|
  {
    if rs != [] {
      RecordRoundTrip(rs[0], EncodedStream(rs[1..]));
      StreamRoundTrip(rs[1..]);
      assert EncodedTag(rs[0].tag) != [];
      assert [rs[0]] + rs[1..] == rs;
    }
  }

  /** What a buffer with bytes `s` holds after evbuffer_add, whose refusal is not looked at here. */
  function Offered(s: seq<byte>, frozen: bool, data: seq<byte>): seq<byte> {
    if !frozen && |s| + |data| <= EV_SIZE_MAX then s + data else s
  }

  /** evtag_encode_tag */
  method EncodeTag(b: EvBuffer, tag: nat) returns (bytes: nat)
    requires b.Valid() && tag < U32
    modifies b
    ensures b.Valid() && b.freezeEnd == old(b.freezeEnd) && b.freezeStart == old(b.freezeStart)
    ensures b.Contents() == Offered(old(b.Contents()), b.freezeEnd, EncodedTag(tag))
    ensures bytes == |EncodedTag(tag)| <= 5
  {
    var data, t := [], tag;
    TagRoundTrip(tag, []);
    assert EncodedTag(tag) + [] == EncodedTag(tag);
    TagFits(EncodedTag(tag), 0);
    while t >= 128
      invariant data + EncodedTag(t) == EncodedTag(tag)
    {
      data, t := data + [t % 128 + 128], t / 128;
    }
    data := data + [t];
    var _ := b.Add(data);
    bytes := |data|;
  }

  /** evtag_encode_int (`width` 5) and evtag_encode_int64 (`width` 9) */
  method EncodeInt(b: EvBuffer, number: nat, width: nat)
    requires b.Valid()
    requires (width == 5 && number < U32) || (width == 9 && number < 0x1_0000_0000_0000_0000)
    modifies b
    ensures b.Valid() && b.freezeEnd == old(b.freezeEnd) && b.freezeStart == old(b.freezeStart)
    ensures Digits(number) <= 16 && b.Contents() == Offered(old(b.Contents()), b.freezeEnd, EncodedInt(number))
  {
    DigitsBound(number);
    var data := new byte[width];
    var len := EncodeIntInternal(data, number);
    var _ := b.Add(data[..len]);
  }

  /** What evtag_marshal leaves: tag, length and payload, each unless it is refused. */
  function Marshalled(s: seq<byte>, frozen: bool, r: Record): seq<byte>
    requires Writable(r)
  {
    Offered(Offered(Offered(s, frozen, EncodedTag(r.tag)), frozen, EncodedLength(|r.payload|)), frozen, r.payload)
  }

  /** The whole record is appended if and only if the buffer is not frozen and has room for all of it. */
  lemma {:induction false} MarshalledWhole(s: seq<byte>, frozen: bool, r: Record)
    requires Writable(r) && |s| <= EV_SIZE_MAX
    ensures Marshalled(s, frozen, r) == s + EncodedRecord(r) <==> !frozen && |s| + |EncodedRecord(r)| <= EV_SIZE_MAX
  {
    hide EncodedTag, EncodedInt, Digits;
    HeaderRoundTrip(r, []);
    HeaderFits(EncodedRecord(r) + []);
    Assoc(s, EncodedTag(r.tag), EncodedLength(|r.payload|), r.payload);
  }

  /** evtag_marshal: appends one record. */
  method Marshal(b: EvBuffer, r: Record)
    requires b.Valid() && Writable(r)
    modifies b
    ensures b.Valid() && b.freezeEnd == old(b.freezeEnd) && b.freezeStart == old(b.freezeStart)
    ensures b.Contents() == Marshalled(old(b.Contents()), b.freezeEnd, r)
  {
    hide EncodedTag, EncodedInt, Digits, Flatten;
    var n := EncodeTag(b, r.tag);
    EncodeInt(b, |r.payload|, 5);
    var _ := b.Add(r.payload);
  }

  lemma {:induction false} Assoc(a: seq<byte>, b: seq<byte>, c: seq<byte>, d: seq<byte>)
    ensures a + b + c + d == a + (b + c + d)
  {
  }

  /** What a buffer with bytes `s` holds after `n` of them are drained, which a frozen start refuses. */
  function Drained(s: seq<byte>, frozen: bool, n: nat): seq<byte>
    requires n <= |s|
  {
    if frozen then s else s[n..]
  }

  /** decode_tag_internal: the tag at the front, drained if asked; -1 when there is none. */
  method DecodeTagInternal(b: EvBuffer, dodrain: bool) returns (count: int, tag: nat)
    requires b.Valid()
    modifies b
    ensures b.Valid() && b.freezeStart == old(b.freezeStart)
    ensures var t := DecodedTag(old(b.Contents()), 0);
            if t.None? then count == -1 && b.Contents() == old(b.Contents())
            else count == t.value.1 <= |old(b.Contents())| && tag == t.value.0
                 && b.Contents() == if dodrain then Drained(old(b.Contents()), b.freezeStart, count)
                                   else old(b.Contents())
  {
    ghost var s := b.Contents();
    TagFits(s, 0);
    var n := if b.totalLen < 5 then b.totalLen else 5;
    var found := b.Pullup(n);
    if !found {
      return -1, 0;
    }
    var data := b.chains[0].data[..n];
    assert data == s[..n];
    var looked;
    count, tag, looked := ReadTag(data, b.totalLen, s);
    if count != -1 && dodrain {
      var _ := b.Drain(count);
    }
  }

  /** Five bytes that each announce another, worth no more than 32 bits. */
  ghost predicate FiveAndMore(s: seq<byte>)
  {
    |s| >= 6 && s[4] % 128 <= 15 && forall i :: 0 <= i < 5 ==> s[i] >= 128
  }

  /**
   The loop of decode_tag_internal. At most five bytes have been pulled up, but the loop runs to the
   length of the buffer and reads a byte before it looks at the shift; what it finds there does not matter.
   It looks beyond the bytes pulled up if and only if there are six and the first five announce more.
   */
  method ReadTag(data: seq<byte>, len: nat, ghost s: seq<byte>) returns (count: int, tag: nat, looked: nat)
    requires len == |s| && data == s[..if |s| < 5 then |s| else 5]
    ensures var t := DecodedTag(s, 0);
            if t.None? then count == -1 else count == t.value.1 && tag == t.value.0
    ensures looked <= 6 && (looked > |data| <==> FiveAndMore(s))
  {
    hide DecodedTag, Pow128;
    var k: nat, weight: nat := 0, 1;
    tag, looked := 0, 0;
    ghost var t := DecodedTag(s, 0);
    assert s[0..] == s;
    while k < len
      invariant 0 <= k <= len && k <= 5 && looked == k
      invariant forall i :: 0 <= i < k ==> s[i] >= 128
      invariant k == 5 ==> s[4] % 128 <= 15
      invariant TagRead(t, DecodedTag(s[k..], k), tag, weight, k)
    {
      var lower: byte := *;
      if k < |data| {
        lower := data[k];
      }
      looked := looked + 1;
      if k > 4 {
        TagEnd(s, k);
        return -1, 0, looked;
      }
      TagStep(t, s, tag, weight, k);
      if k == 4 && lower % 128 > 15 {
        return -1, 0, looked;
      }
      if lower < 128 {
        return k + 1, tag + lower * weight, looked;
      }
      tag, weight, k := tag + lower % 128 * weight, 128 * weight, k + 1;
    }
    TagEnd(s, k);
    return -1, 0, looked;
  }

  /** `t` is the whole tag when `u` is the rest of it, behind `k` bytes worth `tag`. */
  ghost predicate TagRead(t: Option<(nat, nat)>, u: Option<(nat, nat)>, tag: nat, weight: nat, k: nat)
  {
    if t.None? then u.None? else u.Some? && t.value == (tag + weight * u.value.0, k + u.value.1)
  }

  lemma {:induction false} TagStep(t: Option<(nat, nat)>, s: seq<byte>, tag: nat, weight: nat, k: nat)
    requires k < |s| && k <= 4 && TagRead(t, DecodedTag(s[k..], k), tag, weight, k)
    ensures k == 4 && s[k] % 128 > 15 ==> t.None?
    ensures !(k == 4 && s[k] % 128 > 15) && s[k] < 128 ==> t == Some((tag + s[k] * weight, k + 1))
    ensures !(k == 4 && s[k] % 128 > 15) && s[k] >= 128 ==>
              TagRead(t, DecodedTag(s[k + 1..], k + 1), tag + s[k] % 128 * weight, 128 * weight, k + 1)
  {
    assert s[k..][1..] == s[k + 1..] && s[k..][0] == s[k];
    var v := DecodedTag(s[k + 1..], k + 1);
    if v.Some? {
      Distribute(weight, s[k] % 128, v.value.0);
    }
  }

  lemma {:induction false} TagEnd(s: seq<byte>, k: nat)
    requires k == |s| || (k == 5 && k <= |s|)
    ensures DecodedTag(s[k..], k).None?
  {
  }

  lemma {:induction false} Distribute(w: nat, a: nat, v: nat)
    ensures w * (a + 128 * v) == a * w + 128 * w * v
  {
  }

  /** decode_int_internal and decode_int64_internal: the integer at `offset`, without draining. */
  method DecodeIntInternal(b: EvBuffer, offset: nat, maxNibbles: nat) returns (len: int, number: nat)
    requires b.Valid() && maxNibbles <= 16
    modifies b
    ensures b.Valid() && b.freezeStart == old(b.freezeStart) && b.Contents() == old(b.Contents())
    ensures if offset >= |b.Contents()| then len == -1
            else var n := DecodedInt(b.Contents()[offset..], maxNibbles);
                 if n.None? then len == -1 else len == n.value.1 && number == n.value.0
  {
    hide Flatten, Shape, AllOk;
    ghost var s := b.Contents();
    var avail := b.totalLen - offset;
    if avail <= 0 {
      return -1, 0;
    }
    var _ := b.Pullup(offset + 1);
    var count := b.chains[0].data[offset];
    assert count == b.chains[0].data[..offset + 1][offset] == s[offset];
    var nibbles := count / 16 + 1;
    if nibbles > maxNibbles || nibbles / 2 + 1 > avail {
      return -1, 0;
    }
    len := nibbles / 2 + 1;
    var _ := b.Pullup(offset + len);
    var data := b.chains[0].data[..offset + len][offset..];
    assert data == s[offset..][..len];
    number := ReadNibbles(data, s[offset..], nibbles);
  }

  /** The loop of DECODE_INT_INTERNAL, from the last nibble to the first. */
  method ReadNibbles(data: seq<byte>, ghost s: seq<byte>, nibbles: nat) returns (number: nat)
    requires nibbles / 2 + 1 == |data| <= |s| && data == s[..|data|]
    ensures number == NibbleValue(s, 1, nibbles)
  {
    number := 0;
    var j := nibbles;
    while j > 0
      invariant 0 <= j <= nibbles && number == NibbleValue(s, j + 1, nibbles)
    {
      assert data[j / 2] == s[j / 2];
      number := number * 16 + if j % 2 == 1 then data[j / 2] % 16 else data[j / 2] / 16;
      j := j - 1;
    }
  }

  /** evtag_decode_int: the integer at the front, drained; -1 and no change when there is none. */
  method DecodeInt(b: EvBuffer) returns (ok: bool, number: nat)
    requires b.Valid()
    modifies b
    ensures b.Valid() && b.freezeStart == old(b.freezeStart)
    ensures var n := DecodedInt(old(b.Contents()), 8);
            if n.None? then !ok && b.Contents() == old(b.Contents())
            else
              && ok && number == n.value.0 && n.value.1 <= |old(b.Contents())|
              && b.Contents() == Drained(old(b.Contents()), b.freezeStart, n.value.1)
  {
    ghost var s := b.Contents();
    assert s[0..] == s;
    var res;
    res, number := DecodeIntInternal(b, 0, 8);
    if res == -1 {
      return false, 0;
    }
    var _ := b.Drain(res);
    ok := true;
  }

  /**
   What evtag_unmarshal_header reads off `s` and leaves. With a frozen start nothing is drained, and the
   length is looked for where the tag still stands.
   */
  function HeaderRead(s: seq<byte>, frozen: bool): Option<(Header, seq<byte>)>
  {
    var t := DecodedTag(s, 0);
    if t.None? then None
    else
      TagFits(s, 0);
      var s' := Drained(s, frozen, t.value.1);
      var n := DecodedInt(s', 8);
      if n.None? then None
      else Some((Header(t.value.0, n.value.0, t.value.1 + n.value.1), Drained(s', frozen, n.value.1)))
  }

  /** What is left when a tag is read and no length. */
  function TagDrained(s: seq<byte>, frozen: bool): seq<byte>
  {
    var t := DecodedTag(s, 0);
    if t.None? then s else TagFits(s, 0); Drained(s, frozen, t.value.1)
  }

  /** Unfrozen, it is the header at the front of `s`. */
  lemma {:induction false} UnfrozenHeader(s: seq<byte>)
    ensures var h, r := HeaderOf(s), HeaderRead(s, false);
            && (r.None? <==> h.None?)
            && (h.Some? ==> h.value.size <= |s| && r.value == (h.value, s[h.value.size..]))
  {
    hide DecodedTag, DecodedInt;
    if HeaderOf(s).Some? {
      TagFits(s, 0);
      HeaderFits(s);
    }
  }

  /** evtag_unmarshal_header: drains the tag and the length it can read, and returns the length as an `int`. */
  method UnmarshalHeader(b: EvBuffer) returns (len: int, tag: nat)
    requires b.Valid()
    modifies b
    ensures b.Valid() && b.freezeStart == old(b.freezeStart)
    ensures var r := HeaderRead(old(b.Contents()), b.freezeStart);
            if r.None? then len == -1 && b.Contents() == TagDrained(old(b.Contents()), b.freezeStart)
            else
              && b.Contents() == r.value.1 && tag == r.value.0.tag
              && len == if |r.value.1| < r.value.0.len then -1 else CInt(r.value.0.len)
  {
    hide DecodedTag, DecodedInt, Flatten;
    var count, ok, n;
    ghost var s := b.Contents();
    TagFits(s, 0);
    count, tag := DecodeTagInternal(b, true);
    if count == -1 {
      return -1, 0;
    }
    ok, n := DecodeInt(b);
    if !ok {
      return -1, tag;
    }
    if b.totalLen < n {
      return -1, tag;
    }
    len := CInt(n);
  }

  /** What evtag_unmarshal returns, and leaves in a source with bytes `s` and a destination with bytes `d`. */
  function Unmarshalled(s: seq<byte>, d: seq<byte>, frozenSrc: bool, frozenDst: bool): (int, seq<byte>, seq<byte>)
  {
    var r := HeaderRead(s, frozenSrc);
    if r.None? then (-1, TagDrained(s, frozenSrc), d)
    else
      var (h, rest) := r.value;
      if h.len >= I32 || |rest| < h.len || frozenDst || |d| + h.len > EV_SIZE_MAX then (-1, rest, d)
      else (h.len, Drained(rest, frozenSrc, h.len), d + rest[..h.len])
  }

  /** Neither frozen and with room, it moves the next record's payload. */
  lemma {:induction false} UnmarshalledRecord(s: seq<byte>, d: seq<byte>)
    requires |s| + |d| <= EV_SIZE_MAX
    ensures var (len, s', d'), r := Unmarshalled(s, d, false, false), NextRecord(s);
            if r.None? then len == -1 && d' == d
            else len == |r.value.0.payload| && s' == r.value.1 && d' == d + r.value.0.payload
  {
    hide HeaderOf, HeaderRead, TagDrained;
    UnfrozenHeader(s);
    HeaderLen(s, false);
    var h := HeaderOf(s);
    if h.Some? && h.value.size + h.value.len <= |s| {
      TakePayload(s, h.value.size, h.value.len);
    }
  }

  /** evtag_unmarshal: moves the next payload to the end of `dst`. */
  method Unmarshal(src: EvBuffer, dst: EvBuffer) returns (len: int, tag: nat)
    requires src.Valid() && dst.Valid() && src != dst
    modifies src, dst
    ensures src.Valid() && dst.Valid() && src.freezeStart == old(src.freezeStart) && dst.freezeEnd == old(dst.freezeEnd)
    ensures (len, src.Contents(), dst.Contents()) ==
            Unmarshalled(old(src.Contents()), old(dst.Contents()), src.freezeStart, dst.freezeEnd)
    ensures len >= 0 ==> DecodedTag(old(src.Contents()), 0).Some? && tag == DecodedTag(old(src.Contents()), 0).value.0
  {
    hide DecodedTag, DecodedInt, Flatten, TagDrained, Shape, AllOk, Plain;
    HeaderLen(src.Contents(), src.freezeStart);
    len, tag := UnmarshalHeader(src);
    if len < 0 {
      return -1, tag;
    }
    var ok := CopyPayload(src, dst, len);
    if !ok {
      len := -1;
    }
  }

  /** The end of evtag_unmarshal: pull up, copy, drain. */
  method CopyPayload(src: EvBuffer, dst: EvBuffer, len: nat) returns (ok: bool)
    requires src.Valid() && dst.Valid() && src != dst && len <= src.totalLen
    modifies src, dst
    ensures src.Valid() && dst.Valid() && src.freezeStart == old(src.freezeStart) && dst.freezeEnd == old(dst.freezeEnd)
    ensures ok == (!dst.freezeEnd && |old(dst.Contents())| + len <= EV_SIZE_MAX)
    ensures dst.Contents() == Offered(old(dst.Contents()), dst.freezeEnd, old(src.Contents())[..len])
    ensures src.Contents() == if ok then Drained(old(src.Contents()), src.freezeStart, len) else old(src.Contents())
  {
    hide Flatten;
    ghost var s := src.Contents();
    var found := src.Pullup(len);
    var data := if found then src.chains[0].data[..len] else [];
    assert data == s[..len];
    ok := dst.Add(data);
    if ok {
      assert len == 0 ==> s[len..] == s;
      var _ := src.Drain(len);
    }
  }

  lemma {:induction false} TakePayload(s: seq<byte>, size: nat, len: nat)
    requires size + len <= |s|
    ensures s[size..][..len] == s[size..size + len] && s[size..][len..] == s[size + len..]
  {
  }

  // ---- whole streams through buffers

  lemma {:induction false} StreamSplit(rs: seq<Record>, i: nat)
    requires i < |rs| && forall k :: 0 <= k < |rs| ==> Writable(rs[k])
    ensures EncodedStream(rs[i..]) == EncodedRecord(rs[i]) + EncodedStream(rs[i + 1..])
  {
    hide EncodedRecord;
    assert rs[i..][1..] == rs[i + 1..];
  }

  /** Marshals every record; all of them arrive if they fit together. */
  method MarshalAll(b: EvBuffer, rs: seq<Record>)
    requires b.Valid() && !b.freezeEnd && forall i :: 0 <= i < |rs| ==> Writable(rs[i])
    modifies b
    ensures b.Valid() && b.freezeStart == old(b.freezeStart)
    ensures |old(b.Contents())| + |EncodedStream(rs)| <= EV_SIZE_MAX ==>
              b.Contents() == old(b.Contents()) + EncodedStream(rs)
  {
    hide EncodedRecord, EncodedStream, Marshalled, Flatten;
    ghost var all := b.Contents() + EncodedStream(rs);
    assert rs[0..] == rs;
    var i := 0;
    while i < |rs|
      invariant 0 <= i <= |rs| && b.Valid() && !b.freezeEnd && b.freezeStart == old(b.freezeStart)
      invariant |all| <= EV_SIZE_MAX ==> b.Contents() + EncodedStream(rs[i..]) == all
    {
      StreamSplit(rs, i);
      ghost var c := b.Contents();
      MarshalledWhole(c, false, rs[i]);
      Marshal(b, rs[i]);
      assert (c + EncodedRecord(rs[i])) + EncodedStream(rs[i + 1..]) == c + EncodedStream(rs[i..]);
      i := i + 1;
    }
    NoMoreRecords(rs);
  }

  lemma {:induction false} NoMoreRecords(rs: seq<Record>)
    ensures EncodedStream(rs[|rs|..]) == []
  {
  }

  /** One record, if there is one, into a buffer of its own and out of it. */
  method UnmarshalOne(b: EvBuffer) returns (r: Option<Record>)
    requires b.Valid() && !b.freezeStart
    modifies b
    ensures b.Valid() && !b.freezeStart
    ensures var next := NextRecord(old(b.Contents()));
            if next.None? then r == None else r == Some(next.value.0) && b.Contents() == next.value.1
  {
    hide Flatten, Unmarshalled, HeaderOf, NextRecord;
    UnmarshalledRecord(b.Contents(), []);
    NextTag(b.Contents());
    var dst := new EvBuffer();
    var len, tag := Unmarshal(b, dst);
    if len < 0 {
      return None;
    }
    var found := dst.Pullup(-1);
    var payload := if found then dst.chains[0].data[..dst.totalLen] else [];
    assert dst.Contents()[..dst.totalLen] == dst.Contents();
    ghost var next := NextRecord(old(b.Contents())).value.0;
    assert payload == dst.Contents() == [] + next.payload == next.payload;
    return Some(Record(tag, payload));
  }

  lemma {:induction false} NextTag(s: seq<byte>)
    ensures NextRecord(s).Some? ==>
              && DecodedTag(s, 0).Some? && NextRecord(s).value.0.tag == DecodedTag(s, 0).value.0
              && |NextRecord(s).value.1| < |s|
  {
    hide DecodedTag, DecodedInt;
    if NextRecord(s).Some? {
      HeaderFits(s);
    }
  }

  /** Unmarshals until the buffer is empty or no record is there; this computes `Records`. */
  method UnmarshalAll(b: EvBuffer) returns (out: Option<seq<Record>>)
    requires b.Valid() && !b.freezeStart
    modifies b
    ensures b.Valid() && out == Records(old(b.Contents()))
  {
    hide Flatten, NextRecord;
    var rs: seq<Record> := [];
    BeforeNone(Records(b.Contents()));
    while b.totalLen != 0
      invariant b.Valid() && !b.freezeStart
      invariant Records(old(b.Contents())) == Before(rs, Records(b.Contents()))
      decreases b.totalLen
    {
      ghost var s := b.Contents();
      NextTag(s);
      var r := UnmarshalOne(b);
      if r.None? {
        return None;
      }
      BeforeMore(rs, r.value, Records(b.Contents()));
      rs := rs + [r.value];
    }
    BeforeAll(rs);
    return Some(rs);
  }

  function Before(rs: seq<Record>, more: Option<seq<Record>>): Option<seq<Record>> {
    if more.None? then None else Some(rs + more.value)
  }

  lemma {:induction false} BeforeNone(more: Option<seq<Record>>)
    ensures Before([], more) == more
  {
    if more.Some? {
      assert [] + more.value == more.value;
    }
  }

  lemma {:induction false} BeforeAll(rs: seq<Record>)
    ensures Before(rs, Some([])) == Some(rs)
  {
    assert rs + [] == rs;
  }

  lemma {:induction false} BeforeMore(rs: seq<Record>, r: Record, more: Option<seq<Record>>)
    ensures Before(rs, Before([r], more)) == Before(rs + [r], more)
  {
    if more.Some? {
      assert rs + ([r] + more.value) == rs + [r] + more.value;
    }
  }

  /** What is marshalled into a buffer is unmarshalled from it, if it fits and no payload has 2^31 bytes. */
  method SendAndReceive(rs: seq<Record>) returns (out: Option<seq<Record>>)
    requires forall i :: 0 <= i < |rs| ==> Writable(rs[i])
    ensures |EncodedStream(rs)| <= EV_SIZE_MAX && (forall i :: 0 <= i < |rs| ==> |rs[i].payload| < I32) ==>
              out == Some(rs)
  {
    hide EncodedRecord, EncodedStream, Records, Flatten;
    var b := new EvBuffer();
    assert [] + EncodedStream(rs) == EncodedStream(rs);
    MarshalAll(b, rs);
    if forall i :: 0 <= i < |rs| ==> |rs[i].payload| < I32 {
      StreamRoundTrip(rs);
    }
    out := UnmarshalAll(b);
  }

  /** evtag_peek_length: header and payload length of the next record, as a 32-bit number. */
  method PeekLength(b: EvBuffer) returns (ok: bool, length: nat)
    requires b.Valid()
    modifies b
    ensures b.Valid() && b.freezeStart == old(b.freezeStart) && b.Contents() == old(b.Contents())
    ensures var h := HeaderOf(b.Contents());
            if h.None? then !ok else ok && length == (h.value.len + h.value.size) % U32
  {
    hide DecodedTag, DecodedInt, Flatten;
    TagFits(b.Contents(), 0);
    var len, _ := DecodeTagInternal(b, false);
    if len == -1 {
      return false, 0;
    }
    var res, n := DecodeIntInternal(b, len, 8);
    if res == -1 {
      NoInt(b.Contents(), len);
      return false, 0;
    }
    return true, (n + res + len) % U32;
  }

  lemma {:induction false} NoInt(s: seq<byte>, at: nat)
    requires at <= |s|
    ensures at == |s| ==> DecodedInt(s[at..], 8).None?
  {
  }

  /** A length handed on as a `size_t`: negative ones are huge. */
  function SizeT(len: int): nat
    requires -0x8000_0000 <= len < 0x8000_0000
  {
    if len < 0 then EV_SIZE_MAX + 1 + len else len
  }

  /** How many bytes evtag_consume drains off `s`: a negative length drains everything there can be. */
  function Consumed(s: seq<byte>): nat
    requires HeaderOf(s).Some? && HeaderOf(s).value.size + HeaderOf(s).value.len <= |s|
  {
    var h := HeaderOf(s).value;
    if h.len == U32 - 1 then h.size
    else if h.size + SizeT(CInt(h.len)) <= |s| then h.size + SizeT(CInt(h.len)) else |s|
  }

  /** evtag_consume: drops the next record. */
  method Consume(b: EvBuffer) returns (ok: bool)
    requires b.Valid()
    modifies b
    ensures b.Valid() && b.freezeStart == old(b.freezeStart)
    ensures b.freezeStart ==> b.Contents() == old(b.Contents())
    ensures !b.freezeStart ==>
              var s := old(b.Contents());
              var h := HeaderOf(s);
              if h.None? then !ok && b.Contents() == TagDrained(s, false)
              else if h.value.size + h.value.len > |s| then
                !ok && h.value.size <= |s| && b.Contents() == s[h.value.size..]
              else ok == (h.value.len != U32 - 1) && Consumed(s) <= |s| && b.Contents() == s[Consumed(s)..]
  {
    hide HeaderOf, HeaderRead, TagDrained, Flatten;
    ghost var s := b.Contents();
    UnfrozenHeader(s);
    HeaderLen(s, b.freezeStart);
    FrozenHeader(s);
    var len, _ := UnmarshalHeader(b);
    if len == -1 {
      return false;
    }
    var _ := b.Drain(SizeT(len));
    ok := true;
  }

  lemma {:induction false} FrozenHeader(s: seq<byte>)
    ensures HeaderRead(s, true).Some? ==> HeaderRead(s, true).value.1 == s
    ensures TagDrained(s, true) == s
  {
    hide DecodedTag, DecodedInt;
  }

  /** A length that is read has 32 bits. */
  lemma {:induction false} HeaderLen(s: seq<byte>, frozen: bool)
    ensures HeaderRead(s, frozen).Some? ==> HeaderRead(s, frozen).value.0.len < U32
  {
    hide DecodedTag;
    if HeaderRead(s, frozen).Some? {
      TagFits(s, 0);
      DecodedBound(Drained(s, frozen, DecodedTag(s, 0).value.1));
    }
  }

  lemma {:induction false} DecodedBound(t: seq<byte>)
    requires DecodedInt(t, 8).Some?
    ensures DecodedInt(t, 8).value.0 < U32
  {
    var m := t[0] / 16 + 1;
    NibbleBound(t, 1, m);
    assert m <= 8;
    PowMono(m, 8);
    assert Pow16(8) == U32 by {
      assert Pow16(4) == 0x1_0000;
      assert Pow16(8) == 16 * 16 * 16 * 16 * Pow16(4);
    }
  }

  lemma {:induction false} IntBound(s: seq<byte>)
    requires HeaderOf(s).Some?
    ensures HeaderOf(s).value.len < U32
  {
    hide DecodedTag;
    TagFits(s, 0);
    DecodedBound(s[DecodedTag(s, 0).value.1..]);
  }

  lemma {:induction false} PowMono(a: nat, b: nat)
    requires a <= b
    ensures Pow16(a) <= Pow16(b)
    decreases b - a
  {
    if a < b {
      PowMono(a + 1, b);
    }
  }

  lemma {:induction false} NibbleBound(s: seq<byte>, j: nat, m: nat)
    requires 0 < j <= m + 1 && m / 2 < |s|
    ensures NibbleValue(s, j, m) < Pow16(m + 1 - j)
    decreases m + 1 - j
  {
    if j <= m {
      NibbleBound(s, j + 1, m);
    }
  }

  /** evtag_peek_length tells what evtag_consume drains exactly when the length is a positive `int`, or the
      record is the rest of the buffer. */
  lemma {:induction false} PeekTellsConsumed(s: seq<byte>)
    requires HeaderOf(s).Some?
    requires var h := HeaderOf(s).value; h.size + h.len <= |s|
    ensures var h := HeaderOf(s).value;
            (h.len + h.size) % U32 == Consumed(s) <==>
            h.len < I32 || (h.len != U32 - 1 && h.len + h.size == |s| < U32)
  {
    HeaderFits(s);
    IntBound(s);
  }
}
