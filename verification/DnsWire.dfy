/** The two loops of the DNS name codec, over a buffer and a packet. */
module DnsWire {
  import opened Wrappers
  import opened DnsName

  /** dnslabel_table_get_pos */
  method GetPos(table: seq<Entry>, name: seq<byte>) returns (p: int)
    ensures p == Find(table, name)
  {
    var i := 0;
    assert table[0..] == table;
    while i < |table|
      invariant 0 <= i <= |table| && Find(table[i..], name) == Find(table, name)
    {
      assert table[i..][1..] == table[i + 1..];
      if table[i].v == name {
        return table[i].pos;
      }
      i := i + 1;
    }
    return -1;
  }

  /** strchr for the dot that ends the first label. */
  method FindDot(name: seq<byte>) returns (d: nat)
    ensures d == DotAt(name)
  {
    d := 0;
    assert name[0..] == name;
    while d < |name| && name[d] != DOT
      invariant d <= |name| && DotAt(name) == d + DotAt(name[d..])
    {
      assert name[d..][1..] == name[d + 1..];
      d := d + 1;
    }
  }

  /** The buffer starts with the message `m`; behind it nothing has changed since it was `orig`. */
  ghost predicate Holds(buf: array<byte>, orig: seq<byte>, m: seq<byte>)
    reads buf
  {
    |m| <= |orig| == buf.Length && buf[..|m|] == m && buf[|m|..] == orig[|m|..]
  }

  /** memcpy to the end of the message. */
  method Copy(buf: array<byte>, ghost orig: seq<byte>, ghost m: seq<byte>, j: nat, d: seq<byte>)
    requires Holds(buf, orig, m) && j == |m| && j + |d| <= buf.Length
    modifies buf
    ensures Holds(buf, orig, m + d)
  {
    for i := 0 to |d|
      invariant buf[..j] == m && buf[j..j + i] == d[..i]
      invariant buf[j + |d|..] == orig[j + |d|..]
    {
      buf[j + i] := d[i];
    }
    assert buf[..j + |d|] == buf[..j] + buf[j..j + |d|];
  }

  /** What is written so far, then the result for the rest, is the result for the whole. */
  ghost predicate Pending(whole: EncResult, done: seq<byte>, rest: EncResult)
  {
    whole == if rest.Failed? then rest else Encoded(done + rest.bytes, rest.table)
  }

  /** What one turn of the loop means for the result: it ends there, or goes on behind one more label. */
  lemma {:induction false} PendingStep(whole: EncResult, done: seq<byte>, table: seq<Entry>, compress: bool,
                                       j: nat, name: seq<byte>, bufLen: nat)
    requires Pending(whole, done, Encode(table, compress, j, name, bufLen))
    ensures var ref, d := if compress then Find(table, name) else -1, DotAt(name);
            var table' := if compress && |table| < MAX_LABELS then table + [Entry(name, j)] else table;
            if ref >= 0 then
              whole == if j + 2 > bufLen then Failed(-2) else Encoded(done + PointerTo(ref), table)
            else if d > 63 then whole == Failed(-1)
            else if j + d + 1 > bufLen then whole == Failed(-2)
            else if d == |name| then
              whole == Encoded(done + ([d] + name[..d] + (if d == 0 then [] else [0])), table')
            else
              Pending(whole, done + ([d] + name[..d]), Encode(table', compress, j + d + 1, name[d + 1..], bufLen))
  {
    hide DotAt, Find;
    var d := DotAt(name);
    if d <= 63 && d < |name| {
      var table' := if compress && |table| < MAX_LABELS then table + [Entry(name, j)] else table;
      var q := Encode(table', compress, j + d + 1, name[d + 1..], bufLen);
      if q.Encoded? {
        Regroup(done, [d] + name[..d], q.bytes);
      }
    } else if d <= 63 {
      assert name[..d] == name;
    }
  }

  /**
   dnsname_to_labels. The terminating zero is written without a bounds check, so where that overruns
   the buffer must have one byte more than `bufLen`.
   */
  method DnsnameToLabels(buf: array<byte>, bufLen: nat, start: nat, name: seq<byte>, compress: bool, table: seq<Entry>)
    returns (j: int, table': seq<Entry>)
    requires start <= bufLen <= buf.Length && 0 !in name
    requires bufLen == buf.Length ==> !Overruns(table, compress, start, name, bufLen)
    modifies buf
    ensures var r := EncodeName(table, compress, start, name, bufLen);
            if r.Failed? then j == r.code
            else
              && j == start + |r.bytes| <= bufLen + 1 && table' == r.table
              && Holds(buf, old(buf[..]), old(buf[..start]) + r.bytes)
  {
    hide DotAt, Find, Encode, Pending, Holds, Overruns;
    OverrunsExactly(table, compress, start, name, bufLen);
    table' := table;
    if |name| > 255 {
      return -2, table';
    }
    ghost var whole, pre, orig := Encode(table, compress, start, name, bufLen), buf[..start], buf[..];
    ghost var done: seq<byte> := [];
    var p, at := 0, start;
    assert name[0..] == name;
    PendingStart(whole);
    HoldsStart(buf, start);
    while true
      invariant 0 <= p <= |name| && at == start + |done| <= bufLen
      invariant Pending(whole, done, Encode(table', compress, at, name[p..], bufLen))
      invariant Holds(buf, orig, pre + done)
      decreases |name| - p
    {
      var rest := name[p..];
      PendingStep(whole, done, table', compress, at, rest, bufLen);
      if compress {
        var ref := GetPos(table', rest);
        if ref >= 0 {
          if at + 2 > bufLen {
            return -2, table';
          }
          Copy(buf, orig, pre + done, at, PointerTo(ref));
          Regroup(pre, done, PointerTo(ref));
          return at + 2, table';
        }
      }
      var d := FindDot(rest);
      if d > 63 {
        return -1, table';
      }
      if at + d + 1 > bufLen {
        return -2, table';
      }
      if compress && |table'| < MAX_LABELS {
        table' := table' + [Entry(rest, at)];
      }
      var piece := [d] + rest[..d];
      Copy(buf, orig, pre + done, at, piece);
      Regroup(pre, done, piece);
      if d == |rest| {
        assert rest[..d] == rest;
        j := Terminate(buf, orig, pre + done, at + d + 1, rest);
        Regroup(pre, done, piece + if rest == [] then [] else [0]);
        return;
      }
      done, at := done + piece, at + d + 1;
      assert rest[d + 1..] == name[p + d + 1..];
      p := p + d + 1;
    }
  }

  lemma {:induction false} PendingStart(r: EncResult)
    ensures Pending(r, [], r)
  {
    assert r.Encoded? ==> [] + r.bytes == r.bytes;
  }

  lemma {:induction false} Regroup(a: seq<byte>, b: seq<byte>, c: seq<byte>)
    ensures a + b + c == a + (b + c)
  {
  }

  lemma {:induction false} HoldsStart(buf: array<byte>, start: nat)
    requires start <= buf.Length
    ensures Holds(buf, buf[..], buf[..start] + [])
  {
    assert buf[..start] + [] == buf[..start];
  }

  /** The end of dnsname_to_labels: a zero byte, unless the last label was empty and left one. */
  method Terminate(buf: array<byte>, ghost orig: seq<byte>, ghost m: seq<byte>, at: nat, last: seq<byte>)
    returns (j: nat)
    requires 0 !in last && |last| < 64 && at == |m| + 1 + |last| <= buf.Length && (last != [] ==> at < buf.Length)
    requires Holds(buf, orig, m + ([|last|] + last))
    modifies buf
    ensures j == at + (if last == [] then 0 else 1)
    ensures Holds(buf, orig, m + ([|last|] + last + (if last == [] then [] else [0])))
  {
    j := at;
    ghost var m' := m + ([|last|] + last);
    assert buf[at - 1] == m'[at - 1] == ([|last|] + last)[|last|];
    if buf[at - 1] != 0 {
      Copy(buf, orig, m', at, [0]);
      j := at + 1;
    }
    Regroup(m, [|last|] + last, if last == [] then [] else [0]);
  }

  /** name_parse: follows labels and pointers until a zero byte. */
  method NameParse(packet: seq<byte>, idx: nat, cap: nat) returns (ok: bool, name: seq<byte>, end: nat)
    ensures var r := Parse(packet, idx, [], 0, cap);
            if r.None? then !ok else ok && r.value == (name, end)
  {
    var j: nat, jumps: nat, nameEnd := idx, 0, -1;
    name, end := [], idx;
    ghost var whole := Parse(packet, idx, [], 0, cap);
    while true
      invariant jumps <= |packet|
      invariant var r := Parse(packet, j, name, jumps, cap);
                if whole.None? then r.None?
                else r.Some? && whole.value == (r.value.0, if nameEnd < 0 then r.value.1 else nameEnd)
      decreases |packet| - jumps, |packet| - j
    {
      if j >= |packet| {
        return false, [], idx;
      }
      var len := packet[j];
      if len == 0 {
        break;
      }
      if len >= 64 {
        if j + 1 >= |packet| {
          return false, [], idx;
        }
        var target := PointerTarget(len, packet[j + 1]);
        if nameEnd < 0 {
          nameEnd := j + 2;
        }
        j := target;
        if j >= |packet| || jumps + 1 > |packet| {
          return false, [], idx;
        }
        jumps := jumps + 1;
      } else {
        if name != [] {
          if |name| + 1 >= cap {
            return false, [], idx;
          }
          name := name + [DOT];
        }
        if |name| + len >= cap || j + 1 + len > |packet| {
          return false, [], idx;
        }
        name, j := name + packet[j + 1..j + 1 + len], j + 1 + len;
      }
    }
    if |name| >= cap {
      return false, [], idx;
    }
    return true, name, if nameEnd < 0 then j + 1 else nameEnd;
  }

  /** On every byte string: a name that is read is shorter than the output, and its end lies within the packet. */
  lemma {:induction false} ParseBounds(m: seq<byte>, j: nat, out: seq<byte>, jumps: nat, cap: nat)
    requires jumps <= |m|
    ensures var r := Parse(m, j, out, jumps, cap);
            r.Some? ==> |r.value.0| < cap && j < r.value.1 <= |m|
    decreases |m| - jumps, |m| - j
  {
    if j < |m| && m[j] != 0 {
      if m[j] >= 64 {
        if j + 1 < |m| && jumps < |m| {
          ParseBounds(m, PointerTarget(m[j], m[j + 1]), out, jumps + 1, cap);
        }
      } else if j + 1 + m[j] <= |m| {
        ParseBounds(m, j + 1 + m[j], (if out == [] then [] else out + [DOT]) + m[j + 1..j + 1 + m[j]], jumps, cap);
      }
    }
  }
}
