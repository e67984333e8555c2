/**
 Domain names in a DNS message: writing them with compression pointers to suffixes
 written before, and reading them back (sections 3.1 and 4.1.4 of RFC 1035).
 */
module DnsName {
  import opened Wrappers

  const DOT: byte := 46
  const MAX_LABELS: nat := 128
  const POINTER_LIMIT: nat := 0x4000

  /** A suffix that was written at position `pos` of the message. */
  datatype Entry = Entry(v: seq<byte>, pos: nat)

  datatype EncResult = Encoded(bytes: seq<byte>, table: seq<Entry>) | Failed(code: int)

  /** Where the first label of `name` ends. */
  function DotAt(name: seq<byte>): (d: nat)
    ensures d <= |name| && DOT !in name[..d] && (d < |name| ==> name[d] == DOT)
  {
    if name == [] || name[0] == DOT then 0 else 1 + DotAt(name[1..])
  }

  /** dnslabel_table_get_pos */
  function Find(table: seq<Entry>, name: seq<byte>): (p: int)
    ensures p == -1 || (0 <= p && exists i :: 0 <= i < |table| && table[i] == Entry(name, p))
  {
    if table == [] then -1 else if table[0].v == name then table[0].pos else
    var p := Find(table[1..], name);
    assert forall i :: 0 <= i < |table| - 1 ==> table[1..][i] == table[i + 1];
    p
  }

  /** The two bytes of `ref | 0xc000`. */
  function PointerTo(ref: nat): seq<byte>
  {
    [192 + ref % POINTER_LIMIT / 256, ref % 256]
  }

  function PointerTarget(hi: byte, lo: byte): nat
  {
    hi % 64 * 256 + lo
  }

  /** A pointer designates the place meant exactly when that is below 0x4000. */
  lemma {:induction false} PointerReaches(ref: nat)
    ensures PointerTarget(PointerTo(ref)[0], PointerTo(ref)[1]) == ref <==> ref < POINTER_LIMIT
  {
    assert ref % POINTER_LIMIT % 256 == ref % 256 by {
      assert ref == ref / POINTER_LIMIT * POINTER_LIMIT + ref % POINTER_LIMIT;
      assert ref / POINTER_LIMIT * POINTER_LIMIT == ref / POINTER_LIMIT * 64 * 256;
    }
  }

  /** What dnsname_to_labels writes at position `j` for the rest `name` of a name. */
  function Encode(table: seq<Entry>, compress: bool, j: nat, name: seq<byte>, bufLen: nat): (r: EncResult)
    decreases |name|
  {
    var ref := if compress then Find(table, name) else -1;
    if ref >= 0 then
      if j + 2 > bufLen then Failed(-2) else Encoded(PointerTo(ref), table)
    else
      var d := DotAt(name);
      if d > 63 then Failed(-1)
      else if j + d + 1 > bufLen then Failed(-2)
      else
        var table' := if compress && |table| < MAX_LABELS then table + [Entry(name, j)] else table;
        if d == |name| then
          Encoded([d] + name + (if d == 0 then [] else [0]), table')
        else
          var r := Encode(table', compress, j + d + 1, name[d + 1..], bufLen);
          if r.Failed? then r else Encoded([d] + name[..d] + r.bytes, r.table)
  }

  /** Every label is at most 63 bytes long. */
  ghost predicate ShortLabels(name: seq<byte>)
    decreases |name|
  {
    var d := DotAt(name);
    d <= 63 && (d < |name| ==> ShortLabels(name[d + 1..]))
  }

  ghost predicate EndsInDot(name: seq<byte>)
  {
    name == [] || name[|name| - 1] == DOT
  }

  /** No suffix of the name that starts at a label is in the table. */
  ghost predicate Unseen(table: seq<Entry>, name: seq<byte>)
    decreases |name|
  {
    var d := DotAt(name);
    Find(table, name) == -1 && (d < |name| ==> Unseen(table, name[d + 1..]))
  }

  /** Nothing of the name will be replaced by a pointer. */
  ghost predicate InFull(table: seq<Entry>, compress: bool, name: seq<byte>)
  {
    compress ==> Unseen(table, name)
  }

  /**
   A name that is written in full is written exactly when its labels are short and it fits up to, but
   not counting, its terminator. In either mode the end of what is written passes the buffer, by the
   one byte of the terminator, exactly when the name is written in full, its last label is not empty
   and ends with the buffer.
   */
  lemma {:induction false} EncodedLength(table: seq<Entry>, compress: bool, j: nat, name: seq<byte>, bufLen: nat)
    ensures var r := Encode(table, compress, j, name, bufLen);
            && (InFull(table, compress, name) ==> (r.Encoded? <==> ShortLabels(name) && j + |name| + 1 <= bufLen))
            && (InFull(table, compress, name) && r.Encoded? ==>
                  |r.bytes| == |name| + 1 + if EndsInDot(name) then 0 else 1)
            && (r.Encoded? ==> j + |r.bytes| <= bufLen + 1)
            && (r.Encoded? ==> (j + |r.bytes| == bufLen + 1 <==>
                                InFull(table, compress, name) && j + |name| + 1 == bufLen && !EndsInDot(name)))
    decreases |name|
  {
    hide DotAt, Find;
    var d := DotAt(name);
    if compress && Find(table, name) >= 0 {
    } else if d < |name| && d <= 63 && j + d + 1 <= bufLen {
      var rest := name[d + 1..];
      var table' := if compress && |table| < MAX_LABELS then table + [Entry(name, j)] else table;
      EncodedLength(table', compress, j + d + 1, rest, bufLen);
      if table' != table {
        UnseenMore(table, Entry(name, j), rest);
      }
      assert EndsInDot(name) <==> EndsInDot(rest);
    } else if d == |name| {
      assert d > 0 ==> name[d - 1] == name[..d][d - 1];
    }
  }

  /** The terminator of the name is written one byte beyond the buffer. */
  ghost predicate Overruns(table: seq<Entry>, compress: bool, j: nat, name: seq<byte>, bufLen: nat)
  {
    && |name| <= 255 && ShortLabels(name) && InFull(table, compress, name)
    && j + |name| + 1 == bufLen && !EndsInDot(name)
  }

  lemma {:induction false} OverrunsExactly(table: seq<Entry>, compress: bool, j: nat, name: seq<byte>, bufLen: nat)
    ensures var r := EncodeName(table, compress, j, name, bufLen);
            Overruns(table, compress, j, name, bufLen) <==> r.Encoded? && j + |r.bytes| > bufLen
  {
    hide Encode, InFull, ShortLabels;
    EncodedLength(table, compress, j, name, bufLen);
  }

  /** A name of one byte in a buffer of two: a length, the byte, and a third byte that is written. */
  lemma {:induction false} OverrunAtTwo(compress: bool)
    ensures EncodeName([], compress, 0, [97], 2).Encoded? && EncodeName([], compress, 0, [97], 2).bytes == [1, 97, 0]
    ensures Overruns([], compress, 0, [97], 2)
  {
    assert [1] + [97] + [0] == [1, 97, 0];
    assert DotAt([97]) == 1;
  }

  /** A longer entry is no suffix. */
  lemma {:induction false} UnseenMore(table: seq<Entry>, e: Entry, name: seq<byte>)
    requires |name| < |e.v|
    ensures Unseen(table + [e], name) <==> Unseen(table, name)
    decreases |name|
  {
    hide DotAt, Find;
    FindMore(table, e, name);
    var d := DotAt(name);
    if d < |name| {
      UnseenMore(table, e, name[d + 1..]);
    }
  }

  lemma {:induction false} FindMore(table: seq<Entry>, e: Entry, name: seq<byte>)
    requires e.v != name
    ensures Find(table + [e], name) == Find(table, name)
  {
    if table == [] {
      assert (table + [e])[1..] == [];
    } else {
      assert (table + [e])[1..] == table[1..] + [e];
      FindMore(table[1..], e, name);
    }
  }

  /** The labels of `name` before its first empty one. */
  function Visible(name: seq<byte>): (ls: seq<seq<byte>>)
    decreases |name|
  {
    var d := DotAt(name);
    if d == 0 then [] else if d == |name| then [name] else [name[..d]] + Visible(name[d + 1..])
  }

  /** No label of the name is empty. */
  ghost predicate NoEmptyLabel(name: seq<byte>)
    decreases |name|
  {
    var d := DotAt(name);
    0 < d && (d < |name| ==> NoEmptyLabel(name[d + 1..]))
  }

  /**
   From position `p`, in a run that began at `start`, the message spells the labels `ls`:
   labels in sequence, then a zero byte or a pointer to a run that began earlier.
   */
  ghost predicate Spells(m: seq<byte>, start: nat, p: nat, ls: seq<seq<byte>>)
    decreases |ls|, if p < |m| && m[p] >= 192 then 1 else 0
  {
    && p < |m|
    && if m[p] >= 192 then
         && p + 1 < |m|
         && var t := PointerTarget(m[p], m[p + 1]);
            t < start && t < |m| && m[t] < 192 && Spells(m, t, t, ls)
       else if ls == [] then
         m[p] == 0
       else
         && 0 < m[p] < 64 && p + 1 + m[p] <= |m|
         && ls[0] == m[p + 1..p + 1 + m[p]]
         && Spells(m, start, p + 1 + m[p], ls[1..])
  }

  /** Where the run at `p` ends. */
  ghost function EndOf(m: seq<byte>, p: nat, ls: seq<seq<byte>>): nat
    decreases |ls|
  {
    if p < |m| && m[p] >= 192 then p + 2
    else if ls == [] || p >= |m| then p + 1
    else EndOf(m, p + 1 + m[p], ls[1..])
  }

  /** Later bytes do not matter. */
  lemma {:induction false} SpellsExtend(m: seq<byte>, x: seq<byte>, start: nat, p: nat, ls: seq<seq<byte>>)
    requires Spells(m, start, p, ls)
    ensures Spells(m + x, start, p, ls) && EndOf(m + x, p, ls) == EndOf(m, p, ls)
    decreases |ls|, if p < |m| && m[p] >= 192 then 1 else 0
  {
    assert (m + x)[p] == m[p];
    if m[p] >= 192 {
      var t := PointerTarget(m[p], m[p + 1]);
      assert (m + x)[p + 1] == m[p + 1] && (m + x)[t] == m[t];
      SpellsExtend(m, x, t, t, ls);
    } else if ls != [] {
      assert (m + x)[p + 1..p + 1 + m[p]] == m[p + 1..p + 1 + m[p]];
      SpellsExtend(m, x, start, p + 1 + m[p], ls[1..]);
    }
  }

  lemma {:induction false} SpellsFrom(m: seq<byte>, start: nat, start': nat, p: nat, ls: seq<seq<byte>>)
    requires Spells(m, start, p, ls) && start <= start'
    ensures Spells(m, start', p, ls)
    decreases |ls|
  {
    if m[p] < 192 && ls != [] {
      SpellsFrom(m, start, start', p + 1 + m[p], ls[1..]);
    }
  }

  /** The entry designates a place where the message spells its suffix. */
  ghost predicate EntryOk(m: seq<byte>, e: Entry)
  {
    e.pos < |m| && e.pos < POINTER_LIMIT && m[e.pos] < 192 && Spells(m, e.pos, e.pos, Visible(e.v))
  }

  ghost predicate TableOk(m: seq<byte>, table: seq<Entry>)
  {
    forall i :: 0 <= i < |table| ==> EntryOk(m, table[i])
  }

  lemma {:induction false} TableExtend(m: seq<byte>, x: seq<byte>, table: seq<Entry>)
    requires TableOk(m, table)
    ensures TableOk(m + x, table)
  {
    forall i | 0 <= i < |table|
      ensures EntryOk(m + x, table[i])
    {
      var e := table[i];
      assert EntryOk(m, e);
      assert (m + x)[e.pos] == m[e.pos];
      SpellsExtend(m, x, e.pos, e.pos, Visible(e.v));
    }
  }

  /** A result that continues the message `m`: it spells the name and its new entries are sound. */
  ghost predicate Continues(m: seq<byte>, j0: nat, table: seq<Entry>, name: seq<byte>, r: EncResult)
  {
    && r.Encoded? && r.bytes != []
    && |table| <= |r.table| && r.table[..|table|] == table
    && Spells(m + r.bytes, j0, |m|, Visible(name))
    && (NoEmptyLabel(name) || name == [] ==> EndOf(m + r.bytes, |m|, Visible(name)) == |m| + |r.bytes|)
    && (forall i :: |table| <= i < |r.table| ==> |m| <= r.table[i].pos && EntryOk(m + r.bytes, r.table[i]))
  }

  /**
   The heart of the round trip. The first `n0` entries are sound in the message `m` before the
   name began at `j0`; those after belong to the name itself and are longer than what is left of it.
   */
  lemma {:induction false} EncodeSpells(m: seq<byte>, j0: nat, n0: nat, table: seq<Entry>, compress: bool,
                                        name: seq<byte>, bufLen: nat)
    requires n0 <= |table| && TableOk(m, table[..n0]) && j0 <= |m| && bufLen <= POINTER_LIMIT
    requires forall i :: 0 <= i < n0 ==> table[i].pos < j0
    requires forall i :: n0 <= i < |table| ==> |name| < |table[i].v|
    requires Encode(table, compress, |m|, name, bufLen).Encoded?
    ensures Continues(m, j0, table, name, Encode(table, compress, |m|, name, bufLen))
    decreases |name|
  {
    hide Spells, Visible, TableOk, EntryOk, EndOf, NoEmptyLabel, Continues, DotAt, Find, PointerTo;
    var ref := if compress then Find(table, name) else -1;
    var d := DotAt(name);
    var table' := if compress && |table| < MAX_LABELS then table + [Entry(name, |m|)] else table;
    if ref >= 0 {
      PointerContinues(m, j0, n0, table, name, ref);
    } else if d == |name| {
      LastContinues(m, j0, table, table', name);
    } else {
      var text, rest := [d] + name[..d], name[d + 1..];
      TableExtend(m, text, table[..n0]);
      assert table'[..n0] == table[..n0];
      assert |m + text| == |m| + d + 1;
      EncodeSpells(m + text, j0, n0, table', compress, rest, bufLen);
      var q := Encode(table', compress, |m| + d + 1, rest, bufLen);
      StepContinues(m, j0, table, table', name, q);
    }
  }

  lemma {:induction false} LastContinues(m: seq<byte>, j0: nat, table: seq<Entry>, table': seq<Entry>, name: seq<byte>)
    requires DotAt(name) == |name| <= 63 && |m| < POINTER_LIMIT
    requires table' == table || table' == table + [Entry(name, |m|)]
    ensures Continues(m, j0, table, name, Encoded([|name|] + name + (if |name| == 0 then [] else [0]), table'))
  {
    hide Spells, Visible, EndOf;
    LastSpells(m, j0, name);
    LastSpells(m, |m|, name);
  }

  lemma {:induction false} StepContinues(m: seq<byte>, j0: nat, table: seq<Entry>, table': seq<Entry>,
                                         name: seq<byte>, q: EncResult)
    requires DotAt(name) < |name| && DotAt(name) <= 63 && |m| < POINTER_LIMIT && j0 <= |m|
    requires table' == table || table' == table + [Entry(name, |m|)]
    requires var d := DotAt(name); Continues(m + ([d] + name[..d]), j0, table', name[d + 1..], q)
    ensures var d := DotAt(name); Continues(m, j0, table, name, Encoded([d] + name[..d] + q.bytes, q.table))
  {
    hide Spells, Visible, EndOf, DotAt, EntryOk, NoEmptyLabel;
    VisibleStep(name);
    var d := DotAt(name);
    var text, rest := [d] + name[..d], name[d + 1..];
    var m' := m + text + q.bytes;
    assert m' == m + (text + q.bytes);
    LabelSpells(m, j0, name, q.bytes);
    SpellsFrom(m', j0, |m|, |m + text|, Visible(rest));
    LabelSpells(m, |m|, name, q.bytes);
    NewEntry(m', |m|, name);
    StepTable(m', |m|, table, table', name, q.table);
  }

  lemma {:induction false} NewEntry(m: seq<byte>, j: nat, name: seq<byte>)
    requires j < |m| && j < POINTER_LIMIT && m[j] < 192 && Spells(m, j, j, Visible(name))
    ensures EntryOk(m, Entry(name, j))
  {
  }

  lemma {:induction false} StepTable(m: seq<byte>, j: nat, table: seq<Entry>, table': seq<Entry>,
                                     name: seq<byte>, t: seq<Entry>)
    requires table' == table || table' == table + [Entry(name, j)]
    requires |table'| <= |t| && t[..|table'|] == table'
    requires EntryOk(m, Entry(name, j))
    requires forall i :: |table'| <= i < |t| ==> j <= t[i].pos && EntryOk(m, t[i])
    ensures |table| <= |t| && t[..|table|] == table
    ensures forall i :: |table| <= i < |t| ==> j <= t[i].pos && EntryOk(m, t[i])
  {
    hide EntryOk;
    assert t[..|table|] == t[..|table'|][..|table|];
    assert |table| < |table'| ==> t[|table|] == t[..|table'|][|table|];
  }

  lemma {:induction false} PointerContinues(m: seq<byte>, j0: nat, n0: nat, table: seq<Entry>,
                                            name: seq<byte>, ref: int)
    requires n0 <= |table| && TableOk(m, table[..n0])
    requires forall i :: 0 <= i < n0 ==> table[i].pos < j0
    requires forall i :: n0 <= i < |table| ==> |name| < |table[i].v|
    requires 0 <= ref == Find(table, name)
    ensures Continues(m, j0, table, name, Encoded(PointerTo(ref), table))
  {
    hide Spells, Visible, EndOf, Find;
    PointerSpells(m, j0, n0, table, name, ref);
  }

  /** A compressed suffix: the pointer goes to an entry written before the name began. */
  lemma {:induction false} PointerSpells(m: seq<byte>, j0: nat, n0: nat, table: seq<Entry>, name: seq<byte>, ref: int)
    requires n0 <= |table| && TableOk(m, table[..n0])
    requires forall i :: 0 <= i < n0 ==> table[i].pos < j0
    requires forall i :: n0 <= i < |table| ==> |name| < |table[i].v|
    requires 0 <= ref == Find(table, name)
    ensures Spells(m + PointerTo(ref), j0, |m|, Visible(name))
    ensures EndOf(m + PointerTo(ref), |m|, Visible(name)) == |m| + 2
  {
    var i :| 0 <= i < |table| && table[i] == Entry(name, ref);
    assert table[..n0][i] == table[i];
    assert EntryOk(m, table[i]);
    PointerReaches(ref);
    var m' := m + PointerTo(ref);
    assert m'[|m|] == PointerTo(ref)[0] && m'[|m| + 1] == PointerTo(ref)[1] && m'[ref] == m[ref];
    SpellsExtend(m, PointerTo(ref), ref, ref, Visible(name));
  }

  lemma {:induction false} LastSpells(m: seq<byte>, start: nat, name: seq<byte>)
    requires DotAt(name) == |name| <= 63
    ensures var m' := m + ([|name|] + name + if name == [] then [] else [0]);
            Spells(m', start, |m|, Visible(name)) && m'[|m|] == |name| && EndOf(m', |m|, Visible(name)) == |m'|
  {
    var m' := m + ([|name|] + name + if name == [] then [] else [0]);
    if name != [] {
      var e := |m| + 1 + |name|;
      assert m'[|m| + 1..e] == name;
      assert m'[e] == 0;
      assert Visible(name)[1..] == [];
      assert Spells(m', start, e, []);
    }
  }

  lemma {:induction false} LabelSpells(m: seq<byte>, start: nat, name: seq<byte>, more: seq<byte>)
    requires DotAt(name) < |name| && DotAt(name) <= 63
    requires var d := DotAt(name); Spells(m + ([d] + name[..d]) + more, start, |m| + 1 + d, Visible(name[d + 1..]))
    ensures var d := DotAt(name);
            var m' := m + ([d] + name[..d]) + more;
            && Spells(m', start, |m|, Visible(name)) && m'[|m|] == d
            && (d > 0 ==> EndOf(m', |m|, Visible(name)) == EndOf(m', |m| + 1 + d, Visible(name[d + 1..])))
  {
    hide Spells, Visible, EndOf, DotAt;
    var d := DotAt(name);
    var m' := m + ([d] + name[..d]) + more;
    LabelAt(m, d, name[..d], more);
    SpellsLabel(m', start, |m|, d, name);
  }

  lemma {:induction false} LabelAt(m: seq<byte>, d: byte, text: seq<byte>, more: seq<byte>)
    requires |text| == d
    ensures var m' := m + ([d] + text) + more;
            m'[|m|] == d && m'[|m| + 1..|m| + 1 + d] == text
  {
  }

  lemma {:induction false} SpellsLabel(m: seq<byte>, start: nat, p: nat, d: byte, name: seq<byte>)
    requires d == DotAt(name) < |name| && d <= 63 && p + 1 + d <= |m| && m[p] == d && m[p + 1..p + 1 + d] == name[..d]
    requires Spells(m, start, p + 1 + d, Visible(name[d + 1..]))
    ensures Spells(m, start, p, Visible(name))
    ensures d > 0 ==> EndOf(m, p, Visible(name)) == EndOf(m, p + 1 + d, Visible(name[d + 1..]))
  {
    if d > 0 {
      assert Visible(name) == [name[..d]] + Visible(name[d + 1..]);
      assert Visible(name)[1..] == Visible(name[d + 1..]);
    }
  }

  /**
   name_parse from position `j`, with `out` already read and `jumps` pointers followed: the name
   and the position behind its run, if the bytes are well formed and the name fits into `cap`.
   */
  function Parse(m: seq<byte>, j: nat, out: seq<byte>, jumps: nat, cap: nat): (r: Option<(seq<byte>, nat)>)
    requires jumps <= |m|
    decreases |m| - jumps, |m| - j
  {
    if j >= |m| then None
    else
      var len := m[j];
      if len == 0 then
        if |out| >= cap then None else Some((out, j + 1))
      else if len >= 64 then
        if j + 1 >= |m| then None
        else
          var t := PointerTarget(len, m[j + 1]);
          if t >= |m| || jumps + 1 > |m| then None
          else
            var r := Parse(m, t, out, jumps + 1, cap);
            if r.None? then None else Some((r.value.0, j + 2))
      else if out != [] && |out| + 1 >= cap then None
      else
        var out' := if out == [] then [] else out + [DOT];
        if |out'| + len >= cap || j + 1 + len > |m| then None
        else Parse(m, j + 1 + len, out' + m[j + 1..j + 1 + len], jumps, cap)
  }

  /** Labels joined by dots behind `out`. */
  ghost function Dotted(out: seq<byte>, ls: seq<seq<byte>>): seq<byte>
    decreases |ls|
  {
    if ls == [] then out else Dotted((if out == [] then [] else out + [DOT]) + ls[0], ls[1..])
  }

  lemma {:induction false} DottedGrows(out: seq<byte>, ls: seq<seq<byte>>)
    ensures |out| <= |Dotted(out, ls)|
    decreases |ls|
  {
    if ls != [] {
      DottedGrows((if out == [] then [] else out + [DOT]) + ls[0], ls[1..]);
    }
  }

  /** The parser reads what a message spells: pointers lead ever further back, so there are enough jumps left. */
  lemma {:induction false} ParseSpelled(m: seq<byte>, start: nat, p: nat, ls: seq<seq<byte>>, out: seq<byte>,
                                        jumps: nat, cap: nat)
    requires Spells(m, start, p, ls) && start + jumps <= |m| && |Dotted(out, ls)| < cap
    ensures Parse(m, p, out, jumps, cap) == Some((Dotted(out, ls), EndOf(m, p, ls)))
    decreases |ls|, if p < |m| && m[p] >= 192 then 1 else 0
  {
    if m[p] >= 192 {
      var t := PointerTarget(m[p], m[p + 1]);
      ParseSpelled(m, t, t, ls, out, jumps + 1, cap);
    } else if ls != [] {
      var out' := (if out == [] then [] else out + [DOT]) + ls[0];
      DottedGrows(out', ls[1..]);
      ParseSpelled(m, start, p + 1 + m[p], ls[1..], out', jumps, cap);
    }
  }

  /** What is read back: the name up to its first empty label. */
  ghost function Clipped(name: seq<byte>): seq<byte>
  {
    Dotted([], Visible(name))
  }

  lemma {:induction false} DottedVisible(out: seq<byte>, name: seq<byte>)
    ensures NoEmptyLabel(name) ==> Dotted(out, Visible(name)) == if out == [] then name else out + [DOT] + name
    ensures !NoEmptyLabel(name) ==> |Dotted(out, Visible(name))| < |out| + 1 + |name|
    ensures !NoEmptyLabel(name) && out == [] && name != [] ==> |Dotted(out, Visible(name))| < |name|
    decreases |name|
  {
    hide DotAt, Visible, NoEmptyLabel, Dotted;
    var d := DotAt(name);
    VisibleStep(name);
    if d == |name| || d == 0 {
      DottedEnds(out, name);
    } else {
      var rest := name[d + 1..];
      var out' := (if out == [] then [] else out + [DOT]) + name[..d];
      DottedStep(out, name[..d], Visible(rest));
      DottedVisible(out', rest);
      assert name == name[..d] + [DOT] + rest;
      if out != [] {
        assert out' + [DOT] + rest == out + [DOT] + (name[..d] + [DOT] + rest);
      }
    }
  }

  lemma {:induction false} VisibleStep(name: seq<byte>)
    ensures var d := DotAt(name);
            if d == 0 then Visible(name) == [] && !NoEmptyLabel(name)
            else if d == |name| then Visible(name) == [name] && NoEmptyLabel(name)
            else Visible(name) == [name[..d]] + Visible(name[d + 1..]) &&
                 (NoEmptyLabel(name) <==> NoEmptyLabel(name[d + 1..]))
  {
    hide DotAt;
  }

  lemma {:induction false} DottedStep(out: seq<byte>, x: seq<byte>, ls: seq<seq<byte>>)
    ensures Dotted(out, [x] + ls) == Dotted((if out == [] then [] else out + [DOT]) + x, ls)
  {
    assert ([x] + ls)[1..] == ls;
  }

  lemma {:induction false} DottedEnds(out: seq<byte>, x: seq<byte>)
    ensures Dotted(out, []) == out && Dotted(out, [x]) == if out == [] then x else out + [DOT] + x
  {
    assert [x][1..] == [];
  }

  /** A name is read back unchanged exactly when it has no empty label or is the empty name. */
  lemma {:induction false} ClippedIsName(name: seq<byte>)
    ensures Clipped(name) == name <==> NoEmptyLabel(name) || name == []
    ensures |Clipped(name)| <= |name|
  {
    DottedVisible([], name);
  }

  /** A message is built from names and other data. */
  datatype Item = NameItem(name: seq<byte>) | Raw(bytes: seq<byte>)

  /** dnsname_to_labels on one name. */
  function EncodeName(table: seq<Entry>, compress: bool, j: nat, name: seq<byte>, bufLen: nat): EncResult
  {
    if |name| > 255 then Failed(-2) else Encode(table, compress, j, name, bufLen)
  }

  /** The message after all items, all names sharing one table; None when one does not fit. */
  function Compose(m: seq<byte>, table: seq<Entry>, items: seq<Item>, bufLen: nat): Option<seq<byte>>
    decreases |items|
  {
    if items == [] then Some(m)
    else match items[0]
      case Raw(bytes) => Compose(m + bytes, table, items[1..], bufLen)
      case NameItem(name) =>
        var r := EncodeName(table, true, |m|, name, bufLen);
        if r.Failed? then None else Compose(m + r.bytes, r.table, items[1..], bufLen)
  }

  /** Where item `i` of such a message starts. */
  function StartOf(m: seq<byte>, table: seq<Entry>, items: seq<Item>, bufLen: nat, i: nat): nat
    requires i <= |items| && Compose(m, table, items, bufLen).Some?
    decreases |items|
  {
    if i == 0 then |m|
    else match items[0]
      case Raw(bytes) => StartOf(m + bytes, table, items[1..], bufLen, i - 1)
      case NameItem(name) =>
        var r := EncodeName(table, true, |m|, name, bufLen);
        StartOf(m + r.bytes, r.table, items[1..], bufLen, i - 1)
  }

  /** Position `at` of the message holds `name`, up to its first empty label, and ends where the next item starts. */
  ghost predicate ReadsBack(message: seq<byte>, at: nat, name: seq<byte>, next: nat)
  {
    var r := Parse(message, at, [], 0, 256);
    && r.Some? && r.value.0 == Clipped(name)
    && (NoEmptyLabel(name) || name == [] ==> r.value == (name, next))
  }

  /** Every name of a message that was composed within 0x4000 bytes is read back from where it starts. */
  lemma {:induction false} MessageRoundTrip(m: seq<byte>, table: seq<Entry>, items: seq<Item>, bufLen: nat, i: nat)
    requires TableOk(m, table) && bufLen <= POINTER_LIMIT
    requires Compose(m, table, items, bufLen).Some? && i < |items| && items[i].NameItem?
    ensures ReadsBack(Compose(m, table, items, bufLen).value, StartOf(m, table, items, bufLen, i),
                      items[i].name, StartOf(m, table, items, bufLen, i + 1))
    decreases |items|
  {
    hide Spells, Visible, EndOf, Encode, Parse, TableOk, ReadsBack;
    match items[0] {
      case Raw(bytes) =>
        TableExtend(m, bytes, table);
        MessageRoundTrip(m + bytes, table, items[1..], bufLen, i - 1);
      case NameItem(name) =>
        var r := EncodeName(table, true, |m|, name, bufLen);
        NameContinues(m, table, name, bufLen);
        if i == 0 {
          var more := ComposeExtends(m + r.bytes, r.table, items[1..], bufLen);
          NameReadsBack(m, table, name, r, more);
          assert StartOf(m, table, items, bufLen, 1) == |m + r.bytes|;
        } else {
          MessageRoundTrip(m + r.bytes, r.table, items[1..], bufLen, i - 1);
        }
    }
  }

  lemma {:induction false} NameContinues(m: seq<byte>, table: seq<Entry>, name: seq<byte>, bufLen: nat)
    requires TableOk(m, table) && bufLen <= POINTER_LIMIT && EncodeName(table, true, |m|, name, bufLen).Encoded?
    ensures var r := EncodeName(table, true, |m|, name, bufLen);
            Continues(m, |m|, table, name, r) && TableOk(m + r.bytes, r.table)
  {
    hide Spells, Visible, EndOf, Encode;
    var r := EncodeName(table, true, |m|, name, bufLen);
    assert table[..|table|] == table;
    assert forall i :: 0 <= i < |table| ==> EntryOk(m, table[i]);
    EncodeSpells(m, |m|, |table|, table, true, name, bufLen);
    TableExtend(m, r.bytes, table);
    forall i | 0 <= i < |r.table|
      ensures EntryOk(m + r.bytes, r.table[i])
    {
      assert i < |table| ==> r.table[i] == r.table[..|table|][i];
    }
  }

  lemma {:induction false} NameReadsBack(m: seq<byte>, table: seq<Entry>, name: seq<byte>, r: EncResult,
                                         more: seq<byte>)
    requires Continues(m, |m|, table, name, r) && |name| <= 255
    ensures ReadsBack(m + r.bytes + more, |m|, name, |m + r.bytes|)
  {
    hide Spells, Visible, EndOf, Parse, Dotted;
    ClippedIsName(name);
    SpellsExtend(m + r.bytes, more, |m|, |m|, Visible(name));
    ParseSpelled(m + r.bytes + more, |m|, |m|, Visible(name), [], 0, 256);
  }

  lemma {:induction false} ComposeExtends(m: seq<byte>, table: seq<Entry>, items: seq<Item>, bufLen: nat)
    returns (more: seq<byte>)
    requires Compose(m, table, items, bufLen).Some?
    ensures Compose(m, table, items, bufLen).value == m + more
    decreases |items|
  {
    hide Encode;
    if items == [] {
      more := [];
    } else {
      match items[0] {
        case Raw(bytes) =>
          var rest := ComposeExtends(m + bytes, table, items[1..], bufLen);
          more := bytes + rest;
        case NameItem(name) =>
          var r := EncodeName(table, true, |m|, name, bufLen);
          var rest := ComposeExtends(m + r.bytes, r.table, items[1..], bufLen);
          more := r.bytes + rest;
      }
    }
  }
}
