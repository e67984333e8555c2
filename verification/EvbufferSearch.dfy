/**
 Reading an evbuffer without changing it: positions, copying, searching for a
 string or an end of line across chain boundaries; and reading off one line.
 */
module EvbufferSearch {
  import opened Wrappers
  import opened Evbuffer

  const EV_SSIZE_MAX: nat := 0x7fff_ffff_ffff_ffff
  const NO_CHAIN: int := -1
  const CHUNK_SZ: nat := 128
  const LF: byte := 10
  const CR: byte := 13

  /** `struct evbuffer_ptr`; `chain` is an index, NO_CHAIN for a null pointer. */
  datatype Ptr = Ptr(pos: int, chain: int, posInChain: nat)

  /** PTR_NOT_FOUND */
  const NOT_FOUND := Ptr(-1, NO_CHAIN, 0)

  /** The pointer designates position `p.pos` of the byte string. */
  ghost predicate PtrOk(cs: seq<Chain>, p: Ptr)
  {
    if p.chain == NO_CHAIN then
      p.posInChain == 0 && p.pos == |Flatten(cs)|
    else
      && 0 <= p.chain < |cs|
      && p.posInChain <= |cs[p.chain].data|
      && p.pos == |Flatten(cs[..p.chain])| + p.posInChain
  }

  ghost predicate StartOk(cs: seq<Chain>, start: Option<Ptr>)
  {
    start.Some? ==> PtrOk(cs, start.value)
  }

  function PosOf(start: Option<Ptr>): int
  {
    if start.Some? then start.value.pos else 0
  }

  /** The bytes of chain `c` lie in the byte string where the earlier chains end. */
  lemma {:induction false} ChainBytes(cs: seq<Chain>, c: nat)
    requires c < |cs|
    ensures var at := |Flatten(cs[..c])|;
            && |Flatten(cs[..c + 1])| == at + |cs[c].data| <= |Flatten(cs)|
            && Flatten(cs)[at..at + |cs[c].data|] == cs[c].data
  {
    hide Flatten;
    FlattenAt(cs, c);
    FlattenLast(cs, c);
  }

  lemma {:induction false} ByteAt(cs: seq<Chain>, c: nat, j: nat)
    requires c < |cs| && j < |cs[c].data|
    ensures |Flatten(cs[..c])| + j < |Flatten(cs)|
    ensures Flatten(cs)[|Flatten(cs[..c])| + j] == cs[c].data[j]
  {
    hide Flatten;
    ChainBytes(cs, c);
    var at := |Flatten(cs[..c])|;
    assert Flatten(cs)[at..at + |cs[c].data|][j] == cs[c].data[j];
  }

  /** A stretch of one chain is a stretch of the byte string. */
  lemma {:induction false} SliceAt(cs: seq<Chain>, c: nat, a: nat, b: nat)
    requires c < |cs| && a <= b <= |cs[c].data|
    ensures var at := |Flatten(cs[..c])|;
            at + b <= |Flatten(cs)| && Flatten(cs)[at + a..at + b] == cs[c].data[a..b]
  {
    hide Flatten;
    ChainBytes(cs, c);
    var at := |Flatten(cs[..c])|;
    SubSlice(Flatten(cs), at, at + |cs[c].data|, a, b);
  }

  lemma {:induction false} SubSlice(s: seq<byte>, x: nat, y: nat, a: nat, b: nat)
    requires x <= y <= |s| && a <= b <= y - x
    ensures s[x..y][a..b] == s[x + a..x + b]
  {
    var t, u := s[x..y][a..b], s[x + a..x + b];
    forall i | 0 <= i < b - a
      ensures t[i] == u[i]
    {
      assert t[i] == s[x..y][a + i];
    }
  }

  lemma {:induction false} WholeList(cs: seq<Chain>)
    ensures Flatten(cs[..|cs|]) == Flatten(cs) && Flatten(cs[..0]) == []
  {
    assert cs[..|cs|] == cs;
  }

  /** memchr */
  method MemChr(d: seq<byte>, from: nat, b: byte) returns (r: int)
    requires from <= |d|
    ensures r == -1 || from <= r < |d|
    ensures r == -1 ==> b !in d[from..]
    ensures r != -1 ==> d[r] == b && b !in d[from..r]
  {
    var i := from;
    while i < |d|
      invariant from <= i <= |d| && b !in d[from..i]
    {
      if d[i] == b {
        return i;
      }
      i := i + 1;
    }
    return -1;
  }

  /** evbuffer_ptr_set with EVBUFFER_PTR_SET (`from` is None) or EVBUFFER_PTR_ADD. */
  method PtrSet(cs: seq<Chain>, from: Option<Ptr>, position: nat) returns (ok: bool, p: Ptr)
    requires AllOk(cs) && (from.Some? ==> from.value.pos < 0 || PtrOk(cs, from.value)) && position <= EV_SIZE_MAX
    ensures var refused := from.Some? && (from.value.pos < 0 || from.value.pos + position > EV_SIZE_MAX);
            && ok == (!refused && PosOf(from) + position <= |Flatten(cs)|)
            && (!ok ==> p == if refused then from.value else NOT_FOUND)
    ensures ok ==> PtrOk(cs, p) && p.pos == PosOf(from) + position
    ensures ok && p.pos < |Flatten(cs)| ==> p.chain != NO_CHAIN && p.posInChain < |cs[p.chain].data|
  {
    hide Flatten;
    var left: int, c: int, at: nat := position, 0, 0;
    if from.Some? {
      if from.value.pos < 0 || EV_SIZE_MAX - position < from.value.pos {
        return false, from.value;
      }
      c, at := if from.value.chain == NO_CHAIN then |cs| else from.value.chain, from.value.posInChain;
    }
    ghost var goal := PosOf(from) + position;
    WholeList(cs);
    assert EV_SIZE_MAX - left >= at;
    while c < |cs| && at + left >= |cs[c].data|
      invariant 0 <= c <= |cs| && (c < |cs| ==> at <= |cs[c].data|) && (c == |cs| ==> at == 0) && 0 <= left
      invariant goal == |Flatten(cs[..c])| + at + left
      decreases |cs| - c
    {
      ChainBytes(cs, c);
      left := left - (|cs[c].data| - at);
      c, at := c + 1, 0;
    }
    var pos := PosOf(from) + position;
    if c < |cs| {
      ChainBytes(cs, c);
      return true, Ptr(pos, c, at + left);
    } else if left == 0 {
      return true, Ptr(pos, NO_CHAIN, 0);
    } else {
      return false, NOT_FOUND;
    }
  }

  /** evbuffer_ptr_subtract */
  method PtrSubtract(cs: seq<Chain>, p: Ptr, howfar: nat) returns (ok: bool, r: Ptr)
    requires AllOk(cs) && (p.pos < 0 || PtrOk(cs, p)) && p.pos <= EV_SIZE_MAX
    ensures ok == (0 <= p.pos && howfar <= p.pos) && (!ok ==> r == p)
    ensures ok ==> PtrOk(cs, r) && r.pos == p.pos - howfar
    ensures ok && r.pos < |Flatten(cs)| &&
            (0 < howfar || (p.chain != NO_CHAIN && p.posInChain < |cs[p.chain].data|)) ==>
              r.chain != NO_CHAIN && r.posInChain < |cs[r.chain].data|
  {
    if p.pos < 0 {
      return false, p;
    }
    if howfar > p.pos {
      return false, p;
    }
    if p.chain != NO_CHAIN && howfar <= p.posInChain {
      return true, p.(pos := p.pos - howfar, posInChain := p.posInChain - howfar);
    }
    PosBound(cs, p);
    ok, r := PtrSet(cs, None, p.pos - howfar);
  }

  lemma {:induction false} PosBound(cs: seq<Chain>, p: Ptr)
    requires PtrOk(cs, p)
    ensures 0 <= p.pos <= |Flatten(cs)|
  {
    if p.chain != NO_CHAIN {
      SliceAt(cs, p.chain, p.posInChain, p.posInChain);
    }
  }

  ghost predicate OccursAt(s: seq<byte>, what: seq<byte>, i: int)
  {
    0 <= i && i + |what| <= |s| && s[i..i + |what|] == what
  }

  /** The first `n` bytes of `mem` occur at `pos`. */
  ghost predicate Agrees(s: seq<byte>, mem: seq<byte>, pos: int, n: nat)
  {
    0 <= pos && pos + n <= |s| && n <= |mem| && s[pos..pos + n] == mem[..n]
  }

  /** Comparing a longer prefix is comparing the shorter one and the stretch in between. */
  lemma {:induction false} AgreesMore(s: seq<byte>, mem: seq<byte>, pos: nat, n: nat, more: nat)
    requires pos + |mem| <= |s| && n + more <= |mem| && Agrees(s, mem, pos, n)
    ensures Agrees(s, mem, pos, n + more) <==> s[pos + n..pos + n + more] == mem[n..n + more]
  {
    assert s[pos..pos + (n + more)] == s[pos..pos + n] + s[pos + n..pos + n + more];
    assert mem[..n + more] == mem[..n] + mem[n..n + more];
    assert s[pos..pos + (n + more)][n..] == s[pos + n..pos + n + more];
    assert mem[..n + more][n..] == mem[n..n + more];
  }

  lemma {:induction false} AgreesAll(s: seq<byte>, mem: seq<byte>, pos: int, n: nat)
    requires n <= |mem|
    ensures OccursAt(s, mem, pos) ==> Agrees(s, mem, pos, n)
    ensures OccursAt(s, mem, pos) <==> Agrees(s, mem, pos, |mem|)
    ensures 0 <= pos <= |s| ==> Agrees(s, mem, pos, 0)
  {
    assert mem[..|mem|] == mem;
    if OccursAt(s, mem, pos) {
      assert s[pos..pos + n] == s[pos..pos + |mem|][..n];
    }
  }

  /** evbuffer_ptr_memcmp, as a test for equality. */
  method PtrMatches(cs: seq<Chain>, total: nat, p: Ptr, mem: seq<byte>) returns (eq: bool)
    requires AllOk(cs) && PtrOk(cs, p) && total == |Flatten(cs)|
    ensures eq == OccursAt(Flatten(cs), mem, p.pos)
  {
    hide Flatten, Agrees;
    ghost var s := Flatten(cs);
    PosBound(cs, p);
    if p.pos + |mem| > total {
      return false;
    }
    var c, at: nat, done := if p.chain == NO_CHAIN then |cs| else p.chain, p.posInChain, 0;
    WholeList(cs);
    AgreesAll(s, mem, p.pos, 0);
    while done < |mem| && c < |cs|
      invariant 0 <= done <= |mem| && 0 <= c <= |cs| && (c < |cs| ==> at <= |cs[c].data|)
      invariant done < |mem| ==> p.pos + done == |Flatten(cs[..c])| + if c < |cs| then at else 0
      invariant Agrees(s, mem, p.pos, done)
      decreases |cs| - c
    {
      var n := if |mem| - done + at > |cs[c].data| then |cs[c].data| - at else |mem| - done;
      SliceAt(cs, c, at, at + n);
      ChainBytes(cs, c);
      AgreesMore(s, mem, p.pos, done, n);
      AgreesAll(s, mem, p.pos, done + n);
      if cs[c].data[at..at + n] != mem[done..done + n] {
        return false;
      }
      done, c, at := done + n, c + 1, 0;
    }
    AgreesAll(s, mem, p.pos, done);
    return true;
  }

  /** No byte string `what` starts in `s` from `lo` up to `hi`. */
  ghost predicate NoneIn(s: seq<byte>, what: seq<byte>, lo: int, hi: int)
  {
    forall i :: lo <= i < hi ==> !OccursAt(s, what, i)
  }

  /** A stretch of a chain without the first byte of `what` holds no start of it. */
  lemma {:induction false} NoFirstByte(cs: seq<Chain>, c: nat, a: nat, b: nat, what: seq<byte>)
    requires c < |cs| && a <= b <= |cs[c].data| && what != [] && what[0] !in cs[c].data[a..b]
    ensures NoneIn(Flatten(cs), what, |Flatten(cs[..c])| + a, |Flatten(cs[..c])| + b)
  {
    hide Flatten;
    var s, at := Flatten(cs), |Flatten(cs[..c])|;
    forall i | at + a <= i < at + b
      ensures !OccursAt(s, what, i)
    {
      ByteAt(cs, c, i - at);
      assert cs[c].data[i - at] == cs[c].data[a..b][i - at - a];
      if OccursAt(s, what, i) {
        FirstByte(s, what, i);
        assert false;
      }
    }
  }

  lemma {:induction false} FirstByte(s: seq<byte>, what: seq<byte>, i: int)
    requires OccursAt(s, what, i) && what != []
    ensures 0 <= i < |s| && s[i] == what[0]
  {
    assert s[i..i + |what|][0] == s[i];
  }

  /** What a search from `lo` within `hi` promises of its result. */
  ghost predicate FirstFound(s: seq<byte>, what: seq<byte>, lo: int, hi: int, r: int)
  {
    if r == -1 then
      forall i :: lo <= i && i + |what| <= hi ==> !OccursAt(s, what, i)
    else
      lo <= r && r + |what| <= hi && OccursAt(s, what, r) && NoneIn(s, what, lo, r)
  }

  /** evbuffer_search_range: the first place of `what` at or after `start` and within `end`. */
  method SearchRange(cs: seq<Chain>, total: nat, what: seq<byte>, start: Option<Ptr>, end: Option<Ptr>) returns (r: Ptr)
    requires AllOk(cs) && StartOk(cs, start) && StartOk(cs, end) && total == |Flatten(cs)|
    ensures 0 < |what| <= EV_SSIZE_MAX ==>
              FirstFound(Flatten(cs), what, PosOf(start), if end.Some? then end.value.pos else total, r.pos)
              && (if r.pos == -1 then r == NOT_FOUND else r.chain != NO_CHAIN && PtrOk(cs, r))
    ensures !(0 < |what| <= EV_SSIZE_MAX) ==> r.pos == PosOf(start)
  {
    hide Flatten, OccursAt, NoneIn, FirstFound, Place;
    var c, at: nat, pos := 0, 0, PosOf(start);
    if start.Some? {
      c, at := if start.value.chain == NO_CHAIN then |cs| else start.value.chain, start.value.posInChain;
    }
    if |what| == 0 || |what| > EV_SSIZE_MAX {
      return Ptr(pos, if c < |cs| then c else NO_CHAIN, at);
    }
    var lastChain := if end.Some? then end.value.chain else NO_CHAIN;
    ghost var s, lo, hi := Flatten(cs), PosOf(start), if end.Some? then end.value.pos else total;
    StartPlace(cs, start);
    NoneYet(s, what, lo);
    while c < |cs|
      invariant 0 <= c <= |cs| && Place(cs, c, at, pos)
      invariant lo <= pos && NoneIn(s, what, lo, pos)
      decreases |cs| - c, if c < |cs| then |cs[c].data| - at else 0
    {
      PlaceBounds(cs, c, at, pos);
      var p := MemChr(cs[c].data, at, what[0]);
      if p != -1 {
        NoFirstByte(cs, c, at, p, what);
        NoneJoined(s, what, lo, pos, pos + (p - at));
        PlaceForward(cs, c, at, pos, p);
        pos, at := pos + (p - at), p;
        PlaceBounds(cs, c, at, pos);
        var here := PtrMatches(cs, total, Ptr(pos, c, at), what);
        if here {
          if end.Some? && pos + |what| > end.value.pos {
            NotWithin(s, what, lo, pos, hi);
            return NOT_FOUND;
          }
          Found(s, what, lo, pos, hi);
          return Ptr(pos, c, at);
        }
        NoneMore(s, what, lo, pos);
        PlaceForward(cs, c, at, pos, at + 1);
        pos, at := pos + 1, at + 1;
        if at == |cs[c].data| {
          PlaceNext(cs, c, at, pos);
          c, at := c + 1, 0;
        }
      } else {
        ghost var n := |cs[c].data|;
        assert cs[c].data[at..] == cs[c].data[at..n];
        NoFirstByte(cs, c, at, n, what);
        NoneJoined(s, what, lo, pos, pos + (n - at));
        if c == lastChain {
          NotWithin(s, what, lo, pos + (n - at), hi);
          return NOT_FOUND;
        }
        PlaceForward(cs, c, at, pos, n);
        PlaceNext(cs, c, n, pos + (n - at));
        pos, c, at := pos + (|cs[c].data| - at), c + 1, 0;
      }
    }
    PlaceEnd(cs, at, pos);
    if end.Some? {
      PosBound(cs, end.value);
    }
    NotWithin(s, what, lo, pos, hi);
    return NOT_FOUND;
  }

  /** Byte `at` of chain `c` is byte `pos` of the buffer; the place behind the last chain is its end. */
  ghost predicate Place(cs: seq<Chain>, c: nat, at: nat, pos: int)
  {
    && c <= |cs| && (c < |cs| ==> at <= |cs[c].data|) && (c == |cs| ==> at == 0)
    && pos == |Flatten(cs[..c])| + at
  }

  lemma {:induction false} StartPlace(cs: seq<Chain>, start: Option<Ptr>)
    requires StartOk(cs, start)
    ensures if start.None? then Place(cs, 0, 0, 0)
            else Place(cs, if start.value.chain == NO_CHAIN then |cs| else start.value.chain, start.value.posInChain,
                       start.value.pos)
  {
    hide Flatten;
    WholeList(cs);
  }

  lemma {:induction false} PlaceBounds(cs: seq<Chain>, c: nat, at: nat, pos: int)
    requires Place(cs, c, at, pos) && c < |cs|
    ensures at <= |cs[c].data| && pos == |Flatten(cs[..c])| + at && PtrOk(cs, Ptr(pos, c, at))
    ensures pos + (|cs[c].data| - at) <= |Flatten(cs)|
  {
    hide Flatten;
    ChainBytes(cs, c);
  }

  lemma {:induction false} PlaceForward(cs: seq<Chain>, c: nat, at: nat, pos: int, p: nat)
    requires Place(cs, c, at, pos) && c < |cs| && p <= |cs[c].data|
    ensures Place(cs, c, p, pos + (p - at))
  {
    hide Flatten;
  }

  /** The end of one chain is the start of the next. */
  lemma {:induction false} PlaceNext(cs: seq<Chain>, c: nat, at: nat, pos: int)
    requires Place(cs, c, at, pos) && c < |cs| && at == |cs[c].data|
    ensures Place(cs, c + 1, 0, pos)
  {
    hide Flatten;
    ChainBytes(cs, c);
  }

  lemma {:induction false} PlaceEnd(cs: seq<Chain>, at: nat, pos: int)
    requires Place(cs, |cs|, at, pos)
    ensures at == 0 && pos == |Flatten(cs)|
  {
    hide Flatten;
    WholeList(cs);
  }

  lemma {:induction false} NoneYet(s: seq<byte>, what: seq<byte>, lo: int)
    ensures NoneIn(s, what, lo, lo)
  {
  }

  lemma {:induction false} NoneJoined(s: seq<byte>, what: seq<byte>, a: int, b: int, c: int)
    requires NoneIn(s, what, a, b) && NoneIn(s, what, b, c)
    ensures NoneIn(s, what, a, c)
  {
    hide OccursAt;
  }

  lemma {:induction false} NoneMore(s: seq<byte>, what: seq<byte>, lo: int, pos: int)
    requires NoneIn(s, what, lo, pos) && !OccursAt(s, what, pos)
    ensures NoneIn(s, what, lo, pos + 1)
  {
    hide OccursAt;
  }

  lemma {:induction false} Found(s: seq<byte>, what: seq<byte>, lo: int, pos: int, hi: int)
    requires NoneIn(s, what, lo, pos) && OccursAt(s, what, pos) && 0 <= lo <= pos
    requires pos + |what| <= hi || hi == |s|
    ensures FirstFound(s, what, lo, hi, pos)
  {
    OccursBound(s, what, pos);
  }

  /** Nothing up to `pos`, and what starts later ends beyond `hi`. */
  lemma {:induction false} NotWithin(s: seq<byte>, what: seq<byte>, lo: int, pos: int, hi: int)
    requires NoneIn(s, what, lo, pos) && hi < pos + |what|
    ensures FirstFound(s, what, lo, hi, -1)
  {
    hide OccursAt;
  }

  lemma {:induction false} OccursBound(s: seq<byte>, what: seq<byte>, i: int)
    requires OccursAt(s, what, i)
    ensures 0 <= i && i + |what| <= |s|
  {
  }

  lemma {:induction false} NoneAfter(s: seq<byte>, what: seq<byte>)
    ensures forall i :: OccursAt(s, what, i) ==> i + |what| <= |s|
  {
  }

  /** No byte of `set` lies in `s` from `lo` up to `hi`. */
  ghost predicate Lacks(s: seq<byte>, bs: set<byte>, lo: int, hi: int)
  {
    forall i :: lo <= i < hi && 0 <= i < |s| ==> s[i] !in bs
  }

  lemma {:induction false} ChainLacks(cs: seq<Chain>, c: nat, a: nat, b: nat, bs: set<byte>)
    requires c < |cs| && a <= b <= |cs[c].data|
    requires forall j :: a <= j < b ==> cs[c].data[j] !in bs
    ensures Lacks(Flatten(cs), bs, |Flatten(cs[..c])| + a, |Flatten(cs[..c])| + b)
  {
    hide Flatten;
    var s, at := Flatten(cs), |Flatten(cs[..c])|;
    forall i | at + a <= i < at + b && 0 <= i < |s|
      ensures s[i] !in bs
    {
      ByteAt(cs, c, i - at);
    }
  }

  /** find_eol_char: the first CR or LF, looked for in chunks of 128 bytes. */
  method FindEolChar(d: seq<byte>, from: nat) returns (r: int)
    requires from <= |d|
    ensures r == -1 ==> forall j :: from <= j < |d| ==> d[j] !in {CR, LF}
    ensures r != -1 ==> from <= r < |d| && d[r] in {CR, LF} && forall j :: from <= j < r ==> d[j] !in {CR, LF}
  {
    var i := from;
    while i < |d|
      invariant from <= i
      invariant forall j :: from <= j < i && j < |d| ==> d[j] !in {CR, LF}
    {
      var chunk := if i + CHUNK_SZ < |d| then CHUNK_SZ else |d| - i;
      var cr := MemChr(d[..i + chunk], i, CR);
      var lf := MemChr(d[..i + chunk], i, LF);
      ChunkBytes(d, i, i + chunk, CR, cr);
      ChunkBytes(d, i, i + chunk, LF, lf);
      if cr != -1 {
        if lf != -1 && lf < cr {
          return lf;
        }
        return cr;
      } else if lf != -1 {
        return lf;
      }
      i := i + CHUNK_SZ;
    }
    return -1;
  }

  /** A memchr over `d[i..e]`, said byte by byte. */
  lemma {:induction false} ChunkBytes(d: seq<byte>, i: nat, e: nat, b: byte, r: int)
    requires i <= e <= |d|
    requires r == -1 || i <= r < e
    requires if r == -1 then b !in d[..e][i..] else d[r] == b && b !in d[..e][i..r]
    ensures forall j :: i <= j < (if r == -1 then e else r) ==> d[j] != b
  {
    forall j | i <= j < (if r == -1 then e else r)
      ensures d[j] != b
    {
      assert r == -1 ==> d[..e][i..][j - i] == d[j];
      assert r != -1 ==> d[..e][i..r][j - i] == d[j];
    }
  }

  /** evbuffer_strchr (`eol` false) and evbuffer_find_eol_char (`eol` true): the first such byte from `it` on. */
  method FindByte(cs: seq<Chain>, it: Ptr, eol: bool, b: byte) returns (r: Ptr)
    requires AllOk(cs) && PtrOk(cs, it)
    ensures var bs := if eol then {CR, LF} else {b};
            if r.pos == -1 then
              Lacks(Flatten(cs), bs, it.pos, |Flatten(cs)|)
            else
              && PtrOk(cs, r) && r.chain != NO_CHAIN && r.posInChain < |cs[r.chain].data|
              && it.pos <= r.pos < |Flatten(cs)|
              && Flatten(cs)[r.pos] in bs && Lacks(Flatten(cs), bs, it.pos, r.pos)
    ensures -1 <= r.pos
  {
    hide Flatten;
    ghost var bs := if eol then {CR, LF} else {b};
    var c, at: nat, pos := if it.chain == NO_CHAIN then |cs| else it.chain, it.posInChain, it.pos;
    WholeList(cs);
    while c < |cs|
      invariant 0 <= c <= |cs| && (c < |cs| ==> at <= |cs[c].data|) && (c == |cs| ==> at == 0)
      invariant it.pos <= pos == |Flatten(cs[..c])| + at && Lacks(Flatten(cs), bs, it.pos, pos)
      decreases |cs| - c
    {
      var d := cs[c].data;
      var p;
      if eol {
        p := FindEolChar(d, at);
      } else {
        p := MemChr(d, at, b);
        assert d[..|d|] == d;
        ChunkBytes(d, at, |d|, b, p);
      }
      ChainBytes(cs, c);
      if p != -1 {
        ByteAt(cs, c, p);
        ChainLacks(cs, c, at, p, bs);
        return Ptr(pos + (p - at), c, p);
      }
      ChainLacks(cs, c, at, |d|, bs);
      pos, c, at := pos + (|d| - at), c + 1, 0;
    }
    return NOT_FOUND;
  }

  /** evbuffer_strspn with "\\r\\n": the length of the run of CR and LF at `p`. */
  method SpanEol(cs: seq<Chain>, p: Ptr) returns (n: nat)
    requires AllOk(cs) && PtrOk(cs, p) && p.chain != NO_CHAIN
    ensures p.pos + n <= |Flatten(cs)|
    ensures forall i :: p.pos <= i < p.pos + n ==> Flatten(cs)[i] in {CR, LF}
    ensures p.pos + n < |Flatten(cs)| ==> Flatten(cs)[p.pos + n] !in {CR, LF}
  {
    hide Flatten;
    n := 0;
    PosBound(cs, p);
    var c, i := p.chain, p.posInChain;
    ghost var s := Flatten(cs);
    WholeList(cs);
    while c < |cs|
      invariant 0 <= c <= |cs| && (c < |cs| ==> 0 <= i <= |cs[c].data|) && (c == |cs| ==> i == 0)
      invariant p.pos + n == |Flatten(cs[..c])| + i <= |s|
      invariant forall j :: p.pos <= j < p.pos + n ==> s[j] in {CR, LF}
      decreases |cs| - c, if c < |cs| then |cs[c].data| - i else 0
    {
      ChainBytes(cs, c);
      if i < |cs[c].data| {
        ByteAt(cs, c, i);
        if cs[c].data[i] != CR && cs[c].data[i] != LF {
          return;
        }
        n, i := n + 1, i + 1;
      } else {
        c, i := c + 1, 0;
      }
    }
  }

  datatype EolStyle = EolAny | EolCrlf | EolCrlfStrict | EolLf | EolNul

  /** A line that starts at `lo` ends at `p`, and `n` bytes of terminator follow. */
  ghost predicate LineEnd(style: EolStyle, s: seq<byte>, lo: int, p: int, n: nat)
  {
    && 0 <= lo <= p && 0 < n && p + n <= |s|
    && match style {
         case EolAny =>
           && Lacks(s, {CR, LF}, lo, p)
           && (forall i :: p <= i < p + n ==> s[i] in {CR, LF})
           && (p + n < |s| ==> s[p + n] !in {CR, LF})
         case EolCrlfStrict =>
           n == 2 && OccursAt(s, [CR, LF], p) && NoneIn(s, [CR, LF], lo, p)
         case EolCrlf =>
           && Lacks(s, {LF}, lo, p + n - 1) && s[p + n - 1] == LF
           && (if n == 1 then p == lo || s[p - 1] != CR else n == 2 && s[p] == CR)
         case EolLf =>
           n == 1 && s[p] == LF && Lacks(s, {LF}, lo, p)
         case EolNul =>
           n == 1 && s[p] == 0 && Lacks(s, {0}, lo, p)
       }
  }

  ghost predicate NoLineEnd(style: EolStyle, s: seq<byte>, lo: int)
  {
    match style
    case EolAny => Lacks(s, {CR, LF}, lo, |s|)
    case EolCrlfStrict => forall i :: lo <= i ==> !OccursAt(s, [CR, LF], i)
    case EolCrlf => Lacks(s, {LF}, lo, |s|)
    case EolLf => Lacks(s, {LF}, lo, |s|)
    case EolNul => Lacks(s, {0}, lo, |s|)
  }

  /** evbuffer_search_eol */
  method SearchEol(cs: seq<Chain>, total: nat, start: Option<Ptr>, style: EolStyle) returns (it: Ptr, eolLen: nat)
    requires AllOk(cs) && StartOk(cs, start) && total == |Flatten(cs)| <= EV_SIZE_MAX
    ensures if it.pos == -1 then
              eolLen == 0 && NoLineEnd(style, Flatten(cs), PosOf(start))
            else
              PtrOk(cs, it) && LineEnd(style, Flatten(cs), PosOf(start), it.pos, eolLen)
    ensures -1 <= it.pos
  {
    hide Flatten;
    WholeList(cs);
    it := if start.Some? then start.value else Ptr(0, if cs == [] then NO_CHAIN else 0, 0);
    ghost var s, lo := Flatten(cs), PosOf(start);
    assert PtrOk(cs, it) && it.pos == lo;
    PosBound(cs, it);
    eolLen := 0;
    if start.Some? && start.value.chain == NO_CHAIN {
      NoneAfter(s, [CR, LF]);
      return NOT_FOUND, 0;
    }
    match style {
      case EolAny =>
        it := FindByte(cs, it, true, LF);
        if it.pos >= 0 {
          eolLen := SpanEol(cs, it);
        }
      case EolCrlfStrict =>
        NoneAfter(s, [CR, LF]);
        it := SearchRange(cs, total, [CR, LF], start, None);
        eolLen := if it.pos < 0 then 0 else 2;
      case EolCrlf =>
        it := FindByte(cs, it, false, LF);
        if it.pos >= 0 {
          eolLen := 1;
          if it.pos != PosOf(start) {
            var ok, it2 := PtrSubtract(cs, it, 1);
            if ok {
              var ch := GetChr(cs, it2);
              if ch == CR {
                it, eolLen := it2, 2;
              }
            }
          }
        }
      case EolLf =>
        it := FindByte(cs, it, false, LF);
        eolLen := if it.pos < 0 then 0 else 1;
      case EolNul =>
        it := FindByte(cs, it, false, 0);
        eolLen := if it.pos < 0 then 0 else 1;
    }
  }

  /** evbuffer_getchr */
  method GetChr(cs: seq<Chain>, p: Ptr) returns (b: byte)
    requires PtrOk(cs, p) && p.chain != NO_CHAIN && p.posInChain < |cs[p.chain].data|
    ensures 0 <= p.pos < |Flatten(cs)| && b == Flatten(cs)[p.pos]
  {
    ByteAt(cs, p.chain, p.posInChain);
    b := cs[p.chain].data[p.posInChain];
  }

  /** evbuffer_copyout_from */
  method CopyoutFrom(b: EvBuffer, pos: Option<Ptr>, datlen: nat) returns (result: int, data: seq<byte>)
    requires b.Valid() && StartOk(b.chains, pos)
    ensures var n := if datlen < b.totalLen - PosOf(pos) then datlen else b.totalLen - PosOf(pos);
            if pos.Some? && datlen > EV_SSIZE_MAX - PosOf(pos) then result == -1
            else if n == 0 then result == 0
            else if b.freezeStart then result == -1
            else
              && result == n && 0 <= PosOf(pos) <= PosOf(pos) + n <= |b.Contents()|
              && data == b.Contents()[PosOf(pos)..PosOf(pos) + n]
    ensures result <= 0 ==> data == []
  {
    hide Flatten;
    var cs := b.chains;
    var c, at: nat, want: int := 0, 0, datlen;
    if pos.Some? {
      PosBound(cs, pos.value);
      if datlen > EV_SSIZE_MAX - pos.value.pos {
        return -1, [];
      }
      c, at := if pos.value.chain == NO_CHAIN then |cs| else pos.value.chain, pos.value.posInChain;
    }
    if want > b.totalLen - PosOf(pos) {
      want := b.totalLen - PosOf(pos);
    }
    if want == 0 {
      return 0, [];
    }
    if b.freezeStart {
      return -1, [];
    }
    WholeList(cs);
    data := CopyChains(cs, c, at, want);
    result := want;
  }

  /** The copying loop of evbuffer_copyout_from. */
  method CopyChains(cs: seq<Chain>, chain: nat, posInChain: nat, want: nat) returns (data: seq<byte>)
    requires chain <= |cs| && (chain < |cs| ==> posInChain <= |cs[chain].data|) && (chain == |cs| ==> posInChain == 0)
    requires |Flatten(cs[..chain])| + posInChain + want <= |Flatten(cs)|
    ensures var from := |Flatten(cs[..chain])| + posInChain;
            data == Flatten(cs)[from..from + want]
  {
    hide Flatten, Place;
    ghost var s, from := Flatten(cs), |Flatten(cs[..chain])| + posInChain;
    var c, at: nat, left := chain, posInChain, want;
    data := [];
    StartCopy(cs, chain, posInChain);
    InChains(cs, c, at, from, left);
    while left != 0 && left >= |cs[c].data| - at
      invariant 0 <= left && c <= |cs| && Place(cs, c, at, from + |data|)
      invariant left != 0 ==> c < |cs| && at <= |cs[c].data|
      invariant |data| + left == want && data == s[from..from + |data|]
      decreases |cs| - c
    {
      ghost var pos := from + |data|;
      var n := |cs[c].data|;
      PlaceBounds(cs, c, at, pos);
      SliceAt(cs, c, at, n);
      Slices(s, from, pos, pos + (n - at));
      PlaceForward(cs, c, at, pos, n);
      PlaceNext(cs, c, n, pos + (n - at));
      assert cs[c].data[at..] == cs[c].data[at..n];
      data := data + cs[c].data[at..];
      left, c, at := left - (n - at), c + 1, 0;
      InChains(cs, c, at, from + |data|, left);
    }
    if left != 0 {
      PlaceBounds(cs, c, at, from + |data|);
      SliceAt(cs, c, at, at + left);
      Slices(s, from, from + |data|, from + want);
      data := data + cs[c].data[at..at + left];
    }
  }

  lemma {:induction false} StartCopy(cs: seq<Chain>, c: nat, at: nat)
    requires c <= |cs| && (c < |cs| ==> at <= |cs[c].data|) && (c == |cs| ==> at == 0)
    ensures Place(cs, c, at, |Flatten(cs[..c])| + at)
  {
  }

  /** While bytes are wanted that the buffer has, there is a chain to take them from. */
  lemma {:induction false} InChains(cs: seq<Chain>, c: nat, at: nat, pos: int, left: nat)
    requires Place(cs, c, at, pos) && pos + left <= |Flatten(cs)|
    ensures left != 0 ==> c < |cs| && at <= |cs[c].data|
  {
    hide Flatten;
    WholeList(cs);
  }

  lemma {:induction false} Slices(s: seq<byte>, a: nat, b: nat, c: nat)
    requires a <= b <= c <= |s|
    ensures s[a..c] == s[a..b] + s[b..c]
  {
  }

  /** evbuffer_remove */
  method Remove(b: EvBuffer, datlen: nat) returns (result: int, data: seq<byte>)
    requires b.Valid()
    modifies b
    ensures b.Valid() && b.Balance() == old(b.Balance()) && b.freezeStart == old(b.freezeStart)
    ensures var n := if datlen < old(b.totalLen) then datlen else old(b.totalLen);
            if n == 0 then result == 0 && data == [] && b.Contents() == old(b.Contents())
            else if b.freezeStart then result == -1 && data == [] && b.Contents() == old(b.Contents())
            else result == CInt(n) && data == old(b.Contents())[..n] && b.Contents() == old(b.Contents())[n..]
  {
    var r;
    r, data := CopyoutFrom(b, None, datlen);
    if r > 0 {
      var ok := b.Drain(r);
      result := CInt(r);
    } else {
      result := r;
    }
  }

  /** `s` is a line, its terminator and the rest, and no terminator starts within the line. */
  ghost predicate Split(style: EolStyle, s: seq<byte>, line: seq<byte>, eol: seq<byte>, rest: seq<byte>)
  {
    s == line + eol + rest && LineEnd(style, s, 0, |line|, |eol|)
  }

  lemma {:induction false} LineParts(style: EolStyle, s: seq<byte>, p: int, n: nat)
    requires LineEnd(style, s, 0, p, n)
    ensures 0 <= p && p + n <= |s| && Split(style, s, s[..p], s[p..p + n], s[p..][n..])
    ensures !NoLineEnd(style, s, 0)
  {
    assert s[p] == s[..p + n][p];
  }

  /** The end of evbuffer_readln: the line is removed and its terminator drained. */
  method TakeLine(b: EvBuffer, n: nat, eolLen: nat) returns (text: seq<byte>)
    requires b.Valid() && !b.freezeStart && n + eolLen <= b.totalLen
    modifies b
    ensures b.Valid() && b.Balance() == old(b.Balance()) && b.freezeStart == old(b.freezeStart)
    ensures text == old(b.Contents())[..n] && b.Contents() == old(b.Contents())[n..][eolLen..]
  {
    hide Flatten, Shape, AllOk;
    ghost var s := b.Contents();
    var _, line := Remove(b, n);
    text := line;
    assert n == 0 ==> s[n..] == s && s[..n] == [];
    var _ := b.Drain(eolLen);
  }

  /** evbuffer_readln: takes one line and its terminator off the front. */
  method Readln(b: EvBuffer, style: EolStyle) returns (line: Option<seq<byte>>)
    requires b.Valid()
    modifies b
    ensures b.Valid() && b.Balance() == old(b.Balance()) && b.freezeStart == old(b.freezeStart)
    ensures line.None? <==> b.freezeStart || NoLineEnd(style, old(b.Contents()), 0)
    ensures line.None? ==> b.Contents() == old(b.Contents())
    ensures line.Some? ==> exists eol :: Split(style, old(b.Contents()), line.value, eol, b.Contents())
  {
    hide Flatten, LineEnd, NoLineEnd, Shape, AllOk, Split;
    if b.freezeStart {
      return None;
    }
    var it, eolLen := SearchEol(b.chains, b.totalLen, None, style);
    if it.pos < 0 {
      return None;
    }
    ghost var s := b.Contents();
    LineParts(style, s, it.pos, eolLen);
    var text := TakeLine(b, it.pos, eolLen);
    return Some(text);
  }
}
