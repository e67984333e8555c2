// The centralized page lock table: which node may read or write which page.
module PageLock {

  const U32 := 0x1_0000_0000
  const U64 := 0x1_0000_0000_0000_0000

  type uint32 = x: nat | x < U32
  type uint64 = x: nat | x < U64

  datatype LockType = RLock | WLock | Unlock {
    function Level(): nat {
      match this
      case RLock => 0
      case WLock => 1
      case Unlock => 2
    }
  }

  datatype ReplyType = LockSuccess | LockFail | UnlockSuccess

  datatype Request = Request(asker: string, space: uint32, page: uint32, lockType: LockType)

  datatype WaitInfor = WaitInfor(name: string, lockType: LockType)

  /** One entry of the table; the table is keyed by the fold of the page's address. */
  datatype Entry = Entry(space: uint32, page: uint32, version: uint64, lockType: LockType,
                         holders: seq<string>, waitList: seq<WaitInfor>)

  type Table = map<uint32, Entry>

  /** 32-bit arithmetic, so different pages may share a fold. */
  function Fold(space: uint32, page: uint32): (f: uint32) {
    (space * 0x10_0000 + space + page) % U32
  }

  /** Pages of one space never share an entry; pages of two spaces may. */
  lemma {:induction false} FoldTellsPagesApart(space: uint32, p: uint32, q: uint32)
    ensures Fold(space, p) == Fold(space, q) <==> p == q
    ensures Fold(0, 0x10_0001) == Fold(1, 0)
  {
    var x := space * 0x10_0000 + space;
    if p < q {
      Shifted(x + p, q - p);
    } else if q < p {
      Shifted(x + q, p - q);
    }
  }

  lemma {:induction false} Shifted(x: nat, d: nat)
    requires 0 < d < U32
    ensures x % U32 != (x + d) % U32
  {
  }

  /** The requested mode against the mode held. */
  predicate Compatible(requested: LockType, held: LockType) {
    requested == RLock && held == RLock
  }

  /** `std::list::remove`: every equal element goes. */
  function Remove(names: seq<string>, name: string): (r: seq<string>)
    ensures name !in r
  {
    if names == [] then []
    else
      var rest := Remove(names[..|names| - 1], name);
      var last := names[|names| - 1];
      if last == name then rest else rest + [last]
  }

  lemma {:induction false} RemoveAll(names: seq<string>, name: string)
    ensures Remove(names, name) == [] <==> forall i :: 0 <= i < |names| ==> names[i] == name
  {
    if names != [] {
      var n := |names| - 1;
      RemoveAll(names[..n], name);
      assert forall i :: 0 <= i < n ==> names[..n][i] == names[i];
    }
  }

  // ---- what one request does to its entry

  function Inserted(r: Request): Entry {
    Entry(r.space, r.page, 0, r.lockType, [r.asker], [])
  }

  function Released(e: Entry, asker: string): Entry {
    var left := Remove(e.holders, asker);
    if left == [] && e.waitList != [] then
      var first := e.waitList[0];
      e.(holders := [first.name], lockType := first.lockType, waitList := e.waitList[1..])
    else
      e.(holders := left, lockType := Unlock)
  }

  function Granted(e: Entry, r: Request): Entry {
    e.(version := if r.lockType == WLock then (e.version + 1) % U64 else e.version,
       lockType := r.lockType, holders := e.holders + [r.asker])
  }

  /** A refused asker is moved up where it already waits; it is not added to the wait list. */
  function Promoted(w: WaitInfor, r: Request): WaitInfor {
    if w.name == r.asker && r.lockType.Level() > w.lockType.Level() then w.(lockType := r.lockType) else w
  }

  function Refused(e: Entry, r: Request): Entry {
    e.(waitList := seq(|e.waitList|, i requires 0 <= i < |e.waitList| => Promoted(e.waitList[i], r)))
  }

  /** The answer and the new table. */
  function Answer(t: Table, r: Request): (ReplyType, Table) {
    var f := Fold(r.space, r.page);
    if f !in t then (LockSuccess, t[f := Inserted(r)])
    else if r.lockType == Unlock then (UnlockSuccess, t[f := Released(t[f], r.asker)])
    else if t[f].lockType == Unlock || Compatible(r.lockType, t[f].lockType) then
      (LockSuccess, t[f := Granted(t[f], r)])
    else (LockFail, t[f := Refused(t[f], r)])
  }

  class RemotePageLockManager {
    var pageLockHash: Table

    constructor ()
      ensures pageLockHash == map[]
    {
      pageLockHash := map[];
    }

    /** 0: no entry yet, 1: locked, 2: unlocked, -1: refused. */
    method CheckLockRequest(r: Request) returns (code: int, reply: ReplyType)
      modifies this
      ensures (reply, pageLockHash) == Answer(old(pageLockHash), r)
      ensures code == 0 <==> Fold(r.space, r.page) !in old(pageLockHash)
      ensures code == 1 ==> reply == LockSuccess
      ensures code == 2 <==> reply == UnlockSuccess
      ensures code == -1 <==> reply == LockFail
      ensures code in {-1, 0, 1, 2}
    {
      var fold := Fold(r.space, r.page);
      if fold !in pageLockHash {
        pageLockHash := pageLockHash[fold := Entry(r.space, r.page, 0, r.lockType, [r.asker], [])];
        return 0, LockSuccess;
      }
      var e := pageLockHash[fold];
      if r.lockType == Unlock {
        e := UpdateUnlock(e, r.asker);
        pageLockHash := pageLockHash[fold := e];
        return 2, UnlockSuccess;
      }
      if e.lockType == Unlock {
        e := UpdateSuccess(e, r);
        pageLockHash := pageLockHash[fold := e];
        return 1, LockSuccess;
      }
      if Compatible(r.lockType, e.lockType) {
        e := UpdateSuccess(e, r);
        pageLockHash := pageLockHash[fold := e];
        return 1, LockSuccess;
      } else {
        e := UpdateFail(e, r);
        pageLockHash := pageLockHash[fold := e];
        return -1, LockFail;
      }
    }

    static method UpdateUnlock(before: Entry, asker: string) returns (e: Entry)
      ensures e == Released(before, asker)
      ensures e.version == before.version && (before.waitList == [] ==> asker !in e.holders)
      ensures Disciplined(before) ==>
                (Disciplined(e) <==> forall i :: 0 <= i < |before.holders| ==> before.holders[i] == asker)
    {
      RemoveAll(before.holders, asker);
      e := before.(lockType := Unlock, holders := Remove(before.holders, asker));
      if e.holders == [] && e.waitList != [] {
        var first := e.waitList[0];
        e := e.(holders := e.holders + [first.name], lockType := first.lockType, waitList := e.waitList[1..]);
      }
    }

    static method UpdateSuccess(before: Entry, r: Request) returns (e: Entry)
      ensures e == Granted(before, r)
      ensures e.holders == before.holders + [r.asker] && e.waitList == before.waitList
      ensures r.lockType == WLock && before.version < U64 - 1 ==> e.version == before.version + 1
      ensures r.lockType != WLock ==> e.version == before.version
      ensures r.lockType != Unlock && Disciplined(before) &&
              (before.lockType == Unlock || Compatible(r.lockType, before.lockType)) ==>
                Disciplined(e)
    {
      e := before;
      if r.lockType == WLock {
        e := e.(version := (e.version + 1) % U64);
      }
      e := e.(lockType := r.lockType, holders := e.holders + [r.asker]);
    }

    static method UpdateFail(before: Entry, r: Request) returns (e: Entry)
      ensures e == Refused(before, r)
    {
      var w := before.waitList;
      var i := 0;
      while i < |w|
        invariant i <= |w| == |before.waitList|
        invariant forall k :: 0 <= k < i ==> w[k] == Promoted(before.waitList[k], r)
        invariant forall k :: i <= k < |w| ==> w[k] == before.waitList[k]
      {
        if w[i].name == r.asker && r.lockType.Level() > w[i].lockType.Level() {
          w := w[i := w[i].(lockType := r.lockType)];
        }
        i := i + 1;
      }
      e := before.(waitList := w);
    }

    /** A whole run of requests against an empty table. */
    method Serve(rs: seq<Request>) returns (replies: seq<ReplyType>)
      requires pageLockHash == map[]
      modifies this
      ensures pageLockHash == After(rs)
      ensures replies == Replies(rs)
    {
      replies := [];
      var i := 0;
      while i < |rs|
        invariant i <= |rs|
        invariant pageLockHash == After(rs[..i])
        invariant replies == Replies(rs[..i])
      {
        assert rs[..i + 1][..i] == rs[..i];
        var _, reply := CheckLockRequest(rs[i]);
        replies := replies + [reply];
        i := i + 1;
      }
      assert rs[..i] == rs;
    }
  }

  // ---- whole runs

  function After(rs: seq<Request>): Table {
    if rs == [] then map[] else Answer(After(rs[..|rs| - 1]), rs[|rs| - 1]).1
  }

  function Replies(rs: seq<Request>): (s: seq<ReplyType>)
    ensures |s| == |rs|
  {
    if rs == [] then []
    else Replies(rs[..|rs| - 1]) + [Answer(After(rs[..|rs| - 1]), rs[|rs| - 1]).0]
  }

  /** What the askers can tell from requests and replies alone. */
  datatype Grant = Grant(name: string, mode: LockType)

  ghost function Without(gs: seq<Grant>, name: string): (r: seq<Grant>) {
    if gs == [] then []
    else
      var rest := Without(gs[..|gs| - 1], name);
      if gs[|gs| - 1].name == name then rest else rest + [gs[|gs| - 1]]
  }

  /** The locks given on a fold and not yet given back by an unlock of their asker. */
  ghost function Outstanding(rs: seq<Request>, replies: seq<ReplyType>, f: uint32): (gs: seq<Grant>)
    requires |rs| == |replies|
    decreases |rs|
  {
    if rs == [] then []
    else
      var n := |rs| - 1;
      var gs := Outstanding(rs[..n], replies[..n], f);
      if Fold(rs[n].space, rs[n].page) != f then gs
      else match replies[n]
        case LockSuccess => gs + [Grant(rs[n].asker, rs[n].lockType)]
        case UnlockSuccess => Without(gs, rs[n].asker)
        case LockFail => gs
  }

  /** The outstanding locks of a run. */
  ghost function Out(rs: seq<Request>, f: uint32): seq<Grant> {
    Outstanding(rs, Replies(rs), f)
  }

  ghost predicate Mentioned(rs: seq<Request>, f: uint32) {
    exists i :: 0 <= i < |rs| && Fold(rs[i].space, rs[i].page) == f
  }

  ghost function Names(gs: seq<Grant>): seq<string> {
    seq(|gs|, i requires 0 <= i < |gs| => gs[i].name)
  }

  /** The step of `Out`, in terms of the table. */
  lemma {:induction false} OutStep(rs: seq<Request>, r: Request, f: uint32)
    ensures After(rs + [r]) == Answer(After(rs), r).1
    ensures Out(rs + [r], f) ==
            if Fold(r.space, r.page) != f then Out(rs, f)
            else match Answer(After(rs), r).0
              case LockSuccess => Out(rs, f) + [Grant(r.asker, r.lockType)]
              case UnlockSuccess => Without(Out(rs, f), r.asker)
              case LockFail => Out(rs, f)
  {
    var all := rs + [r];
    assert all[..|all| - 1] == rs;
    assert Replies(all)[..|rs|] == Replies(rs);
  }

  lemma {:induction false} NamesWithout(gs: seq<Grant>, name: string)
    ensures Names(Without(gs, name)) == Remove(Names(gs), name)
    ensures forall g :: g in Without(gs, name) ==> g in gs
  {
    if gs != [] {
      var init := gs[..|gs| - 1];
      NamesWithout(init, name);
      assert Names(gs)[..|gs| - 1] == Names(init);
      assert Names(gs)[|gs| - 1] == gs[|gs| - 1].name;
      assert gs == init + [gs[|gs| - 1]];
    }
  }

  /** The entry of a fold that is in the table, whatever the requests were: its holders are the
      outstanding locks in the order they were given, and nobody ever waits, so that an unlock
      never hands the lock on. */
  lemma {:induction false} HoldersAreOutstanding(rs: seq<Request>, f: uint32)
    ensures f in After(rs) <==> Mentioned(rs, f)
    ensures f in After(rs) ==> After(rs)[f].holders == Names(Out(rs, f)) && After(rs)[f].waitList == []
    ensures f !in After(rs) ==> Out(rs, f) == []
  {
    if rs == [] {
      EmptyRun();
    } else {
      hide After, Out, Mentioned;
      var n := |rs| - 1;
      assert rs == rs[..n] + [rs[n]];
      HoldersAreOutstanding(rs[..n], f);
      HoldersStep(rs[..n], rs[n], f);
    }
  }

  lemma {:induction false} HoldersStep(rs: seq<Request>, r: Request, f: uint32)
    requires f in After(rs) <==> Mentioned(rs, f)
    requires if f in After(rs) then After(rs)[f].holders == Names(Out(rs, f)) && After(rs)[f].waitList == []
             else Out(rs, f) == []
    ensures f in After(rs + [r]) <==> Mentioned(rs + [r], f)
    ensures if f in After(rs + [r]) then
              After(rs + [r])[f].holders == Names(Out(rs + [r], f)) && After(rs + [r])[f].waitList == []
            else Out(rs + [r], f) == []
  {
    hide After, Out, Mentioned, Without, Remove;
    OutStep(rs, r, f);
    NamesWithout(Out(rs, f), r.asker);
    MentionedStep(rs, r, f);
    assert Names(Out(rs, f) + [Grant(r.asker, r.lockType)]) == Names(Out(rs, f)) + [r.asker];
  }

  lemma {:induction false} MentionedStep(rs: seq<Request>, r: Request, f: uint32)
    ensures Mentioned(rs + [r], f) <==> Mentioned(rs, f) || Fold(r.space, r.page) == f
  {
    var all := rs + [r];
    assert all[|rs|] == r;
    if Mentioned(rs, f) {
      var i :| 0 <= i < |rs| && Fold(rs[i].space, rs[i].page) == f;
      assert all[i] == rs[i];
    }
    if Mentioned(all, f) {
      var i :| 0 <= i < |all| && Fold(all[i].space, all[i].page) == f;
      assert i < |rs| ==> rs[i] == all[i];
    }
  }

  // ---- mutual exclusion, and exactly when it holds

  /** The lock discipline of one entry. */
  ghost predicate Disciplined(e: Entry) {
    && (e.lockType == Unlock <==> e.holders == [])
    && (e.lockType == WLock ==> |e.holders| == 1)
    && e.waitList == []
  }

  /** Only an asker that is the one outstanding holder of a page somebody has asked for unlocks it. */
  ghost predicate WellUsed(rs: seq<Request>, r: Request) {
    var f := Fold(r.space, r.page);
    r.lockType == Unlock ==> Mentioned(rs, f) && forall g :: g in Out(rs, f) ==> g.name == r.asker
  }

  ghost predicate WellUsedRun(rs: seq<Request>) {
    forall i :: 0 <= i < |rs| ==> WellUsed(rs[..i], rs[i])
  }

  ghost predicate DisciplinedTable(t: Table) {
    forall f :: f in t ==> Disciplined(t[f])
  }

  ghost predicate DisciplinedThroughout(rs: seq<Request>) {
    forall i :: 0 <= i <= |rs| ==> DisciplinedTable(After(rs[..i]))
  }

  lemma {:induction false} NamesAll(gs: seq<Grant>, name: string)
    ensures (forall g :: g in gs ==> g.name == name) <==> (forall i :: 0 <= i < |gs| ==> Names(gs)[i] == name)
  {
    if forall g :: g in gs ==> g.name == name {
      assert forall i :: 0 <= i < |gs| ==> gs[i] in gs && Names(gs)[i] == gs[i].name;
    }
    if forall i :: 0 <= i < |gs| ==> Names(gs)[i] == name {
      forall g | g in gs
        ensures g.name == name
      {
        var i :| 0 <= i < |gs| && gs[i] == g;
        assert Names(gs)[i] == g.name;
      }
    }
  }

  /** One step keeps the discipline exactly when it is well used. */
  lemma {:induction false} StepKeepsDiscipline(rs: seq<Request>, r: Request)
    requires DisciplinedTable(After(rs))
    ensures DisciplinedTable(After(rs + [r])) <==> WellUsed(rs, r)
  {
    hide Mentioned, Disciplined;
    var f := Fold(r.space, r.page);
    var t, t' := After(rs), After(rs + [r]);
    OutStep(rs, r, f);
    assert t'.Keys == t.Keys + {f} && t' == t[f := t'[f]] by {
      hide After, Out;
    }
    assert DisciplinedTable(t') <==> Disciplined(t'[f]) by {
      hide After, Out;
      assert forall g :: g in t && g != f ==> t'[g] == t[g];
    }
    StepOnEntry(rs, r);
  }

  lemma {:induction false} StepOnEntry(rs: seq<Request>, r: Request)
    requires DisciplinedTable(After(rs))
    ensures var f := Fold(r.space, r.page);
            f in After(rs + [r]) && (Disciplined(After(rs + [r])[f]) <==> WellUsed(rs, r))
  {
    hide After, Out, Mentioned;
    var f := Fold(r.space, r.page);
    OutStep(rs, r, f);
    HoldersAreOutstanding(rs, f);
    NamesAll(Out(rs, f), r.asker);
    RemoveAll(Names(Out(rs, f)), r.asker);
  }

  /** The table is disciplined after every request of a run exactly when every unlock of the run
      comes from the sole outstanding holder. */
  lemma {:induction false} DisciplineIffWellUsed(rs: seq<Request>)
    ensures DisciplinedThroughout(rs) <==> WellUsedRun(rs)
  {
    hide After, WellUsed, DisciplinedTable;
    if rs == [] {
      assert rs[..0] == [];
      EmptyRun();
    } else {
      var n := |rs| - 1;
      var init := rs[..n];
      DisciplineIffWellUsed(init);
      SplitRun(rs);
      if DisciplinedThroughout(init) {
        assert init[..n] == init;
        StepKeepsDiscipline(init, rs[n]);
      }
    }
  }

  lemma {:induction false} EmptyRun()
    ensures After([]) == map[] && DisciplinedTable(After([])) && forall f :: Out([], f) == []
  {
  }

  lemma {:induction false} SplitRun(rs: seq<Request>)
    requires rs != []
    ensures var n := |rs| - 1;
            && rs == rs[..n] + [rs[n]]
            && (WellUsedRun(rs) <==> WellUsedRun(rs[..n]) && WellUsed(rs[..n], rs[n]))
            && (DisciplinedThroughout(rs) <==> DisciplinedThroughout(rs[..n]) && DisciplinedTable(After(rs)))
  {
    hide After, WellUsed, DisciplinedTable;
    var n := |rs| - 1;
    var init := rs[..n];
    assert rs[..|rs|] == rs;
    assert forall i :: 0 <= i <= n ==> init[..i] == rs[..i];
    if WellUsedRun(init) && WellUsed(init, rs[n]) {
      forall i | 0 <= i < |rs|
        ensures WellUsed(rs[..i], rs[i])
      {
        if i < n {
          assert WellUsed(init[..i], init[i]);
        }
      }
    }
    if WellUsedRun(rs) {
      forall i | 0 <= i < n
        ensures WellUsed(init[..i], init[i])
      {
        assert WellUsed(rs[..i], rs[i]);
      }
    }
    if DisciplinedThroughout(init) && DisciplinedTable(After(rs)) {
      forall i | 0 <= i <= |rs|
        ensures DisciplinedTable(After(rs[..i]))
      {
        if i <= n {
          assert DisciplinedTable(After(init[..i]));
        }
      }
    }
    if DisciplinedThroughout(rs) {
      forall i | 0 <= i <= n
        ensures DisciplinedTable(After(init[..i]))
      {
        assert DisciplinedTable(After(rs[..i]));
      }
    }
  }

  /**
   The read and write locks among some grants. An unlock of a page nobody has asked for is answered like
   a lock, so that a grant need not be one.
   */
  ghost function Locks(gs: seq<Grant>): (ls: seq<Grant>) {
    if gs == [] then []
    else
      var rest := Locks(gs[..|gs| - 1]);
      if gs[|gs| - 1].mode == Unlock then rest else rest + [gs[|gs| - 1]]
  }

  /** The read and write locks outstanding after a run. */
  ghost function Held(rs: seq<Request>, f: uint32): seq<Grant> {
    Locks(Out(rs, f))
  }

  lemma {:induction false} LocksMore(gs: seq<Grant>, g: Grant)
    ensures Locks(gs + [g]) == if g.mode == Unlock then Locks(gs) else Locks(gs) + [g]
  {
    assert (gs + [g])[..|gs|] == gs;
  }

  lemma {:induction false} WithoutMore(gs: seq<Grant>, g: Grant, name: string)
    ensures Without(gs + [g], name) == if g.name == name then Without(gs, name) else Without(gs, name) + [g]
  {
    assert (gs + [g])[..|gs|] == gs;
  }

  lemma {:induction false} LocksWithout(gs: seq<Grant>, name: string)
    ensures Locks(Without(gs, name)) == Without(Locks(gs), name)
  {
    if gs != [] {
      var init, g := gs[..|gs| - 1], gs[|gs| - 1];
      LocksWithout(init, name);
      LocksMore(Without(init, name), g);
      WithoutMore(Locks(init), g, name);
    }
  }

  lemma {:induction false} WithoutKeeps(gs: seq<Grant>, name: string)
    ensures Without(gs, name) == [] <==> forall g :: g in gs ==> g.name == name
    ensures forall g :: g in Without(gs, name) <==> g in gs && g.name != name
  {
    if gs != [] {
      var init, g := gs[..|gs| - 1], gs[|gs| - 1];
      assert gs == init + [g];
      WithoutKeeps(init, name);
    }
  }

  /** The step of `Held`, in terms of the table. */
  lemma {:induction false} HeldStep(rs: seq<Request>, r: Request, f: uint32)
    ensures After(rs + [r]) == Answer(After(rs), r).1
    ensures Held(rs + [r], f) ==
            if Fold(r.space, r.page) != f then Held(rs, f)
            else match Answer(After(rs), r).0
              case LockSuccess =>
                if r.lockType == Unlock then Held(rs, f) else Held(rs, f) + [Grant(r.asker, r.lockType)]
              case UnlockSuccess => Without(Held(rs, f), r.asker)
              case LockFail => Held(rs, f)
  {
    hide After, Out, Locks;
    OutStep(rs, r, f);
    LocksMore(Out(rs, f), Grant(r.asker, r.lockType));
    LocksWithout(Out(rs, f), r.asker);
  }

  lemma {:induction false} HeldKnown(rs: seq<Request>, f: uint32)
    ensures Held(rs, f) != [] ==> f in After(rs)
    ensures f in After(rs) ==> After(rs)[f].waitList == []
  {
    hide After, Out, Mentioned;
    HoldersAreOutstanding(rs, f);
  }

  /** An unlock does not come from anyone while someone else holds a lock. */
  ghost predicate Rightful(rs: seq<Request>, r: Request) {
    r.lockType == Unlock ==> forall g :: g in Held(rs, Fold(r.space, r.page)) ==> g.name == r.asker
  }

  ghost predicate RightfulRun(rs: seq<Request>) {
    forall i :: 0 <= i < |rs| ==> Rightful(rs[..i], rs[i])
  }

  /** Mutual exclusion: a lock that is held is a read lock or the only one. */
  ghost predicate Exclusive(rs: seq<Request>, f: uint32) {
    forall g :: g in Held(rs, f) ==> g.mode == RLock || Held(rs, f) == [g]
  }

  /** Whatever anyone asks next, at any moment of the run, mutual exclusion holds. */
  ghost predicate SafelyExclusive(rs: seq<Request>) {
    forall i, r: Request, f: uint32 :: 0 <= i <= |rs| ==> Exclusive(rs[..i] + [r], f)
  }

  /** The entry says which locks are held: none, readers, or one writer. */
  ghost predicate Matches(ls: seq<Grant>, t: Table, f: uint32) {
    if f !in t then ls == []
    else
      && (ls == [] <==> t[f].lockType == Unlock)
      && (forall g :: g in ls ==> g.mode == t[f].lockType)
      && (t[f].lockType == WLock ==> |ls| == 1)
  }

  lemma {:induction false} HeldModes(rs: seq<Request>, f: uint32)
    requires RightfulRun(rs)
    ensures Matches(Held(rs, f), After(rs), f)
  {
    hide After, Out, Held, Rightful, Matches;
    if rs == [] {
      NothingHeld(f);
    } else {
      var n := |rs| - 1;
      assert rs == rs[..n] + [rs[n]];
      PrefixRightful(rs, n);
      HeldModes(rs[..n], f);
      assert Rightful(rs[..n], rs[n]);
      HeldModesStep(rs[..n], rs[n], f);
    }
  }

  lemma {:induction false} NothingHeld(f: uint32)
    ensures Matches(Held([], f), After([]), f)
  {
    EmptyRun();
  }

  lemma {:induction false} HeldModesStep(rs: seq<Request>, r: Request, f: uint32)
    requires Matches(Held(rs, f), After(rs), f) && Rightful(rs, r)
    ensures Matches(Held(rs + [r], f), After(rs + [r]), f)
  {
    hide After, Out, Held, Mentioned;
    HeldStep(rs, r, f);
    HeldKnown(rs, f);
    if Fold(r.space, r.page) == f {
      WithoutKeeps(Held(rs, f), r.asker);
    }
  }

  /** On a rightful run mutual exclusion holds. */
  lemma {:induction false} MutualExclusion(rs: seq<Request>, f: uint32)
    requires RightfulRun(rs)
    ensures Exclusive(rs, f)
  {
    hide After, Held, RightfulRun;
    HeldModes(rs, f);
  }

  /** An unlock while someone else holds a lock lets every writer in beside that lock. */
  lemma {:induction false} WrongfulLetsWriterIn(rs: seq<Request>, u: Request, w: Request)
    requires !Rightful(rs, u)
    requires w.lockType == WLock && Fold(w.space, w.page) == Fold(u.space, u.page)
    ensures var ls := Held(rs + [u] + [w], Fold(u.space, u.page));
            && Grant(w.asker, WLock) in ls && |ls| > 1
            && exists g :: g in ls && g.name != u.asker && g in Held(rs, Fold(u.space, u.page))
    ensures !Exclusive(rs + [u] + [w], Fold(u.space, u.page))
  {
    hide After, Out, Held, Mentioned;
    var f := Fold(u.space, u.page);
    HeldKnown(rs, f);
    HeldStep(rs, u, f);
    HeldStep(rs + [u], w, f);
    var g :| g in Held(rs, f) && g.name != u.asker;
    WithoutKeeps(Held(rs, f), u.asker);
    var left := Held(rs + [u], f);
    assert g in left;
    assert Held(rs + [u] + [w], f) == left + [Grant(w.asker, WLock)];
    assert (left + [Grant(w.asker, WLock)])[|left|] == Grant(w.asker, WLock);
    assert g in left + [Grant(w.asker, WLock)];
  }

  /** On a rightful run a lock is refused exactly when it would break mutual exclusion. */
  lemma {:induction false} RefusedExactlyOnConflict(rs: seq<Request>, r: Request)
    requires RightfulRun(rs) && r.lockType != Unlock
    ensures var held := Held(rs, Fold(r.space, r.page));
            Answer(After(rs), r).0 == LockFail <==>
            held != [] && (r.lockType == WLock || held[0].mode == WLock)
  {
    hide After, Held, RightfulRun;
    HeldModes(rs, Fold(r.space, r.page));
  }

  /** Without that use it fails: one of two readers unlocks, and a writer is let in beside the other. */
  lemma {:induction false} WriterBesideReader()
    ensures var rs := [Request("a", 0, 0, RLock), Request("b", 0, 0, RLock),
                       Request("a", 0, 0, Unlock), Request("c", 0, 0, WLock)];
            Out(rs, 0) == [Grant("b", RLock), Grant("c", WLock)]
  {
    hide After, Out;
    var a, b := Request("a", 0, 0, RLock), Request("b", 0, 0, RLock);
    var u, c := Request("a", 0, 0, Unlock), Request("c", 0, 0, WLock);
    TwoReaders(a, b);
    OneReaderLeaves([a, b], u);
    assert [a, b] + [u] == [a, b, u];
    OutStep([a, b, u], c, 0);
    assert [a, b, u] + [c] == [a, b, u, c];
  }

  lemma {:induction false} TwoReaders(a: Request, b: Request)
    requires a == Request("a", 0, 0, RLock) && b == Request("b", 0, 0, RLock)
    ensures After([a, b]) == map[0 := Entry(0, 0, 0, RLock, ["a", "b"], [])]
    ensures Out([a, b], 0) == [Grant("a", RLock), Grant("b", RLock)]
  {
    hide After, Out;
    EmptyRun();
    OutStep([], a, 0);
    assert [] + [a] == [a];
    OutStep([a], b, 0);
    assert [a] + [b] == [a, b];
    assert ["a"] + ["b"] == ["a", "b"];
    assert After([a, b])[0].holders == ["a", "b"];
  }

  lemma {:induction false} OneReaderLeaves(rs: seq<Request>, u: Request)
    requires u == Request("a", 0, 0, Unlock)
    requires After(rs) == map[0 := Entry(0, 0, 0, RLock, ["a", "b"], [])]
    requires Out(rs, 0) == [Grant("a", RLock), Grant("b", RLock)]
    ensures After(rs + [u]) == map[0 := Entry(0, 0, 0, Unlock, ["b"], [])]
    ensures Out(rs + [u], 0) == [Grant("b", RLock)]
  {
    hide After, Out;
    OutStep(rs, u, 0);
    var g := [Grant("a", RLock), Grant("b", RLock)];
    assert g[..1] == [Grant("a", RLock)] && g[..1][..0] == [];
    assert Without(g[..1], "a") == [];
    var h := ["a", "b"];
    assert h[..1] == ["a"] && h[..1][..0] == [];
    assert Remove(h[..1], "a") == [];
    assert "b" != "a" && Remove(h, "a") == ["b"];
  }

  /** Whatever is asked after a rightful run, mutual exclusion holds. */
  lemma {:induction false} NextIsExclusive(rs: seq<Request>, r: Request, f: uint32)
    requires RightfulRun(rs)
    ensures Exclusive(rs + [r], f)
  {
    hide After, Held, Rightful;
    if Rightful(rs, r) {
      RightfulMore(rs, r);
      MutualExclusion(rs + [r], f);
    } else {
      MutualExclusion(rs, f);
      WrongfulUnlock(rs, r, f);
    }
  }

  lemma {:induction false} RightfulMore(rs: seq<Request>, r: Request)
    requires RightfulRun(rs) && Rightful(rs, r)
    ensures RightfulRun(rs + [r])
  {
    hide Rightful;
    var all := rs + [r];
    forall i | 0 <= i < |all|
      ensures Rightful(all[..i], all[i])
    {
      assert all[..i] == rs[..i];
      assert i < |rs| ==> Rightful(rs[..i], rs[i]);
      assert rs[..|rs|] == rs;
    }
  }

  /** A wrongful unlock alone only takes locks away. */
  lemma {:induction false} WrongfulUnlock(rs: seq<Request>, u: Request, f: uint32)
    requires Exclusive(rs, f) && !Rightful(rs, u)
    ensures Exclusive(rs + [u], f)
  {
    hide After, Held;
    HeldStep(rs, u, f);
    var held := Held(rs, f);
    WithoutKeeps(held, u.asker);
    forall g | g in Without(held, u.asker)
      ensures g.mode == RLock || Without(held, u.asker) == [g]
    {
      if held == [g] {
        WithoutOne(g, u.asker);
      }
    }
  }

  lemma {:induction false} WithoutOne(g: Grant, name: string)
    ensures Without([g], name) == if g.name == name then [] else [g]
  {
    assert [g][..0] == [] && Without([], name) == [];
  }

  /** Mutual exclusion holds, whatever anyone asks next, at every moment of a run exactly when no unlock
      of the run comes while someone else holds a read or write lock. */
  lemma {:induction false} ExclusionIffRightful(rs: seq<Request>)
    ensures SafelyExclusive(rs) <==> RightfulRun(rs)
  {
    hide Rightful, Exclusive, Held;
    if RightfulRun(rs) {
      forall i, r: Request, f: uint32 | 0 <= i <= |rs|
        ensures Exclusive(rs[..i] + [r], f)
      {
        PrefixRightful(rs, i);
        NextIsExclusive(rs[..i], r, f);
      }
    } else {
      var i :| 0 <= i < |rs| && !Rightful(rs[..i], rs[i]);
      var u := rs[i];
      WrongfulLetsWriterIn(rs[..i], u, u.(lockType := WLock));
      assert rs[..i + 1] == rs[..i] + [u];
    }
  }

  lemma {:induction false} PrefixRightful(rs: seq<Request>, n: nat)
    requires RightfulRun(rs) && n <= |rs|
    ensures RightfulRun(rs[..n])
  {
    hide Rightful;
    forall i | 0 <= i < n
      ensures Rightful(rs[..n][..i], rs[..n][i])
    {
      assert rs[..n][..i] == rs[..i];
    }
  }

  /** Every unlock is of a page somebody has asked for. */
  ghost predicate KnownPages(rs: seq<Request>) {
    forall i :: 0 <= i < |rs| && rs[i].lockType == Unlock ==> Mentioned(rs[..i], Fold(rs[i].space, rs[i].page))
  }

  /** Then every grant is a read or write lock. */
  lemma {:induction false} AllAreLocks(rs: seq<Request>, f: uint32)
    requires KnownPages(rs)
    ensures Held(rs, f) == Out(rs, f)
  {
    if rs == [] {
      EmptyRun();
    } else {
      hide After, Out, Mentioned, Held;
      var n := |rs| - 1;
      assert rs == rs[..n] + [rs[n]];
      PrefixKnown(rs, n);
      AllAreLocks(rs[..n], f);
      OutStep(rs[..n], rs[n], f);
      HeldStep(rs[..n], rs[n], f);
      HoldersAreOutstanding(rs[..n], f);
    }
  }

  lemma {:induction false} PrefixKnown(rs: seq<Request>, n: nat)
    requires KnownPages(rs) && n <= |rs|
    ensures KnownPages(rs[..n])
  {
    hide Mentioned;
    forall i | 0 <= i < n && rs[..n][i].lockType == Unlock
      ensures Mentioned(rs[..n][..i], Fold(rs[..n][i].space, rs[..n][i].page))
    {
      assert rs[..n][..i] == rs[..i];
    }
  }

  /** The use that keeps the table disciplined is the use that keeps mutual exclusion, on known pages. */
  lemma {:induction false} WellUsedIffRightful(rs: seq<Request>)
    ensures WellUsedRun(rs) <==> RightfulRun(rs) && KnownPages(rs)
  {
    hide Mentioned, Out, Held;
    if KnownPages(rs) {
      forall i | 0 <= i < |rs|
        ensures WellUsed(rs[..i], rs[i]) <==> Rightful(rs[..i], rs[i])
      {
        PrefixKnown(rs, i);
        AllAreLocks(rs[..i], Fold(rs[i].space, rs[i].page));
      }
    } else {
      var i :| 0 <= i < |rs| && rs[i].lockType == Unlock && !Mentioned(rs[..i], Fold(rs[i].space, rs[i].page));
      assert !WellUsed(rs[..i], rs[i]);
    }
  }

  /** An unlock of an unknown page: not well used, yet mutual exclusion is safe. */
  lemma {:induction false} UnlockOfUnknownPage(u: Request)
    requires u.lockType == Unlock
    ensures SafelyExclusive([u]) && !WellUsedRun([u]) && Out([u], Fold(u.space, u.page)) == [Grant(u.asker, Unlock)]
  {
    var f := Fold(u.space, u.page);
    EmptyRun();
    assert [] + [u] == [u] && [u][..0] == [];
    OutStep([], u, f);
    assert !WellUsed([u][..0], [u][0]);
    assert Held([], f) == [];
    assert Rightful([u][..0], [u][0]);
    hide Exclusive, Rightful;
    ExclusionIffRightful([u]);
  }

  // ---- versions

  /** The write locks given on a fold after the request that made its entry. */
  ghost function WriteGrants(rs: seq<Request>, replies: seq<ReplyType>, f: uint32): nat
    requires |rs| == |replies|
  {
    if rs == [] then 0
    else
      var n := |rs| - 1;
      WriteGrants(rs[..n], replies[..n], f) +
      if Fold(rs[n].space, rs[n].page) == f && replies[n] == LockSuccess && rs[n].lockType == WLock &&
         Mentioned(rs[..n], f) then 1 else 0
  }

  ghost function Writes(rs: seq<Request>, f: uint32): nat {
    WriteGrants(rs, Replies(rs), f)
  }

  lemma {:induction false} WritesStep(rs: seq<Request>, r: Request, f: uint32)
    ensures Writes(rs + [r], f) == Writes(rs, f) +
            if Fold(r.space, r.page) == f && Answer(After(rs), r).0 == LockSuccess && r.lockType == WLock &&
               Mentioned(rs, f) then 1 else 0
  {
    var all := rs + [r];
    assert all[..|all| - 1] == rs;
    assert Replies(all)[..|rs|] == Replies(rs);
  }

  lemma {:induction false} VersionCountsWrites(rs: seq<Request>, f: uint32)
    requires f in After(rs)
    ensures After(rs)[f].version == Writes(rs, f) % U64
    ensures Writes(rs, f) < |rs|
    decreases |rs|
  {
    if rs == [] {
      EmptyRun();
      assert false;
    }
    var n := |rs| - 1;
    var init, r := rs[..n], rs[n];
    hide After, Writes, Out, Mentioned;
    assert rs == init + [r];
    OutStep(init, r, f);
    WritesStep(init, r, f);
    HoldersAreOutstanding(init, f);
    if f in After(init) {
      VersionCountsWrites(init, f);
      Successor(Writes(init, f));
    } else {
      NoGrantsYet(init, f);
    }
  }

  lemma {:induction false} Successor(w: nat)
    ensures (w + 1) % U64 == (w % U64 + 1) % U64
  {
  }

  lemma {:induction false} NoGrantsYet(rs: seq<Request>, f: uint32)
    requires !Mentioned(rs, f)
    ensures Writes(rs, f) == 0
  {
    if rs != [] {
      var n := |rs| - 1;
      assert rs == rs[..n] + [rs[n]];
      MentionedStep(rs[..n], rs[n], f);
      WritesStep(rs[..n], rs[n], f);
      NoGrantsYet(rs[..n], f);
    }
  }

  /** Entries stay, and over any run of fewer than 2^64 requests their versions never fall: the
      version of a longer run is that of the shorter one plus the write locks given in between. */
  lemma {:induction false} VersionNeverFalls(rs: seq<Request>, n: nat, f: uint32)
    requires n <= |rs| <= U64 && f in After(rs[..n])
    ensures f in After(rs) && After(rs[..n])[f].version <= After(rs)[f].version
    ensures After(rs)[f].version - After(rs[..n])[f].version == Writes(rs, f) - Writes(rs[..n], f)
  {
    hide After, Writes, Out;
    EntryStays(rs, n, f);
    VersionCountsWrites(rs, f);
    VersionCountsWrites(rs[..n], f);
    GrantsGrow(rs, n, f);
  }

  lemma {:induction false} EntryStays(rs: seq<Request>, n: nat, f: uint32)
    requires n <= |rs| && f in After(rs[..n])
    ensures f in After(rs)
  {
    hide After, Out;
    HoldersAreOutstanding(rs, f);
    HoldersAreOutstanding(rs[..n], f);
    var i :| 0 <= i < n && Fold(rs[..n][i].space, rs[..n][i].page) == f;
    assert rs[i] == rs[..n][i];
  }

  lemma {:induction false} GrantsGrow(rs: seq<Request>, n: nat, f: uint32)
    requires n <= |rs|
    ensures Writes(rs[..n], f) <= Writes(rs, f)
    decreases |rs|
  {
    hide Writes;
    if n < |rs| {
      var m := |rs| - 1;
      assert rs == rs[..m] + [rs[m]];
      WritesStep(rs[..m], rs[m], f);
      assert rs[..m][..n] == rs[..n];
      GrantsGrow(rs[..m], n, f);
    } else {
      assert rs[..n] == rs;
    }
  }
}
