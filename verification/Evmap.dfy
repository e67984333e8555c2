/**
 Event registrations per file descriptor, reference-counted by kind, and two ways of telling
 the kernel: at once, or through a changelist that is flushed before the next wait.
 */
module Evmap {
  import opened Wrappers
  import opened EpollTable

  const MAX_EVENTS: nat := 0xffff

  /** A registered event; `id` tells apart events with the same mask. */
  datatype Event = Event(id: nat, fd: int, mask: Interest)

  /** `struct evmap_io` and the changelist's `fdinfo` behind it; an unused slot is a null pointer. */
  datatype FdSlot = NoSlot | Slot(events: seq<Event>, nread: nat, nwrite: nat, nclose: nat, idxplus1: nat)

  const EMPTY_SLOT := Slot([], 0, 0, 0, 0)

  /** How many events of a list want to read, to write, to know about close. */
  function Readers(evs: seq<Event>): nat {
    if evs == [] then 0 else Bit(evs[0].mask.read) + Readers(evs[1..])
  }

  function Writers(evs: seq<Event>): nat {
    if evs == [] then 0 else Bit(evs[0].mask.write) + Writers(evs[1..])
  }

  function Closers(evs: seq<Event>): nat {
    if evs == [] then 0 else Bit(evs[0].mask.close) + Closers(evs[1..])
  }

  /** What a list of events wants the kernel to watch. */
  function Wanted(evs: seq<Event>): Interest {
    Interest(Readers(evs) > 0, Writers(evs) > 0, Closers(evs) > 0)
  }

  /** LIST_REMOVE */
  function Without(evs: seq<Event>, ev: Event): seq<Event> {
    if evs == [] then [] else if evs[0] == ev then evs[1..] else [evs[0]] + Without(evs[1..], ev)
  }

  /** Removing a listed event takes one off each count it was in. */
  lemma {:induction false} CountsWithout(evs: seq<Event>, ev: Event)
    requires ev in evs
    ensures Readers(Without(evs, ev)) == Readers(evs) - Bit(ev.mask.read)
    ensures Writers(Without(evs, ev)) == Writers(evs) - Bit(ev.mask.write)
    ensures Closers(Without(evs, ev)) == Closers(evs) - Bit(ev.mask.close)
    decreases |evs|
  {
    if evs[0] != ev {
      CountsWithout(evs[1..], ev);
      assert ([evs[0]] + Without(evs[1..], ev))[1..] == Without(evs[1..], ev);
    }
  }

  /** What the kernel does with one epoll_ctl call; None when it fails with EEXIST or ENOENT. */
  type Kernel = map<int, Interest>

  function EpollCtl(k: Kernel, fd: int, op: Operation): Option<Kernel> {
    match op
    case Add(events) => if fd in k then None else Some(k[fd := events])
    case Mod(events) => if fd !in k then None else Some(k[fd := events])
    case Del(_) => if fd !in k then None else Some(k - {fd})
    case _ => Some(k)
  }

  /** The events the kernel watches on `fd`. */
  function Watched(k: Kernel, fd: int): Interest {
    if fd in k then k[fd] else O
  }

  /** epoll_apply_one_change, with its retries. */
  function ApplyOneChange(k: Kernel, ch: EventChange): (Kernel, int)
  {
    var op := OpAt(TableIndex(ch));
    if op.Nothing? || op.Invalid? then (k, 0)
    else
      var r := EpollCtl(k, ch.fd, op);
      if r.Some? then (r.value, 0)
      else match op
        case Mod(events) =>
          var r2 := EpollCtl(k, ch.fd, Add(events));
          if r2.Some? then (r2.value, 0) else (k, -1)
        case Add(events) =>
          var r2 := EpollCtl(k, ch.fd, Mod(events));
          if r2.Some? then (r2.value, 0) else (k, -1)
        case _ => (k, 0)
  }

  /** A change the table can act on: it knows what the kernel watches and deletes only that. */
  ghost predicate Honest(k: Kernel, ch: EventChange)
  {
    && Codes(ch) && ch.oldEvents == Watched(k, ch.fd)
    && (ch.readChange == EV_CHANGE_DEL ==> ch.oldEvents.read)
    && (ch.writeChange == EV_CHANGE_DEL ==> ch.oldEvents.write)
    && (ch.closeChange == EV_CHANGE_DEL ==> ch.oldEvents.close)
  }

  ghost predicate NoneEmpty(k: Kernel)
  {
    forall fd :: fd in k ==> k[fd] != O
  }

  /** An honest change is one epoll_ctl call that does not fail, and leaves on its descriptor what was asked for. */
  lemma {:induction false} ApplyHonest(k: Kernel, ch: EventChange)
    requires NoneEmpty(k) && Honest(k, ch)
    ensures var (k', r) := ApplyOneChange(k, ch);
            && r == 0 && NoneEmpty(k')
            && (forall fd :: Watched(k', fd) == if fd == ch.fd then After(ch) else Watched(k, fd))
            && EpollCtl(k, ch.fd, OpAt(TableIndex(ch))).Some?
  {
    hide OpAt, TableIndex;
    TableFollowsRule(ch);
  }

  function Union(a: Interest, b: Interest): Interest {
    Interest(a.read || b.read, a.write || b.write, a.close || b.close)
  }

  function Minus(a: Interest, b: Interest): Interest {
    Interest(a.read && !b.read, a.write && !b.write, a.close && !b.close)
  }

  /** The body of event_changelist_add_: an add replaces whatever was recorded. */
  function Record(ch: EventChange, events: Interest): EventChange {
    ch.(readChange := if events.read then EV_CHANGE_ADD else ch.readChange,
        writeChange := if events.write then EV_CHANGE_ADD else ch.writeChange,
        closeChange := if events.close then EV_CHANGE_ADD else ch.closeChange)
  }

  function Deletion(was: bool): nat {
    if was then EV_CHANGE_DEL else 0
  }

  /** The body of event_changelist_del_: deleting what the kernel does not watch is no change. */
  function Unrecord(ch: EventChange, events: Interest): EventChange {
    ch.(readChange := if events.read then Deletion(ch.oldEvents.read) else ch.readChange,
        writeChange := if events.write then Deletion(ch.oldEvents.write) else ch.writeChange,
        closeChange := if events.close then Deletion(ch.oldEvents.close) else ch.closeChange)
  }

  lemma {:induction false} RecordMeans(k: Kernel, ch: EventChange, events: Interest)
    requires Honest(k, ch)
    ensures Honest(k, Record(ch, events)) && After(Record(ch, events)) == Union(After(ch), events)
    ensures Honest(k, Unrecord(ch, events)) && After(Unrecord(ch, events)) == Minus(After(ch), events)
  {
  }

  ghost predicate HasSlot(entries: seq<FdSlot>, fd: int)
  {
    0 <= fd < |entries| && entries[fd].Slot?
  }

  /** The registrations on a descriptor. */
  ghost function Listed(entries: seq<FdSlot>, fd: int): seq<Event>
  {
    if HasSlot(entries, fd) then entries[fd].events else []
  }

  /** What the kernel will watch on `fd` once the recorded changes are applied. */
  ghost function Goal(entries: seq<FdSlot>, changes: seq<EventChange>, k: Kernel, fd: int): Interest
  {
    if HasSlot(entries, fd) && 0 < entries[fd].idxplus1 <= |changes| then After(changes[entries[fd].idxplus1 - 1])
    else Watched(k, fd)
  }

  /** event_changelist_assert_ok, and that every recorded change is honest. */
  ghost predicate Plumbing(entries: seq<FdSlot>, changes: seq<EventChange>, k: Kernel)
  {
    && NoneEmpty(k)
    && (forall fd :: fd in k ==> HasSlot(entries, fd))
    && (forall fd :: HasSlot(entries, fd) && entries[fd].idxplus1 > 0 ==>
          entries[fd].idxplus1 <= |changes| && changes[entries[fd].idxplus1 - 1].fd == fd)
    && (forall i :: 0 <= i < |changes| ==>
          HasSlot(entries, changes[i].fd) && entries[changes[i].fd].idxplus1 == i + 1 && Honest(k, changes[i]))
  }

  /** evmap_io_check_integrity_fn: the counts are those of the list. */
  ghost predicate SlotCounted(e: FdSlot, fd: int)
  {
    e.Slot? ==>
      && e.nread == Readers(e.events) && e.nwrite == Writers(e.events) && e.nclose == Closers(e.events)
      && forall i :: 0 <= i < |e.events| ==> e.events[i].fd == fd
  }

  ghost predicate Counted(entries: seq<FdSlot>)
  {
    forall fd :: 0 <= fd < |entries| ==> SlotCounted(entries[fd], fd)
  }

  /** A new change that says nothing yet changes no goal. */
  lemma {:induction false} ConstructChange(entries: seq<FdSlot>, changes: seq<EventChange>, k: Kernel, fd: int)
    requires Plumbing(entries, changes, k) && HasSlot(entries, fd) && entries[fd].idxplus1 == 0
    ensures var entries' := entries[fd := entries[fd].(idxplus1 := |changes| + 1)];
            var changes' := changes + [EventChange(fd, Watched(k, fd), 0, 0, 0)];
            && Plumbing(entries', changes', k)
            && forall f :: Goal(entries', changes', k, f) == Goal(entries, changes, k, f)
  {
  }

  /** Rewriting the change of a descriptor changes its goal and no other. */
  lemma {:induction false} SetChange(entries: seq<FdSlot>, changes: seq<EventChange>, k: Kernel,
                                     idx: nat, ch: EventChange)
    requires Plumbing(entries, changes, k) && idx < |changes| && ch.fd == changes[idx].fd && Honest(k, ch)
    ensures var changes' := changes[idx := ch];
            && Plumbing(entries, changes', k)
            && forall f :: Goal(entries, changes', k, f) ==
                           if f == ch.fd then After(ch) else Goal(entries, changes, k, f)
  {
  }

  /** Changing a slot's list and counts touches no plumbing. */
  lemma {:induction false} SetList(entries: seq<FdSlot>, changes: seq<EventChange>, k: Kernel, fd: int, e: FdSlot)
    requires Plumbing(entries, changes, k) && HasSlot(entries, fd) && e.Slot? && e.idxplus1 == entries[fd].idxplus1
    ensures Plumbing(entries[fd := e], changes, k)
    ensures forall f :: Goal(entries[fd := e], changes, k, f) == Goal(entries, changes, k, f)
  {
    var entries' := entries[fd := e];
    assert forall f :: HasSlot(entries', f) <==> HasSlot(entries, f);
    assert forall f :: HasSlot(entries, f) ==> entries'[f].idxplus1 == entries[f].idxplus1;
  }

  /** Telling the kernel at once, when nothing is recorded. */
  lemma {:induction false} TellKernel(entries: seq<FdSlot>, k: Kernel, ch: EventChange)
    requires Plumbing(entries, [], k) && HasSlot(entries, ch.fd) && Honest(k, ch)
    ensures var (k', r) := ApplyOneChange(k, ch);
            && r == 0 && Plumbing(entries, [], k')
            && forall f :: Goal(entries, [], k', f) == if f == ch.fd then After(ch) else Goal(entries, [], k, f)
  {
    hide ApplyOneChange, Honest;
    ApplyHonest(k, ch);
    var (k', r) := ApplyOneChange(k, ch);
    forall fd | fd in k'
      ensures HasSlot(entries, fd)
    {
      assert Watched(k', fd) != O;
    }
  }

  class EventBase {
    const useChangelist: bool
    var entries: seq<FdSlot>
    var changes: seq<EventChange>
    var changesSize: nat
    /** What epoll watches: the outside world, changed only by epoll_ctl. */
    var kernel: Kernel

    ghost predicate Valid()
      reads this
    {
      && Plumbing(entries, changes, kernel) && Counted(entries)
      && |changes| <= changesSize && (!useChangelist ==> changes == [])
      && forall fd :: Goal(entries, changes, kernel, fd) == Wanted(EventsOn(fd))
    }

    ghost function EventsOn(fd: int): seq<Event>
      reads this
    {
      Listed(entries, fd)
    }

    constructor (useChangelist: bool)
      ensures Valid() && this.useChangelist == useChangelist && kernel == map[] && forall fd :: EventsOn(fd) == []
    {
      this.useChangelist := useChangelist;
      entries, changes, changesSize, kernel := [], [], 0, map[];
    }

    /** event_changelist_get_or_construct, with event_changelist_grow. */
    method GetOrConstruct(fd: int, events: Interest) returns (idx: nat)
      requires Plumbing(entries, changes, kernel) && HasSlot(entries, fd) && |changes| <= changesSize
      requires events == Goal(entries, changes, kernel, fd)
      modifies `entries, `changes, `changesSize
      ensures Plumbing(entries, changes, kernel) && |changes| <= changesSize
      ensures idx < |changes| && changes[idx].fd == fd
      ensures entries == old(entries)[fd := old(entries)[fd].(idxplus1 := idx + 1)]
      ensures forall f :: Goal(entries, changes, kernel, f) == old(Goal(entries, changes, kernel, f))
    {
      hide Plumbing, Goal;
      SlotFacts(entries, changes, kernel, fd);
      if entries[fd].idxplus1 == 0 {
        if |changes| == changesSize {
          changesSize := if changesSize < 64 then 64 else changesSize * 2;
        }
        ConstructChange(entries, changes, kernel, fd);
        idx := |changes|;
        changes := changes + [EventChange(fd, events, 0, 0, 0)];
        entries := entries[fd := entries[fd].(idxplus1 := idx + 1)];
      } else {
        idx := entries[fd].idxplus1 - 1;
      }
    }

    /** evsel->add: event_changelist_add_ or epoll_nochangelist_add. */
    method BackendAdd(fd: int, events: Interest, res: Interest) returns (r: int)
      requires Plumbing(entries, changes, kernel) && HasSlot(entries, fd) && |changes| <= changesSize
      requires (!useChangelist ==> changes == []) && events == Goal(entries, changes, kernel, fd)
      modifies `entries, `changes, `changesSize, `kernel
      ensures r == 0 && Plumbing(entries, changes, kernel)
      ensures |changes| <= changesSize && (!useChangelist ==> changes == [])
      ensures HasSlot(entries, fd) && entries == old(entries)[fd := old(entries)[fd].(idxplus1 := entries[fd].idxplus1)]
      ensures forall f :: Goal(entries, changes, kernel, f) ==
                          if f == fd then Union(events, res) else old(Goal(entries, changes, kernel, f))
    {
      hide Plumbing, Goal, Honest;
      SlotFacts(entries, changes, kernel, fd);
      if useChangelist {
        var idx := GetOrConstruct(fd, events);
        ChangeFacts(entries, changes, kernel, idx);
        RecordMeans(kernel, changes[idx], res);
        SetChange(entries, changes, kernel, idx, Record(changes[idx], res));
        changes := changes[idx := Record(changes[idx], res)];
        r := 0;
      } else {
        var ch := Record(EventChange(fd, events, 0, 0, 0), res);
        FreshChange(kernel, fd, events);
        RecordMeans(kernel, EventChange(fd, events, 0, 0, 0), res);
        TellKernel(entries, kernel, ch);
        var outcome := ApplyOneChange(kernel, ch);
        kernel, r := outcome.0, outcome.1;
      }
    }

    /** evsel->del: event_changelist_del_ or epoll_nochangelist_del. */
    method BackendDel(fd: int, events: Interest, res: Interest) returns (r: int)
      requires Plumbing(entries, changes, kernel) && HasSlot(entries, fd) && |changes| <= changesSize
      requires (!useChangelist ==> changes == []) && events == Goal(entries, changes, kernel, fd)
      requires Minus(res, events) == O
      modifies `entries, `changes, `changesSize, `kernel
      ensures r == 0 && Plumbing(entries, changes, kernel)
      ensures |changes| <= changesSize && (!useChangelist ==> changes == [])
      ensures HasSlot(entries, fd) && entries == old(entries)[fd := old(entries)[fd].(idxplus1 := entries[fd].idxplus1)]
      ensures forall f :: Goal(entries, changes, kernel, f) ==
                          if f == fd then Minus(events, res) else old(Goal(entries, changes, kernel, f))
    {
      hide Plumbing, Goal, Honest;
      SlotFacts(entries, changes, kernel, fd);
      if useChangelist {
        var idx := GetOrConstruct(fd, events);
        ChangeFacts(entries, changes, kernel, idx);
        RecordMeans(kernel, changes[idx], res);
        SetChange(entries, changes, kernel, idx, Unrecord(changes[idx], res));
        changes := changes[idx := Unrecord(changes[idx], res)];
        r := 0;
      } else {
        var ch := EventChange(fd, events, Deletion(res.read), Deletion(res.write), Deletion(res.close));
        FreshChange(kernel, fd, events);
        RecordMeans(kernel, EventChange(fd, events, 0, 0, 0), res);
        assert ch == Unrecord(EventChange(fd, events, 0, 0, 0), res);
        TellKernel(entries, kernel, ch);
        var outcome := ApplyOneChange(kernel, ch);
        kernel, r := outcome.0, outcome.1;
      }
    }

    /** evmap_make_space and GET_IO_SLOT_AND_CTOR: a slot for `fd`. */
    method MakeSlot(fd: nat)
      requires Valid()
      modifies `entries
      ensures Valid() && HasSlot(entries, fd) && forall f :: EventsOn(f) == old(EventsOn(f))
    {
      hide Plumbing, Goal, Counted;
      if |entries| <= fd {
        var n := if |entries| != 0 then |entries| else 32;
        while n <= fd
          invariant |entries| <= n && 0 < n
        {
          n := n * 2;
        }
        MoreEntries(entries, changes, kernel, n - |entries|);
        entries := entries + seq(n - |entries|, _ => NoSlot);
      }
      if entries[fd].NoSlot? {
        NewSlot(entries, changes, kernel, fd);
        entries := entries[fd := EMPTY_SLOT];
      }
    }

    /** evmap_io_add_: registers an event; -1 and no change when a count would overflow. */
    method IoAdd(ev: Event) returns (r: int)
      requires Valid()
      modifies `entries, `changes, `changesSize, `kernel
      ensures Valid()
      ensures r == -1 <==> 0 <= ev.fd && !Room(old(EventsOn(ev.fd)), ev)
      ensures forall f :: EventsOn(f) ==
                          if f == ev.fd && 0 <= f && r != -1 then [ev] + old(EventsOn(f)) else old(EventsOn(f))
    {
      hide Plumbing, Goal, Counted, Readers, Writers, Closers;
      if ev.fd < 0 {
        return 0;
      }
      MakeSlot(ev.fd);
      var e := entries[ev.fd];
      CountsAre(entries, ev.fd);
      var nread, nwrite, nclose :=
        e.nread + Bit(ev.mask.read), e.nwrite + Bit(ev.mask.write), e.nclose + Bit(ev.mask.close);
      if nread > MAX_EVENTS || nwrite > MAX_EVENTS || nclose > MAX_EVENTS {
        return -1;
      }
      r := Register(ev, nread, nwrite, nclose);
    }

    /** The rest of evmap_io_add_: tells the backend what became wanted, then stores list and counts. */
    method Register(ev: Event, nread: nat, nwrite: nat, nclose: nat) returns (r: int)
      requires Valid() && HasSlot(entries, ev.fd)
      requires var e := entries[ev.fd];
               nread == e.nread + Bit(ev.mask.read) && nwrite == e.nwrite + Bit(ev.mask.write) &&
               nclose == e.nclose + Bit(ev.mask.close)
      modifies `entries, `changes, `changesSize, `kernel
      ensures Valid() && 0 <= r
      ensures forall f :: EventsOn(f) == if f == ev.fd then [ev] + old(EventsOn(f)) else old(EventsOn(f))
    {
      hide Plumbing, Goal, Counted, Readers, Writers, Closers;
      var e := entries[ev.fd];
      ghost var pre := entries;
      CountsAre(entries, ev.fd);
      var was := Interest(e.nread > 0, e.nwrite > 0, e.nclose > 0);
      var res := Interest(ev.mask.read && nread == 1, ev.mask.write && nwrite == 1, ev.mask.close && nclose == 1);
      WantedMore(e.events, ev);
      r := 0;
      if res != O {
        var _ := BackendAdd(ev.fd, was, res);
        r := 1;
      }
      var e' := entries[ev.fd].(nread := nread, nwrite := nwrite, nclose := nclose, events := [ev] + e.events);
      SetList(entries, changes, kernel, ev.fd, e');
      StillCounted(pre, entries, ev.fd, e');
      ghost var goal := Goal(entries, changes, kernel, ev.fd);
      assert goal == Wanted(e'.events);
      entries := entries[ev.fd := e'];
      forall f
        ensures Goal(entries, changes, kernel, f) == Wanted(EventsOn(f))
      {
        assert old(Goal(entries, changes, kernel, f)) == Wanted(old(EventsOn(f)));
        assert f != ev.fd ==> EventsOn(f) == old(EventsOn(f));
      }
    }

    /** evmap_io_del_: withdraws a registered event. */
    method IoDel(ev: Event) returns (r: int)
      requires Valid() && (0 <= ev.fd < |entries| ==> ev in EventsOn(ev.fd))
      modifies `entries, `changes, `changesSize, `kernel
      ensures Valid()
      ensures r == -1 <==> ev.fd >= |old(entries)|
      ensures forall f :: EventsOn(f) == if f == ev.fd then Without(old(EventsOn(f)), ev) else old(EventsOn(f))
    {
      hide Plumbing, Goal, Counted, Readers, Writers, Closers;
      if ev.fd < 0 {
        return 0;
      }
      if ev.fd >= |entries| {
        return -1;
      }
      var e := entries[ev.fd];
      ghost var pre := entries;
      CountsAre(entries, ev.fd);
      CountsWithout(e.events, ev);
      var nread, nwrite, nclose :=
        e.nread - Bit(ev.mask.read), e.nwrite - Bit(ev.mask.write), e.nclose - Bit(ev.mask.close);
      assert nread >= 0 && nwrite >= 0 && nclose >= 0;
      var was := Interest(e.nread > 0, e.nwrite > 0, e.nclose > 0);
      var res := Interest(ev.mask.read && nread == 0, ev.mask.write && nwrite == 0, ev.mask.close && nclose == 0);
      r := 0;
      if res != O {
        var _ := BackendDel(ev.fd, was, res);
        r := 1;
      }
      var e' := entries[ev.fd].(nread := nread, nwrite := nwrite, nclose := nclose, events := Without(e.events, ev));
      WithoutFd(e.events, ev, ev.fd);
      SetList(entries, changes, kernel, ev.fd, e');
      StillCounted(pre, entries, ev.fd, e');
      ghost var goal := Goal(entries, changes, kernel, ev.fd);
      assert goal == Wanted(e'.events);
      entries := entries[ev.fd := e'];
      forall f
        ensures Goal(entries, changes, kernel, f) == Wanted(EventsOn(f))
      {
        assert old(Goal(entries, changes, kernel, f)) == Wanted(old(EventsOn(f)));
        assert f != ev.fd ==> EventsOn(f) == old(EventsOn(f));
      }
    }

    /** epoll_apply_changes, then event_changelist_remove_all_: what epoll_dispatch does before it waits. */
    method Dispatch()
      requires Valid()
      modifies `entries, `changes, `kernel
      ensures Valid() && changes == []
      ensures forall f :: EventsOn(f) == old(EventsOn(f))
      ensures forall f :: Watched(kernel, f) == Wanted(EventsOn(f))
    {
      hide Plumbing, Goal, Counted, Wanted;
      kernel := ApplyChanges(entries, changes, kernel);
      entries := RemoveAll(entries, changes, old(kernel), kernel);
      changes := [];
    }
  }

  lemma {:induction false} SlotFacts(entries: seq<FdSlot>, changes: seq<EventChange>, k: Kernel, fd: int)
    requires Plumbing(entries, changes, k) && HasSlot(entries, fd)
    ensures entries[fd].idxplus1 == 0 ==> Goal(entries, changes, k, fd) == Watched(k, fd)
    ensures entries[fd].idxplus1 > 0 ==> entries[fd].idxplus1 <= |changes| && changes[entries[fd].idxplus1 - 1].fd == fd
    ensures changes == [] ==> entries[fd].idxplus1 == 0
  {
  }

  lemma {:induction false} ChangeFacts(entries: seq<FdSlot>, changes: seq<EventChange>, k: Kernel, idx: nat)
    requires Plumbing(entries, changes, k) && idx < |changes|
    ensures Honest(k, changes[idx]) && Goal(entries, changes, k, changes[idx].fd) == After(changes[idx])
  {
  }

  lemma {:induction false} FreshChange(k: Kernel, fd: int, events: Interest)
    requires events == Watched(k, fd)
    ensures Honest(k, EventChange(fd, events, 0, 0, 0)) && After(EventChange(fd, events, 0, 0, 0)) == events
  {
  }

  /** The counts leave room for one more event. */
  ghost predicate Room(evs: seq<Event>, ev: Event)
  {
    && Readers(evs) + Bit(ev.mask.read) <= MAX_EVENTS && Writers(evs) + Bit(ev.mask.write) <= MAX_EVENTS
    && Closers(evs) + Bit(ev.mask.close) <= MAX_EVENTS
  }

  lemma {:induction false} MoreEntries(entries: seq<FdSlot>, changes: seq<EventChange>, k: Kernel, n: nat)
    requires Plumbing(entries, changes, k) && Counted(entries)
    ensures var entries' := entries + seq(n, _ => NoSlot);
            && Plumbing(entries', changes, k) && Counted(entries')
            && (forall f :: Goal(entries', changes, k, f) == Goal(entries, changes, k, f))
            && (forall f :: Listed(entries', f) == Listed(entries, f))
  {
    var entries' := entries + seq(n, _ => NoSlot);
    assert forall f :: HasSlot(entries', f) <==> HasSlot(entries, f);
    assert forall f :: HasSlot(entries, f) ==> entries'[f] == entries[f];
  }

  lemma {:induction false} NewSlot(entries: seq<FdSlot>, changes: seq<EventChange>, k: Kernel, fd: int)
    requires Plumbing(entries, changes, k) && Counted(entries) && 0 <= fd < |entries| && entries[fd].NoSlot?
    ensures var entries' := entries[fd := EMPTY_SLOT];
            && Plumbing(entries', changes, k) && Counted(entries')
            && (forall f :: Goal(entries', changes, k, f) == Goal(entries, changes, k, f))
            && (forall f :: Listed(entries', f) == Listed(entries, f))
  {
    var entries' := entries[fd := EMPTY_SLOT];
    assert forall f :: HasSlot(entries', f) <==> HasSlot(entries, f) || f == fd;
    assert forall f :: HasSlot(entries, f) ==> entries'[f] == entries[f];
  }

  lemma {:induction false} CountsAre(entries: seq<FdSlot>, fd: int)
    requires Counted(entries) && HasSlot(entries, fd)
    ensures SlotCounted(entries[fd], fd)
  {
  }

  /** One slot rewritten with right counts, and all counts are still right. */
  lemma {:induction false} StillCounted(was: seq<FdSlot>, entries: seq<FdSlot>, fd: int, e: FdSlot)
    requires Counted(was) && |was| == |entries| && 0 <= fd < |entries| && SlotCounted(e, fd)
    requires forall f :: 0 <= f < |was| && f != fd ==> entries[f] == was[f]
    ensures Counted(entries[fd := e])
  {
  }

  /** What is wanted with one event more. */
  lemma {:induction false} WantedMore(evs: seq<Event>, ev: Event)
    ensures Readers([ev] + evs) == Bit(ev.mask.read) + Readers(evs)
    ensures Writers([ev] + evs) == Bit(ev.mask.write) + Writers(evs)
    ensures Closers([ev] + evs) == Bit(ev.mask.close) + Closers(evs)
    ensures Wanted([ev] + evs) == Union(Wanted(evs), ev.mask)
  {
    assert ([ev] + evs)[1..] == evs;
  }

  lemma {:induction false} WithoutFd(evs: seq<Event>, ev: Event, fd: int)
    requires forall i :: 0 <= i < |evs| ==> evs[i].fd == fd
    ensures forall i :: 0 <= i < |Without(evs, ev)| ==> Without(evs, ev)[i].fd == fd
    decreases |evs|
  {
    if evs != [] && evs[0] != ev {
      WithoutFd(evs[1..], ev, fd);
    }
  }

  /** The kernel `k` after the first `n` changes were applied to `k0`. */
  ghost predicate Applying(entries: seq<FdSlot>, changes: seq<EventChange>, k0: Kernel, k: Kernel, n: nat)
  {
    && NoneEmpty(k) && (forall fd :: fd in k ==> HasSlot(entries, fd))
    && forall f :: Watched(k, f) ==
         if HasSlot(entries, f) && 0 < entries[f].idxplus1 <= n then Goal(entries, changes, k0, f) else Watched(k0, f)
  }

  lemma {:induction false} ApplyingStep(entries: seq<FdSlot>, changes: seq<EventChange>, k0: Kernel, k: Kernel, n: nat)
    requires Plumbing(entries, changes, k0) && Applying(entries, changes, k0, k, n) && n < |changes|
    ensures var (k', r) := ApplyOneChange(k, changes[n]); r == 0 && Applying(entries, changes, k0, k', n + 1)
  {
    hide ApplyOneChange;
    var ch := changes[n];
    assert Watched(k, ch.fd) == Watched(k0, ch.fd);
    ApplyHonest(k, ch);
    var (k', r) := ApplyOneChange(k, ch);
    forall fd | fd in k'
      ensures HasSlot(entries, fd)
    {
      assert Watched(k', fd) != O;
    }
  }

  /** epoll_apply_changes: every call succeeds, and each descriptor gets its goal. */
  method ApplyChanges(entries: seq<FdSlot>, changes: seq<EventChange>, kernel: Kernel) returns (k: Kernel)
    requires Plumbing(entries, changes, kernel)
    ensures Applying(entries, changes, kernel, k, |changes|)
  {
    hide ApplyOneChange;
    k := kernel;
    for i := 0 to |changes|
      invariant Applying(entries, changes, kernel, k, i)
    {
      ApplyingStep(entries, changes, kernel, k, i);
      k := ApplyOneChange(k, changes[i]).0;
    }
  }

  /** event_changelist_remove_all_: no descriptor has a change any more. */
  method RemoveAll(entries: seq<FdSlot>, changes: seq<EventChange>, ghost k0: Kernel, ghost k: Kernel)
    returns (r: seq<FdSlot>)
    requires Plumbing(entries, changes, k0) && Applying(entries, changes, k0, k, |changes|) && Counted(entries)
    ensures Plumbing(r, [], k) && Counted(r)
    ensures forall f :: Goal(r, [], k, f) == Goal(entries, changes, k0, f) == Watched(k, f)
    ensures forall f :: Listed(r, f) == Listed(entries, f)
  {
    r := entries;
    for i := 0 to |changes|
      invariant |r| == |entries|
      invariant forall f :: 0 <= f < |r| ==>
                            r[f] == if entries[f].Slot? && entries[f].idxplus1 <= i then entries[f].(idxplus1 := 0)
                                    else entries[f]
    {
      var fd := changes[i].fd;
      assert r[fd].idxplus1 == i + 1;
      r := r[fd := r[fd].(idxplus1 := 0)];
    }
    assert forall f :: HasSlot(r, f) <==> HasSlot(entries, f);
    assert forall f :: HasSlot(entries, f) ==> r[f].idxplus1 == 0;
  }

  /** A step of the program: register, withdraw, or let the loop dispatch. */
  datatype Step = AddStep(ev: Event) | DelStep(ev: Event) | DispatchStep

  /** The registrations after one step, for each descriptor; a count at its limit refuses the event. */
  ghost function StepOn(evs: seq<Event>, fd: int, s: Step): seq<Event>
  {
    match s
    case AddStep(ev) => if ev.fd == fd && 0 <= fd && Room(evs, ev) then [ev] + evs else evs
    case DelStep(ev) => if ev.fd == fd then Without(evs, ev) else evs
    case DispatchStep => evs
  }

  ghost function RunOn(steps: seq<Step>, fd: int): seq<Event>
    decreases |steps|
  {
    if steps == [] then [] else StepOn(RunOn(steps[..|steps| - 1], fd), fd, steps[|steps| - 1])
  }

  /** Only events that are registered, on descriptors that can be, are withdrawn. */
  ghost predicate WellUsed(steps: seq<Step>)
  {
    forall i :: 0 <= i < |steps| && steps[i].DelStep? ==>
      0 <= steps[i].ev.fd && steps[i].ev in RunOn(steps[..i], steps[i].ev.fd)
  }

  /**
   Any run, on either backend: after a final dispatch the kernel watches on every descriptor exactly
   what the registrations want, so both backends leave the same kernel state.
   */
  method Run(steps: seq<Step>, useChangelist: bool) returns (base: EventBase)
    requires WellUsed(steps)
    ensures base.Valid() && fresh(base)
    ensures forall fd :: base.EventsOn(fd) == RunOn(steps, fd)
    ensures steps != [] && steps[|steps| - 1].DispatchStep? ==>
              forall fd :: Watched(base.kernel, fd) == Wanted(RunOn(steps, fd))
    ensures !useChangelist ==> forall fd :: Watched(base.kernel, fd) == Wanted(RunOn(steps, fd))
  {
    hide Plumbing, Goal, Counted, Wanted, Readers, Writers, Closers, Without;
    base := new EventBase(useChangelist);
    assert steps[..0] == [];
    for i := 0 to |steps|
      invariant base.Valid() && fresh(base) && base.useChangelist == useChangelist
      invariant forall fd :: base.EventsOn(fd) == RunOn(steps[..i], fd)
      invariant i > 0 && steps[i - 1].DispatchStep? ==>
                forall fd :: Watched(base.kernel, fd) == Wanted(base.EventsOn(fd))
    {
      assert steps[..i + 1][..i] == steps[..i];
      match steps[i] {
        case AddStep(ev) =>
          var _ := base.IoAdd(ev);
        case DelStep(ev) =>
          assert ev in base.EventsOn(ev.fd);
          var _ := base.IoDel(ev);
        case DispatchStep =>
          base.Dispatch();
      }
    }
    assert steps[..|steps|] == steps;
    if !useChangelist {
      AtOnce(base.entries, base.kernel);
    }
  }

  lemma {:induction false} AtOnce(entries: seq<FdSlot>, k: Kernel)
    ensures forall fd :: Goal(entries, [], k, fd) == Watched(k, fd)
  {
  }
}
