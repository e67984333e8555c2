/**
 A rate-limited bufferevent: the reasons for which reading or writing is suspended, the
 read and write events, the buckets, and the timer that refills them.
 */
module Bufferevent {
  import opened Wrappers
  import opened Sequences
  import opened TokenBucket

  /** The BEV_SUSPEND_ flags. */
  datatype Reason = Watermark | Bandwidth | BandwidthGroup | Lookup | FilterRead

  datatype RateCfg = RateCfg(read: Cfg, write: Cfg, id: nat)

  ghost predicate RateCfgOk(c: RateCfg)
  {
    CfgOk(c.read) && CfgOk(c.write)
  }

  class BuffereventPrivate {
    var enabledRead: bool
    var enabledWrite: bool
    var readSuspended: set<Reason>
    var writeSuspended: set<Reason>
    /** `ev_read` and `ev_write` are added to the event base. */
    var readArmed: bool
    var writeArmed: bool
    var connecting: bool
    /** `rate_limiting` is allocated, and its configuration. */
    var limiting: bool
    var cfg: Option<RateCfg>
    var readLimit: int
    var writeLimit: int
    var lastUpdated: nat
    /** `refill_bucket_event` is pending. */
    var refillPending: bool
    var maxSingleRead: nat
    var maxSingleWrite: nat

    /** No wake-up is lost: whoever waits for bandwidth has the refill timer running. */
    ghost predicate WakeUpSafe()
      reads this
    {
      && (Bandwidth in readSuspended || Bandwidth in writeSuspended ==> refillPending && cfg.Some?)
      && (cfg.Some? ==> limiting)
    }

    /** The read event is armed exactly when reading is enabled and nothing suspends it. */
    ghost predicate ReadArmedRight()
      reads this
    {
      readArmed <==> enabledRead && readSuspended == {}
    }

    ghost predicate BucketsOk()
      reads this
    {
      && lastUpdated < U32 && Signed64(readLimit) && Signed64(writeLimit)
      && (cfg.Some? ==> RateCfgOk(cfg.value))
    }

    /** Neither bucket is above its maximum; only refunds put one there. */
    ghost predicate Within()
      reads this
    {
      cfg.Some? ==> readLimit <= cfg.value.read.maximum && writeLimit <= cfg.value.write.maximum
    }

    /** Whoever has an empty bucket is suspended. */
    ghost predicate EmptySuspended()
      reads this
    {
      cfg.Some? ==>
        && (readLimit <= 0 ==> Bandwidth in readSuspended)
        && (writeLimit <= 0 ==> Bandwidth in writeSuspended)
    }

    ghost predicate Valid()
      reads this
    {
      WakeUpSafe() && ReadArmedRight() && BucketsOk()
    }

    constructor (maxRead: nat, maxWrite: nat)
      ensures Valid() && Within() && EmptySuspended() && cfg == None && readSuspended == {} && writeSuspended == {}
    {
      enabledRead, enabledWrite, readSuspended, writeSuspended := false, false, {}, {};
      readArmed, writeArmed, connecting, limiting, cfg := false, false, false, false, None;
      readLimit, writeLimit, lastUpdated, refillPending := 0, 0, 0, false;
      maxSingleRead, maxSingleWrite := maxRead, maxWrite;
    }

    /** be_socket_disable */
    method Disarm(read: bool, write: bool)
      modifies `readArmed, `writeArmed
      ensures readArmed == (old(readArmed) && !read)
      ensures writeArmed == (old(writeArmed) && !(write && !connecting))
    {
      if read {
        readArmed := false;
      }
      if write && !connecting {
        writeArmed := false;
      }
    }

    /** be_socket_enable, when event_add succeeds. */
    method Arm(read: bool, write: bool)
      modifies `readArmed, `writeArmed
      ensures readArmed == (old(readArmed) || read) && writeArmed == (old(writeArmed) || write)
    {
      if read {
        readArmed := true;
      }
      if write {
        writeArmed := true;
      }
    }

    /** bufferevent_suspend_read_ */
    method SuspendRead(what: Reason)
      requires ReadArmedRight()
      modifies `readSuspended, `readArmed, `writeArmed
      ensures ReadArmedRight() && readSuspended == old(readSuspended) + {what} && writeArmed == old(writeArmed)
    {
      if readSuspended == {} {
        Disarm(true, false);
      }
      readSuspended := readSuspended + {what};
    }

    /** bufferevent_unsuspend_read_ */
    method UnsuspendRead(what: Reason)
      requires ReadArmedRight()
      modifies `readSuspended, `readArmed, `writeArmed
      ensures ReadArmedRight() && readSuspended == old(readSuspended) - {what} && writeArmed == old(writeArmed)
    {
      readSuspended := readSuspended - {what};
      if readSuspended == {} && enabledRead {
        Arm(true, false);
      }
    }

    /** bufferevent_suspend_write_ */
    method SuspendWrite(what: Reason)
      requires ReadArmedRight()
      modifies `writeSuspended, `readArmed, `writeArmed
      ensures ReadArmedRight() && writeSuspended == old(writeSuspended) + {what}
      ensures old(writeSuspended) == {} && !connecting ==> !writeArmed
    {
      if writeSuspended == {} {
        Disarm(false, true);
      }
      writeSuspended := writeSuspended + {what};
    }

    /** bufferevent_unsuspend_write_ */
    method UnsuspendWrite(what: Reason)
      requires ReadArmedRight()
      modifies `writeSuspended, `readArmed, `writeArmed
      ensures ReadArmedRight() && writeSuspended == old(writeSuspended) - {what}
      ensures writeSuspended == {} && enabledWrite ==> writeArmed
    {
      writeSuspended := writeSuspended - {what};
      if writeSuspended == {} && enabledWrite {
        Arm(false, true);
      }
    }

    /** bufferevent_enable */
    method Enable(read: bool, write: bool)
      requires Valid()
      modifies `enabledRead, `enabledWrite, `readArmed, `writeArmed
      ensures Valid() && enabledRead == (old(enabledRead) || read) && enabledWrite == (old(enabledWrite) || write)
      ensures write && writeSuspended == {} ==> writeArmed
    {
      var implRead, implWrite := read && readSuspended == {}, write && writeSuspended == {};
      enabledRead, enabledWrite := enabledRead || read, enabledWrite || write;
      if implRead || implWrite {
        Arm(implRead, implWrite);
      }
    }

    /** bufferevent_disable */
    method Disable(read: bool, write: bool)
      requires Valid()
      modifies `enabledRead, `enabledWrite, `readArmed, `writeArmed
      ensures Valid() && enabledRead == (old(enabledRead) && !read) && enabledWrite == (old(enabledWrite) && !write)
      ensures writeArmed == (old(writeArmed) && !(write && !connecting))
    {
      enabledRead, enabledWrite := enabledRead && !read, enabledWrite && !write;
      Disarm(read, write);
    }

    /** ev_token_bucket_update_ on both limits. */
    method UpdateBuckets(now: nat)
      requires BucketsOk() && cfg.Some? && now < U32
      modifies `readLimit, `writeLimit, `lastUpdated
      ensures BucketsOk()
      ensures var n := Ticks(now, old(lastUpdated));
              if n == 0 || n > INT_MAX then
                readLimit == old(readLimit) && writeLimit == old(writeLimit) && lastUpdated == old(lastUpdated)
              else
                && readLimit == Refilled(old(readLimit), cfg.value.read, n)
                && writeLimit == Refilled(old(writeLimit), cfg.value.write, n)
                && lastUpdated == now
      ensures old(Within()) ==> Within() && old(readLimit) <= readLimit && old(writeLimit) <= writeLimit
    {
      var n := Ticks(now, lastUpdated);
      if n == 0 || n > INT_MAX {
        return;
      }
      hide Refilled;
      var c := cfg.value;
      RefilledIsMin(readLimit, c.read, n);
      RefilledIsMin(writeLimit, c.write, n);
      Positive(n, c.read.rate);
      Positive(n, c.write.rate);
      readLimit := Refilled(readLimit, c.read, n);
      writeLimit := Refilled(writeLimit, c.write, n);
      lastUpdated := now;
    }

    /** bufferevent_get_rlim_max_ for reading, without a group. */
    method GetReadMax(now: nat) returns (max: nat)
      requires Valid() && now < U32
      modifies `readLimit, `writeLimit, `lastUpdated
      ensures Valid() && max == if cfg.Some? then Allowed(readLimit) else maxSingleRead
      ensures cfg.None? ==> readLimit == old(readLimit)
      ensures cfg.Some? ==>
                var b := Updated(Bucket(old(readLimit), old(lastUpdated), 0, 0), cfg.value.read, now);
                readLimit == b.limit && lastUpdated == b.last
      ensures old(Within()) ==> Within() && (old(EmptySuspended()) ==> EmptySuspended())
    {
      hide Refilled;
      max := maxSingleRead;
      if !limiting {
        return;
      }
      if cfg.Some? {
        if now != lastUpdated {
          UpdateBuckets(now);
        }
        max := if readLimit < 0 then 0 else readLimit;
      }
    }

    /** bufferevent_decrement_read_buckets_, when event_add succeeds. */
    method DecrementRead(bytes: int)
      requires Valid() && (cfg.Some? ==> Signed64(readLimit - bytes))
      modifies `readLimit, `readSuspended, `readArmed, `writeArmed, `refillPending
      ensures Valid()
      ensures cfg.Some? ==> readLimit == old(readLimit) - bytes && (Bandwidth in readSuspended <==> readLimit <= 0)
      ensures cfg.None? ==> readLimit == old(readLimit) && readSuspended == old(readSuspended)
      ensures readSuspended - {Bandwidth} == old(readSuspended) - {Bandwidth}
      ensures 0 <= bytes && old(Within()) ==> Within()
      ensures old(EmptySuspended()) ==> EmptySuspended()
    {
      if !limiting {
        return;
      }
      if cfg.Some? {
        readLimit := readLimit - bytes;
        if readLimit <= 0 {
          SuspendRead(Bandwidth);
          refillPending := true;
        } else if Bandwidth in readSuspended {
          if Bandwidth !in writeSuspended {
            refillPending := false;
          }
          UnsuspendRead(Bandwidth);
        }
      }
    }

    /** bufferevent_decrement_write_buckets_, when event_add succeeds. */
    method DecrementWrite(bytes: int)
      requires Valid() && (cfg.Some? ==> Signed64(writeLimit - bytes))
      modifies `writeLimit, `writeSuspended, `readArmed, `writeArmed, `refillPending
      ensures Valid()
      ensures cfg.Some? ==> writeLimit == old(writeLimit) - bytes && (Bandwidth in writeSuspended <==> writeLimit <= 0)
      ensures cfg.None? ==> writeLimit == old(writeLimit) && writeSuspended == old(writeSuspended)
      ensures writeSuspended - {Bandwidth} == old(writeSuspended) - {Bandwidth}
      ensures 0 <= bytes && old(Within()) ==> Within()
      ensures old(EmptySuspended()) ==> EmptySuspended()
    {
      if !limiting {
        return;
      }
      if cfg.Some? {
        writeLimit := writeLimit - bytes;
        if writeLimit <= 0 {
          SuspendWrite(Bandwidth);
          refillPending := true;
        } else if Bandwidth in writeSuspended {
          if Bandwidth !in readSuspended {
            refillPending := false;
          }
          UnsuspendWrite(Bandwidth);
        }
      }
    }

    /**
     bufferevent_decrement_read_limit, when event_add succeeds: the application takes from the bucket, or
     gives back. It looks at whether the limit crosses zero, not at the flag.
     */
    method DecrementReadLimit(decr: int)
      requires Valid() && cfg.Some? && Signed64(readLimit - decr)
      modifies `readLimit, `readSuspended, `readArmed, `writeArmed, `refillPending
      ensures Valid() && readLimit == old(readLimit) - decr
      ensures old(readLimit) > 0 >= readLimit ==> Bandwidth in readSuspended
      ensures old(readLimit) <= 0 < readLimit ==> Bandwidth !in readSuspended
      ensures readSuspended - {Bandwidth} == old(readSuspended) - {Bandwidth}
      ensures 0 <= decr && old(Within()) ==> Within()
      ensures old(EmptySuspended()) ==> EmptySuspended()
    {
      var oldLimit := readLimit;
      readLimit := readLimit - decr;
      if oldLimit > 0 && readLimit <= 0 {
        SuspendRead(Bandwidth);
        refillPending := true;
      } else if oldLimit <= 0 && readLimit > 0 {
        if Bandwidth !in writeSuspended {
          refillPending := false;
        }
        UnsuspendRead(Bandwidth);
      }
    }

    /**
     bufferevent_decrement_write_limit, when event_add succeeds: the application takes from the bucket, or
     gives back. It looks at whether the limit crosses zero, not at the flag.
     */
    method DecrementWriteLimit(decr: int)
      requires Valid() && cfg.Some? && Signed64(writeLimit - decr)
      modifies `writeLimit, `writeSuspended, `readArmed, `writeArmed, `refillPending
      ensures Valid() && writeLimit == old(writeLimit) - decr
      ensures old(writeLimit) > 0 >= writeLimit ==> Bandwidth in writeSuspended
      ensures old(writeLimit) <= 0 < writeLimit ==> Bandwidth !in writeSuspended
      ensures writeSuspended - {Bandwidth} == old(writeSuspended) - {Bandwidth}
      ensures 0 <= decr && old(Within()) ==> Within()
      ensures old(EmptySuspended()) ==> EmptySuspended()
    {
      var oldLimit := writeLimit;
      writeLimit := writeLimit - decr;
      if oldLimit > 0 && writeLimit <= 0 {
        SuspendWrite(Bandwidth);
        refillPending := true;
      } else if oldLimit <= 0 && writeLimit > 0 {
        if Bandwidth !in readSuspended {
          refillPending := false;
        }
        UnsuspendWrite(Bandwidth);
      }
    }

    /** bev_refill_callback_: the timer fired, so it is pending no more. */
    method RefillCallback(now: nat)
      requires Valid() && refillPending && now < U32
      modifies this
      ensures Valid() && cfg == old(cfg) && enabledRead == old(enabledRead) && enabledWrite == old(enabledWrite)
      ensures cfg.Some? ==> (Bandwidth in readSuspended <==> Bandwidth in old(readSuspended) && readLimit <= 0)
      ensures cfg.Some? ==> (Bandwidth in writeSuspended <==> Bandwidth in old(writeSuspended) && writeLimit <= 0)
      ensures cfg.Some? ==>
                var n := Ticks(now, old(lastUpdated));
                lastUpdated == (if n > INT_MAX then old(lastUpdated) else now) &&
                readLimit == if n == 0 || n > INT_MAX then old(readLimit)
                             else Refilled(old(readLimit), cfg.value.read, n)
      ensures old(Within()) ==> Within() && (old(EmptySuspended()) ==> EmptySuspended())
      ensures readSuspended - {Bandwidth} == old(readSuspended) - {Bandwidth}
      ensures writeSuspended - {Bandwidth} == old(writeSuspended) - {Bandwidth}
    {
      hide Refilled;
      refillPending := false;
      if !limiting || cfg.None? {
        return;
      }
      UpdateBuckets(now);
      var again := false;
      if Bandwidth in readSuspended {
        if readLimit > 0 {
          UnsuspendRead(Bandwidth);
        } else {
          again := true;
        }
      }
      if Bandwidth in writeSuspended {
        if writeLimit > 0 {
          UnsuspendWrite(Bandwidth);
        } else {
          again := true;
        }
      }
      if again {
        refillPending := true;
      }
    }

    /** ev_token_bucket_init_ */
    method InitBuckets(c: RateCfg, now: nat, reinitialize: bool)
      requires now < U32 && RateCfgOk(c) && BucketsOk()
      modifies `readLimit, `writeLimit, `lastUpdated
      ensures readLimit <= c.read.maximum && writeLimit <= c.write.maximum && lastUpdated < U32
      ensures Signed64(readLimit) && Signed64(writeLimit)
      ensures reinitialize ==>
                && readLimit == Min(old(readLimit), c.read.maximum)
                && writeLimit == Min(old(writeLimit), c.write.maximum)
                && lastUpdated == old(lastUpdated)
      ensures !reinitialize ==> readLimit == c.read.rate && writeLimit == c.write.rate && lastUpdated == now
    {
      if reinitialize {
        if readLimit > c.read.maximum {
          readLimit := c.read.maximum;
        }
        if writeLimit > c.write.maximum {
          writeLimit := c.write.maximum;
        }
      } else {
        readLimit, writeLimit, lastUpdated := c.read.rate, c.write.rate, now;
      }
    }

    /** bufferevent_set_rate_limit */
    method SetRateLimit(c: Option<RateCfg>, now: nat)
      requires Valid() && now < U32 && (c.Some? ==> RateCfgOk(c.value))
      modifies this
      ensures Valid() && enabledRead == old(enabledRead) && enabledWrite == old(enabledWrite)
      ensures cfg == c
      ensures c.Some? ==>
                readLimit == if c == old(cfg) then old(readLimit)
                             else if old(cfg).Some? then Min(old(readLimit), c.value.read.maximum)
                             else c.value.read.rate
      ensures c.None? && limiting ==> Bandwidth !in readSuspended && Bandwidth !in writeSuspended && !refillPending
      ensures c.Some? && c != old(cfg) ==>
                && (Bandwidth in readSuspended <==> readLimit <= 0)
                && (Bandwidth in writeSuspended <==> writeLimit <= 0)
                && (refillPending ==> Bandwidth in readSuspended || Bandwidth in writeSuspended || old(cfg).None?)
      ensures readSuspended - {Bandwidth} == old(readSuspended) - {Bandwidth}
      ensures writeSuspended - {Bandwidth} == old(writeSuspended) - {Bandwidth}
      ensures c != old(cfg) || old(Within() && EmptySuspended()) ==> Within() && EmptySuspended()
    {
      if c.None? {
        if limiting {
          cfg := None;
          UnsuspendRead(Bandwidth);
          UnsuspendWrite(Bandwidth);
          refillPending := false;
        }
        return;
      }
      if limiting && cfg == c {
        return;
      }
      limiting := true;
      var reinit, suspended := cfg.Some?, false;
      InitBuckets(c.value, now, reinit);
      cfg := c;
      if reinit {
        refillPending := false;
      }
      if readLimit > 0 {
        UnsuspendRead(Bandwidth);
      } else {
        SuspendRead(Bandwidth);
        suspended := true;
      }
      if writeLimit > 0 {
        UnsuspendWrite(Bandwidth);
      } else {
        SuspendWrite(Bandwidth);
        suspended := true;
      }
      if suspended {
        refillPending := true;
      }
    }
  }

  lemma {:induction false} RefillAgrees(limit: int, c: Cfg, last: nat, now: nat)
    requires CfgOk(c) && Signed64(limit) && limit <= c.maximum && last < U32 && now < U32
    ensures var n := Ticks(now, last);
            0 < n ==> Refilled(limit, c, n) == Min(c.maximum, limit + n * c.rate)
    ensures now == last ==> Ticks(now, last) == 0
  {
    hide Refilled;
    if 0 < Ticks(now, last) {
      RefilledIsMin(limit, c, Ticks(now, last));
    }
  }

  // ---- one read

  /** What a read of the socket would give: bytes, of which there may be none at the end of the file, an
      error after which it can be tried again, or one that ends it. */
  datatype Socket = Readable(available: nat) | Retriable | Broken

  /** The high watermark leaves no room in the input. */
  predicate Full(room: Option<int>) {
    room.Some? && room.value <= 0
  }

  /** The allowance, or what the watermark leaves of it. */
  function Share(room: Option<int>, allowed: nat): (share: nat)
    ensures share <= allowed
  {
    if room.None? || room.value < 0 || room.value > allowed then allowed else room.value
  }

  const EVBUFFER_MAX_READ := 4096

  /** An allowance handed on as an `int`. */
  function AsInt(n: nat): int {
    (n + 0x8000_0000) % U32 - 0x8000_0000
  }

  /** How many bytes evbuffer_read asks the socket for, of which `available` can be read. */
  function Asked(available: nat, allowed: nat): nat {
    var most := if available == 0 || available > EVBUFFER_MAX_READ then EVBUFFER_MAX_READ else available;
    var howmuch := AsInt(allowed);
    if howmuch < 0 || howmuch > most then most else howmuch
  }

  /** How many bytes are read. */
  function Taken(socket: Socket, share: nat): nat {
    if socket.Readable? then Min(socket.available, Asked(socket.available, share)) else 0
  }

  /** Never more than is allowed is asked for, and nothing, which reads as end of file, if and only if the
      allowance is a multiple of 2^32. */
  lemma {:induction false} AskedAllowed(available: nat, allowed: nat)
    ensures Asked(available, allowed) <= allowed
    ensures Asked(available, allowed) == 0 <==> allowed % U32 == 0
    ensures allowed < 0x8000_0000 && available <= EVBUFFER_MAX_READ ==>
              Min(available, Asked(available, allowed)) == Min(available, allowed)
  {
    var q, r := allowed / U32, allowed % U32;
    assert allowed == q * U32 + r;
    assert AsInt(allowed) == if r < 0x8000_0000 then r else r - U32;
  }

  // ---- whole runs

  /** Anything that can happen to a bufferevent; times are ticks that do not wrap around. */
  datatype Act =
    | SwitchOn(read: bool, write: bool)
    | SwitchOff(read: bool, write: bool)
    | Hold(why: Reason)
    | Release(why: Reason)
    | HoldWrite(why: Reason)
    | ReleaseWrite(why: Reason)
    | ReadReady(socket: Socket, room: Option<int>)
    | Wrote(bytes: nat)
    | Adjust(read: bool, decr: int)
    | TimerFires
    | Configure(cfg: Option<RateCfg>)

  datatype Timed = Timed(act: Act, time: nat)

  /** Only the rate limiter suspends for bandwidth, and configurations are sound. */
  ghost predicate Allows(act: Act)
  {
    match act
    case Hold(why) => why != Bandwidth
    case Release(why) => why != Bandwidth
    case HoldWrite(why) => why != Bandwidth
    case ReleaseWrite(why) => why != Bandwidth
    case Configure(cfg) => cfg.Some? ==> RateCfgOk(cfg.value)
    case _ => true
  }

  /** Time does not go back, and only the rate limiter suspends for bandwidth. */
  ghost predicate History(acts: seq<Timed>, start: nat)
  {
    && (forall i :: 0 <= i < |acts| ==> start <= acts[i].time)
    && (forall i, j :: 0 <= i < j < |acts| ==> acts[i].time <= acts[j].time)
    && (forall i :: 0 <= i < |acts| ==> Allows(acts[i].act))
  }

  predicate Refund(act: Act)
  {
    act.Adjust? && act.decr < 0
  }

  /** Nothing is given back to a bucket. */
  ghost predicate NoRefunds(acts: seq<Timed>)
  {
    forall i :: 0 <= i < |acts| ==> !Refund(acts[i].act)
  }

  ghost predicate Unchanged(acts: seq<Timed>)
  {
    forall i :: 0 <= i < |acts| ==> !acts[i].act.Configure?
  }

  /** What was read, and that with what is left, is covered by the maximum and the ticks from `start` to `last`. */
  ghost predicate Covered(cfg: Option<RateCfg>, limit: int, updated: nat, total: nat, start: nat, last: nat)
  {
    cfg.Some? ==>
      var c := cfg.value.read;
      && start <= last && last % U32 == updated
      && total <= c.maximum + (last - start) * c.rate
      && total + limit <= c.maximum + (last - start) * c.rate
  }

  ghost predicate Spent(bev: BuffereventPrivate, total: nat, start: nat, last: nat)
    reads bev
  {
    Covered(bev.cfg, bev.readLimit, bev.lastUpdated, total, start, last)
  }

  /**
   Every run keeps the invariant: no wake-up is lost, and the read event is armed when it should be.
   Without refunds no bucket passes its maximum, and an empty one always has its side suspended.
   While the configuration also stays, the bytes read are at most the maximum plus the rate times the
   elapsed ticks, even when the 32-bit tick counter wraps around.
   */
  method Run(bev: BuffereventPrivate, acts: seq<Timed>, start: nat) returns (total: nat)
    requires bev.Valid() && History(acts, start)
    modifies bev
    ensures bev.Valid()
    ensures NoRefunds(acts) && old(bev.Within() && bev.EmptySuspended()) ==> bev.Within() && bev.EmptySuspended()
    ensures NoRefunds(acts) && Unchanged(acts) && old(bev.Within() && bev.EmptySuspended()) &&
            old(bev.cfg).Some? && old(bev.lastUpdated) == start % U32 && acts != [] ==>
              var c := old(bev.cfg).value.read;
              total <= c.maximum + (acts[|acts| - 1].time - start) * c.rate
  {
    total := 0;
    ghost var last: nat := start;
    ghost var tidy := bev.Within() && bev.EmptySuspended();
    ghost var onTime := bev.cfg.Some? ==> bev.lastUpdated == start % U32;
    for i := 0 to |acts|
      invariant bev.Valid() && (i > 0 ==> last <= acts[i - 1].time) && (i == 0 ==> last == start)
      invariant NoRefunds(acts[..i]) && tidy ==> bev.Within() && bev.EmptySuspended()
      invariant NoRefunds(acts[..i]) && tidy && onTime && Unchanged(acts[..i]) ==>
                bev.cfg == old(bev.cfg) && Spent(bev, total, start, last)
    {
      UnchangedNext(acts, i);
      hide Covered, Unchanged, NoRefunds;
      total, last := Perform(bev, acts[i], total, start, last);
    }
    assert acts[..|acts|] == acts;
    if NoRefunds(acts) && Unchanged(acts) && tidy && onTime && bev.cfg.Some? && acts != [] {
      MoreTicks(last - start, acts[|acts| - 1].time - start, bev.cfg.value.read.rate);
    }
  }

  lemma {:induction false} UnchangedNext(acts: seq<Timed>, i: nat)
    requires i < |acts|
    ensures Unchanged(acts[..i + 1]) ==> Unchanged(acts[..i]) && !acts[i].act.Configure?
    ensures NoRefunds(acts[..i + 1]) ==> NoRefunds(acts[..i]) && !Refund(acts[i].act)
  {
    assert acts[..i + 1][i] == acts[i];
    assert forall j :: 0 <= j < i ==> acts[..i + 1][j] == acts[..i][j];
  }

  /** One event keeps the invariant, and, unless it refunds or configures, the account. */
  method Perform(bev: BuffereventPrivate, a: Timed, total: nat, ghost start: nat, ghost last: nat)
    returns (total': nat, ghost last': nat)
    requires bev.Valid() && last <= a.time && Allows(a.act)
    modifies bev
    ensures bev.Valid() && last' <= a.time
    ensures !Refund(a.act) && old(bev.Within() && bev.EmptySuspended()) ==> bev.Within() && bev.EmptySuspended()
    ensures !Refund(a.act) && !a.act.Configure? ==>
              && bev.cfg == old(bev.cfg)
              && (old(bev.Within() && Spent(bev, total, start, last)) ==> Spent(bev, total', start, last'))
  {
    total', last' := total, last;
    if a.act.SwitchOn? || a.act.SwitchOff? || a.act.Hold? || a.act.Release? || a.act.HoldWrite? || a.act.ReleaseWrite? {
      hide Covered;
      Flip(bev, a.act);
      return;
    }
    if a.act.Adjust? {
      AdjustLimit(bev, a.act.read, a.act.decr);
      return;
    }
    hide Covered;
    match a.act {
      case ReadReady(socket, room) =>
        total', last' := ReadSome(bev, a.time, socket, room, total, start, last);
      case Wrote(bytes) =>
        if bev.cfg.None? || bev.writeLimit - bytes >= -I64 {
          bev.DecrementWrite(bytes);
        }
      case TimerFires =>
        if bev.refillPending {
          last' := Fire(bev, a.time, total, start, last);
        }
      case Configure(cfg) =>
        bev.SetRateLimit(cfg, a.time % U32);
      case _ =>
    }
  }

  /** Switches and reasons other than bandwidth leave the buckets alone. */
  method Flip(bev: BuffereventPrivate, act: Act)
    requires bev.Valid() && Allows(act)
    modifies bev
    ensures bev.Valid() && bev.cfg == old(bev.cfg) && bev.lastUpdated == old(bev.lastUpdated)
    ensures bev.readLimit == old(bev.readLimit) && bev.writeLimit == old(bev.writeLimit)
    ensures Bandwidth in bev.readSuspended <==> Bandwidth in old(bev.readSuspended)
    ensures Bandwidth in bev.writeSuspended <==> Bandwidth in old(bev.writeSuspended)
  {
    match act {
      case SwitchOn(read, write) => bev.Enable(read, write);
      case SwitchOff(read, write) => bev.Disable(read, write);
      case Hold(why) => bev.SuspendRead(why);
      case Release(why) => bev.UnsuspendRead(why);
      case HoldWrite(why) => bev.SuspendWrite(why);
      case ReleaseWrite(why) => bev.UnsuspendWrite(why);
      case _ =>
    }
  }

  /** The application asks only with a configuration, and not beyond 64 bits. */
  method AdjustLimit(bev: BuffereventPrivate, read: bool, decr: int)
    requires bev.Valid()
    modifies bev
    ensures bev.Valid() && bev.cfg == old(bev.cfg) && bev.lastUpdated == old(bev.lastUpdated)
    ensures 0 <= decr ==> bev.readLimit <= old(bev.readLimit)
    ensures 0 <= decr && old(bev.Within() && bev.EmptySuspended()) ==> bev.Within() && bev.EmptySuspended()
  {
    if bev.cfg.Some? {
      if read && -I64 <= bev.readLimit - decr < I64 {
        bev.DecrementReadLimit(decr);
      } else if !read && -I64 <= bev.writeLimit - decr < I64 {
        bev.DecrementWriteLimit(decr);
      }
    }
  }

  lemma {:induction false} MoreTicks(a: nat, b: nat, r: nat)
    requires a <= b
    ensures a * r <= b * r
  {
  }

  /** The tick counter as an update sees it: what is credited is no more than what passed. */
  lemma {:induction false} Credit(last: nat, t: nat, start: nat, c: Cfg)
    requires start <= last <= t
    ensures var n := Ticks(t % U32, last % U32);
            && last + n <= t && (last + n) % U32 == t % U32
            && (last + n - start) * c.rate == (last - start) * c.rate + n * c.rate && 0 <= n * c.rate
  {
    var n := Ticks(t % U32, last % U32);
    TicksPassed(last / U32, last % U32, t / U32, t % U32);
    Spread(last - start, n, c.rate);
  }

  /** Two times given by their quotients and remainders. */
  lemma {:induction false} TicksPassed(p: nat, a: nat, q: nat, b: nat)
    requires a < U32 && b < U32 && p * U32 + a <= q * U32 + b
    ensures var n := Ticks(b, a);
            p * U32 + a + n <= q * U32 + b && (p * U32 + a + n) % U32 == b
  {
    if b >= a {
      assert Ticks(b, a) == b - a;
      Remainder(p, b);
    } else {
      assert Ticks(b, a) == b + U32 - a;
      assert p < q;
      Remainder(p + 1, b);
    }
  }

  lemma {:induction false} Remainder(p: nat, b: nat)
    requires b < U32
    ensures (p * U32 + b) % U32 == b
  {
  }

  lemma {:induction false} Spread(a: nat, b: nat, r: nat)
    ensures (a + b) * r == a * r + b * r && 0 <= b * r
  {
  }

  /** Where the account stands after an update at time `t`. */
  ghost function Credited(bev: BuffereventPrivate, t: nat, last: nat): nat
    requires bev.lastUpdated < U32
    reads bev
  {
    var n := Ticks(t % U32, bev.lastUpdated);
    if bev.cfg.None? || n > INT_MAX then last else last + n
  }

  /** Updating the bucket keeps the account. */
  lemma {:induction false} UpdateKeeps(limit: int, c: Cfg, total: nat, start: nat, last: nat, t: nat)
    requires CfgOk(c) && Signed64(limit) && limit <= c.maximum && start <= last <= t
    requires total <= c.maximum + (last - start) * c.rate && total + limit <= c.maximum + (last - start) * c.rate
    ensures var n := Ticks(t % U32, last % U32);
            && last + n <= t && (last + n) % U32 == t % U32
            && total <= c.maximum + (last + n - start) * c.rate
            && (0 < n ==> total + Refilled(limit, c, n) <= c.maximum + (last + n - start) * c.rate)
  {
    hide Refilled;
    Credit(last, t, start, c);
    RefillAgrees(limit, c, last % U32, t % U32);
  }

  /** bufferevent_readcb: stop at the watermark, else look, read no more than allowed, and pay. Nothing read
      is the end of the file. */
  method ReadSome(bev: BuffereventPrivate, t: nat, socket: Socket, room: Option<int>, total: nat,
                  ghost start: nat, ghost last: nat)
    returns (total': nat, ghost last': nat)
    requires bev.Valid() && last <= t
    modifies bev
    ensures bev.Valid() && bev.cfg == old(bev.cfg) && last' <= t
    ensures old(bev.Within() && Spent(bev, total, start, last)) ==> Spent(bev, total', start, last')
    ensures old(bev.Within()) ==> bev.Within() && (old(bev.EmptySuspended()) ==> bev.EmptySuspended())
    ensures old(bev.readSuspended) != {} || Full(room) || !socket.Readable? ==> total' == total
    ensures Full(room) ==>
              bev.readSuspended == old(bev.readSuspended) + {Watermark} && bev.readLimit == old(bev.readLimit)
    ensures bev.cfg.Some? && !Full(room) ==>
              var bucket := Bucket(old(bev.readLimit), old(bev.lastUpdated), 0, 0);
              var limit := Updated(bucket, bev.cfg.value.read, t % U32).limit;
              && total' + bev.readLimit == total + limit
              && (old(bev.readSuspended) == {} ==> total' == total + Taken(socket, Share(room, Allowed(limit))))
    ensures old(bev.readSuspended) == {} && !Full(room) ==>
              bev.enabledRead == (old(bev.enabledRead) && (total' > total || socket.Retriable?))
  {
    hide Updated, Asked, Covered, RateCfgOk;
    total', last' := total, last;
    if Full(room) {
      bev.SuspendRead(Watermark);
      return;
    }
    var max;
    max, last' := LookUp(bev, t, total, start, last);
    if bev.readSuspended == {} && !socket.Retriable? {
      ghost var limit := bev.readLimit;
      total' := TakeBytes(bev, socket, Share(room, max), total);
      PaidFor(bev.cfg, limit, bev.readLimit, bev.lastUpdated, total, total', start, last');
    }
  }

  /** The allowance, with the ticks it credits. */
  method LookUp(bev: BuffereventPrivate, t: nat, ghost total: nat, ghost start: nat, ghost last: nat)
    returns (max: nat, ghost last': nat)
    requires bev.Valid() && last <= t
    modifies bev`readLimit, bev`writeLimit, bev`lastUpdated
    ensures bev.Valid() && last' <= t && max == if bev.cfg.Some? then Allowed(bev.readLimit) else bev.maxSingleRead
    ensures old(bev.Within()) ==> bev.Within() && (old(bev.EmptySuspended()) ==> bev.EmptySuspended())
    ensures old(bev.Within() && Spent(bev, total, start, last)) ==> Spent(bev, total, start, last')
    ensures bev.cfg.Some? ==>
              var bucket := Bucket(old(bev.readLimit), old(bev.lastUpdated), 0, 0);
              bev.readLimit == Updated(bucket, bev.cfg.value.read, t % U32).limit
  {
    hide Refilled;
    last' := last;
    if bev.cfg.Some? && bev.Within() && Spent(bev, total, start, last) {
      UpdateKeeps(bev.readLimit, bev.cfg.value.read, total, start, last, t);
      last' := Credited(bev, t, last);
    }
    max := bev.GetReadMax(t % U32);
  }

  /** Bytes read within the allowance and paid for keep the account. */
  lemma {:induction false} PaidFor(cfg: Option<RateCfg>, limit: int, limit': int, updated: nat,
                                   total: nat, total': nat, start: nat, last: nat)
    requires cfg.Some? ==> total <= total' <= total + Allowed(limit) && total' + limit' == total + limit
    ensures Covered(cfg, limit, updated, total, start, last) ==> Covered(cfg, limit', updated, total', start, last)
  {
  }

  /** evbuffer_read of no more than `share` bytes, and what follows from it. */
  method TakeBytes(bev: BuffereventPrivate, socket: Socket, share: nat, total: nat) returns (total': nat)
    requires bev.Valid() && !socket.Retriable? && (bev.cfg.Some? ==> share <= Allowed(bev.readLimit))
    modifies bev
    ensures bev.Valid() && bev.cfg == old(bev.cfg) && bev.lastUpdated == old(bev.lastUpdated)
    ensures total <= total' <= total + share
    ensures total' == total + Taken(socket, share)
    ensures bev.cfg.Some? ==> total' + bev.readLimit == total + old(bev.readLimit)
    ensures bev.enabledRead == (old(bev.enabledRead) && total' > total)
    ensures old(bev.Within()) ==> bev.Within()
    ensures old(bev.EmptySuspended()) ==> bev.EmptySuspended()
  {
    hide Asked;
    if socket.Readable? {
      AskedAllowed(socket.available, share);
    }
    var bytes := Taken(socket, share);
    total' := total + bytes;
    if bytes > 0 {
      bev.DecrementRead(bytes);
    } else {
      bev.Disable(true, false);
    }
  }

  /** The refill timer, with the ticks it credits. */
  method Fire(bev: BuffereventPrivate, t: nat, ghost total: nat, ghost start: nat, ghost last: nat)
    returns (ghost last': nat)
    requires bev.Valid() && bev.refillPending && last <= t
    modifies bev
    ensures bev.Valid() && bev.cfg == old(bev.cfg) && last' <= t
    ensures old(bev.Within() && Spent(bev, total, start, last)) ==> Spent(bev, total, start, last')
    ensures old(bev.Within()) ==> bev.Within() && (old(bev.EmptySuspended()) ==> bev.EmptySuspended())
  {
    hide Refilled;
    last' := last;
    if bev.cfg.Some? && bev.Within() && Spent(bev, total, start, last) {
      UpdateKeeps(bev.readLimit, bev.cfg.value.read, total, start, last, t);
      last' := Credited(bev, t, last);
    }
    bev.RefillCallback(t % U32);
  }
}
