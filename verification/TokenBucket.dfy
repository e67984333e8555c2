/**
 Token buckets: a limit that grows by a rate each tick up to a maximum, and is spent by
 the bytes that are read or written.
 */
module TokenBucket {
  import opened Sequences

  const I64: int := 0x8000_0000_0000_0000
  const U64: nat := 0x1_0000_0000_0000_0000
  const U32: nat := 0x1_0000_0000
  const INT_MAX: nat := 0x7fff_ffff
  const EV_RATE_LIMIT_MAX: nat := 0x7fff_ffff_ffff_ffff

  /** One direction of `struct ev_token_bucket_cfg`. */
  datatype Cfg = Cfg(rate: nat, maximum: nat)

  /** What ev_token_bucket_cfg_new accepts. */
  ghost predicate CfgOk(c: Cfg)
  {
    1 <= c.rate <= c.maximum <= EV_RATE_LIMIT_MAX
  }

  ghost predicate Signed64(x: int)
  {
    -0x8000_0000_0000_0000 <= x <= 0x7fff_ffff_ffff_ffff
  }

  /** The unsigned 32-bit number of ticks since the last update. */
  function Ticks(now: nat, last: nat): nat
    requires now < U32 && last < U32
  {
    (now + U32 - last) % U32
  }

  /** What is stored when a sum made with 64 unsigned bits becomes a signed limit again. */
  function Wrapped64(x: int): int {
    (x + I64) % U64 - I64
  }

  /** The update of one limit in ev_token_bucket_update_: unsigned 64-bit arithmetic, stored as signed. */
  function Refilled(limit: int, c: Cfg, n: nat): int
    requires 0 < n
  {
    if (c.maximum - limit) % U64 / n < c.rate then c.maximum else Wrapped64(limit + n * c.rate)
  }

  lemma {:induction false} QuotientBelow(d: nat, n: nat, r: nat)
    requires 0 < n
    ensures d / n < r <==> d < n * r
  {
    assert d == n * (d / n) + d % n;
    if d / n < r {
      assert n * (d / n + 1) <= n * r by {
        Scale(n, d / n + 1, r);
      }
    } else {
      Scale(n, r, d / n);
    }
  }

  lemma {:induction false} Scale(n: nat, a: nat, b: nat)
    requires a <= b
    ensures n * a <= n * b
  {
  }

  /**
   The overflow-avoiding update is the plain one, min(maximum, limit + ticks * rate), if and only if the
   limit is not above the maximum, or the ticks bring enough to carry it once around 64 bits. Otherwise
   the limit grows, or wraps to one below the maximum when it passes the largest signed number.
   */
  lemma {:induction false} RefilledIsMin(limit: int, c: Cfg, n: nat)
    requires CfgOk(c) && 0 < n && Signed64(limit)
    ensures Refilled(limit, c, n) == Min(c.maximum, limit + n * c.rate)
            <==> limit <= c.maximum || U64 - (limit - c.maximum) <= n * c.rate
    ensures limit > c.maximum && n * c.rate < U64 - (limit - c.maximum) ==>
              if limit + n * c.rate < I64 then Refilled(limit, c, n) == limit + n * c.rate > limit
              else Refilled(limit, c, n) == limit + n * c.rate - U64 < c.maximum
    ensures Signed64(Refilled(limit, c, n))
  {
    Positive(n, c.rate);
    QuotientBelow((c.maximum - limit) % U64, n, c.rate);
    Gained(limit, c.maximum, n * c.rate);
  }

  /** The same for any gain. */
  lemma {:induction false} Gained(limit: int, maximum: nat, gain: nat)
    requires Signed64(limit) && 0 < gain && maximum <= EV_RATE_LIMIT_MAX
    ensures var r := if (maximum - limit) % U64 < gain then maximum else Wrapped64(limit + gain);
            && Signed64(r)
            && (r == Min(maximum, limit + gain) <==> limit <= maximum || U64 - (limit - maximum) <= gain)
            && (limit > maximum && gain < U64 - (limit - maximum) ==>
                  if limit + gain < I64 then r == limit + gain else r == limit + gain - U64 < maximum)
  {
    assert (maximum - limit) % U64 == if limit <= maximum then maximum - limit else maximum - limit + U64;
  }

  /** All three things that can happen to a bucket above its maximum: it grows, it falls below, it is cut. */
  lemma {:induction false} AboveMaximum()
    ensures Refilled(2, Cfg(1, 1), 1) == 3
    ensures var c := Cfg(0x2_0000_0000, 0x4000_0000_0000_0000);
            Refilled(c.maximum + 1, c, INT_MAX) == c.maximum + 1 - c.rate < c.maximum
    ensures var c := Cfg(0x2_0000_0000, 0x2_0000_0000);
            Refilled(2 * c.maximum, c, INT_MAX) == c.maximum
  {
  }

  lemma {:induction false} Positive(a: nat, b: nat)
    requires 0 < a && 0 < b
    ensures 0 < a * b
  {
  }

  /** A step in the life of one bucket: an update at a tick, or bytes moved under the current limit. */
  datatype Step = Update(now: nat) | Move(bytes: nat)

  datatype Bucket = Bucket(limit: int, last: nat, moved: nat, elapsed: nat)

  /** Updating at `now`: nothing happens when no tick passed or time went back. */
  function Updated(b: Bucket, c: Cfg, now: nat): Bucket
    requires now < U32 && b.last < U32
  {
    var n := Ticks(now, b.last);
    if n == 0 || n > INT_MAX then b
    else b.(limit := Refilled(b.limit, c, n), last := now, elapsed := b.elapsed + n)
  }

  /** bufferevent_get_rlim_max_ without a group: no more than the limit, and never negative. */
  function Allowed(limit: int): nat {
    if limit < 0 then 0 else limit
  }

  ghost predicate StepOk(b: Bucket, s: Step)
  {
    match s
    case Update(now) => now < U32
    case Move(bytes) => bytes <= Allowed(b.limit)
  }

  function Next(b: Bucket, c: Cfg, s: Step): Bucket
    requires b.last < U32 && StepOk(b, s)
  {
    match s
    case Update(now) => Updated(b, c, now)
    case Move(bytes) => b.(limit := b.limit - bytes, moved := b.moved + bytes)
  }

  /** The steps can be taken one after the other from `b`, and end in `e`. */
  ghost predicate Leads(b: Bucket, c: Cfg, steps: seq<Step>, e: Bucket)
    decreases |steps|
  {
    if steps == [] then e == b
    else b.last < U32 && StepOk(b, steps[0]) && Leads(Next(b, c, steps[0]), c, steps[1..], e)
  }

  ghost predicate BucketOk(b: Bucket, c: Cfg)
  {
    b.last < U32 && Signed64(b.limit) && b.limit <= c.maximum
  }

  lemma {:induction false} NextKeeps(b: Bucket, c: Cfg, s: Step)
    requires CfgOk(c) && BucketOk(b, c) && StepOk(b, s)
    ensures var e := Next(b, c, s);
            && BucketOk(e, c) && (0 <= b.limit ==> 0 <= e.limit)
            && b.elapsed <= e.elapsed
            && e.moved + e.limit - e.elapsed * c.rate <= b.moved + b.limit - b.elapsed * c.rate
  {
    hide Refilled, Ticks;
    match s {
      case Update(now) =>
        var n := Ticks(now, b.last);
        if 0 < n <= INT_MAX {
          RefilledIsMin(b.limit, c, n);
          Positive(n, c.rate);
          Distribute(b.elapsed + n, b.elapsed, c.rate);
        }
      case Move(bytes) =>
    }
  }

  /** Over any run, the bytes moved are at most the maximum plus what the elapsed ticks brought. */
  lemma {:induction false} BytesBounded(b: Bucket, c: Cfg, steps: seq<Step>, e: Bucket)
    requires CfgOk(c) && BucketOk(b, c) && 0 <= b.limit && Leads(b, c, steps, e)
    ensures BucketOk(e, c) && 0 <= e.limit && b.elapsed <= e.elapsed
    ensures e.moved + e.limit - e.elapsed * c.rate <= b.moved + b.limit - b.elapsed * c.rate
    ensures e.moved - b.moved <= c.maximum + (e.elapsed - b.elapsed) * c.rate
    decreases |steps|
  {
    hide Next, StepOk;
    if steps != [] {
      NextKeeps(b, c, steps[0]);
      BytesBounded(Next(b, c, steps[0]), c, steps[1..], e);
    }
    Distribute(e.elapsed, b.elapsed, c.rate);
  }

  lemma {:induction false} Distribute(a: int, b: int, r: int)
    ensures (a - b) * r == a * r - b * r
  {
  }

  /** A bucket in debt that is updated at least once a tick is positive again after as many updates as it owes bytes. */
  lemma {:induction false} DebtIsRepaid(limit: int, c: Cfg, ticks: seq<nat>)
    requires CfgOk(c) && Signed64(limit) && limit <= c.maximum
    requires forall i :: 0 <= i < |ticks| ==> 0 < ticks[i]
    requires |ticks| + limit > 0
    ensures RefilledBy(limit, c, ticks) > 0
    decreases |ticks|
  {
    if ticks != [] {
      RefilledIsMin(limit, c, ticks[0]);
      Scale(1, 1, ticks[0]);
      Scale(ticks[0], 1, c.rate);
      DebtIsRepaid(Refilled(limit, c, ticks[0]), c, ticks[1..]);
    }
  }

  ghost function RefilledBy(limit: int, c: Cfg, ticks: seq<nat>): int
    requires forall i :: 0 <= i < |ticks| ==> 0 < ticks[i]
    decreases |ticks|
  {
    if ticks == [] then limit else RefilledBy(Refilled(limit, c, ticks[0]), c, ticks[1..])
  }
}
