// What the request scheduler of evdns keeps: requests in flight in hashed queues, requests
// waiting, and a ring of nameservers, with the counters that summarise them.
module DnsState {
  import opened Wrappers
  import opened Sequences

  type ReqId = nat
  type NsId = nat

  const INT_MAX: int := 0x7fff_ffff
  const NO_ID := 0xffff

  datatype Request = Request(transId: nat, ns: Option<NsId>, txCount: nat, reissues: nat, transmitMe: bool)

  /** `inflight` counts the requests in flight to this server, `probe` is the request last sent to
      see whether a failed server is back. */
  datatype Nameserver = Nameserver(address: nat, up: bool, inflight: int, failedTimes: nat, timedout: nat,
                                   choked: bool, probe: Option<ReqId>)

  type Requests = map<ReqId, Request>
  type Servers = map<NsId, Nameserver>

  /** The base at one moment. A circular list is the sequence of its members from its head on. */
  datatype State = State(reqs: Requests, servers: Servers, heads: seq<seq<ReqId>>, waiting: seq<ReqId>,
                         ring: seq<NsId>, nextId: nat, good: int, inflight: int, waitingCount: int)

  ghost function Inflight(reqs: Requests): set<ReqId> {
    set id | id in reqs && reqs[id].ns.Some?
  }

  ghost function On(reqs: Requests, n: NsId): set<ReqId> {
    set id | id in reqs && reqs[id].ns == Some(n)
  }

  ghost function Up(servers: Servers): set<NsId> {
    set n | n in servers && servers[n].up
  }

  /** Bucket `b` of `n` holds exactly the requests in flight whose id falls in it, each once. */
  ghost predicate Bucket(reqs: Requests, q: seq<ReqId>, b: nat, n: nat)
    requires n > 0
  {
    NoDup(q) && forall id :: id in q <==> id in reqs && reqs[id].ns.Some? && reqs[id].transId % n == b
  }

  ghost predicate Hashed(reqs: Requests, heads: seq<seq<ReqId>>) {
    |heads| > 0 && forall b :: 0 <= b < |heads| ==> Bucket(reqs, heads[b], b, |heads|)
  }

  ghost predicate Queued(reqs: Requests, waiting: seq<ReqId>) {
    NoDup(waiting) && forall id :: id in waiting <==> id in reqs && reqs[id].ns.None?
  }

  /** Every request in flight has a server, and every server counts its own. */
  ghost predicate Counted(reqs: Requests, servers: Servers) {
    && (forall id :: id in reqs && reqs[id].ns.Some? ==> reqs[id].ns.value in servers)
    && (forall n :: n in servers ==> servers[n].inflight == |On(reqs, n)|)
  }

  /** No two requests in flight share a transaction id. */
  ghost predicate Distinct(reqs: Requests) {
    && (forall a, b :: a in reqs && b in reqs && reqs[a].ns.Some? && reqs[b].ns.Some? && a != b ==>
          reqs[a].transId != reqs[b].transId)
    && (forall a :: a in reqs && reqs[a].ns.Some? ==> reqs[a].transId < NO_ID)
  }

  ghost predicate Ring(ring: seq<NsId>, servers: Servers) {
    NoDup(ring) && forall n :: n in ring <==> n in servers
  }

  ghost predicate Fresh(reqs: Requests, nextId: nat) {
    forall id :: id in reqs ==> id < nextId
  }

  ghost predicate Ok(s: State) {
    && Hashed(s.reqs, s.heads)
    && Queued(s.reqs, s.waiting)
    && Counted(s.reqs, s.servers)
    && Distinct(s.reqs)
    && Ring(s.ring, s.servers)
    && Fresh(s.reqs, s.nextId)
    && s.inflight == |Inflight(s.reqs)|
    && s.waitingCount == |s.waiting|
    && s.good == |Up(s.servers)|
  }

  // ---- what the invariant says about the counters

  ghost function Load(ring: seq<NsId>, servers: Servers): int
    requires forall n :: n in ring ==> n in servers
  {
    if ring == [] then 0 else Load(ring[..|ring| - 1], servers) + servers[ring[|ring| - 1]].inflight
  }

  ghost function CountUp(ring: seq<NsId>, servers: Servers): nat
    requires forall n :: n in ring ==> n in servers
  {
    if ring == [] then 0
    else CountUp(ring[..|ring| - 1], servers) + if servers[ring[|ring| - 1]].up then 1 else 0
  }

  /** Requests in flight whose bucket is below `b`. */
  ghost function Below(reqs: Requests, n: nat, b: nat): set<ReqId>
    requires n > 0
  {
    set id | id in reqs && reqs[id].ns.Some? && reqs[id].transId % n < b
  }

  ghost function Exactly(reqs: Requests, n: nat, b: nat): set<ReqId>
    requires n > 0
  {
    set id | id in reqs && reqs[id].ns.Some? && reqs[id].transId % n == b
  }

  lemma {:induction false} LengthsBelow(reqs: Requests, heads: seq<seq<ReqId>>, b: nat)
    requires Hashed(reqs, heads) && b <= |heads|
    ensures Lengths(heads[..b]) == |Below(reqs, |heads|, b)|
  {
    var n := |heads|;
    if b == 0 {
      assert Below(reqs, n, 0) == {};
    } else {
      LengthsBelow(reqs, heads, b - 1);
      assert heads[..b][..b - 1] == heads[..b - 1];
      var lower, here := Below(reqs, n, b - 1), Exactly(reqs, n, b - 1);
      assert Bucket(reqs, heads[b - 1], b - 1, n);
      Cardinality(heads[b - 1], here);
      assert lower !! here;
      assert Below(reqs, n, b) == lower + here;
    }
  }

  /** Requests in flight to a server of the ring's first `k`. */
  ghost function OnSome(reqs: Requests, ring: seq<NsId>): set<ReqId> {
    set id | id in reqs && reqs[id].ns.Some? && reqs[id].ns.value in ring
  }

  lemma {:induction false} LoadOf(reqs: Requests, servers: Servers, ring: seq<NsId>)
    requires NoDup(ring) && Counted(reqs, servers) && forall n :: n in ring ==> n in servers
    ensures Load(ring, servers) == |OnSome(reqs, ring)|
  {
    if ring == [] {
      assert OnSome(reqs, ring) == {};
    } else {
      var k := |ring| - 1;
      var init, last := ring[..k], ring[k];
      assert ring == init + [last];
      assert last !in init;
      LoadOf(reqs, servers, init);
      assert OnSome(reqs, init) !! On(reqs, last);
      assert OnSome(reqs, ring) == OnSome(reqs, init) + On(reqs, last);
    }
  }

  ghost function UpIn(ring: seq<NsId>, servers: Servers): set<NsId> {
    set n | n in ring && n in servers && servers[n].up
  }

  lemma {:induction false} CountUpOf(ring: seq<NsId>, servers: Servers)
    requires NoDup(ring) && forall n :: n in ring ==> n in servers
    ensures CountUp(ring, servers) == |UpIn(ring, servers)|
  {
    if ring == [] {
      assert UpIn(ring, servers) == {};
    } else {
      var k := |ring| - 1;
      var init, last := ring[..k], ring[k];
      assert ring == init + [last];
      assert last !in init;
      CountUpOf(init, servers);
      assert UpIn(ring, servers) == UpIn(init, servers) + if servers[last].up then {last} else {};
    }
  }

  /** The number of requests in flight is the number held by the hashed queues and the sum of what
      the servers count; the good servers are those of the ring that are up. */
  lemma {:induction false} CountersAgree(s: State)
    requires Ok(s)
    ensures s.inflight == Lengths(s.heads) == Load(s.ring, s.servers)
    ensures s.waitingCount == |s.waiting|
    ensures s.good == CountUp(s.ring, s.servers)
    ensures Ring(s.ring, s.servers) && Hashed(s.reqs, s.heads) && Queued(s.reqs, s.waiting) && Distinct(s.reqs)
    ensures s.inflight == |Inflight(s.reqs)|
  {
    LengthsBelow(s.reqs, s.heads, |s.heads|);
    assert s.heads[..|s.heads|] == s.heads;
    assert Below(s.reqs, |s.heads|, |s.heads|) == Inflight(s.reqs);
    LoadOf(s.reqs, s.servers, s.ring);
    assert OnSome(s.reqs, s.ring) == Inflight(s.reqs);
    CountUpOf(s.ring, s.servers);
    assert UpIn(s.ring, s.servers) == Up(s.servers);
  }

  // ---- queues

  /** Taking one member out of a circular list. */
  function Removed(q: seq<nat>, x: nat): (r: seq<nat>) {
    if q == [] then []
    else if q[0] == x then q[1..]
    else [q[0]] + Removed(q[1..], x)
  }

  lemma {:induction false} RemovedKeeps(q: seq<nat>, x: nat)
    requires NoDup(q)
    ensures NoDup(Removed(q, x))
    ensures forall y :: y in Removed(q, x) <==> y in q && y != x
    ensures |Removed(q, x)| == |q| - if x in q then 1 else 0
  {
    if q != [] {
      assert q == [q[0]] + q[1..];
      assert q[0] !in q[1..];
      if q[0] != x {
        RemovedKeeps(q[1..], x);
      }
    }
  }

  lemma {:induction false} Appended(q: seq<nat>, x: nat)
    requires NoDup(q) && x !in q
    ensures NoDup(q + [x]) && forall y :: y in q + [x] <==> y in q || y == x
  {
  }

  // ---- one request more, less or elsewhere

  lemma {:induction false} CardAdd(a: set<nat>, b: set<nat>, x: nat)
    requires x !in a && b == a + {x}
    ensures |b| == |a| + 1
  {
  }

  /** A request that comes into flight: new, or from the waiting queue. */
  lemma {:induction false} Hash(reqs: Requests, heads: seq<seq<ReqId>>, id: ReqId, r: Request)
    requires Hashed(reqs, heads) && r.ns.Some? && (id in reqs ==> reqs[id].ns.None?)
    ensures var b := r.transId % |heads|;
            Hashed(reqs[id := r], heads[b := heads[b] + [id]])
  {
    var b := r.transId % |heads|;
    var n := |heads|;
    var heads' := heads[b := heads[b] + [id]];
    forall c | 0 <= c < n
      ensures Bucket(reqs[id := r], heads'[c], c, n)
    {
      assert Bucket(reqs, heads[c], c, n);
      if c == b {
        Appended(heads[b], id);
      }
    }
  }

  lemma {:induction false} Unhash(reqs: Requests, heads: seq<seq<ReqId>>, id: ReqId)
    requires Hashed(reqs, heads) && id in reqs && reqs[id].ns.Some?
    ensures var b := reqs[id].transId % |heads|;
            Hashed(reqs - {id}, heads[b := Removed(heads[b], id)])
  {
    var b := reqs[id].transId % |heads|;
    var n := |heads|;
    var heads' := heads[b := Removed(heads[b], id)];
    forall c | 0 <= c < n
      ensures Bucket(reqs - {id}, heads'[c], c, n)
    {
      assert Bucket(reqs, heads[c], c, n);
      if c == b {
        RemovedKeeps(heads[b], id);
      }
    }
  }

  /** Changes that do not concern the hashed queues. */
  lemma {:induction false} HashSame(reqs: Requests, reqs': Requests, heads: seq<seq<ReqId>>)
    requires Hashed(reqs, heads)
    requires forall id :: id in reqs && reqs[id].ns.Some? <==> id in reqs' && reqs'[id].ns.Some?
    requires forall id :: id in reqs && reqs[id].ns.Some? ==> reqs'[id].transId == reqs[id].transId
    ensures Hashed(reqs', heads)
  {
    forall c | 0 <= c < |heads|
      ensures Bucket(reqs', heads[c], c, |heads|)
    {
      assert Bucket(reqs, heads[c], c, |heads|);
    }
  }

  /** Counting when request `id` moves to server `n` from `from`. */
  lemma {:induction false} CountMove(reqs: Requests, id: ReqId, r: Request)
    ensures r.ns.Some? && (id in reqs ==> reqs[id].ns.None?) ==>
              |Inflight(reqs[id := r])| == |Inflight(reqs)| + 1
    ensures r.ns.None? && (id in reqs ==> reqs[id].ns.None?) ==> Inflight(reqs[id := r]) == Inflight(reqs)
    ensures r.ns.Some? && id in reqs && reqs[id].ns.Some? ==> Inflight(reqs[id := r]) == Inflight(reqs)
  {
    var reqs' := reqs[id := r];
    if id in reqs && reqs[id].ns.Some? {
      if r.ns.Some? {
        assert Inflight(reqs') == Inflight(reqs);
      }
    } else if r.ns.Some? {
      CardAdd(Inflight(reqs), Inflight(reqs'), id);
    } else {
      assert Inflight(reqs') == Inflight(reqs);
    }
  }

  /** What one server counts after request `id` becomes `r`. */
  lemma {:induction false} CountOn(reqs: Requests, id: ReqId, r: Request, n: NsId)
    ensures var was, now := id in reqs && reqs[id].ns == Some(n), r.ns == Some(n);
            |On(reqs[id := r], n)| == |On(reqs, n)| + (if now then 1 else 0) - (if was then 1 else 0)
  {
    var was, now := id in reqs && reqs[id].ns == Some(n), r.ns == Some(n);
    var a, b := On(reqs, n), On(reqs[id := r], n);
    assert (id in a <==> was) && (id in b <==> now);
    assert forall x :: x != id ==> (x in a <==> x in b);
    hide On;
    if was && !now {
      CardAdd(b, a, id);
    } else if now && !was {
      CardAdd(a, b, id);
    } else {
      assert a == b;
    }
  }

  /** The servers' counts follow when `id` becomes `r`. */
  lemma {:induction false} CountedMove(reqs: Requests, servers: Servers, id: ReqId, r: Request, servers': Servers)
    requires Counted(reqs, servers) && servers'.Keys == servers.Keys
    requires r.ns.Some? ==> r.ns.value in servers
    requires forall n :: n in servers ==>
               servers'[n].inflight == servers[n].inflight + (if r.ns == Some(n) then 1 else 0)
                                       - (if id in reqs && reqs[id].ns == Some(n) then 1 else 0)
    ensures Counted(reqs[id := r], servers')
  {
    forall n | n in servers'
      ensures servers'[n].inflight == |On(reqs[id := r], n)|
    {
      CountOn(reqs, id, r, n);
    }
  }

  lemma {:induction false} CountedDrop(reqs: Requests, servers: Servers, id: ReqId, servers': Servers)
    requires Counted(reqs, servers) && servers'.Keys == servers.Keys && id in reqs
    requires forall n :: n in servers ==>
               servers'[n].inflight == servers[n].inflight - if reqs[id].ns == Some(n) then 1 else 0
    ensures Counted(reqs - {id}, servers')
  {
    var reqs' := reqs - {id};
    forall n | n in servers'
      ensures servers'[n].inflight == |On(reqs', n)|
    {
      if reqs[id].ns == Some(n) {
        CardAdd(On(reqs', n), On(reqs, n), id);
      } else {
        assert On(reqs', n) == On(reqs, n);
      }
    }
  }

  lemma {:induction false} UpSame(servers: Servers, servers': Servers)
    requires servers'.Keys == servers.Keys && forall n :: n in servers ==> servers'[n].up == servers[n].up
    ensures Up(servers') == Up(servers)
  {
  }

  lemma {:induction false} InflightLess(reqs: Requests, id: ReqId)
    requires id in reqs && reqs[id].ns.Some?
    ensures |Inflight(reqs - {id})| == |Inflight(reqs)| - 1
  {
    CardAdd(Inflight(reqs - {id}), Inflight(reqs), id);
  }

  lemma {:induction false} RingSame(ring: seq<NsId>, servers: Servers, servers': Servers)
    requires Ring(ring, servers) && servers'.Keys == servers.Keys
    ensures Ring(ring, servers')
  {
  }

  lemma {:induction false} FreshMore(reqs: Requests, nextId: nat, r: Request)
    requires Fresh(reqs, nextId)
    ensures nextId !in reqs && Fresh(reqs[nextId := r], nextId + 1)
  {
  }

  lemma {:induction false} FreshSame(reqs: Requests, reqs': Requests, nextId: nat)
    requires Fresh(reqs, nextId) && reqs'.Keys <= reqs.Keys
    ensures Fresh(reqs', nextId)
  {
  }

  // ---- the transitions of the base, each keeping the invariant

  /** One more, or one fewer, in flight at `n`. */
  function Charged(servers: Servers, n: NsId, d: int): (r: Servers)
    requires n in servers
    ensures r.Keys == servers.Keys
  {
    servers[n := servers[n].(inflight := servers[n].inflight + d)]
  }

  /** Into flight: a new request, or one that was waiting (then `waiting` loses its head). */
  function Launched(s: State, id: ReqId, r: Request): State
    requires |s.heads| > 0 && r.ns.Some? && r.ns.value in s.servers
  {
    var b := r.transId % |s.heads|;
    s.(reqs := s.reqs[id := r], heads := s.heads[b := s.heads[b] + [id]],
       servers := Charged(s.servers, r.ns.value, 1), inflight := s.inflight + 1)
  }

  predicate Used(reqs: Requests, t: nat) {
    exists id :: id in reqs && reqs[id].ns.Some? && reqs[id].transId == t
  }

  lemma {:induction false} DistinctMore(reqs: Requests, id: ReqId, r: Request)
    requires Distinct(reqs) && (r.ns.Some? ==> r.transId < NO_ID && !Used(reqs, r.transId))
    ensures Distinct(reqs[id := r])
  {
  }

  lemma {:induction false} DistinctSame(reqs: Requests, reqs': Requests)
    requires Distinct(reqs)
    requires forall id :: id in reqs' && reqs'[id].ns.Some? ==>
               id in reqs && reqs[id].ns.Some? && reqs'[id].transId == reqs[id].transId
    ensures Distinct(reqs')
  {
  }

  /** The waiting queue when request `id` becomes one in flight. */
  lemma {:induction false} Unqueue(reqs: Requests, waiting: seq<ReqId>, r: Request)
    requires Queued(reqs, waiting) && waiting != [] && r.ns.Some?
    ensures waiting[0] in reqs && reqs[waiting[0]].ns.None?
    ensures Queued(reqs[waiting[0] := r], waiting[1..])
  {
    var id := waiting[0];
    assert id in waiting;
    assert waiting == [id] + waiting[1..];
    assert id !in waiting[1..];
  }

  lemma {:induction false} QueueSame(reqs: Requests, reqs': Requests, waiting: seq<ReqId>)
    requires Queued(reqs, waiting)
    requires forall id :: id in reqs && reqs[id].ns.None? <==> id in reqs' && reqs'[id].ns.None?
    ensures Queued(reqs', waiting)
  {
  }

  lemma {:induction false} LaunchNew(s: State, r: Request)
    requires Ok(s) && r.ns.Some? && r.ns.value in s.servers && r.transId < NO_ID && !Used(s.reqs, r.transId)
    ensures Ok(Launched(s, s.nextId, r).(nextId := s.nextId + 1))
  {
    hide Hashed, Queued, Counted, Distinct, Inflight, Up, Used, Ring, Fresh;
    var servers' := Charged(s.servers, r.ns.value, 1);
    FreshMore(s.reqs, s.nextId, r);
    Hash(s.reqs, s.heads, s.nextId, r);
    CountedMove(s.reqs, s.servers, s.nextId, r, servers');
    CountMove(s.reqs, s.nextId, r);
    UpSame(s.servers, servers');
    RingSame(s.ring, s.servers, servers');
    DistinctMore(s.reqs, s.nextId, r);
    QueueSame(s.reqs, s.reqs[s.nextId := r], s.waiting);
  }

  lemma {:induction false} LaunchWaiting(s: State, r: Request)
    requires Ok(s) && s.waiting != [] && r.ns.Some? && r.ns.value in s.servers
    requires r.transId < NO_ID && !Used(s.reqs, r.transId)
    ensures Ok(Launched(s, s.waiting[0], r).(waiting := s.waiting[1..], waitingCount := s.waitingCount - 1))
  {
    hide Hashed, Queued, Counted, Distinct, Inflight, Up, Used, Ring, Fresh;
    var id := s.waiting[0];
    Unqueue(s.reqs, s.waiting, r);
    Hash(s.reqs, s.heads, id, r);
    CountedMove(s.reqs, s.servers, id, r, Charged(s.servers, r.ns.value, 1));
    CountMove(s.reqs, id, r);
    UpSame(s.servers, Charged(s.servers, r.ns.value, 1));
    DistinctMore(s.reqs, id, r);
    RingSame(s.ring, s.servers, Charged(s.servers, r.ns.value, 1));
    FreshSame(s.reqs, s.reqs[id := r], s.nextId);
  }

  /** A new request that has to wait. */
  lemma {:induction false} Park(s: State, r: Request)
    requires Ok(s) && r.ns.None?
    ensures Ok(s.(reqs := s.reqs[s.nextId := r], waiting := s.waiting + [s.nextId],
                  waitingCount := s.waitingCount + 1, nextId := s.nextId + 1))
  {
    var id := s.nextId;
    assert id !in s.reqs;
    assert Queued(s.reqs[id := r], s.waiting + [id]) by {
      Appended(s.waiting, id);
    }
    hide Hashed, Queued, Counted, Distinct, Inflight, Up, Used, Ring, Fresh;
    FreshMore(s.reqs, id, r);
    HashSame(s.reqs, s.reqs[id := r], s.heads);
    CountedMove(s.reqs, s.servers, id, r, s.servers);
    CountMove(s.reqs, id, r);
    DistinctMore(s.reqs, id, r);
  }

  /** A request in flight goes to another server. */
  lemma {:induction false} Reassign(s: State, id: ReqId, n: NsId)
    requires Ok(s) && id in s.reqs && s.reqs[id].ns.Some? && n in s.servers && s.reqs[id].ns != Some(n)
    ensures s.reqs[id].ns.value in s.servers && s.servers[s.reqs[id].ns.value].inflight > 0
    ensures Ok(s.(reqs := s.reqs[id := s.reqs[id].(ns := Some(n))],
                  servers := Charged(Charged(s.servers, s.reqs[id].ns.value, -1), n, 1)))
  {
    var r, from := s.reqs[id].(ns := Some(n)), s.reqs[id].ns.value;
    hide Hashed, Queued, Counted, Distinct, Inflight, Up, Used, Ring, Fresh;
    Busy(s.reqs, s.servers, id);
    var servers' := Charged(Charged(s.servers, from, -1), n, 1);
    var reqs' := s.reqs[id := r];
    HashSame(s.reqs, reqs', s.heads);
    CountedMove(s.reqs, s.servers, id, r, servers');
    CountMove(s.reqs, id, r);
    UpSame(s.servers, servers');
    RingSame(s.ring, s.servers, servers');
    FreshSame(s.reqs, reqs', s.nextId);
    DistinctSame(s.reqs, reqs');
    QueueSame(s.reqs, reqs', s.waiting);
  }

  lemma {:induction false} Busy(reqs: Requests, servers: Servers, id: ReqId)
    requires Counted(reqs, servers) && id in reqs && reqs[id].ns.Some?
    ensures reqs[id].ns.value in servers && servers[reqs[id].ns.value].inflight > 0
  {
    assert id in On(reqs, reqs[id].ns.value);
  }

  /** A request is over. */
  function Dropped(s: State, id: ReqId): State
    requires id in s.reqs && |s.heads| > 0
    requires s.reqs[id].ns.Some? ==> s.reqs[id].ns.value in s.servers
  {
    var r := s.reqs[id];
    if r.ns.Some? then
      var b := r.transId % |s.heads|;
      s.(reqs := s.reqs - {id}, heads := s.heads[b := Removed(s.heads[b], id)],
         servers := Charged(s.servers, r.ns.value, -1), inflight := s.inflight - 1)
    else
      s.(reqs := s.reqs - {id}, waiting := Removed(s.waiting, id), waitingCount := s.waitingCount - 1)
  }

  lemma {:induction false} Drop(s: State, id: ReqId)
    requires Ok(s) && id in s.reqs
    ensures Ok(Dropped(s, id))
  {
    assert s.reqs[id].ns.Some? ==> s.reqs[id].ns.value in s.servers;
    if s.reqs[id].ns.Some? {
      DropInflight(s, id);
    } else {
      DropWaiting(s, id);
    }
  }

  lemma {:induction false} DropInflight(s: State, id: ReqId)
    requires Ok(s) && id in s.reqs && s.reqs[id].ns.Some? && s.reqs[id].ns.value in s.servers
    ensures Ok(Dropped(s, id))
  {
    hide Hashed, Queued, Counted, Distinct, Inflight, Up, Used, Ring, Fresh;
    var reqs', servers' := s.reqs - {id}, Charged(s.servers, s.reqs[id].ns.value, -1);
    InflightLess(s.reqs, id);
    Unhash(s.reqs, s.heads, id);
    CountedDrop(s.reqs, s.servers, id, servers');
    UpSame(s.servers, servers');
    RingSame(s.ring, s.servers, servers');
    FreshSame(s.reqs, reqs', s.nextId);
    DistinctSame(s.reqs, reqs');
    QueueSame(s.reqs, reqs', s.waiting);
  }

  lemma {:induction false} DropWaiting(s: State, id: ReqId)
    requires Ok(s) && id in s.reqs && s.reqs[id].ns.None?
    ensures Ok(Dropped(s, id))
  {
    var reqs' := s.reqs - {id};
    assert Inflight(reqs') == Inflight(s.reqs);
    assert id in s.waiting;
    RemovedKeeps(s.waiting, id);
    assert Queued(reqs', Removed(s.waiting, id)) by {
      hide Removed;
    }
    hide Hashed, Queued, Counted, Distinct, Inflight, Up, Used, Ring, Fresh;
    FreshSame(s.reqs, reqs', s.nextId);
    HashSame(s.reqs, reqs', s.heads);
    CountedDrop(s.reqs, s.servers, id, s.servers);
    DistinctSame(s.reqs, reqs');
  }

  /** Fields of a request that no counter depends on. */
  lemma {:induction false} Retouch(s: State, id: ReqId, r: Request)
    requires Ok(s) && id in s.reqs && r.ns == s.reqs[id].ns && r.transId == s.reqs[id].transId
    ensures Ok(s.(reqs := s.reqs[id := r]))
  {
    var reqs' := s.reqs[id := r];
    assert r.ns.Some? ==> r.ns.value in s.servers;
    assert Inflight(reqs') == Inflight(s.reqs);
    hide Hashed, Queued, Counted, Distinct, Inflight, Up, Used, Ring, Fresh;
    FreshSame(s.reqs, reqs', s.nextId);
    HashSame(s.reqs, reqs', s.heads);
    CountedMove(s.reqs, s.servers, id, r, s.servers);
    DistinctSame(s.reqs, reqs');
    QueueSame(s.reqs, reqs', s.waiting);
  }

  /** Fields of a server, and whether it is up. */
  lemma {:induction false} RetouchServer(s: State, n: NsId, v: Nameserver)
    requires Ok(s) && n in s.servers && v.inflight == s.servers[n].inflight
    ensures Ok(s.(servers := s.servers[n := v],
                  good := s.good + (if v.up then 1 else 0) - (if s.servers[n].up then 1 else 0)))
    ensures s.servers[n].up ==> s.good > 0
  {
    CountUps(s.servers, n, v);
    var servers' := s.servers[n := v];
    assert Counted(s.reqs, servers') by {
      hide On;
    }
    assert Ring(s.ring, servers');
    hide Hashed, Queued, Counted, Distinct, Inflight, Up, Ring;
  }

  lemma {:induction false} CountUps(servers: Servers, n: NsId, v: Nameserver)
    requires n in servers
    ensures |Up(servers[n := v])| == |Up(servers)| + (if v.up then 1 else 0) - (if servers[n].up then 1 else 0)
    ensures servers[n].up ==> |Up(servers)| > 0
  {
    var a, b := Up(servers), Up(servers[n := v]);
    assert (n in a <==> servers[n].up) && (n in b <==> v.up);
    assert forall x :: x != n ==> (x in a <==> x in b);
    hide Up;
    if v.up && !servers[n].up {
      CardAdd(a, b, n);
    } else if !v.up && servers[n].up {
      CardAdd(b, a, n);
    } else {
      assert a == b;
    }
  }

  /** A new server, up and idle, right after the head of the ring. */
  function Joined(ring: seq<NsId>, n: NsId): seq<NsId> {
    if ring == [] then [n] else [ring[0], n] + ring[1..]
  }

  lemma {:induction false} RingJoin(ring: seq<NsId>, servers: Servers, n: NsId, v: Nameserver)
    requires Ring(ring, servers) && n !in servers
    ensures Ring(Joined(ring, n), servers[n := v])
  {
    if ring != [] {
      var ring' := Joined(ring, n);
      assert ring == [ring[0]] + ring[1..];
      assert forall i, j :: 0 <= i < j < |ring| ==> ring[i] != ring[j];
      assert n !in ring;
      assert NoDup(ring') by {
        assert ring'[0] == ring[0] && ring'[1] == n;
        assert forall i :: 2 <= i < |ring'| ==> ring'[i] == ring[i - 1];
      }
    }
  }

  lemma {:induction false} Join(s: State, n: NsId, v: Nameserver)
    requires Ok(s) && n !in s.servers && v.up && v.inflight == 0
    ensures Ok(s.(servers := s.servers[n := v], good := s.good + 1, ring := Joined(s.ring, n)))
  {
    var servers' := s.servers[n := v];
    assert On(s.reqs, n) == {};
    assert Counted(s.reqs, servers') by {
      hide On;
    }
    CardAdd(Up(s.servers), Up(servers'), n);
    RingJoin(s.ring, s.servers, n, v);
    hide Hashed, Queued, Counted, Distinct, Inflight, Up, Ring;
  }

  // ---- turning the ring

  function Turned<T>(q: seq<T>, k: nat): seq<T>
    requires k <= |q|
  {
    q[k..] + q[..k]
  }

  lemma {:induction false} TurnKeeps(s: State, k: nat)
    requires Ok(s) && k <= |s.ring|
    ensures Ok(s.(ring := Turned(s.ring, k)))
  {
    var ring' := Turned(s.ring, k);
    assert s.ring == s.ring[..k] + s.ring[k..];
    assert forall i :: 0 <= i < |ring'| ==> ring'[i] == s.ring[if i < |s.ring| - k then i + k else i + k - |s.ring|];
    assert forall n :: n in s.ring <==> n in ring';
  }

  // ---- rehashing

  /** New queues that hold exactly the requests of `done`. */
  ghost predicate Filed(reqs: Requests, done: set<ReqId>, heads: seq<seq<ReqId>>) {
    |heads| > 0 && forall c :: 0 <= c < |heads| ==> FiledIn(reqs, done, heads[c], c, |heads|)
  }

  ghost predicate FiledIn(reqs: Requests, done: set<ReqId>, q: seq<ReqId>, c: nat, n: nat)
    requires n > 0
  {
    NoDup(q) && forall id :: id in q <==> id in done && id in reqs && reqs[id].transId % n == c
  }

  lemma {:induction false} File(reqs: Requests, done: set<ReqId>, heads: seq<seq<ReqId>>, id: ReqId)
    requires Filed(reqs, done, heads) && id !in done && id in reqs
    ensures var c := reqs[id].transId % |heads|;
            Filed(reqs, done + {id}, heads[c := heads[c] + [id]])
  {
    var c := reqs[id].transId % |heads|;
    var heads' := heads[c := heads[c] + [id]];
    forall d | 0 <= d < |heads|
      ensures FiledIn(reqs, done + {id}, heads'[d], d, |heads|)
    {
      assert FiledIn(reqs, done, heads[d], d, |heads|);
      if d == c {
        Appended(heads[c], id);
      }
    }
  }

  lemma {:induction false} AllFiled(reqs: Requests, heads: seq<seq<ReqId>>)
    requires Filed(reqs, Inflight(reqs), heads)
    ensures Hashed(reqs, heads)
  {
    forall c | 0 <= c < |heads|
      ensures Bucket(reqs, heads[c], c, |heads|)
    {
      assert FiledIn(reqs, Inflight(reqs), heads[c], c, |heads|);
    }
  }

  // ---- transaction ids

  ghost function Ids(n: nat): set<nat> {
    if n == 0 then {} else Ids(n - 1) + {n - 1}
  }

  lemma {:induction false} IdsCount(n: nat)
    ensures |Ids(n)| == n && forall t :: t in Ids(n) ==> t < n
  {
    if n > 0 {
      IdsCount(n - 1);
      CardAdd(Ids(n - 1), Ids(n), n - 1);
    }
  }

  ghost function IdsOf(reqs: Requests, ids: set<ReqId>): set<nat>
    requires forall id :: id in ids ==> id in reqs
  {
    set id | id in ids :: reqs[id].transId
  }

  lemma {:induction false} IdsOfCount(reqs: Requests, ids: set<ReqId>)
    requires forall id :: id in ids ==> id in reqs
    ensures |IdsOf(reqs, ids)| <= |ids|
    ensures Distinct(reqs) && ids <= Inflight(reqs) ==> |IdsOf(reqs, ids)| == |ids|
  {
    if ids == {} {
      assert IdsOf(reqs, ids) == {};
    } else {
      var id :| id in ids;
      var rest := ids - {id};
      IdsOfCount(reqs, rest);
      assert IdsOf(reqs, ids) == IdsOf(reqs, rest) + {reqs[id].transId};
      assert Distinct(reqs) && ids <= Inflight(reqs) ==> reqs[id].transId !in IdsOf(reqs, rest);
    }
  }

  lemma {:induction false} IdsBelow(n: nat, t: nat)
    requires t < n
    ensures t in Ids(n)
  {
    if t < n - 1 {
      IdsBelow(n - 1, t);
    }
  }

  /** A transaction id is free if and only if fewer than 65535 requests are in flight. */
  lemma {:induction false} SomeIdIsFree(reqs: Requests)
    requires Distinct(reqs)
    ensures |Inflight(reqs)| < NO_ID <==> exists t: nat :: t < NO_ID && !Used(reqs, t)
  {
    hide Distinct;
    IdsCount(NO_ID);
    IdsOfCount(reqs, Inflight(reqs));
    var used := IdsOf(reqs, Inflight(reqs));
    if t: nat :| t < NO_ID && !Used(reqs, t) {
      IdsBelow(NO_ID, t);
      UsedBelow(reqs);
      Larger(used, Ids(NO_ID) - {t});
    } else if Ids(NO_ID) <= used {
      Larger(Ids(NO_ID), used);
    } else {
      var t :| t in Ids(NO_ID) && t !in used;
      assert !Used(reqs, t);
    }
  }

  lemma {:induction false} UsedBelow(reqs: Requests)
    requires Distinct(reqs)
    ensures IdsOf(reqs, Inflight(reqs)) <= Ids(NO_ID)
    ensures forall t :: t in IdsOf(reqs, Inflight(reqs)) ==> Used(reqs, t)
  {
    forall id | id in Inflight(reqs)
      ensures reqs[id].transId in Ids(NO_ID)
    {
      IdsBelow(NO_ID, reqs[id].transId);
    }
  }

  /** In every state with fewer than `max` requests in flight there is an id to draw. */
  ghost predicate EnoughIds(max: int) {
    forall reqs: Requests :: Distinct(reqs) && |Inflight(reqs)| < max ==> exists t: nat :: t < NO_ID && !Used(reqs, t)
  }

  /** Requests that are sent only below the configured maximum never run out of ids exactly when it is at
      most 65535. Probes are sent without regard to it. */
  lemma {:induction false} MaximumForIds(max: int)
    ensures EnoughIds(max) <==> max <= NO_ID
  {
    hide Distinct;
    if max <= NO_ID {
      forall reqs: Requests | Distinct(reqs) && |Inflight(reqs)| < max
        ensures exists t: nat :: t < NO_ID && !Used(reqs, t)
      {
        SomeIdIsFree(reqs);
      }
    } else {
      var reqs := AllInflight();
      SomeIdIsFree(reqs);
    }
  }

  /** All ids in use. */
  lemma {:induction false} AllInflight() returns (reqs: Requests)
    ensures Distinct(reqs) && |Inflight(reqs)| == NO_ID
  {
    reqs := map id: nat | id < NO_ID :: Request(id, Some(0), 0, 0, false);
    IdsCount(NO_ID);
    forall id | id in Inflight(reqs)
      ensures id in Ids(NO_ID)
    {
      IdsBelow(NO_ID, id);
    }
    assert Inflight(reqs) == Ids(NO_ID);
  }

  lemma {:induction false} Larger(a: set<nat>, b: set<nat>)
    requires a <= b
    ensures |a| <= |b|
  {
    assert b == a + (b - a);
  }

  // ---- what a transmission may change

  /** The same requests are in flight and waiting, in the same queues under the same ids; which
      server a request in flight is with, and what was sent, may differ. */
  ghost predicate SameQueues(s: State, t: State) {
    && t.reqs.Keys == s.reqs.Keys && SameServers(s.servers, t.servers)
    && (forall id :: id in s.reqs ==> Alike(s.reqs[id], t.reqs[id]))
    && t.heads == s.heads && t.waiting == s.waiting && t.nextId == s.nextId
    && t.inflight == s.inflight && t.waitingCount == s.waitingCount
    && |t.ring| == |s.ring|
  }

  /** The same servers, at the same addresses, with the same probes; none has come back up. */
  ghost predicate SameServers(a: Servers, b: Servers) {
    && a.Keys == b.Keys
    && (forall n :: n in a ==> a[n].address == b[n].address && a[n].probe == b[n].probe && (b[n].up ==> a[n].up))
  }

  /** Probes may have been forgotten, but not made up or mixed up. */
  ghost predicate ProbesKept(a: Servers, b: Servers) {
    a.Keys == b.Keys && forall n :: n in a && b[n].probe.Some? ==> b[n].probe == a[n].probe
  }

  ghost predicate Alike(r: Request, r': Request) {
    && (r.ns.Some? <==> r'.ns.Some?) && r.transId == r'.transId && r.reissues == r'.reissues
    && r.txCount <= r'.txCount
  }

  lemma {:induction false} SameQueuesTrans(s: State, t: State, u: State)
    requires SameQueues(s, t) && SameQueues(t, u)
    ensures SameQueues(s, u)
  {
    forall id | id in s.reqs
      ensures Alike(s.reqs[id], u.reqs[id])
    {
      assert Alike(s.reqs[id], t.reqs[id]) && Alike(t.reqs[id], u.reqs[id]);
    }
  }
}
