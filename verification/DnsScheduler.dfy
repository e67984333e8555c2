// The request scheduler of evdns: submitting, sending, timing out, answering and cancelling
// requests, and nameservers that fail and come back.
module DnsScheduler {
  import opened Wrappers
  import opened Sequences
  import opened DnsState

  /** How a `sendto` went: sent, would block or cut short, or failed. */
  datatype Sent = Delivered | Retry | Broken

  /** What a parsed reply says. */
  datatype Reply = Answer | Refused | ServerFailed | OtherError

  method Sendto() returns (r: Sent) {
    r := *;
  }

  class EvdnsBase {
    var reqs: Requests
    var servers: Servers
    var reqHeads: seq<seq<ReqId>>
    var waiting: seq<ReqId>
    var ring: seq<NsId>
    var nextId: nat
    var goodNameservers: int
    var inflight: int
    var waitingCount: int
    var maxInflight: int
    var maxReissues: int
    var maxRetransmits: int
    var maxTimeouts: int

    ghost function View(): State
      reads this
    {
      State(reqs, servers, reqHeads, waiting, ring, nextId, goodNameservers, inflight, waitingCount)
    }

    ghost predicate Valid()
      reads this
    {
      Ok(View()) && 1 <= maxInflight <= NO_ID
    }

    constructor (maxInflight: int, maxReissues: int, maxRetransmits: int, maxTimeouts: int)
      requires 1 <= maxInflight <= NO_ID
      ensures Valid() && reqs == map[] && servers == map[]
    {
      reqs, servers, waiting, ring := map[], map[], [], [];
      reqHeads := seq((maxInflight + 4) / 5, i => []);
      nextId, goodNameservers, inflight, waitingCount := 0, 0, 0, 0;
      this.maxInflight, this.maxReissues, this.maxRetransmits, this.maxTimeouts :=
        maxInflight, maxReissues, maxRetransmits, maxTimeouts;
      new;
      assert Inflight(reqs) == {} && Up(servers) == {};
      forall c | 0 <= c < |reqHeads|
        ensures Bucket(reqs, reqHeads[c], c, |reqHeads|)
      {
      }
    }

    // ---- nameservers

    /** A server is picked whenever there is one, an up server whenever one is up, and then the
        first one of the ring from its head; the ring is left just behind it. */
    method NameserverPick() returns (r: Option<NsId>)
      requires Valid()
      modifies this`ring
      ensures Valid()
      ensures |ring| == |old(ring)| && (r.None? <==> old(ring) == [])
      ensures r.Some? ==> r.value in servers && (servers[r.value].up <==> goodNameservers > 0)
      ensures r.None? ==> ring == old(ring)
      ensures r.Some? && goodNameservers == 0 ==> ring == Turned(old(ring), 1) && r.value == ring[0]
      ensures r.Some? && goodNameservers > 0 ==>
                exists k :: 0 <= k < |old(ring)| && FirstUp(old(ring), servers, k) && r.value == old(ring)[k]
                            && ring == Turned(old(ring), k + 1)
    {
      hide Ok, Turned;
      if ring == [] {
        return None;
      }
      ghost var s := View();
      RingMembers(s);
      if goodNameservers == 0 {
        TurnKeeps(s, 1);
        TurnStep(ring, 0);
        ring := Turned(ring, 1);
        NobodyUp(View());
        return Some(ring[0]);
      }
      TurnStep(ring, 0);
      ghost var k := 0;
      while true
        invariant 0 <= k < |s.ring| && ring == Turned(s.ring, k)
        invariant forall j :: 0 <= j < k ==> !servers[s.ring[j]].up
        decreases |s.ring| - k
      {
        TurnStep(s.ring, k);
        if servers[ring[0]].up {
          var picked := ring[0];
          assert FirstUp(s.ring, servers, k);
          ring := Turned(ring, 1);
          TurnKeeps(s, k + 1);
          return Some(picked);
        }
        ring := Turned(ring, 1);
        k := k + 1;
        if k == |s.ring| {
          // back where it started: every server is down, against the count of good ones
          SomebodyUp(s);
          assert false;
        }
      }
    }

    method RequestSwapNs(id: ReqId, n: Option<NsId>)
      requires Valid() && id in reqs && reqs[id].ns.Some? && (n.Some? ==> n.value in servers)
      modifies this`reqs, this`servers
      ensures Valid() && SameQueues(old(View()), View())
      ensures reqs == old(reqs)[id := old(reqs)[id].(ns := if n.Some? then n else old(reqs)[id].ns)]
      ensures SameStates(old(servers), servers)
    {
      hide Ok;
      ghost var s := View();
      if n.Some? && reqs[id].ns != n {
        Reassign(s, id, n.value);
        var from := reqs[id].ns.value;
        assert servers[from].inflight > 0;
        servers := Charged(servers, from, -1);
        servers := Charged(servers, n.value, 1);
        reqs := reqs[id := reqs[id].(ns := n)];
      }
    }

    /** The server is down afterwards; while another is up, what has not gone out yet leaves it. */
    method NameserverFailed(n: NsId)
      requires Valid() && n in servers
      modifies this`reqs, this`servers, this`ring, this`goodNameservers
      ensures Valid() && SameQueues(old(View()), View())
      ensures SameStates(old(servers)[n := old(servers)[n].(up := false)], servers)
      ensures goodNameservers == old(goodNameservers) - if old(servers)[n].up then 1 else 0
      ensures old(servers)[n].up && goodNameservers > 0 ==> NoneUnsent(reqs, n)
      ensures OnlyLeft(old(reqs), reqs, n)
    {
      hide Ok, SameQueues;
      SameQueuesSelf(View());
      if !servers[n].up {
        return;
      }
      MarkDown(n);
      if goodNameservers == 0 {
        return;
      }
      ghost var s := View();
      MoveUnsent(n);
      SameQueuesTrans(old(View()), s, View());
    }

    /** The walk over the requests in flight, to see which can go to another server. */
    method MoveUnsent(n: NsId)
      requires Valid() && n in servers && !servers[n].up && goodNameservers > 0
      modifies this`reqs, this`servers, this`ring
      ensures Valid() && SameQueues(old(View()), View()) && SameStates(old(servers), servers)
      ensures NoneUnsent(reqs, n) && OnlyLeft(old(reqs), reqs, n)
    {
      hide Ok, SameQueues;
      ghost var s := View();
      SameQueuesSelf(s);
      var i := 0;
      while i < |reqHeads|
        invariant 0 <= i <= |reqHeads|
        invariant Valid() && SameQueues(s, View()) && SameStates(s.servers, servers)
        invariant OnlyLeft(s.reqs, reqs, n)
        invariant forall c :: 0 <= c < i ==> Cleared(reqs, reqHeads[c], n)
      {
        ghost var t := View();
        ClearBucket(i, n);
        SameQueuesTrans(s, t, View());
        OnlyLeftTrans(s.reqs, t.reqs, reqs, n);
        forall c | 0 <= c < i
          ensures Cleared(reqs, reqHeads[c], n)
        {
          assert Cleared(t.reqs, reqHeads[c], n);
        }
        i := i + 1;
      }
      Walked(View(), n);
    }

    method MarkDown(n: NsId)
      requires Valid() && n in servers && servers[n].up
      modifies this`servers, this`goodNameservers
      ensures Valid() && SameQueues(old(View()), View())
      ensures SameStates(old(servers)[n := old(servers)[n].(up := false)], servers)
      ensures goodNameservers == old(goodNameservers) - 1 >= 0
    {
      hide Ok;
      var v := servers[n].(up := false, failedTimes := 1);
      RetouchServer(View(), n, v);
      goodNameservers := goodNameservers - 1;
      assert goodNameservers >= 0;
      servers := servers[n := v];
    }

    /** One bucket of the walk over the requests in flight. */
    method ClearBucket(b: nat, n: NsId)
      requires Valid() && b < |reqHeads| && n in servers && !servers[n].up && goodNameservers > 0
      modifies this`reqs, this`servers, this`ring
      ensures Valid() && SameQueues(old(View()), View()) && SameStates(old(servers), servers)
      ensures Cleared(reqs, reqHeads[b], n) && OnlyLeft(old(reqs), reqs, n)
    {
      hide Ok, SameQueues;
      ghost var s := View();
      SameQueuesSelf(s);
      BucketMembers(s, b);
      var q := reqHeads[b];
      var j := 0;
      while j < |q|
        invariant 0 <= j <= |q|
        invariant Valid() && SameQueues(s, View()) && SameStates(s.servers, servers)
        invariant OnlyLeft(s.reqs, reqs, n)
        invariant forall k :: 0 <= k < j ==> !Unsent(reqs[q[k]], n)
      {
        ghost var t := View();
        if reqs[q[j]].txCount == 0 && reqs[q[j]].ns == Some(n) {
          // never sent, so no answer can come from the failed server
          RingNonEmpty(t, n);
          var picked := NameserverPick();
          assert picked != Some(n);
          SameQueuesTurned(t, ring);
          ghost var u := View();
          RequestSwapNs(q[j], picked);
          SameQueuesTrans(t, u, View());
          SameQueuesTrans(s, t, View());
        }
        j := j + 1;
      }
    }

    // ---- sending

    /** 0: sent, 1: not sent now. */
    method RequestTransmit(id: ReqId) returns (code: int)
      requires Valid() && id in reqs && reqs[id].ns.Some?
      modifies this`reqs, this`servers, this`ring, this`goodNameservers
      ensures Valid() && SameQueues(old(View()), View())
      ensures code in {0, 1}
      ensures code == 0 ==> reqs[id].txCount == old(reqs)[id].txCount + 1 && !reqs[id].transmitMe
    {
      hide Ok, SameQueues;
      InflightServer(View(), id);
      assert reqs[id].transId != NO_ID;
      Mark(id, reqs[id].txCount, true);
      ghost var s := View();
      var n := reqs[id].ns.value;
      InflightServer(s, id);
      if servers[n].choked {
        return 1;
      }
      var sent := Sendto();
      if sent == Retry {
        var v := servers[n].(choked := true);
        RetouchServer(s, n, v);
        SameQueuesServer(s, n, v);
        servers := servers[n := v];
        SameQueuesTrans(old(View()), s, View());
        return 1;
      }
      code := 0;
      SameQueuesSelf(s);
      if sent == Broken {
        NameserverFailed(n);
        code := 1;
      }
      ghost var t := View();
      KeptRequest(s, t, id);
      SameQueuesTrans(old(View()), s, t);
      Mark(id, reqs[id].txCount + 1, false);
      SameQueuesTrans(old(View()), t, View());
    }

    method Mark(id: ReqId, txCount: nat, transmitMe: bool)
      requires Valid() && id in reqs && txCount >= reqs[id].txCount
      modifies this`reqs
      ensures Valid() && SameQueues(old(View()), View())
      ensures reqs == old(reqs)[id := old(reqs)[id].(txCount := txCount, transmitMe := transmitMe)]
    {
      hide Ok;
      var r := reqs[id].(txCount := txCount, transmitMe := transmitMe);
      Retouch(View(), id, r);
      reqs := reqs[id := r];
    }

    /** Sends whatever is marked to be sent. */
    method TransmitAll() returns (tried: bool)
      requires Valid()
      modifies this`reqs, this`servers, this`ring, this`goodNameservers
      ensures Valid() && SameQueues(old(View()), View())
    {
      hide Ok, SameQueues;
      tried := false;
      ghost var s := View();
      SameQueuesSelf(s);
      var i := 0;
      while i < |reqHeads|
        invariant Valid() && SameQueues(s, View())
      {
        ghost var t := View();
        BucketMembers(t, i);
        var j := 0;
        while j < |reqHeads[i]|
          invariant Valid() && SameQueues(s, View())
        {
          ghost var u := View();
          BucketMembers(u, i);
          if reqs[reqHeads[i][j]].transmitMe {
            tried := true;
            var _ := RequestTransmit(reqHeads[i][j]);
            SameQueuesTrans(s, u, View());
          }
          j := j + 1;
        }
        i := i + 1;
      }
    }

    // ---- transaction ids

    /** A walk over one bucket finds the request in flight with that id, if there is one. */
    method RequestFindFromTransId(transId: nat) returns (r: Option<ReqId>)
      requires Valid()
      ensures r.Some? ==> r.value in reqs && reqs[r.value].ns.Some? && reqs[r.value].transId == transId
      ensures r.None? <==> !Used(reqs, transId)
    {
      hide Ok;
      HeadsExist(View());
      var b := transId % |reqHeads|;
      BucketMembers(View(), b);
      var q := reqHeads[b];
      var j := 0;
      while j < |q|
        invariant 0 <= j <= |q|
        invariant forall k :: 0 <= k < j ==> reqs[q[k]].transId != transId
      {
        if reqs[q[j]].transId == transId {
          return Some(q[j]);
        }
        j := j + 1;
      }
      NotInBucket(View(), transId);
      return None;
    }

    /** Draws until an id is neither 0xffff nor found in flight; the draws are arbitrary, but sooner or
        later one is a free id, if there is any. */
    method TransactionIdPick() returns (transId: nat)
      requires Valid() && inflight < NO_ID
      ensures transId < NO_ID && !Used(reqs, transId)
    {
      hide Ok, Used;
      SomeIdInState(View());
      var unlucky: nat := *;
      while true
        decreases unlucky
      {
        transId := RandomId(reqs, unlucky == 0);
        if transId != NO_ID {
          var found := RequestFindFromTransId(transId);
          if found.None? {
            return;
          }
        }
        unlucky := unlucky - 1;
      }
    }

    /** Two random bytes. */
    static method RandomId(reqs: Requests, lucky: bool) returns (t: nat)
      requires exists u: nat :: u < NO_ID && !Used(reqs, u)
      ensures t <= NO_ID && (lucky ==> t < NO_ID && !Used(reqs, t))
    {
      hide Used;
      if lucky {
        t :| t < NO_ID && !Used(reqs, t);
      } else {
        t :| t <= NO_ID;
      }
    }

    // ---- the queues

    /** Promotes from the head of the waiting queue while there is room and a server. */
    method PumpWaitingQueue()
      requires Valid()
      modifies this`reqs, this`servers, this`ring, this`goodNameservers, this`reqHeads, this`waiting,
               this`inflight, this`waitingCount
      ensures Valid() && reqs.Keys == old(reqs).Keys && SameServers(old(servers), servers)
      ensures inflight >= maxInflight || waiting == [] || ring == []
      ensures exists k :: 0 <= k <= |old(waiting)| && waiting == old(waiting)[k..] && inflight == old(inflight) + k
    {
      hide Ok, SameQueues;
      ghost var k := 0;
      while inflight < maxInflight && waitingCount != 0
        invariant Valid() && reqs.Keys == old(reqs).Keys && SameServers(old(servers), servers)
        invariant 0 <= k <= |old(waiting)| && waiting == old(waiting)[k..] && inflight == old(inflight) + k
        decreases waiting
      {
        WaitingCount(View());
        assert waiting != [];
        label before:
        var moved := PumpOne();
        if !moved {
          return;
        }
        assert old@before(waiting)[1..] == old(waiting)[k + 1..];
        k := k + 1;
      }
      WaitingCount(View());
    }

    /** The head of the waiting queue goes into flight, if there is a server to send it to. */
    method PumpOne() returns (moved: bool)
      requires Valid() && waiting != [] && inflight < maxInflight
      modifies this`reqs, this`servers, this`ring, this`goodNameservers, this`reqHeads, this`waiting,
               this`inflight, this`waitingCount
      ensures Valid() && reqs.Keys == old(reqs).Keys && SameServers(old(servers), servers)
      ensures moved <==> old(ring) != []
      ensures moved ==> waiting == old(waiting)[1..] && inflight == old(inflight) + 1
      ensures !moved ==> View() == old(View())
    {
      hide Ok, SameQueues, SameServers, Used, Charged;
      SameServersSelf(servers);
      var id := waiting[0];
      WaitingCount(View());
      var picked := NameserverPick();
      if picked.None? {
        return false;
      }
      var transId := TransactionIdPick();
      var r := reqs[id].(ns := picked, transId := transId);
      ghost var s := View();
      LaunchWaiting(s, r);
      HeadsExist(s);
      ChargedServers(servers, picked.value, 1);
      servers := Charged(servers, picked.value, 1);
      waiting := waiting[1..];
      waitingCount := waitingCount - 1;
      inflight := inflight + 1;
      reqs := reqs[id := r];
      var b := transId % |reqHeads|;
      reqHeads := reqHeads[b := reqHeads[b] + [id]];
      ghost var charged := servers;
      SendAll(id);
      SameServersTrans(s.servers, charged, servers);
      return true;
    }

    /** The new request is sent, and whatever else is marked. */
    method SendAll(id: ReqId)
      requires Valid() && id in reqs && reqs[id].ns.Some?
      modifies this`reqs, this`servers, this`ring, this`goodNameservers
      ensures Valid() && reqs.Keys == old(reqs).Keys && |ring| == |old(ring)|
      ensures SameServers(old(servers), servers)
    {
      hide Ok, SameQueues;
      ghost var t := View();
      var _ := RequestTransmit(id);
      ghost var u := View();
      var _ := TransmitAll();
      SameQueuesTrans(t, u, View());
      SameQueuesFrame(t, View());
    }

    /** `request_new` and `request_submit`: straight into flight if there is room and a server,
        else to the tail of the waiting queue. */
    method Resolve() returns (id: ReqId)
      requires Valid()
      modifies this
      ensures Valid() && id == old(nextId) && id !in old(reqs) && reqs.Keys == old(reqs).Keys + {id}
      ensures SameServers(old(servers), servers) && SameLimits() && nextId == id + 1
      ensures if old(inflight) < maxInflight && old(ring) != []
              then reqs[id].ns.Some? && inflight == old(inflight) + 1 && waiting == old(waiting)
              else reqs[id].ns.None? && inflight == old(inflight) && waiting == old(waiting) + [id]
    {
      hide Ok, SameQueues;
      FreshId(View());
      var transId := NO_ID;
      var ns := None;
      if inflight < maxInflight {
        transId := TransactionIdPick();
        ns := NameserverPick();
      }
      id := nextId;
      nextId := nextId + 1;
      Submit(id, Request(transId, ns, 0, 0, false));
    }

    /** `id` was allocated last. */
    method Submit(id: ReqId, r: Request)
      requires nextId == id + 1 && Ok(View().(nextId := id)) && 1 <= maxInflight <= NO_ID
      requires r.ns.Some? ==> r.ns.value in servers && r.transId < NO_ID && !Used(reqs, r.transId)
      modifies this`reqs, this`servers, this`ring, this`goodNameservers, this`reqHeads, this`waiting,
               this`inflight, this`waitingCount
      ensures Valid() && reqs.Keys == old(reqs).Keys + {id} && SameServers(old(servers), servers)
      ensures if r.ns.Some?
              then reqs[id].ns.Some? && inflight == old(inflight) + 1 && waiting == old(waiting)
              else reqs[id].ns.None? && inflight == old(inflight) && waiting == old(waiting) + [id]
    {
      hide Ok, SameQueues, Used;
      ghost var s := View().(nextId := id);
      if r.ns.Some? {
        LaunchNew(s, r);
        HeadsExist(s);
        var b := r.transId % |reqHeads|;
        reqs := reqs[id := r];
        reqHeads := reqHeads[b := reqHeads[b] + [id]];
        inflight := inflight + 1;
        servers := Charged(servers, r.ns.value, 1);
        ghost var t := View();
        var _ := RequestTransmit(id);
        SameQueuesFrame(t, View());
        KeptRequest(t, View(), id);
      } else {
        Park(s, r);
        reqs := reqs[id := r];
        waiting := waiting + [id];
        waitingCount := waitingCount + 1;
      }
    }

    /** The request leaves its queue, and the room it made is used. */
    method RequestFinished(id: ReqId)
      requires Valid() && id in reqs
      modifies this`reqs, this`servers, this`ring, this`goodNameservers, this`reqHeads, this`waiting,
               this`inflight, this`waitingCount
      ensures Valid() && reqs.Keys == old(reqs).Keys - {id} && SameServers(old(servers), servers)
      ensures inflight >= maxInflight || waiting == [] || ring == []
    {
      hide Ok, SameQueues;
      ghost var s := View();
      Drop(s, id);
      var r := reqs[id];
      reqs := reqs - {id};
      if r.ns.Some? {
        HeadsExist(s);
        InflightServer(s, id);
        var b := r.transId % |reqHeads|;
        reqHeads := reqHeads[b := Removed(reqHeads[b], id)];
        inflight := inflight - 1;
        servers := Charged(servers, r.ns.value, -1);
      } else {
        waiting := Removed(waiting, id);
        waitingCount := waitingCount - 1;
      }
      PumpWaitingQueue();
    }

    /** Nothing happens to a handle whose request is over. */
    method Cancel(id: ReqId)
      requires Valid()
      modifies this`reqs, this`servers, this`ring, this`goodNameservers, this`reqHeads, this`waiting,
               this`inflight, this`waitingCount
      ensures Valid() && reqs.Keys == old(reqs).Keys - {id} && SameServers(old(servers), servers)
    {
      if id in reqs {
        RequestFinished(id);
      }
    }

    // ---- servers coming back

    method NameserverUp(n: NsId)
      requires Valid() && n in servers
      modifies this`reqs, this`servers, this`ring, this`goodNameservers, this`reqHeads, this`waiting,
               this`inflight, this`waitingCount
      ensures Valid() && ProbesKept(old(servers), servers) && servers[n].up
      ensures !old(servers)[n].up ==> servers[n].failedTimes == 0 && servers[n].timedout == 0 && servers[n].probe.None?
      ensures var v := old(servers)[n];
              reqs.Keys == old(reqs).Keys - if !v.up && v.probe.Some? then {v.probe.value} else {}
    {
      hide Ok;
      if servers[n].up {
        return;
      }
      if servers[n].probe.Some? {
        Cancel(servers[n].probe.value);
        // nothing that cancelling sets off brings the server up
        assert !servers[n].up;
      }
      var v := servers[n].(probe := None, up := true, failedTimes := 0, timedout := 0);
      RetouchServer(View(), n, v);
      servers := servers[n := v];
      goodNameservers := goodNameservers + 1;
    }

    /** Fields of a server that no counter depends on. */
    method SetServer(n: NsId, v: Nameserver)
      requires Valid() && n in servers && v.inflight == servers[n].inflight && v.up == servers[n].up
      modifies this`servers
      ensures Valid() && servers == old(servers)[n := v]
    {
      hide Ok;
      RetouchServer(View(), n, v);
      servers := servers[n := v];
    }

    /** A probe is forced into flight, room or not. */
    method SendProbe(n: NsId) returns (id: ReqId)
      requires Valid() && n in servers && inflight < NO_ID
      modifies this
      ensures Valid() && id == old(nextId) && reqs.Keys == old(reqs).Keys + {id}
      ensures n in servers && servers[n].probe == Some(id) && SameLimits() && nextId == id + 1
      ensures ProbesKept(old(servers)[n := servers[n]], servers)
      ensures reqs[id].ns.Some? && inflight == old(inflight) + 1 && waiting == old(waiting)
    {
      hide Ok, Used, SameServers, ProbesKept, Turned, FirstUp;
      if inflight < maxInflight {
        var _ := TransactionIdPick();
        var _ := NameserverPick();
      }
      id := nextId;
      SetServer(n, servers[n].(probe := Some(id)));
      var transId := TransactionIdPick();
      nextId := nextId + 1;
      ghost var before := servers;
      Submit(id, Request(transId, Some(n), 0, 0, false));
      ProbesAround(old(servers), before, servers, n);
    }

    /** The probe's answer: the server is up, or it has failed once more. */
    method ProbeCallback(n: NsId, good: bool)
      requires Valid() && n in servers
      modifies this`reqs, this`servers, this`ring, this`goodNameservers, this`reqHeads, this`waiting,
               this`inflight, this`waitingCount
      ensures Valid() && ProbesKept(old(servers), servers) && reqs.Keys == old(reqs).Keys
      ensures servers[n].up <==> good || old(servers)[n].up
    {
      hide Ok;
      SetServer(n, servers[n].(probe := None));
      if good {
        NameserverUp(n);
      } else if !servers[n].up {
        SetServer(n, servers[n].(failedTimes := servers[n].failedTimes + 1));
      }
    }

    // ---- timeouts and replies

    method TimeoutCallback(id: ReqId)
      requires Valid() && id in reqs && reqs[id].ns.Some?
      modifies this`reqs, this`servers, this`ring, this`goodNameservers, this`reqHeads, this`waiting,
               this`inflight, this`waitingCount
      ensures Valid() && SameServers(old(servers), servers)
      ensures reqs.Keys == old(reqs).Keys - if old(reqs)[id].txCount >= maxRetransmits then {id} else {}
    {
      hide Ok, SameQueues;
      InflightServer(View(), id);
      if reqs[id].txCount >= maxRetransmits {
        var n := reqs[id].ns.value;
        RequestFinished(id);
        ghost var s := View();
        NameserverFailed(n);
        SameQueuesFrame(s, View());
        SameServersTrans(old(servers), s.servers, servers);
      } else {
        Retransmit(id);
        SameQueuesFrame(old(View()), View());
      }
    }

    method Retransmit(id: ReqId)
      requires Valid() && id in reqs && reqs[id].ns.Some?
      modifies this`reqs, this`servers, this`ring, this`goodNameservers
      ensures Valid() && SameQueues(old(View()), View())
    {
      hide Ok, SameQueues;
      ghost var s0 := View();
      var picked := NameserverPick();
      SameQueuesTurned(s0, ring);
      ghost var s1 := View();
      RequestSwapNs(id, picked);
      ghost var s2 := View();
      var _ := RequestTransmit(id);
      ghost var s3 := View();
      SameQueuesTrans(s0, s1, s2);
      SameQueuesTrans(s0, s2, s3);
      KeptRequest(s0, s3, id);
      InflightServer(s3, id);
      var n := reqs[id].ns.value;
      var late := servers[n].timedout + 1 > maxTimeouts;
      var v := servers[n].(timedout := if late then 0 else servers[n].timedout + 1);
      SetServer(n, v);
      SameQueuesServer(s3, n, v);
      SameQueuesTrans(s0, s3, View());
      ghost var s4 := View();
      if late {
        NameserverFailed(n);
        SameQueuesTrans(s0, s4, View());
      }
    }

    /** 0: the request went to another server and will be sent again; 1: there is no other. */
    method RequestReissue(id: ReqId) returns (code: int)
      requires Valid() && id in reqs && reqs[id].ns.Some?
      modifies this`reqs, this`servers, this`ring
      ensures Valid() && reqs.Keys == old(reqs).Keys && SameServers(old(servers), servers)
      ensures reqs[id].ns.Some? && code in {0, 1}
      ensures code == 0 <==> reqs[id].ns != old(reqs)[id].ns
      ensures code == 0 ==>
                reqs[id].transmitMe && reqs[id].txCount == 0 && reqs[id].reissues == old(reqs)[id].reissues + 1
      ensures goodNameservers > 0 && !OnUp(old(reqs)[id], old(servers)) ==> code == 0
    {
      hide Ok, SameQueues, Turned, FirstUp;
      InflightServer(View(), id);
      RingNonEmpty(View(), reqs[id].ns.value);
      var last := reqs[id].ns;
      var picked := NameserverPick();
      ghost var s := View();
      RequestSwapNs(id, picked);
      SameQueuesFrame(s, View());
      if reqs[id].ns == last {
        return 1;
      }
      var r := reqs[id].(reissues := reqs[id].reissues + 1, txCount := 0, transmitMe := true);
      Retouch(View(), id, r);
      reqs := reqs[id := r];
      return 0;
    }

    /** After any reply the request is over, unless it was sent elsewhere or left to time out. */
    method ReplyHandle(id: ReqId, reply: Reply)
      requires Valid() && id in reqs && reqs[id].ns.Some?
      modifies this`reqs, this`servers, this`ring, this`goodNameservers, this`reqHeads, this`waiting,
               this`inflight, this`waitingCount
      ensures Valid() && ProbesKept(old(servers), servers) && reqs.Keys <= old(reqs).Keys
      ensures forall x :: x in old(reqs) && x !in reqs ==> x == id || Probing(old(servers), x)
      ensures reply in {Answer, OtherError} ==> id !in reqs
      ensures reply == ServerFailed ==> (id in reqs <==> old(reqs)[id].txCount < maxRetransmits)
      ensures reply == Refused ==> ReissuedRight(old(View()), id, maxReissues, reqs)
    {
      hide Ok, SameQueues;
      InflightServer(View(), id);
      var n := reqs[id].ns.value;
      match reply {
        case Refused => HandleRefused(id, n);
        case ServerFailed => TimeoutCallback(id);
        case Answer =>
          ServerAnswered(id, n);
          RequestFinished(id);
        case OtherError =>
          ServerAnswered(id, n);
          RequestFinished(id);
      }
    }

    /** The server is taken to have failed; the request goes to another one, or is over. */
    method HandleRefused(id: ReqId, n: NsId)
      requires Valid() && id in reqs && reqs[id].ns == Some(n) && n in servers
      modifies this`reqs, this`servers, this`ring, this`goodNameservers, this`reqHeads, this`waiting,
               this`inflight, this`waitingCount
      ensures Valid() && SameServers(old(servers), servers)
      ensures reqs.Keys == old(reqs).Keys || reqs.Keys == old(reqs).Keys - {id}
      ensures ReissuedRight(old(View()), id, maxReissues, reqs)
    {
      hide Ok, SameQueues;
      SameServersSelf(servers);
      if reqs[id].reissues < maxReissues {
        ghost var s := View();
        NameserverFailed(n);
        SameQueuesFrame(s, View());
        KeptRequest(s, View(), id);
        InflightServer(View(), id);
        ghost var t := View();
        var code := RequestReissue(id);
        SameServersTrans(s.servers, t.servers, servers);
        if code == 0 {
          return;
        }
      }
      ghost var u := servers;
      RequestFinished(id);
      SameServersTrans(old(servers), u, servers);
    }

    /** The server answered, so it is up; the probe that asked, if this is it, is not cancelled. */
    method ServerAnswered(id: ReqId, n: NsId)
      requires Valid() && id in reqs && n in servers
      modifies this`reqs, this`servers, this`ring, this`goodNameservers, this`reqHeads, this`waiting,
               this`inflight, this`waitingCount
      ensures Valid() && ProbesKept(old(servers), servers) && servers[n].up
      ensures id in reqs && reqs.Keys <= old(reqs).Keys
      ensures forall x :: x in old(reqs) && x !in reqs ==> Probing(old(servers), x)
    {
      hide Ok;
      if servers[n].probe == Some(id) {
        SetServer(n, servers[n].(probe := None));
      }
      NameserverUp(n);
    }

    // ---- configuration

    /** 0: added, 3: a server with that address is there already. `n` is the new object. */
    method NameserverAdd(n: NsId, address: nat) returns (code: int)
      requires Valid() && n !in servers
      modifies this`servers, this`ring, this`goodNameservers
      ensures Valid()
      ensures code == 3 <==> exists m :: m in old(servers) && old(servers)[m].address == address
      ensures code == 3 ==> View() == old(View())
      ensures code != 3 ==>
                && code == 0 && n in servers && servers == old(servers)[n := servers[n]]
                && servers[n].up && servers[n].probe.None?
                            && ring == Joined(old(ring), n)
    {
      hide Ok;
      RingMembers(View());
      RingCovers(View());
      var j := 0;
      while j < |ring|
        invariant 0 <= j <= |ring|
        invariant forall k :: 0 <= k < j ==> servers[ring[k]].address != address
        modifies {}
      {
        if servers[ring[j]].address == address {
          return 3;
        }
        j := j + 1;
      }
      var v := Nameserver(address, true, 0, 0, 0, false, None);
      Join(View(), n, v);
      ring := Joined(ring, n);
      servers := servers[n := v];
      goodNameservers := goodNameservers + 1;
      return 0;
    }

    /** Rehashes everything in flight; nothing else changes. */
    method SetMaxRequestsInflight(max: int)
      requires Ok(View()) && max <= INT_MAX - 4
      modifies this`reqHeads, this`maxInflight
      ensures Ok(View()) && (Valid() <==> max <= NO_ID)
      ensures maxInflight == (if max < 1 then 1 else max) && |reqHeads| == (maxInflight + 4) / 5
    {
      hide Ok;
      var m := if max < 1 then 1 else max;
      ghost var s := View();
      var heads := Rehash(reqs, reqHeads, (m + 4) / 5, s);
      Rehashed(s, heads);
      reqHeads := heads;
      maxInflight := m;
    }

    static method Rehash(reqs: Requests, oldHeads: seq<seq<ReqId>>, n: nat, ghost s: State)
      returns (heads: seq<seq<ReqId>>)
      requires Ok(s) && s.reqs == reqs && s.heads == oldHeads && n > 0
      ensures |heads| == n && Hashed(reqs, heads)
    {
      hide Ok, Hashed, Filed;
      heads := seq(n, i => []);
      NothingFiled(reqs, heads);
      HeadsExist(s);
      var i := 0;
      while i < |oldHeads|
        invariant 0 <= i <= |oldHeads| && |heads| == n
        invariant Filed(reqs, Below(reqs, |oldHeads|, i), heads)
      {
        BucketMembers(s, i);
        var q := oldHeads[i];
        var k := 0;
        ghost var done := Below(reqs, |oldHeads|, i);
        while k < |q|
          invariant 0 <= k <= |q| && |heads| == n
          invariant Filed(reqs, done, heads) && done == Taken(reqs, oldHeads, i, k)
        {
          var id := q[k];
          TakeNext(s, i, k);
          File(reqs, done, heads, id);
          var c := reqs[id].transId % n;
          heads := heads[c := heads[c] + [id]];
          done := done + {id};
          k := k + 1;
        }
        TakenAll(s, i);
        i := i + 1;
      }
      assert Below(reqs, |oldHeads|, |oldHeads|) == Inflight(reqs);
      AllFiled(reqs, heads);
    }

    twostate predicate SameLimits()
      reads this
    {
      maxInflight == old(maxInflight) && maxReissues == old(maxReissues) &&
      maxRetransmits == old(maxRetransmits) && maxTimeouts == old(maxTimeouts)
    }
  }

  // ---- whole runs

  /** What may happen to a base. An event about a request or server that is not there, or about a
      request that is not in flight, does not happen. */
  datatype Act =
    | Ask
    | Abandon(id: ReqId)
    | Late(id: ReqId)
    | Replied(id: ReqId, reply: Reply)
    | ReadFailed(n: NsId)
    | Prod(n: NsId)
    | Probed(n: NsId, good: bool)
    | AddServer(n: NsId, address: nat)
    | SetMax(max: int)
    | Resume

  /** An event that names the request. */
  predicate About(act: Act, id: ReqId) {
    match act
    case Abandon(i) => i == id
    case Late(i) => i == id
    case Replied(i, _) => i == id
    case _ => false
  }

  function Asks(acts: seq<Act>): nat {
    if acts == [] then 0 else Asks(acts[..|acts| - 1]) + if acts[|acts| - 1].Ask? then 1 else 0
  }

  /** The requests asked for and the probes sent so far: nothing else is in the base, and every probe a
      server remembers is among them. */
  ghost predicate Known(base: EvdnsBase, asked: set<ReqId>, probes: set<ReqId>)
    reads base
  {
    && base.reqs.Keys <= asked + probes && asked !! probes
    && (forall id :: id in asked || id in probes ==> id < base.nextId)
    && (forall id :: Probing(base.servers, id) ==> id in probes)
  }

  /** One event. Requests come only from it, and go only when it names them or they are probes. */
  method Perform(base: EvdnsBase, act: Act, ghost asked: set<ReqId>, ghost probes: set<ReqId>)
    returns (ghost asked': set<ReqId>, ghost probes': set<ReqId>)
    requires base.Valid() && Known(base, asked, probes)
    modifies base
    ensures base.Valid() && Known(base, asked', probes')
    ensures old(base.nextId) !in asked
    ensures if act.Ask? then asked' == asked + {old(base.nextId)} && old(base.nextId) in base.reqs else asked' == asked
    ensures forall id :: id in old(base.reqs) && id !in base.reqs ==> About(act, id) || id in probes
    ensures act.Abandon? ==> act.id !in base.reqs
    ensures act.Replied? && act.reply in {Answer, OtherError} && act.id in Inflight(old(base.reqs)) ==>
              act.id !in base.reqs
  {
    hide Ok, SameQueues;
    asked', probes' := asked, probes;
    match act {
      case Ask =>
        var id := base.Resolve();
        asked' := asked + {id};
      case Prod(n) =>
        if n in base.servers && base.inflight < NO_ID {
          var id := base.SendProbe(n);
          probes' := probes + {id};
        }
      case AddServer(n, address) =>
        if n !in base.servers {
          var _ := base.NameserverAdd(n, address);
        }
      case SetMax(max) =>
        if max <= NO_ID {
          base.SetMaxRequestsInflight(max);
        }
      case _ => PerformOnRequests(base, act);
    }
  }

  /** The events that bring nothing new. */
  method PerformOnRequests(base: EvdnsBase, act: Act)
    requires base.Valid() && !act.Ask? && !act.Prod? && !act.AddServer? && !act.SetMax?
    modifies base
    ensures base.Valid() && ProbesKept(old(base.servers), base.servers) && base.nextId == old(base.nextId)
    ensures base.reqs.Keys <= old(base.reqs).Keys
    ensures forall id :: id in old(base.reqs) && id !in base.reqs ==> About(act, id) || Probing(old(base.servers), id)
    ensures act.Abandon? ==> act.id !in base.reqs
    ensures act.Replied? && act.reply in {Answer, OtherError} && act.id in Inflight(old(base.reqs)) ==>
              act.id !in base.reqs
  {
    hide Ok, SameQueues;
    match act {
      case Abandon(id) => base.Cancel(id);
      case Late(id) =>
        if id in base.reqs && base.reqs[id].ns.Some? {
          base.TimeoutCallback(id);
        }
      case Replied(id, reply) =>
        if id in base.reqs && base.reqs[id].ns.Some? {
          base.ReplyHandle(id, reply);
        }
      case ReadFailed(n) =>
        if n in base.servers {
          ghost var s := base.View();
          base.NameserverFailed(n);
          SameQueuesFrame(s, base.View());
        }
      case Probed(n, good) =>
        if n in base.servers {
          base.ProbeCallback(n, good);
        }
      case Resume => base.PumpWaitingQueue();
      case _ =>
    }
  }

  /** Whatever happens to a base, with whatever luck in sending, its counters say what its queues
      and servers hold, and every request in flight sits in the bucket of its transaction id. Every
      request that was asked for is still there, unless an event has named it; what else is there are probes. */
  method Run(maxInflight: int, maxReissues: int, maxRetransmits: int, maxTimeouts: int, acts: seq<Act>)
    returns (base: EvdnsBase, ghost asked: set<ReqId>, ghost probes: set<ReqId>)
    requires 1 <= maxInflight <= NO_ID
    ensures fresh(base) && base.Valid()
    ensures base.inflight == Lengths(base.reqHeads) == |Inflight(base.reqs)|
    ensures Ring(base.ring, base.servers) && base.inflight == Load(base.ring, base.servers)
    ensures base.waitingCount == |base.waiting| && base.goodNameservers == CountUp(base.ring, base.servers)
    ensures Hashed(base.reqs, base.reqHeads) && Queued(base.reqs, base.waiting) && Distinct(base.reqs)
    ensures |asked| == Asks(acts) && base.reqs.Keys <= asked + probes && asked !! probes
    ensures Explained(base.reqs, asked, acts)
  {
    hide Ok, Known, Explained, Asks;
    base := new EvdnsBase(maxInflight, maxReissues, maxRetransmits, maxTimeouts);
    asked, probes := {}, {};
    NothingYet(base, acts);
    var i := 0;
    while i < |acts|
      invariant 0 <= i <= |acts| && fresh(base) && base.Valid() && Known(base, asked, probes)
      invariant |asked| == Asks(acts[..i]) && Explained(base.reqs, asked, acts[..i])
    {
      ghost var was, before, next := asked, base.reqs, base.nextId;
      OnlyKnown(base, asked, probes);
      asked, probes := Perform(base, acts[i], asked, probes);
      OneMoreAsked(acts, i, was, asked, next);
      ExplainedMore(before, base.reqs, was, asked, acts, i);
      i := i + 1;
    }
    assert acts[..i] == acts;
    CountersAgree(base.View());
    assert base.reqs.Keys <= asked + probes && asked !! probes by {
      OnlyKnown(base, asked, probes);
    }
  }

  /** Every request asked for is there, or an event has named it. */
  ghost predicate Explained(reqs: Requests, asked: set<ReqId>, acts: seq<Act>) {
    forall id :: id in asked && id !in reqs ==> exists i :: 0 <= i < |acts| && About(acts[i], id)
  }

  lemma {:induction false} NothingYet(base: EvdnsBase, acts: seq<Act>)
    requires base.reqs == map[] && base.servers == map[]
    ensures Known(base, {}, {}) && Asks(acts[..0]) == 0 && Explained(base.reqs, {}, acts[..0])
  {
  }

  lemma {:induction false} OnlyKnown(base: EvdnsBase, asked: set<ReqId>, probes: set<ReqId>)
    requires Known(base, asked, probes)
    ensures base.reqs.Keys <= asked + probes && asked !! probes
  {
  }

  lemma {:induction false} OneMoreAsked(acts: seq<Act>, i: nat, was: set<ReqId>, asked: set<ReqId>, next: ReqId)
    requires i < |acts| && |was| == Asks(acts[..i]) && next !in was
    requires asked == was + if acts[i].Ask? then {next} else {}
    ensures |asked| == Asks(acts[..i + 1])
  {
    assert acts[..i + 1][..i] == acts[..i];
  }

  lemma {:induction false} ExplainedMore(before: Requests, reqs: Requests, was: set<ReqId>, asked: set<ReqId>,
                                         acts: seq<Act>, i: nat)
    requires i < |acts| && Explained(before, was, acts[..i])
    requires forall id :: id in asked - was ==> id in reqs
    requires forall id :: id in was && id in before && id !in reqs ==> About(acts[i], id)
    ensures Explained(reqs, asked, acts[..i + 1])
  {
    var done := acts[..i + 1];
    forall id | id in asked && id !in reqs
      ensures exists k :: 0 <= k < |done| && About(done[k], id)
    {
      if id in before {
        assert About(done[i], id);
      } else {
        var k :| 0 <= k < i && About(acts[..i][k], id);
        assert About(done[k], id);
      }
    }
  }

  ghost predicate FirstUp(ring: seq<NsId>, servers: Servers, k: nat)
    requires k < |ring|
  {
    && ring[k] in servers && servers[ring[k]].up
    && forall j :: 0 <= j < k ==> ring[j] in servers && !servers[ring[j]].up
  }

  /** The same servers are up. */
  ghost predicate SameStates(a: Servers, b: Servers) {
    a.Keys == b.Keys && forall n :: n in a ==> a[n].up == b[n].up
  }

  ghost predicate OnUp(r: Request, servers: Servers) {
    r.ns.Some? && r.ns.value in servers && servers[r.ns.value].up
  }

  /** Setting server `n` aside, probes are only forgotten. */
  lemma {:induction false} ProbesAround(a: Servers, b: Servers, c: Servers, n: NsId)
    requires n in a && b.Keys == a.Keys && b == a[n := b[n]] && SameServers(b, c)
    ensures n in c && c[n].probe == b[n].probe && ProbesKept(a[n := c[n]], c)
  {
  }

  /** Some server remembers the request as its probe. */
  ghost predicate Probing(servers: Servers, id: ReqId) {
    exists n :: n in servers && servers[n].probe == Some(id)
  }

  /** What becomes of a refused request: over when it has been reissued too often; there again, marked to be
      sent afresh by another server, if it had been sent and another server is up. */
  ghost predicate ReissuedRight(s: State, id: ReqId, maxReissues: int, reqs: Requests)
    requires id in s.reqs && s.reqs[id].ns.Some? && s.reqs[id].ns.value in s.servers
  {
    var r, n := s.reqs[id], s.reqs[id].ns.value;
    && (r.reissues >= maxReissues ==> id !in reqs)
    && (id in reqs ==> reqs[id].transmitMe && reqs[id].txCount == 0 && reqs[id].reissues == r.reissues + 1)
    && (r.reissues < maxReissues && r.txCount > 0 && s.good > (if s.servers[n].up then 1 else 0) ==>
          id in reqs && reqs[id].ns != r.ns)
  }

  /** Assigned to `n` and never sent. */
  ghost predicate Unsent(r: Request, n: NsId) {
    r.ns == Some(n) && r.txCount == 0
  }

  ghost predicate NoneUnsent(reqs: Requests, n: NsId) {
    forall id :: id in reqs ==> !Unsent(reqs[id], n)
  }

  ghost predicate Cleared(reqs: Requests, q: seq<ReqId>, n: NsId) {
    forall k :: 0 <= k < |q| ==> q[k] in reqs && !Unsent(reqs[q[k]], n)
  }

  /** Requests may only have left server `n`, and only those that had not been sent. */
  ghost predicate OnlyLeft(a: Requests, b: Requests, n: NsId) {
    && a.Keys == b.Keys
    && (forall id :: id in a ==> (a[id].ns.Some? <==> b[id].ns.Some?))
    && (forall id :: id in a && Unsent(b[id], n) ==> Unsent(a[id], n))
    && (forall id :: id in a && !Unsent(a[id], n) ==> b[id] == a[id])
  }

  lemma {:induction false} OnlyLeftTrans(a: Requests, b: Requests, c: Requests, n: NsId)
    requires OnlyLeft(a, b, n) && OnlyLeft(b, c, n)
    ensures OnlyLeft(a, c, n)
  {
    hide Unsent;
  }

  lemma {:induction false} SameQueuesSelf(s: State)
    ensures SameQueues(s, s)
  {
  }

  lemma {:induction false} SameQueuesTurned(s: State, ring: seq<NsId>)
    requires |ring| == |s.ring|
    ensures SameQueues(s, s.(ring := ring))
  {
  }

  lemma {:induction false} SameQueuesServer(s: State, n: NsId, v: Nameserver)
    requires n in s.servers && v.address == s.servers[n].address && v.probe == s.servers[n].probe
    requires v.up ==> s.servers[n].up
    ensures SameQueues(s, s.(servers := s.servers[n := v]))
  {
  }

  /** What a transmission leaves alone. */
  lemma {:induction false} SameQueuesFrame(s: State, t: State)
    requires SameQueues(s, t)
    ensures t.reqs.Keys == s.reqs.Keys && SameServers(s.servers, t.servers)
    ensures t.heads == s.heads && t.waiting == s.waiting && t.nextId == s.nextId
    ensures t.inflight == s.inflight && t.waitingCount == s.waitingCount && |t.ring| == |s.ring|
  {
  }

  lemma {:induction false} SameServersSelf(a: Servers)
    ensures SameServers(a, a)
  {
  }

  lemma {:induction false} SameServersTrans(a: Servers, b: Servers, c: Servers)
    requires SameServers(a, b) && SameServers(b, c)
    ensures SameServers(a, c)
  {
  }

  lemma {:induction false} ChargedServers(a: Servers, n: NsId, d: int)
    requires n in a
    ensures SameServers(a, Charged(a, n, d))
  {
  }

  lemma {:induction false} FreshId(s: State)
    requires Ok(s)
    ensures s.nextId !in s.reqs
  {
  }

  lemma {:induction false} RingCovers(s: State)
    requires Ok(s)
    ensures forall m :: m in s.servers ==> exists j :: 0 <= j < |s.ring| && s.ring[j] == m
  {
    forall m | m in s.servers
      ensures exists j :: 0 <= j < |s.ring| && s.ring[j] == m
    {
      assert m in s.ring;
    }
  }

  // ---- rehashing

  lemma {:induction false} Rehashed(s: State, heads: seq<seq<ReqId>>)
    requires Ok(s) && Hashed(s.reqs, heads)
    ensures Ok(s.(heads := heads))
  {
  }

  lemma {:induction false} NothingFiled(reqs: Requests, heads: seq<seq<ReqId>>)
    requires |heads| > 0 && forall c :: 0 <= c < |heads| ==> heads[c] == []
    ensures Filed(reqs, {}, heads) && forall n: nat :: n > 0 ==> Below(reqs, n, 0) == {}
  {
    forall c | 0 <= c < |heads|
      ensures FiledIn(reqs, {}, heads[c], c, |heads|)
    {
    }
  }

  /** What has been moved when `k` of bucket `i` have been taken. */
  ghost function Taken(reqs: Requests, heads: seq<seq<ReqId>>, i: nat, k: nat): set<ReqId>
    requires i < |heads| && k <= |heads[i]|
  {
    Below(reqs, |heads|, i) + set id | id in heads[i][..k]
  }

  lemma {:induction false} TakeNext(s: State, i: nat, k: nat)
    requires Ok(s) && i < |s.heads| && k < |s.heads[i]|
    ensures s.heads[i][k] !in Taken(s.reqs, s.heads, i, k)
    ensures Taken(s.reqs, s.heads, i, k + 1) == Taken(s.reqs, s.heads, i, k) + {s.heads[i][k]}
  {
    var q := s.heads[i];
    assert Bucket(s.reqs, q, i, |s.heads|);
    assert q[k] in q;
    assert q[..k + 1] == q[..k] + [q[k]];
    assert q[k] !in q[..k];
  }

  lemma {:induction false} TakenAll(s: State, i: nat)
    requires Ok(s) && i < |s.heads|
    ensures Taken(s.reqs, s.heads, i, |s.heads[i]|) == Below(s.reqs, |s.heads|, i + 1)
  {
    var q := s.heads[i];
    assert Bucket(s.reqs, q, i, |s.heads|);
    assert q[..|q|] == q;
  }

  lemma {:induction false} KeptRequest(s: State, t: State, id: ReqId)
    requires SameQueues(s, t) && id in s.reqs
    ensures id in t.reqs && Alike(s.reqs[id], t.reqs[id])
  {
  }

  lemma {:induction false} InflightServer(s: State, id: ReqId)
    requires Ok(s) && id in s.reqs && s.reqs[id].ns.Some?
    ensures s.reqs[id].ns.value in s.servers && s.reqs[id].transId < NO_ID
  {
  }

  lemma {:induction false} SomeIdInState(s: State)
    requires Ok(s) && s.inflight < NO_ID
    ensures exists t: nat :: t < NO_ID && !Used(s.reqs, t)
  {
    SomeIdIsFree(s.reqs);
  }

  lemma {:induction false} HeadsExist(s: State)
    requires Ok(s)
    ensures |s.heads| > 0
  {
  }

  lemma {:induction false} WaitingCount(s: State)
    requires Ok(s)
    ensures s.waitingCount == |s.waiting|
    ensures s.waiting != [] ==> s.waiting[0] in s.reqs && s.reqs[s.waiting[0]].ns.None?
  {
    if s.waiting != [] {
      assert s.waiting[0] in s.waiting;
    }
  }

  lemma {:induction false} NotInBucket(s: State, transId: nat)
    requires Ok(s) && |s.heads| > 0
    requires var q := s.heads[transId % |s.heads|];
             forall k :: 0 <= k < |q| ==> q[k] in s.reqs && s.reqs[q[k]].transId != transId
    ensures !Used(s.reqs, transId)
  {
    var b := transId % |s.heads|;
    assert Bucket(s.reqs, s.heads[b], b, |s.heads|);
  }

  lemma {:induction false} BucketMembers(s: State, b: nat)
    requires Ok(s) && b < |s.heads|
    ensures forall k :: 0 <= k < |s.heads[b]| ==> s.heads[b][k] in s.reqs && s.reqs[s.heads[b][k]].ns.Some?
  {
    assert Bucket(s.reqs, s.heads[b], b, |s.heads|);
    forall k | 0 <= k < |s.heads[b]|
      ensures s.heads[b][k] in s.reqs && s.reqs[s.heads[b][k]].ns.Some?
    {
      assert s.heads[b][k] in s.heads[b];
    }
  }

  /** A walk over all the buckets meets every request in flight. */
  lemma {:induction false} Walked(s: State, n: NsId)
    requires Ok(s) && forall c :: 0 <= c < |s.heads| ==> Cleared(s.reqs, s.heads[c], n)
    ensures NoneUnsent(s.reqs, n)
  {
    forall id | id in s.reqs
      ensures !Unsent(s.reqs[id], n)
    {
      if s.reqs[id].ns.Some? {
        var c := s.reqs[id].transId % |s.heads|;
        assert Bucket(s.reqs, s.heads[c], c, |s.heads|);
        assert Cleared(s.reqs, s.heads[c], n);
        var k :| 0 <= k < |s.heads[c]| && s.heads[c][k] == id;
      }
    }
  }

  lemma {:induction false} RingNonEmpty(s: State, n: NsId)
    requires Ok(s) && n in s.servers
    ensures s.ring != []
  {
    assert n in s.ring;
  }

  lemma {:induction false} RingMembers(s: State)
    requires Ok(s)
    ensures s.good >= 0 && forall j :: 0 <= j < |s.ring| ==> s.ring[j] in s.servers
  {
    forall j | 0 <= j < |s.ring|
      ensures s.ring[j] in s.servers
    {
      assert s.ring[j] in s.ring;
    }
  }

  lemma {:induction false} TurnStep<T>(q: seq<T>, k: nat)
    requires k < |q|
    ensures Turned(q, 0) == q
    ensures |Turned(q, k)| == |Turned(q, k + 1)| == |q| && Turned(q, k)[0] == q[k]
    ensures Turned(Turned(q, k), 1) == Turned(q, k + 1)
  {
    var a, b := q[..k], q[k + 1..];
    assert q[k..] == [q[k]] + b && q[..k + 1] == a + [q[k]];
    TurnOne(q[k], a, b);
  }

  lemma {:induction false} TurnOne<T>(x: T, a: seq<T>, b: seq<T>)
    ensures Turned([x] + b + a, 1) == b + (a + [x])
  {
    assert ([x] + b + a)[1..] == b + a && ([x] + b + a)[..1] == [x];
  }

  lemma {:induction false} NobodyUp(s: State)
    requires Ok(s) && s.good == 0
    ensures forall j :: 0 <= j < |s.ring| ==> s.ring[j] in s.servers && !s.servers[s.ring[j]].up
  {
    forall j | 0 <= j < |s.ring|
      ensures s.ring[j] in s.servers && !s.servers[s.ring[j]].up
    {
      assert s.ring[j] in s.ring && s.ring[j] !in Up(s.servers);
    }
  }

  lemma {:induction false} SomebodyUp(s: State)
    requires Ok(s) && s.good > 0
    ensures exists k :: 0 <= k < |s.ring| && s.ring[k] in s.servers && s.servers[s.ring[k]].up
  {
    var n :| n in Up(s.servers);
    assert n in s.ring;
  }
}
