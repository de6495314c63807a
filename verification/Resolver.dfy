/** The in-flight and waiting requests of net/libevent/src/evdns.c, their
    nameservers and their counters; circular lists are sequences from their
    heads here.  Every step of a request's life keeps the invariant that each
    request is in one list, filed by its id and counted with its server. */
module Resolver {
  import opened Sequences

  class Nameserver {
    var state: bool         // we think it is up
    var failedTimes: nat
    var timedout: nat
    var inflight: int       // requests_inflight
    var choked: bool
    var probe: Request?     // probe_request

    constructor ()
      ensures state && inflight == 0 && probe == null
    {
      state, failedTimes, timedout, inflight, choked, probe := true, 0, 0, 0, false, null;
    }
  }

  class Request {
    var ns: Nameserver?
    var transId: nat
    var txCount: nat
    var reissueCount: nat
    var transmitMe: bool

    constructor ()
      ensures ns == null
    {
      ns, transId, txCount, reissueCount, transmitMe := null, 0, 0, 0, false;
    }
  }

  const NO_ID := 0xffff

  // ---- Sequences without repetition ----------------------------------------

  function Without<T(==)>(c: seq<T>, x: T): (r: seq<T>)
    ensures forall y :: y in r ==> y in c
  {
    if c == [] then []
    else if c[0] == x then c[1..]
    else [c[0]] + Without(c[1..], x)
  }

  lemma {:induction false} WithoutFacts<T>(c: seq<T>, x: T)
    requires NoTwice(c) && x in c
    ensures NoTwice(Without(c, x)) && |Without(c, x)| == |c| - 1
    ensures forall y :: y in Without(c, x) <==> y in c && y != x
  {
    var t := c[1..];
    forall i, j | 0 <= i < j < |t|
      ensures Unequal(t, i, j)
    {
      assert Unequal(c, i + 1, j + 1);
    }
    forall i | 0 <= i < |t|
      ensures t[i] != c[0]
    {
      assert Unequal(c, 0, i + 1);
    }
    assert c == [c[0]] + t;
    if c[0] != x {
      WithoutFacts(t, x);
      NoTwiceFront(c[0], Without(t, x));
    }
  }

  lemma NoTwiceFront<T>(x: T, c: seq<T>)
    requires NoTwice(c) && x !in c
    ensures NoTwice([x] + c)
  {
    forall i, j | 0 <= i < j < |c| + 1
      ensures Unequal([x] + c, i, j)
    {
      assert i > 0 ==> Unequal(c, i - 1, j - 1);
    }
  }

  lemma {:induction false} CountServers(c: seq<Nameserver>)
    requires NoTwice(c)
    ensures |set s | s in c| == |c|
  {
    if c != [] {
      var t, x := c[..|c| - 1], c[|c| - 1];
      forall i, j | 0 <= i < j < |t|
        ensures Unequal(t, i, j)
      {
        assert Unequal(c, i, j);
      }
      forall i | 0 <= i < |t|
        ensures t[i] != x
      {
        assert Unequal(c, i, |c| - 1);
      }
      CountServers(t);
      assert c == t + [x];
      assert (set s | s in c) == (set s | s in t) + {x};
    }
  }

  /** Fewer than n numbers leave one below n free. */
  lemma {:induction false} FreeBelow(taken: set<nat>, n: nat) returns (free: nat)
    requires |taken| < n
    ensures free < n && free !in taken
    decreases n
  {
    if n - 1 !in taken {
      free := n - 1;
    } else {
      free := FreeBelow(taken - {n - 1}, n - 1);
    }
  }

  ghost function Elems(c: seq<Request>): set<Request> {
    set r | r in c
  }

  lemma OneMore(c: seq<Request>, j: nat)
    requires NoTwice(c) && j < |c|
    ensures Elems(c[..j + 1]) == Elems(c[..j]) + {c[j]} && c[j] !in Elems(c[..j])
  {
    assert c[..j + 1] == c[..j] + [c[j]];
    forall k | 0 <= k < j
      ensures c[k] != c[j]
    {
      assert Unequal(c, k, j);
    }
  }

  // ---- The base ------------------------------------------------------------

  class Base {
    var reqHeads: seq<seq<Request>>   // req_heads, n_req_heads
    var waiting: seq<Request>         // req_waiting_head
    const servers: seq<Nameserver>    // the circle of nameservers
    var head: nat                     // server_head
    var good: int                     // global_good_nameservers
    var nInflight: int                // global_requests_inflight
    var nWaiting: int                 // global_requests_waiting
    var maxInflight: nat              // global_max_requests_inflight
    const maxReissues: nat
    const maxRetransmits: nat
    const maxTimeouts: nat            // global_max_nameserver_timeout
    ghost var flight: set<Request>    // the requests in req_heads
    ghost var ids: map<nat, Request>  // the same by their transaction ids
    ghost var loads: map<Nameserver, set<Request>>   // those of each server
    ghost var up: set<Nameserver>     // the servers in state 1

    /** In bucket b are requests in flight with the right ids, each once. */
    ghost predicate BucketAt(b: int)
      reads `reqHeads, `flight, flight`transId
    {
      && 0 <= b < |reqHeads| && NoTwice(reqHeads[b])
      && forall r {:trigger r in reqHeads[b]} :: r in reqHeads[b] ==> r in flight && r.transId % |reqHeads| == b
    }

    /** r has an id that no other request has, and is in the bucket of that id. */
    ghost predicate FiledAt(r: Request)
      reads `reqHeads, `ids, r`transId
    {
      && |reqHeads| > 0 && r.transId < NO_ID && r in reqHeads[r.transId % |reqHeads|]
      && r.transId in ids && ids[r.transId] == r
    }

    ghost predicate IdAt(i: nat)
      reads `ids, `flight, flight`transId
    {
      i in ids && i < NO_ID && ids[i] in flight && ids[i].transId == i
    }

    /** Each request is in exactly one list, filed by its id, and the totals are right. */
    ghost predicate Lists()
      reads `reqHeads, `waiting, `flight, `ids, `nInflight, `nWaiting, `maxInflight, flight`transId
    {
      && 1 <= maxInflight <= 65000 && |reqHeads| == (maxInflight + 4) / 5
      && Filed()
      && NoTwice(waiting) && Disjoint()
      && nInflight == |flight| && nWaiting == |waiting|
    }

    ghost predicate Disjoint()
      reads `waiting, `flight
    {
      forall r {:trigger r in waiting} :: r in waiting ==> r !in flight
    }

    ghost predicate Filed()
      reads `reqHeads, `flight, `ids, flight`transId
    {
      && (forall b :: 0 <= b < |reqHeads| ==> BucketAt(b))
      && (forall r {:trigger FiledAt(r)} :: r in flight ==> FiledAt(r))
      && (forall i {:trigger IdAt(i)} :: i in ids ==> IdAt(i)) && |ids| == |flight|
    }

    /** s counts its requests among those of fl, which loads names. */
    ghost predicate LoadAt(fl: set<Request>, s: Nameserver)
      reads `loads, fl`ns, s`inflight
    {
      && s in loads && s.inflight == |loads[s]|
      && forall r {:trigger r in loads[s]} :: r in loads[s] ==> r in fl && r.ns == s
    }

    ghost predicate OwnedAt(r: Request)
      reads `loads, r`ns
    {
      r.ns != null && r.ns in servers && r.ns in loads && r in loads[r.ns]
    }

    /** The requests of fl have a server, those that wait have none; each server counts its own. */
    ghost predicate OwnersOf(fl: set<Request>)
      reads `waiting, `loads, fl`ns, waiting`ns, servers`inflight
    {
      && (forall r {:trigger OwnedAt(r)} :: r in fl ==> OwnedAt(r))
      && (forall r {:trigger r in waiting} :: r in waiting ==> r.ns == null)
      && (forall s {:trigger LoadAt(fl, s)} :: s in servers ==> LoadAt(fl, s))
    }

    /** A request waits exactly when it has no nameserver; each server counts its own. */
    ghost predicate Owners()
      reads `waiting, `flight, `loads, flight`ns, waiting`ns, servers`inflight
    {
      OwnersOf(flight)
    }

    ghost predicate UpAt(s: Nameserver)
      reads `up, s`state
    {
      s in up <==> s.state
    }

    /** The good servers are counted. */
    ghost predicate Health()
      reads `good, `head, `up, servers`state
    {
      && NoTwice(servers) && (if servers == [] then head == 0 else head < |servers|)
      && good == |up| && (forall s {:trigger s in up} :: s in up ==> s in servers) && (forall s {:trigger UpAt(s)} :: s in servers ==> UpAt(s))
    }

    ghost predicate Inv()
      reads `reqHeads, `waiting, `head, `good, `nInflight, `nWaiting, `maxInflight, `flight, `ids, `loads, `up
      reads flight`transId, flight`ns, waiting`ns, servers`inflight, servers`state
    {
      Lists() && Owners() && Health()
    }

    /** evdns_base_new, with its servers already known and up */
    constructor (servers: seq<Nameserver>, maxInflight: nat, maxReissues: nat, maxRetransmits: nat, maxTimeouts: nat)
      requires NoTwice(servers) && 1 <= maxInflight <= 65000 && forall s :: s in servers ==> s.inflight == 0 && s.state
      ensures Inv() && flight == {} && waiting == [] && this.servers == servers
    {
      this.servers, this.maxInflight, this.maxReissues := servers, maxInflight, maxReissues;
      this.maxRetransmits, this.maxTimeouts := maxRetransmits, maxTimeouts;
      reqHeads := seq((maxInflight + 4) / 5, _ => []);
      waiting, head, nInflight, nWaiting, flight := [], 0, 0, 0, {};
      ids := map[];
      loads := map s | s in servers :: {};
      up := set s | s in servers;
      good := |servers|;
      new;
      CountServers(servers);
      forall s | s in servers
        ensures LoadAt(flight, s) && UpAt(s)
      {
      }
      forall b | 0 <= b < |reqHeads|
        ensures BucketAt(b)
      {
      }
    }

    // -- Servers --

    /** nameserver_pick: a live server whenever there is one. */
    method Pick() returns (picked: Nameserver?)
      requires Health()
      modifies `head
      ensures Health()
      ensures picked == null <==> servers == []
      ensures picked != null ==> picked in servers
      ensures up != {} ==> picked != null && picked.state
      ensures up != {} ==> exists k :: 0 <= k < |servers| && FirstUp(old(head), k) && PickedAt(picked, old(head), k)
      ensures up == {} && servers != [] ==> head == Next(old(head)) && picked == servers[head]
    {
      if servers == [] {
        return null;
      }
      if good == 0 {
        head := Next(head);
        return servers[head];
      }
      var startedAt := head;
      ghost var steps := 0;
      while true
        invariant head < |servers| && 0 <= steps < |servers|
        invariant head == Around(startedAt, steps)
        invariant forall k :: 0 <= k < steps ==> DownAt(Around(startedAt, k))
        decreases |servers| - steps
      {
        if servers[head].state {
          picked := servers[head];
          assert UpAt(picked) && FirstUp(startedAt, steps);
          head := Next(head);
          assert PickedAt(picked, startedAt, steps);
          return;
        }
        assert DownAt(Around(startedAt, steps));
        head := Next(head);
        steps := steps + 1;
        if head == startedAt {
          // the source has an assertion here that no server is good
          AllDown(startedAt, steps);
          assert false;
        }
      }
    }

    function Next(i: nat): nat {
      if i + 1 < |servers| then i + 1 else 0
    }

    /** The place k steps around the circle */
    ghost function Around(start: nat, k: nat): nat {
      if start + k < |servers| then start + k else start + k - |servers|
    }

    ghost predicate DownAt(i: int)
      reads servers`state
    {
      0 <= i < |servers| && !servers[i].state
    }

    /** The server k steps on is the first one that is up. */
    ghost predicate FirstUp(start: nat, k: nat)
      reads servers`state
    {
      Around(start, k) < |servers| && servers[Around(start, k)].state && forall l :: 0 <= l < k ==> DownAt(Around(start, l))
    }

    /** The server k steps on was picked, and the next round starts behind it. */
    ghost predicate PickedAt(picked: Nameserver?, start: nat, k: nat)
      reads `head
    {
      Around(start, k) < |servers| && picked == servers[Around(start, k)] && head == Next(Around(start, k))
    }

    /** A whole round without a live server means that there is none. */
    lemma AllDown(start: nat, steps: nat)
      requires Health() && start < |servers| && steps == |servers| && forall k :: 0 <= k < steps ==> DownAt(Around(start, k))
      ensures up == {} && good == 0
    {
      forall s | s in servers
        ensures s !in up
      {
        var i :| 0 <= i < |servers| && servers[i] == s;
        assert Around(start, if i >= start then i - start else i + |servers| - start) == i;
        assert UpAt(s);
      }
    }

    /** Count the request r, which is in flight, with server b instead of a. */
    method SwapNs(r: Request, b: Nameserver?)
      requires Owners() && r in flight && (b != null ==> b in servers) && Disjoint()
      modifies `loads, r`ns, servers`inflight
      ensures Owners() && (b != null ==> r.ns == b) && (b == null ==> r.ns == old(r.ns))
    {
      if b != null && r.ns != b {
        Unassign(r);
        Assign(r, b, flight - {r});
        assert flight - {r} + {r} == flight;
      }
    }

    /** nameserver_failed: what was not sent yet moves to other servers. */
    method Failed(ns: Nameserver)
      requires Inv() && ns in servers
      modifies `head, `good, `up, `loads, servers`state, servers`failedTimes, servers`inflight, flight`ns
      ensures Inv() && !ns.state
      ensures up == old(up) - {ns}
      ensures if old(ns.state) && up != {}
              then forall r {:trigger Rehomed(r, ns)} :: r in flight ==> Rehomed(r, ns)
              else forall r {:trigger r in flight} :: r in flight ==> r.ns == old(r.ns)
    {
      assert UpAt(ns);
      if ns.state {
        FailedNow(ns);
      }
    }

    /** A request that ns had and that was not sent is with a live server now; any other is where it was. */
    twostate predicate Rehomed(r: Request, ns: Nameserver)
      reads r`ns, servers`state
    {
      if old(r.txCount == 0 && r.ns == ns) then r.ns in servers && r.ns.state else r.ns == old(r.ns)
    }

    method FailedNow(ns: Nameserver)
      requires Owners() && Health() && Disjoint() && Filed() && |reqHeads| > 0 && ns in servers && ns.state
      modifies `head, `good, `up, `loads, servers`state, servers`failedTimes, servers`inflight, flight`ns
      ensures Owners() && Health() && !ns.state
      ensures up == old(up) - {ns}
      ensures if up != {}
              then forall r {:trigger Rehomed(r, ns)} :: r in flight ==> Rehomed(r, ns)
              else forall r {:trigger r in flight} :: r in flight ==> r.ns == old(r.ns)
    {
      MarkDown(ns);
      assert up != {} ==> |up| > 0;
      if good != 0 {
        label Down:
        MoveAllUnsent(ns);
        forall r | r in flight
          ensures Rehomed(r, ns)
        {
          assert Rehomed@Down(r, ns);
        }
      }
    }

    /** The walk over the requests in flight in nameserver_failed */
    method MoveAllUnsent(ns: Nameserver)
      requires Owners() && Health() && Disjoint() && Filed() && up != {} && |reqHeads| > 0
      modifies `head, `loads, servers`inflight, flight`ns
      ensures Owners() && Health()
      ensures forall r {:trigger Rehomed(r, ns)} :: r in flight ==> Rehomed(r, ns)
    {
      var i := 0;
      while i < |reqHeads|
        invariant i <= |reqHeads| && Owners() && Health()
        invariant forall r {:trigger r in flight} :: r in flight ==>
                    if r.transId % |reqHeads| < i then Rehomed(r, ns) else r.ns == old(r.ns)
      {
        InFlight(i);
        MoveBucket(reqHeads[i], ns);
        InBucket(i);
        i := i + 1;
      }
    }

    lemma InFlight(b: nat)
      requires Filed() && b < |reqHeads|
      ensures NoTwice(reqHeads[b])
      ensures forall k :: 0 <= k < |reqHeads[b]| ==> reqHeads[b][k] in flight
    {
      assert BucketAt(b);
      forall k | 0 <= k < |reqHeads[b]|
        ensures reqHeads[b][k] in flight
      {
        assert reqHeads[b][k] in reqHeads[b];
      }
    }

    /** Bucket b has the requests in flight whose ids lead there. */
    lemma InBucket(b: nat)
      requires Filed() && b < |reqHeads|
      ensures forall r {:trigger r in reqHeads[b]} {:trigger r in flight} :: r in flight ==> (r in reqHeads[b] <==> r.transId % |reqHeads| == b)
    {
      forall r | r in flight
        ensures r in reqHeads[b] <==> r.transId % |reqHeads| == b
      {
        assert FiledAt(r) && BucketAt(b);
      }
    }

    method MoveBucket(c: seq<Request>, ns: Nameserver)
      requires Owners() && Health() && Disjoint() && NoTwice(c) && up != {}
      requires forall k :: 0 <= k < |c| ==> c[k] in flight
      modifies `head, `loads, servers`inflight, flight`ns
      ensures Owners() && Health()
      ensures forall r {:trigger r in flight} :: r in flight ==> if r in c then Rehomed(r, ns) else r.ns == old(r.ns)
    {
      var j := 0;
      assert c[..|c|] == c;
      while j < |c|
        invariant j <= |c| && Owners() && Health()
        invariant forall r {:trigger r in flight} :: r in flight ==>
                    if r in c[..j] then Rehomed(r, ns) else r.ns == old(r.ns)
      {
        assert c[..j + 1] == c[..j] + [c[j]];
        MoveUnsent(c[j], ns);
        j := j + 1;
      }
    }

    /** A request that was never sent goes to the next server that nameserver_pick names. */
    method MoveUnsent(req: Request, ns: Nameserver)
      requires Owners() && Health() && Disjoint() && req in flight
      modifies `head, `loads, servers`inflight, req`ns
      ensures Owners() && Health()
      ensures OwnedAt(req) && (up != {} ==> Rehomed(req, ns))
    {
      assert OwnedAt(req);
      if req.txCount == 0 && req.ns == ns {
        var picked := Pick();
        SwapNs(req, picked);
      }
    }

    method MarkDown(ns: Nameserver)
      requires Health() && ns in servers && ns.state
      modifies `good, `up, ns`state, ns`failedTimes
      ensures Health() && !ns.state && up == old(up) - {ns}
    {
      assert UpAt(ns);
      good := good - 1;
      up := up - {ns};
      ns.state := false;
      ns.failedTimes := 1;
      forall s | s in servers
        ensures UpAt(s)
      {
        assert old(UpAt(s));
      }
    }

    method MarkUp(ns: Nameserver)
      requires Health() && ns in servers && !ns.state
      modifies `good, `up, ns`state, ns`failedTimes, ns`timedout
      ensures Health() && ns.state && up == old(up) + {ns} && ns.failedTimes == 0 && ns.timedout == 0
    {
      assert UpAt(ns);
      ns.state := true;
      ns.failedTimes := 0;
      ns.timedout := 0;
      good := good + 1;
      up := up + {ns};
      forall s | s in servers
        ensures UpAt(s)
      {
        assert old(UpAt(s));
      }
    }

    // -- Sending --

    /** evdns_request_transmit_to and evdns_request_transmit; the outcome of sendto is arbitrary. */
    method Transmit(req: Request)
      requires Inv() && req in flight
      modifies `head, `good, `up, `loads, servers`state, servers`failedTimes, servers`inflight, servers`choked
      modifies flight`ns, req`txCount, req`transmitMe
      ensures Inv() && up <= old(up) && Attempted(req)
      ensures req.transmitMe ==> req.ns == old(req.ns) && req.ns != null && req.ns.choked && up == old(up)
    {
      assert OwnedAt(req);
      Mark(req, true, req.txCount);
      if req.ns.choked {
        return;
      }
      var r := SendTo(req);
      if r == 1 {
        Choke(req);
      } else {
        Mark(req, false, req.txCount + 1);
      }
    }

    /** One try to send r: it counts, or r is left marked to be sent again. */
    twostate predicate Attempted(r: Request)
      reads r`transmitMe, r`txCount
    {
      r.txCount == old(r.txCount) + if r.transmitMe then 0 else 1
    }

    /** evdns_transmit tries to send what was marked and leaves the rest alone. */
    twostate predicate Tried(r: Request)
      reads r`transmitMe, r`txCount
    {
      if old(r.transmitMe) then Attempted(r) else !r.transmitMe && r.txCount == old(r.txCount)
    }

    twostate predicate Same(r: Request)
      reads r`transmitMe, r`txCount
    {
      r.transmitMe == old(r.transmitMe) && r.txCount == old(r.txCount)
    }

    method Mark(req: Request, again: bool, txCount: nat)
      requires Inv() && req in flight
      modifies req`transmitMe, req`txCount
      ensures Inv() && req.transmitMe == again && req.txCount == txCount
    {
      req.transmitMe := again;
      req.txCount := txCount;
    }

    method Choke(req: Request)
      requires Inv() && req in flight
      modifies servers`choked
      ensures Inv() && req.ns != null && req.ns.choked
    {
      assert OwnedAt(req);
      req.ns.choked := true;
    }

    /** evdns_request_transmit_to; the outcome of sendto is arbitrary. */
    method SendTo(req: Request) returns (r: int)
      requires Inv() && req in flight
      modifies `head, `good, `up, `loads, servers`state, servers`failedTimes, servers`inflight, flight`ns
      ensures Inv() && up <= old(up) && 0 <= r <= 2
      ensures r < 2 ==> up == old(up) && forall x {:trigger x in flight} :: x in flight ==> x.ns == old(x.ns)
      ensures r == 2 ==> old(req.ns) != null && !old(req.ns).state
    {
      assert OwnedAt(req);
      r :| 0 <= r <= 2;
      if r == 2 {
        Failed(req.ns);
      }
    }

    /** The marks and counts of all requests in flight */
    ghost function Marks(): (m: map<Request, (bool, nat)>)
      reads `flight, flight
    {
      map r | r in flight :: (r.transmitMe, r.txCount)
    }

    /** From the marks was on, what was marked in the buckets below i has been tried. */
    ghost predicate TriedBelow(was: map<Request, (bool, nat)>, i: nat)
      reads `flight, `reqHeads, flight
    {
      |reqHeads| > 0 && forall r :: r in flight ==> TriedSince(was, r, r.transId % |reqHeads| < i)
    }

    static ghost predicate TriedSince(was: map<Request, (bool, nat)>, r: Request, reached: bool)
      reads r`transmitMe, r`txCount
    {
      r in was &&
      if reached && was[r].0 then r.txCount == was[r].1 + if r.transmitMe then 0 else 1
      else r.transmitMe == was[r].0 && r.txCount == was[r].1
    }

    /** Some request in the buckets from lo to hi was marked. */
    ghost predicate MarkedIn(was: map<Request, (bool, nat)>, lo: nat, hi: nat)
      requires |reqHeads| > 0
      reads `flight, `reqHeads, flight`transId
    {
      exists r {:trigger r in flight} :: r in flight && r in was && lo <= r.transId % |reqHeads| < hi && was[r].0
    }

    lemma MarkedMore(was: map<Request, (bool, nat)>, i: nat)
      requires |reqHeads| > 0
      ensures MarkedIn(was, 0, i + 1) <==> MarkedIn(was, 0, i) || MarkedIn(was, i, i + 1)
    {
    }

    /** evdns_transmit */
    method TransmitAll() returns (didTry: bool)
      requires Inv()
      modifies `head, `good, `up, `loads, servers`state, servers`failedTimes, servers`inflight, servers`choked
      modifies flight`ns, flight`txCount, flight`transmitMe
      ensures Inv() && up <= old(up)
      ensures forall r {:trigger Tried(r)} :: r in flight ==> Tried(r)
      ensures didTry <==> exists r {:trigger r in flight} :: r in flight && old(r.transmitMe)
    {
      ghost var was := Marks();
      didTry := TransmitHeads(was);
      forall r | r in flight
        ensures Tried(r)
      {
        assert TriedSince(was, r, r.transId % |reqHeads| < |reqHeads|);
      }
    }

    /** its loop */
    method TransmitHeads(ghost was: map<Request, (bool, nat)>) returns (didTry: bool)
      requires Inv() && TriedBelow(was, 0)
      modifies `head, `good, `up, `loads, servers`state, servers`failedTimes, servers`inflight, servers`choked
      modifies flight`ns, flight`txCount, flight`transmitMe
      ensures Inv() && up <= old(up) && TriedBelow(was, |reqHeads|)
      ensures didTry <==> MarkedIn(was, 0, |reqHeads|)
    {
      didTry := false;
      var i := 0;
      while i < |reqHeads|
        invariant i <= |reqHeads| && Inv() && up <= old(up) && TriedBelow(was, i)
        invariant didTry <==> MarkedIn(was, 0, i)
      {
        var tried := TransmitHead(i, was);
        didTry := didTry || tried;
        i := i + 1;
      }
    }

    method TransmitHead(b: nat, ghost was: map<Request, (bool, nat)>) returns (didTry: bool)
      requires Inv() && b < |reqHeads| && TriedBelow(was, b)
      modifies `head, `good, `up, `loads, servers`state, servers`failedTimes, servers`inflight, servers`choked
      modifies flight`ns, flight`txCount, flight`transmitMe
      ensures Inv() && up <= old(up)
      ensures TriedBelow(was, b + 1)
      ensures MarkedIn(was, 0, b + 1) <==> old(MarkedIn(was, 0, b)) || didTry
    {
      InFlight(b);
      InBucket(b);
      MarkedMore(was, b);
      didTry := TransmitBucket(reqHeads[b], Marks());
      forall r | r in flight
        ensures TriedSince(was, r, r.transId % |reqHeads| < b + 1)
      {
        assert old(TriedSince(was, r, r.transId % |reqHeads| < b)) && TriedSince(old(Marks()), r, r in Elems(reqHeads[b]));
      }
    }

    /** The same for some requests. */
    ghost predicate TriedAmong(was: map<Request, (bool, nat)>, done: set<Request>)
      reads `flight, flight
    {
      forall r {:trigger r in flight} :: r in flight ==> TriedSince(was, r, r in done)
    }

    static ghost predicate MarkedAmong(was: map<Request, (bool, nat)>, done: set<Request>) {
      exists r {:trigger r in done} :: r in done && r in was && was[r].0
    }

    method TransmitBucket(c: seq<Request>, ghost was: map<Request, (bool, nat)>) returns (didTry: bool)
      requires Inv() && NoTwice(c) && TriedAmong(was, {}) && forall k :: 0 <= k < |c| ==> c[k] in flight
      modifies `head, `good, `up, `loads, servers`state, servers`failedTimes, servers`inflight, servers`choked
      modifies flight`ns, flight`txCount, flight`transmitMe
      ensures Inv() && up <= old(up) && TriedAmong(was, Elems(c))
      ensures didTry <==> MarkedAmong(was, Elems(c))
    {
      didTry := false;
      var j := 0;
      ghost var done: set<Request> := {};
      while j < |c|
        invariant j <= |c| && done == Elems(c[..j]) && Inv() && up <= old(up)
        invariant TriedAmong(was, done) && (didTry <==> MarkedAmong(was, done))
      {
        OneMore(c, j);
        var tried := TransmitMarked(c[j], was, done);
        didTry := didTry || tried;
        done := done + {c[j]};
        j := j + 1;
      }
      assert c[..|c|] == c;
    }

    method TransmitMarked(req: Request, ghost was: map<Request, (bool, nat)>, ghost done: set<Request>) returns (tried: bool)
      requires Inv() && req in flight && req !in done && TriedAmong(was, done)
      modifies `head, `good, `up, `loads, servers`state, servers`failedTimes, servers`inflight, servers`choked
      modifies flight`ns, req`txCount, req`transmitMe
      ensures Inv() && up <= old(up) && TriedAmong(was, done + {req})
      ensures MarkedAmong(was, done + {req}) <==> MarkedAmong(was, done) || tried
    {
      assert TriedSince(was, req, false);
      tried := req.transmitMe;
      if tried {
        Transmit(req);
      }
      forall r | r in flight
        ensures TriedSince(was, r, r in done + {req})
      {
        assert old(TriedSince(was, r, r in done));
      }
      MarkedWith(was, done, req);
    }

    static lemma MarkedWith(was: map<Request, (bool, nat)>, done: set<Request>, req: Request)
      requires req in was
      ensures MarkedAmong(was, done + {req}) <==> MarkedAmong(was, done) || was[req].0
    {
    }

    // -- Lists --

    /** request_find_from_trans_id: the request in flight with an id, if there is one. */
    method FindFromTransId(id: nat) returns (found: Request?)
      requires Lists()
      ensures found != null ==> found in flight && found.transId == id
      ensures found == null <==> id !in ids
    {
      var b := id % |reqHeads|;
      assert BucketAt(b);
      UsedIds(id);
      var k := 0;
      while k < |reqHeads[b]|
        invariant k <= |reqHeads[b]| && forall l :: 0 <= l < k ==> reqHeads[b][l].transId != id
      {
        if reqHeads[b][k].transId == id {
          assert reqHeads[b][k] in reqHeads[b] && FiledAt(reqHeads[b][k]);
          return reqHeads[b][k];
        }
        k := k + 1;
      }
      return null;
    }

    /** request_find_from_trans_id finds something. */
    predicate InUse(id: nat)
      reads `reqHeads, set b, k | 0 <= b < |reqHeads| && 0 <= k < |reqHeads[b]| :: reqHeads[b][k]
    {
      |reqHeads| > 0 && exists k :: 0 <= k < |reqHeads[id % |reqHeads|]| && reqHeads[id % |reqHeads|][k].transId == id
    }

    lemma UsedIds(id: nat)
      requires Lists()
      ensures InUse(id) <==> id in ids
    {
      var b := id % |reqHeads|;
      assert BucketAt(b);
      if InUse(id) {
        var k :| 0 <= k < |reqHeads[b]| && reqHeads[b][k].transId == id;
        assert reqHeads[b][k] in reqHeads[b] && FiledAt(reqHeads[b][k]);
      }
      if id in ids {
        assert IdAt(id) && FiledAt(ids[id]);
        var k :| 0 <= k < |reqHeads[b]| && reqHeads[b][k] == ids[id];
      }
    }

    /** transaction_id_pick: whatever id ends the loop over random ids */
    method TransactionIdPick() returns (id: nat)
      requires Lists() && nInflight < NO_ID
      ensures id < NO_ID && id !in ids
    {
      ghost var free := FreeBelow(ids.Keys, NO_ID);
      UsedIds(free);
      id :| 0 <= id < NO_ID && !InUse(id);
      UsedIds(id);
    }

    /** evdns_request_insert into the bucket of the id */
    method File(req: Request, id: nat)
      requires Filed() && |reqHeads| > 0 && req !in flight && id < NO_ID && id !in ids
      modifies `reqHeads, `flight, `ids, req`transId
      ensures Filed() && flight == old(flight) + {req} && |flight| == |old(flight)| + 1
      ensures |reqHeads| == |old(reqHeads)| && req.transId == id && ids == old(ids)[id := req]
    {
      var n := |reqHeads|;
      var b := id % n;
      ghost var heads0 := reqHeads;
      assert BucketAt(b);
      req.transId := id;
      NoTwicePush(reqHeads[b], req);
      reqHeads := reqHeads[b := reqHeads[b] + [req]];
      flight := flight + {req};
      ids := ids[id := req];
      forall i | 0 <= i < |reqHeads|
        ensures BucketAt(i)
      {
        assert old(BucketAt(i));
      }
      forall r | r in flight
        ensures FiledAt(r)
      {
        assert r != req ==> old(FiledAt(r));
      }
      forall i | i in ids
        ensures IdAt(i)
      {
        assert i != id ==> old(IdAt(i));
      }
    }

    /** evdns_request_remove from the bucket of the id */
    method Unfile(req: Request)
      requires Filed() && req in flight
      modifies `reqHeads, `flight, `ids
      ensures Filed() && flight == old(flight) - {req} && |flight| == |old(flight)| - 1
      ensures |reqHeads| == |old(reqHeads)| && ids == old(ids) - {req.transId}
    {
      assert FiledAt(req);
      var b := req.transId % |reqHeads|;
      assert BucketAt(b);
      WithoutFacts(reqHeads[b], req);
      reqHeads := reqHeads[b := Without(reqHeads[b], req)];
      flight := flight - {req};
      ids := ids - {req.transId};
      assert old(ids).Keys == ids.Keys + {req.transId};
      forall i | 0 <= i < |reqHeads|
        ensures BucketAt(i)
      {
        assert old(BucketAt(i));
      }
      forall r | r in flight
        ensures FiledAt(r)
      {
        assert old(FiledAt(r)) && old(FiledAt(req));
      }
      forall i | i in ids
        ensures IdAt(i)
      {
        assert old(IdAt(i));
      }
    }

    // -- Moving requests between the lists --

    /** All requests that are not finished */
    ghost function All(): set<Request>
      reads `flight, `waiting
    {
      flight + Elems(waiting)
    }

    /** Put a request that is in no list into flight with a server and an id. */
    method Launch(req: Request, ns: Nameserver, id: nat)
      requires Inv() && req !in flight && req !in waiting && ns in servers && id < NO_ID && id !in ids
      modifies `reqHeads, `flight, `ids, `nInflight, `loads, req`ns, req`transId, ns`inflight
      ensures Inv() && flight == old(flight) + {req} && req.ns == ns && req.transId == id && nInflight == old(nInflight) + 1
    {
      Assign(req, ns, flight);
      FileOwned(req, id);
    }

    /** File a request that its server counts already. */
    method FileOwned(req: Request, id: nat)
      requires Lists() && req !in flight && req !in waiting && id < NO_ID && id !in ids && OwnersOf(flight + {req}) && Health()
      modifies `reqHeads, `flight, `ids, `nInflight, req`transId
      ensures Inv() && flight == old(flight) + {req} && req.transId == id && nInflight == old(nInflight) + 1
    {
      ghost var fl := flight + {req};
      FileCounted(req, id);
      assert flight == fl && OwnersOf(fl);
    }

    /** Count req, which is none of those of fl, with a server. */
    method Assign(req: Request, ns: Nameserver, ghost fl: set<Request>)
      requires OwnersOf(fl) && req !in fl && req !in waiting && ns in servers
      modifies `loads, req`ns, ns`inflight
      ensures OwnersOf(fl + {req}) && req.ns == ns
    {
      ghost var fl' := fl + {req};
      assert LoadAt(fl, ns);
      req.ns := ns;
      ns.inflight := ns.inflight + 1;
      loads := loads[ns := loads[ns] + {req}];
      forall s | s in servers
        ensures LoadAt(fl', s)
      {
        assert old(LoadAt(fl, s));
      }
      forall r | r in fl'
        ensures OwnedAt(r)
      {
        assert r != req ==> old(OwnedAt(r));
      }
    }

    /** No longer count req with its server. */
    method Unassign(req: Request)
      requires OwnersOf(flight) && req in flight
      modifies `loads, servers`inflight
      ensures OwnersOf(flight - {req})
    {
      ghost var fl := flight - {req};
      assert OwnedAt(req);
      var ns := req.ns;
      assert LoadAt(flight, ns);
      ns.inflight := ns.inflight - 1;
      loads := loads[ns := loads[ns] - {req}];
      forall s | s in servers
        ensures LoadAt(fl, s)
      {
        assert old(LoadAt(flight, s));
      }
      forall r | r in fl
        ensures OwnedAt(r)
      {
        assert old(OwnedAt(r));
      }
    }

    method FileCounted(req: Request, id: nat)
      requires Lists() && req !in flight && req !in waiting && id < NO_ID && id !in ids
      modifies `reqHeads, `flight, `ids, `nInflight, req`transId
      ensures Lists() && flight == old(flight) + {req} && req.transId == id && nInflight == old(nInflight) + 1
    {
      File(req, id);
      nInflight := nInflight + 1;
    }

    method UnfileCounted(req: Request)
      requires Lists() && req in flight
      modifies `reqHeads, `flight, `ids, `nInflight
      ensures Lists() && flight == old(flight) - {req} && ids == old(ids) - {req.transId} && nInflight == old(nInflight) - 1
    {
      Unfile(req);
      nInflight := nInflight - 1;
    }

    /** Take a request out of flight, and from the count of its server. */
    method Land(req: Request)
      requires Inv() && req in flight
      modifies `reqHeads, `flight, `ids, `nInflight, `loads, servers`inflight
      ensures Inv() && flight == old(flight) - {req} && ids == old(ids) - {req.transId} && nInflight == old(nInflight) - 1
    {
      Unassign(req);
      UnfileCounted(req);
    }

    /** evdns_request_insert into the waiting list */
    method Enqueue(req: Request)
      requires Inv() && req !in flight && req !in waiting && req.ns == null
      modifies `waiting, `nWaiting
      ensures Inv() && waiting == old(waiting) + [req]
    {
      NoTwicePush(waiting, req);
      waiting := waiting + [req];
      nWaiting := nWaiting + 1;
    }

    /** evdns_request_remove from the waiting list */
    method Dequeue(req: Request)
      requires Inv() && req in waiting
      modifies `waiting, `nWaiting
      ensures Inv() && waiting == Without(old(waiting), req) && Elems(waiting) == Elems(old(waiting)) - {req}
      ensures |waiting| == |old(waiting)| - 1
    {
      WithoutFacts(waiting, req);
      waiting := Without(waiting, req);
      nWaiting := nWaiting - 1;
    }

    /** No request waits while there is room for it and a server. */
    ghost predicate Busy()
      reads `waiting, `nInflight, `maxInflight
    {
      waiting == [] || nInflight >= maxInflight || servers == []
    }

    /** evdns_requests_pump_waiting_queue */
    method Pump()
      requires Inv()
      modifies `reqHeads, `flight, `ids, `waiting, `nInflight, `nWaiting, `loads, `head, `good, `up
      modifies servers`state, servers`failedTimes, servers`inflight, servers`choked
      modifies All()`ns, All()`transId, All()`txCount, All()`transmitMe
      ensures Inv() && Busy() && All() == old(All()) && old(flight) <= flight && up <= old(up)
    {
      var more := true;
      while more && nInflight < maxInflight && nWaiting != 0
        invariant Inv() && All() == old(All()) && old(flight) <= flight && up <= old(up) && (more || Busy())
        decreases |waiting|, more
      {
        more := PumpNext();
      }
    }

    /** One turn of the pumping loop, which ends it when there is no server. */
    method PumpNext() returns (more: bool)
      requires Inv() && waiting != [] && nInflight < maxInflight
      modifies `reqHeads, `flight, `ids, `waiting, `nInflight, `nWaiting, `loads, `head, `good, `up
      modifies servers`state, servers`failedTimes, servers`inflight, servers`choked
      modifies All()`ns, All()`transId, All()`txCount, All()`transmitMe
      ensures Inv() && All() == old(All()) && old(flight) <= flight && up <= old(up)
      ensures if more then |waiting| == |old(waiting)| - 1 else waiting == old(waiting) && servers == []
    {
      var picked := Pick();
      more := picked != null;
      if more {
        PumpOne(waiting[0], picked);
      }
    }

    /** The body of the pumping loop: move a request from the waiting queue to the inflight queue, and send. */
    method PumpOne(req: Request, ns: Nameserver)
      requires Inv() && req in waiting && ns in servers && nInflight < maxInflight
      modifies `reqHeads, `flight, `ids, `waiting, `nInflight, `nWaiting, `loads, `head, `good, `up
      modifies servers`state, servers`failedTimes, servers`inflight, servers`choked
      modifies All()`ns, req`transId, All()`txCount, All()`transmitMe
      ensures Inv() && All() == old(All()) && flight == old(flight) + {req} && |waiting| == |old(waiting)| - 1 && up <= old(up)
    {
      ghost var all := All();
      assert req in all;
      SameAll(flight, waiting, req);
      Promote(req, ns);
      assert flight <= all;
      SendNew(req);
    }

    method SendNew(req: Request)
      requires Inv() && req in flight
      modifies `head, `good, `up, `loads, servers`state, servers`failedTimes, servers`inflight, servers`choked
      modifies flight`ns, flight`txCount, flight`transmitMe
      ensures Inv() && up <= old(up)
    {
      Transmit(req);
      var didTry := TransmitAll();
    }

    lemma SameAll(fl: set<Request>, c: seq<Request>, req: Request)
      requires req in c
      ensures fl + {req} + (Elems(c) - {req}) == fl + Elems(c)
    {
      assert req in Elems(c);
    }

    /** Take a request from the waiting queue and give it a server and an id. */
    method Promote(req: Request, ns: Nameserver)
      requires Inv() && req in waiting && ns in servers && nInflight < maxInflight
      modifies `reqHeads, `flight, `ids, `waiting, `nInflight, `nWaiting, `loads, req`ns, req`transId, servers`inflight
      ensures Inv() && flight == old(flight) + {req} && Elems(waiting) == Elems(old(waiting)) - {req}
      ensures |waiting| == |old(waiting)| - 1
    {
      assert req !in flight;
      Dequeue(req);
      assert req !in waiting by {
        assert req in waiting ==> req in Elems(waiting);
      }
      var id := TransactionIdPick();
      Launch(req, ns, id);
    }

    // -- The life of a request --

    /** request_new and request_submit for a fresh request */
    method Submit(req: Request)
      requires Inv() && req !in flight && req !in waiting && req.ns == null
      modifies `reqHeads, `flight, `ids, `waiting, `nInflight, `nWaiting, `loads, `head, `good, `up
      modifies servers`state, servers`failedTimes, servers`inflight, servers`choked
      modifies req`ns, req`transId, flight`ns, flight`txCount, flight`transmitMe, req`txCount, req`transmitMe
      ensures Inv() && (old(Busy()) ==> Busy())
      ensures if old(nInflight < maxInflight && servers != [])
              then flight == old(flight) + {req} && waiting == old(waiting)
              else flight == old(flight) && waiting == old(waiting) + [req]
    {
      var id := NO_ID;
      var ns: Nameserver? := null;
      if nInflight < maxInflight {
        id := TransactionIdPick();
        ns := Pick();
      }
      if ns != null {
        Start(req, ns, id);
      } else {
        Wait(req, id);
      }
    }

    /** request_submit for a request without a server */
    method Wait(req: Request, id: nat)
      requires Inv() && req !in flight && req !in waiting && req.ns == null
      modifies `waiting, `nWaiting, req`transId
      ensures Inv() && waiting == old(waiting) + [req]
    {
      req.transId := id;
      Enqueue(req);
    }

    /** request_submit for a request with a server */
    method Start(req: Request, ns: Nameserver, id: nat)
      requires Inv() && req !in flight && req !in waiting && ns in servers && id < NO_ID && id !in ids
      modifies `reqHeads, `flight, `ids, `nInflight, `loads, `head, `good, `up
      modifies servers`state, servers`failedTimes, servers`inflight, servers`choked
      modifies req`ns, req`transId, flight`ns, flight`txCount, flight`transmitMe, req`txCount, req`transmitMe
      ensures Inv() && flight == old(flight) + {req} && nInflight == old(nInflight) + 1 && up <= old(up)
    {
      Launch(req, ns, id);
      Transmit(req);
    }

    /** request_finished, which also lets the next request go */
    method Finish(req: Request)
      requires Inv() && (req in flight || req in waiting)
      modifies `reqHeads, `flight, `ids, `waiting, `nInflight, `nWaiting, `loads, `head, `good, `up
      modifies servers`state, servers`failedTimes, servers`inflight, servers`choked
      modifies All()`ns, All()`transId, All()`txCount, All()`transmitMe
      ensures Inv() && Busy() && All() == old(All()) - {req} && old(flight) - {req} <= flight && up <= old(up)
    {
      Drop(req);
      Pump();
    }

    /** Take a request out of the list it is in: the waiting list just when it has no server. */
    method Drop(req: Request)
      requires Inv() && (req in flight || req in waiting)
      modifies `reqHeads, `flight, `ids, `waiting, `nInflight, `nWaiting, `loads, servers`inflight
      ensures Inv() && All() == old(All()) - {req} && flight == old(flight) - {req}
    {
      OneList(req);
      DropAll(flight, Elems(waiting), req);
      if req.ns != null {
        Land(req);
      } else {
        Dequeue(req);
      }
    }

    lemma DropAll(a: set<Request>, b: set<Request>, req: Request)
      ensures req !in b ==> a - {req} + b == a + b - {req}
      ensures req !in a ==> a + (b - {req}) == a + b - {req} && a == a - {req}
    {
    }

    /** evdns_cancel_request and the others that end a request tell its list by its server. */
    lemma OneList(req: Request)
      requires Inv() && (req in flight || req in waiting)
      ensures req.ns != null <==> req in flight
      ensures req.ns == null <==> req in waiting
      ensures req in All() && (req in flight ==> req !in Elems(waiting))
    {
      if req in flight {
        assert OwnedAt(req);
      } else {
        assert req in Elems(waiting);
      }
    }

    /** The handle of a request leads to it (current_req) as long as it is in a list. */
    predicate Active(req: Request)
      reads `reqHeads, `waiting, req`transId
    {
      req in waiting || (|reqHeads| > 0 && req in reqHeads[req.transId % |reqHeads|])
    }

    lemma ActiveIff(req: Request)
      requires Inv()
      ensures Active(req) <==> req in All()
    {
      assert req in flight ==> FiledAt(req);
      assert BucketAt(req.transId % |reqHeads|);
      assert req in waiting <==> req in Elems(waiting);
    }

    /** evdns_cancel_request, for the handle of a request that may be finished already */
    method Cancel(req: Request)
      requires Inv()
      modifies `reqHeads, `flight, `ids, `waiting, `nInflight, `nWaiting, `loads, `head, `good, `up
      modifies servers`state, servers`failedTimes, servers`inflight, servers`choked
      modifies All()`ns, All()`transId, All()`txCount, All()`transmitMe
      ensures Inv() && All() == old(All()) - {req} && old(flight) - {req} <= flight && up <= old(up)
      ensures req in old(All()) ==> Busy()
    {
      ActiveIff(req);
      if Active(req) {
        Finish(req);
      }
    }

    /** The requests that end when a server comes up: the probe of one that was down. */
    ghost function Probes(ns: Nameserver?): set<Request>
      reads (if ns == null then {} else {ns})`state, (if ns == null then {} else {ns})`probe
    {
      if ns == null || ns.state || ns.probe == null then {} else {ns.probe}
    }

    /** nameserver_up */
    method Up(ns: Nameserver)
      requires Inv() && ns in servers
      modifies `reqHeads, `flight, `ids, `waiting, `nInflight, `nWaiting, `loads, `head, `good, `up
      modifies servers`state, servers`failedTimes, servers`timedout, servers`inflight, servers`choked, ns`probe
      modifies All()`ns, All()`transId, All()`txCount, All()`transmitMe
      ensures Inv() && ns.state && All() == old(All()) - old(Probes(ns)) && old(flight) - old(Probes(ns)) <= flight
      ensures ns.probe == if old(ns.state) then old(ns.probe) else null
      ensures ns.failedTimes == if old(ns.state) then old(ns.failedTimes) else 0
    {
      if !ns.state {
        ComeUp(ns);
      }
    }

    method ComeUp(ns: Nameserver)
      requires Inv() && ns in servers && !ns.state
      modifies `reqHeads, `flight, `ids, `waiting, `nInflight, `nWaiting, `loads, `head, `good, `up
      modifies servers`state, servers`failedTimes, servers`timedout, servers`inflight, servers`choked, ns`probe
      modifies All()`ns, All()`transId, All()`txCount, All()`transmitMe
      ensures Inv() && ns.state && ns.probe == null && ns.failedTimes == 0
      ensures All() == old(All()) - old(Probes(ns)) && old(flight) - old(Probes(ns)) <= flight
    {
      assert UpAt(ns);
      CancelProbe(ns);
      UpNow(ns);
    }

    method CancelProbe(ns: Nameserver)
      requires Inv() && ns in servers && !ns.state
      modifies `reqHeads, `flight, `ids, `waiting, `nInflight, `nWaiting, `loads, `head, `good, `up
      modifies servers`state, servers`failedTimes, servers`inflight, servers`choked, ns`probe
      modifies All()`ns, All()`transId, All()`txCount, All()`transmitMe
      ensures Inv() && ns.probe == null && up <= old(up)
      ensures All() == old(All()) - old(Probes(ns)) && old(flight) - old(Probes(ns)) <= flight
    {
      if ns.probe != null {
        Cancel(ns.probe);
        Forget(ns);
      }
    }

    method Forget(ns: Nameserver)
      requires Inv() && ns in servers
      modifies ns`probe
      ensures Inv() && ns.probe == null
    {
      ns.probe := null;
    }

    method UpNow(ns: Nameserver)
      requires Inv() && ns in servers && ns !in up
      modifies `good, `up, servers`state, servers`failedTimes, servers`timedout
      ensures Inv() && ns.state && up == old(up) + {ns} && ns.failedTimes == 0 && ns.timedout == 0
    {
      assert UpAt(ns);
      MarkUp(ns);
    }

    /** request_reissue, to another server if there is one that is up */
    method Reissue(req: Request) returns (r: int)
      requires Inv() && req in flight
      modifies `head, `loads, servers`inflight, req`ns, req`reissueCount, req`txCount, req`transmitMe
      ensures Inv() && OwnedAt(req) && (r == 0 || r == 1)
      ensures r == 1 <==> req.ns == old(req.ns)
      ensures up != {} ==> req.ns.state && (old(req.ns != null && !req.ns.state) ==> r == 0)
      ensures req.reissueCount == old(req.reissueCount) + if r == 0 then 1 else 0
      ensures if r == 0 then req.transmitMe && req.txCount == 0 else Same(req)
    {
      assert OwnedAt(req);
      var lastNs := req.ns;
      var picked := Pick();
      SwapNs(req, picked);
      assert OwnedAt(req);
      if req.ns == lastNs {
        return 1;
      }
      Again(req);
      return 0;
    }

    method Again(req: Request)
      requires Inv() && req in flight
      modifies req`reissueCount, req`txCount, req`transmitMe
      ensures Inv() && req.transmitMe && req.txCount == 0 && req.reissueCount == old(req.reissueCount) + 1
    {
      req.reissueCount := req.reissueCount + 1;
      req.txCount := 0;
      req.transmitMe := true;
    }

    /** evdns_request_timeout_callback: give up, or send again by the next server. */
    method Timeout(req: Request)
      requires Inv() && req in flight
      modifies `reqHeads, `flight, `ids, `waiting, `nInflight, `nWaiting, `loads, `head, `good, `up
      modifies servers`state, servers`failedTimes, servers`timedout, servers`inflight, servers`choked
      modifies All()`ns, All()`transId, All()`txCount, All()`transmitMe
      ensures Inv() && up <= old(up)
      ensures All() == if old(req.txCount) >= maxRetransmits then old(All()) - {req} else old(All())
      ensures if old(req.txCount) >= maxRetransmits
              then Busy() && old(req.ns) != null && !old(req.ns).state
              else req in flight && Attempted(req)
    {
      if req.txCount >= maxRetransmits {
        GiveUp(req);
      } else {
        SendAgain(req);
      }
    }

    method SendAgain(req: Request)
      requires Inv() && req in flight
      modifies `head, `good, `up, `loads, servers`state, servers`failedTimes, servers`timedout, servers`inflight, servers`choked
      modifies flight`ns, flight`txCount, flight`transmitMe
      ensures Inv() && up <= old(up) && Attempted(req)
    {
      Retransmit(req);
      CountTimeout(req);
    }

    method GiveUp(req: Request)
      requires Inv() && req in flight
      modifies `reqHeads, `flight, `ids, `waiting, `nInflight, `nWaiting, `loads, `head, `good, `up
      modifies servers`state, servers`failedTimes, servers`inflight, servers`choked
      modifies All()`ns, All()`transId, All()`txCount, All()`transmitMe
      ensures Inv() && up <= old(up) && All() == old(All()) - {req} && Busy()
      ensures old(req.ns) != null && !old(req.ns).state
    {
      assert OwnedAt(req);
      var ns := req.ns;
      Finish(req);
      assert flight <= All();
      Failed(ns);
    }

    method Retransmit(req: Request)
      requires Inv() && req in flight
      modifies `head, `good, `up, `loads, servers`state, servers`failedTimes, servers`inflight, servers`choked
      modifies flight`ns, flight`txCount, flight`transmitMe
      ensures Inv() && up <= old(up) && Attempted(req)
    {
      var picked := Pick();
      SwapNs(req, picked);
      Transmit(req);
    }

    method CountTimeout(req: Request)
      requires Inv() && req in flight
      modifies `head, `good, `up, `loads, servers`state, servers`failedTimes, servers`timedout, servers`inflight, flight`ns
      ensures Inv() && up <= old(up) && old(req.ns) != null
      ensures if old(req.ns.timedout) < maxTimeouts
              then up == old(up) && old(req.ns).timedout == old(req.ns.timedout) + 1
              else !old(req.ns).state && old(req.ns).timedout == 0
    {
      assert OwnedAt(req);
      var ns := req.ns;
      ns.timedout := ns.timedout + 1;
      if ns.timedout > maxTimeouts {
        ns.timedout := 0;
        Failed(ns);
      }
    }

    /** reply_handle for a reply that tells of a bad server */
    method BadServerReply(req: Request)
      requires Inv() && req in flight
      modifies `reqHeads, `flight, `ids, `waiting, `nInflight, `nWaiting, `loads, `head, `good, `up
      modifies servers`state, servers`failedTimes, servers`inflight, servers`choked
      modifies All()`ns, All()`transId, All()`txCount, All()`transmitMe, req`reissueCount
      ensures Inv() && up <= old(up)
      ensures (req in flight && Reissued(req)) || (All() == old(All()) - {req} && Busy())
      ensures All() == old(All()) || All() == old(All()) - {req}
      ensures old(req.reissueCount) >= maxReissues ==> All() == old(All()) - {req}
    {
      if req.reissueCount < maxReissues {
        var r := TryAnother(req);
        if r == 0 {
          return;
        }
      }
      Finish(req);
    }

    /** Another server has r, which is to be sent afresh; this happens maxReissues times at most. */
    twostate predicate Reissued(r: Request)
      reads r`ns, r`transmitMe, r`txCount, r`reissueCount
    {
      && r.ns != null && r.ns != old(r.ns) && r.transmitMe && r.txCount == 0
      && r.reissueCount == old(r.reissueCount) + 1 <= maxReissues
    }

    /** Mark the server of req down; another server that is up gets req, if there is one. */
    method TryAnother(req: Request) returns (r: int)
      requires Inv() && req in flight
      modifies `head, `good, `up, `loads, servers`state, servers`failedTimes, servers`inflight, flight`ns
      modifies req`reissueCount, req`txCount, req`transmitMe
      ensures Inv() && up <= old(up) && OwnedAt(req)
      ensures up != {} ==> req.ns.state
      ensures old(req.ns) != null && up == old(up) - {old(req.ns)}
      ensures r == 0 || r == 1
      ensures r == 0 ==> req.transmitMe && req.txCount == 0 && req.reissueCount == old(req.reissueCount) + 1
      ensures r == 0 ==> req.ns != old(req.ns)
    {
      assert OwnedAt(req);
      Failed(req.ns);
      r := Reissue(req);
    }

    /** reply_handle for a reply that shows the server to be up */
    method GoodServerReply(req: Request)
      requires Inv() && req in flight
      modifies `reqHeads, `flight, `ids, `waiting, `nInflight, `nWaiting, `loads, `head, `good, `up
      modifies servers`state, servers`failedTimes, servers`timedout, servers`inflight, servers`choked, servers`probe
      modifies All()`ns, All()`transId, All()`txCount, All()`transmitMe
      ensures Inv() && Busy() && All() == old(All()) - {req} - old(Probes(req.ns))
    {
      assert OwnedAt(req);
      var ns := req.ns;
      ClearProbe(ns, req);
      Up(ns);
      Finish(req);
    }

    /** The probe that is answered is not to be cancelled. */
    method ClearProbe(ns: Nameserver, req: Request)
      requires Inv() && ns in servers
      modifies ns`probe
      ensures Inv() && Probes(ns) == old(Probes(ns)) - {req}
    {
      if ns.probe == req {
        Forget(ns);
      }
    }

    /** nameserver_send_probe: into flight even when there is no room. */
    method SendProbe(req: Request, ns: Nameserver)
      requires Inv() && req !in flight && req !in waiting && ns in servers && nInflight < NO_ID
      modifies `reqHeads, `flight, `ids, `nInflight, `loads, `head, `good, `up
      modifies servers`state, servers`failedTimes, servers`inflight, servers`choked, ns`probe
      modifies req`ns, req`transId, flight`ns, flight`txCount, flight`transmitMe, req`txCount, req`transmitMe
      ensures Inv() && flight == old(flight) + {req} && up <= old(up) && (old(Busy()) ==> Busy()) && ns.probe == req
    {
      if nInflight < maxInflight {
        var picked := Pick();
      }
      StartProbe(req, ns);
    }

    method StartProbe(req: Request, ns: Nameserver)
      requires Inv() && req !in flight && req !in waiting && ns in servers && nInflight < NO_ID
      modifies `reqHeads, `flight, `ids, `nInflight, `loads, `head, `good, `up
      modifies servers`state, servers`failedTimes, servers`inflight, servers`choked, ns`probe
      modifies req`ns, req`transId, flight`ns, flight`txCount, flight`transmitMe, req`txCount, req`transmitMe
      ensures Inv() && flight == old(flight) + {req} && up <= old(up) && nInflight == old(nInflight) + 1 && ns.probe == req
    {
      Record(ns, req);
      var id := TransactionIdPick();
      Start(req, ns, id);
    }

    method Record(ns: Nameserver, req: Request)
      requires Inv() && ns in servers
      modifies ns`probe
      ensures Inv() && ns.probe == req
    {
      ns.probe := req;
    }

    /** nameserver_probe_callback, when the probe has ended in some way */
    method ProbeEnded(ns: Nameserver, cancelled: bool, answered: bool)
      requires Inv() && ns in servers
      modifies `reqHeads, `flight, `ids, `waiting, `nInflight, `nWaiting, `loads, `head, `good, `up
      modifies servers`state, servers`failedTimes, servers`timedout, servers`inflight, servers`choked, ns`probe
      modifies All()`ns, All()`transId, All()`txCount, All()`transmitMe
      ensures Inv() && All() == old(All()) && old(flight) <= flight
      ensures if cancelled then ns.state == old(ns.state) && ns.probe == old(ns.probe)
              else ns.probe == null && ns.state == (old(ns.state) || answered)
      ensures ns.failedTimes == if cancelled || old(ns.state) then old(ns.failedTimes) else if answered then 0 else old(ns.failedTimes) + 1
    {
      if cancelled {
        return;
      }
      Forget(ns);
      if answered {
        Up(ns);
      } else {
        ProbeFailed(ns);
      }
    }

    /** nameserver_probe_failed, but for its timer */
    method ProbeFailed(ns: Nameserver)
      requires Inv() && ns in servers
      modifies ns`failedTimes
      ensures Inv() && ns.failedTimes == old(ns.failedTimes) + if ns.state then 0 else 1
    {
      if !ns.state {
        ns.failedTimes := ns.failedTimes + 1;
      }
    }

    // -- Another number of buckets --

    /** Request r comes before place j of bucket i of the old heads. */
    ghost predicate Done(old_: seq<seq<Request>>, r: Request, i: nat, j: nat)
      reads r`transId
    {
      |old_| > 0 && (r.transId % |old_| < i || (r.transId % |old_| == i < |old_| && j <= |old_[i]| && r in old_[i][..j]))
    }

    /** The requests done are in the new heads, by their ids, and no others are. */
    ghost predicate Refiled(old_: seq<seq<Request>>, heads: seq<seq<Request>>, i: nat, j: nat)
      reads `flight, flight`transId
    {
      && |heads| > 0
      && (forall b :: 0 <= b < |heads| ==> RefiledAt(old_, heads, i, j, b))
      && (forall r {:trigger InHead(heads, r)} :: r in flight && Done(old_, r, i, j) ==> InHead(heads, r))
    }

    ghost predicate InHead(heads: seq<seq<Request>>, r: Request)
      reads r`transId
    {
      |heads| > 0 && r in heads[r.transId % |heads|]
    }

    ghost predicate RefiledAt(old_: seq<seq<Request>>, heads: seq<seq<Request>>, i: nat, j: nat, b: int)
      reads `flight, flight`transId
    {
      && 0 <= b < |heads| && NoTwice(heads[b])
      && forall r {:trigger r in heads[b]} :: r in heads[b] ==> r in flight && r.transId % |heads| == b && Done(old_, r, i, j)
    }

    /** evdns_base_set_max_requests_inflight: every request stays in flight under its id. */
    method SetMaxInflight(wanted: int, memory: bool) returns (result: int)
      requires Inv() && wanted <= 65000
      modifies `reqHeads, `maxInflight
      ensures Inv() && (result == 0 <==> memory) && (result == 0 || result == -1)
      ensures maxInflight == if !memory then old(maxInflight) else if wanted < 1 then 1 else wanted
      ensures !memory ==> reqHeads == old(reqHeads)
    {
      var m: nat := if wanted < 1 then 1 else wanted;
      if !memory {
        return -1;
      }
      Rehead(m);
      return 0;
    }

    /** strtoint_clipped, of a number that has been read; -1 stands for none. */
    static function Clipped(number: int, min: int, max: int): int {
      if number == -1 then -1 else if number < min then min else if number > max then max else number
    }

    /** The option max-inflight of evdns_base_set_option, for any number; misc says whether such options
        are wanted.  That memory fails is not reported. */
    method SetOptionMaxInflight(number: int, misc: bool, memory: bool) returns (result: int)
      requires Inv()
      modifies `reqHeads, `maxInflight
      ensures Inv() && (result == -1 <==> number == -1) && (result == 0 || result == -1)
      ensures number == -1 || !misc || !memory ==> maxInflight == old(maxInflight) && reqHeads == old(reqHeads)
      ensures number != -1 && misc && memory ==>
                1 <= maxInflight <= 65000 && (1 <= number <= 65000 ==> maxInflight == number)
    {
      var wanted := Clipped(number, 1, 65000);
      if wanted == -1 {
        return -1;
      }
      if !misc {
        return 0;
      }
      var r := SetMaxInflight(wanted, memory);
      return 0;
    }

    /** Put every request into one of the buckets that m requests need. */
    method Rehead(m: nat)
      requires Inv() && 1 <= m <= 65000
      modifies `reqHeads, `maxInflight
      ensures Inv() && maxInflight == m
    {
      var heads := Refile((m + 4) / 5);
      SetHeads(m, heads);
    }

    method SetHeads(m: nat, heads: seq<seq<Request>>)
      requires Inv() && 1 <= m <= 65000 && |heads| == (m + 4) / 5 && Refiled(reqHeads, heads, |reqHeads|, 0)
      modifies `reqHeads, `maxInflight
      ensures Inv() && maxInflight == m
    {
      reqHeads := heads;
      maxInflight := m;
      forall b | 0 <= b < |reqHeads|
        ensures BucketAt(b)
      {
        assert RefiledAt(old(reqHeads), heads, |old(reqHeads)|, 0, b);
      }
      forall r | r in flight
        ensures FiledAt(r)
      {
        assert old(FiledAt(r)) && InHead(heads, r);
      }
    }

    method Refile(nHeads: nat) returns (heads: seq<seq<Request>>)
      requires Filed() && |reqHeads| > 0 && nHeads > 0
      ensures |heads| == nHeads && Refiled(reqHeads, heads, |reqHeads|, 0)
    {
      heads := seq(nHeads, _ => []);
      NoneRefiled(heads);
      var i := 0;
      while i < |reqHeads|
        modifies {}
        invariant i <= |reqHeads| && |heads| == nHeads && Refiled(reqHeads, heads, i, 0)
      {
        heads := RefileBucket(heads, i);
        i := i + 1;
      }
    }

    lemma NoneRefiled(heads: seq<seq<Request>>)
      requires |reqHeads| > 0 && |heads| > 0 && forall b :: 0 <= b < |heads| ==> heads[b] == []
      ensures Refiled(reqHeads, heads, 0, 0)
    {
      forall b | 0 <= b < |heads|
        ensures RefiledAt(reqHeads, heads, 0, 0, b)
      {
      }
    }

    method RefileBucket(heads0: seq<seq<Request>>, i: nat) returns (heads: seq<seq<Request>>)
      requires Filed() && i < |reqHeads| && Refiled(reqHeads, heads0, i, 0)
      ensures |heads| == |heads0| && Refiled(reqHeads, heads, i + 1, 0)
    {
      heads := heads0;
      var j := 0;
      while j < |reqHeads[i]|
        modifies {}
        invariant j <= |reqHeads[i]| && |heads| == |heads0| && Refiled(reqHeads, heads, i, j)
      {
        heads := RefileOne(heads, i, j);
        j := j + 1;
      }
      NextBucket(heads, i);
    }

    lemma NextBucket(heads: seq<seq<Request>>, i: nat)
      requires Filed() && i < |reqHeads| && Refiled(reqHeads, heads, i, |reqHeads[i]|)
      ensures Refiled(reqHeads, heads, i + 1, 0)
    {
      var i1 := i + 1;
      forall b | 0 <= b < |heads|
        ensures RefiledAt(reqHeads, heads, i1, 0, b)
      {
        assert RefiledAt(reqHeads, heads, i, |reqHeads[i]|, b);
      }
      forall r | r in flight && Done(reqHeads, r, i + 1, 0)
        ensures InHead(heads, r)
      {
        assert FiledAt(r);
        assert reqHeads[i][..|reqHeads[i]|] == reqHeads[i];
      }
    }

    method RefileOne(heads: seq<seq<Request>>, i: nat, j: nat) returns (heads': seq<seq<Request>>)
      requires Filed() && i < |reqHeads| && j < |reqHeads[i]| && Refiled(reqHeads, heads, i, j)
      ensures |heads'| == |heads| && Refiled(reqHeads, heads', i, j + 1)
    {
      var req := reqHeads[i][j];
      var b := req.transId % |heads|;
      NotDone(i, j);
      assert RefiledAt(reqHeads, heads, i, j, b);
      NoTwicePush(heads[b], req);
      heads' := heads[b := heads[b] + [req]];
      assert reqHeads[i][..j + 1] == reqHeads[i][..j] + [req];
      ghost var j1 := j + 1;
      forall c | 0 <= c < |heads'|
        ensures RefiledAt(reqHeads, heads', i, j1, c)
      {
        assert RefiledAt(reqHeads, heads, i, j, c);
      }
      forall r | r in flight && Done(reqHeads, r, i, j + 1)
        ensures InHead(heads', r)
      {
        assert r != req ==> InHead(heads, r);
      }
    }

    /** The request at place j of bucket i comes next. */
    lemma NotDone(i: nat, j: nat)
      requires Filed() && i < |reqHeads| && j < |reqHeads[i]|
      ensures reqHeads[i][j] in flight && reqHeads[i][j].transId % |reqHeads| == i
      ensures !Done(reqHeads, reqHeads[i][j], i, j) && Done(reqHeads, reqHeads[i][j], i, j + 1)
    {
      assert BucketAt(i) && reqHeads[i][j] in reqHeads[i];
      forall k | 0 <= k < j
        ensures reqHeads[i][k] != reqHeads[i][j]
      {
        assert Unequal(reqHeads[i], k, j);
      }
      assert reqHeads[i][..j + 1][j] == reqHeads[i][j];
    }
  }
}
