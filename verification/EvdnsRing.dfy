/** The circular request lists of net/libevent/src/evdns.c. */
module EvdnsRing {
  import opened Sequences

  class Node {
    var next: Node?
    var prev: Node?
    var transId: nat

    constructor (transId: nat)
      ensures next == null && prev == null && this.transId == transId
    {
      next, prev, this.transId := null, null, transId;
    }
  }

  function Succ(c: seq<Node>, k: nat): Node
    requires k < |c|
  {
    if k + 1 < |c| then c[k + 1] else c[0]
  }

  function Pred(c: seq<Node>, k: nat): Node
    requires k < |c|
  {
    if k > 0 then c[k - 1] else c[|c| - 1]
  }

  ghost predicate LinkAt(c: seq<Node>, k: int)
    reads if 0 <= k < |c| then {c[k]} else {}
  {
    0 <= k < |c| && c[k].next == Succ(c, k) && c[k].prev == Pred(c, k)
  }

  /** head leads around the circle c, in order. */
  ghost predicate RingOk(head: Node?, c: seq<Node>)
    reads c
  {
    && head == (if c == [] then null else c[0]) && NoTwice(c)
    && forall k :: 0 <= k < |c| ==> LinkAt(c, k)
  }

  /** evdns_request_insert: at the tail of the circle; the new head is returned. */
  method Insert(req: Node, head: Node?, ghost c: seq<Node>) returns (head': Node?)
    requires RingOk(head, c) && req !in c
    modifies req, c
    ensures RingOk(head', c + [req])
  {
    if head == null {
      req.next := req;
      req.prev := req;
      assert c + [req] == [req];
      return req;
    }
    assert LinkAt(c, 0) && LinkAt(c, |c| - 1);
    NoTwicePush(c, req);
    req.prev := head.prev;
    req.prev.next := req;
    req.next := head;
    head.prev := req;
    forall k | 0 <= k < |c| + 1
      ensures LinkAt(c + [req], k)
    {
      if k < |c| {
        assert old(LinkAt(c, k));
        if k != 0 {
          Apart(c, k, 0);
        }
        if k != |c| - 1 {
          Apart(c, k, |c| - 1);
        }
      }
    }
    return head;
  }

  /** evdns_request_remove, of the request at place q */
  method Remove(req: Node, head: Node?, ghost c: seq<Node>, ghost q: nat) returns (head': Node?)
    requires RingOk(head, c) && q < |c| && c[q] == req
    modifies c
    ensures RingOk(head', Cut(c, q)) && req.next == null && req.prev == null
  {
    assert LinkAt(c, q);
    NoTwiceCut(c, q);
    head' := head;
    if |c| > 1 {
      NextIsOther(c, q);
    }
    if req.next == req {
      head' := null;
    } else {
      req.next.prev := req.prev;
      req.prev.next := req.next;
      if head == req {
        head' := req.next;
      }
    }
    req.next := null;
    req.prev := null;
    forall k | 0 <= k < |c| - 1
      ensures LinkAt(Cut(c, q), k)
    {
      var l := if k < q then k else k + 1;
      assert old(LinkAt(c, l));
      CutNeighbours(c, q, k);
      Apart(c, l, q);
      OthersStay(c, q, l);
    }
  }

  lemma NextIsOther(c: seq<Node>, q: nat)
    requires NoTwice(c) && q < |c| && |c| > 1
    ensures Succ(c, q) != c[q] && Pred(c, q) != c[q]
  {
    Apart(c, q, if q + 1 < |c| then q + 1 else 0);
    Apart(c, q, if q > 0 then q - 1 else |c| - 1);
  }

  /** The neighbours of what was at l are the old ones, or those across the gap. */
  lemma CutNeighbours(c: seq<Node>, q: nat, k: nat)
    requires q < |c| && k < |c| - 1
    ensures var l := if k < q then k else k + 1;
            && Cut(c, q)[k] == c[l]
            && Succ(Cut(c, q), k) == (if IsSucc(c, l, q) then Succ(c, q) else Succ(c, l))
            && Pred(Cut(c, q), k) == (if IsSucc(c, q, l) then Pred(c, q) else Pred(c, l))
  {
    CutAt(c, q, k);
    if k + 1 < |c| - 1 {
      CutAt(c, q, k + 1);
    }
    if k > 0 {
      CutAt(c, q, k - 1);
    }
    CutAt(c, q, 0);
    CutAt(c, q, |c| - 2);
  }

  /** Place b follows place a around the circle. */
  ghost predicate IsSucc(c: seq<Node>, a: nat, b: nat) {
    b == if a + 1 < |c| then a + 1 else 0
  }

  /** Only the neighbours of q have links that lead to it. */
  lemma OthersStay(c: seq<Node>, q: nat, l: nat)
    requires NoTwice(c) && q < |c| && l < |c| && l != q
    ensures c[l] == Succ(c, q) <==> IsSucc(c, q, l)
    ensures c[l] == Pred(c, q) <==> IsSucc(c, l, q)
  {
    var s := if q + 1 < |c| then q + 1 else 0;
    var p := if q > 0 then q - 1 else |c| - 1;
    if l != s {
      Apart(c, l, s);
    }
    if l != p {
      Apart(c, l, p);
    }
  }

  /** request_find_from_trans_id: around the circle from its head until the head is met again */
  method FindFromTransId(head: Node?, transId: nat, ghost c: seq<Node>) returns (found: Node?)
    requires RingOk(head, c)
    ensures found != null ==> exists k :: 0 <= k < |c| && FirstAt(c, transId, k) && found == c[k]
    ensures found == null ==> forall k :: 0 <= k < |c| ==> c[k].transId != transId
  {
    if head == null {
      return null;
    }
    var req: Node := head;
    ghost var k := 0;
    while true
      invariant 0 <= k < |c| && req == c[k] && forall l :: 0 <= l < k ==> c[l].transId != transId
      decreases |c| - k
    {
      assert LinkAt(c, k);
      if req.transId == transId {
        assert FirstAt(c, transId, k);
        return req;
      }
      req := req.next;
      if k + 1 < |c| {
        Apart(c, k + 1, 0);
      }
      k := k + 1;
      if req == head {
        return null;
      }
    }
  }

  /** The request at place k is the first one with the id. */
  ghost predicate FirstAt(c: seq<Node>, transId: nat, k: int)
    reads c
  {
    0 <= k < |c| && c[k].transId == transId && forall l :: 0 <= l < k ==> c[l].transId != transId
  }
}
