/** The timer heap of net/libevent/include/minheap-internal.h: an array of
    events, each of which stores its own place. */
module MinHeap {

  class Event {
    var timeout: int    // ev_timeout, in any unit
    var idx: int        // ev_timeout_pos.min_heap_idx

    /** min_heap_elem_init_ */
    constructor (timeout: int)
      ensures this.timeout == timeout && idx == -1
    {
      this.timeout, idx := timeout, -1;
    }
  }

  function Parent(k: nat): nat
    requires k > 0
  {
    (k - 1) / 2
  }

  // ---- Heap order of a sequence of events ----------------------------------

  ghost predicate LeAt(v: seq<Event>, j: int, k: int)
    reads (set i | 0 <= i < |v| :: v[i])`timeout
  {
    0 <= j < |v| && 0 <= k < |v| ==> v[j].timeout <= v[k].timeout
  }

  /** Place k is not before its parent. */
  ghost predicate OrderAt(v: seq<Event>, k: int)
    reads (set i | 0 <= i < |v| :: v[i])`timeout
  {
    k > 0 ==> LeAt(v, Parent(k), k)
  }

  ghost predicate Ordered(v: seq<Event>)
    reads (set i | 0 <= i < |v| :: v[i])`timeout
  {
    forall k :: 0 < k < |v| ==> OrderAt(v, k)
  }

  /** Heap order but for the event at place h, which may be anything. */
  ghost predicate OrderedBut(v: seq<Event>, h: nat)
    reads (set i | 0 <= i < |v| :: v[i])`timeout
  {
    forall k :: 0 < k < |v| && k != h ==> OrderBut(v, h, k)
  }

  /** Above place k: the parent, or the grandparent where the parent is h. */
  ghost predicate OrderBut(v: seq<Event>, h: nat, k: int)
    reads (set i | 0 <= i < |v| :: v[i])`timeout
  {
    && (k > 0 && Parent(k) != h ==> LeAt(v, Parent(k), k))
    && (k > 0 && Parent(k) == h && h > 0 ==> LeAt(v, Parent(h), k))
  }

  /** The event at h is not after its children. */
  ghost predicate AboveChildren(v: seq<Event>, h: nat)
    reads (set i | 0 <= i < |v| :: v[i])`timeout
  {
    LeAt(v, h, 2 * h + 1) && LeAt(v, h, 2 * h + 2)
  }

  function Swap(v: seq<Event>, i: nat, j: nat): (r: seq<Event>)
    requires i < |v| && j < |v|
    ensures |r| == |v|
  {
    v[i := v[j]][j := v[i]]
  }

  lemma SwapAt(v: seq<Event>, i: nat, j: nat, k: nat)
    requires i < |v| && j < |v| && k < |v|
    ensures Swap(v, i, j)[k] == v[if k == i then j else if k == j then i else k]
  {
  }

  lemma SwapKeeps(v: seq<Event>, i: nat, j: nat, e: Event)
    requires i < |v| && j < |v| && e in v
    ensures e in Swap(v, i, j)
  {
    var k :| 0 <= k < |v| && v[k] == e;
    SwapAt(v, i, j, if k == i then j else if k == j then i else k);
  }

  ghost function Elems(v: seq<Event>): set<Event> {
    set e | e in v
  }

  lemma SwapElems(v: seq<Event>, i: nat, j: nat)
    requires i < |v| && j < |v|
    ensures Elems(Swap(v, i, j)) == Elems(v)
  {
    forall e | e in v
      ensures e in Swap(v, i, j)
    {
      SwapKeeps(v, i, j, e);
    }
    forall e | e in Swap(v, i, j)
      ensures e in v
    {
      SwapKeeps(Swap(v, i, j), i, j, e);
      assert Swap(Swap(v, i, j), i, j) == v;
    }
  }

  /** Moving the event at h over its parent leaves only its new place open. */
  lemma ClimbKeeps(v: seq<Event>, h: nat)
    requires OrderedBut(v, h) && 0 < h < |v| && AboveChildren(v, h) && v[Parent(h)].timeout > v[h].timeout
    ensures OrderedBut(Swap(v, h, Parent(h)), Parent(h)) && AboveChildren(Swap(v, h, Parent(h)), Parent(h))
  {
    var q := Parent(h);
    var r := Swap(v, h, q);
    assert q > 0 ==> OrderBut(v, h, q);
    forall k | 0 < k < |v| && k != q
      ensures OrderBut(r, q, k)
    {
      assert k != h ==> OrderBut(v, h, k);
    }
    var l := if 2 * q + 1 == h then 2 * q + 2 else 2 * q + 1;
    assert l < |v| ==> OrderBut(v, h, l);
  }

  /** Moving the event at h under its smaller child leaves only its new place open. */
  lemma SinkKeeps(v: seq<Event>, h: nat, c: nat)
    requires OrderedBut(v, h) && h < |v| && c < |v| && (c == 2 * h + 1 || c == 2 * h + 2)
    requires LeAt(v, c, 2 * h + 1) && LeAt(v, c, 2 * h + 2) && v[h].timeout > v[c].timeout
    requires OrderAt(v, h)
    ensures OrderedBut(Swap(v, h, c), c) && OrderAt(Swap(v, h, c), c)
  {
    var r := Swap(v, h, c);
    assert OrderBut(v, h, c);
    forall k | 0 < k < |v| && k != c
      ensures OrderBut(r, c, k)
    {
      assert k != h ==> OrderBut(v, h, k);
    }
  }

  /** The event at h fits where it is. */
  lemma Settled(v: seq<Event>, h: nat)
    requires OrderedBut(v, h) && h < |v| && OrderAt(v, h) && AboveChildren(v, h)
    ensures Ordered(v)
  {
    forall k | 0 < k < |v|
      ensures OrderAt(v, k)
    {
      assert k != h ==> OrderBut(v, h, k);
    }
  }

  /** Nothing is before the event at the top. */
  lemma {:induction false} TopIsLeast(v: seq<Event>, k: nat)
    requires Ordered(v) && k < |v|
    ensures v[0].timeout <= v[k].timeout
    decreases k
  {
    if k > 0 {
      assert OrderAt(v, k);
      TopIsLeast(v, Parent(k));
    }
  }

  // ---- The heap ------------------------------------------------------------

  /** Place i of the array holds event i of v, which knows its place. */
  ghost predicate SlotAt(p: array<Event?>, v: seq<Event>, i: int)
    reads p, (if 0 <= i < |v| then {v[i]} else {})`idx
  {
    0 <= i < |v| && i < p.Length && p[i] == v[i] && v[i].idx == i
  }

  /** The same with a hole at h, whose event is nowhere else. */
  ghost predicate SlotBut(p: array<Event?>, v: seq<Event>, h: int, i: int)
    reads p, (if 0 <= i < |v| then {v[i]} else {})`idx
  {
    SlotAt(p, v, i) && (0 <= h < |v| ==> v[i] != v[h])
  }

  class Heap {
    var p: array<Event?>
    var n: nat
    ghost var v: seq<Event>   // the events in array order

    /** All places but h hold their events. */
    ghost predicate Slots(h: int)
      reads this, p, (set i | 0 <= i < |v| :: v[i])`idx
    {
      n == |v| <= p.Length && forall i :: 0 <= i < |v| && i != h ==> SlotBut(p, v, h, i)
    }

    ghost predicate Valid()
      reads this, p, (set i | 0 <= i < |v| :: v[i])
    {
      Slots(-1) && Ordered(v)
    }

    /** min_heap_ctor_ */
    constructor ()
      ensures Valid() && v == [] && fresh(p)
    {
      p := new Event?[0];
      n, v := 0, [];
    }

    /** Move the event from place from into the hole at h, with e in the hole at from then. */
    method Fill(h: nat, from: nat, e: Event)
      requires h < |v| && from < |v| && from != h && Slots(h) && v[h] == e
      modifies p, `v, Elems(v)`idx
      ensures v == Swap(old(v), h, from) && Slots(from)
    {
      assert SlotBut(p, v, h, from);
      p[h] := p[from];
      p[h].idx := h;
      ghost var v0 := v;
      v := Swap(v, h, from);
      forall i | 0 <= i < |v| && i != from
        ensures SlotBut(p, v, from, i)
      {
        SwapAt(v0, h, from, i);
        assert i != h ==> old(SlotBut(p, v, h, i));
      }
    }

    /** Put e into the hole at h. */
    method Place(h: nat, e: Event)
      requires h < |v| && Slots(h) && v[h] == e
      modifies p, e`idx
      ensures Slots(-1)
    {
      p[h] := e;
      e.idx := h;
      forall i | 0 <= i < |v|
        ensures SlotBut(p, v, -1, i)
      {
        assert i != h ==> old(SlotBut(p, v, h, i));
      }
    }

    /** min_heap_shift_up_ */
    method ShiftUp(hole: nat, e: Event)
      requires hole < |v| && Slots(hole) && v[hole] == e && OrderedBut(v, hole) && AboveChildren(v, hole)
      modifies p, `v, Elems(v)`idx
      ensures Valid() && |v| == |old(v)| && Elems(v) == old(Elems(v))
    {
      var h: nat := hole;
      if h > 0 {
        assert SlotBut(p, v, h, Parent(h));
      }
      while h > 0 && p[Parent(h)].timeout > e.timeout
        invariant h < |v| == |old(v)| && p == old(p) && n == old(n) && Slots(h) && v[h] == e
        invariant OrderedBut(v, h) && AboveChildren(v, h) && Elems(v) == old(Elems(v))
        invariant h > 0 ==> SlotBut(p, v, h, Parent(h))
      {
        h := Climb(h, e);
      }
      Place(h, e);
      Settled(v, h);
    }

    /** One step of shifting up. */
    method Climb(h: nat, e: Event) returns (h': nat)
      requires 0 < h < |v| && Slots(h) && v[h] == e && OrderedBut(v, h) && AboveChildren(v, h)
      requires v[Parent(h)].timeout > e.timeout
      modifies p, `v, Elems(v)`idx
      ensures h' == Parent(h) && |v| == |old(v)| && Slots(h') && v[h'] == e
      ensures OrderedBut(v, h') && AboveChildren(v, h') && Elems(v) == old(Elems(v))
      ensures h' > 0 ==> SlotBut(p, v, h', Parent(h'))
    {
      ClimbKeeps(v, h);
      SwapElems(v, h, Parent(h));
      Fill(h, Parent(h), e);
      h' := Parent(h);
    }

    /** One step of shifting down. */
    method Sink(h: nat, c: nat, e: Event)
      requires h < |v| && c < |v| && (c == 2 * h + 1 || c == 2 * h + 2) && Slots(h) && v[h] == e
      requires OrderedBut(v, h) && OrderAt(v, h) && LeAt(v, c, 2 * h + 1) && LeAt(v, c, 2 * h + 2) && e.timeout > v[c].timeout
      modifies p, `v, Elems(v)`idx
      ensures |v| == |old(v)| && Slots(c) && v[c] == e
      ensures OrderedBut(v, c) && OrderAt(v, c) && Elems(v) == old(Elems(v))
    {
      SinkKeeps(v, h, c);
      SwapElems(v, h, c);
      Fill(h, c, e);
    }

    /** min_heap_shift_down_ */
    method ShiftDown(hole: nat, e: Event)
      requires hole < |v| && Slots(hole) && v[hole] == e && OrderedBut(v, hole) && OrderAt(v, hole)
      modifies p, `v, Elems(v)`idx
      ensures Valid() && |v| == |old(v)| && Elems(v) == old(Elems(v))
    {
      var h: nat, minChild := hole, 2 * (hole + 1);
      while minChild <= n
        invariant h < |v| == |old(v)| && p == old(p) && n == old(n) && Slots(h) && v[h] == e && minChild == 2 * (h + 1)
        invariant OrderedBut(v, h) && OrderAt(v, h) && Elems(v) == old(Elems(v))
        decreases n - h
      {
        minChild := SmallerChild(h, minChild);
        if !(e.timeout > p[minChild].timeout) {
          break;
        }
        Sink(h, minChild, e);
        h := minChild;
        minChild := 2 * (h + 1);
      }
      Place(h, e);
      Settled(v, h);
    }

    /** The child of h with the smaller timeout, the left one if there is no other. */
    method SmallerChild(h: nat, right: nat) returns (c: nat)
      requires Slots(h) && right == 2 * (h + 1) <= n
      ensures c < |v| && (c == 2 * h + 1 || c == 2 * h + 2) && p[c] == v[c]
      ensures LeAt(v, c, 2 * h + 1) && LeAt(v, c, 2 * h + 2)
    {
      assert SlotBut(p, v, h, right - 1);
      if right < n {
        assert SlotBut(p, v, h, right);
      }
      c := right;
      if c == n || p[c].timeout > p[c - 1].timeout {
        c := c - 1;
      }
    }

    /** min_heap_shift_up_unconditional_, for an event that is before its parent */
    method ShiftUpUnconditional(hole: nat, e: Event)
      requires 0 < hole < |v| && Slots(hole) && v[hole] == e && OrderedBut(v, hole) && v[Parent(hole)].timeout > e.timeout
      modifies p, `v, Elems(v)`idx
      ensures Valid() && |v| == |old(v)| && Elems(v) == old(Elems(v))
    {
      ChildrenAfter(v, hole);
      var h := Climb(hole, e);
      ShiftUp(h, e);
    }

    // -- The interface --

    /** min_heap_reserve_ */
    method Reserve(size: nat, memory: bool) returns (ok: bool)
      requires Valid()
      modifies `p
      ensures Valid() && (p == old(p) || fresh(p)) && (if ok then p.Length >= size else p == old(p)) && (memory ==> ok)
      ensures p != old(p) ==> p.Length == size || p.Length == (if old(p.Length) > 0 then 2 * old(p.Length) else 8)
    {
      if p.Length >= size {
        return true;
      }
      var a := if p.Length > 0 then p.Length * 2 else 8;
      if a < size {
        a := size;
      }
      if !memory {
        return false;
      }
      var p' := new Event?[a];
      forall i | 0 <= i < p.Length {
        p'[i] := p[i];
      }
      forall i | 0 <= i < |v|
        ensures SlotBut(p', v, -1, i)
      {
        assert SlotBut(p, v, -1, i);
      }
      p := p';
      return true;
    }

    /** min_heap_push_ */
    method Push(e: Event, memory: bool) returns (ok: bool)
      requires Valid() && e !in v
      modifies this, p, Elems(v)`idx, e`idx
      ensures Valid() && (memory ==> ok) && (p == old(p) || fresh(p))
      ensures Elems(v) == if ok then old(Elems(v)) + {e} else old(Elems(v))
      ensures !ok ==> v == old(v) && p == old(p) && e.idx == old(e.idx)
    {
      ok := Reserve(n + 1, memory);
      if ok {
        Append(e);
        ShiftUp(n - 1, e);
      }
    }

    /** Open a last place for e. */
    method Append(e: Event)
      requires Valid() && e !in v && n < p.Length
      modifies `n, `v
      ensures v == old(v) + [e] && n == old(n) + 1 && Slots(n - 1) && OrderedBut(v, n - 1) && AboveChildren(v, n - 1)
      ensures Elems(v) == old(Elems(v)) + {e}
    {
      ghost var v0, h := v, n;
      n, v := n + 1, v + [e];
      forall i | 0 <= i < |v| && i != h
        ensures SlotBut(p, v, h, i)
      {
        assert old(SlotBut(p, v, -1, i)) && v[i] in v0;
      }
      forall k | 0 < k < |v| && k != h
        ensures OrderBut(v, h, k)
      {
        assert OrderAt(v0, k);
      }
    }

    /** Close the last place; its event goes where the event at h was. */
    method Shrink(h: nat, last: Event)
      requires Valid() && h < n - 1 && last == v[n - 1]
      modifies `n, `v
      ensures n == old(n) - 1 && v == old(v)[..n][h := last] && Slots(h) && OrderedBut(v, h)
      ensures Elems(v) == old(Elems(v)) - {old(v[h])}
      ensures h > 0 ==> v[Parent(h)] == old(v[Parent(h)])
    {
      ghost var v0 := v;
      OrderedCut(v, h);
      ElemsCut(p, v, h);
      n, v := n - 1, v[..n - 1][h := last];
      forall i | 0 <= i < |v| && i != h
        ensures SlotBut(p, v, h, i)
      {
        assert old(SlotBut(p, v, -1, i)) && old(SlotBut(p, v, -1, |v| - 1));
      }
    }

    /** Close the last place with its event. */
    method DropLast(e: Event)
      requires Valid() && n > 0 && e == v[n - 1]
      modifies `n, `v
      ensures Valid() && n == old(n) - 1 && v == old(v)[..n] && Elems(v) == old(Elems(v)) - {e}
    {
      ghost var v0 := v;
      n, v := n - 1, v[..n - 1];
      forall i | 0 <= i < |v|
        ensures SlotBut(p, v, -1, i)
      {
        assert old(SlotBut(p, v, -1, i));
      }
      forall k | 0 < k < |v|
        ensures OrderAt(v, k)
      {
        assert OrderAt(v0, k);
      }
      assert v0 == v + [e];
      forall i | 0 <= i < |v|
        ensures v[i] != e
      {
        assert old(SlotBut(p, v, -1, i)) && old(SlotBut(p, v, -1, |v| - 1));
      }
    }

    /** min_heap_pop_ */
    method Pop() returns (e: Event?)
      requires Valid()
      modifies p, `n, `v, Elems(v)`idx
      ensures Valid() && p == old(p)
      ensures e == null <==> old(v) == []
      ensures e == null ==> v == []
      ensures e != null ==>
                && e in old(v) && e.idx == -1 && Elems(v) == old(Elems(v)) - {e} && |v| == |old(v)| - 1
                && forall x :: x in old(v) ==> e.timeout <= x.timeout
    {
      if n == 0 {
        return null;
      }
      assert SlotBut(p, v, -1, 0) && SlotBut(p, v, -1, n - 1);
      LeastOfAll(v);
      e := p[0];
      Replace(0, e, p[n - 1], false);
      e.idx := -1;
    }

    /** The common part of pop and erase: the last event takes the place h of e. */
    method Replace(h: nat, e: Event, last: Event, up: bool)
      requires Valid() && h < n && v[h] == e && v[n - 1] == last
      requires up <==> h > 0 && v[Parent(h)].timeout > last.timeout
      modifies p, `n, `v, Elems(v)`idx
      ensures Valid() && Elems(v) == old(Elems(v)) - {e} && |v| == |old(v)| - 1
    {
      if h == n - 1 {
        assert OrderAt(v, h);
        DropLast(e);
        p[h] := e;
        e.idx := h;
        forall i | 0 <= i < |v|
          ensures SlotBut(p, v, -1, i)
        {
          assert old(SlotBut(p, v, -1, i)) && old(SlotBut(p, v, -1, |v| - 1));
        }
        return;
      }
      Shrink(h, last);
      if up {
        ShiftUpUnconditional(h, last);
      } else {
        ShiftDown(h, last);
      }
    }

    /** min_heap_erase_ */
    method Erase(e: Event) returns (r: int)
      requires Valid() && (if e.idx == -1 then e !in v else 0 <= e.idx < n && v[e.idx] == e)
      modifies p, `n, `v, Elems(v)`idx
      ensures Valid() && p == old(p) && e.idx == -1 && Elems(v) == old(Elems(v)) - {e}
      ensures r == if e in old(v) then 0 else -1
      ensures |v| == if r == 0 then |old(v)| - 1 else |old(v)|
    {
      if e.idx == -1 {
        return -1;
      }
      var h := e.idx;
      assert SlotBut(p, v, -1, n - 1);
      var last := p[n - 1];
      var up := false;
      if h > 0 {
        assert SlotBut(p, v, -1, Parent(h));
        up := p[Parent(h)].timeout > last.timeout;
      }
      Replace(h, e, last, up);
      e.idx := -1;
      return 0;
    }

    /** min_heap_adjust_ for an event whose timeout has changed */
    method Adjust(e: Event, memory: bool) returns (ok: bool)
      requires if e.idx == -1 then Valid() && e !in v
               else Slots(-1) && 0 <= e.idx < n && v[e.idx] == e && OrderedBut(v, e.idx)
      modifies this, p, Elems(v)`idx, e`idx
      ensures Valid() && (memory || old(e.idx) != -1 ==> ok) && (p == old(p) || fresh(p))
      ensures Elems(v) == if ok then old(Elems(v)) + {e} else old(Elems(v))
      ensures !ok ==> v == old(v) && p == old(p) && e.idx == old(e.idx)
    {
      if e.idx == -1 {
        ok := Push(e, memory);
        return;
      }
      var h := e.idx;
      if h > 0 {
        assert SlotBut(p, v, -1, Parent(h));
      }
      OpenAt(h);
      if h > 0 && p[Parent(h)].timeout > e.timeout {
        ShiftUpUnconditional(h, e);
      } else {
        ShiftDown(h, e);
      }
      return true;
    }

    /** An event in the heap knows where. */
    lemma KnowsPlace(e: Event)
      requires Valid()
      ensures e in v ==> 0 <= e.idx < n && v[e.idx] == e
    {
      if e in v {
        var k :| 0 <= k < |v| && v[k] == e;
        assert SlotBut(p, v, -1, k);
      }
    }

    /** A new timeout of one event leaves only the place of that event open. */
    twostate lemma OneMoved(e: Event)
      requires old(Valid()) && 0 <= old(e.idx) < |v| && v[old(e.idx)] == e
      requires p == old(p) && p[..] == old(p[..]) && n == old(n) && v == old(v)
      requires forall x :: x in v ==> x.idx == old(x.idx) && (x != e ==> x.timeout == old(x.timeout))
      ensures Slots(-1) && OrderedBut(v, e.idx)
    {
      forall i | 0 <= i < |v|
        ensures SlotBut(p, v, -1, i)
      {
        assert old(SlotBut(p, v, -1, i));
      }
      forall k | 0 < k < |v| && k != e.idx
        ensures OrderBut(v, e.idx, k)
      {
        assert old(OrderAt(v, k)) && old(OrderAt(v, Parent(k)));
        assert SlotBut(p, v, -1, k) && SlotBut(p, v, -1, Parent(k));
        assert Parent(k) > 0 ==> SlotBut(p, v, -1, Parent(Parent(k)));
      }
    }

    /** Give an event a new timeout, and adjust the heap, as event_add does. */
    method Reschedule(e: Event, timeout: int, memory: bool) returns (ok: bool)
      requires Valid() && (if e.idx == -1 then e !in v else e in v)
      modifies this, p, Elems(v)`idx, e
      ensures Valid() && (memory || e in old(v) ==> ok) && (p == old(p) || fresh(p)) && e.timeout == timeout
      ensures Elems(v) == if ok then old(Elems(v)) + {e} else old(Elems(v))
      ensures !ok ==> v == old(v) && e.idx == -1
    {
      KnowsPlace(e);
      e.timeout := timeout;
      if e.idx != -1 {
        OneMoved(e);
      } else {
        StillValid(e);
      }
      ok := Adjust(e, memory);
    }

    /** The timeout of an event that is not in the heap does not matter. */
    twostate lemma StillValid(e: Event)
      requires old(Valid()) && e !in v && p == old(p) && p[..] == old(p[..]) && n == old(n) && v == old(v)
      requires forall x :: x in v ==> x.idx == old(x.idx) && x.timeout == old(x.timeout)
      ensures Valid()
    {
      forall i | 0 <= i < |v|
        ensures SlotBut(p, v, -1, i)
      {
        assert old(SlotBut(p, v, -1, i));
      }
      forall k | 0 < k < |v|
        ensures OrderAt(v, k)
      {
        assert old(OrderAt(v, k));
      }
    }

    lemma OpenAt(h: nat)
      requires Slots(-1) && h < |v|
      ensures Slots(h)
    {
      forall i | 0 <= i < |v| && i != h
        ensures SlotBut(p, v, h, i)
      {
        assert SlotBut(p, v, -1, i) && SlotBut(p, v, -1, h);
      }
    }

    /** Popping until nothing is left gives all events, the earliest first. */
    method PopAll() returns (out: seq<Event>)
      requires Valid()
      modifies p, `n, `v, Elems(v)`idx
      ensures Valid() && v == [] && Elems(out) == old(Elems(v)) && |out| == |old(v)|
      ensures forall i, j :: 0 <= i < j < |out| ==> out[i].timeout <= out[j].timeout
    {
      out := [];
      while n > 0
        invariant Valid() && p == old(p) && Elems(v) <= old(Elems(v)) && |out| + |v| == |old(v)|
        invariant Elems(out) + Elems(v) == old(Elems(v))
        invariant forall i, j :: 0 <= i < j < |out| ==> out[i].timeout <= out[j].timeout
        invariant forall i, x :: 0 <= i < |out| && x in v ==> out[i].timeout <= x.timeout
        decreases |v|
      {
        ghost var v0 := v;
        var e := Pop();
        forall x | x in v
          ensures x in v0
        {
          assert x in Elems(v) && x in Elems(v0);
        }
        out := out + [e];
      }
    }
  }

  /** If the parent of h is after the event at h, so are its children. */
  lemma ChildrenAfter(v: seq<Event>, h: nat)
    requires OrderedBut(v, h) && 0 < h < |v| && v[Parent(h)].timeout > v[h].timeout
    ensures AboveChildren(v, h)
  {
    assert 2 * h + 1 < |v| ==> OrderBut(v, h, 2 * h + 1);
    assert 2 * h + 2 < |v| ==> OrderBut(v, h, 2 * h + 2);
  }

  lemma OrderedCut(v: seq<Event>, h: nat)
    requires Ordered(v) && h < |v| - 1
    ensures OrderedBut(v[..|v| - 1][h := v[|v| - 1]], h)
  {
    var r := v[..|v| - 1][h := v[|v| - 1]];
    forall k | 0 < k < |r| && k != h
      ensures OrderBut(r, h, k)
    {
      assert OrderAt(v, k) && OrderAt(v, h);
    }
  }

  lemma ElemsCut(p: array<Event?>, v: seq<Event>, h: nat)
    requires h < |v| - 1 && forall i :: 0 <= i < |v| ==> SlotBut(p, v, -1, i)
    ensures Elems(v[..|v| - 1][h := v[|v| - 1]]) == Elems(v) - {v[h]}
  {
    var r := v[..|v| - 1][h := v[|v| - 1]];
    forall e | e in v && e != v[h]
      ensures e in r
    {
      var k :| 0 <= k < |v| && v[k] == e;
      assert r[if k == |v| - 1 then h else k] == e;
    }
    forall i | 0 <= i < |r|
      ensures r[i] in v && r[i] != v[h]
    {
      assert SlotBut(p, v, -1, h) && SlotBut(p, v, -1, |v| - 1) && SlotBut(p, v, -1, i);
    }
  }

  lemma LeastOfAll(v: seq<Event>)
    requires Ordered(v) && v != []
    ensures forall x :: x in v ==> v[0].timeout <= x.timeout
  {
    forall x | x in v
      ensures v[0].timeout <= x.timeout
    {
      var k :| 0 <= k < |v| && v[k] == x;
      TopIsLeast(v, k);
    }
  }

  // ---- Whole runs ----------------------------------------------------------

  datatype Call =
    | Reset(e: Event, timeout: int, memory: bool)   // into the heap, or to another place in it
    | Erase(e: Event)
    | Pop

  datatype Output = Output(ok: bool, e: Event?)

  /** The outputs a call may have when the heap holds the events of m with their timeouts. */
  ghost predicate MayGive(m: map<Event, int>, call: Call, out: Output) {
    match call
    case Reset(e, _, memory) => out.e == null && (memory || e in m ==> out.ok)
    case Erase(e) => out.e == null && out.ok == (e in m)
    case Pop =>
      && out.ok == (m != map[])
      && if m == map[] then out.e == null else out.e != null && Earliest(m, out.e)
  }

  ghost predicate Earliest(m: map<Event, int>, e: Event) {
    e in m && forall x :: x in m ==> m[e] <= m[x]
  }

  ghost function Done(m: map<Event, int>, call: Call, out: Output): map<Event, int> {
    match call
    case Reset(e, timeout, _) => if out.ok then m[e := timeout] else m
    case Erase(e) => m - {e}
    case Pop => if out.e == null then m else m - {out.e}
  }

  /** What is in the heap after the calls and their outputs. */
  ghost function After(m: map<Event, int>, calls: seq<Call>, outs: seq<Output>): map<Event, int>
    requires |calls| == |outs|
  {
    if calls == [] then m
    else Done(After(m, calls[..|calls| - 1], outs[..|outs| - 1]), calls[|calls| - 1], outs[|outs| - 1])
  }

  /** Each output is one the call may have after those before it. */
  ghost predicate AllMayGive(m: map<Event, int>, calls: seq<Call>, outs: seq<Output>) {
    |calls| == |outs| && forall i :: 0 <= i < |calls| ==> MayGiveAt(m, calls, outs, i)
  }

  ghost predicate MayGiveAt(m: map<Event, int>, calls: seq<Call>, outs: seq<Output>, i: int)
    requires |calls| == |outs|
  {
    0 <= i < |calls| ==> MayGive(After(m, calls[..i], outs[..i]), calls[i], outs[i])
  }

  lemma OneMore(m: map<Event, int>, calls: seq<Call>, outs: seq<Output>, call: Call, out: Output)
    requires AllMayGive(m, calls, outs) && MayGive(After(m, calls, outs), call, out)
    ensures After(m, calls + [call], outs + [out]) == Done(After(m, calls, outs), call, out)
    ensures AllMayGive(m, calls + [call], outs + [out])
  {
    var cs, os := calls + [call], outs + [out];
    assert cs[..|calls|] == calls && os[..|outs|] == outs;
    forall i | 0 <= i < |cs|
      ensures MayGiveAt(m, cs, os, i)
    {
      assert i < |calls| ==> MayGiveAt(m, calls, outs, i) && cs[..i] == calls[..i] && os[..i] == outs[..i];
    }
  }

  /** The heap holds the events of m with their timeouts, and the other events of the pool know that
      they are in no heap. */
  ghost predicate Holds(h: Heap, m: map<Event, int>, pool: set<Event>)
    reads h, pool
  {
    && Elems(h.v) == m.Keys <= pool
    && (forall e :: e in m ==> e.timeout == m[e])
    && (forall e :: e in pool && e !in m ==> e.idx == -1)
  }

  ghost predicate Uses(call: Call, pool: set<Event>) {
    call.Pop? || call.e in pool
  }

  method Perform(h: Heap, call: Call, ghost m: map<Event, int>, ghost pool: set<Event>) returns (out: Output)
    requires h.Valid() && Holds(h, m, pool) && Uses(call, pool)
    modifies h, h.p, pool
    ensures MayGive(m, call, out)
    ensures h.Valid() && Holds(h, Done(m, call, out), pool) && (h.p == old(h.p) || fresh(h.p))
  {
    assert forall x :: x in h.v <==> x in Elems(h.v);
    match call {
      case Reset(e, timeout, memory) =>
        h.KnowsPlace(e);
        var ok := h.Reschedule(e, timeout, memory);
        return Output(ok, null);
      case Erase(e) =>
        h.KnowsPlace(e);
        var r := h.Erase(e);
        return Output(r == 0, null);
      case Pop =>
        var e := h.Pop();
        return Output(e != null, e);
    }
  }

  /** Any run of calls gives outputs that the same run on a map from events to timeouts may give,
      a pop always one of the earliest, and leaves the heap with the events of that map. */
  method Run(h: Heap, calls: seq<Call>, ghost m: map<Event, int>, ghost pool: set<Event>) returns (outs: seq<Output>)
    requires h.Valid() && Holds(h, m, pool) && forall i :: 0 <= i < |calls| ==> Uses(calls[i], pool)
    modifies h, h.p, pool
    ensures AllMayGive(m, calls, outs)
    ensures h.Valid() && Holds(h, After(m, calls, outs), pool) && (h.p == old(h.p) || fresh(h.p))
  {
    outs := [];
    var i := 0;
    while i < |calls|
      invariant i <= |calls| && AllMayGive(m, calls[..i], outs)
      invariant h.Valid() && Holds(h, After(m, calls[..i], outs), pool) && (h.p == old(h.p) || fresh(h.p))
    {
      var out := Perform(h, calls[i], After(m, calls[..i], outs), pool);
      OneMore(m, calls[..i], outs, calls[i], out);
      assert calls[..i + 1] == calls[..i] + [calls[i]];
      outs, i := outs + [out], i + 1;
    }
    assert calls[..i] == calls;
  }
}
