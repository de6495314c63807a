/** The hash table of cocool/co_hash.c on mutable elements, one doubly linked list
    with buckets that point into it.  The table stands for a map on keys up to
    case (entries); the pointer writes are proved against the sequence of the
    elements (list), and every bucket is a run of that sequence (runs). */
module SqliteHash {
  import opened HashRuns
  import opened Sequences

  class HashElem {
    var next: HashElem?
    var prev: HashElem?
    var data: Data
    var key: seq<Byte>

    constructor (key: seq<Byte>, data: Data)
      ensures this.key == key && this.data == data
    {
      this.key, this.data := key, data;
    }
  }

  datatype Bucket = Bucket(count: int, chain: HashElem?)

  // ---- The doubly linked list ----------------------------------------------

  function At(list: seq<HashElem>, i: int): HashElem? {
    if 0 <= i < |list| then list[i] else null
  }

  ghost predicate NodeAt(list: seq<HashElem>, names: seq<Name>, vals: seq<Data>, i: int)
    reads if 0 <= i < |list| then {list[i]} else {}
  {
    && 0 <= i < |list| && i < |names| && i < |vals|
    && list[i].next == At(list, i + 1) && list[i].prev == At(list, i - 1)
    && Fold(list[i].key) == names[i] && list[i].data == vals[i]
  }

  ghost predicate Nodes(list: seq<HashElem>, names: seq<Name>, vals: seq<Data>)
    reads list
  {
    && NoTwice(list) && |names| == |list| == |vals|
    && forall i :: 0 <= i < |list| ==> NodeAt(list, names, vals, i)
  }

  lemma Node(list: seq<HashElem>, names: seq<Name>, vals: seq<Data>, i: nat)
    requires Nodes(list, names, vals) && i < |list|
    ensures list[i].next == At(list, i + 1) && list[i].prev == At(list, i - 1)
    ensures Fold(list[i].key) == names[i] && list[i].data == vals[i]
  {
    assert NodeAt(list, names, vals, i);
  }

  /** The neighbours of place i after e was put in at p. */
  lemma PutNeighbours(list: seq<HashElem>, p: nat, e: HashElem, i: nat)
    requires p <= |list| && i <= |list|
    ensures var r := Put(list, p, e);
            && r[i] == (if i == p then e else list[Back(p, i)])
            && At(r, i + 1) == (if i + 1 == p then e else if i < p then At(list, i + 1) else At(list, i))
            && At(r, i - 1) == (if i - 1 == p then e else if i <= p then At(list, i - 1) else At(list, i - 2))
  {
    PutAt(list, p, e, i);
    if i < |list| {
      PutAt(list, p, e, i + 1);
    }
    if i > 0 {
      PutAt(list, p, e, i - 1);
    }
  }

  lemma CutNeighbours(list: seq<HashElem>, p: nat, i: nat)
    requires p < |list| && i < |list| - 1
    ensures var r := Cut(list, p);
            && r[i] == list[Moved(p, i)]
            && At(r, i + 1) == (if i + 1 < p then At(list, i + 1) else At(list, i + 2))
            && At(r, i - 1) == (if i <= p then At(list, i - 1) else At(list, i))
  {
    CutAt(list, p, i);
    if i + 1 < |list| - 1 {
      CutAt(list, p, i + 1);
    }
    if i > 0 {
      CutAt(list, p, i - 1);
    }
  }

  /** Bucket h points at its run. */
  ghost predicate BucketAt(ht: array?<Bucket>, runs: seq<Run>, list: seq<HashElem>, h: int)
    reads ht
  {
    && ht != null && 0 <= h < ht.Length && h < |runs|
    && ht[h].count == runs[h].count
    && (runs[h].count > 0 ==> ht[h].chain == At(list, runs[h].start))
  }

  class Hash {
    var htsize: nat
    var count: nat
    var first: HashElem?
    var ht: array?<Bucket>
    const softLimit: nat              // in buckets; 0 for none
    ghost var list: seq<HashElem>     // the elements in order
    ghost var names: seq<Name>        // their keys in lower case
    ghost var vals: seq<Data>         // their data
    ghost var runs: seq<Run>          // the bucket runs
    ghost var entries: map<Name, Data>

    ghost predicate ListOk()
      reads this, list
    {
      Nodes(list, names, vals) && first == At(list, 0)
    }

    /** The writes that put e before head, or first if there is none. */
    method SetLinks(head: HashElem?, ghost p: nat, e: HashElem)
      requires ListOk() && e !in list && p <= |list|
      requires if head == null then p == 0 else head == At(list, p)
      modifies `first, e`next, e`prev, list`next, list`prev
      ensures first == (if p == 0 then e else old(first)) && e.next == At(list, p) && e.prev == At(list, p - 1)
      ensures forall k :: 0 <= k < |list| ==>
                && list[k].next == (if k == p - 1 then e else old(list[k].next))
                && list[k].prev == (if k == p then e else old(list[k].prev))
    {
      if head != null {
        Node(list, names, vals, p);
        e.next := head;
        e.prev := head.prev;
        if head.prev != null {
          head.prev.next := e;
        } else {
          first := e;
        }
        head.prev := e;
      } else {
        e.next := first;
        if first != null {
          first.prev := e;
        }
        e.prev := null;
        first := e;
      }
      NoneElse(list, p);
    }

    lemma NoneElse(c: seq<HashElem>, p: nat)
      requires NoTwice(c)
      ensures forall k :: 0 <= k < |c| && k != p && p < |c| ==> c[k] != c[p]
      ensures forall k :: 0 <= k < |c| && k != p - 1 && 0 < p <= |c| ==> c[k] != c[p - 1]
    {
      forall k | 0 <= k < |c|
        ensures k != p && p < |c| ==> c[k] != c[p]
        ensures k != p - 1 && 0 < p <= |c| ==> c[k] != c[p - 1]
      {
        if k != p && p < |c| {
          Apart(c, k, p);
        }
        if k != p - 1 && 0 < p <= |c| {
          Apart(c, k, p - 1);
        }
      }
    }

    /** LinkIn, the list surgery of insertElement: put e before head, or first if there is none. */
    method LinkIn(head: HashElem?, ghost p: nat, e: HashElem)
      requires ListOk() && e !in list && p <= |list|
      requires if head == null then p == 0 else head == At(list, p)
      modifies `first, `list, `names, `vals, e, list
      ensures ListOk()
      ensures list == Put(old(list), p, e) && e.key == old(e.key) && e.data == old(e.data)
      ensures names == Put(old(names), p, Fold(e.key)) && vals == Put(old(vals), p, e.data)
    {
      ghost var list0, names0, vals0 := list, names, vals;
      SetLinks(head, p, e);
      list, names, vals := Put(list, p, e), Put(names, p, Fold(e.key)), Put(vals, p, e.data);
      NoTwicePut(list0, p, e);
      forall i | 0 <= i < |list|
        ensures NodeAt(list, names, vals, i)
      {
        PutNeighbours(list0, p, e, i);
        PutAt(names0, p, Fold(e.key), i);
        PutAt(vals0, p, e.data, i);
        if i != p {
          assert old(NodeAt(list, names, vals, Back(p, i)));
        }
      }
    }

    /** The writes that take e, at place q, out. */
    method ClearLinks(e: HashElem, ghost q: nat)
      requires ListOk() && q < |list| && list[q] == e
      modifies `first, list`next, list`prev
      ensures first == (if q == 0 then At(list, 1) else old(first)) && e.next == At(list, q + 1)
      ensures forall k :: 0 <= k < |list| && k != q ==>
                && list[k].next == (if k == q - 1 then At(list, q + 1) else old(list[k].next))
                && list[k].prev == (if k == q + 1 then At(list, q - 1) else old(list[k].prev))
    {
      Node(list, names, vals, q);
      NoneElse(list, q);
      NoneElse(list, q + 1);
      if e.prev != null {
        e.prev.next := e.next;
      } else {
        first := e.next;
      }
      if e.next != null {
        e.next.prev := e.prev;
      }
    }

    /** The list surgery of removeElementGivenHash: take e, at place q, out. */
    method Unlink(e: HashElem, ghost q: nat)
      requires ListOk() && q < |list| && list[q] == e
      modifies `first, `list, `names, `vals, list
      ensures ListOk()
      ensures list == Cut(old(list), q) && names == Cut(old(names), q) && vals == Cut(old(vals), q)
      ensures e.next == At(old(list), q + 1)
    {
      ghost var list0, names0, vals0 := list, names, vals;
      ClearLinks(e, q);
      list, names, vals := Cut(list, q), Cut(names, q), Cut(vals, q);
      NoTwiceCut(list0, q);
      forall i | 0 <= i < |list|
        ensures NodeAt(list, names, vals, i)
      {
        CutNeighbours(list0, q, i);
        CutAt(names0, q, i);
        CutAt(vals0, q, i);
        assert old(NodeAt(list, names, vals, Moved(q, i)));
      }
    }

    // -- Buckets --

    /** The list, its names and the buckets agree. */
    ghost predicate Table()
      reads this, ht, list
    {
      && ListOk() && NoTwice(names) && RunsOk(names, runs)
      && (if ht == null then htsize == 0 && runs == [] else htsize == ht.Length == |runs| > 0)
      && forall h :: 0 <= h < |runs| ==> BucketAt(ht, runs, list, h)
    }

    ghost predicate Valid()
      reads this, ht, list
    {
      && Table() && count == |list| && Says(names, vals, entries)
      && forall n :: n in entries ==> entries[n] != 0
    }

    /** Elements and table are the old ones or new ones. */
    twostate predicate Own()
      reads this
    {
      && (ht == null || ht == old(ht) || fresh(ht))
      && forall k :: 0 <= k < |list| ==> list[k] in old(list) || fresh(list[k])
    }

    /** sqlite3HashInit */
    constructor (softLimit: nat)
      ensures Valid() && entries == map[] && ht == null && list == [] && this.softLimit == softLimit
    {
      this.softLimit := softLimit;
      htsize, count, first, ht := 0, 0, null, null;
      list, names, vals, runs, entries := [], [], [], [], map[];
    }

    /** insertElement, with the bucket &ht[h] if there are buckets */
    method InsertElement(h: nat, e: HashElem)
      requires Table() && e !in list && Fold(e.key) !in names
      requires ht != null ==> h < |runs| && HashOf(Fold(e.key)) % |runs| == h
      modifies `first, `list, `names, `vals, `runs, ht, e, list
      ensures Table() && e.key == old(e.key) && e.data == old(e.data) && |runs| == |old(runs)|
      ensures var p := PutPlace(old(runs), h);
              && p <= |old(list)| && list == Put(old(list), p, e)
              && names == Put(old(names), p, Fold(e.key)) && vals == Put(old(vals), p, e.data)
    {
      ghost var p := PutPlace(runs, h);
      NoTwicePutName(p, e);
      var head: HashElem? := null;
      if ht != null {
        assert BucketAt(ht, runs, list, h) && RunOk(names, |runs|, runs[h], h);
        RunsOkPut(names, runs, h, Fold(e.key));
        head := if ht[h].count != 0 then ht[h].chain else null;
        ht[h] := Bucket(ht[h].count + 1, e);
      }
      ghost var list0 := list;
      LinkIn(head, p, e);
      runs := RunsPut(runs, h);
      forall j | 0 <= j < |runs|
        ensures BucketAt(ht, runs, list, j)
      {
        assert old(BucketAt(ht, runs, list, j));
        if 0 <= runs[j].start <= |list0| {
          PutAt(list0, p, e, runs[j].start);
        }
        assert RunOk(names, |runs|, runs[j], j);
      }
    }

    lemma NoTwicePutName(p: nat, e: HashElem)
      requires Table() && Fold(e.key) !in names
      ensures p <= |names| ==> NoTwice(Put(names, p, Fold(e.key)))
    {
      if p <= |names| {
        NoTwicePut(names, p, Fold(e.key));
      }
    }

    /** sqlite3HashClear; the elements go back to the allocator. */
    method Clear()
      modifies this
      ensures Valid() && entries == map[] && ht == null && list == []
    {
      first, ht, htsize, count := null, null, 0, 0;
      list, names, vals, runs, entries := [], [], [], [], map[];
    }

    /** The part of removeElementGivenHash that keeps the counts of list and bucket. */
    method TakeOut(e: HashElem, h: nat, ghost q: nat)
      requires Table() && q < |list| && list[q] == e
      requires ht != null ==> h < |runs| && InBucket(names, |runs|, q, h)
      modifies `first, `list, `names, `vals, `runs, ht, list
      ensures Table() && list == Cut(old(list), q)
      ensures names == Cut(old(names), q) && vals == Cut(old(vals), q)
    {
      NoTwiceCut(names, q);
      ghost var list0, names0 := list, names;
      if ht != null {
        RunsOkCut(names, runs, h, q);
      }
      Unlink(e, q);
      if ht != null {
        CutBucket(e, h, q, list0, names0);
      }
    }

    /** Count e, which was at place q of list0, no longer in its bucket. */
    method CutBucket(e: HashElem, h: nat, ghost q: nat, ghost list0: seq<HashElem>, ghost names0: seq<Name>)
      requires ht != null && ht.Length == |runs| == htsize && h < |runs|
      requires q < |list0| == |names0| && list0[q] == e && NoTwice(list0) && e.next == At(list0, q + 1) && list == Cut(list0, q)
      requires RunsOk(names0, runs) && InBucket(names0, |runs|, q, h) && forall j :: 0 <= j < |runs| ==> BucketAt(ht, runs, list0, j)
      modifies `runs, ht
      ensures runs == RunsCut(old(runs), h, q) && forall j :: 0 <= j < |runs| ==> BucketAt(ht, runs, list, j)
    {
      ghost var runs0 := runs;
      assert BucketAt(ht, runs, list0, h) && RunOk(names0, |runs|, runs[h], h);
      if runs0[h].start != q {
        Apart(list0, runs0[h].start, q);
      }
      if ht[h].chain == e {
        ht[h] := ht[h].(chain := e.next);
      }
      ht[h] := ht[h].(count := ht[h].count - 1);
      runs := RunsCut(runs, h, q);
      forall j | 0 <= j < |runs|
        ensures BucketAt(ht, runs, list, j)
      {
        assert old(BucketAt(ht, runs, list0, j)) && RunOk(names0, |runs0|, runs0[j], j);
        assert InBucket(names0, |runs0|, q, j) <==> j == h;
        if runs[j].start < |list0| - 1 {
          CutAt(list0, q, runs[j].start);
        }
      }
    }

    /** removeElementGivenHash */
    method RemoveElement(e: HashElem, h: nat, ghost q: nat)
      requires Valid() && q < |list| && list[q] == e
      requires ht != null ==> h < |runs| && InBucket(names, |runs|, q, h)
      modifies this, ht, list
      ensures Valid() && Own() && entries == old(entries) - {old(names[q])}
    {
      SaysCut(names, vals, entries, q);
      ghost var n := names[q];
      TakeOut(e, h, q);
      forall k | 0 <= k < |list|
        ensures list[k] in old(list)
      {
        CutAt(old(list), q, k);
      }
      count := count - 1;
      entries := entries - {n};
      if count == 0 {
        assert entries == map[] by {
          assert forall k :: k in entries ==> k in names;
        }
        Clear();
      }
    }

    // -- Looking a key up --

    /** findElementWithHash; null stands for the static null element. */
    method FindElement(key: seq<Byte>) returns (elem: HashElem?, h: nat, ghost q: nat)
      requires Valid()
      ensures ht != null ==> h < |runs| && HashOf(Fold(key)) % |runs| == h
      ensures elem == null ==> Fold(key) !in names
      ensures elem != null ==> q < |list| && list[q] == elem && names[q] == Fold(key)
    {
      ghost var n := Fold(key);
      var left: int;
      ghost var start: nat, len: nat;
      if ht != null {
        h := StrHash(key);
        h := h % htsize;
        assert BucketAt(ht, runs, list, h) && RunOk(names, |runs|, runs[h], h);
        elem, left := ht[h].chain, ht[h].count;
        start, len := runs[h].start, runs[h].count;
      } else {
        h, elem, left := 0, first, count;
        start, len := 0, count;
      }
      q := start;
      while left != 0
        invariant 0 <= left == len - (q - start) && start <= q
        invariant len > 0 ==> start + len <= |list|
        invariant left != 0 ==> elem == At(list, q)
        invariant forall i :: start <= i < q ==> names[i] != n
        decreases left
      {
        Node(list, names, vals, q);
        if Fold(elem.key) == Fold(key) {
          return;
        }
        elem, left, q := elem.next, left - 1, q + 1;
      }
      elem := null;
      if n in names {
        ghost var i :| 0 <= i < |names| && names[i] == n;
        if ht != null {
          OnlyInRun(names, runs, h, n, i);
        }
        assert false;
      }
    }

    /** sqlite3HashFind */
    method Find(key: seq<Byte>) returns (data: Data)
      requires Valid()
      ensures data == if Fold(key) in entries then entries[Fold(key)] else 0
    {
      var elem, h;
      ghost var q;
      elem, h, q := FindElement(key);
      if elem == null {
        return 0;
      }
      Node(list, names, vals, q);
      assert SaysAt(names, vals, entries, q);
      data := elem.data;
    }

    // -- Resizing --

    /** An empty table of size buckets. */
    method NewTable(size: nat)
      requires size > 0
      modifies `first, `list, `names, `vals, `runs, `ht, `htsize
      ensures Table() && list == [] && names == [] && vals == [] && ht != null && fresh(ht) && |runs| == size
    {
      ht := new Bucket[size](_ => Bucket(0, null));
      htsize := size;
      first, list, names, vals := null, [], [], [];
      runs := seq(size, _ => Run(0, 0));
      forall h | 0 <= h < |runs|
        ensures BucketAt(ht, runs, list, h)
      {
      }
    }

    /** The loop of rehash: insert the elements of the old list one by one. */
    method Reinsert(start: HashElem?, ghost list0: seq<HashElem>, ghost names0: seq<Name>, ghost vals0: seq<Data>)
      requires Table() && list == [] && names == [] && vals == [] && ht != null
      requires Nodes(list0, names0, vals0) && NoTwice(names0) && Says(names0, vals0, entries) && start == At(list0, 0)
      modifies `first, `list, `names, `vals, `runs, ht, list0
      ensures Table() && Says(names, vals, entries)
      ensures |list| == |list0| && forall k :: 0 <= k < |list| ==> list[k] in list0
    {
      var elem := start;
      ghost var i: nat, m: map<Name, Data> := 0, map[];
      forall k | 0 <= k < |list0|
        ensures PendingAt(list0, names0, vals0, k)
      {
        Node(list0, names0, vals0, k);
      }
      while elem != null
        invariant i <= |list0| && elem == At(list0, i)
        invariant Table() && ht != null && ht == old(ht) && htsize == old(htsize)
        invariant |list| == i && Placed(list, list0, i) && Says(names, vals, m)
        invariant forall k :: i <= k < |list0| ==> PendingAt(list0, names0, vals0, k)
        invariant Partly(m, entries, names0, i)
        decreases |list0| - i
      {
        assert PendingAt(list0, names0, vals0, i);
        NotYet(m, entries, names, vals, names0, vals0, i);
        PlacedIn(list, list0, i);
        assert elem in list0;
        var nextElem := elem.next;
        ReinsertOne(elem, list0, names0, vals0, i, m);
        m := m[names0[i] := vals0[i]];
        elem, i := nextElem, i + 1;
      }
      assert m == entries;
      PlacedIn(list, list0, i);
    }

    method ReinsertOne(elem: HashElem, ghost list0: seq<HashElem>, ghost names0: seq<Name>, ghost vals0: seq<Data>,
                       ghost i: nat, ghost m: map<Name, Data>)
      requires Table() && ht != null && i < |list0| && elem == list0[i] && |list| == i
      requires NoTwice(list0) && Placed(list, list0, i) && Says(names, vals, m)
      requires forall k :: i <= k < |list0| ==> PendingAt(list0, names0, vals0, k)
      requires PendingAt(list0, names0, vals0, i) && names0[i] !in names
      modifies `first, `list, `names, `vals, `runs, ht, elem, list
      ensures Table() && |list| == i + 1 && Placed(list, list0, i + 1)
      ensures Says(names, vals, m[names0[i] := vals0[i]])
      ensures forall k :: i + 1 <= k < |list0| ==> PendingAt(list0, names0, vals0, k)
    {
      StillApart(list, list0, i, i);
      var h := StrHash(elem.key);
      h := h % htsize;
      ghost var before, names1, vals1, p := list, names, vals, PutPlace(runs, h);
      InsertElement(h, elem);
      SaysPut(names1, vals1, m, p, names0[i], vals0[i]);
      PlacedMore(before, list0, i, p);
      forall k | i + 1 <= k < |list0|
        ensures PendingAt(list0, names0, vals0, k)
      {
        assert old(PendingAt(list0, names0, vals0, k));
        StillApart(before, list0, i, k);
      }
    }

    /** The size rehash goes for: at most the soft limit, if there is one. */
    function Capped(wanted: nat): nat
      reads this
    {
      if softLimit > 0 && wanted > softLimit then softLimit else wanted
    }

    /** rehash; slack counts the buckets sqlite3MallocSize finds beyond the wanted ones. */
    method Rehash(wanted: nat, memory: bool, slack: nat) returns (done: bool)
      requires Table() && Says(names, vals, entries) && wanted > 0
      modifies `first, `list, `names, `vals, `runs, `ht, `htsize, list
      ensures Table() && Says(names, vals, entries)
      ensures |list| == |old(list)| && forall k :: 0 <= k < |list| ==> list[k] in old(list)
      ensures done <==> memory && (softLimit > 0 ==> Capped(wanted) != old(htsize))
      ensures done ==> ht != null && fresh(ht) && htsize == Capped(wanted) + slack
      ensures !done ==> ht == old(ht) && runs == old(runs) && list == old(list)
    {
      var size := Capped(wanted);
      if softLimit > 0 && size == htsize {
        return false;
      }
      if !memory {
        return false;
      }
      ghost var list0, names0, vals0 := list, names, vals;
      var start := first;
      NewTable(size + slack);
      Reinsert(start, list0, names0, vals0);
      return true;
    }

    // -- The interface --

    /** sqlite3HashInsert; memElem and memTable say whether the two allocations succeed. */
    method Insert(key: seq<Byte>, data: Data, memElem: bool, memTable: bool, slack: nat) returns (result: Data)
      requires Valid()
      modifies this, ht, list
      ensures Valid() && Own()
      ensures var name, was := Fold(key), old(entries);
              if name in was then
                && result == was[name]
                && entries == if data == 0 then was - {name} else was[name := data]
              else if data == 0 then result == 0 && entries == was
              else if !memElem then result == data && entries == was
              else
              && result == 0 && entries == was[name := data]
              && (memTable && softLimit == 0 ==> count < 10 || count <= 2 * htsize)
    {
      var elem, h;
      ghost var q;
      elem, h, q := FindElement(key);
      if elem != null {
        Node(list, names, vals, q);
        assert SaysAt(names, vals, entries, q);
        result := elem.data;
        if data == 0 {
          RemoveElement(elem, h, q);
        } else {
          Replace(elem, q, key, data);
        }
        return;
      }
      assert Fold(key) !in entries;
      if data == 0 {
        return 0;
      }
      if !memElem {
        return data;
      }
      InsertNew(key, data, h, memTable, slack);
      return 0;
    }

    /** Give the element at q new data, and the key it was found by. */
    method Replace(elem: HashElem, ghost q: nat, key: seq<Byte>, data: Data)
      requires Valid() && q < |list| && list[q] == elem && names[q] == Fold(key) && data != 0
      modifies `vals, `entries, elem
      ensures Valid() && entries == old(entries)[Fold(key) := data]
    {
      SaysSet(names, vals, entries, q, data);
      elem.data := data;
      elem.key := key;
      vals := vals[q := data];
      entries := entries[Fold(key) := data];
      forall i | 0 <= i < |list|
        ensures NodeAt(list, names, vals, i)
      {
        assert old(NodeAt(list, names, vals, i));
        if i != q {
          Apart(list, i, q);
        }
      }
    }

    /** The last part of sqlite3HashInsert: the table may grow, and a new element comes in. */
    method InsertNew(key: seq<Byte>, data: Data, h0: nat, memTable: bool, slack: nat)
      requires Valid() && Fold(key) !in names && data != 0
      requires ht != null ==> h0 < |runs| && HashOf(Fold(key)) % |runs| == h0
      modifies this, ht, list
      ensures Valid() && Own() && entries == old(entries)[Fold(key) := data]
      ensures memTable && softLimit == 0 ==> count < 10 || count <= 2 * htsize
    {
      var elem := new HashElem(key, data);
      assert Fold(key) !in entries;
      count := count + 1;
      var h := MakeRoom(key, h0, memTable, slack);
      AddElement(h, elem);
    }

    /** The table grows if there are too many elements for it; h is the bucket of the key then. */
    method MakeRoom(key: seq<Byte>, h0: nat, memTable: bool, slack: nat) returns (h: nat)
      requires Table() && Says(names, vals, entries) && count == |list| + 1
      requires ht != null ==> h0 < |runs| && HashOf(Fold(key)) % |runs| == h0
      modifies `first, `list, `names, `vals, `runs, `ht, `htsize, list
      ensures Table() && Says(names, vals, entries) && count == |list| + 1
      ensures ht != null ==> h < |runs| && HashOf(Fold(key)) % |runs| == h
      ensures (ht == old(ht) || fresh(ht)) && forall k :: 0 <= k < |list| ==> list[k] in old(list)
      ensures memTable && softLimit == 0 ==> count < 10 || count <= 2 * htsize
    {
      h := h0;
      if count >= 10 && count > 2 * htsize {
        var done := Rehash(count * 2, memTable, slack);
        if done {
          h := StrHash(key);
          h := h % htsize;
        }
      }
    }

    /** Link the new element in; it is already counted. */
    method AddElement(h: nat, elem: HashElem)
      requires Table() && Says(names, vals, entries) && count == |list| + 1
      requires forall n :: n in entries ==> entries[n] != 0
      requires elem !in list && Fold(elem.key) !in entries && elem.data != 0
      requires ht != null ==> h < |runs| && HashOf(Fold(elem.key)) % |runs| == h
      modifies `first, `list, `names, `vals, `runs, `entries, ht, elem, list
      ensures Valid() && entries == old(entries[Fold(elem.key) := elem.data])
      ensures forall k :: 0 <= k < |list| ==> list[k] in old(list) || list[k] == elem
    {
      ghost var before, p := list, PutPlace(runs, h);
      NotNamed(names, vals, entries, Fold(elem.key));
      PutPlaceIn(names, runs, h);
      SaysPut(names, vals, entries, PutPlace(runs, h), Fold(elem.key), elem.data);
      InsertElement(h, elem);
      entries := entries[Fold(elem.key) := elem.data];
      forall k | 0 <= k < |list|
        ensures list[k] in before || list[k] == elem
      {
        PutAt(before, p, elem, k);
      }
    }
  }

  lemma Once<T>(s: seq<T>, i: nat, j: nat)
    requires NoTwice(s) && i < |s| && j < |s| && s[i] == s[j]
    ensures i == j
  {
    assert i < j ==> Unequal(s, i, j);
    assert j < i ==> Unequal(s, j, i);
  }

  /** An element of the old list that rehash has not come to. */
  ghost predicate PendingAt(list: seq<HashElem>, names: seq<Name>, vals: seq<Data>, k: int)
    reads if 0 <= k < |list| then {list[k]} else {}
  {
    && 0 <= k < |list| && k < |names| && k < |vals|
    && list[k].next == At(list, k + 1) && Fold(list[k].key) == names[k] && list[k].data == vals[k]
  }

  /** The elements of list are the first i of list0 in some order. */
  ghost predicate Placed(list: seq<HashElem>, list0: seq<HashElem>, i: nat) {
    i <= |list0| && forall k :: 0 <= k < |list| ==> list[k] in list0[..i]
  }

  lemma StillApart(list: seq<HashElem>, list0: seq<HashElem>, i: nat, k: nat)
    requires NoTwice(list0) && Placed(list, list0, i) && i <= k < |list0|
    ensures list0[k] !in list && (k != i ==> list0[k] != list0[i])
  {
    if list0[k] in list {
      var l :| 0 <= l < i && list0[..i][l] == list0[k];
      Once(list0, l, k);
    }
    assert k != i ==> Unequal(list0, i, k);
  }

  lemma PlacedMore(list: seq<HashElem>, list0: seq<HashElem>, i: nat, p: nat)
    requires Placed(list, list0, i) && i < |list0| && p <= |list|
    ensures Placed(Put(list, p, list0[i]), list0, i + 1)
  {
    assert list0[..i + 1] == list0[..i] + [list0[i]];
    forall k | 0 <= k <= |list|
      ensures Put(list, p, list0[i])[k] in list0[..i + 1]
    {
      PutAt(list, p, list0[i], k);
    }
  }

  lemma PlacedIn(list: seq<HashElem>, list0: seq<HashElem>, i: nat)
    requires Placed(list, list0, i)
    ensures forall k :: 0 <= k < |list| ==> list[k] in list0
  {
    forall k | 0 <= k < |list|
      ensures list[k] in list0
    {
      var l :| 0 <= l < i && list0[..i][l] == list[k];
      assert list0[l] == list[k];
    }
  }

  /** m is the part of entries for the first i names. */
  ghost predicate Partly(m: map<Name, Data>, entries: map<Name, Data>, names: seq<Name>, i: nat) {
    && i <= |names|
    && (forall n :: n in m ==> n in entries && m[n] == entries[n])
    && (forall n :: n in m <==> n in names[..i])
  }

  lemma NotYet(m: map<Name, Data>, entries: map<Name, Data>, names: seq<Name>, vals: seq<Data>, names0: seq<Name>, vals0: seq<Data>, i: nat)
    requires Partly(m, entries, names0, i) && Says(names, vals, m) && Says(names0, vals0, entries)
    requires NoTwice(names0) && i < |names0|
    ensures names0[i] !in names && Partly(m[names0[i] := vals0[i]], entries, names0, i + 1)
  {
    var n := names0[i];
    if n in names {
      var k :| 0 <= k < |names| && names[k] == n;
      assert SaysAt(names, vals, m, k);
      var l :| 0 <= l < i && names0[..i][l] == n;
      Once(names0, l, i);
    }
    assert SaysAt(names0, vals0, entries, i);
    assert names0[..i + 1] == names0[..i] + [n];
  }

  // ---- Whole runs ----------------------------------------------------------

  /** A call; memElem and memTable say whether its allocations succeed. */
  datatype Call =
    | Set(key: seq<Byte>, data: Data, memElem: bool, memTable: bool, slack: nat)
    | Get(key: seq<Byte>)
    | Reset

  /** The map after a call: data 0 deletes, and without memory for an element nothing is added. */
  function Done(m: map<Name, Data>, call: Call): map<Name, Data> {
    match call
    case Set(key, data, memElem, _, _) =>
      if data == 0 then m - {Fold(key)}
      else if Fold(key) in m || memElem then m[Fold(key) := data]
      else m
    case Get(_) => m
    case Reset => map[]
  }

  /** What a call returns: the data so far, or for an element that could not be added the new data. */
  function Result(m: map<Name, Data>, call: Call): Data {
    if call.Reset? then 0
    else if Fold(call.key) in m then m[Fold(call.key)]
    else if call.Set? && call.data != 0 && !call.memElem then call.data
    else 0
  }

  function After(calls: seq<Call>): map<Name, Data> {
    if calls == [] then map[] else Done(After(calls[..|calls| - 1]), calls[|calls| - 1])
  }

  function Results(calls: seq<Call>): seq<Data> {
    if calls == [] then []
    else Results(calls[..|calls| - 1]) + [Result(After(calls[..|calls| - 1]), calls[|calls| - 1])]
  }

  method Perform(h: Hash, call: Call) returns (result: Data)
    requires h.Valid()
    modifies h, h.ht, h.list
    ensures h.Valid() && h.Own() && h.entries == Done(old(h.entries), call) && result == Result(old(h.entries), call)
  {
    match call {
      case Set(key, data, memElem, memTable, slack) =>
        result := h.Insert(key, data, memElem, memTable, slack);
      case Get(key) =>
        result := h.Find(key);
      case Reset =>
        h.Clear();
        result := 0;
    }
  }

  /** Any run of inserts, replacements, deletes, lookups and resets on a fresh table, with whatever
      allocations fail, is the run on the map. */
  method Run(calls: seq<Call>, softLimit: nat) returns (h: Hash, results: seq<Data>)
    ensures fresh(h) && h.Valid() && h.entries == After(calls) && results == Results(calls)
  {
    h := new Hash(softLimit);
    results := [];
    var i := 0;
    while i < |calls|
      invariant i <= |calls| && fresh(h) && h.Valid() && (h.ht != null ==> fresh(h.ht))
      invariant forall k :: 0 <= k < |h.list| ==> fresh(h.list[k])
      invariant h.entries == After(calls[..i]) && results == Results(calls[..i])
    {
      assert calls[..i + 1][..i] == calls[..i];
      var result := Perform(h, calls[i]);
      results := results + [result];
      i := i + 1;
    }
    assert calls[..i] == calls;
  }
}
