/** The operations of net/libevent/include/ht-internal.h on a table and the
    set of elements it holds. */
module HtHash {
  import opened HtTable
  import opened Sequences
  import opened HtGrow

  class HashTable {
    const hashfn: nat -> nat
    const loadNum: nat    // the load factor is loadNum / loadDen
    const loadDen: nat
    var table: array?<Elem?>
    var length: nat
    var nEntries: nat
    var loadLimit: nat
    var primeIdx: int
    ghost var chains: seq<seq<Elem>>
    ghost var tag: int
    ghost var elems: set<Elem>

    function Load(len: nat): nat
      requires loadDen > 0
    {
      loadNum * len / loadDen
    }

    /** More entries than this no prime is enough for. */
    function Most(): nat
      requires loadDen > 0
    {
      Load(PRIMES[N_PRIMES - 1])
    }

    /** The load factor gives every table size a different, positive limit. */
    ghost predicate LoadOk() {
      && loadDen > 0 && Load(PRIMES[0]) > 0
    }

    /** The sizes of a table with buckets. */
    ghost predicate Sized()
      reads this
    {
      && LoadOk() && table != null && length == table.Length > 0
      && 0 <= primeIdx < N_PRIMES && length == PRIMES[primeIdx] && loadLimit == Load(length)
    }

    ghost predicate Valid()
      reads this, table, All(chains), elems
    {
      && LoadOk() && tag >= 0
      && Covers(elems, chains, tag) && Within(chains, elems) && (forall x :: x in elems ==> Hashed(hashfn, x))
      && nEntries == |elems|
      && (if table == null then chains == [] && length == 0 && loadLimit == 0 && primeIdx == -1
          else Sized() && TableOk(table, chains, tag) && AllSit(hashfn, chains))
    }

    /** HT_INIT */
    constructor (hashfn: nat -> nat, loadNum: nat, loadDen: nat)
      requires loadDen > 0 && loadNum * 53 / loadDen > 0
      ensures Valid() && elems == {} && table == null && primeIdx == -1
      ensures this.hashfn == hashfn && this.loadNum == loadNum && this.loadDen == loadDen
    {
      this.hashfn, this.loadNum, this.loadDen := hashfn, loadNum, loadDen;
      table, length, nEntries, loadLimit, primeIdx := null, 0, 0, 0, -1;
      chains, tag, elems := [], 0, {};
    }

    // -- Growing --

    lemma LoadMonotone(a: nat, b: nat)
      requires loadDen > 0 && a <= b
      ensures Load(a) <= Load(b)
    {
      assert loadNum * a <= loadNum * b;
      QuotientMonotone(loadNum * a, loadNum * b, loadDen);
    }

    /** HT_GROW can handle a size: it is at the last prime and never looks for one, or some prime is enough. */
    predicate CanGrow(size: nat)
      reads this
      requires LoadOk()
    {
      primeIdx == N_PRIMES - 1 || size < Most()
    }

    /** A prime with a limit above the size is left exactly if the last one has such a limit. */
    lemma NoPrimeIsEnough(size: nat)
      requires LoadOk() && -1 <= primeIdx < N_PRIMES - 1
      ensures CanGrow(size) <==> exists i :: primeIdx < i < N_PRIMES && Load(PRIMES[i]) > size
    {
      forall i | 0 <= i < N_PRIMES
        ensures Load(PRIMES[i]) <= Load(PRIMES[N_PRIMES - 1])
      {
        if i < N_PRIMES - 1 {
          PrimesGrow(i, N_PRIMES - 1);
        }
        LoadMonotone(PRIMES[i], PRIMES[N_PRIMES - 1]);
      }
    }

    /** The loop of HT_GROW that picks the new size.  Its test prime_idx < N_PRIMES is made
        after the read, so it reads behind the table exactly when no prime is enough. */
    method PickSize(size: nat) returns (idx: nat, newLen: nat, newLimit: nat, overrun: bool)
      requires LoadOk() && -1 <= primeIdx < N_PRIMES - 1
      ensures overrun <==> !CanGrow(size)
      ensures !overrun ==> primeIdx < idx < N_PRIMES && newLen == PRIMES[idx] && newLimit == Load(newLen) > size
      ensures !overrun ==> forall i :: primeIdx < i < idx ==> Load(PRIMES[i]) <= size
    {
      idx := primeIdx + 1;
      newLen := PRIMES[idx];
      newLimit := Load(newLen);
      overrun := false;
      NoPrimeIsEnough(size);
      while newLimit <= size && idx < N_PRIMES
        invariant primeIdx < idx < N_PRIMES && newLen == PRIMES[idx] && newLimit == Load(newLen)
        invariant forall i :: primeIdx < i < idx ==> Load(PRIMES[i]) <= size
        decreases N_PRIMES - idx
      {
        idx := idx + 1;
        if idx == N_PRIMES {
          overrun := true;   // the next read is behind the table
          return;
        }
        newLen := PRIMES[idx];
        newLimit := Load(newLen);
      }
    }

    lemma ReadyToMove()
      requires Valid()
      ensures if table == null then chains == [] else Heads(table, chains)
      ensures forall b :: 0 <= b < |chains| ==> UntouchedAt(chains, tag, b)
    {
      forall b | 0 <= b < |chains|
        ensures UntouchedAt(chains, tag, b) && table != null && table[b] == At(chains[b], 0)
      {
        assert BucketAt(table, chains, tag, b);
      }
    }

    /** The sweep of the reallocated table. */
    method GrowInPlace(newLen: nat) returns (newTable: array<Elem?>, ghost cs: seq<seq<Elem>>)
      requires Valid() && newLen > length
      modifies elems`next, elems`home
      ensures fresh(newTable) && newTable.Length == newLen && Stores(hashfn, newTable, cs, tag, elems)
    {
      newTable, cs := Realloc(newLen);
      ghost var oldLen := length;
      var b := 0;
      while b < length
        invariant b <= length && newTable.Length == newLen && fresh(newTable)
        invariant TableOk(newTable, cs, tag) && Covers(elems, cs, tag) && Within(cs, elems)
        invariant Swept(hashfn, cs, length, b, 0) && forall x :: x in elems ==> Hashed(hashfn, x)
      {
        cs := SweepBucket(hashfn, newTable, cs, tag, length, b, elems);
        b := b + 1;
      }
      forall i | 0 <= i < |cs|
        ensures Sits(hashfn, cs[i], |cs|, i)
      {
      }
    }

    /** realloc, and memset of the new part. */
    method Realloc(newLen: nat) returns (newTable: array<Elem?>, ghost cs: seq<seq<Elem>>)
      requires Valid() && newLen > length
      ensures fresh(newTable) && newTable.Length == newLen && TableOk(newTable, cs, tag)
      ensures Within(cs, elems) && Covers(elems, cs, tag) && Swept(hashfn, cs, length, 0, 0)
    {
      newTable := new Elem?[newLen];
      forall i | 0 <= i < newLen {
        newTable[i] := if i < length then table[i] else null;
      }
      cs := chains + seq(newLen - length, _ => []);
      forall b | 0 <= b < |cs|
        ensures BucketAt(newTable, cs, tag, b)
      {
        assert b < length ==> BucketAt(table, chains, tag, b);
      }
      forall x | x in elems
        ensures Housed(x, cs, tag)
      {
        assert Housed(x, chains, tag);
      }
    }

    /** HT_GROW; memMalloc and memRealloc say which allocation succeeds. */
    method Grow(size: nat, memMalloc: bool, memRealloc: bool) returns (result: int)
      requires Valid() && CanGrow(size)
      modifies this, elems`next, elems`home
      ensures Valid() && elems == old(elems)
      ensures result == if old(primeIdx == N_PRIMES - 1 || loadLimit > size) || memMalloc || memRealloc then 0 else -1
      ensures result == 0 ==> table != null && (loadLimit > size || primeIdx == N_PRIMES - 1)
      ensures table == old(table) || fresh(table)
    {
      if primeIdx == N_PRIMES - 1 || loadLimit > size {
        return 0;
      }
      var idx, newLen, newLimit, overrun := PickSize(size);
      PrimesGrow(primeIdx, idx);
      if memMalloc {
        GrowByCopy(idx, newLen, newLimit);
      } else {
        if !memRealloc {
          return -1;
        }
        GrowByRealloc(idx, newLen, newLimit);
      }
      return 0;
    }

    /** The first path of HT_GROW: into a table of its own. */
    method GrowByCopy(idx: nat, newLen: nat, newLimit: nat)
      requires Valid() && idx < N_PRIMES && newLen == PRIMES[idx] > 0 && newLimit == Load(newLen)
      modifies `table, `length, `loadLimit, `primeIdx, `chains, `tag, elems`next, elems`home
      ensures Valid() && fresh(table) && loadLimit == newLimit && primeIdx == idx
    {
      var newTable := NullTable(newLen);
      ReadyToMove();
      ghost var t, es := tag + |chains|, elems;
      ghost var cs := RefillAll(hashfn, table, newTable, chains, tag, t, es);
      SetTable(newTable, newLen, newLimit, idx, cs, t, es);
    }

    /** The second path: within the reallocated table. */
    method GrowByRealloc(idx: nat, newLen: nat, newLimit: nat)
      requires Valid() && idx < N_PRIMES && newLen == PRIMES[idx] > length && newLimit == Load(newLen)
      modifies `table, `length, `loadLimit, `primeIdx, `chains, `tag, elems`next, elems`home
      ensures Valid() && fresh(table) && loadLimit == newLimit && primeIdx == idx
    {
      var newTable;
      ghost var cs;
      newTable, cs := GrowInPlace(newLen);
      SetTable(newTable, newLen, newLimit, idx, cs, tag, elems);
    }

    method SetTable(newTable: array<Elem?>, newLen: nat, newLimit: nat, idx: nat, ghost cs: seq<seq<Elem>>, ghost t: int, ghost es: set<Elem>)
      requires LoadOk() && nEntries == |elems| && es == elems && Stores(hashfn, newTable, cs, t, es) && newTable.Length == newLen > 0
      requires idx < N_PRIMES && newLen == PRIMES[idx] && newLimit == Load(newLen)
      modifies `table, `length, `loadLimit, `primeIdx, `chains, `tag
      ensures Valid() && table == newTable && loadLimit == newLimit && primeIdx == idx && elems == old(elems)
    {
      table, length, loadLimit, primeIdx, chains, tag := newTable, newLen, newLimit, idx, cs, t;
      assert TableOk(table, chains, tag) && Covers(elems, chains, tag);
      forall x | x in elems
        ensures Hashed(hashfn, x)
      {
        assert old(Hashed(hashfn, x));
      }
    }

    // -- Inserting, finding, removing --

    /** HT_INSERT */
    method Insert(elm: Elem, memMalloc: bool, memRealloc: bool)
      requires Valid() && elm !in elems && elm.home == -1
      requires table == null || nEntries >= loadLimit ==> CanGrow(nEntries + 1)
      requires table == null ==> memMalloc || memRealloc
      modifies this, table, elems`next, elems`home, elm
      ensures Valid() && elems == old(elems) + {elm}
      ensures table != null && (table == old(table) || fresh(table))
      ensures (memMalloc || memRealloc) && primeIdx < N_PRIMES - 1 ==> nEntries <= loadLimit
    {
      if table == null || nEntries >= loadLimit {
        var result := Grow(nEntries + 1, memMalloc, memRealloc);
      }
      AddToChain(elm);
    }

    /** Count n elements es in the chains cs. */
    method SetElems(n: nat, ghost cs: seq<seq<Elem>>, ghost es: set<Elem>)
      requires Sized() && TableOk(table, cs, tag) && AllSit(hashfn, cs) && n == |es|
      requires Within(cs, es) && Covers(es, cs, tag) && forall x :: x in es ==> Hashed(hashfn, x)
      modifies `nEntries, `chains, `elems
      ensures Valid() && nEntries == n && elems == es
    {
      nEntries, chains, elems := n, cs, es;
    }

    /** The last part of HT_INSERT. */
    method AddToChain(elm: Elem)
      requires Valid() && table != null && elm !in elems && elm.home == -1
      modifies `nEntries, `chains, `elems, table, elm
      ensures Valid() && elems == old(elems) + {elm} && nEntries == old(nEntries) + 1
    {
      elm.hash := hashfn(elm.key);
      ghost var es := elems + {elm};
      ghost var cs := PutIn(elm.hash % length, elm);
      SetElems(nEntries + 1, cs, es);
    }

    method PutIn(b: nat, elm: Elem) returns (ghost cs: seq<seq<Elem>>)
      requires Sized() && TableOk(table, chains, tag) && AllSit(hashfn, chains) && Within(chains, elems) && Covers(elems, chains, tag)
      requires forall x :: x in elems ==> Hashed(hashfn, x)
      requires elm !in elems && elm.home == -1 && b == elm.hash % length && elm.hash == hashfn(elm.key)
      modifies table, elm`next, elm`home
      ensures TableOk(table, cs, tag) && AllSit(hashfn, cs) && Within(cs, elems + {elm}) && Covers(elems + {elm}, cs, tag)
      ensures forall x :: x in elems + {elm} ==> Hashed(hashfn, x)
    {
      ghost var es := elems + {elm};
      PushedSits(hashfn, chains, b, elm, es);
      cs := PushFront(table, chains, tag, b, elm);
      forall x | x in es
        ensures Housed(x, cs, tag) && Hashed(hashfn, x)
      {
        if x != elm {
          assert old(Housed(x, chains, tag)) && old(Hashed(hashfn, x));
        }
      }
    }

    /** HT_FIND_P: the link at place k of bucket b, which leads to an element with the key, or to the end. */
    method FindP(key: nat) returns (b: nat, prev: Elem?, e: Elem?, ghost k: nat)
      requires Valid() && table != null
      ensures b < |chains| && k <= |chains[b]| && e == At(chains[b], k) && prev == At(chains[b], k - 1)
      ensures e != null ==> e in elems && e.key == key
      ensures e == null ==> forall x :: x in elems ==> x.key != key
    {
      b := hashfn(key) % length;
      k := 0;
      assert BucketAt(table, chains, tag, b);
      prev, e := null, table[b];
      while e != null && e.key != key
        invariant k <= |chains[b]| && e == At(chains[b], k) && prev == At(chains[b], k - 1)
        invariant forall l :: 0 <= l < k ==> chains[b][l].key != key
        decreases |chains[b]| - k
      {
        assert LinkAt(chains[b], tag + b, k);
        prev, e, k := e, e.next, k + 1;
      }
      if e == null {
        forall x | x in elems
          ensures x.key != key
        {
          InItsBucket(x);
        }
      }
    }

    /** Every element is in the bucket its key hashes to. */
    lemma InItsBucket(x: Elem)
      requires Valid() && table != null && x in elems
      ensures x in chains[hashfn(x.key) % length]
    {
      assert Housed(x, chains, tag);
      var b := x.home - tag;
      var k :| 0 <= k < |chains[b]| && chains[b][k] == x;
      assert Sits(hashfn, chains[b], |chains|, b) && SitsAt(hashfn, chains[b], |chains|, b, k);
    }

    /** HT_FIND */
    method Find(key: nat) returns (e: Elem?)
      requires Valid()
      ensures e != null ==> e in elems && e.key == key
      ensures e == null ==> forall x :: x in elems ==> x.key != key
    {
      if table == null {
        assert forall x :: x in elems ==> Housed(x, chains, tag);
        return null;
      }
      var b, prev;
      ghost var k;
      b, prev, e, k := FindP(key);
    }

    /** HT_REMOVE */
    method Remove(key: nat) returns (r: Elem?)
      requires Valid()
      modifies `nEntries, `chains, `elems, table, elems`next, elems`home
      ensures Valid()
      ensures r == null ==> elems == old(elems) && forall x :: x in elems ==> x.key != key
      ensures r != null ==> r in old(elems) && r.key == key && elems == old(elems) - {r} && r.next == null && r.home == -1
    {
      if table == null {
        assert forall x :: x in elems ==> Housed(x, chains, tag);
        return null;
      }
      var b, prev;
      ghost var k;
      b, prev, r, k := FindP(key);
      if r != null {
        Unlink(b, prev, r, k);
      }
    }

    /** Take the element r at place k of bucket b out. */
    method Unlink(b: nat, prev: Elem?, r: Elem, ghost k: nat)
      requires Valid() && table != null && b < |chains| && k < |chains[b]| && r == chains[b][k] && prev == At(chains[b], k - 1)
      modifies `nEntries, `chains, `elems, table, elems`next, elems`home
      ensures Valid() && elems == old(elems) - {r} && r.next == null && r.home == -1
    {
      assert r in elems && (prev != null ==> prev == chains[b][k - 1] && prev in elems);
      CutSits(hashfn, chains, b, k);
      WithoutTwin(table, chains, tag, b, k, elems);
      ghost var es := elems - {r};
      ghost var cs := TakeOut(table, chains, tag, b, prev, r, k);
      forall x | x in es
        ensures Housed(x, cs, tag) && Hashed(hashfn, x)
      {
        assert old(Housed(x, chains, tag)) && old(Hashed(hashfn, x));
        if x in chains[b] {
          CutKeeps(chains[b], k, x);
        }
      }
      SetElems(nEntries - 1, cs, es);
    }

    // -- Walking over all elements --

    /** The loop that HT_START and HT_NEXT share: the first chain from b on that is not empty. */
    method FirstFrom(from: nat) returns (b: nat, e: Elem?)
      requires Valid() && table != null && from <= length
      ensures from <= b <= length && forall i :: from <= i < b ==> chains[i] == []
      ensures if b < length then e != null && e == At(chains[b], 0) && chains[b] != [] else e == null
    {
      b := from;
      while b < length
        invariant from <= b <= length
        invariant forall i :: from <= i < b ==> chains[i] == []
      {
        assert BucketAt(table, chains, tag, b);
        if table[b] != null {
          e := table[b];
          return;
        }
        b := b + 1;
      }
      e := null;
    }

    /** HT_NEXT for the element e at place k of bucket b */
    method Next(e: Elem, ghost b: nat, ghost k: nat) returns (e': Elem?, ghost b': nat, ghost k': nat)
      requires Valid() && table != null && b < |chains| && k < |chains[b]| && e == chains[b][k]
      ensures if e' == null then Join(chains) == Join(chains[..b]) + chains[b][..k + 1]
              else
                && b' < |chains| && k' < |chains[b']| && e' == chains[b'][k']
                && Join(chains[..b']) + chains[b'][..k'] == Join(chains[..b]) + chains[b][..k + 1]
      ensures e' != null ==> b' > b || (b' == b && k' > k)
    {
      assert BucketAt(table, chains, tag, b) && LinkAt(chains[b], tag + b, k);
      assert Sits(hashfn, chains[b], |chains|, b) && SitsAt(hashfn, chains[b], |chains|, b, k);
      assert e in elems && Hashed(hashfn, e);
      if e.next != null {
        return e.next, b, k + 1;
      }
      var c;
      c, e' := FirstFrom(e.hash % length + 1);
      assert chains[b][..k + 1] == chains[b];
      JoinStep(chains, b);
      JoinGap(chains, b + 1, c);
      b', k' := c, 0;
      if e' == null {
        assert chains[..c] == chains;
      } else {
        assert chains[c][..0] == [];
      }
    }

    /** HT_FOREACH with a loop body that notes the element */
    method VisitAll() returns (out: seq<Elem>)
      requires Valid()
      ensures NoTwice(out) && |out| == nEntries
      ensures (set x | x in out) == elems
    {
      out := [];
      ghost var all := Join(chains);
      Members();
      if table == null {
        assert all == [];
        return;
      }
      var b0, e := FirstFrom(0);
      ghost var b: nat, k: nat := b0, 0;
      JoinGap(chains, 0, b);
      assert chains[..0] == [];
      if e == null {
        assert chains[..b] == chains;
      }
      while e != null
        modifies {}
        invariant if e == null then out == all
                  else b < |chains| && k < |chains[b]| && e == chains[b][k] && out == Join(chains[..b]) + chains[b][..k]
        decreases if e == null then 0 else 1, |chains| - b, if b < |chains| then |chains[b]| - k else 0
      {
        out := out + [e];
        NextOut(chains, b, k);
        e, b, k := Next(e, b, k);
      }
    }

    lemma Members()
      requires Valid()
      ensures NoTwice(Join(chains)) && |Join(chains)| == nEntries
      ensures (set x | x in Join(chains)) == elems
    {
      if table != null {
        JoinFacts(table, chains, tag, |chains|);
        assert chains[..|chains|] == chains;
      }
      forall x | x in elems
        ensures x in Join(chains)
      {
        assert Housed(x, chains, tag);
      }
      CountNoTwice(Join(chains), elems);
    }

    // -- The consistency check --

    /** What HT_REP_IS_BAD_ asks for, but for the links themselves. */
    ghost predicate RepOk()
      reads this, table, All(chains)
    {
      if length == 0 then table == null && nEntries == 0 && loadLimit == 0 && primeIdx == -1
      else
        && table != null && 0 <= primeIdx < N_PRIMES && 0 < loadLimit && nEntries <= loadLimit
        && length == PRIMES[primeIdx] && loadDen > 0 && loadLimit == Load(length)
        && nEntries == |Join(chains)|
        && forall b, k :: 0 <= b < |chains| && 0 <= k < |chains[b]| ==> Right(chains[b][k], b)
    }

    ghost predicate Right(e: Elem, b: int)
      reads this, e`hash
    {
      length > 0 && e.hash == hashfn(e.key) && e.hash % length == b
    }

    /** HT_REP_IS_BAD_ for a table whose chains are well linked */
    method RepIsBad() returns (r: int)
      requires loadDen > 0 && primeIdx < N_PRIMES
      requires if table == null then chains == [] else TableOk(table, chains, tag) && table.Length == length
      ensures r == 0 <==> RepOk()
    {
      if length == 0 {
        if table == null && nEntries == 0 && loadLimit == 0 && primeIdx == -1 {
          return 0;
        }
        return 1;
      }
      if table == null || primeIdx < 0 || loadLimit == 0 {
        return 2;
      }
      if nEntries > loadLimit {
        return 3;
      }
      if length != PRIMES[primeIdx] {
        return 4;
      }
      if loadLimit != Load(length) {
        return 5;
      }
      var n, i := 0, 0;
      assert Join(chains[..0]) == [];
      while i < length
        invariant i <= length && n == |Join(chains[..i])|
        invariant forall b, k :: 0 <= b < i && 0 <= k < |chains[b]| ==> Right(chains[b][k], b)
      {
        var m;
        m, r := CheckChain(i);
        if r != 0 {
          return;
        }
        JoinStep(chains, i);
        n, i := n + m, i + 1;
      }
      assert chains[..length] == chains;
      if n != nEntries {
        return 6;
      }
      return 0;
    }

    /** The inner loop of HT_REP_IS_BAD_ */
    method CheckChain(i: nat) returns (n: nat, r: int)
      requires table != null && TableOk(table, chains, tag) && i < table.Length == length
      ensures r == 0 ==> n == |chains[i]| && forall k :: 0 <= k < |chains[i]| ==> Right(chains[i][k], i)
      ensures r != 0 ==> exists k :: 0 <= k < |chains[i]| && !Right(chains[i][k], i)
    {
      n := 0;
      assert BucketAt(table, chains, tag, i);
      var elm := table[i];
      while elm != null
        invariant n <= |chains[i]| && elm == At(chains[i], n)
        invariant forall k :: 0 <= k < n ==> Right(chains[i][k], i)
        decreases |chains[i]| - n
      {
        assert LinkAt(chains[i], tag + i, n);
        assert Right(elm, i) <==> elm.hash == hashfn(elm.key) && elm.hash % length == i;
        if elm.hash != hashfn(elm.key) {
          return n, 1000 + i;
        }
        if elm.hash % length != i {
          return n, 10000 + i;
        }
        elm, n := elm.next, n + 1;
      }
      return n, 0;
    }

    /** A table in use passes the check as long as it is not over its limit. */
    lemma ValidIsOk()
      requires Valid() && (table != null ==> nEntries <= loadLimit && loadLimit > 0)
      ensures RepOk()
    {
      Members();
      if table == null {
        assert Join(chains) == [];
      } else {
        forall b, k | 0 <= b < |chains| && 0 <= k < |chains[b]|
          ensures Right(chains[b][k], b)
        {
          assert Sits(hashfn, chains[b], |chains|, b) && SitsAt(hashfn, chains[b], |chains|, b, k);
          assert chains[b][k] in elems;
        }
      }
    }
  }

  // ---- All elements in order -----------------------------------------------

  ghost function Join(cs: seq<seq<Elem>>): seq<Elem> {
    if cs == [] then [] else Join(cs[..|cs| - 1]) + cs[|cs| - 1]
  }

  lemma JoinStep(cs: seq<seq<Elem>>, b: nat)
    requires b < |cs|
    ensures Join(cs[..b + 1]) == Join(cs[..b]) + cs[b]
  {
    assert cs[..b + 1][..b] == cs[..b];
  }

  /** Empty chains add nothing. */
  lemma {:induction false} JoinGap(cs: seq<seq<Elem>>, b: nat, c: nat)
    requires b <= c <= |cs| && forall i :: b <= i < c ==> cs[i] == []
    ensures Join(cs[..c]) == Join(cs[..b])
  {
    if b < c {
      JoinGap(cs, b, c - 1);
      JoinStep(cs, c - 1);
    }
  }

  lemma NextOut(cs: seq<seq<Elem>>, b: nat, k: nat)
    requires b < |cs| && k < |cs[b]|
    ensures Join(cs[..b]) + cs[b][..k] + [cs[b][k]] == Join(cs[..b]) + cs[b][..k + 1]
  {
    assert cs[b][..k + 1] == cs[b][..k] + [cs[b][k]];
  }

  lemma {:induction false} JoinFacts(table: array<Elem?>, cs: seq<seq<Elem>>, tag: int, n: nat)
    requires TableOk(table, cs, tag) && n <= |cs|
    ensures NoTwice(Join(cs[..n]))
    ensures forall e :: e in Join(cs[..n]) ==> tag <= e.home < tag + n && e in cs[e.home - tag]
    ensures forall b :: 0 <= b < n ==> forall e :: e in cs[b] ==> e in Join(cs[..n])
  {
    if n > 0 {
      JoinFacts(table, cs, tag, n - 1);
      JoinStep(cs, n - 1);
      var s, c := Join(cs[..n - 1]), cs[n - 1];
      assert BucketAt(table, cs, tag, n - 1);
      forall e | e in c
        ensures e.home == tag + n - 1
      {
        var k :| 0 <= k < |c| && c[k] == e;
        assert LinkAt(c, tag + (n - 1), k);
      }
      NoTwiceConcat(s, c);
    }
  }

  lemma NoTwiceConcat(s: seq<Elem>, c: seq<Elem>)
    requires NoTwice(s) && NoTwice(c) && forall e :: e in s ==> e !in c
    ensures NoTwice(s + c)
  {
    forall i, j | 0 <= i < j < |s + c|
      ensures Unequal(s + c, i, j)
    {
      if j < |s| {
        assert Unequal(s, i, j);
      } else if i < |s| {
        assert s[i] in s && c[j - |s|] in c;
      } else {
        assert Unequal(c, i - |s|, j - |s|);
      }
    }
  }

  lemma {:induction false} CountNoTwice(s: seq<Elem>, es: set<Elem>)
    requires NoTwice(s) && forall x :: x in s <==> x in es
    ensures |s| == |es|
  {
    if s == [] {
      assert es == {};
    } else {
      var e, t := s[|s| - 1], s[..|s| - 1];
      forall i, j | 0 <= i < j < |t|
        ensures Unequal(t, i, j)
      {
        assert Unequal(s, i, j);
      }
      forall i | 0 <= i < |t|
        ensures t[i] != e
      {
        assert Unequal(s, i, |s| - 1);
      }
      CountNoTwice(t, es - {e});
    }
  }

  /** malloc and memset */
  method NullTable(n: nat) returns (table: array<Elem?>)
    ensures fresh(table) && table.Length == n && forall b :: 0 <= b < n ==> table[b] == null
  {
    table := new Elem?[n];
    forall b | 0 <= b < n {
      table[b] := null;
    }
  }

  lemma CutSits(hashfn: nat -> nat, cs: seq<seq<Elem>>, b: nat, k: nat)
    requires AllSit(hashfn, cs) && b < |cs| && k < |cs[b]|
    ensures AllSit(hashfn, cs[b := Cut(cs[b], k)])
  {
    var r := cs[b := Cut(cs[b], k)];
    forall i | 0 <= i < |r|
      ensures Sits(hashfn, r[i], |r|, i)
    {
      assert Sits(hashfn, cs[i], |cs|, i);
      var c := r[i];
      forall l | 0 <= l < |c|
        ensures SitsAt(hashfn, c, |r|, i, l)
      {
        AtCut(cs[b], k, l);
        assert SitsAt(hashfn, cs[i], |cs|, i, if i == b && l >= k then l + 1 else l);
      }
    }
  }

  /** Without its element k in bucket b the table does not hold that element. */
  lemma WithoutTwin(table: array<Elem?>, cs: seq<seq<Elem>>, tag: int, b: nat, k: nat, es: set<Elem>)
    requires TableOk(table, cs, tag) && Within(cs, es) && b < |cs| && k < |cs[b]|
    ensures Within(cs[b := Cut(cs[b], k)], es - {cs[b][k]})
  {
    var r := cs[b := Cut(cs[b], k)];
    assert BucketAt(table, cs, tag, b) && LinkAt(cs[b], tag + b, k);
    forall i, l | 0 <= i < |r| && 0 <= l < |r[i]|
      ensures r[i][l] in es - {cs[b][k]}
    {
      assert BucketAt(table, cs, tag, i);
      if i == b {
        AtCut(cs[b], k, l);
        Apart(cs[b], if l < k then l else l + 1, k);
      } else {
        assert LinkAt(cs[i], tag + i, l);
      }
    }
  }

  lemma QuotientMonotone(a: nat, b: nat, d: nat)
    requires d > 0 && a <= b
    ensures a / d <= b / d
  {
    if b / d < a / d {
      TimesMonotone(b / d + 1, a / d, d);
    }
  }

  lemma PrimeStep(i: nat)
    requires i + 1 < N_PRIMES
    ensures PRIMES[i] < PRIMES[i + 1]
  {
  }

  lemma {:induction false} PrimesGrow(i: int, j: nat)
    requires -1 <= i < j < N_PRIMES
    ensures i >= 0 ==> PRIMES[i] < PRIMES[j]
  {
    if 0 <= i < j - 1 {
      PrimesGrow(i, j - 1);
    }
    if i >= 0 {
      PrimeStep(j - 1);
    }
  }

  // ---- Whole runs ----------------------------------------------------------

  /** Calls of a user that looks for a key before it inserts it, as HT_INSERT asks for. */
  datatype Call =
    | Put(key: nat, memMalloc: bool, memRealloc: bool)
    | Drop(key: nat)
    | Look(key: nat)

  function Done(keys: set<nat>, call: Call): set<nat> {
    match call
    case Put(key, _, _) => keys + {key}
    case Drop(key) => keys - {key}
    case Look(_) => keys
  }

  function After(keys: set<nat>, calls: seq<Call>): set<nat> {
    if calls == [] then keys else Done(After(keys, calls[..|calls| - 1]), calls[|calls| - 1])
  }

  /** Whether the key of each call was there before it */
  function Results(keys: set<nat>, calls: seq<Call>): seq<bool> {
    if calls == [] then []
    else Results(keys, calls[..|calls| - 1]) + [calls[|calls| - 1].key in After(keys, calls[..|calls| - 1])]
  }

  lemma OneMore(keys: set<nat>, calls: seq<Call>, i: nat)
    requires i < |calls|
    ensures After(keys, calls[..i + 1]) == Done(After(keys, calls[..i]), calls[i])
    ensures Results(keys, calls[..i + 1]) == Results(keys, calls[..i]) + [calls[i].key in After(keys, calls[..i])]
  {
    assert calls[..i + 1][..i] == calls[..i];
  }

  predicate NoPuts(calls: seq<Call>) {
    forall j :: 0 <= j < |calls| ==> !calls[j].Put?
  }

  predicate HasMemory(call: Call) {
    call.Put? ==> call.memMalloc || call.memRealloc
  }

  /** The first insertion needs memory for a table. */
  predicate CanStart(calls: seq<Call>) {
    forall i :: 0 <= i < |calls| && NoPuts(calls[..i]) ==> HasMemory(calls[i])
  }

  ghost predicate KeyIn(es: set<Elem>, k: nat) {
    exists x :: x in es && x.key == k
  }

  ghost predicate OneKey(es: set<Elem>, x: Elem) {
    forall y :: y in es && y.key == x.key ==> y == x
  }

  /** One element for each of the keys, and no other */
  ghost predicate Holds(es: set<Elem>, keys: set<nat>) {
    && (forall x :: x in es ==> x.key in keys && OneKey(es, x))
    && (forall k :: k in keys ==> KeyIn(es, k))
  }

  lemma HoldsMore(es: set<Elem>, keys: set<nat>, e: Elem)
    requires Holds(es, keys) && e.key !in keys
    ensures Holds(es + {e}, keys + {e.key})
  {
    forall x | x in es + {e}
      ensures x.key in keys + {e.key} && OneKey(es + {e}, x)
    {
      assert x in es ==> OneKey(es, x);
    }
    forall k | k in keys + {e.key}
      ensures KeyIn(es + {e}, k)
    {
      assert k in keys ==> KeyIn(es, k);
      assert k == e.key ==> e in es + {e};
    }
  }

  lemma HoldsLess(es: set<Elem>, keys: set<nat>, e: Elem)
    requires Holds(es, keys) && e in es
    ensures Holds(es - {e}, keys - {e.key})
  {
    assert OneKey(es, e);
    forall x | x in es - {e}
      ensures x.key in keys - {e.key} && OneKey(es - {e}, x)
    {
      assert OneKey(es, x);
    }
    forall k | k in keys - {e.key}
      ensures KeyIn(es - {e}, k)
    {
      assert KeyIn(es, k);
    }
  }

  lemma {:induction false} HoldsAsMany(es: set<Elem>, keys: set<nat>)
    requires Holds(es, keys)
    ensures |es| == |keys|
    decreases es
  {
    if es == {} {
      assert forall k :: k in keys ==> KeyIn(es, k);
      assert keys == {};
    } else {
      var e :| e in es;
      HoldsLess(es, keys, e);
      HoldsAsMany(es - {e}, keys - {e.key});
    }
  }

  /** No insertion finds as many keys as the limit that goes with the last prime, or one less. */
  predicate Fits(most: nat, keys: set<nat>, calls: seq<Call>) {
    forall i :: 0 <= i < |calls| && calls[i].Put? ==> |After(keys, calls[..i])| + 1 < most
  }

  method Perform(h: HashTable, call: Call, ghost keys: set<nat>) returns (found: bool)
    requires h.Valid() && Holds(h.elems, keys) && (call.Put? ==> |keys| + 1 < h.Most())
    requires h.table == null ==> HasMemory(call)
    modifies h, h.table, h.elems`next, h.elems`home
    ensures h.Valid() && Holds(h.elems, Done(keys, call)) && found == (call.key in keys)
    ensures h.table == null || h.table == old(h.table) || fresh(h.table)
    ensures forall x :: x in h.elems ==> x in old(h.elems) || fresh(x)
    ensures call.Put? || old(h.table != null) ==> h.table != null
  {
    var e := h.Find(call.key);
    found := e != null;
    assert call.key in keys ==> KeyIn(h.elems, call.key);
    if call.Put? && !found {
      PerformPut(h, call.key, call.memMalloc, call.memRealloc, keys);
    } else if call.Drop? {
      PerformDrop(h, call.key, keys);
    } else {
      assert found ==> keys + {call.key} == keys && h.table != null;
    }
  }

  method PerformDrop(h: HashTable, key: nat, ghost keys: set<nat>)
    requires h.Valid() && Holds(h.elems, keys)
    modifies h, h.table, h.elems`next, h.elems`home
    ensures h.Valid() && Holds(h.elems, keys - {key}) && h.table == old(h.table) && h.elems <= old(h.elems)
  {
    var r := h.Remove(key);
    if r != null {
      HoldsLess(old(h.elems), keys, r);
    } else {
      assert key in keys ==> KeyIn(h.elems, key);
      assert keys - {key} == keys;
    }
  }

  method PerformPut(h: HashTable, key: nat, memMalloc: bool, memRealloc: bool, ghost keys: set<nat>)
    requires h.Valid() && Holds(h.elems, keys) && |keys| + 1 < h.Most() && key !in keys
    requires h.table == null ==> memMalloc || memRealloc
    modifies h, h.table, h.elems`next, h.elems`home
    ensures h.Valid() && Holds(h.elems, keys + {key}) && h.table != null
    ensures h.table == old(h.table) || fresh(h.table)
    ensures forall x :: x in h.elems ==> x in old(h.elems) || fresh(x)
  {
    HoldsAsMany(h.elems, keys);
    var elm := new Elem(key);
    h.Insert(elm, memMalloc, memRealloc);
    HoldsMore(old(h.elems), keys, elm);
  }

  /** The elements after i calls of a run, and whether there still is no table. */
  ghost predicate Reached(es: set<Elem>, noTable: bool, keys: set<nat>, calls: seq<Call>, i: nat) {
    i <= |calls| && Holds(es, After(keys, calls[..i])) && (noTable ==> CanStart(calls) && NoPuts(calls[..i]))
  }

  lemma ReachedStep(es: set<Elem>, noTable: bool, es': set<Elem>, noTable': bool, keys: set<nat>, calls: seq<Call>, i: nat)
    requires i < |calls| && Reached(es, noTable, keys, calls, i)
    requires Holds(es', Done(After(keys, calls[..i]), calls[i])) && (noTable' ==> noTable && !calls[i].Put?)
    ensures Reached(es', noTable', keys, calls, i + 1)
  {
    OneMore(keys, calls, i);
  }

  /** The next call of a run. */
  method PerformNext(h: HashTable, ghost keys: set<nat>, calls: seq<Call>, i: nat) returns (was: bool)
    requires h.Valid() && i < |calls| && Reached(h.elems, h.table == null, keys, calls, i) && Fits(h.Most(), keys, calls)
    modifies h, h.table, h.elems`next, h.elems`home
    ensures h.Valid() && Reached(h.elems, h.table == null, keys, calls, i + 1)
    ensures Results(keys, calls[..i + 1]) == Results(keys, calls[..i]) + [was]
    ensures h.table == null || h.table == old(h.table) || fresh(h.table)
    ensures forall x :: x in h.elems ==> x in old(h.elems) || fresh(x)
  {
    OneMore(keys, calls, i);
    ghost var es, noTable := h.elems, h.table == null;
    was := Perform(h, calls[i], After(keys, calls[..i]));
    ReachedStep(es, noTable, h.elems, h.table == null, keys, calls, i);
  }

  /** Any run of insertions, removals and lookups, whichever way the table grows, is the run on the
      set of keys. */
  method Run(h: HashTable, ghost keys: set<nat>, calls: seq<Call>) returns (found: seq<bool>)
    requires h.Valid() && Holds(h.elems, keys) && (h.table == null ==> CanStart(calls))
    requires Fits(h.Most(), keys, calls)
    modifies h, h.table, h.elems`next, h.elems`home
    ensures h.Valid() && Holds(h.elems, After(keys, calls)) && found == Results(keys, calls)
    ensures h.table == null || h.table == old(h.table) || fresh(h.table)
    ensures forall x :: x in h.elems ==> x in old(h.elems) || fresh(x)
  {
    found := [];
    var i := 0;
    while i < |calls|
      invariant i <= |calls| && h.Valid() && Reached(h.elems, h.table == null, keys, calls, i)
      invariant found == Results(keys, calls[..i])
      invariant h.table == null || h.table == old(h.table) || fresh(h.table)
      invariant forall x :: x in h.elems ==> x in old(h.elems) || fresh(x)
    {
      var was := PerformNext(h, keys, calls, i);
      found, i := found + [was], i + 1;
    }
    assert calls[..i] == calls;
  }
}
