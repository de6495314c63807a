/** The two ways of HT_GROW in net/libevent/include/ht-internal.h: into a table of
    its own, and within the reallocated one.  In both, elements change buckets
    while the chains they are taken from are still being walked. */
module HtGrow {
  import opened HtTable
  import opened Sequences

  const PRIMES: seq<nat> := [
    53, 97, 193, 389, 769, 1543, 3079, 6151, 12289, 24593, 49157, 98317, 196613, 393241, 786433, 1572869,
    3145739, 6291469, 12582917, 25165843, 50331653, 100663319, 201326611, 402653189, 805306457, 1610612741
  ]
  const N_PRIMES := 26

  /** e is in the chain its home names. */
  ghost predicate Housed(e: Elem, cs: seq<seq<Elem>>, tag: int)
    reads e`home
  {
    tag <= e.home < tag + |cs| && e in cs[e.home - tag]
  }

  ghost predicate Covers(es: set<Elem>, cs: seq<seq<Elem>>, tag: int)
    reads es`home
  {
    forall e :: e in es ==> Housed(e, cs, tag)
  }

  ghost predicate Within(cs: seq<seq<Elem>>, es: set<Elem>) {
    forall b, k :: 0 <= b < |cs| && 0 <= k < |cs[b]| ==> cs[b][k] in es
  }

  /** Element k of chain b is in the right one of size buckets. */
  ghost predicate SitsAt(hashfn: nat -> nat, c: seq<Elem>, size: nat, b: int, k: int)
    requires size > 0
  {
    0 <= k < |c| && hashfn(c[k].key) % size == b
  }

  ghost predicate Sits(hashfn: nat -> nat, c: seq<Elem>, size: nat, b: int)
    requires size > 0
  {
    forall k :: 0 <= k < |c| ==> SitsAt(hashfn, c, size, b, k)
  }

  /** e caches its hash. */
  ghost predicate Hashed(hashfn: nat -> nat, e: Elem)
    reads e`hash
  {
    e.hash == hashfn(e.key)
  }

  // ---- The sweep over a reallocated table ----------------------------------

  /** The state of the in-place sweep: all buckets but those from b to old length are right,
      and in bucket b the elements before k are. */
  ghost predicate Swept(hashfn: nat -> nat, cs: seq<seq<Elem>>, oldLen: nat, b: nat, k: nat)
    requires |cs| > 0
  {
    && (forall i :: 0 <= i < |cs| && (i < b || oldLen <= i) ==> Sits(hashfn, cs[i], |cs|, i))
    && (b < |cs| ==> forall l :: 0 <= l < k && l < |cs[b]| ==> SitsAt(hashfn, cs[b], |cs|, b, l))
  }

  lemma CutKeeps(c: seq<Elem>, k: nat, e: Elem)
    requires k < |c| && e in c && e != c[k]
    ensures e in Cut(c, k)
  {
    assert c[..k] + [c[k]] + c[k + 1..] == c;
  }

  /** Chain b without its element k, and that element in front of chain b2. */
  ghost function Shifted(cs: seq<seq<Elem>>, b: nat, k: nat, b2: nat): (r: seq<seq<Elem>>)
    requires b < |cs| && k < |cs[b]| && b2 < |cs| && b2 != b
    ensures |r| == |cs|
  {
    cs[b := Cut(cs[b], k)][b2 := [cs[b][k]] + cs[b2]]
  }

  lemma WithinShifted(cs: seq<seq<Elem>>, es: set<Elem>, b: nat, k: nat, b2: nat)
    requires Within(cs, es) && b < |cs| && k < |cs[b]| && b2 < |cs| && b2 != b
    ensures Within(Shifted(cs, b, k, b2), es)
  {
    var r := Shifted(cs, b, k, b2);
    forall i, l | 0 <= i < |r| && 0 <= l < |r[i]|
      ensures r[i][l] in es
    {
      if i == b {
        AtCut(cs[b], k, l);
      } else if i == b2 {
        PushAt(cs[b2], cs[b][k], l);
      }
    }
  }

  /** Move the element e from place k of bucket b to the front of bucket b2. */
  method MoveElem(table: array<Elem?>, ghost cs: seq<seq<Elem>>, ghost tag: int, b: nat, prev: Elem?, e: Elem, ghost k: nat, b2: nat,
                  ghost es: set<Elem>)
    returns (ghost cs': seq<seq<Elem>>)
    requires TableOk(table, cs, tag) && b < table.Length && k < |cs[b]| && e == cs[b][k] && prev == At(cs[b], k - 1)
    requires b2 < table.Length && b2 != b && Covers(es, cs, tag) && Within(cs, es)
    modifies table, es`next, es`home
    ensures cs' == Shifted(cs, b, k, b2) && TableOk(table, cs', tag) && Covers(es, cs', tag) && Within(cs', es)
  {
    WithinShifted(cs, es, b, k, b2);
    assert e in es && (prev != null ==> prev == cs[b][k - 1] && prev in es);
    var cs1 := TakeOut(table, cs, tag, b, prev, e, k);
    cs' := PushFront(table, cs1, tag, b2, e);
    forall x | x in es
      ensures Housed(x, cs', tag)
    {
      assert old(Housed(x, cs, tag));
      if x != e && x in cs[b] {
        CutKeeps(cs[b], k, x);
      }
    }
  }

  /** Move e away and read the next element through the same link. */
  method MoveAway(table: array<Elem?>, ghost cs: seq<seq<Elem>>, ghost tag: int, b: nat, prev: Elem?, e: Elem, ghost k: nat, b2: nat,
                  ghost es: set<Elem>)
    returns (ghost cs': seq<seq<Elem>>, next: Elem?)
    requires TableOk(table, cs, tag) && b < table.Length && k < |cs[b]| && e == cs[b][k] && prev == At(cs[b], k - 1)
    requires b2 < table.Length && b2 != b && Covers(es, cs, tag) && Within(cs, es)
    modifies table, es`next, es`home
    ensures cs' == Shifted(cs, b, k, b2) && TableOk(table, cs', tag) && Covers(es, cs', tag) && Within(cs', es)
    ensures next == At(cs'[b], k) && prev == At(cs'[b], k - 1)
  {
    cs' := MoveElem(table, cs, tag, b, prev, e, k, b2, es);
    AtCut(cs[b], k, k);
    AtCut(cs[b], k, k - 1);
    assert BucketAt(table, cs', tag, b);
    if k > 0 {
      assert LinkAt(cs'[b], tag + b, k - 1);
    }
    next := if prev == null then table[b] else prev.next;
  }

  lemma SweptShifted(hashfn: nat -> nat, cs: seq<seq<Elem>>, oldLen: nat, b: nat, k: nat, b2: nat)
    requires b < oldLen <= |cs| && k < |cs[b]| && b2 < |cs| && b2 != b && Swept(hashfn, cs, oldLen, b, k)
    requires SitsAt(hashfn, cs[b], |cs|, b2, k)
    ensures Swept(hashfn, Shifted(cs, b, k, b2), oldLen, b, k)
  {
    var r := Shifted(cs, b, k, b2);
    forall i | 0 <= i < |cs| && (i < b || oldLen <= i)
      ensures Sits(hashfn, r[i], |cs|, i)
    {
      assert Sits(hashfn, cs[i], |cs|, i);
      if i == b2 {
        var c := r[i];
        forall l | 0 <= l < |c|
          ensures SitsAt(hashfn, c, |cs|, i, l)
        {
          PushAt(cs[b2], cs[b][k], l);
          assert l > 0 ==> SitsAt(hashfn, cs[i], |cs|, i, l - 1);
        }
      }
    }
    var c := r[b];
    forall l | 0 <= l < k && l < |c|
      ensures SitsAt(hashfn, c, |cs|, b, l)
    {
      AtCut(cs[b], k, l);
      assert SitsAt(hashfn, cs[b], |cs|, b, l);
    }
  }

  lemma SweptNext(hashfn: nat -> nat, cs: seq<seq<Elem>>, oldLen: nat, b: nat, k: nat)
    requires b < |cs| && k < |cs[b]| && Swept(hashfn, cs, oldLen, b, k) && hashfn(cs[b][k].key) % |cs| == b
    ensures Swept(hashfn, cs, oldLen, b, k + 1)
  {
  }

  lemma SweptBucket(hashfn: nat -> nat, cs: seq<seq<Elem>>, oldLen: nat, b: nat)
    requires b < |cs| && Swept(hashfn, cs, oldLen, b, |cs[b]|)
    ensures Swept(hashfn, cs, oldLen, b + 1, 0)
  {
  }

  /** The table while bucket b is swept; e is its element k, reached through prev. */
  ghost predicate Sweeping(hashfn: nat -> nat, table: array<Elem?>, cs: seq<seq<Elem>>, tag: int, oldLen: nat, b: nat,
                           prev: Elem?, e: Elem?, k: nat, es: set<Elem>)
    reads table, All(cs), es`home, es`hash
  {
    && TableOk(table, cs, tag) && b < oldLen <= table.Length && Covers(es, cs, tag) && Within(cs, es)
    && k <= |cs[b]| && e == At(cs[b], k) && prev == At(cs[b], k - 1)
    && Swept(hashfn, cs, oldLen, b, k)
    && forall x :: x in es ==> Hashed(hashfn, x)
  }

  lemma SweepsOn(hashfn: nat -> nat, table: array<Elem?>, cs: seq<seq<Elem>>, tag: int, oldLen: nat, b: nat,
                 prev: Elem?, e: Elem, k: nat, es: set<Elem>)
    requires Sweeping(hashfn, table, cs, tag, oldLen, b, prev, e, k, es)
    ensures k < |cs[b]| && e == cs[b][k] && Hashed(hashfn, e)
    ensures e.hash % table.Length == b ==> Sweeping(hashfn, table, cs, tag, oldLen, b, e, e.next, k + 1, es)
    ensures e.hash % table.Length != b ==> SitsAt(hashfn, cs[b], |cs|, e.hash % table.Length, k)
  {
    assert BucketAt(table, cs, tag, b) && LinkAt(cs[b], tag + b, k);
    if e.hash % table.Length == b {
      SweptNext(hashfn, cs, oldLen, b, k);
    }
  }

  method SweepAway(hashfn: nat -> nat, table: array<Elem?>, ghost cs: seq<seq<Elem>>, ghost tag: int, ghost oldLen: nat, b: nat,
                   prev: Elem?, e: Elem, ghost k: nat, b2: nat, ghost es: set<Elem>)
    returns (ghost cs': seq<seq<Elem>>, next: Elem?)
    requires Sweeping(hashfn, table, cs, tag, oldLen, b, prev, e, k, es)
    requires k < |cs[b]| && b2 < table.Length && b2 != b && SitsAt(hashfn, cs[b], |cs|, b2, k)
    modifies table, es`next, es`home
    ensures Sweeping(hashfn, table, cs', tag, oldLen, b, prev, next, k, es)
    ensures |cs'| == |cs| && |cs'[b]| == |cs[b]| - 1
  {
    SweptShifted(hashfn, cs, oldLen, b, k, b2);
    cs', next := MoveAway(table, cs, tag, b, prev, e, k, b2, es);
    forall x | x in es
      ensures Hashed(hashfn, x)
    {
      assert old(Hashed(hashfn, x));
    }
  }

  /** One bucket of the in-place sweep: what does not belong is moved, also to buckets still to come. */
  method SweepBucket(hashfn: nat -> nat, table: array<Elem?>, ghost cs0: seq<seq<Elem>>, ghost tag: int, ghost oldLen: nat, b: nat,
                     ghost es: set<Elem>)
    returns (ghost cs: seq<seq<Elem>>)
    requires TableOk(table, cs0, tag) && b < oldLen <= table.Length && Covers(es, cs0, tag) && Within(cs0, es)
    requires Swept(hashfn, cs0, oldLen, b, 0) && forall e :: e in es ==> Hashed(hashfn, e)
    modifies table, es`next, es`home
    ensures TableOk(table, cs, tag) && Covers(es, cs, tag) && Within(cs, es)
    ensures Swept(hashfn, cs, oldLen, b + 1, 0) && forall e :: e in es ==> Hashed(hashfn, e)
  {
    cs := cs0;
    var prev: Elem?, e := null, table[b];
    ghost var k := 0;
    assert BucketAt(table, cs, tag, b);
    while e != null
      invariant Sweeping(hashfn, table, cs, tag, oldLen, b, prev, e, k, es)
      decreases |cs[b]| - k
    {
      SweepsOn(hashfn, table, cs, tag, oldLen, b, prev, e, k, es);
      var b2 := e.hash % table.Length;
      if b2 == b {
        prev, e, k := e, e.next, k + 1;
      } else {
        cs, e := SweepAway(hashfn, table, cs, tag, oldLen, b, prev, e, k, b2, es);
      }
    }
    SweptBucket(hashfn, cs, oldLen, b);
  }

  // ---- The sweep into a fresh table ----------------------------------------

  /** The elements of the old chain c from place from on are untouched. */
  ghost predicate Untouched(c: seq<Elem>, home: int, from: nat)
    reads set l | 0 <= l < |c| :: c[l]
  {
    NoTwice(c) && from <= |c| && forall l :: from <= l < |c| ==> LinkAt(c, home, l)
  }

  ghost predicate UntouchedAt(cs: seq<seq<Elem>>, tag: int, i: int)
    reads set l | 0 <= i < |cs| && 0 <= l < |cs[i]| :: cs[i][l]
  {
    0 <= i < |cs| && Untouched(cs[i], tag + i, 0)
  }

  /** e is in an old chain, not before chain b. */
  ghost predicate Waits(e: Elem, cs: seq<seq<Elem>>, tag: int, b: int)
    reads e`home
  {
    0 <= b && tag + b <= e.home < tag + |cs| && e in cs[e.home - tag]
  }

  ghost predicate MovedAt(c: seq<Elem>, l: int, tag: int)
    reads (if 0 <= l < |c| then {c[l]} else {})`home
  {
    0 <= l < |c| && c[l].home >= tag
  }

  ghost predicate MovedTo(c: seq<Elem>, k: int, tag: int)
    reads (set l | 0 <= l < |c| :: c[l])`home
  {
    forall l :: 0 <= l < k ==> MovedAt(c, l, tag)
  }

  ghost predicate AllSit(hashfn: nat -> nat, cs: seq<seq<Elem>>) {
    |cs| > 0 ==> forall i :: 0 <= i < |cs| ==> Sits(hashfn, cs[i], |cs|, i)
  }

  /** The elements before place k of old bucket b are in the new table, the others wait. */
  ghost predicate Refilling(hashfn: nat -> nat, table: array<Elem?>, cs': seq<seq<Elem>>, cs: seq<seq<Elem>>, tag: int,
                            b: nat, k: nat, es: set<Elem>)
    reads table, All(cs'), All(cs), es`home, es`hash
  {
    && TableOk(table, cs', tag + |cs|) && AllSit(hashfn, cs') && Within(cs', es) && Within(cs, es) && 0 <= tag && b <= |cs|
    && (forall i :: b < i < |cs| ==> UntouchedAt(cs, tag, i)) && (b < |cs| ==> Untouched(cs[b], tag + b, k))
    && (b < |cs| ==> MovedTo(cs[b], k, tag + |cs|))
    && (forall x :: x in es ==> Hashed(hashfn, x) && (Housed(x, cs', tag + |cs|) || Waits(x, cs, tag, b)))
  }

  ghost function Pushed(cs: seq<seq<Elem>>, b: nat, e: Elem): (r: seq<seq<Elem>>)
    requires b < |cs|
    ensures |r| == |cs|
  {
    cs[b := [e] + cs[b]]
  }

  lemma PushedSits(hashfn: nat -> nat, cs: seq<seq<Elem>>, b: nat, e: Elem, es: set<Elem>)
    requires b < |cs| && AllSit(hashfn, cs) && Within(cs, es) && e in es && hashfn(e.key) % |cs| == b
    ensures AllSit(hashfn, Pushed(cs, b, e)) && Within(Pushed(cs, b, e), es)
  {
    var r := Pushed(cs, b, e);
    forall i | 0 <= i < |r|
      ensures Sits(hashfn, r[i], |r|, i)
    {
      assert Sits(hashfn, cs[i], |cs|, i);
      var c := r[i];
      forall l | 0 <= l < |c|
        ensures SitsAt(hashfn, c, |r|, i, l)
      {
        PushAt(cs[b], e, l);
        assert SitsAt(hashfn, cs[i], |cs|, i, if i == b && l > 0 then l - 1 else l) || (i == b && l == 0);
      }
    }
    forall i, l | 0 <= i < |r| && 0 <= l < |r[i]|
      ensures r[i][l] in es
    {
      PushAt(cs[b], e, l);
    }
  }

  /** Put the waiting element e into the new table. */
  method Refill(hashfn: nat -> nat, table: array<Elem?>, ghost cs': seq<seq<Elem>>, ghost cs: seq<seq<Elem>>, ghost tag: int,
                ghost b: nat, ghost k: nat, e: Elem, ghost es: set<Elem>)
    returns (ghost r: seq<seq<Elem>>)
    requires Refilling(hashfn, table, cs', cs, tag, b, k, es) && table.Length > 0
    requires b < |cs| && k < |cs[b]| && e == cs[b][k]
    modifies table, es`next, es`home
    ensures |r| == |cs'| && Refilling(hashfn, table, r, cs, tag, b, k + 1, es)
  {
    assert LinkAt(cs[b], tag + b, k) && Hashed(hashfn, e);
    var b2 := e.hash % table.Length;
    PushedSits(hashfn, cs', b2, e, es);
    r := PushFront(table, cs', tag + |cs|, b2, e);
    var c, home := cs[b], tag + b;
    forall l | k + 1 <= l < |c|
      ensures LinkAt(c, home, l)
    {
      assert old(LinkAt(c, home, l));
      Apart(c, l, k);
    }
    ghost var new_ := tag + |cs|;
    forall l | 0 <= l < k + 1
      ensures MovedAt(c, l, new_)
    {
      assert l < k ==> old(MovedAt(c, l, new_));
    }
    forall i | b < i < |cs|
      ensures UntouchedAt(cs, tag, i)
    {
      assert old(UntouchedAt(cs, tag, i));
      var d, home' := cs[i], tag + i;
      forall l | 0 <= l < |d|
        ensures LinkAt(d, home', l)
      {
        assert old(LinkAt(d, home', l));
      }
    }
    forall x | x in es
      ensures Hashed(hashfn, x) && (Housed(x, r, tag + |cs|) || Waits(x, cs, tag, b))
    {
      assert old(Hashed(hashfn, x) && (Housed(x, cs', tag + |cs|) || Waits(x, cs, tag, b)));
    }
  }

  /** The heads of the old table. */
  ghost predicate Heads(table: array<Elem?>, cs: seq<seq<Elem>>)
    reads table
  {
    |cs| == table.Length && forall b :: 0 <= b < |cs| ==> table[b] == At(cs[b], 0)
  }

  lemma RefillNext(hashfn: nat -> nat, table: array<Elem?>, cs': seq<seq<Elem>>, cs: seq<seq<Elem>>, tag: int, b: nat, es: set<Elem>)
    requires b < |cs| && Refilling(hashfn, table, cs', cs, tag, b, |cs[b]|, es)
    ensures Refilling(hashfn, table, cs', cs, tag, b + 1, 0, es)
  {
    assert b + 1 < |cs| ==> UntouchedAt(cs, tag, b + 1);
    AllMoved(cs[b], tag + |cs|);
  }

  lemma AllMoved(c: seq<Elem>, tag: int)
    requires MovedTo(c, |c|, tag)
    ensures forall e :: e in c ==> e.home >= tag
  {
    forall e | e in c
      ensures e.home >= tag
    {
      var l :| 0 <= l < |c| && c[l] == e;
      assert MovedAt(c, l, tag);
    }
  }

  /** The table holds exactly the elements es, each in the bucket of its hash. */
  ghost predicate Stores(hashfn: nat -> nat, table: array<Elem?>, cs: seq<seq<Elem>>, tag: int, es: set<Elem>)
    reads table, All(cs), es`home, es`hash
  {
    && TableOk(table, cs, tag) && AllSit(hashfn, cs) && Within(cs, es) && Covers(es, cs, tag)
    && forall x :: x in es ==> Hashed(hashfn, x)
  }

  /** The loop of HT_GROW that empties the old table into the new one. */
  method RefillAll(hashfn: nat -> nat, old_: array?<Elem?>, table: array<Elem?>, ghost cs: seq<seq<Elem>>, ghost tag: int, ghost tag': int,
                   ghost es: set<Elem>)
    returns (ghost cs': seq<seq<Elem>>)
    requires tag' == tag + |cs|
    requires table.Length > 0 && old_ != table && if old_ == null then cs == [] else Heads(old_, cs)
    requires forall b :: 0 <= b < table.Length ==> table[b] == null
    requires 0 <= tag && Within(cs, es) && Covers(es, cs, tag) && forall b :: 0 <= b < |cs| ==> UntouchedAt(cs, tag, b)
    requires forall x :: x in es ==> Hashed(hashfn, x)
    modifies table, es`next, es`home
    ensures Stores(hashfn, table, cs', tag', es)
  {
    cs' := seq(table.Length, _ => []);
    EmptyTable(hashfn, table, cs', tag + |cs|, es);
    var b := 0;
    assert Waiting(cs, tag, es) by {
      forall x | x in es ensures Waits(x, cs, tag, 0) { assert Housed(x, cs, tag); }
    }
    assert 0 < |cs| ==> UntouchedAt(cs, tag, 0);
    while old_ != null && b < old_.Length
      invariant b <= |cs| && |cs'| == table.Length
      invariant Refilling(hashfn, table, cs', cs, tag, b, 0, es)
      invariant old_ == null || Heads(old_, cs)
    {
      cs' := RefillBucket(hashfn, old_[b], table, cs', cs, tag, b, es);
      b := b + 1;
    }
    RefillDone(hashfn, table, cs', cs, tag, tag', es);
  }

  lemma RefillDone(hashfn: nat -> nat, table: array<Elem?>, cs': seq<seq<Elem>>, cs: seq<seq<Elem>>, tag: int, tag': int, es: set<Elem>)
    requires tag' == tag + |cs| && Refilling(hashfn, table, cs', cs, tag, |cs|, 0, es)
    ensures Stores(hashfn, table, cs', tag', es)
  {
  }

  ghost predicate Waiting(cs: seq<seq<Elem>>, tag: int, es: set<Elem>)
    reads es`home
  {
    forall x :: x in es ==> Waits(x, cs, tag, 0)
  }

  lemma EmptyTable(hashfn: nat -> nat, table: array<Elem?>, cs: seq<seq<Elem>>, tag: int, es: set<Elem>)
    requires |cs| == table.Length && tag >= 0
    requires forall b :: 0 <= b < |cs| ==> cs[b] == [] && table[b] == null
    ensures TableOk(table, cs, tag) && AllSit(hashfn, cs) && Within(cs, es)
  {
    forall b | 0 <= b < |cs|
      ensures BucketAt(table, cs, tag, b)
    {
    }
  }

  method RefillBucket(hashfn: nat -> nat, head: Elem?, table: array<Elem?>, ghost cs0: seq<seq<Elem>>, ghost cs: seq<seq<Elem>>,
                      ghost tag: int, ghost b: nat, ghost es: set<Elem>)
    returns (ghost cs': seq<seq<Elem>>)
    requires table.Length > 0 && b < |cs| && head == At(cs[b], 0) && Refilling(hashfn, table, cs0, cs, tag, b, 0, es)
    modifies table, es`next, es`home
    ensures |cs'| == |cs0| && Refilling(hashfn, table, cs', cs, tag, b + 1, 0, es)
  {
    cs' := cs0;
    var elm := head;
    ghost var k := 0;
    while elm != null
      invariant |cs'| == |cs0| && k <= |cs[b]| && elm == At(cs[b], k)
      invariant Refilling(hashfn, table, cs', cs, tag, b, k, es)
      decreases |cs[b]| - k
    {
      assert LinkAt(cs[b], tag + b, k);
      var next := elm.next;
      cs' := Refill(hashfn, table, cs', cs, tag, b, k, elm, es);
      elm, k := next, k + 1;
    }
    RefillNext(hashfn, table, cs', cs, tag, b, es);
  }
}
