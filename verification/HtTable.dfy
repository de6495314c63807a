/** The chained hash table of net/libevent/include/ht-internal.h. */
module HtTable {
  import opened Sequences

  /** An element; key is what eqfn compares, hash the cached hte_hash. */
  class Elem {
    const key: nat
    var hash: nat
    var next: Elem?
    ghost var home: int   // which bucket chain it is in; -1 for none

    constructor (key: nat)
      ensures this.key == key && home == -1
    {
      this.key, hash, next, home := key, 0, null, -1;
    }
  }

  // ---- Lists ---------------------------------------------------------------

  function At(c: seq<Elem>, k: int): Elem? {
    if 0 <= k < |c| then c[k] else null
  }

  lemma AtCut(c: seq<Elem>, k: nat, i: int)
    requires k < |c|
    ensures At(Cut(c, k), i) == if i < k then At(c, i) else At(c, i + 1)
  {
  }

  lemma PushAt(c: seq<Elem>, e: Elem, i: int)
    ensures At([e] + c, i) == if i == 0 then e else At(c, i - 1)
  {
  }

  /** Element k of the chain c with the given home. */
  ghost predicate LinkAt(c: seq<Elem>, home: int, k: int)
    reads if 0 <= k < |c| then {c[k]} else {}
  {
    0 <= k < |c| && c[k].next == At(c, k + 1) && c[k].home == home
  }

  ghost predicate ChainOk(head: Elem?, c: seq<Elem>, home: int)
    reads set k | 0 <= k < |c| :: c[k]
  {
    && head == At(c, 0) && NoTwice(c)
    && forall k :: 0 <= k < |c| ==> LinkAt(c, home, k)
  }

  // ---- A table of chains ---------------------------------------------------

  /** Bucket b of the table holds chain b; homes are numbered from tag on. */
  ghost predicate BucketAt(table: array<Elem?>, cs: seq<seq<Elem>>, tag: int, b: int)
    reads table, set k | 0 <= b < |cs| && 0 <= k < |cs[b]| :: cs[b][k]
  {
    0 <= b < |cs| && b < table.Length && ChainOk(table[b], cs[b], tag + b)
  }

  ghost predicate TableOk(table: array<Elem?>, cs: seq<seq<Elem>>, tag: int)
    reads table, All(cs)
  {
    |cs| == table.Length && tag >= 0 && forall b :: 0 <= b < |cs| ==> BucketAt(table, cs, tag, b)
  }

  ghost function All(cs: seq<seq<Elem>>): set<Elem> {
    set b, k | 0 <= b < |cs| && 0 <= k < |cs[b]| :: cs[b][k]
  }

  /** *p = e for the head of bucket b, with e in front of what was there. */
  method PushFront(table: array<Elem?>, ghost cs: seq<seq<Elem>>, ghost tag: int, b: nat, e: Elem) returns (ghost cs': seq<seq<Elem>>)
    requires TableOk(table, cs, tag) && b < table.Length
    requires e.home < tag || e.home >= tag + |cs|
    modifies table, e`next, e`home
    ensures cs' == cs[b := [e] + cs[b]] && TableOk(table, cs', tag) && e.home == tag + b
    ensures forall i :: 0 <= i < table.Length && i != b ==> table[i] == old(table[i])
  {
    assert BucketAt(table, cs, tag, b);
    forall i, k | 0 <= i < |cs| && 0 <= k < |cs[i]|
      ensures cs[i][k] != e
    {
      assert BucketAt(table, cs, tag, i) && LinkAt(cs[i], tag + i, k);
    }
    e.next := table[b];
    table[b] := e;
    e.home := tag + b;
    cs' := cs[b := [e] + cs[b]];
    forall i | 0 <= i < |cs'|
      ensures BucketAt(table, cs', tag, i)
    {
      assert old(BucketAt(table, cs, tag, i));
      if i == b {
        var c, home := cs'[b], tag + b;
        forall k | 0 <= k < |c|
          ensures LinkAt(c, home, k)
        {
          PushAt(cs[b], e, k);
          PushAt(cs[b], e, k + 1);
          assert k > 0 ==> old(LinkAt(cs[b], tag + b, k - 1));
        }
        forall k, l | 0 <= k < l < |c|
          ensures Unequal(c, k, l)
        {
          PushAt(cs[b], e, k);
          PushAt(cs[b], e, l);
          assert Unequal(cs[b], k - 1, l - 1);
        }
      } else {
        var c, home := cs[i], tag + i;
        forall k | 0 <= k < |c|
          ensures LinkAt(c, home, k)
        {
          assert old(LinkAt(c, home, k));
        }
      }
    }
  }

  /** *pE = e->next, where pE is the link that leads to element k of bucket b; e is in no bucket then. */
  method TakeOut(table: array<Elem?>, ghost cs: seq<seq<Elem>>, ghost tag: int, b: nat, prev: Elem?, e: Elem, ghost k: nat)
    returns (ghost cs': seq<seq<Elem>>)
    requires TableOk(table, cs, tag) && b < table.Length && k < |cs[b]| && e == cs[b][k] && prev == At(cs[b], k - 1)
    modifies table, e`next, e`home, (if prev != null then {prev} else {})`next
    ensures cs' == cs[b := Cut(cs[b], k)] && TableOk(table, cs', tag) && e.home == -1 && e.next == null
    ensures forall i :: 0 <= i < table.Length && i != b ==> table[i] == old(table[i])
  {
    assert BucketAt(table, cs, tag, b) && LinkAt(cs[b], tag + b, k);
    if prev == null {
      table[b] := e.next;
    } else {
      assert LinkAt(cs[b], tag + b, k - 1) && Unequal(cs[b], k - 1, k);
      prev.next := e.next;
    }
    e.next := null;
    e.home := -1;
    cs' := cs[b := Cut(cs[b], k)];
    forall i | 0 <= i < |cs'|
      ensures BucketAt(table, cs', tag, i)
    {
      assert old(BucketAt(table, cs, tag, i));
      var c, home := cs'[i], tag + i;
      forall l | 0 <= l < |c|
        ensures LinkAt(c, home, l)
      {
        if i == b {
          AtCut(cs[b], k, l);
          AtCut(cs[b], k, l + 1);
          var m := if l < k then l else l + 1;
          assert old(LinkAt(cs[b], home, m));
          Apart(cs[b], m, k);
          if k > 0 && m != k - 1 {
            Apart(cs[b], m, k - 1);
          }
        } else {
          assert old(LinkAt(c, home, l)) && old(LinkAt(cs[b], tag + b, k));
        }
      }
      if i == b {
        AtCut(cs[b], k, 0);
        NoTwiceCut(cs[b], k);
      }
    }
  }

}
