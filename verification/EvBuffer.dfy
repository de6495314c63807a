/** The evbuffer of net/libevent/src/buffer.c: a list of blocks as one byte sequence. */
module EvBuffers {
  import opened EvChain

  /** No block occurs twice, and no two share their memory. */
  ghost predicate Apart(cs: seq<Chain>) {
    forall i, j :: 0 <= i < j < |cs| ==> Differ(cs, i, j)
  }

  ghost predicate Differ(cs: seq<Chain>, i: int, j: int) {
    0 <= i < |cs| && 0 <= j < |cs| ==> cs[i] != cs[j] && cs[i].buffer != cs[j].buffer
  }

  /** The blocks cs hold the byte strings ds. */
  ghost predicate Holds(cs: seq<Chain>, ds: seq<seq<Byte>>)
    reads Memory(cs)
  {
    Apart(cs) && |ds| == |cs| && forall i :: 0 <= i < |cs| ==> HoldsAt(cs, ds, i)
  }

  ghost predicate HoldsAt(cs: seq<Chain>, ds: seq<seq<Byte>>, i: int)
    reads if 0 <= i < |cs| then {cs[i], cs[i].buffer} else {}
  {
    0 <= i < |cs| && 0 <= i < |ds| && cs[i].Ok() && cs[i].Data() == ds[i]
  }

  /** Block i holds ds[i]. */
  lemma Block(cs: seq<Chain>, ds: seq<seq<Byte>>, i: nat)
    requires Holds(cs, ds) && i < |cs|
    ensures cs[i].Ok() && cs[i].Data() == ds[i] && |ds[i]| == cs[i].off
  {
    assert HoldsAt(cs, ds, i);
  }

  lemma BlockOff(cs: seq<Chain>, ds: seq<seq<Byte>>, i: nat)
    requires Holds(cs, ds) && i < |cs|
    ensures |ds[i]| == cs[i].off
  {
    Block(cs, ds, i);
  }

  lemma Offs(cs: seq<Chain>, ds: seq<seq<Byte>>)
    requires Holds(cs, ds)
    ensures forall i :: 0 <= i < |cs| ==> (cs[i].off != 0 <==> HasData(ds, i))
  {
    forall i | 0 <= i < |cs|
      ensures cs[i].off != 0 <==> HasData(ds, i)
    {
      Block(cs, ds, i);
    }
  }

  lemma Distinct(cs: seq<Chain>, i: nat, j: nat)
    requires Apart(cs) && i < |cs| && j < |cs| && i != j
    ensures cs[i] != cs[j] && cs[i].buffer != cs[j].buffer
  {
    assert Differ(cs, i, j) || Differ(cs, j, i);
  }

  lemma ApartKept(cs: seq<Chain>, n: nat, c: Chain)
    requires Apart(cs + [c]) && n <= |cs|
    ensures Apart(cs[..n] + [c])
  {
    forall i, j | 0 <= i < j < n + 1
      ensures Differ(cs[..n] + [c], i, j)
    {
      assert Differ(cs + [c], i, if j == n then |cs| else j);
    }
  }

  lemma ApartPush(cs: seq<Chain>, c: Chain)
    requires Apart(cs) && c !in cs && forall i :: 0 <= i < |cs| ==> cs[i].buffer != c.buffer
    ensures Apart(cs + [c])
  {
    forall i, j | 0 <= i < j < |cs| + 1
      ensures Differ(cs + [c], i, j)
    {
      assert Differ(cs, i, j);
    }
  }

  lemma ApartFront(cs: seq<Chain>, c: Chain)
    requires Apart(cs) && c !in cs && forall i :: 0 <= i < |cs| ==> cs[i].buffer != c.buffer
    ensures Apart([c] + cs)
  {
    forall i, j | 0 <= i < j < |cs| + 1
      ensures Differ([c] + cs, i, j)
    {
      assert Differ(cs, i - 1, j - 1);
    }
  }

  lemma HoldsPush(cs: seq<Chain>, ds: seq<seq<Byte>>, c: Chain)
    requires Holds(cs, ds) && Apart(cs + [c]) && c.Ok()
    ensures Holds(cs + [c], ds + [c.Data()])
  {
    forall i | 0 <= i < |cs| + 1
      ensures HoldsAt(cs + [c], ds + [c.Data()], i)
    {
      assert i < |cs| ==> HoldsAt(cs, ds, i);
    }
  }

  lemma HoldsFront(cs: seq<Chain>, ds: seq<seq<Byte>>, c: Chain)
    requires Holds(cs, ds) && Apart([c] + cs) && c.Ok()
    ensures Holds([c] + cs, [c.Data()] + ds)
  {
    forall i | 0 <= i < |cs| + 1
      ensures HoldsAt([c] + cs, [c.Data()] + ds, i)
    {
      assert i > 0 ==> HoldsAt(cs, ds, i - 1);
    }
  }

  lemma HoldsSlice(cs: seq<Chain>, ds: seq<seq<Byte>>, i: nat, j: nat)
    requires Holds(cs, ds) && i <= j <= |cs|
    ensures Holds(cs[i..j], ds[i..j])
  {
    forall k | 0 <= k < j - i
      ensures HoldsAt(cs[i..j], ds[i..j], k)
    {
      assert HoldsAt(cs, ds, i + k);
    }
    forall k, l | 0 <= k < l < j - i
      ensures Differ(cs[i..j], k, l)
    {
      assert Differ(cs, i + k, i + l);
    }
  }

  lemma HoldsRest(cs: seq<Chain>, ds: seq<seq<Byte>>, i: nat)
    requires Holds(cs, ds) && i <= |cs|
    ensures Holds(cs[i..], ds[i..])
  {
    assert cs[i..|cs|] == cs[i..] && ds[i..|cs|] == ds[i..];
    HoldsSlice(cs, ds, i, |cs|);
  }

  /** The memory of part of a list and of another list behind it. */
  lemma MemoryParts(cs: seq<Chain>, n: nat, cs': seq<Chain>)
    requires n <= |cs|
    ensures Memory(cs[..n] + cs') <= Memory(cs) + Memory(cs')
    ensures Memory(cs') <= Memory(cs[..n] + cs') && Memory(cs[..n]) <= Memory(cs)
  {
    forall c | c in cs'
      ensures c in cs[..n] + cs'
    {
    }
  }

  /** A list that is as it was but for a fresh last block has no memory but its own. */
  twostate lemma LastNew(was: seq<Chain>, new now: seq<Chain>)
    requires now == was || (now != [] && now[..|now| - 1] <= was && fresh(now[|now| - 1]) && fresh(now[|now| - 1].buffer))
    ensures forall o :: o in Memory(now) ==> o in Memory(was) || fresh(o)
  {
    if now != was {
      var n := |now| - 1;
      assert now == was[..n] + [now[n]];
      MemoryParts(was, n, [now[n]]);
    }
  }

  lemma MemoryRest(cs: seq<Chain>, i: nat)
    requires i <= |cs|
    ensures Memory(cs[i..]) <= Memory(cs)
  {
  }

  lemma MemoryFirstAnd(c: Chain, cs: seq<Chain>, i: nat)
    requires i <= |cs|
    ensures Memory([c] + cs[i..]) <= Memory(cs) + {c, c.buffer}
  {
  }

  lemma MemoryReplaced(cs: seq<Chain>, i: nat, c: Chain)
    requires i < |cs|
    ensures Memory(cs[i := c]) <= Memory(cs) + {c, c.buffer}
  {
  }

  lemma Among(cs: seq<Chain>, i: nat)
    requires i < |cs|
    ensures cs[i] in Memory(cs) && cs[i].buffer in Memory(cs)
  {
    assert cs[i] in cs;
  }

  /** The list with the block c behind its last one. */
  lemma Inserted(cs: seq<Chain>, ds: seq<seq<Byte>>, last: nat, c: Chain)
    requires Holds(cs, ds) && Shape(ds, last) && Kept(ds, last) == |ds| && Apart(cs + [c]) && c.Ok()
    ensures Holds(cs + [c], ds + [c.Data()])
    ensures Shape(ds + [c.Data()], if c.off != 0 then |cs| else last)
    ensures Flat(ds + [c.Data()]) == Flat(ds) + c.Data()
  {
    HoldsPush(cs, ds, c);
    Pushed(ds, last, c.Data());
  }

  ghost function Memory(cs: seq<Chain>): set<object> {
    (set c | c in cs :: c as object) + (set c | c in cs :: c.buffer as object)
  }

  // ---- Pure facts about lists of blocks ------------------------------------

  /** How many blocks evbuffer_free_trailing_empty_chains leaves. */
  ghost function Kept(ds: seq<seq<Byte>>, last: nat): (n: nat)
    requires Shape(ds, last)
    ensures n <= |ds|
  {
    if ds == [] || ds[last] == [] then 0 else last + 1
  }

  lemma KeptShape(ds: seq<seq<Byte>>, last: nat)
    requires Shape(ds, last)
    ensures var n := Kept(ds, last);
            && Shape(ds[..n], last) && Flat(ds[..n]) == Flat(ds)
            && (forall i :: 0 <= i < n ==> HasData(ds, i))
  {
    var n := Kept(ds, last);
    if ds != [] {
      ShapeFlat(ds, last);
    }
    forall i | 0 <= i < n
      ensures HasData(ds, i) && HasData(ds[..n], i)
    {
      assert i < last ==> HasData(ds, i);
    }
  }

  /** Block last may hold more; the other blocks are as before. */
  lemma ShapeGrows(ds: seq<seq<Byte>>, last: nat, ds': seq<seq<Byte>>)
    requires Shape(ds, last) && |ds'| == |ds|
    requires forall i :: 0 <= i < |ds| ==> (HasData(ds', i) <==> HasData(ds, i)) || i == last == 0 || (i == last && HasData(ds', i))
    ensures Shape(ds', last)
  {
    forall i | 0 <= i < last
      ensures HasData(ds', i)
    {
      assert HasData(ds, i);
    }
    forall i | last < i < |ds|
      ensures !HasData(ds', i)
    {
      assert !HasData(ds, i);
    }
    if last != 0 {
      assert HasData(ds, last);
    }
  }

  lemma GrownLast(ds: seq<seq<Byte>>, last: nat, data: seq<Byte>)
    requires Shape(ds, last) && ds != []
    ensures Shape(ds[last := ds[last] + data], last)
    ensures Flat(ds[last := ds[last] + data]) == Flat(ds) + data
  {
    var ds' := ds[last := ds[last] + data];
    ShapeGrows(ds, last, ds');
    ShapeFlat(ds, last);
    ShapeFlat(ds', last);
    assert ds'[..last] == ds[..last];
    Assoc(Flat(ds[..last]), ds[last], data);
  }

  lemma Pushed(ds: seq<seq<Byte>>, last: nat, data: seq<Byte>)
    requires Shape(ds, last) && Kept(ds, last) == |ds|
    ensures Shape(ds + [data], if data == [] then last else |ds|)
    ensures Flat(ds + [data]) == Flat(ds) + data
  {
    KeptShape(ds, last);
    var ds' := ds + [data];
    forall i | 0 <= i < |ds|
      ensures HasData(ds', i)
    {
      assert HasData(ds, i);
    }
    FlatPush(ds, data);
  }

  lemma Halves<T>(a: seq<T>, b: seq<T>, k: nat)
    requires k <= |b|
    ensures a + b[..k] + b[k..] == a + b
    ensures k == 0 ==> a + b[..k] == a
  {
    assert b[..k] + b[k..] == b;
    Assoc(a, b[..k], b[k..]);
  }

  /** A new block that holds data. */
  method FilledChain(size: nat, data: seq<Byte>, memory: bool) returns (chain: Chain?)
    requires |data| <= size
    ensures chain == null <==> size > EVBUFFER_CHAIN_MAX - EVBUFFER_CHAIN_SIZE || !memory
    ensures chain != null ==> fresh(chain) && fresh(chain.buffer) && chain.Ok() && chain.Data() == data
    ensures chain != null ==> chain.End() == Room(Capacity(size), 0, |data|)
  {
    chain := ChainNew(size, memory);
    if chain != null {
      chain.Append(data);
    }
  }

  lemma Fitted<T>(a: seq<T>, k: nat, b: seq<T>)
    requires k <= |a|
    ensures a[..k] + (a[k..] + b) == a + b
    ensures k == |a| ==> a[k..] + b == b
  {
    assert a[..k] + a[k..] == a;
    Assoc(a[..k], a[k..], b);
  }

  /** A new block that holds data at its very end. */
  method FilledFromEnd(data: seq<Byte>, memory: bool) returns (chain: Chain?)
    ensures chain == null <==> |data| > EVBUFFER_CHAIN_MAX - EVBUFFER_CHAIN_SIZE || !memory
    ensures chain != null ==> fresh(chain) && fresh(chain.buffer) && chain.Ok() && chain.Data() == data
  {
    chain := ChainNew(|data|, memory);
    if chain != null {
      chain.FreeAtFront();
      chain.Prepend(data);
    }
  }

  lemma GrownFirst(ds: seq<seq<Byte>>, last: nat, data: seq<Byte>)
    requires Shape(ds, last) && ds != []
    ensures Shape(ds[0 := data + ds[0]], last)
    ensures Flat(ds[0 := data + ds[0]]) == data + Flat(ds)
  {
    var ds' := ds[0 := data + ds[0]];
    forall i | 0 <= i < |ds|
      ensures (HasData(ds', i) <==> HasData(ds, i)) || i == last == 0
    {
      assert last > 0 ==> HasData(ds, 0);
    }
    ShapeGrows(ds, last, ds');
    assert ds' == [data + ds[0]] + ds[1..] && ds == [ds[0]] + ds[1..];
    FlatHead(data + ds[0], ds[1..]);
    FlatHead(ds[0], ds[1..]);
    Assoc(data, ds[0], Flat(ds[1..]));
  }

  /** The list with the block c before its first one. */
  lemma Fronted(cs: seq<Chain>, ds: seq<seq<Byte>>, last: nat, c: Chain)
    requires Holds(cs, ds) && Shape(ds, last) && ds != [] && ds[0] != [] && Apart([c] + cs) && c.Ok() && c.off != 0
    ensures Holds([c] + cs, [c.Data()] + ds)
    ensures Shape([c.Data()] + ds, last + 1)
    ensures Flat([c.Data()] + ds) == c.Data() + Flat(ds)
    ensures |Flat([c.Data()] + ds)| == c.off + |Flat(ds)|
  {
    HoldsFront(cs, ds, c);
    FlatHead(c.Data(), ds);
    ShapeFronts(ds, last, c.Data());
  }

  lemma ShapeFronts(ds: seq<seq<Byte>>, last: nat, d: seq<Byte>)
    requires Shape(ds, last) && ds != [] && ds[0] != [] && d != []
    ensures Shape([d] + ds, last + 1)
  {
    var ds' := [d] + ds;
    forall i | 0 <= i <= last + 1
      ensures HasData(ds', i)
    {
      assert 0 < i ==> HasData(ds, i - 1);
    }
    forall i | last + 1 < i < |ds'|
      ensures !HasData(ds', i)
    {
      assert !HasData(ds, i - 1);
    }
  }

  // ---- Taking bytes from the front ----

  function Min(a: nat, b: nat): nat {
    if a < b then a else b
  }

  lemma WholeSlice<T>(a: seq<T>)
    ensures a[..|a|] == a && a[|a|..] == []
  {
  }

  lemma SplitAt<T>(a: seq<T>, n: nat)
    requires n <= |a|
    ensures a[..n] + a[n..] == a && a[0..n] == a[..n]
  {
  }

  lemma SkipFirst<T>(a: seq<T>, b: seq<T>, k: nat)
    requires |a| <= k <= |a| + |b|
    ensures (a + b)[k..] == b[k - |a|..]
  {
  }

  lemma TakePast<T>(a: seq<T>, b: seq<T>, c: seq<T>, n: nat)
    requires n <= |c|
    ensures a + b + c[..n] == a + (b + c)[..|b| + n]
    ensures a + b == a + (b + c)[..|b|]
  {
    assert (b + c)[..|b| + n] == b + c[..n] && (b + c)[..|b|] == b;
    Assoc(a, b, c[..n]);
  }

  /** all without its first bytes, which go behind was as far as they fit. */
  lemma MovedBytes<T>(was: seq<T>, all: seq<T>, front: seq<T>, rest: seq<T>, left: nat, fits: bool)
    requires all == front + rest && left <= |rest|
    ensures rest[left..] == all[|front| + left..]
    ensures was + front + (if fits then rest[..left] else []) == was + all[..if fits then |front| + left else |front|]
  {
    TakePast(was, front, rest, left);
    SkipFirst(front, rest, |front| + left);
  }

  lemma SkipInFirst<T>(a: seq<T>, b: seq<T>, k: nat)
    requires k <= |a|
    ensures (a + b)[k..] == a[k..] + b
    ensures (a + b)[..k] == a[..k]
  {
  }

  /** Dropping remaining bytes from the blocks from i on, when block i goes as a whole. */
  lemma DropsBlock(ds: seq<seq<Byte>>, i: nat, remaining: nat)
    requires i < |ds| && |ds[i]| <= remaining < |Flat(ds[i..])|
    ensures i + 1 < |ds| && remaining - |ds[i]| < |Flat(ds[i + 1..])|
    ensures Flat(ds[i..])[remaining..] == Flat(ds[i + 1..])[remaining - |ds[i]|..]
  {
    FlatAt(ds, i);
    SkipFirst(ds[i], Flat(ds[i + 1..]), remaining);
  }

  /** How many blocks the first n bytes fill, and how many bytes of the next one they take. */
  ghost function Filling(ds: seq<seq<Byte>>, n: nat): (nat, nat)
    requires n < |Flat(ds)|
  {
    if n < |ds[0]| then (0, n)
    else
      var (blocks, part) := Filling(ds[1..], n - |ds[0]|);
      (blocks + 1, part)
  }

  lemma FillingStep(ds: seq<seq<Byte>>, i: nat, left: nat)
    requires i < |ds| && left < |Flat(ds[i..])|
    ensures left < |ds[i]| ==> Filling(ds[i..], left) == (0, left)
    ensures left >= |ds[i]| ==> left - |ds[i]| < |Flat(ds[i + 1..])|
    ensures left >= |ds[i]| ==>
              var (blocks, part) := Filling(ds[i + 1..], left - |ds[i]|);
              Filling(ds[i..], left) == (blocks + 1, part)
  {
    FlatAt(ds, i);
    assert ds[i..][1..] == ds[i + 1..];
  }

  /** The first n bytes fill i blocks and go on for left bytes. */
  ghost predicate Fills(ds: seq<seq<Byte>>, n: nat, i: nat, left: nat) {
    && i < |ds| && left < |Flat(ds[i..])| && |Flat(ds[..i])| + left == n < |Flat(ds)|
    && Filling(ds, n) == (i + Filling(ds[i..], left).0, Filling(ds[i..], left).1)
  }

  lemma FillsOn(ds: seq<seq<Byte>>, n: nat, i: nat, left: nat)
    requires Fills(ds, n, i, left)
    ensures |ds[i]| <= left ==> Fills(ds, n, i + 1, left - |ds[i]|)
    ensures left < |ds[i]| ==> Filling(ds, n) == (i, left)
  {
    FillingStep(ds, i, left);
    FlatAt(ds, i);
  }

  /** The last block with data when the first i blocks are gone. */
  ghost function Behind(last: nat, i: nat): nat {
    if last <= i then 0 else last - i
  }

  /** The blocks from i on, without the first remaining bytes of block i. */
  lemma DropsPart(ds: seq<seq<Byte>>, last: nat, i: nat, remaining: nat)
    requires Shape(ds, last) && i < |ds| && remaining < |ds[i]|
    ensures i <= last
    ensures Shape(ds[i..][0 := ds[i][remaining..]], Behind(last, i))
    ensures Flat(ds[i..][0 := ds[i][remaining..]]) == Flat(ds[i..])[remaining..]
  {
    assert HasData(ds, i);
    var ds' := ds[i..][0 := ds[i][remaining..]];
    forall j | 0 <= j < |ds'|
      ensures HasData(ds', j) <==> HasData(ds, i + j)
    {
    }
    assert last > i ==> HasData(ds, last);
    assert ds' == [ds[i][remaining..]] + ds[i + 1..];
    FlatHead(ds[i][remaining..], ds[i + 1..]);
    FlatAt(ds, i);
    SkipInFirst(ds[i], Flat(ds[i + 1..]), remaining);
  }

  // ---- Moving blocks to another buffer ------------------------------------

  lemma NoBytes<T>(a: seq<T>, b: seq<T>)
    requires a == []
    ensures a + b == b
  {
  }

  lemma ApartParts(a: seq<Chain>, b: seq<Chain>)
    requires Apart(a + b)
    ensures Apart(a) && Apart(b)
  {
    forall i, j | 0 <= i < j < |a|
      ensures Differ(a, i, j)
    {
      assert Differ(a + b, i, j);
    }
    forall i, j | 0 <= i < j < |b|
      ensures Differ(b, i, j)
    {
      assert Differ(a + b, |a| + i, |a| + j);
    }
  }

  /** Any selection of places in order stays apart. */
  lemma ApartPick(a: seq<Chain>, b: seq<Chain>, m: nat, n: nat)
    requires Apart(a + b) && m <= |a| && n <= |b|
    ensures Apart(a[..m] + b[..n])
  {
    var c := a[..m] + b[..n];
    forall i, j | 0 <= i < j < |c|
      ensures Differ(c, i, j)
    {
      assert Differ(a + b, if i < m then i else |a| + i - m, if j < m then j else |a| + j - m);
    }
  }

  /** The last of the blocks b' is apart from all of a and b, and the others are some of b. */
  lemma ApartLast(a: seq<Chain>, b: seq<Chain>, b': seq<Chain>)
    requires Apart(a + b) && b' != [] && b'[..|b'| - 1] <= b
    requires forall c :: c in a || c in b ==> c != b'[|b'| - 1] && c.buffer != b'[|b'| - 1].buffer
    ensures Apart(a + b')
  {
    var n := |b'| - 1;
    ApartPick(a, b, |a|, n);
    assert a[..|a|] == a && b'[..n] == b[..n];
    var cs, c := a + b[..n], b'[n];
    forall i | 0 <= i < |cs|
      ensures cs[i] != c && cs[i].buffer != c.buffer
    {
      assert cs[i] in a || cs[i] in b;
    }
    ApartPush(cs, c);
    assert a + b' == a + b[..n] + [b'[n]];
  }

  lemma HoldsConcat(cs: seq<Chain>, ds: seq<seq<Byte>>, cs': seq<Chain>, ds': seq<seq<Byte>>)
    requires Holds(cs, ds) && Holds(cs', ds') && Apart(cs + cs')
    ensures Holds(cs + cs', ds + ds')
  {
    forall i | 0 <= i < |cs| + |cs'|
      ensures HoldsAt(cs + cs', ds + ds', i)
    {
      assert if i < |cs| then HoldsAt(cs, ds, i) else HoldsAt(cs', ds', i - |cs|);
    }
  }

  /** Blocks with data in front of a well-shaped list with data. */
  lemma ShapeConcat(ds: seq<seq<Byte>>, ds': seq<seq<Byte>>, last: nat)
    requires forall i :: 0 <= i < |ds| ==> HasData(ds, i)
    requires Shape(ds', last) && HasData(ds', last)
    ensures Shape(ds + ds', |ds| + last)
    ensures Flat(ds + ds') == Flat(ds) + Flat(ds')
  {
    var all := ds + ds';
    forall i | 0 <= i <= |ds| + last
      ensures HasData(all, i)
    {
      assert if i < |ds| then HasData(ds, i) else HasData(ds', i - |ds|);
    }
    forall i | |ds| + last < i < |all|
      ensures !HasData(all, i)
    {
      assert !HasData(ds', i - |ds|);
    }
    FlatConcat(ds, ds');
  }

  ghost predicate AllData(ds: seq<seq<Byte>>) {
    forall i :: 0 <= i < |ds| ==> HasData(ds, i)
  }

  /** The first i blocks of cs moved behind the first n of cs'. */
  lemma ApartMoved(cs: seq<Chain>, cs': seq<Chain>, i: nat, n: nat)
    requires Apart(cs + cs') && i <= |cs| && n <= |cs'|
    ensures Apart(cs[i..] + (cs'[..n] + cs[..i]))
  {
    var c := cs[i..] + (cs'[..n] + cs[..i]);
    forall k, l | 0 <= k < l < |c|
      ensures Differ(c, k, l)
    {
      Distinct(cs + cs', Origin(|cs|, i, n, k), Origin(|cs|, i, n, l));
    }
  }

  function Origin(size: nat, i: nat, n: nat, k: nat): nat
    requires i <= size
  {
    if k < size - i then i + k else if k < size - i + n then i + k else k - (size - i + n)
  }

  lemma DropsNone(ds: seq<seq<Byte>>, i: nat)
    requires i < |ds|
    ensures ds[i..][0 := ds[i][0..]] == ds[i..]
  {
    assert ds[i][0..] == ds[i];
  }

  /** The blocks before i all have data, and hold the bytes in front. */
  lemma MovedPart(ds: seq<seq<Byte>>, last: nat, i: nat)
    requires Shape(ds, last) && i < |ds| && ds[i] != []
    ensures i <= last && AllData(ds[..i]) && Shape(ds[i..], Behind(last, i))
    ensures Flat(ds) == Flat(ds[..i]) + Flat(ds[i..])
  {
    assert HasData(ds, i);
    forall j | 0 <= j < i
      ensures HasData(ds[..i], j)
    {
      assert HasData(ds, j);
    }
    DropsNone(ds, i);
    DropsPart(ds, last, i, 0);
    Splits(ds, i);
    FlatConcat(ds[..i], ds[i..]);
  }

  lemma ApartSwap(cs: seq<Chain>, cs': seq<Chain>)
    requires Apart(cs + cs')
    ensures Apart(cs' + cs)
  {
    assert cs[..|cs|] == cs;
    ApartTaken(cs, cs', |cs|);
  }

  lemma ApartTaken(cs: seq<Chain>, cs': seq<Chain>, i: nat)
    requires Apart(cs + cs') && i <= |cs|
    ensures Apart(cs' + cs[..i])
  {
    var c := cs' + cs[..i];
    forall k, l | 0 <= k < l < |c|
      ensures Differ(c, k, l)
    {
      Distinct(cs + cs', if k < |cs'| then |cs| + k else k - |cs'|, if l < |cs'| then |cs| + l else l - |cs'|);
    }
  }

  lemma Outside(cs: seq<Chain>, cs': seq<Chain>, j: nat, k: nat)
    requires Apart(cs + cs') && j < |cs| && k < |cs'|
    ensures cs[j] != cs'[k] && cs[j].buffer != cs'[k].buffer
  {
    Distinct(cs + cs', j, |cs| + k);
  }

  lemma FirstBytes(ds: seq<seq<Byte>>, n: nat)
    requires ds != [] && n <= |ds[0]|
    ensures n <= |Flat(ds)| && Flat(ds)[..n] == ds[0][0..0 + n]
  {
    assert Flat(ds) == ds[0] + Flat(ds[1..]);
    SkipInFirst(ds[0], Flat(ds[1..]), n);
  }

  lemma AllDataShape(ds: seq<seq<Byte>>)
    requires AllData(ds)
    ensures Shape(ds, if ds == [] then 0 else |ds| - 1)
    ensures ds != [] ==> Flat(ds) != []
  {
    if ds != [] {
      assert HasData(ds, |ds| - 1) && HasData(ds, 0);
    }
  }

  lemma AllDataConcat(a: seq<seq<Byte>>, b: seq<seq<Byte>>)
    requires AllData(a) && AllData(b)
    ensures AllData(a + b)
  {
    forall i | 0 <= i < |a + b|
      ensures HasData(a + b, i)
    {
      assert if i < |a| then HasData(a, i) else HasData(b, i - |a|);
    }
  }

  // ---- Pulling bytes into the first block ---------------------------------

  /** The blocks from i on without the first left bytes. */
  ghost function Tail(ds: seq<seq<Byte>>, i: nat, left: nat): seq<seq<Byte>>
    requires i < |ds| ==> left <= |ds[i]|
  {
    if i < |ds| then ds[i..][0 := ds[i][left..]] else []
  }

  lemma PulledShape(ds: seq<seq<Byte>>, last: nat, i: nat, left: nat, d: seq<Byte>)
    requires Shape(ds, last) && i <= |ds| && d != []
    requires if i < |ds| then left < |ds[i]| else left == 0
    ensures i < |ds| ==> i <= last
    ensures i == |ds| ==> last < i || i == 0
    ensures Shape([d] + Tail(ds, i, left), if i < |ds| then last - i + 1 else 0)
    ensures left <= |Flat(ds[i..])| && Flat([d] + Tail(ds, i, left)) == d + Flat(ds[i..])[left..]
  {
    if i < |ds| {
      FlatAt(ds, i);
      DropsPart(ds, last, i, left);
      ShapeFronts(Tail(ds, i, left), last - i, d);
    } else {
      FlatNone(ds);
    }
    FlatHead(d, Tail(ds, i, left));
  }

  lemma FirstPart(ds: seq<seq<Byte>>, i: nat, n: nat)
    requires i < |ds| && n <= |ds[i]|
    ensures n <= |Flat(ds[i..])| && Flat(ds[i..])[..n] == ds[i][0..0 + n]
  {
    FlatAt(ds, i);
    SkipInFirst(ds[i], Flat(ds[i + 1..]), n);
  }

  /** out holds n - left bytes, all of the blocks from start to i. */
  ghost predicate Pulling(ds: seq<seq<Byte>>, start: nat, n: nat, i: nat, left: nat, out: seq<Byte>) {
    && start <= i <= |ds| && |out| + left == n && left <= |Flat(ds[i..])|
    && out + Flat(ds[i..]) == Flat(ds[start..])
  }

  lemma PullsBlock(ds: seq<seq<Byte>>, start: nat, n: nat, i: nat, left: nat, out: seq<Byte>)
    requires Pulling(ds, start, n, i, left, out) && i < |ds| && left >= |ds[i]|
    ensures Pulling(ds, start, n, i + 1, left - |ds[i]|, out + ds[i])
  {
    FlatAt(ds, i);
    Assoc(out, ds[i], Flat(ds[i + 1..]));
  }

  lemma PullsPart(ds: seq<seq<Byte>>, start: nat, n: nat, i: nat, left: nat, out: seq<Byte>)
    requires Pulling(ds, start, n, i, left, out) && i < |ds| && left < |ds[i]|
    ensures out + ds[i][0..0 + left] + Flat(ds[i..])[left..] == Flat(ds[start..])
  {
    FirstPart(ds, i, left);
    Gathered([], out, Flat(ds[i..]), left);
  }

  /** a, then b, then the first left bytes of c, then the rest of c. */
  lemma Gathered<T>(a: seq<T>, b: seq<T>, c: seq<T>, left: nat)
    requires left <= |c|
    ensures a + (b + c[..left]) + c[left..] == a + (b + c)
    ensures b + c[..left] + c[left..] == b + c
  {
    SplitAt(c, left);
    Assoc(b, c[..left], c[left..]);
    Assoc(a, b + c[..left], c[left..]);
  }

  lemma MoreThanFirst(ds: seq<seq<Byte>>, last: nat)
    requires Shape(ds, last) && ds != [] && |ds[0]| < |Flat(ds)|
    ensures last >= 1
  {
    ShapeFlat(ds, last);
  }

  /** With the blocks from start to i and left bytes of block i gathered in out behind head. */
  lemma PullPlan(ds: seq<seq<Byte>>, last: nat, start: nat, head: seq<Byte>, out: seq<Byte>, i: nat, left: nat)
    requires Shape(ds, last) && ds != [] && start <= i <= |ds| && |ds[0]| < |Flat(ds)|
    requires if start == 0 then head == [] else start == 1 && head == ds[0]
    requires (if i < |ds| then left < |ds[i]| else left == 0) && left <= |Flat(ds[i..])|
    requires out + Flat(ds[i..])[left..] == Flat(ds[start..])
    requires head + out != []
    ensures start <= last && (i < |ds| ==> i <= last && HasData(ds, i)) && (i == |ds| ==> last < i)
    ensures Shape([head + out] + Tail(ds, i, left), if i < |ds| then last - i + 1 else 0)
    ensures Flat([head + out] + Tail(ds, i, left)) == Flat(ds)
  {
    MoreThanFirst(ds, last);
    PulledShape(ds, last, i, left, head + out);
    Assoc(head, out, Flat(ds[i..])[left..]);
    assert ds[0..] == ds && [] + Flat(ds) == Flat(ds);
    if i < |ds| {
      assert HasData(ds, i);
    }
  }

  lemma RestBytes(ds: seq<seq<Byte>>)
    requires ds != []
    ensures |Flat(ds)| == |ds[0]| + |Flat(ds[1..])|
  {
  }

  lemma TailSame(ds: seq<seq<Byte>>, d: seq<Byte>, i: nat, left: nat)
    requires ds != [] && 1 <= i <= |ds| && (i < |ds| ==> left <= |ds[i]|)
    ensures Tail(ds[0 := d], i, left) == Tail(ds, i, left)
  {
    assert ds[0 := d][i..] == ds[i..];
  }

  /** The block c holds the same as block i. */
  lemma HoldsReplaced(cs: seq<Chain>, ds: seq<seq<Byte>>, i: nat, c: Chain)
    requires Holds(cs, ds) && i < |cs| && c.Ok() && c.Data() == ds[i]
    requires c !in cs && forall j :: 0 <= j < |cs| ==> cs[j].buffer != c.buffer
    ensures Holds(cs[i := c], ds)
  {
    var cs' := cs[i := c];
    forall k, l | 0 <= k < l < |cs|
      ensures Differ(cs', k, l)
    {
      Distinct(cs, k, l);
    }
    forall k | 0 <= k < |cs|
      ensures HoldsAt(cs', ds, k)
    {
      assert HoldsAt(cs, ds, k);
    }
  }

  lemma HoldsFirstAnd(cs: seq<Chain>, ds: seq<seq<Byte>>, i: nat)
    requires Holds(cs, ds) && 1 <= i <= |cs|
    ensures Holds([cs[0]] + cs[i..], [ds[0]] + ds[i..])
  {
    var c := [cs[0]] + cs[i..];
    forall k, l | 0 <= k < l < |c|
      ensures Differ(c, k, l)
    {
      Distinct(cs, if k == 0 then 0 else i + k - 1, i + l - 1);
    }
    forall k | 0 <= k < |c|
      ensures HoldsAt(c, [ds[0]] + ds[i..], k)
    {
      assert HoldsAt(cs, ds, if k == 0 then 0 else i + k - 1);
    }
  }

  // ---- Positions -----------------------------------------------------------

  /** An evbuffer_ptr: a byte position, and the block and place in it where it is;
      block |ds| stands for the null chain pointer. */
  datatype Ptr = Ptr(pos: int, chain: nat, inChain: nat)

  datatype Place = Beginning | At(ptr: Ptr)

  ghost predicate PtrOk(ds: seq<seq<Byte>>, p: Ptr) {
    && p.chain <= |ds|
    && p.inChain <= (if p.chain < |ds| then |ds[p.chain]| else 0)
    && p.pos == |Flat(ds[..p.chain])| + p.inChain
  }

  /** What is left to read at p. */
  ghost function From(ds: seq<seq<Byte>>, chain: nat, inChain: nat): seq<Byte>
    requires chain <= |ds| && inChain <= |Flat(ds[chain..])|
  {
    Flat(ds[chain..])[inChain..]
  }

  lemma PtrFrom(ds: seq<seq<Byte>>, p: Ptr)
    requires PtrOk(ds, p)
    ensures p.inChain <= |Flat(ds[p.chain..])|
    ensures p.pos <= |Flat(ds)| && Flat(ds)[p.pos..] == From(ds, p.chain, p.inChain)
  {
    assert ds == ds[..p.chain] + ds[p.chain..];
    FlatConcat(ds[..p.chain], ds[p.chain..]);
    if p.chain < |ds| {
      FlatAt(ds, p.chain);
    }
    SkipFirst(Flat(ds[..p.chain]), Flat(ds[p.chain..]), p.pos);
  }

  lemma FromBlock(ds: seq<seq<Byte>>, chain: nat, inChain: nat)
    requires chain < |ds| && inChain <= |ds[chain]|
    ensures inChain <= |Flat(ds[chain..])|
    ensures From(ds, chain, inChain) == ds[chain][inChain..] + From(ds, chain + 1, 0)
  {
    FlatAt(ds, chain);
    SkipInFirst(ds[chain], Flat(ds[chain + 1..]), inChain);
  }

  lemma TakeMore<T>(out: seq<T>, a: seq<T>, b: seq<T>, n: nat)
    requires |a| <= n <= |a| + |b|
    ensures out + (a + b)[..n] == out + a + b[..n - |a|]
  {
    assert (a + b)[..n] == a + b[..n - |a|];
    Assoc(out, a, b[..n - |a|]);
  }

  /** With left bytes more from the given place, out becomes want. */
  ghost predicate ToCopy(ds: seq<seq<Byte>>, chain: nat, inChain: nat, left: nat, out: seq<Byte>, want: seq<Byte>) {
    && chain <= |ds|
    && inChain <= (if chain < |ds| then |ds[chain]| else 0) <= |Flat(ds[chain..])|
    && left <= |From(ds, chain, inChain)|
    && out + From(ds, chain, inChain)[..left] == want
  }

  lemma FlatNone(ds: seq<seq<Byte>>)
    ensures Flat(ds[|ds|..]) == []
  {
  }

  lemma ToCopyBlock(ds: seq<seq<Byte>>, chain: nat, inChain: nat, left: nat, out: seq<Byte>, want: seq<Byte>)
    requires ToCopy(ds, chain, inChain, left, out, want) && left != 0
    ensures chain < |ds|
    ensures left >= |ds[chain]| - inChain ==>
              ToCopy(ds, chain + 1, 0, left - (|ds[chain]| - inChain), out + ds[chain][inChain..], want)
    ensures left < |ds[chain]| - inChain ==> out + ds[chain][inChain..inChain + left] == want
  {
    FlatNone(ds);
    FromBlock(ds, chain, inChain);
    var bytes, rest := ds[chain][inChain..], From(ds, chain + 1, 0);
    if left >= |bytes| {
      TakeMore(out, bytes, rest, left);
      if chain + 1 < |ds| {
        FromBlock(ds, chain + 1, 0);
      }
    } else {
      TakeWithin(bytes, rest, left);
      assert bytes[..left] == ds[chain][inChain..inChain + left];
    }
  }

  lemma TakeWithin<T>(a: seq<T>, b: seq<T>, n: nat)
    requires n <= |a|
    ensures (a + b)[..n] == a[..n]
  {
  }

  /** The conversion of a size to int. */
  function AsInt(n: int): (i: int)
    ensures -0x8000_0000 <= i < 0x8000_0000 && (i - n) % 0x1_0000_0000 == 0
  {
    (n + 0x8000_0000) % 0x1_0000_0000 - 0x8000_0000
  }

  // ---- The buffer ----------------------------------------------------------

  class EvBuffer {
    var chains: seq<Chain>      // the list from first to last
    var lwd: nat                // *last_with_datap is chains[lwd], or null at the end of the list
    var totalLen: nat
    var freezeStart: bool
    var freezeEnd: bool
    ghost var datas: seq<seq<Byte>>   // what each block holds

    ghost predicate Stored()
      reads this, Memory(chains)
    {
      Holds(chains, datas)
    }

    ghost predicate Valid()
      reads this, Memory(chains)
    {
      && Stored()
      && Shape(datas, lwd)
      && totalLen == |Flat(datas)| <= EV_SIZE_MAX
    }

    /** What the buffer holds. */
    ghost function Bytes(): seq<Byte>
      reads this
    {
      Flat(datas)
    }

    constructor ()
      ensures Valid() && Bytes() == [] && chains == [] && !freezeStart && !freezeEnd
    {
      chains, lwd, totalLen, freezeStart, freezeEnd := [], 0, 0, false, false;
      datas := [];
    }

    /** Write the list, its last block with data and its length. */
    method SetList(cs: seq<Chain>, last: nat, total: nat, ghost ds: seq<seq<Byte>>)
      requires Holds(cs, ds) && Shape(ds, last) && total == |Flat(ds)| <= EV_SIZE_MAX
      modifies `chains, `lwd, `totalLen, `datas
      ensures Valid() && chains == cs && lwd == last && totalLen == total && datas == ds
    {
      chains, lwd, totalLen, datas := cs, last, total, ds;
    }

    // -- One block of the list ----

    method AppendAt(i: nat, data: seq<Byte>)
      requires Stored() && i < |chains| && |data| <= chains[i].SpaceLen()
      modifies `datas, chains[i], chains[i].buffer
      ensures Stored() && datas == old(datas)[i := old(datas[i]) + data]
      ensures chains[i].off == old(chains[i].off) + |data| && chains[i].misalign == old(chains[i].misalign)
    {
      Block(chains, datas, i);
      chains[i].Append(data);
      datas := datas[i := datas[i] + data];
      forall j | 0 <= j < |chains|
        ensures HoldsAt(chains, datas, j)
      {
        if j != i {
          Distinct(chains, i, j);
          assert old(HoldsAt(chains, datas, j));
        }
      }
    }

    method PrependAt(i: nat, data: seq<Byte>)
      requires Stored() && i < |chains| && |data| <= chains[i].misalign
      modifies `datas, chains[i], chains[i].buffer
      ensures Stored() && datas == old(datas)[i := data + old(datas[i])]
      ensures chains[i].misalign == old(chains[i].misalign) - |data|
    {
      Block(chains, datas, i);
      chains[i].Prepend(data);
      datas := datas[i := data + datas[i]];
      forall j | 0 <= j < |chains|
        ensures HoldsAt(chains, datas, j)
      {
        if j != i {
          Distinct(chains, i, j);
          assert old(HoldsAt(chains, datas, j));
        }
      }
    }

    method DropAt(i: nat, n: nat)
      requires Stored() && i < |chains| && n <= |datas[i]|
      modifies `datas, chains[i]
      ensures Stored() && datas == old(datas)[i := old(datas[i])[n..]]
    {
      Block(chains, datas, i);
      ghost var d := datas[i][n..];
      chains[i].DropFront(n);
      datas := datas[i := d];
      forall j | 0 <= j < |chains|
        ensures HoldsAt(chains, datas, j)
      {
        if j != i {
          Distinct(chains, i, j);
          assert old(HoldsAt(chains, datas, j));
        }
      }
    }

    method AlignAt(i: nat)
      requires Stored() && i < |chains|
      modifies chains[i], chains[i].buffer
      ensures Stored() && chains[i].misalign == 0 && chains[i].off == old(chains[i].off)
    {
      Block(chains, datas, i);
      chains[i].Align();
      forall j | 0 <= j < |chains|
        ensures HoldsAt(chains, datas, j)
      {
        if j != i {
          Distinct(chains, i, j);
          assert old(HoldsAt(chains, datas, j));
        }
      }
    }

    // -- The end of the list ----

    /** evbuffer_free_trailing_empty_chains */
    method FreeTrailingEmptyChains() returns (at: nat)
      requires Valid()
      modifies `chains, `lwd, `totalLen, `datas
      ensures lwd == old(lwd) && totalLen == old(totalLen)
      ensures Valid() && Bytes() == old(Bytes())
      ensures at == |chains| == Kept(datas, lwd) <= |old(chains)| && chains == old(chains)[..at]
      ensures at == Kept(old(datas), lwd)
    {
      KeptShape(datas, lwd);
      Offs(chains, datas);
      at := lwd;
      while at < |chains| && chains[at].off != 0
        invariant lwd <= at <= |chains| && (lwd < at ==> at == lwd + 1 && HasData(datas, lwd))
      {
        at := at + 1;
      }
      HoldsSlice(chains, datas, 0, at);
      SetList(chains[..at], lwd, totalLen, datas[..at]);
      KeptShape(datas, lwd);
    }

    /** evbuffer_chain_insert */
    method ChainInsert(chain: Chain)
      requires Valid() && chain.Ok() && Apart(chains + [chain]) && totalLen + chain.off <= EV_SIZE_MAX
      modifies `chains, `lwd, `totalLen, `datas
      ensures Valid() && Bytes() == old(Bytes()) + chain.Data()
      ensures chains != [] && chains[|chains| - 1] == chain && chains[..|chains| - 1] <= old(chains)
      ensures lwd == (if chain.off != 0 then |chains| - 1 else old(lwd)) < |chains|
    {
      ghost var cs := chains;
      var at := FreeTrailingEmptyChains();
      ApartKept(cs, at, chain);
      Inserted(chains, datas, lwd, chain);
      SetList(chains + [chain], if chain.off != 0 then at else lwd, totalLen + chain.off, datas + [chain.Data()]);
    }

    // -- Adding at the end ----

    ghost function LastBlock(): set<object>
      reads this
    {
      if lwd < |chains| then {chains[lwd], chains[lwd].buffer} else {}
    }

    /** When the first datlen bytes move to dst, the part of a block among them fits in the
        block it then follows: the last of the whole blocks that move, or dst's own. */
    ghost predicate PartFits(dst: EvBuffer, datlen: nat)
      requires Stored() && datlen < |Flat(datas)|
      reads this, chains, Memory(chains), dst, dst.chains
    {
      var (blocks, part) := Filling(datas, datlen);
      if blocks == 0 then dst.HasRoom(part) else blocks <= |chains| && chains[blocks - 1].TakesMore(part)
    }

    /** Where evbuffer_add adds */
    ghost function End(): Room
      reads this, chains
    {
      if lwd < |chains| then chains[lwd].End() else NoBlock
    }

    /** evbuffer_add has room for n bytes without a new block. */
    ghost predicate HasRoom(n: nat)
      reads this, chains
    {
      End().Takes(n)
    }

    /** Copy data behind the last byte. */
    method AddInPlace(data: seq<Byte>)
      requires Valid() && lwd < |chains| && |data| <= chains[lwd].SpaceLen() && totalLen + |data| <= EV_SIZE_MAX
      modifies `datas, `totalLen, chains[lwd], chains[lwd].buffer
      ensures Valid() && Bytes() == old(Bytes()) + data
      ensures End() == Room(old(End().size), old(End().misalign), old(End().off) + |data|)
    {
      GrownLast(datas, lwd, data);
      AppendAt(lwd, data);
      totalLen := totalLen + |data|;
    }

    /** Fill the last block up and put tmp, which holds the rest of data, behind it. */
    method Spill(data: seq<Byte>, remain: nat, tmp: Chain)
      requires Valid() && lwd < |chains| && remain == chains[lwd].SpaceLen() < |data| <= EV_SIZE_MAX - totalLen
      requires Apart(chains + [tmp]) && tmp.Ok() && tmp.Data() == data[remain..]
      modifies `chains, `lwd, `totalLen, `datas, LastBlock()
      ensures Valid()
      ensures chains != [] && chains[|chains| - 1] == tmp && chains[..|chains| - 1] <= old(chains)
      ensures Bytes() == old(Bytes()) + data && End() == old(tmp.End())
    {
      Halves(Bytes(), data, remain);
      Distinct(chains + [tmp], lwd, |chains|);
      Block(chains, datas, lwd);
      if remain != 0 {
        AddInPlace(data[..remain]);
      }
      assert Bytes() == old(Bytes()) + data[..remain];
      ChainInsert(tmp);
    }

    /** Fill the last block up and put the rest of data in a new one. */
    method AddNewChain(data: seq<Byte>, memory: bool) returns (result: int)
      requires Valid() && lwd < |chains| && chains[lwd].SpaceLen() < |data| <= EV_SIZE_MAX - totalLen
      modifies `chains, `lwd, `totalLen, `datas, LastBlock()
      ensures Valid()
      ensures chains == old(chains) || (chains != [] && chains[..|chains| - 1] <= old(chains) && fresh(chains[|chains| - 1]) && fresh(chains[|chains| - 1].buffer))
      ensures result == (if memory && |data| <= EVBUFFER_CHAIN_MAX - EVBUFFER_CHAIN_SIZE then 0 else -1)
      ensures Bytes() == (if result == 0 then old(Bytes()) + data else old(Bytes()))
      ensures End() == if result == 0 then Room(old(Capacity(End().Asked(|data|))), 0, |data| - old(chains[lwd].SpaceLen())) else old(End())
    {
      Block(chains, datas, lwd);
      var chain := chains[lwd];
      var remain := chain.SpaceLen();
      var toAlloc := chain.buffer.Length;
      if toAlloc <= EVBUFFER_CHAIN_MAX_AUTO_SIZE / 2 {
        toAlloc := toAlloc * 2;
      }
      if |data| > toAlloc {
        toAlloc := |data|;
      }
      var tmp := FilledChain(toAlloc, data[remain..], memory);
      if tmp == null {
        return -1;
      }
      ApartPush(chains, tmp);
      Spill(data, remain, tmp);
      return 0;
    }

    /** evbuffer_add */
    method Add(data: seq<Byte>, memory: bool) returns (result: int)
      requires Valid()
      modifies `chains, `lwd, `totalLen, `datas, LastBlock()
      ensures Valid()
      ensures chains == old(chains) || (chains != [] && chains[..|chains| - 1] <= old(chains) && fresh(chains[|chains| - 1]) && fresh(chains[|chains| - 1].buffer))
      ensures result == 0 || result == -1
      ensures result == 0 <==>
              && !freezeEnd && |data| <= EV_SIZE_MAX - old(totalLen)
              && (old(HasRoom(|data|)) || (memory && |data| <= EVBUFFER_CHAIN_MAX - EVBUFFER_CHAIN_SIZE))
      ensures Bytes() == (if result == 0 then old(Bytes()) + data else old(Bytes()))
      ensures End() == if result == 0 then old(End().Plus(|data|)) else old(End())
      ensures forall o :: o in Memory(chains) ==> o in old(Memory(chains)) || fresh(o)
    {
      if freezeEnd || |data| > EV_SIZE_MAX - totalLen {
        return -1;
      }
      if lwd == |chains| {
        var ok := AddFirst(|data|, memory);
        if !ok {
          return -1;
        }
      }
      result := AddTo(data, memory);
      LastNew(old(chains), chains);
    }

    /** A first block, with room for n bytes */
    method AddFirst(n: nat, memory: bool) returns (ok: bool)
      requires Valid() && lwd == |chains|
      modifies `chains, `lwd, `totalLen, `datas
      ensures Valid() && Bytes() == old(Bytes()) && totalLen == old(totalLen)
      ensures ok <==> memory && n <= EVBUFFER_CHAIN_MAX - EVBUFFER_CHAIN_SIZE
      ensures !ok ==> chains == old(chains) && End() == old(End())
      ensures ok ==> lwd == |chains| - 1 && chains[..lwd] <= old(chains) && fresh(chains[lwd]) && fresh(chains[lwd].buffer)
      ensures ok ==> End() == Room(Capacity(n), 0, 0)
    {
      var first := ChainNew(n, memory);
      if first != null {
        ApartPush(chains, first);
        WholeSlice(Bytes());
        ChainInsert(first);
      }
      ok := first != null;
    }

    /** evbuffer_add where there is a block */
    method AddTo(data: seq<Byte>, memory: bool) returns (result: int)
      requires Valid() && lwd < |chains| && |data| <= EV_SIZE_MAX - totalLen
      modifies `chains, `lwd, `totalLen, `datas, LastBlock()
      ensures Valid()
      ensures chains == old(chains) || (chains != [] && chains[..|chains| - 1] <= old(chains) && fresh(chains[|chains| - 1]) && fresh(chains[|chains| - 1].buffer))
      ensures result == if old(HasRoom(|data|)) || (memory && |data| <= EVBUFFER_CHAIN_MAX - EVBUFFER_CHAIN_SIZE) then 0 else -1
      ensures old(chains[lwd].SpaceLen()) >= |data| ==> chains == old(chains)
      ensures Bytes() == (if result == 0 then old(Bytes()) + data else old(Bytes()))
      ensures End() == if result == 0 then old(End().Plus(|data|)) else old(End())
    {
      if chains[lwd].SpaceLen() >= |data| {
        AddInPlace(data);
        return 0;
      }
      if chains[lwd].ShouldRealign(|data|) {
        AlignAt(lwd);
        AddInPlace(data);
        return 0;
      }
      result := AddNewChain(data, memory);
    }

    // -- Adding at the start ----

    /** The bytes that fit in front of the first block's data. */
    function FrontRoom(): nat
      reads this, chains
    {
      if chains == [] then 0 else if chains[0].off == 0 then chains[0].buffer.Length else chains[0].misalign
    }

    ghost function FirstBlock(): set<object>
      reads this
    {
      if chains != [] then {chains[0], chains[0].buffer} else {}
    }

    /** Copy data in front of the first byte. */
    method PrependInPlace(data: seq<Byte>)
      requires Valid() && chains != [] && |data| <= chains[0].misalign && totalLen + |data| <= EV_SIZE_MAX
      modifies `datas, `totalLen, FirstBlock()
      ensures Valid() && Bytes() == data + old(Bytes())
      ensures |datas| == |chains| && datas[0] == data + old(datas[0])
    {
      GrownFirst(datas, lwd, data);
      PrependAt(0, data);
      totalLen := totalLen + |data|;
    }

    /** If the first block is empty, let all of it be free in front. */
    method ReadyFront()
      requires Valid() && chains != []
      modifies FirstBlock()
      ensures Valid() && chains[0].misalign == old(FrontRoom())
      ensures chains[0].off == old(chains[0].off)
    {
      Block(chains, datas, 0);
      if chains[0].off == 0 {
        chains[0].FreeAtFront();
        forall j | 0 <= j < |chains|
          ensures HoldsAt(chains, datas, j)
        {
          if j != 0 {
            Distinct(chains, 0, j);
            assert old(HoldsAt(chains, datas, j));
          }
        }
      }
    }

    /** Link the block c, which is not empty, in front. */
    method PutFront(c: Chain)
      requires Valid() && chains != [] && datas[0] != [] && c.Ok() && c.off != 0 && totalLen + c.off <= EV_SIZE_MAX
      requires c !in chains && forall i :: 0 <= i < |chains| ==> chains[i].buffer != c.buffer
      modifies `chains, `lwd, `totalLen, `datas
      ensures Valid()
      ensures Bytes() == old(c.Data()) + old(Bytes())
      ensures chains == [c] + old(chains)
    {
      ApartFront(chains, c);
      Fronted(chains, datas, lwd, c);
      SetList([c] + chains, lwd + 1, totalLen + c.off, [c.Data()] + datas);
    }

    /** Put data, which is not empty, into a new first block. */
    method NewFront(data: seq<Byte>, memory: bool) returns (result: int)
      requires Valid() && chains != [] && datas[0] != [] && data != [] && totalLen + |data| <= EV_SIZE_MAX
      modifies `chains, `lwd, `totalLen, `datas
      ensures Valid()
      ensures result == (if memory && |data| <= EVBUFFER_CHAIN_MAX - EVBUFFER_CHAIN_SIZE then 0 else -1)
      ensures Bytes() == (if result == 0 then data + old(Bytes()) else old(Bytes()))
      ensures forall o :: o in Memory(chains) ==> o in old(Memory(chains)) || fresh(o)
    {
      var tmp := FilledFromEnd(data, memory);
      if tmp == null {
        return -1;
      }
      assert [tmp] + chains[0..] == [tmp] + chains;
      MemoryFirstAnd(tmp, chains, 0);
      PutFront(tmp);
      return 0;
    }

    /** evbuffer_prepend */
    method Prepend(data: seq<Byte>, memory: bool) returns (result: int)
      requires Valid()
      modifies `chains, `lwd, `totalLen, `datas, FirstBlock()
      ensures Valid()
      ensures result == 0 || result == -1
      ensures result == 0 <==>
              && !freezeStart && |data| <= EV_SIZE_MAX - old(totalLen)
              && ((old(chains) != [] && |data| <= old(FrontRoom()))
                  || (memory && |data| - old(FrontRoom()) <= EVBUFFER_CHAIN_MAX - EVBUFFER_CHAIN_SIZE))
      ensures result == 0 ==> Bytes() == data + old(Bytes())
      ensures result == -1 ==>
                var fit := if freezeStart || |data| > EV_SIZE_MAX - old(totalLen) then 0 else old(FrontRoom());
                fit <= |data| && Bytes() == data[|data| - fit..] + old(Bytes())
      ensures forall o :: o in Memory(chains) ==> o in old(Memory(chains)) || fresh(o)
    {
      if freezeStart || |data| > EV_SIZE_MAX - totalLen {
        return -1;
      }
      if chains == [] {
        result := PrependFirst(data, memory);
      } else {
        result := PrependTo(data, memory);
      }
    }

    /** evbuffer_prepend where there is no block */
    method PrependFirst(data: seq<Byte>, memory: bool) returns (result: int)
      requires Valid() && chains == [] && |data| <= EV_SIZE_MAX
      modifies `chains, `lwd, `totalLen, `datas
      ensures Valid()
      ensures result == if memory && |data| <= EVBUFFER_CHAIN_MAX - EVBUFFER_CHAIN_SIZE then 0 else -1
      ensures Bytes() == if result == 0 then data else []
      ensures forall o :: o in Memory(chains) ==> fresh(o)
    {
      assert Bytes() == [];
      var first := ChainNew(|data|, memory);
      if first == null {
        return -1;
      }
      ChainInsert(first);
      ReadyFront();
      PrependInPlace(data);
      assert data + [] == data && chains == [first];
      return 0;
    }

    /** evbuffer_prepend where there is one */
    method PrependTo(data: seq<Byte>, memory: bool) returns (result: int)
      requires Valid() && chains != [] && |data| <= EV_SIZE_MAX - totalLen
      modifies `chains, `lwd, `totalLen, `datas, FirstBlock()
      ensures Valid()
      ensures result == if |data| <= old(FrontRoom()) || (memory && |data| - old(FrontRoom()) <= EVBUFFER_CHAIN_MAX - EVBUFFER_CHAIN_SIZE) then 0 else -1
      ensures result == 0 ==> Bytes() == data + old(Bytes())
      ensures result == -1 ==> old(FrontRoom()) <= |data| && Bytes() == data[|data| - old(FrontRoom())..] + old(Bytes())
      ensures forall o :: o in Memory(chains) ==> o in old(Memory(chains)) || fresh(o)
    {
      ReadyFront();
      Block(chains, datas, 0);
      if chains[0].misalign >= |data| {
        PrependInPlace(data);
        return 0;
      }
      result := PrependBoth(data, memory);
    }

    /** What fits goes into the first block, the rest into a new one. */
    method PrependBoth(data: seq<Byte>, memory: bool) returns (result: int)
      requires Valid() && chains != [] && chains[0].misalign < |data| && totalLen + |data| <= EV_SIZE_MAX
      requires datas[0] == [] ==> chains[0].misalign > 0
      modifies `chains, `lwd, `totalLen, `datas, FirstBlock()
      ensures Valid()
      ensures result == (if memory && |data| - old(chains[0].misalign) <= EVBUFFER_CHAIN_MAX - EVBUFFER_CHAIN_SIZE then 0 else -1)
      ensures Bytes() == (if result == 0 then data else data[|data| - old(chains[0].misalign)..]) + old(Bytes())
      ensures forall o :: o in Memory(chains) ==> o in old(Memory(chains)) || fresh(o)
    {
      var fit := chains[0].misalign;
      Fitted(data, |data| - fit, Bytes());
      if fit != 0 {
        PrependInPlace(data[|data| - fit..]);
      }
      assert Bytes() == data[|data| - fit..] + old(Bytes());
      result := NewFront(data[..|data| - fit], memory);
    }

    // -- Taking from the front ----

    /** Unlink the blocks before i and drop the first remaining bytes of block i. */
    method CutFront(i: nat, lw: nat, remaining: nat, total: nat)
      requires Valid() && i < |chains| && remaining < |datas[i]| && lw == Behind(lwd, i)
      requires total == |Flat(datas[i..])| - remaining <= EV_SIZE_MAX
      modifies `chains, `lwd, `totalLen, `datas, chains[i]
      ensures Valid() && Bytes() == old(Flat(datas[i..]))[remaining..] && chains == old(chains)[i..]
    {
      DropsPart(datas, lwd, i, remaining);
      ghost var ds := datas[i..][0 := datas[i][remaining..]];
      DropAt(i, remaining);
      HoldsRest(chains, datas, i);
      assert datas[i..] == ds;
      SetList(chains[i..], lw, total, ds);
    }

    /** evbuffer_drain */
    method Drain(len: nat) returns (result: int)
      requires Valid()
      modifies `chains, `lwd, `totalLen, `datas, Memory(chains)
      ensures Valid() && Memory(chains) <= old(Memory(chains))
      ensures result == (if old(totalLen) > 0 && freezeStart then -1 else 0)
      ensures Bytes() == if result == 0 then old(Bytes())[Min(len, old(totalLen))..] else old(Bytes())
    {
      if totalLen == 0 {
        return 0;
      }
      if freezeStart {
        return -1;
      }
      if len >= totalLen {
        SetList([], 0, 0, []);
        return 0;
      }
      var remaining, i, lw := len, 0, lwd;
      assert datas[0..] == datas;
      while remaining >= chains[i].off
        modifies {}
        invariant i < |chains| && 0 <= remaining < |Flat(datas[i..])|
        invariant lw == if lwd <= i then 0 else lwd
        invariant Flat(datas)[len..] == Flat(datas[i..])[remaining..]
        decreases |chains| - i
      {
        Block(chains, datas, i);
        DropsBlock(datas, i, remaining);
        remaining := remaining - chains[i].off;
        if lw == i || lw == i + 1 {
          lw := 0;
        }
        i := i + 1;
      }
      Block(chains, datas, i);
      Among(chains, i);
      MemoryRest(chains, i);
      CutFront(i, if lw == 0 then 0 else lw - i, remaining, totalLen - len);
      return 0;
    }

    // -- Copying out ----

    /** The data of block i. */
    method BlockBytes(i: nat) returns (bytes: seq<Byte>)
      requires Stored() && i < |chains|
      ensures bytes == datas[i] && |bytes| == chains[i].off
    {
      Block(chains, datas, i);
      bytes := chains[i].Read(0, chains[i].off);
    }

    method BlockStart(i: nat, n: nat) returns (bytes: seq<Byte>)
      requires Stored() && i < |chains| && n <= chains[i].off
      ensures |datas[i]| == chains[i].off && bytes == datas[i][..n]
    {
      Block(chains, datas, i);
      bytes := chains[i].Read(0, n);
    }

    /** The bytes the copying loop of evbuffer_copyout_from yields. */
    method CopyFrom(chain: nat, inChain: nat, n: nat) returns (out: seq<Byte>)
      requires Valid() && chain <= |chains|
      requires inChain <= (if chain < |chains| then |datas[chain]| else 0) <= |Flat(datas[chain..])|
      requires n <= |From(datas, chain, inChain)|
      ensures out == From(datas, chain, inChain)[..n]
    {
      var ci: nat, start: nat, left: nat := chain, inChain, n;
      out := [];
      ghost var want := From(datas, chain, inChain)[..n];
      assert out + want == want;
      while left != 0 && left >= chains[ci].off - start
        modifies {}
        invariant ToCopy(datas, ci, start, left, out, want)
        invariant left != 0 ==> ci < |chains|
        decreases |chains| - ci
      {
        Block(chains, datas, ci);
        ToCopyBlock(datas, ci, start, left, out, want);
        var bytes := chains[ci].Read(start, chains[ci].off - start);
        assert bytes == datas[ci][start..];
        out := out + bytes;
        left := left - |bytes|;
        ci, start := ci + 1, 0;
        if left != 0 {
          ToCopyBlock(datas, ci, start, left, out, want);
        }
      }
      if left != 0 {
        Block(chains, datas, ci);
        ToCopyBlock(datas, ci, start, left, out, want);
        var bytes := chains[ci].Read(start, left);
        out := out + bytes;
      } else {
        assert out + [] == out;
      }
    }

    /** evbuffer_copyout_from; out is what it stores at data_out. */
    method CopyoutFrom(place: Place, datlen: nat) returns (result: int, out: seq<Byte>)
      requires Valid() && (place.At? ==> PtrOk(datas, place.ptr))
      ensures var start := if place.At? then place.ptr.pos else 0;
              var n := if datlen > totalLen - start then totalLen - start else datlen;
              if place.At? && datlen > EV_SSIZE_MAX - start then result == -1 && out == []
              else if n == 0 then result == 0 && out == []
              else if freezeStart then result == -1 && out == []
              else 0 <= start && 0 <= n && result == n && out == Bytes()[start..start + n]
    {
      var p := if place.At? then place.ptr else Ptr(0, 0, 0);
      assert datas[..0] == [];
      if place.At? && datlen > EV_SSIZE_MAX - p.pos {
        return -1, [];
      }
      PtrFrom(datas, p);
      var n := datlen;
      if n > totalLen - p.pos {
        n := totalLen - p.pos;
      }
      if n == 0 {
        return 0, [];
      }
      if freezeStart {
        return -1, [];
      }
      if p.chain < |chains| {
        FromBlock(datas, p.chain, p.inChain);
      }
      out := CopyFrom(p.chain, p.inChain, n);
      assert Bytes()[p.pos..][..n] == Bytes()[p.pos..p.pos + n];
      result := n;
    }

    /** evbuffer_remove */
    method Remove(datlen: nat) returns (result: int, out: seq<Byte>)
      requires Valid()
      modifies `chains, `lwd, `totalLen, `datas, Memory(chains)
      ensures Valid() && Memory(chains) <= old(Memory(chains))
      ensures if freezeStart && datlen > 0 && old(totalLen) > 0
              then result == -1 && out == [] && Bytes() == old(Bytes())
              else out == old(Bytes())[..Min(datlen, old(totalLen))] && out + Bytes() == old(Bytes()) && result == AsInt(|out|)
    {
      var n;
      n, out := CopyoutFrom(Beginning, datlen);
      if n > 0 {
        SplitAt(Bytes(), n);
        var drained := Drain(n);
        if drained < 0 {
          n := -1;
        }
      }
      result := AsInt(n);
    }

    // -- Moving between buffers ----

    /** Link the blocks cs behind the last block with data; the one at last is the last of cs with data. */
    method AppendChain(cs: seq<Chain>, last: nat, total: nat, ghost ds: seq<seq<Byte>>)
      requires Valid() && Holds(cs, ds) && Shape(ds, last) && HasData(ds, last) && Apart(chains + cs)
      requires total == |Flat(ds)| && totalLen + total <= EV_SIZE_MAX
      modifies `chains, `lwd, `totalLen, `datas
      ensures Valid() && Bytes() == old(Bytes()) + Flat(ds)
      ensures exists n :: 0 <= n <= |old(chains)| && chains == old(chains)[..n] + cs
      ensures Memory(chains) <= old(Memory(chains)) + Memory(cs)
    {
      ghost var all := chains;
      var at := FreeTrailingEmptyChains();
      ApartPick(all, cs, at, |cs|);
      assert cs[..|cs|] == cs;
      KeptShape(datas, lwd);
      HoldsConcat(chains, datas, cs, ds);
      ShapeConcat(datas, ds, last);
      MemoryParts(all, at, cs);
      SetList(chains + cs, at + last, totalLen + total, datas + ds);
    }

    /** evbuffer_add_buffer, with this as outbuf */
    method AddBuffer(inbuf: EvBuffer) returns (result: int)
      requires Valid() && inbuf.Valid()
      requires inbuf != this ==> Apart(chains + inbuf.chains) && totalLen + inbuf.totalLen <= EV_SIZE_MAX
      modifies `chains, `lwd, `totalLen, `datas, inbuf`chains, inbuf`lwd, inbuf`totalLen, inbuf`datas
      ensures Valid() && inbuf.Valid()
      ensures inbuf != this ==> Apart(chains + inbuf.chains)
      ensures result == if old(inbuf.totalLen) == 0 || inbuf == this || !(freezeEnd || inbuf.freezeStart) then 0 else -1
      ensures if result == 0 && inbuf != this
              then Bytes() == old(Bytes() + inbuf.Bytes()) && inbuf.Bytes() == []
              else Bytes() == old(Bytes()) && inbuf.Bytes() == old(inbuf.Bytes())
      ensures Memory(chains) + Memory(inbuf.chains) <= old(Memory(chains) + Memory(inbuf.chains))
    {
      if inbuf.totalLen == 0 || inbuf == this {
        return 0;
      }
      if freezeEnd || inbuf.freezeStart {
        return -1;
      }
      TakeAll(inbuf.chains, inbuf.lwd, inbuf.totalLen, inbuf.datas);
      inbuf.SetList([], 0, 0, []);
      assert chains + inbuf.chains == chains;
      return 0;
    }

    /** Link all the blocks of another buffer, which has data, behind the data. */
    method TakeAll(cs: seq<Chain>, last: nat, total: nat, ghost ds: seq<seq<Byte>>)
      requires Valid() && Holds(cs, ds) && Shape(ds, last) && Apart(chains + cs)
      requires total == |Flat(ds)| > 0 && totalLen + total <= EV_SIZE_MAX
      modifies `chains, `lwd, `totalLen, `datas
      ensures Valid() && Bytes() == old(Bytes()) + Flat(ds)
      ensures Apart(chains) && Memory(chains) <= old(Memory(chains)) + Memory(cs)
    {
      ShapeFlat(ds, last);
      if totalLen == 0 {
        NoBytes(Bytes(), Flat(ds));
        SetList(cs, last, total, ds);
      } else {
        AppendChain(cs, last, total, ds);
      }
    }

    /** advance_last_with_data */
    method AdvanceLastWithData()
      requires Stored() && if chains == [] then lwd == 0 else lwd < |chains|
      modifies `lwd
      ensures old(lwd) <= lwd && (chains != [] ==> lwd < |chains|)
      ensures forall i :: old(lwd) < i <= lwd ==> HasData(datas, i)
      ensures lwd + 1 < |chains| ==> !HasData(datas, lwd + 1)
    {
      if lwd == |chains| {
        return;
      }
      Offs(chains, datas);
      while lwd + 1 < |chains| && chains[lwd + 1].off != 0
        modifies `lwd
        invariant old(lwd) <= lwd < |chains|
        invariant forall i :: old(lwd) < i <= lwd ==> HasData(datas, i)
      {
        lwd := lwd + 1;
      }
    }

    /** The part of evbuffer_remove_buffer that links whole blocks, with this as dst. */
    method AppendMoved(cs: seq<Chain>, total: nat, ghost ds: seq<seq<Byte>>)
      requires Valid() && Holds(cs, ds) && AllData(ds) && ds != [] && Apart(chains + cs)
      requires total == |Flat(ds)| && totalLen + total <= EV_SIZE_MAX
      modifies `chains, `lwd, `totalLen, `datas
      ensures Valid() && Bytes() == old(Bytes()) + Flat(ds)
      ensures chains != [] && lwd == |chains| - 1
      ensures exists n :: 0 <= n <= |old(chains)| && chains == old(chains)[..n] + cs
    {
      ghost var all := chains;
      var at := FreeTrailingEmptyChains();
      ApartPick(all, cs, at, |cs|);
      assert cs[..|cs|] == cs;
      KeptShape(datas, lwd);
      HoldsConcat(chains, datas, cs, ds);
      AllDataConcat(datas, ds);
      FlatConcat(datas, ds);
      LinkBehind(cs, total, ds);
    }

    /** Link the blocks cs behind the others; all have data. */
    method LinkBehind(cs: seq<Chain>, total: nat, ghost ds: seq<seq<Byte>>)
      requires Holds(chains + cs, datas + ds) && AllData(datas + ds) && |datas| == |chains| && ds != []
      requires Shape(datas, lwd) && totalLen + total == |Flat(datas + ds)| <= EV_SIZE_MAX
      modifies `chains, `lwd, `totalLen, `datas
      ensures Valid() && chains == old(chains) + cs && datas == old(datas) + ds && lwd == |chains| - 1
    {
      AllDataShape(datas + ds);
      SetBlocks(chains + cs, datas + ds);
      AdvanceLastWithData();
      assert lwd + 1 < |chains| ==> HasData(datas, lwd + 1);
      totalLen := totalLen + total;
    }

    method SetBlocks(cs: seq<Chain>, ghost ds: seq<seq<Byte>>)
      requires Holds(cs, ds)
      modifies `chains, `datas
      ensures Stored() && chains == cs && datas == ds
    {
      chains, datas := cs, ds;
    }

    /** Hand the first i blocks over to dst. */
    method MoveBlocks(dst: EvBuffer, i: nat, lw: nat, nread: nat)
      requires Valid() && dst.Valid() && dst != this && Apart(chains + dst.chains) && totalLen + dst.totalLen <= EV_SIZE_MAX
      requires 0 < i < |chains| && datas[i] != [] && lw == Behind(lwd, i) && nread == |Flat(datas[..i])|
      modifies `chains, `lwd, `totalLen, `datas, dst`chains, dst`lwd, dst`totalLen, dst`datas
      ensures Valid() && dst.Valid() && Apart(chains + dst.chains) && totalLen + dst.totalLen == old(totalLen + dst.totalLen)
      ensures chains == old(chains)[i..] && datas == old(datas)[i..]
      ensures dst.Bytes() == old(dst.Bytes()) + old(Flat(datas[..i]))
      ensures dst.lwd < |dst.chains| && dst.chains[dst.lwd] == old(chains)[i - 1]
      ensures Memory(chains) + Memory(dst.chains) <= old(Memory(chains) + Memory(dst.chains))
    {
      ghost var cs, cs' := chains, dst.chains;
      MovedPart(datas, lwd, i);
      ApartParts(chains, dst.chains);
      HoldsSlice(chains, datas, 0, i);
      HoldsRest(chains, datas, i);
      ApartTaken(chains, dst.chains, i);
      var rest, total := chains[i..], totalLen - nread;
      ghost var left := datas[i..];
      dst.AppendMoved(chains[..i], nread, datas[..i]);
      SetList(rest, lw, total, left);
      ghost var n :| 0 <= n <= |cs'| && dst.chains == cs'[..n] + cs[..i];
      MemoryParts(cs', n, cs[..i]);
      MemoryParts(cs, i, []);
      MemoryRest(cs, i);
      ApartMoved(cs, cs', i, n);
    }

    /** Copy the first n bytes of the first block to dst and drop them. */
    method GiveFirst(dst: EvBuffer, n: nat, memory: bool)
      requires Valid() && dst.Valid() && dst != this && Apart(chains + dst.chains) && totalLen + dst.totalLen <= EV_SIZE_MAX
      requires chains != [] && n < |datas[0]| && !dst.freezeEnd
      modifies `chains, `lwd, `totalLen, `datas, dst`chains, dst`lwd, dst`totalLen, dst`datas, chains[0], dst.LastBlock()
      ensures Valid() && dst.Valid() && Apart(chains + dst.chains)
      ensures Bytes() == old(Bytes())[n..]
      ensures dst.Bytes() == old(dst.Bytes()) + if memory || old(dst.HasRoom(n)) then old(Bytes())[..n] else []
      ensures chains == old(chains) && forall o :: o in Memory(dst.chains) ==> o in old(Memory(dst.chains)) || fresh(o)
    {
      Block(chains, datas, 0);
      FirstBytes(datas, n);
      var bytes := chains[0].Read(0, n);
      GiveBytes(dst, bytes, memory);
      DropGiven(dst, n);
    }

    /** Drop the first n bytes; dst is not touched. */
    method DropGiven(ghost dst: EvBuffer, n: nat)
      requires Valid() && dst.Valid() && dst != this && Apart(chains + dst.chains)
      requires chains != [] && n < |datas[0]|
      modifies `chains, `lwd, `totalLen, `datas, chains[0]
      ensures Valid() && dst.Valid() && chains == old(chains)
      ensures Bytes() == old(Bytes())[n..]
    {
      assert datas[0..] == datas && chains[0..] == chains;
      CutFront(0, lwd, n, totalLen - n);
      forall j | 0 <= j < |dst.chains|
        ensures HoldsAt(dst.chains, dst.datas, j)
      {
        Outside(chains, dst.chains, 0, j);
        assert old(HoldsAt(dst.chains, dst.datas, j));
      }
    }

    /** evbuffer_add to dst, which this buffer does not notice. */
    method GiveBytes(dst: EvBuffer, bytes: seq<Byte>, memory: bool)
      requires Valid() && dst.Valid() && dst != this && Apart(chains + dst.chains) && !dst.freezeEnd
      requires |bytes| <= EV_SIZE_MAX - dst.totalLen && |bytes| <= EVBUFFER_CHAIN_MAX - EVBUFFER_CHAIN_SIZE
      modifies dst`chains, dst`lwd, dst`totalLen, dst`datas, dst.LastBlock()
      ensures Valid() && dst.Valid() && Apart(chains + dst.chains)
      ensures dst.Bytes() == old(dst.Bytes()) + if memory || old(dst.HasRoom(|bytes|)) then bytes else []
      ensures forall o :: o in Memory(dst.chains) ==> o in old(Memory(dst.chains)) || fresh(o)
    {
      ghost var cs' := dst.chains;
      assert dst.Bytes() + [] == dst.Bytes();
      var result := dst.Add(bytes, memory);
      forall j | 0 <= j < |chains|
        ensures HoldsAt(chains, datas, j)
      {
        assert old(HoldsAt(chains, datas, j));
        if old(dst.lwd) < |cs'| {
          Outside(chains, cs', j, old(dst.lwd));
        }
      }
      if dst.chains != cs' {
        ApartLast(chains, cs', dst.chains);
      }
    }

    /** How many blocks go as a whole when datlen bytes go, and where the last one with data is then. */
    method WholeBlocks(datlen: nat) returns (i: nat, lw: nat, nread: nat)
      requires Valid() && datlen < totalLen
      ensures i < |chains| && nread == |Flat(datas[..i])| <= datlen < nread + |datas[i]| && lw == Behind(lwd, i)
      ensures i > 0 ==> 0 < |datas[0]| <= nread
      ensures i == 0 ==> datas[i..] == datas
      ensures Filling(datas, datlen) == (i, datlen - nread)
    {
      var left: nat := datlen;
      i, lw, nread := 0, lwd, 0;
      assert datas[0..] == datas && datas[..0] == [];
      while chains[i].off <= left
        modifies {}
        invariant Fills(datas, datlen, i, left)
        invariant lw == if lwd <= i then 0 else lwd
        invariant nread + left == datlen
        invariant i > 0 ==> |datas[0]| <= nread
        decreases |chains| - i
      {
        BlockOff(chains, datas, i);
        FillsOn(datas, datlen, i, left);
        nread := nread + chains[i].off;
        left := left - chains[i].off;
        if lw == i + 1 {
          lw := 0;
        }
        i := i + 1;
      }
      BlockOff(chains, datas, i);
      FillsOn(datas, datlen, i, left);
      assert HasData(datas, i) && (i > 0 ==> HasData(datas, 0));
      lw := if lw == 0 then 0 else lw - i;
    }

    /** Hand the i blocks over that the first datlen bytes fill, if there are any. */
    method MoveWhole(dst: EvBuffer, ghost datlen: nat, i: nat, lw: nat, nread: nat)
      requires Valid() && dst.Valid() && dst != this && Apart(chains + dst.chains) && totalLen + dst.totalLen <= EV_SIZE_MAX
      requires datlen < totalLen && i < |chains| && datas[i] != [] && lw == Behind(lwd, i) && nread == |Flat(datas[..i])| <= datlen
      requires Filling(datas, datlen) == (i, datlen - nread) && (i > 0 <==> nread > 0) && (i == 0 ==> datas[i..] == datas)
      modifies `chains, `lwd, `totalLen, `datas, dst`chains, dst`lwd, dst`totalLen, dst`datas
      ensures Valid() && dst.Valid() && Apart(chains + dst.chains) && totalLen + dst.totalLen == old(totalLen + dst.totalLen)
      ensures chains == old(chains)[i..] && datas == old(datas)[i..]
      ensures dst.Bytes() == old(dst.Bytes()) + old(Flat(datas[..i]))
      ensures dst.LastBlock() <= old(Memory(chains) + Memory(dst.chains))
      ensures dst.HasRoom(datlen - nread) <==> old(PartFits(dst, datlen))
      ensures Memory(chains) + Memory(dst.chains) <= old(Memory(chains) + Memory(dst.chains))
    {
      if nread != 0 {
        Among(chains, i - 1);
        MoveBlocks(dst, i, lw, nread);
      } else {
        assert datas[..i] == [] && chains[i..] == chains;
        if dst.lwd < |dst.chains| {
          Among(dst.chains, dst.lwd);
        }
      }
    }

    /** evbuffer_remove_buffer for less than all bytes; kept counts the bytes that reach dst. */
    method MoveFront(dst: EvBuffer, datlen: nat, memory: bool) returns (nread: nat, ghost kept: nat)
      requires Valid() && dst.Valid() && dst != this && Apart(chains + dst.chains) && totalLen + dst.totalLen <= EV_SIZE_MAX
      requires datlen < totalLen && !dst.freezeEnd
      modifies `chains, `lwd, `totalLen, `datas, dst`chains, dst`lwd, dst`totalLen, dst`datas
      modifies Memory(chains), Memory(dst.chains)
      ensures Valid() && dst.Valid() && Apart(chains + dst.chains)
      ensures nread == datlen && Bytes() == old(Bytes())[datlen..]
      ensures 0 <= kept <= datlen && dst.Bytes() == old(dst.Bytes()) + old(Bytes())[..kept]
      ensures kept == if memory || old(PartFits(dst, datlen)) then datlen else datlen - old(Filling(datas, datlen)).1
      ensures forall o :: o in Memory(chains) + Memory(dst.chains) ==> o in old(Memory(chains) + Memory(dst.chains)) || fresh(o)
    {
      ghost var blocks, fits := datas, memory || PartFits(dst, datlen);
      var i, lw;
      i, lw, nread := WholeBlocks(datlen);
      assert datlen - Filling(blocks, datlen).1 == nread;
      kept := if fits then datlen else nread;
      var left := datlen - nread;
      MoveParts(dst, datlen, i, lw, nread, memory, fits);
      nread := nread + left;
    }

    /** The same, in terms of all the bytes */
    method MoveParts(dst: EvBuffer, datlen: nat, i: nat, lw: nat, nread: nat, memory: bool, ghost fits: bool)
      requires Valid() && dst.Valid() && dst != this && Apart(chains + dst.chains) && totalLen + dst.totalLen <= EV_SIZE_MAX
      requires i < |chains| && lw == Behind(lwd, i) && nread == |Flat(datas[..i])| <= datlen < totalLen && !dst.freezeEnd
      requires Filling(datas, datlen) == (i, datlen - nread) && datlen - nread < |datas[i]|
      requires (i > 0 ==> nread > 0) && (i == 0 ==> datas[i..] == datas) && fits == (memory || PartFits(dst, datlen))
      modifies `chains, `lwd, `totalLen, `datas, dst`chains, dst`lwd, dst`totalLen, dst`datas
      modifies Memory(chains), Memory(dst.chains)
      ensures Valid() && dst.Valid() && Apart(chains + dst.chains)
      ensures Bytes() == old(Bytes())[datlen..]
      ensures dst.Bytes() == old(dst.Bytes()) + old(Bytes())[..if fits then datlen else nread]
      ensures forall o :: o in Memory(chains) + Memory(dst.chains) ==> o in old(Memory(chains) + Memory(dst.chains)) || fresh(o)
    {
      MovedPart(datas, lwd, i);
      ghost var left := datlen - nread;
      ghost var was, all, front, rest := dst.Bytes(), Bytes(), Flat(datas[..i]), Flat(datas[i..]);
      MovedBytes(was, all, front, rest, left, fits);
      MoveBoth(dst, datlen, i, lw, nread, memory);
      assert Bytes() == rest[left..];
    }

    /** Hand over the i blocks that the first datlen bytes fill, and the part of a block behind them. */
    method MoveBoth(dst: EvBuffer, datlen: nat, i: nat, lw: nat, nread: nat, memory: bool)
      requires Valid() && dst.Valid() && dst != this && Apart(chains + dst.chains) && totalLen + dst.totalLen <= EV_SIZE_MAX
      requires i < |chains| && lw == Behind(lwd, i) && nread == |Flat(datas[..i])| <= datlen < totalLen && !dst.freezeEnd
      requires Filling(datas, datlen) == (i, datlen - nread) && (i > 0 <==> nread > 0) && (i == 0 ==> datas[i..] == datas)
      requires datlen - nread < |datas[i]| && |Flat(datas[i..])| >= |datas[i]|
      modifies `chains, `lwd, `totalLen, `datas, dst`chains, dst`lwd, dst`totalLen, dst`datas
      modifies Memory(chains), Memory(dst.chains)
      ensures Valid() && dst.Valid() && Apart(chains + dst.chains)
      ensures Bytes() == old(Flat(datas[i..]))[datlen - nread..]
      ensures dst.Bytes() == old(dst.Bytes()) + old(Flat(datas[..i])) +
                if memory || old(PartFits(dst, datlen)) then old(Flat(datas[i..]))[..datlen - nread] else []
      ensures forall o :: o in Memory(chains) + Memory(dst.chains) ==> o in old(Memory(chains) + Memory(dst.chains)) || fresh(o)
    {
      Among(chains, i);
      MoveWhole(dst, datlen, i, lw, nread);
      GiveFirst(dst, datlen - nread, memory);
    }

    /** evbuffer_remove_buffer; kept counts the bytes that reach dst. */
    method RemoveBuffer(dst: EvBuffer, datlen: nat, memory: bool) returns (result: int, ghost kept: nat)
      requires Valid() && dst.Valid()
      requires dst != this ==> Apart(chains + dst.chains) && totalLen + dst.totalLen <= EV_SIZE_MAX
      modifies `chains, `lwd, `totalLen, `datas, dst`chains, dst`lwd, dst`totalLen, dst`datas
      modifies Memory(chains), Memory(dst.chains)
      ensures Valid() && dst.Valid() && (dst != this ==> Apart(chains + dst.chains))
      ensures datlen == 0 || dst == this || dst.freezeEnd || freezeStart ==>
                && Bytes() == old(Bytes()) && dst.Bytes() == old(dst.Bytes())
                && result == if datlen == 0 || dst == this then 0 else -1
      ensures !(datlen == 0 || dst == this || dst.freezeEnd || freezeStart) ==>
                && result == AsInt(Min(datlen, old(totalLen)))
                && Bytes() == old(Bytes())[Min(datlen, old(totalLen))..]
                && kept <= Min(datlen, old(totalLen)) && dst.Bytes() == old(dst.Bytes()) + old(Bytes())[..kept]
                && kept == (if old(datlen >= totalLen) then old(totalLen)
                            else if memory || old(PartFits(dst, datlen)) then datlen
                            else datlen - old(Filling(datas, datlen)).1)
      ensures forall o :: o in Memory(chains) + Memory(dst.chains) ==> o in old(Memory(chains) + Memory(dst.chains)) || fresh(o)
    {
      kept := 0;
      if datlen == 0 || dst == this {
        return 0, 0;
      }
      if dst.freezeEnd || freezeStart {
        return -1, 0;
      }
      if datlen >= totalLen {
        kept := totalLen;
        result := AsInt(totalLen);
        WholeSlice(Bytes());
        ApartSwap(chains, dst.chains);
        var added := dst.AddBuffer(this);
        ApartSwap(dst.chains, chains);
        return;
      }
      var nread;
      nread, kept := MoveFront(dst, datlen, memory);
      result := AsInt(nread);
    }

    // -- Making bytes contiguous ----

    /** The copying loop of evbuffer_pullup over the blocks from start on: the blocks
        before i go as a whole and left bytes of block i; out are all those bytes. */
    method Gather(start: nat, n: nat) returns (out: seq<Byte>, i: nat, left: nat, removedLast: bool, removedLastp: bool)
      requires Valid() && start <= |chains| && n <= |Flat(datas[start..])|
      ensures start <= i <= |chains| && |out| == n && left <= n
      ensures if i < |chains| then left < |datas[i]| else left == 0
      ensures left <= |Flat(datas[i..])| && out + Flat(datas[i..])[left..] == Flat(datas[start..])
      ensures removedLast <==> start <= lwd < i
      ensures removedLastp <==> start + 1 <= lwd <= i
    {
      out, i, left, removedLast, removedLastp := [], start, n, false, false;
      assert out + Flat(datas[start..]) == Flat(datas[start..]);
      while i < |chains| && left >= chains[i].off
        modifies {}
        invariant Pulling(datas, start, n, i, left, out)
        invariant removedLast <==> start <= lwd < i
        invariant removedLastp <==> start + 1 <= lwd <= i
        decreases |chains| - i
      {
        var bytes := BlockBytes(i);
        PullsBlock(datas, start, n, i, left, out);
        out := out + bytes;
        left := left - |bytes|;
        if i == lwd {
          removedLast := true;
        }
        if i + 1 == lwd {
          removedLastp := true;
        }
        i := i + 1;
      }
      if i < |chains| {
        var bytes := BlockStart(i, left);
        PullsPart(datas, start, n, i, left, out);
        out := out + bytes;
      } else {
        FlatNone(datas);
      }
    }

    /** The new place of the last block with data. */
    method PulledLast(i: nat, removedLast: bool, removedLastp: bool) returns (lw: nat)
      requires Stored() && i <= |chains|
      requires !removedLast && !removedLastp ==> i <= lwd
      ensures lw == if removedLast then 0 else if removedLastp then (if HasData(datas, i) then 1 else 0) else lwd - i + 1
    {
      Offs(chains, datas);
      lw := if removedLast then 0
            else if removedLastp then (if i < |chains| && chains[i].off != 0 then 1 else 0)
            else lwd - i + 1;
    }

    /** Unlink the blocks before i except the first, and drop left bytes of block i. */
    method KeepFirst(i: nat, left: nat, lw: nat, ghost d: seq<Byte>)
      requires Stored() && 1 <= i <= |chains| && datas[0] == d && totalLen <= EV_SIZE_MAX
      requires i < |chains| ==> left <= |datas[i]|
      requires Shape([d] + Tail(datas, i, left), lw) && totalLen == |Flat([d] + Tail(datas, i, left))|
      modifies `chains, `lwd, `totalLen, `datas, Memory(chains)
      ensures Valid() && datas == [d] + old(Tail(datas, i, left))
      ensures Memory(chains) <= old(Memory(chains))
    {
      ghost var tail := Tail(datas, i, left);
      if i < |chains| {
        Among(chains, i);
        DropAt(i, left);
      }
      HoldsFirstAnd(chains, datas, i);
      Among(chains, 0);
      MemoryFirstAnd(chains[0], chains, i);
      assert datas[i..] == tail;
      SetList([chains[0]] + chains[i..], lw, totalLen, [d] + tail);
    }

    method PullIntoFirst(size: nat)
      requires Valid() && chains != [] && |datas[0]| < size <= totalLen && size <= chains[0].buffer.Length - chains[0].misalign
      modifies `chains, `lwd, `totalLen, `datas, Memory(chains)
      ensures Valid() && Bytes() == old(Bytes()) && datas != [] && |datas[0]| == size
      ensures Memory(chains) <= old(Memory(chains))
    {
      Block(chains, datas, 0);
      RestBytes(datas);
      var out, i, left, removedLast, removedLastp := Gather(1, size - chains[0].off);
      ghost var ds, d := datas, datas[0] + out;
      PullPlan(ds, lwd, 1, ds[0], out, i, left);
      var lw := PulledLast(i, removedLast, removedLastp);
      Among(chains, 0);
      AppendAt(0, out);
      TailSame(ds, d, i, left);
      KeepFirst(i, left, lw, d);
    }

    /** The case of evbuffer_pullup that needs a new block. */
    method PullIntoNew(size: nat, memory: bool) returns (ok: bool)
      requires Valid() && chains != [] && |datas[0]| < size <= totalLen
      modifies `chains, `lwd, `totalLen, `datas, Memory(chains)
      ensures Valid() && Bytes() == old(Bytes())
      ensures ok <==> memory && size <= EVBUFFER_CHAIN_MAX - EVBUFFER_CHAIN_SIZE
      ensures ok ==> datas != [] && |datas[0]| == size
      ensures forall o :: o in Memory(chains) ==> o in old(Memory(chains)) || fresh(o)
    {
      var out, i, left, lw := GatherAll(size);
      var tmp := FilledChain(size, out, memory);
      if tmp == null {
        return false;
      }
      Replace(tmp, i, left, lw);
      return true;
    }

    /** What the new first block gets, and the blocks that go for it. */
    method GatherAll(size: nat) returns (out: seq<Byte>, i: nat, left: nat, lw: nat)
      requires Valid() && chains != [] && |datas[0]| < size <= totalLen
      ensures |out| == size && i <= |chains| && (i < |chains| ==> left <= |datas[i]|)
      ensures Shape([out] + Tail(datas, i, left), lw) && Flat([out] + Tail(datas, i, left)) == Flat(datas)
    {
      assert datas[0..] == datas && [] + Flat(datas) == Flat(datas);
      var removedLast, removedLastp;
      out, i, left, removedLast, removedLastp := Gather(0, size);
      assert [] + out == out;
      PullPlan(datas, lwd, 0, [], out, i, left);
      lw := PulledLast(i, removedLast, removedLastp);
    }

    /** Put the block tmp in place of the blocks before i, and drop left bytes of block i. */
    method Replace(tmp: Chain, i: nat, left: nat, lw: nat)
      requires Stored() && tmp.Ok() && i <= |chains| && totalLen <= EV_SIZE_MAX
      requires tmp !in chains && forall j :: 0 <= j < |chains| ==> chains[j].buffer != tmp.buffer
      requires i < |chains| ==> left <= |datas[i]|
      requires Shape([tmp.Data()] + Tail(datas, i, left), lw) && totalLen == |Flat([tmp.Data()] + Tail(datas, i, left))|
      modifies `chains, `lwd, `totalLen, `datas, Memory(chains)
      ensures Valid() && datas == old([tmp.Data()] + Tail(datas, i, left))
      ensures Memory(chains) <= old(Memory(chains)) + {tmp, tmp.buffer}
    {
      ghost var tail := Tail(datas, i, left);
      if i < |chains| {
        Among(chains, i);
        DropAt(i, left);
      }
      HoldsRest(chains, datas, i);
      ApartFront(chains[i..], tmp);
      MemoryFirstAnd(tmp, chains, i);
      assert datas[i..] == tail;
      HoldsFront(chains[i..], tail, tmp);
      SetList([tmp] + chains[i..], lw, totalLen, [tmp.Data()] + tail);
    }

    /** evbuffer_pullup; ok says that the first size bytes can be read in the first block. */
    method Pullup(wanted: int, memory: bool) returns (ok: bool)
      requires Valid()
      modifies `chains, `lwd, `totalLen, `datas, Memory(chains)
      ensures Valid() && Bytes() == old(Bytes())
      ensures var size := if wanted < 0 then totalLen else wanted;
              (ok <==>
                && 0 < size <= totalLen
                && (size <= old(FirstRoom())
                    || (memory && size <= EVBUFFER_CHAIN_MAX - EVBUFFER_CHAIN_SIZE)))
              && (ok ==> datas != [] && size <= |datas[0]| && datas[0][..size] == Bytes()[..size])
      ensures forall o :: o in Memory(chains) ==> o in old(Memory(chains)) || fresh(o)
    {
      var size: nat := if wanted < 0 then totalLen else wanted;
      if size == 0 || size > totalLen {
        return false;
      }
      Block(chains, datas, 0);
      if chains[0].off >= size {
        ok := true;
      } else if chains[0].buffer.Length - chains[0].misalign >= size {
        PullIntoFirst(size);
        ok := true;
      } else {
        ok := PullIntoNew(size, memory);
      }
      if ok {
        FirstBytes(datas, size);
        SplitAt(datas[0], size);
      }
    }

    /** The bytes the first block can hold from its first data byte on. */
    function FirstRoom(): int
      reads this, chains
    {
      if chains == [] then 0 else chains[0].buffer.Length - chains[0].misalign
    }

    // -- Making room at the end ----

    /** Append a new empty block with room for datlen bytes. */
    method ChainInsertNew(datlen: nat, memory: bool) returns (result: Chain?)
      requires Valid()
      modifies `chains, `lwd, `totalLen, `datas
      ensures Valid() && Bytes() == old(Bytes())
      ensures result == null <==> datlen > EVBUFFER_CHAIN_MAX - EVBUFFER_CHAIN_SIZE || !memory
      ensures result != null ==> HasSpace(result, datlen)
      ensures forall o :: o in Memory(chains) ==> o in old(Memory(chains)) || fresh(o)
    {
      result := ChainNew(datlen, memory);
      if result != null {
        ApartPush(chains, result);
        WholeSlice(Bytes());
        ChainInsert(result);
        LastNew(old(chains), chains);
      }
    }

    /** c is one of the blocks, nothing with data follows it, and n more bytes fit. */
    ghost predicate HasSpace(c: Chain, n: nat)
      reads this, c
    {
      exists i :: lwd <= i < |chains| && chains[i] == c && c.SpaceLen() >= n
    }

    /** evbuffer_expand_singlechain */
    method ExpandSinglechain(datlen: nat, memory: bool) returns (result: Chain?)
      requires Valid()
      modifies `chains, `lwd, `totalLen, `datas, LastBlock()
      ensures Valid() && Bytes() == old(Bytes())
      ensures result != null ==> HasSpace(result, datlen)
      ensures memory && datlen + MAX_TO_COPY_IN_EXPAND <= EVBUFFER_CHAIN_MAX - EVBUFFER_CHAIN_SIZE ==> result != null
      ensures forall o :: o in Memory(chains) ==> o in old(Memory(chains)) || fresh(o)
    {
      var at := lwd;
      if at < |chains| && chains[at].SpaceLen() == 0 {
        at := at + 1;
      }
      if at == |chains| {
        result := ChainInsertNew(datlen, memory);
        return;
      }
      var chain := chains[at];
      if chain.SpaceLen() >= datlen {
        return chain;
      }
      if chain.off == 0 {
        result := ChainInsertNew(datlen, memory);
        return;
      }
      Offs(chains, datas);
      assert at == lwd by {
        assert HasData(datas, at);
      }
      if chain.ShouldRealign(datlen) {
        AlignAt(at);
        return chain;
      }
      if chain.SpaceLen() < chain.buffer.Length / 8 || chain.off > MAX_TO_COPY_IN_EXPAND
         || datlen >= EVBUFFER_CHAIN_MAX - chain.off
      {
        if at + 1 < |chains| && chains[at + 1].SpaceLen() >= datlen {
          return chains[at + 1];
        }
        result := ChainInsertNew(datlen, memory);
        return;
      }
      result := Resize(at, datlen, memory);
    }

    /** Put a block with room for datlen more bytes in place of block at. */
    method Resize(at: nat, datlen: nat, memory: bool) returns (result: Chain?)
      requires Valid() && at == lwd < |chains| && chains[at].off + datlen <= EVBUFFER_CHAIN_MAX
      modifies `chains, `lwd, `totalLen, `datas
      ensures Valid() && Bytes() == old(Bytes())
      ensures result == null <==> datlen + old(chains[at].off) > EVBUFFER_CHAIN_MAX - EVBUFFER_CHAIN_SIZE || !memory
      ensures result != null ==> HasSpace(result, datlen)
      ensures forall o :: o in Memory(chains) ==> o in old(Memory(chains)) || fresh(o)
    {
      Block(chains, datas, at);
      var chain := chains[at];
      var bytes := chain.Read(0, chain.off);
      var tmp := FilledChain(chain.off + datlen, bytes, memory);
      if tmp == null {
        return null;
      }
      HoldsReplaced(chains, datas, at, tmp);
      MemoryReplaced(chains, at, tmp);
      SetList(chains[at := tmp], lwd, totalLen, datas);
      assert chains[at] == tmp;
      return tmp;
    }
  }

  lemma SoleBlock(ds: seq<seq<Byte>>)
    requires |ds| == 1
    ensures Flat(ds) == ds[0]
  {
    assert ds[1..] == [];
  }

  /** A buffer that holds s in one block. */
  method Filled(s: seq<Byte>) returns (buf: EvBuffer)
    requires s != [] && |s| <= EVBUFFER_CHAIN_MAX - EVBUFFER_CHAIN_SIZE
    ensures fresh(buf) && buf.Valid() && !buf.freezeStart && !buf.freezeEnd
    ensures |buf.chains| == 1 && fresh(buf.chains[0]) && fresh(buf.chains[0].buffer)
    ensures buf.datas == [s]
  {
    buf := new EvBuffer();
    NoBytes([], s);
    var added := buf.Add(s, true);
    assert buf.chains != [];
    SoleBlock(buf.datas);
  }

  /** When malloc fails, evbuffer_remove_buffer reports a byte as moved that neither buffer has. */
  method RemoveBufferLosesBytes() returns (src: EvBuffer, dst: EvBuffer, result: int)
    ensures result == 1 && src.Bytes() == [8] && dst.Bytes() == []
  {
    var s := [7, 8];
    src := Filled(s);
    dst := new EvBuffer();
    result := MoveOneWithoutMemory(src, dst, s);
    assert s[1..] == [8];
  }

  /** Moving a byte to an empty buffer when malloc fails */
  method MoveOneWithoutMemory(src: EvBuffer, dst: EvBuffer, ghost s: seq<Byte>) returns (result: int)
    requires src.Valid() && dst.Valid() && src != dst && src.datas == [s] && |s| > 1 && dst.chains == []
    requires !src.freezeStart && !dst.freezeEnd
    modifies src`chains, src`lwd, src`totalLen, src`datas, dst`chains, dst`lwd, dst`totalLen, dst`datas
    modifies Memory(src.chains), Memory(dst.chains)
    ensures result == 1 && src.Bytes() == s[1..] && dst.Bytes() == []
  {
    SoleBlock(src.datas);
    assert src.chains + dst.chains == src.chains;
    NoBytes([], s[..0]);
    ghost var kept;
    result, kept := src.RemoveBuffer(dst, 1, false);
  }
}
