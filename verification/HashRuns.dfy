/** The list of cocool/co_hash.c, the runs its buckets are in it, and the map it stands for. */
module HashRuns {
  import opened Sequences

  type Byte = b: int | 0 <= b < 256
  type Name = seq<Byte>   // a key after lower-casing
  type Data = nat         // 0 is the null pointer

  const WORD := 0x1_0000_0000
  const KNUTH := 0x9e37_79b1

  /** sqlite3UpperToLower */
  function Lower(c: Byte): Byte {
    if 65 <= c <= 90 then c + 32 else c
  }

  function Fold(key: seq<Byte>): (name: Name)
    ensures |name| == |key| && forall i :: 0 <= i < |key| ==> name[i] == Lower(key[i])
  {
    if key == [] then [] else Fold(key[..|key| - 1]) + [Lower(key[|key| - 1])]
  }

  ghost function HashOf(name: Name): nat {
    if name == [] then 0 else (HashOf(name[..|name| - 1]) + name[|name| - 1]) % WORD * KNUTH % WORD
  }

  /** strHash: the same for keys that differ in case only. */
  method StrHash(key: seq<Byte>) returns (h: nat)
    ensures h == HashOf(Fold(key)) < WORD
  {
    h := 0;
    var i := 0;
    while i < |key|
      invariant i <= |key| && h == HashOf(Fold(key[..i])) && h < WORD
    {
      assert key[..i + 1][..i] == key[..i];
      h := (h + Lower(key[i])) % WORD;
      h := h * KNUTH % WORD;
      i := i + 1;
    }
    assert key[..i] == key;
  }

  // ---- The map the table stands for ----------------------------------------

  function Put<T>(s: seq<T>, p: nat, x: T): (r: seq<T>)
    requires p <= |s|
    ensures |r| == |s| + 1
  {
    s[..p] + [x] + s[p..]
  }

  /** Where the element at i was before something was put in at p. */
  function Back(p: int, i: int): int {
    if i < p then i else i - 1
  }

  /** Where the element at i was before the one at p was cut out. */
  function Moved(p: int, i: int): int {
    if i < p then i else i + 1
  }

  lemma PutAt<T>(s: seq<T>, p: nat, x: T, i: nat)
    requires p <= |s| && i <= |s|
    ensures Put(s, p, x)[i] == if i == p then x else s[Back(p, i)]
  {
  }

  ghost predicate Says(names: seq<Name>, vals: seq<Data>, m: map<Name, Data>) {
    && |vals| == |names|
    && (forall i :: 0 <= i < |names| ==> SaysAt(names, vals, m, i))
    && (forall n :: n in m ==> n in names)
  }

  ghost predicate SaysAt(names: seq<Name>, vals: seq<Data>, m: map<Name, Data>, i: int) {
    0 <= i < |names| && i < |vals| && names[i] in m && m[names[i]] == vals[i]
  }

  lemma SaysPut(names: seq<Name>, vals: seq<Data>, m: map<Name, Data>, p: nat, n: Name, v: Data)
    requires Says(names, vals, m) && p <= |names| && n !in names
    ensures Says(Put(names, p, n), Put(vals, p, v), m[n := v])
  {
    var names', vals', m' := Put(names, p, n), Put(vals, p, v), m[n := v];
    forall i | 0 <= i < |names'|
      ensures SaysAt(names', vals', m', i)
    {
      PutAt(names, p, n, i);
      PutAt(vals, p, v, i);
      if i != p {
        assert SaysAt(names, vals, m, Back(p, i));
      }
    }
    forall k | k in m'
      ensures k in names'
    {
      PutKeeps(names, p, n, k);
    }
  }

  lemma NotNamed(names: seq<Name>, vals: seq<Data>, m: map<Name, Data>, n: Name)
    requires Says(names, vals, m) && n !in m
    ensures n !in names
  {
    forall i | 0 <= i < |names|
      ensures names[i] != n
    {
      assert SaysAt(names, vals, m, i);
    }
  }

  lemma PutKeeps<T>(s: seq<T>, p: nat, x: T, y: T)
    requires p <= |s|
    ensures y in Put(s, p, x) <==> y == x || y in s
  {
    assert s[..p] + s[p..] == s;
  }

  lemma CutKeeps<T>(s: seq<T>, p: nat, y: T)
    requires p < |s| && y in s && y != s[p]
    ensures y in Cut(s, p)
  {
    assert s[..p] + [s[p]] + s[p + 1..] == s;
  }

  lemma SaysCut(names: seq<Name>, vals: seq<Data>, m: map<Name, Data>, p: nat)
    requires Says(names, vals, m) && NoTwice(names) && p < |names|
    ensures Says(Cut(names, p), Cut(vals, p), m - {names[p]})
  {
    var names', vals', m' := Cut(names, p), Cut(vals, p), m - {names[p]};
    forall i | 0 <= i < |names'|
      ensures SaysAt(names', vals', m', i)
    {
      CutAt(names, p, i);
      CutAt(vals, p, i);
      assert SaysAt(names, vals, m, Moved(p, i));
      assert if i < p then Unequal(names, i, p) else Unequal(names, p, i + 1);
    }
    forall k | k in m'
      ensures k in names'
    {
      CutKeeps(names, p, k);
    }
  }

  lemma SaysSet(names: seq<Name>, vals: seq<Data>, m: map<Name, Data>, p: nat, v: Data)
    requires Says(names, vals, m) && NoTwice(names) && p < |names|
    ensures Says(names, vals[p := v], m[names[p] := v])
  {
    var vals', m' := vals[p := v], m[names[p] := v];
    forall i | 0 <= i < |names|
      ensures SaysAt(names, vals', m', i)
    {
      assert SaysAt(names, vals, m, i);
      assert i < p ==> Unequal(names, i, p);
      assert p < i ==> Unequal(names, p, i);
    }
  }

  lemma NoTwicePut<T>(s: seq<T>, p: nat, x: T)
    requires NoTwice(s) && p <= |s| && x !in s
    ensures NoTwice(Put(s, p, x))
  {
    var r := Put(s, p, x);
    forall i, j | 0 <= i < j < |r|
      ensures Unequal(r, i, j)
    {
      PutAt(s, p, x, i);
      PutAt(s, p, x, j);
      assert Back(p, i) < Back(p, j) ==> Unequal(s, Back(p, i), Back(p, j));
    }
  }

  // ---- Runs ----------------------------------------------------------------

  /** The run of a bucket: its first place in the list and its length. */
  datatype Run = Run(start: nat, count: nat)

  ghost predicate InBucket(names: seq<Name>, size: nat, i: int, h: int)
    requires 0 <= i < |names| && size > 0
  {
    HashOf(names[i]) % size == h
  }

  /** Run r holds the elements of bucket h and no others. */
  ghost predicate RunOk(names: seq<Name>, size: nat, r: Run, h: int)
    requires size > 0
  {
    && (r.count > 0 ==> r.start + r.count <= |names|)
    && forall i :: 0 <= i < |names| ==> (InBucket(names, size, i, h) <==> r.start <= i < r.start + r.count)
  }

  ghost predicate RunsOk(names: seq<Name>, runs: seq<Run>) {
    runs != [] ==> forall h :: 0 <= h < |runs| ==> RunOk(names, |runs|, runs[h], h)
  }

  /** Where insertElement puts an element of bucket h. */
  function PutPlace(runs: seq<Run>, h: nat): nat {
    if h < |runs| && runs[h].count > 0 then runs[h].start else 0
  }

  lemma PutPlaceIn(names: seq<Name>, runs: seq<Run>, h: nat)
    requires RunsOk(names, runs)
    ensures PutPlace(runs, h) <= |names|
  {
    if h < |runs| {
      assert RunOk(names, |runs|, runs[h], h);
    }
  }

  function RunPut(r: Run, p: nat): Run {
    if r.start >= p then Run(r.start + 1, r.count) else r
  }

  function RunsPut(runs: seq<Run>, h: nat): (rs: seq<Run>)
    ensures |rs| == |runs|
    ensures forall j :: 0 <= j < |runs| ==>
              rs[j] == if j == h then Run(PutPlace(runs, h), runs[h].count + 1) else RunPut(runs[j], PutPlace(runs, h))
  {
    seq(|runs|, j requires 0 <= j < |runs| =>
      if j == h then Run(PutPlace(runs, h), runs[h].count + 1) else RunPut(runs[j], PutPlace(runs, h)))
  }

  /** Putting an element in front of its bucket's run keeps every run. */
  lemma RunsOkPut(names: seq<Name>, runs: seq<Run>, h: nat, n: Name)
    requires RunsOk(names, runs) && h < |runs| && HashOf(n) % |runs| == h
    ensures PutPlace(runs, h) <= |names|
    ensures RunsOk(Put(names, PutPlace(runs, h), n), RunsPut(runs, h))
  {
    assert RunOk(names, |runs|, runs[h], h);
    var p := PutPlace(runs, h);
    forall j | 0 <= j < |runs|
      ensures RunOk(Put(names, p, n), |runs|, RunsPut(runs, h)[j], j)
    {
      assert RunOk(names, |runs|, runs[j], j);
      RunOkPut(names, runs, h, n, j);
    }
  }

  lemma RunOkPut(names: seq<Name>, runs: seq<Run>, h: nat, n: Name, j: nat)
    requires h < |runs| && j < |runs| && HashOf(n) % |runs| == h
    requires RunOk(names, |runs|, runs[h], h) && RunOk(names, |runs|, runs[j], j)
    ensures PutPlace(runs, h) <= |names|
    ensures RunOk(Put(names, PutPlace(runs, h), n), |runs|, RunsPut(runs, h)[j], j)
  {
    var p := PutPlace(runs, h);
    var names', r' := Put(names, p, n), RunsPut(runs, h)[j];
    if j != h && runs[h].count > 0 {
      assert InBucket(names, |runs|, p, h) && !InBucket(names, |runs|, p, j);
    }
    forall i | 0 <= i < |names'|
      ensures InBucket(names', |runs|, i, j) <==> r'.start <= i < r'.start + r'.count
    {
      PutAt(names, p, n, i);
      if i != p {
        var k := Back(p, i);
        assert InBucket(names, |runs|, k, j) <==> runs[j].start <= k < runs[j].start + runs[j].count;
      }
    }
  }

  function RunCut(r: Run, q: nat): Run {
    if r.start > q then Run(r.start - 1, r.count) else r
  }

  function RunsCut(runs: seq<Run>, h: nat, q: nat): (rs: seq<Run>)
    requires h < |runs| ==> runs[h].count > 0
    ensures |rs| == |runs|
    ensures forall j :: 0 <= j < |runs| ==> rs[j] == if j == h then Run(runs[h].start, runs[h].count - 1) else RunCut(runs[j], q)
  {
    seq(|runs|, j requires 0 <= j < |runs| =>
      if j == h then Run(runs[h].start, runs[h].count - 1) else RunCut(runs[j], q))
  }

  /** Taking an element out keeps every run. */
  lemma RunsOkCut(names: seq<Name>, runs: seq<Run>, h: nat, q: nat)
    requires RunsOk(names, runs) && q < |names| && h < |runs| && InBucket(names, |runs|, q, h)
    ensures runs[h].count > 0 && RunsOk(Cut(names, q), RunsCut(runs, h, q))
  {
    assert RunOk(names, |runs|, runs[h], h);
    forall j | 0 <= j < |runs|
      ensures RunOk(Cut(names, q), |runs|, RunsCut(runs, h, q)[j], j)
    {
      assert RunOk(names, |runs|, runs[j], j);
      RunOkCut(names, runs, h, q, j);
    }
  }

  lemma RunOkCut(names: seq<Name>, runs: seq<Run>, h: nat, q: nat, j: nat)
    requires h < |runs| && j < |runs| && q < |names| && InBucket(names, |runs|, q, h)
    requires RunOk(names, |runs|, runs[h], h) && RunOk(names, |runs|, runs[j], j)
    ensures runs[h].count > 0 && RunOk(Cut(names, q), |runs|, RunsCut(runs, h, q)[j], j)
  {
    var names', r' := Cut(names, q), RunsCut(runs, h, q)[j];
    assert InBucket(names, |runs|, q, j) <==> j == h;
    forall i | 0 <= i < |names'|
      ensures InBucket(names', |runs|, i, j) <==> r'.start <= i < r'.start + r'.count
    {
      CutAt(names, q, i);
      var k := Moved(q, i);
      assert InBucket(names, |runs|, k, j) <==> runs[j].start <= k < runs[j].start + runs[j].count;
    }
  }

  /** Fresh buckets over the empty list. */
  lemma RunsOkEmpty(runs: seq<Run>)
    requires forall h :: 0 <= h < |runs| ==> runs[h].count == 0
    ensures RunsOk([], runs)
  {
  }

  // ---- Looking a key up ----------------------------------------------------

  /** A scan of the bucket of n alone finds what a scan of the whole list finds. */
  lemma OnlyInRun(names: seq<Name>, runs: seq<Run>, h: nat, n: Name, i: nat)
    requires RunsOk(names, runs) && h < |runs| && HashOf(n) % |runs| == h && i < |names| && names[i] == n
    ensures runs[h].start <= i < runs[h].start + runs[h].count
  {
    assert RunOk(names, |runs|, runs[h], h);
    assert InBucket(names, |runs|, i, h);
  }
}
