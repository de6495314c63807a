/** The generator of net/libevent/src/arc4random.c and its unbiased bounded numbers. */
module Arc4Random {
  import opened Sequences

  type Byte = b: int | 0 <= b < 256
  const WORD := 0x1_0000_0000

  // ---- Permutations of the bytes -------------------------------------------

  /** s holds each byte value once. */
  ghost predicate Perm(s: seq<Byte>) {
    |s| == 256 && NoTwice(s)
  }

  function Swap(s: seq<Byte>, i: Byte, j: Byte): (r: seq<Byte>)
    requires |s| == 256
    ensures |r| == 256
  {
    s[i := s[j]][j := s[i]]
  }

  lemma SwapPerm(s: seq<Byte>, i: Byte, j: Byte)
    requires Perm(s)
    ensures Perm(Swap(s, i, j)) && Swap(Swap(s, i, j), i, j) == s
  {
    var r := Swap(s, i, j);
    forall k, l | 0 <= k < l < 256
      ensures Unequal(r, k, l)
    {
      var k' := if k == i then j else if k == j then i else k;
      var l' := if l == i then j else if l == j then i else l;
      assert r[k] == s[k'] && r[l] == s[l'];
      assert if k' < l' then Unequal(s, k', l') else Unequal(s, l', k');
    }
  }

  ghost function Upto(n: nat): (r: set<int>)
    ensures |r| == n && forall v :: v in r <==> 0 <= v < n
  {
    if n == 0 then {} else Upto(n - 1) + {n - 1}
  }

  ghost function Values(s: seq<Byte>): (r: set<int>)
    ensures forall k :: 0 <= k < |s| ==> s[k] in r
    ensures forall v :: v in r ==> exists k :: 0 <= k < |s| && s[k] == v
  {
    if s == [] then {} else Values(s[..|s| - 1]) + {s[|s| - 1]}
  }

  lemma {:induction false} AllDifferent(s: seq<Byte>)
    requires NoTwice(s)
    ensures |Values(s)| == |s|
  {
    if s != [] {
      var t, x := s[..|s| - 1], s[|s| - 1];
      forall k, l | 0 <= k < l < |t|
        ensures Unequal(t, k, l)
      {
        assert Unequal(s, k, l);
      }
      forall k | 0 <= k < |t|
        ensures t[k] != x
      {
        assert Unequal(s, k, |s| - 1);
      }
      AllDifferent(t);
    }
  }

  lemma {:induction false} NoLarger(a: set<int>, n: nat)
    requires a <= Upto(n)
    ensures |a| <= n
  {
    if n == 0 {
      assert a == Upto(0);
    } else {
      NoLarger(a - {n - 1}, n - 1);
    }
  }

  lemma Onto(a: set<int>, n: nat, v: int)
    requires a <= Upto(n) && |a| == n && 0 <= v < n
    ensures v in a
  {
    NoLarger(a + {v}, n);
  }

  /** In a permutation every byte value occurs, so any output is possible. */
  lemma PermIsOnto(s: seq<Byte>, v: Byte)
    requires Perm(s)
    ensures v in s
  {
    AllDifferent(s);
    Onto(Values(s), 256, v);
  }

  /** Addition of bytes wraps. */
  function Add(a: int, b: int): Byte {
    (a + b) % 256
  }

  // ---- One step ------------------------------------------------------------

  datatype Stream = Stream(i: Byte, j: Byte, s: seq<Byte>)

  /** What arc4_getbyte does to the state. */
  function Next(x: Stream): Stream
    requires |x.s| == 256
  {
    var i := Add(x.i, 1);
    var j := Add(x.j, x.s[i]);
    Stream(i, j, Swap(x.s, i, j))
  }

  /** What a byte of seed does to the state. */
  function Mixed(x: Stream, d: Byte): (r: Stream)
    requires |x.s| == 256
    ensures |r.s| == 256
  {
    var i := Add(x.i, 1);
    var j := Add(Add(x.j, x.s[i]), d);
    Stream(i, j, Swap(x.s, i, j))
  }

  /** The state after n bytes of seed, which is repeated when it is too short. */
  function MixedUpto(x: Stream, dat: seq<Byte>, n: nat): (r: Stream)
    requires |x.s| == 256 && dat != []
    ensures |r.s| == 256
  {
    if n == 0 then x else Mixed(MixedUpto(x, dat, n - 1), dat[(n - 1) % |dat|])
  }

  /** arc4_addrandom */
  function Stirred(x: Stream, dat: seq<Byte>): (r: Stream)
    requires |x.s| == 256 && dat != []
    ensures |r.s| == 256
  {
    var r := MixedUpto(x.(i := Add(x.i, 255)), dat, 256);
    r.(j := r.i)
  }

  /** Every 256 bytes of the data stir once more. */
  function StirredByAll(x: Stream, dat: seq<Byte>): (r: Stream)
    requires |x.s| == 256
    decreases |dat|
  {
    if dat == [] then x
    else StirredByAll(Stirred(x, dat), if |dat| > 256 then dat[256..] else [])
  }

  function Output(x: Stream): Byte
    requires |x.s| == 256
  {
    var y := Next(x);
    y.s[Add(y.s[y.j], y.s[y.i])]
  }

  function Weight(n: nat): nat {
    if n == 0 then 1 else 256 * Weight(n - 1)
  }

  /** The state after n steps. */
  function After(x: Stream, n: nat): (r: Stream)
    requires |x.s| == 256
    ensures |r.s| == 256
    decreases n
  {
    if n == 0 then x else After(Next(x), n - 1)
  }

  /** w and the next n bytes behind it, as one number */
  function Tail(w: nat, x: Stream, n: nat): nat
    requires |x.s| == 256
    decreases n
  {
    if n == 0 then w else Tail(w * 256 + Output(x), Next(x), n - 1)
  }

  /** The next n bytes as one number */
  function Word(x: Stream, n: nat): nat
    requires |x.s| == 256
  {
    Tail(0, x, n)
  }

  lemma Unrolled(x: Stream)
    requires |x.s| == 256
    ensures var x1 := Next(x); var x2 := Next(x1); var x3 := Next(x2);
            && After(x, 4) == Next(x3)
            && Word(x, 4) == (((0 * 256 + Output(x)) * 256 + Output(x1)) * 256 + Output(x2)) * 256 + Output(x3)
  {
    var x1 := Next(x);
    var x2 := Next(x1);
    var w1 := 0 * 256 + Output(x);
    var w2 := w1 * 256 + Output(x1);
    assert After(x, 4) == After(x1, 3) == After(x2, 2);
    assert Tail(0, x, 4) == Tail(w1, x1, 3) == Tail(w2, x2, 2);
  }

  lemma Widen(w: nat, b: Byte, p: nat)
    ensures (w * 256 + b + 1) * p <= (w + 1) * (256 * p)
  {
    TimesMonotone(w * 256 + b + 1, (w + 1) * 256, p);
    assert (w + 1) * 256 * p == (w + 1) * (256 * p);
  }

  lemma {:induction false} TailFits(w: nat, x: Stream, n: nat)
    requires |x.s| == 256
    ensures Tail(w, x, n) < (w + 1) * Weight(n)
    decreases n
  {
    if n > 0 {
      TailFits(w * 256 + Output(x), Next(x), n - 1);
      Widen(w, Output(x), Weight(n - 1));
    }
  }

  lemma WordFits(x: Stream, n: nat)
    requires |x.s| == 256 && n == 4
    ensures Word(x, n) < WORD
  {
    TailFits(0, x, 4);
    assert Weight(4) == 256 * (256 * (256 * (256 * 1)));
  }

  /** Word k of those of n bytes that x yields */
  ghost predicate WordAt(x: Stream, n: nat, words: seq<nat>, k: int)
    requires |x.s| == 256
  {
    0 <= k < |words| && words[k] == Word(After(x, n * k), n)
  }

  /** From x on, the stream has yielded these words of n bytes and is at y now. */
  ghost predicate Yielded(x: Stream, n: nat, words: seq<nat>, y: Stream) {
    && |x.s| == 256 && y == After(x, n * |words|)
    && forall k :: 0 <= k < |words| ==> WordAt(x, n, words, k)
  }

  lemma OneMoreWord(x: Stream, n: nat, words: seq<nat>, y: Stream)
    requires Yielded(x, n, words, y)
    ensures Yielded(x, n, words + [Word(y, n)], After(y, n))
  {
    var words', m: nat := words + [Word(y, n)], n * |words|;
    forall k | 0 <= k < |words'|
      ensures WordAt(x, n, words', k)
    {
      if k < |words| {
        assert WordAt(x, n, words, k);
      }
    }
    TimesNext(n, |words|);
    AfterBoth(x, m, n, n * |words'|);
  }

  lemma TimesNext(n: nat, k: nat)
    ensures n * (k + 1) == n * k + n
  {
  }

  ghost predicate AllRejected(words: seq<nat>, bound: nat)
    requires bound > 0
  {
    forall k :: 0 <= k < |words| ==> words[k] < WORD % bound
  }

  lemma {:induction false} AfterBoth(x: Stream, m: nat, n: nat, both: nat)
    requires |x.s| == 256 && both == m + n
    ensures After(x, both) == After(After(x, m), n)
    decreases m
  {
    if m > 0 {
      AfterBoth(Next(x), m - 1, n, both - 1);
    }
  }

  /** The state before a step. */
  function Previous(y: Stream): Stream
    requires |y.s| == 256
  {
    var s := Swap(y.s, y.i, y.j);
    Stream(Add(y.i, 255), Add(y.j, 256 - (s[y.i] as int)), s)
  }

  /** No step loses state: each can be undone, so different states never merge. */
  lemma StepIsReversible(x: Stream)
    requires Perm(x.s)
    ensures Perm(Next(x).s) && Previous(Next(x)) == x
  {
    var y := Next(x);
    SwapPerm(x.s, y.i, y.j);
    AddBack(x.i, 1);
    AddBack(x.j, x.s[y.i]);
  }

  lemma AddBack(a: Byte, b: Byte)
    ensures Add(Add(a, b), 256 - (b as int)) == a
  {
  }

  lemma StatesStayApart(x: Stream, y: Stream)
    requires Perm(x.s) && Perm(y.s) && Next(x) == Next(y)
    ensures x == y
  {
    StepIsReversible(x);
    StepIsReversible(y);
  }

  lemma AddOne(a: int, b: int)
    ensures Add(Add(a, b), 1) == Add(a, b + 1)
  {
  }

  /** Seed mixing moves i on by one a byte and keeps a permutation a permutation. */
  lemma {:induction false} MixedKeeps(x: Stream, dat: seq<Byte>, n: nat)
    requires Perm(x.s) && dat != []
    ensures MixedUpto(x, dat, n).i == Add(x.i, n) && Perm(MixedUpto(x, dat, n).s)
  {
    if n > 0 {
      MixedKeeps(x, dat, n - 1);
      AddOne(x.i, n - 1);
      var y := MixedUpto(x, dat, n);
      SwapPerm(MixedUpto(x, dat, n - 1).s, y.i, y.j);
    }
  }

  /** Whatever the data, stirring goes all the way round: both indices end just before where i was. */
  lemma StirredEnds(x: Stream, dat: seq<Byte>)
    requires Perm(x.s) && dat != []
    ensures var r := Stirred(x, dat); Perm(r.s) && r.i == r.j == Add(x.i, 255)
  {
    var y := x.(i := Add(x.i, 255));
    var n := 256;
    MixedKeeps(y, dat, n);
    assert Add(Add(x.i, 255), 256) == Add(x.i, 255);
  }

  class Arc4 {
    var i: Byte
    var j: Byte
    const s: array<Byte>

    ghost predicate Valid()
      reads this, s
    {
      s.Length == 256 && Perm(s[..])
    }

    ghost function State(): Stream
      reads this, s
    {
      Stream(i, j, s[..])
    }

    constructor ()
      ensures fresh(s) && s.Length == 256
    {
      s := new Byte[256](_ => 0);
      i, j := 0, 0;
    }

    /** arc4_init */
    method Init()
      requires s.Length == 256
      modifies this, s
      ensures Valid() && i == 0 && j == 0 && forall k :: 0 <= k < 256 ==> s[k] == k
    {
      var n := 0;
      while n < 256
        invariant n <= 256 && forall k :: 0 <= k < n ==> s[k] == k
      {
        s[n] := n;
        n := n + 1;
      }
      i, j := 0, 0;
      assert forall k :: 0 <= k < 256 ==> s[..][k] == k;
    }

    /** The swap that every step ends with. */
    method Exchange()
      requires Valid()
      modifies s
      ensures Valid() && s[..] == Swap(old(s[..]), i, j)
    {
      SwapPerm(s[..], i, j);
      var si := s[i];
      s[i] := s[j];
      s[j] := si;
      assert s[..] == Swap(old(s[..]), i, j);
    }

    /** The body of the loop in arc4_addrandom */
    method AddStep(dat: seq<Byte>, n: nat)
      requires Valid() && dat != []
      modifies this, s
      ensures Valid() && State() == Mixed(old(State()), dat[n % |dat|])
    {
      i := Add(i, 1);
      j := Add(Add(j, s[i]), dat[n % |dat|]);
      Exchange();
    }

    /** arc4_addrandom: whatever data comes in, the state stays a permutation. */
    method AddRandom(dat: seq<Byte>)
      requires Valid() && dat != []
      modifies this, s
      ensures Valid() && State() == Stirred(old(State()), dat)
    {
      i := Add(i, 255);
      ghost var x := State();
      var n := 0;
      while n < 256
        invariant n <= 256 && Valid() && State() == MixedUpto(x, dat, n)
      {
        AddStep(dat, n);
        n := n + 1;
      }
      j := i;
    }

    /** arc4random_addrandom, which looks at all the data */
    method AddAllRandom(dat: seq<Byte>)
      requires Valid()
      modifies this, s
      ensures Valid() && State() == StirredByAll(old(State()), dat)
    {
      var k := 0;
      while k < |dat|
        invariant Valid()
        invariant StirredByAll(State(), if k < |dat| then dat[k..] else []) == StirredByAll(old(State()), dat)
      {
        AddRandom(dat[k..]);
        assert k + 256 < |dat| ==> dat[k..][256..] == dat[k + 256..];
        k := k + 256;
      }
    }

    /** arc4_getbyte */
    method GetByte() returns (b: Byte)
      requires Valid()
      modifies this, s
      ensures Valid() && State() == Next(old(State())) && b == Output(old(State()))
    {
      i := Add(i, 1);
      var si := s[i];
      j := Add(j, si);
      var sj := s[j];
      Exchange();
      b := s[Add(si, sj)];
    }

    /** One more byte behind w */
    method PushByte(w: nat) returns (w': nat)
      requires Valid()
      modifies this, s
      ensures Valid() && State() == Next(old(State())) && w' == w * 256 + Output(old(State()))
    {
      var b := GetByte();
      w' := w * 256 + b;
    }

    /** arc4_getword: four bytes, the first one most significant */
    method GetWord() returns (w: nat)
      requires Valid()
      modifies this, s
      ensures Valid() && w < WORD && w == Word(old(State()), 4) && State() == After(old(State()), 4)
    {
      Unrolled(State());
      WordFits(State(), 4);
      w := PushByte(0);
      w := PushByte(w);
      w := PushByte(w);
      w := PushByte(w);
    }

    /** One more of the words of the stream that began at x */
    method NextWord(ghost x: Stream, ghost words: seq<nat>) returns (w: nat)
      requires Valid() && Yielded(x, 4, words, State())
      modifies this, s
      ensures Valid() && w < WORD && Yielded(x, 4, words + [w], State())
    {
      OneMoreWord(x, 4, words, State());
      w := GetWord();
    }

    /** arc4random_uniform with no seeding in between; it gives up, as the code never does, when the first
        tries words are all rejected. */
    method Uniform(bound: nat, tries: nat) returns (found: bool, r: nat, ghost words: seq<nat>)
      requires Valid() && bound < WORD
      modifies this, s
      ensures Valid() && Yielded(old(State()), 4, words, State()) && |words| <= tries
      ensures bound < 2 ==> found && r == 0 && words == []
      ensures bound >= 2 && found ==>
                && words != [] && words[|words| - 1] >= WORD % bound && r == words[|words| - 1] % bound < bound
                && AllRejected(words[..|words| - 1], bound)
      ensures bound >= 2 && !found ==> |words| == tries && AllRejected(words, bound)
    {
      words := [];
      if bound < 2 {
        return true, 0, [];
      }
      var min := MinWord(bound);
      MinIsRemainder(bound);
      var used := 0;
      while used < tries
        invariant used == |words| <= tries && Valid() && Yielded(old(State()), 4, words, State()) && AllRejected(words, bound)
      {
        var w := NextWord(old(State()), words);
        ghost var was := words;
        words, used := words + [w], used + 1;
        assert words[..|words| - 1] == was;
        if w >= min {
          return true, w % bound, words;
        }
      }
      return false, 0, words;
    }

    /** The discarding loop of arc4_stir, for total bytes */
    method Discard(total: nat)
      requires Valid()
      modifies this, s
      ensures Valid() && State() == After(old(State()), total)
    {
      var n := 0;
      while n < total
        invariant n <= total && Valid() && After(State(), total - n) == After(old(State()), total)
      {
        var b := GetByte();
        n := n + 1;
      }
    }
  }

  // ---- Bounded numbers -----------------------------------------------------

  /** The 32-bit computation of min in arc4random_uniform */
  function MinWord(bound: nat): nat
    requires 2 <= bound < WORD
  {
    if bound > 0x8000_0000 then (1 + (WORD - 1 - bound)) % WORD
    else Negated(bound * 2) % bound
  }

  /** (0xffffffff - x) + 1 in 32 bits */
  function Negated(x: nat): nat {
    ((0xffff_ffff - x % WORD) % WORD + 1) % WORD
  }

  lemma NegatedIs(x: nat)
    requires 0 < x < WORD
    ensures Negated(x) == WORD - x
  {
  }

  /** It is 2^32 modulo the bound, and less than half of all words are below it. */
  lemma MinIsRemainder(bound: nat)
    requires 2 <= bound < WORD
    ensures MinWord(bound) == WORD % bound
    ensures 2 * MinWord(bound) < WORD
  {
    if bound > 0x8000_0000 {
      Remainder(WORD - bound, bound, 1);
    } else if bound < 0x8000_0000 {
      MinLow(bound);
    }
    LessThanHalf(bound);
  }

  lemma MinLow(bound: nat)
    requires 2 <= bound < 0x8000_0000
    ensures MinWord(bound) == WORD % bound
  {
    NegatedIs(bound * 2);
    WithoutTwo(WORD, bound);
  }

  lemma WithoutTwo(n: nat, b: nat)
    requires b > 0 && 2 * b <= n
    ensures (n - 2 * b) % b == n % b
  {
    var r, q := n % b, n / b;
    assert n == q * b + r;
    if q < 2 {
      TimesMonotone(q, 1, b);
    }
    assert (q - 2) * b == q * b - 2 * b;
    Remainder(r, b, q - 2);
  }

  lemma LessThanHalf(bound: nat)
    requires 2 <= bound < WORD
    ensures 2 * (WORD % bound) < WORD
  {
    var r, q := WORD % bound, WORD / bound;
    assert WORD == q * bound + r;
    if q == 0 {
    } else {
      TimesMonotone(1, q, bound);
    }
  }

  lemma Remainder(r: nat, b: nat, q: nat)
    requires b > 0 && r < b
    ensures (q * b + r) % b == r && (q * b + r) / b == q
  {
    var n := q * b + r;
    var p := n / b;
    assert (p - q) * b == r - n % b;
    assert (q - p) * b == n % b - r;
    if p - q >= 1 {
      TimesMonotone(1, p - q, b);
    } else if q - p >= 1 {
      TimesMonotone(1, q - p, b);
    }
  }

  /** The numbers among the n from a on that have remainder v */
  ghost function Hits(a: nat, n: nat, b: nat, v: nat): set<nat>
    requires b > 0
  {
    set r: nat | a <= r < a + n && Hit(r, b, v)
  }

  ghost predicate Hit(r: nat, b: nat, v: nat)
    requires b > 0
  {
    r % b == v
  }

  /** Every result has the same number of accepted words, those from min on. */
  lemma EveryResultEquallyLikely(bound: nat, v: nat)
    requires 2 <= bound < WORD && v < bound
    ensures |Hits(MinWord(bound), WORD - MinWord(bound), bound, v)| == WORD / bound
  {
    MinIsRemainder(bound);
    var min, q := WORD % bound, WORD / bound;
    assert WORD == q * bound + min;
    Window(min, bound, v, q);
  }

  /** In q * b consecutive numbers every remainder occurs q times. */
  lemma {:induction false} Window(a: nat, b: nat, v: nat, q: nat)
    requires b > 0 && v < b
    ensures |Hits(a, q * b, b, v)| == q
  {
    if q == 0 {
      assert Hits(a, 0, b, v) == {};
    } else {
      Window(a, b, v, q - 1);
      var n := (q - 1) * b;
      assert q * b == n + b;
      HitsJoin(a, n, b, b, v);
      var one := OneHit(a + n, b, v);
    }
  }

  lemma HitsJoin(a: nat, n: nat, k: nat, b: nat, v: nat)
    requires b > 0
    ensures Hits(a, n + k, b, v) == Hits(a, n, b, v) + Hits(a + n, k, b, v)
    ensures Hits(a, n, b, v) !! Hits(a + n, k, b, v)
  {
  }

  lemma OneHit(m: nat, b: nat, v: nat) returns (one: nat)
    requires b > 0 && v < b
    ensures Hits(m, b, b, v) == {one}
  {
    one := OneIn(m, b, v);
    forall r | r in Hits(m, b, b, v)
      ensures r == one
    {
      SameRemainder(r, one, b);
    }
    assert one in Hits(m, b, b, v);
  }

  /** The number with remainder v among the b numbers from m on. */
  lemma OneIn(m: nat, b: nat, v: nat) returns (r: nat)
    requires b > 0 && v < b
    ensures m <= r < m + b && r % b == v
  {
    var w := m % b;
    r := m - w + if w <= v then v else b + v;
    var p := m / b + if w <= v then 0 else 1;
    assert r == p * b + v;
    Remainder(v, b, p);
  }

  lemma SameRemainder(x: nat, y: nat, b: nat)
    requires b > 0 && x % b == y % b && x - b < y < x + b
    ensures x == y
  {
    var p, q := x / b, y / b;
    assert x - y == (p - q) * b && (q - p) * b == y - x;
    if p > q {
      TimesMonotone(1, p - q, b);
    } else if q > p {
      TimesMonotone(1, q - p, b);
    }
  }
}
