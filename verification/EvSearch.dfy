/** Searching an evbuffer block by block (net/libevent/src/buffer.c), proved
    against scans of the flat bytes. */
module EvSearch {
  import opened EvChain
  import opened EvBuffers

  // ---- Flat scans ----------------------------------------------------------

  /** j is the first place from start on whose byte is in chars. */
  ghost predicate FirstOf(s: seq<Byte>, start: int, chars: set<Byte>, j: int) {
    && 0 <= start <= j < |s| && s[j] in chars
    && NoneOf(s, start, j, chars)
  }

  /** No byte of s from start to end is in chars. */
  ghost predicate NoneOf(s: seq<Byte>, start: int, end: int, chars: set<Byte>) {
    forall k :: start <= k < end && 0 <= k < |s| ==> s[k] !in chars
  }

  ghost predicate AllIn(s: seq<Byte>, start: int, end: int, chars: set<Byte>) {
    0 <= start <= end <= |s| && forall k :: start <= k < end ==> s[k] in chars
  }

  ghost predicate MatchAt(s: seq<Byte>, what: seq<Byte>, j: int) {
    0 <= j <= j + |what| <= |s| && s[j..j + |what|] == what
  }

  /** No match of what starts from start to end. */
  ghost predicate NoMatch(s: seq<Byte>, what: seq<Byte>, start: int, end: int) {
    forall j :: start <= j < end ==> !MatchAt(s, what, j)
  }

  // ---- Positions -----------------------------------------------------------

  /** The bytes before block i. */
  ghost function Base(ds: seq<seq<Byte>>, i: nat): nat {
    if i <= |ds| then |Flat(ds[..i])| else 0
  }

  /** Block i in the flat bytes. */
  lemma BlockIn(ds: seq<seq<Byte>>, i: nat)
    requires i < |ds|
    ensures Base(ds, i + 1) == Base(ds, i) + |ds[i]| <= |Flat(ds)|
  {
    FlatAt(ds, i);
  }

  lemma ByteIn(ds: seq<seq<Byte>>, i: nat, k: nat)
    requires i < |ds| && k < |ds[i]|
    ensures Base(ds, i) + k < |Flat(ds)| && Flat(ds)[Base(ds, i) + k] == ds[i][k]
  {
    FlatAt(ds, i);
  }

  lemma Middle<T>(a: seq<T>, b: seq<T>, c: seq<T>, i: nat, n: nat)
    requires i + n <= |b|
    ensures (a + b + c)[|a| + i..|a| + i + n] == b[i..i + n]
  {
  }

  lemma BytesIn(ds: seq<seq<Byte>>, c: nat, i: nat, n: nat)
    requires c < |ds| && i + n <= |ds[c]|
    ensures Base(ds, c) + i + n <= |Flat(ds)|
    ensures Flat(ds)[Base(ds, c) + i..Base(ds, c) + i + n] == ds[c][i..i + n]
  {
    FlatAt(ds, c);
    Middle(Flat(ds[..c]), ds[c], Flat(ds[c + 1..]), i, n);
  }

  lemma BaseEnd(ds: seq<seq<Byte>>)
    ensures Base(ds, |ds|) == |Flat(ds)|
  {
    assert ds[..|ds|] == ds;
  }

  /** The one place evbuffer_ptr_set gives the offset pos. */
  ghost predicate Exact(ds: seq<seq<Byte>>, p: Ptr) {
    PtrOk(ds, p) && (p.chain < |ds| ==> p.inChain < |ds[p.chain]|)
  }

  lemma {:induction false} BaseMonotone(ds: seq<seq<Byte>>, i: nat, j: nat)
    requires i <= j <= |ds|
    ensures Base(ds, i) <= Base(ds, j)
    decreases j
  {
    if i < j {
      BaseMonotone(ds, i, j - 1);
      BlockIn(ds, j - 1);
    }
  }

  /** An offset has one exact place. */
  lemma ExactUnique(ds: seq<seq<Byte>>, p: Ptr, q: Ptr)
    requires Exact(ds, p) && Exact(ds, q) && p.pos == q.pos
    ensures p == q
  {
    if p.chain < q.chain {
      BlockIn(ds, p.chain);
      BaseMonotone(ds, p.chain + 1, q.chain);
    } else if q.chain < p.chain {
      BlockIn(ds, q.chain);
      BaseMonotone(ds, q.chain + 1, p.chain);
    }
  }

  const NOT_FOUND := -1

  datatype PtrHow = PtrSet | PtrAdd

  /** The walk of evbuffer_ptr_set: the place left bytes behind inChain of block chain. */
  method Walk(buf: EvBuffer, chain: nat, inChain: nat, left: nat) returns (c: nat, i: nat, rest: nat)
    requires buf.Valid() && PtrOk(buf.datas, Ptr(Base(buf.datas, chain) + inChain, chain, inChain))
    ensures c <= |buf.chains|
    ensures c < |buf.chains| ==> rest == 0 && Exact(buf.datas, Ptr(Base(buf.datas, chain) + inChain + left, c, i))
    ensures c == |buf.chains| ==> i == 0 && Base(buf.datas, chain) + inChain + left == buf.totalLen + rest
  {
    ghost var ds := buf.datas;
    c, i, rest := chain, inChain, left;
    while c < |buf.chains| && i + rest >= buf.chains[c].off
      modifies {}
      invariant PtrOk(ds, Ptr(Base(ds, c) + i, c, i))
      invariant Base(ds, c) + i + rest == Base(ds, chain) + inChain + left
      decreases |buf.chains| - c
    {
      Block(buf.chains, ds, c);
      BlockIn(ds, c);
      rest := rest - (buf.chains[c].off - i);
      c, i := c + 1, 0;
    }
    if c < |buf.chains| {
      Block(buf.chains, ds, c);
      i, rest := i + rest, 0;
    } else {
      BaseEnd(ds);
    }
  }

  /** evbuffer_ptr_set */
  method PtrSetTo(buf: EvBuffer, pos: Ptr, position: nat, how: PtrHow) returns (result: int, p: Ptr)
    requires buf.Valid() && (how.PtrAdd? && pos.pos >= 0 ==> PtrOk(buf.datas, pos))
    ensures var fails := how.PtrAdd? && (pos.pos < 0 || EV_SIZE_MAX - position < pos.pos);
            var target := if how.PtrSet? then position else pos.pos + position;
            if fails then result == -1 && p == pos
            else if target <= buf.totalLen then result == 0 && p.pos == target && Exact(buf.datas, p)
            else result == -1 && p == Ptr(NOT_FOUND, |buf.chains|, 0)
  {
    p := pos;
    if how.PtrAdd? && (pos.pos < 0 || EV_SIZE_MAX - position < pos.pos) {
      return -1, pos;
    }
    var c, i, rest;
    if how.PtrSet? {
      assert buf.datas[..0] == [];
      c, i, rest := Walk(buf, 0, 0, position);
      p := Ptr(position, c, i);
    } else {
      c, i, rest := Walk(buf, pos.chain, pos.inChain, position);
      p := Ptr(pos.pos + position, c, i);
    }
    BaseEnd(buf.datas);
    result := 0;
    if c < |buf.chains| {
      ExactInside(buf.datas, p);
    } else if rest != 0 {
      return -1, Ptr(NOT_FOUND, |buf.chains|, 0);
    }
  }

  lemma ExactInside(ds: seq<seq<Byte>>, p: Ptr)
    requires Exact(ds, p) && p.chain < |ds|
    ensures 0 <= p.pos < |Flat(ds)| && Flat(ds)[p.pos] == ds[p.chain][p.inChain]
  {
    ByteIn(ds, p.chain, p.inChain);
  }

  /** evbuffer_ptr_subtract */
  method PtrSubtract(buf: EvBuffer, pos: Ptr, howfar: nat) returns (result: int, p: Ptr)
    requires buf.Valid() && (pos.pos >= 0 ==> PtrOk(buf.datas, pos))
    ensures if pos.pos < 0 || howfar > pos.pos then result == -1 && p == pos
            else result == 0 && p.pos == pos.pos - howfar && PtrOk(buf.datas, p)
    ensures result == 0 && howfar > 0 ==> Exact(buf.datas, p)
  {
    if pos.pos < 0 || howfar > pos.pos {
      return -1, pos;
    }
    if pos.chain < |buf.chains| && howfar <= pos.inChain {
      return 0, Ptr(pos.pos - howfar, pos.chain, pos.inChain - howfar);
    }
    PtrFrom(buf.datas, pos);
    result, p := PtrSetTo(buf, pos, pos.pos - howfar, PtrSet);
  }

  // ---- Looking for a byte --------------------------------------------------

  /** memchr */
  method MemChr(s: seq<Byte>, start: nat, end: nat, c: Byte) returns (i: int)
    requires start <= end <= |s|
    ensures i == NOT_FOUND ==> NoneOf(s, start, end, {c})
    ensures i != NOT_FOUND ==> FirstOf(s, start, {c}, i) && i < end
  {
    i := start;
    while i < end
      invariant start <= i <= end && NoneOf(s, start, i, {c})
    {
      if s[i] == c {
        return;
      }
      i := i + 1;
    }
    i := NOT_FOUND;
  }

  const CR: Byte := 13
  const LF: Byte := 10
  const CHUNK_SZ := 128

  /** find_eol_char on the bytes of s from start on */
  method FindEolChar(s: seq<Byte>, start: nat) returns (i: int)
    requires start <= |s|
    ensures i == NOT_FOUND ==> NoneOf(s, start, |s|, {CR, LF})
    ensures i != NOT_FOUND ==> FirstOf(s, start, {CR, LF}, i)
  {
    var at: nat := start;
    while at < |s|
      invariant start <= at && NoneOf(s, start, at, {CR, LF})
    {
      var chunk := if at + CHUNK_SZ < |s| then CHUNK_SZ else |s| - at;
      var cr := MemChr(s, at, at + chunk, CR);
      var lf := MemChr(s, at, at + chunk, LF);
      if cr != NOT_FOUND {
        if lf != NOT_FOUND && lf < cr {
          return lf;
        }
        return cr;
      } else if lf != NOT_FOUND {
        return lf;
      }
      at := at + CHUNK_SZ;
    }
    return NOT_FOUND;
  }

  /** What is not in block i from place k on is not in the flat bytes either. */
  lemma NoneInBlock(ds: seq<seq<Byte>>, i: nat, k: nat, end: nat, chars: set<Byte>, start: int)
    requires i < |ds| && k <= end <= |ds[i]| && NoneOf(ds[i], k, end, chars)
    requires NoneOf(Flat(ds), start, Base(ds, i) + k, chars)
    ensures NoneOf(Flat(ds), start, Base(ds, i) + end, chars)
  {
    BlockIn(ds, i);
    forall j | start <= j < Base(ds, i) + end && 0 <= j < |Flat(ds)|
      ensures Flat(ds)[j] !in chars
    {
      if j >= Base(ds, i) + k {
        ByteIn(ds, i, j - Base(ds, i));
      }
    }
  }

  /** The walk that evbuffer_strchr and evbuffer_find_eol_char share; eol picks the second. */
  method FindByte(buf: EvBuffer, it: Ptr, eol: bool, chr: Byte) returns (p: Ptr)
    requires buf.Valid() && PtrOk(buf.datas, it)
    ensures var chars := if eol then {CR, LF} else {chr};
            if p.pos == NOT_FOUND
            then NoneOf(buf.Bytes(), it.pos, buf.totalLen, chars)
            else FirstOf(buf.Bytes(), it.pos, chars, p.pos) && Exact(buf.datas, p)
  {
    ghost var chars, ds := if eol then {CR, LF} else {chr}, buf.datas;
    var c, i, pos := it.chain, it.inChain, it.pos;
    while c < |buf.chains|
      modifies {}
      invariant PtrOk(ds, Ptr(pos, c, i))
      invariant it.pos <= pos && NoneOf(Flat(ds), it.pos, pos, chars)
    {
      var bytes := buf.BlockBytes(c);
      BlockIn(ds, c);
      var cp;
      if eol {
        cp := FindEolChar(bytes, i);
      } else {
        cp := MemChr(bytes, i, |bytes|, chr);
      }
      if cp != NOT_FOUND {
        NoneInBlock(ds, c, i, cp, chars, it.pos);
        ByteIn(ds, c, cp);
        return Ptr(pos + (cp - i), c, cp);
      }
      NoneInBlock(ds, c, i, |bytes|, chars, it.pos);
      pos := pos + (buf.chains[c].off - i);
      c, i := c + 1, 0;
    }
    BaseEnd(ds);
    return Ptr(NOT_FOUND, |buf.chains|, 0);
  }

  /** evbuffer_strspn: how many bytes from it on are in chars. */
  method StrSpn(buf: EvBuffer, it: Ptr, chars: set<Byte>) returns (count: nat)
    requires buf.Valid() && PtrOk(buf.datas, it)
    ensures it.pos + count <= buf.totalLen
    ensures AllIn(buf.Bytes(), it.pos, it.pos + count, chars)
    ensures it.pos + count < buf.totalLen ==> buf.Bytes()[it.pos + count] !in chars
  {
    ghost var ds := buf.datas;
    PtrFrom(ds, it);
    count := 0;
    if it.chain == |buf.chains| {
      BaseEnd(ds);
      return;
    }
    var c: nat, i: nat := it.chain, it.inChain;
    while true
      modifies {}
      invariant c < |buf.chains| && PtrOk(ds, Ptr(it.pos + count, c, i))
      invariant AllIn(Flat(ds), it.pos, it.pos + count, chars)
      decreases |buf.chains| - c
    {
      var bytes := buf.BlockBytes(c);
      BlockIn(ds, c);
      var n := SpanIn(bytes, i, chars);
      AllInBlock(ds, c, i, n, chars, it.pos);
      count := count + n;
      if i + n < |bytes| {
        ByteIn(ds, c, i + n);
        return;
      }
      i := 0;
      if c + 1 == |buf.chains| {
        BaseEnd(ds);
        return;
      }
      c := c + 1;
    }
  }

  /** The loop over the bytes of one block. */
  method SpanIn(bytes: seq<Byte>, start: nat, chars: set<Byte>) returns (n: nat)
    requires start <= |bytes|
    ensures AllIn(bytes, start, start + n, chars)
    ensures start + n < |bytes| ==> bytes[start + n] !in chars
  {
    n := 0;
    while start + n < |bytes| && bytes[start + n] in chars
      invariant AllIn(bytes, start, start + n, chars)
    {
      n := n + 1;
    }
  }

  lemma AllInBlock(ds: seq<seq<Byte>>, c: nat, i: nat, n: nat, chars: set<Byte>, start: int)
    requires c < |ds| && AllIn(ds[c], i, i + n, chars) && AllIn(Flat(ds), start, Base(ds, c) + i, chars)
    ensures AllIn(Flat(ds), start, Base(ds, c) + i + n, chars)
  {
    BlockIn(ds, c);
    forall k | start <= k < Base(ds, c) + i + n
      ensures Flat(ds)[k] in chars
    {
      if k >= Base(ds, c) + i {
        var l := k - Base(ds, c);
        ByteIn(ds, c, l);
        assert ds[c][l] in chars;
      }
    }
  }

  /** evbuffer_getchr */
  method GetChr(buf: EvBuffer, it: Ptr) returns (r: int)
    requires buf.Valid() && Exact(buf.datas, it)
    ensures r == if it.pos < buf.totalLen then buf.Bytes()[it.pos] else -1
  {
    if it.chain == |buf.chains| {
      BaseEnd(buf.datas);
      return -1;
    }
    ExactInside(buf.datas, it);
    var bytes := buf.BlockBytes(it.chain);
    r := bytes[it.inChain];
  }

  // ---- Looking for a byte string -------------------------------------------

  /** memcmp, as far as equality goes. */
  method SameBytes(a: seq<Byte>, b: seq<Byte>) returns (same: bool)
    requires |a| == |b|
    ensures same <==> a == b
  {
    var i := 0;
    while i < |a|
      invariant i <= |a| && a[..i] == b[..i]
    {
      if a[i] != b[i] {
        return false;
      }
      i := i + 1;
    }
    assert a[..i] == a && b[..i] == b;
    return true;
  }

  /** The first m bytes of mem are at pos. */
  ghost predicate Agree(s: seq<Byte>, pos: int, mem: seq<Byte>, m: int) {
    0 <= pos <= pos + m <= |s| && 0 <= m <= |mem| && s[pos..pos + m] == mem[..m]
  }

  lemma AgreeMatch(s: seq<Byte>, pos: int, mem: seq<Byte>)
    ensures Agree(s, pos, mem, |mem|) <==> MatchAt(s, mem, pos)
  {
    assert mem[..|mem|] == mem;
  }

  lemma Extend<T>(s: seq<T>, pos: nat, mem: seq<T>, m: nat, n: nat)
    requires pos + m + n <= |s| && m + n <= |mem| && s[pos..pos + m] == mem[..m]
    ensures s[pos..pos + m + n] == mem[..m + n] <==> s[pos + m..pos + m + n] == mem[m..m + n]
  {
    assert s[pos..pos + m + n] == s[pos..pos + m] + s[pos + m..pos + m + n];
    assert mem[..m + n] == mem[..m] + mem[m..m + n];
  }

  /** n bytes more, from place i of block c, agree or not. */
  lemma AgreeMore(ds: seq<seq<Byte>>, pos: int, mem: seq<Byte>, m: nat, c: nat, i: nat, n: nat)
    requires Agree(Flat(ds), pos, mem, m) && m + n <= |mem| && c < |ds| && i + n <= |ds[c]| && Base(ds, c) + i == pos + m
    ensures Agree(Flat(ds), pos, mem, m + n) <==> ds[c][i..i + n] == mem[m..m + n]
  {
    BytesIn(ds, c, i, n);
    Extend(Flat(ds), pos, mem, m, n);
  }

  lemma MatchAgrees(s: seq<Byte>, pos: int, mem: seq<Byte>, m: nat)
    requires m <= |mem|
    ensures MatchAt(s, mem, pos) ==> Agree(s, pos, mem, m)
  {
    if MatchAt(s, mem, pos) {
      assert s[pos..pos + m] == s[pos..pos + |mem|][..m];
    }
  }

  /** evbuffer_ptr_memcmp, as far as equality goes. */
  method PtrMemcmp(buf: EvBuffer, pos: Ptr, mem: seq<Byte>) returns (same: bool)
    requires buf.Valid() && (pos.pos >= 0 ==> PtrOk(buf.datas, pos))
    ensures same <==> MatchAt(buf.Bytes(), mem, pos.pos)
  {
    if pos.pos < 0 || EV_SIZE_MAX - |mem| < pos.pos || pos.pos + |mem| > buf.totalLen {
      return false;
    }
    ghost var ds := buf.datas;
    var c: nat, i: nat, m: nat := pos.chain, pos.inChain, 0;
    while m < |mem| && c < |buf.chains|
      modifies {}
      invariant Agree(Flat(ds), pos.pos, mem, m)
      invariant m < |mem| ==> PtrOk(ds, Ptr(pos.pos + m, c, i))
      decreases |buf.chains| - c
    {
      var bytes := buf.BlockBytes(c);
      var len := |mem| - m;
      var n := if len + i > |bytes| then |bytes| - i else len;
      AgreeMore(ds, pos.pos, mem, m, c, i, n);
      BlockIn(ds, c);
      var same := SameBytes(bytes[i..i + n], mem[m..m + n]);
      if !same {
        MatchAgrees(Flat(ds), pos.pos, mem, m + n);
        return false;
      }
      m := m + n;
      c, i := c + 1, 0;
    }
    BaseEnd(ds);
    AgreeMatch(Flat(ds), pos.pos, mem);
    return true;
  }

  lemma MatchFirst(s: seq<Byte>, what: seq<Byte>, j: int)
    requires what != []
    ensures MatchAt(s, what, j) ==> 0 <= j < |s| && s[j] == what[0]
  {
    if MatchAt(s, what, j) {
      assert s[j..j + |what|][0] == s[j];
    }
  }

  /** Where the first byte is not, there is no match. */
  lemma NoFirstByte(s: seq<Byte>, what: seq<Byte>, start: int, end: int)
    requires what != [] && NoneOf(s, start, end, {what[0]})
    ensures NoMatch(s, what, start, end)
  {
    forall j | start <= j < end
      ensures !MatchAt(s, what, j)
    {
      MatchFirst(s, what, j);
    }
  }

  datatype Limit = NoLimit | Before(end: Ptr)

  /** evbuffer_search_range; evbuffer_search is the case without limit. */
  method SearchRange(buf: EvBuffer, what: seq<Byte>, start: Place, limit: Limit) returns (p: Ptr)
    requires buf.Valid()
    requires (start.At? ==> PtrOk(buf.datas, start.ptr)) && (limit.Before? ==> PtrOk(buf.datas, limit.end))
    ensures var from := if start.At? then start.ptr.pos else 0;
            var to := if limit.Before? then limit.end.pos else buf.totalLen;
            if what == [] || |what| > EV_SSIZE_MAX then p.pos == from && PtrOk(buf.datas, p)
            else if p.pos == NOT_FOUND then NoMatch(buf.Bytes(), what, from, to - |what| + 1)
            else
              && from <= p.pos <= to - |what| && MatchAt(buf.Bytes(), what, p.pos)
              && NoMatch(buf.Bytes(), what, from, p.pos) && Exact(buf.datas, p)
  {
    var pos := if start.At? then start.ptr else Ptr(0, 0, 0);
    assert buf.datas[..0] == [];
    if what == [] || |what| > EV_SSIZE_MAX {
      return pos;
    }
    p := SearchFrom(buf, what, pos, limit);
  }

  /** The search loop of evbuffer_search_range. */
  method SearchFrom(buf: EvBuffer, what: seq<Byte>, from: Ptr, limit: Limit) returns (p: Ptr)
    requires buf.Valid() && what != [] && PtrOk(buf.datas, from) && (limit.Before? ==> PtrOk(buf.datas, limit.end))
    ensures var to := if limit.Before? then limit.end.pos else buf.totalLen;
            if p.pos == NOT_FOUND then NoMatch(buf.Bytes(), what, from.pos, to - |what| + 1)
            else
              && from.pos <= p.pos <= to - |what| && MatchAt(buf.Bytes(), what, p.pos)
              && NoMatch(buf.Bytes(), what, from.pos, p.pos) && Exact(buf.datas, p)
  {
    ghost var ds, s := buf.datas, buf.Bytes();
    var lastChain := if limit.Before? then limit.end.chain else |buf.chains|;
    var pos := from;
    while pos.chain < |buf.chains|
      modifies {}
      invariant PtrOk(ds, pos) && from.pos <= pos.pos && NoMatch(s, what, from.pos, pos.pos)
      decreases |buf.chains| - pos.chain, buf.totalLen - pos.pos
    {
      var found, next := NextFirst(buf, pos, what, from.pos);
      if found {
        pos := next;
        var same := PtrMemcmp(buf, pos, what);
        if same {
          if limit.Before? && pos.pos + |what| > limit.end.pos {
            return Ptr(NOT_FOUND, |buf.chains|, 0);
          }
          return pos;
        }
        pos := StepOn(buf, pos, buf.chains[pos.chain].off, from.pos, what);
      } else {
        if pos.chain == lastChain {
          BlockIn(ds, pos.chain);
          return Ptr(NOT_FOUND, |buf.chains|, 0);
        }
        pos := next;
      }
    }
    BaseEnd(ds);
    if limit.Before? {
      PtrFrom(ds, limit.end);
    }
    return Ptr(NOT_FOUND, |buf.chains|, 0);
  }

  /** The memchr of the loop: the next place in the block for the first byte of what, or else the
      start of the next block. */
  method NextFirst(buf: EvBuffer, pos: Ptr, what: seq<Byte>, ghost start: int) returns (found: bool, next: Ptr)
    requires buf.Valid() && what != [] && PtrOk(buf.datas, pos) && pos.chain < |buf.chains|
    requires NoMatch(buf.Bytes(), what, start, pos.pos)
    ensures PtrOk(buf.datas, next) && next.pos >= pos.pos && NoMatch(buf.Bytes(), what, start, next.pos)
    ensures if found then next.chain == pos.chain && Exact(buf.datas, next) && next.inChain < |buf.datas[pos.chain]| == buf.chains[pos.chain].off
            else next == Ptr(pos.pos + (buf.chains[pos.chain].off - pos.inChain), pos.chain + 1, 0)
  {
    var bytes := buf.BlockBytes(pos.chain);
    BlockIn(buf.datas, pos.chain);
    var i := MemChr(bytes, pos.inChain, |bytes|, what[0]);
    found := i != NOT_FOUND;
    NoneInRest(buf.datas, start, pos, if found then i else |bytes|, what);
    if found {
      next := Ptr(pos.pos + (i - pos.inChain), pos.chain, i);
    } else {
      next := Ptr(pos.pos + (buf.chains[pos.chain].off - pos.inChain), pos.chain + 1, 0);
    }
  }

  /** The position one byte on, where what does not match. */
  method StepOn(buf: EvBuffer, pos: Ptr, off: nat, ghost start: int, what: seq<Byte>) returns (next: Ptr)
    requires buf.Valid() && PtrOk(buf.datas, pos) && pos.chain < |buf.chains| && pos.inChain < |buf.datas[pos.chain]| == off
    requires NoMatch(buf.Bytes(), what, start, pos.pos) && !MatchAt(buf.Bytes(), what, pos.pos)
    ensures PtrOk(buf.datas, next) && next.pos == pos.pos + 1 <= |buf.Bytes()| && next.chain >= pos.chain
    ensures NoMatch(buf.Bytes(), what, start, next.pos)
  {
    BlockIn(buf.datas, pos.chain);
    OnwardOk(buf.datas, pos, start, what);
    next := Onward(pos, off);
  }

  /** No match starts in a block where the first byte is not. */
  lemma NoneInRest(ds: seq<seq<Byte>>, start: int, pos: Ptr, end: nat, what: seq<Byte>)
    requires PtrOk(ds, pos) && pos.chain < |ds| && pos.inChain <= end <= |ds[pos.chain]| && what != []
    requires NoneOf(ds[pos.chain], pos.inChain, end, {what[0]}) && NoMatch(Flat(ds), what, start, pos.pos)
    ensures NoMatch(Flat(ds), what, start, pos.pos + (end - pos.inChain))
  {
    NoneInBlock(ds, pos.chain, pos.inChain, end, {what[0]}, pos.pos);
    NoFirstByte(Flat(ds), what, pos.pos, pos.pos + (end - pos.inChain));
  }

  /** The place behind pos, which may be in the next block. */
  function Onward(pos: Ptr, off: nat): Ptr {
    if pos.inChain + 1 == off then Ptr(pos.pos + 1, pos.chain + 1, 0) else Ptr(pos.pos + 1, pos.chain, pos.inChain + 1)
  }

  lemma OnwardOk(ds: seq<seq<Byte>>, pos: Ptr, start: int, what: seq<Byte>)
    requires Exact(ds, pos) && pos.chain < |ds| && NoMatch(Flat(ds), what, start, pos.pos) && !MatchAt(Flat(ds), what, pos.pos)
    ensures PtrOk(ds, Onward(pos, |ds[pos.chain]|)) && NoMatch(Flat(ds), what, start, pos.pos + 1) && pos.pos < |Flat(ds)|
  {
    BlockIn(ds, pos.chain);
  }

  // ---- Lines ---------------------------------------------------------------

  datatype EolStyle = EolAny | EolCrlfStrict | EolCrlf | EolLf | EolNul

  /** The first line end from start on is at pos and drain bytes long. */
  ghost predicate LineEnd(s: seq<Byte>, start: int, style: EolStyle, pos: int, drain: int) {
    0 <= start <= pos && drain > 0 && pos + drain <= |s|
    && match style {
         case EolAny =>
           && FirstOf(s, start, {CR, LF}, pos) && AllIn(s, pos, pos + drain, {CR, LF})
           && (pos + drain < |s| ==> s[pos + drain] !in {CR, LF})
         case EolCrlfStrict => MatchAt(s, [CR, LF], pos) && NoMatch(s, [CR, LF], start, pos) && drain == 2
         case EolCrlf =>
           && FirstOf(s, start, {LF}, pos + drain - 1)
           && drain == if pos + drain - 1 > start && s[pos + drain - 2] == CR then 2 else 1
         case EolLf => FirstOf(s, start, {LF}, pos) && drain == 1
         case EolNul => FirstOf(s, start, {0}, pos) && drain == 1
       }
  }

  ghost predicate NoLineEnd(s: seq<Byte>, start: int, style: EolStyle) {
    match style
    case EolAny => NoneOf(s, start, |s|, {CR, LF})
    case EolCrlfStrict => NoMatch(s, [CR, LF], start, |s| - 1)
    case EolCrlf => NoneOf(s, start, |s|, {LF})
    case EolLf => NoneOf(s, start, |s|, {LF})
    case EolNul => NoneOf(s, start, |s|, {0})
  }

  /** evbuffer_search_eol */
  method SearchEol(buf: EvBuffer, start: Place, style: EolStyle) returns (p: Ptr, drain: nat)
    requires buf.Valid() && (start.At? ==> PtrOk(buf.datas, start.ptr))
    ensures var from := if start.At? then start.ptr.pos else 0;
            if p.pos == NOT_FOUND then NoLineEnd(buf.Bytes(), from, style) && drain == 0
            else LineEnd(buf.Bytes(), from, style, p.pos, drain) && PtrOk(buf.datas, p)
  {
    var it := if start.At? then start.ptr else Ptr(0, 0, 0);
    assert buf.datas[..0] == [];
    PtrFrom(buf.datas, it);
    if start.At? && it.chain == |buf.chains| {
      BaseEnd(buf.datas);
      return Ptr(NOT_FOUND, |buf.chains|, 0), 0;
    }
    match style {
      case EolAny =>
        p, drain := SearchAny(buf, it);
      case EolCrlfStrict =>
        p, drain := SearchStrict(buf, it);
      case EolCrlf =>
        p, drain := SearchCrlf(buf, it);
      case EolLf =>
        p := FindByte(buf, it, false, LF);
        drain := if p.pos == NOT_FOUND then 0 else 1;
      case EolNul =>
        p := FindByte(buf, it, false, 0);
        drain := if p.pos == NOT_FOUND then 0 else 1;
    }
  }

  /** All the carriage returns and line feeds from the first one on. */
  method SearchAny(buf: EvBuffer, it: Ptr) returns (p: Ptr, drain: nat)
    requires buf.Valid() && PtrOk(buf.datas, it)
    ensures if p.pos == NOT_FOUND then NoLineEnd(buf.Bytes(), it.pos, EolAny) && drain == 0
            else LineEnd(buf.Bytes(), it.pos, EolAny, p.pos, drain) && PtrOk(buf.datas, p)
  {
    p := FindByte(buf, it, true, 0);
    if p.pos == NOT_FOUND {
      return p, 0;
    }
    drain := StrSpn(buf, p, {CR, LF});
  }

  method SearchStrict(buf: EvBuffer, it: Ptr) returns (p: Ptr, drain: nat)
    requires buf.Valid() && PtrOk(buf.datas, it)
    ensures if p.pos == NOT_FOUND then NoLineEnd(buf.Bytes(), it.pos, EolCrlfStrict) && drain == 0
            else LineEnd(buf.Bytes(), it.pos, EolCrlfStrict, p.pos, drain) && PtrOk(buf.datas, p)
  {
    p := SearchRange(buf, [CR, LF], At(it), NoLimit);
    drain := if p.pos == NOT_FOUND then 0 else 2;
  }

  /** A line feed, with the carriage return before it if it is not in front of it. */
  method SearchCrlf(buf: EvBuffer, it: Ptr) returns (p: Ptr, drain: nat)
    requires buf.Valid() && PtrOk(buf.datas, it)
    ensures if p.pos == NOT_FOUND then NoLineEnd(buf.Bytes(), it.pos, EolCrlf) && drain == 0
            else LineEnd(buf.Bytes(), it.pos, EolCrlf, p.pos, drain) && PtrOk(buf.datas, p)
  {
    p := FindByte(buf, it, false, LF);
    if p.pos == NOT_FOUND {
      return p, 0;
    }
    if p.pos == it.pos {
      return p, 1;
    }
    var result, before := PtrSubtract(buf, p, 1);
    var chr := GetChr(buf, before);
    if chr == CR {
      return before, 2;
    }
    return p, 1;
  }

  datatype Line = NoLine | Line(text: seq<Byte>)

  /** evbuffer_readln */
  method ReadLn(buf: EvBuffer, style: EolStyle, memory: bool) returns (line: Line, ghost drain: nat)
    requires buf.Valid()
    modifies buf`chains, buf`lwd, buf`totalLen, buf`datas, Memory(buf.chains)
    ensures buf.Valid()
    ensures line.NoLine? ==>
              && buf.Bytes() == old(buf.Bytes())
              && (buf.freezeStart || !memory || NoLineEnd(buf.Bytes(), 0, style))
    ensures line.Line? ==>
              && !buf.freezeStart && memory && LineEnd(old(buf.Bytes()), 0, style, |line.text|, drain)
              && old(buf.Bytes()) == line.text + old(buf.Bytes())[|line.text|..|line.text| + drain] + buf.Bytes()
    ensures Memory(buf.chains) <= old(Memory(buf.chains))
  {
    drain := 0;
    if buf.freezeStart {
      return NoLine, 0;
    }
    var it, extra := SearchEol(buf, Beginning, style);
    if it.pos == NOT_FOUND || !memory {
      return NoLine, 0;
    }
    var text := TakeLine(buf, it.pos, extra);
    return Line(text), extra;
  }

  /** Remove n bytes and drain extra more. */
  method TakeLine(buf: EvBuffer, n: nat, extra: nat) returns (text: seq<Byte>)
    requires buf.Valid() && !buf.freezeStart && n + extra <= |buf.Bytes()|
    modifies buf`chains, buf`lwd, buf`totalLen, buf`datas, Memory(buf.chains)
    ensures buf.Valid() && |text| == n
    ensures old(buf.Bytes()) == text + old(buf.Bytes())[n..n + extra] + buf.Bytes()
    ensures Memory(buf.chains) <= old(Memory(buf.chains))
  {
    ghost var s := buf.Bytes();
    LineParts(s, n, extra);
    var result;
    result, text := buf.Remove(n);
    Front(s, text, buf.Bytes(), n);
    var drained := buf.Drain(extra);
  }

  lemma Front<T>(s: seq<T>, a: seq<T>, b: seq<T>, n: nat)
    requires a + b == s && |a| == n
    ensures a == s[..n] && b == s[n..]
  {
  }

  lemma LineParts<T>(s: seq<T>, n: nat, drain: nat)
    requires n + drain <= |s|
    ensures s == s[..n] + s[n..n + drain] + s[n..][drain..]
  {
  }

  /** The conversion of a size_t to the ev_ssize_t that evbuffer_pullup takes */
  function Signed(n: int): int {
    if n > EV_SSIZE_MAX then n - (EV_SIZE_MAX + 1) else n
  }

  /** evbuffer_find: the match is readable in the first block.  Nothing is found for an empty pattern;
      one longer than EV_SSIZE_MAX is found at the start of any data that can be made contiguous. */
  method Find(buf: EvBuffer, what: seq<Byte>, memory: bool) returns (at: int)
    requires buf.Valid() && |what| <= EV_SIZE_MAX
    modifies buf`chains, buf`lwd, buf`totalLen, buf`datas, Memory(buf.chains)
    ensures buf.Valid() && buf.Bytes() == old(buf.Bytes())
    ensures what == [] ==> at == NOT_FOUND
    ensures |what| > EV_SSIZE_MAX ==> at == if old(CanPull(buf, buf.totalLen, memory)) then 0 else NOT_FOUND
    ensures 0 < |what| <= EV_SSIZE_MAX && at != NOT_FOUND ==>
              && MatchAt(buf.Bytes(), what, at) && NoMatch(buf.Bytes(), what, 0, at)
              && buf.datas != [] && MatchAt(buf.datas[0], what, at)
    ensures 0 < |what| <= EV_SSIZE_MAX && memory && |buf.Bytes()| <= EVBUFFER_CHAIN_MAX - EVBUFFER_CHAIN_SIZE && at == NOT_FOUND ==>
              NoMatch(buf.Bytes(), what, 0, |buf.Bytes()|)
    ensures forall o :: o in Memory(buf.chains) ==> o in old(Memory(buf.chains)) || fresh(o)
  {
    var p := SearchRange(buf, what, Beginning, NoLimit);
    at := NOT_FOUND;
    if p.pos != NOT_FOUND {
      var ok := buf.Pullup(Signed(p.pos + |what|), memory);
      if ok {
        at := p.pos;
        if 0 < |what| <= EV_SSIZE_MAX && p.pos + |what| <= EV_SSIZE_MAX {
          assert buf.datas[0][..p.pos + |what|][p.pos..] == buf.Bytes()[..p.pos + |what|][p.pos..];
        }
      }
    }
  }

  /** evbuffer_pullup succeeds for a size. */
  predicate CanPull(buf: EvBuffer, size: nat, memory: bool)
    reads buf, buf.chains
  {
    && 0 < size <= buf.totalLen
    && (size <= buf.FirstRoom() || (memory && size <= EVBUFFER_CHAIN_MAX - EVBUFFER_CHAIN_SIZE))
  }
}
