/** Writing and reading the tagged format of net/libevent/src/event_tagging.c on
    evbuffers; the allocations of the readers succeed here. */
module TagBuffer {
  import opened EvChain
  import opened EvBuffers
  import opened TagCodec

  const WORD := 0x1_0000_0000

  // ---- Encoding into memory ------------------------------------------------

  /** Nibble k of the partly written data: written for 1 <= k < off. */
  ghost function Written(n: nat, off: nat, k: nat): nat
    ensures Written(n, off, k) < 16
  {
    if 1 <= k < off then Shifted(n, k - 1) % 16 else 0
  }

  lemma Pow16Words()
    ensures Pow16(8) == WORD && Pow16(16) == WORD * WORD
  {
    assert Pow16(4) == 16 * (16 * (16 * (16 * 1)));
    assert Pow16(8) == 16 * (16 * (16 * (16 * Pow16(4))));
    assert Pow16(12) == 16 * (16 * (16 * (16 * Pow16(8))));
    assert Pow16(16) == 16 * (16 * (16 * (16 * Pow16(12))));
  }

  /** The nibbles before off are written to data, the others are 0. */
  ghost predicate WrittenTo(data: array<Byte>, n: nat, off: nat)
    reads data
  {
    forall j :: 0 <= j < data.Length ==> WrittenAt(data, n, off, j)
  }

  ghost predicate WrittenAt(data: array<Byte>, n: nat, off: nat, j: int)
    reads data
  {
    0 <= j < data.Length && data[j] == Written(n, off, 2 * j) * 16 + Written(n, off, 2 * j + 1)
  }

  /** The body of the loop: nibble off of the data. */
  method WriteNibble(data: array<Byte>, ghost n: nat, off: nat, nibble: nat)
    requires WrittenTo(data, n, off) && 1 <= off && off / 2 < data.Length && nibble == Shifted(n, off - 1) % 16
    modifies data
    ensures WrittenTo(data, n, off + 1)
  {
    assert WrittenAt(data, n, off, off / 2);
    if off % 2 == 1 {
      data[off / 2] := data[off / 2] / 16 * 16 + nibble;
    } else {
      data[off / 2] := data[off / 2] % 16 + nibble * 16;
    }
    ghost var next := off + 1;
    forall j | 0 <= j < data.Length
      ensures WrittenAt(data, n, next, j)
    {
      assert old(WrittenAt(data, n, off, j));
    }
  }

  /** The last part: the count goes into the first nibble. */
  method WriteCount(data: array<Byte>, ghost n: nat, off: nat) returns (bytes: seq<Byte>)
    requires WrittenTo(data, n, off) && off == Nibbles(n) + 1 && (off + 1) / 2 <= data.Length
    modifies data
    ensures bytes == EncInt(n)
  {
    var nibbles := if off > 2 then off - 2 else 0;
    assert WrittenAt(data, n, off, 0);
    data[0] := data[0] % 16 + nibbles % 16 * 16;
    bytes := data[..(off + 1) / 2];
    forall j | 0 <= j < |bytes|
      ensures bytes[j] == NibbleAt(n, 2 * j) * 16 + NibbleAt(n, 2 * j + 1)
    {
      assert j > 0 ==> old(WrittenAt(data, n, off, j));
      ShiftedZero(n, 2 * j);
    }
  }

  /** ENCODE_INT_INTERNAL for numbers of so many nibbles, 8 or 16 */
  method EncodeIntInternal(n: nat, maxNibbles: nat) returns (bytes: seq<Byte>)
    requires (maxNibbles == 8 || maxNibbles == 16) && n < Pow16(maxNibbles)
    ensures bytes == EncInt(n)
  {
    var data := new Byte[maxNibbles / 2 + 1](_ => 0);
    var off: nat, number: nat := 1, n;
    NibblesOf(n, maxNibbles, Pow16(maxNibbles));
    while number != 0
      invariant 1 <= off <= maxNibbles + 1 && number == Shifted(n, off - 1) && off - 1 <= Nibbles(n)
      invariant WrittenTo(data, n, off)
      decreases number
    {
      ShiftedZero(n, off - 1);
      ShiftedStep(n, off - 1);
      WriteNibble(data, n, off, number % 16);
      number := number / 16;
      off := off + 1;
    }
    ShiftedZero(n, off - 1);
    bytes := WriteCount(data, n, off);
  }

  /** The loop of evtag_encode_tag */
  method EncodeTagData(t: nat) returns (bytes: seq<Byte>)
    requires t < WORD
    ensures bytes == EncTag(t) && |bytes| <= 5
  {
    var data := new Byte[5](_ => 0);
    var n: nat, tag: nat := 0, t;
    assert data[..0] + EncTag(tag) == EncTag(t);
    var more := true;
    while more
      invariant n <= 5 && (more ==> n <= 4 && tag * Pow128(n) < WORD)
      invariant if more then data[..n] + EncTag(tag) == EncTag(t) else data[..n] == EncTag(t)
      decreases more, tag
    {
      TopGroup(tag, n);
      ghost var before := data[..n];
      var lower := tag % 128;
      ghost var tag0 := tag;
      tag := tag / 128;
      if tag != 0 {
        lower := lower + 128;
      }
      data[n] := lower;
      n := n + 1;
      more := tag != 0;
      assert data[..n] == before + [lower];
      if more {
        Assoc(before, [lower], EncTag(tag));
      }
    }
    bytes := data[..n];
  }

  // ---- Writing to an evbuffer ----------------------------------------------

  /** What decides whether bytes can be added: the end of the blocks, and how many more bytes the
      total allows, none at all (-1) while the end is frozen. */
  datatype Space = Space(end: Room, left: int) {
    /** evbuffer_add of n bytes succeeds. */
    predicate Takes(n: nat, memory: bool) {
      n <= left && (end.Takes(n) || (memory && n <= EVBUFFER_CHAIN_MAX - EVBUFFER_CHAIN_SIZE))
    }

    /** after that */
    function Plus(n: nat, memory: bool): Space {
      if Takes(n, memory) then Space(end.Plus(n), left - n) else this
    }
  }

  ghost function SpaceOf(evbuf: EvBuffer): Space
    reads evbuf, evbuf.chains
  {
    Space(evbuf.End(), if evbuf.freezeEnd then -1 else EV_SIZE_MAX - evbuf.totalLen)
  }

  /** evbuffer_add, whose result the encoders ignore */
  method Put(evbuf: EvBuffer, bytes: seq<Byte>, memory: bool) returns (ghost ok: bool)
    requires evbuf.Valid()
    modifies evbuf`chains, evbuf`lwd, evbuf`totalLen, evbuf`datas, Memory(evbuf.chains)
    ensures evbuf.Valid() && ok == old(SpaceOf(evbuf)).Takes(|bytes|, memory)
    ensures evbuf.Bytes() == old(evbuf.Bytes()) + if ok then bytes else []
    ensures SpaceOf(evbuf) == old(SpaceOf(evbuf)).Plus(|bytes|, memory)
    ensures forall o :: o in Memory(evbuf.chains) ==> o in old(Memory(evbuf.chains)) || fresh(o)
  {
    if evbuf.lwd < |evbuf.chains| {
      Among(evbuf.chains, evbuf.lwd);
    }
    var result := evbuf.Add(bytes, memory);
    ok := result == 0;
  }

  /** evtag_encode_tag, which returns the length also when nothing was written */
  method EncodeTag(evbuf: EvBuffer, tag: nat, memory: bool) returns (n: nat, ghost ok: bool)
    requires evbuf.Valid() && tag < WORD
    modifies evbuf`chains, evbuf`lwd, evbuf`totalLen, evbuf`datas, Memory(evbuf.chains)
    ensures evbuf.Valid() && n == |EncTag(tag)| <= 5 && ok == old(SpaceOf(evbuf)).Takes(n, memory)
    ensures evbuf.Bytes() == old(evbuf.Bytes()) + if ok then EncTag(tag) else []
    ensures SpaceOf(evbuf) == old(SpaceOf(evbuf)).Plus(n, memory)
    ensures forall o :: o in Memory(evbuf.chains) ==> o in old(Memory(evbuf.chains)) || fresh(o)
  {
    var bytes := EncodeTagData(tag);
    ok := Put(evbuf, bytes, memory);
    n := |bytes|;
  }

  /** evtag_encode_int and, with 16 nibbles, evtag_encode_int64 */
  method EncodeInt(evbuf: EvBuffer, number: nat, maxNibbles: nat, memory: bool) returns (ghost ok: bool)
    requires evbuf.Valid()
    requires (maxNibbles == 8 || maxNibbles == 16) && number < Pow16(maxNibbles)
    modifies evbuf`chains, evbuf`lwd, evbuf`totalLen, evbuf`datas, Memory(evbuf.chains)
    ensures evbuf.Valid() && |EncInt(number)| <= 9 && ok == old(SpaceOf(evbuf)).Takes(|EncInt(number)|, memory)
    ensures evbuf.Bytes() == old(evbuf.Bytes()) + if ok then EncInt(number) else []
    ensures SpaceOf(evbuf) == old(SpaceOf(evbuf)).Plus(|EncInt(number)|, memory)
    ensures forall o :: o in Memory(evbuf.chains) ==> o in old(Memory(evbuf.chains)) || fresh(o)
  {
    var bytes := EncodeIntInternal(number, maxNibbles);
    NibblesOf(number, maxNibbles, Pow16(maxNibbles));
    ok := Put(evbuf, bytes, memory);
  }

  ghost function EncRecord(tag: nat, data: seq<Byte>): seq<Byte> {
    EncTag(tag) + EncInt(|data|) + data
  }

  lemma Regroup<T>(a: seq<T>, b: seq<T>, c: seq<T>, d: seq<T>)
    ensures a + b + c + d == a + (b + c + d)
  {
    Assoc(a, b, c);
    Assoc(a, b + c, d);
  }

  /** Which of the three allocations that evtag_marshal may need succeed. */
  datatype Memories = Memories(tag: bool, len: bool, data: bool)

  /** Which parts of a record are written. */
  datatype Parts = Parts(tag: bool, len: bool, data: bool) {
    predicate All() {
      tag && len && data
    }
  }

  /** Which parts of a record are written: each is decided by the space that the ones before it left. */
  ghost function PartsOf(s: Space, tag: nat, data: seq<Byte>, memory: Memories): Parts {
    var s1 := s.Plus(|EncTag(tag)|, memory.tag);
    var s2 := s1.Plus(|EncInt(|data|)|, memory.len);
    Parts(s.Takes(|EncTag(tag)|, memory.tag), s1.Takes(|EncInt(|data|)|, memory.len), s2.Takes(|data|, memory.data))
  }

  lemma {:induction false} TagLength(t: nat, i: nat)
    requires i <= 4 && t * Pow128(i) < WORD
    ensures |EncTag(t)| <= 5 - i
    decreases t
  {
    TopGroup(t, i);
    if t >= 128 {
      TagLength(t / 128, i + 1);
    }
  }

  /** With the total within its word, each part that there is memory for is written. */
  lemma WrittenWithMemory(s: Space, tag: nat, data: seq<Byte>, memory: Memories)
    requires tag < WORD && |data| < WORD && s.left >= |data| + 14
    ensures var parts := PartsOf(s, tag, data, memory);
      (memory.tag ==> parts.tag) && (memory.len ==> parts.len) && (memory.data ==> parts.data)
  {
    TagLength(tag, 0);
    Pow16Words();
    NibblesOf(|data|, 8, Pow16(8));
  }

  ghost function EncParts(tag: nat, data: seq<Byte>, parts: Parts): seq<Byte> {
    (if parts.tag then EncTag(tag) else []) + (if parts.len then EncInt(|data|) else []) + (if parts.data then data else [])
  }

  /** evtag_marshal: each part is written or not by itself. */
  method Marshal(evbuf: EvBuffer, tag: nat, data: seq<Byte>, memory: Memories) returns (ghost parts: Parts)
    requires evbuf.Valid() && tag < WORD && |data| < WORD
    modifies evbuf`chains, evbuf`lwd, evbuf`totalLen, evbuf`datas, Memory(evbuf.chains)
    ensures evbuf.Valid() && evbuf.Bytes() == old(evbuf.Bytes()) + EncParts(tag, data, parts)
    ensures parts.All() ==> evbuf.Bytes() == old(evbuf.Bytes()) + EncRecord(tag, data)
    ensures parts == PartsOf(old(SpaceOf(evbuf)), tag, data, memory)
    ensures forall o :: o in Memory(evbuf.chains) ==> o in old(Memory(evbuf.chains)) || fresh(o)
  {
    assert |data| < Pow16(8) by {
      Pow16Words();
    }
    ghost var b := evbuf.Bytes();
    ghost var t, l, d;
    var n;
    n, t := EncodeTag(evbuf, tag, memory.tag);
    l := EncodeInt(evbuf, |data|, 8, memory.len);
    d := Put(evbuf, data, memory.data);
    parts := Parts(t, l, d);
    PartsJoin(b, tag, data, parts);
  }

  lemma PartsJoin(b: seq<Byte>, tag: nat, data: seq<Byte>, parts: Parts)
    ensures b + (if parts.tag then EncTag(tag) else []) + (if parts.len then EncInt(|data|) else []) + (if parts.data then data else [])
         == b + EncParts(tag, data, parts)
    ensures parts.All() ==> EncParts(tag, data, parts) == EncRecord(tag, data)
  {
    var t, l, d := if parts.tag then EncTag(tag) else [], if parts.len then EncInt(|data|) else [], if parts.data then data else [];
    Regroup(b, t, l, d);
    Assoc(t, l, d);
  }

  /** evtag_marshal_int and evtag_marshal_int64 */
  method MarshalInt(evbuf: EvBuffer, tag: nat, number: nat, maxNibbles: nat, memory: Memories) returns (ghost parts: Parts)
    requires evbuf.Valid() && tag < WORD
    requires (maxNibbles == 8 || maxNibbles == 16) && number < Pow16(maxNibbles)
    modifies evbuf`chains, evbuf`lwd, evbuf`totalLen, evbuf`datas, Memory(evbuf.chains)
    ensures evbuf.Valid() && evbuf.Bytes() == old(evbuf.Bytes()) + EncParts(tag, EncInt(number), parts)
    ensures parts.All() ==> evbuf.Bytes() == old(evbuf.Bytes()) + EncRecord(tag, EncInt(number))
    ensures parts == PartsOf(old(SpaceOf(evbuf)), tag, EncInt(number), memory)
    ensures forall o :: o in Memory(evbuf.chains) ==> o in old(Memory(evbuf.chains)) || fresh(o)
  {
    var data := EncodeIntInternal(number, maxNibbles);
    ghost var e := EncInt(number);
    assert data == e && |data| <= 9 by {
      NibblesOf(number, maxNibbles, Pow16(maxNibbles));
    }
    parts := Marshal(evbuf, tag, data, memory);
  }

  /** A record is torn when memory fails for its tag only: its length is then read as a tag. */
  method MarshalTears() returns (evbuf: EvBuffer)
    ensures fresh(evbuf) && evbuf.Valid() && evbuf.Bytes() == EncInt(1) + [7] == [1, 7]
    ensures DecTag(evbuf.Bytes(), 0) == Good(1, 1)
  {
    evbuf := new EvBuffer();
    var parts := Marshal(evbuf, 5, [7], Memories(false, true, true));
    assert Shifted(1, 1) == 0 && Nibbles(1) == 1;
    assert EncInt(1) == [1];
    assert evbuf.Bytes() == [1, 7];
  }

  // ---- Reading from an evbuffer --------------------------------------------

  /** The rest of a tag above the groups read so far. */
  ghost function Above(number: nat, p: nat, rest: Decoded): Decoded {
    match rest
    case Bad => Bad
    case Good(v, c) => Good(number + p * v, c)
  }

  /** decode_tag_internal with what its loop carries: the number so far and 1 << shift. */
  ghost function DecTagFrom(b: seq<Byte>, i: nat, number: nat, p: nat): Decoded
    decreases |b| - i
  {
    if i >= |b| || i > 4 || (i == 4 && b[i] % 128 > 15) then Bad
    else if b[i] < 128 then Good(number + p * (b[i] % 128), i + 1)
    else DecTagFrom(b, i + 1, number + p * (b[i] % 128), p * 128)
  }

  lemma {:induction false} FromIsAbove(b: seq<Byte>, i: nat, number: nat, p: nat)
    ensures DecTagFrom(b, i, number, p) == Above(number, p, DecTag(b, i))
    decreases |b| - i
  {
    if !(i >= |b| || i > 4 || (i == 4 && b[i] % 128 > 15)) {
      FromIsAbove(b, i + 1, number + p * (b[i] % 128), p * 128);
      Spread(number, p, b[i] % 128, DecTag(b, i + 1));
    }
  }

  /** Five bytes announce a sixth one, and there is one. */
  ghost predicate AsksForSixth(b: seq<Byte>) {
    |b| > 5 && b[4] % 128 <= 15 && forall i :: 0 <= i < 5 ==> b[i] >= 128
  }

  /** The loop of decode_tag_internal over data, which starts like the whole buffer b for up to five
      bytes.  A sixth byte is read before the test that ends the loop, behind data if that has no
      more than five; its value is never used. */
  method DecodeTagData(data: seq<Byte>, ghost b: seq<Byte>, len: nat) returns (count: int, number: nat, beyond: bool)
    requires len == |b| && forall i :: 0 <= i < 5 && i < len ==> i < |data| && data[i] == b[i]
    ensures match DecTag(b, 0)
            case Bad => count == -1
            case Good(v, c) => number == v && count == c <= len
    ensures beyond <==> AsksForSixth(b) && |data| == 5
  {
    var shift, i: nat, p: nat := 0, 0, 1;
    number := 0;
    FromIsAbove(b, 0, 0, 1);
    while i < len
      invariant i <= len && i <= 5 && shift == 7 * i
      invariant DecTagFrom(b, 0, 0, 1) == DecTagFrom(b, i, number, p)
      invariant forall k :: 0 <= k < i ==> b[k] >= 128
      invariant i == 5 ==> b[4] % 128 <= 15
    {
      if i == |data| {
        return -1, 0, true;
      }
      var lower := data[i];
      if shift >= 28 {
        if shift > 28 {
          return -1, 0, false;
        }
        if lower % 128 > 15 {
          return -1, 0, false;
        }
      }
      number := number + p * (lower % 128);
      shift, i, p := shift + 7, i + 1, p * 128;
      if lower < 128 {
        return i, number, false;
      }
    }
    return -1, 0, false;
  }

  lemma Spread(number: nat, p: nat, low: nat, rest: Decoded)
    ensures rest.Good? ==> number + p * low + p * 128 * rest.value == number + p * (low + 128 * rest.value)
  {
    if rest.Good? {
      assert p * (low + 128 * rest.value) == p * low + p * (128 * rest.value);
      assert p * 128 * rest.value == p * (128 * rest.value);
    }
  }

  /** decode_tag_internal */
  method DecodeTag(evbuf: EvBuffer, dodrain: bool) returns (count: int, tag: nat)
    requires evbuf.Valid() && !evbuf.freezeStart
    modifies evbuf`chains, evbuf`lwd, evbuf`totalLen, evbuf`datas, Memory(evbuf.chains)
    ensures evbuf.Valid()
    ensures match DecTag(old(evbuf.Bytes()), 0)
            case Bad => count == -1 && evbuf.Bytes() == old(evbuf.Bytes())
            case Good(v, c) =>
              && tag == v && count == c <= |old(evbuf.Bytes())|
              && evbuf.Bytes() == old(evbuf.Bytes())[if dodrain then c else 0..]
    ensures forall o :: o in Memory(evbuf.chains) ==> o in old(Memory(evbuf.chains)) || fresh(o)
  {
    ghost var b := evbuf.Bytes();
    assert b[0..] == b;
    var beyond;
    count, tag, beyond := PeekTag(evbuf);
    if count != -1 && dodrain {
      var drained := evbuf.Drain(count);
    }
  }

  /** decode_tag_internal but for the draining */
  method PeekTag(evbuf: EvBuffer) returns (count: int, tag: nat, beyond: bool)
    requires evbuf.Valid()
    modifies evbuf`chains, evbuf`lwd, evbuf`totalLen, evbuf`datas, Memory(evbuf.chains)
    ensures evbuf.Valid() && evbuf.Bytes() == old(evbuf.Bytes())
    ensures match DecTag(evbuf.Bytes(), 0)
            case Bad => count == -1
            case Good(v, c) => tag == v && count == c <= |evbuf.Bytes()|
    ensures beyond <==> AsksForSixth(evbuf.Bytes()) && |evbuf.datas| > 0 && |evbuf.datas[0]| == 5
    ensures forall o :: o in Memory(evbuf.chains) ==> o in old(Memory(evbuf.chains)) || fresh(o)
  {
    ghost var b := evbuf.Bytes();
    var len := evbuf.totalLen;
    var pulled := evbuf.Pullup(if len < 5 then len else 5, true);
    if !pulled {
      return -1, 0, false;
    }
    var data := evbuf.BlockBytes(0);
    PulledBytes(b, data, if len < 5 then len else 5);
    count, tag, beyond := DecodeTagData(data, b, len);
  }

  lemma PulledBytes(b: seq<Byte>, data: seq<Byte>, n: nat)
    requires n <= |data| && n <= |b| && data[..n] == b[..n]
    ensures forall i :: 0 <= i < n ==> data[i] == b[i]
  {
    forall i | 0 <= i < n
      ensures data[i] == b[i]
    {
      assert data[..n][i] == b[..n][i];
    }
  }

  /** The loop of DECODE_INT_INTERNAL over data, the bytes from the offset on. */
  method DecodeIntData(data: seq<Byte>, nibbles: nat) returns (number: nat)
    requires nibbles / 2 < |data|
    ensures number == Number(data, 1, nibbles)
  {
    number := 0;
    var k: nat := nibbles;
    while k > 0
      invariant k <= nibbles && number == Number(data, k + 1, nibbles)
    {
      number := number * 16 + Nib(data, k);
      k := k - 1;
    }
  }

  /** Only the bytes that the count announces matter. */
  lemma {:induction false} NumberPrefix(a: seq<Byte>, b: seq<Byte>, k: nat, n: nat)
    requires n / 2 < |a| && n / 2 < |b| && 1 <= k && forall i :: 0 <= i <= n / 2 ==> a[i] == b[i]
    ensures Number(a, k, n) == Number(b, k, n)
    ensures k <= n + 1 ==> Number(a, k, n) < Pow16(n + 1 - k)
    decreases n + 1 - k
  {
    if k <= n {
      NumberPrefix(a, b, k + 1, n);
    }
  }

  lemma {:induction false} Pow16Monotone(i: nat, j: nat)
    requires i <= j
    ensures 0 < Pow16(i) <= Pow16(j)
    decreases j
  {
    if i < j {
      Pow16Monotone(i, j - 1);
    } else if j > 0 {
      Pow16Monotone(i - 1, j - 1);
    }
  }

  /** DECODE_INT_INTERNAL: the integer at an offset, which fits its word; nothing is drained. */
  method DecodeIntAt(evbuf: EvBuffer, offset: nat, maxNibbles: nat) returns (len: int, number: nat)
    requires evbuf.Valid() && offset <= evbuf.totalLen && offset <= WORD && 0 < maxNibbles <= 16
    modifies evbuf`chains, evbuf`lwd, evbuf`totalLen, evbuf`datas, Memory(evbuf.chains)
    ensures evbuf.Valid() && evbuf.Bytes() == old(evbuf.Bytes())
    ensures match DecInt(evbuf.Bytes()[offset..], maxNibbles)
            case Bad => len == -1
            case Good(v, c) => number == v < Pow16(maxNibbles) && len == c <= evbuf.totalLen - offset
    ensures forall o :: o in Memory(evbuf.chains) ==> o in old(Memory(evbuf.chains)) || fresh(o)
  {
    number := 0;
    if evbuf.totalLen - offset <= 0 {
      return -1, 0;
    }
    var nibbles := CountNibbles(evbuf, offset);
    if nibbles > maxNibbles || nibbles / 2 + 1 > evbuf.totalLen - offset {
      return -1, 0;
    }
    len := nibbles / 2 + 1;
    number := DecodeIntPulled(evbuf, offset, nibbles);
    Pow16Monotone(nibbles, maxNibbles);
  }

  /** How many nibbles the integer at the offset has. */
  method CountNibbles(evbuf: EvBuffer, offset: nat) returns (nibbles: nat)
    requires evbuf.Valid() && offset < evbuf.totalLen && offset <= WORD
    modifies evbuf`chains, evbuf`lwd, evbuf`totalLen, evbuf`datas, Memory(evbuf.chains)
    ensures evbuf.Valid() && evbuf.Bytes() == old(evbuf.Bytes())
    ensures evbuf.Bytes()[offset..] != [] && nibbles == evbuf.Bytes()[offset..][0] / 16 + 1 <= 16
    ensures forall o :: o in Memory(evbuf.chains) ==> o in old(Memory(evbuf.chains)) || fresh(o)
  {
    ghost var b := evbuf.Bytes();
    var pulled := evbuf.Pullup(offset + 1, true);
    var data := evbuf.BlockBytes(0);
    PulledBytes(b, data, offset + 1);
    nibbles := data[offset] / 16 + 1;
    assert b[offset..][0] == data[offset];
  }

  method DecodeIntPulled(evbuf: EvBuffer, offset: nat, nibbles: nat) returns (number: nat)
    requires evbuf.Valid() && offset + nibbles / 2 + 1 <= evbuf.totalLen && offset <= WORD && 1 <= nibbles <= 16
    modifies evbuf`chains, evbuf`lwd, evbuf`totalLen, evbuf`datas, Memory(evbuf.chains)
    ensures evbuf.Valid() && evbuf.Bytes() == old(evbuf.Bytes())
    ensures nibbles / 2 < |evbuf.Bytes()[offset..]| && number == Number(evbuf.Bytes()[offset..], 1, nibbles) < Pow16(nibbles)
    ensures forall o :: o in Memory(evbuf.chains) ==> o in old(Memory(evbuf.chains)) || fresh(o)
  {
    ghost var b := evbuf.Bytes();
    var n := offset + nibbles / 2 + 1;
    var pulled := evbuf.Pullup(n, true);
    var data := evbuf.BlockBytes(0);
    PulledBytes(b, data, n);
    number := DecodeIntData(data[offset..], nibbles);
    NumberPrefix(data[offset..], b[offset..], 1, nibbles);
  }

  // ---- Records -------------------------------------------------------------

  datatype Head = NoTag | NoLength(afterTag: nat) | Head(tag: nat, len: nat, size: nat)

  /** The header of a record at the start of b. */
  ghost function HeadOf(b: seq<Byte>): (h: Head)
    ensures h.Head? ==> h.size <= |b|
    ensures h.NoLength? ==> h.afterTag <= |b|
  {
    match DecTag(b, 0)
    case Bad => NoTag
    case Good(t, c) =>
      DecTagCount(b, 0);
      match DecInt(b[c..], 8)
      case Bad => NoLength(c)
      case Good(l, c') => Head(t, l, c + c')
  }

  lemma {:induction false} DecTagCount(b: seq<Byte>, i: nat)
    ensures DecTag(b, i).Good? ==> i < DecTag(b, i).count <= |b| && DecTag(b, i).count <= 5
    decreases |b| - i
  {
    if i < |b| && i <= 4 {
      DecTagCount(b, i + 1);
    }
  }

  /** The header of an encoded record, whatever follows it. */
  lemma HeadRoundTrip(tag: nat, data: seq<Byte>, rest: seq<Byte>)
    requires tag < WORD && |data| < WORD
    ensures HeadOf(EncRecord(tag, data) + rest) == Head(tag, |data|, |EncTag(tag)| + |EncInt(|data|)|)
    ensures var h := HeadOf(EncRecord(tag, data) + rest);
            h.size + h.len <= |EncRecord(tag, data) + rest|
            && (EncRecord(tag, data) + rest)[h.size..h.size + h.len] == data
            && (EncRecord(tag, data) + rest)[h.size + h.len..] == rest
  {
    var t, l := EncTag(tag), EncInt(|data|);
    var b := EncRecord(tag, data) + rest;
    Pow16Words();
    Regroup(t, l, data, rest);
    TagRoundTrip(tag, l + data + rest);
    Tail(t, l + data + rest);
    Assoc(l, data, rest);
    IntRoundTrip(|data|, 8, data + rest);
    Inside(t + l, data, rest);
  }

  lemma Tail<T>(a: seq<T>, b: seq<T>)
    ensures (a + b)[|a|..] == b
  {
  }

  lemma Inside<T>(a: seq<T>, b: seq<T>, c: seq<T>)
    ensures (a + b + c)[|a|..|a| + |b|] == b && (a + b + c)[|a| + |b|..] == c
  {
  }

  /** evtag_decode_int */
  method DecodeInt(evbuf: EvBuffer, maxNibbles: nat) returns (result: int, number: nat)
    requires evbuf.Valid() && !evbuf.freezeStart && 0 < maxNibbles <= 16
    modifies evbuf`chains, evbuf`lwd, evbuf`totalLen, evbuf`datas, Memory(evbuf.chains)
    ensures evbuf.Valid()
    ensures match DecInt(old(evbuf.Bytes()), maxNibbles)
            case Bad => result == -1 && evbuf.Bytes() == old(evbuf.Bytes())
            case Good(v, c) => result == 0 && number == v < Pow16(maxNibbles) && c <= |old(evbuf.Bytes())| && evbuf.Bytes() == old(evbuf.Bytes())[c..]
    ensures forall o :: o in Memory(evbuf.chains) ==> o in old(Memory(evbuf.chains)) || fresh(o)
  {
    assert evbuf.Bytes()[0..] == evbuf.Bytes();
    var len;
    len, number := DecodeIntAt(evbuf, 0, maxNibbles);
    if len == -1 {
      return -1, 0;
    }
    var drained := evbuf.Drain(len);
    result := 0;
  }

  /** evtag_unmarshal_header; the length comes back as an int. */
  method UnmarshalHeader(evbuf: EvBuffer) returns (result: int, tag: nat)
    requires evbuf.Valid() && !evbuf.freezeStart
    modifies evbuf`chains, evbuf`lwd, evbuf`totalLen, evbuf`datas, Memory(evbuf.chains)
    ensures evbuf.Valid()
    ensures match HeadOf(old(evbuf.Bytes()))
            case NoTag => result == -1 && evbuf.Bytes() == old(evbuf.Bytes())
            case NoLength(c) => result == -1 && evbuf.Bytes() == old(evbuf.Bytes())[c..]
            case Head(t, l, size) =>
              && tag == t && l < WORD && evbuf.Bytes() == old(evbuf.Bytes())[size..]
              && result == if |evbuf.Bytes()| < l then -1 else AsInt(l)
    ensures forall o :: o in Memory(evbuf.chains) ==> o in old(Memory(evbuf.chains)) || fresh(o)
  {
    Pow16Words();
    ghost var b := evbuf.Bytes();
    var count, decoded, len;
    count, tag := DecodeTag(evbuf, true);
    if count == -1 {
      return -1, 0;
    }
    decoded, len := DecodeInt(evbuf, 8);
    if decoded == -1 {
      return -1, tag;
    }
    DropTwice(b, count, |b| - count - evbuf.totalLen);
    if evbuf.totalLen < len {
      return -1, tag;
    }
    result := AsInt(len);
  }

  lemma DropTwice<T>(b: seq<T>, i: nat, j: nat)
    requires i + j <= |b|
    ensures b[i..][j..] == b[i + j..]
  {
  }

  /** The conversion of an int to size_t. */
  function AsSize(n: int): nat
    requires -WORD <= n <= WORD
  {
    if n < 0 then EV_SIZE_MAX + 1 + n else n
  }

  /** What evtag_consume drops behind a header: the length as an int, turned into a size. */
  function Dropped(len: nat, room: nat): nat
    requires len < WORD
  {
    Min(AsSize(AsInt(len)), room)
  }

  /** evtag_consume */
  method Consume(evbuf: EvBuffer) returns (result: int)
    requires evbuf.Valid() && !evbuf.freezeStart
    modifies evbuf`chains, evbuf`lwd, evbuf`totalLen, evbuf`datas, Memory(evbuf.chains)
    ensures evbuf.Valid()
    ensures match HeadOf(old(evbuf.Bytes()))
            case NoTag => result == -1 && evbuf.Bytes() == old(evbuf.Bytes())
            case NoLength(c) => result == -1 && evbuf.Bytes() == old(evbuf.Bytes())[c..]
            case Head(_, l, size) =>
              var rest := old(evbuf.Bytes())[size..];
              && l < WORD
              && if |rest| < l || l == WORD - 1 then result == -1 && evbuf.Bytes() == rest
                 else result == 0 && evbuf.Bytes() == rest[Dropped(l, |rest|)..]
    ensures forall o :: o in Memory(evbuf.chains) ==> o in old(Memory(evbuf.chains)) || fresh(o)
  {
    ghost var h := HeadOf(evbuf.Bytes());
    var len, tag := UnmarshalHeader(evbuf);
    if h.Head? {
      MinusOne(h.len);
    }
    if len == -1 {
      return -1;
    }
    var drained := evbuf.Drain(AsSize(len));
    return 0;
  }

  lemma MinusOne(l: nat)
    requires l < WORD
    ensures AsInt(l) == -1 <==> l == WORD - 1
  {
  }

  /** That is the payload, exactly, if it is shorter than 2^31; a longer one takes all that follows
      with it, in a buffer not within 2^31 of the largest size. */
  lemma DropsPayload(b: seq<Byte>, h: Head)
    requires h == HeadOf(b) && h.Head? && h.len < WORD && h.size + h.len <= |b|
    ensures h.len < 0x8000_0000 ==> b[h.size..][Dropped(h.len, |b[h.size..]|)..] == b[h.size + h.len..]
    ensures h.len >= 0x8000_0000 && |b| < EV_SIZE_MAX - 0x8000_0000 ==> b[h.size..][Dropped(h.len, |b[h.size..]|)..] == []
  {
    DropTwice(b, h.size, h.len);
  }

  /** evtag_peek_length: for a payload shorter than 2^31 the number of bytes evtag_consume drops. */
  method PeekLength(evbuf: EvBuffer) returns (result: int, len: nat)
    requires evbuf.Valid() && !evbuf.freezeStart
    modifies evbuf`chains, evbuf`lwd, evbuf`totalLen, evbuf`datas, Memory(evbuf.chains)
    ensures evbuf.Valid() && evbuf.Bytes() == old(evbuf.Bytes())
    ensures var h := HeadOf(evbuf.Bytes());
            && (result == 0 <==> h.Head?) && (result == -1 <==> !h.Head?)
            && (h.Head? ==> len == (h.size + h.len) % WORD)
            && (h.Head? && h.len < 0x8000_0000 ==> len == h.size + h.len)
    ensures forall o :: o in Memory(evbuf.chains) ==> o in old(Memory(evbuf.chains)) || fresh(o)
  {
    Pow16Words();
    var tagLen, tag := DecodeTag(evbuf, false);
    ghost var b := evbuf.Bytes();
    if tagLen == -1 {
      return -1, 0;
    }
    DecTagCount(b, 0);
    var res;
    res, len := DecodeIntAt(evbuf, tagLen, 8);
    if res == -1 {
      return -1, 0;
    }
    IntCount(b[tagLen..], 8);
    assert HeadOf(b) == Head(tag, len, tagLen + res);
    SmallSum(len, res + tagLen);
    len := (len + res + tagLen) % WORD;
    result := 0;
  }

  lemma SmallSum(len: nat, size: nat)
    requires size <= 10
    ensures len < 0x8000_0000 ==> (len + size) % WORD == len + size
  {
  }

  lemma IntCount(b: seq<Byte>, maxNibbles: nat)
    ensures DecInt(b, maxNibbles).Good? ==> DecInt(b, maxNibbles).count <= maxNibbles / 2 + 1
  {
  }

  /** evtag_unmarshal: move the payload of the next record to dst. */
  method Unmarshal(src: EvBuffer, dst: EvBuffer) returns (result: int, tag: nat)
    requires src.Valid() && dst.Valid() && src != dst && Memory(src.chains) !! Memory(dst.chains)
    requires !src.freezeStart && !dst.freezeEnd && src.totalLen + dst.totalLen <= EV_SIZE_MAX
    modifies src`chains, src`lwd, src`totalLen, src`datas, Memory(src.chains)
    modifies dst`chains, dst`lwd, dst`totalLen, dst`datas, Memory(dst.chains)
    ensures src.Valid() && dst.Valid()
    ensures match HeadOf(old(src.Bytes()))
            case NoTag => result == -1 && src.Bytes() == old(src.Bytes()) && dst.Bytes() == old(dst.Bytes())
            case NoLength(c) => result == -1 && src.Bytes() == old(src.Bytes())[c..] && dst.Bytes() == old(dst.Bytes())
            case Head(t, l, size) =>
              if l < 0x8000_0000 && size + l <= |old(src.Bytes())|
              then
                && result == l && tag == t && src.Bytes() == old(src.Bytes())[size + l..]
                && dst.Bytes() == old(dst.Bytes()) + old(src.Bytes())[size..size + l]
              else result == -1 && src.Bytes() == old(src.Bytes())[size..] && dst.Bytes() == old(dst.Bytes())
    ensures forall o :: o in Memory(src.chains) ==> o in old(Memory(src.chains)) || fresh(o)
    ensures forall o :: o in Memory(dst.chains) ==> o in old(Memory(dst.chains)) || fresh(o)
  {
    ghost var b := src.Bytes();
    PayloadParts(b, HeadOf(b));
    var len;
    len, tag := HeaderBeside(src, dst);
    if len < 0 {
      return -1, tag;   // a negative length is more than evbuffer_add takes
    }
    MovePayload(src, dst, len);
    result := len;
  }

  lemma PayloadParts(b: seq<Byte>, h: Head)
    requires h == HeadOf(b)
    ensures h.Head? && h.len < 0x8000_0000 ==> AsInt(h.len) == h.len
    ensures h.Head? && 0x8000_0000 <= h.len < WORD ==> AsInt(h.len) < 0
    ensures h.Head? && h.size + h.len <= |b| ==>
              b[h.size..][h.len..] == b[h.size + h.len..] && b[h.size..][..h.len] == b[h.size..h.size + h.len]
  {
    if h.Head? && h.size + h.len <= |b| {
      DropTwice(b, h.size, h.len);
      TakeBetween(b, h.size, h.len);
    }
  }

  /** evtag_unmarshal_header on src, which leaves dst alone */
  method HeaderBeside(src: EvBuffer, ghost dst: EvBuffer) returns (result: int, tag: nat)
    requires src.Valid() && !src.freezeStart
    requires dst.Valid() && src != dst && Memory(src.chains) !! Memory(dst.chains) && src.totalLen + dst.totalLen <= EV_SIZE_MAX
    modifies src`chains, src`lwd, src`totalLen, src`datas, Memory(src.chains)
    ensures src.Valid() && dst.Valid() && Memory(src.chains) !! Memory(dst.chains) && src.totalLen + dst.totalLen <= EV_SIZE_MAX
    ensures match HeadOf(old(src.Bytes()))
            case NoTag => result == -1 && src.Bytes() == old(src.Bytes())
            case NoLength(c) => result == -1 && src.Bytes() == old(src.Bytes())[c..]
            case Head(t, l, size) =>
              && tag == t && l < WORD && src.Bytes() == old(src.Bytes())[size..]
              && result == if |src.Bytes()| < l then -1 else AsInt(l)
    ensures forall o :: o in Memory(src.chains) ==> o in old(Memory(src.chains)) || fresh(o)
  {
    NotMemory(dst.chains, src);
    NotMemory(src.chains, dst);
    result, tag := UnmarshalHeader(src);
  }

  lemma TakeBetween<T>(b: seq<T>, i: nat, n: nat)
    requires i + n <= |b|
    ensures b[i..][..n] == b[i..i + n]
  {
  }

  /** evbuffer_add of the pulled up payload, and evbuffer_drain */
  method MovePayload(src: EvBuffer, dst: EvBuffer, len: nat)
    requires src.Valid() && dst.Valid() && src != dst && Memory(src.chains) !! Memory(dst.chains)
    requires !src.freezeStart && !dst.freezeEnd && src.totalLen + dst.totalLen <= EV_SIZE_MAX && len <= src.totalLen && len < WORD
    modifies src`chains, src`lwd, src`totalLen, src`datas, Memory(src.chains)
    modifies dst`chains, dst`lwd, dst`totalLen, dst`datas, Memory(dst.chains)
    ensures src.Valid() && dst.Valid()
    ensures src.Bytes() == old(src.Bytes())[len..] && dst.Bytes() == old(dst.Bytes()) + old(src.Bytes())[..len]
    ensures forall o :: o in Memory(src.chains) ==> o in old(Memory(src.chains)) || fresh(o)
    ensures forall o :: o in Memory(dst.chains) ==> o in old(Memory(dst.chains)) || fresh(o)
  {
    var bytes := PulledBeside(src, len, dst);
    PutBeside(dst, bytes, src);
    DrainBeside(src, len, dst);
  }

  method PulledBeside(src: EvBuffer, len: nat, ghost dst: EvBuffer) returns (bytes: seq<Byte>)
    requires src.Valid() && len <= src.totalLen && len < WORD
    requires dst.Valid() && src != dst && Memory(src.chains) !! Memory(dst.chains)
    modifies src`chains, src`lwd, src`totalLen, src`datas, Memory(src.chains)
    ensures src.Valid() && src.Bytes() == old(src.Bytes()) && bytes == src.Bytes()[..len]
    ensures dst.Valid() && Memory(src.chains) !! Memory(dst.chains)
    ensures forall o :: o in Memory(src.chains) ==> o in old(Memory(src.chains)) || fresh(o)
  {
    NotMemory(dst.chains, src);
    NotMemory(src.chains, dst);
    bytes := PulledUp(src, len);
  }

  method DrainBeside(src: EvBuffer, len: nat, ghost dst: EvBuffer)
    requires src.Valid() && len <= src.totalLen && !src.freezeStart
    requires dst.Valid() && src != dst && Memory(src.chains) !! Memory(dst.chains)
    modifies src`chains, src`lwd, src`totalLen, src`datas, Memory(src.chains)
    ensures src.Valid() && src.Bytes() == old(src.Bytes())[len..] && dst.Valid()
    ensures Memory(src.chains) <= old(Memory(src.chains))
  {
    NotMemory(dst.chains, src);
    NotMemory(src.chains, dst);
    var drained := src.Drain(len);
    assert dst.Valid();
  }

  lemma NotMemory(cs: seq<Chain>, b: EvBuffer)
    ensures b !in Memory(cs)
  {
  }

  /** evbuffer_add to dst, which leaves src alone */
  method PutBeside(dst: EvBuffer, bytes: seq<Byte>, ghost src: EvBuffer)
    requires dst.Valid() && src.Valid() && src != dst && Memory(src.chains) !! Memory(dst.chains)
    requires !dst.freezeEnd && |bytes| <= EV_SIZE_MAX - dst.totalLen && |bytes| < WORD
    modifies dst`chains, dst`lwd, dst`totalLen, dst`datas, Memory(dst.chains)
    ensures dst.Valid() && src.Valid() && dst.Bytes() == old(dst.Bytes()) + bytes
    ensures forall o :: o in Memory(dst.chains) ==> o in old(Memory(dst.chains)) || fresh(o)
  {
    NotMemory(src.chains, dst);
    ghost var ok := Put(dst, bytes, true);
  }

  /** The bytes evbuffer_pullup makes readable; none if len is 0. */
  method PulledUp(src: EvBuffer, len: nat) returns (bytes: seq<Byte>)
    requires src.Valid() && len <= src.totalLen && len < WORD
    modifies src`chains, src`lwd, src`totalLen, src`datas, Memory(src.chains)
    ensures src.Valid() && src.Bytes() == old(src.Bytes()) && bytes == src.Bytes()[..len]
    ensures forall o :: o in Memory(src.chains) ==> o in old(Memory(src.chains)) || fresh(o)
  {
    var pulled := src.Pullup(len, true);
    bytes := [];
    if pulled {
      bytes := src.BlockBytes(0);
      bytes := bytes[..len];
    }
  }

  // ---- Whole streams -------------------------------------------------------

  datatype Record = Record(tag: nat, data: seq<Byte>)

  ghost predicate RecordOk(r: Record) {
    r.tag < WORD && |r.data| < 0x8000_0000
  }

  ghost function Stream(rs: seq<Record>): seq<Byte> {
    if rs == [] then [] else EncRecord(rs[0].tag, rs[0].data) + Stream(rs[1..])
  }

  /** Unmarshalling a stream of encoded records gives them back one by one and leaves
      exactly what follows them. */
  method UnmarshalAll(src: EvBuffer, ghost rs: seq<Record>, ghost rest: seq<Byte>, n: nat) returns (out: seq<Record>)
    requires src.Valid() && !src.freezeStart && n == |rs|
    requires src.Bytes() == Stream(rs) + rest && forall i :: 0 <= i < n ==> RecordOk(rs[i])
    modifies src`chains, src`lwd, src`totalLen, src`datas, Memory(src.chains)
    ensures src.Valid() && out == rs && src.Bytes() == rest
  {
    out := [];
    var i := 0;
    assert rs[0..] == rs;
    while i < n
      invariant i <= n && out == rs[..i] && src.Valid() && !src.freezeStart
      invariant src.Bytes() == Stream(rs[i..]) + rest
      invariant forall o :: o in Memory(src.chains) ==> o in old(Memory(src.chains)) || fresh(o)
    {
      assert rs[i..][1..] == rs[i + 1..] && RecordOk(rs[i]);
      Assoc(EncRecord(rs[i].tag, rs[i].data), Stream(rs[i + 1..]), rest);
      var r := UnmarshalOne(src, rs[i], Stream(rs[i + 1..]) + rest);
      out := out + [r];
      i := i + 1;
    }
    assert rs[n..] == [] && rs[..n] == rs;
    assert Stream([]) + rest == rest;
  }

  method Contents(evbuf: EvBuffer) returns (data: seq<Byte>)
    requires evbuf.Valid() && !evbuf.freezeStart
    ensures data == evbuf.Bytes()
  {
    var n, d := evbuf.CopyoutFrom(Beginning, evbuf.totalLen);
    assert evbuf.Bytes()[0..0 + |evbuf.Bytes()|] == evbuf.Bytes();
    data := d;
  }

  method UnmarshalOne(src: EvBuffer, ghost r: Record, ghost rest: seq<Byte>) returns (out: Record)
    requires src.Valid() && !src.freezeStart && RecordOk(r) && src.Bytes() == EncRecord(r.tag, r.data) + rest
    modifies src`chains, src`lwd, src`totalLen, src`datas, Memory(src.chains)
    ensures src.Valid() && out == r && src.Bytes() == rest
    ensures forall o :: o in Memory(src.chains) ==> o in old(Memory(src.chains)) || fresh(o)
  {
    HeadRoundTrip(r.tag, r.data, rest);
    var dst := new EvBuffer();
    assert Memory(dst.chains) == {};
    var len, tag := Unmarshal(src, dst);
    assert [] + r.data == r.data;
    var data := Contents(dst);
    out := Record(tag, data);
  }

  /** How evtag_unmarshal_int ends on the bytes b: its result, the number, the bytes gone. */
  datatype IntOutcome = IntOutcome(result: int, number: nat, gone: nat)

  ghost function IntOutcomeOf(b: seq<Byte>, needTag: nat, maxNibbles: nat): (r: IntOutcome)
    ensures r.gone <= |b|
  {
    match DecTag(b, 0)
    case Bad => IntOutcome(-1, 0, 0)
    case Good(t, c) =>
      DecTagCount(b, 0);
      if t != needTag then IntOutcome(-1, 0, c)
      else
        var r := AfterTag(b[c..], maxNibbles);
        IntOutcome(r.result, r.number, c + r.gone)
  }

  ghost function AfterTag(b: seq<Byte>, maxNibbles: nat): (r: IntOutcome)
    ensures r.gone <= |b|
  {
    match DecInt(b, 8)
    case Bad => IntOutcome(-1, 0, 0)
    case Good(len, c) =>
      if |b| - c < len then IntOutcome(-1, 0, c)
      else
        match DecInt(b[c..], maxNibbles)
        case Bad => IntOutcome(-1, 0, c + len)
        case Good(v, k) => IntOutcome(if k > len then -1 else k, v, c + len)
  }

  /** evtag_unmarshal_int and, with 16 nibbles, evtag_unmarshal_int64 */
  method UnmarshalInt(evbuf: EvBuffer, needTag: nat, maxNibbles: nat) returns (result: int, number: nat)
    requires evbuf.Valid() && !evbuf.freezeStart && (maxNibbles == 8 || maxNibbles == 16)
    modifies evbuf`chains, evbuf`lwd, evbuf`totalLen, evbuf`datas, Memory(evbuf.chains)
    ensures evbuf.Valid()
    ensures var r := IntOutcomeOf(old(evbuf.Bytes()), needTag, maxNibbles);
            result == r.result && (result >= 0 ==> number == r.number) && evbuf.Bytes() == old(evbuf.Bytes())[r.gone..]
  {
    ghost var b := evbuf.Bytes();
    assert b[0..] == b;
    var count, tag := DecodeTag(evbuf, true);
    if count == -1 || tag != needTag {
      return -1, 0;
    }
    DropTwice(b, count, AfterTag(evbuf.Bytes(), maxNibbles).gone);
    result, number := UnmarshalAfterTag(evbuf, maxNibbles);
  }

  method UnmarshalAfterTag(evbuf: EvBuffer, maxNibbles: nat) returns (result: int, number: nat)
    requires evbuf.Valid() && !evbuf.freezeStart && (maxNibbles == 8 || maxNibbles == 16)
    modifies evbuf`chains, evbuf`lwd, evbuf`totalLen, evbuf`datas, Memory(evbuf.chains)
    ensures evbuf.Valid()
    ensures var r := AfterTag(old(evbuf.Bytes()), maxNibbles);
            result == r.result && (result >= 0 ==> number == r.number) && evbuf.Bytes() == old(evbuf.Bytes())[r.gone..]
  {
    ghost var b := evbuf.Bytes();
    assert b[0..] == b;
    var decoded, len := DecodeInt(evbuf, 8);
    if decoded == -1 || evbuf.totalLen < len {
      return -1, 0;
    }
    DropTwice(b, |b| - evbuf.totalLen, len);
    result, number := TakeInt(evbuf, len, maxNibbles);
  }

  /** The payload of an integer record: decode it and drop all of it. */
  method TakeInt(evbuf: EvBuffer, len: nat, maxNibbles: nat) returns (result: int, number: nat)
    requires evbuf.Valid() && !evbuf.freezeStart && 0 < maxNibbles <= 16 && len <= evbuf.totalLen
    modifies evbuf`chains, evbuf`lwd, evbuf`totalLen, evbuf`datas, Memory(evbuf.chains)
    ensures evbuf.Valid() && evbuf.Bytes() == old(evbuf.Bytes())[len..]
    ensures match DecInt(old(evbuf.Bytes()), maxNibbles)
            case Bad => result == -1
            case Good(v, k) => number == v && result == if k > len then -1 else k
  {
    assert evbuf.Bytes()[0..] == evbuf.Bytes();
    result, number := DecodeIntAt(evbuf, 0, maxNibbles);
    var drained := evbuf.Drain(len);
    if result < 0 || result > len {
      result := -1;
    }
  }

  lemma AfterTagRoundTrip(n: nat, maxNibbles: nat, rest: seq<Byte>)
    requires (maxNibbles == 8 || maxNibbles == 16) && n < Pow16(maxNibbles)
    ensures var b := EncInt(|EncInt(n)|) + (EncInt(n) + rest);
            AfterTag(b, maxNibbles) == IntOutcome(|EncInt(n)|, n, |EncInt(|EncInt(n)|)| + |EncInt(n)|)
  {
    NibblesOf(n, maxNibbles, Pow16(maxNibbles));
    Pow16Words();
    var l := EncInt(|EncInt(n)|);
    IntRoundTrip(|EncInt(n)|, 8, EncInt(n) + rest);
    Tail(l, EncInt(n) + rest);
    IntRoundTrip(n, maxNibbles, rest);
  }

  /** Unmarshalling a marshalled integer gives it back and leaves exactly what follows. */
  lemma IntRecordRoundTrip(tag: nat, n: nat, maxNibbles: nat, rest: seq<Byte>)
    requires tag < WORD && (maxNibbles == 8 || maxNibbles == 16) && n < Pow16(maxNibbles)
    ensures var b := EncRecord(tag, EncInt(n)) + rest;
            var r := IntOutcomeOf(b, tag, maxNibbles);
            r.result == |EncInt(n)| && r.number == n && b[r.gone..] == rest
  {
    var t, l, d := EncTag(tag), EncInt(|EncInt(n)|), EncInt(n);
    Regroup(t, l, d, rest);
    Assoc(l, d, rest);
    TagRoundTrip(tag, l + (d + rest));
    Tail(t, l + (d + rest));
    AfterTagRoundTrip(n, maxNibbles, rest);
    Tail(t + l + d, rest);
  }
}
