/** The wire format of net/libevent/src/event_tagging.c: integers in nibbles, tags
    in 7-bit groups, records of a tag, a length and a payload. */
module TagCodec {
  import opened EvChain

  datatype Decoded = Bad | Good(value: nat, count: nat)

  // ---- Integers ------------------------------------------------------------

  /** n without its last j nibbles */
  ghost function Shifted(n: nat, j: nat): nat {
    if j == 0 then n else Shifted(n / 16, j - 1)
  }

  ghost function Nibbles(n: nat): nat {
    if n == 0 then 0 else 1 + Nibbles(n / 16)
  }

  lemma {:induction false} ShiftedStep(n: nat, j: nat)
    ensures Shifted(n, j + 1) == Shifted(n, j) / 16
  {
    if j > 0 {
      ShiftedStep(n / 16, j - 1);
    }
  }

  lemma {:induction false} ShiftedZero(n: nat, j: nat)
    ensures Shifted(n, j) == 0 <==> j >= Nibbles(n)
  {
    if j == 0 {
    } else if n == 0 {
      ShiftedZero(0, j - 1);
    } else {
      ShiftedZero(n / 16, j - 1);
    }
  }

  /** The nibbles on the wire: how many more than one, then the least significant first. */
  ghost function NibbleAt(n: nat, off: nat): nat
    ensures NibbleAt(n, off) < 16
  {
    if off == 0 then (if Nibbles(n) > 1 then Nibbles(n) - 1 else 0) % 16 else Shifted(n, off - 1) % 16
  }

  ghost function IntLen(n: nat): nat {
    (Nibbles(n) + 2) / 2
  }

  /** What ENCODE_INT_INTERNAL leaves in data. */
  ghost function EncInt(n: nat): (r: seq<Byte>)
    ensures |r| == IntLen(n)
  {
    seq(IntLen(n), j requires 0 <= j => NibbleAt(n, 2 * j) * 16 + NibbleAt(n, 2 * j + 1))
  }

  /** Nibble k of the bytes b. */
  function Nib(b: seq<Byte>, k: nat): nat
    requires k / 2 < |b|
  {
    if k % 2 == 1 then b[k / 2] % 16 else b[k / 2] / 16
  }

  /** The number made of the nibbles from k to n, the last one most significant. */
  ghost function Number(b: seq<Byte>, k: nat, n: nat): nat
    requires n / 2 < |b|
    decreases n + 1 - k
  {
    if k > n then 0 else Number(b, k + 1, n) * 16 + Nib(b, k)
  }

  /** DECODE_INT_INTERNAL */
  ghost function DecInt(b: seq<Byte>, maxNibbles: nat): Decoded {
    if b == [] then Bad
    else
      var nibbles := b[0] / 16 + 1;
      if nibbles > maxNibbles || nibbles / 2 + 1 > |b| then Bad else Good(Number(b, 1, nibbles), nibbles / 2 + 1)
  }

  lemma {:induction false} NumberOf(n: nat, rest: seq<Byte>, k: nat)
    requires 1 <= k <= Nibbles(n) + 1
    ensures Nibbles(n) / 2 < |EncInt(n) + rest|
    ensures Number(EncInt(n) + rest, k, Nibbles(n)) == Shifted(n, k - 1)
    decreases Nibbles(n) + 1 - k
  {
    var b := EncInt(n) + rest;
    if k == Nibbles(n) + 1 {
      ShiftedZero(n, k - 1);
    } else {
      NumberOf(n, rest, k + 1);
      ShiftedStep(n, k - 1);
      assert Nib(b, k) == NibbleAt(n, k) by {
        assert b[k / 2] == EncInt(n)[k / 2];
      }
    }
  }

  lemma {:induction false} NibblesOf(n: nat, k: nat, bound: nat)
    requires n < bound && bound == Pow16(k)
    ensures Nibbles(n) <= k
  {
    if n > 0 && k > 0 {
      NibblesOf(n / 16, k - 1, Pow16(k - 1));
    }
  }

  ghost function Pow16(k: nat): nat {
    if k == 0 then 1 else 16 * Pow16(k - 1)
  }

  /** Decoding an encoded integer gives it back, and its length. */
  lemma IntRoundTrip(n: nat, maxNibbles: nat, rest: seq<Byte>)
    requires 0 < maxNibbles <= 16 && n < Pow16(maxNibbles)
    ensures DecInt(EncInt(n) + rest, maxNibbles) == Good(n, |EncInt(n)|)
  {
    NibblesOf(n, maxNibbles, Pow16(maxNibbles));
    FirstNibble(n, rest);
    if n == 0 {
      ZeroRoundTrip(rest);
    } else {
      NumberOf(n, rest, 1);
    }
  }

  /** The count of nibbles that the decoder reads. */
  lemma FirstNibble(n: nat, rest: seq<Byte>)
    requires Nibbles(n) <= 16
    ensures EncInt(n) + rest != []
    ensures (EncInt(n) + rest)[0] / 16 + 1 == if n == 0 then 1 else Nibbles(n)
  {
    assert (EncInt(n) + rest)[0] == EncInt(n)[0] == NibbleAt(n, 0) * 16 + NibbleAt(n, 1);
  }

  lemma ZeroRoundTrip(rest: seq<Byte>)
    ensures Number(EncInt(0) + rest, 1, 1) == 0
  {
    var b := EncInt(0) + rest;
    assert b[0] == EncInt(0)[0] == 0;
    assert Number(b, 1, 1) == Number(b, 2, 1) * 16 + Nib(b, 1);
  }

  // ---- Tags ----------------------------------------------------------------

  /** evtag_encode_tag */
  ghost function EncTag(t: nat): (r: seq<Byte>)
    ensures r != []
  {
    if t < 128 then [t] else [t % 128 + 128] + EncTag(t / 128)
  }

  /** decode_tag_internal from byte i on; value is what the bytes from i on add. */
  ghost function DecTag(b: seq<Byte>, i: nat): Decoded
    decreases |b| - i
  {
    if i >= |b| || i > 4 then Bad
    else
      var low := b[i] % 128;
      if i == 4 && low > 15 then Bad
      else if b[i] < 128 then Good(low, i + 1)
      else
        match DecTag(b, i + 1)
        case Bad => Bad
        case Good(v, c) => Good(low + 128 * v, c)
  }

  ghost function Pow128(k: nat): nat {
    if k == 0 then 1 else 128 * Pow128(k - 1)
  }

  lemma {:induction false} TagFits(pre: seq<Byte>, t: nat, rest: seq<Byte>)
    requires |pre| <= 4 && t * Pow128(|pre|) < 0x1_0000_0000
    ensures DecTag(pre + EncTag(t) + rest, |pre|) == Good(t, |pre| + |EncTag(t)|)
    decreases t
  {
    var b := pre + EncTag(t) + rest;
    var i := |pre|;
    assert b[i] == EncTag(t)[0];
    TopGroup(t, i);
    if t >= 128 {
      var pre' := pre + [t % 128 + 128];
      assert pre' + EncTag(t / 128) + rest == b;
      TagFits(pre', t / 128, rest);
    }
  }

  /** At the fifth byte only four bits are left; before it a longer tag may go on. */
  lemma TopGroup(t: nat, i: nat)
    requires i <= 4 && t * Pow128(i) < 0x1_0000_0000
    ensures i == 4 ==> t < 16
    ensures t / 128 * Pow128(i + 1) < 0x1_0000_0000
  {
    var p := Pow128(i);
    assert Pow128(i + 1) == 128 * p;
    assert t / 128 * 128 <= t;
    Times(t / 128 * 128, t, p);
    assert t / 128 * (128 * p) == t / 128 * 128 * p;
    if i == 4 {
      assert Pow128(4) == 128 * (128 * (128 * (128 * 1)));
    }
  }

  lemma Times(a: nat, b: nat, p: nat)
    requires a <= b
    ensures a * p <= b * p
  {
  }

  /** Decoding an encoded 32-bit tag gives it back, and its length. */
  lemma TagRoundTrip(t: nat, rest: seq<Byte>)
    requires t < 0x1_0000_0000
    ensures DecTag(EncTag(t) + rest, 0) == Good(t, |EncTag(t)|)
  {
    assert [] + EncTag(t) + rest == EncTag(t) + rest;
    TagFits([], t, rest);
  }
}
