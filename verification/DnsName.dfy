/** The name codec of net/libevent/src/evdns.c: dnsname_to_labels with its
    compression table, and name_parse.  RFC 1035, section 4.1.4. */
module DnsName {

  type Byte = b: int | 0 <= b < 256
  type Char = b: int | 0 < b < 256 witness 1   // C strings hold no NUL
  type Name = seq<Char>

  const DOT: Char := 46
  const MAX_LABELS := 128

  datatype Entry = Entry(v: Name, pos: nat)

  // ---- Encoding ------------------------------------------------------------

  /** strchr(name, '.'), with |name| for "no dot". */
  function FirstDot(name: Name): (k: nat)
    ensures k <= |name| && (k < |name| ==> name[k] == DOT)
    ensures forall i :: 0 <= i < k ==> name[i] != DOT
  {
    if name == [] || name[0] == DOT then 0 else 1 + FirstDot(name[1..])
  }

  /** The position of the first entry for label, or -1. */
  function GetPos(table: seq<Entry>, text: Name): (pos: int)
    ensures pos >= 0 ==> Entry(text, pos) in table
    ensures pos < 0 ==> forall e :: e in table ==> e.v != text
  {
    if table == [] then -1
    else if table[0].v == text then table[0].pos
    else GetPos(table[1..], text)
  }

  function Added(table: seq<Entry>, text: Name, pos: nat): seq<Entry> {
    if |table| == MAX_LABELS then table else table + [Entry(text, pos)]
  }

  /** The two bytes of (ref | 0xc000) cut to sixteen bits, high byte first. */
  function Pointer(ref: nat): seq<Byte> {
    [192 + ref % 0x4000 / 256, ref % 256]
  }

  /** What the encoder has written so far, or an error code. */
  datatype Encoded = Encoded(out: seq<Byte>, table: seq<Entry>) | Failed(code: int, table: seq<Entry>)

  /** The loop of dnsname_to_labels when out is in the buffer already. */
  function EncodeFrom(out: seq<Byte>, bufLen: nat, name: Name, compress: bool, table: seq<Entry>): Encoded
    decreases |name|
  {
    var ref := if compress then GetPos(table, name) else -1;
    if ref >= 0 then
      if |out| + 2 > bufLen then Failed(-2, table) else Encoded(out + Pointer(ref), table)
    else
      var k := FirstDot(name);
      if k > 63 then Failed(-1, table)
      else if |out| + k + 1 > bufLen then Failed(-2, table)
      else
        var table' := if compress then Added(table, name, |out|) else table;
        var out' := out + [k] + name[..k];
        if k < |name| then EncodeFrom(out', bufLen, name[k + 1..], compress, table')
        else Encoded(if out'[|out'| - 1] != 0 then out' + [0] else out', table')
  }

  function Encode(out: seq<Byte>, bufLen: nat, name: Name, compress: bool, table: seq<Entry>): Encoded {
    if |name| > 255 then Failed(-2, table) else EncodeFrom(out, bufLen, name, compress, table)
  }

  // ---- Parsing -------------------------------------------------------------

  datatype Parsed = Bad | Good(name: seq<Byte>, next: nat)

  function Target(hi: Byte, lo: Byte): nat {
    hi % 64 * 256 + lo
  }

  /** The loop of name_parse: out has been produced so far, nameEnd is where the
      first pointer ended, or -1. */
  function ParseFrom(p: seq<Byte>, j: nat, nameEnd: int, ptrCount: nat, out: seq<Byte>, outLen: nat): Parsed
    requires ptrCount <= |p| && nameEnd >= -1
    decreases |p| - ptrCount, |p| - j
  {
    if j >= |p| then Bad
    else if p[j] == 0 then
      if |out| >= outLen then Bad else Good(out, if nameEnd < 0 then j + 1 else nameEnd)
    else if p[j] >= 64 then
      if j + 1 >= |p| then Bad
      else
        var t := Target(p[j], p[j + 1]);
        if t >= |p| || ptrCount + 1 > |p| then Bad
        else ParseFrom(p, t, if nameEnd < 0 then j + 2 else nameEnd, ptrCount + 1, out, outLen)
    else
      var k := p[j];
      if out != [] && |out| + 1 >= outLen then Bad
      else
        var out' := if out == [] then [] else out + [DOT];
        if |out'| + k >= outLen || j + 1 + k > |p| then Bad
        else ParseFrom(p, j + 1 + k, nameEnd, ptrCount, out' + p[j + 1..j + 1 + k], outLen)
  }

  function Parse(p: seq<Byte>, j: nat, outLen: nat): Parsed {
    ParseFrom(p, j, -1, 0, [], outLen)
  }

  // ---- What a packet says at an offset -------------------------------------

  /** The labels of a name: its text split at every dot. */
  ghost function Labels(name: Name): (ls: seq<Name>)
    ensures ls != []
    decreases |name|
  {
    var k := FirstDot(name);
    if k == |name| then [name] else [name[..k]] + Labels(name[k + 1..])
  }

  /** The labels before the first empty one: an empty label ends a name. */
  ghost function Visible(ls: seq<Name>): seq<Name> {
    if ls == [] || ls[0] == [] then [] else [ls[0]] + Visible(ls[1..])
  }

  /** out followed by the labels, with a dot before each unless out is empty. */
  ghost function Dotted(out: seq<Byte>, ls: seq<Name>): (r: seq<Byte>)
    ensures |r| >= |out|
    decreases |ls|
  {
    if ls == [] then out
    else Dotted(Joint(out) + ls[0], ls[1..])
  }

  /** p holds the labels ls at j; pointers met on the way lead below lim, and
      from there further down. */
  ghost predicate Stored(p: seq<Byte>, j: nat, lim: nat, ls: seq<Name>)
    decreases |ls|, lim
  {
    && j < |p|
    && if p[j] == 0 then ls == []
       else if p[j] < 64 then
         && ls != [] && |ls[0]| == p[j] && j + 1 + p[j] <= |p|
         && p[j + 1..j + 1 + p[j]] == ls[0]
         && Stored(p, j + 1 + p[j], lim, ls[1..])
       else
         && j + 1 < |p| && Target(p[j], p[j + 1]) < lim
         && Stored(p, Target(p[j], p[j + 1]), Target(p[j], p[j + 1]), ls)
  }

  /** The offset just past the name at j: after its zero byte or first pointer. */
  ghost function EndOf(p: seq<Byte>, j: nat): nat
    decreases |p| - j
  {
    if j >= |p| then j
    else if p[j] == 0 then j + 1
    else if p[j] < 64 then EndOf(p, j + 1 + p[j])
    else j + 2
  }

  /** The parser reads back what is stored; its jump counter never trips. */
  lemma {:induction false} StoredParses(p: seq<Byte>, j: nat, lim: nat, ls: seq<Name>, nameEnd: int, ptrCount: nat, out: seq<Byte>, outLen: nat)
    requires Stored(p, j, lim, ls) && ptrCount + lim <= |p| && nameEnd >= -1
    requires |Dotted(out, ls)| < outLen
    ensures ParseFrom(p, j, nameEnd, ptrCount, out, outLen)
         == Good(Dotted(out, ls), if nameEnd < 0 then EndOf(p, j) else nameEnd)
    decreases |ls|, lim
  {
    if p[j] == 0 {
    } else if p[j] < 64 {
      StoredParses(p, j + 1 + p[j], lim, ls[1..], nameEnd, ptrCount, Joint(out) + ls[0], outLen);
    } else {
      var t := Target(p[j], p[j + 1]);
      StoredParses(p, t, t, ls, if nameEnd < 0 then j + 2 else nameEnd, ptrCount + 1, out, outLen);
    }
  }

  /** More bytes behind a packet, or a laxer limit, change nothing. */
  lemma {:induction false} StoredGrows(p: seq<Byte>, p': seq<Byte>, j: nat, lim: nat, lim': nat, ls: seq<Name>)
    requires Stored(p, j, lim, ls) && p <= p' && lim <= lim'
    ensures Stored(p', j, lim', ls)
    decreases |ls|, lim
  {
    assert p'[j] == p[j];
    if p[j] == 0 {
    } else if p[j] < 64 {
      assert p'[j + 1..j + 1 + p[j]] == p[j + 1..j + 1 + p[j]];
      StoredGrows(p, p', j + 1 + p[j], lim, lim', ls[1..]);
    } else {
      var t := Target(p[j], p[j + 1]);
      assert p'[j + 1] == p[j + 1];
      StoredGrows(p, p', t, t, t, ls);
    }
  }

  // ---- The encoder stores the name -----------------------------------------

  ghost function Meaning(name: Name): seq<Name> {
    Visible(Labels(name))
  }

  ghost predicate EntryOk(p: seq<Byte>, e: Entry) {
    Stored(p, e.pos, e.pos, Meaning(e.v))
  }

  /** Every entry's position holds that entry's text. */
  ghost predicate TableOk(p: seq<Byte>, table: seq<Entry>) {
    forall e :: e in table ==> EntryOk(p, e)
  }

  /** What is behind the first label */
  ghost function RestMeaning(name: Name): seq<Name> {
    if FirstDot(name) < |name| then Meaning(name[FirstDot(name) + 1..]) else []
  }

  lemma MeaningStep(name: Name)
    ensures var k := FirstDot(name);
      Meaning(name) == if k == 0 then [] else
        [name[..k]] + RestMeaning(name)
  {
    var k := FirstDot(name);
    if k < |name| {
      VisibleStep(name[..k], Labels(name[k + 1..]));
    } else {
      VisibleStep(name, []);
      assert [name] + [] == [name] && name[..k] == name;
    }
  }

  lemma VisibleStep(x: Name, ls: seq<Name>)
    ensures Visible([x] + ls) == if x == [] then [] else [x] + Visible(ls)
  {
    assert ([x] + ls)[1..] == ls;
  }

  /** The encoder only appends. */
  lemma {:induction false} EncodeAppends(out: seq<Byte>, bufLen: nat, name: Name, compress: bool, table: seq<Entry>)
    ensures var r := EncodeFrom(out, bufLen, name, compress, table);
      r.Encoded? ==> out <= r.out && |out| < |r.out| <= bufLen + 1
    decreases |name|
  {
    var k := FirstDot(name);
    if !(compress && GetPos(table, name) >= 0) && k < |name| && k <= 63 && |out| + k + 1 <= bufLen {
      EncodeAppends(out + [k] + name[..k], bufLen, name[k + 1..], compress, if compress then Added(table, name, |out|) else table);
    }
  }

  /** A pointer leads where it should exactly when its offset has fourteen bits. */
  lemma PointerExact(ref: nat)
    ensures Target(Pointer(ref)[0], Pointer(ref)[1]) == ref <==> ref < 0x4000
  {
  }

  /** One label of more is written, and then the rest of the name. */
  lemma EncodeLabel(out: seq<Byte>, bufLen: nat, name: Name, compress: bool, table: seq<Entry>) returns (out': seq<Byte>, table': seq<Entry>)
    requires EncodeFrom(out, bufLen, name, compress, table).Encoded?
    requires !(compress && GetPos(table, name) >= 0) && FirstDot(name) < |name|
    ensures FirstDot(name) <= 63 && out' == out + [FirstDot(name)] + name[..FirstDot(name)] && |out'| == |out| + 1 + FirstDot(name)
    ensures table' == if compress then Added(table, name, |out|) else table
    ensures EncodeFrom(out, bufLen, name, compress, table) == EncodeFrom(out', bufLen, name[FirstDot(name) + 1..], compress, table')
  {
    out' := out + [FirstDot(name)] + name[..FirstDot(name)];
    table' := if compress then Added(table, name, |out|) else table;
  }

  lemma PointerStores(base: seq<Byte>, q: seq<Byte>, j: nat, e: Entry)
    requires EntryOk(base, e) && base <= q && |base| <= j && e.pos < 0x4000
    requires j + 2 <= |q| && q[j] == Pointer(e.pos)[0] && q[j + 1] == Pointer(e.pos)[1]
    ensures Stored(q, j, |base|, Meaning(e.v))
  {
    StoredGrows(base, q, e.pos, e.pos, e.pos, Meaning(e.v));
    PointerExact(e.pos);
  }

  lemma BytesBehind(out: seq<Byte>, k: Byte, text: seq<Byte>, q: seq<Byte>)
    requires out + [k] + text <= q
    ensures q[|out|] == k && q[|out| + 1..|out| + 1 + |text|] == text
  {
    var w := out + [k] + text;
    assert w[|out|] == k;
    assert forall i :: 0 <= i < |text| ==> q[|out| + 1 + i] == w[|out| + 1 + i] == text[i];
  }

  /** One label in front of labels. */
  lemma StoredLabel(q: seq<Byte>, j: nat, i: nat, lim: nat, x: Name, ls: seq<Name>)
    requires 0 < |x| < 64 && i == j + 1 + |x| <= |q| && q[j] == |x| && q[j + 1..i] == x
    requires Stored(q, i, lim, ls)
    ensures Stored(q, j, lim, [x] + ls)
  {
    assert ([x] + ls)[1..] == ls;
  }

  /** A literal label in front of what is already stored. */
  lemma LabelStores(out: seq<Byte>, q: seq<Byte>, i: nat, lim: nat, name: Name, rest: seq<Name>)
    requires FirstDot(name) <= 63 && lim <= |out| && out + [FirstDot(name)] + name[..FirstDot(name)] <= q
    requires i == |out| + 1 + FirstDot(name) && rest == RestMeaning(name) && (FirstDot(name) > 0 ==> Stored(q, i, lim, rest))
    ensures Stored(q, |out|, lim, Meaning(name)) && EntryOk(q, Entry(name, |out|))
  {
    var k, j := FirstDot(name), |out|;
    BytesBehind(out, k, name[..k], q);
    if k > 0 {
      StoredLabel(q, j, i, lim, name[..k], rest);
    }
    MeaningStep(name);
    StoredGrows(q, q, j, lim, j, Meaning(name));
  }

  /** Fourteen bits suffice for every position. */
  ghost predicate Narrow(table: seq<Entry>) {
    forall e :: e in table ==> e.pos < 0x4000
  }

  /** Entries beyond the sound ones are for texts longer than n. */
  ghost predicate RestLonger(sound: seq<Entry>, table: seq<Entry>, n: nat) {
    forall e :: e in table ==> e in sound || |e.v| > n
  }

  /** The heart of compression.  Encoding started behind base with a sound
      table; entries added since then are for longer texts and cannot be hit. */
  lemma {:induction false} EncodeStores(base: seq<Byte>, out: seq<Byte>, bufLen: nat, name: Name, compress: bool, sound: seq<Entry>, table: seq<Entry>)
    requires base <= out && Narrow(sound) && TableOk(base, sound) && RestLonger(sound, table, |name|)
    requires EncodeFrom(out, bufLen, name, compress, table).Encoded?
    ensures Stored(EncodeFrom(out, bufLen, name, compress, table).out, |out|, |base|, Meaning(name))
    decreases |name|, 1
  {
    var q := EncodeFrom(out, bufLen, name, compress, table).out;
    if compress && GetPos(table, name) >= 0 {
      PointerStores(base, q, |out|, Entry(name, GetPos(table, name)));
    } else {
      if FirstDot(name) < |name| {
        RestStores(base, out, bufLen, name, compress, sound, table);
      }
      LabelStores(out, q, |out| + 1 + FirstDot(name), |base|, name, RestMeaning(name));
    }
  }

  /** The step from one label to the rest of the name. */
  lemma {:induction false} RestStores(base: seq<Byte>, out: seq<Byte>, bufLen: nat, name: Name, compress: bool, sound: seq<Entry>, table: seq<Entry>)
    requires base <= out && Narrow(sound) && TableOk(base, sound) && RestLonger(sound, table, |name|)
    requires EncodeFrom(out, bufLen, name, compress, table).Encoded?
    requires !(compress && GetPos(table, name) >= 0) && FirstDot(name) < |name|
    ensures var k, q := FirstDot(name), EncodeFrom(out, bufLen, name, compress, table).out;
      && k <= 63 && out + [k] + name[..k] <= q
      && Stored(q, |out| + 1 + k, |base|, RestMeaning(name))
    decreases |name|, 0
  {
    var rest := name[FirstDot(name) + 1..];
    var out', table' := EncodeLabel(out, bufLen, name, compress, table);
    EncodeStores(base, out', bufLen, rest, compress, sound, table');
    EncodeAppends(out', bufLen, rest, compress, table');
  }

  /** So the entry for the name itself is sound ... */
  lemma NewEntryOk(base: seq<Byte>, out: seq<Byte>, bufLen: nat, name: Name, compress: bool, sound: seq<Entry>, table: seq<Entry>)
    requires base <= out && Narrow(sound) && TableOk(base, sound) && RestLonger(sound, table, |name|)
    requires EncodeFrom(out, bufLen, name, compress, table).Encoded?
    ensures EntryOk(EncodeFrom(out, bufLen, name, compress, table).out, Entry(name, |out|))
  {
    var q := EncodeFrom(out, bufLen, name, compress, table).out;
    EncodeStores(base, out, bufLen, name, compress, sound, table);
    StoredGrows(q, q, |out|, |base|, |out|, Meaning(name));
  }

  /** All entries that are new in the table now are sound. */
  ghost predicate NewOk(p: seq<Byte>, table: seq<Entry>, now: seq<Entry>) {
    forall e :: e in now ==> e in table || EntryOk(p, e)
  }

  /** ... and so is every table entry the encoder adds. */
  lemma {:induction false} EncodeTable(base: seq<Byte>, out: seq<Byte>, bufLen: nat, name: Name, compress: bool, sound: seq<Entry>, table: seq<Entry>)
    requires base <= out && Narrow(sound) && TableOk(base, sound) && RestLonger(sound, table, |name|)
    requires EncodeFrom(out, bufLen, name, compress, table).Encoded?
    ensures NewOk(EncodeFrom(out, bufLen, name, compress, table).out, table, EncodeFrom(out, bufLen, name, compress, table).table)
    decreases |name|
  {
    NewEntryOk(base, out, bufLen, name, compress, sound, table);
    if !(compress && GetPos(table, name) >= 0) && FirstDot(name) < |name| {
      var rest := name[FirstDot(name) + 1..];
      var out', table' := EncodeLabel(out, bufLen, name, compress, table);
      assert RestLonger(sound, table', |rest|);
      EncodeTable(base, out', bufLen, rest, compress, sound, table');
    }
  }

  // ---- Round trips ---------------------------------------------------------

  ghost predicate NoEmpty(ls: seq<Name>) {
    forall i :: 0 <= i < |ls| ==> ls[i] != []
  }

  /** An empty label elsewhere than at the end. */
  ghost predicate InnerEmpty(name: Name)
    decreases |name|
  {
    var k := FirstDot(name);
    k < |name| && (k == 0 || InnerEmpty(name[k + 1..]))
  }

  /** The text a parser can at best return: the labels in front of the first
      empty one, dotted. */
  ghost function Readable(name: Name): seq<Byte> {
    Dotted([], Meaning(name))
  }

  /** What a label is appended to. */
  ghost function Joint(out: seq<Byte>): seq<Byte> {
    if out == [] then [] else out + [DOT]
  }

  lemma NoEmptyStep(x: Name, rest: seq<Name>)
    ensures NoEmpty([x] + rest) <==> x != [] && NoEmpty(rest)
  {
    var ls := [x] + rest;
    if NoEmpty(ls) {
      assert ls[0] == x;
      forall i | 0 <= i < |rest|
        ensures rest[i] != []
      {
        assert ls[i + 1] == rest[i];
      }
    }
  }

  lemma LabelsStep(name: Name)
    requires FirstDot(name) < |name|
    ensures var k := FirstDot(name);
      NoEmpty(Labels(name)) <==> k > 0 && NoEmpty(Labels(name[k + 1..]))
  {
    var k := FirstDot(name);
    NoEmptyStep(name[..k], Labels(name[k + 1..]));
  }

  lemma DottedStep(out: seq<Byte>, name: Name)
    ensures var k := FirstDot(name);
      Dotted(out, Meaning(name)) ==
        if k == 0 then out
        else if k < |name| then Dotted(Joint(out) + name[..k], Meaning(name[k + 1..]))
        else Joint(out) + name
  {
    var k := FirstDot(name);
    MeaningStep(name);
    if k > 0 {
      assert Meaning(name)[0] == name[..k];
      assert Meaning(name)[1..] == if k < |name| then Meaning(name[k + 1..]) else [];
    }
  }

  /** NoEmpty, label by label */
  ghost predicate AllFull(name: Name)
    decreases |name|
  {
    var k := FirstDot(name);
    k > 0 && (k < |name| ==> AllFull(name[k + 1..]))
  }

  lemma {:induction false} FullLabels(name: Name)
    ensures NoEmpty(Labels(name)) <==> AllFull(name)
    decreases |name|
  {
    var k := FirstDot(name);
    if k == |name| {
      assert Labels(name)[0] == name;
    } else {
      LabelsStep(name);
      FullLabels(name[k + 1..]);
    }
  }

  /** Labels and dots give the text back ... */
  lemma {:induction false} DottedLabels(out: seq<Byte>, name: Name)
    requires AllFull(name)
    ensures Dotted(out, Meaning(name)) == Joint(out) + name
    decreases |name|
  {
    var k := FirstDot(name);
    DottedStep(out, name);
    if k < |name| {
      var next := Joint(out) + name[..k];
      DottedLabels(next, name[k + 1..]);
      JointOf(next);
      Resplit(Joint(out), name, k);
    }
  }

  lemma JointOf(out: seq<Byte>)
    ensures out != [] ==> Joint(out) == out + [DOT]
  {
  }

  /** ... unless an empty label hides the rest. */
  lemma {:induction false} DottedShort(out: seq<Byte>, name: Name)
    requires !AllFull(name)
    ensures |Dotted(out, Meaning(name))| <= |Joint(out)| + |name|
    ensures |Joint(out)| + |name| > 0 ==> |Dotted(out, Meaning(name))| < |Joint(out)| + |name|
    decreases |name|
  {
    var k := FirstDot(name);
    DottedStep(out, name);
    if 0 < k < |name| {
      var next := Joint(out) + name[..k];
      DottedShort(next, name[k + 1..]);
      JointOf(next);
    }
  }

  lemma Resplit(a: seq<Byte>, name: Name, k: nat)
    requires k < |name| && name[k] == DOT
    ensures a + name[..k] + [DOT] + name[k + 1..] == a + name
  {
  }

  lemma {:induction false} EndGrows(p: seq<Byte>, p': seq<Byte>, j: nat, lim: nat, ls: seq<Name>)
    requires Stored(p, j, lim, ls) && p <= p'
    ensures EndOf(p', j) == EndOf(p, j) && j < EndOf(p, j) <= |p|
    decreases |ls|
  {
    assert p'[j] == p[j];
    if 0 < p[j] < 64 {
      EndGrows(p, p', j + 1 + p[j], lim, ls[1..]);
    }
  }

  /** What encoding asks the table about name and what is behind its dots: nothing is in it. */
  ghost predicate Unshared(table: seq<Entry>, name: Name)
    decreases |name|
  {
    var k := FirstDot(name);
    GetPos(table, name) < 0 && (k < |name| ==> Unshared(table, name[k + 1..]))
  }

  /** An empty label is written, with more behind it, before any pointer. */
  ghost predicate HiddenTail(table: seq<Entry>, name: Name, compress: bool)
    decreases |name|
  {
    var k := FirstDot(name);
    !(compress && GetPos(table, name) >= 0) && k < |name| && (k == 0 || HiddenTail(table, name[k + 1..], compress))
  }

  lemma {:induction false} HiddenInner(table: seq<Entry>, name: Name, compress: bool)
    ensures HiddenTail(table, name, compress) ==> InnerEmpty(name)
    ensures !compress && InnerEmpty(name) ==> HiddenTail(table, name, compress)
    decreases |name|
  {
    var k := FirstDot(name);
    if k < |name| {
      HiddenInner(table, name[k + 1..], compress);
    }
  }

  lemma {:induction false} PosAdded(table: seq<Entry>, e: Entry, text: Name)
    requires e.v != text
    ensures GetPos(table + [e], text) == GetPos(table, text)
  {
    if table == [] {
    } else {
      assert (table + [e])[1..] == table[1..] + [e];
      PosAdded(table[1..], e, text);
    }
  }

  /** An entry for a longer text is never found. */
  lemma {:induction false} LongerUnshared(table: seq<Entry>, longer: Name, pos: nat, name: Name)
    requires |name| < |longer|
    ensures Unshared(Added(table, longer, pos), name) <==> Unshared(table, name)
    decreases |name|
  {
    var k := FirstDot(name);
    PosAdded(table, Entry(longer, pos), name);
    if k < |name| {
      LongerUnshared(table, longer, pos, name[k + 1..]);
    }
  }

  lemma {:induction false} LongerHides(table: seq<Entry>, longer: Name, pos: nat, name: Name, compress: bool)
    requires |name| < |longer|
    ensures HiddenTail(Added(table, longer, pos), name, compress) <==> HiddenTail(table, name, compress)
    decreases |name|
  {
    var k := FirstDot(name);
    PosAdded(table, Entry(longer, pos), name);
    if k < |name| {
      LongerHides(table, longer, pos, name[k + 1..], compress);
    }
  }

  /** The name at j ends with the packet q, unless a part of it is hidden. */
  ghost predicate EndsRight(q: seq<Byte>, j: nat, table: seq<Entry>, name: Name, compress: bool) {
    EndOf(q, j) <= |q| && (EndOf(q, j) == |q| <==> !HiddenTail(table, name, compress))
  }

  /** The name's end, as the parser sees it, is where the encoder stopped, unless an empty label
      ended the name early. */
  lemma {:induction false} EncodeEnds(out: seq<Byte>, bufLen: nat, name: Name, compress: bool, table: seq<Entry>)
    requires EncodeFrom(out, bufLen, name, compress, table).Encoded?
    ensures EndsRight(EncodeFrom(out, bufLen, name, compress, table).out, |out|, table, name, compress)
    decreases |name|
  {
    var q := EncodeFrom(out, bufLen, name, compress, table).out;
    EncodeAppends(out, bufLen, name, compress, table);
    if compress && GetPos(table, name) >= 0 {
      assert q[|out|] >= 192;
    } else {
      var k := FirstDot(name);
      if k < |name| {
        RestEnds(out, bufLen, name, compress, table);
      } else {
        LastEnds(out, name, q);
      }
    }
  }

  /** The last label, with its terminator. */
  lemma LastEnds(out: seq<Byte>, name: Name, q: seq<Byte>)
    requires FirstDot(name) == |name| <= 63
    requires q == if name == [] then out + [0] else out + [|name|] + name + [0]
    ensures EndOf(q, |out|) == |q|
  {
    if name != [] {
      BytesBehind(out, |name|, name, q);
      EndStep(q, |out|);
      assert q[|q| - 1] == 0;
    }
  }

  lemma EndStep(p: seq<Byte>, j: nat)
    requires j < |p| && p[j] < 64
    ensures EndOf(p, j) == if p[j] == 0 then j + 1 else EndOf(p, j + 1 + p[j])
  {
  }

  /** The step from one label to the rest of the name. */
  lemma {:induction false} RestEnds(out: seq<Byte>, bufLen: nat, name: Name, compress: bool, table: seq<Entry>)
    requires EncodeFrom(out, bufLen, name, compress, table).Encoded?
    requires !(compress && GetPos(table, name) >= 0) && FirstDot(name) < |name|
    ensures EndsRight(EncodeFrom(out, bufLen, name, compress, table).out, |out|, table, name, compress)
    decreases |name|, 0
  {
    var k, q := FirstDot(name), EncodeFrom(out, bufLen, name, compress, table).out;
    var out', table' := EncodeLabel(out, bufLen, name, compress, table);
    var rest, i := name[k + 1..], |out'|;
    assert q == EncodeFrom(out', bufLen, rest, compress, table').out;
    EncodeAppends(out', bufLen, rest, compress, table');
    BytesBehind(out, k, name[..k], q);
    EncodeEnds(out', bufLen, rest, compress, table');
    LongerHides(table, name, |out|, rest, compress);
    assert EndsRight(q, i, table, rest, compress);
    EndsBefore(q, |out|, i, table, name, rest, compress);
  }

  lemma EndsBefore(q: seq<Byte>, j: nat, i: nat, table: seq<Entry>, name: Name, rest: Name, compress: bool)
    requires !(compress && GetPos(table, name) >= 0) && FirstDot(name) < |name| && rest == name[FirstDot(name) + 1..]
    requires i == j + 1 + FirstDot(name) < |q| && q[j] == FirstDot(name) < 64
    requires EndsRight(q, i, table, rest, compress)
    ensures EndsRight(q, j, table, name, compress)
  {
    EndStep(q, j);
  }

  /** One name, encoded with a sound table and read back from any packet that
      begins with what was written: the parser gets the readable part, and the
      table stays sound. */
  lemma NameRoundTrip(out: seq<Byte>, bufLen: nat, name: Name, compress: bool, table: seq<Entry>, p: seq<Byte>, outLen: nat)
    requires TableOk(out, table) && Narrow(table)
    requires Encode(out, bufLen, name, compress, table).Encoded?
    requires Encode(out, bufLen, name, compress, table).out <= p && |name| < outLen
    ensures var r := Encode(out, bufLen, name, compress, table);
      && TableOk(r.out, r.table)
      && Parse(p, |out|, outLen) == Good(Readable(name), EndOf(r.out, |out|))
      && (Readable(name) == name <==> name == [] || NoEmpty(Labels(name)))
      && EndsRight(r.out, |out|, table, name, compress)
  {
    var r := Encode(out, bufLen, name, compress, table);
    EncodeAppends(out, bufLen, name, compress, table);
    EncodeStores(out, out, bufLen, name, compress, table, table);
    EncodeTable(out, out, bufLen, name, compress, table, table);
    EncodeEnds(out, bufLen, name, compress, table);
    ReadableIff(name);
    EndGrows(r.out, p, |out|, |out|, Meaning(name));
    StoredGrows(r.out, p, |out|, |out|, |out|, Meaning(name));
    StoredParses(p, |out|, |out|, Meaning(name), -1, 0, [], outLen);
    TableGrows(out, r.out, table);
  }

  lemma TableGrows(p: seq<Byte>, p': seq<Byte>, table: seq<Entry>)
    requires TableOk(p, table) && p <= p'
    ensures TableOk(p', table)
  {
    forall e | e in table ensures EntryOk(p', e) {
      assert EntryOk(p, e);
      StoredGrows(p, p', e.pos, e.pos, e.pos, Meaning(e.v));
    }
  }

  lemma ReadableIff(name: Name)
    ensures Readable(name) == name <==> name == [] || NoEmpty(Labels(name))
    ensures |Readable(name)| <= |name|
  {
    FullLabels(name);
    if AllFull(name) {
      DottedLabels([], name);
    } else {
      DottedShort([], name);
      MeaningStep(name);
    }
  }

  /** The table only grows, by entries for positions inside the buffer. */
  lemma {:induction false} EncodeTableGrows(out: seq<Byte>, bufLen: nat, name: Name, compress: bool, table: seq<Entry>)
    ensures table <= EncodeFrom(out, bufLen, name, compress, table).table
    ensures forall e :: e in EncodeFrom(out, bufLen, name, compress, table).table ==> e in table || e.pos < bufLen
    decreases |name|
  {
    var k := FirstDot(name);
    if !(compress && GetPos(table, name) >= 0) && k < |name| && k <= 63 && |out| + k + 1 <= bufLen {
      EncodeTableGrows(out + [k] + name[..k], bufLen, name[k + 1..], compress, if compress then Added(table, name, |out|) else table);
    }
  }

  // ---- Whole packets -------------------------------------------------------

  /** What a packet is built of: names, and other fields of fixed content. */
  datatype Item = NameItem(name: Name) | RawItem(bytes: seq<Byte>)

  datatype Mark = Mark(start: nat, name: Name, end: nat)

  /** A packet under construction; the marks remember what was put where. */
  datatype Packet = Packet(out: seq<Byte>, table: seq<Entry>, marks: seq<Mark>) | Overflow

  function AddItem(s: Packet, bufLen: nat, item: Item): Packet
    requires s.Packet?
  {
    match item
    case RawItem(bytes) =>
      if |s.out| + |bytes| > bufLen then Overflow else s.(out := s.out + bytes)
    case NameItem(name) =>
      var r := Encode(s.out, bufLen, name, true, s.table);
      if r.Failed? then Overflow
      else Packet(r.out, r.table, s.marks + [Mark(|s.out|, name, |r.out|)])
  }

  function Build(bufLen: nat, items: seq<Item>): Packet {
    if items == [] then Packet([], [], [])
    else
      var s := Build(bufLen, items[..|items| - 1]);
      if s.Overflow? then s else AddItem(s, bufLen, items[|items| - 1])
  }

  /** The mark reads back, now and whatever is appended later. */
  ghost predicate MarkOk(out: seq<Byte>, m: Mark) {
    && m.start < |out| && |m.name| <= 255
    && forall p, outLen: nat :: out <= p && |m.name| < outLen ==>
         && Parse(p, m.start, outLen).Good?
         && Parse(p, m.start, outLen).name == Readable(m.name)
         && (!InnerEmpty(m.name) ==> Parse(p, m.start, outLen).next == m.end)
  }

  lemma {:induction false} BuildOk(bufLen: nat, items: seq<Item>)
    requires Build(bufLen, items).Packet? && Narrow(Build(bufLen, items).table)
    ensures TableOk(Build(bufLen, items).out, Build(bufLen, items).table)
    ensures forall m :: m in Build(bufLen, items).marks ==> MarkOk(Build(bufLen, items).out, m)
  {
    if items != [] {
      var s, s' := Build(bufLen, items[..|items| - 1]), Build(bufLen, items);
      var item := items[|items| - 1];
      if item.RawItem? {
        BuildOk(bufLen, items[..|items| - 1]);
        TableGrows(s.out, s'.out, s.table);
      } else {
        EncodeTableGrows(s.out, bufLen, item.name, true, s.table);
        assert Narrow(s.table) by { assert forall e :: e in s.table ==> e in s'.table; }
        BuildOk(bufLen, items[..|items| - 1]);
        NewMarkOk(s, bufLen, item.name);
      }
    }
  }

  lemma NewMarkOk(s: Packet, bufLen: nat, name: Name)
    requires s.Packet? && AddItem(s, bufLen, NameItem(name)).Packet?
    requires Narrow(s.table) && TableOk(s.out, s.table)
    ensures var s' := AddItem(s, bufLen, NameItem(name));
      s.out <= s'.out && TableOk(s'.out, s'.table) && MarkOk(s'.out, Mark(|s.out|, name, |s'.out|))
  {
    var s' := AddItem(s, bufLen, NameItem(name));
    EncodeAppends(s.out, bufLen, name, true, s.table);
    HiddenInner(s.table, name, true);
    NameRoundTrip(s.out, bufLen, name, true, s.table, s'.out, |name| + 1);
    forall p, outLen: nat | s'.out <= p && |name| < outLen
      ensures Parse(p, |s.out|, outLen).Good? && Parse(p, |s.out|, outLen).name == Readable(name)
      ensures !InnerEmpty(name) ==> Parse(p, |s.out|, outLen).next == |s'.out|
    {
      NameRoundTrip(s.out, bufLen, name, true, s.table, p, outLen);
    }
  }

  lemma {:induction false} NoEmptyInner(name: Name)
    requires name == [] || NoEmpty(Labels(name))
    ensures !InnerEmpty(name)
    decreases |name|
  {
    var k := FirstDot(name);
    if k < |name| {
      LabelsStep(name);
      NoEmptyInner(name[k + 1..]);
    }
  }

  /** In a packet of at most 16 KB every position has fourteen bits. */
  lemma {:induction false} SmallPacketNarrow(bufLen: nat, items: seq<Item>)
    requires bufLen <= 0x4000 && Build(bufLen, items).Packet?
    ensures Narrow(Build(bufLen, items).table)
  {
    if items != [] {
      var s := Build(bufLen, items[..|items| - 1]);
      SmallPacketNarrow(bufLen, items[..|items| - 1]);
      if items[|items| - 1].NameItem? {
        EncodeTableGrows(s.out, bufLen, items[|items| - 1].name, true, s.table);
      }
    }
  }

  /** The buffer of evdns_server_request_format_response, the one caller with a table */
  const RESPONSE_SIZE := 1500

  /** Any number of names with one shared table in a packet of at most 16 KB, and so in every
      response: each well-formed name is read back exactly, into the 256-byte buffers the callers
      use, and the parser ends just past it. */
  lemma PacketRoundTrip(bufLen: nat, items: seq<Item>, m: Mark)
    requires bufLen <= 0x4000 && Build(bufLen, items).Packet? && m in Build(bufLen, items).marks
    requires m.name == [] || NoEmpty(Labels(m.name))
    ensures Parse(Build(bufLen, items).out, m.start, 256) == Good(m.name, m.end)
  {
    SmallPacketNarrow(bufLen, items);
    WidePacketRoundTrip(bufLen, items, m);
  }

  /** The same for a packet of any size, as long as no table entry is at or beyond 16 KB. */
  lemma WidePacketRoundTrip(bufLen: nat, items: seq<Item>, m: Mark)
    requires Build(bufLen, items).Packet? && m in Build(bufLen, items).marks
    requires Narrow(Build(bufLen, items).table)
    requires m.name == [] || NoEmpty(Labels(m.name))
    ensures Parse(Build(bufLen, items).out, m.start, 256) == Good(m.name, m.end)
  {
    BuildOk(bufLen, items);
    assert MarkOk(Build(bufLen, items).out, m);
    ReadableIff(m.name);
    NoEmptyInner(m.name);
  }

  /** With a larger buffer than any caller has the code would fail: an entry at offset 0x4000 for
      "a", used for a second "a", becomes a pointer to offset 0, and the empty name is read. */
  lemma WideOffsetBreaks() returns (out: seq<Byte>, table: seq<Entry>)
    ensures TableOk(out, table) && Encode(out, 0x4005, [97], true, table).Encoded?
    ensures Parse(Encode(out, 0x4005, [97], true, table).out, |out|, 256) == Good([], |out| + 2)
  {
    out := seq(0x4000, _ => 0) + [1, 97, 0];
    table := [Entry([97], 0x4000)];
    assert out[0x4000] == 1 && out[0x4001] == 97 && out[0x4002] == 0;
    assert FirstDot([97]) == 1;
    assert Meaning([97]) == [[97]] by { MeaningStep([97]); }
    assert out[0x4001..0x4002] == [97];
    var q := out + [192, 0];
    assert Encode(out, 0x4005, [97], true, table) == Encoded(q, table);
    assert q[|out|] == 192 && q[|out| + 1] == 0 && q[0] == 0;
    assert Target(192, 0) == 0;
    assert ParseFrom(q, 0, |out| + 2, 1, [], 256) == Good([], |out| + 2);
  }

  // ---- The unchecked terminator --------------------------------------------

  lemma LastByte(out: seq<Byte>, k: Byte, name: Name)
    requires k == |name|
    ensures var w := out + [k] + name[..k];
      w[|w| - 1] == 0 <==> name == []
  {
    assert name[..k] == name;
  }

  /** Every label fits in its length byte. */
  predicate LabelsShort(name: Name)
    decreases |name|
  {
    var k := FirstDot(name);
    k <= 63 && (k < |name| ==> LabelsShort(name[k + 1..]))
  }

  /** What becomes of a name of which no part is in the table: whether it is written, and its exact
      size: one byte for each label's length in place of its dot, one for the first, and the
      terminator unless the last label is empty. */
  lemma {:induction false} PlainSize(out: seq<Byte>, bufLen: nat, name: Name, compress: bool, table: seq<Entry>)
    requires compress ==> Unshared(table, name)
    ensures var r := EncodeFrom(out, bufLen, name, compress, table);
      && (r.Encoded? <==> LabelsShort(name) && |out| + |name| + 1 <= bufLen)
      && (r.Encoded? ==> |r.out| == |out| + |name| + if name == [] || name[|name| - 1] == DOT then 1 else 2)
    decreases |name|
  {
    var k := FirstDot(name);
    if k < |name| {
      LongerUnshared(table, name, |out|, name[k + 1..]);
      if k <= 63 {
        PlainSize(out + [k] + name[..k], bufLen, name[k + 1..], compress, if compress then Added(table, name, |out|) else table);
      }
    } else if k <= 63 {
      LastByte(out, k, name);
    }
  }

  /** A name that ends in a pointer stays in the buffer. */
  lemma {:induction false} SharedFits(out: seq<Byte>, bufLen: nat, name: Name, table: seq<Entry>)
    requires EncodeFrom(out, bufLen, name, true, table).Encoded? && !Unshared(table, name)
    ensures |EncodeFrom(out, bufLen, name, true, table).out| <= bufLen
    decreases |name|
  {
    var k := FirstDot(name);
    if GetPos(table, name) < 0 && k < |name| {
      var out', table' := EncodeLabel(out, bufLen, name, true, table);
      LongerUnshared(table, name, |out|, name[k + 1..]);
      SharedFits(out', bufLen, name[k + 1..], table');
    }
  }

  /** The name fits but for its terminator, which nothing checks. */
  ghost predicate Overruns(start: nat, bufLen: nat, name: Name, compress: bool, table: seq<Entry>) {
    && (compress ==> Unshared(table, name)) && |name| <= 255 && LabelsShort(name)
    && name != [] && name[|name| - 1] != DOT && start + |name| + 1 == bufLen
  }

  /** Exactly then the encoder writes behind the buffer it was given, and then one byte. */
  lemma OverrunExact(out: seq<Byte>, bufLen: nat, name: Name, compress: bool, table: seq<Entry>)
    ensures var r := Encode(out, bufLen, name, compress, table);
      && (r.Encoded? ==> |r.out| <= bufLen + 1)
      && (r.Encoded? && |r.out| > bufLen <==> Overruns(|out|, bufLen, name, compress, table))
  {
    if |name| <= 255 {
      if compress && !Unshared(table, name) {
        if EncodeFrom(out, bufLen, name, true, table).Encoded? {
          SharedFits(out, bufLen, name, table);
        }
      } else {
        PlainSize(out, bufLen, name, compress, table);
      }
    }
  }

  lemma BuildMore(bufLen: nat, items: seq<Item>, item: Item)
    ensures var s := Build(bufLen, items); Build(bufLen, items + [item]) == if s.Overflow? then s else AddItem(s, bufLen, item)
  {
    assert (items + [item])[..|items|] == items;
  }

  /** Two records, whatever the first one holds: header, the root name, the ten bytes of its fixed
      fields and 1475 of data, and then the name of the second one. */
  function TwoRecords(header: seq<Byte>, rest: seq<Byte>): seq<Item> {
    [RawItem(header)] + [NameItem([])] + [RawItem(rest)] + [NameItem([97])]
  }

  /** The first name is one byte, and leaves an entry for itself. */
  lemma RootName(bufLen: nat, header: seq<Byte>, root: Name)
    requires root == [] && |header| < bufLen
    ensures var s := Build(bufLen, [RawItem(header)] + [NameItem(root)]); s.Packet? && |s.out| == |header| + 1 && s.table == [Entry(root, |header|)]
  {
    BuildMore(bufLen, [], RawItem(header));
    assert [] + [RawItem(header)] == [RawItem(header)];
    var s := Build(bufLen, [RawItem(header)]);
    BuildMore(bufLen, [RawItem(header)], NameItem(root));
    PlainSize(s.out, bufLen, root, true, s.table);
  }

  /** A response can be such a case: 1498 bytes, then "a", make 1501 in a buffer of 1500. */
  lemma ResponseOverruns(header: seq<Byte>, rest: seq<Byte>)
    requires |header| == 12 && |rest| == 10 + 1475
    ensures var r := Build(RESPONSE_SIZE, TwoRecords(header, rest)); r.Packet? && |r.out| == RESPONSE_SIZE + 1
  {
    var items := [RawItem(header)] + [NameItem([])];
    RootName(RESPONSE_SIZE, header, []);
    BuildMore(RESPONSE_SIZE, items, RawItem(rest));
    BuildMore(RESPONSE_SIZE, items + [RawItem(rest)], NameItem([97]));
    var s := Build(RESPONSE_SIZE, items + [RawItem(rest)]);
    assert FirstDot([97]) == 1 && Unshared(s.table, [97]);
    PlainSize(s.out, RESPONSE_SIZE, [97], true, s.table);
  }

  /** The request builder's own buffer is large enough for its twelve header
      bytes, any name it accepts, and the four bytes that follow. */
  lemma RequestBufferSuffices(header: seq<Byte>, name: Name)
    requires |header| == 12 && Encode(header, 96 + |name| + 2 + 4, name, false, []).Encoded?
    ensures |Encode(header, 96 + |name| + 2 + 4, name, false, []).out| + 4 <= 96 + |name| + 2 + 4
  {
    PlainSize(header, 96 + |name| + 2 + 4, name, false, []);
  }
}
