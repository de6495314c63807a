/** The C functions themselves, over byte arrays and a mutable label table. */
module DnsCodec {
  import opened DnsName

  class LabelTable {
    var labels: seq<Entry>

    constructor ()
      ensures labels == []
    {
      labels := [];
    }

    /** dnslabel_table_get_pos */
    method GetPos(text: Name) returns (pos: int)
      ensures pos == DnsName.GetPos(labels, text)
    {
      var i := 0;
      while i < |labels|
        invariant i <= |labels|
        invariant DnsName.GetPos(labels, text) == DnsName.GetPos(labels[i..], text)
      {
        if labels[i].v == text {
          return labels[i].pos;
        }
        i := i + 1;
      }
      return -1;
    }

    /** dnslabel_table_add; a full table silently keeps what it has. */
    method Add(text: Name, pos: nat)
      modifies this
      ensures labels == Added(old(labels), text, pos)
    {
      if |labels| == MAX_LABELS {
        return;
      }
      labels := labels + [Entry(text, pos)];
    }
  }

  ghost function Table(t: LabelTable?): seq<Entry>
    reads t
  {
    if t == null then [] else t.labels
  }

  ghost predicate KeptFrom(was: seq<Byte>, now: seq<Byte>, lo: nat) {
    |was| == |now| && forall i :: lo <= i < |was| ==> now[i] == was[i]
  }

  /** memcpy(buf + j, bytes, |bytes|) */
  method Store(buf: array<Byte>, j: nat, bytes: seq<Byte>)
    requires j + |bytes| <= buf.Length
    modifies buf
    ensures buf[..j + |bytes|] == old(buf[..j]) + bytes
    ensures KeptFrom(old(buf[..]), buf[..], j + |bytes|)
  {
    forall i | 0 <= i < |bytes| {
      buf[j + i] := bytes[i];
    }
  }

  /** A length byte and the label it announces. */
  method StoreLabel(buf: array<Byte>, j: nat, text: Name)
    requires j + 1 + |text| <= buf.Length && |text| <= 63
    modifies buf
    ensures buf[..j + 1 + |text|] == old(buf[..j]) + [|text|] + text
    ensures KeptFrom(old(buf[..]), buf[..], j + 1 + |text|)
  {
    Store(buf, j, [|text|]);
    Store(buf, j + 1, text);
  }

  /** Remember where the name text starts, and write its first label. */
  method PutLabel(buf: array<Byte>, j: nat, text: Name, labelLen: nat, table: LabelTable?)
    requires labelLen <= |text| && labelLen <= 63 && j + labelLen + 1 <= buf.Length
    modifies buf, table
    ensures buf[..j + 1 + labelLen] == old(buf[..j]) + [labelLen] + text[..labelLen]
    ensures Table(table) == if table != null then Added(old(Table(table)), text, j) else []
    ensures KeptFrom(old(buf[..]), buf[..], j + 1 + labelLen)
  {
    if table != null {
      table.Add(text, j);
    }
    StoreLabel(buf, j, text[..labelLen]);
  }

  /** The j bytes in front of the next one; a caller may have skipped some behind the buffer. */
  ghost function Written(buf: array<Byte>, j: nat): (r: seq<Byte>)
    reads buf
    ensures |r| == j
  {
    if j <= buf.Length then buf[..j] else buf[..] + seq(j - buf.Length, _ => 0)
  }

  /** The zero byte that ends the labels in out, unless the last one is empty. */
  ghost function Closed(out: seq<Byte>): seq<Byte>
    requires out != []
  {
    if out[|out| - 1] != 0 then out + [0] else out
  }

  /** One turn of the loop of dnsname_to_labels, which writes a pointer or a label. */
  method PutNext(buf: array<Byte>, bufLen: nat, j: nat, rest: Name, table: LabelTable?) returns (r: int, pointed: bool)
    requires bufLen <= buf.Length
    modifies buf, table
    ensures var e := EncodeFrom(old(Written(buf, j)), bufLen, rest, table != null, old(Table(table)));
      && (r < 0 ==> e == Failed(r, Table(table)) && buf[..] == old(buf[..]))
      && (r >= 0 ==> j < r <= bufLen && e == if pointed then Encoded(buf[..r], Table(table)) else Further(buf[..r], bufLen, rest, table))
    ensures KeptFrom(old(buf[..]), buf[..], if r >= 0 then r else 0)
  {
    pointed := false;
    if table != null {
      var ref := table.GetPos(rest);
      if ref >= 0 {
        if j + 2 > bufLen {
          return -2, false;
        }
        Store(buf, j, Pointer(ref));
        return j + 2, true;
      }
    }
    var labelLen := FirstDot(rest);
    if labelLen > 63 {
      return -1, false;
    }
    if j + labelLen + 1 > bufLen {
      return -2, false;
    }
    PutLabel(buf, j, rest, labelLen, table);
    return j + 1 + labelLen, false;
  }

  /** What the encoding comes to when the first label of rest is in out already. */
  ghost function Further(out: seq<Byte>, bufLen: nat, rest: Name, table: LabelTable?): Encoded
    requires out != []
    reads table
  {
    var k := FirstDot(rest);
    if k < |rest| then EncodeFrom(out, bufLen, rest[k + 1..], table != null, Table(table))
    else Encoded(Closed(out), Table(table))
  }

  /** The loop of dnsname_to_labels, which ends in an error, behind a pointer, or with labels still open. */
  method PutLabels(buf: array<Byte>, bufLen: nat, j0: nat, name: Name, table: LabelTable?) returns (r: int, open: bool)
    requires bufLen <= buf.Length
    modifies buf, table
    ensures var e := EncodeFrom(old(Written(buf, j0)), bufLen, name, table != null, old(Table(table)));
      && (table != null ==> table.labels == e.table)
      && (e.Failed? ==> r == e.code < 0)
      && (e.Encoded? ==> 0 < r <= bufLen && e.out == if open then Closed(buf[..r]) else buf[..r])
    ensures KeptFrom(old(buf[..]), buf[..], if r >= 0 then r else bufLen)
  {
    ghost var e := EncodeFrom(Written(buf, j0), bufLen, name, table != null, Table(table));
    var rest: Name, j: nat := name, j0;
    while true
      invariant j <= bufLen || j == j0
      invariant EncodeFrom(Written(buf, j), bufLen, rest, table != null, Table(table)) == e
      invariant KeptFrom(old(buf[..]), buf[..], if j <= bufLen then j else bufLen)
      decreases |rest|
    {
      var pointed;
      r, pointed := PutNext(buf, bufLen, j, rest, table);
      if r < 0 || pointed {
        return r, false;
      }
      var labelLen := FirstDot(rest);
      if labelLen == |rest| {
        return r, true;
      }
      rest, j := rest[labelLen + 1..], r;
    }
  }

  /** The zero byte that ends the labels, unless the name has written it. */
  method Terminate(buf: array<Byte>, j: nat) returns (end: nat)
    requires 0 < j <= buf.Length && (buf[j - 1] != 0 ==> j < buf.Length)
    modifies buf
    ensures j <= end <= j + 1 && end <= buf.Length && KeptFrom(old(buf[..]), buf[..], end)
    ensures buf[..end] == Closed(old(buf[..j]))
  {
    end := j;
    if buf[j - 1] != 0 {
      buf[j] := 0;
      end := j + 1;
    }
  }

  /** dnsname_to_labels, on a buffer of bufLen bytes.  It needs one byte more exactly when the name
      fits but for the final terminator, which is written unchecked. */
  method DnsnameToLabels(buf: array<Byte>, bufLen: nat, j0: nat, name: Name, table: LabelTable?) returns (r: int)
    requires bufLen <= buf.Length
    requires Overruns(j0, bufLen, name, table != null, Table(table)) ==> bufLen < buf.Length
    modifies buf, table
    ensures var e := Encode(old(Written(buf, j0)), bufLen, name, table != null, old(Table(table)));
      && (table != null ==> table.labels == e.table)
      && (e.Failed? ==> r == e.code < 0)
      && (e.Encoded? ==> 0 <= r <= buf.Length && buf[..r] == e.out)
    ensures KeptFrom(old(buf[..]), buf[..], if r >= 0 then r else bufLen)
  {
    OverrunExact(Written(buf, j0), bufLen, name, table != null, Table(table));
    if |name| > 255 {
      return -2;
    }
    var open;
    r, open := PutLabels(buf, bufLen, j0, name, table);
    if open && r >= 0 {
      r := Terminate(buf, r);
    }
  }

  /** The label branch of name_parse: a dot unless this is the first label, then
      labelLen bytes from packet[j..]. */
  method CopyLabel(packet: array<Byte>, length: nat, j: nat, labelLen: nat, nameOut: array<Byte>, cp: nat)
    returns (ok: bool, cp': nat)
    requires length <= packet.Length && packet != nameOut
    requires cp == 0 || cp < nameOut.Length
    modifies nameOut
    ensures ok <==> ((cp == 0 || cp + 1 < nameOut.Length) &&
                     |Joint(old(nameOut[..cp]))| + labelLen < nameOut.Length && j + labelLen <= length)
    ensures ok ==> cp' < nameOut.Length && nameOut[..cp'] == Joint(old(nameOut[..cp])) + packet[j..j + labelLen]
  {
    ok, cp' := false, cp;
    if cp' != 0 {
      if cp' + 1 >= nameOut.Length {
        return;
      }
      nameOut[cp'] := DOT;
      cp' := cp' + 1;
    }
    assert nameOut[..cp'] == Joint(old(nameOut[..cp]));
    if cp' + labelLen >= nameOut.Length || j + labelLen > length {
      return;
    }
    Store(nameOut, cp', packet[j..j + labelLen]);
    ok, cp' := true, cp' + labelLen;
  }

  lemma SamePart(packet: array<Byte>, length: nat, j: nat, n: nat)
    requires length <= packet.Length
    ensures j + n <= length ==> packet[j..j + n] == packet[..length][j..j + n]
  {
    if j + n <= length {
      var a, b := packet[j..j + n], packet[..length][j..j + n];
      assert |a| == |b| && forall i :: 0 <= i < n ==> a[i] == b[i];
    }
  }

  /** name_parse on the first length bytes of packet.  On success nameOut holds
      the NUL-terminated name; the result is its length and the new *idx. */
  method NameParse(packet: array<Byte>, length: nat, idx: nat, nameOut: array<Byte>)
    returns (ok: bool, nameLen: nat, idx': nat)
    requires length <= packet.Length && packet != nameOut
    modifies nameOut
    ensures var r := Parse(packet[..length], idx, nameOut.Length);
      && (ok <==> r.Good?)
      && (ok ==> nameLen < nameOut.Length && nameOut[..nameLen] == r.name && nameOut[nameLen] == 0)
      && (ok ==> idx' == r.next)
  {
    ghost var p := packet[..length];
    ghost var r := Parse(p, idx, nameOut.Length);
    ok, nameLen, idx' := false, 0, idx;
    var nameEnd: int, j: nat, ptrCount: nat, cp: nat := -1, idx, 0, 0;
    while true
      invariant packet[..length] == p && -1 <= nameEnd && ptrCount <= length
      invariant cp <= nameOut.Length && (cp == 0 || cp < nameOut.Length)
      invariant ParseFrom(p, j, nameEnd, ptrCount, nameOut[..cp], nameOut.Length) == r
      decreases length - ptrCount, length - j
    {
      if j >= length {
        return;
      }
      var labelLen := packet[j];
      j := j + 1;
      if labelLen == 0 {
        break;
      }
      if labelLen >= 64 {
        if j >= length {
          return;
        }
        var ptrLow := packet[j];
        j := j + 1;
        if nameEnd < 0 {
          nameEnd := j;
        }
        j := Target(labelLen, ptrLow);
        if j >= length {
          return;
        }
        ptrCount := ptrCount + 1;
        if ptrCount > length {
          return;
        }
      } else {
        SamePart(packet, length, j, labelLen);
        assert p[j - 1] == labelLen;
        ghost var out := nameOut[..cp];
        var fits;
        fits, cp := CopyLabel(packet, length, j, labelLen, nameOut, cp);
        if !fits {
          return;
        }
        assert nameOut[..cp] == Joint(out) + p[j..j + labelLen];
        j := j + labelLen;
      }
    }
    if cp >= nameOut.Length {
      return;
    }
    nameOut[cp] := 0;
    ok, nameLen := true, cp;
    idx' := if nameEnd < 0 then j else nameEnd;
  }
}
