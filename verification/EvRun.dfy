/** Runs of net/libevent/src/buffer.c: any sequence of calls on two buffers does to their blocks
    what a fold over two byte sequences does to the bytes, in whatever order bytes are put in, taken
    out and moved from one buffer to the other. */
module EvRuns {
  import opened EvChain
  import opened EvBuffers

  // ---- The calls on byte sequences -----------------------------------------

  datatype Op =
    | OpAdd(data: seq<Byte>)
    | OpPrepend(data: seq<Byte>)
    | OpDrain(n: nat)
    | OpCopyout(n: nat)
    | OpRemove(n: nat)
    | OpAddBuffer
    | OpRemoveBuffer(n: nat)
    | OpPullup(size: int)
    | OpExpand(n: nat)

  /** A call on the first buffer with the second as the other one, or the other way round. */
  datatype Step = Step(op: Op, onSecond: bool)

  datatype Two = Two(x: seq<Byte>, y: seq<Byte>)

  /** The first n elements, or all */
  function Front(s: seq<Byte>, n: nat): seq<Byte> {
    if n <= |s| then s[..n] else s
  }

  function Rest(s: seq<Byte>, n: nat): seq<Byte> {
    if n <= |s| then s[n..] else []
  }

  /** What a call on x leaves; y is the buffer that bytes come from or go to. */
  function Done(op: Op, s: Two): Two {
    match op
    case OpAdd(data) => s.(x := s.x + data)
    case OpPrepend(data) => s.(x := data + s.x)
    case OpDrain(n) => s.(x := Rest(s.x, n))
    case OpRemove(n) => s.(x := Rest(s.x, n))
    case OpAddBuffer => Two(s.x + s.y, [])
    case OpRemoveBuffer(n) => Two(Rest(s.x, n), s.y + Front(s.x, n))
    case _ => s
  }

  /** What a call on x gives out */
  function Output(op: Op, s: Two): seq<Byte> {
    match op
    case OpCopyout(n) => Front(s.x, n)
    case OpRemove(n) => Front(s.x, n)
    case _ => []
  }

  function Turned(s: Two, second: bool): Two {
    if second then Two(s.y, s.x) else s
  }

  /** The two byte sequences after a run */
  function After(steps: seq<Step>): Two {
    if steps == [] then Two([], [])
    else
      var last := steps[|steps| - 1];
      Turned(Done(last.op, Turned(After(steps[..|steps| - 1]), last.onSecond)), last.onSecond)
  }

  /** What its calls give out */
  function Outputs(steps: seq<Step>): seq<seq<Byte>> {
    if steps == [] then []
    else
      var n := |steps| - 1;
      Outputs(steps[..n]) + [Output(steps[n].op, Turned(After(steps[..n]), steps[n].onSecond))]
  }

  /** A single call brings no more bytes than one block can hold. */
  predicate Small(op: Op) {
    (op.OpAdd? || op.OpPrepend? ==> |op.data| <= EVBUFFER_CHAIN_MAX - EVBUFFER_CHAIN_SIZE)
  }

  predicate SumFits(s: Two) {
    |s.x| + |s.y| <= EV_SIZE_MAX
  }

  /** All bytes fit in the address space, at every moment. */
  ghost predicate Fits(steps: seq<Step>) {
    && (forall i :: 0 <= i < |steps| ==> Small(steps[i].op))
    && (forall i :: 0 <= i <= |steps| ==> SumFits(After(steps[..i])))
  }

  // ---- The calls on buffers ------------------------------------------------

  /** Two buffers in use that share nothing */
  ghost predicate Ready(x: EvBuffer, y: EvBuffer)
    reads x, y, Memory(x.chains), Memory(y.chains)
  {
    && x != y && x.Valid() && y.Valid() && Memory(x.chains) !! Memory(y.chains)
    && !x.freezeStart && !x.freezeEnd && !y.freezeStart && !y.freezeEnd
  }

  ghost function Now(x: EvBuffer, y: EvBuffer): Two
    reads x, y
  {
    Two(x.Bytes(), y.Bytes())
  }

  /** Blocks that share no memory are apart, and the other way round. */
  lemma ApartMemory(cs: seq<Chain>, cs': seq<Chain>)
    requires Apart(cs) && Apart(cs')
    ensures Memory(cs) !! Memory(cs') <==> Apart(cs + cs')
  {
    var all := cs + cs';
    if Memory(cs) !! Memory(cs') {
      forall i, j | 0 <= i < j < |all|
        ensures Differ(all, i, j)
      {
        if j < |cs| {
          assert Differ(cs, i, j);
        } else if i >= |cs| {
          assert Differ(cs', i - |cs|, j - |cs|);
        } else {
          Among(cs, i);
          Among(cs', j - |cs|);
        }
      }
    }
    if Apart(all) {
      forall c, c' | c in cs && c' in cs'
        ensures c != c' && c.buffer != c'.buffer
      {
        var i :| 0 <= i < |cs| && cs[i] == c;
        var j :| 0 <= j < |cs'| && cs'[j] == c';
        assert Differ(all, i, |cs| + j);
      }
    }
  }

  /** The calls that leave the other buffer alone */
  method CallAlone(x: EvBuffer, ghost y: EvBuffer, op: Op) returns (out: seq<Byte>)
    requires Ready(x, y) && Small(op) && !op.OpAddBuffer? && !op.OpRemoveBuffer? && SumFits(Done(op, Now(x, y)))
    modifies x`chains, x`lwd, x`totalLen, x`datas, Memory(x.chains)
    ensures Ready(x, y) && Now(x, y) == Done(op, old(Now(x, y))) && out == Output(op, old(Now(x, y)))
    ensures forall o :: o in Memory(x.chains) ==> o in old(Memory(x.chains)) || fresh(o)
  {
    out := CallOne(x, op);
    Untouched(y);
  }

  /** y is as it was when nothing of it was written. */
  twostate lemma Untouched(y: EvBuffer)
    requires old(y.Valid()) && unchanged(y) && unchanged(old(Memory(y.chains)))
    ensures y.Valid() && y.Bytes() == old(y.Bytes()) && Memory(y.chains) == old(Memory(y.chains))
  {
  }

  method CallOne(x: EvBuffer, op: Op) returns (out: seq<Byte>)
    requires x.Valid() && !x.freezeStart && !x.freezeEnd && Small(op) && !op.OpAddBuffer? && !op.OpRemoveBuffer?
    requires |Done(op, Two(x.Bytes(), [])).x| <= EV_SIZE_MAX
    modifies x`chains, x`lwd, x`totalLen, x`datas, Memory(x.chains)
    ensures x.Valid()
    ensures x.Bytes() == Done(op, Two(old(x.Bytes()), [])).x && out == Output(op, Two(old(x.Bytes()), []))
    ensures forall o :: o in Memory(x.chains) ==> o in old(Memory(x.chains)) || fresh(o)
  {
    out := [];
    if op.OpDrain? || op.OpCopyout? || op.OpRemove? {
      out := CallReading(x, op);
    } else if op.OpPullup? {
      var ok := x.Pullup(op.size, true);
    } else {
      CallGrowing(x, op);
    }
  }

  method CallReading(x: EvBuffer, op: Op) returns (out: seq<Byte>)
    requires x.Valid() && !x.freezeStart && (op.OpDrain? || op.OpCopyout? || op.OpRemove?)
    modifies x`chains, x`lwd, x`totalLen, x`datas, Memory(x.chains)
    ensures x.Valid() && Memory(x.chains) <= old(Memory(x.chains))
    ensures x.Bytes() == Done(op, Two(old(x.Bytes()), [])).x && out == Output(op, Two(old(x.Bytes()), []))
  {
    out := [];
    var r;
    ghost var bytes := x.Bytes();
    assert bytes[0..] == bytes && bytes[..|bytes|] == bytes;
    if op.OpDrain? {
      r := x.Drain(op.n);
    } else if op.OpCopyout? {
      r, out := x.CopyoutFrom(Beginning, op.n);
    } else {
      r, out := x.Remove(op.n);
      assert bytes[|out|..] == x.Bytes();
    }
  }

  method CallGrowing(x: EvBuffer, op: Op)
    requires x.Valid() && !x.freezeStart && !x.freezeEnd && Small(op) && (op.OpAdd? || op.OpPrepend? || op.OpExpand?)
    requires |Done(op, Two(x.Bytes(), [])).x| <= EV_SIZE_MAX
    modifies x`chains, x`lwd, x`totalLen, x`datas, Memory(x.chains)
    ensures x.Valid() && x.Bytes() == Done(op, Two(old(x.Bytes()), [])).x
    ensures forall o :: o in Memory(x.chains) ==> o in old(Memory(x.chains)) || fresh(o)
  {
    if x.lwd < |x.chains| {
      Among(x.chains, x.lwd);
    }
    if x.chains != [] {
      Among(x.chains, 0);
    }
    if op.OpAdd? {
      var r := x.Add(op.data, true);
    } else if op.OpPrepend? {
      var r := x.Prepend(op.data, true);
    } else {
      var c := x.ExpandSinglechain(op.n, true);
    }
  }

  /** Any call; the contracts of the buffer give the call on byte sequences. */
  method Call(x: EvBuffer, y: EvBuffer, op: Op) returns (out: seq<Byte>)
    requires Ready(x, y) && Small(op) && SumFits(Now(x, y)) && SumFits(Done(op, Now(x, y)))
    modifies x`chains, x`lwd, x`totalLen, x`datas, y`chains, y`lwd, y`totalLen, y`datas
    modifies Memory(x.chains), Memory(y.chains)
    ensures Ready(x, y) && Now(x, y) == Done(op, old(Now(x, y))) && out == Output(op, old(Now(x, y)))
    ensures forall o :: o in Memory(x.chains) ==> o in old(Memory(x.chains)) || o in old(Memory(y.chains)) || fresh(o)
    ensures forall o :: o in Memory(y.chains) ==> o in old(Memory(x.chains)) || o in old(Memory(y.chains)) || fresh(o)
  {
    if op.OpAddBuffer? || op.OpRemoveBuffer? {
      out := [];
      CallBoth(x, y, op);
    } else {
      out := CallAlone(x, y, op);
    }
  }

  method CallBoth(x: EvBuffer, y: EvBuffer, op: Op)
    requires Ready(x, y) && (op.OpAddBuffer? || op.OpRemoveBuffer?) && SumFits(Now(x, y))
    modifies x`chains, x`lwd, x`totalLen, x`datas, y`chains, y`lwd, y`totalLen, y`datas
    modifies Memory(x.chains), Memory(y.chains)
    ensures Ready(x, y) && Now(x, y) == Done(op, old(Now(x, y)))
    ensures forall o :: o in Memory(x.chains) ==> o in old(Memory(x.chains)) || o in old(Memory(y.chains)) || fresh(o)
    ensures forall o :: o in Memory(y.chains) ==> o in old(Memory(x.chains)) || o in old(Memory(y.chains)) || fresh(o)
  {
    ghost var bytes := x.Bytes();
    ApartMemory(x.chains, y.chains);
    var r;
    if op.OpAddBuffer? {
      r := x.AddBuffer(y);
    } else {
      ghost var kept;
      r, kept := x.RemoveBuffer(y, op.n, true);
      assert bytes[..|bytes|] == bytes && bytes[|bytes|..] == [];
      assert y.Bytes() + [] == y.Bytes();
    }
    ApartParts(x.chains, y.chains);
    ApartMemory(x.chains, y.chains);
    forall o | o in Memory(x.chains) || o in Memory(y.chains)
      ensures o in old(Memory(x.chains)) || o in old(Memory(y.chains)) || fresh(o)
    {
      assert o in Memory(x.chains) + Memory(y.chains);
    }
  }

  method CallOn(x: EvBuffer, y: EvBuffer, step: Step) returns (out: seq<Byte>)
    requires Ready(x, y) && Small(step.op) && SumFits(Now(x, y)) && SumFits(Done(step.op, Turned(Now(x, y), step.onSecond)))
    modifies x`chains, x`lwd, x`totalLen, x`datas, y`chains, y`lwd, y`totalLen, y`datas
    modifies Memory(x.chains), Memory(y.chains)
    ensures Ready(x, y)
    ensures Now(x, y) == Turned(Done(step.op, Turned(old(Now(x, y)), step.onSecond)), step.onSecond)
    ensures out == Output(step.op, Turned(old(Now(x, y)), step.onSecond))
    ensures forall o :: o in Memory(x.chains) ==> o in old(Memory(x.chains)) || o in old(Memory(y.chains)) || fresh(o)
    ensures forall o :: o in Memory(y.chains) ==> o in old(Memory(x.chains)) || o in old(Memory(y.chains)) || fresh(o)
  {
    if step.onSecond {
      out := Call(y, x, step.op);
    } else {
      out := Call(x, y, step.op);
    }
  }

  /** Every run of calls on two fresh buffers, of whatever order and length, is the fold. */
  method Run(steps: seq<Step>) returns (x: EvBuffer, y: EvBuffer, outs: seq<seq<Byte>>)
    requires Fits(steps)
    ensures fresh(x) && fresh(y) && Ready(x, y)
    ensures Now(x, y) == After(steps) && outs == Outputs(steps)
  {
    x := new EvBuffer();
    y := new EvBuffer();
    outs := [];
    var i := 0;
    while i < |steps|
      invariant i <= |steps| && fresh(x) && fresh(y) && Ready(x, y)
      invariant (forall o :: o in Memory(x.chains) ==> fresh(o)) && (forall o :: o in Memory(y.chains) ==> fresh(o))
      invariant Now(x, y) == After(steps[..i]) && outs == Outputs(steps[..i])
    {
      assert steps[..i + 1][..i] == steps[..i];
      assert SumFits(After(steps[..i])) && SumFits(After(steps[..i + 1])) && Small(steps[i].op);
      var out := CallOn(x, y, steps[i]);
      outs := outs + [out];
      i := i + 1;
    }
    assert steps[..i] == steps;
  }
}
