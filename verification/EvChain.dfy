/** The memory blocks an evbuffer of net/libevent/src/buffer.c is made of, and
    the flat byte sequence that a list of them stands for. */
module EvChain {

  type Byte = b: int | 0 <= b < 256

  // ---- Sequences of blocks as one sequence of bytes ------------------------

  ghost function Flat(ds: seq<seq<Byte>>): seq<Byte> {
    if ds == [] then [] else ds[0] + Flat(ds[1..])
  }

  lemma {:induction false} FlatConcat(a: seq<seq<Byte>>, b: seq<seq<Byte>>)
    ensures Flat(a + b) == Flat(a) + Flat(b)
  {
    if a == [] {
      assert a + b == b;
    } else {
      assert (a + b)[1..] == a[1..] + b;
      FlatConcat(a[1..], b);
    }
  }

  lemma FlatOne(d: seq<Byte>)
    ensures Flat([d]) == d
  {
    assert [d][1..] == [];
  }

  lemma Assoc<T>(a: seq<T>, b: seq<T>, c: seq<T>)
    ensures a + (b + c) == a + b + c
  {
  }

  lemma Splits<T>(s: seq<T>, i: nat)
    requires i < |s|
    ensures s[..i] + [s[i]] == s[..i + 1] && [s[i]] + s[i + 1..] == s[i..] && s[..i] + s[i..] == s
  {
  }

  lemma FlatPush(ds: seq<seq<Byte>>, d: seq<Byte>)
    ensures Flat(ds + [d]) == Flat(ds) + d
  {
    FlatConcat(ds, [d]);
    FlatOne(d);
  }

  lemma FlatHead(d: seq<Byte>, ds: seq<seq<Byte>>)
    ensures Flat([d] + ds) == d + Flat(ds)
  {
    FlatConcat([d], ds);
    FlatOne(d);
  }

  /** The bytes before, in and after block i. */
  lemma FlatAt(ds: seq<seq<Byte>>, i: nat)
    requires i < |ds|
    ensures Flat(ds) == Flat(ds[..i]) + ds[i] + Flat(ds[i + 1..])
    ensures Flat(ds[..i + 1]) == Flat(ds[..i]) + ds[i]
    ensures Flat(ds[i..]) == ds[i] + Flat(ds[i + 1..])
  {
    Splits(ds, i);
    FlatConcat(ds[..i], ds[i..]);
    FlatPush(ds[..i], ds[i]);
    FlatHead(ds[i], ds[i + 1..]);
    Assoc(Flat(ds[..i]), ds[i], Flat(ds[i + 1..]));
  }

  lemma {:induction false} FlatEmpty(ds: seq<seq<Byte>>)
    requires forall i :: 0 <= i < |ds| ==> ds[i] == []
    ensures Flat(ds) == []
  {
    if ds != [] {
      FlatEmpty(ds[1..]);
    }
  }

  // ---- Data blocks come first ----------------------------------------------

  /** last names the last block with data, or block 0 if there is none; all
      blocks before it hold data, all blocks behind it are empty. */
  ghost predicate HasData(ds: seq<seq<Byte>>, i: int) {
    0 <= i < |ds| && ds[i] != []
  }

  ghost predicate Shape(ds: seq<seq<Byte>>, last: nat) {
    && (if ds == [] then last == 0 else last < |ds|)
    && (forall i :: 0 <= i < last ==> HasData(ds, i))
    && (last != 0 ==> HasData(ds, last))
    && (forall i :: last < i < |ds| ==> !HasData(ds, i))
  }

  lemma ShapeFlat(ds: seq<seq<Byte>>, last: nat)
    requires Shape(ds, last) && ds != []
    ensures Flat(ds) == Flat(ds[..last]) + ds[last] == Flat(ds[..last + 1])
    ensures Flat(ds) == [] <==> ds[last] == []
    ensures Flat(ds) == [] ==> last == 0
  {
    FlatAt(ds, last);
    var rest := ds[last + 1..];
    forall i | 0 <= i < |rest|
      ensures rest[i] == []
    {
      assert !HasData(ds, last + 1 + i);
    }
    FlatEmpty(rest);
    if last > 0 {
      FlatAt(ds[..last], 0);
      assert HasData(ds, 0) && HasData(ds, last);
    }
  }

  // ---- One block -----------------------------------------------------------

  /** The end of a list of blocks as evbuffer_add sees it: no block, or the one it adds to. */
  datatype Room = NoBlock | Room(size: nat, misalign: nat, off: nat) {
    /** n bytes more fit, perhaps after moving the data. */
    predicate Takes(n: nat) {
      && Room?
      && (size - (misalign + off) >= n || (size - off >= n && off < size / 2 && off <= MAX_TO_REALIGN_IN_EXPAND))
    }

    /** The size that evbuffer_add asks for when n bytes do not fit. */
    function Asked(n: nat): nat
      requires Room?
    {
      var d := if size <= EVBUFFER_CHAIN_MAX_AUTO_SIZE / 2 then size * 2 else size;
      if n > d then n else d
    }

    /** The end after n bytes have been added. */
    function Plus(n: nat): Room {
      if NoBlock? then Room(Capacity(n), 0, n)
      else if size - (misalign + off) >= n then Room(size, misalign, off + n)
      else if Takes(n) then Room(size, 0, off + n)
      else Room(Capacity(Asked(n)), 0, n - (size - (misalign + off)))
    }
  }

  /** The first doubling of n that is enough for size. */
  function Doubled(n: nat, size: nat): (r: nat)
    requires n > 0
    ensures r >= size
    decreases size - n
  {
    if n >= size then n else Doubled(n * 2, size)
  }

  /** The buffer_len of what evbuffer_chain_new gives for a size. */
  function Capacity(size0: nat): (r: nat)
    ensures r >= size0
  {
    var size := size0 + EVBUFFER_CHAIN_SIZE;
    (if size < EVBUFFER_CHAIN_MAX / 2 then Doubled(MIN_BUFFER_SIZE, size) else size) - EVBUFFER_CHAIN_SIZE
  }

  class Chain {
    const buffer: array<Byte>   // buffer_len is its length
    var misalign: nat
    var off: nat

    ghost predicate Ok()
      reads this
    {
      && misalign + off <= buffer.Length
      && 0 < buffer.Length <= EVBUFFER_CHAIN_MAX - EVBUFFER_CHAIN_SIZE
    }

    /** The bytes stored. */
    ghost function Data(): (d: seq<Byte>)
      reads this, buffer
      requires Ok()
      ensures |d| == off
    {
      buffer[misalign..misalign + off]
    }

    constructor (size: nat)
      requires 0 < size <= EVBUFFER_CHAIN_MAX - EVBUFFER_CHAIN_SIZE
      ensures fresh(this) && fresh(buffer) && buffer.Length == size && misalign == 0 && off == 0 && Ok() && Data() == []
    {
      buffer := new Byte[size];
      misalign, off := 0, 0;
    }

    function End(): Room
      reads this
    {
      Room(buffer.Length, misalign, off)
    }

    /** CHAIN_SPACE_LEN */
    function SpaceLen(): int
      reads this
    {
      buffer.Length - (misalign + off)
    }

    /** memcpy to CHAIN_SPACE_PTR and count the bytes. */
    method Append(data: seq<Byte>)
      requires Ok() && |data| <= SpaceLen()
      modifies this`off, buffer
      ensures Ok() && Data() == old(Data()) + data && SpaceLen() == old(SpaceLen()) - |data|
    {
      forall i | 0 <= i < |data| {
        buffer[misalign + off + i] := data[i];
      }
      off := off + |data|;
    }

    /** memcpy in front of the data. */
    method Prepend(data: seq<Byte>)
      requires Ok() && |data| <= misalign
      modifies this`off, this`misalign, buffer
      ensures Ok() && Data() == data + old(Data()) && misalign == old(misalign) - |data|
    {
      forall i | 0 <= i < |data| {
        buffer[misalign - |data| + i] := data[i];
      }
      off := off + |data|;
      misalign := misalign - |data|;
    }

    /** An empty block counts as free at the beginning. */
    method FreeAtFront()
      requires Ok() && off == 0
      modifies this`misalign
      ensures Ok() && Data() == [] && misalign == buffer.Length
    {
      misalign := buffer.Length;
    }

    /** Forget n bytes at the front. */
    method DropFront(n: nat)
      requires Ok() && n <= off
      modifies this`off, this`misalign
      ensures Ok() && Data() == old(Data())[n..] && off == old(off) - n
    {
      misalign := misalign + n;
      off := off - n;
    }

    /** n bytes of the data, from its byte start. */
    method Read(start: nat, n: nat) returns (bytes: seq<Byte>)
      requires Ok() && start + n <= off
      ensures bytes == Data()[start..start + n]
    {
      bytes := buffer[misalign + start..misalign + start + n];
      assert forall i :: 0 <= i < n ==> bytes[i] == Data()[start + i];
    }

    /** evbuffer_chain_align */
    method Align()
      requires Ok()
      modifies this`misalign, buffer
      ensures Ok() && Data() == old(Data()) && misalign == 0
    {
      forall i | 0 <= i < off {
        buffer[i] := buffer[misalign + i];
      }
      misalign := 0;
    }

    predicate TakesMore(n: nat)
      reads this
    {
      End().Takes(n)
    }

    /** evbuffer_chain_should_realign */
    predicate ShouldRealign(datlen: nat)
      reads this
    {
      buffer.Length - off >= datlen && off < buffer.Length / 2 && off <= MAX_TO_REALIGN_IN_EXPAND
    }
  }

  const MAX_TO_REALIGN_IN_EXPAND := 2048
  const MAX_TO_COPY_IN_EXPAND := 4096
  const EVBUFFER_CHAIN_MAX_AUTO_SIZE := 4096
  const EVBUFFER_CHAIN_MAX := 0x7fff_ffff_ffff_ffff
  const EV_SIZE_MAX := 0xffff_ffff_ffff_ffff
  const EV_SSIZE_MAX := 0x7fff_ffff_ffff_ffff
  const MIN_BUFFER_SIZE := 1024
  const EVBUFFER_CHAIN_SIZE := 48   // sizeof(struct evbuffer_chain), 64-bit

  /** evbuffer_chain_new; memory says whether malloc succeeds. */
  method ChainNew(size0: nat, memory: bool) returns (chain: Chain?)
    ensures chain == null <==> size0 > EVBUFFER_CHAIN_MAX - EVBUFFER_CHAIN_SIZE || !memory
    ensures chain != null ==>
              && fresh(chain) && fresh(chain.buffer) && chain.Ok() && chain.Data() == []
              && chain.misalign == 0 && chain.buffer.Length == Capacity(size0)
  {
    if size0 > EVBUFFER_CHAIN_MAX - EVBUFFER_CHAIN_SIZE {
      return null;
    }
    var size := size0 + EVBUFFER_CHAIN_SIZE;
    var toAlloc := size;
    if size < EVBUFFER_CHAIN_MAX / 2 {
      toAlloc := MIN_BUFFER_SIZE;
      while toAlloc < size
        invariant MIN_BUFFER_SIZE <= toAlloc && (toAlloc < 2 * size || toAlloc == MIN_BUFFER_SIZE)
        invariant Doubled(toAlloc, size) == Doubled(MIN_BUFFER_SIZE, size)
        decreases size - toAlloc
      {
        toAlloc := toAlloc * 2;
      }
    }
    if !memory {
      return null;
    }
    chain := new Chain(toAlloc - EVBUFFER_CHAIN_SIZE);
  }
}
