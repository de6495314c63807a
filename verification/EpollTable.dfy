/** The operation table of net/libevent/include/epolltable-internal.h, row by
    row, and the pseudocode it was generated from. */
module EpollTable {

  /** The three kinds of interest: EV_READ/EPOLLIN, EV_WRITE/EPOLLOUT and
      EV_CLOSED/EPOLLRDHUP. */
  datatype Kinds = Kinds(read: bool, write: bool, close: bool)

  datatype Op = Zero | CtlAdd | CtlDel | CtlMod | Invalid

  datatype Operation = Operation(events: Kinds, op: Op)

  const NOTHING := Kinds(false, false, false)

  // The rows that occur, named by operation (add, delete, modify) and events.
  const Z := Operation(NOTHING, Zero)
  const X := Operation(NOTHING, Invalid)
  const AC := Operation(Kinds(false, false, true), CtlAdd)
  const AR := Operation(Kinds(true, false, false), CtlAdd)
  const ARC := Operation(Kinds(true, false, true), CtlAdd)
  const ARW := Operation(Kinds(true, true, false), CtlAdd)
  const ARWC := Operation(Kinds(true, true, true), CtlAdd)
  const AW := Operation(Kinds(false, true, false), CtlAdd)
  const AWC := Operation(Kinds(false, true, true), CtlAdd)
  const DC := Operation(Kinds(false, false, true), CtlDel)
  const DR := Operation(Kinds(true, false, false), CtlDel)
  const DRC := Operation(Kinds(true, false, true), CtlDel)
  const DRW := Operation(Kinds(true, true, false), CtlDel)
  const DRWC := Operation(Kinds(true, true, true), CtlDel)
  const DW := Operation(Kinds(false, true, false), CtlDel)
  const DWC := Operation(Kinds(false, true, true), CtlDel)
  const MC := Operation(Kinds(false, false, true), CtlMod)
  const MR := Operation(Kinds(true, false, false), CtlMod)
  const MRC := Operation(Kinds(true, false, true), CtlMod)
  const MRW := Operation(Kinds(true, true, false), CtlMod)
  const MRWC := Operation(Kinds(true, true, true), CtlMod)
  const MW := Operation(Kinds(false, true, false), CtlMod)
  const MWC := Operation(Kinds(false, true, true), CtlMod)

  /** Sixteen consecutive rows: one set of old events, one write change, then
      all read changes, and for each of them all close changes. */
  function Block(n: nat): (rows: seq<Operation>)
    requires n < 32
    ensures |rows| == 16
  {
    match n
    // old events: none
    case 0 => [Z, AC, DC, X, AR, ARC, AR, X, DR, AC, DRC, X, X, X, X, X]
    case 1 => [AW, AWC, AW, X, ARW, ARWC, ARW, X, AW, AWC, AW, X, X, X, X, X]
    case 2 => [DW, AC, DWC, X, AR, ARC, AR, X, DRW, AC, DRWC, X, X, X, X, X]
    case 3 => [X, X, X, X, X, X, X, X, X, X, X, X, X, X, X, X]
    // old events: r
    case 4 => [Z, MRC, MR, X, MR, MRC, MR, X, DR, MC, DRC, X, X, X, X, X]
    case 5 => [MRW, MRWC, MRW, X, MRW, MRWC, MRW, X, MW, MWC, MW, X, X, X, X, X]
    case 6 => [MR, MRC, MR, X, MR, MRC, MR, X, DRW, MC, DRWC, X, X, X, X, X]
    case 7 => [X, X, X, X, X, X, X, X, X, X, X, X, X, X, X, X]
    // old events: w
    case 8 => [Z, MWC, MW, X, MRW, MRWC, MRW, X, MW, MWC, MW, X, X, X, X, X]
    case 9 => [MW, MWC, MW, X, MRW, MRWC, MRW, X, MW, MWC, MW, X, X, X, X, X]
    case 10 => [DW, MC, DWC, X, MR, MRC, MR, X, DRW, MC, DRWC, X, X, X, X, X]
    case 11 => [X, X, X, X, X, X, X, X, X, X, X, X, X, X, X, X]
    // old events: rw
    case 12 => [Z, MRWC, MRW, X, MRW, MRWC, MRW, X, MW, MWC, MW, X, X, X, X, X]
    case 13 => [MRW, MRWC, MRW, X, MRW, MRWC, MRW, X, MW, MWC, MW, X, X, X, X, X]
    case 14 => [MR, MRC, MR, X, MR, MRC, MR, X, DRW, MC, DRWC, X, X, X, X, X]
    case 15 => [X, X, X, X, X, X, X, X, X, X, X, X, X, X, X, X]
    // old events: c
    case 16 => [Z, MC, DC, X, MRC, MRC, MR, X, MC, MC, DRC, X, X, X, X, X]
    case 17 => [MWC, MWC, MW, X, MRWC, MRWC, MRW, X, MWC, MWC, MW, X, X, X, X, X]
    case 18 => [MC, MC, DWC, X, MRC, MRC, MR, X, MC, MC, DRWC, X, X, X, X, X]
    case 19 => [X, X, X, X, X, X, X, X, X, X, X, X, X, X, X, X]
    // old events: cr
    case 20 => [Z, MRC, MR, X, MRC, MRC, MR, X, MC, MC, DRC, X, X, X, X, X]
    case 21 => [MRWC, MRWC, MRW, X, MRWC, MRWC, MRW, X, MWC, MWC, MW, X, X, X, X, X]
    case 22 => [MRC, MRC, MR, X, MRC, MRC, MR, X, MC, MC, DRWC, X, X, X, X, X]
    case 23 => [X, X, X, X, X, X, X, X, X, X, X, X, X, X, X, X]
    // old events: cw
    case 24 => [Z, MWC, MW, X, MRWC, MRWC, MRW, X, MWC, MWC, MW, X, X, X, X, X]
    case 25 => [MWC, MWC, MW, X, MRWC, MRWC, MRW, X, MWC, MWC, MW, X, X, X, X, X]
    case 26 => [MC, MC, DWC, X, MRC, MRC, MR, X, MC, MC, DRWC, X, X, X, X, X]
    case 27 => [X, X, X, X, X, X, X, X, X, X, X, X, X, X, X, X]
    // old events: crw
    case 28 => [Z, MRWC, MRW, X, MRWC, MRWC, MRW, X, MWC, MWC, MW, X, X, X, X, X]
    case 29 => [MRWC, MRWC, MRW, X, MRWC, MRWC, MRW, X, MWC, MWC, MW, X, X, X, X, X]
    case 30 => [MRC, MRC, MR, X, MRC, MRC, MR, X, MC, MC, DRWC, X, X, X, X, X]
    case _ => [X, X, X, X, X, X, X, X, X, X, X, X, X, X, X, X]
  }

  /** epoll_op_table[i] */
  function Table(i: nat): Operation
    requires i < 512
  {
    Block(i / 16)[i % 16]
  }

  // ---- The generator -------------------------------------------------------

  const NO_CHANGE := 0
  const ADD := 1
  const DEL := 2

  function Bit(b: bool, n: nat): nat {
    if b then n else 0
  }

  /** EPOLL_OP_TABLE_INDEX, for change fields already masked to two bits. */
  function Index(old_: Kinds, write: nat, read: nat, close: nat): (i: nat)
    requires write < 4 && read < 4 && close < 4
    ensures i < 512
  {
    close + 4 * read + 16 * write + Bit(old_.read, 64) + Bit(old_.write, 128) + Bit(old_.close, 256)
  }

  /** Whether a kind of interest remains after its change. */
  predicate After(was: bool, change: nat) {
    change == ADD || (was && change != DEL)
  }

  /** The pseudocode, with EPOLLRDHUP treated like the other two kinds. */
  function Generated(old_: Kinds, write: nat, read: nat, close: nat): Operation {
    var left := Kinds(After(old_.read, read), After(old_.write, write), After(old_.close, close));
    if write == 3 || read == 3 || close == 3 then X
    else if write == ADD || read == ADD || close == ADD then
      Operation(left, if old_ == NOTHING then CtlAdd else CtlMod)
    else if write == DEL || read == DEL || close == DEL then
      if left != NOTHING then Operation(left, CtlMod)
      else Operation(Kinds(read == DEL, write == DEL, close == DEL), CtlDel)
    else Z
  }

  lemma RowsNone(write: nat, read: nat, close: nat)
    requires write < 4 && read < 4 && close < 4
    ensures Block(0 + write)[close + 4 * read] == Generated(Kinds(false, false, false), write, read, close)
  {
    match write
    case 0 => var rows := Block(0);
    case 1 => var rows := Block(1);
    case 2 => var rows := Block(2);
    case _ => var rows := Block(3);
  }

  lemma RowsR(write: nat, read: nat, close: nat)
    requires write < 4 && read < 4 && close < 4
    ensures Block(4 + write)[close + 4 * read] == Generated(Kinds(true, false, false), write, read, close)
  {
    match write
    case 0 => var rows := Block(4);
    case 1 => var rows := Block(5);
    case 2 => var rows := Block(6);
    case _ => var rows := Block(7);
  }

  lemma RowsW(write: nat, read: nat, close: nat)
    requires write < 4 && read < 4 && close < 4
    ensures Block(8 + write)[close + 4 * read] == Generated(Kinds(false, true, false), write, read, close)
  {
    match write
    case 0 => var rows := Block(8);
    case 1 => var rows := Block(9);
    case 2 => var rows := Block(10);
    case _ => var rows := Block(11);
  }

  lemma RowsRW(write: nat, read: nat, close: nat)
    requires write < 4 && read < 4 && close < 4
    ensures Block(12 + write)[close + 4 * read] == Generated(Kinds(true, true, false), write, read, close)
  {
    match write
    case 0 => var rows := Block(12);
    case 1 => var rows := Block(13);
    case 2 => var rows := Block(14);
    case _ => var rows := Block(15);
  }

  lemma RowsC(write: nat, read: nat, close: nat)
    requires write < 4 && read < 4 && close < 4
    ensures Block(16 + write)[close + 4 * read] == Generated(Kinds(false, false, true), write, read, close)
  {
    match write
    case 0 => var rows := Block(16);
    case 1 => var rows := Block(17);
    case 2 => var rows := Block(18);
    case _ => var rows := Block(19);
  }

  lemma RowsRC(write: nat, read: nat, close: nat)
    requires write < 4 && read < 4 && close < 4
    ensures Block(20 + write)[close + 4 * read] == Generated(Kinds(true, false, true), write, read, close)
  {
    match write
    case 0 => var rows := Block(20);
    case 1 => var rows := Block(21);
    case 2 => var rows := Block(22);
    case _ => var rows := Block(23);
  }

  lemma RowsWC(write: nat, read: nat, close: nat)
    requires write < 4 && read < 4 && close < 4
    ensures Block(24 + write)[close + 4 * read] == Generated(Kinds(false, true, true), write, read, close)
  {
    match write
    case 0 => var rows := Block(24);
    case 1 => var rows := Block(25);
    case 2 => var rows := Block(26);
    case _ => var rows := Block(27);
  }

  lemma RowsRWC(write: nat, read: nat, close: nat)
    requires write < 4 && read < 4 && close < 4
    ensures Block(28 + write)[close + 4 * read] == Generated(Kinds(true, true, true), write, read, close)
  {
    match write
    case 0 => var rows := Block(28);
    case 1 => var rows := Block(29);
    case 2 => var rows := Block(30);
    case _ => var rows := Block(31);
  }

  lemma IndexSplit(old_: Kinds, write: nat, read: nat, close: nat)
    requires write < 4 && read < 4 && close < 4
    ensures Index(old_, write, read, close) / 16 == write + Bit(old_.read, 4) + Bit(old_.write, 8) + Bit(old_.close, 16)
    ensures Index(old_, write, read, close) % 16 == close + 4 * read
  {
  }

  /** All 512 rows are what the pseudocode says. */
  lemma TableIsGenerated(old_: Kinds, write: nat, read: nat, close: nat)
    requires write < 4 && read < 4 && close < 4
    ensures Table(Index(old_, write, read, close)) == Generated(old_, write, read, close)
  {
    IndexSplit(old_, write, read, close);
    match old_
    case Kinds(false, false, false) => RowsNone(write, read, close);
    case Kinds(true, false, false) => RowsR(write, read, close);
    case Kinds(false, true, false) => RowsW(write, read, close);
    case Kinds(true, true, false) => RowsRW(write, read, close);
    case Kinds(false, false, true) => RowsC(write, read, close);
    case Kinds(true, false, true) => RowsRC(write, read, close);
    case Kinds(false, true, true) => RowsWC(write, read, close);
    case Kinds(true, true, true) => RowsRWC(write, read, close);
  }
}
