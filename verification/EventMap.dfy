/** The interest in fds: evmap.c with its changelist, and epoll.c with its table. */
module EventMap {
  import opened EpollTable

  // ---- Changes and the kernel ----------------------------------------------

  /** One change field; EV_CHANGE_ET travels with an add. */
  datatype Chg = Keep | Add(et: bool) | Del

  datatype Change = Change(fd: int, old_: Kinds, read: Chg, write: Chg, close: Chg)

  /** What an fd is registered for in the kernel; kinds is never empty. */
  datatype Reg = Reg(kinds: Kinds, et: bool)
  type Kernel = map<int, Reg>

  /** ENOMEM stands for every error that no retry mends. */
  datatype Errno = Success | EEXIST | ENOENT | EBADF | EPERM | ENOMEM

  datatype Option<T> = None | Some(value: T)

  function At(k: Kernel, fd: int): Option<Reg> {
    if fd in k then Some(k[fd]) else None
  }

  function Bits(c: Chg): nat {
    match c case Keep => NO_CHANGE case Add(_) => ADD case Del => DEL
  }

  function KindsOf(k: Kernel, fd: int): Kinds {
    if fd in k then k[fd].kinds else NOTHING
  }

  predicate IsNoop(ch: Change) {
    ch.read == Keep && ch.write == Keep && ch.close == Keep
  }

  /** The interest a change leaves, if the old events were as recorded. */
  function Final(ch: Change): Kinds {
    Kinds(After(ch.old_.read, Bits(ch.read)), After(ch.old_.write, Bits(ch.write)), After(ch.old_.close, Bits(ch.close)))
  }

  /** EPOLLET goes with the read and the write change only. */
  predicate EdgeTriggered(ch: Change) {
    ch.read == Add(true) || ch.write == Add(true)
  }

  /** What applying a change is for: a no-op leaves the kernel alone, any other
      change sets the fd's registration to what the change leaves. */
  ghost function KernelAfter(k: Kernel, ch: Change): Kernel {
    if IsNoop(ch) then k
    else if Final(ch) == NOTHING then k - {ch.fd}
    else k[ch.fd := Reg(Final(ch), EdgeTriggered(ch))]
  }

  /** The table row for a change is never one of the impossible ones, and says
      what Final says. */
  lemma RowForChange(ch: Change)
    ensures var row := Table(Index(ch.old_, Bits(ch.write), Bits(ch.read), Bits(ch.close)));
      && row.op != Invalid
      && (IsNoop(ch) ==> row == Operation(NOTHING, Zero))
      && (!IsNoop(ch) ==> row.events != NOTHING)
      && (!IsNoop(ch) && Final(ch) == NOTHING ==> row.op == CtlDel)
      && (!IsNoop(ch) && Final(ch) != NOTHING ==>
            row == Operation(Final(ch), if ch.old_ == NOTHING then CtlAdd else CtlMod))
  {
    TableIsGenerated(ch.old_, Bits(ch.write), Bits(ch.read), Bits(ch.close));
  }

  method LookUp(ch: Change) returns (row: Operation)
    ensures row.op != Invalid
    ensures IsNoop(ch) ==> row == Operation(NOTHING, Zero)
    ensures !IsNoop(ch) ==> row.events != NOTHING
    ensures !IsNoop(ch) && Final(ch) == NOTHING ==> row.op == CtlDel
    ensures !IsNoop(ch) && Final(ch) != NOTHING ==> row == Operation(Final(ch), if ch.old_ == NOTHING then CtlAdd else CtlMod)
  {
    RowForChange(ch);
    row := Table(Index(ch.old_, Bits(ch.write), Bits(ch.read), Bits(ch.close)));
  }

  // ---- Events --------------------------------------------------------------

  datatype Event = Event(id: int, kinds: Kinds, et: bool)

  /** struct evmap_io with its changelist fdinfo. */
  datatype Io = Io(nread: nat, nwrite: nat, nclose: nat, events: seq<Event>, idxplus1: nat)

  const NEW_IO := Io(0, 0, 0, [], 0)

  function Wanted(io: Io): Kinds {
    Kinds(io.nread > 0, io.nwrite > 0, io.nclose > 0)
  }

  ghost function CountRead(es: seq<Event>): nat {
    if es == [] then 0 else Bit(es[0].kinds.read, 1) + CountRead(es[1..])
  }

  ghost function CountWrite(es: seq<Event>): nat {
    if es == [] then 0 else Bit(es[0].kinds.write, 1) + CountWrite(es[1..])
  }

  ghost function CountClose(es: seq<Event>): nat {
    if es == [] then 0 else Bit(es[0].kinds.close, 1) + CountClose(es[1..])
  }

  /** The counters are the real counts. */
  ghost predicate Counted(io: Io) {
    io.nread == CountRead(io.events) && io.nwrite == CountWrite(io.events) && io.nclose == CountClose(io.events)
  }

  /** LIST_REMOVE */
  function Without(es: seq<Event>, ev: Event): seq<Event> {
    if es == [] then [] else if es[0] == ev then es[1..] else [es[0]] + Without(es[1..], ev)
  }

  lemma {:induction false} WithoutCounts(es: seq<Event>, ev: Event)
    requires ev in es
    ensures CountRead(es) == CountRead(Without(es, ev)) + Bit(ev.kinds.read, 1)
    ensures CountWrite(es) == CountWrite(Without(es, ev)) + Bit(ev.kinds.write, 1)
    ensures CountClose(es) == CountClose(Without(es, ev)) + Bit(ev.kinds.close, 1)
  {
    if es[0] != ev {
      var rest := Without(es[1..], ev);
      assert ([es[0]] + rest)[1..] == rest;
      WithoutCounts(es[1..], ev);
    }
  }

  /** A kind is wanted exactly when some event on the list asks for it. */
  lemma {:induction false} WantedMeansAsked(es: seq<Event>)
    ensures CountRead(es) > 0 <==> exists e :: e in es && e.kinds.read
    ensures CountWrite(es) > 0 <==> exists e :: e in es && e.kinds.write
    ensures CountClose(es) > 0 <==> exists e :: e in es && e.kinds.close
  {
    if es != [] {
      WantedMeansAsked(es[1..]);
      assert forall e :: e in es <==> e == es[0] || e in es[1..];
    }
  }

  // ---- Coalescing ----------------------------------------------------------

  /** event_changelist_add_: an add replaces whatever was pending. */
  function WithAdd(ch: Change, kinds: Kinds, et: bool): Change {
    ch.(read := if kinds.read then Add(et) else ch.read,
        write := if kinds.write then Add(et) else ch.write,
        close := if kinds.close then Add(et) else ch.close)
  }

  /** event_changelist_del_: a delete of what the kernel never had is a no-op. */
  function WithDel(ch: Change, kinds: Kinds): Change {
    ch.(read := if kinds.read then (if ch.old_.read then Del else Keep) else ch.read,
        write := if kinds.write then (if ch.old_.write then Del else Keep) else ch.write,
        close := if kinds.close then (if ch.old_.close then Del else Keep) else ch.close)
  }

  function NewChange(fd: int, old_: Kinds): Change {
    Change(fd, old_, Keep, Keep, Keep)
  }

  function PlainDel(fd: int, old_: Kinds, kinds: Kinds): Change {
    Change(fd, old_, if kinds.read then Del else Keep, if kinds.write then Del else Keep, if kinds.close then Del else Keep)
  }

  // ---- Counting one event in or out ----------------------------------------

  /** The kinds ev is the first, or the last, to ask for. */
  function Gained(io: Io, ev: Event): Kinds {
    Kinds(ev.kinds.read && io.nread == 0, ev.kinds.write && io.nwrite == 0, ev.kinds.close && io.nclose == 0)
  }

  function Lost(io: Io, ev: Event): Kinds {
    Kinds(ev.kinds.read && io.nread == 1, ev.kinds.write && io.nwrite == 1, ev.kinds.close && io.nclose == 1)
  }

  ghost function Counting(io: Io, ev: Event): Io {
    io.(nread := io.nread + Bit(ev.kinds.read, 1), nwrite := io.nwrite + Bit(ev.kinds.write, 1),
        nclose := io.nclose + Bit(ev.kinds.close, 1), events := [ev] + io.events)
  }

  ghost function Discounting(io: Io, ev: Event): Io {
    io.(nread := Less(io.nread, ev.kinds.read), nwrite := Less(io.nwrite, ev.kinds.write),
        nclose := Less(io.nclose, ev.kinds.close), events := Without(io.events, ev))
  }

  ghost function Less(n: nat, b: bool): nat {
    if b && n > 0 then n - 1 else n
  }

  lemma CountingCounted(io: Io, ev: Event)
    requires Counted(io)
    ensures Counted(Counting(io, ev))
  {
    assert Counting(io, ev).events[1..] == io.events;
  }

  ghost predicate TooMany(io: Io) {
    io.nread > 0xffff || io.nwrite > 0xffff || io.nclose > 0xffff
  }

  /** Coalescing keeps the pending change equal to what is wanted. */
  lemma AddKeepsFinal(ch: Change, io: Io, ev: Event)
    requires Final(ch) == Wanted(io)
    ensures Final(WithAdd(ch, Gained(io, ev), ev.et)) == Wanted(Counting(io, ev))
    ensures Gained(io, ev) == NOTHING ==> Wanted(Counting(io, ev)) == Wanted(io)
    ensures Gained(io, ev) != NOTHING ==> !IsNoop(WithAdd(ch, Gained(io, ev), ev.et))
  {
  }

  lemma DelKeepsFinal(ch: Change, io: Io, ev: Event)
    requires Final(ch) == Wanted(io) && ev.kinds != NOTHING
    requires (ev.kinds.read ==> io.nread > 0) && (ev.kinds.write ==> io.nwrite > 0) && (ev.kinds.close ==> io.nclose > 0)
    ensures Final(WithDel(ch, Lost(io, ev))) == Wanted(Discounting(io, ev))
    ensures Lost(io, ev) == NOTHING ==> Wanted(Discounting(io, ev)) == Wanted(io)
    ensures var plain := PlainDel(ch.fd, Wanted(io), Lost(io, ev));
      Final(plain) == Wanted(Discounting(io, ev)) && (Lost(io, ev) != NOTHING ==> !IsNoop(plain))
  {
  }

  lemma DiscountingCounted(io: Io, ev: Event)
    requires Counted(io) && ev in io.events
    ensures Counted(Discounting(io, ev))
    ensures (ev.kinds.read ==> io.nread > 0) && (ev.kinds.write ==> io.nwrite > 0) && (ev.kinds.close ==> io.nclose > 0)
  {
    WithoutCounts(io.events, ev);
  }

  ghost predicate DistinctFds(changes: seq<Change>) {
    forall i, j :: 0 <= i < j < |changes| ==> changes[i].fd != changes[j].fd
  }

  /** What ch does to its fd, if the kernel takes it. */
  ghost predicate Outcome(k: Kernel, k': Kernel, ch: Change, took: bool) {
    At(k', ch.fd) ==
      if IsNoop(ch) || !took then At(k, ch.fd)
      else if Final(ch) == NOTHING then None
      else Some(Reg(Final(ch), EdgeTriggered(ch)))
  }

  /** fd has no change among these. */
  ghost predicate Absent(changes: seq<Change>, fd: int) {
    forall i :: 0 <= i < |changes| ==> changes[i].fd != fd
  }

  /** Every change has done to its own fd what it asks for, if the kernel took it, and nothing to others. */
  ghost predicate AppliedAll(k: Kernel, k': Kernel, changes: seq<Change>, took: seq<bool>) {
    && |took| == |changes|
    && (forall i :: 0 <= i < |changes| ==> Outcome(k, k', changes[i], took[i]))
    && (forall fd :: Absent(changes, fd) ==> At(k', fd) == At(k, fd))
  }

  /** One more change does not disturb those for other fds. */
  lemma AppliedOneMore(k: Kernel, k1: Kernel, k2: Kernel, changes: seq<Change>, took: seq<bool>, ch: Change, ok: bool)
    requires AppliedAll(k, k1, changes, took) && Absent(changes, ch.fd)
    requires k2 == if ok then KernelAfter(k1, ch) else k1
    ensures AppliedAll(k, k2, changes + [ch], took + [ok])
  {
    var all, oks := changes + [ch], took + [ok];
    forall i | 0 <= i < |all|
      ensures Outcome(k, k2, all[i], oks[i])
    {
      if i < |changes| {
        assert Outcome(k, k1, changes[i], took[i]);
      }
    }
    forall fd | Absent(all, fd)
      ensures At(k2, fd) == At(k, fd)
    {
      assert all[|changes|] == ch;
      forall i | 0 <= i < |changes|
        ensures changes[i].fd != fd
      {
        assert all[i] == changes[i];
      }
      assert Absent(changes, fd);
    }
  }

  // ---- The state of a base and what holds of it ----------------------------

  datatype State = State(io: map<int, Io>, changes: seq<Change>, kernel: Kernel, stale: set<int>)

  /** The i-th change belongs to an fd that knows its index, and asks for
      exactly what is wanted on that fd now. */
  ghost predicate ChangeOk(s: State, i: nat)
    requires i < |s.changes|
  {
    var ch := s.changes[i];
    ch.fd in s.io && s.io[ch.fd].idxplus1 == i + 1 && Final(ch) == Wanted(s.io[ch.fd])
  }

  /** fd's index, if it has one, leads to its change. */
  ghost predicate IndexOk(s: State, fd: int)
    requires fd in s.io
  {
    var n := s.io[fd].idxplus1;
    n > 0 ==> n <= |s.changes| && s.changes[n - 1].fd == fd
  }

  /** The change pending for fd, or a fresh one. */
  ghost function Pending(s: State, fd: int): Change
    requires fd in s.io && IndexOk(s, fd)
  {
    if s.io[fd].idxplus1 > 0 then s.changes[s.io[fd].idxplus1 - 1] else NewChange(fd, Wanted(s.io[fd]))
  }

  /** Counters are counts, and unless fd is stale the kernel has what the pending
      change calls the old events. */
  ghost predicate FdOk(s: State, fd: int)
    requires fd in s.io
  {
    && fd >= 0 && Counted(s.io[fd]) && IndexOk(s, fd)
    && (fd !in s.stale ==> KindsOf(s.kernel, fd) == Pending(s, fd).old_)
  }

  ghost predicate RegOk(k: Kernel, fd: int)
    requires fd in k
  {
    k[fd].kinds != NOTHING
  }

  ghost predicate Ok(s: State) {
    && (forall i :: 0 <= i < |s.changes| ==> ChangeOk(s, i))
    && (forall fd :: fd in s.io ==> FdOk(s, fd))
    && (forall fd :: fd in s.kernel ==> fd in s.io && RegOk(s.kernel, fd))
  }

  /** fd's pending change is now ch, at index i; nothing else differs. */
  ghost predicate Queued(s: State, s': State, fd: int, ch: Change, i: nat) {
    && ch.fd == fd && fd in s.io && s'.kernel == s.kernel && s'.stale == s.stale
    && s'.io == s.io[fd := s.io[fd].(idxplus1 := i + 1)]
    && (if s.io[fd].idxplus1 > 0 then
          i + 1 == s.io[fd].idxplus1 <= |s.changes| && s'.changes == s.changes[i := ch]
        else i == |s.changes| && s'.changes == s.changes + [ch])
  }

  /** io with fd's counters and events replaced. */
  ghost predicate Recounted(s: State, s': State, fd: int, io: Io) {
    && fd in s.io && s' == s.(io := s.io[fd := io]) && io.idxplus1 == s.io[fd].idxplus1
  }

  /** Queueing a change and recounting keeps everything, when the change asks
      for what the new counts want. */
  lemma QueuedOk(s: State, s1: State, s2: State, fd: int, ch: Change, i: nat, io: Io)
    requires Ok(s) && Queued(s, s1, fd, ch, i) && Recounted(s1, s2, fd, io)
    requires FdOk(s, fd) && Counted(io) && ch.old_ == Pending(s, fd).old_ && Final(ch) == Wanted(io)
    ensures Ok(s2)
  {
    forall j | 0 <= j < |s2.changes| ensures ChangeOk(s2, j) {
      if j != i {
        assert ChangeOk(s, j);
      }
    }
    forall f | f in s2.io ensures FdOk(s2, f) {
      assert FdOk(s, f);
      if f != fd && s.io[f].idxplus1 > 0 {
        assert ChangeOk(s, s.io[f].idxplus1 - 1);
      }
    }
    forall f | f in s2.kernel ensures f in s2.io && RegOk(s2.kernel, f) {
      assert RegOk(s.kernel, f);
    }
  }

  lemma PendingFinal(s: State, fd: int)
    requires Ok(s) && fd in s.io
    ensures FdOk(s, fd) && Final(Pending(s, fd)) == Wanted(s.io[fd]) && Pending(s, fd).fd == fd
  {
    assert FdOk(s, fd);
    if s.io[fd].idxplus1 > 0 {
      assert ChangeOk(s, s.io[fd].idxplus1 - 1);
    }
  }

  /** Recounting alone keeps everything, when the same kinds stay wanted. */
  lemma RecountedOk(s: State, s2: State, fd: int, io: Io)
    requires Ok(s) && Recounted(s, s2, fd, io)
    requires Counted(io) && Wanted(io) == Wanted(s.io[fd])
    ensures Ok(s2)
  {
    forall j | 0 <= j < |s2.changes| ensures ChangeOk(s2, j) {
      assert ChangeOk(s, j);
    }
    forall f | f in s2.io ensures FdOk(s2, f) {
      assert FdOk(s, f);
    }
    forall f | f in s2.kernel ensures f in s2.io && RegOk(s2.kernel, f) {
      assert RegOk(s.kernel, f);
    }
  }

  /** Applying a change at once and recounting keeps everything. */
  lemma AppliedOk(s: State, s2: State, fd: int, ch: Change, io: Io)
    requires Ok(s) && s.changes == [] && fd in s.io && ch.fd == fd && !IsNoop(ch)
    requires s2 == State(s.io[fd := io], [], KernelAfter(s.kernel, ch), s.stale - {fd})
    requires Counted(io) && io.idxplus1 == s.io[fd].idxplus1 && Final(ch) == Wanted(io)
    ensures Ok(s2)
  {
    assert FdOk(s, fd);
    forall f | f in s2.io ensures FdOk(s2, f) {
      assert FdOk(s, f);
    }
    forall f | f in s2.kernel ensures f in s2.io && RegOk(s2.kernel, f) {
      assert f != fd ==> RegOk(s.kernel, f);
    }
  }

  /** When the backend fails to delete, the counts go down all the same, and fd is stale. */
  lemma FailedOk(s: State, s2: State, fd: int, io: Io)
    requires Ok(s) && fd in s.io && s.io[fd].idxplus1 == 0
    requires s2 == State(s.io[fd := io], s.changes, s.kernel, s.stale + {fd}) && Counted(io) && io.idxplus1 == 0
    ensures Ok(s2)
  {
    assert FdOk(s, fd);
    forall j | 0 <= j < |s2.changes| ensures ChangeOk(s2, j) {
      assert ChangeOk(s, j);
    }
    forall f | f in s2.io ensures FdOk(s2, f) {
      assert FdOk(s, f);
    }
    forall f | f in s2.kernel ensures f in s2.io && RegOk(s2.kernel, f) {
      assert RegOk(s.kernel, f);
    }
  }

  /** Nothing about other fds changed. */
  ghost predicate Elsewhere(s: State, s': State, fd: int) {
    forall f :: f != fd ==> (f in s'.io <==> f in s.io) && (f in s.io ==> s'.io[f] == s.io[f])
  }

  ghost function Slot(s: State, fd: int): Io {
    if fd in s.io then s.io[fd] else NEW_IO
  }

  /** The same counters and events for fd; the place in the changelist does not matter. */
  ghost predicate SameAt(s: State, t: State, fd: int) {
    Slot(s, fd).(idxplus1 := 0) == Slot(t, fd).(idxplus1 := 0)
  }

  /** What evmap_io_add_ and evmap_io_del_ do to the map, whatever the backend. */
  ghost predicate Added(s: State, s': State, fd: int, ev: Event) {
    Slot(s', fd).(idxplus1 := 0) == Counting(Slot(s, fd), ev).(idxplus1 := 0) && Elsewhere(s, s', fd)
  }

  ghost predicate Removed(s: State, s': State, fd: int, ev: Event) {
    Slot(s', fd).(idxplus1 := 0) == Discounting(Slot(s, fd), ev).(idxplus1 := 0) && Elsewhere(s, s', fd)
  }

  /** A failed call leaves no more than an unused slot. */
  ghost predicate Unchanged(s: State, s': State, fd: int) {
    s' == s || (fd !in s.io && fd >= 0 && s' == s.(io := s.io[fd := NEW_IO]))
  }

  /** A slot is constructed for a new fd. */
  lemma NewSlotOk(s: State, fd: int)
    requires Ok(s) && fd >= 0 && fd !in s.io
    ensures Ok(s.(io := s.io[fd := NEW_IO]))
  {
    var s2 := s.(io := s.io[fd := NEW_IO]);
    forall j | 0 <= j < |s2.changes| ensures ChangeOk(s2, j) {
      assert ChangeOk(s, j);
    }
    forall f | f in s2.io ensures FdOk(s2, f) {
      assert f != fd ==> FdOk(s, f);
    }
    forall f | f in s2.kernel ensures f in s2.io && RegOk(s2.kernel, f) {
      assert RegOk(s.kernel, f);
    }
  }

  /** The fds with a change that is not a no-op and that the kernel took, or did not take. */
  ghost function Settled(changes: seq<Change>, took: seq<bool>, which: bool): set<int>
    requires |took| == |changes|
  {
    set i | 0 <= i < |changes| && !IsNoop(changes[i]) && took[i] == which :: changes[i].fd
  }

  ghost predicate Dispatched(s: State, s': State, took: seq<bool>) {
    && s'.changes == [] && s'.io.Keys == s.io.Keys
    && (forall fd :: fd in s'.io ==> s'.io[fd] == s.io[fd].(idxplus1 := 0))
    && AppliedAll(s.kernel, s'.kernel, s.changes, took)
    && s'.stale == s.stale - Settled(s.changes, took, true) + Settled(s.changes, took, false)
  }

  lemma ChangesDistinct(s: State)
    requires Ok(s)
    ensures DistinctFds(s.changes)
  {
    forall i, j | 0 <= i < j < |s.changes| ensures s.changes[i].fd != s.changes[j].fd {
      assert ChangeOk(s, i) && ChangeOk(s, j);
    }
  }

  /** After dispatch the kernel has what is wanted, except on fds that are stale. */
  lemma DispatchOk(s: State, s': State, took: seq<bool>)
    requires Ok(s) && Dispatched(s, s', took)
    ensures Ok(s')
    ensures forall fd :: fd in s'.io && fd !in s'.stale ==> KindsOf(s'.kernel, fd) == Wanted(s'.io[fd])
  {
    forall fd | fd in s'.io
      ensures FdOk(s', fd) && (fd !in s'.stale ==> KindsOf(s'.kernel, fd) == Wanted(s'.io[fd]))
    {
      DispatchedFd(s, s', took, fd);
    }
    forall f | f in s'.kernel
      ensures f in s'.io && RegOk(s'.kernel, f)
    {
      if Absent(s.changes, f) {
        assert At(s'.kernel, f) == At(s.kernel, f) && RegOk(s.kernel, f);
      } else {
        var i :| 0 <= i < |s.changes| && s.changes[i].fd == f;
        assert ChangeOk(s, i) && Outcome(s.kernel, s'.kernel, s.changes[i], took[i]);
        assert f in s.kernel ==> RegOk(s.kernel, f);
      }
    }
  }

  lemma DispatchedFd(s: State, s': State, took: seq<bool>, fd: int)
    requires Ok(s) && Dispatched(s, s', took) && fd in s.io
    ensures FdOk(s', fd) && (fd !in s'.stale ==> KindsOf(s'.kernel, fd) == Wanted(s'.io[fd]))
  {
    assert FdOk(s, fd);
    var n := s.io[fd].idxplus1;
    if n > 0 {
      var ch := s.changes[n - 1];
      assert ChangeOk(s, n - 1) && Outcome(s.kernel, s'.kernel, ch, took[n - 1]);
      forall which: bool | fd in Settled(s.changes, took, which)
        ensures !IsNoop(ch) && took[n - 1] == which
      {
        var i :| 0 <= i < |s.changes| && !IsNoop(s.changes[i]) && took[i] == which && s.changes[i].fd == fd;
        assert ChangeOk(s, i);
      }
      assert !IsNoop(ch) && !took[n - 1] ==> fd in Settled(s.changes, took, false);
    } else {
      forall i | 0 <= i < |s.changes| ensures s.changes[i].fd != fd {
        assert ChangeOk(s, i);
      }
      assert Absent(s.changes, fd);
    }
  }

  // ---- Edge triggering -----------------------------------------------------

  /** The change pending for fd, or none. */
  ghost function PendingAt(s: State, fd: int): Change {
    if fd in s.io && IndexOk(s, fd) then Pending(s, fd) else NewChange(fd, NOTHING)
  }

  /** The change pending for fd is to make it edge-triggered for reading. */
  ghost predicate EtRead(s: State, fd: int) {
    PendingAt(s, fd).read == Add(true)
  }

  ghost predicate EtWrite(s: State, fd: int) {
    PendingAt(s, fd).write == Add(true)
  }

  /** Other fds have the changes they had. */
  ghost predicate PendingElsewhere(s: State, s': State, fd: int) {
    forall f :: f != fd ==> PendingAt(s', f) == PendingAt(s, f)
  }

  lemma QueuedPending(s: State, s1: State, s2: State, fd: int, ch: Change, i: nat, io: Io)
    requires Ok(s) && Queued(s, s1, fd, ch, i) && Recounted(s1, s2, fd, io)
    ensures PendingAt(s2, fd) == ch && PendingElsewhere(s, s2, fd)
  {
    assert FdOk(s, fd);
    forall f | f != fd
      ensures PendingAt(s2, f) == PendingAt(s, f)
    {
      if f in s.io {
        assert FdOk(s, f);
        if s.io[f].idxplus1 > 0 {
          assert ChangeOk(s, s.io[f].idxplus1 - 1);
        }
      }
    }
  }

  /** What evmap_io_add_ tells the backend, r being its result.  At once, fd ends edge-triggered
      exactly when ev is and is the first to ask for reading or writing; on the changelist the same
      holds kind by kind of what the pending change asks for. */
  ghost predicate AddTold(s: State, s': State, fd: int, ev: Event, coalesce: bool, r: int) {
    var g := Gained(Slot(s, fd), ev);
    && s'.stale == (if !coalesce && r == 1 then s.stale - {fd} else s.stale)
    && (coalesce || r != 1 ==> s'.kernel == s.kernel)
    && (!coalesce && r == 1 ==> s'.kernel == s.kernel[fd := Reg(Wanted(Slot(s', fd)), ev.et && (g.read || g.write))])
    && (coalesce && r == 1 ==>
          && (EtRead(s', fd) <==> if g.read then ev.et else EtRead(s, fd))
          && (EtWrite(s', fd) <==> if g.write then ev.et else EtWrite(s, fd))
          && PendingElsewhere(s, s', fd))
  }

  /** What evmap_io_del_ tells the backend.  At once, an fd that loses a kind and keeps another is
      level-triggered afterwards, whatever it was; on the changelist the kinds lost no longer ask for
      edge triggering. */
  ghost predicate DelTold(s: State, s': State, fd: int, ev: Event, coalesce: bool, r: int) {
    var l, w := Lost(Slot(s, fd), ev), Wanted(Slot(s', fd));
    && s'.stale == (if r == -1 then s.stale + {fd} else if !coalesce && r == 1 then s.stale - {fd} else s.stale)
    && (coalesce || r != 1 ==> s'.kernel == s.kernel)
    && (!coalesce && r == 1 ==> s'.kernel == if w == NOTHING then s.kernel - {fd} else s.kernel[fd := Reg(w, false)])
    && (coalesce && r == 1 ==>
          && (EtRead(s', fd) <==> !l.read && EtRead(s, fd))
          && (EtWrite(s', fd) <==> !l.write && EtWrite(s, fd))
          && PendingElsewhere(s, s', fd))
  }

  /** An unused slot changes nothing that counts. */
  lemma SlotPending(s: State, s1: State, fd: int)
    requires Ok(s) && Unchanged(s, s1, fd)
    ensures PendingElsewhere(s, s1, fd) && PendingAt(s1, fd) == PendingAt(s, fd) && Slot(s1, fd) == Slot(s, fd)
  {
    forall f
      ensures PendingAt(s1, f) == PendingAt(s, f)
    {
      assert f in s.io ==> FdOk(s, f);
    }
  }

  lemma SlotTold(s: State, s1: State, s2: State, fd: int, ev: Event, coalesce: bool, r: int)
    requires Ok(s) && Unchanged(s, s1, fd) && AddTold(s1, s2, fd, ev, coalesce, r)
    ensures AddTold(s, s2, fd, ev, coalesce, r)
    ensures Added(s1, s2, fd, ev) ==> Added(s, s2, fd, ev)
  {
    SlotPending(s, s1, fd);
  }

  class EventBase {
    var io: map<int, Io>
    var changes: seq<Change>
    var kernel: Kernel
    const useChangelist: bool
    const reliable: bool        // no lasting error of the kernel, and no failed allocation
    ghost var stale: set<int>   // fds closed and reopened, or with a failed change, since their last effective change

    ghost function Now(): State
      reads this
    {
      State(io, changes, kernel, stale)
    }

    ghost predicate Valid()
      reads this
    {
      Ok(Now()) && (!useChangelist ==> changes == [])
    }

    constructor (useChangelist: bool, reliable: bool)
      ensures Valid() && io == map[] && kernel == map[] && changes == [] && stale == {}
      ensures this.useChangelist == useChangelist && this.reliable == reliable
    {
      io, changes, kernel, stale := map[], [], map[], {};
      this.useChangelist, this.reliable := useChangelist, reliable;
    }

    /** The kernel: EEXIST and ENOENT tell whether the fd is registered, EBADF and EPERM that it
        cannot be, and any other error may come at any time. */
    method EpollCtl(op: Op, fd: int, kinds: Kinds, et: bool) returns (errno: Errno)
      requires op in {CtlAdd, CtlMod, CtlDel}
      modifies this`kernel
      ensures errno == Success ==> (op == CtlAdd <==> fd !in old(kernel))
      ensures errno == EEXIST ==> op == CtlAdd && fd in kernel
      ensures errno == ENOENT ==> op != CtlAdd && fd !in kernel
      ensures errno == EBADF || errno == EPERM ==> fd !in kernel
      ensures reliable ==> errno in {Success, EEXIST, ENOENT}
      ensures kernel == if errno != Success then old(kernel)
                        else if op == CtlDel then old(kernel) - {fd}
                        else old(kernel)[fd := Reg(kinds, et)]
    {
      if !reliable {
        if * {
          return ENOMEM;
        }
        if fd !in kernel {
          if * {
            return EBADF;
          }
          if * {
            return EPERM;
          }
        }
      }
      if (op == CtlAdd) == (fd in kernel) {
        return if op == CtlAdd then EEXIST else ENOENT;
      }
      kernel := if op == CtlDel then kernel - {fd} else kernel[fd := Reg(kinds, et)];
      return Success;
    }

    /** epoll_apply_one_change.  Whatever the fd was registered for before, even
        nothing, the retries bring it to what a change that is not a no-op leaves. */
    method ApplyOneChange(ch: Change) returns (r: int)
      modifies this`kernel
      ensures r == 0 || r == -1
      ensures kernel == if r == 0 then KernelAfter(old(kernel), ch) else old(kernel)
      ensures IsNoop(ch) || reliable ==> r == 0
    {
      var row := LookUp(ch);
      var op, events := row.op, row.events;
      if events == NOTHING {
        assert op == Zero;
        return 0;
      }
      var et := EdgeTriggered(ch);
      var errno := EpollCtl(op, ch.fd, events, et);
      if errno == Success {
        return 0;
      }
      match op {
        case CtlMod =>
          if errno == ENOENT {
            errno := EpollCtl(CtlAdd, ch.fd, events, et);
            return if errno == Success then 0 else -1;
          }
        case CtlAdd =>
          if errno == EEXIST {
            errno := EpollCtl(CtlMod, ch.fd, events, et);
            return if errno == Success then 0 else -1;
          }
        case CtlDel =>
          if errno == ENOENT || errno == EBADF || errno == EPERM {
            assert kernel - {ch.fd} == kernel;
            return 0;
          }
        case _ =>
      }
      return -1;
    }

    // ---- The changelist ----------------------------------------------------

    /** event_changelist_get_or_construct; -1 if the list cannot grow. */
    method GetOrConstruct(fd: int, old_: Kinds) returns (i: int)
      requires fd in io && IndexOk(Now(), fd) && old_ == Wanted(io[fd])
      modifies this`changes, this`io
      ensures i == -1 ==> Now() == old(Now()) && io[fd].idxplus1 == 0 && !reliable
      ensures i != -1 ==> i >= 0 && Queued(old(Now()), Now(), fd, Pending(old(Now()), fd), i)
    {
      if io[fd].idxplus1 == 0 {
        if !reliable {
          if * {
            return -1;
          }
        }
        i := |changes|;
        changes := changes + [NewChange(fd, old_)];
        io := io[fd := io[fd].(idxplus1 := i + 1)];
      } else {
        i := io[fd].idxplus1 - 1;
        assert changes[i].fd == fd;
      }
    }

    /** event_changelist_add_ */
    method ChangelistAdd(fd: int, old_: Kinds, kinds: Kinds, et: bool) returns (r: int, ghost i: nat)
      requires fd in io && IndexOk(Now(), fd) && old_ == Wanted(io[fd])
      modifies this`changes, this`io
      ensures r == 0 || r == -1
      ensures r == -1 ==> Now() == old(Now()) && io[fd].idxplus1 == 0 && !reliable
      ensures r == 0 ==> Queued(old(Now()), Now(), fd, WithAdd(Pending(old(Now()), fd), kinds, et), i)
    {
      var j := GetOrConstruct(fd, old_);
      if j == -1 {
        return -1, 0;
      }
      changes := changes[j := WithAdd(changes[j], kinds, et)];
      return 0, j;
    }

    /** event_changelist_del_ */
    method ChangelistDel(fd: int, old_: Kinds, kinds: Kinds) returns (r: int, ghost i: nat)
      requires fd in io && IndexOk(Now(), fd) && old_ == Wanted(io[fd])
      modifies this`changes, this`io
      ensures r == 0 || r == -1
      ensures r == -1 ==> Now() == old(Now()) && io[fd].idxplus1 == 0 && !reliable
      ensures r == 0 ==> Queued(old(Now()), Now(), fd, WithDel(Pending(old(Now()), fd), kinds), i)
    {
      var j := GetOrConstruct(fd, old_);
      if j == -1 {
        return -1, 0;
      }
      changes := changes[j := WithDel(changes[j], kinds)];
      return 0, j;
    }

    // ---- The immediate backend ---------------------------------------------

    /** epoll_nochangelist_add */
    method NochangelistAdd(fd: int, old_: Kinds, kinds: Kinds, et: bool) returns (r: int)
      modifies this`kernel
      ensures (r == 0 || r == -1) && (reliable ==> r == 0)
      ensures kernel == if r == 0 then KernelAfter(old(kernel), WithAdd(NewChange(fd, old_), kinds, et)) else old(kernel)
    {
      var ch := NewChange(fd, old_);
      if kinds.write { ch := ch.(write := Add(et)); }
      if kinds.read { ch := ch.(read := Add(et)); }
      if kinds.close { ch := ch.(close := Add(et)); }
      r := ApplyOneChange(ch);
    }

    /** epoll_nochangelist_del: unlike the changelist, this asks for the delete whatever is old. */
    method NochangelistDel(fd: int, old_: Kinds, kinds: Kinds) returns (r: int)
      modifies this`kernel
      ensures (r == 0 || r == -1) && (reliable ==> r == 0)
      ensures kernel == if r == 0 then KernelAfter(old(kernel), PlainDel(fd, old_, kinds)) else old(kernel)
    {
      var ch := NewChange(fd, old_);
      if kinds.write { ch := ch.(write := Del); }
      if kinds.read { ch := ch.(read := Del); }
      if kinds.close { ch := ch.(close := Del); }
      r := ApplyOneChange(ch);
    }

    // ---- evmap_io_add_ and evmap_io_del_ -----------------------------------

    /** evmap_io_add_ */
    method IoAdd(fd: int, ev: Event) returns (r: int)
      requires Valid() && ev.kinds != NOTHING
      modifies this
      ensures Valid() && -1 <= r <= 1
      ensures fd < 0 || r == -1 ==> Unchanged(old(Now()), Now(), fd)
      ensures fd < 0 ==> r == 0
      ensures fd >= 0 && TooMany(Counting(Slot(old(Now()), fd), ev)) ==> r == -1
      ensures r == -1 && reliable ==> TooMany(Counting(Slot(old(Now()), fd), ev))
      ensures fd >= 0 && r >= 0 ==>
                Added(old(Now()), Now(), fd, ev) && (r == 0 <==> Gained(Slot(old(Now()), fd), ev) == NOTHING)
      ensures AddTold(old(Now()), Now(), fd, ev, useChangelist, r)
    {
      r := 0;
      if fd < 0 {
        return 0;
      }
      if !reliable {
        if * {
          return -1;   // no memory for a larger map, or for a slot
        }
      }
      ghost var s := Now();
      if fd !in io {
        NewSlotOk(Now(), fd);
        io := io[fd := NEW_IO];
      }
      ghost var s1 := Now();
      SlotPending(s, s1, fd);
      r := AddToSlot(fd, ev);
      SlotTold(s, s1, Now(), fd, ev, useChangelist, r);
    }

    /** evmap_io_add_ from where the slot exists */
    method AddToSlot(fd: int, ev: Event) returns (r: int)
      requires Valid() && ev.kinds != NOTHING && fd in io
      modifies this
      ensures Valid() && -1 <= r <= 1
      ensures r == -1 ==> Now() == old(Now())
      ensures TooMany(Counting(old(io)[fd], ev)) ==> r == -1
      ensures r == -1 && reliable ==> TooMany(Counting(old(io)[fd], ev))
      ensures r >= 0 ==> Added(old(Now()), Now(), fd, ev) && (r == 0 <==> Gained(old(io)[fd], ev) == NOTHING)
      ensures AddTold(old(Now()), Now(), fd, ev, useChangelist, r)
    {
      var ctx := io[fd];
      var old_ := Kinds(ctx.nread > 0, ctx.nwrite > 0, ctx.nclose > 0);
      var nread, nwrite, nclose, res := CountUp(ctx, ev);
      if nread > 0xffff || nwrite > 0xffff || nclose > 0xffff {
        return -1;
      }
      assert FdOk(Now(), fd);
      CountingCounted(ctx, ev);
      r := Enter(fd, ev, old_, res, ctx.(nread := nread, nwrite := nwrite, nclose := nclose, events := [ev] + ctx.events));
    }

    /** The counts with one more for each kind of ev, and the kinds that are new. */
    method CountUp(ctx: Io, ev: Event) returns (r: nat, w: nat, c: nat, res: Kinds)
      ensures Counting(ctx, ev) == ctx.(nread := r, nwrite := w, nclose := c, events := [ev] + ctx.events)
      ensures res == Gained(ctx, ev)
    {
      r, w, c, res := ctx.nread, ctx.nwrite, ctx.nclose, NOTHING;
      if ev.kinds.read {
        r := r + 1;
        if r == 1 { res := res.(read := true); }
      }
      if ev.kinds.write {
        w := w + 1;
        if w == 1 { res := res.(write := true); }
      }
      if ev.kinds.close {
        c := c + 1;
        if c == 1 { res := res.(close := true); }
      }
    }

    /** The second half of evmap_io_add_: tell the backend, then store. */
    method Enter(fd: int, ev: Event, old_: Kinds, res: Kinds, io': Io) returns (r: int)
      requires Valid() && fd in io && old_ == Wanted(io[fd]) && res == Gained(io[fd], ev)
      requires io' == Counting(io[fd], ev) && Counted(io')
      modifies this
      ensures Valid() && -1 <= r <= 1
      ensures r == -1 ==> Now() == old(Now()) && !reliable
      ensures r >= 0 ==> Added(old(Now()), Now(), fd, ev) && (r == 0 <==> res == NOTHING)
      ensures AddTold(old(Now()), Now(), fd, ev, useChangelist, r)
    {
      r := 0;
      ghost var s := Now();
      assert FdOk(s, fd);
      if res == NOTHING {
        AddKeepsFinal(NewChange(fd, old_), io[fd], ev);
        io := io[fd := io'];
        RecountedOk(s, Now(), fd, io');
      } else if useChangelist {
        r := EnterLater(fd, ev, old_, res, io');
      } else {
        r := EnterNow(fd, ev, old_, res, io');
      }
    }

    method EnterLater(fd: int, ev: Event, old_: Kinds, res: Kinds, io': Io) returns (r: int)
      requires Valid() && useChangelist && fd in io && old_ == Wanted(io[fd]) && res == Gained(io[fd], ev)
      requires io' == Counting(io[fd], ev) && Counted(io') && res != NOTHING
      modifies this
      ensures Valid() && (r == 1 || r == -1)
      ensures r == -1 ==> Now() == old(Now()) && !reliable
      ensures r == 1 ==> Added(old(Now()), Now(), fd, ev)
      ensures AddTold(old(Now()), Now(), fd, ev, true, r)
    {
      ghost var s := Now();
      PendingFinal(s, fd);
      AddKeepsFinal(Pending(s, fd), io[fd], ev);
      ghost var i;
      r, i := ChangelistAdd(fd, old_, res, ev.et);
      if r == -1 {
        return;
      }
      ghost var s1 := Now();
      var io'' := io'.(idxplus1 := io[fd].idxplus1);
      io := io[fd := io''];
      QueuedOk(s, s1, Now(), fd, WithAdd(Pending(s, fd), res, ev.et), i, io'');
      QueuedPending(s, s1, Now(), fd, WithAdd(Pending(s, fd), res, ev.et), i, io'');
      return 1;
    }

    method EnterNow(fd: int, ev: Event, old_: Kinds, res: Kinds, io': Io) returns (r: int)
      requires Valid() && !useChangelist && fd in io && old_ == Wanted(io[fd]) && res == Gained(io[fd], ev)
      requires io' == Counting(io[fd], ev) && Counted(io') && res != NOTHING
      modifies this
      ensures Valid() && (r == 1 || r == -1)
      ensures r == -1 ==> Now() == old(Now()) && !reliable
      ensures r == 1 ==> Added(old(Now()), Now(), fd, ev)
      ensures AddTold(old(Now()), Now(), fd, ev, false, r)
    {
      ghost var s := Now();
      AddKeepsFinal(NewChange(fd, old_), io[fd], ev);
      r := NochangelistAdd(fd, old_, res, ev.et);
      if r == -1 {
        return;
      }
      stale := stale - {fd};
      io := io[fd := io'];
      AppliedOk(s, Now(), fd, WithAdd(NewChange(fd, old_), res, ev.et), io');
      return 1;
    }

    /** evmap_io_del_; an fd without a slot counts as one beyond the end of the map. */
    method IoDel(fd: int, ev: Event) returns (r: int)
      requires Valid() && ev.kinds != NOTHING
      requires fd in io ==> ev in io[fd].events
      modifies this
      ensures Valid() && -1 <= r <= 1 && (reliable && fd in old(io) ==> r != -1)
      ensures fd < 0 ==> r == 0 && Now() == old(Now())
      ensures fd >= 0 && fd !in old(io) ==> r == -1 && Now() == old(Now())
      ensures fd >= 0 && fd in old(io) ==>
                && Removed(old(Now()), Now(), fd, ev) && (r == 0 <==> Lost(Slot(old(Now()), fd), ev) == NOTHING)
                && DelTold(old(Now()), Now(), fd, ev, useChangelist, r)
    {
      if fd < 0 {
        return 0;
      }
      if fd !in io {
        return -1;
      }
      var ctx := io[fd];
      assert FdOk(Now(), fd);
      DiscountingCounted(ctx, ev);
      var nread: int, nwrite: int, nclose: int := ctx.nread, ctx.nwrite, ctx.nclose;
      var old_ := Kinds(nread > 0, nwrite > 0, nclose > 0);
      var res := NOTHING;
      if ev.kinds.read {
        nread := nread - 1;
        if nread == 0 { res := res.(read := true); }
        assert nread >= 0;
      }
      if ev.kinds.write {
        nwrite := nwrite - 1;
        if nwrite == 0 { res := res.(write := true); }
        assert nwrite >= 0;
      }
      if ev.kinds.close {
        nclose := nclose - 1;
        if nclose == 0 { res := res.(close := true); }
        assert nclose >= 0;
      }
      r := Leave(fd, ev, old_, res, io[fd].(nread := nread, nwrite := nwrite, nclose := nclose, events := Without(io[fd].events, ev)));
    }

    /** The second half of evmap_io_del_: tell the backend, and store in any case. */
    method Leave(fd: int, ev: Event, old_: Kinds, res: Kinds, io': Io) returns (r: int)
      requires Valid() && fd in io && ev in io[fd].events && ev.kinds != NOTHING
      requires old_ == Wanted(io[fd]) && res == Lost(io[fd], ev) && io' == Discounting(io[fd], ev)
      modifies this
      ensures Valid() && -1 <= r <= 1 && (reliable ==> r != -1)
      ensures Removed(old(Now()), Now(), fd, ev) && (r == 0 <==> res == NOTHING)
      ensures DelTold(old(Now()), Now(), fd, ev, useChangelist, r)
    {
      r := 0;
      ghost var s := Now();
      assert FdOk(s, fd);
      if res == NOTHING {
        DiscountingCounted(io[fd], ev);
        DelKeepsFinal(NewChange(fd, old_), io[fd], ev);
        io := io[fd := io'];
        RecountedOk(s, Now(), fd, io');
      } else if useChangelist {
        r := LeaveLater(fd, ev, old_, res, io');
      } else {
        r := LeaveNow(fd, ev, old_, res, io');
      }
    }

    method LeaveLater(fd: int, ev: Event, old_: Kinds, res: Kinds, io': Io) returns (r: int)
      requires Valid() && useChangelist && fd in io && ev in io[fd].events && ev.kinds != NOTHING && res != NOTHING
      requires old_ == Wanted(io[fd]) && res == Lost(io[fd], ev) && io' == Discounting(io[fd], ev)
      modifies this
      ensures Valid() && (r == 1 || r == -1) && (reliable ==> r == 1)
      ensures Removed(old(Now()), Now(), fd, ev) && DelTold(old(Now()), Now(), fd, ev, true, r)
    {
      ghost var s := Now();
      PendingFinal(s, fd);
      DiscountingCounted(io[fd], ev);
      DelKeepsFinal(Pending(s, fd), io[fd], ev);
      ghost var i;
      r, i := ChangelistDel(fd, old_, res);
      ghost var s1 := Now();
      var io'' := io'.(idxplus1 := io[fd].idxplus1);
      io := io[fd := io''];
      if r == -1 {
        stale := stale + {fd};
        FailedOk(s, Now(), fd, io'');
      } else {
        r := 1;
        QueuedOk(s, s1, Now(), fd, WithDel(Pending(s, fd), res), i, io'');
        QueuedPending(s, s1, Now(), fd, WithDel(Pending(s, fd), res), i, io'');
      }
    }

    method LeaveNow(fd: int, ev: Event, old_: Kinds, res: Kinds, io': Io) returns (r: int)
      requires Valid() && !useChangelist && fd in io && ev in io[fd].events && ev.kinds != NOTHING && res != NOTHING
      requires old_ == Wanted(io[fd]) && res == Lost(io[fd], ev) && io' == Discounting(io[fd], ev)
      modifies this
      ensures Valid() && (r == 1 || r == -1) && (reliable ==> r == 1)
      ensures Removed(old(Now()), Now(), fd, ev) && DelTold(old(Now()), Now(), fd, ev, false, r)
    {
      ghost var s := Now();
      assert FdOk(s, fd);
      DiscountingCounted(io[fd], ev);
      DelKeepsFinal(NewChange(fd, old_), io[fd], ev);
      r := NochangelistDel(fd, old_, res);
      io := io[fd := io'];
      if r == -1 {
        stale := stale + {fd};
        FailedOk(s, Now(), fd, io');
      } else {
        r := 1;
        stale := stale - {fd};
        AppliedOk(s, Now(), fd, PlainDel(fd, old_, res), io');
      }
    }

    // ---- epoll_dispatch ----------------------------------------------------

    /** epoll_apply_changes */
    method ApplyChanges() returns (r: int, ghost took: seq<bool>)
      requires DistinctFds(changes)
      modifies this`kernel
      ensures AppliedAll(old(kernel), kernel, changes, took)
      ensures (r == 0 || r == -1) && (r == 0 <==> forall i :: 0 <= i < |took| ==> took[i])
      ensures reliable ==> r == 0
    {
      r, took := 0, [];
      var i := 0;
      while i < |changes|
        invariant i <= |changes| && (r == 0 || r == -1) && (reliable ==> r == 0)
        invariant AppliedAll(old(kernel), kernel, changes[..i], took)
        invariant r == 0 <==> forall j :: 0 <= j < |took| ==> took[j]
      {
        ghost var k1, before := kernel, changes[..i];
        var rr := ApplyOneChange(changes[i]);
        assert changes[..i + 1] == before + [changes[i]];
        assert Absent(before, changes[i].fd);
        AppliedOneMore(old(kernel), k1, kernel, before, took, changes[i], rr == 0);
        took := took + [rr == 0];
        assert took[i] == (rr == 0);
        if rr < 0 {
          r := -1;
        }
        i := i + 1;
      }
      assert changes[..i] == changes;
    }

    /** event_changelist_remove_all_ */
    method RemoveAll()
      requires forall i :: 0 <= i < |changes| ==> changes[i].fd in io && io[changes[i].fd].idxplus1 == i + 1
      requires forall fd :: fd in io ==> IndexOk(Now(), fd)
      modifies this`io, this`changes
      ensures changes == [] && io.Keys == old(io).Keys
      ensures forall fd :: fd in io ==> io[fd] == old(io)[fd].(idxplus1 := 0)
    {
      var i := 0;
      while i < |changes|
        invariant i <= |changes| && changes == old(changes) && io.Keys == old(io).Keys
        invariant forall fd :: fd in io ==>
          io[fd] == if 0 < old(io)[fd].idxplus1 <= i then old(io)[fd].(idxplus1 := 0) else old(io)[fd]
      {
        var fd := changes[i].fd;
        assert io[fd].idxplus1 == i + 1;
        io := io[fd := io[fd].(idxplus1 := 0)];
        forall f | f in io
          ensures io[f] == if 0 < old(io)[f].idxplus1 <= i + 1 then old(io)[f].(idxplus1 := 0) else old(io)[f]
        {
          if old(io)[f].idxplus1 == i + 1 {
            assert IndexOk(old(Now()), f);
          }
        }
        i := i + 1;
      }
      forall fd | fd in io ensures io[fd] == old(io)[fd].(idxplus1 := 0) {
        assert IndexOk(old(Now()), fd);
      }
      changes := [];
    }

    /** The part of epoll_dispatch before epoll_wait; took says which changes the kernel took. */
    method Dispatch() returns (ghost took: seq<bool>)
      requires Valid()
      modifies this
      ensures Valid() && Dispatched(old(Now()), Now(), took)
      ensures reliable ==> stale <= old(stale) && forall i :: 0 <= i < |took| ==> took[i]
      ensures forall fd :: fd in io && fd !in stale ==> KindsOf(kernel, fd) == Wanted(io[fd])
      ensures forall i :: 0 <= i < |took| && took[i] && !IsNoop(old(changes)[i]) ==> EdgeAsAsked(old(Now()), kernel, old(changes)[i].fd)
    {
      ghost var s := Now();
      ChangesDistinct(s);
      var r;
      r, took := ApplyChanges();
      forall i | 0 <= i < |changes| ensures changes[i].fd in io && io[changes[i].fd].idxplus1 == i + 1 {
        assert ChangeOk(s, i);
      }
      forall fd | fd in io ensures IndexOk(Now(), fd) {
        assert FdOk(s, fd);
      }
      RemoveAll();
      stale := stale - Settled(old(changes), took, true) + Settled(old(changes), took, false);
      DispatchOk(s, Now(), took);
      forall i | 0 <= i < |took| && took[i] && !IsNoop(s.changes[i])
        ensures EdgeAsAsked(s, kernel, s.changes[i].fd)
      {
        assert ChangeOk(s, i) && Outcome(s.kernel, kernel, s.changes[i], took[i]) && FdOk(s, s.changes[i].fd);
      }
    }

    /** Not the program's doing: fd is closed, the kernel forgets it, and the
        number comes back for another file, all behind the map's back. */
    method CloseAndReopen(fd: int)
      requires Valid()
      modifies this`kernel, this`stale
      ensures Valid() && kernel == old(kernel) - {fd} && stale == old(stale) + {fd}
    {
      ghost var s := Now();
      kernel, stale := kernel - {fd}, stale + {fd};
      forall j | 0 <= j < |changes| ensures ChangeOk(Now(), j) { assert ChangeOk(s, j); }
      forall f | f in io ensures FdOk(Now(), f) { assert FdOk(s, f); }
      forall f | f in kernel ensures f in io && RegOk(kernel, f) { assert RegOk(s.kernel, f); }
    }
  }

  /** What remains of fd is edge-triggered exactly when its change asked for it. */
  ghost predicate EdgeAsAsked(s: State, k: Kernel, fd: int) {
    fd in k ==> (k[fd].et <==> EtRead(s, fd) || EtWrite(s, fd))
  }

  const READING := Event(0, Kinds(true, false, false), true)
  const WRITING := Event(1, Kinds(false, true, false), true)

  /** An edge-triggered event for reading and another for writing, dispatched */
  method BothDispatched(fd: int, useChangelist: bool) returns (base: EventBase)
    requires fd >= 0
    ensures fresh(base) && base.Valid() && base.reliable && base.useChangelist == useChangelist
    ensures fd in base.io && base.io[fd] == Io(1, 1, 0, [WRITING, READING], 0) && base.changes == [] && base.stale == {}
  {
    base := new EventBase(useChangelist, true);
    var r := base.IoAdd(fd, READING);
    r := base.IoAdd(fd, WRITING);
    ghost var took := base.Dispatch();
  }

  /** The kinds come out right, but not the edge triggering: deleting the event for writing leaves
      the one for reading, which asked for edge triggering, level-triggered. */
  method EdgeTriggerLost(fd: int, useChangelist: bool) returns (base: EventBase)
    requires fd >= 0
    ensures fresh(base) && base.Valid() && fd in base.io && base.io[fd].events == [READING]
    ensures At(base.kernel, fd) == Some(Reg(READING.kinds, false))
  {
    base := BothDispatched(fd, useChangelist);
    var r := base.IoDel(fd, WRITING);
    ghost var took := base.Dispatch();
  }

  // ---- Whole runs ----------------------------------------------------------

  datatype Call = CallAdd(fd: int, ev: Event) | CallDel(fd: int, ev: Event) | CallDispatch | CallReopen(fd: int)

  /** Same counters and events everywhere. */
  ghost predicate SameEvents(s: State, t: State) {
    forall fd :: SameAt(s, t, fd)
  }

  lemma AddsAgree(s: State, s': State, t: State, t': State, fd: int, ev: Event)
    requires SameEvents(s, t) && Added(s, s', fd, ev) && Added(t, t', fd, ev)
    ensures SameEvents(s', t')
  {
    forall f
      ensures SameAt(s', t', f)
    {
      assert SameAt(s, t, f) && SameAt(s, t, fd);
    }
  }

  lemma DelsAgree(s: State, s': State, t: State, t': State, fd: int, ev: Event)
    requires SameEvents(s, t) && Removed(s, s', fd, ev) && Removed(t, t', fd, ev)
    ensures SameEvents(s', t')
  {
    forall f
      ensures SameAt(s', t', f)
    {
      assert SameAt(s, t, f) && SameAt(s, t, fd);
    }
  }

  /** One call on both bases; agreed tells that both succeeded or both failed. */
  method StepBoth(a: EventBase, b: EventBase, call: Call) returns (agreed: bool)
    requires a != b && a.Valid() && b.Valid() && SameEvents(a.Now(), b.Now())
    requires (call.CallAdd? || call.CallDel?) ==> call.ev.kinds != NOTHING
    modifies a, b
    ensures a.Valid() && b.Valid() && (agreed ==> SameEvents(a.Now(), b.Now()))
    ensures a.reliable && b.reliable ==> agreed
    ensures !call.CallAdd? ==> agreed
    ensures call.CallDispatch? ==> a.changes == [] && b.changes == []
    ensures a.reliable ==> a.stale <= old(a.stale) + Reopened([call])
    ensures b.reliable ==> b.stale <= old(b.stale) + Reopened([call])
  {
    agreed := true;
    ghost var s, t := a.Now(), b.Now();
    match call {
      case CallAdd(fd, ev) =>
        assert SameAt(s, t, fd);
        var ra := a.IoAdd(fd, ev);
        var rb := b.IoAdd(fd, ev);
        agreed := (ra == -1) == (rb == -1);
        if fd >= 0 && ra != -1 && rb != -1 {
          AddsAgree(s, a.Now(), t, b.Now(), fd, ev);
        } else if agreed {
          forall f ensures SameAt(a.Now(), b.Now(), f) {
            assert SameAt(s, t, f);
          }
        }
      case CallDel(fd, ev) =>
        // the caller only deletes what it added
        assert SameAt(s, t, fd);
        if fd in a.io && ev in a.io[fd].events {
          assert FdOk(s, fd);
          var ra := a.IoDel(fd, ev);
          var rb := b.IoDel(fd, ev);
          DelsAgree(s, a.Now(), t, b.Now(), fd, ev);
        }
      case CallDispatch =>
        ghost var tooka := a.Dispatch();
        ghost var tookb := b.Dispatch();
        forall f ensures SameAt(a.Now(), b.Now(), f) {
          assert SameAt(s, t, f);
        }
      case CallReopen(fd) =>
        a.CloseAndReopen(fd);
        b.CloseAndReopen(fd);
        assert [call][0] == call;
        forall f ensures SameAt(a.Now(), b.Now(), f) {
          assert SameAt(s, t, f);
        }
    }
  }

  /** The fds that are closed and reopened in a run. */
  ghost function Reopened(calls: seq<Call>): set<int> {
    set i | 0 <= i < |calls| && calls[i].CallReopen? :: calls[i].fd
  }

  lemma ReopenedMore(calls: seq<Call>, i: nat)
    requires i < |calls|
    ensures Reopened(calls[..i + 1]) == Reopened(calls[..i]) + Reopened([calls[i]])
  {
    var all, one := calls[..i + 1], [calls[i]];
    forall fd | fd in Reopened(calls[..i]) + Reopened(one)
      ensures fd in Reopened(all)
    {
      if fd in Reopened(calls[..i]) {
        var j :| 0 <= j < i && calls[..i][j].CallReopen? && calls[..i][j].fd == fd;
        assert all[j] == calls[..i][j];
      } else {
        assert all[i] == one[0];
      }
    }
    forall fd | fd in Reopened(all)
      ensures fd in Reopened(calls[..i]) + Reopened(one)
    {
      var j :| 0 <= j <= i && all[j].CallReopen? && all[j].fd == fd;
      assert if j < i then calls[..i][j] == all[j] else one[0] == all[j];
    }
  }

  /** With nothing pending, the same events mean the same interest in the kernel. */
  lemma KernelsAgree(s: State, t: State)
    requires Ok(s) && Ok(t) && SameEvents(s, t) && s.changes == [] && t.changes == []
    ensures forall fd :: fd !in s.stale && fd !in t.stale ==> KindsOf(s.kernel, fd) == KindsOf(t.kernel, fd)
  {
    forall fd | fd !in s.stale && fd !in t.stale
      ensures KindsOf(s.kernel, fd) == KindsOf(t.kernel, fd)
    {
      assert SameAt(s, t, fd) && (fd in s.io ==> FdOk(s, fd)) && (fd in t.io ==> FdOk(t, fd));
    }
  }

  /** Coalesced and immediate application agree: the same calls on two bases, each with either
      backend, and a dispatch at the end leave the kernels with the same kinds, unless a call
      succeeded on one base and failed on the other, for every fd that is not stale. */
  method BackendsAgree(calls: seq<Call>, useA: bool, useB: bool, reliable: bool) returns (a: EventBase, b: EventBase, agreed: bool)
    requires forall i :: 0 <= i < |calls| && (calls[i].CallAdd? || calls[i].CallDel?) ==> calls[i].ev.kinds != NOTHING
    ensures a.Valid() && b.Valid() && a.useChangelist == useA && b.useChangelist == useB
    ensures reliable ==> agreed && a.stale <= Reopened(calls) && b.stale <= Reopened(calls)
    ensures agreed ==> SameEvents(a.Now(), b.Now())
    ensures agreed ==> forall fd :: fd !in a.stale && fd !in b.stale ==> KindsOf(a.kernel, fd) == KindsOf(b.kernel, fd)
  {
    a := new EventBase(useA, reliable);
    b := new EventBase(useB, reliable);
    agreed := true;
    var i := 0;
    while i < |calls| && agreed
      invariant i <= |calls| && a != b && fresh(a) && fresh(b) && a.Valid() && b.Valid()
      invariant agreed ==> SameEvents(a.Now(), b.Now())
      invariant reliable ==> agreed && a.stale <= Reopened(calls[..i]) && b.stale <= Reopened(calls[..i])
    {
      ReopenedMore(calls, i);
      agreed := StepBoth(a, b, calls[i]);
      i := i + 1;
    }
    if agreed {
      assert calls[..i] == calls;
      agreed := StepBoth(a, b, CallDispatch);
      assert Reopened([CallDispatch]) == {};
      KernelsAgree(a.Now(), b.Now());
    }
  }
}
