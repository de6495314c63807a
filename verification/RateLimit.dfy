/** Bandwidth suspension of one bufferevent and the timer that ends it
    (net/libevent/src/bufferevent_ratelim.c, flags as in bufferevent.c:66-112): no side sleeps
    without an alarm, and what is read and written goes through the runs of TokenBucket. */
module RateLimit {
  import opened Sequences
  import opened TokenBucket

  datatype Flag = Wm | Bw | BwGroup | Lookup | FiltRead

  class CfgObject {
    const c: Cfg

    constructor (c: Cfg)
      ensures this.c == c
    {
      this.c := c;
    }
  }

  /** The rate-limiting part of a bufferevent that is in no group. */
  class Bufferevent {
    const limit: Bucket
    const enabledRead: bool
    const enabledWrite: bool
    var cfg: CfgObject?               // rate_limiting->cfg, null also without rate_limiting
    var readSuspended: set<Flag>
    var writeSuspended: set<Flag>
    var readOn: bool                  // the back end reads
    var writeOn: bool
    var timerPending: bool            // refill_bucket_event is pending

    /** The back end runs exactly when it is wanted and nothing suspends it. */
    ghost predicate Switched()
      reads this
    {
      && (readOn <==> enabledRead && readSuspended == {})
      && (writeOn <==> enabledWrite && writeSuspended == {})
    }

    /** Nobody sleeps without an alarm: a bandwidth suspension has its refill timer pending,
        and an exhausted limit has its suspension. */
    ghost predicate Inv()
      reads this, limit
    {
      && Switched()
      && (cfg == null ==> Bw !in readSuspended && Bw !in writeSuspended && !timerPending)
      && (cfg != null ==>
            && CfgOk(cfg.c) && limit.Fits(cfg.c)
            && (Bw in readSuspended || Bw in writeSuspended ==> timerPending)
            && (limit.readLimit <= 0 ==> Bw in readSuspended)
            && (limit.writeLimit <= 0 ==> Bw in writeSuspended))
    }

    constructor (limit: Bucket, enabledRead: bool, enabledWrite: bool)
      ensures Inv() && this.limit == limit && cfg == null
    {
      this.limit, this.enabledRead, this.enabledWrite := limit, enabledRead, enabledWrite;
      cfg, readSuspended, writeSuspended, readOn, writeOn, timerPending := null, {}, {}, enabledRead, enabledWrite, false;
    }

    // -- Flags --

    /** bufferevent_suspend_read_ */
    method SuspendRead(what: Flag)
      requires Switched()
      modifies `readSuspended, `readOn
      ensures Switched() && readSuspended == old(readSuspended) + {what}
    {
      if readSuspended == {} {
        readOn := false;
      }
      readSuspended := readSuspended + {what};
    }

    /** bufferevent_unsuspend_read_ */
    method UnsuspendRead(what: Flag)
      requires Switched()
      modifies `readSuspended, `readOn
      ensures Switched() && readSuspended == old(readSuspended) - {what}
    {
      readSuspended := readSuspended - {what};
      if readSuspended == {} && enabledRead {
        readOn := true;
      }
    }

    /** bufferevent_suspend_write_ */
    method SuspendWrite(what: Flag)
      requires Switched()
      modifies `writeSuspended, `writeOn
      ensures Switched() && writeSuspended == old(writeSuspended) + {what}
    {
      if writeSuspended == {} {
        writeOn := false;
      }
      writeSuspended := writeSuspended + {what};
    }

    /** bufferevent_unsuspend_write_ */
    method UnsuspendWrite(what: Flag)
      requires Switched()
      modifies `writeSuspended, `writeOn
      ensures Switched() && writeSuspended == old(writeSuspended) - {what}
    {
      writeSuspended := writeSuspended - {what};
      if writeSuspended == {} && enabledWrite {
        writeOn := true;
      }
    }

    /** event_add of the refill event; ok says whether it succeeds. */
    method AddTimer(ok: bool) returns (r: int)
      modifies `timerPending
      ensures ok ==> timerPending && r == 0
      ensures !ok ==> timerPending == old(timerPending) && r == -1
    {
      if ok {
        timerPending := true;
        return 0;
      }
      return -1;
    }

    // -- Spending --

    /** bufferevent_update_buckets, at a tick */
    method UpdateBuckets(tick: nat)
      requires Inv() && cfg != null && tick < TICKS
      modifies limit
      ensures Inv()
      ensures var n := Elapsed(tick, old(limit.lastUpdated));
              && limit.readLimit == Min(cfg.c.readMaximum, old(limit.readLimit) + n * cfg.c.readRate)
              && limit.writeLimit == Min(cfg.c.writeMaximum, old(limit.writeLimit) + n * cfg.c.writeRate)
              && limit.lastUpdated == if n > 0 then tick else old(limit.lastUpdated)
    {
      if tick != limit.lastUpdated {
        var updated := limit.UpdateFitting(cfg.c, tick);
      }
    }

    /** bufferevent_get_rlim_max_, at a tick */
    method GetRlimMax(isWrite: bool, tick: nat, maxSingle: nat) returns (n: nat)
      requires Inv() && tick < TICKS
      modifies limit
      ensures Inv()
      ensures cfg == null ==> n == maxSingle && limit.readLimit == old(limit.readLimit) && limit.writeLimit == old(limit.writeLimit)
      ensures cfg != null ==>
                var l, e := if isWrite then limit.writeLimit else limit.readLimit, Elapsed(tick, old(limit.lastUpdated));
                && n == (if l < 0 then 0 else l)
                && limit.readLimit == Min(cfg.c.readMaximum, old(limit.readLimit) + e * cfg.c.readRate)
                && limit.writeLimit == Min(cfg.c.writeMaximum, old(limit.writeLimit) + e * cfg.c.writeRate)
                && limit.lastUpdated == if e > 0 then tick else old(limit.lastUpdated)
    {
      if cfg == null {
        return maxSingle;
      }
      UpdateBuckets(tick);
      var l := if isWrite then limit.writeLimit else limit.readLimit;
      n := if l < 0 then 0 else l;
    }

    /** bufferevent_decrement_read_buckets_; less than no bytes are given back, as after an asynchronous
        read of less than was asked for. */
    method DecrementReadBuckets(bytes: int, addOk: bool) returns (r: int)
      requires Inv() && (cfg != null ==> SSIZE_MIN <= limit.readLimit - bytes <= SSIZE_MAX)
      modifies this, limit
      ensures addOk ==> r == 0 && (Inv() <==> cfg == null || limit.readLimit <= cfg.c.readMaximum)
      ensures cfg == old(cfg) && limit.writeLimit == old(limit.writeLimit) && limit.lastUpdated == old(limit.lastUpdated)
      ensures limit.readLimit == if cfg == null then old(limit.readLimit) else old(limit.readLimit) - bytes
      ensures cfg != null ==> (Bw in readSuspended <==> limit.readLimit <= 0)
      ensures writeSuspended == old(writeSuspended) && readSuspended - {Bw} == old(readSuspended) - {Bw}
    {
      r := 0;
      if cfg == null {
        return;
      }
      limit.readLimit := limit.readLimit - bytes;
      if limit.readLimit <= 0 {
        SuspendRead(Bw);
        r := AddTimer(addOk);
      } else if Bw in readSuspended {
        if Bw !in writeSuspended {
          timerPending := false;
        }
        UnsuspendRead(Bw);
      }
    }

    /** bufferevent_decrement_write_buckets_ */
    method DecrementWriteBuckets(bytes: int, addOk: bool) returns (r: int)
      requires Inv() && (cfg != null ==> SSIZE_MIN <= limit.writeLimit - bytes <= SSIZE_MAX)
      modifies this, limit
      ensures addOk ==> r == 0 && (Inv() <==> cfg == null || limit.writeLimit <= cfg.c.writeMaximum)
      ensures cfg == old(cfg) && limit.readLimit == old(limit.readLimit) && limit.lastUpdated == old(limit.lastUpdated)
      ensures limit.writeLimit == if cfg == null then old(limit.writeLimit) else old(limit.writeLimit) - bytes
      ensures cfg != null ==> (Bw in writeSuspended <==> limit.writeLimit <= 0)
      ensures readSuspended == old(readSuspended) && writeSuspended - {Bw} == old(writeSuspended) - {Bw}
    {
      r := 0;
      if cfg == null {
        return;
      }
      limit.writeLimit := limit.writeLimit - bytes;
      if limit.writeLimit <= 0 {
        SuspendWrite(Bw);
        r := AddTimer(addOk);
      } else if Bw in writeSuspended {
        if Bw !in readSuspended {
          timerPending := false;
        }
        UnsuspendWrite(Bw);
      }
    }

    // -- Steps of a run --

    /** The limits as a run sees them. */
    ghost function ReadSide(now: nat): Side
      reads this, limit
      requires limit.lastUpdated < TICKS
    {
      Side(limit.readLimit, limit.lastUpdated, now)
    }

    ghost function WriteSide(now: nat): Side
      reads this, limit
      requires limit.lastUpdated < TICKS
    {
      Side(limit.writeLimit, limit.lastUpdated, now)
    }

    /** Both sides have made a step at a true time: so much was read and written. */
    twostate predicate Stepped(before: nat, time: nat, bytesRead: nat, bytesWritten: nat)
      requires old(cfg) != null && old(limit.lastUpdated) < TICKS
      reads this, limit
    {
      && cfg == old(cfg) && cfg != null && limit.lastUpdated < TICKS
      && ReadSide(time) == After(cfg.c.readMaximum, cfg.c.readRate)(old(ReadSide(before)), Step(time, bytesRead))
      && WriteSide(time) == After(cfg.c.writeMaximum, cfg.c.writeRate)(old(WriteSide(before)), Step(time, bytesWritten))
    }

    /** One read of at most want bytes: ask what may be read at a true time, read at most that, count it. */
    method ReadStep(time: nat, want: nat, ghost before: nat, addOk: bool) returns (bytes: nat)
      requires Inv() && cfg != null
      modifies this, limit
      ensures cfg == old(cfg) && (addOk ==> Inv()) && Stepped(before, time, bytes, 0)
      ensures bytes == Min(want, Allowed(old(ReadSide(before)), cfg.c.readMaximum, cfg.c.readRate, time))
    {
      var n := GetRlimMax(false, time % TICKS, 0);
      bytes := if want < n then want else n;
      var r := DecrementReadBuckets(bytes, addOk);
    }

    method WriteStep(time: nat, want: nat, ghost before: nat, addOk: bool) returns (bytes: nat)
      requires Inv() && cfg != null
      modifies this, limit
      ensures cfg == old(cfg) && (addOk ==> Inv()) && Stepped(before, time, 0, bytes)
      ensures bytes == Min(want, Allowed(old(WriteSide(before)), cfg.c.writeMaximum, cfg.c.writeRate, time))
    {
      var n := GetRlimMax(true, time % TICKS, 0);
      bytes := if want < n then want else n;
      var r := DecrementWriteBuckets(bytes, addOk);
    }

    /** bufferevent_decrement_read_limit, which may also give bytes back */
    method DecrementReadLimit(decr: int, addOk: bool) returns (r: int)
      requires Inv() && cfg != null && SSIZE_MIN <= limit.readLimit - decr <= SSIZE_MAX
      modifies this, limit
      ensures cfg == old(cfg) && limit.readLimit == old(limit.readLimit) - decr
      ensures addOk ==> r == 0 && (Inv() <==> limit.readLimit <= cfg.c.readMaximum)
      ensures limit.writeLimit == old(limit.writeLimit) && limit.lastUpdated == old(limit.lastUpdated)
      ensures writeSuspended == old(writeSuspended) && readSuspended - {Bw} == old(readSuspended) - {Bw}
    {
      var oldLimit := limit.readLimit;
      limit.readLimit := limit.readLimit - decr;
      r := 0;
      if oldLimit > 0 && limit.readLimit <= 0 {
        SuspendRead(Bw);
        r := AddTimer(addOk);
      } else if oldLimit <= 0 && limit.readLimit > 0 {
        if Bw !in writeSuspended {
          timerPending := false;
        }
        UnsuspendRead(Bw);
      }
    }

    // -- Refilling --

    /** bev_refill_callback_: the one-shot timer has fired. */
    method RefillCallback(tick: nat, addOk: bool)
      requires Inv() && timerPending && tick < TICKS
      modifies this, limit
      ensures addOk ==> Inv()
      ensures cfg == old(cfg)
      ensures cfg != null ==>
                var n := Elapsed(tick, old(limit.lastUpdated));
                && limit.readLimit == Min(cfg.c.readMaximum, old(limit.readLimit) + n * cfg.c.readRate)
                && limit.writeLimit == Min(cfg.c.writeMaximum, old(limit.writeLimit) + n * cfg.c.writeRate)
                && limit.lastUpdated == (if n > 0 then tick else old(limit.lastUpdated))
                && (Bw in readSuspended <==> limit.readLimit <= 0)
                && (Bw in writeSuspended <==> limit.writeLimit <= 0)
                && (addOk ==> (timerPending <==> Bw in readSuspended || Bw in writeSuspended))
    {
      timerPending := false;
      if cfg == null {
        return;
      }
      var again := false;
      var updated := limit.UpdateFitting(cfg.c, tick);
      if Bw in readSuspended {
        if limit.readLimit > 0 {
          UnsuspendRead(Bw);
        } else {
          again := true;
        }
      }
      if Bw in writeSuspended {
        if limit.writeLimit > 0 {
          UnsuspendWrite(Bw);
        } else {
          again := true;
        }
      }
      if again {
        var r := AddTimer(addOk);
      }
    }

    /** The timer fires at a true time. */
    method FireStep(time: nat, ghost before: nat, addOk: bool)
      requires Inv() && cfg != null && timerPending
      modifies this, limit
      ensures (addOk ==> Inv()) && Stepped(before, time, 0, 0)
    {
      RefillCallback(time % TICKS, addOk);
    }

    /** bufferevent_set_rate_limit; memory stands for the allocation of rate_limiting. */
    method SetRateLimit(newCfg: CfgObject?, tick: nat, memory: bool, addOk: bool) returns (r: int)
      requires Inv() && tick < TICKS && (newCfg != null ==> CfgOk(newCfg.c))
      modifies this, limit
      ensures addOk ==> Inv()
      ensures r == 0 ==> cfg == newCfg
      ensures r == -1 ==> !memory && old(cfg) == null && newCfg != null && cfg == null
      ensures r == 0 || r == -1
      ensures r == 0 && newCfg != null && newCfg != old(cfg) ==>
                && (Bw in readSuspended <==> limit.readLimit <= 0)
                && (Bw in writeSuspended <==> limit.writeLimit <= 0)
      ensures r == 0 && newCfg != null && old(cfg) == null ==>
                && limit.readLimit == newCfg.c.readRate && limit.writeLimit == newCfg.c.writeRate
                && limit.lastUpdated == tick
      ensures r == 0 && newCfg != null && old(cfg) != null && newCfg != old(cfg) ==>
                && limit.readLimit == Min(old(limit.readLimit), newCfg.c.readMaximum)
                && limit.writeLimit == Min(old(limit.writeLimit), newCfg.c.writeMaximum)
                && limit.lastUpdated == old(limit.lastUpdated)
      ensures newCfg == null || newCfg == old(cfg) || r == -1 ==>
                && limit.readLimit == old(limit.readLimit) && limit.writeLimit == old(limit.writeLimit)
                && limit.lastUpdated == old(limit.lastUpdated)
      ensures newCfg == null ==> Bw !in readSuspended && Bw !in writeSuspended && !timerPending
      ensures readSuspended - {Bw} == old(readSuspended) - {Bw} && writeSuspended - {Bw} == old(writeSuspended) - {Bw}
    {
      if newCfg == null {
        cfg := null;
        UnsuspendRead(Bw);
        UnsuspendWrite(Bw);
        timerPending := false;
        return 0;
      }
      if cfg == newCfg {
        return 0;
      }
      if cfg == null && !memory {
        return -1;
      }
      var reinit := cfg != null;
      cfg := newCfg;
      limit.Init(newCfg.c, tick, reinit);
      timerPending := false;
      var suspended := false;
      if limit.readLimit > 0 {
        UnsuspendRead(Bw);
      } else {
        SuspendRead(Bw);
        suspended := true;
      }
      if limit.writeLimit > 0 {
        UnsuspendWrite(Bw);
      } else {
        SuspendWrite(Bw);
        suspended := true;
      }
      if suspended {
        var added := AddTimer(addOk);
      }
      return 0;
    }

    /** The timer fires at the given true times until it is no longer pending: with enough
        firings, each at least one tick after the one before, both suspensions end. */
    method FireUntilClear(start: nat, times: seq<nat>)
      requires Inv() && cfg != null && limit.lastUpdated == start % TICKS
      requires forall i :: 0 <= i < |times| ==> 0 < times[i] - Previous(start, times, i) <= INT_MAX
      requires |times| >= Firings(limit.readLimit, cfg.c.readRate) && |times| >= Firings(limit.writeLimit, cfg.c.writeRate) && |times| > 0
      modifies this, limit
      ensures Inv() && cfg == old(cfg) && Bw !in readSuspended && Bw !in writeSuspended
    {
      ghost var read0, write0 := limit.readLimit, limit.writeLimit;
      var i := 0;
      while i < |times| && timerPending
        invariant i <= |times| && Inv() && cfg == old(cfg)
        invariant timerPending ==> limit.lastUpdated == Previous(start, times, i) % TICKS
        invariant timerPending ==> limit.readLimit >= Min(cfg.c.readMaximum, read0 + i * cfg.c.readRate)
        invariant timerPending ==> limit.writeLimit >= Min(cfg.c.writeMaximum, write0 + i * cfg.c.writeRate)
        invariant i > 0 ==> (Bw in readSuspended <==> limit.readLimit <= 0) && (Bw in writeSuspended <==> limit.writeLimit <= 0)
      {
        var n := times[i] - Previous(start, times, i);
        ElapsedIsGap(Previous(start, times, i), times[i]);
        RoundHelps(limit.readLimit, cfg.c.readMaximum, read0, cfg.c.readRate, i, n);
        RoundHelps(limit.writeLimit, cfg.c.writeMaximum, write0, cfg.c.writeRate, i, n);
        RefillCallback(times[i] % TICKS, true);
        i := i + 1;
      }
      if timerPending {
        Enough(read0, cfg.c.readRate, i);
        Enough(write0, cfg.c.writeRate, i);
      }
    }
  }

  // ---- Runs of a bufferevent -----------------------------------------------

  /** What happens at a true time: the fd is ready, with bytes to read or to write, or the timer fires. */
  datatype Call = Read(time: nat, want: nat) | Write(time: nat, want: nat) | Fire(time: nat)

  /** So many bytes were transferred, or nothing happened: the side is off, or no timer is pending. */
  datatype Outcome = Done(bytes: nat) | Idle

  function BytesRead(call: Call, out: Outcome): nat {
    if call.Read? && out.Done? then out.bytes else 0
  }

  function BytesWritten(call: Call, out: Outcome): nat {
    if call.Write? && out.Done? then out.bytes else 0
  }

  /** The steps of the read side: each thing that happens refills it, and only reads spend. */
  function ReadSteps(calls: seq<Call>, outs: seq<Outcome>): seq<Step>
    requires |calls| == |outs|
  {
    if calls == [] then []
    else
      var n := |calls| - 1;
      ReadSteps(calls[..n], outs[..n]) +
      if outs[n].Idle? then [] else [Step(calls[n].time, BytesRead(calls[n], outs[n]))]
  }

  function WriteSteps(calls: seq<Call>, outs: seq<Outcome>): seq<Step>
    requires |calls| == |outs|
  {
    if calls == [] then []
    else
      var n := |calls| - 1;
      WriteSteps(calls[..n], outs[..n]) +
      if outs[n].Idle? then [] else [Step(calls[n].time, BytesWritten(calls[n], outs[n]))]
  }

  ghost predicate WindowAt(steps: seq<Step>, maximum: nat, rate: nat, i: int, j: int) {
    0 <= i < j <= |steps| ==>
      steps[i].tick <= steps[j - 1].tick && Spent(steps[i..j]) <= maximum + (steps[j - 1].tick - steps[i].tick) * rate
  }

  /** In no window more is spent than the maximum and the rate times its ticks. */
  ghost predicate Conforms(steps: seq<Step>, maximum: nat, rate: nat) {
    forall i, j :: 0 <= i < j <= |steps| ==> WindowAt(steps, maximum, rate, i, j)
  }

  lemma RunConforms(s: Side, maximum: nat, rate: nat, steps: seq<Step>)
    requires RunOf(After(maximum, rate), May(maximum, rate), s, steps) && 0 <= s.limit <= maximum
    ensures Conforms(steps, maximum, rate)
  {
    forall i, j | 0 <= i < j <= |steps|
      ensures WindowAt(steps, maximum, rate, i, j)
    {
      WindowConforms(s, maximum, rate, steps, i, j);
    }
  }

  /** Side t is where the run of the steps leads from side s. */
  ghost predicate Follows(s: Side, maximum: nat, rate: nat, steps: seq<Step>, t: Side) {
    RunOf(After(maximum, rate), May(maximum, rate), s, steps) && t == FinalOf(After(maximum, rate), s, steps)
  }

  lemma FollowsOn(s: Side, maximum: nat, rate: nat, steps: seq<Step>, t: Side, step: Step)
    requires Follows(s, maximum, rate, steps, t) && May(maximum, rate)(t, step)
    ensures Follows(s, maximum, rate, steps + [step], After(maximum, rate)(t, step))
  {
    RunMore(After(maximum, rate), May(maximum, rate), s, steps, step);
  }

  /** Both sides have gone through the steps of the calls so far, up to the true time now. */
  ghost predicate Tracks(cfg: Cfg, start: nat, r0: Side, w0: Side, calls: seq<Call>, outs: seq<Outcome>, now: nat, r: Side, w: Side) {
    && |calls| == |outs| && r.now == now == w.now
    && LastTick(start, ReadSteps(calls, outs)) == now == LastTick(start, WriteSteps(calls, outs))
    && Follows(r0, cfg.readMaximum, cfg.readRate, ReadSteps(calls, outs), r)
    && Follows(w0, cfg.writeMaximum, cfg.writeRate, WriteSteps(calls, outs), w)
  }

  /** One call more. */
  lemma TracksOn(cfg: Cfg, start: nat, r0: Side, w0: Side, calls: seq<Call>, outs: seq<Outcome>, now: nat, r: Side, w: Side,
                 call: Call, bytes: nat)
    requires Tracks(cfg, start, r0, w0, calls, outs, now, r, w)
    requires May(cfg.readMaximum, cfg.readRate)(r, Step(call.time, BytesRead(call, Done(bytes))))
    requires May(cfg.writeMaximum, cfg.writeRate)(w, Step(call.time, BytesWritten(call, Done(bytes))))
    ensures var out := Done(bytes);
            Tracks(cfg, start, r0, w0, calls + [call], outs + [out], call.time,
                   After(cfg.readMaximum, cfg.readRate)(r, Step(call.time, BytesRead(call, out))),
                   After(cfg.writeMaximum, cfg.writeRate)(w, Step(call.time, BytesWritten(call, out))))
  {
    var out := Done(bytes);
    assert (calls + [call])[..|calls|] == calls && (outs + [out])[..|calls|] == outs;
    FollowsOn(r0, cfg.readMaximum, cfg.readRate, ReadSteps(calls, outs), r, Step(call.time, BytesRead(call, out)));
    FollowsOn(w0, cfg.writeMaximum, cfg.writeRate, WriteSteps(calls, outs), w, Step(call.time, BytesWritten(call, out)));
  }

  /** A call without effect. */
  lemma TracksIdle(cfg: Cfg, start: nat, r0: Side, w0: Side, calls: seq<Call>, outs: seq<Outcome>, now: nat, r: Side, w: Side, call: Call)
    requires Tracks(cfg, start, r0, w0, calls, outs, now, r, w)
    ensures Tracks(cfg, start, r0, w0, calls + [call], outs + [Idle], now, r, w)
  {
    assert (calls + [call])[..|calls|] == calls && (outs + [Idle])[..|calls|] == outs;
    assert ReadSteps(calls, outs) + [] == ReadSteps(calls, outs) && WriteSteps(calls, outs) + [] == WriteSteps(calls, outs);
  }

  predicate InOrder(start: nat, calls: seq<Call>) {
    && (calls != [] ==> start <= calls[0].time)
    && forall i :: 0 < i < |calls| ==> calls[i - 1].time <= calls[i].time
  }

  /** One thing that happens, after what happened up to the true time before. */
  method Perform(bev: Bufferevent, call: Call, ghost before: nat) returns (out: Outcome)
    requires bev.Inv() && bev.cfg != null
    modifies bev, bev.limit
    ensures bev.Inv() && bev.cfg == old(bev.cfg)
    ensures out.Idle? <==> !old(if call.Read? then bev.readOn else if call.Write? then bev.writeOn else bev.timerPending)
    ensures out.Idle? ==> bev.ReadSide(before) == old(bev.ReadSide(before)) && bev.WriteSide(before) == old(bev.WriteSide(before))
    ensures out.Done? ==>
              bev.Stepped(before, call.time, BytesRead(call, out), BytesWritten(call, out))
    ensures out.Done? && call.Read? ==>
              out.bytes == Min(call.want, Allowed(old(bev.ReadSide(before)), bev.cfg.c.readMaximum, bev.cfg.c.readRate, call.time))
    ensures out.Done? && call.Write? ==>
              out.bytes == Min(call.want, Allowed(old(bev.WriteSide(before)), bev.cfg.c.writeMaximum, bev.cfg.c.writeRate, call.time))
  {
    out := Idle;
    match call {
      case Read(time, want) =>
        if bev.readOn {
          var bytes := bev.ReadStep(time, want, before, true);
          out := Done(bytes);
        }
      case Write(time, want) =>
        if bev.writeOn {
          var bytes := bev.WriteStep(time, want, before, true);
          out := Done(bytes);
        }
      case Fire(time) =>
        if bev.timerPending {
          bev.FireStep(time, before, true);
          out := Done(0);
        }
    }
  }

  /** The next call of a run. */
  method PerformNext(bev: Bufferevent, ghost c: Cfg, ghost calls: seq<Call>, ghost outs: seq<Outcome>, call: Call,
                     ghost start: nat, ghost r0: Side, ghost w0: Side, ghost before: nat)
    returns (out: Outcome, ghost now: nat)
    requires bev.Inv() && bev.cfg != null && bev.cfg.c == c && before <= call.time
    requires Tracks(c, start, r0, w0, calls, outs, before, bev.ReadSide(before), bev.WriteSide(before))
    modifies bev, bev.limit
    ensures bev.Inv() && bev.cfg == old(bev.cfg) && before <= now <= call.time
    ensures Tracks(c, start, r0, w0, calls + [call], outs + [out], now, bev.ReadSide(now), bev.WriteSide(now))
  {
    ghost var r, w := bev.ReadSide(before), bev.WriteSide(before);
    out := Perform(bev, call, before);
    if out.Done? {
      TracksOn(c, start, r0, w0, calls, outs, before, r, w, call, out.bytes);
      now := call.time;
    } else {
      TracksIdle(c, start, r0, w0, calls, outs, before, r, w, call);
      now := before;
    }
  }

  /** Any run of reads, writes and firings of the timer, in whatever order: both sides of the
      bufferevent go through the runs that WindowConforms bounds, and so neither spends more in any
      window than the rate allows. */
  method Run(bev: Bufferevent, calls: seq<Call>, ghost start: nat) returns (outs: seq<Outcome>)
    requires bev.Inv() && bev.cfg != null && InOrder(start, calls)
    modifies bev, bev.limit
    ensures bev.Inv() && bev.cfg == old(bev.cfg) && |outs| == |calls|
    ensures var c, rs := bev.cfg.c, ReadSteps(calls, outs);
            && Follows(old(bev.ReadSide(start)), c.readMaximum, c.readRate, rs, bev.ReadSide(LastTick(start, rs)))
            && (old(bev.limit.readLimit) >= 0 ==> Conforms(rs, c.readMaximum, c.readRate))
    ensures var c, ws := bev.cfg.c, WriteSteps(calls, outs);
            && Follows(old(bev.WriteSide(start)), c.writeMaximum, c.writeRate, ws, bev.WriteSide(LastTick(start, ws)))
            && (old(bev.limit.writeLimit) >= 0 ==> Conforms(ws, c.writeMaximum, c.writeRate))
  {
    outs := [];
    ghost var c: Cfg, now: nat := bev.cfg.c, start;
    var i := 0;
    while i < |calls|
      invariant i <= |calls| && |outs| == i && bev.Inv() && bev.cfg == old(bev.cfg) && (i < |calls| ==> now <= calls[i].time)
      invariant Tracks(c, start, old(bev.ReadSide(start)), old(bev.WriteSide(start)), calls[..i], outs, now,
                       bev.ReadSide(now), bev.WriteSide(now))
    {
      var out;
      out, now := PerformNext(bev, c, calls[..i], outs, calls[i], start, old(bev.ReadSide(start)), old(bev.WriteSide(start)), now);
      assert calls[..i + 1] == calls[..i] + [calls[i]];
      outs, i := outs + [out], i + 1;
    }
    assert calls[..i] == calls;
    if old(bev.limit.readLimit) >= 0 {
      RunConforms(old(bev.ReadSide(start)), c.readMaximum, c.readRate, ReadSteps(calls, outs));
    }
    if old(bev.limit.writeLimit) >= 0 {
      RunConforms(old(bev.WriteSide(start)), c.writeMaximum, c.writeRate, WriteSteps(calls, outs));
    }
  }

  /** Giving bytes back after a refill leaves a limit above its maximum, and from then on the
      refills are not capped: one byte a tick and at most one in all, and three can be spent. */
  method GivingBackOverfills() returns (b: Bufferevent)
    ensures fresh(b) && b.cfg != null && b.cfg.c == Cfg(1, 1, 1, 1) && b.limit.readLimit == 3
  {
    var limit := new Bucket();
    b := new Bufferevent(limit, true, true);
    var cfg := new CfgObject(Cfg(1, 1, 1, 1));
    var r := b.SetRateLimit(cfg, 0, true, true);
    r := b.DecrementReadBuckets(1, true);
    b.RefillCallback(1, true);
    r := b.DecrementReadBuckets(-1, true);
    var updated := b.limit.Update(cfg.c, 2);
    RefillGrows(2, 1, 1, 1);
  }

  function Previous(start: nat, times: seq<nat>, i: nat): nat
    requires i <= |times|
  {
    if i == 0 then start else times[i - 1]
  }

  /** How often the timer must fire for a limit. */
  function Firings(limit: int, rate: nat): nat
    requires rate > 0
  {
    if limit > 0 then 0 else -limit / rate + 1
  }

  lemma Enough(limit: int, rate: nat, k: nat)
    requires rate > 0 && k >= Firings(limit, rate)
    ensures limit + k * rate > 0
  {
    if limit <= 0 {
      var q := -limit / rate;
      TimesMonotone(q + 1, k, rate);
    }
  }

  lemma ElapsedIsGap(before: nat, now: nat)
    requires 0 < now - before <= INT_MAX
    ensures Elapsed(now % TICKS, before % TICKS) == now - before
  {
    var q := now / TICKS - before / TICKS;
    assert now % TICKS - before % TICKS == (now - before) - q * TICKS;
  }

  lemma RoundHelps(limit: int, maximum: nat, start: int, rate: nat, k: nat, n: nat)
    requires limit >= Min(maximum, start + k * rate) && n >= 1
    ensures Min(maximum, limit + n * rate) >= Min(maximum, start + (k + 1) * rate)
  {
    TimesMonotone(1, n, rate);
    TimesAdd(k, 1, rate);
  }
}
