/** The token bucket of bufferevent_ratelim.c in machine words, and what a run may spend. */
module TokenBucket {
  import opened Sequences

  const SIZE := 0x1_0000_0000_0000_0000     // size_t
  const TICKS := 0x1_0000_0000              // ev_uint32_t
  const SSIZE_MIN := -0x8000_0000_0000_0000
  const SSIZE_MAX := 0x7fff_ffff_ffff_ffff
  const INT_MAX := 0x7fff_ffff
  const EV_RATE_LIMIT_MAX := SSIZE_MAX

  datatype Cfg = Cfg(readRate: nat, readMaximum: nat, writeRate: nat, writeMaximum: nat)

  /** What ev_token_bucket_cfg_new accepts. */
  predicate CfgOk(cfg: Cfg) {
    && 1 <= cfg.readRate <= cfg.readMaximum <= EV_RATE_LIMIT_MAX
    && 1 <= cfg.writeRate <= cfg.writeMaximum <= EV_RATE_LIMIT_MAX
  }

  function Min(a: int, b: int): int {
    if a < b then a else b
  }

  /** The ticks that ev_token_bucket_update_ sees; 0 also stands for a clock that went back. */
  function Elapsed(current: nat, last: nat): (n: nat)
    requires current < TICKS && last < TICKS
    ensures n <= INT_MAX
  {
    var n := (current - last) % TICKS;
    if n > INT_MAX then 0 else n
  }

  /** One limit after n ticks, in words: the guarded addition of ev_token_bucket_update_. */
  function Refill(limit: int, maximum: nat, rate: nat, n: nat): int
    requires n > 0
  {
    if (maximum - limit) % SIZE / n < rate then maximum else (limit + n * rate % SIZE + -SSIZE_MIN) % SIZE + SSIZE_MIN
  }

  lemma DivLess(a: nat, n: nat, rate: nat)
    requires n > 0
    ensures a / n < rate <==> a < n * rate
  {
    var q := a / n;
    assert q * n <= a < (q + 1) * n;
    if q < rate {
      TimesMonotone(q + 1, rate, n);
    } else {
      TimesMonotone(rate, q, n);
    }
  }

  /** The unsigned division neither overflows nor rounds wrongly: a refill is the capped sum. */
  lemma RefillIsCappedSum(limit: int, maximum: nat, rate: nat, n: nat)
    requires SSIZE_MIN <= limit <= maximum <= EV_RATE_LIMIT_MAX && n > 0
    ensures Refill(limit, maximum, rate, n) == Min(maximum, limit + n * rate)
  {
    var room := maximum - limit;
    assert room % SIZE == room;
    DivLess(room, n, rate);
    if room >= n * rate {
      assert n * rate % SIZE == n * rate;
    }
  }

  /** A limit above the maximum is not capped: it grows. */
  lemma RefillGrows(limit: int, maximum: nat, rate: nat, n: nat)
    requires maximum < limit <= SSIZE_MAX && n > 0 && limit + n * rate <= SSIZE_MAX
    ensures Refill(limit, maximum, rate, n) == limit + n * rate
  {
    Wraps(maximum - limit);
    DivLess(maximum - limit + SIZE, n, rate);
    assert n * rate % SIZE == n * rate;
  }

  /** So a refill stays within the maximum if and only if the limit was. */
  lemma RefillCaps(limit: int, maximum: nat, rate: nat, n: nat)
    requires SSIZE_MIN <= limit <= SSIZE_MAX && maximum <= EV_RATE_LIMIT_MAX && n > 0 && limit + n * rate <= SSIZE_MAX
    ensures Refill(limit, maximum, rate, n) <= maximum <==> limit <= maximum
  {
    if limit <= maximum {
      RefillIsCappedSum(limit, maximum, rate, n);
    } else {
      RefillGrows(limit, maximum, rate, n);
    }
  }

  lemma Wraps(a: int)
    requires -SIZE <= a < 0
    ensures a % SIZE == a + SIZE
  {
  }

  /** One limit after n ticks, or none. */
  function Refilled(limit: int, maximum: nat, rate: nat, n: nat): int {
    if n == 0 then limit else Refill(limit, maximum, rate, n)
  }

  class Bucket {
    var readLimit: int
    var writeLimit: int
    var lastUpdated: nat

    /** mm_calloc */
    constructor ()
      ensures readLimit == 0 && writeLimit == 0 && lastUpdated == 0
    {
      readLimit, writeLimit, lastUpdated := 0, 0, 0;
    }

    /** The fields fit their words. */
    predicate InWords()
      reads this
    {
      SSIZE_MIN <= readLimit <= SSIZE_MAX && SSIZE_MIN <= writeLimit <= SSIZE_MAX && lastUpdated < TICKS
    }

    /** The limits fit their words and do not exceed the maxima. */
    predicate Fits(cfg: Cfg)
      reads this
    {
      && SSIZE_MIN <= readLimit <= cfg.readMaximum && SSIZE_MIN <= writeLimit <= cfg.writeMaximum
      && lastUpdated < TICKS
    }

    /** ev_token_bucket_init_ */
    method Init(cfg: Cfg, current: nat, reinitialize: bool)
      requires CfgOk(cfg) && current < TICKS
      requires reinitialize ==> SSIZE_MIN <= readLimit && SSIZE_MIN <= writeLimit && lastUpdated < TICKS
      modifies this
      ensures Fits(cfg)
      ensures reinitialize ==>
                && readLimit == Min(old(readLimit), cfg.readMaximum) && writeLimit == Min(old(writeLimit), cfg.writeMaximum)
                && lastUpdated == old(lastUpdated)
      ensures !reinitialize ==> readLimit == cfg.readRate && writeLimit == cfg.writeRate && lastUpdated == current
    {
      if reinitialize {
        if readLimit > cfg.readMaximum {
          readLimit := cfg.readMaximum;
        }
        if writeLimit > cfg.writeMaximum {
          writeLimit := cfg.writeMaximum;
        }
      } else {
        readLimit, writeLimit, lastUpdated := cfg.readRate, cfg.writeRate, current;
      }
    }

    /** ev_token_bucket_update_, for any limits */
    method Update(cfg: Cfg, current: nat) returns (updated: bool)
      requires CfgOk(cfg) && InWords() && current < TICKS
      modifies this
      ensures InWords() && (updated <==> Elapsed(current, old(lastUpdated)) > 0)
      ensures var n := Elapsed(current, old(lastUpdated));
              && readLimit == Refilled(old(readLimit), cfg.readMaximum, cfg.readRate, n)
              && writeLimit == Refilled(old(writeLimit), cfg.writeMaximum, cfg.writeRate, n)
              && lastUpdated == if n > 0 then current else old(lastUpdated)
    {
      var n := (current - lastUpdated) % TICKS;
      if n == 0 || n > INT_MAX {
        return false;
      }
      if (cfg.readMaximum - readLimit) % SIZE / n < cfg.readRate {
        readLimit := cfg.readMaximum;
      } else {
        readLimit := (readLimit + n * cfg.readRate % SIZE + -SSIZE_MIN) % SIZE + SSIZE_MIN;
      }
      if (cfg.writeMaximum - writeLimit) % SIZE / n < cfg.writeRate {
        writeLimit := cfg.writeMaximum;
      } else {
        writeLimit := (writeLimit + n * cfg.writeRate % SIZE + -SSIZE_MIN) % SIZE + SSIZE_MIN;
      }
      lastUpdated := current;
      return true;
    }

    /** The same for limits that do not exceed the maxima: both become the capped sums. */
    method UpdateFitting(cfg: Cfg, current: nat) returns (updated: bool)
      requires CfgOk(cfg) && Fits(cfg) && current < TICKS
      modifies this
      ensures Fits(cfg) && (updated <==> Elapsed(current, old(lastUpdated)) > 0)
      ensures var n := Elapsed(current, old(lastUpdated));
              && readLimit == Min(cfg.readMaximum, old(readLimit) + n * cfg.readRate)
              && writeLimit == Min(cfg.writeMaximum, old(writeLimit) + n * cfg.writeRate)
              && lastUpdated == if n > 0 then current else old(lastUpdated)
    {
      ghost var n := Elapsed(current, lastUpdated);
      if n > 0 {
        RefillIsCappedSum(readLimit, cfg.readMaximum, cfg.readRate, n);
        RefillIsCappedSum(writeLimit, cfg.writeMaximum, cfg.writeRate, n);
      }
      updated := Update(cfg, current);
    }
  }

  // ---- Runs of any kind ----------------------------------------------------

  ghost predicate RunOf<S, E>(after: (S, E) -> S, may: (S, E) -> bool, s: S, es: seq<E>)
    decreases |es|
  {
    es != [] ==> may(s, es[0]) && RunOf(after, may, after(s, es[0]), es[1..])
  }

  ghost function FinalOf<S, E>(after: (S, E) -> S, s: S, es: seq<E>): S
    decreases |es|
  {
    if es == [] then s else FinalOf(after, after(s, es[0]), es[1..])
  }

  /** A run with one step more. */
  lemma {:induction false} RunMore<S, E>(after: (S, E) -> S, may: (S, E) -> bool, s: S, es: seq<E>, e: E)
    requires RunOf(after, may, s, es) && may(FinalOf(after, s, es), e)
    ensures RunOf(after, may, s, es + [e]) && FinalOf(after, s, es + [e]) == after(FinalOf(after, s, es), e)
    decreases |es|
  {
    if es == [] {
      assert ([e])[1..] == [];
      assert [] + [e] == [e];
    } else {
      RunMore(after, may, after(s, es[0]), es[1..], e);
      assert (es + [e])[1..] == es[1..] + [e];
    }
  }

  /** Any part of a run is a run from the state before it, which keeps what every step keeps. */
  lemma {:induction false} RunPart<S, E>(after: (S, E) -> S, may: (S, E) -> bool, keeps: S -> bool, s: S, es: seq<E>, i: nat, j: nat)
    returns (s': S)
    requires RunOf(after, may, s, es) && i <= j <= |es| && keeps(s)
    requires forall t, e :: keeps(t) && may(t, e) ==> keeps(after(t, e))
    ensures s' == FinalOf(after, s, es[..i]) && keeps(s') && RunOf(after, may, s', es[i..j])
    decreases j
  {
    if i > 0 {
      s' := RunPart(after, may, keeps, after(s, es[0]), es[1..], i - 1, j - 1);
      assert es[1..][i - 1..j - 1] == es[i..j] && es[..i][1..] == es[1..][..i - 1];
    } else {
      s' := s;
      if j > 0 {
        var u := RunPart(after, may, keeps, after(s, es[0]), es[1..], 0, j - 1);
        assert es[1..][..0] == [];
        assert es[0..j][1..] == es[1..][0..j - 1];
      }
    }
  }

  // ---- Runs of a bucket ----------------------------------------------------

  type Tick = t: nat | t < TICKS

  /** One direction of a bucket, and the true time of the last step. */
  datatype Side = Side(limit: int, last: Tick, now: nat)

  /** At the true time tick, which the code knows modulo 2^32, spent bytes are transferred. */
  datatype Step = Step(tick: nat, spent: nat)

  function Updated(s: Side, maximum: nat, rate: nat, tick: nat): Side {
    var n := Elapsed(tick % TICKS, s.last);
    Side(Min(maximum, s.limit + n * rate), if n > 0 then tick % TICKS else s.last, tick)
  }

  /** bufferevent_get_rlim_max_ for a bufferevent with a configuration and no group */
  function Allowed(s: Side, maximum: nat, rate: nat, tick: nat): nat {
    var l := Updated(s, maximum, rate, tick).limit;
    if l < 0 then 0 else l
  }

  function After(maximum: nat, rate: nat): (Side, Step) -> Side {
    (s: Side, step: Step) =>
      var u := Updated(s, maximum, rate, step.tick);
      Side(u.limit - step.spent, u.last, step.tick)
  }

  /** Time does not go back, and no step spends more than is allowed. */
  function May(maximum: nat, rate: nat): (Side, Step) -> bool {
    (s: Side, step: Step) => s.now <= step.tick && step.spent <= Allowed(s, maximum, rate, step.tick)
  }

  ghost function Spent(steps: seq<Step>): nat {
    if steps == [] then 0 else steps[0].spent + Spent(steps[1..])
  }

  /** An update at the time of the last step would find no tick gone by. */
  ghost predicate JustUpdated(s: Side) {
    Elapsed(s.now % TICKS, s.last) == 0
  }

  /** An update counts at most the ticks since the last one that was tried, however often
      the 32-bit number wrapped. */
  lemma CountsNoMore(s: Side, later: nat)
    requires JustUpdated(s) && s.now <= later
    ensures Elapsed(later % TICKS, s.last) <= later - s.now
  {
    var q := later / TICKS - s.now / TICKS;
    assert later % TICKS - s.now % TICKS == (later - s.now) - q * TICKS;
  }

  lemma TimesAdd(a: nat, b: nat, d: nat)
    ensures (a + b) * d == a * d + b * d
  {
  }

  /** A step leaves the limit between 0 and the maximum, and the bucket just updated. */
  lemma StepKeeps(s: Side, maximum: nat, rate: nat, step: Step)
    requires 0 <= s.limit <= maximum && May(maximum, rate)(s, step)
    ensures var r := After(maximum, rate)(s, step); 0 <= r.limit <= maximum && JustUpdated(r) && r.now == step.tick
    ensures JustUpdated(s) ==> After(maximum, rate)(s, step).limit + step.spent <= s.limit + (step.tick - s.now) * rate
  {
    if JustUpdated(s) {
      CountsNoMore(s, step.tick);
      TimesMonotone(Elapsed(step.tick % TICKS, s.last), step.tick - s.now, rate);
    }
  }

  function LastTick(from: nat, steps: seq<Step>): nat {
    if steps == [] then from else steps[|steps| - 1].tick
  }

  /** From an update on, a run spends no more than the limit and the rate allow. */
  lemma {:induction false} SpendsWithin(s: Side, maximum: nat, rate: nat, steps: seq<Step>)
    requires RunOf(After(maximum, rate), May(maximum, rate), s, steps) && JustUpdated(s) && 0 <= s.limit <= maximum
    ensures s.now <= LastTick(s.now, steps)
    ensures Spent(steps) <= s.limit + (LastTick(s.now, steps) - s.now) * rate
    decreases |steps|
  {
    if steps != [] {
      var r := After(maximum, rate)(s, steps[0]);
      StepKeeps(s, maximum, rate, steps[0]);
      SpendsWithin(r, maximum, rate, steps[1..]);
      TimesAdd(r.now - s.now, LastTick(s.now, steps) - r.now, rate);
    }
  }

  /** Conformance: in any window of any run, however long and however often the tick number
      wraps, at most the maximum and the rate times the ticks of the window are spent; and
      the limit stays between 0 and the maximum. */
  lemma WindowConforms(s: Side, maximum: nat, rate: nat, steps: seq<Step>, i: nat, j: nat)
    requires RunOf(After(maximum, rate), May(maximum, rate), s, steps) && 0 <= s.limit <= maximum && i < j <= |steps|
    ensures 0 <= FinalOf(After(maximum, rate), s, steps[..i]).limit <= maximum
    ensures steps[i].tick <= steps[j - 1].tick
    ensures Spent(steps[i..j]) <= maximum + (steps[j - 1].tick - steps[i].tick) * rate
  {
    var keeps := (t: Side) => 0 <= t.limit <= maximum;
    forall t, e | keeps(t) && May(maximum, rate)(t, e)
      ensures keeps(After(maximum, rate)(t, e))
    {
      StepKeeps(t, maximum, rate, e);
    }
    var s' := RunPart(After(maximum, rate), May(maximum, rate), keeps, s, steps, i, j);
    var w := steps[i..j];
    StepKeeps(s', maximum, rate, w[0]);
    SpendsWithin(After(maximum, rate)(s', w[0]), maximum, rate, w[1..]);
  }
}
