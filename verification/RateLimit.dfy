/** The token bucket rate limiter: refilling on ticks that wrap around, and the suspension of reading and writing. */
module RateLimit {
  import opened Common

  type uint32 = x: int | 0 <= x < TWO_TO_THE_32
  type ssize = x: int | -TWO_TO_THE_63 <= x < TWO_TO_THE_63

  /** Conversion to size_t. */
  function Unsigned(x: int): (u: nat)
    ensures u < TWO_TO_THE_64
  {
    x % TWO_TO_THE_64
  }

  /** Conversion from size_t to ev_ssize_t. */
  function Signed(u: nat): (x: ssize)
    requires u < TWO_TO_THE_64
  {
    if u < TWO_TO_THE_63 then u else u - TWO_TO_THE_64
  }

  predicate IsRate(rate: int, maximum: int) {
    1 <= rate <= maximum <= SSIZE_MAX
  }

  /** A limit after n ticks, as ev_token_bucket_update_ computes it. */
  function Refilled(limit: ssize, maximum: nat, rate: nat, n: nat): (l: ssize)
    requires IsRate(rate, maximum) && 1 <= n <= INT_MAX
  {
    if Unsigned(maximum - limit) / n < rate then maximum else Signed(Unsigned(limit + Unsigned(n * rate)))
  }

  function Min(a: int, b: int): (m: int) {
    if a < b then a else b
  }

  lemma {:induction false} Quotient(a: nat, n: nat, b: nat)
    requires n > 0
    ensures a / n < b <==> a < n * b
  {
    var q, r := a / n, a % n;
    assert a == n * q + r;
    if q < b {
      assert n * (q + 1) <= n * b;
    } else {
      assert n * b <= n * q;
    }
  }

  /**
   The refill is exact just when the limit is at most the maximum, or is so far above it, and the rate so high, that
   the wrapped distance does not exceed what the ticks bring.
   */
  lemma {:induction false} RefillExact(limit: ssize, maximum: nat, rate: nat, n: nat)
    requires IsRate(rate, maximum) && 1 <= n <= INT_MAX
    ensures Refilled(limit, maximum, rate, n) == Min(maximum, limit + n * rate)
            <==> limit <= maximum || TWO_TO_THE_64 - (limit - maximum) <= n * rate
  {
    var d, p := Unsigned(maximum - limit), n * rate;
    Quotient(d, n, rate);
    Larger(1, n, rate);
    assert p >= 1;
    RefillCases(limit, maximum, d, p);
  }

  lemma {:induction false} RefillCases(limit: ssize, maximum: nat, d: nat, p: nat)
    requires maximum <= SSIZE_MAX && p >= 1 && d == Unsigned(maximum - limit)
    ensures (if d < p then maximum else Signed(Unsigned(limit + Unsigned(p)))) == Min(maximum, limit + p)
            <==> limit <= maximum || TWO_TO_THE_64 - (limit - maximum) <= p
  {
    assert d == if limit <= maximum then maximum - limit else TWO_TO_THE_64 - (limit - maximum);
    if d >= p {
      assert Unsigned(p) == p;
      Sum(limit, p);
    }
  }

  /** A sum in size_t, as a signed number. */
  lemma {:induction false} Sum(limit: ssize, add: nat)
    requires add < TWO_TO_THE_64
    ensures Signed(Unsigned(limit + add))
            == if limit + add < TWO_TO_THE_63 then limit + add else limit + add - TWO_TO_THE_64
  {
  }

  /** Two refills in a row do what one does. */
  lemma {:induction false} RefillSplits(limit: ssize, maximum: nat, rate: nat, n: nat, m: nat)
    requires IsRate(rate, maximum) && limit <= maximum && 1 <= n && 1 <= m && n + m <= INT_MAX
    ensures Refilled(Refilled(limit, maximum, rate, n), maximum, rate, m) == Refilled(limit, maximum, rate, n + m)
  {
    RefillExact(limit, maximum, rate, n);
    RefillExact(limit, maximum, rate, n + m);
    var l := Refilled(limit, maximum, rate, n);
    RefillExact(l, maximum, rate, m);
    hide Refilled;
    assert (n + m) * rate == n * rate + m * rate;
    assert m * rate >= 0 && n * rate >= 0;
  }

  /** A limit above its maximum, as a negative decrement leaves it, goes on growing. */
  lemma {:induction false} AboveMaximum()
    ensures Refilled(2, 1, 1, 1) == 3 != Min(1, 2 + 1 * 1)
  {
    Sum(2, 1);
    assert Unsigned(1 - 2) == TWO_TO_THE_64 - 1;
  }

  /** Does the sum that takes the place of the refill leave ev_ssize_t, and come out as no more than zero? */
  predicate Overflows(limit: ssize, maximum: nat, rate: nat, n: nat) {
    limit > maximum && TWO_TO_THE_63 <= limit + n * rate <= TWO_TO_THE_64
  }

  /** A limit that was positive stays positive just when the refill does not overflow. */
  lemma {:induction false} StaysPositive(limit: ssize, maximum: nat, rate: nat, n: nat)
    requires IsRate(rate, maximum) && 1 <= n <= INT_MAX && limit > 0
    ensures Refilled(limit, maximum, rate, n) > 0 <==> !Overflows(limit, maximum, rate, n)
  {
    if limit <= maximum {
      RefillExact(limit, maximum, rate, n);
      Larger(0, n, rate);
    } else {
      var d := Unsigned(maximum - limit);
      assert d == TWO_TO_THE_64 - (limit - maximum);
      Quotient(d, n, rate);
      if d >= n * rate {
        Larger(0, n, rate);
        assert Unsigned(n * rate) == n * rate;
        Sum(limit, n * rate);
      }
    }
  }

  datatype Direction = Reading | Writing

  datatype Bucket = Bucket(read: ssize, write: ssize, last: uint32)

  class Cfg {
    const readRate: nat
    const readMaximum: nat
    const writeRate: nat
    const writeMaximum: nat

    /** ev_token_bucket_cfg_new when it succeeds */
    constructor (readRate: nat, readBurst: nat, writeRate: nat, writeBurst: nat)
      requires IsRate(readRate, readBurst) && IsRate(writeRate, writeBurst)
      ensures this.readRate == readRate && readMaximum == readBurst
      ensures this.writeRate == writeRate && writeMaximum == writeBurst
    {
      this.readRate, readMaximum, this.writeRate, writeMaximum := readRate, readBurst, writeRate, writeBurst;
    }

    predicate Ok() {
      IsRate(readRate, readMaximum) && IsRate(writeRate, writeMaximum)
    }
  }

  /** The ticks from one tick number to another. */
  function Elapsed(last: uint32, tick: uint32): (n: nat) {
    (tick - last) % TWO_TO_THE_32
  }

  function Updated(b: Bucket, cfg: Cfg, tick: uint32): (b': Bucket)
    requires cfg.Ok()
  {
    var n := Elapsed(b.last, tick);
    if n == 0 || n > INT_MAX then
      b
    else
      Bucket(
        Refilled(b.read, cfg.readMaximum, cfg.readRate, n), Refilled(b.write, cfg.writeMaximum, cfg.writeRate, n), tick)
  }

  /** Does a direction that is not suspended run out because its refill overflows? */
  predicate Runs(b: Bucket, cfg: Cfg, tick: uint32, readSuspended: bool, writeSuspended: bool) {
    var n := Elapsed(b.last, tick);
    && 0 < n <= INT_MAX
    && ((!readSuspended && Overflows(b.read, cfg.readMaximum, cfg.readRate, n))
        || (!writeSuspended && Overflows(b.write, cfg.writeMaximum, cfg.writeRate, n)))
  }

  lemma {:induction false} RunsOut(b: Bucket, cfg: Cfg, tick: uint32, readSuspended: bool, writeSuspended: bool)
    requires cfg.Ok() && (b.read <= 0 ==> readSuspended) && (b.write <= 0 ==> writeSuspended)
    ensures var b' := Updated(b, cfg, tick);
            Runs(b, cfg, tick, readSuspended, writeSuspended)
            <==> (b'.read <= 0 && !readSuspended) || (b'.write <= 0 && !writeSuspended)
  {
    var n := Elapsed(b.last, tick);
    if 0 < n <= INT_MAX {
      if !readSuspended {
        StaysPositive(b.read, cfg.readMaximum, cfg.readRate, n);
      }
      if !writeSuspended {
        StaysPositive(b.write, cfg.writeMaximum, cfg.writeRate, n);
      }
    }
    hide Refilled, Elapsed, Overflows;
  }

  predicate Within(b: Bucket, cfg: Cfg) {
    b.read <= cfg.readMaximum && b.write <= cfg.writeMaximum
  }

  lemma {:induction false} UpdatedWithin(b: Bucket, cfg: Cfg, tick: uint32)
    requires cfg.Ok() && Within(b, cfg)
    ensures var b' := Updated(b, cfg, tick); Within(b', cfg) && b.read <= b'.read && b.write <= b'.write
  {
    var n := Elapsed(b.last, tick);
    if 0 < n <= INT_MAX {
      RefillExact(b.read, cfg.readMaximum, cfg.readRate, n);
      RefillExact(b.write, cfg.writeMaximum, cfg.writeRate, n);
      Larger(0, n, cfg.readRate);
      Larger(0, n, cfg.writeRate);
    }
    hide Refilled, Elapsed;
  }

  /** A run: ticks go by, or bytes move, no more of them than bufferevent_get_rlim_max_ allows. */
  datatype Step = Wait(ticks: nat) | Move(bytes: nat)

  /** One direction of a bufferevent: its limit, the tick it was updated for, and the tick it is, both not wrapped. */
  datatype Flow = Flow(limit: ssize, last: nat, now: nat)

  /** The update before a transfer. */
  function Freshened(f: Flow, maximum: nat, rate: nat): (f': Flow)
    requires IsRate(rate, maximum)
  {
    var n := Elapsed(f.last % TWO_TO_THE_32, f.now % TWO_TO_THE_32);
    if n == 0 || n > INT_MAX then f else f.(limit := Refilled(f.limit, maximum, rate, n), last := f.now)
  }

  function Positive(x: int): (n: nat) {
    if x > 0 then x else 0
  }

  function Allowed(f: Flow): (n: nat) {
    Positive(f.limit)
  }

  /** Does each transfer keep to what is allowed? */
  predicate Legal(f: Flow, maximum: nat, rate: nat, steps: seq<Step>)
    requires IsRate(rate, maximum)
    decreases |steps|
  {
    steps == [] || match steps[0]
      case Wait(ticks) => Legal(f.(now := f.now + ticks), maximum, rate, steps[1..])
      case Move(bytes) =>
        var g := Freshened(f, maximum, rate);
        bytes <= Allowed(g) && Legal(g.(limit := g.limit - bytes), maximum, rate, steps[1..])
  }

  function Moved(steps: seq<Step>): (n: nat) {
    if steps == [] then 0 else (if steps[0].Move? then steps[0].bytes else 0) + Moved(steps[1..])
  }

  function Waited(steps: seq<Step>): (n: nat) {
    if steps == [] then 0 else (if steps[0].Wait? then steps[0].ticks else 0) + Waited(steps[1..])
  }

  /** An update credits no tick twice, though the tick numbers wrap around. */
  lemma {:induction false} FreshenedFacts(f: Flow, maximum: nat, rate: nat)
    requires IsRate(rate, maximum) && f.limit <= maximum && f.last <= f.now
    ensures var g := Freshened(f, maximum, rate);
            && g.now == f.now && f.last <= g.last <= g.now && f.limit <= g.limit <= maximum
            && g.limit - f.limit <= (g.last - f.last) * rate
  {
    var n := Elapsed(f.last % TWO_TO_THE_32, f.now % TWO_TO_THE_32);
    ElapsedTicks(f.last, f.now);
    if 0 < n <= INT_MAX {
      RefillExact(f.limit, maximum, rate, n);
      Larger(n, f.now - f.last, rate);
    }
    hide Refilled, Elapsed;
  }

  lemma {:induction false} Larger(n: nat, m: nat, rate: nat)
    requires n <= m
    ensures 0 <= n * rate <= m * rate
  {
  }

  lemma {:induction false} ElapsedTicks(last: nat, now: nat)
    requires last <= now
    ensures Elapsed(last % TWO_TO_THE_32, now % TWO_TO_THE_32) <= now - last
    ensures now - last <= INT_MAX ==> Elapsed(last % TWO_TO_THE_32, now % TWO_TO_THE_32) == now - last
  {
    var p, q := last / TWO_TO_THE_32, now / TWO_TO_THE_32;
    var d := now % TWO_TO_THE_32 - last % TWO_TO_THE_32;
    assert now - last == (q - p) * TWO_TO_THE_32 + d;
  }

  /** Whatever it has left, a direction never moves more than its limit and its rate for the ticks that go by. */
  lemma {:induction false} RunBound(f: Flow, maximum: nat, rate: nat, steps: seq<Step>)
    requires IsRate(rate, maximum) && f.limit <= maximum && f.last <= f.now && Legal(f, maximum, rate, steps)
    ensures Moved(steps) <= Allowed(f) + (f.now + Waited(steps) - f.last) * rate
    decreases |steps|
  {
    hide Refilled, Elapsed, Freshened;
    if steps == [] {
      Larger(0, f.now - f.last, rate);
    } else {
      match steps[0]
      case Wait(ticks) =>
        RunBound(f.(now := f.now + ticks), maximum, rate, steps[1..]);
        assert f.now + ticks + Waited(steps[1..]) == f.now + Waited(steps);
      case Move(bytes) =>
        var g := Freshened(f, maximum, rate);
        FreshenedFacts(f, maximum, rate);
        RunBound(g.(limit := g.limit - bytes), maximum, rate, steps[1..]);
        Spread(f.last, g.last, f.now + Waited(steps), rate);
        assert Waited(steps[1..]) == Waited(steps);
    }
  }

  lemma {:induction false} Spread(a: nat, b: nat, c: nat, rate: nat)
    requires a <= b <= c
    ensures (c - a) * rate == (b - a) * rate + (c - b) * rate
  {
  }

  /** From its configuration on, a lone bufferevent moves at most its burst and its rate for each tick. */
  lemma {:induction false} BurstBound(maximum: nat, rate: nat, start: nat, steps: seq<Step>)
    requires IsRate(rate, maximum) && Legal(Flow(rate, start, start), maximum, rate, steps)
    ensures Moved(steps) <= rate + Waited(steps) * rate <= maximum + Waited(steps) * rate
  {
    RunBound(Flow(rate, start, start), maximum, rate, steps);
  }

  /** Does the bucket stand where the two flows do? */
  predicate Matches(b: Bucket, r: Flow, w: Flow) {
    b.read == r.limit && b.write == w.limit && r.last == w.last && r.now == w.now && b.last == r.last % TWO_TO_THE_32
  }

  /** The update of a bucket is that of each of its directions. */
  lemma {:induction false} UpdatedIsFreshened(b: Bucket, cfg: Cfg, r: Flow, w: Flow)
    requires cfg.Ok() && Matches(b, r, w)
    ensures Matches(
              Updated(b, cfg, r.now % TWO_TO_THE_32),
              Freshened(r, cfg.readMaximum, cfg.readRate), Freshened(w, cfg.writeMaximum, cfg.writeRate))
  {
    hide Refilled, Elapsed;
  }

  /** What a bufferevent may meet: time passes, somebody wants to move bytes, or the refill timer goes off. */
  datatype Action = Pass(ticks: nat) | Transfer(direction: Direction, bytes: nat) | Refill

  function Ticks(a: Action): (n: nat) {
    if a.Pass? then a.ticks else 0
  }

  function Passed(actions: seq<Action>): (n: nat) {
    if actions == [] then 0 else Passed(actions[..|actions| - 1]) + Ticks(actions[|actions| - 1])
  }

  /** The part of what an action moves that goes in direction d. */
  function Part(a: Action, d: Direction, moved: nat): (n: nat) {
    if a.Transfer? && a.direction == d then moved else 0
  }

  /** A bucket that was updated for tick `last`, which is not wrapped. */
  ghost predicate UpTo(b: Bucket, cfg: Cfg, last: nat) {
    cfg.Ok() && Within(b, cfg) && b.last == last % TWO_TO_THE_32
  }

  /** An update credits each direction its rate for each tick at most. */
  lemma {:induction false} UpdateCredits(b: Bucket, cfg: Cfg, last: nat, now: nat) returns (last': nat)
    requires UpTo(b, cfg, last) && last <= now
    ensures var b' := Updated(b, cfg, now % TWO_TO_THE_32);
            && UpTo(b', cfg, last') && last <= last' <= now
            && Positive(b'.read) <= Positive(b.read) + (last' - last) * cfg.readRate
            && Positive(b'.write) <= Positive(b.write) + (last' - last) * cfg.writeRate
  {
    var r, w := Flow(b.read, last, now), Flow(b.write, last, now);
    UpdatedIsFreshened(b, cfg, r, w);
    FreshenedFacts(r, cfg.readMaximum, cfg.readRate);
    FreshenedFacts(w, cfg.writeMaximum, cfg.writeRate);
    last' := Freshened(r, cfg.readMaximum, cfg.readRate).last;
    Larger(0, last' - last, cfg.readRate);
    Larger(0, last' - last, cfg.writeRate);
    hide Updated, Freshened;
  }

  /** What was moved and what is left, after one step more. */
  lemma {:induction false} Credit(
    moved: int, left: int, start: int, a: nat, b: nat, c: nat, rate: nat, part: int, left': int)
    requires a <= b <= c && moved + left <= start + (b - a) * rate && part + left' <= left + (c - b) * rate
    ensures moved + part + left' <= start + (c - a) * rate
  {
    Spread(a, b, c, rate);
  }

  /** How many ticks a refill needs to make a limit positive again. */
  lemma {:induction false} RefillResumes(limit: ssize, maximum: nat, rate: nat, n: nat)
    requires IsRate(rate, maximum) && limit <= maximum && 1 <= n <= INT_MAX
    ensures Refilled(limit, maximum, rate, n) > 0 <==> limit + n * rate > 0
  {
    RefillExact(limit, maximum, rate, n);
    hide Refilled;
  }

  /** A bufferevent with a rate limit of its own, and no group. */
  class Bufferevent {
    var rateLimiting: bool                    // is rate_limiting not NULL?
    var cfg: Cfg?
    var limit: Bucket
    var readSuspended: bool                // BEV_SUSPEND_BW in read_suspended
    var writeSuspended: bool               // BEV_SUSPEND_BW in write_suspended
    var timer: bool                        // is refill_bucket_event pending?

    /**
     A direction that has nothing left is suspended; the timer is pending just when a direction is suspended.
     */
    ghost predicate Valid()
      reads this
    {
      if cfg == null then
        !readSuspended && !writeSuspended && !timer
      else
        && rateLimiting && cfg.Ok() && (limit.read <= 0 ==> readSuspended) && (limit.write <= 0 ==> writeSuspended)
        && (timer <==> readSuspended || writeSuspended)
    }

    predicate Fits(x: int) {
      -TWO_TO_THE_63 <= x < TWO_TO_THE_63
    }

    constructor ()
      ensures Valid() && cfg == null && !rateLimiting
    {
      rateLimiting := false;
      cfg, limit, readSuspended, writeSuspended, timer := null, Bucket(0, 0, 0), false, false, false;
    }

    /** bufferevent_get_rlim_max_; maxSingle is the largest transfer without a rate limit. */
    method GetRlimMax(d: Direction, tick: uint32, maxSingle: ssize) returns (max: int)
      requires Valid()
      modifies this`limit
      ensures Valid() <==> cfg == null || !Runs(old(limit), cfg, tick, readSuspended, writeSuspended)
      ensures cfg != null && Within(old(limit), cfg) ==> Valid()
      ensures cfg != null && Within(old(limit), cfg) ==> Within(limit, cfg)
      ensures limit == if cfg == null then old(limit) else Updated(old(limit), cfg, tick)
      ensures max == if !rateLimiting then maxSingle
                     else if cfg == null then Positive(maxSingle)
                     else Positive(if d.Reading? then limit.read else limit.write)
    {
      hide Updated, Runs;
      var maxSoFar: int := maxSingle;
      if !rateLimiting {
        return maxSoFar;
      }
      if cfg != null {
        if Within(limit, cfg) {
          UpdatedWithin(limit, cfg, tick);
        }
        RunsOut(limit, cfg, tick, readSuspended, writeSuspended);
        if tick != limit.last {
          limit := Updated(limit, cfg, tick);
        } else {
          UpdatedAgain(limit, cfg);
        }
        maxSoFar := if d.Reading? then limit.read else limit.write;
      }
      return if maxSoFar < 0 then 0 else maxSoFar;
    }

    /** bufferevent_decrement_read_buckets_ */
    method DecrementReadBuckets(bytes: ssize)
      requires Valid() && (cfg != null ==> Fits(limit.read - bytes))
      modifies this`limit, this`readSuspended, this`timer
      ensures Valid()
      ensures cfg == null ==> unchanged(this)
      ensures cfg != null ==> limit == old(limit).(read := old(limit).read - bytes)
      ensures cfg != null ==> (readSuspended <==> limit.read <= 0)
    {
      if cfg != null {
        limit := limit.(read := limit.read - bytes);
        if limit.read <= 0 {
          readSuspended := true;
          timer := true;
        } else if readSuspended {
          if !writeSuspended {
            timer := false;
          }
          readSuspended := false;
        }
      }
    }

    /** bufferevent_decrement_write_buckets_ */
    method DecrementWriteBuckets(bytes: ssize)
      requires Valid() && (cfg != null ==> Fits(limit.write - bytes))
      modifies this`limit, this`writeSuspended, this`timer
      ensures Valid()
      ensures cfg == null ==> unchanged(this)
      ensures cfg != null ==> limit == old(limit).(write := old(limit).write - bytes)
      ensures cfg != null ==> (writeSuspended <==> limit.write <= 0)
    {
      if cfg != null {
        limit := limit.(write := limit.write - bytes);
        if limit.write <= 0 {
          writeSuspended := true;
          timer := true;
        } else if writeSuspended {
          if !readSuspended {
            timer := false;
          }
          writeSuspended := false;
        }
      }
    }

    /** bufferevent_decrement_read_limit: only a change of sign suspends or resumes. */
    method DecrementReadLimit(decr: ssize)
      requires Valid() && cfg != null && Fits(limit.read - decr)
      modifies this`limit, this`readSuspended, this`timer
      ensures Valid() && limit == old(limit).(read := old(limit).read - decr)
      ensures readSuspended <==> limit.read <= 0 || old(readSuspended && limit.read > 0)
    {
      var oldLimit := limit.read;
      var newLimit := oldLimit - decr;
      limit := limit.(read := newLimit);
      if oldLimit > 0 && newLimit <= 0 {
        readSuspended := true;
        timer := true;
      } else if oldLimit <= 0 && newLimit > 0 {
        if !writeSuspended {
          timer := false;
        }
        readSuspended := false;
      }
    }

    /** bufferevent_decrement_write_limit */
    method DecrementWriteLimit(decr: ssize)
      requires Valid() && cfg != null && Fits(limit.write - decr)
      modifies this`limit, this`writeSuspended, this`timer
      ensures Valid() && limit == old(limit).(write := old(limit).write - decr)
      ensures writeSuspended <==> limit.write <= 0 || old(writeSuspended && limit.write > 0)
    {
      var oldLimit := limit.write;
      var newLimit := oldLimit - decr;
      limit := limit.(write := newLimit);
      if oldLimit > 0 && newLimit <= 0 {
        writeSuspended := true;
        timer := true;
      } else if oldLimit <= 0 && newLimit > 0 {
        if !readSuspended {
          timer := false;
        }
        writeSuspended := false;
      }
    }

    /** bev_refill_callback_, when the timer has gone off. */
    method RefillCallback(tick: uint32)
      requires Valid() && timer
      modifies this`limit, this`readSuspended, this`writeSuspended, this`timer
      ensures Valid() <==> !Runs(old(limit), cfg, tick, old(readSuspended), old(writeSuspended))
      ensures Within(old(limit), cfg) ==> Valid()
      ensures timer <==> readSuspended || writeSuspended
      ensures limit == Updated(old(limit), cfg, tick) && (Within(old(limit), cfg) ==> Within(limit, cfg))
      ensures readSuspended <==> old(readSuspended) && limit.read <= 0
      ensures writeSuspended <==> old(writeSuspended) && limit.write <= 0
    {
      hide Updated, Runs;
      timer := false;
      if Within(limit, cfg) {
        UpdatedWithin(limit, cfg, tick);
      }
      RunsOut(limit, cfg, tick, readSuspended, writeSuspended);
      limit := Updated(limit, cfg, tick);
      var again := false;
      if readSuspended {
        if limit.read > 0 {
          readSuspended := false;
        } else {
          again := true;
        }
      }
      if writeSuspended {
        if limit.write > 0 {
          writeSuspended := false;
        } else {
          again := true;
        }
      }
      if again {
        timer := true;
      }
    }

    /** bufferevent_set_rate_limit, with ev_token_bucket_init_ */
    method SetRateLimit(newCfg: Cfg?, tick: uint32, alloc: bool) returns (res: int)
      requires Valid() && (newCfg != null ==> newCfg.Ok())
      modifies this
      ensures Valid() && res == if newCfg != null && !old(rateLimiting) && !alloc then -1 else 0
      ensures res != 0 || newCfg == old(cfg) ==> unchanged(this)
      ensures res == 0 ==> cfg == newCfg && (rateLimiting <==> old(rateLimiting) || newCfg != null)
      ensures res == 0 && newCfg != null && newCfg != old(cfg) ==>
                (readSuspended <==> limit.read <= 0) && (writeSuspended <==> limit.write <= 0)
      ensures res == 0 && newCfg != null && newCfg != old(cfg) ==>
                && Within(limit, newCfg)
                && limit == if old(cfg) == null then
                     Bucket(newCfg.readRate, newCfg.writeRate, tick)
                   else
                     Bucket(
                       Min(old(limit).read, newCfg.readMaximum), Min(old(limit).write, newCfg.writeMaximum),
                       old(limit).last)
    {
      if newCfg == null {
        if cfg != null {
          cfg := null;
          readSuspended, writeSuspended := false, false;
          timer := false;
        }
        return 0;
      }
      if cfg == newCfg {
        return 0;
      }
      if !rateLimiting {
        if !alloc {
          return -1;
        }
        rateLimiting := true;
      }
      var reinit := cfg != null;
      cfg := newCfg;
      limit := Init(limit, newCfg, tick, reinit);
      if reinit {
        timer := false;
      }
      var suspended := false;
      if limit.read > 0 {
        readSuspended := false;
      } else {
        readSuspended := true;
        suspended := true;
      }
      if limit.write > 0 {
        writeSuspended := false;
      } else {
        writeSuspended := true;
        suspended := true;
      }
      if suspended {
        timer := true;
      }
      return 0;
    }

    /** Moves as many of the bytes as the limit allows, as reading and writing do. */
    method MoveUpTo(d: Direction, bytes: nat, now: nat, ghost last: nat) returns (moved: nat, ghost last': nat)
      requires Valid() && cfg != null && UpTo(limit, cfg, last) && last <= now
      modifies this`limit, this`readSuspended, this`writeSuspended, this`timer
      ensures Valid() && UpTo(limit, cfg, last') && last <= last' <= now && moved <= bytes
      ensures var credit := last' - last;
              && Part(Transfer(d, bytes), Reading, moved) + Positive(limit.read)
                 <= Positive(old(limit).read) + credit * cfg.readRate
              && Part(Transfer(d, bytes), Writing, moved) + Positive(limit.write)
                 <= Positive(old(limit).write) + credit * cfg.writeRate
      ensures moved == Min(bytes, Positive(var b := Updated(old(limit), cfg, now % TWO_TO_THE_32);
                                           if d.Reading? then b.read else b.write))
    {
      hide Updated, Runs;
      last' := UpdateCredits(limit, cfg, last, now);
      var max := GetRlimMax(d, now % TWO_TO_THE_32, 0);
      moved := Min(bytes, max);
      if d.Reading? {
        DecrementReadBuckets(moved);
      } else {
        DecrementWriteBuckets(moved);
      }
    }

    /** One action; a refill happens only while the timer is pending. */
    method Act(a: Action, now: nat, ghost last: nat) returns (moved: nat, ghost last': nat)
      requires Valid() && cfg != null && UpTo(limit, cfg, last) && last <= now
      modifies this`limit, this`readSuspended, this`writeSuspended, this`timer
      ensures Valid() && UpTo(limit, cfg, last') && last <= last' <= now
      ensures Part(a, Reading, moved) + Positive(limit.read)
              <= Positive(old(limit).read) + (last' - last) * cfg.readRate
      ensures Part(a, Writing, moved) + Positive(limit.write)
              <= Positive(old(limit).write) + (last' - last) * cfg.writeRate
    {
      hide Updated, Runs;
      moved, last' := 0, last;
      match a
      case Pass(_) =>
      case Transfer(d, bytes) =>
        moved, last' := MoveUpTo(d, bytes, now, last);
      case Refill =>
        if timer {
          last' := UpdateCredits(limit, cfg, last, now);
          RefillCallback(now % TWO_TO_THE_32);
        }
    }

    /**
     Any run of a configured bufferevent: in either direction it moves at most what it had left and its rate for the
     ticks since its last update.
     */
    method Run(actions: seq<Action>, start: nat, ghost last: nat) returns (readMoved: nat, writeMoved: nat)
      requires Valid() && cfg != null && UpTo(limit, cfg, last) && last <= start
      modifies this`limit, this`readSuspended, this`writeSuspended, this`timer
      ensures Valid() && Within(limit, cfg)
      ensures readMoved <= Positive(old(limit).read) + (start + Passed(actions) - last) * cfg.readRate
      ensures writeMoved <= Positive(old(limit).write) + (start + Passed(actions) - last) * cfg.writeRate
    {
      readMoved, writeMoved := 0, 0;
      var k, now := 0, start;
      ghost var l: nat := last;
      while k < |actions|
        invariant 0 <= k <= |actions| && Valid() && now == start + Passed(actions[..k])
        invariant UpTo(limit, cfg, l) && last <= l <= now
        invariant readMoved + Positive(limit.read) <= Positive(old(limit).read) + (l - last) * cfg.readRate
        invariant writeMoved + Positive(limit.write) <= Positive(old(limit).write) + (l - last) * cfg.writeRate
        modifies this`limit, this`readSuspended, this`writeSuspended, this`timer
      {
        hide UpTo, Bufferevent.Valid;
        assert actions[..k + 1][..k] == actions[..k];
        ghost var was := limit;
        now := now + Ticks(actions[k]);
        var moved;
        ghost var l': nat;
        moved, l' := Act(actions[k], now, l);
        ghost var r, w := Part(actions[k], Reading, moved), Part(actions[k], Writing, moved);
        Credit(
          readMoved, Positive(was.read), Positive(old(limit).read), last, l, l', cfg.readRate,
          r, Positive(limit.read));
        Credit(
          writeMoved, Positive(was.write), Positive(old(limit).write), last, l, l', cfg.writeRate,
          w, Positive(limit.write));
        readMoved := readMoved + Part(actions[k], Reading, moved);
        writeMoved := writeMoved + Part(actions[k], Writing, moved);
        k, l := k + 1, l';
      }
      assert actions[..k] == actions;
      Larger(l - last, start + Passed(actions) - last, cfg.readRate);
      Larger(l - last, start + Passed(actions) - last, cfg.writeRate);
    }
  }

  /** From its configuration on, a bufferevent moves at most its burst and its rate for each tick, either way. */
  method RunFromConfiguration(cfg: Cfg, start: nat, actions: seq<Action>) returns (readMoved: nat, writeMoved: nat)
    requires cfg.Ok()
    ensures readMoved <= cfg.readRate + Passed(actions) * cfg.readRate
            <= cfg.readMaximum + Passed(actions) * cfg.readRate
    ensures writeMoved <= cfg.writeRate + Passed(actions) * cfg.writeRate
            <= cfg.writeMaximum + Passed(actions) * cfg.writeRate
  {
    var b := new Bufferevent();
    var _ := b.SetRateLimit(cfg, start % TWO_TO_THE_32, true);
    readMoved, writeMoved := b.Run(actions, start, start);
  }

  /** ev_token_bucket_init_ */
  method Init(b: Bucket, cfg: Cfg, tick: uint32, reinitialize: bool) returns (b': Bucket)
    requires cfg.Ok()
    ensures b' == if reinitialize then
                    Bucket(Min(b.read, cfg.readMaximum), Min(b.write, cfg.writeMaximum), b.last)
                  else
                    Bucket(cfg.readRate, cfg.writeRate, tick)
    ensures Within(b', cfg)
  {
    b' := b;
    if reinitialize {
      if b'.read > cfg.readMaximum {
        b' := b'.(read := cfg.readMaximum);
      }
      if b'.write > cfg.writeMaximum {
        b' := b'.(write := cfg.writeMaximum);
      }
    } else {
      b' := Bucket(cfg.readRate, cfg.writeRate, tick);
    }
  }

  lemma {:induction false} UpdatedAgain(b: Bucket, cfg: Cfg)
    requires cfg.Ok()
    ensures Updated(b, cfg, b.last) == b
  {
  }
}
