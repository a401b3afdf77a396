/** Token buckets: the arithmetic of bufferevent_ratelim.c and ratelim-internal.h. */
module TokenBuckets {
  import opened Bytes
  import opened EventTimes

  const SSIZE_MIN: int := -0x8000_0000_0000_0000
  const TWO_64: int := SIZE_MAX + 1

  /** Conversion to size_t. */
  function U64(x: int): nat {
    x % TWO_64
  }

  /** Conversion to ev_ssize_t. */
  function S64(x: int): int {
    if U64(x) <= SSIZE_MAX then U64(x) else U64(x) - TWO_64
  }

  /** struct ev_token_bucket_cfg. What number a tick has is left to whoever supplies the ticks. */
  datatype Cfg = Cfg(readRate: nat, readMaximum: nat, writeRate: nat, writeMaximum: nat, tickTimeout: TimeVal) {
    predicate Valid() {
      1 <= readRate <= readMaximum <= SSIZE_MAX && 1 <= writeRate <= writeMaximum <= SSIZE_MAX
    }
  }

  const ONE_SECOND := TimeVal(1, 0)

  /** ev_token_bucket_cfg_new. A tick is a second long if nothing else is said. */
  function CfgNew(readRate: nat, readBurst: nat, writeRate: nat, writeBurst: nat, tickLen: Option<TimeVal>,
                  canAlloc: bool): (r: Option<Cfg>)
    ensures r.Some? <==> 1 <= readRate <= readBurst <= SSIZE_MAX && 1 <= writeRate <= writeBurst <= SSIZE_MAX && canAlloc
    ensures r.Some? ==> r.value.Valid() && r.value.readRate == readRate && r.value.writeRate == writeRate
    ensures r.Some? ==> r.value.readMaximum == readBurst && r.value.writeMaximum == writeBurst
    ensures r.Some? ==> r.value.tickTimeout == if tickLen.Some? then tickLen.value else ONE_SECOND
  {
    if readRate > readBurst || writeRate > writeBurst || readRate < 1 || writeRate < 1 then None
    else if readRate > SSIZE_MAX || writeRate > SSIZE_MAX || readBurst > SSIZE_MAX || writeBurst > SSIZE_MAX then None
    else if !canAlloc then None
    else Some(Cfg(readRate, readBurst, writeRate, writeBurst, if tickLen == None then ONE_SECOND else tickLen.value))
  }

  /** The value of a struct ev_token_bucket. */
  datatype Bucket = Bucket(readLimit: int, writeLimit: int, lastUpdated: nat) {
    predicate Valid() {
      && SSIZE_MIN <= readLimit <= SSIZE_MAX && SSIZE_MIN <= writeLimit <= SSIZE_MAX
      && lastUpdated < TWO_32
    }

    predicate Below(cfg: Cfg) {
      Valid() && readLimit <= cfg.readMaximum && writeLimit <= cfg.writeMaximum
    }
  }

  // One refill.

  /** How the code refills a limit after `n` ticks, without ever computing a number that overflows. */
  function Refill(limit: int, maximum: nat, rate: nat, n: nat): int
    requires n > 0
  {
    if U64(maximum - limit) / n < rate then maximum else S64(limit + n * rate)
  }

  /** What a refill is meant to do. */
  function Capped(limit: int, maximum: nat, rate: nat, n: nat): int {
    if limit + n * rate > maximum then maximum else limit + n * rate
  }

  lemma DivBelow(a: nat, n: nat, r: nat)
    requires n > 0
    ensures a / n < r <==> a < n * r
  {
    var q := a / n;
    assert a == n * q + a % n;
    if q < r {
      assert n * (q + 1) <= n * r;
    } else {
      assert n * r <= n * q;
    }
  }

  /** A refill by `p` bytes, with the division multiplied out. */
  function RefillBy(limit: int, maximum: nat, p: nat): int {
    if U64(maximum - limit) < p then maximum else S64(limit + p)
  }

  lemma RefillByIsCapped(limit: int, maximum: nat, p: nat)
    requires SSIZE_MIN <= limit <= SSIZE_MAX && 1 <= maximum <= SSIZE_MAX && 1 <= p
    ensures RefillBy(limit, maximum, p) == (if limit + p > maximum then maximum else limit + p)
            <==> limit <= maximum || p + (limit - maximum) >= TWO_64
  {
  }

  lemma RefillMultiplied(limit: int, maximum: nat, rate: nat, n: nat)
    requires n > 0
    ensures Refill(limit, maximum, rate, n) == RefillBy(limit, maximum, n * rate)
  {
    hide U64, S64;
    DivBelow(U64(maximum - limit), n, rate);
  }

  /** The refill does what it is meant to do exactly if the limit is not above its maximum, or so far above it that
      the sum wraps all the way round. A refund can take a limit above its maximum. */
  lemma RefillIsCapped(limit: int, maximum: nat, rate: nat, n: nat)
    requires SSIZE_MIN <= limit <= SSIZE_MAX && 1 <= rate <= maximum <= SSIZE_MAX && 0 < n <= INT_MAX
    ensures Refill(limit, maximum, rate, n) == Capped(limit, maximum, rate, n)
            <==> limit <= maximum || n * rate + (limit - maximum) >= TWO_64
  {
    hide Refill, RefillBy;
    RefillMultiplied(limit, maximum, rate, n);
    MulGrows(1, n, rate);
    RefillByIsCapped(limit, maximum, n * rate);
  }

  lemma CappedAdds(limit: int, maximum: nat, rate: nat, m: nat, n: nat)
    requires limit <= maximum
    ensures Capped(Capped(limit, maximum, rate, m), maximum, rate, n) == Capped(limit, maximum, rate, m + n)
  {
    assert (m + n) * rate == m * rate + n * rate;
    assert m * rate >= 0 && n * rate >= 0;
  }

  // Updates at a tick.

  /** The ticks from `last` to `tick`, both counted modulo 2^32. */
  function Elapsed(last: nat, tick: nat): nat {
    (tick - last) % TWO_32
  }

  /** A bucket after ev_token_bucket_update. */
  function Updated(b: Bucket, cfg: Cfg, tick: nat): Bucket {
    var n := Elapsed(b.lastUpdated, tick);
    if n == 0 || n > INT_MAX then b
    else Bucket(Refill(b.readLimit, cfg.readMaximum, cfg.readRate, n),
                Refill(b.writeLimit, cfg.writeMaximum, cfg.writeRate, n), tick)
  }

  /** A bucket after ev_token_bucket_init. */
  function Initial(cfg: Cfg, tick: nat): Bucket {
    Bucket(cfg.readRate, cfg.writeRate, tick)
  }

  /** A bucket that gets a new configuration: limits are clipped, never raised. */
  function Clipped(b: Bucket, cfg: Cfg): Bucket {
    b.(readLimit := if b.readLimit > cfg.readMaximum then cfg.readMaximum else b.readLimit,
       writeLimit := if b.writeLimit > cfg.writeMaximum then cfg.writeMaximum else b.writeLimit)
  }

  lemma UpdatedValid(b: Bucket, cfg: Cfg, tick: nat)
    requires cfg.Valid() && b.Valid() && tick < TWO_32
    ensures Updated(b, cfg, tick).Valid()
    ensures b.Below(cfg) ==> Updated(b, cfg, tick).Below(cfg)
  {
    var n := Elapsed(b.lastUpdated, tick);
    if n != 0 && n <= INT_MAX && b.Below(cfg) {
      RefillIsCapped(b.readLimit, cfg.readMaximum, cfg.readRate, n);
      RefillIsCapped(b.writeLimit, cfg.writeMaximum, cfg.writeRate, n);
    }
  }

  class TokenBucket {
    var readLimit: int
    var writeLimit: int
    var lastUpdated: nat

    constructor ()
      ensures State() == Bucket(0, 0, 0)
    {
      readLimit, writeLimit, lastUpdated := 0, 0, 0;
    }

    function State(): Bucket
      reads this
    {
      Bucket(readLimit, writeLimit, lastUpdated)
    }

    /** ev_token_bucket_init. */
    method Init(cfg: Cfg, tick: nat, reinitialize: bool)
      requires cfg.Valid() && tick < TWO_32
      modifies this
      ensures State() == if reinitialize then Clipped(old(State()), cfg) else Initial(cfg, tick)
    {
      if reinitialize {
        if readLimit > cfg.readMaximum {
          readLimit := cfg.readMaximum;
        }
        if writeLimit > cfg.writeMaximum {
          writeLimit := cfg.writeMaximum;
        }
      } else {
        readLimit := cfg.readRate;
        writeLimit := cfg.writeRate;
        lastUpdated := tick;
      }
    }

    /** ev_token_bucket_update. */
    method Update(cfg: Cfg, tick: nat) returns (r: int)
      requires cfg.Valid() && tick < TWO_32 && State().Valid()
      modifies this
      ensures State() == Updated(old(State()), cfg, tick) && State().Valid()
      ensures r == if 0 < Elapsed(old(lastUpdated), tick) <= INT_MAX then 1 else 0
    {
      UpdatedValid(State(), cfg, tick);
      var n := (tick - lastUpdated) % TWO_32;
      if n == 0 || n > INT_MAX {
        return 0;
      }
      if U64(cfg.readMaximum - readLimit) / n < cfg.readRate {
        readLimit := cfg.readMaximum;
      } else {
        readLimit := S64(readLimit + n * cfg.readRate);
      }
      if U64(cfg.writeMaximum - writeLimit) / n < cfg.writeRate {
        writeLimit := cfg.writeMaximum;
      } else {
        writeLimit := S64(writeLimit + n * cfg.writeRate);
      }
      lastUpdated := tick;
      r := 1;
    }
  }

  // Several updates in a row.

  function Sum(ds: seq<nat>): nat {
    if ds == [] then 0 else ds[0] + Sum(ds[1..])
  }

  /** The bucket after an update at each of the instants that come after `ds[0]`, `ds[1]`, ... more ticks. */
  function UpdatedOften(b: Bucket, cfg: Cfg, now: nat, ds: seq<nat>): Bucket
    decreases |ds|
  {
    if ds == [] then b
    else UpdatedOften(Updated(b, cfg, (now + ds[0]) % TWO_32), cfg, now + ds[0], ds[1..])
  }

  lemma ElapsedIs(from: nat, to: nat)
    requires from <= to
    ensures Elapsed(from % TWO_32, to % TWO_32) == (to - from) % TWO_32
    ensures to - from < TWO_32 ==> Elapsed(from % TWO_32, to % TWO_32) == to - from
    ensures Elapsed(from % TWO_32, to % TWO_32) <= to - from
  {
  }

  /** What one update does to a bucket that is not above its maximum. */
  lemma UpdatedIsCapped(b: Bucket, cfg: Cfg, now: nat, d: nat)
    requires cfg.Valid() && b.Below(cfg) && b.lastUpdated == now % TWO_32 && d <= INT_MAX
    ensures Updated(b, cfg, (now + d) % TWO_32)
            == Bucket(Capped(b.readLimit, cfg.readMaximum, cfg.readRate, d),
                      Capped(b.writeLimit, cfg.writeMaximum, cfg.writeRate, d), (now + d) % TWO_32)
    ensures Updated(b, cfg, (now + d) % TWO_32).Below(cfg)
  {
    ElapsedIs(now, now + d);
    UpdatedValid(b, cfg, (now + d) % TWO_32);
    if d > 0 {
      RefillIsCapped(b.readLimit, cfg.readMaximum, cfg.readRate, d);
      RefillIsCapped(b.writeLimit, cfg.writeMaximum, cfg.writeRate, d);
    }
  }

  lemma UpdatedNow(b: Bucket, cfg: Cfg, now: nat)
    requires b.lastUpdated == now % TWO_32
    ensures Updated(b, cfg, now % TWO_32) == b
  {
  }

  /** Refilling in several steps is refilling once, over the sum of the ticks. */
  lemma {:induction false} UpdatesAddUp(b: Bucket, cfg: Cfg, now: nat, ds: seq<nat>)
    requires cfg.Valid() && b.Below(cfg) && b.lastUpdated == now % TWO_32 && Sum(ds) <= INT_MAX
    ensures UpdatedOften(b, cfg, now, ds) == Updated(b, cfg, (now + Sum(ds)) % TWO_32)
    decreases |ds|
  {
    hide Updated, Capped;
    if ds == [] {
      UpdatedNow(b, cfg, now);
    } else {
      var d, rest := ds[0], Sum(ds[1..]);
      var c := Updated(b, cfg, (now + d) % TWO_32);
      UpdatedIsCapped(b, cfg, now, d);
      UpdatesAddUp(c, cfg, now + d, ds[1..]);
      UpdatedIsCapped(c, cfg, now + d, rest);
      UpdatedIsCapped(b, cfg, now, d + rest);
      CappedAdds(b.readLimit, cfg.readMaximum, cfg.readRate, d, rest);
      CappedAdds(b.writeLimit, cfg.writeMaximum, cfg.writeRate, d, rest);
    }
  }

  // How much a run of reads can take.

  /** After `advance` ticks somebody wants to read `want` bytes. */
  datatype Attempt = Attempt(advance: nat, want: nat)

  /** What the limit lets through. */
  function Allowed(limit: int): nat {
    if limit > 0 then limit else 0
  }

  /** The bytes that an attempt reads. */
  function Taken(limit: int, want: nat): nat {
    Min(want, Allowed(limit))
  }

  /** The bytes read in a run: every attempt updates the bucket, asks how much it may read, and pays for that. */
  function TotalRead(b: Bucket, cfg: Cfg, now: nat, run: seq<Attempt>): nat
    decreases |run|
  {
    if run == [] then 0
    else
      var u := Updated(b, cfg, (now + run[0].advance) % TWO_32);
      var n := Taken(u.readLimit, run[0].want);
      n + TotalRead(u.(readLimit := u.readLimit - n), cfg, now + run[0].advance, run[1..])
  }

  function Duration(run: seq<Attempt>): nat {
    if run == [] then 0 else run[0].advance + Duration(run[1..])
  }

  /** However the reads are spread, and however long the gaps, a run of T ticks takes at most the maximum and T times
      the rate. */
  lemma {:induction false} BandwidthBound(b: Bucket, cfg: Cfg, now: nat, run: seq<Attempt>)
    requires cfg.Valid() && b.Below(cfg) && b.lastUpdated == now % TWO_32
    ensures TotalRead(b, cfg, now, run) <= cfg.readMaximum + Duration(run) * cfg.readRate
  {
    BoundFrom(b, cfg, now, now, run);
    assert Duration(run) * cfg.readRate >= 0;
  }

  /** The bound counts from the last update, which may be some time ago. */
  lemma {:induction false} BoundFrom(b: Bucket, cfg: Cfg, last: nat, now: nat, run: seq<Attempt>)
    requires cfg.Valid() && b.Below(cfg) && last <= now && b.lastUpdated == last % TWO_32
    ensures TotalRead(b, cfg, now, run) <= Allowed(b.readLimit + (now + Duration(run) - last) * cfg.readRate)
    decreases |run|
  {
    if run == [] {
    } else {
      hide Updated, Elapsed;
      var next := now + run[0].advance;
      var u := Updated(b, cfg, next % TWO_32);
      var since := UpdatedAt(b, cfg, last, next);
      var n := Taken(u.readLimit, run[0].want);
      var end := now + Duration(run);
      BoundFrom(u.(readLimit := u.readLimit - n), cfg, since, next, run[1..]);
      Spread(end, since, last, cfg.readRate);
      PayingFirst(u.readLimit, b.readLimit + (since - last) * cfg.readRate, (end - since) * cfg.readRate, run[0].want);
    }
  }

  /** Reading `n` now leaves that much less to read later. */
  lemma PayingFirst(limit: int, bound: int, later: nat, want: nat)
    requires limit <= bound
    ensures Taken(limit, want) + Allowed(limit - Taken(limit, want) + later) <= Allowed(bound + later)
  {
  }

  lemma Spread(end: nat, since: nat, last: nat, rate: nat)
    requires last <= since <= end
    ensures (end - last) * rate == (end - since) * rate + (since - last) * rate
    ensures (end - since) * rate >= 0
  {
    assert (end - last) == (end - since) + (since - last);
  }

  lemma MulGrows(a: nat, b: nat, c: nat)
    requires a <= b
    ensures a * c <= b * c
  {
    assert b * c == a * c + (b - a) * c;
  }

  /** An update credits at most the ticks that have really passed; the instant of the last credit is returned. */
  lemma UpdatedAt(b: Bucket, cfg: Cfg, last: nat, next: nat) returns (since: nat)
    requires cfg.Valid() && b.Below(cfg) && last <= next && b.lastUpdated == last % TWO_32
    ensures last <= since <= next && Updated(b, cfg, next % TWO_32).lastUpdated == since % TWO_32
    ensures Updated(b, cfg, next % TWO_32).Below(cfg)
    ensures Updated(b, cfg, next % TWO_32).readLimit <= b.readLimit + (since - last) * cfg.readRate
  {
    hide U64, S64, Refill;
    UpdatedValid(b, cfg, next % TWO_32);
    var e := Elapsed(last % TWO_32, next % TWO_32);
    ElapsedIs(last, next);
    since := last;
    if e != 0 && e <= INT_MAX {
      since := next;
      RefillIsCapped(b.readLimit, cfg.readMaximum, cfg.readRate, e);
      MulGrows(e, next - last, cfg.readRate);
    }
  }
}
