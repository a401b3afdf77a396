/** Rate-limited bufferevents and their groups: bufferevent_ratelim.c. Only the read side of a group is here; its
    write side is the same code over the write fields. */
module RateLimits {
  import opened Bytes
  import opened TokenBuckets
  import opened EventTimes

  const MAX_TO_READ_EVER: nat := 16384

  // When an update of a bucket cannot put a limit to sleep.

  /** The refill does not wrap round to a negative limit; a limit up to its maximum never does. */
  predicate NoWrap(limit: int, maximum: nat, rate: nat, n: nat) {
    limit <= maximum || limit + n * rate <= SSIZE_MAX || limit + n * rate > TWO_64
  }

  lemma RefillKeepsPositive(limit: int, maximum: nat, rate: nat, n: nat)
    requires 0 < limit <= SSIZE_MAX && 1 <= rate <= maximum <= SSIZE_MAX && 0 < n <= INT_MAX
    ensures Refill(limit, maximum, rate, n) > 0 <==> NoWrap(limit, maximum, rate, n)
  {
    hide Refill, RefillBy;
    RefillMultiplied(limit, maximum, rate, n);
    MulGrows(1, n, rate);
    RefillByKeepsPositive(limit, maximum, n * rate);
  }

  lemma RefillByKeepsPositive(limit: int, maximum: nat, p: nat)
    requires 0 < limit <= SSIZE_MAX && 1 <= maximum <= SSIZE_MAX && 1 <= p
    ensures RefillBy(limit, maximum, p) > 0
            <==> limit <= maximum || limit + p <= SSIZE_MAX || limit + p > TWO_64
  {
  }

  /** An update at this tick does not wrap either limit. */
  predicate Unwrapped(b: Bucket, cfg: Cfg, tick: nat) {
    var n := Elapsed(b.lastUpdated, tick);
    n == 0 || n > INT_MAX
    || (NoWrap(b.readLimit, cfg.readMaximum, cfg.readRate, n)
        && NoWrap(b.writeLimit, cfg.writeMaximum, cfg.writeRate, n))
  }

  lemma UpdateKeepsPositive(b: Bucket, cfg: Cfg, tick: nat)
    requires cfg.Valid() && b.Valid() && tick < TWO_32
    ensures b.Below(cfg) ==> Unwrapped(b, cfg, tick)
    ensures Unwrapped(b, cfg, tick) && b.readLimit > 0 ==> Updated(b, cfg, tick).readLimit > 0
    ensures Unwrapped(b, cfg, tick) && b.writeLimit > 0 ==> Updated(b, cfg, tick).writeLimit > 0
    ensures b.readLimit > 0 && b.writeLimit > 0 && !Unwrapped(b, cfg, tick) ==>
              Updated(b, cfg, tick).readLimit <= 0 || Updated(b, cfg, tick).writeLimit <= 0
  {
    hide Refill, NoWrap;
    var n := Elapsed(b.lastUpdated, tick);
    if n != 0 && n <= INT_MAX {
      if b.readLimit > 0 {
        RefillKeepsPositive(b.readLimit, cfg.readMaximum, cfg.readRate, n);
      }
      if b.writeLimit > 0 {
        RefillKeepsPositive(b.writeLimit, cfg.writeMaximum, cfg.writeRate, n);
      }
      BelowNoWrap(b, cfg, n);
    }
  }

  lemma BelowNoWrap(b: Bucket, cfg: Cfg, n: nat)
    ensures b.Below(cfg) ==> NoWrap(b.readLimit, cfg.readMaximum, cfg.readRate, n)
                             && NoWrap(b.writeLimit, cfg.writeMaximum, cfg.writeRate, n)
  {
  }

  /** How much may be read under a limit of one's own and a share in a group's, where there are such. */
  function ReadMax(own: Option<int>, share: Option<int>): nat {
    var max := if own.Some? then own.value else MAX_TO_READ_EVER;
    Allowed(if share.Some? then Min(max, share.value) else max)
  }

  /** The cap on a single read does not hold however big the bucket gets, as it is meant to: a limit of one's own
      takes its place instead of being clamped to it. */
  lemma CapHoldsOnly(own: Option<int>, share: Option<int>)
    ensures ReadMax(own, share) <= MAX_TO_READ_EVER <==>
            own == None || own.value <= MAX_TO_READ_EVER || (share.Some? && share.value <= MAX_TO_READ_EVER)
    ensures ReadMax(Some(MAX_TO_READ_EVER + 1), None) > MAX_TO_READ_EVER
  {
  }

  /** The rate limiting of a bufferevent. */
  class Bufferevent {
    // Whether there is a struct bufferevent_rate_limit.
    var limiting: bool
    var cfg: Option<Cfg>
    const limit: TokenBucket
    // BEV_SUSPEND_BW on each side.
    var readBw: bool
    var writeBw: bool
    // BEV_SUSPEND_BW_GROUP on the read side.
    var readGroup: bool
    var refillPending: bool
    var group: RateGroup?

    constructor ()
      ensures Valid() && cfg == None && !readGroup && group == null && !limiting && fresh(limit)
    {
      group, limiting := null, false;
      cfg, readBw, writeBw, refillPending, readGroup := None, false, false, false, false;
      limit := new TokenBucket();
    }

    /** A side that has used up its bucket is suspended. */
    ghost predicate Sound()
      reads this`limiting, this`cfg, this`readBw, this`writeBw, this`refillPending, limit
    {
      && limit.State().Valid()
      && (cfg.Some? ==>
            limiting && cfg.value.Valid() && (limit.readLimit <= 0 ==> readBw) && (limit.writeLimit <= 0 ==> writeBw))
      && (cfg.None? ==> !readBw && !writeBw && !refillPending)
    }

    /** No lost wake-up: while a side is suspended the timer that refills the buckets is pending. */
    ghost predicate Awaited()
      reads this`readBw, this`writeBw, this`refillPending
    {
      readBw || writeBw ==> refillPending
    }

    ghost predicate Valid()
      reads this`limiting, this`cfg, this`readBw, this`writeBw, this`refillPending, limit
    {
      Sound() && Awaited()
    }

    /** event_add for the timer that refills the buckets: a timer that is pending is just moved. */
    method AddRefill(canAdd: bool) returns (r: int)
      modifies `refillPending
      ensures r == if old(refillPending) || canAdd then 0 else -1
      ensures refillPending == (old(refillPending) || canAdd)
    {
      if !refillPending && !canAdd {
        return -1;
      }
      refillPending := true;
      r := 0;
    }

    /** bufferevent_update_buckets. */
    method UpdateBuckets(tick: nat)
      requires Sound() && cfg.Some? && tick < TWO_32
      modifies limit
      ensures limit.State() == Updated(old(limit.State()), cfg.value, tick) && limit.State().Valid()
      ensures old(Unwrapped(limit.State(), cfg.value, tick)) ==> Sound()
      ensures !readBw && !writeBw && Sound() ==> old(Unwrapped(limit.State(), cfg.value, tick))
    {
      hide Refill, Unwrapped;
      UpdateKeepsPositive(limit.State(), cfg.value, tick);
      if tick != limit.lastUpdated {
        var _ := limit.Update(cfg.value, tick);
      }
    }

    /** The bucket's part of _bufferevent_decrement_read_buckets. */
    method PayForRead(bytes: int, canAdd: bool) returns (r: int)
      requires Sound() && SSIZE_MIN <= limit.readLimit - bytes <= SSIZE_MAX
      modifies limit`readLimit, `readBw, `refillPending
      ensures Sound() && (r == 0 || r == -1)
      ensures r == -1 <==> cfg.Some? && limit.readLimit <= 0 && !old(refillPending) && !canAdd
      ensures old(Awaited()) ==> (Awaited() <==> r == 0)
      ensures limit.readLimit == old(limit.readLimit) - if cfg.Some? then bytes else 0
      ensures cfg.Some? ==> readBw == (limit.readLimit <= 0)
      ensures cfg.Some? ==>
                refillPending == (if readBw then old(refillPending) || canAdd
                                  else old(refillPending) && (writeBw || !old(readBw)))
    {
      r := 0;
      if cfg.Some? {
        limit.readLimit := limit.readLimit - bytes;
        if limit.readLimit <= 0 {
          readBw := true;
          r := AddRefill(canAdd);
        } else if readBw {
          if !writeBw {
            refillPending := false;
          }
          readBw := false;
        }
      }
    }

    /** The bucket's part of _bufferevent_decrement_write_buckets. */
    method PayForWrite(bytes: int, canAdd: bool) returns (r: int)
      requires Sound() && SSIZE_MIN <= limit.writeLimit - bytes <= SSIZE_MAX
      modifies limit`writeLimit, `writeBw, `refillPending
      ensures Sound() && (r == 0 || r == -1)
      ensures r == -1 <==> cfg.Some? && limit.writeLimit <= 0 && !old(refillPending) && !canAdd
      ensures old(Awaited()) ==> (Awaited() <==> r == 0)
      ensures limit.writeLimit == old(limit.writeLimit) - if cfg.Some? then bytes else 0
      ensures cfg.Some? ==> writeBw == (limit.writeLimit <= 0)
      ensures cfg.Some? ==>
                refillPending == (if writeBw then old(refillPending) || canAdd
                                  else old(refillPending) && (readBw || !old(writeBw)))
    {
      r := 0;
      if cfg.Some? {
        limit.writeLimit := limit.writeLimit - bytes;
        if limit.writeLimit <= 0 {
          writeBw := true;
          r := AddRefill(canAdd);
        } else if writeBw {
          if !readBw {
            refillPending := false;
          }
          writeBw := false;
        }
      }
    }

    /** bufferevent_decrement_read_limit. A negative `decr` is a refund. */
    method DecrementReadLimit(decr: int, canAdd: bool) returns (r: int)
      requires Sound() && cfg.Some? && SSIZE_MIN <= limit.readLimit - decr <= SSIZE_MAX
      modifies limit`readLimit, `readBw, `refillPending
      ensures Sound() && limit.readLimit == old(limit.readLimit) - decr && (r == 0 || r == -1)
      ensures r == -1 <==> old(limit.readLimit) > 0 >= limit.readLimit && !old(refillPending) && !canAdd
      ensures old(Awaited()) ==> (Awaited() <==> r == 0)
      ensures readBw == if (old(limit.readLimit) > 0) == (limit.readLimit > 0) then old(readBw)
                        else limit.readLimit <= 0
      ensures refillPending == if (old(limit.readLimit) > 0) == (limit.readLimit > 0) then old(refillPending)
                               else if limit.readLimit <= 0 then old(refillPending) || canAdd
                               else old(refillPending) && writeBw
    {
      r := 0;
      var oldLimit := limit.readLimit;
      limit.readLimit := limit.readLimit - decr;
      var newLimit := limit.readLimit;
      if oldLimit > 0 && newLimit <= 0 {
        readBw := true;
        r := AddRefill(canAdd);
      } else if oldLimit <= 0 && newLimit > 0 {
        if !writeBw {
          refillPending := false;
        }
        readBw := false;
      }
    }

    /** bufferevent_decrement_write_limit. */
    method DecrementWriteLimit(decr: int, canAdd: bool) returns (r: int)
      requires Sound() && cfg.Some? && SSIZE_MIN <= limit.writeLimit - decr <= SSIZE_MAX
      modifies limit`writeLimit, `writeBw, `refillPending
      ensures Sound() && limit.writeLimit == old(limit.writeLimit) - decr && (r == 0 || r == -1)
      ensures r == -1 <==> old(limit.writeLimit) > 0 >= limit.writeLimit && !old(refillPending) && !canAdd
      ensures old(Awaited()) ==> (Awaited() <==> r == 0)
      ensures writeBw == if (old(limit.writeLimit) > 0) == (limit.writeLimit > 0) then old(writeBw)
                         else limit.writeLimit <= 0
      ensures refillPending == if (old(limit.writeLimit) > 0) == (limit.writeLimit > 0) then old(refillPending)
                               else if limit.writeLimit <= 0 then old(refillPending) || canAdd
                               else old(refillPending) && readBw
    {
      r := 0;
      var oldLimit := limit.writeLimit;
      limit.writeLimit := limit.writeLimit - decr;
      var newLimit := limit.writeLimit;
      if oldLimit > 0 && newLimit <= 0 {
        writeBw := true;
        r := AddRefill(canAdd);
      } else if oldLimit <= 0 && newLimit > 0 {
        if !readBw {
          refillPending := false;
        }
        writeBw := false;
      }
    }

    /** _bev_refill_callback. The timer has fired, so it is no longer pending. Nobody is told if it cannot be added
        again, and then a side stays suspended for good. */
    method RefillCallback(tick: nat, canAdd: bool)
      requires Sound() && cfg.Some? && refillPending && tick < TWO_32
      modifies limit, `readBw, `writeBw, `refillPending
      ensures limit.State() == Updated(old(limit.State()), cfg.value, tick)
      ensures old(Unwrapped(limit.State(), cfg.value, tick)) ==> Sound()
      ensures Awaited() <==> canAdd || (!readBw && !writeBw)
      ensures readBw == (old(readBw) && limit.readLimit <= 0)
      ensures writeBw == (old(writeBw) && limit.writeLimit <= 0)
      ensures refillPending == ((readBw || writeBw) && canAdd)
    {
      hide Refill, Unwrapped;
      UpdateKeepsPositive(limit.State(), cfg.value, tick);
      refillPending := false;
      var again := false;
      var _ := limit.Update(cfg.value, tick);
      if readBw {
        if limit.readLimit > 0 {
          readBw := false;
        } else {
          again := true;
        }
      }
      if writeBw {
        if limit.writeLimit > 0 {
          writeBw := false;
        } else {
          again := true;
        }
      }
      if again {
        var _ := AddRefill(canAdd);
      }
    }

    /** bufferevent_set_rate_limit. Configurations are told apart by address in the source, so whether the new one
        is the old one is a parameter. It fails exactly if there is no memory for the limits; nobody is told if the
        timer cannot be added. */
    method SetRateLimit(newCfg: Option<Cfg>, same: bool, tick: nat, canAlloc: bool, canAdd: bool) returns (r: int)
      requires Sound() && tick < TWO_32 && (newCfg.Some? ==> newCfg.value.Valid()) && (same ==> newCfg == cfg)
      modifies limit, `limiting, `cfg, `readBw, `writeBw, `refillPending
      ensures Sound() && r == if newCfg.Some? && !old(limiting) && !canAlloc then -1 else 0
      ensures cfg == (if r == 0 then newCfg else old(cfg)) && limiting == (old(limiting) || (newCfg.Some? && canAlloc))
      ensures limit.State() == if newCfg == None || same || r == -1 then old(limit.State())
                               else if old(cfg).Some? then Clipped(old(limit.State()), newCfg.value)
                               else Initial(newCfg.value, tick)
      ensures newCfg.Some? && !same && r == 0 ==>
                && readBw == (limit.readLimit <= 0) && writeBw == (limit.writeLimit <= 0)
                && refillPending == ((readBw || writeBw) && canAdd)
      ensures (newCfg.Some? && same) || r == -1 ==>
                readBw == old(readBw) && writeBw == old(writeBw) && refillPending == old(refillPending)
      ensures old(Awaited()) ==>
                (Awaited() <==> newCfg == None || same || r == -1 || canAdd || (!readBw && !writeBw))
    {
      if newCfg == None {
        cfg := None;
        readBw := false;
        writeBw := false;
        refillPending := false;
        return 0;
      }
      if same {
        return 0;
      }
      if !limiting {
        if !canAlloc {
          return -1;
        }
        limiting := true;
      }
      var reinit := cfg.Some?;
      cfg := newCfg;
      limit.Init(newCfg.value, tick, reinit);
      refillPending := false;
      var suspended := false;
      if limit.readLimit > 0 {
        readBw := false;
      } else {
        readBw := true;
        suspended := true;
      }
      if limit.writeLimit > 0 {
        writeBw := false;
      } else {
        writeBw := true;
        suspended := true;
      }
      if suspended {
        var _ := AddRefill(canAdd);
      }
      r := 0;
    }

    /** _bufferevent_decrement_read_buckets. The caller holds the bufferevent's lock, so it is not `busy`. */
    method DecrementReadBuckets(bytes: int, busy: set<Bufferevent>, start: nat, canAdd: bool) returns (r: int)
      requires Sound() && SSIZE_MIN <= limit.readLimit - bytes <= SSIZE_MAX
      requires group != null ==>
                 && group.Valid() && this in group.members && group.joining.Keys <= busy && this !in busy
                 && group.limit != limit && start < |group.members|
                 && SSIZE_MIN <= group.limit.readLimit - bytes <= SSIZE_MAX
      modifies limit`readLimit, `readBw, `refillPending
      modifies if group != null then {group, group.limit} + group.Members() else {}
      ensures Sound() && limit.readLimit == old(limit.readLimit) - if cfg.Some? then bytes else 0
      ensures r == if cfg.Some? && limit.readLimit <= 0 && !old(refillPending) && !canAdd then -1 else 0
      ensures old(Awaited()) ==> (Awaited() <==> r == 0)
      ensures group == old(group) && cfg == old(cfg)
      ensures group != null ==> group.totalRead == (old(group.totalRead) + bytes) % TWO_64
      ensures cfg.Some? ==> readBw == (limit.readLimit <= 0)
      ensures group != null ==> group.Valid() && group.limit.readLimit == old(group.limit.readLimit) - bytes
      ensures group != null ==>
                group.View() == if group.limit.readLimit <= 0 then
                                  After(old(group.View()), Suspend(group.Members() - busy))
                                else if old(group.readSuspended) then
                                  After(old(group.View()), Unsuspend(group.Members() - busy))
                                else old(group.View())
      ensures group != null && group.limit.readLimit <= 0 ==> readGroup
    {
      r := PayForRead(bytes, canAdd);
      if group != null {
        group.PayForRead(bytes, busy, start);
        assert group.readSuspended ==> (this in group.View().flagged <==> readGroup);
      }
    }

    /** bufferevent_add_to_rate_limit_group, up to the point where the group's lock is given back; `joins` unless it
        ends before that, because it is a member already or has no memory for its limits. */
    method StartJoining(g: RateGroup, canAlloc: bool) returns (r: int, joins: bool)
      requires g.Valid() && (this in g.members <==> group == g)
      requires group == null ==> !readGroup
      requires group != null ==> limiting && group.Valid() && this in group.members && this !in group.joining
      modifies this, g, if group != null then {group} else {}
      ensures r == if !old(limiting) && !canAlloc then -1 else 0
      ensures joins <==> r == 0 && old(group) != g
      ensures cfg == old(cfg) && readBw == old(readBw) && writeBw == old(writeBw)
      ensures refillPending == old(refillPending) && limiting == (old(limiting) || canAlloc) && g.Valid()
      ensures !joins ==> group == old(group) && readGroup == old(readGroup) && g.View() == old(g.View())
      ensures joins ==>
                && group == g && !readGroup && g.members == old(g.members) + [this]
                && g.View() == After(old(g.View()), JoinStart(this))
      ensures joins && old(group) != null ==>
                old(group).Valid() && old(group).View() == After(old(group.View()), Leave(this))
    {
      if !limiting {
        if !canAlloc {
          return -1, false;
        }
        limiting := true;
      }
      if group == g {
        return 0, false;
      }
      Join(g);
      r, joins := 0, true;
    }

    /** Into one group, and out of another before that. */
    method Join(g: RateGroup)
      requires g.Valid() && this !in g.members && group != g
      requires group == null ==> !readGroup
      requires group != null ==> group.Valid() && this in group.members && this !in group.joining
      modifies `group, `readGroup, g, if group != null then {group} else {}
      ensures group == g && !readGroup && g.Valid() && g.members == old(g.members) + [this]
      ensures g.View() == After(old(g.View()), JoinStart(this))
      ensures old(group) != null ==> old(group).Valid() && old(group).View() == After(old(group.View()), Leave(this))
    {
      if group != null {
        RemoveFromGroup(true);
      }
      group := g;
      g.members := g.members + [this];
      g.joining := g.joining[this := g.readSuspended];
    }

    /** The rest of bufferevent_add_to_rate_limit_group, without the group's lock: the flag is set if the group was
        suspended when the bufferevent came in. */
    method FinishJoining(rsuspend: bool)
      requires group != null && group.Valid() && this in group.joining && group.joining[this] == rsuspend
      modifies `readGroup, group`joining
      ensures group.Valid() && group.View() == After(old(group.View()), JoinEnd(this))
    {
      if rsuspend {
        readGroup := true;
      }
      group.joining := group.joining - {this};
    }

    /** bufferevent_remove_from_rate_limit_group_internal. */
    method RemoveFromGroup(unsuspend: bool)
      requires group != null ==> group.Valid() && this in group.members && this !in group.joining
      modifies `group, `readGroup, if group != null then {group} else {}
      ensures group == null && readGroup == (old(readGroup) && !unsuspend)
      ensures old(group) != null ==>
                && old(group).Valid() && this !in old(group).members
                && old(group).View() == After(old(group.View()), Leave(this))
    {
      if group != null {
        var g := group;
        WithoutIs(g.members, this);
        group := null;
        g.members := Without(g.members, this);
      }
      if unsuspend {
        readGroup := false;
      }
    }

    /** _bufferevent_get_rlim_max for reading. The caller holds the bufferevent's lock, and takes the group's. */
    method GetReadMax(tick: nat) returns (max: int)
      requires limit.State().Valid() && (cfg.Some? ==> cfg.value.Valid()) && tick < TWO_32
      requires group != null ==> group.Valid() && this in group.members && this !in group.joining
      requires group != null ==> group.limit != limit
      modifies limit, `readGroup
      ensures limit.State() == if cfg.Some? then Updated(old(limit.State()), cfg.value, tick) else old(limit.State())
      ensures max >= 0
      ensures cfg.Some? ==> max <= Allowed(limit.readLimit)
      ensures cfg == None ==> max <= MAX_TO_READ_EVER
      ensures max == ReadMax(if cfg.Some? then Some(limit.readLimit) else None,
                             if group == null then None
                             else if group.readSuspended then Some(0) else Some(group.Share()))
      ensures group == null ==> readGroup == old(readGroup)
      ensures group != null ==> group.Valid()
      ensures group != null && group.readSuspended ==> max == 0 && readGroup
      ensures group != null && !group.readSuspended ==> readGroup == old(readGroup)
      ensures group != null ==> group.View() == After(old(group.View()), Look(this))
    {
      var maxSoFar: int := MAX_TO_READ_EVER;
      if cfg.Some? {
        if tick != limit.lastUpdated {
          var _ := limit.Update(cfg.value, tick);
        }
        maxSoFar := limit.readLimit;
      }
      if group != null {
        var share := group.ShareFor(this);
        if maxSoFar > share {
          maxSoFar := share;
        }
      }
      if maxSoFar < 0 {
        maxSoFar := 0;
      }
      max := maxSoFar;
    }
  }

  /** C's integer division by a positive number. */
  function Truncated(a: int, n: nat): int
    requires n > 0
  {
    if a >= 0 then a / n else -(-a / n)
  }

  /** struct bufferevent_rate_limit_group. A member's lock is never waited for while the group's lock is held. */
  class RateGroup {
    const limit: TokenBucket
    var cfg: Cfg
    var members: seq<Bufferevent>
    var readSuspended: bool
    var pendingUnsuspendRead: bool
    var minShare: nat
    var configuredMinShare: nat
    var totalRead: nat
    // The interval at which the master refill event goes off, once it has been added.
    var refillInterval: Option<TimeVal>
    // The members that have just been added, by a thread that still holds their lock but has given back the group's:
    // what that thread saw of `readSuspended`, and is about to act on.
    ghost var joining: map<Bufferevent, bool>

    ghost predicate Valid()
      reads this, limit
    {
      && cfg.Valid() && limit.State().Valid() && joining.Keys <= Members()
      && minShare <= SSIZE_MAX
      && NoRepeats(members)
    }

    ghost function Members(): set<Bufferevent>
      reads this`members
    {
      set m | m in members
    }

    /** What the members' flags and the group's own state come to. */
    ghost function View(): GroupView
      reads this, members`readGroup
    {
      GroupView(Members(), (set m | m in members && m.readGroup), joining, readSuspended, pendingUnsuspendRead)
    }

    /** The share of a member in what the group may read. */
    function Share(): nat
      requires members != []
      reads this, limit
    {
      var share := Truncated(limit.readLimit, |members|);
      if share < minShare then minShare else share
    }

    /** What a member that looks at its limit learns from the group: if the suspension has not reached it, because its
        lock was taken, it suspends itself. */
    method ShareFor(bev: Bufferevent) returns (share: int)
      requires Valid() && bev in members && bev !in joining
      modifies bev`readGroup
      ensures Valid() && View() == After(old(View()), Look(bev))
      ensures share == if readSuspended then 0 else Share()
      ensures bev.readGroup == (old(bev.readGroup) || readSuspended)
    {
      if readSuspended {
        bev.readGroup := true;
        share := 0;
      } else {
        share := Truncated(limit.readLimit, |members|);
        if share < minShare {
          share := minShare;
        }
      }
    }

    /** bufferevent_rate_limit_group_new. That the refill event may not be added goes unnoticed. */
    constructor (cfg: Cfg, tick: nat, canAdd: bool)
      requires cfg.Valid() && tick < TWO_32
      ensures Valid() && View() == NEW_GROUP && this.cfg == cfg && limit.State() == Initial(cfg, tick)
      ensures minShare == Min(64, Min(cfg.readRate, cfg.writeRate)) && totalRead == 0 && fresh(limit)
      ensures refillInterval == (if canAdd then Some(cfg.tickTimeout) else None) && (Ticking() <==> canAdd)
    {
      this.cfg := cfg;
      members, joining, readSuspended, pendingUnsuspendRead := [], map[], false, false;
      minShare, configuredMinShare, totalRead, refillInterval := 0, 0, 0, None;
      limit := new TokenBucket();
      new;
      limit.Init(cfg, tick, false);
      refillInterval := if canAdd then Some(cfg.tickTimeout) else None;
      var _ := SetMinShare(64);
    }

    /** bufferevent_rate_limit_group_set_min_share. */
    method SetMinShare(share: nat) returns (r: int)
      requires Valid()
      modifies `minShare, `configuredMinShare
      ensures Valid()
      ensures r == if share > SSIZE_MAX then -1 else 0
      ensures r == 0 ==> configuredMinShare == share && minShare == Min(share, Min(cfg.readRate, cfg.writeRate))
      ensures r == -1 ==> configuredMinShare == old(configuredMinShare) && minShare == old(minShare)
    {
      if share > SSIZE_MAX {
        return -1;
      }
      configuredMinShare := share;
      var s := share;
      if s > cfg.readRate {
        s := cfg.readRate;
      }
      if s > cfg.writeRate {
        s := cfg.writeRate;
      }
      minShare := s;
      r := 0;
    }

    /** _bev_group_suspend_reading. The members in `busy` cannot be locked just now. */
    method SuspendReading(busy: set<Bufferevent>)
      requires Valid() && joining.Keys <= busy
      modifies `readSuspended, `pendingUnsuspendRead, members`readGroup
      ensures Valid() && View() == After(old(View()), Suspend(Members() - busy))
    {
      readSuspended := true;
      pendingUnsuspendRead := false;
      var i := 0;
      while i < |members|
        invariant i <= |members| && members == old(members) && joining == old(joining)
        invariant readSuspended && !pendingUnsuspendRead
        invariant forall m :: m in members ==>
                    m.readGroup == (old(m.readGroup) || (m in members[..i] && m !in busy))
      {
        var bev := members[i];
        if bev !in busy {
          bev.readGroup := true;
        }
        i := i + 1;
      }
      assert members[..i] == members;
    }

    /** One of the two stretches in which the members are visited. */
    method UnsuspendStretch(busy: set<Bufferevent>, from: nat, to: nat) returns (again: bool)
      requires from <= to <= |members|
      modifies members`readGroup
      ensures forall m :: m in members ==>
                m.readGroup == (old(m.readGroup) && !(m in members[from..to] && m !in busy))
      ensures again <==> exists m :: m in members[from..to] && m in busy
    {
      again := false;
      var i := from;
      while i < to
        invariant from <= i <= to
        invariant forall m :: m in members ==>
                    m.readGroup == (old(m.readGroup) && !(m in members[from..i] && m !in busy))
        invariant again <==> exists m :: m in members[from..i] && m in busy
      {
        var bev := members[i];
        if bev !in busy {
          bev.readGroup := false;
        } else {
          again := true;
        }
        NextSlice(members, from, i);
        i := i + 1;
      }
    }

    /** FOREACH_RANDOM_ORDER: the members from a random one on, and then from the first one up to that. */
    method UnsuspendMembers(busy: set<Bufferevent>, start: nat) returns (again: bool)
      requires members != [] ==> start < |members|
      modifies members`readGroup
      ensures forall m :: m in members ==> m.readGroup == (old(m.readGroup) && m in busy)
      ensures again <==> exists m :: m in members && m in busy
    {
      again := false;
      if members != [] {
        InEitherPart(members, start);
        var late := UnsuspendStretch(busy, start, |members|);
        var early := UnsuspendStretch(busy, 0, start);
        again := late || early;
      }
    }

    /** _bev_group_unsuspend_reading. */
    method UnsuspendReading(busy: set<Bufferevent>, start: nat)
      requires Valid() && joining.Keys <= busy && (members != [] ==> start < |members|)
      modifies `readSuspended, `pendingUnsuspendRead, members`readGroup
      ensures Valid() && View() == After(old(View()), Unsuspend(Members() - busy))
    {
      readSuspended := false;
      pendingUnsuspendRead := UnsuspendMembers(busy, start);
    }

    /** The group's part of _bufferevent_decrement_read_buckets. */
    method PayForRead(bytes: int, busy: set<Bufferevent>, start: nat)
      requires Valid() && joining.Keys <= busy && (members != [] ==> start < |members|)
      requires SSIZE_MIN <= limit.readLimit - bytes <= SSIZE_MAX
      modifies limit`readLimit, `totalRead, `readSuspended, `pendingUnsuspendRead, members`readGroup
      ensures Valid() && limit.readLimit == old(limit.readLimit) - bytes
      ensures totalRead == (old(totalRead) + bytes) % TWO_64
      ensures View() == if limit.readLimit <= 0 then After(old(View()), Suspend(Members() - busy))
                        else if old(readSuspended) then After(old(View()), Unsuspend(Members() - busy))
                        else old(View())
      ensures limit.readLimit <= 0 <==> readSuspended
    {
      hide Bucket.Below;
      limit.readLimit := limit.readLimit - bytes;
      totalRead := (totalRead + bytes) % TWO_64;
      if limit.readLimit <= 0 {
        SuspendReading(busy);
      } else if readSuspended {
        UnsuspendReading(busy, start);
      }
    }

    /** _bev_group_refill_callback, for reading. */
    method RefillCallback(tick: nat, busy: set<Bufferevent>, start: nat)
      requires Valid() && joining.Keys <= busy && (members != [] ==> start < |members|) && tick < TWO_32
      modifies limit, `readSuspended, `pendingUnsuspendRead, members`readGroup
      ensures Valid() && limit.State() == Updated(old(limit.State()), cfg, tick)
      ensures View() == if old(pendingUnsuspendRead) || (old(readSuspended) && limit.readLimit >= minShare) then
                          After(old(View()), Unsuspend(Members() - busy))
                        else old(View())
      ensures old(Unwrapped(limit.State(), cfg, tick)) && old(Throttled()) && old(Orderly(View())) ==> Throttled()
    {
      hide Refill, Unwrapped;
      UpdateKeepsPositive(limit.State(), cfg, tick);
      ZeroGrows(limit.State(), cfg, tick);
      var _ := limit.Update(cfg, tick);
      if pendingUnsuspendRead || (readSuspended && limit.readLimit >= minShare) {
        UnsuspendReading(busy, start);
      }
    }

    /** The refill event goes off once a tick. */
    predicate Ticking()
      reads `cfg, `refillInterval
    {
      refillInterval == Some(cfg.tickTimeout)
    }

    /** A group that has read too much is suspended. */
    predicate Throttled()
      reads this, limit
    {
      limit.readLimit < 0 ==> readSuspended
    }

    /** bufferevent_rate_limit_group_set_cfg. The refill event is only set again if the tick changes; one that could not be
        added before is not added then if it does not. */
    method SetCfg(newCfg: Cfg, canAdd: bool)
      requires Valid() && newCfg.Valid() && configuredMinShare <= SSIZE_MAX
      modifies limit, `cfg, `minShare, `configuredMinShare, `refillInterval
      ensures Valid() && cfg == newCfg && limit.State() == Clipped(old(limit.State()), newCfg)
      ensures configuredMinShare == old(configuredMinShare)
      ensures minShare == Min(configuredMinShare, Min(newCfg.readRate, newCfg.writeRate))
      ensures refillInterval
              == if newCfg.tickTimeout != old(cfg.tickTimeout) && canAdd then Some(newCfg.tickTimeout)
                 else old(refillInterval)
      ensures newCfg.tickTimeout == old(cfg.tickTimeout) ==> (Ticking() <==> old(Ticking()))
      ensures newCfg.tickTimeout != old(cfg.tickTimeout) ==>
                (Ticking() <==> canAdd || old(refillInterval) == Some(newCfg.tickTimeout))
      ensures old(Throttled()) ==> Throttled()
    {
      var sameTick := cfg.tickTimeout == newCfg.tickTimeout;
      cfg := newCfg;
      if limit.readLimit > newCfg.readMaximum {
        limit.readLimit := newCfg.readMaximum;
      }
      if limit.writeLimit > newCfg.writeMaximum {
        limit.writeLimit := newCfg.writeMaximum;
      }
      if !sameTick && canAdd {
        refillInterval := Some(newCfg.tickTimeout);
      }
      var _ := SetMinShare(configuredMinShare);
    }
  }

  lemma NextSlice<T>(s: seq<T>, from: nat, i: nat)
    requires from <= i < |s|
    ensures s[from..i + 1] == s[from..i] + [s[i]]
  {
  }

  lemma InEitherPart<T>(s: seq<T>, k: nat)
    requires k <= |s|
    ensures forall x :: x in s <==> x in s[k..|s|] || x in s[0..k]
  {
    assert s == s[0..k] + s[k..|s|];
  }

  /** A limit of zero goes up. */
  lemma ZeroGrows(b: Bucket, cfg: Cfg, tick: nat)
    requires cfg.Valid() && b.Valid() && tick < TWO_32
    ensures b.readLimit == 0 ==> Updated(b, cfg, tick).readLimit >= 0
  {
    hide Refill;
    var n := Elapsed(b.lastUpdated, tick);
    if n != 0 && n <= INT_MAX && b.readLimit == 0 {
      RefillIsCapped(b.readLimit, cfg.readMaximum, cfg.readRate, n);
    }
  }

  // The protocol, step by step. Each step is what one thread does while it holds the group's lock, except the end of
  // joining, which needs no group lock.

  datatype GroupView = GroupView(members: set<Bufferevent>, flagged: set<Bufferevent>,
                                 joining: map<Bufferevent, bool>, suspended: bool, pending: bool)

  datatype Step =
    | Suspend(locked: set<Bufferevent>)
    | Unsuspend(locked: set<Bufferevent>)
    | JoinStart(bev: Bufferevent)
    | JoinEnd(bev: Bufferevent)
    | Look(bev: Bufferevent)
    | Leave(bev: Bufferevent)

  /** What the locks allow: the try-lock of a member fails while another thread holds it, as a joining thread does,
      and may fail at any other time too. */
  predicate Can(v: GroupView, s: Step) {
    match s
    case Suspend(locked) => locked <= v.members && locked !! v.joining.Keys
    case Unsuspend(locked) => locked <= v.members && locked !! v.joining.Keys
    case JoinStart(b) => b !in v.members
    case JoinEnd(b) => b in v.joining
    case Look(b) => b in v.members && b !in v.joining
    case Leave(b) => b in v.members && b !in v.joining
  }

  function After(v: GroupView, s: Step): GroupView {
    match s
    case Suspend(locked) => v.(flagged := v.flagged + locked, suspended := true, pending := false)
    case Unsuspend(locked) =>
      v.(flagged := v.flagged - locked, suspended := false, pending := locked != v.members)
    case JoinStart(b) => v.(members := v.members + {b}, joining := v.joining[b := v.suspended])
    case JoinEnd(b) =>
      v.(flagged := if b in v.joining && v.joining[b] then v.flagged + {b} else v.flagged, joining := v.joining - {b})
    case Look(b) => v.(flagged := if v.suspended then v.flagged + {b} else v.flagged)
    case Leave(b) => v.(members := v.members - {b}, flagged := v.flagged - {b})
  }

  /** Nobody is forgotten: unless the group is suspended, or knows that it has members to go back to, no member that
      has finished joining is still flagged. A joining member has no flag yet, and one that is about to set its
      flag is not forgotten either. */
  predicate Orderly(v: GroupView) {
    && v.flagged <= v.members && v.joining.Keys <= v.members && v.flagged !! v.joining.Keys
    && (!v.suspended && !v.pending ==> v.flagged == {} && forall b :: b in v.joining ==> !v.joining[b])
    && !(v.suspended && v.pending)
  }

  lemma StepKeepsOrder(v: GroupView, s: Step)
    requires Orderly(v) && Can(v, s)
    ensures Orderly(After(v, s))
  {
  }

  /** The steps of a run that the locks allow, and the states they lead to. */
  predicate CanRun(v: GroupView, run: seq<Step>)
    decreases |run|
  {
    run == [] || (Can(v, run[0]) && CanRun(After(v, run[0]), run[1..]))
  }

  function AfterRun(v: GroupView, run: seq<Step>): GroupView
    decreases |run|
  {
    if run == [] then v else AfterRun(After(v, run[0]), run[1..])
  }

  const NEW_GROUP := GroupView({}, {}, map[], false, false)

  /** Under every interleaving, a group that is neither suspended nor due to unsuspend somebody has no member left
      behind with its flag set. */
  lemma {:induction false} NobodyIsForgotten(run: seq<Step>)
    requires CanRun(NEW_GROUP, run)
    ensures var v := AfterRun(NEW_GROUP, run); !v.suspended && !v.pending ==> v.flagged == {}
  {
    RunKeepsOrder(NEW_GROUP, run);
  }

  /** A group that knows of members to go back to reaches all of them as soon as it can lock them. */
  lemma RetryReachesAll(v: GroupView)
    requires Orderly(v) && Can(v, Unsuspend(v.members))
    ensures After(v, Unsuspend(v.members)).flagged == {} && !After(v, Unsuspend(v.members)).pending
  {
  }

  lemma {:induction false} RunKeepsOrder(v: GroupView, run: seq<Step>)
    requires Orderly(v) && CanRun(v, run)
    ensures Orderly(AfterRun(v, run))
    decreases |run|
  {
    if run == [] {
    } else {
      StepKeepsOrder(v, run[0]);
      RunKeepsOrder(After(v, run[0]), run[1..]);
    }
  }
}
