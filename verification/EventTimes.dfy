/** Times of event.c: struct timeval, with the index of a common timeout in the spare bits of tv_usec. */
module EventTimes {
  const MAX_COMMON_TIMEOUTS: nat := 256
  const MILLION: int := 1000000

  /** One more than what fits under the mask for the microseconds. */
  const MICROSECONDS: int := 0x10_0000
  const COMMON_TIMEOUT_MAGIC: int := 0x5000_0000

  datatype TimeVal = TimeVal(sec: int, usec: int)

  // What event.c computes.

  /** COMMON_TIMEOUT_IDX. */
  function IndexOf(tv: TimeVal): int {
    tv.usec / MICROSECONDS % 256
  }

  /** The four bits of magic are there. */
  predicate HasMagic(tv: TimeVal) {
    tv.usec / 0x1000_0000 % 16 == 5
  }

  /** is_common_timeout, with `n` common timeouts. */
  predicate IsCommon(tv: TimeVal, n: nat) {
    HasMagic(tv) && IndexOf(tv) < n
  }

  /** A time without magic and index: tv_usec & MICROSECONDS_MASK. */
  function Masked(tv: TimeVal): TimeVal {
    tv.(usec := tv.usec % MICROSECONDS)
  }

  /** tv_usec & ~MICROSECONDS_MASK. */
  function TagBits(tv: TimeVal): int {
    tv.usec - tv.usec % MICROSECONDS
  }

  /** The bits of the common timeout `i`. */
  function Tag(i: int): int {
    COMMON_TIMEOUT_MAGIC + i * MICROSECONDS
  }

  /** Sets bits that are clear in the microseconds. */
  function WithBits(tv: TimeVal, bits: int): TimeVal {
    tv.(usec := tv.usec + bits)
  }

  /** evutil_timeradd. */
  function TimerAdd(a: TimeVal, b: TimeVal): TimeVal {
    var usec := a.usec + b.usec;
    if usec >= MILLION then TimeVal(a.sec + b.sec + 1, usec - MILLION) else TimeVal(a.sec + b.sec, usec)
  }

  /** evutil_timersub. */
  function TimerSub(a: TimeVal, b: TimeVal): TimeVal {
    var usec := a.usec - b.usec;
    if usec < 0 then TimeVal(a.sec - b.sec - 1, usec + MILLION) else TimeVal(a.sec - b.sec, usec)
  }

  /** evutil_timercmp with <. */
  predicate TimerLess(a: TimeVal, b: TimeVal) {
    if a.sec == b.sec then a.usec < b.usec else a.sec < b.sec
  }

  /** A timer is set. */
  predicate IsSet(tv: TimeVal) {
    tv.sec != 0 || tv.usec != 0
  }

  // What that means.

  /** A time in microseconds, tagged with the index of a common timeout unless that is -1. */
  function Stamp(at: int, list: int): TimeVal {
    TimeVal(at / MILLION, at % MILLION + if list < 0 then 0 else Tag(list))
  }

  /** The microseconds that a time stands for, whatever its tag. */
  function TimeOf(tv: TimeVal): int {
    tv.sec * MILLION + tv.usec % MICROSECONDS
  }

  /** The common timeout whose tag a time has, or -1. */
  function ListOf(tv: TimeVal): int {
    if HasMagic(tv) then IndexOf(tv) else -1
  }

  /** What a caller may pass for an interval: microseconds up to a million, and the tag of one of `n` common timeouts
      or none. */
  predicate IsInterval(tv: TimeVal, n: int) {
    -1 <= ListOf(tv) < n && 0 <= tv.usec % MICROSECONDS <= MILLION
    && tv.usec == tv.usec % MICROSECONDS + if ListOf(tv) < 0 then 0 else Tag(ListOf(tv))
  }

  /** Time and index can be read back from a stamp. */
  lemma StampReads(at: int, list: int, n: nat)
    requires -1 <= list < n <= MAX_COMMON_TIMEOUTS
    ensures var tv := Stamp(at, list);
      && TimeOf(tv) == at && ListOf(tv) == list && IsInterval(tv, n)
      && (IsCommon(tv, n) <==> list >= 0) && (list >= 0 ==> IndexOf(tv) == list)
      && Masked(tv) == Stamp(at, -1) && TagBits(tv) == if list < 0 then 0 else Tag(list)
  {
  }

  /** What is common is what has the tag of a list. */
  lemma IntervalReads(tv: TimeVal, n: nat)
    requires IsInterval(tv, n) && n <= MAX_COMMON_TIMEOUTS
    ensures (IsCommon(tv, n) <==> ListOf(tv) >= 0) && (ListOf(tv) >= 0 ==> IndexOf(tv) == ListOf(tv))
    ensures TagBits(tv) == if ListOf(tv) < 0 then 0 else Tag(ListOf(tv))
    ensures ListOf(tv) < 0 ==> Masked(tv) == tv
  {
  }

  /** Within a list, and outside all lists, stamps compare as their times do. */
  lemma StampsCompare(a: int, b: int, list: int)
    ensures TimerLess(Stamp(a, list), Stamp(b, list)) <==> a < b
  {
  }

  /** How event_add_internal computes ev_timeout. */
  function NextTimeout(tv: TimeVal, absolute: bool, now: TimeVal, n: nat): TimeVal {
    if absolute then tv
    else if IsCommon(tv, n) then WithBits(TimerAdd(now, Masked(tv)), TagBits(tv))
    else TimerAdd(now, tv)
  }

  /** It is the interval after now, with the tag of the interval. */
  lemma NextIsStamp(tv: TimeVal, now: int, n: nat)
    requires IsInterval(tv, n) && n <= MAX_COMMON_TIMEOUTS
    ensures NextTimeout(tv, false, Stamp(now, -1), n) == Stamp(now + TimeOf(tv), ListOf(tv))
  {
    IntervalReads(tv, n);
    AddIsStamp(now, Masked(tv));
  }

  lemma AddIsStamp(now: int, tv: TimeVal)
    requires 0 <= tv.usec <= MILLION
    ensures TimerAdd(Stamp(now, -1), tv) == TimerAdd(tv, Stamp(now, -1)) == Stamp(now + TimeOf(tv), -1)
  {
    var usec := now % MILLION + tv.usec;
    Carried(now / MILLION + tv.sec, usec);
  }

  /** Seconds and up to two million microseconds, put together. */
  lemma Carried(sec: int, usec: int)
    requires 0 <= usec < 2 * MILLION
    ensures Stamp(sec * MILLION + usec, -1)
            == if usec >= MILLION then TimeVal(sec + 1, usec - MILLION) else TimeVal(sec, usec)
  {
  }

  /** How event_persist_closure computes the next time of an event: from the time it was to run at, if it ran for that,
      and from now otherwise or if the result has passed. */
  function NextRun(timeout: TimeVal, interval: TimeVal, byTimeout: bool, now: TimeVal, n: nat): TimeVal {
    var common := IsCommon(timeout, n);
    var delay := if common then Masked(interval) else interval;
    var relativeTo := if !byTimeout then now else if common then Masked(timeout) else timeout;
    var runAt := TimerAdd(relativeTo, delay);
    WithBits(if TimerLess(runAt, now) then TimerAdd(now, delay) else runAt, if common then TagBits(interval) else 0)
  }

  /** The next time in microseconds. */
  function NextRunAt(at: int, period: int, byTimeout: bool, now: int): int {
    var runAt := (if byTimeout then at else now) + period;
    if runAt < now then now + period else runAt
  }

  /** It has the tag of the interval. */
  lemma NextRunIsStamp(at: int, interval: TimeVal, byTimeout: bool, now: int, n: nat)
    requires IsInterval(interval, n) && n <= MAX_COMMON_TIMEOUTS
    ensures NextRun(Stamp(at, ListOf(interval)), interval, byTimeout, Stamp(now, -1), n)
            == Stamp(NextRunAt(at, TimeOf(interval), byTimeout, now), ListOf(interval))
  {
    hide TimerAdd, TimerLess;
    var list := ListOf(interval);
    StampReads(at, list, n);
    IntervalReads(interval, n);
    AddIsStamp(if byTimeout then at else now, Masked(interval));
    AddIsStamp(now, Masked(interval));
    StampsCompare((if byTimeout then at else now) + TimeOf(interval), now, -1);
    Retagged(NextRunAt(at, TimeOf(interval), byTimeout, now), list);
  }

  lemma Retagged(at: int, list: int)
    ensures WithBits(Stamp(at, -1), if list < 0 then 0 else Tag(list)) == Stamp(at, list)
  {
  }

  /** How timeout_correct moves a time back, in the heap if `list` is -1 and in a list otherwise. */
  function Corrected(tv: TimeVal, off: TimeVal, list: int): TimeVal {
    if list < 0 then TimerSub(tv, off) else WithBits(TimerSub(Masked(tv), off), Tag(list))
  }

  lemma CorrectedIsStamp(at: int, off: int, list: int)
    requires -1 <= list < MAX_COMMON_TIMEOUTS
    ensures Corrected(Stamp(at, list), Stamp(off, -1), list) == Stamp(at - off, list)
  {
    StampReads(at, list, MAX_COMMON_TIMEOUTS);
    Borrowed(at / MILLION - off / MILLION, at % MILLION - off % MILLION);
  }

  lemma Borrowed(sec: int, usec: int)
    requires -MILLION < usec < MILLION
    ensures Stamp(sec * MILLION + usec, -1) == if usec < 0 then TimeVal(sec - 1, usec + MILLION) else TimeVal(sec, usec)
  {
  }

  /** How event_base_init_common_timeout brings a duration into shape: only if there are more than a million
      microseconds. */
  function Normal(duration: TimeVal, n: nat): TimeVal {
    if duration.usec > MILLION then
      var usec := if IsCommon(duration, n) then duration.usec % MICROSECONDS else duration.usec;
      TimeVal(duration.sec + usec / MILLION, usec % MILLION)
    else duration
  }

  /** The tagged duration of a list is an interval of that list. */
  lemma DurationIsInterval(duration: TimeVal, i: nat, n: nat)
    requires duration.usec >= 0 && i < n <= MAX_COMMON_TIMEOUTS
    ensures var tv := WithBits(Normal(duration, i), Tag(i));
      && IsInterval(tv, n) && IsCommon(tv, n) && ListOf(tv) == i && Masked(tv) == Normal(duration, i)
  {
  }

  /** A second and a million microseconds are the same time, and stay different durations. */
  lemma MillionStays(n: nat)
    ensures Normal(TimeVal(0, MILLION), n) == TimeVal(0, MILLION) && Normal(TimeVal(1, 0), n) == TimeVal(1, 0)
    ensures TimeOf(TimeVal(0, MILLION)) == TimeOf(TimeVal(1, 0))
  {
  }
}
