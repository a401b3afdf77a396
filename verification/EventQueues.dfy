/** The queues of an event base, as values: what the flags of events say of them, when the timers of the lists are set,
    and what each change of one event does to all that. */
module EventQueues {
  import opened Bytes
  import opened EventTimes

  type Id = nat

  /** struct event. `timeout`, `active` and `inserted` are the flags of the queues that it is on; `tv` is ev_timeout, and
      `at` and `list` are the microseconds and the list that it stands for; `ioTv` is ev_io_timeout. */
  datatype Ev = Ev(pri: nat, internal: bool, io: bool, at: int, list: int, tv: TimeVal, timeout: bool, active: bool,
                   inserted: bool, byTimeout: bool, persist: bool, ioTv: TimeVal)

  /** The times of an event have the tags of its list, of `n`. */
  predicate Stamped(e: Ev, n: int) {
    e.tv == Stamp(e.at, e.list) && IsInterval(e.ioTv, n) && (e.persist && IsSet(e.ioTv) ==> ListOf(e.ioTv) == e.list)
  }

  type Events = map<Id, Ev>

  // The queues and the flags agree.

  /** The heap has the events that wait outside all lists, but for those that it has lost. */
  ghost predicate HeapOk(evs: Events, heap: set<Id>, lost: set<Id>) {
    && (forall id :: id in heap <==> id in evs && evs[id].timeout && evs[id].list == -1 && id !in lost)
    && (forall id :: id in lost ==> id in evs && evs[id].timeout && evs[id].list == -1)
  }

  ghost predicate ListOk(evs: Events, ids: seq<Id>, i: int) {
    && NoRepeats(ids)
    && (forall id :: id in ids <==> id in evs && evs[id].timeout && evs[id].list == i)
    && Sorted(evs, ids)
  }

  ghost predicate Sorted(evs: Events, ids: seq<Id>) {
    forall j, k :: 0 <= j < k < |ids| && ids[j] in evs && ids[k] in evs ==> evs[ids[j]].at <= evs[ids[k]].at
  }

  ghost predicate ListsOk(evs: Events, lists: seq<seq<Id>>) {
    forall i :: 0 <= i < |lists| ==> ListOk(evs, lists[i], i)
  }

  ghost predicate ActiveOk(evs: Events, active: seq<seq<Id>>) {
    forall p :: 0 <= p < |active| ==>
      NoRepeats(active[p]) && forall id :: id in active[p] <==> id in evs && evs[id].active && evs[id].pri == p
  }

  ghost predicate InsertedOk(evs: Events, inserted: seq<Id>) {
    NoRepeats(inserted) && forall id :: id in inserted <==> id in evs && evs[id].inserted
  }

  /** What never changes about events and timers. */
  ghost predicate Shape(evs: Events, nlists: nat, timers: seq<Id>, nqueues: nat) {
    && |timers| == nlists <= MAX_COMMON_TIMEOUTS && nqueues > 0
    && (forall id :: id in evs ==>
          && -1 <= evs[id].list < nlists && Stamped(evs[id], nlists)
          && evs[id].pri < nqueues && (evs[id].internal ==> id in timers))
    && (forall i :: 0 <= i < |timers| ==>
          && timers[i] in evs && evs[timers[i]].internal && !evs[timers[i]].io && evs[timers[i]].pri == 0
          && evs[timers[i]].list == -1 && !evs[timers[i]].persist)
    && NoRepeats(timers)
  }

  /** The timer of a list with events is active, or in the heap at a time not after that of the first event. */
  ghost predicate Armed(evs: Events, ids: seq<Id>, timer: Id) {
    ids != [] && ids[0] in evs ==>
      && timer in evs
      && (evs[timer].active || (evs[timer].timeout && evs[timer].at <= evs[ids[0]].at))
  }

  // Counting.

  ghost function Timed(evs: Events): set<Id> {
    set id | id in evs && evs[id].timeout && !evs[id].internal
  }

  ghost function Activated(evs: Events): set<Id> {
    set id | id in evs && evs[id].active && !evs[id].internal
  }

  ghost function Inserted(evs: Events): set<Id> {
    set id | id in evs && evs[id].inserted && !evs[id].internal
  }

  /** The number of memberships of events that are not internal. */
  ghost function Memberships(evs: Events): nat {
    |Timed(evs)| + |Activated(evs)| + |Inserted(evs)|
  }

  function One(b: bool): int {
    if b then 1 else 0
  }

  lemma MembershipsUpdate(evs: Events, id: Id, e: Ev)
    requires id in evs && e.internal == evs[id].internal
    ensures Memberships(evs[id := e]) ==
            Memberships(evs) + if e.internal then 0
                               else One(e.timeout) - One(evs[id].timeout) + One(e.active) - One(evs[id].active)
                                    + One(e.inserted) - One(evs[id].inserted)
  {
    hide Timed, Activated, Inserted;
    TimedUpdate(evs, id, e);
    ActivatedUpdate(evs, id, e);
    InsertedSetUpdate(evs, id, e);
  }

  lemma TimedUpdate(evs: Events, id: Id, e: Ev)
    requires id in evs && e.internal == evs[id].internal
    ensures |Timed(evs[id := e])| ==
            |Timed(evs)| + if e.internal then 0 else One(e.timeout) - One(evs[id].timeout)
  {
    assert Timed(evs[id := e]) == if e.timeout && !e.internal then Timed(evs) + {id} else Timed(evs) - {id};
  }

  lemma ActivatedUpdate(evs: Events, id: Id, e: Ev)
    requires id in evs && e.internal == evs[id].internal
    ensures |Activated(evs[id := e])| ==
            |Activated(evs)| + if e.internal then 0 else One(e.active) - One(evs[id].active)
  {
    assert Activated(evs[id := e]) == if e.active && !e.internal then Activated(evs) + {id} else Activated(evs) - {id};
  }

  lemma InsertedSetUpdate(evs: Events, id: Id, e: Ev)
    requires id in evs && e.internal == evs[id].internal
    ensures |Inserted(evs[id := e])| ==
            |Inserted(evs)| + if e.internal then 0 else One(e.inserted) - One(evs[id].inserted)
  {
    assert Inserted(evs[id := e]) == if e.inserted && !e.internal then Inserted(evs) + {id} else Inserted(evs) - {id};
  }

  // One event changes.

  lemma HeapPut(evs: Events, heap: set<Id>, lost: set<Id>, id: Id, e: Ev)
    requires HeapOk(evs, heap, lost) && id in evs && !evs[id].timeout && e.timeout && e.list == -1
    ensures HeapOk(evs[id := e], heap + {id}, lost) && |heap + {id}| == |heap| + 1
    ensures HeapOk(evs[id := e], heap, lost + {id})
  {
    assert id !in heap;
  }

  /** A set and perhaps one more. */
  function With<T>(s: set<T>, v: Option<T>): set<T> {
    if v.Some? then s + {v.value} else s
  }

  function Less<T>(s: set<T>, v: Option<T>): set<T> {
    if v.Some? then s - {v.value} else s
  }

  /** Event `id` leaves the queue of timeouts, and another in its place leaves the heap if it was lost to that. */
  lemma HeapErase(evs: Events, heap: set<Id>, lost: set<Id>, id: Id, e: Ev, victim: Option<Id>)
    requires HeapOk(evs, heap, lost) && id in evs && evs[id].timeout && evs[id].list == -1 && !e.timeout
    requires victim.Some? <==> id in lost
    requires victim.Some? ==> victim.value in heap
    ensures HeapOk(evs[id := e], Less(heap - {id}, victim), With(lost - {id}, victim))
    ensures |Less(heap - {id}, victim)| == |heap| - 1
  {
    if victim.Some? {
      assert heap - {id} == heap && |heap - {victim.value}| == |heap| - 1;
    } else {
      assert id in heap && |heap - {id}| == |heap| - 1;
    }
  }

  lemma ActiveHas(evs: Events, active: seq<seq<Id>>, id: Id)
    requires ActiveOk(evs, active) && id in evs && evs[id].active && evs[id].pri < |active|
    ensures id in active[evs[id].pri] && NoRepeats(active[evs[id].pri])
  {
  }

  lemma ListHas(evs: Events, lists: seq<seq<Id>>, i: int)
    requires ListsOk(evs, lists) && 0 <= i < |lists|
    ensures (forall id :: id in lists[i] ==> id in evs) && Sorted(evs, lists[i]) && NoRepeats(lists[i])
  {
  }

  lemma NotListed(evs: Events, lists: seq<seq<Id>>, id: Id)
    requires ListsOk(evs, lists) && id in evs && !evs[id].timeout
    ensures forall i :: 0 <= i < |lists| ==> id !in lists[i]
  {
    forall i | 0 <= i < |lists|
      ensures id !in lists[i]
    {
      assert ListOk(evs, lists[i], i);
    }
  }

  lemma ListsKeep(evs: Events, lists: seq<seq<Id>>, id: Id, e: Ev)
    requires ListsOk(evs, lists) && id in evs
    requires (evs[id].timeout && evs[id].list >= 0) == (e.timeout && e.list >= 0)
    requires e.timeout && e.list >= 0 ==> e.list == evs[id].list && e.at == evs[id].at
    ensures ListsOk(evs[id := e], lists)
  {
    forall i | 0 <= i < |lists|
      ensures ListOk(evs[id := e], lists[i], i)
    {
      assert ListOk(evs, lists[i], i);
    }
  }

  lemma {:induction false} SortedWithout(evs: Events, ids: seq<Id>, id: Id)
    requires Sorted(evs, ids) && NoRepeats(ids) && forall x :: x in ids ==> x in evs
    ensures Sorted(evs, Without(ids, id))
    ensures Without(ids, id) != [] ==> ids != [] && evs[ids[0]].at <= evs[Without(ids, id)[0]].at
  {
    if ids != [] && ids[0] != id {
      var rest := ids[1..];
      assert Sorted(evs, rest) && NoRepeats(rest);
      SortedWithout(evs, rest, id);
      WithoutIs(rest, id);
      var w := Without(rest, id);
      forall k | 0 <= k < |w|
        ensures evs[ids[0]].at <= evs[w[k]].at
      {
        assert w[k] in rest;
      }
    } else if ids != [] {
      assert Without(ids, id) == ids[1..];
    }
  }

  lemma {:induction false} ListRemove(evs: Events, ids: seq<Id>, i: int, id: Id, e: Ev)
    requires ListOk(evs, ids, i) && id in ids && !e.timeout
    ensures ListOk(evs[id := e], Without(ids, id), i)
  {
    WithoutIs(ids, id);
    SortedWithout(evs, ids, id);
  }

  lemma ListsRemove(evs: Events, lists: seq<seq<Id>>, id: Id, e: Ev)
    requires ListsOk(evs, lists) && id in evs && evs[id].timeout && 0 <= evs[id].list < |lists| && !e.timeout
    ensures ListsOk(evs[id := e], lists[evs[id].list := Without(lists[evs[id].list], id)])
  {
    var l := evs[id].list;
    var after := lists[l := Without(lists[l], id)];
    forall i | 0 <= i < |after|
      ensures ListOk(evs[id := e], after[i], i)
    {
      assert ListOk(evs, lists[i], i);
      if i == l {
        ListRemove(evs, lists[l], l, id, e);
      }
    }
  }

  lemma {:induction false} ActiveUpdate(evs: Events, active: seq<seq<Id>>, id: Id, e: Ev)
    requires ActiveOk(evs, active) && id in evs && e.pri == evs[id].pri < |active|
    ensures var q := active[e.pri];
            ActiveOk(evs[id := e], active[e.pri := if e.active == evs[id].active then q
                                                   else if e.active then q + [id] else Without(q, id)])
  {
    WithoutIs(active[e.pri], id);
  }

  lemma {:induction false} InsertedUpdate(evs: Events, inserted: seq<Id>, id: Id, e: Ev)
    requires InsertedOk(evs, inserted) && id in evs
    ensures InsertedOk(evs[id := e], if e.inserted == evs[id].inserted then inserted
                                     else if e.inserted then inserted + [id] else Without(inserted, id))
  {
    WithoutIs(inserted, id);
  }

  // A list grows.

  function InsertedAt(ids: seq<Id>, k: nat, id: Id): seq<Id>
    requires k <= |ids|
  {
    ids[..k] + [id] + ids[k..]
  }

  /** The place behind all events that are not later. */
  ghost predicate IsPlace(evs: Events, ids: seq<Id>, at: int, k: nat) {
    && k <= |ids|
    && (forall j :: 0 <= j < k && ids[j] in evs ==> evs[ids[j]].at <= at)
    && (forall j :: k <= j < |ids| && ids[j] in evs ==> at < evs[ids[j]].at)
  }

  lemma {:induction false} InsertedAtHas(ids: seq<Id>, k: nat, id: Id)
    requires k <= |ids| && NoRepeats(ids) && id !in ids
    ensures NoRepeats(InsertedAt(ids, k, id))
    ensures forall x :: x in InsertedAt(ids, k, id) <==> x in ids || x == id
  {
    var more := InsertedAt(ids, k, id);
    assert ids == ids[..k] + ids[k..];
    forall a, b | 0 <= a < b < |more|
      ensures more[a] != more[b]
    {
      assert a != k ==> more[a] == ids[if a < k then a else a - 1];
      assert b != k ==> more[b] == ids[if b < k then b else b - 1];
    }
  }

  lemma {:induction false} ListInsert(evs: Events, ids: seq<Id>, i: int, id: Id, e: Ev, k: nat)
    requires ListOk(evs, ids, i) && id in evs && !evs[id].timeout && e.timeout && e.list == i
    requires k <= |ids| && IsPlace(evs, ids, e.at, k)
    ensures ListOk(evs[id := e], InsertedAt(ids, k, id), i)
  {
    hide NoRepeats, Sorted, IsPlace, InsertedAt;
    assert id !in ids;
    InsertedAtHas(ids, k, id);
    SortedInsert(evs, ids, id, e, k);
  }

  lemma {:induction false} SortedInsert(evs: Events, ids: seq<Id>, id: Id, e: Ev, k: nat)
    requires Sorted(evs, ids) && id !in ids && (forall j :: 0 <= j < |ids| ==> ids[j] in evs) && IsPlace(evs, ids, e.at, k)
    ensures Sorted(evs[id := e], InsertedAt(ids, k, id))
  {
    var more, now := InsertedAt(ids, k, id), evs[id := e];
    forall a, b | 0 <= a < b < |more|
      ensures more[a] in now && more[b] in now && now[more[a]].at <= now[more[b]].at
    {
      assert a != k ==> more[a] == ids[if a < k then a else a - 1];
      assert b != k ==> more[b] == ids[if b < k then b else b - 1];
    }
  }

  lemma ListsInsert(evs: Events, lists: seq<seq<Id>>, id: Id, e: Ev, k: nat)
    requires ListsOk(evs, lists) && id in evs && !evs[id].timeout && e.timeout && 0 <= e.list < |lists|
    requires IsPlace(evs, lists[e.list], e.at, k)
    ensures ListsOk(evs[id := e], lists[e.list := InsertedAt(lists[e.list], k, id)])
  {
    var after := lists[e.list := InsertedAt(lists[e.list], k, id)];
    forall i | 0 <= i < |after|
      ensures ListOk(evs[id := e], after[i], i)
    {
      assert ListOk(evs, lists[i], i);
      if i == e.list {
        ListInsert(evs, lists[i], i, id, e, k);
      }
    }
  }

  /** What an event looks like once it is to fire at `at`, or as part of the list `list` then. */
  function WithTimeout(e: Ev, at: int, list: int): Ev {
    e.(timeout := true, at := at, list := list, tv := Stamp(at, list), active := e.active && !e.byTimeout)
  }

  /** The lists without an event that is leaving the queue of timeouts. */
  function ListsWithout(evs: Events, lists: seq<seq<Id>>, id: Id): seq<seq<Id>>
    requires id in evs
  {
    var l := evs[id].list;
    if evs[id].timeout && 0 <= l < |lists| then lists[l := Without(lists[l], id)] else lists
  }

  lemma ListsErase(evs: Events, lists: seq<seq<Id>>, id: Id, e: Ev)
    requires ListsOk(evs, lists) && id in evs && evs[id].timeout && evs[id].list < |lists| && !e.timeout
    ensures var ls := ListsWithout(evs, lists, id);
      && ListsOk(evs[id := e], ls) && |ls| == |lists|
      && ls == if evs[id].list >= 0 then lists[evs[id].list := Without(lists[evs[id].list], id)] else lists
  {
    hide ListsOk;
    if evs[id].list >= 0 {
      ListsRemove(evs, lists, id, e);
    } else {
      ListsKeep(evs, lists, id, e);
    }
  }

  /** Every list has its timer armed, except perhaps those of `but`. */
  ghost predicate AllArmed(evs: Events, lists: seq<seq<Id>>, timers: seq<Id>, but: set<int>) {
    |lists| == |timers| && forall i :: 0 <= i < |lists| && i !in but ==> Armed(evs, lists[i], timers[i])
  }

  /** The timers that the heap has lost are active, or those of lists of `but`. */
  ghost predicate LostTimers(evs: Events, timers: seq<Id>, lost: set<Id>, but: set<int>) {
    forall i :: 0 <= i < |timers| && timers[i] in lost ==> i in but || (timers[i] in evs && evs[timers[i]].active)
  }

  /** The list whose timer has been taken off the heap for another event, if it was waiting for that to run. */
  function Bereft(evs: Events, timers: seq<Id>, victim: Option<Id>): set<int> {
    set i | 0 <= i < |timers| && victim == Some(timers[i]) && timers[i] in evs && !evs[timers[i]].active
  }

  lemma ArmedMore(evs: Events, lists: seq<seq<Id>>, timers: seq<Id>, but: set<int>, but': set<int>)
    requires AllArmed(evs, lists, timers, but) && but <= but'
    ensures AllArmed(evs, lists, timers, but')
  {
  }

  /** A list stays armed while its first event does not get earlier and its timer does not change. */
  lemma ArmedStays(evs: Events, evs': Events, ids: seq<Id>, ids': seq<Id>, timer: Id)
    requires Armed(evs, ids, timer) && timer in evs && timer in evs' && evs'[timer] == evs[timer]
    requires ids' != [] ==>
               ids != [] && ids[0] in evs && ids'[0] in evs' && evs[ids[0]].at <= evs'[ids'[0]].at
    ensures Armed(evs', ids', timer)
  {
  }

  lemma PlaceIn(evs: Events, ids: seq<Id>, at: int, k: nat)
    requires IsPlace(evs, ids, at, k)
    ensures k <= |ids|
  {
  }

  lemma PlaceBound(evs: Events, ids: seq<Id>, at: int, k: nat, id: Id)
    requires IsPlace(evs, ids, at, k) && id !in ids
    ensures k <= |ids| && (InsertedAt(ids, k, id)[0] == id <==> k == 0)
  {
  }

  lemma {:induction false} ListsWithoutHas(evs: Events, lists: seq<seq<Id>>, id: Id)
    requires ListsOk(evs, lists) && id in evs
    ensures |ListsWithout(evs, lists, id)| == |lists|
    ensures forall i, x :: 0 <= i < |lists| && x in ListsWithout(evs, lists, id)[i] ==> x in evs
  {
    forall i, x | 0 <= i < |lists| && x in ListsWithout(evs, lists, id)[i]
      ensures x in evs
    {
      assert ListOk(evs, lists[i], i);
      WithoutIs(lists[i], id);
    }
  }

  lemma TimerUnlisted(evs: Events, lists: seq<seq<Id>>, timers: seq<Id>, nqueues: nat, i: int)
    requires Shape(evs, |lists|, timers, nqueues) && 0 <= i < |lists|
    ensures timers[i] in evs && evs[timers[i]].list == -1 && ListsWithout(evs, lists, timers[i]) == lists
    ensures timers[i] in timers
  {
  }

  lemma PlaceStays(evs: Events, ids: seq<Id>, at: int, k: nat, id: Id, e: Ev)
    requires IsPlace(evs, ids, at, k) && id !in ids
    ensures IsPlace(evs[id := e], ids, at, k)
  {
  }

  /** An event that is not a timer leaves the queue of timeouts. */
  lemma {:induction false} ArmedWithout(evs: Events, lists: seq<seq<Id>>, timers: seq<Id>, nqueues: nat, id: Id,
                                        e: Ev, but: set<int>)
    requires Shape(evs, |lists|, timers, nqueues) && ListsOk(evs, lists) && AllArmed(evs, lists, timers, but)
    requires id in evs && id !in timers
    ensures AllArmed(evs[id := e], ListsWithout(evs, lists, id), timers, but)
    ensures forall i :: 0 <= i < |lists| ==> id !in ListsWithout(evs, lists, id)[i]
  {
    var after := ListsWithout(evs, lists, id);
    forall i | 0 <= i < |lists|
      ensures id !in after[i]
      ensures i !in but ==> Armed(evs[id := e], after[i], timers[i])
    {
      ListHas(evs, lists, i);
      assert ListOk(evs, lists[i], i);
      WithoutIs(lists[i], id);
      SortedWithout(evs, lists[i], id);
      if i !in but {
        assert Armed(evs, lists[i], timers[i]);
        assert after[i] != [] ==> after[i][0] in after[i];
        ArmedStays(evs, evs[id := e], lists[i], after[i], timers[i]);
      }
    }
  }

  /** An event that is not a timer joins a list; if it comes first there, the timer is still to be set. */
  lemma {:induction false} ArmedInsert(evs: Events, lists: seq<seq<Id>>, timers: seq<Id>, nqueues: nat,
                                       id: Id, e: Ev, list: int, k: nat, but: set<int>)
    requires Shape(evs, |lists|, timers, nqueues) && AllArmed(evs, lists, timers, but)
    requires id in evs && id !in timers && 0 <= list < |lists| && k <= |lists[list]|
    requires forall i :: 0 <= i < |lists| ==> id !in lists[i] && forall x :: x in lists[i] ==> x in evs
    ensures AllArmed(evs[id := e], lists[list := InsertedAt(lists[list], k, id)], timers, if k == 0 then but + {list} else but)
  {
    var after := lists[list := InsertedAt(lists[list], k, id)];
    forall i | 0 <= i < |lists| && i !in but && (k == 0 ==> i != list)
      ensures Armed(evs[id := e], after[i], timers[i])
    {
      assert Armed(evs, lists[i], timers[i]);
      assert after[i] != [] ==> after[i][0] == lists[i][0] && lists[i][0] in lists[i];
      ArmedStays(evs, evs[id := e], lists[i], after[i], timers[i]);
    }
  }

  /** The timer of a list is set to the time of the list's first event. */
  lemma {:induction false} ArmedTimer(evs: Events, lists: seq<seq<Id>>, timers: seq<Id>, nqueues: nat, i: int, e: Ev,
                                      but: set<int>)
    requires Shape(evs, |lists|, timers, nqueues) && AllArmed(evs, lists, timers, but + {i}) && 0 <= i < |lists|
    requires ListsOk(evs, lists) && e.timeout && (lists[i] != [] ==> lists[i][0] in evs && e.at <= evs[lists[i][0]].at)
    ensures AllArmed(evs[timers[i] := e], lists, timers, but - {i})
  {
    var now := evs[timers[i] := e];
    forall j | 0 <= j < |lists| && j !in but - {i}
      ensures Armed(now, lists[j], timers[j])
    {
      ListHas(evs, lists, j);
      assert ListOk(evs, lists[j], j);
      assert lists[j] != [] ==> lists[j][0] in lists[j];
      if j != i {
        assert Armed(evs, lists[j], timers[j]);
        ArmedStays(evs, now, lists[j], lists[j], timers[j]);
      }
    }
  }

  /** What event_add_internal makes of an event. */
  function Added(e: Ev, tv: Option<TimeVal>, absolute: bool, now: int): Ev {
    var e1 := if e.io && !e.active then e.(inserted := true) else e;
    if tv.None? then e1 else WithInterval(e1, tv.value, absolute, now)
  }

  function WithInterval(e: Ev, tv: TimeVal, absolute: bool, now: int): Ev {
    WithTimeout(if e.persist && !absolute then e.(ioTv := tv) else e,
                if absolute then TimeOf(tv) else now + TimeOf(tv), ListOf(tv))
  }

  /** An event of a descriptor that has been added is inserted or active, except exactly if it was active on account of
      a timeout, was not inserted, and has been given a new timeout. */
  lemma AddedIsQueued(e: Ev, tv: Option<TimeVal>, absolute: bool, now: int)
    requires e.io
    ensures Added(e, tv, absolute, now).inserted || Added(e, tv, absolute, now).active
            <==> e.inserted || !e.active || !e.byTimeout || tv == None
  {
  }

  /** Changing neither time nor list of an event that is no timer leaves the lists armed. */
  lemma {:induction false} ArmedFlags(evs: Events, lists: seq<seq<Id>>, timers: seq<Id>, nqueues: nat, id: Id, e: Ev,
                                      but: set<int>)
    requires Shape(evs, |lists|, timers, nqueues) && ListsOk(evs, lists) && AllArmed(evs, lists, timers, but)
    requires id in evs && id !in timers && e.at == evs[id].at
    ensures AllArmed(evs[id := e], lists, timers, but)
  {
    forall i | 0 <= i < |lists| && i !in but
      ensures Armed(evs[id := e], lists[i], timers[i])
    {
      ListHas(evs, lists, i);
      assert Armed(evs, lists[i], timers[i]);
      assert lists[i] != [] ==> lists[i][0] in lists[i];
      ArmedStays(evs, evs[id := e], lists[i], lists[i], timers[i]);
    }
  }

  /** An event that has left all queues. */
  function Deleted(e: Ev): Ev {
    e.(timeout := false, active := false, inserted := false)
  }

  /** An event that has been activated, on account of a timeout or not. */
  function Active(e: Ev, byTimeout: bool): Ev {
    e.(active := true, byTimeout := byTimeout || (e.active && e.byTimeout))
  }

  /** A timer that goes off is active, so its list stays armed; other events may go off too. */
  lemma {:induction false} ArmedFire(evs: Events, lists: seq<seq<Id>>, timers: seq<Id>, nqueues: nat, id: Id,
                                     but: set<int>)
    requires Shape(evs, |lists|, timers, nqueues) && ListsOk(evs, lists) && AllArmed(evs, lists, timers, but)
    requires id in evs
    ensures AllArmed(evs[id := Active(Deleted(evs[id]), true)], ListsWithout(evs, lists, id), timers, but)
  {
    var e := Active(Deleted(evs[id]), true);
    if id in timers {
      forall i | 0 <= i < |lists| && i !in but
        ensures Armed(evs[id := e], lists[i], timers[i])
      {
        ListHas(evs, lists, i);
        assert ListOk(evs, lists[i], i);
        assert Armed(evs, lists[i], timers[i]);
        assert lists[i] != [] ==> lists[i][0] in lists[i];
        if timers[i] != id {
          ArmedStays(evs, evs[id := e], lists[i], lists[i], timers[i]);
        }
      }
    } else {
      ArmedWithout(evs, lists, timers, nqueues, id, e, but);
    }
  }

  /** A list is armed if it is empty, or its timer is active. */
  lemma ArmedAnyhow(evs: Events, lists: seq<seq<Id>>, timers: seq<Id>, i: int, but: set<int>)
    requires AllArmed(evs, lists, timers, but + {i}) && 0 <= i < |lists|
    requires lists[i] == [] || (timers[i] in evs && evs[timers[i]].active)
    ensures AllArmed(evs, lists, timers, but - {i})
  {
  }

  /** The events of a list whose time has come are active and off all other queues; nothing else has changed. */
  ghost function Fired(evs: Events, ids: seq<Id>, now: int): Events {
    map x | x in evs :: if x in ids && evs[x].at <= now then Active(Deleted(evs[x]), true) else evs[x]
  }

  /** The events of a list whose time has not come. */
  function Later(evs: Events, ids: seq<Id>, now: int): seq<Id> {
    if ids == [] then [] else (if ids[0] in evs && evs[ids[0]].at <= now then [] else [ids[0]]) + Later(evs, ids[1..], now)
  }

  ghost function FiredUpTo(evs: Events, ids: seq<Id>, n: nat): Events
    requires n <= |ids|
  {
    map x | x in evs :: if x in ids[..n] then Active(Deleted(evs[x]), true) else evs[x]
  }

  lemma FiredKeys(evs: Events, ids: seq<Id>, now: int)
    ensures Fired(evs, ids, now).Keys == evs.Keys
  {
  }

  lemma {:induction false} LaterSame(evs: Events, evs': Events, ids: seq<Id>, now: int)
    requires forall x :: x in ids ==> x in evs && x in evs' && evs'[x] == evs[x]
    ensures Later(evs', ids, now) == Later(evs, ids, now)
  {
    if ids != [] {
      LaterSame(evs, evs', ids[1..], now);
    }
  }

  lemma FiredElsewhere(evs: Events, ids: seq<Id>, now: int, x: Id)
    requires x in evs && x !in ids
    ensures x in Fired(evs, ids, now) && Fired(evs, ids, now)[x] == evs[x]
  {
  }

  lemma NoneFired(evs: Events, ids: seq<Id>, now: int)
    ensures FiredUpTo(evs, ids, 0) == evs
  {
  }

  lemma {:induction false} OneMore(evs: Events, ids: seq<Id>, n: nat)
    requires n < |ids| && ids[n] in evs && forall j :: 0 <= j < n ==> ids[j] != ids[n]
    ensures var before := FiredUpTo(evs, ids, n);
            FiredUpTo(evs, ids, n + 1) == before[ids[n] := Active(Deleted(before[ids[n]]), true)]
  {
    assert ids[..n + 1] == ids[..n] + [ids[n]];
    assert ids[n] !in ids[..n];
  }

  lemma NotYetFired(evs: Events, ids: seq<Id>, n: nat)
    requires n < |ids| && forall j :: 0 <= j < n ==> ids[j] != ids[n]
    ensures ids[n] in FiredUpTo(evs, ids, n) ==> ids[n] in evs && FiredUpTo(evs, ids, n)[ids[n]] == evs[ids[n]]
  {
    assert ids[n] !in ids[..n];
  }

  lemma WithoutHead(evs: Events, lists: seq<seq<Id>>, i: int)
    requires 0 <= i < |lists| && lists[i] != []
    requires lists[i][0] in evs && evs[lists[i][0]].timeout && evs[lists[i][0]].list == i
    ensures |ListsWithout(evs, lists, lists[i][0])| == |lists|
    ensures ListsWithout(evs, lists, lists[i][0])[i] == lists[i][1..]
  {
  }

  /** In a sorted list the events whose time has come are at the front. */
  lemma {:induction false} AllFired(evs: Events, ids: seq<Id>, n: nat, now: int)
    requires n <= |ids| && (forall j :: 0 <= j < |ids| ==> ids[j] in evs)
    requires forall j, k :: 0 <= j < k < |ids| ==> ids[j] != ids[k] && evs[ids[j]].at <= evs[ids[k]].at
    requires forall j :: 0 <= j < n ==> evs[ids[j]].at <= now
    requires n < |ids| ==> evs[ids[n]].at > now
    ensures FiredUpTo(evs, ids, n) == Fired(evs, ids, now) && ids[n..] == Later(evs, ids, now)
  {
    forall x | x in evs
      ensures x in ids[..n] <==> x in ids && evs[x].at <= now
    {
      if x in ids {
        var j :| 0 <= j < |ids| && ids[j] == x;
        assert j < n ==> ids[..n][j] == x;
      }
    }
    LaterIs(evs, ids, n, now);
  }

  lemma {:induction false} LaterIs(evs: Events, ids: seq<Id>, n: nat, now: int)
    requires n <= |ids| && (forall j :: 0 <= j < |ids| ==> ids[j] in evs)
    requires forall j :: 0 <= j < |ids| ==> (evs[ids[j]].at <= now <==> j < n)
    ensures ids[n..] == Later(evs, ids, now)
  {
    if ids != [] {
      var rest := ids[1..];
      LaterIs(evs, rest, if n > 0 then n - 1 else 0, now);
      assert n > 0 ==> ids[n..] == rest[n - 1..];
      assert n == 0 ==> ids == [ids[0]] + rest;
    }
  }

  /** The events of the heap whose time has come are active and off all other queues; nothing else has changed. */
  ghost function HeapFired(evs: Events, heap: set<Id>, now: int): Events {
    map x | x in evs :: if x in heap && evs[x].at <= now then Active(Deleted(evs[x]), true) else evs[x]
  }

  ghost function FiredSet(evs: Events, fired: set<Id>): Events {
    map x | x in evs :: if x in fired then Active(Deleted(evs[x]), true) else evs[x]
  }

  lemma OneMoreFired(evs0: Events, evs: Events, fired: set<Id>, ev: Id)
    requires evs == FiredSet(evs0, fired) && ev in evs && ev !in fired
    ensures evs[ev := Active(Deleted(evs[ev]), true)] == FiredSet(evs0, fired + {ev}) && ev in evs0
            && evs0[ev] == evs[ev]
  {
  }

  lemma NoneFiredYet(evs: Events)
    ensures FiredSet(evs, {}) == evs
  {
  }

  lemma AllDueFired(evs0: Events, evs: Events, heap0: set<Id>, heap: set<Id>, fired: set<Id>, now: int)
    requires evs == FiredSet(evs0, fired) && heap == heap0 - fired && forall x :: x in heap ==> x in evs && evs[x].at > now
    requires forall x :: x in fired ==> x in evs0 && x in heap0 && evs0[x].at <= now
    ensures evs == HeapFired(evs0, heap0, now)
  {
    forall x | x in evs0
      ensures x in fired <==> x in heap0 && evs0[x].at <= now
    {
      if x !in fired {
        assert evs[x] == evs0[x];
      }
    }
  }

  /** Every time that is waited for in the heap or in a list, moved back. */
  ghost function Shifted(evs: Events, lost: set<Id>, off: int): Events {
    map x | x in evs :: if evs[x].timeout && x !in lost then Moved(evs[x], off) else evs[x]
  }

  function Moved(e: Ev, off: int): Ev {
    e.(at := e.at - off, tv := Stamp(e.at - off, e.list))
  }

  lemma {:induction false} ShiftKeeps(evs: Events, heap: set<Id>, lost: set<Id>, lists: seq<seq<Id>>, timers: seq<Id>,
                                      active: seq<seq<Id>>, inserted: seq<Id>, off: int, but: set<int>)
    requires Shape(evs, |lists|, timers, |active|) && HeapOk(evs, heap, lost) && ListsOk(evs, lists)
    requires ActiveOk(evs, active) && InsertedOk(evs, inserted) && AllArmed(evs, lists, timers, but)
    requires LostTimers(evs, timers, lost, but)
    ensures var now := Shifted(evs, lost, off);
      && Shape(now, |lists|, timers, |active|) && HeapOk(now, heap, lost) && ListsOk(now, lists)
      && ActiveOk(now, active) && InsertedOk(now, inserted) && AllArmed(now, lists, timers, but)
      && Memberships(now) == Memberships(evs)
  {
    hide NoRepeats, Shape, ListsOk, AllArmed;
    var now := Shifted(evs, lost, off);
    ShiftShape(evs, |lists|, timers, |active|, lost, off);
    ShiftLists(evs, heap, lost, lists, timers, |active|, off, but);
    assert Timed(now) == Timed(evs) && Activated(now) == Activated(evs) && Inserted(now) == Inserted(evs);
  }

  lemma {:induction false} ShiftShape(evs: Events, nlists: nat, timers: seq<Id>, nqueues: nat, lost: set<Id>, off: int)
    requires Shape(evs, nlists, timers, nqueues)
    ensures Shape(Shifted(evs, lost, off), nlists, timers, nqueues)
  {
    hide IsInterval, Stamp, NoRepeats, IsSet, ListOf;
    var now := Shifted(evs, lost, off);
    forall id | id in now
      ensures -1 <= now[id].list < nlists && Stamped(now[id], nlists)
      ensures now[id].pri < nqueues && (now[id].internal ==> id in timers)
    {
      assert Stamped(evs[id], nlists);
    }
  }

  lemma {:induction false} ShiftLists(evs: Events, heap: set<Id>, lost: set<Id>, lists: seq<seq<Id>>, timers: seq<Id>,
                                      nqueues: nat, off: int, but: set<int>)
    requires Shape(evs, |lists|, timers, nqueues) && HeapOk(evs, heap, lost) && ListsOk(evs, lists)
    requires AllArmed(evs, lists, timers, but) && LostTimers(evs, timers, lost, but)
    ensures ListsOk(Shifted(evs, lost, off), lists) && AllArmed(Shifted(evs, lost, off), lists, timers, but)
  {
    hide Stamped, Stamp, NoRepeats;
    var now := Shifted(evs, lost, off);
    forall i | 0 <= i < |lists|
      ensures ListOk(now, lists[i], i) && (i !in but ==> Armed(now, lists[i], timers[i]))
    {
      assert ListOk(evs, lists[i], i);
      assert forall x :: x in lists[i] ==> x !in lost;
      assert lists[i] != [] ==> lists[i][0] in lists[i];
      if i !in but {
        assert Armed(evs, lists[i], timers[i]);
        assert timers[i] in lost ==> evs[timers[i]].active;
      }
    }
  }

  /** An event that is new, and on no queue. */
  lemma {:induction false} NewEvent(evs: Events, heap: set<Id>, lost: set<Id>, lists: seq<seq<Id>>, timers: seq<Id>,
                                    active: seq<seq<Id>>, inserted: seq<Id>, id: Id, e: Ev, but: set<int>)
    requires Shape(evs, |lists|, timers, |active|) && HeapOk(evs, heap, lost) && ListsOk(evs, lists)
    requires ActiveOk(evs, active) && InsertedOk(evs, inserted) && AllArmed(evs, lists, timers, but)
    requires id !in evs && !e.timeout && !e.active && !e.inserted
    ensures var now := evs[id := e];
      && HeapOk(now, heap, lost) && ListsOk(now, lists)
      && ActiveOk(now, active) && InsertedOk(now, inserted) && AllArmed(now, lists, timers, but)
      && Memberships(now) == Memberships(evs)
    ensures id !in timers
  {
    hide Stamped;
    var now := evs[id := e];
    assert Timed(now) == Timed(evs) && Activated(now) == Activated(evs) && Inserted(now) == Inserted(evs);
    forall i | 0 <= i < |lists|
      ensures ListOk(now, lists[i], i) && (i !in but ==> Armed(now, lists[i], timers[i]))
    {
      assert ListOk(evs, lists[i], i) && (i !in but ==> Armed(evs, lists[i], timers[i]));
      assert lists[i] != [] ==> lists[i][0] in lists[i];
    }
  }

  /** There is one more list. */
  lemma {:induction false} NewList(evs: Events, lists: seq<seq<Id>>, timers: seq<Id>, timer: Id, but: set<int>)
    requires ListsOk(evs, lists) && AllArmed(evs, lists, timers, but) && NoRepeats(timers) && timer !in timers
    requires forall id :: id in evs && evs[id].timeout ==> evs[id].list < |lists|
    ensures ListsOk(evs, lists + [[]]) && AllArmed(evs, lists + [[]], timers + [timer], but)
    ensures NoRepeats(timers + [timer])
  {
    var more := lists + [[]];
    forall i | 0 <= i < |more|
      ensures ListOk(evs, more[i], i)
    {
      if i < |lists| {
        assert ListOk(evs, lists[i], i);
      }
    }
  }

  /** Activation leaves the lists armed. */
  lemma {:induction false} ArmedActive(evs: Events, lists: seq<seq<Id>>, timers: seq<Id>, nqueues: nat, id: Id,
                                       byTimeout: bool, but: set<int>)
    requires Shape(evs, |lists|, timers, nqueues) && ListsOk(evs, lists) && AllArmed(evs, lists, timers, but)
    requires id in evs
    ensures AllArmed(evs[id := Active(evs[id], byTimeout)], lists, timers, but)
  {
    var e := Active(evs[id], byTimeout);
    forall i | 0 <= i < |lists| && i !in but
      ensures Armed(evs[id := e], lists[i], timers[i])
    {
      ListHas(evs, lists, i);
      assert Armed(evs, lists[i], timers[i]);
      assert lists[i] != [] ==> lists[i][0] in lists[i];
    }
  }

  /** A timer that has been taken off its queues leaves only its own list unarmed. */
  lemma {:induction false} ArmedBut(evs: Events, lists: seq<seq<Id>>, timers: seq<Id>, nqueues: nat, i: int,
                                    but: set<int>)
    requires Shape(evs, |lists|, timers, nqueues) && ListsOk(evs, lists) && AllArmed(evs, lists, timers, but)
    requires 0 <= i < |lists|
    ensures AllArmed(evs[timers[i] := Deleted(evs[timers[i]])], lists, timers, but + {i})
  {
    var now := evs[timers[i] := Deleted(evs[timers[i]])];
    forall j | 0 <= j < |lists| && j != i && j !in but
      ensures Armed(now, lists[j], timers[j])
    {
      ListHas(evs, lists, j);
      assert ListOk(evs, lists[j], j);
      assert Armed(evs, lists[j], timers[j]);
      assert lists[j] != [] ==> lists[j][0] in lists[j];
      ArmedStays(evs, now, lists[j], lists[j], timers[j]);
    }
  }

  // What setting a timeout does.

  lemma ListsWithoutSize(evs: Events, lists: seq<seq<Id>>, id: Id)
    requires id in evs
    ensures |ListsWithout(evs, lists, id)| == |lists|
  {
  }

  lemma WithTimeoutIs(e: Ev, at: int, list: int)
    ensures var w := WithTimeout(e, at, list);
      && w.timeout && w.at == at && w.list == list && w.io == e.io && w.internal == e.internal
      && w.inserted == e.inserted && w.pri == e.pri
      && (w.active ==> e.active)
  {
  }

  /** An event that gets this time comes first in its list. */
  predicate ComesFirst(evs: Events, lists: seq<seq<Id>>, id: Id, list: int, at: int)
    requires id in evs && 0 <= list < |lists|
  {
    var ls := ListsWithout(evs, lists, id);
    ls[list] == [] || (ls[list][0] in evs ==> at < evs[ls[list][0]].at)
  }

  lemma PlaceFirst(evs: Events, lists: seq<seq<Id>>, id: Id, e: Ev, list: int, k: nat)
    requires id in evs && 0 <= list < |lists| && ListsOk(evs, lists)
    requires forall i, x :: 0 <= i < |lists| && x in ListsWithout(evs, lists, id)[i] ==> x in evs && x != id
    requires IsPlace(evs[id := e], ListsWithout(evs, lists, id)[list], e.at, k)
    ensures k == 0 <==> ComesFirst(evs, lists, id, list, e.at)
  {
    hide ListsWithout;
    ListsWithoutSize(evs, lists, id);
    var ids := ListsWithout(evs, lists, id)[list];
    if ids != [] {
      assert ids[0] in ids;
    }
  }

  lemma InsertedNotEmpty(ids: seq<Id>, k: nat, id: Id)
    requires k <= |ids|
    ensures InsertedAt(ids, k, id) != []
  {
  }

  /** Of the other events, only the timer of the list has changed, which is set to the event's time; no event has become
      active. */
  ghost predicate OthersKeep(evs: Events, evs': Events, id: Id, list: int, timers: seq<Id>) {
    && evs'.Keys == evs.Keys && id in evs
    && (forall x :: x in evs && x != id && x !in timers ==> evs'[x] == evs[x])
    && (forall i :: 0 <= i < |timers| ==>
          timers[i] in evs
          && (evs'[timers[i]] == evs[timers[i]]
              || (i == list && evs'[timers[i]] == WithTimeout(evs[timers[i]], evs'[id].at, -1))))
    && (forall x :: x in evs ==> (evs'[x].active ==> evs[x].active) && evs'[x].pri == evs[x].pri)
  }

  lemma OnlyKeeps(evs: Events, id: Id, e: Ev, timers: seq<Id>)
    requires id in evs && id !in timers && (forall i :: 0 <= i < |timers| ==> timers[i] in evs)
    requires e.pri == evs[id].pri && (e.active ==> evs[id].active)
    ensures OthersKeep(evs, evs[id := e], id, -1, timers)
  {
    assert forall i :: 0 <= i < |timers| ==> timers[i] in timers;
  }

  lemma KeepsAfter(evs: Events, e: Ev, evs': Events, id: Id, list: int, timers: seq<Id>)
    requires id in evs && id !in timers && e.pri == evs[id].pri && (e.active ==> evs[id].active)
    requires OthersKeep(evs[id := e], evs', id, list, timers) && forall i :: 0 <= i < |timers| ==> timers[i] in evs
    ensures OthersKeep(evs, evs', id, list, timers)
  {
    assert forall i :: 0 <= i < |timers| ==> timers[i] in timers;
  }

  lemma ScheduledKeeps(evs: Events, id: Id, e: Ev, evs': Events, list: int, timers: seq<Id>)
    requires id in evs && id !in timers && (forall i :: 0 <= i < |timers| ==> timers[i] in evs)
    requires (forall i, j :: 0 <= i < |timers| && 0 <= j < |timers| && i != j ==> timers[i] != timers[j])
    requires e.pri == evs[id].pri && (e.active ==> evs[id].active)
    requires || evs' == evs[id := e]
             || (0 <= list < |timers|
                 && evs' == evs[id := e][timers[list] := WithTimeout(evs[timers[list]], e.at, -1)])
    ensures OthersKeep(evs, evs', id, list, timers)
  {
    assert forall i :: 0 <= i < |timers| ==> timers[i] in timers;
  }

  /** What an event looks like besides does not matter for its place. */
  lemma SameFirst(evs: Events, lists: seq<seq<Id>>, id: Id, e: Ev, list: int, at: int)
    requires id in evs && 0 <= list < |lists| && ListsOk(evs, lists)
    requires e.timeout == evs[id].timeout && e.list == evs[id].list
    ensures ComesFirst(evs[id := e], lists, id, list, at) <==> ComesFirst(evs, lists, id, list, at)
  {
    hide NoRepeats;
    ListsWithoutHas(evs, lists, id);
    ListHas(evs, lists, list);
    assert ListOk(evs, lists[list], list);
    WithoutIs(lists[list], id);
    var ls := ListsWithout(evs, lists, id);
    if ls[list] != [] {
      assert ls[list][0] in ls[list];
    }
  }

  /** What stays the same about an event as long as it exists. */
  predicate SameKind(d: Ev, e: Ev) {
    e.pri == d.pri && e.internal == d.internal && e.io == d.io && e.persist == d.persist
  }

  predicate SameTimes(d: Ev, e: Ev) {
    e.at == d.at && e.list == d.list && e.tv == d.tv && e.ioTv == d.ioTv
  }

  lemma {:induction false} ShapeUpdate(evs: Events, nlists: nat, timers: seq<Id>, nqueues: nat, id: Id, e: Ev)
    requires Shape(evs, nlists, timers, nqueues) && id in evs && SameKind(evs[id], e)
    requires SameTimes(evs[id], e) || (Stamped(e, nlists) && -1 <= e.list < nlists && (id in timers ==> e.list == -1))
    ensures Shape(evs[id := e], nlists, timers, nqueues)
  {
    hide Stamp, IsInterval, IsSet, ListOf, NoRepeats;
    assert Stamped(evs[id], nlists);
    forall i | 0 <= i < |timers|
      ensures timers[i] in evs && evs[id := e][timers[i]].list == -1
    {
      assert timers[i] in timers;
    }
  }

  // New events and new lists.

  function NewEv(pri: nat, internal: bool, io: bool, persist: bool): Ev {
    Ev(pri, internal, io, 0, -1, TimeVal(0, 0), false, false, false, false, persist, TimeVal(0, 0))
  }

  lemma {:induction false} NewShape(evs: Events, nlists: nat, timers: seq<Id>, nqueues: nat, id: Id, e: Ev)
    requires Shape(evs, nlists, timers, nqueues) && id !in evs && e.pri < nqueues && !e.internal
    requires e == NewEv(e.pri, e.internal, e.io, e.persist)
    ensures Shape(evs[id := e], nlists, timers, nqueues)
  {
    assert Stamp(0, -1) == TimeVal(0, 0);
    hide Stamp, NoRepeats;
    assert IsInterval(e.ioTv, nlists);
    forall x | x in evs
      ensures Stamped(evs[x], nlists)
    {
    }
  }

  lemma {:induction false} NewTimer(evs: Events, nlists: nat, timers: seq<Id>, nqueues: nat, timer: Id)
    requires Shape(evs, nlists, timers, nqueues) && timer !in evs && nlists < MAX_COMMON_TIMEOUTS
    ensures Shape(evs[timer := NewEv(0, true, false, false)], nlists + 1, timers + [timer], nqueues)
  {
    assert Stamp(0, -1) == TimeVal(0, 0);
    hide Stamp, NoRepeats, IsSet, ListOf;
    var now, more := evs[timer := NewEv(0, true, false, false)], timers + [timer];
    NewInterval(nlists);
    assert NoRepeats(more) by {
      MoreDiffer(timers, timer);
    }
    forall x | x in now
      ensures -1 <= now[x].list < nlists + 1 && Stamped(now[x], nlists + 1) && now[x].pri < nqueues
      ensures now[x].internal ==> x in more
    {
      if x in evs {
        assert Stamped(evs[x], nlists);
        assert evs[x].internal ==> x in timers;
      } else {
        assert more[nlists] == timer;
      }
    }
    forall i | 0 <= i < |more|
      ensures more[i] in now && now[more[i]].internal && !now[more[i]].io && now[more[i]].pri == 0
      ensures now[more[i]].list == -1 && !now[more[i]].persist
    {
      assert i < |timers| ==> more[i] == timers[i];
    }
  }

  lemma NewInterval(n: nat)
    ensures IsInterval(TimeVal(0, 0), n + 1) && ListOf(TimeVal(0, 0)) == -1 && !IsSet(TimeVal(0, 0))
  {
  }

  lemma MoreDiffer(s: seq<Id>, x: Id)
    requires NoRepeats(s) && x !in s
    ensures NoRepeats(s + [x])
  {
  }

  lemma ShapeBound(evs: Events, nlists: nat, timers: seq<Id>, nqueues: nat)
    requires Shape(evs, nlists, timers, nqueues)
    ensures nlists == |timers| <= MAX_COMMON_TIMEOUTS && nqueues > 0
    ensures forall id :: id in evs ==> evs[id].list < nlists
    ensures forall t :: t !in evs ==> t !in timers
    ensures NoRepeats(timers)
  {
    hide Stamped, NoRepeats;
  }

  /** The duration of each list has the tag of that list. */
  predicate DurationsOk(durations: seq<TimeVal>, n: nat) {
    && |durations| == n
    && forall i :: 0 <= i < n ==> IsInterval(durations[i], n) && ListOf(durations[i]) == i
  }

  lemma DurationsAre(durations: seq<TimeVal>, n: nat)
    requires DurationsOk(durations, n) && n <= MAX_COMMON_TIMEOUTS
    ensures |durations| == n
    ensures forall i :: 0 <= i < n ==> IsInterval(durations[i], n) && ListOf(durations[i]) == i && IsCommon(durations[i], n)
  {
    forall i | 0 <= i < n
      ensures IsCommon(durations[i], n)
    {
      IntervalReads(durations[i], n);
    }
  }

  lemma DurationsMore(durations: seq<TimeVal>, n: nat, tv: TimeVal)
    requires DurationsOk(durations, n) && IsInterval(tv, n + 1) && ListOf(tv) == n
    ensures DurationsOk(durations + [tv], n + 1)
  {
  }
}
