/** The event base of event.c: the queues of active and inserted events, the timer heap, the sorted lists of events that
    share a common timeout and hang on one internal timer each, and the map of the events of descriptors. Times are
    counted in microseconds. */
module EventLoop {
  import opened Bytes
  import opened EventTimes
  import opened EventQueues
  import opened MinHeaps
  import EventMap

  /** What there is room for: a longer array for the heap, a new slot in the event map, and the change of each of these
      events in the back end of the map. */
  datatype Memory = Memory(reserve: bool, slot: bool, heard: set<Id>)

  /** What a call may do that nobody is told of: an event is linked into the list of its descriptor twice, or memory
      outside the heap is taken for a part of it. */
  datatype Harm = NoHarm | Tangled | Wild

  /** When an event is due that is given an interval or, if `absolute`, a time. */
  function DueAt(tv: TimeVal, absolute: bool, now: int): int {
    if absolute then TimeOf(tv) else now + TimeOf(tv)
  }

  // The event map.

  ghost function ListedAt(io: EventMap.Slots, fd: int): seq<EventMap.IoEvent> {
    if fd in io then io[fd].events else []
  }

  /** Each event of a descriptor that is inserted, or that a failed deletion has left behind, is on the list of its
      descriptor, if that is one at all; no other event is on any list. */
  ghost predicate Mapped(evs: Events, ios: map<Id, EventMap.IoEvent>, stale: set<Id>, io: EventMap.Slots) {
    && (forall id :: id in ios <==> id in evs && evs[id].io)
    && (forall id :: id in evs && evs[id].inserted ==> evs[id].io)
    && (forall a, b :: a in ios && b in ios && a != b ==> ios[a] != ios[b])
    && (forall id :: id in ios ==> ios[id].read || ios[id].write)
    && (forall id :: id in stale ==> id in ios && !evs[id].inserted && ios[id].fd >= 0)
    && (forall id :: id in ios ==>
          (ios[id] in ListedAt(io, ios[id].fd) <==> ios[id].fd >= 0 && (evs[id].inserted || id in stale)))
    && (forall fd, e :: e in ListedAt(io, fd) ==> e in ios.Values)
  }

  /** Only these two flags matter to the map. */
  lemma MappedKeeps(evs: Events, evs': Events, ios: map<Id, EventMap.IoEvent>, stale: set<Id>, io: EventMap.Slots)
    requires Mapped(evs, ios, stale, io) && evs'.Keys == evs.Keys
    requires forall id :: id in evs ==> evs'[id].io == evs[id].io && evs'[id].inserted == evs[id].inserted
    ensures Mapped(evs', ios, stale, io)
  {
  }

  lemma MappedFlags(evs: Events, ios: map<Id, EventMap.IoEvent>, stale: set<Id>, io: EventMap.Slots, id: Id, e: Ev)
    requires Mapped(evs, ios, stale, io) && id in evs && e.io == evs[id].io && e.inserted == evs[id].inserted
    ensures Mapped(evs[id := e], ios, stale, io)
  {
  }

  lemma {:induction false} MappedInsert(evs: Events, ios: map<Id, EventMap.IoEvent>, stale: set<Id>, io: EventMap.Slots,
                                        io': EventMap.Slots, id: Id, e: Ev)
    requires Mapped(evs, ios, stale, io) && id in evs && evs[id].io && !evs[id].inserted && id !in stale
    requires e.io && e.inserted
    requires forall fd :: fd != ios[id].fd || fd < 0 ==> ListedAt(io', fd) == ListedAt(io, fd)
    requires ios[id].fd >= 0 ==> ListedAt(io', ios[id].fd) == ListedAt(io, ios[id].fd) + [ios[id]]
    ensures Mapped(evs[id := e], ios, stale, io')
  {
    forall fd, x | x in ListedAt(io', fd)
      ensures x in ios.Values
    {
      assert x in ListedAt(io, fd) || x == ios[id];
    }
  }

  lemma {:induction false} MappedRemove(evs: Events, ios: map<Id, EventMap.IoEvent>, stale: set<Id>, io: EventMap.Slots,
                                        io': EventMap.Slots, id: Id, e: Ev)
    requires Mapped(evs, ios, stale, io) && id in evs && evs[id].inserted && e.io && !e.inserted
    requires forall fd :: fd != ios[id].fd || fd < 0 ==> ListedAt(io', fd) == ListedAt(io, fd)
    requires ios[id].fd >= 0 ==>
               NoRepeats(ListedAt(io, ios[id].fd)) && ListedAt(io', ios[id].fd) == Without(ListedAt(io, ios[id].fd), ios[id])
    ensures Mapped(evs[id := e], ios, stale, io')
  {
    if ios[id].fd >= 0 {
      WithoutIs(ListedAt(io, ios[id].fd), ios[id]);
    }
    forall fd, x | x in ListedAt(io', fd)
      ensures x in ios.Values
    {
      assert x in ListedAt(io, fd);
    }
  }

  lemma MappedStale(evs: Events, ios: map<Id, EventMap.IoEvent>, stale: set<Id>, io: EventMap.Slots, io': EventMap.Slots,
                    id: Id, e: Ev)
    requires Mapped(evs, ios, stale, io) && id in evs && evs[id].inserted && e.io && !e.inserted && ios[id].fd >= 0
    requires forall fd :: ListedAt(io', fd) == ListedAt(io, fd)
    ensures Mapped(evs[id := e], ios, stale + {id}, io')
  {
    forall fd, x | x in ListedAt(io', fd)
      ensures x in ios.Values
    {
      assert x in ListedAt(io, fd);
    }
  }

  lemma MappedSame(evs: Events, ios: map<Id, EventMap.IoEvent>, stale: set<Id>, io: EventMap.Slots, io': EventMap.Slots)
    requires Mapped(evs, ios, stale, io) && forall fd :: ListedAt(io', fd) == ListedAt(io, fd)
    ensures Mapped(evs, ios, stale, io')
  {
    forall fd, x | x in ListedAt(io', fd)
      ensures x in ios.Values
    {
      assert x in ListedAt(io, fd);
    }
  }

  lemma OthersMapped(evs: Events, evs': Events, id: Id, list: int, timers: seq<Id>, ios: map<Id, EventMap.IoEvent>,
                     stale: set<Id>, io: EventMap.Slots)
    requires Mapped(evs, ios, stale, io) && OthersKeep(evs, evs', id, list, timers)
    requires evs'[id].io == evs[id].io && evs'[id].inserted == evs[id].inserted
    ensures Mapped(evs', ios, stale, io)
  {
    forall x | x in evs
      ensures evs'[x].io == evs[x].io && evs'[x].inserted == evs[x].inserted
    {
      if x in timers {
        var i :| 0 <= i < |timers| && timers[i] == x;
      }
    }
    MappedKeeps(evs, evs', ios, stale, io);
  }

  lemma MappedTimer(evs: Events, evs': Events, timer: Id, at: int, ios: map<Id, EventMap.IoEvent>, stale: set<Id>,
                    io: EventMap.Slots)
    requires Mapped(evs, ios, stale, io) && timer in evs
    requires evs' == evs || evs' == evs[timer := WithTimeout(evs[timer], at, -1)]
    ensures Mapped(evs', ios, stale, io)
  {
    WithTimeoutIs(evs[timer], at, -1);
    MappedKeeps(evs, evs', ios, stale, io);
  }

  lemma MappedAdd(evs: Events, ios: map<Id, EventMap.IoEvent>, stale: set<Id>, io: EventMap.Slots, id: Id, e: Ev)
    requires Mapped(evs, ios, stale, io) && id !in evs && !e.inserted && !e.io
    ensures Mapped(evs[id := e], ios, stale, io)
  {
  }

  lemma MappedNew(evs: Events, ios: map<Id, EventMap.IoEvent>, stale: set<Id>, io: EventMap.Slots, id: Id, e: Ev,
                  ev: EventMap.IoEvent)
    requires Mapped(evs, ios, stale, io) && id !in evs && !e.inserted
    requires (forall a :: a in ios ==> ios[a] != ev) && forall fd :: ev !in ListedAt(io, fd)
    requires e.io ==> ev.read || ev.write
    ensures Mapped(evs[id := e], if e.io then ios[id := ev] else ios, stale, io)
  {
    var ios' := if e.io then ios[id := ev] else ios;
    assert id !in ios;
    forall fd, x | x in ListedAt(io, fd)
      ensures x in ios'.Values
    {
      assert x in ios.Values;
      var a :| a in ios && ios[a] == x;
      assert a in ios' && ios'[a] == x;
    }
  }

  // The heap's array, and events that do not know their place in it.

  /** What the address of an event spells where an index is read in place of a link. Events are aligned, so this is
      not -1. */
  type LinkBits = x: int | x != -1 witness 0

  /** The index that an event finds in itself once it has left a list: the links of the list have been in its place,
      the first of them the address of the next event. */
  function LinkIndex(spells: Id -> LinkBits, ids: seq<Id>, id: Id): LinkBits {
    if ids == [] then 0
    else if ids[0] == id then if |ids| == 1 then 0 else spells(ids[1])
    else LinkIndex(spells, ids[1..], id)
  }

  /** Events and lists, the heap's array, the places that events know, and how long the array is. */
  datatype Waiting = Waiting(evs: Events, lists: seq<seq<Id>>, slots: seq<Id>, places: map<Id, int>, room: nat)

  /** The event waits outside all lists. */
  predicate Heaped(w: Waiting, id: Id) {
    id in w.evs && w.evs[id].timeout && w.evs[id].list < 0
  }

  /** It is not at the place that it knows: the heap has lost it. */
  predicate Strays(w: Waiting, id: Id) {
    Heaped(w, id) && id in w.places && !(0 <= w.places[id] < |w.slots| && w.slots[w.places[id]] == id)
  }

  /** The place that it knows is one of the heap. */
  predicate InReach(w: Waiting, id: Id) {
    Strays(w, id) ==> 0 <= w.places[id] < |w.slots|
  }

  /** The event that min_heap_erase takes off the heap instead of this one. */
  function Victim(w: Waiting, id: Id): Option<Id> {
    if Strays(w, id) && InReach(w, id) then Some(w.slots[w.places[id]]) else None
  }

  /** How long the array is does not matter. */
  lemma SameReach(w: Waiting, id: Id)
    ensures forall room :: InReach(w.(room := room), id) == InReach(w, id)
                           && Victim(w.(room := room), id) == Victim(w, id) && Strays(w.(room := room), id) == Strays(w, id)
  {
  }

  /** How many events the heap has without this one. */
  function Remaining(w: Waiting, id: Id): int {
    |w.slots| - if Heaped(w, id) then 1 else 0
  }

  /** Even then the array is full, and it cannot be made longer. */
  predicate Full(w: Waiting, id: Id, canReserve: bool) {
    Remaining(w, id) >= w.room && !canReserve
  }

  /** The timer will stray once event `id` has left the heap. */
  predicate TimerStrays(w: Waiting, timer: Id, id: Id) {
    timer in w.places && (Strays(w, timer) || Victim(w, id) == Some(timer))
  }

  /** The event taken when the timer is set then, if it strays: the one at the place that it knows, which is still the
      same if nothing has left the heap before. */
  predicate IsTimerVictim(w: Waiting, timer: Id, id: Id, victim: Option<Id>) {
    && (victim.Some? <==> TimerStrays(w, timer, id))
    && (victim.Some? ==>
          && victim.value in w.slots && victim.value != timer && victim.value != id && victim != Victim(w, id)
          && (!Heaped(w, id) ==> victim == Victim(w, timer)))
  }

  /** An event that is given this time, in a list or outside all lists, and the timer of the list if it comes first
      there, can be erased without looking outside the heap. */
  predicate SetInReach(w: Waiting, timers: seq<Id>, id: Id, list: int, at: int) {
    && InReach(w, id)
    && (id in w.evs && 0 <= list < |w.lists| == |timers| && ComesFirst(w.evs, w.lists, id, list, at)
        && TimerStrays(w, timers[list], id) ==>
          0 <= w.places[timers[list]] < Remaining(w, id))
  }

  /** The timer of a list is on no queue from which it would run. */
  predicate Idle(evs: Events, timer: Id) {
    timer in evs && !evs[timer].timeout && !evs[timer].active
  }

  lemma IdleSame(evs: Events, evs': Events, timer: Id)
    requires timer in evs && timer in evs' && evs'[timer] == evs[timer]
    ensures Idle(evs', timer) <==> Idle(evs, timer)
  {
  }

  lemma AddedIs(e: Ev, tv: TimeVal, absolute: bool, now: int)
    ensures WithInterval(if e.io && !e.active then e.(inserted := true) else e, tv, absolute, now)
            == Added(e, Some(tv), absolute, now)
    ensures Added(e, Some(tv), absolute, now).at == if absolute then TimeOf(tv) else now + TimeOf(tv)
  {
  }

  /** What the heap has, and what is lost to it, once an event waits in list `list`, or outside all lists if that
      is -1. */
  ghost predicate IsQueued(heap0: set<Id>, lost0: set<Id>, full: bool, heap: set<Id>, lost: set<Id>, id: Id, list: int) {
    if list >= 0 then heap == heap0 && lost == lost0
    else if full then heap == heap0 && lost == lost0 + {id}
    else heap == heap0 + {id} && lost == lost0
  }

  /** Only the places of events in the array, and of this one, differ. */
  ghost predicate PlacesKept(slots: seq<Id>, places0: map<Id, int>, places: map<Id, int>, id: Id) {
    places.Keys == places0.Keys && forall x :: x in places0 && x !in slots && x != id ==> places[x] == places0[x]
  }

  /** What has become of the heap once event `id` waits no longer. If it was in a list, it has the index that its links
      spell. */
  ghost predicate IsCleared(spells: Id -> LinkBits, w: Waiting, heap: set<Id>, lost: set<Id>, id: Id, victim: Option<Id>,
                            heap': set<Id>, lost': set<Id>, slots': seq<Id>, places': map<Id, int>)
  {
    && id in w.evs && victim == Victim(w, id)
    && heap' == Less(heap - {id}, victim) && lost' == With(lost - {id}, victim)
    && |slots'| == Remaining(w, id) && PlacesKept(slots', w.places, places', id)
    && (!Heaped(w, id) ==> slots' == w.slots)
    && (w.evs[id].timeout && 0 <= w.evs[id].list < |w.lists| ==>
          id in places' && places'[id] == LinkIndex(spells, w.lists[w.evs[id].list], id))
  }

  /** And once it waits again, in list `list` or outside all lists. */
  ghost predicate IsReset(spells: Id -> LinkBits, w: Waiting, heap: set<Id>, lost: set<Id>, id: Id, list: int, full: bool,
                          victim: Option<Id>, heap': set<Id>, lost': set<Id>, slots': seq<Id>, places': map<Id, int>)
  {
    && id in w.evs && victim == Victim(w, id)
    && IsQueued(Less(heap - {id}, victim), With(lost - {id}, victim), full, heap', lost', id, list)
    && (list >= 0 ==>
          && |slots'| == Remaining(w, id) && PlacesKept(slots', w.places, places', id)
          && (!Heaped(w, id) ==> slots' == w.slots))
    && (list < 0 && full && w.evs[id].timeout && 0 <= w.evs[id].list < |w.lists| ==>
          id in places' && places'[id] == LinkIndex(spells, w.lists[w.evs[id].list], id))
  }

  lemma ResetIs(spells: Id -> LinkBits, w: Waiting, heap: set<Id>, lost: set<Id>, id: Id, list: int, canReserve: bool,
                victim: Option<Id>, heap1: set<Id>, lost1: set<Id>, slots1: seq<Id>, places1: map<Id, int>,
                heap': set<Id>, lost': set<Id>, slots': seq<Id>, places': map<Id, int>)
    requires IsCleared(spells, w, heap, lost, id, victim, heap1, lost1, slots1, places1)
    requires IsQueued(heap1, lost1, |slots1| >= w.room && !canReserve, heap', lost', id, list)
    requires list >= 0 || (|slots1| >= w.room && !canReserve) ==> slots' == slots1 && places' == places1
    ensures IsReset(spells, w, heap, lost, id, list, Full(w, id, canReserve), victim, heap', lost', slots', places')
  {
  }

  /** An event for which there is no room then has been in a list. */
  lemma ClearedPlace(spells: Id -> LinkBits, w: Waiting, heap: set<Id>, lost: set<Id>, id: Id, victim: Option<Id>,
                     heap1: set<Id>, lost1: set<Id>, slots1: seq<Id>, places1: map<Id, int>)
    requires IsCleared(spells, w, heap, lost, id, victim, heap1, lost1, slots1, places1)
    requires |w.slots| <= w.room && (w.evs[id].timeout || |w.slots| < w.room) && w.evs[id].list < |w.lists|
    ensures |slots1| >= w.room ==> id in places1 && places1[id] != -1
  {
  }

  /** The lists once event `id` waits in list `list`, or outside all lists if that is -1. */
  ghost predicate IsListed(evs: Events, ls: seq<seq<Id>>, lists: seq<seq<Id>>, id: Id, list: int, at: int, k: nat) {
    if list < 0 then lists == ls
    else list < |ls| && IsPlace(evs, ls[list], at, k) && lists == ls[list := InsertedAt(ls[list], k, id)]
  }

  lemma ListedLater(evs: Events, ls: seq<seq<Id>>, lists: seq<seq<Id>>, id: Id, e: Ev, list: int, at: int, k: nat)
    requires IsListed(evs, ls, lists, id, list, at, k) && forall i :: 0 <= i < |ls| ==> id !in ls[i]
    ensures IsListed(evs[id := e], ls, lists, id, list, at, k) && |lists| == |ls|
  {
    hide IsPlace;
    if list >= 0 {
      PlaceStays(evs, ls[list], at, k, id, e);
    }
  }

  /** What setting the time of an event has led to, in list `list` or outside all lists. Another event may have been
      taken off the heap instead of this one, and one more instead of the timer of the list. `full` if the array is
      full and cannot grow: then the event is lost if it is to be in the heap, with the index that its links spell,
      and a list in which it comes first is left with an idle timer. Otherwise the list is armed if it comes first. */
  ghost predicate IsTimeSet(spells: Id -> LinkBits, timers: seq<Id>, w: Waiting, lost: set<Id>, unarmed: set<int>,
                            w': Waiting, lost': set<Id>, unarmed': set<int>, id: Id, list: int, at: int, full: bool,
                            victim: Option<Id>, timerVictim: Option<Id>)
  {
    && id in w.evs && |w.lists| == |timers| == |w'.lists| && victim == Victim(w, id)
    && var lost1, unarmed1 := With(lost - {id}, victim), unarmed + Bereft(w.evs, timers, victim);
       if 0 <= list < |timers| && ComesFirst(w.evs, w.lists, id, list, at) then
         var timer := timers[list];
         && IsTimerVictim(w, timer, id, timerVictim)
         && lost' == With(lost1 - {timer}, timerVictim)
         && if full && Idle(w.evs, timer) then
              unarmed' == unarmed1 + {list} && !Armed(w'.evs, w'.lists[list], timer)
            else unarmed' == (unarmed1 - {list}) + Bereft(w.evs, timers, timerVictim)
       else
         && timerVictim == None && unarmed' == unarmed1
         && lost' == (if list < 0 && full then lost1 + {id} else lost1)
         && (list < 0 && full && w.evs[id].timeout && 0 <= w.evs[id].list < |w.lists| ==>
               id in w'.places && w'.places[id] == LinkIndex(spells, w.lists[w.evs[id].list], id))
  }

  /** If the timer of no list is set. */
  lemma TimeSetAlone(spells: Id -> LinkBits, timers: seq<Id>, w: Waiting, heap: set<Id>, lost: set<Id>,
                     unarmed: set<int>, w': Waiting, heap': set<Id>, lost': set<Id>, id: Id, list: int, at: int,
                     full: bool, victim: Option<Id>)
    requires IsReset(spells, w, heap, lost, id, list, full, victim, heap', lost', w'.slots, w'.places)
    requires |w.lists| == |timers| == |w'.lists|
    requires !(0 <= list < |timers| && ComesFirst(w.evs, w.lists, id, list, at))
    ensures IsTimeSet(spells, timers, w, lost, unarmed, w', lost', unarmed + Bereft(w.evs, timers, victim), id, list, at,
                      full, victim, None)
  {
    hide ComesFirst, LinkIndex;
  }

  /** If the timer of its list is set. */
  lemma TimeSetFirst(spells: Id -> LinkBits, timers: seq<Id>, w: Waiting, heap: set<Id>, lost: set<Id>,
                     unarmed: set<int>, w1: Waiting, heap1: set<Id>, lost1: set<Id>, w': Waiting, lost': set<Id>,
                     unarmed': set<int>, id: Id, list: int, at: int, full: bool, victim: Option<Id>,
                     timerVictim: Option<Id>)
    requires IsReset(spells, w, heap, lost, id, list, full, victim, heap1, lost1, w1.slots, w1.places)
    requires |w.lists| == |timers| == |w'.lists| && 0 <= list < |timers| && ComesFirst(w.evs, w.lists, id, list, at)
    requires IsTimerVictim(w, timers[list], id, timerVictim) && lost' == With(lost1 - {timers[list]}, timerVictim)
    requires var unarmed1 := unarmed + Bereft(w.evs, timers, victim);
             if full && Idle(w.evs, timers[list]) then
               unarmed' == unarmed1 + {list} && !Armed(w'.evs, w'.lists[list], timers[list])
             else unarmed' == (unarmed1 - {list}) + Bereft(w.evs, timers, timerVictim)
    ensures IsTimeSet(spells, timers, w, lost, unarmed, w', lost', unarmed', id, list, at, full, victim, timerVictim)
  {
    hide ComesFirst, LinkIndex, Armed;
  }

  lemma NoBereft(evs: Events, timers: seq<Id>)
    ensures Bereft(evs, timers, None) == {}
  {
  }

  /** A timer keeps what it is while event `id` is set. */
  lemma SameBereft(evs: Events, evs': Events, timers: seq<Id>, id: Id, victim: Option<Id>)
    requires id !in timers && forall x :: x in evs && x != id ==> x in evs' && evs'[x] == evs[x]
    requires forall i :: 0 <= i < |timers| ==> timers[i] in evs
    ensures Bereft(evs', timers, victim) == Bereft(evs, timers, victim)
  {
    forall i | 0 <= i < |timers|
      ensures timers[i] in evs' && evs'[timers[i]] == evs[timers[i]]
    {
      assert timers[i] in timers;
    }
  }

  predicate MaySet(evs: Events, n: nat, timers: seq<Id>, id: Id, tv: TimeVal, ioTv: TimeVal) {
    && id in evs && tv == Stamp(TimeOf(tv), ListOf(tv)) && -1 <= ListOf(tv) < n && IsInterval(ioTv, n)
    && (id in timers ==> ListOf(tv) == -1)
    && (evs[id].persist && IsSet(ioTv) ==> ListOf(ioTv) == ListOf(tv))
  }

  predicate MayAdd(evs: Events, n: nat, timers: seq<Id>, id: Id, tv: Option<TimeVal>, absolute: bool) {
    id in evs && match tv
                 case None => true
                 case Some(t) => IsInterval(t, n) && (absolute ==> MaySet(evs, n, timers, id, t, evs[id].ioTv))
  }

  lemma MayAddStill(evs: Events, n: nat, timers: seq<Id>, id: Id, e: Ev, tv: Option<TimeVal>, absolute: bool)
    requires MayAdd(evs, n, timers, id, tv, absolute) && id in evs
    requires e.persist == evs[id].persist && e.ioTv == evs[id].ioTv
    ensures MayAdd(evs[id := e], n, timers, id, tv, absolute)
  {
    hide IsInterval, IsSet, Stamp, TimeOf, ListOf;
  }

  /** Seen from the start of event_add_internal. */
  lemma {:induction false} TimeSetBefore(spells: Id -> LinkBits, timers: seq<Id>, w: Waiting, room: nat, e: Ev,
                                         lost: set<Id>, unarmed: set<int>, w': Waiting, lost': set<Id>,
                                         unarmed': set<int>, id: Id, list: int, at: int, full: bool,
                                         victim: Option<Id>, timerVictim: Option<Id>)
    requires id in w.evs && ListsOk(w.evs, w.lists) && id !in timers
    requires e.timeout == w.evs[id].timeout && e.list == w.evs[id].list
    requires IsTimeSet(spells, timers, w.(evs := w.evs[id := e], room := room), lost, unarmed, w', lost', unarmed', id,
                       list, at, full, victim, timerVictim)
    ensures IsTimeSet(spells, timers, w, lost, unarmed, w', lost', unarmed', id, list, at, full, victim, timerVictim)
  {
    hide ListsOk, ComesFirst, Armed, LinkIndex;
    var w1 := w.(evs := w.evs[id := e], room := room);
    assert Victim(w1, id) == Victim(w, id);
    assert Bereft(w1.evs, timers, victim) == Bereft(w.evs, timers, victim);
    assert Bereft(w1.evs, timers, timerVictim) == Bereft(w.evs, timers, timerVictim);
    if 0 <= list < |timers| {
      SameFirst(w.evs, w.lists, id, e, list, at);
      assert timers[list] in timers;
    }
  }

  lemma FromStart(spells: Id -> LinkBits, timers: seq<Id>, w: Waiting, e: Ev, lost: set<Id>, unarmed: set<int>,
                  w': Waiting, lost': set<Id>, unarmed': set<int>, id: Id, list: int, at: int, canReserve: bool,
                  victim: Option<Id>, timerVictim: Option<Id>)
    requires id in w.evs && ListsOk(w.evs, w.lists) && id !in timers && forall i :: 0 <= i < |timers| ==> timers[i] in w.evs
    requires e.timeout == w.evs[id].timeout && e.list == w.evs[id].list
    requires e.pri == w.evs[id].pri && (e.active ==> w.evs[id].active)
    requires var w1 := w.(evs := w.evs[id := e]);
      && OthersKeep(w1.evs, w'.evs, id, list, timers)
      && IsTimeSet(spells, timers, w1, lost, unarmed, w', lost', unarmed', id, list, at, Full(w1, id, canReserve), victim,
                   timerVictim)
    ensures OthersKeep(w.evs, w'.evs, id, list, timers)
    ensures IsTimeSet(spells, timers, w, lost, unarmed, w', lost', unarmed', id, list, at, Full(w, id, canReserve), victim,
                      timerVictim)
  {
    hide ListsOk, IsTimeSet, OthersKeep;
    KeepsAfter(w.evs, e, w'.evs, id, list, timers);
    assert w.(evs := w.evs[id := e], room := w.room) == w.(evs := w.evs[id := e]);
    TimeSetBefore(spells, timers, w, w.room, e, lost, unarmed, w', lost', unarmed', id, list, at,
                  Full(w, id, canReserve), victim, timerVictim);
  }

  lemma {:induction false} ReachBefore(timers: seq<Id>, w: Waiting, room: nat, e: Ev, id: Id, list: int, at: int)
    requires id in w.evs && ListsOk(w.evs, w.lists) && id !in timers
    requires e.timeout == w.evs[id].timeout && e.list == w.evs[id].list
    ensures SetInReach(w.(evs := w.evs[id := e], room := room), timers, id, list, at) <==> SetInReach(w, timers, id, list, at)
  {
    hide ListsOk, ComesFirst;
    if 0 <= list < |w.lists| == |timers| {
      SameFirst(w.evs, w.lists, id, e, list, at);
      assert timers[list] in timers;
    }
  }

  /** The events that stray are those that the heap has lost, and what is taken instead of one is in the heap. */
  ghost predicate Sited(w: Waiting, heap: set<Id>, lost: set<Id>) {
    && (forall x :: x in w.evs ==> x in w.places && (Strays(w, x) <==> x in lost))
    && (forall x :: x in heap <==> x in w.slots)
    && (forall x :: x in lost ==> x in w.evs && x !in heap)
    && (forall x :: x in w.evs && Victim(w, x).Some? ==> Victim(w, x).value in heap)
  }

  /** What setting the timer will take off the heap, once event `id` has left it. */
  lemma {:induction false} TimerVictimIs(w: Waiting, heap: set<Id>, lost: set<Id>, w': Waiting, heap': set<Id>,
                                         lost': set<Id>, id: Id, timer: Id)
    requires Sited(w, heap, lost) && Sited(w', heap', lost') && id != timer && id in w.evs && timer in w.evs
    requires timer in w'.evs && w'.evs[timer] == w.evs[timer]
    requires heap' == Less(heap - {id}, Victim(w, id)) && lost' == With(lost - {id}, Victim(w, id))
    requires |w'.slots| == Remaining(w, id) && PlacesKept(w'.slots, w.places, w'.places, id)
    requires !Heaped(w, id) ==> w'.slots == w.slots
    requires TimerStrays(w, timer, id) ==> 0 <= w.places[timer] < Remaining(w, id)
    ensures InReach(w', timer) && IsTimerVictim(w, timer, id, Victim(w', timer))
  {
    hide Strays;
    assert timer in lost' ==> timer !in w'.slots && w'.places[timer] == w.places[timer];
    assert timer in lost' <==> TimerStrays(w, timer, id);
    assert !Heaped(w, id) ==> Victim(w, id) == None by {
      HeapedOnly(w, id);
    }
    assert Victim(w', timer).Some? ==> Victim(w', timer).value in heap';
    if !Heaped(w, id) {
      SameVictim(w, w', timer);
    }
  }

  lemma ReachMeans(w: Waiting, timers: seq<Id>, id: Id, list: int, at: int)
    requires SetInReach(w, timers, id, list, at) && id in w.evs && 0 <= list < |w.lists| == |timers|
    requires ComesFirst(w.evs, w.lists, id, list, at)
    ensures TimerStrays(w, timers[list], id) ==> 0 <= w.places[timers[list]] < Remaining(w, id)
  {
    hide ComesFirst;
  }

  lemma ResetMeans(spells: Id -> LinkBits, w: Waiting, heap: set<Id>, lost: set<Id>, id: Id, list: int, full: bool,
                   victim: Option<Id>, heap': set<Id>, lost': set<Id>, slots': seq<Id>, places': map<Id, int>)
    requires IsReset(spells, w, heap, lost, id, list, full, victim, heap', lost', slots', places')
    ensures victim == Victim(w, id) && lost' <= With(lost, victim) + {id}
    ensures list >= 0 ==>
              && heap' == Less(heap - {id}, victim) && lost' == With(lost - {id}, victim)
              && |slots'| == Remaining(w, id) && PlacesKept(slots', w.places, places', id)
              && (!Heaped(w, id) ==> slots' == w.slots)
  {
  }

  lemma HeapedOnly(w: Waiting, id: Id)
    ensures Strays(w, id) ==> Heaped(w, id) && id in w.places
  {
  }

  lemma SameVictim(w: Waiting, w': Waiting, id: Id)
    requires id in w.evs && id in w'.evs && w'.evs[id] == w.evs[id] && w'.slots == w.slots
    requires id in w.places && id in w'.places
    ensures w'.places[id] == w.places[id] ==> Victim(w', id) == Victim(w, id)
  {
  }

  /** The timers that are lost once event `id` has left the heap. */
  lemma {:induction false} LostSpread(evs: Events, evs': Events, timers: seq<Id>, lost: set<Id>, lost': set<Id>,
                                      but: set<int>, id: Id, victim: Option<Id>)
    requires LostTimers(evs, timers, lost, but) && id !in timers && lost' <= With(lost, victim) + {id}
    requires forall x :: x in evs && x != id ==> x in evs' && evs'[x] == evs[x]
    requires forall i :: 0 <= i < |timers| ==> timers[i] in evs
    ensures LostTimers(evs', timers, lost', but + Bereft(evs, timers, victim))
  {
    forall i | 0 <= i < |timers| && timers[i] in lost'
      ensures i in but + Bereft(evs, timers, victim) || (timers[i] in evs' && evs'[timers[i]].active)
    {
      assert timers[i] in timers;
    }
  }

  /** The timers that are lost once the timer of list `i` is set, or has been found to be no use. */
  lemma {:induction false} LostSet(evs: Events, evs': Events, timers: seq<Id>, lost: set<Id>, lost': set<Id>,
                                   but: set<int>, i: int, victim: Option<Id>)
    requires LostTimers(evs, timers, lost, but + {i}) && 0 <= i < |timers| && lost' == With(lost - {timers[i]}, victim)
    requires forall j, k :: 0 <= j < |timers| && 0 <= k < |timers| && j != k ==> timers[j] != timers[k]
    requires forall j :: 0 <= j < |timers| ==> timers[j] in evs && timers[j] in evs'
    requires forall j :: 0 <= j < |timers| && j != i ==> evs'[timers[j]] == evs[timers[j]]
    requires victim != Some(timers[i])
    ensures LostTimers(evs', timers, lost', (but - {i}) + Bereft(evs, timers, victim))
  {
  }

  lemma LostSame(evs: Events, evs': Events, timers: seq<Id>, lost: set<Id>, but: set<int>, id: Id)
    requires LostTimers(evs, timers, lost, but) && id !in timers
    requires forall x :: x in evs && x != id ==> x in evs' && evs'[x] == evs[x]
    requires forall i :: 0 <= i < |timers| ==> timers[i] in evs
    ensures LostTimers(evs', timers, lost, but)
  {
    assert forall i :: 0 <= i < |timers| ==> timers[i] in timers;
  }

  lemma NotFull(w: Waiting, id: Id, canReserve: bool)
    requires !Heaped(w, id) && |w.slots| < w.room
    ensures !Full(w, id, canReserve)
  {
  }

  /** Events are taken off the heap for others exactly if one of these was lost. */
  lemma VictimsNeed(spells: Id -> LinkBits, timers: seq<Id>, w: Waiting, heap: set<Id>, lost: set<Id>,
                    unarmed: set<int>, w': Waiting, lost': set<Id>, unarmed': set<int>, id: Id, list: int, at: int,
                    full: bool, victim: Option<Id>, timerVictim: Option<Id>)
    requires IsTimeSet(spells, timers, w, lost, unarmed, w', lost', unarmed', id, list, at, full, victim, timerVictim)
    requires Sited(w, heap, lost) && SetInReach(w, timers, id, list, at)
    requires forall i :: 0 <= i < |timers| ==> timers[i] in w.evs
    ensures victim == None && timerVictim == None <==>
            id !in lost && !(0 <= list < |timers| && ComesFirst(w.evs, w.lists, id, list, at) && timers[list] in lost)
  {
    hide Strays, ComesFirst, Armed, LinkIndex;
  }

  /** An event that is active waits for nothing. */
  lemma LostFire(evs: Events, e: Ev, timers: seq<Id>, lost: set<Id>, but: set<int>, id: Id)
    requires LostTimers(evs, timers, lost, but) && id in evs && e.active
    ensures LostTimers(evs[id := e], timers, lost, but)
  {
  }

  lemma LostNot(evs: Events, timers: seq<Id>, lost: set<Id>, but: set<int>, i: int)
    requires LostTimers(evs, timers, lost, but + {i}) && 0 <= i < |timers| && timers[i] !in lost
    ensures LostTimers(evs, timers, lost, but - {i})
  {
  }

  lemma LostShifts(evs: Events, timers: seq<Id>, lost: set<Id>, off: int, but: set<int>)
    requires LostTimers(evs, timers, lost, but)
    ensures LostTimers(Shifted(evs, lost, off), timers, lost, but)
  {
  }

  lemma LostNew(evs: Events, timers: seq<Id>, lost: set<Id>, but: set<int>, id: Id, e: Ev)
    requires LostTimers(evs, timers, lost, but) && id !in evs
    ensures LostTimers(evs[id := e], timers, lost, but)
  {
  }

  lemma LostTimer(evs: Events, timers: seq<Id>, timer: Id, lost: set<Id>, but: set<int>)
    requires LostTimers(evs, timers, lost, but) && timer !in lost
    ensures LostTimers(evs, timers + [timer], lost, but)
  {
  }

  lemma LostMore(evs: Events, timers: seq<Id>, lost: set<Id>, but: set<int>, but': set<int>)
    requires LostTimers(evs, timers, lost, but) && but <= but'
    ensures LostTimers(evs, timers, lost, but')
  {
  }

  lemma AddedNone(e: Ev, absolute: bool, now: int)
    ensures Added(e, None, absolute, now) == if e.io && !e.active then e.(inserted := true) else e
  {
  }

  /** What a callback may do. */
  datatype Call = CallAdd(id: Id, tv: Option<TimeVal>, memory: Memory) | CallDel(id: Id, heard: bool) | CallActive(id: Id)

  /** The turn of an event: what its callback does, and what there is room for. */
  datatype Turn = Turn(calls: seq<Call>, memory: Memory)

  /** What a persistent event becomes that is added again. */
  function Rescheduled(e: Ev, now: int): Ev {
    var e1 := if e.io then e.(inserted := true) else e;
    WithTimeout(e1, NextRunAt(e.at, TimeOf(e.ioTv), e.byTimeout, now), e.list)
  }

  /** What becomes of an active event that has its turn and whose callback does nothing. */
  function AfterTurn(e: Ev, now: int, fails: bool): Ev {
    if !e.persist then Deleted(e)
    else if !IsSet(e.ioTv) || fails then e.(active := false)
    else Rescheduled(e.(active := false), now)
  }

  lemma RescheduledSame(e: Ev)
    ensures SameTimes(e, e.(active := false))
  {
  }

  lemma TimerRests(e: Ev, at: int)
    ensures !e.active ==> !WithTimeout(e, at, -1).active
  {
  }

  /** Events that are not active stay so. */
  lemma QuietStays(evs: Events, evs': Events, p: int)
    requires forall x :: x in evs' ==> x in evs && (evs'[x].active ==> evs[x].active) && evs'[x].pri == evs[x].pri
    ensures Quiet(evs, p) ==> Quiet(evs', p)
  {
  }

  lemma QuietAny(evs: Events)
    ensures Quiet(evs, 0)
  {
  }

  /** An event that was picked for processing, and the active queues at that moment. */
  datatype Picked = Picked(ev: Id, queue: nat, active: seq<seq<Id>>)

  /** Nothing more urgent was waiting. */
  ghost predicate WasMostUrgent(p: Picked) {
    && p.queue < |p.active| && p.active[p.queue] != [] && p.ev == p.active[p.queue][0]
    && forall j :: 0 <= j < p.queue ==> p.active[j] == []
  }

  /** How many of the picked events were not internal timers. */
  ghost function Ordinary(picks: seq<Picked>, timers: seq<Id>): nat {
    if picks == [] then 0
    else Ordinary(picks[..|picks| - 1], timers) + if picks[|picks| - 1].ev in timers then 0 else 1
  }

  lemma {:induction false} OrdinaryConcat(a: seq<Picked>, b: seq<Picked>, timers: seq<Id>)
    ensures Ordinary(a + b, timers) == Ordinary(a, timers) + Ordinary(b, timers)
  {
    if b == [] {
      assert a + b == a;
    } else {
      var front := b[..|b| - 1];
      OrdinaryConcat(a, front, timers);
      assert (a + b)[..|a + b| - 1] == a + front;
    }
  }

  lemma {:induction false} OrdinaryNone(picks: seq<Picked>, timers: seq<Id>)
    ensures Ordinary(picks, timers) == 0 <==> forall k :: 0 <= k < |picks| ==> picks[k].ev in timers
  {
    if picks != [] {
      OrdinaryNone(picks[..|picks| - 1], timers);
    }
  }

  /** Once an event that is not an internal timer has been picked, only its queue is looked at. */
  ghost predicate StaysWithOrdinary(picks: seq<Picked>, timers: seq<Id>) {
    forall j, k :: 0 <= j < k < |picks| && picks[j].ev !in timers ==> picks[k].queue == picks[j].queue
  }

  lemma {:induction false} StaysConcat(a: seq<Picked>, b: seq<Picked>, timers: seq<Id>, queue: nat)
    requires Ordinary(a, timers) == 0 && forall k :: 0 <= k < |b| ==> b[k].queue == queue
    ensures StaysWithOrdinary(a + b, timers)
  {
    OrdinaryNone(a, timers);
  }

  /** No event below priority `p` is active. */
  ghost predicate Quiet(evs: Events, p: int) {
    forall x :: x in evs && evs[x].active ==> evs[x].pri >= p
  }

  lemma QuietQueues(evs: Events, active: seq<seq<Id>>, p: nat)
    requires ActiveOk(evs, active) && p <= |active| && Quiet(evs, p)
    ensures forall j :: 0 <= j < p ==> active[j] == []
  {
    assert forall j :: 0 <= j < p && active[j] != [] ==> active[j][0] in active[j];
  }

  lemma TimerPriority(evs: Events, nlists: nat, timers: seq<Id>, nqueues: nat, id: Id)
    requires Shape(evs, nlists, timers, nqueues) && id in evs
    ensures evs[id].pri < nqueues && (evs[id].internal <==> id in timers) && (evs[id].internal ==> evs[id].pri == 0)
  {
  }

  lemma QueueHas(evs: Events, active: seq<seq<Id>>, p: nat, id: Id)
    requires ActiveOk(evs, active) && p < |active| && id in active[p]
    ensures id in evs && evs[id].active && evs[id].pri == p
  {
  }

  lemma QuietNext(evs: Events, active: seq<seq<Id>>, p: nat)
    requires ActiveOk(evs, active) && p < |active| && Quiet(evs, p) && active[p] == []
    ensures Quiet(evs, p + 1)
  {
    assert forall x :: x in evs && evs[x].active && evs[x].pri == p ==> x in active[p];
  }

  lemma NothingYet(active: seq<seq<Id>>)
    requires active != [] && forall i :: 0 <= i < |active| ==> active[i] == []
    ensures Shape(map[], 0, [], |active|) && ListsOk(map[], []) && ActiveOk(map[], active) && InsertedOk(map[], [])
    ensures HeapOk(map[], {}, {}) && ArrayOk(map[], {}, {}, [], map[]) && Memberships(map[]) == 0
  {
  }

  class Base {
    const npriorities: nat
    const emap: EventMap.EventBase
    const spells: Id -> LinkBits
    var evs: Events
    var slots: seq<Id>
    var places: map<Id, int>
    var heapRoom: nat
    var durations: seq<TimeVal>
    var lists: seq<seq<Id>>
    var timers: seq<Id>
    var active: seq<seq<Id>>
    var inserted: seq<Id>
    var ios: map<Id, EventMap.IoEvent>
    var eventCount: int
    var eventCountActive: int
    var eventTv: int
    var runningPriority: int
    var eventContinue: bool
    /** The events in the heap's array. */
    ghost var heap: set<Id>
    /** Events that wait outside all lists, and are not in the heap: they found no room there, or were taken off it for
        another event. */
    ghost var lost: set<Id>
    /** Lists whose timer could not be set when it should have been, or was taken off the heap for another event. */
    ghost var unarmed: set<int>
    /** Events that a failed deletion has left on the lists of their descriptors. */
    ghost var stale: set<Id>

    constructor (npriorities: nat, usesChangelist: bool, spells: Id -> LinkBits)
      requires npriorities > 0
      ensures Valid() && evs == map[] && lists == [] && |active| == npriorities && !eventContinue
      ensures runningPriority == -1 && lost == {} && unarmed == {} && stale == {} && timers == [] && ios == map[]
      ensures fresh(emap) && fresh(emap.kernel) && emap.io == map[] && emap.usesChangelist == usesChangelist
      ensures this.npriorities == npriorities && this.spells == spells && slots == [] && heapRoom == 0 && inserted == []
      ensures active == seq(npriorities, _ => []) && eventCountActive == Total(active) && emap.Valid()
    {
      this.npriorities := npriorities;
      this.spells := spells;
      emap := new EventMap.EventBase(usesChangelist);
      evs, slots, places, heapRoom := map[], [], map[], 0;
      durations, lists, timers, inserted, ios := [], [], [], [], map[];
      active := seq(npriorities, _ => []);
      eventCount, eventCountActive, eventTv, runningPriority, eventContinue := 0, 0, 0, -1, false;
      heap, lost, unarmed, stale := {}, {}, {}, {};
      new;
      hide Shape, ListsOk, ActiveOk, InsertedOk, HeapOk, ArrayOk, Total, DurationsOk, AllArmed, LostTimers,
           Memberships, EventMap.GoodSlots;
      TotalNone(active);
      NothingYet(active);
    }

    /** The queues hold the events that their flags say, the lists in order, and the counts are right. */
    ghost predicate Core()
      reads `evs, `heap, `slots, `places, `heapRoom, `lost, `durations, `lists, `timers, `active, `inserted, `eventCount
      reads `eventCountActive
    {
      && Shape(evs, |lists|, timers, |active|) && |active| == npriorities && DurationsOk(durations, |lists|)
      && HeapOk(evs, heap, lost) && ArrayOk(evs, heap, lost, slots, places) && |slots| <= heapRoom
      && ListsOk(evs, lists) && ActiveOk(evs, active) && InsertedOk(evs, inserted)
      && eventCount == Memberships(evs) && eventCountActive == Total(active)
    }

    /** The map has the events that their flags say. */
    ghost predicate MapOk()
      reads `evs, `ios, `stale, emap
    {
      emap.Valid() && Mapped(evs, ios, stale, emap.io)
    }

    /** Every list has its timer armed, but for those of `but`, and the heap has lost no other timer that is waited
        for. */
    ghost predicate Guarded(but: set<int>)
      reads `evs, `lists, `timers, `lost
    {
      AllArmed(evs, lists, timers, but) && LostTimers(evs, timers, lost, but)
    }

    /** What matters to those who erase events. */
    function Waits(): Waiting
      reads `evs, `lists, `slots, `places, `heapRoom
    {
      Waiting(evs, lists, slots, places, heapRoom)
    }

    /** And every list has its timer armed, but for those that are known not to. */
    ghost predicate Valid()
      reads `evs, `heap, `slots, `places, `heapRoom, `lost, `durations, `lists, `timers, `active, `inserted, `eventCount
      reads `eventCountActive, `unarmed, `ios, `stale, emap
    {
      Core() && Guarded(unarmed) && MapOk()
    }

    /** An event that is inserted, and no other unless a failed deletion has left it there, is on the list of its own
        descriptor, and it is on the list of no other; the counts of the descriptor are those of its list. */
    lemma InsertedIsListed(id: Id)
      requires Valid() && id in evs && evs[id].io
      ensures id in ios
      ensures ios[id].fd >= 0 ==> (ios[id] in emap.Events(ios[id].fd) <==> evs[id].inserted || id in stale)
      ensures forall fd :: fd != ios[id].fd ==> ios[id] !in emap.Events(fd)
      ensures forall fd :: fd in emap.io ==>
                && emap.io[fd].nread == EventMap.Readers(emap.Events(fd))
                && emap.io[fd].nwrite == EventMap.Writers(emap.Events(fd))
                && forall e :: e in emap.Events(fd) ==> e in ios.Values
    {
      hide Core, AllArmed;
      forall fd | fd in emap.io
        ensures EventMap.Counted(fd, emap.io[fd])
      {
        EventMap.SlotCounted(emap.io, emap.changes, fd);
      }
      assert forall fd :: emap.Events(fd) == ListedAt(emap.io, fd);
    }

    /** min_heap_reserve. */
    method Reserve(n: nat, canReserve: bool) returns (ok: bool)
      modifies `heapRoom
      ensures ok <==> n <= old(heapRoom) || canReserve
      ensures heapRoom == if n <= old(heapRoom) || !ok then old(heapRoom)
                          else if old(heapRoom) == 0 then (if n <= 8 then 8 else n)
                          else if n <= 2 * old(heapRoom) then 2 * old(heapRoom) else n
      ensures old(Core()) ==> Core()
    {
      hide Shape, HeapOk, ArrayOk, ListsOk, ActiveOk, InsertedOk, DurationsOk, Memberships, Total;
      ok := true;
      if heapRoom < n {
        var a := if heapRoom > 0 then heapRoom * 2 else 8;
        if a < n {
          a := n;
        }
        if !canReserve {
          return false;
        }
        heapRoom := a;
      }
    }

    /** event_queue_remove, for timeouts. An event that strays takes another off the heap instead. */
    method RemoveTimeout(id: Id) returns (ghost victim: Option<Id>)
      requires Core() && id in evs && evs[id].timeout && InReach(Waits(), id)
      modifies `evs, `heap, `slots, `places, `lost, `lists, `eventCount
      ensures Core() && evs == old(evs)[id := old(evs)[id].(timeout := false)]
      ensures lists == ListsWithout(old(evs), old(lists), id)
      ensures IsCleared(spells, old(Waits()), old(heap), old(lost), id, victim, heap, lost, slots, places)
    {
      hide Core, ListsWithout, IsCommon, IndexOf, Stamp, IsInterval, IsSet, ListOf, LinkIndex, PlacesKept, Strays;
      TagIs(id);
      HasPlace(id);
      StrayIs(id);
      if IsCommon(evs[id].tv, |lists|) {
        OnListOnly(id);
        EraseFromList(id, IndexOf(evs[id].tv));
        victim := None;
      } else {
        victim := EraseFromHeap(id);
      }
    }

    /** TAILQ_REMOVE for the list of a common timeout, which leaves the links of the event as they are. */
    method EraseFromList(id: Id, l: int)
      requires Core() && id in evs && evs[id].timeout && evs[id].list == l && 0 <= l < |lists|
      modifies `evs, `places, `lists, `eventCount
      ensures Core() && evs == old(evs)[id := old(evs)[id].(timeout := false)]
      ensures lists == ListsWithout(old(evs), old(lists), id)
      ensures places == old(places)[id := LinkIndex(spells, old(lists)[l], id)]
              && PlacesKept(slots, old(places), places, id)
    {
      hide HeapOk, ArrayOk, ListsOk, ActiveOk, InsertedOk, Memberships, Total, Without, NoRepeats, Shape, DurationsOk,
           ListsWithout, LinkIndex;
      ghost var e := evs[id].(timeout := false);
      Updates(id, e);
      HeapSame(id, e);
      HasPlace(id);
      OnListOnly(id);
      ListsErase(evs, lists, id, e);
      ArrayPlace(evs[id := e], heap, lost, slots, places, id, LinkIndex(spells, lists[l], id));
      if !evs[id].internal {
        eventCount := eventCount - 1;
      }
      places := places[id := LinkIndex(spells, lists[l], id)];
      lists := lists[l := Without(lists[l], id)];
      evs := evs[id := evs[id].(timeout := false)];
    }

    /** min_heap_erase. */
    method EraseFromHeap(id: Id) returns (ghost victim: Option<Id>)
      requires Core() && id in evs && evs[id].timeout && evs[id].list == -1 && InReach(Waits(), id)
      modifies `evs, `heap, `slots, `places, `lost, `eventCount
      ensures Core() && evs == old(evs)[id := old(evs)[id].(timeout := false)]
      ensures lists == ListsWithout(old(evs), old(lists), id) && victim == old(Victim(Waits(), id))
      ensures heap == Less(old(heap) - {id}, victim) && lost == With(old(lost) - {id}, victim)
      ensures |slots| == |old(slots)| - 1 && PlacesKept(slots, old(places), places, id)
    {
      hide HeapOk, ArrayOk, ListsOk, ActiveOk, InsertedOk, Memberships, Total, Without, NoRepeats, Shape, DurationsOk,
           ListsWithout, Strays, PlacesKept, Victim, InReach;
      ghost var e := evs[id].(timeout := false);
      Updates(id, e);
      ListsErase(evs, lists, id, e);
      victim := EraseSlot(id, e);
      if !evs[id].internal {
        eventCount := eventCount - 1;
      }
      evs := evs[id := evs[id].(timeout := false)];
    }

    method EraseSlot(id: Id, ghost e: Ev) returns (ghost victim: Option<Id>)
      requires Core() && id in evs && evs[id].timeout && evs[id].list == -1 && InReach(Waits(), id) && !e.timeout
      modifies `heap, `slots, `places, `lost
      ensures HeapOk(evs[id := e], heap, lost) && ArrayOk(evs[id := e], heap, lost, slots, places)
      ensures victim == old(Victim(Waits(), id)) && |slots| <= heapRoom
      ensures heap == Less(old(heap) - {id}, victim) && lost == With(old(lost) - {id}, victim)
      ensures |slots| == |old(slots)| - 1 && PlacesKept(slots, old(places), places, id)
    {
      hide Core, HeapOk, ArrayOk, Ordered, Indexed, Strays, Victim, InReach;
      StrayIs(id);
      HeapFacts();
      victim := Victim(Waits(), id);
      HeapErase(evs, heap, lost, id, e, victim);
      var q, places' := Erase(evs, slots, places, id);
      ArrayErased(evs, heap, lost, slots, places, id, e, victim, q, places');
      slots, places := q, places';
      heap, lost := Less(heap - {id}, victim), With(lost - {id}, victim);
    }

    lemma NotWaiting(id: Id)
      requires Core() && id in evs && !evs[id].timeout
      ensures IsCleared(spells, Waits(), heap, lost, id, None, heap, lost, slots, places)
      ensures ListsWithout(evs, lists, id) == lists
    {
      assert heap - {id} == heap && lost - {id} == lost;
    }

    lemma HasPlace(id: Id)
      requires Core() && id in evs
      ensures id in places
    {
    }

    lemma HeapFacts()
      requires Core()
      ensures |slots| == |heap| <= heapRoom && Ordered(evs, slots) && Indexed(slots, places)
      ensures forall x :: x in heap <==> x in slots
      ensures forall x :: x in lost ==> x !in heap && x in evs
      ensures HeapOk(evs, heap, lost) && ArrayOk(evs, heap, lost, slots, places)
    {
    }

    lemma RoomIs()
      requires Core()
      ensures |slots| <= heapRoom
    {
    }

    lemma HeapSize()
      requires Core()
      ensures slots == [] <==> heap == {}
    {
    }

    /** An event strays exactly if the heap has lost it, and then a place in the array is that of another event, which
        is in the heap. */
    lemma StrayIs(id: Id)
      requires Core() && id in evs
      ensures id in places && (Strays(Waits(), id) <==> id in lost)
      ensures Heaped(Waits(), id) ==> evs[id].list == -1
      ensures evs[id].timeout && evs[id].list == -1 && InReach(Waits(), id) ==>
                && 0 <= places[id] < |slots| && (slots[places[id]] == id <==> id in heap)
                && (Victim(Waits(), id) == if slots[places[id]] == id then None else Some(slots[places[id]]))
      ensures Victim(Waits(), id).Some? ==> id in lost && Victim(Waits(), id).value in heap
      ensures id in lost && InReach(Waits(), id) ==> Victim(Waits(), id).Some?
    {
      hide Stamped;
      assert id in heap ==> exists i :: 0 <= i < |slots| && slots[i] == id;
      assert 0 <= places[id] < |slots| ==> slots[places[id]] in heap;
    }

    /** What an event looks like besides makes no difference to the heap. */
    lemma HeapSame(id: Id, e: Ev)
      requires Core() && id in evs
      requires (evs[id].timeout && evs[id].list == -1) == (e.timeout && e.list == -1)
      requires evs[id].timeout && evs[id].list == -1 ==> e.at == evs[id].at && e.tv == evs[id].tv
      ensures HeapOk(evs[id := e], heap, lost) && ArrayOk(evs[id := e], heap, lost, slots, places)
    {
      hide Stamped, Ordered, Indexed;
      ArrayKeeps(evs, heap, lost, slots, places, id, e);
    }

    /** The tag of an event's time is that of its list. */
    lemma TagIs(id: Id)
      requires Core() && id in evs
      ensures IsCommon(evs[id].tv, |lists|) <==> evs[id].list >= 0
      ensures evs[id].list >= 0 ==> IndexOf(evs[id].tv) == evs[id].list
      ensures IsInterval(evs[id].ioTv, |lists|)
      ensures evs[id].tv == Stamp(evs[id].at, evs[id].list)
      ensures evs[id].persist && IsSet(evs[id].ioTv) ==> ListOf(evs[id].ioTv) == evs[id].list
      ensures -1 <= evs[id].list < |lists| <= MAX_COMMON_TIMEOUTS
    {
      hide IsInterval, IsCommon, IndexOf, Stamp, TimeOf, ListOf, Masked, TagBits;
      assert Stamped(evs[id], |lists|);
      StampReads(evs[id].at, evs[id].list, |lists|);
    }

    lemma OnListOnly(id: Id)
      requires Core() && id in evs
      ensures evs[id].list >= 0 ==> id !in heap && id !in lost && heap - {id} == heap && lost - {id} == lost
    {
    }

    lemma TimeIs(id: Id)
      requires Core() && id in evs
      ensures TimeOf(evs[id].tv) == evs[id].at && ListOf(evs[id].tv) == evs[id].list
      ensures evs[id].tv == Stamp(TimeOf(evs[id].tv), evs[id].list)
    {
      hide Core, IsInterval, IsCommon, IndexOf, Stamp, TimeOf, ListOf, Masked, TagBits;
      TagIs(id);
      StampReads(evs[id].at, evs[id].list, |lists|);
    }

    lemma NotInHeap(id: Id)
      requires Core() && id in evs
      ensures evs[id].list >= 0 || !evs[id].timeout ==>
                id !in heap && id !in lost && heap - {id} == heap && lost - {id} == lost
      ensures |heap - {id}| <= |heap| <= heapRoom && (id in heap ==> |heap - {id}| == |heap| - 1)
      ensures evs[id].timeout && evs[id].list == -1 && id !in lost ==> id in heap
      ensures id in lost ==> id !in heap && evs[id].timeout && evs[id].list == -1
    {
    }

    /** event_queue_remove, for active events. */
    method RemoveActive(id: Id)
      requires Core() && id in evs && evs[id].active
      modifies `evs, `active, `eventCount, `eventCountActive
      ensures Core() && evs == old(evs)[id := old(evs)[id].(active := false)]
      ensures active == old(active)[evs[id].pri := Without(old(active)[evs[id].pri], id)]
    {
      hide HeapOk, ArrayOk, ListsOk, ActiveOk, InsertedOk, Memberships, Total, Without, NoRepeats, Shape, DurationsOk;
      ghost var e := evs[id].(active := false);
      var p := evs[id].pri;
      Updates(id, e);
      ListsKeep(evs, lists, id, e);
      HeapSame(id, e);
      ActiveHas(evs, active, id);
      WithoutIs(active[p], id);
      TotalUpdate(active, p, Without(active[p], id));
      if !evs[id].internal {
        eventCount := eventCount - 1;
      }
      eventCountActive := eventCountActive - 1;
      active := active[p := Without(active[p], id)];
      evs := evs[id := evs[id].(active := false)];
    }

    /** event_queue_remove, for inserted events. */
    method RemoveInserted(id: Id)
      requires Core() && id in evs && evs[id].inserted
      modifies `evs, `inserted, `eventCount
      ensures Core() && evs == old(evs)[id := old(evs)[id].(inserted := false)]
    {
      hide HeapOk, ArrayOk, ListsOk, ActiveOk, InsertedOk, Memberships, Total, Without, NoRepeats, Shape, DurationsOk;
      ghost var e := evs[id].(inserted := false);
      Updates(id, e);
      ListsKeep(evs, lists, id, e);
      HeapSame(id, e);
      if !evs[id].internal {
        eventCount := eventCount - 1;
      }
      inserted := Without(inserted, id);
      evs := evs[id := evs[id].(inserted := false)];
    }

    /** event_queue_insert, for active events. Inserting twice is possible, and does nothing. */
    method InsertActive(id: Id)
      requires Core() && id in evs
      modifies `evs, `active, `eventCount, `eventCountActive
      ensures Core() && evs == old(evs)[id := old(evs)[id].(active := true)]
      ensures active == if old(evs)[id].active then old(active)
                        else old(active)[evs[id].pri := old(active)[evs[id].pri] + [id]]
    {
      hide HeapOk, ArrayOk, ListsOk, ActiveOk, InsertedOk, Memberships, Total, Without, NoRepeats, Shape, DurationsOk;
      PriorityOk(id);
      if evs[id].active {
        assert evs == evs[id := evs[id].(active := true)];
        return;
      }
      ghost var e := evs[id].(active := true);
      var p := evs[id].pri;
      Updates(id, e);
      ListsKeep(evs, lists, id, e);
      HeapSame(id, e);
      TotalUpdate(active, p, active[p] + [id]);
      if !evs[id].internal {
        eventCount := eventCount + 1;
      }
      eventCountActive := eventCountActive + 1;
      active := active[p := active[p] + [id]];
      evs := evs[id := evs[id].(active := true)];
    }

    /** event_queue_insert, for events of descriptors. */
    method InsertInserted(id: Id)
      requires Core() && id in evs && !evs[id].inserted
      modifies `evs, `inserted, `eventCount
      ensures Core() && evs == old(evs)[id := old(evs)[id].(inserted := true)]
    {
      hide HeapOk, ArrayOk, ListsOk, ActiveOk, InsertedOk, Memberships, Total, Without, NoRepeats, Shape, DurationsOk;
      ghost var e := evs[id].(inserted := true);
      Updates(id, e);
      ListsKeep(evs, lists, id, e);
      HeapSame(id, e);
      if !evs[id].internal {
        eventCount := eventCount + 1;
      }
      inserted := inserted + [id];
      evs := evs[id := evs[id].(inserted := true)];
    }

    /** The event can be given this time, and this interval: if it persists, it waits in the list of its interval. */
    predicate CanSet(id: Id, tv: TimeVal, ioTv: TimeVal)
      reads `evs, `lists, `timers
    {
      MaySet(evs, |lists|, timers, id, tv, ioTv)
    }

    /** Sets the time and the interval of an event that waits for none. */
    method SetTimeout(id: Id, tv: TimeVal, ioTv: TimeVal)
      requires Core() && CanSet(id, tv, ioTv) && !evs[id].timeout
      modifies `evs
      ensures Core()
      ensures evs == old(evs)[id := old(evs)[id].(at := TimeOf(tv), list := ListOf(tv), tv := tv, ioTv := ioTv)]
    {
      hide HeapOk, ArrayOk, ListsOk, ActiveOk, InsertedOk, Memberships, Total, Without, NoRepeats, Shape, DurationsOk,
           TimeOf, ListOf, Stamp, IsInterval, IsSet;
      ghost var e := evs[id].(at := TimeOf(tv), list := ListOf(tv), tv := tv, ioTv := ioTv);
      Updates(id, e);
      ListsKeep(evs, lists, id, e);
      HeapSame(id, e);
      evs := evs[id := evs[id].(at := TimeOf(tv), list := ListOf(tv), tv := tv, ioTv := ioTv)];
    }

    /** insert_common_timeout_inorder: the place for the event, looked for from the end of the list. Times are compared
        with their tags. */
    method FindPlace(list: int, tv: TimeVal) returns (k: nat)
      requires Core() && 0 <= list < |lists| && tv == Stamp(TimeOf(tv), list)
      ensures k <= |lists[list]| && IsPlace(evs, lists[list], TimeOf(tv), k)
    {
      hide Core, ListsOk, NoRepeats, TimerLess, TimeOf, Stamp;
      var ids := lists[list];
      ListFacts(list);
      k := |ids|;
      while k > 0
        invariant k <= |ids|
        invariant forall j :: k <= j < |ids| ==> TimeOf(tv) < evs[ids[j]].at
      {
        assert ids[k - 1] in ids;
        TagIs(ids[k - 1]);
        StampsCompare(TimeOf(tv), evs[ids[k - 1]].at, list);
        if !TimerLess(tv, evs[ids[k - 1]].tv) {
          return;
        }
        k := k - 1;
      }
    }

    /** event_queue_insert, for timeouts. Nobody is told if the heap cannot take the event. */
    method InsertTimeout(id: Id, canReserve: bool) returns (ghost k: nat)
      requires Core() && id in evs && !evs[id].timeout
      requires evs[id].list < 0 && |slots| >= heapRoom && !canReserve ==> id in places && places[id] != -1
      modifies `evs, `heap, `slots, `places, `heapRoom, `lost, `lists, `eventCount
      ensures Core() && evs == old(evs)[id := old(evs)[id].(timeout := true)] && heapRoom >= old(heapRoom)
      ensures IsListed(old(evs), old(lists), lists, id, evs[id].list, evs[id].at, k)
      ensures IsQueued(old(heap), old(lost), |old(slots)| >= old(heapRoom) && !canReserve, heap, lost, id, evs[id].list)
      ensures evs[id].list >= 0 || (|old(slots)| >= old(heapRoom) && !canReserve) ==>
                slots == old(slots) && places == old(places) && heapRoom == old(heapRoom)
    {
      hide Core, IsPlace, InsertedAt, IsCommon, IndexOf, Stamp, IsInterval, IsSet, ListOf, TimeOf;
      TagIs(id);
      if IsCommon(evs[id].tv, |lists|) {
        TimeIs(id);
        var l := IndexOf(evs[id].tv);
        var place := FindPlace(l, evs[id].tv);
        k := place;
        InsertInList(id, l, place);
      } else {
        var ok := Reserve(|slots| + 1, canReserve);
        InsertInHeap(id, ok);
        k := 0;
      }
    }

    /** The event takes its place in its list. */
    method InsertInList(id: Id, l: int, k: nat)
      requires Core() && id in evs && !evs[id].timeout && evs[id].list == l && 0 <= l < |lists|
      requires IsPlace(evs, lists[l], evs[id].at, k)
      modifies `evs, `lists, `eventCount
      ensures Core() && evs == old(evs)[id := old(evs)[id].(timeout := true)]
      ensures k <= |old(lists)[l]| && lists == old(lists)[l := InsertedAt(old(lists)[l], k, id)]
    {
      hide HeapOk, ArrayOk, ListsOk, ActiveOk, InsertedOk, Memberships, Total, NoRepeats, IsPlace, InsertedAt, Shape,
           DurationsOk;
      ghost var e := evs[id].(timeout := true);
      Updates(id, e);
      PlaceIn(evs, lists[l], evs[id].at, k);
      ListsInsert(evs, lists, id, e, k);
      HeapSame(id, e);
      if !evs[id].internal {
        eventCount := eventCount + 1;
      }
      lists := lists[l := InsertedAt(lists[l], k, id)];
      evs := evs[id := evs[id].(timeout := true)];
    }

    /** min_heap_push, whose failure nobody looks at; `ok` if there is room in the array. An event for which there is
        none keeps what stands where its index should be. */
    method InsertInHeap(id: Id, ok: bool)
      requires Core() && id in evs && !evs[id].timeout && evs[id].list == -1
      requires if ok then |slots| < heapRoom else id in places && places[id] != -1
      modifies `evs, `heap, `slots, `places, `lost, `eventCount
      ensures Core() && evs == old(evs)[id := old(evs)[id].(timeout := true)]
      ensures heap == (if ok then old(heap) + {id} else old(heap)) && lost == if ok then old(lost) else old(lost) + {id}
      ensures !ok ==> slots == old(slots) && places == old(places)
    {
      hide HeapOk, ArrayOk, ListsOk, ActiveOk, InsertedOk, Memberships, Total, NoRepeats, Shape, DurationsOk;
      ghost var e := evs[id].(timeout := true);
      Updates(id, e);
      ListsKeep(evs, lists, id, e);
      PushSlot(id, ok, e);
      if !evs[id].internal {
        eventCount := eventCount + 1;
      }
      evs := evs[id := evs[id].(timeout := true)];
    }

    method PushSlot(id: Id, ok: bool, ghost e: Ev)
      requires Core() && id in evs && !evs[id].timeout && evs[id].list == -1 && e == evs[id].(timeout := true)
      requires if ok then |slots| < heapRoom else id in places && places[id] != -1
      modifies `heap, `slots, `places, `lost
      ensures HeapOk(evs[id := e], heap, lost) && ArrayOk(evs[id := e], heap, lost, slots, places)
              && |slots| <= heapRoom
      ensures heap == (if ok then old(heap) + {id} else old(heap)) && lost == if ok then old(lost) else old(lost) + {id}
      ensures !ok ==> slots == old(slots) && places == old(places)
    {
      hide Core, HeapOk, ArrayOk, Ordered, Indexed, Stamp;
      HeapFacts();
      WaitsNot(id);
      HasPlace(id);
      TagIs(id);
      HeapPut(evs, heap, lost, id, e);
      if ok {
        var q, places' := Push(evs, slots, places, id);
        ArrayPushed(evs, heap, lost, slots, places, id, e, q, places');
        slots, places, heap := q, places', heap + {id};
      } else {
        ArrayKeeps(evs, heap, lost, slots, places, id, e);
        ArrayPlace(evs[id := e], heap, lost, slots, places, id, 0);
        lost := lost + {id};
      }
    }

    lemma WaitsNot(id: Id)
      requires Core() && id in evs && !evs[id].timeout
      ensures id !in heap && id !in lost
    {
    }

    lemma Unlisted(id: Id)
      requires Core() && id in evs && !evs[id].timeout
      ensures forall i :: 0 <= i < |lists| ==> id !in lists[i]
    {
      NotListed(evs, lists, id);
    }

    /** A timeout that is pending, or that has made the event active, is forgotten. */
    method ClearTimeout(id: Id) returns (ghost victim: Option<Id>)
      requires Core() && id in evs && InReach(Waits(), id)
      modifies `evs, `heap, `slots, `places, `lost, `lists, `active, `eventCount, `eventCountActive
      ensures Core() && |lists| == |old(lists)|
      ensures var e := old(evs)[id];
              evs == old(evs)[id := e.(timeout := false, active := e.active && !e.byTimeout)]
      ensures lists == ListsWithout(old(evs), old(lists), id)
      ensures IsCleared(spells, old(Waits()), old(heap), old(lost), id, victim, heap, lost, slots, places)
    {
      hide Core, Without, NoRepeats, IsCleared, Strays, InReach;
      NotInHeap(id);
      victim := None;
      if evs[id].timeout {
        victim := RemoveTimeout(id);
      } else {
        NotWaiting(id);
      }
      if evs[id].active && evs[id].byTimeout {
        RemoveActive(id);
      }
      assert evs == old(evs)[id := evs[id]];
    }

    /** A new time, and interval, in place of any that the event waits for or is active on account of. */
    method ReplaceTimeout(id: Id, tv: TimeVal, ioTv: TimeVal) returns (ghost victim: Option<Id>)
      requires Core() && CanSet(id, tv, ioTv) && InReach(Waits(), id)
      modifies `evs, `heap, `slots, `places, `lost, `lists, `active, `eventCount, `eventCountActive
      ensures Core() && id in old(evs) && lists == ListsWithout(old(evs), old(lists), id)
      ensures |lists| == |old(lists)|
      ensures evs == old(evs)[id := WithTimeout(old(evs)[id].(ioTv := ioTv), TimeOf(tv), ListOf(tv)).(timeout := false)]
      ensures IsCleared(spells, old(Waits()), old(heap), old(lost), id, victim, heap, lost, slots, places)
    {
      hide Core, Without, NoRepeats, ListsWithout, TimeOf, ListOf, Stamp, IsSet, IsInterval, IsCleared;
      ghost var evs0 := evs;
      ListsWithoutSize(evs, lists, id);
      victim := ClearTimeout(id);
      SetTimeout(id, tv, ioTv);
      assert evs[id] == WithTimeout(evs0[id].(ioTv := ioTv), TimeOf(tv), ListOf(tv)).(timeout := false);
      assert evs == evs0[id := evs[id]];
    }

    /** The part of event_add_internal that sets a timeout. */
    method AddTimeout(id: Id, tv: TimeVal, ioTv: TimeVal, canReserve: bool) returns (ghost k: nat, ghost victim: Option<Id>)
      requires Core() && id in evs && CanSet(id, tv, ioTv) && InReach(Waits(), id)
               && (evs[id].timeout || |slots| < heapRoom)
      modifies `evs, `heap, `slots, `places, `heapRoom, `lost, `lists, `active, `eventCount, `eventCountActive
      ensures Core() && |lists| == |old(lists)| && heapRoom >= old(heapRoom)
      ensures evs == old(evs)[id := WithTimeout(old(evs)[id].(ioTv := ioTv), TimeOf(tv), ListOf(tv))]
      ensures IsListed(evs, ListsWithout(old(evs), old(lists), id), lists, id, ListOf(tv), TimeOf(tv), k)
      ensures IsReset(spells, old(Waits()), old(heap), old(lost), id, ListOf(tv), old(Full(Waits(), id, canReserve)), victim,
                      heap, lost, slots, places)
      ensures ListOf(tv) >= 0 ==> heapRoom == old(heapRoom)
    {
      hide Core, Without, NoRepeats, ListsWithout, TimeOf, ListOf, Stamp, IsSet, WithTimeout, IsInterval, IsQueued,
           IsListed, IsCleared, IsReset, InReach, Full, MaySet;
      ghost var evs0, w, heap0, lost0 := evs, Waits(), heap, lost;
      WithTimeoutIs(evs[id].(ioTv := ioTv), TimeOf(tv), ListOf(tv));
      RoomIs();
      ListInRange(id);
      victim := ReplaceTimeout(id, tv, ioTv);
      ghost var was, ls, heap1, lost1, slots1, places1 := evs, lists, heap, lost, slots, places;
      ClearedPlace(spells, w, heap0, lost0, id, victim, heap, lost, slots, places);
      Unlisted(id);
      k := InsertTimeout(id, canReserve);
      assert evs[id] == WithTimeout(evs0[id].(ioTv := ioTv), TimeOf(tv), ListOf(tv));
      ListedLater(was, ls, lists, id, evs[id], ListOf(tv), TimeOf(tv), k);
      ResetIs(spells, w, heap0, lost0, id, ListOf(tv), canReserve, victim, heap1, lost1, slots1, places1, heap, lost,
              slots, places);
    }

    lemma CoreMeans()
      requires Core()
      ensures Shape(evs, |lists|, timers, |active|) && ListsOk(evs, lists) && |lists| == |timers| <= MAX_COMMON_TIMEOUTS
      ensures |active| == npriorities > 0 && ActiveOk(evs, active)
    {
    }

    lemma TimersDiffer()
      requires Core()
      ensures forall i :: 0 <= i < |timers| ==> timers[i] in evs && timers[i] in timers && evs[timers[i]].internal
      ensures forall i, j :: 0 <= i < |timers| && 0 <= j < |timers| && i != j ==> timers[i] != timers[j]
      ensures forall i :: 0 <= i < |timers| ==> !evs[timers[i]].io && !evs[timers[i]].persist
      ensures forall id :: id in evs && evs[id].internal ==> id in timers
    {
    }

    /** common_timeout_schedule: the timer of a list is set to the time of its first event, without the tag. It may
        find no room in the heap, and nobody is told; if it strays, it finds the room of another event. */
    method ScheduleTimer(i: int, canReserve: bool) returns (ghost victim: Option<Id>)
      requires Core() && 0 <= i < |lists| == |timers| && lists[i] != [] && InReach(Waits(), timers[i])
      modifies `evs, `heap, `slots, `places, `heapRoom, `lost, `lists, `active, `eventCount, `eventCountActive
      ensures Core() && lists == old(lists) && heapRoom >= old(heapRoom) && victim == old(Victim(Waits(), timers[i]))
      ensures timers[i] in old(evs) && lists[i][0] in old(evs)
      ensures if old(evs)[timers[i]].timeout || |old(slots)| < old(heapRoom) || canReserve then
                && evs == old(evs)[timers[i] := WithTimeout(old(evs)[timers[i]], old(evs)[lists[i][0]].at, -1)]
                && timers[i] in heap && lost == With(old(lost) - {timers[i]}, victim)
              else evs == old(evs) && heap == old(heap) && lost == old(lost) && active == old(active)
    {
      hide Core, TimeOf, ListOf, Masked, LinkIndex, PlacesKept, Strays, InReach, Victim, WithTimeout, ListsWithout,
           MaySet, HeapOk, ArrayOk, Ordered, Indexed;
      var timer := timers[i];
      TimerTime(i);
      StrayIs(timer);
      HeapFacts();
      SameReach(Waits(), timer);
      var tv := Masked(evs[lists[i][0]].tv);
      victim := None;
      if !evs[timer].timeout {
        var ok := Reserve(1 + |slots|, canReserve);
        if !ok {
          return;
        }
      }
      ghost var k;
      k, victim := AddTimeout(timer, tv, evs[timer].ioTv, canReserve);
    }

    /** The time of the first event of a list is a time for its timer. */
    lemma TimerTime(i: int)
      requires Core() && 0 <= i < |lists| == |timers| && lists[i] != []
      ensures timers[i] in evs && lists[i][0] in evs && evs[timers[i]].list == -1
      ensures var tv := Masked(evs[lists[i][0]].tv);
        && CanSet(timers[i], tv, evs[timers[i]].ioTv) && ListOf(tv) == -1 && TimeOf(tv) == evs[lists[i][0]].at
      ensures ListsWithout(evs, lists, timers[i]) == lists
      ensures !evs[timers[i]].timeout ==> timers[i] !in lost && lost - {timers[i]} == lost
    {
      hide Core, TimeOf, ListOf, Stamp, IsSet, Masked, IsInterval;
      CoreMeans();
      ListFacts(i);
      TimersDiffer();
      assert lists[i][0] in lists[i];
      TimerUnlisted(evs, lists, timers, |active|, i);
      TagIs(lists[i][0]);
      TagIs(timers[i]);
      NotInHeap(timers[i]);
      StampReads(evs[lists[i][0]].at, i, |lists|);
      StampReads(evs[lists[i][0]].at, -1, |lists|);
    }

    /** Setting the timer of a list, whose first event may have got earlier. If the timer is on no queue and the heap
        cannot take it, it does not run, and the events of the list wait for it in vain. If it strays, it is set, and
        another event is taken off the heap. */
    method Schedule(i: int, canReserve: bool) returns (ghost victim: Option<Id>)
      requires Core() && 0 <= i < |lists| == |timers| && lists[i] != [] && InReach(Waits(), timers[i])
      requires Guarded(unarmed + {i})
      modifies `evs, `heap, `slots, `places, `heapRoom, `lost, `lists, `active, `unarmed, `eventCount, `eventCountActive
      ensures Core() && Guarded(unarmed) && lists == old(lists)
      ensures victim == old(Victim(Waits(), timers[i])) && lost == With(old(lost) - {timers[i]}, victim)
      ensures timers[i] in old(evs) && lists[i][0] in old(evs)
      ensures evs == if old(evs)[timers[i]].timeout || |old(slots)| < old(heapRoom) || canReserve then
                       old(evs)[timers[i] := WithTimeout(old(evs)[timers[i]], old(evs)[lists[i][0]].at, -1)]
                     else old(evs)
      ensures if old(Idle(evs, timers[i])) && |old(slots)| >= old(heapRoom) && !canReserve then
                unarmed == old(unarmed) + {i} && !Armed(evs, lists[i], timers[i])
              else unarmed == (old(unarmed) - {i}) + Bereft(old(evs), timers, victim)
    {
      hide Core, AllArmed, ListsOk, Shape, WithTimeout, Strays, Full, Victim, InReach, ActiveOk, LostTimers, Bereft;
      CoreMeans();
      TimersDiffer();
      ListFacts(i);
      assert lists[i][0] in lists[i];
      var timer := timers[i];
      NotInHeap(timer);
      StrayIs(timer);
      ghost var e := WithTimeout(evs[timer], evs[lists[i][0]].at, -1);
      ghost var isSet := evs[timer].timeout || |slots| < heapRoom || canReserve;
      WithTimeoutIs(evs[timer], evs[lists[i][0]].at, -1);
      ghost var evs0 := evs;
      if isSet {
        ArmedTimer(evs, lists, timers, |active|, i, e, unarmed);
      } else if evs[timer].active {
        ArmedAnyhow(evs, lists, timers, i, unarmed);
      }
      ghost var lost0, unarmed0 := lost, unarmed;
      ScheduleVictim(timer);
      victim := ScheduleTimer(i, canReserve);
      LostSet(evs0, evs, timers, lost0, lost, unarmed0, i, victim);
      if isSet || evs[timer].active {
        ArmedMore(evs, lists, timers, unarmed - {i}, (unarmed - {i}) + Bereft(evs0, timers, victim));
        unarmed := (unarmed - {i}) + Bereft(evs0, timers, victim);
      } else {
        NoBereft(evs0, timers);
        LostMore(evs, timers, lost, unarmed0 - {i}, unarmed + {i});
        unarmed := unarmed + {i};
      }
    }

    /** What is taken off the heap instead of an event is another one, and none is if the event is not lost. */
    lemma ScheduleVictim(id: Id)
      requires Core() && id in evs
      ensures Victim(Waits(), id) != Some(id) && (id !in lost ==> Victim(Waits(), id) == None && lost - {id} == lost)
    {
      hide Core, Strays;
      StrayIs(id);
      HeapFacts();
    }

    /** The same; the event map knows nothing of timers. */
    method ScheduleMapped(i: int, canReserve: bool)
      requires Core() && 0 <= i < |lists| == |timers| && lists[i] != [] && timers[i] !in lost
      requires Guarded(unarmed + {i}) && MapOk()
      modifies `evs, `heap, `slots, `places, `heapRoom, `lost, `lists, `active, `unarmed, `eventCount, `eventCountActive
      ensures Valid() && lists == old(lists) && lost == old(lost)
      ensures timers[i] in old(evs) && lists[i][0] in old(evs)
      ensures evs == if old(evs)[timers[i]].timeout || |old(slots)| < old(heapRoom) || canReserve then
                       old(evs)[timers[i] := WithTimeout(old(evs)[timers[i]], old(evs)[lists[i][0]].at, -1)]
                     else old(evs)
      ensures var stuck := old(Idle(evs, timers[i])) && |old(slots)| >= old(heapRoom) && !canReserve;
        && unarmed == (if stuck then old(unarmed) + {i} else old(unarmed) - {i})
        && (stuck ==> !Armed(evs, lists[i], timers[i]))
    {
      hide Core, AllArmed, LostTimers, Mapped, WithTimeout, Armed, Idle, Strays;
      ghost var was := evs;
      TimersDiffer();
      StrayIs(timers[i]);
      var victim := Schedule(i, canReserve);
      assert Bereft(was, timers, None) == {};
      assert lost == old(lost);
      MappedTimer(was, evs, timers[i], was[lists[i][0]].at, ios, stale, emap.io);
    }

    lemma CanSetMeans(id: Id, tv: TimeVal, ioTv: TimeVal)
      requires CanSet(id, tv, ioTv)
      ensures id in evs && tv == Stamp(TimeOf(tv), ListOf(tv)) && -1 <= ListOf(tv) < |lists|
    {
    }

    /** Events that wait, put into an empty base. */
    method Fill(evs: Events, durations: seq<TimeVal>, lists: seq<seq<Id>>, timers: seq<Id>, slots: seq<Id>,
                places: map<Id, int>, room: nat, count: int, ghost heap: set<Id>)
      requires lost == {} && npriorities == |active| && inserted == [] && eventCountActive == Total(active)
      requires Shape(evs, |lists|, timers, |active|) && DurationsOk(durations, |lists|)
      requires HeapOk(evs, heap, {}) && ArrayOk(evs, heap, {}, slots, places) && |slots| <= room
      requires ListsOk(evs, lists) && ActiveOk(evs, active) && InsertedOk(evs, []) && count == Memberships(evs)
      modifies `evs, `durations, `lists, `timers, `slots, `places, `heapRoom, `eventCount, `heap
      ensures Core() && this.evs == evs && this.lists == lists && this.timers == timers && this.slots == slots
      ensures heapRoom == room
    {
      hide Shape, HeapOk, ArrayOk, ListsOk, ActiveOk, InsertedOk, Memberships, DurationsOk, Total;
      this.evs, this.durations, this.lists, this.timers := evs, durations, lists, timers;
      this.slots, this.places, this.heapRoom, this.eventCount := slots, places, room, count;
      this.heap := heap;
    }

    lemma MapIs()
      requires emap.Valid() && Mapped(evs, ios, stale, emap.io)
      ensures MapOk()
    {
    }

    lemma NoneLost(but: set<int>)
      requires lost == {}
      ensures Guarded(but) <==> AllArmed(evs, lists, timers, but)
    {
    }

    /** All events stray that are lost, and no others. */
    lemma SitedNow()
      requires Core()
      ensures Sited(Waits(), heap, lost)
    {
      hide Core, Strays;
      HeapFacts();
      forall x | x in evs
        ensures x in places && (Strays(Waits(), x) <==> x in lost)
        ensures Victim(Waits(), x).Some? ==> x in lost && Victim(Waits(), x).value in heap
        ensures x in lost && InReach(Waits(), x) ==> Victim(Waits(), x).Some?
      {
        StrayIs(x);
      }
    }

    /** Setting a timeout. If the event comes first in its list, the timer of the list is still to be set. */
    method JoinQueue(id: Id, tv: TimeVal, ioTv: TimeVal, canReserve: bool) returns (ghost victim: Option<Id>)
      requires Core() && Guarded(unarmed) && id in evs && CanSet(id, tv, ioTv) && id !in timers
      requires (evs[id].timeout || |slots| < heapRoom) && InReach(Waits(), id)
      modifies `evs, `heap, `slots, `places, `heapRoom, `lost, `lists, `active, `unarmed, `eventCount, `eventCountActive
      ensures Core() && |lists| == |old(lists)| == |timers|
      ensures evs == old(evs)[id := WithTimeout(old(evs)[id].(ioTv := ioTv), TimeOf(tv), ListOf(tv))]
      ensures IsReset(spells, old(Waits()), old(heap), old(lost), id, ListOf(tv), old(Full(Waits(), id, canReserve)), victim,
                      heap, lost, slots, places)
      ensures unarmed == old(unarmed) + Bereft(old(evs), timers, victim)
      ensures ListOf(tv) < |lists| && (ListOf(tv) >= 0 ==> heapRoom == old(heapRoom) && lists[ListOf(tv)] != [])
      ensures ListOf(tv) >= 0 ==> (lists[ListOf(tv)][0] == id <==> old(ComesFirst(evs, lists, id, ListOf(tv), TimeOf(tv))))
      ensures Guarded(if ListOf(tv) >= 0 && lists[ListOf(tv)][0] == id then unarmed + {ListOf(tv)} else unarmed)
    {
      hide Core, Without, NoRepeats, IsPlace, AllArmed, ListsOk, Shape, ListsWithout, TimeOf, ListOf, Stamp, IsSet,
           ComesFirst, Armed, InsertedAt, WithTimeout, LinkIndex, Strays, LostTimers, MaySet, IsReset, InReach,
           ActiveOk, Bereft, Full;
      CanSetMeans(id, tv, ioTv);
      ghost var list, at := ListOf(tv), TimeOf(tv);
      ghost var e, evs0, lists0 := WithTimeout(evs[id].(ioTv := ioTv), at, list), evs, lists;
      ghost var w, heap0, lost0, unarmed0, full := Waits(), heap, lost, unarmed, Full(Waits(), id, canReserve);
      CoreMeans();
      TimersDiffer();
      ArmedWithout(evs, lists, timers, |active|, id, e, unarmed);
      ghost var ls := ListsWithout(evs, lists, id);
      ListsWithoutHas(evs, lists, id);
      WithTimeoutIs(evs[id].(ioTv := ioTv), at, list);
      ghost var k;
      k, victim := AddTimeout(id, tv, ioTv, canReserve);
      CoreMeans();
      ResetMeans(spells, w, heap0, lost0, id, list, full, victim, heap, lost, slots, places);
      unarmed := unarmed + Bereft(evs0, timers, victim);
      LostSpread(evs0, evs, timers, lost0, lost, unarmed0, id, victim);
      ArmedMore(evs0[id := e], ls, timers, unarmed0, unarmed);
      assert evs == evs0[id := e] == evs[id := e];
      if list >= 0 {
        PlaceBound(evs, ls[list], at, k, id);
        PlaceFirst(evs0, lists0, id, e, list, k);
        ArmedInsert(evs, ls, timers, |active|, id, e, list, k, unarmed);
        InsertedNotEmpty(ls[list], k, id);
        LostMore(evs, timers, lost, unarmed, unarmed + {list});
      }
    }

    /** Setting a timeout, and common_timeout_schedule if the event comes first in its list. */
    method AddTimeoutArmed(id: Id, tv: TimeVal, ioTv: TimeVal, canReserve: bool)
      returns (ghost victim: Option<Id>, ghost timerVictim: Option<Id>)
      requires Core() && Guarded(unarmed) && id in evs && CanSet(id, tv, ioTv) && id !in timers
      requires (evs[id].timeout || |slots| < heapRoom) && SetInReach(Waits(), timers, id, ListOf(tv), TimeOf(tv))
      modifies `evs, `heap, `slots, `places, `heapRoom, `lost, `lists, `active, `unarmed, `eventCount, `eventCountActive
      ensures Core() && Guarded(unarmed) && |lists| == |old(lists)| == |timers|
      ensures id in evs && evs[id] == WithTimeout(old(evs)[id].(ioTv := ioTv), TimeOf(tv), ListOf(tv))
      ensures OthersKeep(old(evs), evs, id, ListOf(tv), timers)
      ensures IsTimeSet(spells, timers, old(Waits()), old(lost), old(unarmed), Waits(), lost, unarmed, id, ListOf(tv),
                        TimeOf(tv), old(Full(Waits(), id, canReserve)), victim, timerVictim)
    {
      hide Core, AllArmed, ListsOk, Shape, TimeOf, ListOf, Stamp, ComesFirst, Armed, WithTimeout, IsCommon, IndexOf,
           Strays, LostTimers, MaySet, IsReset, IsTimeSet, Sited, IsTimerVictim, ActiveOk, Bereft, OthersKeep, Victim;
      CanSetMeans(id, tv, ioTv);
      ghost var list, at := ListOf(tv), TimeOf(tv);
      ghost var e, evs0 := WithTimeout(evs[id].(ioTv := ioTv), at, list), evs;
      ghost var w, heap0, lost0, unarmed0, full := Waits(), heap, lost, unarmed, Full(Waits(), id, canReserve);
      CoreMeans();
      TimersDiffer();
      StampReads(at, list, |lists|);
      WithTimeoutIs(evs[id].(ioTv := ioTv), at, list);
      SitedNow();
      victim := JoinQueue(id, tv, ioTv, canReserve);
      timerVictim := None;
      ghost var w1, heap1, lost1 := Waits(), heap, lost;
      ResetMeans(spells, w, heap0, lost0, id, list, full, victim, heap, lost, slots, places);
      if IsCommon(tv, |lists|) && lists[IndexOf(tv)][0] == id {
        var i := IndexOf(tv);
        SitedNow();
        ReachMeans(w, timers, id, list, at);
        TimerVictimIs(w, heap0, lost0, w1, heap1, lost1, id, timers[i]);
        SameBereft(evs0, evs, timers, id, Victim(w1, timers[i]));
        timerVictim := Schedule(i, canReserve);
        TimeSetFirst(spells, timers, w, heap0, lost0, unarmed0, w1, heap1, lost1, Waits(), lost, unarmed, id, list, at,
                     full, victim, timerVictim);
      } else {
        TimeSetAlone(spells, timers, w, heap0, lost0, unarmed0, w1, heap1, lost1, id, list, at, full, victim);
      }
      ScheduledKeeps(evs0, id, e, evs, list, timers);
    }

    /** The event map does not take an event: there is no memory for a slot, too many events have the descriptor, or
        the back end cannot hear of it. */
    ghost predicate MapRefuses(id: Id, m: Memory)
      requires id in ios
      reads `ios, emap, emap.kernel
    {
      var ev := ios[id];
      var op := EventMap.FdOp.Attach(ev.read, ev.write);
      && ev.fd >= 0
      && ((ev.fd !in emap.io && !m.slot) || !EventMap.Allowed(emap.View(ev.fd), op)
          || EventMap.Unheard(emap.usesChangelist, ev.fd, emap.View(ev.fd), emap.kernel.regs, op, id in m.heard))
    }

    /** The event map does not let an event go: the back end cannot hear of it. */
    ghost predicate MapKeeps(id: Id, heard: bool)
      requires id in ios
      reads `ios, emap, emap.kernel
    {
      var ev := ios[id];
      && ev.fd >= 0
      && EventMap.Unheard(emap.usesChangelist, ev.fd, emap.View(ev.fd), emap.kernel.regs,
                          EventMap.Detach(ev.read, ev.write), heard)
    }

    lemma MapHas(id: Id)
      requires MapOk() && id in evs
      ensures evs[id].io <==> id in ios
      ensures evs[id].inserted ==> evs[id].io
      ensures id in stale ==> id in ios && ios[id].fd >= 0 && !evs[id].inserted
      ensures id in ios ==> var ev := ios[id];
                && (ev.read || ev.write)
                && (ev.fd >= 0 ==> (ev in emap.Events(ev.fd) <==> evs[id].inserted || id in stale))
                && (ev.fd < 0 ==> ev !in emap.Events(ev.fd))
                && NoRepeats(emap.Events(ev.fd))
    {
      if id in ios && ios[id].fd in emap.io {
        EventMap.SlotCounted(emap.io, emap.changes, ios[id].fd);
      }
      assert id in ios ==> emap.Events(ios[id].fd) == ListedAt(emap.io, ios[id].fd);
    }

    /** An empty map takes an event that the back end can hear of. */
    lemma TakesFirst(id: Id)
      requires emap.io == map[] && id in ios
      ensures forall m: Memory :: m.slot && id in m.heard ==> !MapRefuses(id, m)
    {
    }

    lemma AloneOnList(id: Id)
      requires Valid() && ios.Keys == {id} && id in evs && (evs[id].inserted || id in stale) && ios[id].fd >= 0
      ensures emap.Events(ios[id].fd) == [ios[id]]
    {
      hide Core, AllArmed;
      MapHas(id);
      var fd := ios[id].fd;
      var listed := emap.Events(fd);
      assert listed == ListedAt(emap.io, fd);
      forall k | 0 <= k < |listed|
        ensures listed[k] == ios[id]
      {
        assert listed[k] in ListedAt(emap.io, fd);
        assert listed[k] in ios.Values;
        var a :| a in ios && ios[a] == listed[k];
        assert a in ios.Keys;
      }
      AllEqual(listed, ios[id]);
    }

    /** The last event of a descriptor is kept if there is no memory to note its going. */
    lemma LastIsKept(id: Id)
      requires Valid() && id in ios && emap.usesChangelist && emap.changes == []
      requires ios[id].fd >= 0 && (ios[id].read || ios[id].write) && emap.Events(ios[id].fd) == [ios[id]]
      ensures MapKeeps(id, false)
    {
      hide Core, AllArmed, Mapped;
      var ev := ios[id];
      EventMap.SlotCounted(emap.io, emap.changes, ev.fd);
      assert [ev][..0] == [];
      assert EventMap.Readers([ev]) == EventMap.One(ev.read) && EventMap.Writers([ev]) == EventMap.One(ev.write);
      EventMap.NothingPending(emap.io, ev.fd);
    }

    /** An event of a descriptor that has no others is taken once more, since that turns no side on. */
    lemma TakesStale(id: Id)
      requires Valid() && id in stale && id in ios && emap.Events(ios[id].fd) == [ios[id]]
      ensures forall m :: !MapRefuses(id, m)
    {
      hide Core, Guarded;
      var ev := ios[id];
      MapHas(id);
      EventMap.SlotCounted(emap.io, emap.changes, ev.fd);
      assert [ev][..0] == [];
      assert EventMap.Readers([ev]) == EventMap.One(ev.read) && EventMap.Writers([ev]) == EventMap.One(ev.write);
    }

    lemma NotMapped(id: Id)
      requires MapOk() && id !in evs
      ensures id !in ios
    {
    }

    /** The event map takes event `id`, which becomes inserted, or it does not. If a failed deletion has left the event
        on the list of its descriptor, that list is spoilt. */
    method Attach(id: Id, m: Memory) returns (res: int, twice: bool)
      requires Core() && MapOk() && id in evs && evs[id].io && !evs[id].inserted && id in ios
      modifies `evs, `inserted, `eventCount, emap, emap.kernel
      ensures Core() && res == if old(MapRefuses(id, m)) then -1 else 0
      ensures evs == if res == 0 then old(evs)[id := old(evs)[id].(inserted := true)] else old(evs)
      ensures (twice <==> res == 0 && id in stale) && if twice then !emap.Valid() else MapOk()
    {
      hide Core, Mapped, MapRefuses, EventMap.EventBase.Valid;
      var r;
      r, twice := MapAdd(id, m);
      if r == -1 {
        return -1, false;
      }
      InsertInserted(id);
      res := 0;
    }

    method MapAdd(id: Id, m: Memory) returns (r: int, twice: bool)
      requires MapOk() && id in evs && evs[id].io && !evs[id].inserted && id in ios
      modifies emap, emap.kernel
      ensures r == -1 <==> old(MapRefuses(id, m))
      ensures twice <==> r != -1 && id in stale
      ensures if twice then !emap.Valid()
              else
                emap.Valid()
                && Mapped(if r == -1 then evs else evs[id := evs[id].(inserted := true)], ios, stale, emap.io)
    {
      hide EventMap.EventBase.View, NoRepeats, EventMap.Unheard, EventMap.Allowed, EventMap.Step,
           Mapped, EventMap.GoodSlots, EventMap.Synced, EventMap.ViewOf, EventMap.Linked, EventMap.EventBase.Valid;
      var ev := ios[id];
      ghost var io0 := emap.io;
      MapHas(id);
      r, twice := emap.IoAdd(ev.fd, ev, m.slot, id in m.heard);
      forall g | g != ev.fd || r == -1 || g < 0
        ensures ListedAt(emap.io, g) == ListedAt(io0, g)
      {
        assert emap.Events(g) == old(emap.Events(g));
      }
      if r == -1 {
        MappedSame(evs, ios, stale, io0, emap.io);
      } else if !twice {
        if ev.fd >= 0 {
          EventMap.LinkedNew(old(emap.Events(ev.fd)), ev);
          assert emap.Events(ev.fd) == old(emap.Events(ev.fd)) + [ev];
        }
        MappedInsert(evs, ios, stale, io0, emap.io, id, evs[id].(inserted := true));
      }
    }

    /** event_add_internal cannot add the event: the array of the heap is full and cannot grow, or the event map does
        not take it. */
    ghost predicate AddFails(id: Id, hasTime: bool, m: Memory)
      requires id in evs && (evs[id].io ==> id in ios)
      reads `evs, `slots, `heapRoom, `ios, emap, emap.kernel
    {
      || (hasTime && !evs[id].timeout && |slots| >= heapRoom && !m.reserve)
      || (evs[id].io && !evs[id].inserted && !evs[id].active && MapRefuses(id, m))
    }

    /** A time that may be given to an event: an interval or, if `absolute`, a time with the tag of the event's list. */
    predicate CanAdd(id: Id, tv: Option<TimeVal>, absolute: bool)
      reads `evs, `lists, `timers
    {
      MayAdd(evs, |lists|, timers, id, tv, absolute)
    }

    /** The new time comes first in a list whose timer the heap has lost. */
    ghost predicate SetsLostTimer(id: Id, list: int, at: int)
      requires id in evs
      reads `evs, `lists, `timers, `lost
    {
      0 <= list < |lists| == |timers| && ComesFirst(evs, lists, id, list, at) && timers[list] in lost
    }

    /** event_add_internal, for events that are not internal timers. A timeout is an interval or, if `absolute`, a
        time, with the tag of a common timeout or none. It fails exactly as AddFails says, and then nothing has
        changed. If an event that waits in a list is moved while the array of the heap is full and cannot grow, it
        is lost to the heap, or its new list is left with an idle timer, and nobody is told. If the event was lost, or
        the timer that is set was, another is taken off the heap: exactly then. */
    method EventAdd(id: Id, tv: Option<TimeVal>, absolute: bool, now: int, m: Memory)
      returns (res: int, harm: Harm, ghost victim: Option<Id>, ghost timerVictim: Option<Id>)
      requires Valid() && id in evs && CanAdd(id, tv, absolute) && id !in timers
      modifies `evs, `heap, `slots, `places, `heapRoom, `lost, `lists, `active, `inserted, `unarmed, `eventCount,
               `eventCountActive, emap, emap.kernel
      ensures id in old(evs) && (old(evs)[id].io ==> id in ios)
      ensures res == if old(AddFails(id, tv.Some?, m)) then -1 else 0
      ensures harm == if res == 0 && tv.Some?
                         && !old(SetInReach(Waits(), timers, id, ListOf(tv.value), DueAt(tv.value, absolute, now))) then Wild
                      else if res == 0 && id in stale && !old(evs)[id].active then Tangled
                      else NoHarm
      ensures res == -1 ==> evs == old(evs)
      ensures res == -1 || tv == None ==> lost == old(lost) && unarmed == old(unarmed)
      ensures harm != Wild ==>
                && Core() && Guarded(unarmed) && (Valid() <==> harm == NoHarm) && |lists| == |old(lists)| == |timers|
                && id in evs && evs[id] == (if res == 0 then Added(old(evs)[id], tv, absolute, now) else old(evs)[id])
                && OthersKeep(old(evs), evs, id, if res == 0 && tv.Some? then ListOf(tv.value) else -1, timers)
      ensures res == 0 && tv.Some? && harm != Wild ==>
                && IsTimeSet(spells, timers, old(Waits()), old(lost), old(unarmed), Waits(), lost, unarmed, id,
                             ListOf(tv.value), DueAt(tv.value, absolute, now),
                             old(evs[id].timeout && Full(Waits(), id, m.reserve)), victim, timerVictim)
                && (victim == None && timerVictim == None <==>
                    id !in old(lost) && !old(SetsLostTimer(id, ListOf(tv.value), DueAt(tv.value, absolute, now))))
    {
      hide Valid, Core, MapOk, Guarded, WithTimeout, ComesFirst, MapRefuses, OthersKeep, Armed, TimeOf, ListOf,
           IsInterval, Stamp, IsSet, IsTimeSet, ListsOk, Shape, WithInterval, Added, SetInReach, DueAt, ActiveOk,
           Sited, EventMap.EventBase.Valid, MayAdd, MaySet, Strays;
      ValidParts();
      CoreMeans();
      TimersDiffer();
      MapHas(id);
      RoomIs();
      SitedNow();
      victim, timerVictim := None, None;
      ghost var w, lost0 := Waits(), lost;
      if tv.Some? && !evs[id].timeout {
        var ok := Reserve(1 + |slots|, m.reserve);
        if !ok {
          assert evs[id := evs[id]] == evs;
          OnlyKeeps(evs, id, evs[id], timers);
          AreValid();
          return -1, NoHarm, None, None;
        }
      }
      ghost var room := heapRoom;
      if tv.Some? {
        ReachBefore(timers, w, room, evs[id], id, ListOf(tv.value), DueAt(tv.value, absolute, now));
        assert w.(evs := w.evs[id := evs[id]], room := room) == Waits();
        if !evs[id].timeout {
          NotFull(Waits(), id, m.reserve);
        }
      }
      var twice, wild;
      res, twice, wild, victim, timerVictim := AddReserved(id, tv, absolute, now, m);
      harm := if wild then Wild else if twice then Tangled else NoHarm;
      if res == 0 && tv.Some? && harm != Wild {
        TimeSetBefore(spells, timers, w, room, w.evs[id], lost0, old(unarmed), Waits(), lost, unarmed, id, ListOf(tv.value),
                      DueAt(tv.value, absolute, now), w.evs[id].timeout && Full(w, id, m.reserve), victim, timerVictim);
        VictimsNeed(spells, timers, w, old(heap), lost0, old(unarmed), Waits(), lost, unarmed, id, ListOf(tv.value),
                    DueAt(tv.value, absolute, now), w.evs[id].timeout && Full(w, id, m.reserve), victim, timerVictim);
      }
      if harm != Wild {
        ValidIs();
      }
    }

    /** event_add_internal, once there is room for an event that does not wait yet. */
    method AddReserved(id: Id, tv: Option<TimeVal>, absolute: bool, now: int, m: Memory)
      returns (res: int, twice: bool, wild: bool, ghost victim: Option<Id>, ghost timerVictim: Option<Id>)
      requires Core() && Guarded(unarmed) && MapOk() && id in evs && CanAdd(id, tv, absolute) && id !in timers
      requires tv.Some? && !evs[id].timeout ==> |slots| < heapRoom
      modifies `evs, `heap, `slots, `places, `heapRoom, `lost, `lists, `active, `inserted, `unarmed, `eventCount,
               `eventCountActive, emap, emap.kernel
      ensures id in old(evs) && (old(evs)[id].io ==> id in ios)
      ensures var e := old(evs)[id];
              res == if e.io && !e.inserted && !e.active && old(MapRefuses(id, m)) then -1 else 0
      ensures twice <==> res == 0 && id in stale && !old(evs)[id].active
      ensures wild <==> res == 0 && tv.Some?
                        && !old(SetInReach(Waits(), timers, id, ListOf(tv.value), DueAt(tv.value, absolute, now)))
      ensures !wild ==>
                && Core() && Guarded(unarmed) && |lists| == |old(lists)| == |timers|
                && if twice then !emap.Valid() else MapOk()
      ensures res == -1 ==> evs == old(evs)
      ensures res == -1 || tv == None ==> lost == old(lost) && unarmed == old(unarmed)
      ensures !wild ==>
                && id in evs && evs[id] == (if res == 0 then Added(old(evs)[id], tv, absolute, now) else old(evs)[id])
                && OthersKeep(old(evs), evs, id, if res == 0 && tv.Some? then ListOf(tv.value) else -1, timers)
                && (res == 0 && tv.Some? ==>
                      IsTimeSet(spells, timers, old(Waits()), old(lost), old(unarmed), Waits(), lost, unarmed, id,
                                ListOf(tv.value), DueAt(tv.value, absolute, now), old(Full(Waits(), id, m.reserve)), victim,
                                timerVictim))
    {
      hide Core, MapOk, Guarded, WithTimeout, ComesFirst, MapRefuses, OthersKeep, Armed, IsInterval, Stamp, IsSet,
           IsTimeSet, ListsOk, Shape, WithInterval, Added, SetInReach, DueAt, ActiveOk, Full, MayAdd, TimeOf, ListOf,
           EventMap.EventBase.Valid;
      CoreMeans();
      TimersDiffer();
      ghost var evs0, w := evs, Waits();
      victim, timerVictim, wild := None, None, false;
      res, twice := AddIo(id, m);
      ghost var e := evs[id];
      assert evs == evs0[id := e];
      OnlyKeeps(evs0, id, e, timers);
      AddedNone(evs0[id], absolute, now);
      if res != -1 && tv.Some? {
        MayAddStill(evs0, |lists|, timers, id, e, tv, absolute);
        assert w.(evs := w.evs[id := e]) == Waits();
        wild, victim, timerVictim := AddInReach(id, tv.value, absolute, now, m.reserve, w);
        AddedIs(evs0[id], tv.value, absolute, now);
      }
    }

    lemma ValidParts()
      requires Valid()
      ensures Core() && Guarded(unarmed) && MapOk()
    {
    }

    lemma AreValid()
      requires Core() && Guarded(unarmed) && MapOk()
      ensures Valid()
    {
    }

    lemma ValidIs()
      requires Core() && Guarded(unarmed)
      ensures Valid() <==> MapOk()
      ensures !emap.Valid() ==> !MapOk()
    {
    }

    /** The part of event_add_internal that sets a descriptor's event in the event map. */
    method AddIo(id: Id, m: Memory) returns (res: int, twice: bool)
      requires Core() && Guarded(unarmed) && MapOk() && id in evs && id !in timers
      modifies `evs, `inserted, `eventCount, emap, emap.kernel
      ensures Core() && Guarded(unarmed)
      ensures id in old(evs) && (old(evs)[id].io ==> id in ios)
      ensures var e := old(evs)[id];
        && res == (if e.io && !e.inserted && !e.active && old(MapRefuses(id, m)) then -1 else 0)
        && evs == old(evs)[id := if res == 0 && e.io && !e.active then e.(inserted := true) else e]
        && (twice <==> res == 0 && id in stale && !e.active) && if twice then !emap.Valid() else MapOk()
    {
      hide Core, AllArmed, LostTimers, MapOk, MapRefuses, Shape, ListsOk;
      MapHas(id);
      CoreMeans();
      TimersDiffer();
      res, twice := 0, false;
      if evs[id].io && !(evs[id].inserted || evs[id].active) {
        ArmedFlags(evs, lists, timers, |active|, id, evs[id].(inserted := true), unarmed);
        LostSame(evs, evs[id := evs[id].(inserted := true)], timers, lost, unarmed, id);
        res, twice := Attach(id, m);
      }
      assert evs == old(evs)[id := evs[id]];
    }

    /** The part of event_add_internal for timeouts, if that does not look for an event outside the heap; `w` is what
        there was at the start. */
    method AddInReach(id: Id, tv: TimeVal, absolute: bool, now: int, canReserve: bool, ghost w: Waiting)
      returns (wild: bool, ghost victim: Option<Id>, ghost timerVictim: Option<Id>)
      requires Core() && Guarded(unarmed) && CanAdd(id, Some(tv), absolute) && id !in timers
      requires evs[id].timeout || |slots| < heapRoom
      requires id in w.evs && Waits() == w.(evs := w.evs[id := evs[id]]) && ListsOk(w.evs, w.lists)
      requires evs[id].timeout == w.evs[id].timeout && evs[id].list == w.evs[id].list && evs[id].pri == w.evs[id].pri
      requires evs[id].active ==> w.evs[id].active
      modifies `evs, `heap, `slots, `places, `heapRoom, `lost, `lists, `active, `unarmed, `eventCount, `eventCountActive
      ensures wild <==> !SetInReach(w, timers, id, ListOf(tv), DueAt(tv, absolute, now))
      ensures !wild ==>
                && Core() && Guarded(unarmed) && (old(MapOk()) ==> MapOk()) && |lists| == |w.lists| == |timers|
                && id in evs && evs[id] == WithInterval(old(evs)[id], tv, absolute, now)
                && OthersKeep(w.evs, evs, id, ListOf(tv), timers)
                && IsTimeSet(spells, timers, w, old(lost), old(unarmed), Waits(), lost, unarmed, id, ListOf(tv),
                             DueAt(tv, absolute, now), Full(w, id, canReserve), victim, timerVictim)
    {
      hide Core, Guarded, MapOk, SetInReach, OthersKeep, IsTimeSet, MayAdd, TimeOf, ListOf, Full, DueAt, ListsOk,
           Shape, ActiveOk;
      CoreMeans();
      TimersDiffer();
      ghost var e, list, at, lost0, unarmed0 := evs[id], ListOf(tv), DueAt(tv, absolute, now), lost, unarmed;
      assert w.(evs := w.evs[id := e], room := w.room) == Waits();
      ReachBefore(timers, w, w.room, e, id, list, at);
      wild := !SetInReach(Waits(), timers, id, ListOf(tv), DueAt(tv, absolute, now));
      victim, timerVictim := None, None;
      if !wild {
        assert forall i :: 0 <= i < |timers| ==> timers[i] in w.evs;
        victim, timerVictim := AddInterval(id, tv, absolute, now, canReserve);
        FromStart(spells, timers, w, e, lost0, unarmed0, Waits(), lost, unarmed, id, list, at, canReserve, victim,
                  timerVictim);
      }
    }

    /** The part of event_add_internal for timeouts. */
    method AddInterval(id: Id, tv: TimeVal, absolute: bool, now: int, canReserve: bool)
      returns (ghost victim: Option<Id>, ghost timerVictim: Option<Id>)
      requires Core() && Guarded(unarmed) && CanAdd(id, Some(tv), absolute) && id !in timers
      requires evs[id].timeout || |slots| < heapRoom
      requires SetInReach(Waits(), timers, id, ListOf(tv), DueAt(tv, absolute, now))
      modifies `evs, `heap, `slots, `places, `heapRoom, `lost, `lists, `active, `unarmed, `eventCount, `eventCountActive
      ensures Core() && Guarded(unarmed) && (old(MapOk()) ==> MapOk()) && |lists| == |old(lists)| == |timers|
      ensures id in old(evs) && id in evs && evs[id] == WithInterval(old(evs)[id], tv, absolute, now)
      ensures OthersKeep(old(evs), evs, id, ListOf(tv), timers)
      ensures IsTimeSet(spells, timers, old(Waits()), old(lost), old(unarmed), Waits(), lost, unarmed, id, ListOf(tv),
                        DueAt(tv, absolute, now), old(Full(Waits(), id, canReserve)), victim, timerVictim)
    {
      hide Core, Guarded, ComesFirst, OthersKeep, Armed, TimeOf, ListOf, IsInterval, Stamp, IsSet, Shape, ListsOk,
           Mapped, NextTimeout, IsTimeSet, SetInReach, ActiveOk, Full;
      CoreMeans();
      TagIs(id);
      var ioTv := if evs[id].persist && !absolute then tv else evs[id].ioTv;
      var next := NextTimeout(tv, absolute, Stamp(now, -1), |lists|);
      NextIs(tv, absolute, now, |lists|);
      ghost var was := evs;
      victim, timerVictim := AddTimeoutArmed(id, next, ioTv, canReserve);
      if old(MapOk()) {
        OthersMapped(was, evs, id, ListOf(tv), timers, ios, stale, emap.io);
      }
    }

    lemma NextIs(tv: TimeVal, absolute: bool, now: int, n: nat)
      requires IsInterval(tv, n) && n <= MAX_COMMON_TIMEOUTS && (absolute ==> tv == Stamp(TimeOf(tv), ListOf(tv)))
      ensures var next, at := NextTimeout(tv, absolute, Stamp(now, -1), n), DueAt(tv, absolute, now);
              next == Stamp(at, ListOf(tv)) && TimeOf(next) == at && -1 <= ListOf(next) == ListOf(tv) < n
    {
      hide TimeOf, ListOf, Stamp, TimerAdd, Masked, TagBits, IsCommon;
      NextIsStamp(tv, now, n);
      StampReads(DueAt(tv, absolute, now), ListOf(tv), n);
    }

    /** The event map lets event `id` go, which has just been taken off the inserted events, or it does not. */
    method Detach(id: Id, heard: bool) returns (res: int)
      requires Core() && MapOk() && id in evs && evs[id].inserted && id in ios
      modifies `evs, `inserted, `eventCount, `stale, emap, emap.kernel
      ensures Core() && MapOk()
      ensures res == if old(MapKeeps(id, heard)) then -1 else 0
      ensures stale == if res == -1 then old(stale) + {id} else old(stale)
      ensures evs == old(evs)[id := old(evs)[id].(inserted := false)]
    {
      hide Core, NoRepeats, EventMap.Unheard, EventMap.Allowed, EventMap.Step, EventMap.Turned, Mapped,
           EventMap.GoodSlots, EventMap.Synced, EventMap.ViewOf, Without;
      var ev := ios[id];
      ghost var io0, e := emap.io, evs[id].(inserted := false);
      MapHas(id);
      assert emap.Events(ev.fd) == ListedAt(io0, ev.fd);
      ghost var evs0 := evs;
      RemoveInserted(id);
      var r := emap.IoDel(ev.fd, ev, heard);
      forall g | g != ev.fd || r == -1 || g < 0
        ensures ListedAt(emap.io, g) == ListedAt(io0, g)
      {
        assert emap.Events(g) == old(emap.Events(g));
      }
      if r == -1 {
        MappedStale(evs0, ios, stale, io0, emap.io, id, e);
        stale := stale + {id};
        return -1;
      }
      assert ev.fd >= 0 ==> emap.Events(ev.fd) == Without(old(emap.Events(ev.fd)), ev);
      MappedRemove(evs0, ios, stale, io0, emap.io, id, e);
      res := 0;
    }

    /** The part of the back end's dispatch that applies the noted changes. */
    method Dispatch(refused: set<int>)
      requires Valid()
      modifies emap, emap.kernel
      ensures Valid() && emap.changes == []
      ensures forall fd :: emap.View(fd) == EventMap.Dispatched(old(emap.View(fd)), fd in refused)
                           && emap.Events(fd) == old(emap.Events(fd))
    {
      hide Core, Guarded, Mapped, EventMap.GoodSlots, EventMap.Synced, EventMap.ViewOf, EventMap.Dispatched;
      ghost var io0 := emap.io;
      emap.Dispatch(refused);
      forall g
        ensures ListedAt(emap.io, g) == ListedAt(io0, g)
      {
        assert emap.Events(g) == old(emap.Events(g));
      }
      MappedSame(evs, ios, stale, io0, emap.io);
    }

    /** The queues of event_del_internal, and the event map. */
    method Unqueue(id: Id, heard: bool) returns (res: int, ghost victim: Option<Id>)
      requires Core() && MapOk() && id in evs && InReach(Waits(), id)
      modifies `evs, `heap, `slots, `places, `lost, `lists, `active, `inserted, `stale, `eventCount, `eventCountActive
      modifies emap, emap.kernel
      ensures Core() && MapOk() && evs == old(evs)[id := Deleted(old(evs)[id])]
      ensures lists == ListsWithout(old(evs), old(lists), id)
      ensures active == if old(evs)[id].active then
                          old(active)[evs[id].pri := Without(old(active)[evs[id].pri], id)]
                        else old(active)
      ensures IsCleared(spells, old(Waits()), old(heap), old(lost), id, victim, heap, lost, slots, places)
      ensures old(evs)[id].inserted ==> id in ios
      ensures res == if old(evs)[id].inserted && old(MapKeeps(id, heard)) then -1 else 0
      ensures stale == if res == -1 then old(stale) + {id} else old(stale)
    {
      hide Core, Without, NoRepeats, Mapped, MapKeeps, IsCleared, Strays, InReach, ListsWithout;
      PriorityOk(id);
      MapHas(id);
      ghost var evs0 := evs;
      victim := Dismiss(id);
      MappedFlags(evs0, ios, stale, emap.io, id, evs[id]);
      res := 0;
      if evs[id].inserted {
        res := Detach(id, heard);
      }
      assert evs[id] == Deleted(evs0[id]);
      assert evs == evs0[id := evs[id]];
    }

    /** The event leaves the queues of timeouts and of active events. */
    method Dismiss(id: Id) returns (ghost victim: Option<Id>)
      requires Core() && id in evs && InReach(Waits(), id)
      modifies `evs, `heap, `slots, `places, `lost, `lists, `active, `eventCount, `eventCountActive
      ensures Core() && evs == old(evs)[id := old(evs)[id].(timeout := false, active := false)]
      ensures lists == ListsWithout(old(evs), old(lists), id) && |active| == |old(active)| && evs[id].pri < |active|
      ensures active == if old(evs)[id].active then
                          old(active)[evs[id].pri := Without(old(active)[evs[id].pri], id)]
                        else old(active)
      ensures IsCleared(spells, old(Waits()), old(heap), old(lost), id, victim, heap, lost, slots, places)
    {
      hide Core, Without, NoRepeats, IsCleared, Strays, InReach, ListsWithout;
      PriorityOk(id);
      victim := None;
      if evs[id].timeout {
        victim := RemoveTimeout(id);
      } else {
        NotWaiting(id);
      }
      if evs[id].active {
        RemoveActive(id);
      }
      assert evs == old(evs)[id := evs[id]];
    }

    lemma PriorityOk(id: Id)
      requires Core() && id in evs
      ensures evs[id].pri < |active|
    {
    }

    /** event_del_internal, for events that are not internal timers. If the event map does not let the event go, it
        stays on the list of its descriptor, although it is no longer marked as inserted. If the event was lost to the
        heap, another one is now: exactly then, and if that is the timer of a list and not active, the list has no
        armed timer any longer. */
    method EventDel(id: Id, heard: bool) returns (res: int, ghost victim: Option<Id>)
      requires Valid() && id in evs && id !in timers && InReach(Waits(), id)
      modifies `evs, `heap, `slots, `places, `lost, `lists, `active, `inserted, `stale, `unarmed, `eventCount
      modifies `eventCountActive, emap, emap.kernel
      ensures Valid() && evs == old(evs)[id := Deleted(old(evs)[id])] && |lists| == |old(lists)|
      ensures active == if old(evs)[id].active then
                          old(active)[evs[id].pri := Without(old(active)[evs[id].pri], id)]
                        else old(active)
      ensures victim == old(Victim(Waits(), id)) && (victim.Some? <==> id in old(lost))
      ensures heap == Less(old(heap) - {id}, victim) && lost == With(old(lost) - {id}, victim)
      ensures unarmed == old(unarmed) + Bereft(old(evs), timers, victim)
      ensures lost <= old(lost) <==> id !in old(lost)
      ensures old(evs)[id].inserted ==> id in ios
      ensures res == if old(evs)[id].inserted && old(MapKeeps(id, heard)) then -1 else 0
      ensures stale == if res == -1 then old(stale) + {id} else old(stale)
      ensures res == -1 ==> !evs[id].inserted && ios[id] in emap.Events(ios[id].fd)
    {
      hide Core, Without, NoRepeats, AllArmed, LostTimers, ListsOk, Shape, ListsWithout, MapOk, MapKeeps, Deleted,
           Strays, Victim, LinkIndex, Bereft, ActiveOk;
      CoreMeans();
      TimersDiffer();
      ArmedWithout(evs, lists, timers, |active|, id, Deleted(evs[id]), unarmed);
      ListsWithoutSize(evs, lists, id);
      PriorityOk(id);
      VictimIs(id);
      ghost var evs0, lost0, unarmed0 := evs, lost, unarmed;
      res, victim := Unqueue(id, heard);
      LostSpread(evs0, evs, timers, lost0, lost, unarmed0, id, victim);
      ArmedMore(evs, lists, timers, unarmed0, unarmed0 + Bereft(evs0, timers, victim));
      unarmed := unarmed + Bereft(evs0, timers, victim);
      MapHas(id);
      DeletedIs(old(evs)[id]);
    }

    lemma FirstVictim(id: Id)
      requires Core() && id in lost && id in places && places[id] == 0 && slots != [] && slots[0] != id
      ensures InReach(Waits(), id) && Victim(Waits(), id) == Some(slots[0])
    {
      hide Core;
      HeapMeans();
      StrayIs(id);
    }

    lemma VictimIs(id: Id)
      requires Core() && id in evs && InReach(Waits(), id)
      ensures Victim(Waits(), id).Some? <==> id in lost
      ensures Victim(Waits(), id).Some? ==> Victim(Waits(), id).value in heap && Victim(Waits(), id).value !in lost
      ensures Victim(Waits(), id) != Some(id)
    {
      hide Core, Strays;
      StrayIs(id);
      HeapFacts();
    }

    lemma DeletedIs(e: Ev)
      ensures !Deleted(e).inserted && !Deleted(e).timeout && !Deleted(e).active && Deleted(e).pri == e.pri
    {
    }

    /** event_active_nolock. An event more urgent than those that are being processed stops that. */
    method EventActive(id: Id, byTimeout: bool)
      requires Core() && id in evs
      modifies `evs, `active, `eventCount, `eventCountActive, `eventContinue
      ensures Core() && evs == old(evs)[id := Active(old(evs)[id], byTimeout)]
      ensures active == if old(evs)[id].active then old(active)
                        else old(active)[evs[id].pri := old(active)[evs[id].pri] + [id]]
      ensures eventContinue == (old(eventContinue) || (!old(evs)[id].active && evs[id].pri < runningPriority))
    {
      hide Core, Active;
      PriorityOk(id);
      ActiveIs(evs[id], byTimeout);
      ghost var evs0 := evs;
      if evs[id].active {
        SetByTimeout(id, evs[id].byTimeout || byTimeout);
        return;
      }
      SetByTimeout(id, byTimeout);
      if evs[id].pri < runningPriority {
        eventContinue := true;
      }
      InsertActive(id);
      assert evs[id] == Active(evs0[id], byTimeout);
    }

    lemma ActiveIs(e: Ev, byTimeout: bool)
      ensures var a := Active(e, byTimeout);
        && a.pri == e.pri && a.io == e.io && a.inserted == e.inserted
        && a == if e.active then e.(byTimeout := e.byTimeout || byTimeout) else e.(byTimeout := byTimeout).(active := true)
    {
    }

    /** The EV_TIMEOUT bit of ev_res. */
    method SetByTimeout(id: Id, b: bool)
      requires Core() && id in evs
      modifies `evs
      ensures Core() && evs == old(evs)[id := old(evs)[id].(byTimeout := b)]
    {
      hide HeapOk, ArrayOk, ListsOk, ActiveOk, InsertedOk, Memberships, Total, Without, NoRepeats, Shape, DurationsOk;
      ghost var e := evs[id].(byTimeout := b);
      Updates(id, e);
      ListsKeep(evs, lists, id, e);
      HeapSame(id, e);
      evs := evs[id := evs[id].(byTimeout := b)];
    }

    /** event_active. */
    method Activate(id: Id)
      requires Valid() && id in evs
      modifies `evs, `active, `eventCount, `eventCountActive, `eventContinue
      ensures Valid() && evs == old(evs)[id := Active(old(evs)[id], false)]
      ensures active == if old(evs)[id].active then old(active)
                        else old(active)[evs[id].pri := old(active)[evs[id].pri] + [id]]
      ensures eventContinue == (old(eventContinue) || (!old(evs)[id].active && evs[id].pri < runningPriority))
    {
      hide Core, AllArmed, LostTimers, ListsOk, Shape, Mapped;
      CoreMeans();
      PriorityOk(id);
      LostFire(evs, Active(evs[id], false), timers, lost, unarmed, id);
      ArmedActive(evs, lists, timers, |active|, id, false, unarmed);
      MappedFlags(evs, ios, stale, emap.io, id, Active(evs[id], false));
      EventActive(id, false);
    }

    /** event_del_internal followed by event_active_nolock, for an event whose time has come. */
    method Fire(id: Id, heard: bool, ghost but: set<int>)
      requires Core() && MapOk() && Guarded(but) && id in evs && id !in lost
      modifies `evs, `heap, `slots, `places, `lost, `lists, `active, `inserted, `stale, `eventCount
      modifies `eventCountActive, `eventContinue
      modifies emap, emap.kernel
      ensures Core() && MapOk() && Guarded(but) && |lists| == |old(lists)|
      ensures evs == old(evs)[id := Active(Deleted(old(evs)[id]), true)]
      ensures lists == ListsWithout(old(evs), old(lists), id)
      ensures heap == old(heap) - {id} && lost == old(lost)
      ensures !old(Heaped(Waits(), id)) ==> slots == old(slots)
      ensures old(evs)[id].inserted ==> id in ios
      ensures stale == if old(evs)[id].inserted && old(MapKeeps(id, heard)) then old(stale) + {id} else old(stale)
      ensures runningPriority <= 0 ==> eventContinue == old(eventContinue)
    {
      hide Deleted, HeapOk, Core, Without, NoRepeats, AllArmed, LostTimers, ListsOk, Shape, ListsWithout, Mapped,
           MapKeeps, Strays, LinkIndex, ActiveOk;
      CoreMeans();
      ArmedFire(evs, lists, timers, |active|, id, but);
      ListsWithoutSize(evs, lists, id);
      PriorityOk(id);
      StrayIs(id);
      LostFire(evs, Active(Deleted(evs[id]), true), timers, lost, but, id);
      assert lost - {id} == lost;
      ghost var evs0 := evs;
      var _, _ := Unqueue(id, heard);
      MappedFlags(evs, ios, stale, emap.io, id, Active(evs[id], true));
      EventActive(id, true);
      assert evs[id] == Active(Deleted(evs0[id]), true);
      assert evs == evs0[id := evs[id]];
    }

    lemma ListFacts(i: int)
      requires Core() && 0 <= i < |lists|
      ensures forall x :: x in lists[i] ==> x in evs && evs[x].timeout && evs[x].list == i && x !in timers && x !in lost
      ensures forall j, k :: 0 <= j < k < |lists[i]| ==>
                lists[i][j] != lists[i][k] && evs[lists[i][j]].at <= evs[lists[i][k]].at
    {
      hide Stamped;
      assert ListOk(evs, lists[i], i);
    }

    /** Activates the events at the front of a list whose time has come; their tags are masked for the comparison. */
    method FireDue(i: int, now: int, heard: set<Id>)
      requires Core() && MapOk() && 0 <= i < |lists| && Guarded(unarmed + {i})
      modifies `evs, `heap, `slots, `places, `lost, `lists, `active, `inserted, `stale, `eventCount
      modifies `eventCountActive, `eventContinue
      modifies emap, emap.kernel
      ensures Core() && MapOk() && Guarded(unarmed + {i}) && |lists| == |old(lists)|
      ensures evs == Fired(old(evs), old(lists)[i], now)
      ensures lists[i] == Later(old(evs), old(lists)[i], now)
      ensures heap == old(heap) && lost == old(lost) && slots == old(slots)
      ensures runningPriority <= 0 ==> eventContinue == old(eventContinue)
    {
      hide Core, NoRepeats, Guarded, ListsOk, Shape, MapOk, TimerLess, Masked, Stamp, Fired, Later, Active, Deleted,
           FiredUpTo;
      ghost var evs0, ids, n := evs, lists[i], 0;
      ListFacts(i);
      NoneFired(evs, ids, now);
      while lists[i] != []
        invariant Core() && MapOk() && Guarded(unarmed + {i}) && |lists| == |old(lists)|
        invariant n <= |ids| && lists[i] == ids[n..] && evs == FiredUpTo(evs0, ids, n)
        invariant heap == old(heap) && lost == old(lost) && slots == old(slots)
        invariant runningPriority <= 0 ==> eventContinue == old(eventContinue)
        invariant forall j :: 0 <= j < n ==> ids[j] in evs0 && evs0[ids[j]].at <= now
        decreases |lists[i]|
      {
        var ev := lists[i][0];
        assert ev == ids[n];
        NotYetFired(evs0, ids, n);
        DueFirst(i, now);
        if TimerLess(Stamp(now, -1), Masked(evs[ev].tv)) {
          break;
        }
        OneMore(evs0, ids, n);
        FireFirst(i, ev, ev in heard);
        n := n + 1;
      }
      AllFired(evs0, ids, n, now);
    }

    lemma DueFirst(i: int, now: int)
      requires Core() && 0 <= i < |lists| && lists[i] != []
      ensures lists[i][0] in evs
      ensures TimerLess(Stamp(now, -1), Masked(evs[lists[i][0]].tv)) <==> now < evs[lists[i][0]].at
    {
      hide Core, TimerLess, Stamp, Masked;
      ListFacts(i);
      assert lists[i][0] in lists[i];
      IsDue(lists[i][0], i, now);
    }

    /** The first event of a list leaves it, and is activated. */
    method FireFirst(i: int, ev: Id, heard: bool)
      requires Core() && MapOk() && 0 <= i < |lists| && Guarded(unarmed + {i})
      requires lists[i] != [] && ev == lists[i][0] && ev in evs
      modifies `evs, `heap, `slots, `places, `lost, `lists, `active, `inserted, `stale, `eventCount
      modifies `eventCountActive, `eventContinue
      modifies emap, emap.kernel
      ensures Core() && MapOk() && Guarded(unarmed + {i}) && |lists| == |old(lists)|
      ensures evs == old(evs)[ev := Active(Deleted(old(evs)[ev]), true)] && lists[i] == old(lists)[i][1..]
      ensures heap == old(heap) && lost == old(lost) && slots == old(slots)
      ensures runningPriority <= 0 ==> eventContinue == old(eventContinue)
    {
      hide Core, NoRepeats, Guarded, ListsOk, Shape, ListsWithout, MapOk, Strays, Active, Deleted, MapKeeps;
      ListFacts(i);
      assert ev in lists[i];
      NotInHeap(ev);
      StrayIs(ev);
      WithoutHead(evs, lists, i);
      Fire(ev, heard, unarmed + {i});
    }

    /** The comparison with the time now is that of the times. */
    lemma IsDue(id: Id, list: int, now: int)
      requires Core() && id in evs && evs[id].list == list
      ensures TimerLess(Stamp(now, -1), Masked(evs[id].tv)) <==> now < evs[id].at
      ensures list == -1 ==> (TimerLess(Stamp(now, -1), evs[id].tv) <==> now < evs[id].at)
    {
      hide Core, TimerLess, Masked, Stamp;
      CoreMeans();
      TagIs(id);
      ListInRange(id);
      StampReads(evs[id].at, evs[id].list, |lists|);
      StampsCompare(now, evs[id].at, -1);
    }

    lemma ListInRange(id: Id)
      requires Core() && id in evs
      ensures -1 <= evs[id].list < |lists| <= MAX_COMMON_TIMEOUTS
    {
    }

    /** common_timeout_callback: every event of the list whose time has come is activated, and the timer is set to
        the time of the first that is left, if the heap can take it. The timer has just been taken off the active
        queue. */
    method CommonTimeoutCallback(i: int, now: int, m: Memory)
      requires Core() && MapOk() && 0 <= i < |lists| == |timers| && Guarded(unarmed + {i}) && timers[i] !in lost
      modifies `evs, `heap, `slots, `places, `heapRoom, `lost, `lists, `active, `inserted, `stale, `unarmed
      modifies `eventCount, `eventCountActive, `eventContinue, emap, emap.kernel
      ensures Valid() && |lists| == |old(lists)| == |timers| && lists[i] == Later(old(evs), old(lists)[i], now)
      ensures evs.Keys == old(evs).Keys && lost == old(lost) && timers[i] in old(evs)
      ensures lists[i] != [] ==> lists[i][0] in evs
      ensures forall x :: x in evs && x != timers[i] ==> evs[x] == Fired(old(evs), old(lists)[i], now)[x]
      ensures var timer := old(evs)[timers[i]];
              evs[timers[i]] == if lists[i] == [] || !(timer.timeout || |old(slots)| < old(heapRoom) || m.reserve) then timer
                                else WithTimeout(timer, evs[lists[i][0]].at, -1)
      ensures var stuck := lists[i] != [] && old(Idle(evs, timers[i])) && |old(slots)| >= old(heapRoom) && !m.reserve;
        && unarmed == (if stuck then old(unarmed) + {i} else old(unarmed) - {i})
        && (stuck ==> !Armed(evs, lists[i], timers[i]))
      ensures runningPriority <= 0 ==> eventContinue == old(eventContinue)
    {
      hide Core, NoRepeats, AllArmed, LostTimers, ListsOk, Shape, Fired, Later, MapOk, Armed, WithTimeout, Idle;
      FiredKeys(evs, lists[i], now);
      CoreMeans();
      ListFacts(i);
      TimersDiffer();
      FiredElsewhere(evs, lists[i], now, timers[i]);
      ghost var evs0 := evs;
      FireDue(i, now, m.heard);
      IdleSame(evs0, evs, timers[i]);
      ListFacts(i);
      CoreMeans();
      if lists[i] != [] {
        assert lists[i][0] in lists[i];
        ScheduleMapped(i, m.reserve);
      } else {
        ArmedAnyhow(evs, lists, timers, i, unarmed);
        LostNot(evs, timers, lost, unarmed, i);
        unarmed := unarmed - {i};
      }
    }

    // Waiting, and what is due.

    lemma NothingActive()
      requires Core() && eventCountActive == 0
      ensures forall id :: id in evs ==> !evs[id].active
    {
      hide Stamped;
      forall id | id in evs
        ensures !evs[id].active
      {
        TotalZero(active);
        if evs[id].active {
          ActiveHas(evs, active, id);
        }
      }
    }

    /** The loop leaves for want of events exactly when no event that is not internal is queued anywhere. */
    lemma NothingQueued()
      requires Core()
      ensures eventCount == 0 <==>
              forall id :: id in evs && !evs[id].internal ==> !evs[id].timeout && !evs[id].active && !evs[id].inserted
    {
      hide Shape, HeapOk, ListsOk, ActiveOk, InsertedOk, DurationsOk, Total;
      if eventCount == 0 {
        forall id | id in evs && !evs[id].internal
          ensures !evs[id].timeout && !evs[id].active && !evs[id].inserted
        {
          assert id !in Timed(evs) && id !in Activated(evs) && id !in Inserted(evs);
        }
      }
      if forall id :: id in evs && !evs[id].internal ==> !evs[id].timeout && !evs[id].active && !evs[id].inserted {
        assert Timed(evs) == {} && Activated(evs) == {} && Inserted(evs) == {};
      }
    }

    /** The event has its place in the heap, or in a list whose timer is armed. */
    ghost predicate Looked(id: Id)
      requires id in evs
      reads `evs, `lost, `unarmed
    {
      id !in lost && evs[id].list !in unarmed
    }

    /** The timer of a list is armed for each of its events. */
    lemma ArmedFor(id: Id)
      requires Valid() && id in evs && evs[id].timeout && evs[id].list >= 0 && Looked(id)
      ensures var l := evs[id].list;
        && l < |lists| == |timers| && timers[l] in evs
        && (evs[timers[l]].active || (timers[l] in heap && evs[timers[l]].at <= evs[id].at))
    {
      hide Core, AllArmed, Mapped, Shape, ListsOk;
      CoreMeans();
      ListInRange(id);
      var l := evs[id].list;
      TimersDiffer();
      NotInHeap(timers[l]);
      assert Armed(evs, lists[l], timers[l]) by {
        ArmedAt(l);
      }
      OnList(id);
      TimerUnlisted(evs, lists, timers, |active|, l);
    }

    lemma ArmedAt(l: int)
      requires Valid() && 0 <= l < |lists| == |timers| && l !in unarmed
      ensures Armed(evs, lists[l], timers[l])
    {
    }

    lemma OnList(id: Id)
      requires Core() && id in evs && evs[id].timeout && evs[id].list >= 0
      ensures var l := evs[id].list;
              l < |lists| && id in lists[l] && lists[l] != [] && lists[l][0] in evs && evs[lists[l][0]].at <= evs[id].at
    {
      hide Stamped;
      var l := evs[id].list;
      assert ListOk(evs, lists[l], l);
      assert id in lists[l];
      var j :| 0 <= j < |lists[l]| && lists[l][j] == id;
      assert lists[l][0] in lists[l];
    }

    /** With nothing active, some event in the heap is due no later than any event that waits and is looked after. */
    lemma HeapLeads(id: Id)
      requires Valid() && eventCountActive == 0 && id in evs && evs[id].timeout && Looked(id)
      ensures exists t :: t in heap && t in evs && evs[t].at <= evs[id].at
    {
      hide Core, AllArmed, Mapped;
      NothingActive();
      NotInHeap(id);
      ListInRange(id);
      if evs[id].list == -1 {
        assert id in heap;
      } else {
        ArmedFor(id);
        assert timers[evs[id].list] in heap;
      }
    }

    /** Once nothing in the heap is due, an event that is due and looked after is on a list whose timer is active. */
    lemma DueWaitsForTimer(id: Id, now: int)
      requires Valid() && id in evs && evs[id].timeout && evs[id].at <= now && Looked(id)
      requires forall x :: x in heap ==> x in evs && evs[x].at > now
      ensures 0 <= evs[id].list < |lists| == |timers| && timers[evs[id].list] in evs && evs[timers[evs[id].list]].active
    {
      hide Core, AllArmed, Mapped;
      NotInHeap(id);
      ListInRange(id);
      assert evs[id].list >= 0;
      ArmedFor(id);
    }

    /** min_heap_top. */
    method HeapTop() returns (ev: Id)
      requires Core() && slots != []
      ensures heap != {} && ev in heap && ev in evs && evs[ev].list == -1
      ensures forall x :: x in heap ==> x in evs && evs[ev].at <= evs[x].at
    {
      hide Core, Ordered, Indexed;
      HeapFacts();
      ev := slots[0];
      HeapMeans();
      forall x | x in heap
        ensures x in evs && evs[ev].at <= evs[x].at
      {
        var i :| 0 <= i < |slots| && slots[i] == x;
        TopIsLeast(evs, slots, i);
      }
    }

    lemma TopIs(id: Id)
      requires Core() && id in evs && evs[id].timeout && evs[id].list == -1 && id !in lost
      requires forall x :: x in evs && x != id && evs[x].timeout && evs[x].list == -1 ==> evs[id].at < evs[x].at
      ensures slots != [] && slots[0] == id && id in heap
    {
      hide Core, Ordered, Indexed;
      HeapFacts();
      HeapMeans();
      var i :| 0 <= i < |slots| && slots[i] == id;
      TopIsLeast(evs, slots, i);
      assert slots[0] in heap;
    }

    /** timeout_next: how long to wait. While nothing is active, the wait never goes past the time of any event that is
        looked after, and there is no limit to it only if none waits for a time. */
    method TimeoutNext(now: int) returns (tv: Option<int>)
      requires Valid()
      ensures tv == None <==> heap == {}
      ensures tv.Some? ==> tv.value >= 0
      ensures tv.Some? && tv.value > 0 ==> exists t :: t in heap && t in evs && evs[t].at == now + tv.value
      ensures eventCountActive == 0 ==>
                forall id :: id in evs && evs[id].timeout && Looked(id) ==>
                  tv.Some? && (tv.value == 0 || now + tv.value <= evs[id].at)
    {
      hide Core, Guarded, Mapped, TimerLess, TimerSub, Stamp, TimeOf;
      if eventCountActive == 0 {
        forall id | id in evs && evs[id].timeout && Looked(id)
          ensures exists t :: t in heap && t in evs && evs[t].at <= evs[id].at
        {
          HeapLeads(id);
        }
      }
      HeapSize();
      if slots == [] {
        return None;
      }
      var ev := HeapTop();
      IsDue(ev, -1, now);
      if !TimerLess(Stamp(now, -1), evs[ev].tv) {
        return Some(0);
      }
      TagIs(ev);
      CorrectedIsStamp(evs[ev].at, now, -1);
      StampReads(evs[ev].at - now, -1, 0);
      tv := Some(TimeOf(TimerSub(evs[ev].tv, Stamp(now, -1))));
    }

    /** timeout_process: every event in the heap whose time has come is activated, so that an event that is due and
        looked after, and is still waiting, is on a list whose timer is about to run. */
    method TimeoutProcess(now: int, heard: set<Id>)
      requires Valid()
      modifies `evs, `heap, `slots, `places, `lost, `lists, `active, `inserted, `stale, `eventCount
      modifies `eventCountActive, `eventContinue
      modifies emap, emap.kernel
      ensures Valid() && |lists| == |old(lists)| && evs == HeapFired(old(evs), old(heap), now) && lost == old(lost)
      ensures forall x :: x in heap ==> x in evs && evs[x].at > now
      ensures forall x :: x in evs && evs[x].timeout && evs[x].at <= now && Looked(x) ==>
                0 <= evs[x].list < |lists| == |timers| && timers[evs[x].list] in evs && evs[timers[evs[x].list]].active
      ensures old(stale) <= stale
      ensures forall x :: x in stale && x !in old(stale) ==> x in old(heap) && x !in heap && x !in heard
    {
      hide Core, Guarded, ListsOk, Shape, ListsWithout, MapOk, MapKeeps, TimerLess, Stamp, FiredSet, HeapFired, Looked;
      ghost var evs0, fired: set<Id> := evs, {};
      NoneFiredYet(evs);
      HeapSize();
      while slots != []
        invariant Core() && MapOk() && Guarded(unarmed) && |lists| == |old(lists)|
        invariant slots == [] <==> heap == {}
        invariant evs == FiredSet(evs0, fired) && heap == old(heap) - fired && lost == old(lost)
        invariant forall x :: x in fired ==> x in evs0 && x in old(heap) && evs0[x].at <= now
        invariant old(stale) <= stale
        invariant forall x :: x in stale && x !in old(stale) ==> x in fired && x !in heard
        decreases |heap|
      {
        var ev := HeapTop();
        IsDue(ev, -1, now);
        if TimerLess(Stamp(now, -1), evs[ev].tv) {
          break;
        }
        OneMoreFired(evs0, evs, fired, ev);
        FireTop(ev, ev in heard);
        fired := fired + {ev};
        HeapSize();
        assert heap == old(heap) - fired;
      }
      HeapMeans();
      AllDueFired(evs0, evs, old(heap), heap, fired, now);
      AllDueWait(now);
    }

    /** An event leaves the heap, and is activated. */
    method FireTop(ev: Id, heard: bool)
      requires Core() && MapOk() && Guarded(unarmed) && ev in heap && ev in evs
      modifies `evs, `heap, `slots, `places, `lost, `lists, `active, `inserted, `stale, `eventCount
      modifies `eventCountActive, `eventContinue
      modifies emap, emap.kernel
      ensures Core() && MapOk() && Guarded(unarmed) && |lists| == |old(lists)|
      ensures ev in old(evs) && evs == old(evs)[ev := Active(Deleted(old(evs)[ev]), true)]
      ensures heap == old(heap) - {ev} && lost == old(lost) && |heap| < |old(heap)|
      ensures stale == old(stale) || (stale == old(stale) + {ev} && !heard)
      ensures runningPriority <= 0 ==> eventContinue == old(eventContinue)
    {
      hide Core, Guarded, ListsOk, Shape, ListsWithout, MapOk, MapKeeps, Deleted, Active;
      HeapMeans();
      ListsWithoutSize(evs, lists, ev);
      MapKeepsUnheard(ev, heard);
      Fire(ev, heard, unarmed);
    }

    lemma AllDueWait(now: int)
      requires Valid() && forall x :: x in heap ==> x in evs && evs[x].at > now
      ensures forall x :: x in evs && evs[x].timeout && evs[x].at <= now && Looked(x) ==>
                0 <= evs[x].list < |lists| == |timers| && timers[evs[x].list] in evs && evs[timers[evs[x].list]].active
    {
      hide Valid, Looked;
      forall x | x in evs && evs[x].timeout && evs[x].at <= now && Looked(x)
        ensures 0 <= evs[x].list < |lists| == |timers| && timers[evs[x].list] in evs && evs[timers[evs[x].list]].active
      {
        DueWaitsForTimer(x, now);
      }
    }

    lemma MapKeepsUnheard(id: Id, heard: bool)
      ensures id in ios && MapKeeps(id, heard) ==> !heard
    {
    }

    lemma HeapMeans()
      requires Core()
      ensures forall id :: id in heap <==> id in evs && evs[id].timeout && evs[id].list == -1 && id !in lost
      ensures forall id :: id in lost ==> id in evs && id !in heap
    {
    }

    /** timeout_correct: when the clock has gone back, every time in the heap and in the lists goes back as far, and keeps
        its tag. */
    method TimeoutCorrect(now: int, useMonotonic: bool)
      requires Valid()
      modifies `evs, `eventTv
      ensures Valid()
      ensures evs == if useMonotonic || now >= old(eventTv) then old(evs) else Shifted(old(evs), lost, old(eventTv) - now)
      ensures eventTv == if useMonotonic then old(eventTv) else now
    {
      hide HeapOk, ArrayOk, ListsOk, ActiveOk, InsertedOk, Memberships, AllArmed, LostTimers, Total, Shape, Mapped,
           TimerLess, TimerSub, Stamp, Corrected, DurationsOk;
      if useMonotonic {
        return;
      }
      StampsCompare(now, eventTv, -1);
      if !TimerLess(Stamp(now, -1), Stamp(eventTv, -1)) {
        eventTv := now;
        return;
      }
      var off := TimerSub(Stamp(eventTv, -1), Stamp(now, -1));
      ghost var back := eventTv - now;
      SubIsStamp(eventTv, now);
      ShiftKeeps(evs, heap, lost, lists, timers, active, inserted, back, unarmed);
      ArrayShifts(evs, heap, lost, slots, places, back);
      LostShifts(evs, timers, lost, back, unarmed);
      MappedKeeps(evs, Shifted(evs, lost, back), ios, stale, emap.io);
      ShiftIs(off, back);
      evs := map x | x in evs ::
        if x in slots || (evs[x].timeout && evs[x].list >= 0) then
          evs[x].(at := evs[x].at - TimeOf(off), tv := Corrected(evs[x].tv, off, evs[x].list))
        else evs[x];
      eventTv := now;
    }

    lemma SubIsStamp(a: int, b: int)
      ensures TimerSub(Stamp(a, -1), Stamp(b, -1)) == Stamp(a - b, -1)
    {
      hide TimerSub, Stamp;
      CorrectedIsStamp(a, b, -1);
    }

    lemma ShiftIs(off: TimeVal, back: int)
      requires Core() && off == Stamp(back, -1)
      ensures (map x | x in evs ::
                 if x in slots || (evs[x].timeout && evs[x].list >= 0) then
                   evs[x].(at := evs[x].at - TimeOf(off), tv := Corrected(evs[x].tv, off, evs[x].list))
                 else evs[x])
              == Shifted(evs, lost, back)
    {
      hide Core, HeapOk, ArrayOk, Ordered, Indexed, Stamp, Corrected, TimeOf;
      StampReads(back, -1, 0);
      HeapMeans();
      HeapFacts();
      forall x | x in evs
        ensures x in slots || (evs[x].timeout && evs[x].list >= 0) <==> evs[x].timeout && x !in lost
        ensures Corrected(evs[x].tv, off, evs[x].list) == Stamp(evs[x].at - back, evs[x].list)
      {
        ListInRange(x);
        NotInHeap(x);
        TagIs(x);
        CorrectedIsStamp(evs[x].at, back, evs[x].list);
      }
    }

    /** event_assign and event_priority_set; an event that reads or writes gets its place in the event map when it is
        added. */
    method Assign(id: Id, pri: nat, fd: int, read: bool, write: bool, persist: bool)
      requires Valid() && id !in evs && pri < |active|
      modifies `evs, `places, `ios
      ensures Valid()
      ensures evs == old(evs)[id := NewEv(pri, false, read || write, persist)]
      ensures if read || write then
                && ios.Keys == old(ios).Keys + {id} && (forall x :: x in old(ios) ==> ios[x] == old(ios)[x])
                && ios[id].fd == fd && ios[id].read == read && ios[id].write == write
              else ios == old(ios)
    {
      hide HeapOk, ArrayOk, ListsOk, ActiveOk, InsertedOk, Memberships, AllArmed, LostTimers, Total, Mapped, Shape,
           DurationsOk;
      var e := NewEv(pri, false, read || write, persist);
      var ev := new EventMap.IoEvent(fd, read, write);
      NewEvent(evs, heap, lost, lists, timers, active, inserted, id, e, unarmed);
      NewShape(evs, |lists|, timers, |active|, id, e);
      NotMapped(id);
      HeapFacts();
      ArrayNew(evs, heap, lost, slots, places, id, e);
      LostNew(evs, timers, lost, unarmed, id, e);
      MappedNew(evs, ios, stale, emap.io, id, e, ev);
      if read || write {
        ios := ios[id := ev];
      }
      places := places[id := -1];
      evs := evs[id := e];
    }

    /** event_base_init_common_timeout; `timer` becomes the internal timer of a new list. */
    method InitCommonTimeout(duration: TimeVal, timer: Id, canAlloc: bool) returns (i: int)
      requires Valid() && timer !in evs && duration.usec >= 0
      modifies `evs, `places, `durations, `lists, `timers
      ensures Valid()
      ensures var norm, n := Normal(duration, |old(lists)|), |old(lists)|;
        && |old(durations)| == n
        && (i == -1 <==> (forall k :: 0 <= k < n ==> Masked(old(durations)[k]) != norm)
                         && (n == MAX_COMMON_TIMEOUTS || !canAlloc))
        && (i != -1 ==>
              && 0 <= i < |lists| == |durations| && Masked(durations[i]) == norm
              && IsInterval(durations[i], |lists|) && IsCommon(durations[i], |lists|) && ListOf(durations[i]) == i)
        && if i == n then
             && lists == old(lists) + [[]] && timers == old(timers) + [timer]
             && durations == old(durations) + [WithBits(norm, Tag(n))]
             && evs == old(evs)[timer := NewEv(0, true, false, false)]
           else lists == old(lists) && timers == old(timers) && durations == old(durations) && evs == old(evs)
      ensures i == |old(lists)| ==> forall k :: 0 <= k < |old(durations)| ==> Masked(durations[k]) != Masked(durations[i])
    {
      hide HeapOk, ArrayOk, ListsOk, ActiveOk, InsertedOk, Memberships, AllArmed, LostTimers, Total, NoRepeats, Mapped,
           Shape, DurationsOk, Normal, Masked, IsInterval, IsCommon, ListOf, WithBits, Tag;
      var norm := Normal(duration, |lists|);
      ShapeBound(evs, |lists|, timers, |active|);
      DurationsAre(durations, |lists|);
      i := 0;
      while i < |durations|
        invariant 0 <= i <= |durations| && forall k :: 0 <= k < i ==> Masked(durations[k]) != norm
      {
        if Masked(durations[i]) == norm {
          return;
        }
        i := i + 1;
      }
      if |lists| == MAX_COMMON_TIMEOUTS || !canAlloc {
        return -1;
      }
      var e := NewEv(0, true, false, false);
      NewEvent(evs, heap, lost, lists, timers, active, inserted, timer, e, unarmed);
      HeapFacts();
      ArrayNew(evs, heap, lost, slots, places, timer, e);
      LostNew(evs, timers, lost, unarmed, timer, e);
      LostTimer(evs[timer := e], timers, timer, lost, unarmed);
      NewList(evs[timer := e], lists, timers, timer, unarmed);
      NewTimer(evs, |lists|, timers, |active|, timer);
      DurationIsInterval(duration, |lists|, |lists| + 1);
      DurationsMore(durations, |lists|, WithBits(norm, Tag(|lists|)));
      MappedAdd(evs, ios, stale, emap.io, timer, e);
      places := places[timer := -1];
      evs := evs[timer := e];
      durations, lists, timers := durations + [WithBits(norm, Tag(|lists|))], lists + [[]], timers + [timer];
    }

    /** A persistent event that has an interval cannot be added again: the array of the heap is full and cannot grow,
        or the event map does not take it. */
    ghost predicate ReAddFails(id: Id, m: Memory)
      requires id in evs && (evs[id].io ==> id in ios)
      reads `evs, `slots, `heapRoom, `ios, emap, emap.kernel
    {
      || (!evs[id].timeout && |slots| >= heapRoom && !m.reserve)
      || (evs[id].io && !evs[id].inserted && MapRefuses(id, m))
    }

    /** The rescheduling part of event_persist_closure: an interval after the last scheduled time if the event ran
        for that, else after now; and after now if the result is already past. The list of the event is that of its
        interval, as the source asserts. If the event cannot be added again it is dropped, and nobody is told. */
    method Reschedule(id: Id, now: int, m: Memory) returns (dropped: bool, harm: Harm)
      requires Valid() && id in evs && id !in timers && evs[id].persist && !evs[id].active
      modifies `evs, `heap, `slots, `places, `heapRoom, `lost, `lists, `active, `inserted, `unarmed, `eventCount,
               `eventCountActive, emap, emap.kernel
      ensures id in old(evs) && (old(evs)[id].io ==> id in ios)
      ensures dropped <==> IsSet(old(evs)[id].ioTv) && old(ReAddFails(id, m))
      ensures var e := old(evs)[id];
              harm == if !IsSet(e.ioTv) || dropped then NoHarm
                      else if !SetInReach(old(Waits()), timers, id, e.list,
                                          NextRunAt(e.at, TimeOf(e.ioTv), e.byTimeout, now)) then Wild
                      else if id in stale then Tangled else NoHarm
      ensures harm == NoHarm ==> Valid() && evs.Keys == old(evs).Keys && |lists| == |old(lists)|
      ensures !IsSet(old(evs)[id].ioTv) || dropped ==> evs == old(evs)
      ensures IsSet(old(evs)[id].ioTv) && !dropped && harm != Wild ==> id in evs && evs[id] == Rescheduled(old(evs)[id], now)
      ensures harm == NoHarm ==>
                forall x :: x in evs ==> x in old(evs) && (evs[x].active ==> old(evs)[x].active) && evs[x].pri == old(evs)[x].pri
    {
      hide Valid, Core, Guarded, MapOk, TimeOf, ListOf, IsInterval, Stamp, IsSet, NextRun, NextRunAt, MapRefuses,
           WithTimeout, Armed, ComesFirst, SetInReach, IsTimeSet, Full;
      ValidParts();
      TagIs(id);
      MapHas(id);
      ListInRange(id);
      dropped, harm := false, NoHarm;
      if IsSet(evs[id].ioTv) {
        assert ListOf(evs[id].ioTv) == evs[id].list;
        NextRunIsStamp(evs[id].at, evs[id].ioTv, evs[id].byTimeout, now, |lists|);
        var runAt := NextRun(evs[id].tv, evs[id].ioTv, evs[id].byTimeout, Stamp(now, -1), |lists|);
        StampReads(NextRunAt(evs[id].at, TimeOf(evs[id].ioTv), evs[id].byTimeout, now), evs[id].list, |lists|);
        NextInterval(evs[id], runAt, now);
        var res;
        ghost var victim, timerVictim;
        res, harm, victim, timerVictim := EventAdd(id, Some(runAt), true, now, m);
        dropped := res == -1;
      }
    }

    lemma NextInterval(e: Ev, runAt: TimeVal, now: int)
      requires TimeOf(runAt) == NextRunAt(e.at, TimeOf(e.ioTv), e.byTimeout, now) && ListOf(runAt) == e.list
      requires e.persist && !e.active
      ensures Added(e, Some(runAt), true, now) == Rescheduled(e, now)
    {
    }

    // Processing what is active. Where a call does harm, the model ends.

    /** One thing that a callback does; calls that make no sense are not made. */
    method Perform(call: Call, now: int) returns (harm: Harm)
      requires Valid()
      modifies `evs, `heap, `slots, `places, `heapRoom, `lost, `lists, `active, `inserted, `unarmed, `stale
      modifies `eventCount, `eventCountActive, `eventContinue, emap, emap.kernel
      ensures old(eventContinue) ==> eventContinue
      ensures runningPriority <= 0 ==> eventContinue == old(eventContinue)
      ensures harm == NoHarm ==> Valid()
      ensures harm == NoHarm && old(Quiet(evs, runningPriority)) && !eventContinue ==> Quiet(evs, runningPriority)
      ensures old(lost) == {} && old(stale) == {} ==> harm == NoHarm
      ensures call.id in old(evs) && call.id !in timers ==>
                match call
                case CallAdd(id, tv, _) =>
                  harm != Wild && old(CanAdd(id, tv, false)) ==>
                    evs == old(evs) || (id in evs && evs[id] == Added(old(evs)[id], tv, false, now))
                case CallDel(id, _) =>
                  if old(InReach(Waits(), id)) then harm == NoHarm && evs == old(evs)[id := Deleted(old(evs)[id])]
                  else harm == Wild
                case CallActive(id) => harm == NoHarm && evs == old(evs)[id := Active(old(evs)[id], false)]
    {
      hide Valid, Core, Guarded, Added, Full, ComesFirst, Idle, Armed, IsInterval, Stamp, IsSet, TimeOf, ListOf,
           IsTimeSet, SetInReach, InReach, Strays, Victim;
      harm := NoHarm;
      match call {
        case CallAdd(id, tv, m) =>
          if id in evs && id !in timers && CanAdd(id, tv, false) {
            ghost var evs0 := evs;
            if tv.Some? {
              NoneOutOfReach(id, ListOf(tv.value), DueAt(tv.value, false, now));
            }
            var res;
            ghost var victim, timerVictim;
            res, harm, victim, timerVictim := EventAdd(id, tv, false, now, m);
            if harm != Wild {
              QuietStays(evs0, evs, runningPriority);
            }
          }
        case CallDel(id, heard) =>
          if id in evs && id !in timers {
            NoneOutOfReach(id, -1, 0);
            if InReach(Waits(), id) {
              var _, _ := EventDel(id, heard);
            } else {
              harm := Wild;
            }
          }
        case CallActive(id) =>
          if id in evs {
            Activate(id);
          }
      }
    }

    /** While nothing is lost to the heap, nothing is looked for outside it. */
    lemma NoneOutOfReach(id: Id, list: int, at: int)
      requires Valid() && id in evs
      ensures lost == {} ==> SetInReach(Waits(), timers, id, list, at) && InReach(Waits(), id)
    {
      hide Core, Guarded, Mapped, Strays, ComesFirst;
      StrayIs(id);
      TimersDiffer();
      if 0 <= list < |timers| {
        StrayIs(timers[list]);
      }
    }

    /** A callback. */
    method RunCallback(calls: seq<Call>, now: int) returns (harm: Harm)
      requires Valid()
      modifies `evs, `heap, `slots, `places, `heapRoom, `lost, `lists, `active, `inserted, `unarmed, `stale
      modifies `eventCount, `eventCountActive, `eventContinue, emap, emap.kernel
      ensures old(eventContinue) ==> eventContinue
      ensures runningPriority <= 0 ==> eventContinue == old(eventContinue)
      ensures harm == NoHarm ==> Valid()
      ensures harm == NoHarm && old(Quiet(evs, runningPriority)) && !eventContinue ==> Quiet(evs, runningPriority)
      ensures calls == [] ==> evs == old(evs) && lists == old(lists) && harm == NoHarm
    {
      hide Valid, Quiet, CanAdd, InReach;
      var k := 0;
      harm := NoHarm;
      while k < |calls|
        invariant k <= |calls| && (k == 0 ==> evs == old(evs) && lists == old(lists))
        invariant Valid() && harm == NoHarm && (old(eventContinue) ==> eventContinue)
        invariant runningPriority <= 0 ==> eventContinue == old(eventContinue)
        invariant old(Quiet(evs, runningPriority)) && !eventContinue ==> Quiet(evs, runningPriority)
      {
        harm := Perform(calls[k], now);
        if harm != NoHarm {
          return;
        }
        k := k + 1;
      }
    }

    /** Takes an event that is not an internal timer off the active queue; one that does not persist, off all. */
    method Dequeue(ev: Id, heard: bool)
      requires Valid() && ev in evs && ev !in timers && evs[ev].active && (evs[ev].persist || InReach(Waits(), ev))
      modifies `evs, `heap, `slots, `places, `lost, `lists, `active, `inserted, `stale, `unarmed, `eventCount
      modifies `eventCountActive, emap, emap.kernel
      ensures Valid() && |lists| == |old(lists)|
      ensures evs == old(evs)[ev := if old(evs)[ev].persist then old(evs)[ev].(active := false) else Deleted(old(evs)[ev])]
      ensures old(evs)[ev].persist ==>
                && stale == old(stale) && Waits() == old(Waits()).(evs := evs) && emap.io == old(emap.io)
                && (ev in ios ==> forall m :: MapRefuses(ev, m) == old(MapRefuses(ev, m)))
    {
      hide Core, AllArmed, LostTimers, ListsOk, Shape, Mapped, MapRefuses, InReach;
      if evs[ev].persist {
        CoreMeans();
        TimersDiffer();
        ArmedFlags(evs, lists, timers, |active|, ev, evs[ev].(active := false), unarmed);
        LostSame(evs, evs[ev := evs[ev].(active := false)], timers, lost, unarmed, ev);
        MappedFlags(evs, ios, stale, emap.io, ev, evs[ev].(active := false));
        RemoveActive(ev);
      } else {
        var _, _ := EventDel(ev, heard);
      }
    }

    /** The internal timer of a list leaves its queue, and its callback runs. */
    method RunTimer(k: nat, now: int, m: Memory)
      requires Valid() && k < |timers| && timers[k] in evs && Quiet(evs, runningPriority) && runningPriority == 0
      requires InReach(Waits(), timers[k])
      modifies `evs, `heap, `slots, `places, `heapRoom, `lost, `lists, `active, `inserted, `unarmed, `stale
      modifies `eventCount, `eventCountActive, `eventContinue, emap, emap.kernel
      ensures Valid() && eventContinue == old(eventContinue) && Quiet(evs, 0)
      ensures timers[k] in evs && !evs[timers[k]].active
      ensures k < |lists| == |old(lists)| && lists[k] == Later(old(evs), old(lists)[k], now)
      ensures lost == With(old(lost) - {timers[k]}, old(Victim(Waits(), timers[k])))
      ensures var unarmed1 := old(unarmed) + Bereft(old(evs), timers, old(Victim(Waits(), timers[k])));
              unarmed == if lists[k] != [] && old(Remaining(Waits(), timers[k])) >= old(heapRoom) && !m.reserve then
                           unarmed1 + {k as int}
                         else unarmed1 - {k as int}
    {
      hide Core, AllArmed, LostTimers, ListsOk, Shape, Later, Fired, MapOk, Armed, WithTimeout, Idle, Strays, InReach,
           Victim, Remaining, Bereft;
      ghost var evs0, lists0 := evs, lists;
      TakeTimer(k);
      ghost var evs1 := evs;
      LaterSame(evs0, evs, lists[k], now);
      CommonTimeoutCallback(k, now, m);
      ListFacts(k);
      if lists[k] != [] {
        assert lists[k][0] in lists[k];
        TimerRests(evs1[timers[k]], evs[lists[k][0]].at);
      }
      QuietAny(evs);
    }

    /** The timer of a list leaves all its queues. */
    method TakeTimer(k: nat)
      requires Valid() && k < |timers| && timers[k] in evs && InReach(Waits(), timers[k])
      modifies `evs, `heap, `slots, `places, `lost, `lists, `active, `inserted, `stale, `unarmed, `eventCount
      modifies `eventCountActive, emap, emap.kernel
      ensures Core() && MapOk() && k < |lists| == |timers| && Guarded(unarmed + {k}) && lists == old(lists)
      ensures evs == old(evs)[timers[k] := Deleted(old(evs)[timers[k]])] && Idle(evs, timers[k])
      ensures !evs[timers[k]].active && timers[k] !in lost && |slots| == old(Remaining(Waits(), timers[k]))
      ensures lost == With(old(lost) - {timers[k]}, old(Victim(Waits(), timers[k])))
      ensures unarmed == old(unarmed) + Bereft(old(evs), timers, old(Victim(Waits(), timers[k])))
      ensures forall x :: x in lists[k] ==> x in evs && x in old(evs) && evs[x] == old(evs)[x]
    {
      hide Core, AllArmed, LostTimers, ListsOk, Shape, MapOk, Deleted, Strays, InReach, Victim, Bereft, ActiveOk,
           LinkIndex;
      CoreMeans();
      var ev := timers[k];
      ListFacts(k);
      TimersDiffer();
      VictimIs(ev);
      ArmedBut(evs, lists, timers, |active|, k, unarmed);
      TimerUnlisted(evs, lists, timers, |active|, k);
      DeletedIs(evs[ev]);
      ghost var evs0, lost0, unarmed0 := evs, lost, unarmed;
      LostMore(evs, timers, lost, unarmed, unarmed + {k});
      ghost var victim;
      var res;
      res, victim := Unqueue(ev, false);
      LostSet(evs0, evs, timers, lost0, lost, unarmed0, k, victim);
      unarmed := unarmed + Bereft(evs0, timers, victim);
      LostMore(evs, timers, lost, (unarmed0 - {k as int}) + Bereft(evs0, timers, victim), unarmed + {k});
      ArmedMore(evs, lists, timers, unarmed0 + {k}, unarmed + {k});
      NotInHeap(ev);
      assert evs[ev] == Deleted(old(evs)[ev]);
    }

    /** What becomes of the turn of an active event whose callback does nothing: it may have to be erased, or be added
        again. */
    ghost function TurnHarm(ev: Id, now: int, m: Memory): Harm
      requires ev in evs && (evs[ev].io ==> ev in ios)
      reads `evs, `lists, `slots, `places, `heapRoom, `timers, `ios, `stale, emap, emap.kernel
    {
      var e := evs[ev];
      if !e.persist then if InReach(Waits(), ev) then NoHarm else Wild
      else if !IsSet(e.ioTv) || ReAddFails(ev, m) then NoHarm
      else if !SetInReach(Waits(), timers, ev, e.list, NextRunAt(e.at, TimeOf(e.ioTv), e.byTimeout, now)) then Wild
      else if ev in stale then Tangled
      else NoHarm
    }

    /** Another event leaves its queue, waits for its next time if it persists, and its callback runs. */
    method RunEvent(ev: Id, now: int, turn: Turn) returns (harm: Harm)
      requires Valid() && ev in evs && evs[ev].active && ev !in timers && Quiet(evs, runningPriority)
      modifies `evs, `heap, `slots, `places, `heapRoom, `lost, `lists, `active, `inserted, `unarmed, `stale
      modifies `eventCount, `eventCountActive, `eventContinue, emap, emap.kernel
      ensures runningPriority == 0 ==> eventContinue == old(eventContinue)
      ensures harm == NoHarm ==> Valid() && (!eventContinue ==> Quiet(evs, runningPriority))
      ensures ev in old(evs) && (old(evs)[ev].io ==> ev in ios)
      ensures old(TurnHarm(ev, now, turn.memory)) != NoHarm || turn.calls == [] ==> harm == old(TurnHarm(ev, now, turn.memory))
      ensures turn.calls == [] && harm == NoHarm ==>
                ev in evs && evs[ev] == AfterTurn(old(evs)[ev], now, old(ReAddFails(ev, turn.memory)))
      ensures turn.calls == [] && harm == NoHarm && !old(evs)[ev].persist ==> evs == old(evs)[ev := Deleted(old(evs)[ev])]
    {
      hide Core, Guarded, Quiet, TurnHarm, ReAddFails, AfterTurn, InReach, SetInReach;
      harm := TakeTurn(ev, now, turn.memory);
      if harm == NoHarm {
        harm := RunCallback(turn.calls, now);
      }
    }

    /** What happens before the callback of an event runs. */
    method TakeTurn(ev: Id, now: int, m: Memory) returns (harm: Harm)
      requires Valid() && ev in evs && evs[ev].active && ev !in timers && Quiet(evs, runningPriority)
      modifies `evs, `heap, `slots, `places, `heapRoom, `lost, `lists, `active, `inserted, `unarmed, `stale
      modifies `eventCount, `eventCountActive, emap, emap.kernel
      ensures ev in old(evs) && (old(evs)[ev].io ==> ev in ios)
      ensures harm == old(TurnHarm(ev, now, m))
      ensures harm == NoHarm ==> Valid() && Quiet(evs, runningPriority)
      ensures harm == NoHarm ==> ev in evs && evs[ev] == AfterTurn(old(evs)[ev], now, old(ReAddFails(ev, m)))
      ensures harm == NoHarm && !old(evs)[ev].persist ==> evs == old(evs)[ev := Deleted(old(evs)[ev])]
    {
      hide InsertedOk, HeapOk, Core, Guarded, ListsOk, Shape, MapOk, MapRefuses, Rescheduled, IsSet, InReach,
           SetInReach;
      MapHas(ev);
      harm := NoHarm;
      ghost var e, evs0, w := evs[ev], evs, Waits();
      if !evs[ev].persist && !InReach(Waits(), ev) {
        return Wild;
      }
      CoreMeans();
      Dequeue(ev, ev in m.heard);
      QuietStays(evs0, evs, runningPriority);
      if evs[ev].persist {
        ghost var evs1 := evs;
        RescheduledSame(e);
        assert w.(evs := w.evs[ev := evs[ev]], room := w.room) == Waits();
        ReachBefore(timers, w, w.room, evs[ev], ev, e.list, NextRunAt(e.at, TimeOf(e.ioTv), e.byTimeout, now));
        var dropped;
        dropped, harm := Reschedule(ev, now, m);
        if harm != NoHarm {
          return;
        }
        QuietStays(evs1, evs, runningPriority);
      }
    }

    /** One event: it leaves its queue, and its callback runs. */
    method ProcessEvent(ev: Id, now: int, turn: Turn) returns (harm: Harm)
      requires Valid() && ev in evs && evs[ev].active && runningPriority == evs[ev].pri && !eventContinue
      requires Quiet(evs, runningPriority)
      modifies `evs, `heap, `slots, `places, `heapRoom, `lost, `lists, `active, `inserted, `unarmed, `stale
      modifies `eventCount, `eventCountActive, `eventContinue, emap, emap.kernel
      ensures harm == NoHarm ==> Valid() && (!eventContinue ==> Quiet(evs, runningPriority))
      ensures runningPriority == 0 ==> !eventContinue
      ensures ev in old(evs) && (old(evs)[ev].io ==> ev in ios)
      ensures if ev in timers then harm == if old(InReach(Waits(), ev)) then NoHarm else Wild
              else
                old(TurnHarm(ev, now, turn.memory)) != NoHarm || turn.calls == [] ==>
                  harm == old(TurnHarm(ev, now, turn.memory))
      ensures turn.calls == [] && harm == NoHarm && ev !in timers ==>
                ev in evs && evs[ev] == AfterTurn(old(evs)[ev], now, old(ReAddFails(ev, turn.memory)))
      ensures turn.calls == [] && harm == NoHarm && ev !in timers && !old(evs)[ev].persist ==>
                evs == old(evs)[ev := Deleted(old(evs)[ev])]
      ensures forall k :: 0 <= k < |timers| && timers[k] == ev && harm == NoHarm ==>
                && ev in evs && !evs[ev].active
                && k < |lists| && k < |old(lists)| && lists[k] == Later(old(evs), old(lists)[k], now)
    {
      hide Core, Guarded, ListsOk, Shape, ActiveOk, Quiet, Later, Deleted, MapOk, ReAddFails, AfterTurn, TurnHarm,
           InReach;
      CoreMeans();
      TimersDiffer();
      MapHas(ev);
      TimerPriority(evs, |lists|, timers, |active|, ev);
      if evs[ev].internal {
        var k :| 0 <= k < |timers| && timers[k] == ev;
        if !InReach(Waits(), ev) {
          return Wild;
        }
        RunTimer(k, now, turn.memory);
        harm := NoHarm;
      } else {
        harm := RunEvent(ev, now, turn);
      }
    }

    /** event_process_active_single_queue, as far as the turns in `script` go: one for every event. */
    method ProcessQueue(i: nat, now: int, script: seq<Turn>)
      returns (count: nat, rest: seq<Turn>, harm: Harm, ghost picks: seq<Picked>)
      requires Valid() && i < |active| && runningPriority == i && !eventContinue && Quiet(evs, i)
      modifies `evs, `heap, `slots, `places, `heapRoom, `lost, `lists, `active, `inserted, `unarmed, `stale
      modifies `eventCount, `eventCountActive, `eventContinue, emap, emap.kernel
      ensures harm == NoHarm ==> Valid() && (!eventContinue ==> Quiet(evs, i) && (rest == [] || active[i] == []))
      ensures i == 0 ==> !eventContinue
      ensures forall k :: 0 <= k < |picks| ==> picks[k].queue == i && WasMostUrgent(picks[k])
      ensures |picks| + |rest| == |script| && count == Ordinary(picks, timers)
      ensures old(active)[i] != [] && script != [] ==> picks != [] && picks[0].active == old(active)
      ensures i > 0 && count == 0 ==> picks == [] && !eventContinue && harm == NoHarm
    {
      hide Core, Guarded, ListsOk, Shape, ActiveOk, Quiet, MapOk, AfterTurn, ReAddFails, TurnHarm, InReach;
      count, rest, harm, picks := 0, script, NoHarm, [];
      CoreMeans();
      while active[i] != [] && rest != []
        invariant Valid() && |active| == npriorities && !eventContinue && Quiet(evs, i) && harm == NoHarm
        invariant forall k :: 0 <= k < |picks| ==> picks[k].queue == i && WasMostUrgent(picks[k])
        invariant |picks| + |rest| == |script| && count == Ordinary(picks, timers)
        invariant if picks == [] then active == old(active) && rest == script else picks[0].active == old(active)
        invariant i > 0 && count == 0 ==> picks == []
        decreases |rest|
      {
        var ev := active[i][0];
        CoreMeans();
        QuietQueues(evs, active, i);
        QueueHas(evs, active, i, ev);
        TimerPriority(evs, |lists|, timers, |active|, ev);
        ghost var was := picks;
        picks := picks + [Picked(ev, i, active)];
        assert picks[..|picks| - 1] == was;
        if !evs[ev].internal {
          count := count + 1;
        }
        harm := ProcessEvent(ev, now, rest[0]);
        rest := rest[1..];
        if harm != NoHarm || eventContinue {
          return;
        }
        CoreMeans();
      }
    }

    /** event_process_active, as far as the turns in `script` go. Whatever the callbacks activate, an event is only
        ever picked when no queue before its own holds one; after an event that is not internal only its own queue is
        gone on with; and only when nothing is left active, or harm has been done, does this end without any such
        event. */
    method ProcessActive(now: int, script: seq<Turn>)
      returns (c: nat, rest: seq<Turn>, harm: Harm, ghost picks: seq<Picked>)
      requires Valid() && !eventContinue
      modifies `evs, `heap, `slots, `places, `heapRoom, `lost, `lists, `active, `inserted, `unarmed, `stale
      modifies `eventCount, `eventCountActive, `eventContinue, `runningPriority, emap, emap.kernel
      ensures (harm == NoHarm ==> Valid()) && runningPriority == -1
      ensures forall k :: 0 <= k < |picks| ==> WasMostUrgent(picks[k])
      ensures StaysWithOrdinary(picks, timers)
      ensures |picks| + |rest| == |script| && c == Ordinary(picks, timers)
      ensures c == 0 && rest != [] && harm == NoHarm ==> forall j :: 0 <= j < |active| ==> active[j] == []
      ensures if picks == [] then active == old(active) && harm == NoHarm else picks[0].active == old(active)
    {
      hide Core, Guarded, ListsOk, Shape, ActiveOk, Quiet, MapOk, WasMostUrgent, StaysWithOrdinary;
      c, rest, harm, picks := 0, script, NoHarm, [];
      var i := 0;
      CoreMeans();
      QuietAny(evs);
      StaysConcat([], picks, timers, 0);
      assert [] + picks == picks;
      while i < npriorities
        invariant i <= npriorities && Valid() && |active| == npriorities && c == 0 && harm == NoHarm
        invariant !eventContinue && (rest != [] ==> Quiet(evs, i))
        invariant forall k :: 0 <= k < |picks| ==> WasMostUrgent(picks[k])
        invariant |picks| + |rest| == |script| && Ordinary(picks, timers) == 0 && StaysWithOrdinary(picks, timers)
        invariant if picks == [] then active == old(active) && rest == script else picks[0].active == old(active)
      {
        if rest != [] && active[i] != [] {
          runningPriority := i;
          ghost var more;
          c, rest, harm, more := ProcessQueue(i, now, rest);
          OrdinaryConcat(picks, more, timers);
          StaysConcat(picks, more, timers, i);
          picks := picks + more;
          if c > 0 || harm != NoHarm {
            break;
          }
          CoreMeans();
        }
        if rest != [] {
          CoreMeans();
          QuietNext(evs, active, i);
        }
        i := i + 1;
      }
      if c == 0 && rest != [] && harm == NoHarm {
        CoreMeans();
        QuietQueues(evs, active, npriorities);
      }
      runningPriority := -1;
    }

    /** The parts of the state that do not depend on lists. */
    lemma Updates(id: Id, e: Ev)
      requires Core() && id in evs && SameKind(evs[id], e)
      requires SameTimes(evs[id], e) || (Stamped(e, |lists|) && -1 <= e.list < |lists| && (id in timers ==> e.list == -1))
      ensures Shape(evs[id := e], |lists|, timers, |active|)
      ensures 0 <= e.pri < |active| &&
              ActiveOk(evs[id := e],
                       active[e.pri := if e.active == evs[id].active then active[e.pri]
                                       else if e.active then active[e.pri] + [id] else Without(active[e.pri], id)])
      ensures InsertedOk(evs[id := e], if e.inserted == evs[id].inserted then inserted
                                       else if e.inserted then inserted + [id] else Without(inserted, id))
      ensures Memberships(evs[id := e]) == Memberships(evs) +
                if e.internal then 0
                else One(e.timeout) - One(evs[id].timeout) + One(e.active) - One(evs[id].active)
                     + One(e.inserted) - One(evs[id].inserted)
      ensures active[e.pri := active[e.pri]] == active
    {
      hide HeapOk, ArrayOk, ListsOk, ActiveOk, InsertedOk, Memberships, Total, Without, NoRepeats, Shape, DurationsOk,
           Stamped;
      PriorityOk(id);
      ShapeUpdate(evs, |lists|, timers, |active|, id, e);
      ActiveUpdate(evs, active, id, e);
      InsertedUpdate(evs, inserted, id, e);
      MembershipsUpdate(evs, id, e);
    }
  }

  // How things go wrong.

  /** Event 0 waits in the list of timer 1, event 10 in that of timer 9; these timers and six more events fill an array of
      eight. Timer 2 rests, and so does event 11. If it is late, timer 1 has just been taken off its queue, and event 11
      has its place. */
  function Crowd(id: Id, late: bool): Ev {
    if id == 0 then Ev(0, false, false, 50, 0, Stamp(50, 0), true, false, false, false, false, TimeVal(0, 0))
    else if id == 1 && !late then Ev(0, true, false, 50, -1, Stamp(50, -1), true, false, false, false, false, TimeVal(0, 0))
    else if id <= 2 then NewEv(0, true, false, false)
    else if id <= 8 || (id == 11 && late) then
      Ev(0, false, false, 90, -1, Stamp(90, -1), true, false, false, false, false, TimeVal(0, 0))
    else if id == 9 then Ev(0, true, false, 40, -1, Stamp(40, -1), true, false, false, false, false, TimeVal(0, 0))
    else if id == 10 then Ev(0, false, false, 40, 2, Stamp(40, 2), true, false, false, false, false, TimeVal(0, 0))
    else NewEv(0, false, false, false)
  }

  function CrowdEvents(late: bool): Events {
    map id: nat | 0 <= id < 12 :: Crowd(id, late)
  }

  function CrowdSlots(late: bool): seq<Id> {
    [9, if late then 11 else 1, 3, 4, 5, 6, 7, 8]
  }

  ghost predicate IsCrowd(e: Ev, id: Id, late: bool) {
    && Stamped(e, 3) && e.tv == Stamp(e.at, e.list) && e.internal == (id == 1 || id == 2 || id == 9)
    && e.timeout == (id !in {1, 2, 11} || (id == 1 && !late) || (id == 11 && late))
    && e.list == (if id == 0 then 0 else if id == 10 then 2 else -1)
    && !e.active && !e.inserted && e.pri == 0 && !e.io && !e.persist
    && (e.timeout ==> e.at == if id <= 1 then 50 else if id == 9 || id == 10 then 40 else 90)
  }

  lemma CrowdIs(late: bool)
    ensures forall id | 0 <= id < 12 :: id in CrowdEvents(late) && IsCrowd(CrowdEvents(late)[id], id, late)
    ensures forall id | id in CrowdEvents(late) :: id < 12
  {
    forall id: nat | id < 12
      ensures IsCrowd(Crowd(id, late), id, late)
    {
      OneOfCrowd(id, late);
    }
  }

  lemma {:induction false} OneOfCrowd(id: Id, late: bool)
    requires id < 12
    ensures IsCrowd(Crowd(id, late), id, late)
  {
  }

  lemma {:induction false} CrowdShape(late: bool)
    ensures Shape(CrowdEvents(late), 3, [1, 2, 9], 1)
  {
    hide Stamped, CrowdEvents, Stamp;
    CrowdIs(late);
  }

  lemma {:induction false} CrowdQueues(late: bool)
    ensures ActiveOk(CrowdEvents(late), [[]]) && InsertedOk(CrowdEvents(late), [])
    ensures Activated(CrowdEvents(late)) == {} && Inserted(CrowdEvents(late)) == {}
  {
    hide Stamped, CrowdEvents, Stamp;
    CrowdIs(late);
  }

  lemma {:induction false} CrowdTimed(late: bool)
    ensures Timed(CrowdEvents(late)) == if late then {0, 3, 4, 5, 6, 7, 8, 10, 11} else {0, 3, 4, 5, 6, 7, 8, 10}
  {
    hide Stamped, CrowdEvents, Stamp;
    CrowdIs(late);
  }

  lemma CrowdCounts(late: bool)
    ensures Memberships(CrowdEvents(late)) == if late then 9 else 8
  {
    hide CrowdEvents, Timed, Activated, Inserted;
    CrowdTimed(late);
    CrowdQueues(late);
  }

  function CrowdHeap(late: bool): set<Id> {
    {9, if late then 11 else 1, 3, 4, 5, 6, 7, 8}
  }

  lemma {:induction false} CrowdHeapOk(late: bool)
    ensures HeapOk(CrowdEvents(late), CrowdHeap(late), {})
  {
    hide Stamped, CrowdEvents, Stamp;
    CrowdIs(late);
  }

  lemma {:induction false} CrowdOrdered(late: bool)
    ensures Ordered(CrowdEvents(late), CrowdSlots(late))
  {
    hide Stamped, CrowdEvents, Stamp;
    CrowdIs(late);
    var evs, p := CrowdEvents(late), CrowdSlots(late);
    assert Keyed(evs, p);
    forall i | 0 < i < |p|
      ensures Above(evs, p, i)
    {
    }
  }

  function CrowdPlaces(late: bool): map<Id, int> {
    map[0 := -1, 1 := if late then -1 else 1, 2 := -1, 3 := 2, 4 := 3, 5 := 4, 6 := 5, 7 := 6, 8 := 7, 9 := 0, 10 := -1,
        11 := if late then 1 else -1]
  }

  lemma {:induction false} CrowdIndexed(late: bool)
    ensures Indexed(CrowdSlots(late), CrowdPlaces(late))
    ensures forall x: Id :: x < 12 ==> x in CrowdPlaces(late)
  {
  }

  lemma {:induction false} CrowdHeld(late: bool)
    ensures |CrowdHeap(late)| == |CrowdSlots(late)| == 8
    ensures forall x :: x in CrowdHeap(late) <==> x in CrowdSlots(late)
  {
    var x := if late then 11 else 1;
    assert CrowdHeap(late) == {9, x, 3, 4, 5, 6, 7, 8};
    assert CrowdSlots(late) == [9, x, 3, 4, 5, 6, 7, 8];
  }

  lemma {:induction false} CrowdArray(late: bool)
    ensures ArrayOk(CrowdEvents(late), CrowdHeap(late), {}, CrowdSlots(late), CrowdPlaces(late))
  {
    hide CrowdEvents, Ordered, Indexed, CrowdHeap, CrowdSlots, CrowdPlaces;
    CrowdIndexed(late);
    CrowdHeld(late);
    CrowdOrdered(late);
    CrowdIs(late);
  }

  lemma {:induction false} CrowdLists(late: bool)
    ensures ListsOk(CrowdEvents(late), [[0], [], [10]])
    ensures AllArmed(CrowdEvents(late), [[0], [], [10]], [1, 2, 9], if late then {0} else {})
  {
    hide Stamped, CrowdEvents, Stamp;
    CrowdIs(late);
    var evs := CrowdEvents(late);
    assert ListOk(evs, [0], 0) && ListOk(evs, [], 1) && ListOk(evs, [10], 2);
    assert (!late ==> Armed(evs, [0], 1)) && Armed(evs, [], 2) && Armed(evs, [10], 9);
  }

  function CrowdDurations(): seq<TimeVal> {
    [WithBits(TimeVal(1, 0), Tag(0)), WithBits(TimeVal(2, 0), Tag(1)), WithBits(TimeVal(3, 0), Tag(2))]
  }

  lemma CrowdDurationsOk()
    ensures DurationsOk(CrowdDurations(), 3)
  {
    hide IsInterval, IsCommon, ListOf, WithBits, Tag;
    CrowdDuration(0);
    CrowdDuration(1);
    CrowdDuration(2);
  }

  lemma CrowdDuration(i: nat)
    requires i < 3
    ensures var tv := WithBits(TimeVal(i + 1, 0), Tag(i)); IsInterval(tv, 3) && ListOf(tv) == i && IsCommon(tv, 3)
  {
  }

  /** A base with this crowd. */
  method Crowded(late: bool) returns (base: Base)
    ensures fresh(base) && fresh(base.emap) && fresh(base.emap.kernel) && base.Core() && base.MapOk()
    ensures base.Guarded(if late then {0} else {}) && base.evs == CrowdEvents(late) && base.lists == [[0], [], [10]]
    ensures base.timers == [1, 2, 9] && base.slots == CrowdSlots(late) && base.heapRoom == 8
            && base.runningPriority == -1
    ensures base.lost == {} && base.unarmed == {} && base.stale == {} && base.ios == map[]
  {
    hide Shape, HeapOk, ArrayOk, ListsOk, ActiveOk, InsertedOk, AllArmed, Memberships, DurationsOk, CrowdEvents,
         CrowdPlaces, CrowdDurations, CrowdSlots, CrowdHeap, Base.Valid, Total, Base.Guarded, Base.Core, Base.MapOk,
         Mapped;
    EightSlots(late);
    CrowdShape(late);
    CrowdQueues(late);
    CrowdCounts(late);
    CrowdHeapOk(late);
    CrowdArray(late);
    CrowdLists(late);
    CrowdDurationsOk();
    NotIo(late);
    base := new Base(1, true, _ => 0);
    assert base.active == [[]];
    base.Fill(CrowdEvents(late), CrowdDurations(), [[0], [], [10]], [1, 2, 9], CrowdSlots(late), CrowdPlaces(late), 8,
              if late then 9 else 8, CrowdHeap(late));
    base.MapIs();
    base.NoneLost(if late then {0} else {});
  }

  lemma NotIo(late: bool)
    ensures Mapped(CrowdEvents(late), map[], {}, map[])
  {
    hide CrowdEvents;
    CrowdIs(late);
  }

  lemma EightSlots(late: bool)
    ensures |CrowdSlots(late)| == 8
  {
  }

  /** Event 0 may be given this time in the crowd, and comes first in the empty list. */
  lemma CrowdMove(list: int)
    requires list == -1 || list == 1
    ensures var evs, tv := CrowdEvents(false), Stamp(60, list);
      && MayAdd(evs, 3, [1, 2, 9], 0, Some(tv), true) && TimeOf(tv) == 60 && ListOf(tv) == list
      && 0 in evs && evs[0].timeout && !evs[0].io && evs[0].list == 0 && !evs[0].internal && !evs[0].active
      && (list == 1 ==> ComesFirst(evs, [[0], [], [10]], 0, 1, 60)) && Idle(evs, 2)
      && Bereft(evs, [1, 2, 9], None) == {}
  {
    hide CrowdEvents, Stamp, IsInterval, TimeOf, ListOf;
    CrowdIs(false);
    StampReads(60, list, 3);
  }

  /** Timer 9 is the first of the crowd, if nothing but event 0 has changed. */
  lemma NinthFirst(evs: Events)
    requires forall x :: x in CrowdEvents(false) && x != 0 ==> x in evs && evs[x] == CrowdEvents(false)[x]
    requires evs.Keys == CrowdEvents(false).Keys && 0 in evs && evs[0].at == 60
    ensures 9 in evs && 10 in evs && evs[9].timeout && evs[9].list == -1 && evs[10].timeout && evs[10].list == 2
    ensures forall x :: x in evs && x != 9 && evs[x].timeout && evs[x].list == -1 ==> evs[9].at < evs[x].at
    ensures Bereft(evs, [1, 2, 9], Some(9)) == {2}
  {
    hide CrowdEvents, Stamp, IsInterval, TimeOf, ListOf, Stamped;
    CrowdIs(false);
    assert [1, 2, 9][2] == 9;
  }

  /** Event 0 moves to the empty list. There is no memory, so that has an idle timer then. */
  method LeaveIdleTimer() returns (base: Base)
    ensures base.Valid() && base.unarmed == {1} && |base.lists| == |base.timers| == 3
    ensures !Armed(base.evs, base.lists[1], base.timers[1])
  {
    hide Base.Core, Base.MapOk, Base.Guarded, Base.Valid, AllArmed, Stamp, CrowdEvents, Strays, Added, OthersKeep,
         TimeOf, ListOf, SetInReach, MayAdd, ComesFirst, Bereft, Armed, Idle, CrowdSlots, Victim, LinkIndex;
    base := Crowded(false);
    CrowdMove(1);
    EightSlots(false);
    base.AreValid();
    base.NoneOutOfReach(0, 1, 60);
    var res, harm;
    ghost var victim, timerVictim;
    res, harm, victim, timerVictim := base.EventAdd(0, Some(Stamp(60, 1)), true, 0, Memory(false, false, {}));
  }

  /** Event 0 moves out of its list. There is no memory, so it is lost to the heap. */
  method LoseEvent() returns (base: Base)
    ensures fresh(base) && fresh(base.emap) && fresh(base.emap.kernel)
    ensures base.Valid() && base.lost == {0} && base.unarmed == {} && base.timers == [1, 2, 9] && |base.lists| == 3
    ensures base.evs.Keys == CrowdEvents(false).Keys && 0 in base.evs && base.evs[0].at == 60 && 0 in base.places
    ensures forall x :: x in CrowdEvents(false) && x != 0 ==> x in base.evs && base.evs[x] == CrowdEvents(false)[x]
    ensures base.places[0] == 0
  {
    hide Base.Core, Base.MapOk, Base.Guarded, Base.Valid, AllArmed, Stamp, CrowdEvents, Strays, OthersKeep, TimeOf,
         ListOf, SetInReach, MayAdd, ComesFirst, Bereft, Armed, Idle, CrowdSlots, Victim, LinkIndex;
    base := Crowded(false);
    CrowdMove(-1);
    EightSlots(false);
    base.AreValid();
    base.NoneOutOfReach(0, -1, 60);
    AloneSpells(base.spells);
    ghost var evs0 := base.evs;
    var res, harm;
    ghost var victim, timerVictim;
    res, harm, victim, timerVictim := base.EventAdd(0, Some(Stamp(60, -1)), true, 0, Memory(false, false, {}));
    OnlyOne(evs0, base.evs, [1, 2, 9], 0);
  }

  /** And when it is deleted then, the heap loses timer 9 instead, for which event 10 still waits. */
  method LoseOtherTimer() returns (base: Base)
    ensures base.Valid() && base.lost == {9} && base.unarmed == {2}
    ensures |base.lists| == |base.timers| == 3 && base.timers[2] == 9 && 10 in base.lists[2]
  {
    hide Base.Core, Base.MapOk, Base.Guarded, Base.Valid, CrowdEvents, Strays, Bereft, Victim;
    base := LoseEvent();
    NinthFirst(base.evs);
    base.ValidParts();
    base.TopIs(9);
    base.StrayIs(0);
    base.FirstVictim(0);
    var res;
    ghost var victim;
    res, victim := base.EventDel(0, true);
    base.ValidParts();
    base.OnList(10);
  }

  /** The callback of timer 1 finds event 0 not due, and no memory: the timer is not set again. */
  method CallbackLeavesIdle() returns (base: Base)
    ensures base.Valid() && base.unarmed == {0} && |base.lists| == |base.timers| == 3
    ensures base.lists[0] == [0] && !Armed(base.evs, base.lists[0], base.timers[0])
  {
    hide Base.Core, Base.MapOk, AllArmed, Stamp, CrowdEvents;
    base := Crowded(true);
    CrowdIs(true);
    assert [0][1..] == [] && base.unarmed + {0} == {0};
    base.CommonTimeoutCallback(0, 0, Memory(false, false, {}));
  }

  lemma AloneSpells(spells: Id -> LinkBits)
    ensures LinkIndex(spells, [0], 0) == 0
  {
  }

  /** No timer has been set. */
  lemma OnlyOne(evs: Events, evs': Events, timers: seq<Id>, id: Id)
    requires OthersKeep(evs, evs', id, -1, timers)
    ensures evs'.Keys == evs.Keys && forall x :: x in evs && x != id ==> x in evs' && evs'[x] == evs[x]
  {
  }

  /** An event that a failed deletion leaves on the list of its descriptor, since there is no memory to note the change;
      and that is added once more, so that the list is spoilt. */
  method AddStale() returns (base: Base)
    ensures base.Core() && !base.MapOk() && 0 in base.evs && base.evs[0].inserted && 0 in base.stale
  {
    hide Base.Valid, Base.Core, Base.Guarded, Base.MapOk, Base.MapRefuses, Base.MapKeeps, Added, OthersKeep, IsTimeSet;
    base := LeaveStale();
    base.ValidParts();
    base.TakesStale(0);
    var res, harm;
    ghost var victim, timerVictim;
    AddedNone(base.evs[0], false, 0);
    res, harm, victim, timerVictim := base.EventAdd(0, None, false, 0, Memory(true, true, {0}));
    base.ValidIs();
  }

  /** An event that a failed deletion leaves on the list of its descriptor: the change that added it has been
      dispatched, and there is no memory to note another. */
  method LeaveStale() returns (base: Base)
    ensures fresh(base) && fresh(base.emap) && fresh(base.emap.kernel)
    ensures base.Valid() && 0 in base.evs && !base.evs[0].inserted && !base.evs[0].active && base.evs[0].io
    ensures 0 in base.stale && 0 !in base.timers
    ensures 0 in base.ios && base.ios[0].fd == 3 && base.emap.Events(3) == [base.ios[0]]
  {
    hide Base.Valid, Base.Core, Base.Guarded, Base.MapOk, Base.MapKeeps, Strays, Bereft, With, Less, Victim, InReach;
    base := AddOne();
    base.AloneOnList(0);
    base.LastIsKept(0);
    base.NoneOutOfReach(0, -1, 0);
    var res;
    ghost var victim;
    res, victim := base.EventDel(0, false);
    base.AloneOnList(0);
  }

  /** A base with one event, which reads descriptor 3. */
  method AddOne() returns (base: Base)
    ensures fresh(base) && fresh(base.emap) && fresh(base.emap.kernel) && base.Valid()
    ensures base.ios.Keys == {0} && base.ios[0].fd == 3 && (base.ios[0].read || base.ios[0].write) && 0 in base.evs
    ensures base.evs[0].inserted && base.evs[0].io && base.timers == [] && base.lost == {}
    ensures base.emap.usesChangelist && base.emap.changes == []
  {
    hide Base.Valid, Base.Core, Base.Guarded, Base.MapRefuses, Added, OthersKeep, IsTimeSet, SetInReach, MaySet, With,
         Less;
    base := new Base(1, true, _ => 0);
    base.Assign(0, 0, 3, true, false, false);
    base.TakesFirst(0);
    var res, harm;
    ghost var victim, timerVictim;
    res, harm, victim, timerVictim := base.EventAdd(0, None, false, 0, Memory(true, true, {0}));
    AddedNone(NewEv(0, false, true, false), false, 0);
    base.Dispatch({});
  }
}
