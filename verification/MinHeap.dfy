/** The binary heap of minheap-internal.h: an array of events in which none is later than its children, each event knowing
    its place. The array is a sequence here, of as many events as the heap has; `places` has min_heap_idx. */
module MinHeaps {
  import opened Bytes
  import opened EventTimes
  import opened EventQueues

  /** The events have plain times. */
  ghost predicate Keyed(evs: Events, p: seq<Id>) {
    forall x :: x in p ==> x in evs && evs[x].tv == Stamp(evs[x].at, -1)
  }

  /** Slot `i` is a child of slot `h`. */
  predicate IsChild(i: int, h: int) {
    (i - 1) / 2 == h
  }

  /** Slot `i` is not earlier than its parent. */
  ghost predicate Above(evs: Events, p: seq<Id>, i: int)
    requires Keyed(evs, p)
  {
    0 < i < |p| ==> evs[p[(i - 1) / 2]].at <= evs[p[i]].at
  }

  ghost predicate Ordered(evs: Events, p: seq<Id>) {
    Keyed(evs, p) && forall i :: 0 < i < |p| ==> Above(evs, p, i)
  }

  /** Each event knows its place. */
  ghost predicate Indexed(p: seq<Id>, places: map<Id, int>) {
    forall i :: 0 <= i < |p| ==> p[i] in places && places[p[i]] == i
  }

  /** min_heap_elem_greater. */
  predicate Greater(evs: Events, a: Id, b: Id)
    requires a in evs && b in evs
  {
    TimerLess(evs[b].tv, evs[a].tv)
  }

  lemma GreaterIs(evs: Events, a: Id, b: Id)
    requires a in evs && b in evs && evs[a].tv == Stamp(evs[a].at, -1) && evs[b].tv == Stamp(evs[b].at, -1)
    ensures Greater(evs, a, b) <==> evs[b].at < evs[a].at
  {
    StampsCompare(evs[b].at, evs[a].at, -1);
  }

  /** All is in order but for the parent of slot `h`, which may be later than it, though not than its children. */
  ghost predicate OrderedBelow(evs: Events, p: seq<Id>, h: nat) {
    && Keyed(evs, p) && h < |p|
    && (forall i :: 0 < i < |p| && i != h ==> Above(evs, p, i))
    && (forall i :: 0 < i < |p| && IsChild(i, h) && h > 0 ==> evs[p[(h - 1) / 2]].at <= evs[p[i]].at)
  }

  /** All is in order but for the children of slot `h`, which may be earlier than it, though not than its parent. */
  ghost predicate OrderedAbove(evs: Events, p: seq<Id>, h: nat) {
    && Keyed(evs, p) && h < |p|
    && (forall i :: 0 < i < |p| && !IsChild(i, h) ==> Above(evs, p, i))
    && (forall i :: 0 < i < |p| && IsChild(i, h) && h > 0 ==> evs[p[(h - 1) / 2]].at <= evs[p[i]].at)
  }

  /** The same events, in other slots perhaps. */
  ghost predicate SameEvents(p: seq<Id>, q: seq<Id>) {
    |p| == |q| && forall x :: x in p <==> x in q
  }

  /** Only the places of events in slots differ. */
  ghost predicate OthersStay(p: seq<Id>, places: map<Id, int>, places': map<Id, int>) {
    places'.Keys == places.Keys && forall x :: x in places && x !in p ==> places'[x] == places[x]
  }

  /** Two events change slots. */
  lemma {:induction false} Swapped(p: seq<Id>, places: map<Id, int>, places': map<Id, int>, a: nat, b: nat)
    requires Indexed(p, places) && a < |p| && b < |p| && a != b && places'.Keys == places.Keys
    requires places'[p[b]] == a && places'[p[a]] == b
    requires forall x :: x in places && x != p[a] && x != p[b] ==> places'[x] == places[x]
    ensures var q := p[a := p[b]][b := p[a]];
            SameEvents(p, q) && Indexed(q, places')
  {
    var q := p[a := p[b]][b := p[a]];
    assert q[a] == p[b] && q[b] == p[a];
    forall x | x in p
      ensures x in q
    {
      var i :| 0 <= i < |p| && p[i] == x;
      assert x == q[if i == a then b else if i == b then a else i];
    }
    forall i | 0 <= i < |q|
      ensures q[i] in places' && places'[q[i]] == i
    {
      assert places[p[a]] == a && places[p[b]] == b && places[p[i]] == i;
    }
  }

  lemma {:induction false} MovedUp(evs: Events, p: seq<Id>, h: nat)
    requires OrderedBelow(evs, p, h) && h > 0 && evs[p[h]].at < evs[p[(h - 1) / 2]].at
    ensures OrderedBelow(evs, p[h := p[(h - 1) / 2]][(h - 1) / 2 := p[h]], (h - 1) / 2)
  {
    var d := (h - 1) / 2;
    var q := p[h := p[d]][d := p[h]];
    forall i | 0 < i < |q| && i != d
      ensures Above(evs, q, i)
    {
      assert i != h ==> Above(evs, p, i);
    }
    forall i | 0 < i < |q| && IsChild(i, d) && d > 0
      ensures evs[q[(d - 1) / 2]].at <= evs[q[i]].at
    {
      assert Above(evs, p, d);
      assert i != h ==> Above(evs, p, i);
    }
  }

  lemma {:induction false} MovedDown(evs: Events, p: seq<Id>, h: nat, c: nat)
    requires OrderedAbove(evs, p, h) && 0 < c < |p| && IsChild(c, h)
    requires forall i :: 0 < i < |p| && IsChild(i, h) ==> evs[p[c]].at <= evs[p[i]].at
    requires evs[p[c]].at <= evs[p[h]].at
    ensures OrderedAbove(evs, p[h := p[c]][c := p[h]], c)
  {
    var q := p[h := p[c]][c := p[h]];
    forall i | 0 < i < |q| && !IsChild(i, c)
      ensures Above(evs, q, i)
    {
      if !IsChild(i, h) {
        assert Above(evs, p, i);
      }
    }
    forall i | 0 < i < |q| && IsChild(i, c)
      ensures evs[q[(c - 1) / 2]].at <= evs[q[i]].at
    {
      assert Above(evs, p, i);
    }
  }

  lemma ParentKeyed(evs: Events, p: seq<Id>, h: nat, i: nat, above: bool)
    requires if above then OrderedAbove(evs, p, h) else OrderedBelow(evs, p, h)
    requires i < |p|
    ensures p[i] in evs && evs[p[i]].tv == Stamp(evs[p[i]].at, -1) && p[h] in evs
            && evs[p[h]].tv == Stamp(evs[p[h]].at, -1)
  {
  }

  lemma UpOrdered(evs: Events, p: seq<Id>, h: nat)
    requires OrderedBelow(evs, p, h)
    requires h > 0 ==> evs[p[(h - 1) / 2]].at <= evs[p[h]].at
    ensures Ordered(evs, p)
  {
  }

  /** min_heap_shift_up_: event `e` goes into slot `hole`, or further up. */
  method ShiftUp(evs: Events, p: seq<Id>, places: map<Id, int>, hole: nat, e: Id)
    returns (q: seq<Id>, places': map<Id, int>)
    requires hole < |p| && OrderedBelow(evs, p[hole := e], hole) && Indexed(p[hole := e], places[e := hole])
             && e in places
    ensures Ordered(evs, q) && Indexed(q, places') && SameEvents(p[hole := e], q)
    ensures OthersStay(q, places, places')
  {
    hide TimerLess, Stamp, Greater, Ordered, OrderedBelow, Keyed, Above;
    var h := hole;
    q, places' := p, places;
    while h > 0
      invariant 0 <= h < |q| == |p| && e in places' && places'.Keys == places.Keys
      invariant OrderedBelow(evs, q[h := e], h) && Indexed(q[h := e], places'[e := h])
      invariant SameEvents(p[hole := e], q[h := e]) && OthersStay(q[h := e], places, places')
    {
      var parent := (h - 1) / 2;
      ghost var s, m := q[h := e], places'[e := h];
      assert s[h] == e && s[parent] == q[parent];
      ParentKeyed(evs, s, h, parent, false);
      GreaterIs(evs, q[parent], e);
      if !Greater(evs, q[parent], e) {
        break;
      }
      MovedUp(evs, s, h);
      places' := places'[q[parent] := h];
      Swapped(s, m, places'[e := parent], h, parent);
      q := q[h := q[parent]];
      assert q[parent := e] == s[h := s[parent]][parent := e];
      h := parent;
    }
    UpOrdered(evs, q[h := e], h);
    q, places' := q[h := e], places'[e := h];
    assert q[h] == e;
  }

  lemma DownOrdered(evs: Events, p: seq<Id>, h: nat)
    requires OrderedAbove(evs, p, h)
    requires forall i :: 0 < i < |p| && IsChild(i, h) ==> evs[p[h]].at <= evs[p[i]].at
    ensures Ordered(evs, p)
  {
  }

  /** The children of slot `h` are in the slots 2h + 1 and 2h + 2. */
  lemma ChildOf(h: nat, i: nat)
    ensures i > 0 && IsChild(i, h) <==> i == 2 * h + 1 || i == 2 * h + 2
  {
  }

  /** min_heap_shift_down_: event `e` goes into slot `hole`, or further down. */
  method ShiftDown(evs: Events, p: seq<Id>, places: map<Id, int>, hole: nat, e: Id)
    returns (q: seq<Id>, places': map<Id, int>)
    requires hole < |p| && OrderedAbove(evs, p[hole := e], hole) && Indexed(p[hole := e], places[e := hole])
             && e in places
    ensures Ordered(evs, q) && Indexed(q, places') && SameEvents(p[hole := e], q)
    ensures OthersStay(q, places, places')
  {
    hide TimerLess, Stamp, Greater, Ordered, OrderedAbove, Keyed, Above;
    var h, n := hole, |p|;
    q, places' := p, places;
    var minChild := 2 * (h + 1);
    while minChild <= n
      invariant 0 <= h < |q| == n && n == |p| && e in places' && places'.Keys == places.Keys && minChild == 2 * (h + 1)
      invariant OrderedAbove(evs, q[h := e], h) && Indexed(q[h := e], places'[e := h])
      invariant SameEvents(p[hole := e], q[h := e]) && OthersStay(q[h := e], places, places')
      decreases n - h
    {
      ghost var s, m := q[h := e], places'[e := h];
      var right := minChild;
      if right < n {
        ParentKeyed(evs, s, h, right, true);
        ParentKeyed(evs, s, h, right - 1, true);
        GreaterIs(evs, s[right], s[right - 1]);
      }
      if right == n || Greater(evs, q[right], q[right - 1]) {
        minChild := right - 1;
      }
      ParentKeyed(evs, s, h, minChild, true);
      GreaterIs(evs, e, q[minChild]);
      forall i | 0 < i < n && IsChild(i, h)
        ensures i == right || i == right - 1
      {
        ChildOf(h, i);
      }
      if !Greater(evs, e, q[minChild]) {
        break;
      }
      MovedDown(evs, s, h, minChild);
      places' := places'[q[minChild] := h];
      Swapped(s, m, places'[e := minChild], h, minChild);
      q := q[h := q[minChild]];
      assert q[minChild := e] == s[h := s[minChild]][minChild := e];
      h := minChild;
      minChild := 2 * (h + 1);
    }
    forall i | 0 < i < n && IsChild(i, h)
      ensures evs[e].at <= evs[q[h := e][i]].at
    {
    }
    DownOrdered(evs, q[h := e], h);
    q, places' := q[h := e], places'[e := h];
    assert q[h] == e;
  }

  /** min_heap_push, where there is room for another event. */
  method Push(evs: Events, p: seq<Id>, places: map<Id, int>, e: Id) returns (q: seq<Id>, places': map<Id, int>)
    requires Ordered(evs, p) && Indexed(p, places) && e in places && e !in p
    requires e in evs && evs[e].tv == Stamp(evs[e].at, -1)
    ensures Ordered(evs, q) && Indexed(q, places') && |q| == |p| + 1 && OthersStay(q, places, places')
    ensures forall x :: x in q <==> x in p || x == e
  {
    var n := |p|;
    Appended(evs, p, e);
    assert (p + [e])[n := e] == p + [e];
    q, places' := ShiftUp(evs, p + [e], places, n, e);
  }

  lemma {:induction false} Appended(evs: Events, p: seq<Id>, e: Id)
    requires Ordered(evs, p) && e in evs && evs[e].tv == Stamp(evs[e].at, -1)
    ensures OrderedBelow(evs, p + [e], |p|)
  {
    hide Stamp;
    var q := p + [e];
    forall i | 0 < i < |q| && i != |p|
      ensures Above(evs, q, i)
    {
      assert Above(evs, p, i);
    }
  }

  /** min_heap_erase: the event at the place that `id` knows leaves the array, which is `id` itself if that is in it. The
      last event takes its slot, and then goes up or down. */
  method Erase(evs: Events, p: seq<Id>, places: map<Id, int>, id: Id) returns (q: seq<Id>, places': map<Id, int>)
    requires Ordered(evs, p) && Indexed(p, places) && id in places && 0 <= places[id] < |p|
    ensures Ordered(evs, q) && Indexed(q, places') && |q| == |p| - 1 && id !in q
    ensures forall x :: x in q <==> x in p && x != p[places[id]]
    ensures places'.Keys == places.Keys && places'[id] == -1
    ensures forall x :: x in places && x !in q && x != id ==> places'[x] == places[x]
  {
    hide TimerLess, Stamp, Greater, Ordered, Keyed, Above, OrderedAbove, OrderedBelow;
    var n := |p| - 1;
    var last, k := p[n], places[id];
    LeftOver(p, places, k);
    if k == n {
      q, places' := p[..n], places;
      FrontOrdered(evs, p, n);
    } else {
      var parent := (k - 1) / 2;
      if k > 0 {
        KeyedAt(evs, p, parent);
        KeyedAt(evs, p, n);
        GreaterIs(evs, p[parent], last);
      }
      if k > 0 && Greater(evs, p[parent], last) {
        FilledBelow(evs, p, k);
        q, places' := ShiftUp(evs, p[..n], places, k, last);
      } else {
        FilledAbove(evs, p, k);
        q, places' := ShiftDown(evs, p[..n], places, k, last);
      }
    }
    assert id !in q;
    places' := places'[id := -1];
  }

  lemma KeyedAt(evs: Events, p: seq<Id>, i: nat)
    requires Ordered(evs, p) && i < |p|
    ensures p[i] in evs && evs[p[i]].tv == Stamp(evs[p[i]].at, -1)
  {
  }

  lemma {:induction false} LeftOver(p: seq<Id>, places: map<Id, int>, k: nat)
    requires Indexed(p, places) && k < |p|
    ensures var n := |p| - 1;
            if k == n then Indexed(p[..n], places) && forall x :: x in p[..n] <==> x in p && x != p[k]
            else var s := p[..n][k := p[n]];
                 Indexed(s, places[p[n] := k]) && forall x :: x in s <==> x in p && x != p[k]
  {
    var n := |p| - 1;
    var s := if k == n then p[..n] else p[..n][k := p[n]];
    forall x | x in p && x != p[k]
      ensures x in s
    {
      var i :| 0 <= i < |p| && p[i] == x;
      assert x == s[if i == n then k else i];
    }
    forall x | x in s
      ensures x in p && x != p[k]
    {
      var i :| 0 <= i < |s| && s[i] == x;
      var j := if i == k then n else i;
      assert x == p[j] && places[p[j]] == j && places[p[k]] == k;
    }
    assert k < n ==> places[p[k]] == k && places[p[n]] == n;
  }

  lemma {:induction false} FrontOrdered(evs: Events, p: seq<Id>, n: nat)
    requires Ordered(evs, p) && n <= |p|
    ensures Ordered(evs, p[..n])
  {
    hide Stamp;
    forall i | 0 < i < n
      ensures Above(evs, p[..n], i)
    {
      assert Above(evs, p, i);
    }
  }

  lemma {:induction false} FilledBelow(evs: Events, p: seq<Id>, k: nat)
    requires Ordered(evs, p) && 0 < k < |p| - 1 && evs[p[|p| - 1]].at < evs[p[(k - 1) / 2]].at
    ensures OrderedBelow(evs, p[..|p| - 1][k := p[|p| - 1]], k)
  {
    hide Stamp;
    var q := p[..|p| - 1][k := p[|p| - 1]];
    forall i | 0 < i < |q| && i != k
      ensures Above(evs, q, i) && (IsChild(i, k) ==> evs[q[(k - 1) / 2]].at <= evs[q[i]].at)
    {
      assert Above(evs, p, i) && Above(evs, p, k);
    }
  }

  lemma {:induction false} FilledAbove(evs: Events, p: seq<Id>, k: nat)
    requires Ordered(evs, p) && k < |p| - 1 && (k > 0 ==> evs[p[(k - 1) / 2]].at <= evs[p[|p| - 1]].at)
    ensures OrderedAbove(evs, p[..|p| - 1][k := p[|p| - 1]], k)
  {
    hide Stamp;
    var q := p[..|p| - 1][k := p[|p| - 1]];
    forall i | 0 < i < |q|
      ensures !IsChild(i, k) ==> Above(evs, q, i)
      ensures IsChild(i, k) && k > 0 ==> evs[q[(k - 1) / 2]].at <= evs[q[i]].at
    {
      assert Above(evs, p, i) && (k > 0 ==> Above(evs, p, k));
    }
  }

  /** The event in the first slot is not later than any other. */
  lemma {:induction false} TopIsLeast(evs: Events, p: seq<Id>, i: nat)
    requires Ordered(evs, p) && i < |p|
    ensures evs[p[0]].at <= evs[p[i]].at
  {
    if i > 0 {
      assert Above(evs, p, i);
      TopIsLeast(evs, p, (i - 1) / 2);
    }
  }

  /** The array has the events of the heap, and an event that is lost has some index that is not -1. */
  ghost predicate ArrayOk(evs: Events, heap: set<Id>, lost: set<Id>, slots: seq<Id>, places: map<Id, int>) {
    && |slots| == |heap| && (forall x :: x in heap <==> x in slots)
    && Ordered(evs, slots) && Indexed(slots, places)
    && (forall x :: x in evs ==> x in places)
    && (forall x :: x in lost ==> x in places && places[x] != -1)
  }

  /** The time of an event in the array does not change. */
  lemma {:induction false} StillOrdered(evs: Events, p: seq<Id>, id: Id, e: Ev)
    requires Ordered(evs, p) && (id in p && id in evs ==> e.at == evs[id].at && e.tv == evs[id].tv)
    ensures Ordered(evs[id := e], p)
  {
    hide Stamp;
    var now := evs[id := e];
    assert Keyed(now, p);
    forall i | 0 < i < |p|
      ensures Above(now, p, i)
    {
      assert Above(evs, p, i);
    }
  }

  /** The time of an event in the heap does not change. */
  lemma {:induction false} ArrayKeeps(evs: Events, heap: set<Id>, lost: set<Id>, slots: seq<Id>, places: map<Id, int>,
                                      id: Id, e: Ev)
    requires ArrayOk(evs, heap, lost, slots, places) && id in evs
    requires id in heap ==> e.at == evs[id].at && e.tv == evs[id].tv
    ensures ArrayOk(evs[id := e], heap, lost, slots, places)
  {
    hide Ordered;
    StillOrdered(evs, slots, id, e);
  }

  lemma KeyedIn(evs: Events, p: seq<Id>)
    requires Ordered(evs, p)
    ensures forall x :: x in p ==> x in evs
  {
  }

  /** A new event knows no place. */
  lemma {:induction false} ArrayNew(evs: Events, heap: set<Id>, lost: set<Id>, slots: seq<Id>, places: map<Id, int>,
                                    id: Id, e: Ev)
    requires ArrayOk(evs, heap, lost, slots, places) && id !in evs && forall x :: x in lost ==> x in evs
    ensures ArrayOk(evs[id := e], heap, lost, slots, places[id := -1])
  {
    hide Ordered;
    KeyedIn(evs, slots);
    StillOrdered(evs, slots, id, e);
  }

  /** All times in the heap move alike. */
  lemma {:induction false} ArrayShifts(evs: Events, heap: set<Id>, lost: set<Id>, slots: seq<Id>, places: map<Id, int>,
                                       off: int)
    requires ArrayOk(evs, heap, lost, slots, places) && HeapOk(evs, heap, lost)
    ensures ArrayOk(Shifted(evs, lost, off), heap, lost, slots, places)
  {
    hide Stamp;
    var now := Shifted(evs, lost, off);
    assert Keyed(now, slots);
    forall i | 0 < i < |slots|
      ensures Above(now, slots, i)
    {
      assert Above(evs, slots, i) && slots[i] in heap && slots[(i - 1) / 2] in heap;
    }
  }

  /** An event has been erased, or another one in its place. */
  lemma {:induction false} ArrayErased(evs: Events, heap: set<Id>, lost: set<Id>, slots: seq<Id>, places: map<Id, int>,
                                       id: Id, e: Ev, victim: Option<Id>, q: seq<Id>, places': map<Id, int>)
    requires ArrayOk(evs, heap, lost, slots, places) && id in evs && 0 <= places[id] < |slots|
    requires Ordered(evs, q) && Indexed(q, places') && id !in q && |q| == |slots| - 1
    requires forall x :: x in q <==> x in slots && x != slots[places[id]]
    requires places'.Keys == places.Keys
    requires forall x :: x in places && x !in q && x != id ==> places'[x] == places[x]
    requires victim == (if slots[places[id]] == id then None else Some(slots[places[id]])) && (victim.None? <==> id in heap)
    requires |Less(heap - {id}, victim)| == |heap| - 1 && forall x :: x in lost ==> x !in heap
    ensures ArrayOk(evs[id := e], Less(heap - {id}, victim), With(lost - {id}, victim), q, places')
  {
    hide Ordered;
    StillOrdered(evs, q, id, e);
    var k := places[id];
    assert slots[k] in slots && places[slots[k]] == k;
    assert victim == None ==> heap - {id} == Less(heap - {id}, victim);
  }

  /** An event has been pushed. */
  lemma {:induction false} ArrayPushed(evs: Events, heap: set<Id>, lost: set<Id>, slots: seq<Id>, places: map<Id, int>,
                                       id: Id, e: Ev, q: seq<Id>, places': map<Id, int>)
    requires ArrayOk(evs, heap, lost, slots, places) && id in evs && id !in heap && id !in lost
    requires e.at == evs[id].at && e.tv == evs[id].tv
    requires Ordered(evs, q) && Indexed(q, places') && |q| == |slots| + 1 && OthersStay(q, places, places')
    requires forall x :: x in q <==> x in slots || x == id
    requires |heap + {id}| == |heap| + 1 && forall x :: x in lost ==> x !in heap
    ensures ArrayOk(evs[id := e], heap + {id}, lost, q, places')
  {
    hide Ordered;
    StillOrdered(evs, q, id, e);
  }

  /** An event that is not in the array comes to know some place, or is lost with the place that it knows. */
  lemma ArrayPlace(evs: Events, heap: set<Id>, lost: set<Id>, slots: seq<Id>, places: map<Id, int>, id: Id, k: int)
    requires ArrayOk(evs, heap, lost, slots, places) && id in evs && id !in heap
    ensures id !in lost || k != -1 ==> ArrayOk(evs, heap, lost, slots, places[id := k])
    ensures places[id] != -1 ==> ArrayOk(evs, heap, lost + {id}, slots, places)
  {
  }
}
