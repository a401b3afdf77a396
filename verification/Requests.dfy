/** The DNS requests of evdns.c: those in flight, in a hash table of circular lists, and those that wait, in one more
    circular list. Search domains, the clearing of nameservers and the end of the base are not here. */
module DnsRequests {
  import opened Bytes

  const NO_ID: nat := 0xffff

  /** struct request; `ns` is the number of its nameserver, or 0 for none. */
  class Request {
    var next: Request?
    var prev: Request?
    var transId: nat
    var ns: nat

    constructor (transId: nat, ns: nat)
      ensures next == null && prev == null && this.transId == transId && this.ns == ns
    {
      next, prev, this.transId, this.ns := null, null, transId, ns;
    }
  }

  // Circular lists.

  function Succ(i: int, n: int): int {
    if i + 1 < n then i + 1 else 0
  }

  function Pred(i: int, n: int): int {
    if i > 0 then i - 1 else n - 1
  }

  /** `head` is the first of the requests `rs`, each linked to the ones beside it and the last to the first. */
  ghost predicate Ring(head: Request?, rs: seq<Request>)
    reads rs`next, rs`prev
  {
    && NoRepeats(rs)
    && head == (if rs == [] then null else rs[0])
    && forall i :: 0 <= i < |rs| ==> rs[i].next == rs[Succ(i, |rs|)] && rs[i].prev == rs[Pred(i, |rs|)]
  }

  /** evdns_request_insert. */
  method Insert(req: Request, head: Request?, ghost rs: seq<Request>) returns (h: Request?)
    requires Ring(head, rs) && req !in rs
    modifies req`next, req`prev, rs`next, rs`prev
    ensures Ring(h, rs + [req])
  {
    if head == null {
      req.next := req;
      req.prev := req;
      return req;
    }
    h := head;
    assert head.prev == rs[|rs| - 1];
    req.prev := head.prev;
    req.prev.next := req;
    req.next := head;
    head.prev := req;
  }

  ghost function Cut(rs: seq<Request>, k: nat): seq<Request>
    requires k < |rs|
  {
    rs[..k] + rs[k + 1..]
  }

  /** All but request `k` are linked past it. */
  ghost predicate Bridged(rs: seq<Request>, k: nat)
    requires k < |rs|
    reads rs`next, rs`prev
  {
    var n := |rs|;
    forall i :: 0 <= i < n && i != k ==>
      && rs[i].next == rs[if Succ(i, n) == k then Succ(k, n) else Succ(i, n)]
      && rs[i].prev == rs[if Pred(i, n) == k then Pred(k, n) else Pred(i, n)]
  }

  lemma {:induction false} BridgedRing(h: Request?, rs: seq<Request>, k: nat)
    requires k < |rs| && NoRepeats(rs) && Bridged(rs, k)
    requires h == if |rs| == 1 then null else if k == 0 then rs[1] else rs[0]
    ensures Ring(h, Cut(rs, k))
  {
    hide Bridged, NoRepeats;
    CutHas(rs, k);
    var few := Cut(rs, k);
    forall j | 0 <= j < |few|
      ensures few[j].next == few[Succ(j, |few|)] && few[j].prev == few[Pred(j, |few|)]
    {
      BridgedAt(rs, k, j);
    }
  }

  lemma BridgedAt(rs: seq<Request>, k: nat, j: nat)
    requires k < |rs| && Bridged(rs, k) && j < |rs| - 1
    ensures var few := Cut(rs, k); few[j].next == few[Succ(j, |few|)] && few[j].prev == few[Pred(j, |few|)]
  {
    var n, few, i := |rs|, Cut(rs, k), if j < k then j else j + 1;
    assert few[j] == rs[i];
    var s, p := Succ(j, n - 1), Pred(j, n - 1);
    assert few[s] == rs[if s < k then s else s + 1];
    assert few[p] == rs[if p < k then p else p + 1];
  }

  /** Where the links of a ring lead, as values. */
  ghost predicate Links(rs: seq<Request>, nexts: seq<Request?>, prevs: seq<Request?>) {
    && |nexts| == |prevs| == |rs|
    && forall i :: 0 <= i < |rs| ==> nexts[i] == rs[Succ(i, |rs|)] && prevs[i] == rs[Pred(i, |rs|)]
  }

  lemma RingLinks(head: Request?, rs: seq<Request>) returns (nexts: seq<Request?>, prevs: seq<Request?>)
    requires Ring(head, rs)
    ensures Links(rs, nexts, prevs) && NoRepeats(rs)
    ensures forall i :: 0 <= i < |rs| ==> rs[i].next == nexts[i] && rs[i].prev == prevs[i]
    ensures head == if rs == [] then null else rs[0]
  {
    nexts, prevs := [], [];
    var k := 0;
    while k < |rs|
      invariant k <= |rs| && |nexts| == |prevs| == k
      invariant forall i :: 0 <= i < k ==> nexts[i] == rs[Succ(i, |rs|)] && prevs[i] == rs[Pred(i, |rs|)]
    {
      nexts, prevs := nexts + [rs[Succ(k, |rs|)]], prevs + [rs[Pred(k, |rs|)]];
      k := k + 1;
    }
  }

  lemma LinkAt(rs: seq<Request>, nexts: seq<Request?>, prevs: seq<Request?>, k: nat)
    requires Links(rs, nexts, prevs) && k < |rs|
    ensures nexts[k] == rs[Succ(k, |rs|)] && prevs[k] == rs[Pred(k, |rs|)]
  {
  }

  lemma {:induction false} BridgedFrom(rs: seq<Request>, k: nat, nexts: seq<Request?>, prevs: seq<Request?>)
    requires Links(rs, nexts, prevs) && k < |rs|
    requires var s, p := Succ(k, |rs|), Pred(k, |rs|);
             forall i :: 0 <= i < |rs| && i != k ==>
               && rs[i].next == (if i == p then rs[s] else nexts[i])
               && rs[i].prev == (if i == s then rs[p] else prevs[i])
    ensures Bridged(rs, k)
  {
    hide Links;
    forall i | 0 <= i < |rs| && i != k
      ensures rs[i].next == rs[if Succ(i, |rs|) == k then Succ(k, |rs|) else Succ(i, |rs|)]
      ensures rs[i].prev == rs[if Pred(i, |rs|) == k then Pred(k, |rs|) else Pred(i, |rs|)]
    {
      LinkAt(rs, nexts, prevs, i);
    }
  }

  /** evdns_request_remove. */
  method Remove(req: Request, head: Request?, ghost rs: seq<Request>, ghost k: nat) returns (h: Request?)
    requires Ring(head, rs) && k < |rs| && rs[k] == req
    modifies rs`next, rs`prev
    ensures Ring(h, Cut(rs, k)) && req.next == null && req.prev == null
  {
    hide Ring, Links, Bridged;
    ghost var nexts, prevs := RingLinks(head, rs);
    LinkAt(rs, nexts, prevs, k);
    ghost var s, p := Succ(k, |rs|), Pred(k, |rs|);
    h := head;
    if req.next == req {
      h := null;
    } else {
      req.next.prev := req.prev;
      req.prev.next := req.next;
      if head == req {
        h := req.next;
      }
    }
    req.next := null;
    req.prev := null;
    BridgedFrom(rs, k, nexts, prevs);
    BridgedRing(h, rs, k);
  }

  // The hash table.

  /** REQ_HEAD: the list for an id. */
  function Bucket(id: nat, n: nat): (i: nat)
    requires n > 0
    ensures i < n
  {
    id % n
  }

  /** The requests of a list are of the table, and their ids belong to the list. */
  ghost predicate Keyed(rs: seq<Request>, elems: set<Request>, i: int, n: nat)
    requires n > 0
    reads rs`transId
  {
    forall r :: r in rs ==> r in elems && Bucket(r.transId, n) == i
  }

  /** Every request of the table is in the list of its id. */
  ghost predicate Filed(elems: set<Request>, rings: seq<seq<Request>>)
    requires rings != []
    reads elems`transId
  {
    forall r :: r in elems ==> r in rings[Bucket(r.transId, |rings|)]
  }

  ghost predicate DistinctIds(elems: set<Request>)
    reads elems`transId
  {
    forall r, s :: r in elems && s in elems && r.transId == s.transId ==> r == s
  }

  /** A list gets one more request, and so does the table. */
  lemma {:induction false} FiledMore(elems: set<Request>, rings: seq<seq<Request>>, req: Request)
    requires rings != [] && Filed(elems, rings) && DistinctIds(elems) && req !in elems
    requires forall r :: r in elems ==> r.transId != req.transId
    ensures var i := Bucket(req.transId, |rings|);
            Filed(elems + {req}, rings[i := rings[i] + [req]]) && DistinctIds(elems + {req})
  {
  }

  lemma {:induction false} FiledLess(elems: set<Request>, rings: seq<seq<Request>>, req: Request, k: nat)
    requires rings != [] && Filed(elems, rings) && DistinctIds(elems)
    requires var i := Bucket(req.transId, |rings|); k < |rings[i]| && rings[i][k] == req && NoRepeats(rings[i])
    ensures var i := Bucket(req.transId, |rings|);
            Filed(elems - {req}, rings[i := Cut(rings[i], k)]) && DistinctIds(elems - {req})
  {
    CutHas(rings[Bucket(req.transId, |rings|)], k);
  }

  lemma {:induction false} KeyedMore(rs: seq<Request>, elems: set<Request>, i: int, n: nat, req: Request)
    requires n > 0 && Keyed(rs, elems, i, n)
    ensures Keyed(rs, elems + {req}, i, n)
    ensures Bucket(req.transId, n) == i ==> Keyed(rs + [req], elems + {req}, i, n)
  {
  }

  lemma InOwnList(elems: set<Request>, rings: seq<seq<Request>>, req: Request)
    requires rings != [] && Filed(elems, rings) && req in elems
    ensures req in rings[Bucket(req.transId, |rings|)]
  {
  }

  lemma KeyedHas(rs: seq<Request>, elems: set<Request>, i: int, n: nat)
    requires n > 0 && Keyed(rs, elems, i, n)
    ensures forall r :: r in rs ==> r in elems
  {
  }

  lemma {:induction false} KeyedLess(rs: seq<Request>, elems: set<Request>, i: int, n: nat, req: Request)
    requires n > 0 && Keyed(rs, elems, i, n)
    ensures req !in rs ==> Keyed(rs, elems - {req}, i, n)
    ensures forall k :: 0 <= k < |rs| && rs[k] == req && NoRepeats(rs) ==> Keyed(Cut(rs, k), elems - {req}, i, n)
  {
    forall k | 0 <= k < |rs| && rs[k] == req && NoRepeats(rs)
      ensures Keyed(Cut(rs, k), elems - {req}, i, n)
    {
      CutHas(rs, k);
    }
  }

  /** base->req_heads: a circular list for each remainder of the transaction ids. */
  class RequestTable {
    var heads: seq<Request?>
    ghost var rings: seq<seq<Request>>
    ghost var elems: set<Request>

    constructor (n: nat)
      requires n > 0
      ensures Valid() && elems == {} && |heads| == n
    {
      heads := seq(n, _ => null);
      rings := seq(n, _ => []);
      elems := {};
      new;
      TotalNone(rings);
    }

    /** The requests are in the lists of their ids, each id once. */
    ghost predicate Valid()
      reads this, elems
    {
      && |heads| == |rings| > 0
      && (forall i :: 0 <= i < |rings| ==> InBucket(i))
      && Filed(elems, rings) && DistinctIds(elems)
      && Total(rings) == |elems|
    }

    ghost predicate InBucket(i: int)
      requires 0 <= i < |rings| == |heads|
      reads this, elems
    {
      (forall r :: r in rings[i] ==> r in elems) && Keyed(rings[i], elems, i, |rings|) && Ring(heads[i], rings[i])
    }

    /** request_find_from_trans_id. */
    method Find(transId: nat) returns (found: Request?)
      requires Valid()
      ensures found != null ==> found in elems && found.transId == transId
      ensures found == null ==> forall r :: r in elems ==> r.transId != transId
    {
      hide Total;
      var i := Bucket(transId, |heads|);
      assert InBucket(i);
      var req := heads[i];
      ghost var rs, k := rings[i], 0;
      if req != null {
        var startedAt: Request? := req;
        while true
          invariant 0 <= k < |rs| && req == rs[k]
          invariant forall j :: 0 <= j < k ==> rs[j].transId != transId
          decreases |rs| - k
        {
          if req.transId == transId {
            return req;
          }
          assert rs[k].next == rs[Succ(k, |rs|)];
          req := req.next;
          k := k + 1;
          if req == startedAt {
            break;
          }
        }
      }
      found := null;
    }

    lemma MakeBucket(i: int)
      requires 0 <= i < |rings| == |heads| && Keyed(rings[i], elems, i, |rings|) && Ring(heads[i], rings[i])
      ensures InBucket(i)
    {
      KeyedHas(rings[i], elems, i, |rings|);
    }

    lemma OthersApart(i: int)
      requires Valid() && 0 <= i < |rings|
      ensures forall j :: 0 <= j < |rings| ==> Ring(heads[j], rings[j]) && Keyed(rings[j], elems, j, |rings|)
      ensures forall j, x :: 0 <= j < |rings| && j != i && x in rings[j] ==> x !in rings[i] && x in elems
      ensures forall j, x :: 0 <= j < |rings| && x in rings[j] ==> x in elems
    {
      assert InBucket(i);
      forall j | 0 <= j < |rings|
        ensures Ring(heads[j], rings[j]) && Keyed(rings[j], elems, j, |rings|)
        ensures forall x :: x in rings[j] ==> (j != i ==> x !in rings[i]) && x in elems
      {
        assert InBucket(j);
      }
    }

    /** One list gets another head and other requests. */
    method SetList(i: int, h: Request?, ghost all: set<Request>, ghost after: seq<Request?>,
                   ghost lists: seq<seq<Request>>)
      requires 0 <= i < |heads| && after == heads[i := h] && |lists| == |heads|
      requires Filed(all, lists) && DistinctIds(all) && Total(lists) == |all|
      requires forall j :: 0 <= j < |lists| ==> Ring(after[j], lists[j]) && Keyed(lists[j], all, j, |lists|)
      modifies this
      ensures Valid() && elems == all && rings == lists && heads == after
    {
      hide Ring, Total, NoRepeats, Keyed, Filed, DistinctIds, Bucket, InBucket;
      heads, rings, elems := heads[i := h], lists, all;
      forall j | 0 <= j < |rings|
        ensures InBucket(j)
      {
        MakeBucket(j);
      }
    }

    /** evdns_request_insert at the list of the request's id. */
    method Put(req: Request)
      requires Valid() && req !in elems && forall r :: r in elems ==> r.transId != req.transId
      modifies this, elems`next, elems`prev, req`next, req`prev
      ensures Valid() && elems == old(elems) + {req} && |heads| == |old(heads)|
    {
      hide Ring, Total, NoRepeats, Keyed, Filed, DistinctIds, Bucket, InBucket;
      var i := Bucket(req.transId, |heads|);
      OthersApart(i);
      ghost var rs := rings[i];
      assert forall j :: 0 <= j < |rs| ==> rs[j] in elems;
      FiledMore(elems, rings, req);
      TotalUpdate(rings, i, rs + [req]);
      var h := Insert(req, heads[i], rs);
      ghost var after, lists := heads[i := h], rings[i := rs + [req]];
      forall j | 0 <= j < |lists|
        ensures Keyed(lists[j], elems + {req}, j, |lists|)
      {
        KeyedMore(rings[j], elems, j, |rings|, req);
      }
      SetList(i, h, elems + {req}, after, lists);
    }

    /** evdns_request_remove from the list of the request's id. */
    method Take(req: Request)
      requires Valid() && req in elems
      modifies this, elems`next, elems`prev
      ensures Valid() && elems == old(elems) - {req} && |heads| == |old(heads)|
      ensures req.next == null && req.prev == null
      ensures forall j :: 0 <= j < |heads| && j != Bucket(req.transId, |heads|) ==> heads[j] == old(heads)[j]
    {
      hide Ring, Total, NoRepeats, Keyed, Filed, DistinctIds, Cut, Bucket, InBucket;
      var i := Bucket(req.transId, |heads|);
      OthersApart(i);
      ghost var rs := rings[i];
      InOwnList(elems, rings, req);
      ghost var k :| 0 <= k < |rs| && rs[k] == req;
      assert forall j :: 0 <= j < |rs| ==> rs[j] in elems;
      RingDistinct(heads[i], rs);
      FiledLess(elems, rings, req, k);
      CutHas(rs, k);
      var h := Remove(req, heads[i], rs, k);
      TotalUpdate(rings, i, Cut(rs, k));
      ghost var after, lists := heads[i := h], rings[i := Cut(rs, k)];
      forall j | 0 <= j < |lists|
        ensures Keyed(lists[j], elems - {req}, j, |lists|)
      {
        KeyedLess(rings[j], elems, j, |rings|, req);
      }
      SetList(i, h, elems - {req}, after, lists);
    }
  }

  /** Without a head there is no list, and without lists no request. */
  lemma NoHeads(t: RequestTable)
    requires t.Valid() && forall j :: 0 <= j < |t.heads| ==> t.heads[j] == null
    ensures t.elems == {}
  {
    forall i | 0 <= i < |t.rings|
      ensures t.rings[i] == []
    {
      assert t.InBucket(i);
    }
    TotalNone(t.rings);
  }

  lemma HeadHas(t: RequestTable, i: int)
    requires t.Valid() && 0 <= i < |t.heads| && t.heads[i] != null
    ensures t.heads[i] in t.elems && Bucket(t.heads[i].transId, |t.heads|) == i
  {
    assert t.InBucket(i);
    assert t.heads[i] in t.rings[i];
  }

  lemma {:induction false} IdsApart(all: set<Request>, some: set<Request>, req: Request)
    requires DistinctIds(all) && some <= all && req in all && req !in some
    ensures forall r :: r in some ==> r.transId != req.transId
  {
  }

  lemma RingDistinct(head: Request?, rs: seq<Request>)
    requires Ring(head, rs)
    ensures NoRepeats(rs)
  {
  }

  lemma {:induction false} CutHas(rs: seq<Request>, k: nat)
    requires NoRepeats(rs) && k < |rs|
    ensures forall x: Request :: x in Cut(rs, k) <==> x in rs && x != rs[k]
    ensures |Cut(rs, k)| == |rs| - 1
    ensures forall j :: 0 <= j < |Cut(rs, k)| ==> Cut(rs, k)[j] in rs && Cut(rs, k)[j] != rs[k]
    ensures NoRepeats(Cut(rs, k))
  {
    forall a, b | 0 <= a < b < |Cut(rs, k)|
      ensures Cut(rs, k)[a] != Cut(rs, k)[b]
    {
      assert Cut(rs, k)[a] == rs[if a < k then a else a + 1] && Cut(rs, k)[b] == rs[if b < k then b else b + 1];
    }
    forall x: Request
      ensures x in Cut(rs, k) <==> x in rs && x != rs[k]
    {
      if x in rs && x != rs[k] {
        var j :| 0 <= j < |rs| && rs[j] == x;
        assert Cut(rs, k)[if j < k then j else j - 1] == x;
      }
    }
  }

  // The base.

  /** The first `k` requests of a list. */
  ghost function FirstOf(rs: seq<Request>, k: nat): set<Request>
    requires k <= |rs|
  {
    set r | r in rs[..k]
  }

  lemma FirstNone(rs: seq<Request>)
    ensures FirstOf(rs, 0) == {}
  {
  }

  lemma {:induction false} FirstNext(rs: seq<Request>, k: nat)
    requires k < |rs|
    ensures FirstOf(rs, k + 1) == FirstOf(rs, k) + {rs[k]} && forall r :: r in FirstOf(rs, k) ==> r in rs
  {
    assert rs[..k + 1] == rs[..k] + [rs[k]];
  }

  /** An id that cannot be given to another request. */
  ghost predicate Taken(elems: set<Request>, transId: nat)
    reads elems`transId
  {
    transId == NO_ID || exists r :: r in elems && r.transId == transId
  }

  lemma {:induction false} Pigeon(ids: set<nat>, n: nat)
    requires |ids| < n
    ensures exists x: nat :: x < n && x !in ids
  {
    if n - 1 in ids {
      Pigeon(ids - {n - 1}, n - 1);
    }
  }

  lemma {:induction false} AllBelow(ids: set<nat>, n: nat)
    requires forall x :: x in ids ==> x < n
    ensures |ids| <= n
  {
    if n > 0 {
      AllBelow(ids - {n - 1}, n - 1);
    } else {
      assert ids == {};
    }
  }

  /** Of the ids from 0 to 0xfffe some is free exactly if fewer than 65535 are used; otherwise the source would draw
      random numbers for ever. */
  lemma {:induction false} SomeIdIsFree(ids: set<nat>)
    requires forall x :: x in ids ==> x < NO_ID
    ensures |ids| <= NO_ID
    ensures (exists x: nat :: x < NO_ID && x !in ids) <==> |ids| < NO_ID
  {
    AllBelow(ids, NO_ID);
    if |ids| < NO_ID {
      Pigeon(ids, NO_ID);
    }
    if x: nat :| x < NO_ID && x !in ids {
      AllBelow(ids + {x}, NO_ID);
      assert |ids + {x}| == |ids| + 1;
    }
  }

  /** struct evdns_base, as far as its requests are concerned. */
  class DnsBase {
    var table: RequestTable
    var waitingHead: Request?
    var inflight: int
    var waiting: int
    var maxInflight: nat
    ghost var waitingRing: seq<Request>

    constructor (maxInflight: nat)
      requires maxInflight > 0
      ensures Valid() && table.elems == {} && waitingRing == [] && this.maxInflight == maxInflight && fresh(table)
    {
      table := new RequestTable((maxInflight + 4) / 5);
      waitingHead, waitingRing, inflight, waiting := null, [], 0, 0;
      this.maxInflight := maxInflight;
    }

    /** The counters are the lengths of the lists, and a request has a nameserver exactly if it is in flight. */
    ghost predicate Valid()
      reads this, table, table.elems, waitingRing
    {
      && table.Valid() && Ring(waitingHead, waitingRing)
      && inflight == |table.elems| && waiting == |waitingRing|
      && (forall r :: r in table.elems ==> r.ns != 0)
      && (forall r :: r in waitingRing ==> r.ns == 0)
    }

    /** transaction_id_pick: the first random number that will do, or none if they run out, where the source would draw
        on. */
    method PickId(random: seq<nat>) returns (id: Option<nat>, rest: seq<nat>)
      requires Valid()
      ensures id == None ==> rest == [] && forall x :: x in random ==> Taken(table.elems, x)
      ensures id.Some? ==>
                && |rest| < |random| && random[|random| - |rest| - 1] == id.value && !Taken(table.elems, id.value)
                && rest == random[|random| - |rest|..]
                && forall x :: x in random[..|random| - |rest| - 1] ==> Taken(table.elems, x)
      ensures |rest| <= |random|
    {
      hide Valid;
      var k := 0;
      while k < |random|
        invariant k <= |random| && forall x :: x in random[..k] ==> Taken(table.elems, x)
      {
        var transId := random[k];
        if transId != NO_ID {
          var found := FindId(transId);
          if found == null {
            return Some(transId), random[k + 1..];
          }
        }
        assert random[..k + 1] == random[..k] + [transId];
        k := k + 1;
      }
      assert random[..k] == random;
      id, rest := None, [];
    }

    /** request_find_from_trans_id. */
    method FindId(transId: nat) returns (found: Request?)
      requires Valid()
      ensures found != null <==> exists r :: r in table.elems && r.transId == transId
    {
      found := table.Find(transId);
    }

    /** request_submit. */
    method Submit(req: Request)
      requires Valid() && req !in table.elems && req !in waitingRing
      requires req.ns != 0 ==> forall r :: r in table.elems ==> r.transId != req.transId
      modifies this, table, table.elems`next, table.elems`prev, waitingRing`next, waitingRing`prev, req`next, req`prev
      ensures Valid() && table == old(table)
      ensures if req.ns != 0 then table.elems == old(table.elems) + {req} && waitingRing == old(waitingRing)
              else table.elems == old(table.elems) && waitingRing == old(waitingRing) + [req]
      ensures maxInflight == old(maxInflight)
    {
      hide Ring, RequestTable.Valid;
      if req.ns != 0 {
        table.Put(req);
        inflight := inflight + 1;
      } else {
        waitingHead := Insert(req, waitingHead, waitingRing);
        waitingRing := waitingRing + [req];
        waiting := waiting + 1;
      }
    }

    /** The nameserver and the id for the next waiting request, if there are both. */
    method PickBoth(servers: seq<nat>, random: seq<nat>) returns (picked: Option<(nat, nat)>, rest: seq<nat>, ids: seq<nat>)
      requires Valid()
      ensures picked.Some? ==> picked.value.0 != 0 && forall r :: r in table.elems ==> r.transId != picked.value.1
      ensures picked == None ==> servers == [] || servers[0] == 0 || forall x :: x in random ==> Taken(table.elems, x)
      ensures picked.Some? ==> servers != [] && picked.value.0 == servers[0] && rest == servers[1..] && |ids| < |random|
    {
      hide Valid;
      picked, rest, ids := None, servers, random;
      var ns := if rest == [] then 0 else rest[0];
      if ns == 0 {
        return;
      }
      rest := rest[1..];
      var id;
      id, ids := PickId(ids);
      if id.Some? {
        picked := Some((ns, id.value));
      }
    }

    /** evdns_requests_pump_waiting_queue, as far as the nameservers picked and the random numbers go; 0 stands for no
        nameserver. The oldest waiting requests go in flight, `k` of them: as many as there is room for, unless there
        is no nameserver for the next one, or none of the random numbers that are left will do. */
    method Pump(servers: seq<nat>, random: seq<nat>) returns (ghost k: nat, ghost numbers: seq<nat>)
      requires Valid()
      modifies this, table, table.elems`next, table.elems`prev, waitingRing
      ensures Valid() && table == old(table) && maxInflight == old(maxInflight) && |table.heads| == |old(table.heads)|
      ensures k <= |old(waitingRing)| && waitingRing == old(waitingRing)[k..]
      ensures table.elems == old(table.elems) + FirstOf(old(waitingRing), k)
      ensures k > 0 ==> inflight <= maxInflight
      ensures inflight == old(inflight) + k && waiting == old(waiting) - k
      ensures waiting > 0 && inflight < maxInflight ==>
                k >= |servers| || servers[k] == 0 || forall x :: x in numbers ==> Taken(table.elems, x)
      ensures |numbers| <= |random|
    {
      hide Ring, Valid, FirstOf;
      k, numbers := 0, random;
      var rest, ids := servers, random;
      ghost var ring0, elems0 := waitingRing, table.elems;
      WaitingDistinct();
      FirstNone(ring0);
      while inflight < maxInflight && waiting > 0
        invariant Valid() && table == old(table) && |table.heads| == |old(table.heads)|
        invariant maxInflight == old(maxInflight)
        invariant k <= |ring0| && waitingRing == ring0[k..]
        invariant table.elems == elems0 + FirstOf(ring0, k)
        invariant k > 0 ==> inflight <= maxInflight
        invariant inflight == old(inflight) + k && waiting == old(waiting) - k
        invariant k <= |servers| && rest == servers[k..] && numbers == ids && |ids| <= |random|
        decreases |waitingRing|
      {
        HeadWaits();
        FirstNext(ring0, k);
        assert forall r :: r in table.elems ==> r in elems0 || r in ring0;
        assert forall r :: r in waitingRing ==> r in ring0;
        var req := waitingHead;
        var picked;
        picked, rest, ids := PickBoth(rest, ids);
        if picked == None {
          return;
        }
        numbers := ids;
        assert rest == servers[k + 1..];
        Promote(req, picked.value.0, picked.value.1);
        k := k + 1;
      }
    }

    lemma WaitingDistinct()
      requires Valid()
      ensures NoRepeats(waitingRing) && forall r :: r in waitingRing ==> r !in table.elems
    {
    }

    lemma HeadWaits()
      requires Valid() && waiting > 0
      ensures waitingRing != [] && waitingHead == waitingRing[0]
    {
    }

    /** The first waiting request gets a nameserver and an id, and goes in flight. */
    method Promote(req: Request, ns: nat, id: nat)
      requires Valid() && waitingRing != [] && req == waitingRing[0] && ns != 0
      requires forall r :: r in table.elems ==> r.transId != id
      modifies this`inflight, this`waiting, this`waitingHead, this`waitingRing
      modifies table, table.elems`next, table.elems`prev, waitingRing
      ensures Valid() && waitingRing == old(waitingRing)[1..] && table.elems == old(table.elems) + {req}
      ensures inflight == old(inflight) + 1 && waiting == old(waiting) - 1 && |table.heads| == |old(table.heads)|
    {
      hide Ring, RequestTable.Valid, NoRepeats, Without;
      WaitingDistinct();
      WithoutFirst(waitingRing);
      DropWaiting(req);
      inflight := inflight + 1;
      req.ns := ns;
      req.transId := id;
      table.Put(req);
    }

    /** The list operations and counters of request_finished. */
    method Unqueue(req: Request)
      requires Valid() && (req in table.elems || req in waitingRing)
      modifies this`inflight, this`waiting, this`waitingHead, this`waitingRing
      modifies table, table.elems`next, table.elems`prev, waitingRing`next, waitingRing`prev
      ensures Valid() && |table.heads| == |old(table.heads)|
      ensures table.elems == old(table.elems) - {req} && waitingRing == Without<Request>(old(waitingRing), req)
    {
      hide Ring, RequestTable.Valid, NoRepeats, Cut;
      WaitingDistinct();
      if req.ns != 0 {
        WithoutAbsent<Request>(waitingRing, req);
        table.Take(req);
        inflight := inflight - 1;
      } else {
        DropWaiting(req);
      }
    }

    method DropWaiting(req: Request)
      requires Valid() && req in waitingRing
      modifies this`waiting, this`waitingHead, this`waitingRing, waitingRing`next, waitingRing`prev
      ensures Valid() && waitingRing == Without<Request>(old(waitingRing), req)
      ensures req !in table.elems
    {
      hide Ring, RequestTable.Valid, NoRepeats, Cut;
      WaitingDistinct();
      ghost var ring, k := waitingRing, 0;
      k :| 0 <= k < |ring| && ring[k] == req;
      CutIsWithout(ring, k);
      CutHas(ring, k);
      waitingHead := Remove(req, waitingHead, ring, k);
      waitingRing := Cut(ring, k);
      waiting := waiting - 1;
      assert forall j :: 0 <= j < |waitingRing| ==> waitingRing[j] in ring;
    }

    /** request_finished: the request leaves, and others may take its place in flight, `k` of them. */
    method Finish(req: Request, servers: seq<nat>, random: seq<nat>) returns (ghost k: nat, ghost numbers: seq<nat>)
      requires Valid() && (req in table.elems || req in waitingRing)
      modifies this, table, table.elems`next, table.elems`prev, waitingRing
      ensures Valid() && table == old(table) && maxInflight == old(maxInflight)
      ensures var left := Without<Request>(old(waitingRing), req);
        && k <= |left| && waitingRing == left[k..]
        && table.elems == (old(table.elems) - {req}) + FirstOf(left, k)
      ensures waiting > 0 && inflight < maxInflight ==>
                k >= |servers| || servers[k] == 0 || forall x :: x in numbers ==> Taken(table.elems, x)
      ensures |numbers| <= |random|
    {
      hide Valid;
      WaitingDistinct();
      WithoutIn(waitingRing, req);
      Unqueue(req);
      assert forall j :: 0 <= j < |waitingRing| ==> waitingRing[j] in old(waitingRing);
      k, numbers := Pump(servers, random);
    }

    /** evdns_base_set_max_requests_inflight: the requests move to a table of another size. */
    method SetMaxInflight(max: int, canAlloc: bool) returns (r: int)
      requires Valid()
      modifies this`table, this`maxInflight, table, table.elems`next, table.elems`prev
      ensures Valid() && r == (if canAlloc then 0 else -1)
      ensures table.elems == old(table.elems) && waitingRing == old(waitingRing)
      ensures r == -1 ==> table == old(table) && maxInflight == old(maxInflight)
      ensures r == 0 ==> maxInflight == (if max < 1 then 1 else max) && |table.heads| == (maxInflight + 4) / 5
    {
      hide Ring, RequestTable.Valid, DistinctIds, Bucket;
      var maxinflight := if max < 1 then 1 else max;
      var nHeads := (maxinflight + 4) / 5;
      if !canAlloc {
        return -1;
      }
      var newTable := new RequestTable(nHeads);
      var oldTable := table;
      ghost var all := table.elems;
      IdsDistinct(table);
      var i, m := 0, |oldTable.heads|;
      while i < m
        invariant 0 <= i <= m == |oldTable.heads| && oldTable.Valid() && newTable.Valid() && |newTable.heads| == nHeads
        invariant oldTable.elems + newTable.elems == all && oldTable.elems !! newTable.elems
        invariant forall j :: 0 <= j < i ==> oldTable.heads[j] == null
        invariant DistinctIds(all)
      {
        MoveList(oldTable, newTable, i, all);
        i := i + 1;
      }
      NoHeads(oldTable);
      table := newTable;
      maxInflight := maxinflight;
      r := 0;
    }
  }

  /** Moves the requests of one list to another table. */
  method MoveList(oldTable: RequestTable, newTable: RequestTable, i: int, ghost all: set<Request>)
    requires oldTable != newTable && oldTable.Valid() && newTable.Valid() && 0 <= i < |oldTable.heads|
    requires oldTable.elems + newTable.elems == all && oldTable.elems !! newTable.elems && DistinctIds(all)
    modifies oldTable, newTable, all`next, all`prev
    ensures oldTable.Valid() && newTable.Valid() && oldTable.heads == old(oldTable.heads)[i := null]
    ensures |newTable.heads| == |old(newTable.heads)|
    ensures oldTable.elems + newTable.elems == all && oldTable.elems !! newTable.elems
  {
    hide Ring, RequestTable.Valid, DistinctIds, Bucket;
    ghost var heads0 := oldTable.heads;
    while oldTable.heads[i] != null
      invariant |oldTable.heads| == |heads0| && oldTable.Valid() && newTable.Valid()
      invariant |newTable.heads| == |old(newTable.heads)|
      invariant oldTable.elems + newTable.elems == all && oldTable.elems !! newTable.elems && DistinctIds(all)
      invariant forall j :: 0 <= j < |heads0| && j != i ==> oldTable.heads[j] == heads0[j]
      decreases |oldTable.elems|
    {
      var req := oldTable.heads[i];
      HeadHas(oldTable, i);
      IdsApart(all, newTable.elems, req);
      oldTable.Take(req);
      newTable.Put(req);
    }
  }

  lemma IdsDistinct(t: RequestTable)
    requires t.Valid()
    ensures DistinctIds(t.elems)
  {
  }

  lemma WithoutFirst(rs: seq<Request>)
    requires NoRepeats(rs) && rs != []
    ensures Without<Request>(rs, rs[0]) == rs[1..] && rs[0] !in rs[1..]
  {
  }

  lemma {:induction false} WithoutIn(rs: seq<Request>, req: Request)
    ensures forall j :: 0 <= j < |Without<Request>(rs, req)| ==> Without<Request>(rs, req)[j] in rs
  {
    if rs != [] {
      WithoutIn(rs[1..], req);
    }
  }

  lemma {:induction false} WithoutAbsent<T>(s: seq<T>, x: T)
    requires x !in s
    ensures Without(s, x) == s
  {
    if s != [] {
      assert s == [s[0]] + s[1..];
      WithoutAbsent(s[1..], x);
    }
  }

  lemma {:induction false} CutIsWithout(rs: seq<Request>, k: nat)
    requires k < |rs| && NoRepeats(rs)
    ensures Cut(rs, k) == Without<Request>(rs, rs[k])
  {
    if k > 0 {
      CutIsWithout(rs[1..], k - 1);
      assert Cut(rs, k) == [rs[0]] + Cut(rs[1..], k - 1);
    }
  }
}
