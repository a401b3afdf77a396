/** Whole runs of the operations on byte queues: whatever two queues go through, moves between them included, they
    behave as two flat byte sequences. */
module EvBufferRuns {
  import opened Bytes
  import opened EvBuffers
  import EvBufferMoves
  import EvBufferPullup

  /** A queue, as its users see it. */
  datatype Queue = Queue(bytes: seq<Byte>, startFrozen: bool, endFrozen: bool)

  /** An operation on a queue; the last three involve the other queue. */
  datatype Act =
    | Append(data: seq<Byte>)
    | PutFirst(data: seq<Byte>)
    | Discard(n: nat)
    | Take(n: nat)
    | Align(size: int)
    | Freeze(atStart: bool, on: bool)
    | Absorb
    | AbsorbFirst
    | Give(n: nat)

  predicate IsSingle(act: Act) {
    !act.Absorb? && !act.AbsorbFirst? && !act.Give?
  }

  /** Two queues, and the bytes that an operation has handed to its caller. */
  datatype Pair = Pair(x: Queue, y: Queue)

  function Swapped(s: Pair): Pair {
    Pair(s.y, s.x)
  }

  /** What an operation on the first queue is meant to do. */
  function Meant(s: Pair, act: Act): Pair {
    var b, c := s.x.bytes, s.y.bytes;
    match act
    case Append(data) => if s.x.endFrozen then s else s.(x := s.x.(bytes := b + data))
    case PutFirst(data) => if s.x.startFrozen then s else s.(x := s.x.(bytes := data + b))
    case Discard(n) => if s.x.startFrozen then s else s.(x := s.x.(bytes := b[Min(n, |b|)..]))
    case Take(n) => if s.x.startFrozen then s else s.(x := s.x.(bytes := b[Min(n, |b|)..]))
    case Align(_) => s
    case Freeze(atStart, on) => s.(x := if atStart then s.x.(startFrozen := on) else s.x.(endFrozen := on))
    case Absorb =>
      if s.x.endFrozen || s.y.startFrozen then s
      else Pair(s.x.(bytes := b + c), s.y.(bytes := []))
    case AbsorbFirst =>
      if s.x.startFrozen || s.y.startFrozen then s
      else Pair(s.x.(bytes := c + b), s.y.(bytes := []))
    case Give(n) =>
      if s.y.endFrozen || s.x.startFrozen then s
      else Pair(s.x.(bytes := b[Min(n, |b|)..]), s.y.(bytes := c + b[..Min(n, |b|)]))
  }

  /** The bytes that it hands out. */
  function Out(s: Pair, act: Act): seq<Byte> {
    if act.Take? && !s.x.startFrozen then s.x.bytes[..Min(act.n, |s.x.bytes|)] else []
  }

  /** No size is out of reach. */
  predicate Fits(s: Pair, act: Act) {
    match act
    case Append(data) => |data| <= CHAIN_MAX - CHAIN_SIZE && |s.x.bytes| + |data| <= SIZE_MAX
    case PutFirst(data) => |data| <= CHAIN_MAX - CHAIN_SIZE && |s.x.bytes| + |data| <= SIZE_MAX
    case Give(_) => |s.x.bytes| + |s.y.bytes| <= SIZE_MAX
    case _ => true
  }

  /** How many bytes of an operation there are to place; the sizes of the others do not matter. */
  function Full(s: Pair, act: Act): nat {
    match act
    case Append(data) => |data|
    case PutFirst(data) => |data|
    case Give(n) => Min(n, |s.x.bytes|)
    case _ => 0
  }

  /** What an operation does of which `m` bytes have found a place: bytes that are added are all or none, of those that
      are put first the last ones stay, and of those that are given the first ones arrive. */
  function Done(s: Pair, act: Act, m: nat): Pair
    requires m <= Full(s, act)
  {
    var b, c := s.x.bytes, s.y.bytes;
    match act
    case Append(data) => if s.x.endFrozen then s else s.(x := s.x.(bytes := b + data[..m]))
    case PutFirst(data) => if s.x.startFrozen then s else s.(x := s.x.(bytes := data[|data| - m..] + b))
    case Give(n) =>
      if s.y.endFrozen || s.x.startFrozen then s
      else Pair(s.x.(bytes := b[Min(n, |b|)..]), s.y.(bytes := c + b[..m]))
    case _ => Meant(s, act)
  }

  /** What comes of an operation: `m` of its bytes find a place, all of them for sure if there is memory and the sizes are
      within reach. */
  ghost predicate Follows(s: Pair, act: Act, memory: bool, m: nat, t: Pair) {
    && m <= Full(s, act) && t == Done(s, act, m)
    && (memory && Fits(s, act) ==> t == Meant(s, act))
  }

  /** Two queues that the operations can be used on. */
  ghost predicate Together(x: EvBuffer, y: EvBuffer)
    reads x, y, x.chains, y.chains, set c | c in x.chains + y.chains :: c.buffer
  {
    x.Valid() && x.Settled() && y.Valid() && y.Settled() && EvBufferMoves.Apart(x, y)
  }

  /** How many bytes of an operation find a place in the chunks of the two queues. */
  ghost function Accepted(x: EvBuffer, y: EvBuffer, act: Act, memory: bool): nat
    requires Together(x, y)
    reads x, y, x.chains, y.chains, set c | c in x.chains + y.chains :: c.buffer
  {
    hide EvBuffer.Core, EvBufferMoves.Apart, IsSettled, Concat;
    match act
    case Append(data) => AcceptedBehind(x, |data|, memory)
    case PutFirst(data) => AcceptedFirst(x, |data|, memory)
    case Give(n) => EvBufferMoves.Moved(x, y, n, memory)
    case _ => 0
  }

  ghost function AcceptedBehind(x: EvBuffer, n: nat, memory: bool): nat
    requires x.Valid()
    reads x, x.chains, set c | c in x.chains :: c.buffer
  {
    if x.CanAdd(n, memory) then n else 0
  }

  ghost function AcceptedFirst(x: EvBuffer, n: nat, memory: bool): (m: nat)
    requires x.Valid()
    reads x, x.chains, set c | c in x.chains :: c.buffer
    ensures m <= n
  {
    if x.freezeStart || n > SIZE_MAX - x.totalLen then 0
    else if (x.first != null && n <= x.FrontRoom()) || (memory && n - x.FrontRoom() <= CHAIN_MAX - CHAIN_SIZE) then n
    else x.FrontRoom()
  }

  /** A chunk as a value: the size of its memory, where its data starts there, and the data. */
  datatype Slot = Slot(size: nat, start: nat, data: seq<Byte>)

  /** What decides how many bytes find a place in a queue. */
  datatype Layout = Layout(slots: seq<Slot>, startFrozen: bool, endFrozen: bool)

  ghost function Slots(cs: seq<Chain>, ds: seq<seq<Byte>>): (ss: seq<Slot>)
    requires |cs| == |ds|
    reads cs`misalign
    ensures |ss| == |cs| && forall i :: 0 <= i < |cs| ==> ss[i] == Slot(cs[i].buffer.Length, cs[i].misalign, ds[i])
  {
    if cs == [] then [] else [Slot(cs[0].buffer.Length, cs[0].misalign, ds[0])] + Slots(cs[1..], ds[1..])
  }

  ghost function LayoutOf(x: EvBuffer): Layout
    requires |x.chains| == |x.datas|
    reads x, x.chains`misalign
  {
    Layout(Slots(x.chains, x.datas), x.freezeStart, x.freezeEnd)
  }

  function Pieces(ss: seq<Slot>): seq<seq<Byte>> {
    seq(|ss|, i requires 0 <= i < |ss| => ss[i].data)
  }

  ghost function Flat(l: Layout): Queue {
    Queue(Concat(Pieces(l.slots)), l.startFrozen, l.endFrozen)
  }

  /** `n` more bytes fit behind the data of the last of these chunks, after it has been moved to its start if need be. */
  predicate FitsBehind(ss: seq<Slot>, n: nat) {
    ss != [] &&
    var s := ss[|ss| - 1];
    var d := |s.data|;
    s.start + d + n <= s.size || (d + n <= s.size && d < s.size / 2 && d <= MAX_TO_REALIGN_IN_EXPAND)
  }

  /** How many bytes of an operation on the first of two queues find a place. */
  ghost function Placed(l: Layout, k: Layout, act: Act, memory: bool): nat {
    match act
    case Append(data) => PlacedBehind(l, |data|, memory)
    case PutFirst(data) => PlacedFirst(l, |data|, memory)
    case Give(n) => PlacedMoved(l, k, n, memory)
    case _ => 0
  }

  ghost function PlacedBehind(l: Layout, n: nat, memory: bool): nat {
    if !l.endFrozen && HasPlace(FitsBehind(l.slots, n), |Flat(l).bytes|, n, memory) then n else 0
  }

  ghost function PlacedFirst(l: Layout, n: nat, memory: bool): nat {
    var room := if l.slots == [] then 0 else if l.slots[0].data == [] then l.slots[0].size else l.slots[0].start;
    if l.startFrozen || n > SIZE_MAX - |Flat(l).bytes| then 0
    else if (l.slots != [] && n <= room) || (memory && n - room <= CHAIN_MAX - CHAIN_SIZE) then n
    else room
  }

  ghost function PlacedMoved(l: Layout, k: Layout, n: nat, memory: bool): nat {
    var ds := Pieces(l.slots);
    if n >= |Concat(ds)| then |Concat(ds)|
    else
      var whole := EvBufferMoves.WholeBytes(ds, n);
      var behind := if whole > 0 then l.slots[..EvBufferMoves.WholePieces(ds, n)] else k.slots;
      if HasPlace(FitsBehind(behind, n - whole), |Flat(k).bytes| + whole, n - whole, memory) then n else whole
  }

  lemma LayoutShows(x: EvBuffer)
    requires x.Valid()
    ensures |x.chains| == |x.datas| && Pieces(LayoutOf(x).slots) == x.datas
    ensures Flat(LayoutOf(x)) == Seen(x) && |x.Contents()| == x.totalLen
    ensures forall i :: 0 <= i < |x.chains| ==> x.chains[i].InBounds() && x.chains[i].off == |x.datas[i]|
    ensures x.last == (if x.chains == [] then null else x.chains[|x.chains| - 1])
    ensures x.first == (if x.chains == [] then null else x.chains[0])
  {
    assert Pieces(LayoutOf(x).slots) == x.datas;
  }

  ghost function LayoutsOf(x: EvBuffer, y: EvBuffer): (Layout, Layout)
    requires Together(x, y)
    reads x, y, x.chains, y.chains, set c | c in x.chains + y.chains :: c.buffer
  {
    LayoutShows(x);
    LayoutShows(y);
    (LayoutOf(x), LayoutOf(y))
  }

  /** What is accepted depends on the layouts alone. */
  lemma AcceptedIsPlaced(x: EvBuffer, y: EvBuffer, act: Act, memory: bool)
    requires Together(x, y)
    ensures |x.chains| == |x.datas| && |y.chains| == |y.datas|
    ensures Accepted(x, y, act, memory) == Placed(LayoutOf(x), LayoutOf(y), act, memory)
  {
    hide EvBuffer.Core, Concat, IsSettled, EvBufferMoves.Apart, Slots, EvBufferMoves.WholePieces, HasPlace;
    LayoutShows(x);
    LayoutShows(y);
    if act.Give? {
      MovedIsPlaced(x, y, act.n, memory);
    }
  }

  lemma MovedIsPlaced(x: EvBuffer, y: EvBuffer, n: nat, memory: bool)
    requires x.Valid() && y.Valid()
    ensures |x.chains| == |x.datas| && |y.chains| == |y.datas|
    ensures EvBufferMoves.Moved(x, y, n, memory) == PlacedMoved(LayoutOf(x), LayoutOf(y), n, memory)
  {
    hide EvBuffer.Core, Concat, Slots, EvBufferMoves.WholePieces, HasPlace;
    LayoutShows(x);
    LayoutShows(y);
  }

  ghost function Seen(x: EvBuffer): Queue
    reads x`datas, x`freezeStart, x`freezeEnd
  {
    Queue(x.Contents(), x.freezeStart, x.freezeEnd)
  }

  ghost predicate Known(x: EvBuffer)
    reads x, x.chains, set c | c in x.chains :: c.buffer
  {
    x.Valid() && x.Settled()
  }

  method AppendSingle(x: EvBuffer, data: seq<Byte>, memory: bool, ghost other: Queue) returns (ghost m: nat)
    requires Known(x)
    modifies x, x.chains, set c | c in x.chains :: c.buffer
    ensures Known(x)
    ensures forall c :: c in x.chains ==> c in old(x.chains) || (fresh(c) && fresh(c.buffer))
    ensures m == old(AcceptedBehind(x, |data|, memory))
    ensures Follows(Pair(old(Seen(x)), other), Append(data), memory, m, Pair(Seen(x), other))
  {
    hide EvBuffer.Core, EvBuffer.Strung, Concat, IsSettled, EvBuffer.FitsLast, EvBuffer.PointerKept,
         EvBuffer.PointerMended, EvBuffer.Aborts;
    m := AcceptedBehind(x, |data|, memory);
    assert data[..|data|] == data && data[..0] == [] && x.Contents() + [] == x.Contents();
    x.Loosened();
    var _, _ := x.Add(data, memory);
  }

  method PutSingle(x: EvBuffer, data: seq<Byte>, memory: bool, ghost other: Queue) returns (ghost m: nat)
    requires Known(x)
    modifies x, x.chains, set c | c in x.chains :: c.buffer
    ensures Known(x)
    ensures forall c :: c in x.chains ==> c in old(x.chains) || (fresh(c) && fresh(c.buffer))
    ensures m == old(AcceptedFirst(x, |data|, memory))
    ensures Follows(Pair(old(Seen(x)), other), PutFirst(data), memory, m, Pair(Seen(x), other))
  {
    hide EvBuffer.Core, Concat, IsSettled;
    m := AcceptedFirst(x, |data|, memory);
    assert data[|data| - |data|..] == data && data[|data| - 0..] == [] && [] + x.Contents() == x.Contents();
    var r := x.Prepend(data, memory);
  }

  method TakeSingle(x: EvBuffer, n: nat) returns (out: seq<Byte>)
    requires Known(x)
    modifies x, x.chains
    ensures Known(x)
    ensures forall c :: c in x.chains ==> c in old(x.chains)
    ensures x.freezeStart == old(x.freezeStart) && x.freezeEnd == old(x.freezeEnd)
    ensures var m := if x.freezeStart then 0 else Min(n, |old(x.Contents())|);
            out == old(x.Contents())[..m] && x.Contents() == old(x.Contents())[m..]
  {
    hide EvBuffer.Core, Concat, IsSettled, Overlay;
    var m := if x.freezeStart then 0 else Min(n, x.totalLen);
    var a := new Byte[n](_ => 0);
    ghost var was, b := a[..], x.Contents();
    var _ := x.Remove(a, n);
    OverlayParts(was, 0, b[..m]);
    out := a[..m];
    assert a[..][0..0 + |b[..m]|] == b[..m];
  }

  /** An operation on one queue alone; `other` is what the other one looks like. */
  method Single(x: EvBuffer, act: Act, memory: bool, ghost other: Queue) returns (out: seq<Byte>, ghost m: nat)
    requires Known(x) && IsSingle(act)
    modifies x, x.chains, set c | c in x.chains :: c.buffer
    ensures Known(x)
    ensures forall c :: c in x.chains ==> c in old(x.chains) || (fresh(c) && fresh(c.buffer))
    ensures m == match act
                 case Append(data) => old(AcceptedBehind(x, |data|, memory))
                 case PutFirst(data) => old(AcceptedFirst(x, |data|, memory))
                 case _ => 0
    ensures Follows(Pair(old(Seen(x)), other), act, memory, m, Pair(Seen(x), other))
    ensures out == Out(Pair(old(Seen(x)), other), act)
  {
    hide EvBuffer.Core, Concat, IsSettled, EvBuffer.FitsLast;
    out, m := [], 0;
    match act {
      case Append(data) =>
        m := AppendSingle(x, data, memory, other);
      case PutFirst(data) =>
        m := PutSingle(x, data, memory, other);
      case Discard(n) =>
        var _ := x.Drain(n);
      case Take(n) =>
        out := TakeSingle(x, n);
      case Align(size) =>
        var _ := EvBufferPullup.Pullup(x, size, memory);
      case Freeze(atStart, on) =>
        if atStart {
          x.freezeStart := on;
        } else {
          x.freezeEnd := on;
        }
    }
  }

  lemma {:induction false} StillApart(x: EvBuffer, y: EvBuffer, was: seq<Chain>)
    requires x.Valid() && y.Valid() && x != y && EvBufferMoves.Strangers(was, y.chains)
    requires forall c, d :: c in x.chains && d in y.chains && c !in was ==> c != d && c.buffer != d.buffer
    ensures EvBufferMoves.Apart(x, y)
  {
    hide Distinct, EvBuffer.Linked;
    EvBufferMoves.ApartMeans(x, y);
    x.Unshared();
    y.Unshared();
    EvBufferMoves.DistinctStrangers(x.chains, y.chains);
  }

  /** An operation on the first of two queues alone. */
  method Alone(x: EvBuffer, y: EvBuffer, act: Act, memory: bool) returns (out: seq<Byte>, ghost m: nat)
    requires Together(x, y) && IsSingle(act)
    modifies x, x.chains, set c | c in x.chains :: c.buffer
    ensures Together(x, y) && y.chains == old(y.chains)
    ensures forall c :: c in x.chains ==> c in old(x.chains) || (fresh(c) && fresh(c.buffer))
    ensures m == old(Accepted(x, y, act, memory))
    ensures Follows(old(Pair(Seen(x), Seen(y))), act, memory, m, Pair(Seen(x), Seen(y)))
    ensures out == Out(old(Pair(Seen(x), Seen(y))), act)
  {
    hide EvBuffer.Linked, Holding, IsLastWithData, Concat, IsSettled, Follows, Out, EvBufferMoves.Apart,
         EvBufferMoves.Strangers;
    ghost var was := x.chains;
    ApartStrangers(x, y);
    assert forall c :: c in y.chains ==> c !in x.chains && forall d :: d in x.chains ==> c.buffer != d.buffer;
    out, m := Single(x, act, memory, Seen(y));
    assert y.Linked() && Holding(y.chains, y.datas) by {
      assert forall c :: c in y.chains ==> c.next == old(c.next) && c.off == old(c.off) && c.misalign == old(c.misalign);
      assert forall c :: c in y.chains ==> c.buffer[..] == old(c.buffer[..]);
    }
    StillApart(x, y, was);
  }

  lemma ApartStrangers(x: EvBuffer, y: EvBuffer)
    requires EvBufferMoves.Apart(x, y)
    ensures x != y && EvBufferMoves.Strangers(x.chains, y.chains)
    ensures forall c, d :: c in x.chains && d in y.chains ==> c != d && c.buffer != d.buffer
  {
    EvBufferMoves.ApartMeans(x, y);
    EvBufferMoves.DistinctStrangers(x.chains, y.chains);
  }

  lemma ApartSwap(x: EvBuffer, y: EvBuffer)
    ensures EvBufferMoves.Apart(x, y) <==> EvBufferMoves.Apart(y, x)
  {
    EvBufferMoves.ApartMeans(x, y);
    EvBufferMoves.ApartMeans(y, x);
    if Distinct(x.chains + y.chains) {
      EvBufferMoves.DistinctSwap(x.chains, y.chains);
    }
    if Distinct(y.chains + x.chains) {
      EvBufferMoves.DistinctSwap(y.chains, x.chains);
    }
  }

  /** The first bytes go from one queue to the other. */
  method Hand(x: EvBuffer, y: EvBuffer, n: nat, memory: bool) returns (ghost m: nat)
    requires Together(x, y)
    modifies x, y, x.chains, y.chains, set c | c in x.chains + y.chains :: c.buffer
    ensures Together(x, y)
    ensures forall c :: c in x.chains || c in y.chains ==>
              c in old(x.chains) || c in old(y.chains) || (fresh(c) && fresh(c.buffer))
    ensures m == old(Accepted(x, y, Give(n), memory))
    ensures Follows(old(Pair(Seen(x), Seen(y))), Give(n), memory, m, Pair(Seen(x), Seen(y)))
  {
    hide EvBufferMoves.MoveAborts, EvBufferMoves.DestinationKept, EvBufferMoves.SourceKept, EvBuffer.Strung,
         EvBuffer.Core, Concat, IsSettled, EvBufferMoves.Apart, EvBufferMoves.Moved, AcceptedBehind, AcceptedFirst;
    ApartSwap(x, y);
    ApartStrangers(x, y);
    m := EvBufferMoves.Moved(x, y, n, memory);
    EvBufferMoves.MovedBounds(x, y, n, memory);
    var _, _ := EvBufferMoves.RemoveBuffer(x, y, n, memory);
    ApartSwap(x, y);
  }

  /** An operation on both queues. */
  method Both(x: EvBuffer, y: EvBuffer, act: Act, memory: bool) returns (ghost m: nat)
    requires Together(x, y) && !IsSingle(act)
    modifies x, y, x.chains, y.chains, set c | c in x.chains + y.chains :: c.buffer
    ensures Together(x, y)
    ensures forall c :: c in x.chains || c in y.chains ==>
              c in old(x.chains) || c in old(y.chains) || (fresh(c) && fresh(c.buffer))
    ensures m == old(Accepted(x, y, act, memory))
    ensures Follows(old(Pair(Seen(x), Seen(y))), act, memory, m, Pair(Seen(x), Seen(y)))
  {
    hide EvBuffer.Core, Concat, IsSettled, EvBufferMoves.Apart, EvBufferMoves.Moved, AcceptedBehind, AcceptedFirst;
    ApartSwap(x, y);
    ghost var s := Pair(Seen(x), Seen(y));
    ApartStrangers(x, y);
    assert s.x.bytes + [] == s.x.bytes == [] + s.x.bytes && (|s.y.bytes| == 0 ==> s.y.bytes == []);
    m := 0;
    match act {
      case Absorb =>
        var _ := EvBufferMoves.AddBuffer(x, y);
        assert forall c :: c in x.chains || c in y.chains ==> c in x.chains + y.chains;
      case AbsorbFirst =>
        var _ := EvBufferMoves.PrependBuffer(x, y);
        assert forall c :: c in x.chains || c in y.chains ==> c in x.chains + y.chains;
      case Give(n) =>
        m := Hand(x, y, n, memory);
    }
  }

  /** An operation on the first queue. */
  method Step(x: EvBuffer, y: EvBuffer, act: Act, memory: bool) returns (out: seq<Byte>, ghost m: nat)
    requires Together(x, y)
    modifies x, y, x.chains, y.chains, set c | c in x.chains + y.chains :: c.buffer
    ensures Together(x, y)
    ensures forall c :: c in x.chains || c in y.chains ==>
              c in old(x.chains) || c in old(y.chains) || (fresh(c) && fresh(c.buffer))
    ensures m == old(Accepted(x, y, act, memory))
    ensures Follows(old(Pair(Seen(x), Seen(y))), act, memory, m, Pair(Seen(x), Seen(y)))
    ensures out == Out(old(Pair(Seen(x), Seen(y))), act)
  {
    hide Follows, Together;
    if IsSingle(act) {
      assert forall c :: c in x.chains || c in y.chains <==> c in x.chains + y.chains;
      out, m := Alone(x, y, act, memory);
    } else {
      m := Both(x, y, act, memory);
      out := [];
    }
  }

  /** A step of a run: an operation on one of the two queues, and whether there is memory when it comes. */
  datatype Op = Op(first: bool, act: Act, memory: bool)

  function Turned(s: Pair, op: Op): Pair {
    if op.first then s else Swapped(s)
  }

  function MeantOp(s: Pair, op: Op): Pair {
    Turned(Meant(Turned(s, op), op.act), op)
  }

  function MeantRun(s: Pair, ops: seq<Op>): Pair
    decreases |ops|
  {
    if ops == [] then s else MeantRun(MeantOp(s, ops[0]), ops[1..])
  }

  /** The bytes that a run hands out, operation by operation. */
  function MeantOut(s: Pair, ops: seq<Op>): seq<seq<Byte>>
    decreases |ops|
  {
    if ops == [] then [] else [Out(Turned(s, ops[0]), ops[0].act)] + MeantOut(MeantOp(s, ops[0]), ops[1..])
  }

  /** There is memory for every operation of a run, and no size is out of reach. */
  predicate FitsRun(s: Pair, ops: seq<Op>)
    decreases |ops|
  {
    ops != [] ==>
      ops[0].memory && Fits(Turned(s, ops[0]), ops[0].act) && FitsRun(MeantOp(s, ops[0]), ops[1..])
  }

  /** A run, with the states that it goes through, and how many bytes of each operation have found a place. */
  ghost predicate IsRun(states: seq<Pair>, ops: seq<Op>, ms: seq<nat>, outs: seq<seq<Byte>>) {
    && |states| == |ops| + 1 && |ms| == |outs| == |ops|
    && forall i :: 0 <= i < |ops| ==> IsStep(states[i], ops[i], ms[i], states[i + 1], outs[i])
  }

  ghost predicate IsStep(s: Pair, op: Op, m: nat, t: Pair, out: seq<Byte>) {
    Follows(Turned(s, op), op.act, op.memory, m, Turned(t, op)) && out == Out(Turned(s, op), op.act)
  }

  /** The numbers of bytes that have found a place are those for which the layouts have one that the states go through. */
  ghost predicate ArePlaced(layouts: seq<(Layout, Layout)>, states: seq<Pair>, ops: seq<Op>, ms: seq<nat>) {
    && |layouts| == |ops| == |ms| && |states| == |ops| + 1
    && forall i :: 0 <= i < |ops| ==> IsPlaced(layouts[i], states[i], ops[i], ms[i])
  }

  ghost predicate IsPlaced(l: (Layout, Layout), s: Pair, op: Op, m: nat) {
    && s == Pair(Flat(l.0), Flat(l.1))
    && m == if op.first then Placed(l.0, l.1, op.act, op.memory) else Placed(l.1, l.0, op.act, op.memory)
  }

  /** Any run, on two queues. */
  method Run(x: EvBuffer, y: EvBuffer, ops: seq<Op>)
    returns (outs: seq<seq<Byte>>, ghost states: seq<Pair>, ghost ms: seq<nat>, ghost layouts: seq<(Layout, Layout)>)
    requires Together(x, y)
    modifies x, y, x.chains, y.chains, set c | c in x.chains + y.chains :: c.buffer
    ensures Together(x, y)
    ensures IsRun(states, ops, ms, outs) && states[0] == old(Pair(Seen(x), Seen(y)))
    ensures ArePlaced(layouts, states, ops, ms)
    ensures ops != [] ==> layouts[0] == old(LayoutsOf(x, y))
    ensures states[|ops|] == Pair(Seen(x), Seen(y))
    ensures FitsRun(states[0], ops) ==> states[|ops|] == MeantRun(states[0], ops) && outs == MeantOut(states[0], ops)
  {
    hide Follows, Together, Out, IsStep, Seen, Accepted, Placed, LayoutsOf, Flat;
    ghost var arrays := set c | c in x.chains + y.chains :: c.buffer;
    assert forall c :: c in x.chains || c in y.chains ==> c in x.chains + y.chains && c.buffer in arrays;
    ghost var start := LayoutsOf(x, y);
    outs, states, ms, layouts := [], [Pair(Seen(x), Seen(y))], [], [];
    var i := 0;
    while i < |ops|
      invariant 0 <= i <= |ops| && Together(x, y)
      invariant forall c :: c in x.chains || c in y.chains ==>
                  c in old(x.chains) || c in old(y.chains) || (fresh(c) && fresh(c.buffer))
      invariant IsRun(states, ops[..i], ms, outs) && states[0] == old(Pair(Seen(x), Seen(y)))
      invariant ArePlaced(layouts, states, ops[..i], ms)
      invariant start == if i > 0 then layouts[0] else LayoutsOf(x, y)
      invariant states[i] == Pair(Seen(x), Seen(y))
    {
      var out;
      ghost var m;
      assert forall c :: c in x.chains + y.chains ==> c in x.chains || c in y.chains;
      assert forall j :: 0 <= j < |x.chains| ==>
          x.chains[j] in old(x.chains) || x.chains[j] in old(y.chains) || fresh(x.chains[j]);
      assert forall j :: 0 <= j < |y.chains| ==>
          y.chains[j] in old(x.chains) || y.chains[j] in old(y.chains) || fresh(y.chains[j]);
      assert forall c :: c in x.chains || c in y.chains ==> c.buffer in arrays || fresh(c.buffer);
      ghost var l := LayoutBefore(x, y, ops[i]);
      if ops[i].first {
        out, m := Step(x, y, ops[i].act, ops[i].memory);
      } else {
        TogetherSwap(x, y);
        out, m := Step(y, x, ops[i].act, ops[i].memory);
        TogetherSwap(x, y);
      }
      ghost var t := Pair(Seen(x), Seen(y));
      StepIs(states[i], ops[i], m, t, out);
      RunMore(states, ops, ms, outs, i, m, t, out);
      PlacedMore(layouts, states, ops, ms, i, l, m, t);
      states, ms, outs, layouts := states + [t], ms + [m], outs + [out], layouts + [l];
      i := i + 1;
    }
    assert ops[..i] == ops;
    if FitsRun(states[0], ops) {
      RunIsMeant(states, ops, ms, outs);
    }
  }

  lemma LayoutBefore(x: EvBuffer, y: EvBuffer, op: Op) returns (l: (Layout, Layout))
    requires Together(x, y)
    ensures Together(y, x) && l == LayoutsOf(x, y)
    ensures Pair(Flat(l.0), Flat(l.1)) == Pair(Seen(x), Seen(y))
    ensures if op.first then Accepted(x, y, op.act, op.memory) == Placed(l.0, l.1, op.act, op.memory)
            else Accepted(y, x, op.act, op.memory) == Placed(l.1, l.0, op.act, op.memory)
  {
    hide EvBuffer.Core, Accepted, Placed, LayoutOf, Concat;
    TogetherSwap(x, y);
    AcceptedIsPlaced(x, y, op.act, op.memory);
    AcceptedIsPlaced(y, x, op.act, op.memory);
    LayoutShows(x);
    LayoutShows(y);
    l := LayoutsOf(x, y);
  }

  lemma {:induction false} PlacedMore(layouts: seq<(Layout, Layout)>, states: seq<Pair>, ops: seq<Op>, ms: seq<nat>,
                                      i: nat, l: (Layout, Layout), m: nat, t: Pair)
    requires i < |ops| && ArePlaced(layouts, states, ops[..i], ms) && IsPlaced(l, states[i], ops[i], m)
    ensures ArePlaced(layouts + [l], states + [t], ops[..i + 1], ms + [m])
  {
    hide IsPlaced;
  }

  lemma TogetherSwap(x: EvBuffer, y: EvBuffer)
    ensures Together(x, y) <==> Together(y, x)
  {
    ApartSwap(x, y);
  }

  lemma StepIs(s: Pair, op: Op, m: nat, t: Pair, out: seq<Byte>)
    requires Follows(Turned(s, op), op.act, op.memory, m, Turned(t, op)) && out == Out(Turned(s, op), op.act)
    ensures IsStep(s, op, m, t, out)
  {
  }

  lemma {:induction false} RunMore(states: seq<Pair>, ops: seq<Op>, ms: seq<nat>, outs: seq<seq<Byte>>, i: nat, m: nat,
                                   t: Pair, out: seq<Byte>)
    requires i < |ops| && IsRun(states, ops[..i], ms, outs) && IsStep(states[i], ops[i], m, t, out)
    ensures IsRun(states + [t], ops[..i + 1], ms + [m], outs + [out])
  {
    hide IsStep;
  }

  /** With memory and within reach of the sizes, a run does what is meant. */
  lemma {:induction false} RunIsMeant(states: seq<Pair>, ops: seq<Op>, ms: seq<nat>, outs: seq<seq<Byte>>)
    requires IsRun(states, ops, ms, outs) && FitsRun(states[0], ops)
    ensures states[|ops|] == MeantRun(states[0], ops) && outs == MeantOut(states[0], ops)
    decreases |ops|
  {
    if ops != [] {
      assert IsStep(states[0], ops[0], ms[0], states[1], outs[0]);
      assert states[1] == MeantOp(states[0], ops[0]);
      RunIsMeant(states[1..], ops[1..], ms[1..], outs[1..]);
      assert outs == [outs[0]] + outs[1..];
    }
  }

  /** An operation of a pipeline: bytes are added to the first queue, move on to the second, and are taken from there. */
  predicate IsPipeline(op: Op) {
    match op.act
    case Append(_) => op.first
    case Give(_) => op.first
    case Take(_) => !op.first
    case Absorb => !op.first
    case Align(_) => true
    case _ => false
  }

  predicate Thawed(s: Pair) {
    !s.x.startFrozen && !s.x.endFrozen && !s.y.startFrozen && !s.y.endFrozen
  }

  function AllAppended(ops: seq<Op>): seq<Byte>
    decreases |ops|
  {
    if ops == [] then []
    else (if ops[0].act.Append? then ops[0].act.data else []) + AllAppended(ops[1..])
  }

  /** First in, first out: what has come out of a pipeline and what is still in it, in order, is what was in it at the
      start and what has been added since. */
  lemma {:induction false} FirstInFirstOut(s: Pair, ops: seq<Op>)
    requires Thawed(s) && forall i :: 0 <= i < |ops| ==> IsPipeline(ops[i])
    ensures var t := MeantRun(s, ops);
            Concat(MeantOut(s, ops)) + t.y.bytes + t.x.bytes == s.y.bytes + s.x.bytes + AllAppended(ops)
    decreases |ops|
  {
    if ops != [] {
      var op, rest, t := ops[0], ops[1..], MeantOp(s, ops[0]);
      var out := Out(Turned(s, op), op.act);
      PipelineStep(s, op);
      FirstInFirstOut(t, rest);
      ConcatSplit(MeantOut(s, ops), 0);
      assert MeantOut(s, ops)[..0] == [] && MeantOut(s, ops)[1..] == MeantOut(t, rest);
      Regroup(out, Concat(MeantOut(t, rest)), MeantRun(t, rest).y.bytes, MeantRun(t, rest).x.bytes,
              t.y.bytes, t.x.bytes, AllAppended(rest), s.y.bytes + s.x.bytes, if op.act.Append? then op.act.data else []);
    }
  }

  lemma PipelineStep(s: Pair, op: Op)
    requires Thawed(s) && IsPipeline(op)
    ensures var t := MeantOp(s, op);
            && Thawed(t)
            && Out(Turned(s, op), op.act) + (t.y.bytes + t.x.bytes)
               == s.y.bytes + s.x.bytes + if op.act.Append? then op.act.data else []
  {
    var b, c := s.x.bytes, s.y.bytes;
    match op.act
    case Append(data) =>
      assert c + (b + data) == c + b + data;
    case Give(n) =>
      assert b == b[..Min(n, |b|)] + b[Min(n, |b|)..];
    case Take(n) =>
      assert c == c[..Min(n, |c|)] + c[Min(n, |c|)..];
    case _ =>
  }

  lemma Regroup(out: Text, outs: Text, y': Text, x': Text, y: Text, x: Text, more: Text, was: Text, data: Text)
    requires outs + y' + x' == y + x + more && out + (y + x) == was + data
    ensures (out + outs) + y' + x' == was + (data + more)
  {
    assert (out + outs) + y' + x' == out + (outs + y' + x');
    assert out + (y + x + more) == (out + (y + x)) + more;
    assert (was + data) + more == was + (data + more);
  }
}
