/** The map from descriptors to their events, with the two ways of telling epoll about it: at once, or
    through a list of changes that the next dispatch applies. evmap.c, with the back-end entry points of epoll.c. */
module EventMap {
  import opened Bytes
  import opened EventPoll

  const MAX_EVENTS: nat := 0xffff

  /** An event on a descriptor; two events with equal fields are still two events. */
  class IoEvent {
    const fd: int
    const read: bool
    const write: bool

    constructor (fd: int, read: bool, write: bool)
      ensures this.fd == fd && this.read == read && this.write == write
    {
      this.fd, this.read, this.write := fd, read, write;
    }
  }

  /** struct evmap_io, together with the changelist's fdinfo behind it. */
  datatype IoSlot = IoSlot(nread: nat, nwrite: nat, events: seq<IoEvent>, idxplus1: nat)

  const NEW_SLOT := IoSlot(0, 0, [], 0)

  ghost function Readers(evs: seq<IoEvent>): nat {
    if evs == [] then 0 else Readers(evs[..|evs| - 1]) + if evs[|evs| - 1].read then 1 else 0
  }

  ghost function Writers(evs: seq<IoEvent>): nat {
    if evs == [] then 0 else Writers(evs[..|evs| - 1]) + if evs[|evs| - 1].write then 1 else 0
  }

  lemma {:induction false} CountCat(a: seq<IoEvent>, b: seq<IoEvent>)
    ensures Readers(a + b) == Readers(a) + Readers(b) && Writers(a + b) == Writers(a) + Writers(b)
  {
    if b == [] {
      assert a + b == a;
    } else {
      var c := b[..|b| - 1];
      assert (a + b)[..|a + b| - 1] == a + c;
      CountCat(a, c);
    }
  }

  /** The interest that a descriptor's events add up to. */
  function Want(slot: IoSlot): Interest {
    Interest(slot.nread > 0, slot.nwrite > 0)
  }

  lemma {:induction false} CountRemove(evs: seq<IoEvent>, ev: IoEvent)
    requires ev in evs
    ensures Readers(Without(evs, ev)) == Readers(evs) - if ev.read then 1 else 0
    ensures Writers(Without(evs, ev)) == Writers(evs) - if ev.write then 1 else 0
    ensures forall e :: e in Without(evs, ev) ==> e in evs
  {
    assert evs == [evs[0]] + evs[1..];
    CountCat([evs[0]], evs[1..]);
    if evs[0] != ev {
      CountRemove(evs[1..], ev);
      CountCat([evs[0]], Without(evs[1..], ev));
    }
  }

  /** One side of a pending change fits what the side was at the last dispatch and what it is to be now. */
  predicate SideFits(before: bool, c: Change, now: bool) {
    match c
    case Keep => before == now
    case Add => now
    case Del => before && !now
  }

  /** A pending change leads from the interest it started with to the one that is wanted. */
  predicate Fits(ch: EventChange, want: Interest) {
    SideFits(ch.oldEvents.read, ch.readChange, want.read) && SideFits(ch.oldEvents.write, ch.writeChange, want.write)
  }

  lemma FitsTarget(ch: EventChange, want: Interest)
    requires Fits(ch, want)
    ensures Target(ch) == want
  {
    match (ch.readChange, ch.writeChange) {
      case _ =>
    }
  }

  /** An add replaces whatever was pending on its side. */
  function MergedAdd(ch: EventChange, events: Interest): EventChange {
    ch.(readChange := if events.read then Add else ch.readChange,
        writeChange := if events.write then Add else ch.writeChange)
  }

  /** A delete takes a pending add back, unless the side was on at the last dispatch. */
  function MergeDel(before: bool, c: Change): Change {
    if !before && c == Add then Keep else Del
  }

  function MergedDel(ch: EventChange, events: Interest): EventChange {
    ch.(readChange := if events.read then MergeDel(ch.oldEvents.read, ch.readChange) else ch.readChange,
        writeChange := if events.write then MergeDel(ch.oldEvents.write, ch.writeChange) else ch.writeChange)
  }

  /** The change that an operation starts from: the pending one, or else a new one that does nothing. */
  function PendingOr(pending: Option<EventChange>, fd: int, oldEvents: Interest): EventChange {
    match pending
    case Some(ch) => ch
    case None => EventChange(fd, oldEvents, Keep, Keep)
  }

  // What one descriptor sees of all this.

  datatype FdView = FdView(nread: nat, nwrite: nat, pending: Option<EventChange>, kernel: Interest) {
    function Want(): Interest {
      Interest(nread > 0, nwrite > 0)
    }

    /** What the last dispatch left in the kernel if nothing has meddled with it. */
    function Settled(): Interest {
      match pending
      case Some(ch) => ch.oldEvents
      case None => Want()
    }

    predicate Sound() {
      pending.Some? ==> Fits(pending.value, Want())
    }

    predicate InSync() {
      Sound() && kernel == Settled()
    }
  }

  /** An event that reads or writes, or both, comes to the descriptor or leaves it. */
  datatype FdOp = Attach(read: bool, write: bool) | Detach(read: bool, write: bool)

  function One(b: bool): nat {
    if b then 1 else 0
  }

  /** The operation does not overflow a count, and only an event that is there leaves. */
  predicate Allowed(v: FdView, op: FdOp) {
    match op
    case Attach(read, write) => v.nread + One(read) <= MAX_EVENTS && v.nwrite + One(write) <= MAX_EVENTS
    case Detach(read, write) => One(read) <= v.nread && One(write) <= v.nwrite
  }

  /** The sides that the operation turns on or off. */
  function Turned(v: FdView, op: FdOp): Interest {
    match op
    case Attach(read, write) => Interest(read && v.nread == 0, write && v.nwrite == 0)
    case Detach(read, write) => Interest(read && v.nread == 1, write && v.nwrite == 1)
  }

  function Counts(v: FdView, op: FdOp): FdView
    requires Allowed(v, op)
  {
    match op
    case Attach(read, write) => v.(nread := v.nread + One(read), nwrite := v.nwrite + One(write))
    case Detach(read, write) => v.(nread := v.nread - One(read), nwrite := v.nwrite - One(write))
  }

  function Merged(op: FdOp, ch: EventChange, events: Interest): EventChange {
    if op.Attach? then MergedAdd(ch, events) else MergedDel(ch, events)
  }

  /** An operation that tells the kernel at once. */
  function PlainStep(fd: int, v: FdView, op: FdOp): FdView
    requires Allowed(v, op)
  {
    var turned := Turned(v, op);
    var ch := Merged(op, EventChange(fd, v.Want(), Keep, Keep), turned);
    if turned.IsEmpty() then Counts(v, op) else Counts(v, op).(kernel := Target(ch))
  }

  /** An operation that only notes the change. */
  function ListStep(fd: int, v: FdView, op: FdOp): FdView
    requires Allowed(v, op)
  {
    var turned := Turned(v, op);
    var ch := Merged(op, PendingOr(v.pending, fd, v.Want()), turned);
    if turned.IsEmpty() then Counts(v, op) else Counts(v, op).(pending := Some(ch))
  }

  /** A dispatch: the pending change goes to the kernel. */
  function Flush(v: FdView): FdView {
    match v.pending
    case None => v
    case Some(ch) => v.(pending := None, kernel := if IsNoOp(ch) then v.kernel else Target(ch))
  }

  /** Every operation of a run is allowed when its turn comes. */
  predicate AllowedRun(v: FdView, ops: seq<FdOp>)
    decreases |ops|
  {
    ops == [] || (Allowed(v, ops[0]) && AllowedRun(Counts(v, ops[0]), ops[1..]))
  }

  function PlainRun(fd: int, v: FdView, ops: seq<FdOp>): FdView
    requires AllowedRun(v, ops)
    decreases |ops|
  {
    if ops == [] then v
    else
      AllowedCounts(Counts(v, ops[0]), PlainStep(fd, v, ops[0]), ops[1..]);
      PlainRun(fd, PlainStep(fd, v, ops[0]), ops[1..])
  }

  function ListRun(fd: int, v: FdView, ops: seq<FdOp>): FdView
    requires AllowedRun(v, ops)
    decreases |ops|
  {
    if ops == [] then v
    else
      AllowedCounts(Counts(v, ops[0]), ListStep(fd, v, ops[0]), ops[1..]);
      ListRun(fd, ListStep(fd, v, ops[0]), ops[1..])
  }

  /** Whether a run is allowed depends on the counts alone. */
  lemma {:induction false} AllowedCounts(v: FdView, w: FdView, ops: seq<FdOp>)
    requires v.nread == w.nread && v.nwrite == w.nwrite
    ensures AllowedRun(v, ops) == AllowedRun(w, ops)
    decreases |ops|
  {
    if ops != [] && Allowed(v, ops[0]) {
      AllowedCounts(Counts(v, ops[0]), Counts(w, ops[0]), ops[1..]);
    }
  }

  lemma PlainStepKeeps(fd: int, v: FdView, op: FdOp)
    requires Allowed(v, op) && v.pending == None && v.InSync()
    ensures PlainStep(fd, v, op).InSync() && PlainStep(fd, v, op).pending == None
  {
    match op {
      case _ =>
    }
  }

  lemma ListStepKeeps(fd: int, v: FdView, op: FdOp)
    requires Allowed(v, op) && v.Sound()
    ensures ListStep(fd, v, op).Sound()
    ensures v.InSync() ==> ListStep(fd, v, op).InSync()
  {
    match op {
      case _ =>
    }
  }

  /** Applying the coalesced changes leaves the kernel as applying every change at once does, which is with the
      interest that the events add up to. */
  lemma {:induction false} CoalescingIsFaithful(fd: int, v: FdView, ops: seq<FdOp>)
    requires AllowedRun(v, ops) && v.pending == None && v.InSync()
    ensures Flush(ListRun(fd, v, ops)) == PlainRun(fd, v, ops)
    ensures PlainRun(fd, v, ops).kernel == PlainRun(fd, v, ops).Want()
  {
    RunsAgree(fd, v, v, ops);
  }

  lemma {:induction false} RunsAgree(fd: int, p: FdView, l: FdView, ops: seq<FdOp>)
    requires AllowedRun(p, ops) && AllowedRun(l, ops)
    requires p.nread == l.nread && p.nwrite == l.nwrite
    requires p.pending == None && p.InSync() && l.InSync()
    ensures Flush(ListRun(fd, l, ops)) == PlainRun(fd, p, ops)
    ensures PlainRun(fd, p, ops).kernel == PlainRun(fd, p, ops).Want()
    decreases |ops|
  {
    if ops == [] {
      FlushReaches(l, l.kernel);
    } else {
      PlainStepKeeps(fd, p, ops[0]);
      ListStepKeeps(fd, l, ops[0]);
      AllowedCounts(Counts(p, ops[0]), PlainStep(fd, p, ops[0]), ops[1..]);
      AllowedCounts(Counts(l, ops[0]), ListStep(fd, l, ops[0]), ops[1..]);
      RunsAgree(fd, PlainStep(fd, p, ops[0]), ListStep(fd, l, ops[0]), ops[1..]);
    }
  }

  /** Whatever the kernel holds by the time of the dispatch, even if it lost the registration or had one already,
      the dispatch reaches the wanted interest, exactly if the change is not empty or nothing was wrong. */
  lemma FlushReaches(v: FdView, kernel: Interest)
    requires v.Sound()
    ensures Flush(v.(kernel := kernel)).kernel == v.Want() <==>
            kernel == v.Want() || (v.pending.Some? && !IsNoOp(v.pending.value))
  {
    if v.pending.Some? {
      FitsTarget(v.pending.value, v.Want());
    }
  }

  // The list of changes.

  type Slots = map<int, IoSlot>

  /** event_changelist_check: list and slots point at each other. */
  ghost predicate Indexed(io: Slots, changes: seq<EventChange>) {
    && (forall i :: 0 <= i < |changes| ==> changes[i].fd in io && io[changes[i].fd].idxplus1 == i + 1)
    && (forall fd :: fd in io && io[fd].idxplus1 > 0 ==>
          io[fd].idxplus1 <= |changes| && changes[io[fd].idxplus1 - 1].fd == fd)
  }

  /** The change of a descriptor. */
  function Pending(io: Slots, changes: seq<EventChange>, fd: int): Option<EventChange> {
    if fd in io && 0 < io[fd].idxplus1 <= |changes| then Some(changes[io[fd].idxplus1 - 1]) else None
  }

  lemma PutChange(io: Slots, changes: seq<EventChange>, fd: int, ch: EventChange)
    requires Indexed(io, changes) && fd in io && io[fd].idxplus1 > 0 && ch.fd == fd
    ensures Indexed(io, changes[io[fd].idxplus1 - 1 := ch])
    ensures Pending(io, changes[io[fd].idxplus1 - 1 := ch], fd) == Some(ch)
    ensures forall g :: g != fd ==> Pending(io, changes[io[fd].idxplus1 - 1 := ch], g) == Pending(io, changes, g)
  {
  }

  lemma PushChange(io: Slots, changes: seq<EventChange>, fd: int, ch: EventChange)
    requires Indexed(io, changes) && fd in io && io[fd].idxplus1 == 0 && ch.fd == fd
    ensures Indexed(io[fd := io[fd].(idxplus1 := |changes| + 1)], changes + [ch])
    ensures Pending(io[fd := io[fd].(idxplus1 := |changes| + 1)], changes + [ch], fd) == Some(ch)
    ensures forall g :: g != fd ==> Pending(io[fd := io[fd].(idxplus1 := |changes| + 1)], changes + [ch], g)
                                    == Pending(io, changes, g)
  {
  }

  lemma NothingPending(io: Slots, fd: int)
    ensures Pending(io, [], fd) == None
  {
  }

  lemma NothingHere(io: Slots, changes: seq<EventChange>, fd: int)
    requires fd !in io
    ensures Pending(io, changes, fd) == None
  {
  }

  /** Slots that differ only in their counts and events have the same changes. */
  lemma SetCounts(io: Slots, changes: seq<EventChange>, fd: int, slot: IoSlot)
    requires Indexed(io, changes)
    requires slot.idxplus1 == if fd in io then io[fd].idxplus1 else 0
    ensures Indexed(io[fd := slot], changes)
    ensures forall g :: Pending(io[fd := slot], changes, g) == Pending(io, changes, g)
  {
  }

  /** The counts of a slot are those of its events, which all belong to its descriptor. */
  ghost predicate Counted(fd: int, slot: IoSlot) {
    && slot.nread == Readers(slot.events) <= MAX_EVENTS
    && slot.nwrite == Writers(slot.events) <= MAX_EVENTS
    && (forall ev :: ev in slot.events ==> ev.fd == fd)
    && NoRepeats(slot.events)
  }

  /** What applying the changes in order makes of the kernel's registrations, if it refuses those of some
      descriptors. */
  ghost function ApplyAll(regs: Registrations, changes: seq<EventChange>, refused: set<int>): Registrations {
    if changes == [] then regs
    else
      var k, ch := ApplyAll(regs, changes[..|changes| - 1], refused), changes[|changes| - 1];
      if IsNoOp(ch) || ch.fd in refused then k else Register(k, ch.fd, Target(ch))
  }

  /** Each descriptor gets the effect of its own change, if that is among the first `n` and is not refused. */
  lemma {:induction false} ApplyAllOn(io: Slots, changes: seq<EventChange>, regs: Registrations, refused: set<int>, n: nat,
                                      fd: int)
    requires Indexed(io, changes) && n <= |changes|
    ensures var after := ApplyAll(regs, changes[..n], refused);
            match Pending(io, changes, fd)
            case Some(ch) =>
              if io[fd].idxplus1 <= n && !IsNoOp(ch) && fd !in refused then
                Registered(after, fd) == Target(ch) && (fd in after <==> !Target(ch).IsEmpty())
              else Registered(after, fd) == Registered(regs, fd) && (fd in after <==> fd in regs)
            case None => Registered(after, fd) == Registered(regs, fd) && (fd in after <==> fd in regs)
  {
    if n > 0 {
      ApplyAllOn(io, changes, regs, refused, n - 1, fd);
      assert changes[..n][..n - 1] == changes[..n - 1];
    }
  }

  /** What the descriptor sees. */
  function ViewOf(io: Slots, changes: seq<EventChange>, regs: Registrations, fd: int): FdView {
    var slot := if fd in io then io[fd] else NEW_SLOT;
    FdView(slot.nread, slot.nwrite, Pending(io, changes, fd), Registered(regs, fd))
  }

  /** A slot with its pending change. */
  ghost predicate GoodSlot(fd: int, slot: IoSlot, pending: Option<EventChange>) {
    fd >= 0 && Counted(fd, slot) && (pending.Some? ==> Fits(pending.value, Want(slot)))
  }

  ghost predicate GoodSlots(io: Slots, changes: seq<EventChange>) {
    Indexed(io, changes) && forall fd :: fd in io ==> GoodSlot(fd, io[fd], Pending(io, changes, fd))
  }

  /** The kernel holds no empty registration. */
  predicate Present(regs: Registrations, fd: int) {
    fd in regs <==> !Registered(regs, fd).IsEmpty()
  }

  /** The kernel knows exactly what the last dispatch left. */
  ghost predicate Synced(io: Slots, changes: seq<EventChange>, regs: Registrations) {
    forall fd :: ViewOf(io, changes, regs, fd).InSync() && Present(regs, fd)
  }

  /** The back end has heard about the change `ch`, of this descriptor only. */
  ghost predicate Told(usesChangelist: bool, fd: int, io0: Slots, changes0: seq<EventChange>, regs0: Registrations,
                       io: Slots, changes: seq<EventChange>, regs: Registrations, ch: EventChange)
  {
    && fd in io0 && fd in io && Indexed(io, changes)
    && io == io0[fd := io0[fd].(idxplus1 := io[fd].idxplus1)]
    && Pending(io, changes, fd) == (if usesChangelist then Some(ch) else None)
    && (forall g :: g != fd ==> Pending(io, changes, g) == Pending(io0, changes0, g))
    && (if usesChangelist then regs == regs0 else regs == Register(regs0, fd, Target(ch)) && changes == [])
  }

  /** What a successful operation does to its descriptor. */
  function Step(usesChangelist: bool, fd: int, v: FdView, op: FdOp): FdView
    requires Allowed(v, op)
  {
    if usesChangelist then ListStep(fd, v, op) else PlainStep(fd, v, op)
  }

  /** The back end has heard what it had to hear about the operation, if anything. */
  ghost predicate Heard(usesChangelist: bool, fd: int, io0: Slots, changes0: seq<EventChange>, regs0: Registrations,
                        io: Slots, changes: seq<EventChange>, regs: Registrations, op: FdOp)
  {
    var v := ViewOf(io0, changes0, regs0, fd);
    var turned := Turned(v, op);
    if turned.IsEmpty() then io == io0 && changes == changes0 && regs == regs0
    else Told(usesChangelist, fd, io0, changes0, regs0, io, changes, regs,
              Merged(op, PendingOr(v.pending, fd, v.Want()), turned))
  }

  lemma HeardSlot(usesChangelist: bool, fd: int, io0: Slots, changes0: seq<EventChange>, regs0: Registrations,
                  io: Slots, changes: seq<EventChange>, regs: Registrations, op: FdOp)
    requires Heard(usesChangelist, fd, io0, changes0, regs0, io, changes, regs, op) && fd in io0
    ensures fd in io && io == io0[fd := io0[fd].(idxplus1 := io[fd].idxplus1)]
  {
    hide Pending, Indexed, Merged, PendingOr, Turned;
    if io == io0 {
      assert io0[fd := io0[fd].(idxplus1 := io0[fd].idxplus1)] == io0;
    }
  }

  /** The operation's slot, with the counts that it leads to. */
  ghost predicate Follows(v: FdView, op: FdOp, fd: int, slot: IoSlot, idxplus1: nat) {
    && Allowed(v, op) && Counted(fd, slot) && slot.idxplus1 == idxplus1
    && slot.nread == Counts(v, op).nread && slot.nwrite == Counts(v, op).nwrite
  }

  lemma SteppedHere(usesChangelist: bool, fd: int, io0: Slots, changes0: seq<EventChange>, regs0: Registrations,
                    io: Slots, changes: seq<EventChange>, regs: Registrations, op: FdOp, slot: IoSlot)
    requires Indexed(io, changes) && (!usesChangelist ==> changes0 == []) && fd in io0 && fd in io
    requires Heard(usesChangelist, fd, io0, changes0, regs0, io, changes, regs, op)
    requires Follows(ViewOf(io0, changes0, regs0, fd), op, fd, slot, io[fd].idxplus1)
    ensures ViewOf(io[fd := slot], changes, regs, fd)
            == Step(usesChangelist, fd, ViewOf(io0, changes0, regs0, fd), op)
    ensures Present(regs0, fd) ==> Present(regs, fd)
  {
    hide Indexed, Pending, Counted, Merged;
    SetCounts(io, changes, fd, slot);
    if !usesChangelist {
      NothingPending(io0, fd);
    }
  }

  lemma SteppedElsewhere(usesChangelist: bool, fd: int, io0: Slots, changes0: seq<EventChange>, regs0: Registrations,
                         io: Slots, changes: seq<EventChange>, regs: Registrations, op: FdOp, slot: IoSlot, g: int)
    requires Indexed(io, changes) && fd in io0 && fd in io && g != fd && slot.idxplus1 == io[fd].idxplus1
    requires Heard(usesChangelist, fd, io0, changes0, regs0, io, changes, regs, op)
    ensures ViewOf(io[fd := slot], changes, regs, g) == ViewOf(io0, changes0, regs0, g)
    ensures g in io <==> g in io0
    ensures g in io ==> io[g] == io0[g]
    ensures g in regs <==> g in regs0
  {
    hide Indexed, Pending, Turned, Merged, PendingOr, Target;
    SetCounts(io, changes, fd, slot);
  }

  /** A slot is good if its counts are and its view is sound. */
  lemma SoundView(io: Slots, changes: seq<EventChange>, regs: Registrations, fd: int)
    requires fd in io
    ensures ViewOf(io, changes, regs, fd).pending == Pending(io, changes, fd)
    ensures ViewOf(io, changes, regs, fd).kernel == Registered(regs, fd)
    ensures GoodSlot(fd, io[fd], Pending(io, changes, fd))
            <==> fd >= 0 && Counted(fd, io[fd]) && ViewOf(io, changes, regs, fd).Sound()
  {
    hide Pending, Counted;
  }

  lemma {:induction false} SteppedGood(fd: int, io0: Slots, changes0: seq<EventChange>, regs0: Registrations,
                io: Slots, changes: seq<EventChange>, regs: Registrations)
    requires GoodSlots(io0, changes0) && fd in io0 && fd in io && Indexed(io, changes) && Counted(fd, io[fd])
    requires ViewOf(io, changes, regs, fd).Sound()
    requires forall g :: g != fd ==>
               && ViewOf(io, changes, regs, g) == ViewOf(io0, changes0, regs0, g)
               && (g in io <==> g in io0) && (g in io ==> io[g] == io0[g])
    ensures GoodSlots(io, changes)
  {
    hide Pending, Counted, Indexed, ViewOf, GoodSlot;
    SoundView(io0, changes0, regs0, fd);
    SoundView(io, changes, regs, fd);
    forall g | g in io && g != fd
      ensures GoodSlot(g, io[g], Pending(io, changes, g))
    {
      SoundView(io0, changes0, regs0, g);
      SoundView(io, changes, regs, g);
    }
  }

  lemma {:induction false} SteppedSync(fd: int, io0: Slots, changes0: seq<EventChange>, regs0: Registrations,
                io: Slots, changes: seq<EventChange>, regs: Registrations)
    requires Synced(io0, changes0, regs0)
    requires ViewOf(io, changes, regs, fd).InSync() && Present(regs, fd)
    requires forall g :: g != fd ==> ViewOf(io, changes, regs, g) == ViewOf(io0, changes0, regs0, g)
    requires forall g :: g != fd ==> (g in regs <==> g in regs0)
    ensures Synced(io, changes, regs)
  {
    hide Pending;
    forall g
      ensures ViewOf(io, changes, regs, g).InSync() && Present(regs, g)
    {
      if g != fd {
        assert ViewOf(io, changes, regs, g) == ViewOf(io0, changes0, regs0, g);
      }
    }
  }

  lemma NoPlainPending(usesChangelist: bool, io: Slots, changes: seq<EventChange>, fd: int)
    requires !usesChangelist ==> changes == []
    ensures !usesChangelist ==> Pending(io, changes, fd) == None
  {
  }

  /** A slot without events changes nothing that a descriptor sees. */
  lemma EmptySlot(io: Slots, changes: seq<EventChange>, regs: Registrations, fd: int)
    requires GoodSlots(io, changes) && fd !in io && fd >= 0
    ensures GoodSlots(io[fd := NEW_SLOT], changes)
    ensures forall g :: ViewOf(io[fd := NEW_SLOT], changes, regs, g) == ViewOf(io, changes, regs, g)
    ensures Synced(io, changes, regs) ==> Synced(io[fd := NEW_SLOT], changes, regs)
  {
    hide Indexed, Pending;
    SetCounts(io, changes, fd, NEW_SLOT);
    NothingHere(io, changes, fd);
    var after := io[fd := NEW_SLOT];
    assert forall g :: ViewOf(after, changes, regs, g) == ViewOf(io, changes, regs, g);
    if Synced(io, changes, regs) {
      forall g
        ensures ViewOf(after, changes, regs, g).InSync() && Present(regs, g)
      {
        assert ViewOf(after, changes, regs, g) == ViewOf(io, changes, regs, g);
      }
    }
  }

  lemma SlotCounted(io: Slots, changes: seq<EventChange>, fd: int)
    requires GoodSlots(io, changes) && fd in io
    ensures fd >= 0 && Counted(fd, io[fd])
  {
  }

  lemma {:induction false} Attached(fd: int, slot: IoSlot, ev: IoEvent, n: nat)
    requires Counted(fd, slot) && ev.fd == fd && ev !in slot.events
    requires slot.nread + One(ev.read) <= MAX_EVENTS && slot.nwrite + One(ev.write) <= MAX_EVENTS
    ensures Counted(fd, IoSlot(slot.nread + One(ev.read), slot.nwrite + One(ev.write), slot.events + [ev], n))
  {
    CountCat(slot.events, [ev]);
    assert [ev][..0] == [];
    assert Readers([ev]) == One(ev.read) && Writers([ev]) == One(ev.write);
  }

  lemma StepKeeps(usesChangelist: bool, fd: int, v: FdView, op: FdOp)
    requires Allowed(v, op) && v.Sound() && (!usesChangelist ==> v.pending == None)
    ensures Step(usesChangelist, fd, v, op).Sound()
    ensures v.InSync() ==> Step(usesChangelist, fd, v, op).InSync()
  {
    ListStepKeeps(fd, v, op);
    if !usesChangelist && v.InSync() {
      PlainStepKeeps(fd, v, op);
    }
  }

  /** Once the counts follow, the descriptor has taken its step and nothing else has. */
  lemma Stepped(usesChangelist: bool, fd: int, io0: Slots, changes0: seq<EventChange>, regs0: Registrations,
                io: Slots, changes: seq<EventChange>, regs: Registrations, op: FdOp, slot: IoSlot)
    requires GoodSlots(io0, changes0) && (!usesChangelist ==> changes0 == []) && fd in io0 && fd in io
    requires Heard(usesChangelist, fd, io0, changes0, regs0, io, changes, regs, op)
    requires Follows(ViewOf(io0, changes0, regs0, fd), op, fd, slot, io[fd].idxplus1)
    ensures GoodSlots(io[fd := slot], changes) && (!usesChangelist ==> changes == [])
    ensures ViewOf(io[fd := slot], changes, regs, fd)
            == Step(usesChangelist, fd, ViewOf(io0, changes0, regs0, fd), op)
    ensures forall g :: g != fd ==> ViewOf(io[fd := slot], changes, regs, g) == ViewOf(io0, changes0, regs0, g)
    ensures Synced(io0, changes0, regs0) ==> Synced(io[fd := slot], changes, regs)
  {
    hide Pending, Counted, Step, Indexed, ViewOf, GoodSlot;
    assert Indexed(io, changes) && (!usesChangelist ==> changes == []);
    SteppedHere(usesChangelist, fd, io0, changes0, regs0, io, changes, regs, op, slot);
    SetCounts(io, changes, fd, slot);
    forall g | g != fd
      ensures ViewOf(io[fd := slot], changes, regs, g) == ViewOf(io0, changes0, regs0, g)
      ensures g in io <==> g in io0
      ensures g in io ==> io[g] == io0[g]
      ensures g in regs <==> g in regs0
    {
      SteppedElsewhere(usesChangelist, fd, io0, changes0, regs0, io, changes, regs, op, slot, g);
    }
    SoundView(io0, changes0, regs0, fd);
    NoPlainPending(usesChangelist, io0, changes0, fd);
    StepKeeps(usesChangelist, fd, ViewOf(io0, changes0, regs0, fd), op);
    SteppedGood(fd, io0, changes0, regs0, io[fd := slot], changes, regs);
    if Synced(io0, changes0, regs0) {
      SteppedSync(fd, io0, changes0, regs0, io[fd := slot], changes, regs);
    }
  }

  lemma {:induction false} Detached(fd: int, slot: IoSlot, ev: IoEvent, n: nat)
    requires Counted(fd, slot) && ev in slot.events
    ensures One(ev.read) <= slot.nread && One(ev.write) <= slot.nwrite
    ensures Counted(fd, IoSlot(slot.nread - One(ev.read), slot.nwrite - One(ev.write),
                               Without(slot.events, ev), n))
  {
    CountRemove(slot.events, ev);
    WithoutIs(slot.events, ev);
  }

  lemma {:induction false} Renumbered(fd: int, slot: IoSlot)
    requires Counted(fd, slot)
    ensures Counted(fd, slot.(idxplus1 := 0))
  {
  }

  /** What a dispatch makes of what a descriptor sees: a change that the kernel refuses is forgotten. */
  function Dispatched(v: FdView, isRefused: bool): FdView {
    if isRefused then v.(pending := None) else Flush(v)
  }

  /** A dispatch flushes every descriptor. The kernel knows what it should afterwards exactly if that is so for the
      descriptors whose changes it refused. */
  lemma {:induction false} Flushed(io0: Slots, changes0: seq<EventChange>, regs0: Registrations, refused: set<int>,
                                   io: Slots, regs: Registrations)
    requires GoodSlots(io0, changes0) && io.Keys == io0.Keys && regs == ApplyAll(regs0, changes0, refused)
    requires forall fd :: fd in io ==> io[fd] == io0[fd].(idxplus1 := 0)
    ensures GoodSlots(io, [])
    ensures forall fd :: ViewOf(io, [], regs, fd) == Dispatched(ViewOf(io0, changes0, regs0, fd), fd in refused)
    ensures Synced(io0, changes0, regs0) ==>
              (Synced(io, [], regs)
               <==> forall fd :: fd in refused ==>
                      ViewOf(io0, changes0, regs0, fd).kernel == ViewOf(io0, changes0, regs0, fd).Want())
  {
    hide Counted, ApplyAll;
    forall fd | fd in io
      ensures GoodSlot(fd, io[fd], Pending(io, [], fd))
    {
      Renumbered(fd, io0[fd]);
    }
    assert changes0[..|changes0|] == changes0;
    forall fd
      ensures ViewOf(io, [], regs, fd) == Dispatched(ViewOf(io0, changes0, regs0, fd), fd in refused)
      ensures ViewOf(io0, changes0, regs0, fd).InSync() && Present(regs0, fd) ==>
                (ViewOf(io, [], regs, fd).InSync() && Present(regs, fd)
                 <==> fd in refused ==>
                        ViewOf(io0, changes0, regs0, fd).kernel == ViewOf(io0, changes0, regs0, fd).Want())
    {
      ApplyAllOn(io0, changes0, regs0, refused, |changes0|, fd);
      if fd in io0 {
        SoundView(io0, changes0, regs0, fd);
      }
      FlushReaches(ViewOf(io0, changes0, regs0, fd), Registered(regs0, fd));
    }
    if Synced(io0, changes0, regs0) {
      SyncedBy(io0, changes0, regs0, refused, io, regs);
    }
  }

  lemma {:induction false} SyncedBy(io0: Slots, changes0: seq<EventChange>, regs0: Registrations, refused: set<int>,
                                    io: Slots, regs: Registrations)
    requires Synced(io0, changes0, regs0)
    requires forall fd :: ViewOf(io0, changes0, regs0, fd).InSync() && Present(regs0, fd) ==>
               (ViewOf(io, [], regs, fd).InSync() && Present(regs, fd)
                <==> fd in refused ==>
                       ViewOf(io0, changes0, regs0, fd).kernel == ViewOf(io0, changes0, regs0, fd).Want())
    ensures Synced(io, [], regs)
            <==> forall fd :: fd in refused ==>
                   ViewOf(io0, changes0, regs0, fd).kernel == ViewOf(io0, changes0, regs0, fd).Want()
  {
    hide Pending;
    assert forall fd :: ViewOf(io0, changes0, regs0, fd).InSync() && Present(regs0, fd);
  }

  /** The back end does not hear of an operation that it should hear of: there is no memory to note the change, or the
      kernel refuses it. */
  predicate Unheard(usesChangelist: bool, fd: int, v: FdView, regs: Registrations, op: FdOp, heard: bool) {
    && !heard && !Turned(v, op).IsEmpty()
    && if usesChangelist then v.pending == None
       else !IsGone(regs, Merged(op, EventChange(fd, v.Want(), Keep, Keep), Turned(v, op)))
  }

  /** What a walk over a list meets once an event has been linked in at its end. An event that was in the list already is
      its last then, whatever came behind it; if it was the last before, the walk never ends, and meets it for ever. */
  function Linked(events: seq<IoEvent>, ev: IoEvent): seq<IoEvent> {
    if ev in events then UpTo(events, ev) else events + [ev]
  }

  function UpTo(events: seq<IoEvent>, ev: IoEvent): seq<IoEvent> {
    if events == [] then []
    else if events[|events| - 1] == ev then events
    else UpTo(events[..|events| - 1], ev)
  }

  lemma {:induction false} CountUpTo(events: seq<IoEvent>, ev: IoEvent)
    ensures Readers(UpTo(events, ev)) <= Readers(events) && Writers(UpTo(events, ev)) <= Writers(events)
  {
    if events != [] && events[|events| - 1] != ev {
      CountUpTo(events[..|events| - 1], ev);
    }
  }

  /** An event that is linked in twice is counted twice. */
  lemma {:induction false} CountedTwice(fd: int, slot: IoSlot, ev: IoEvent, slot': IoSlot)
    requires Counted(fd, slot) && ev in slot.events && (ev.read || ev.write)
    requires slot'.nread == slot.nread + One(ev.read) && slot'.nwrite == slot.nwrite + One(ev.write)
    requires slot'.events == Linked(slot.events, ev)
    ensures !Counted(fd, slot')
  {
    CountUpTo(slot.events, ev);
  }

  lemma LinkedNew(events: seq<IoEvent>, ev: IoEvent)
    requires ev !in events
    ensures Linked(events, ev) == events + [ev]
  {
  }

  /** An event that is there already turns no side on; its descriptor's counts go up, and are wrong. */
  lemma {:induction false} LinkedAgain(usesChangelist: bool, fd: int, io0: Slots, changes0: seq<EventChange>,
                                       regs0: Registrations, io: Slots, changes: seq<EventChange>, regs: Registrations,
                                       op: FdOp, slot: IoSlot, ev: IoEvent)
    requires GoodSlots(io0, changes0) && (!usesChangelist ==> changes0 == []) && fd in io0 && fd in io
    requires Heard(usesChangelist, fd, io0, changes0, regs0, io, changes, regs, op) && op == Attach(ev.read, ev.write)
    requires Allowed(ViewOf(io0, changes0, regs0, fd), op) && ev in io0[fd].events
    requires slot == io[fd].(nread := io0[fd].nread + One(ev.read), nwrite := io0[fd].nwrite + One(ev.write),
                             events := Linked(io0[fd].events, ev))
    ensures ev.read || ev.write ==> !GoodSlots(io[fd := slot], changes)
    ensures ViewOf(io[fd := slot], changes, regs, fd) == Step(usesChangelist, fd, ViewOf(io0, changes0, regs0, fd), op)
    ensures forall g :: g != fd ==> ViewOf(io[fd := slot], changes, regs, g) == ViewOf(io0, changes0, regs0, g)
  {
    hide Linked, Counted;
    SlotCounted(io0, changes0, fd);
    Detached(fd, io0[fd], ev, 0);
    assert Turned(ViewOf(io0, changes0, regs0, fd), op).IsEmpty();
    SetCounts(io, changes, fd, slot);
    if ev.read || ev.write {
      CountedTwice(fd, io0[fd], ev, slot);
      assert !GoodSlot(fd, slot, Pending(io[fd := slot], changes, fd));
    }
  }

  /** What becomes of the map once the event has been linked in. */
  lemma {:induction false} LinkedIn(usesChangelist: bool, fd: int, io0: Slots, changes0: seq<EventChange>,
                                    regs0: Registrations, io: Slots, changes: seq<EventChange>, regs: Registrations,
                                    op: FdOp, slot: IoSlot, ev: IoEvent)
    requires GoodSlots(io0, changes0) && (!usesChangelist ==> changes0 == []) && fd in io0 && fd in io && ev.fd == fd
    requires Heard(usesChangelist, fd, io0, changes0, regs0, io, changes, regs, op) && op == Attach(ev.read, ev.write)
    requires Allowed(ViewOf(io0, changes0, regs0, fd), op)
    requires slot == io[fd].(nread := io0[fd].nread + One(ev.read), nwrite := io0[fd].nwrite + One(ev.write),
                             events := Linked(io0[fd].events, ev))
    ensures if ev in io0[fd].events then ev.read || ev.write ==> !GoodSlots(io[fd := slot], changes)
            else
              && GoodSlots(io[fd := slot], changes) && (!usesChangelist ==> changes == [])
              && (Synced(io0, changes0, regs0) ==> Synced(io[fd := slot], changes, regs))
    ensures ViewOf(io[fd := slot], changes, regs, fd) == Step(usesChangelist, fd, ViewOf(io0, changes0, regs0, fd), op)
    ensures forall g :: g != fd ==> ViewOf(io[fd := slot], changes, regs, g) == ViewOf(io0, changes0, regs0, g)
  {
    hide Linked, Counted, GoodSlots, Synced, Step, ViewOf, Heard;
    HeardSlot(usesChangelist, fd, io0, changes0, regs0, io, changes, regs, op);
    if ev in io0[fd].events {
      LinkedAgain(usesChangelist, fd, io0, changes0, regs0, io, changes, regs, op, slot, ev);
    } else {
      SlotCounted(io0, changes0, fd);
      LinkedNew(io0[fd].events, ev);
      ViewCounts(io0, changes0, regs0, fd);
      Attached(fd, io0[fd], ev, io[fd].idxplus1);
      Stepped(usesChangelist, fd, io0, changes0, regs0, io, changes, regs, op, slot);
    }
  }

  lemma ViewCounts(io: Slots, changes: seq<EventChange>, regs: Registrations, fd: int)
    requires fd in io
    ensures ViewOf(io, changes, regs, fd).nread == io[fd].nread && ViewOf(io, changes, regs, fd).nwrite == io[fd].nwrite
  {
  }

  class EventBase {
    const usesChangelist: bool
    const kernel: Kernel
    var io: Slots
    var changes: seq<EventChange>

    constructor (usesChangelist: bool)
      ensures Valid() && Synced(io, changes, kernel.regs) && io == map[] && changes == []
              && this.usesChangelist == usesChangelist
      ensures fresh(kernel)
    {
      this.usesChangelist := usesChangelist;
      kernel := new Kernel();
      io, changes := map[], [];
    }

    ghost predicate Valid()
      reads this
    {
      GoodSlots(io, changes) && (!usesChangelist ==> changes == [])
    }

    /** What the descriptor sees. */
    ghost function View(fd: int): FdView
      reads this, kernel
    {
      ViewOf(io, changes, kernel.regs, fd)
    }

    /** The events of the descriptor, oldest first. */
    ghost function Events(fd: int): seq<IoEvent>
      reads this
    {
      if fd in io then io[fd].events else []
    }

    /** event_changelist_get_or_construct. */
    method GetOrConstruct(fd: int, oldEvents: Interest, canAlloc: bool) returns (idx: int)
      requires Indexed(io, changes) && fd in io
      modifies `io, `changes
      ensures idx == -1 <==> Pending(old(io), old(changes), fd) == None && !canAlloc
      ensures idx == -1 ==> io == old(io) && changes == old(changes)
      ensures idx != -1 ==>
        && 0 <= idx < |changes| && fd in io && io[fd].idxplus1 == idx + 1
        && Indexed(io, changes)
        && io == old(io)[fd := old(io)[fd].(idxplus1 := idx + 1)]
        && changes[idx] == PendingOr(Pending(old(io), old(changes), fd), fd, oldEvents) && changes[idx].fd == fd
        && forall g :: g != fd ==> Pending(io, changes, g) == Pending(old(io), old(changes), g)
    {
      if io[fd].idxplus1 == 0 {
        if !canAlloc {
          return -1;
        }
        PushChange(io, changes, fd, EventChange(fd, oldEvents, Keep, Keep));
        idx := |changes|;
        changes := changes + [EventChange(fd, oldEvents, Keep, Keep)];
        io := io[fd := io[fd].(idxplus1 := idx + 1)];
      } else {
        idx := io[fd].idxplus1 - 1;
      }
    }

    /** The descriptor's change is now `ch`, and nothing else has changed. */
    twostate predicate Queued(fd: int, ch: EventChange)
      reads this
    {
      && fd in old(io) && fd in io && Indexed(io, changes)
      && io == old(io)[fd := old(io)[fd].(idxplus1 := io[fd].idxplus1)]
      && Pending(io, changes, fd) == Some(ch)
      && forall g :: g != fd ==> Pending(io, changes, g) == Pending(old(io), old(changes), g)
    }

    /** event_changelist_add. */
    method ChangelistAdd(fd: int, oldEvents: Interest, events: Interest, canAlloc: bool) returns (r: int)
      requires Indexed(io, changes) && fd in io
      modifies `io, `changes
      ensures r == if Pending(old(io), old(changes), fd) == None && !canAlloc then -1 else 0
      ensures r == -1 ==> io == old(io) && changes == old(changes)
      ensures r == 0 ==> Queued(fd, MergedAdd(PendingOr(Pending(old(io), old(changes), fd), fd, oldEvents), events))
    {
      hide Indexed, Pending;
      var i := GetOrConstruct(fd, oldEvents, canAlloc);
      if i == -1 {
        return -1;
      }
      ghost var was := changes;
      if events.read {
        changes := changes[i := changes[i].(readChange := Add)];
      }
      if events.write {
        changes := changes[i := changes[i].(writeChange := Add)];
      }
      assert changes == was[i := MergedAdd(was[i], events)];
      PutChange(io, was, fd, MergedAdd(was[i], events));
      r := 0;
    }

    /** event_changelist_del. */
    method ChangelistDel(fd: int, oldEvents: Interest, events: Interest, canAlloc: bool) returns (r: int)
      requires Indexed(io, changes) && fd in io
      modifies `io, `changes
      ensures r == if Pending(old(io), old(changes), fd) == None && !canAlloc then -1 else 0
      ensures r == -1 ==> io == old(io) && changes == old(changes)
      ensures r == 0 ==> Queued(fd, MergedDel(PendingOr(Pending(old(io), old(changes), fd), fd, oldEvents), events))
    {
      hide Indexed, Pending;
      var i := GetOrConstruct(fd, oldEvents, canAlloc);
      if i == -1 {
        return -1;
      }
      ghost var was := changes;
      if events.read {
        if !changes[i].oldEvents.read && changes[i].readChange == Add {
          changes := changes[i := changes[i].(readChange := Keep)];
        } else {
          changes := changes[i := changes[i].(readChange := Del)];
        }
      }
      if events.write {
        if !changes[i].oldEvents.write && changes[i].writeChange == Add {
          changes := changes[i := changes[i].(writeChange := Keep)];
        } else {
          changes := changes[i := changes[i].(writeChange := Del)];
        }
      }
      assert changes == was[i := MergedDel(was[i], events)];
      PutChange(io, was, fd, MergedDel(was[i], events));
      r := 0;
    }

    /** epoll_nochangelist_add. */
    method NoChangelistAdd(fd: int, oldEvents: Interest, events: Interest, refuses: bool) returns (r: int)
      modifies kernel
      ensures var ch := MergedAdd(EventChange(fd, oldEvents, Keep, Keep), events);
        && kernel.regs == (if events.IsEmpty() || refuses then old(kernel.regs)
                           else Register(old(kernel.regs), fd, Target(ch)))
        && r == if refuses && !events.IsEmpty() && !IsGone(old(kernel.regs), ch) then -1 else 0
    {
      var ch := EventChange(fd, oldEvents, Keep, Keep);
      if events.write {
        ch := ch.(writeChange := Add);
      }
      if events.read {
        ch := ch.(readChange := Add);
      }
      r := ApplyOneChange(kernel, ch, refuses);
    }

    /** epoll_nochangelist_del. */
    method NoChangelistDel(fd: int, oldEvents: Interest, events: Interest, refuses: bool) returns (r: int)
      modifies kernel
      ensures var ch := MergedDel(EventChange(fd, oldEvents, Keep, Keep), events);
        && kernel.regs == (if events.IsEmpty() || refuses then old(kernel.regs)
                           else Register(old(kernel.regs), fd, Target(ch)))
        && r == if refuses && !events.IsEmpty() && !IsGone(old(kernel.regs), ch) then -1 else 0
    {
      var ch := EventChange(fd, oldEvents, Keep, Keep);
      if events.write {
        ch := ch.(writeChange := Del);
      }
      if events.read {
        ch := ch.(readChange := Del);
      }
      r := ApplyOneChange(kernel, ch, refuses);
    }

    /** GET_IO_SLOT_AND_CTOR. */
    method MakeSlot(fd: int, canMakeSlot: bool) returns (ok: bool)
      requires Valid() && fd >= 0
      modifies `io
      ensures Valid() && ok == (fd in old(io) || canMakeSlot)
      ensures io == if ok && fd !in old(io) then old(io)[fd := NEW_SLOT] else old(io)
      ensures forall g :: View(g) == old(View(g)) && Events(g) == old(Events(g))
      ensures old(Synced(io, changes, kernel.regs)) ==> Synced(io, changes, kernel.regs)
    {
      hide Indexed, Pending;
      ok := true;
      if fd !in io {
        if !canMakeSlot {
          return false;
        }
        EmptySlot(io, changes, kernel.regs, fd);
        io := io[fd := NEW_SLOT];
      }
    }

    /** evsel->add: the back end's way of hearing about new interest. */
    method BackendAdd(fd: int, oldEvents: Interest, events: Interest, heard: bool) returns (r: int)
      requires Valid() && fd in io && !events.IsEmpty()
      modifies this, kernel
      ensures r == 0 || r == -1
      ensures r == -1 <==> !heard && if usesChangelist then Pending(old(io), old(changes), fd) == None
                                     else !IsGone(old(kernel.regs), MergedAdd(EventChange(fd, oldEvents, Keep, Keep), events))
      ensures r == -1 ==> io == old(io) && changes == old(changes) && kernel.regs == old(kernel.regs)
      ensures r == 0 ==> Told(usesChangelist, fd, old(io), old(changes), old(kernel.regs), io, changes, kernel.regs,
                            MergedAdd(PendingOr(Pending(old(io), old(changes), fd), fd, oldEvents), events))
    {
      hide Indexed, Pending, GoodSlot;
      if usesChangelist {
        r := ChangelistAdd(fd, oldEvents, events, heard);
      } else {
        NothingPending(io, fd);
        r := NoChangelistAdd(fd, oldEvents, events, !heard);
      }
    }

    /** evsel->del. */
    method BackendDel(fd: int, oldEvents: Interest, events: Interest, heard: bool) returns (r: int)
      requires Valid() && fd in io && !events.IsEmpty()
      modifies this, kernel
      ensures r == 0 || r == -1
      ensures r == -1 <==> !heard && if usesChangelist then Pending(old(io), old(changes), fd) == None
                                     else !IsGone(old(kernel.regs), MergedDel(EventChange(fd, oldEvents, Keep, Keep), events))
      ensures r == -1 ==> io == old(io) && changes == old(changes) && kernel.regs == old(kernel.regs)
      ensures r == 0 ==> Told(usesChangelist, fd, old(io), old(changes), old(kernel.regs), io, changes, kernel.regs,
                            MergedDel(PendingOr(Pending(old(io), old(changes), fd), fd, oldEvents), events))
    {
      hide Indexed, Pending, GoodSlot;
      if usesChangelist {
        r := ChangelistDel(fd, oldEvents, events, heard);
      } else {
        NothingPending(io, fd);
        ghost var regs, ch := kernel.regs, MergedDel(EventChange(fd, oldEvents, Keep, Keep), events);
        r := NoChangelistDel(fd, oldEvents, events, !heard);
        if r == 0 && !heard {
          assert Register(regs, fd, Target(ch)) == regs;
        }
      }
    }

    /** The part of evmap_io_add for a descriptor that has a slot. An event may be there already. */
    method Attach(fd: int, ev: IoEvent, heard: bool) returns (r: int, twice: bool)
      requires Valid() && fd == ev.fd && fd in io
      modifies this, kernel
      ensures twice <==> r != -1 && ev in old(Events(fd))
      ensures !twice ==> Valid() && (old(Synced(io, changes, kernel.regs)) ==> Synced(io, changes, kernel.regs))
      ensures twice && (ev.read || ev.write) ==> !Valid()
      ensures forall g :: g != fd || r == -1 ==> View(g) == old(View(g)) && Events(g) == old(Events(g))
      ensures var op := FdOp.Attach(ev.read, ev.write);
        && (r == -1 <==> !Allowed(old(View(fd)), op)
                         || Unheard(usesChangelist, fd, old(View(fd)), old(kernel.regs), op, heard))
        && (r != -1 ==>
          && View(fd) == Step(usesChangelist, fd, old(View(fd)), op) && Events(fd) == Linked(old(Events(fd)), ev)
          && r == if Turned(old(View(fd)), op).IsEmpty() then 0 else 1)
    {
      hide Indexed, Pending, Counted, Step, GoodSlots, MergedAdd, Told, Linked;
      var nread, nwrite := io[fd].nread, io[fd].nwrite;
      var oldEvents := Interest(nread > 0, nwrite > 0);
      var res := NOTHING;
      twice := false;
      if ev.read {
        nread := nread + 1;
        if nread == 1 {
          res := res.(read := true);
        }
      }
      if ev.write {
        nwrite := nwrite + 1;
        if nwrite == 1 {
          res := res.(write := true);
        }
      }
      if nread > MAX_EVENTS || nwrite > MAX_EVENTS {
        return -1, false;
      }
      ghost var io0, changes0, regs0, op := io, changes, kernel.regs, FdOp.Attach(ev.read, ev.write);
      r := 0;
      if !res.IsEmpty() {
        var e := BackendAdd(fd, oldEvents, res, heard);
        if e == -1 {
          return -1, false;
        }
        r := 1;
      }
      assert Heard(usesChangelist, fd, io0, changes0, regs0, io, changes, kernel.regs, op);
      HeardSlot(usesChangelist, fd, io0, changes0, regs0, io, changes, kernel.regs, op);
      twice := ev in io[fd].events;
      ghost var slot := io[fd].(nread := nread, nwrite := nwrite, events := Linked(io[fd].events, ev));
      LinkedIn(usesChangelist, fd, io0, changes0, regs0, io, changes, kernel.regs, op, slot, ev);
      io := io[fd := io[fd].(nread := nread, nwrite := nwrite, events := Linked(io[fd].events, ev))];
    }

    /** evmap_io_add. The flags say whether there is memory for a new slot, and whether the back end can hear of the
        change: whether it has memory to note it or, if it does not note changes, the kernel accepts it. Nobody looks
        whether the event is on the list of the descriptor already; if it is, `twice`, that list is spoilt. */
    method IoAdd(fd: int, ev: IoEvent, canMakeSlot: bool, heard: bool) returns (r: int, twice: bool)
      requires Valid() && fd == ev.fd
      modifies this, kernel
      ensures twice <==> fd >= 0 && r != -1 && ev in old(Events(fd))
      ensures !twice ==> Valid() && (old(Synced(io, changes, kernel.regs)) ==> Synced(io, changes, kernel.regs))
      ensures twice && (ev.read || ev.write) ==> !Valid()
      ensures forall g :: g != fd || r == -1 || fd < 0 ==> View(g) == old(View(g)) && Events(g) == old(Events(g))
      ensures fd < 0 ==> r == 0
      ensures fd >= 0 ==>
        var op := FdOp.Attach(ev.read, ev.write);
        && (r == -1 <==> (fd !in old(io) && !canMakeSlot) || !Allowed(old(View(fd)), op)
                         || Unheard(usesChangelist, fd, old(View(fd)), old(kernel.regs), op, heard))
        && (r != -1 ==>
          && View(fd) == Step(usesChangelist, fd, old(View(fd)), op) && Events(fd) == Linked(old(Events(fd)), ev)
          && r == if Turned(old(View(fd)), op).IsEmpty() then 0 else 1)
    {
      hide Indexed, Pending, Counted, Step, GoodSlots, Turned, Synced, ViewOf, Linked;
      if fd < 0 {
        return 0, false;
      }
      var ok := MakeSlot(fd, canMakeSlot);
      if !ok {
        return -1, false;
      }
      r, twice := Attach(fd, ev, heard);
    }

    /** evmap_io_del. */
    method IoDel(fd: int, ev: IoEvent, heard: bool) returns (r: int)
      requires Valid() && fd == ev.fd && (fd >= 0 ==> ev in Events(fd))
      modifies this, kernel
      ensures Valid()
      ensures old(Synced(io, changes, kernel.regs)) ==> Synced(io, changes, kernel.regs)
      ensures forall g :: g != fd || r == -1 || fd < 0 ==> View(g) == old(View(g)) && Events(g) == old(Events(g))
      ensures fd < 0 ==> r == 0
      ensures fd >= 0 ==>
        var op := Detach(ev.read, ev.write);
        && Allowed(old(View(fd)), op)
        && (r == -1 <==> Unheard(usesChangelist, fd, old(View(fd)), old(kernel.regs), op, heard))
        && (r != -1 ==>
          && View(fd) == Step(usesChangelist, fd, old(View(fd)), op)
          && Events(fd) == Without(old(Events(fd)), ev)
          && r == if Turned(old(View(fd)), op).IsEmpty() then 0 else 1)
    {
      hide Indexed, Pending, Counted, Step, GoodSlots, MergedDel, Told;
      if fd < 0 {
        return 0;
      }
      SlotCounted(io, changes, fd);
      var nread, nwrite := io[fd].nread, io[fd].nwrite;
      var oldEvents := Interest(nread > 0, nwrite > 0);
      var res := NOTHING;
      ghost var io0, changes0, regs0, op := io, changes, kernel.regs, Detach(ev.read, ev.write);
      Detached(fd, io[fd], ev, io[fd].idxplus1);
      if ev.read {
        nread := nread - 1;
        if nread == 0 {
          res := res.(read := true);
        }
      }
      if ev.write {
        nwrite := nwrite - 1;
        if nwrite == 0 {
          res := res.(write := true);
        }
      }
      r := 0;
      if !res.IsEmpty() {
        var e := BackendDel(fd, oldEvents, res, heard);
        if e == -1 {
          return -1;
        }
        r := 1;
      }
      assert Heard(usesChangelist, fd, io0, changes0, regs0, io, changes, kernel.regs, op);
      HeardSlot(usesChangelist, fd, io0, changes0, regs0, io, changes, kernel.regs, op);
      ghost var slot := io[fd].(nread := nread, nwrite := nwrite, events := Without(io[fd].events, ev));
      Detached(fd, io0[fd], ev, io[fd].idxplus1);
      Stepped(usesChangelist, fd, io0, changes0, regs0, io, changes, kernel.regs, op, slot);
      io := io[fd := io[fd].(nread := nread, nwrite := nwrite, events := Without(io[fd].events, ev))];
    }

    /** epoll_apply_changes. The changes of some descriptors may be refused; the others are applied all the same. */
    method ApplyChanges(refused: set<int>) returns (r: int)
      modifies kernel
      ensures r == 0 || r == -1
      ensures (forall k :: 0 <= k < |changes| ==> changes[k].fd !in refused) ==> r == 0
      ensures kernel.regs == ApplyAll(old(kernel.regs), changes, refused)
    {
      r := 0;
      var i := 0;
      while i < |changes|
        invariant i <= |changes| && (r == 0 || r == -1)
        invariant (forall k :: 0 <= k < |changes| ==> changes[k].fd !in refused) ==> r == 0
        invariant kernel.regs == ApplyAll(old(kernel.regs), changes[..i], refused)
      {
        var e := ApplyOneChange(kernel, changes[i], changes[i].fd in refused);
        if e < 0 {
          r := -1;
        }
        assert changes[..i + 1][..i] == changes[..i];
        i := i + 1;
      }
      assert changes[..i] == changes;
    }

    /** event_changelist_remove_all. */
    method RemoveAll()
      requires Indexed(io, changes)
      modifies `io, `changes
      ensures changes == [] && io.Keys == old(io).Keys
      ensures forall fd :: fd in io ==> io[fd] == old(io)[fd].(idxplus1 := 0)
    {
      var i := 0;
      while i < |changes|
        invariant i <= |changes| && changes == old(changes) && io.Keys == old(io).Keys
        invariant forall fd :: fd in io ==>
                    io[fd] == if 0 < old(io)[fd].idxplus1 <= i then old(io)[fd].(idxplus1 := 0) else old(io)[fd]
      {
        var fd := changes[i].fd;
        io := io[fd := io[fd].(idxplus1 := 0)];
        i := i + 1;
      }
      changes := [];
    }

    /** The part of epoll_dispatch before the wait, which goes on whatever the kernel refuses. */
    method Dispatch(refused: set<int>)
      requires Valid()
      modifies this, kernel
      ensures Valid() && changes == []
      ensures forall fd :: View(fd) == Dispatched(old(View(fd)), fd in refused) && Events(fd) == old(Events(fd))
      ensures old(Synced(io, changes, kernel.regs)) ==>
                (Synced(io, changes, kernel.regs)
                 <==> forall fd :: fd in refused ==> old(View(fd)).kernel == old(View(fd)).Want())
    {
      hide Indexed, Pending, Counted, ApplyAll;
      var _ := ApplyChanges(refused);
      RemoveAll();
      Flushed(old(io), old(changes), old(kernel.regs), refused, io, kernel.regs);
    }
  }
}
