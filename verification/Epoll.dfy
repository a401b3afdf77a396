/** The fd map, the list of pending changes and the epoll back end: evmap.c and epoll.c. Only the plain
    read and write interest of descriptors is modelled; edge triggering and signals are not. */
module EventPoll {
  /** A set of EV_READ and EV_WRITE. */
  datatype Interest = Interest(read: bool, write: bool) {
    predicate IsEmpty() {
      !read && !write
    }
  }

  const NOTHING := Interest(false, false)

  /** What is to happen with one side of a descriptor: EV_CHANGE_ADD, EV_CHANGE_DEL or neither. */
  datatype Change = Keep | Add | Del

  datatype EventChange = EventChange(fd: int, oldEvents: Interest, readChange: Change, writeChange: Change)

  datatype Op = CtlAdd | CtlMod | CtlDel

  datatype Errno = Ok | Eexist | Enoent | Other

  type Registrations = map<int, Interest>

  /** The interest that the kernel has in a descriptor. */
  function Registered(k: Registrations, fd: int): Interest {
    if fd in k then k[fd] else NOTHING
  }

  /** The epoll instance in the kernel. */
  class Kernel {
    var regs: Registrations

    constructor ()
      ensures regs == map[]
    {
      regs := map[];
    }

    /** epoll_ctl; `refuses` if the kernel has reasons of its own to fail, such as want of memory. */
    method Ctl(op: Op, fd: int, events: Interest, refuses: bool) returns (e: Errno)
      modifies this
      ensures e == match op
                   case CtlAdd => if fd in old(regs) then Eexist else if refuses then Other else Ok
                   case _ => if fd !in old(regs) then Enoent else if refuses then Other else Ok
      ensures regs == if e != Ok then old(regs) else if op == CtlDel then old(regs) - {fd} else old(regs)[fd := events]
    {
      match op {
        case CtlAdd =>
          if fd in regs {
            return Eexist;
          }
          if refuses {
            return Other;
          }
          regs := regs[fd := events];
        case CtlMod =>
          if fd !in regs {
            return Enoent;
          }
          if refuses {
            return Other;
          }
          regs := regs[fd := events];
        case CtlDel =>
          if fd !in regs {
            return Enoent;
          }
          if refuses {
            return Other;
          }
          regs := regs - {fd};
      }
      e := Ok;
    }
  }

  /** One side after a change. */
  function SideAfter(before: bool, c: Change): bool {
    match c
    case Keep => before
    case Add => true
    case Del => false
  }

  /** The interest that a change asks for. */
  function Target(ch: EventChange): Interest {
    Interest(SideAfter(ch.oldEvents.read, ch.readChange), SideAfter(ch.oldEvents.write, ch.writeChange))
  }

  predicate IsNoOp(ch: EventChange) {
    ch.readChange == Keep && ch.writeChange == Keep
  }

  /** A registration for exactly `events`; none if there are no events. */
  function Register(k: Registrations, fd: int, events: Interest): Registrations {
    if events.IsEmpty() then k - {fd} else k[fd := events]
  }

  /** A deletion of what the kernel does not hold is in place already. */
  predicate IsGone(k: Registrations, ch: EventChange) {
    Target(ch).IsEmpty() && ch.fd !in k
  }

  /** epoll_apply_one_change. Whatever the kernel knew about the descriptor before, even if it had lost the
      registration or held one that nobody asked for, a change that is not empty leads to its target, unless the
      kernel refuses it. */
  method ApplyOneChange(kernel: Kernel, ch: EventChange, refuses: bool) returns (r: int)
    modifies kernel
    ensures kernel.regs == if IsNoOp(ch) || refuses then old(kernel.regs)
                           else Register(old(kernel.regs), ch.fd, Target(ch))
    ensures r == 0 || r == -1
    ensures r == -1 <==> refuses && !IsNoOp(ch) && !IsGone(old(kernel.regs), ch)
  {
    var events := NOTHING;
    var op := CtlAdd;
    if ch.readChange == Add || ch.writeChange == Add {
      if ch.readChange == Add {
        events := events.(read := true);
      } else if ch.readChange == Del {
      } else if ch.oldEvents.read {
        events := events.(read := true);
      }
      if ch.writeChange == Add {
        events := events.(write := true);
      } else if ch.writeChange == Del {
      } else if ch.oldEvents.write {
        events := events.(write := true);
      }
      if !ch.oldEvents.IsEmpty() {
        op := CtlMod;
      }
    } else if ch.readChange == Del || ch.writeChange == Del {
      op := CtlDel;
      if ch.readChange == Del {
        if ch.writeChange == Del {
          events := Interest(true, true);
        } else if ch.oldEvents.write {
          events := Interest(false, true);
          op := CtlMod;
        } else {
          events := Interest(true, false);
        }
      } else if ch.writeChange == Del {
        if ch.oldEvents.read {
          events := Interest(true, false);
          op := CtlMod;
        } else {
          events := Interest(false, true);
        }
      }
    }
    if events.IsEmpty() {
      return 0;
    }
    var e := kernel.Ctl(op, ch.fd, events, refuses);
    if e != Ok {
      if op == CtlMod && e == Enoent {
        e := kernel.Ctl(CtlAdd, ch.fd, events, refuses);
        if e != Ok {
          return -1;
        }
      } else if op == CtlAdd && e == Eexist {
        e := kernel.Ctl(CtlMod, ch.fd, events, refuses);
        if e != Ok {
          return -1;
        }
      } else if op == CtlDel && e == Enoent {
      } else {
        return -1;
      }
    }
    r := 0;
  }
}
