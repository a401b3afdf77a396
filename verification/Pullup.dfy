/** evbuffer_pullup: makes the first bytes of a queue contiguous. */
module EvBufferPullup {
  import opened Bytes
  import opened EvBuffers

  /** What is left of the pieces `ds` when the first `j` and `left` bytes of the next are gone. */
  ghost function Remaining(ds: seq<seq<Byte>>, j: nat, left: nat): (rs: seq<seq<Byte>>)
    requires j <= |ds| && (j < |ds| ==> left <= |ds[j]|)
    ensures |rs| == |ds| - j
  {
    if j < |ds| then ds[j..][0 := ds[j][left..]] else []
  }

  /** The bytes that are gone. */
  ghost function Taken(ds: seq<seq<Byte>>, j: nat, left: nat): seq<Byte>
    requires j <= |ds| && (j < |ds| ==> left <= |ds[j]|)
  {
    Concat(ds[..j]) + if j < |ds| then ds[j][..left] else []
  }

  /** Gathering bytes in front of the remaining pieces keeps the whole, and tells the last piece with data. */
  lemma {:induction false} PulledPieces(front: seq<Byte>, ds: seq<seq<Byte>>, p: nat, j: nat, left: nat)
    requires p < |ds| && ds[p] != [] && (forall i :: p < i < |ds| ==> ds[i] == [])
    requires j <= |ds| && (j < |ds| ==> left < |ds[j]|)
    requires front + Taken(ds, j, left) != []
    ensures var es := [front + Taken(ds, j, left)] + Remaining(ds, j, left);
            && Concat(es) == front + Concat(ds)
            && IsLastWithData(es, if p < j then 0 else p - j + 1)
            && ((forall i :: 0 <= i < |ds| ==> ds[i] != []) ==> IsSettled(es))
    ensures p < j ==> j == |ds|
  {
    hide Concat, Taken;
    TakenAndRemaining(ds, j, left);
    var d0, rs := front + Taken(ds, j, left), Remaining(ds, j, left);
    ConcatAppend([d0], rs);
    ConcatOne(d0);
  }

  lemma {:induction false} TakenAndRemaining(ds: seq<seq<Byte>>, j: nat, left: nat)
    requires j <= |ds| && (j < |ds| ==> left <= |ds[j]|)
    ensures Taken(ds, j, left) + Concat(Remaining(ds, j, left)) == Concat(ds)
  {
    hide Concat;
    ConcatNone<Byte>();
    if j < |ds| {
      ConcatSplit(ds, j);
      ConcatUpdate(ds[j..], 0, ds[j][left..]);
      assert ds[j..][..0] == [] && ds[j..][1..] == ds[j + 1..];
      assert ds[j] == ds[j][..left] + ds[j][left..];
    } else {
      assert ds[..j] == ds;
    }
  }

  /** Copies whole chunks into `tmp` and notes whether the last chunk with data, or the one before it, went. */
  method CopyWhole(ghost cs: seq<Chain>, ghost ds: seq<seq<Byte>>, ghost p: nat, tmp: Chain, at: nat,
                   head: Chain?, size: nat, lastData: Chain, ref: ChainRef)
    returns (chain: Chain?, left: nat, removedLast: bool, removedRef: bool, ghost j: nat)
    requires Segment(cs) && Holding(cs, ds) && Distinct(cs) && cs != [] && cs[|cs| - 1].next == null && head == cs[0]
    requires forall c :: c in cs ==> c != tmp && c.buffer != tmp.buffer
    requires at + size <= tmp.buffer.Length && size <= |Concat(ds)|
    requires p < |cs| && lastData == cs[p]
    requires ref == NextRef(if p == 0 then tmp else cs[p - 1])
    modifies tmp.buffer
    ensures Holding(cs, ds)
    ensures j <= |cs| && chain == (if j < |cs| then cs[j] else null) && (j < |cs| ==> left < |ds[j]|)
    ensures |Concat(ds[..j])| + left == size && (j == |cs| ==> left == 0)
    ensures removedLast == (p < j) && removedRef == (0 < p <= j)
    ensures tmp.buffer[..] == Overlay(old(tmp.buffer[..]), at, Concat(ds[..j]))
  {
    hide Concat, Chain.Data, IsSound, Overlay;
    ghost var was := tmp.buffer[..];
    var to := at;
    chain, left, removedLast, removedRef, j := head, size, false, false, 0;
    ConcatNone<Byte>();
    assert ds[..0] == [];
    OverlayEmpty(was, at);
    while chain != null && left >= chain.off
      invariant j <= |cs| && chain == if j < |cs| then cs[j] else null
      invariant Holding(cs, ds)
      invariant |Concat(ds[..j])| + left == size && to == at + |Concat(ds[..j])|
      invariant removedLast == (p < j) && removedRef == (0 < p <= j)
      invariant tmp.buffer[..] == Overlay(was, at, Concat(ds[..j]))
      decreases |cs| - j
    {
      ConcatSplit(ds, j);
      ChunkBytes(cs, ds, j);
      MemCpy(tmp.buffer, to, chain.buffer[chain.misalign..chain.misalign + chain.off]);
      OverlayNext(was, at, Concat(ds[..j]), ds[j]);
      left, to := left - chain.off, to + chain.off;
      if chain == lastData {
        removedLast := true;
      }
      if NextRef(chain) == ref {
        removedRef := true;
      }
      chain, j := chain.next, j + 1;
    }
    ConcatCut(ds, j);
    if j == |cs| {
      assert ds[..j] == ds;
    } else {
      ChunkBytes(cs, ds, j);
    }
  }

  lemma {:induction false} ChunkBytes(cs: seq<Chain>, ds: seq<seq<Byte>>, i: nat)
    requires Holding(cs, ds) && i < |cs|
    ensures cs[i].InBounds() && cs[i].off == |ds[i]|
    ensures cs[i].buffer[cs[i].misalign..cs[i].misalign + cs[i].off] == ds[i]
  {
  }

  lemma {:induction false} OverlayEmpty(s: seq<Byte>, at: nat)
    requires at <= |s|
    ensures Overlay(s, at, []) == s
  {
  }

  lemma {:induction false} OverlayNext(s: seq<Byte>, at: nat, a: seq<Byte>, b: seq<Byte>)
    requires at + |a| + |b| <= |s|
    ensures Overlay(Overlay(s, at, a), at + |a|, b) == Overlay(s, at, a + b)
  {
  }

  /** Copies the part of the next chunk that is still wanted. */
  method CopyPart(tmp: Chain, chain: Chain?, left: nat, at: nat,
                  ghost cs: seq<Chain>, ghost ds: seq<seq<Byte>>, ghost j: nat, ghost front: seq<Byte>)
    requires Segment(cs) && Holding(cs, ds) && Distinct(cs)
    requires forall c :: c in cs ==> c != tmp && c.buffer != tmp.buffer
    requires j <= |cs| == |ds| && chain == (if j < |cs| then cs[j] else null) && (j < |cs| ==> left < |ds[j]|)
    requires j == |cs| ==> left == 0
    requires IsSound(tmp) && at + left == tmp.misalign + tmp.off && tmp.misalign <= at
    requires tmp.buffer[tmp.misalign..at] == front + Concat(ds[..j])
    modifies tmp.buffer, cs`misalign, cs`off
    ensures tmp.misalign == old(tmp.misalign) && tmp.off == old(tmp.off)
    ensures tmp.Data() == front + Taken(ds, j, left) && Holding(cs[j..], Remaining(ds, j, left))
    ensures chain != null ==> chain.off == |ds[j]| - left
  {
    hide Concat, Chain.Data, Segment, Overlay;
    ghost var d := front + Concat(ds[..j]);
    HoldingDrop(cs, ds, j);
    SuffixFacts(cs, j);
    if chain != null {
      FirstOf(cs, ds, j, left);
      ghost var was, piece := tmp.buffer[..], ds[j][..left];
      assert was[tmp.misalign..at] == d;
      MemCpy(tmp.buffer, at, chain.buffer[chain.misalign..chain.misalign + left]);
      CutChunk(cs[j..], ds[j..], chain, left);
      OverlayWindow(was, tmp.misalign, at, piece);
      assert d + piece == front + (Concat(ds[..j]) + piece);
    }
    TmpData(tmp);
    assert d + [] == d;
  }

  lemma {:induction false} OverlayWindow(s: seq<Byte>, from: nat, at: nat, src: seq<Byte>)
    requires from <= at <= at + |src| <= |s|
    ensures Overlay(s, at, src)[from..at + |src|] == s[from..at] + src
  {
  }

  lemma TmpData(tmp: Chain)
    requires tmp.InBounds()
    ensures tmp.Data() == tmp.buffer[..][tmp.misalign..tmp.misalign + tmp.off]
  {
  }

  /** Puts `tmp` before the chunks that remain. */
  method Relink(buf: EvBuffer, tmp: Chain, chain: Chain?, ghost cs: seq<Chain>, ghost j: nat, ghost ds: seq<seq<Byte>>)
    requires Segment(cs) && Distinct(cs) && cs != [] && cs[|cs| - 1].next == null
    requires forall c :: c in cs ==> c != tmp && c.buffer != tmp.buffer
    requires j <= |cs| && chain == (if j < |cs| then cs[j] else null)
    requires Holding(cs[j..], ds) && IsSound(tmp) && buf.first == tmp && buf.last == cs[|cs| - 1]
    modifies tmp`next, buf`last, buf`chains, buf`datas
    ensures buf.chains == [tmp] + cs[j..] && buf.Linked() && tmp.next == chain
    ensures buf.datas == [tmp.Data()] + ds && Holding(buf.chains, buf.datas)
  {
    hide Concat, Chain.Data, IsLastWithData, IsSettled, Holding;
    SuffixFacts(cs, j);
    if chain == null {
      buf.last := tmp;
    }
    tmp.next := chain;
    HoldingPush(cs[j..], ds, tmp);
    buf.chains, buf.datas := [tmp] + cs[j..], [tmp.Data()] + ds;
  }

  /** Gives up the first bytes of the first of the chunks. */
  method CutChunk(ghost cs: seq<Chain>, ghost ds: seq<seq<Byte>>, chain: Chain, left: nat)
    requires Holding(cs, ds) && Distinct(cs) && cs != [] && chain == cs[0] && left <= |ds[0]|
    modifies chain`misalign, chain`off
    ensures Holding(cs, ds[0 := ds[0][left..]]) && chain.off == |ds[0]| - left
  {
    chain.misalign := chain.misalign + left;
    chain.off := chain.off - left;
    assert chain.Data() == ds[0][left..];
  }

  lemma {:induction false} SuffixFacts(cs: seq<Chain>, j: nat)
    requires Segment(cs) && Distinct(cs) && j <= |cs|
    ensures Segment(cs[j..]) && Distinct(cs[j..])
  {
  }

  /** Pulls `size` bytes out of the chunks `cs` into `tmp`, which holds `front` and comes first, and repairs
      `last` and `lastWithDatap`. */
  method PullInto(buf: EvBuffer, tmp: Chain, at: nat, head: Chain, size: nat,
                  ghost cs: seq<Chain>, ghost ds: seq<seq<Byte>>, ghost p: nat, ghost front: seq<Byte>)
    requires Segment(cs) && Holding(cs, ds) && Distinct(cs) && cs != [] && cs[|cs| - 1].next == null && head == cs[0]
    requires forall c :: c in cs ==> c != tmp && c.buffer != tmp.buffer
    requires buf.first == tmp && buf.last == cs[|cs| - 1]
    requires |cs| == |ds| && p < |cs| && ds[p] != [] && forall i :: p < i < |ds| ==> ds[i] == []
    requires var ref := if p == 0 then tmp else cs[p - 1]; buf.lastWithDatap == NextRef(ref) && ref.next == cs[p]
    requires IsSound(tmp) && tmp.misalign <= at && at + size == tmp.misalign + tmp.off && tmp.off > 0
    requires tmp.buffer[tmp.misalign..at] == front && size <= |Concat(ds)|
    requires buf.totalLen == |front + Concat(ds)|
    modifies tmp`next, tmp.buffer, cs`misalign, cs`off
    modifies buf`last, buf`lastWithDatap, buf`chains, buf`datas, buf`lwd
    ensures buf.Valid() && buf.Contents() == front + Concat(ds)
    ensures (forall i :: 0 <= i < |ds| ==> ds[i] != []) ==> buf.Settled()
    ensures buf.first == tmp && buf.first.off == old(tmp.off) && buf.first.misalign == old(tmp.misalign)
    ensures forall c :: c in buf.chains ==> c == tmp || c in cs
  {
    hide Concat, Chain.Data, Overlay, IsLastWithData, IsSettled, Holding, Segment, Distinct;
    hide Taken, Remaining, EvBuffer.Linked;
    ghost var was := tmp.buffer[..];
    var chain, left, removedLast, removedRef, j := CopyWhole(cs, ds, p, tmp, at, head, size,
                                                            buf.Deref(buf.lastWithDatap), buf.lastWithDatap);
    OverlayWindow(was, tmp.misalign, at, Concat(ds[..j]));
    CopyPart(tmp, chain, left, at + (size - left), cs, ds, j, front);
    ghost var rs := Remaining(ds, j, left);
    PulledPieces(front, ds, p, j, left);
    Relink(buf, tmp, chain, cs, j, rs);
    if removedLast {
      buf.lastWithDatap := FirstRef;
    } else if removedRef {
      if buf.first.next != null && buf.first.next.off > 0 {
        buf.lastWithDatap := NextRef(buf.first);
      } else {
        // the source resets lastWithDatap here; the chunk that stays behind always keeps a byte
        assert false;
      }
    }
    buf.lwd := if p < j then 0 else p - j + 1;
    assert p > j ==> buf.chains[p - j] == cs[p - 1];
  }

  /** The first chunk has room for `size` bytes where its data starts, or there can be a chunk that has. */
  ghost predicate CanPull(buf: EvBuffer, size: nat, canAlloc: bool)
    reads buf`first, buf.first
  {
    || (buf.first != null && size <= buf.first.buffer.Length - buf.first.misalign)
    || (canAlloc && size <= CHAIN_MAX - CHAIN_SIZE)
  }

  /** evbuffer_pullup. On success the first `size` bytes lie in the first chunk; a negative size means all. */
  method Pullup(buf: EvBuffer, sizeIn: int, canAlloc: bool) returns (result: Chain?)
    requires buf.Valid()
    modifies buf, buf.chains, set c | c in buf.chains :: c.buffer
    ensures buf.Valid() && buf.Contents() == old(buf.Contents()) && (old(buf.Settled()) ==> buf.Settled())
    ensures buf.freezeStart == old(buf.freezeStart) && buf.freezeEnd == old(buf.freezeEnd)
    ensures forall c :: c in buf.chains ==> c in old(buf.chains) || (fresh(c) && fresh(c.buffer))
    ensures var size := if sizeIn < 0 then buf.totalLen else sizeIn;
            && (result != null <==> 0 < size <= buf.totalLen && old(CanPull(buf, size, canAlloc)))
            && (result != null ==>
                  && result == buf.first && result.InBounds() && size <= result.off
                  && result.buffer[result.misalign..result.misalign + size] == buf.Contents()[..size])
  {
    hide Concat, Chain.Data, IsLastWithData, IsSettled, Holding, Segment, Distinct, EvBuffer.Linked;
    var size: nat := if sizeIn < 0 then buf.totalLen else sizeIn;
    if size == 0 || size > buf.totalLen {
      return null;
    }
    FirstFacts(buf);
    var chain := buf.first;
    if chain.off >= size {
      return chain;
    }
    var room := chain.buffer.Length - chain.misalign;
    if room >= size {
      PullHere(buf, size);
    } else {
      var tmp := ChainNew(size, canAlloc);
      if tmp == null {
        return null;
      }
      PullNew(buf, tmp, size);
    }
    FirstFacts(buf);
    result := buf.first;
  }

  /** The first chunk holds the first bytes. */
  lemma FirstFacts(buf: EvBuffer)
    requires buf.Valid() && buf.totalLen > 0
    ensures buf.first != null && IsSound(buf.first) && buf.chains != [] && buf.first == buf.chains[0]
    ensures forall n: nat :: n <= buf.first.off ==>
              n <= buf.totalLen && buf.first.buffer[buf.first.misalign..buf.first.misalign + n] == buf.Contents()[..n]
  {
    ConcatNone<Byte>();
    ConcatSplit(buf.datas, 0);
    assert buf.datas[..0] == [];
    ChunkBytes(buf.chains, buf.datas, 0);
    forall n: nat | n <= buf.first.off
      ensures n <= buf.totalLen && buf.first.buffer[buf.first.misalign..buf.first.misalign + n] == buf.Contents()[..n]
    {
      var d := buf.first.buffer[buf.first.misalign..buf.first.misalign + buf.first.off];
      assert buf.Contents() == d + Concat(buf.datas[1..]);
      assert d[..n] == buf.first.buffer[buf.first.misalign..buf.first.misalign + n];
    }
  }

  /** What lies before the last chunk with data when the first chunk does not hold `size` bytes. */
  lemma SplitFacts(buf: EvBuffer, size: nat)
    requires buf.Valid() && buf.first != null && buf.first.off < size <= buf.totalLen
    ensures 0 < buf.lwd < |buf.chains| && buf.datas[buf.lwd] != []
    ensures buf.lastWithDatap == NextRef(buf.chains[buf.lwd - 1]) && buf.chains[buf.lwd - 1].next == buf.chains[buf.lwd]
    ensures forall i :: buf.lwd < i < |buf.datas| ==> buf.datas[i] == []
    ensures buf.first == buf.chains[0] && buf.first.next == buf.chains[1]
    ensures forall c :: c in buf.chains[1..] ==> c != buf.first && c.buffer != buf.first.buffer
    ensures buf.last == buf.chains[|buf.chains| - 1] && buf.last.next == null
    ensures Segment(buf.chains) && Holding(buf.chains, buf.datas) && Distinct(buf.chains) && |buf.chains| == |buf.datas|
    ensures Concat(buf.datas) == buf.datas[0] + Concat(buf.datas[1..])
    ensures |buf.datas[0]| == buf.first.off
    ensures buf.first.buffer[buf.first.misalign..buf.first.misalign + buf.first.off] == buf.datas[0]
  {
    ConcatNone<Byte>();
    ConcatSplit(buf.datas, 0);
    assert buf.datas[..0] == [];
    ChunkBytes(buf.chains, buf.datas, 0);
    if buf.lwd == 0 {
      ConcatEmpties(buf.datas[1..]);
    }
  }

  /** The pull when the first chunk has room for all. */
  method PullHere(buf: EvBuffer, size: nat)
    requires buf.Valid() && buf.first != null && buf.first.off < size <= buf.totalLen
    requires IsSound(buf.first) && buf.first.misalign + size <= buf.first.buffer.Length
    modifies buf, buf.chains, buf.first.buffer
    ensures buf.Valid() && buf.Contents() == old(buf.Contents()) && (old(buf.Settled()) ==> buf.Settled())
    ensures buf.freezeStart == old(buf.freezeStart) && buf.freezeEnd == old(buf.freezeEnd)
    ensures forall c :: c in buf.chains ==> c in old(buf.chains)
    ensures buf.first != null && buf.first.off == size
  {
    hide Concat, Chain.Data, IsLastWithData, Holding, EvBuffer.Linked;
    SplitFacts(buf, size);
    ghost var cs, ds, front := buf.chains[1..], buf.datas[1..], buf.datas[0];
    HoldingDrop(buf.chains, buf.datas, 1);
    SuffixFacts(buf.chains, 1);
    var tmp := buf.first;
    var oldOff := tmp.off;
    tmp.off := size;
    PullInto(buf, tmp, tmp.misalign + oldOff, tmp.next, size - oldOff, cs, ds, buf.lwd - 1, front);
  }

  /** The pull into a chunk of its own. */
  method PullNew(buf: EvBuffer, tmp: Chain, size: nat)
    requires buf.Valid() && buf.first != null && buf.first.off < size <= buf.totalLen
    requires buf.IsForeign(tmp) && IsSound(tmp) && tmp.misalign == 0 && size <= tmp.buffer.Length
    modifies buf, buf.chains, tmp, tmp.buffer
    ensures buf.Valid() && buf.Contents() == old(buf.Contents()) && (old(buf.Settled()) ==> buf.Settled())
    ensures buf.freezeStart == old(buf.freezeStart) && buf.freezeEnd == old(buf.freezeEnd)
    ensures forall c :: c in buf.chains ==> c in old(buf.chains) || c == tmp
    ensures buf.first != null && buf.first.off == size
  {
    hide Concat, Chain.Data, IsLastWithData, Holding, Segment, Distinct, EvBuffer.Linked;
    SplitFacts(buf, size);
    var head := buf.first;
    tmp.off := size;
    buf.first := tmp;
    assert [] + Concat(buf.datas) == Concat(buf.datas);
    PullInto(buf, tmp, 0, head, size, buf.chains, buf.datas, buf.lwd, []);
  }
}
