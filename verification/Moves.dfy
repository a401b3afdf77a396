/** The buffer-to-buffer moves of buffer.c, which hand chunks over instead of copying bytes. */
module EvBufferMoves {
  import opened Bytes
  import opened EvBuffers

  /** Two queues that share no chunk and no storage. */
  ghost predicate Apart(a: EvBuffer, b: EvBuffer)
    reads a`chains, b`chains
  {
    a != b && Distinct(a.chains + b.chains)
  }

  lemma ApartMeans(a: EvBuffer, b: EvBuffer)
    ensures Apart(a, b) <==> a != b && Distinct(a.chains + b.chains)
  {
  }

  lemma LinkedMeans(buf: EvBuffer)
    ensures buf.Linked() <==>
            && buf.first == (if buf.chains == [] then null else buf.chains[0])
            && buf.last == (if buf.chains == [] then null else buf.chains[|buf.chains| - 1])
            && (buf.chains != [] ==> buf.chains[|buf.chains| - 1].next == null)
            && Segment(buf.chains) && Distinct(buf.chains)
  {
  }

  lemma {:induction false} HoldingCat(cs: seq<Chain>, ds: seq<seq<Byte>>, cs': seq<Chain>, ds': seq<seq<Byte>>)
    requires Holding(cs, ds) && Holding(cs', ds')
    ensures Holding(cs + cs', ds + ds')
  {
  }

  lemma {:induction false} HoldingTake(cs: seq<Chain>, ds: seq<seq<Byte>>, i: nat)
    requires Holding(cs, ds) && i <= |cs|
    ensures Holding(cs[..i], ds[..i])
  {
  }

  /** Pieces with data behind other pieces. */
  lemma {:induction false} CatPieces(ds: seq<seq<Byte>>, ds': seq<seq<Byte>>, l': nat)
    requires IsLastWithData(ds', l') && Concat(ds') != []
    ensures ds' != []
    ensures IsLastWithData(ds + ds', |ds| + l')
    ensures Concat(ds + ds') == Concat(ds) + Concat(ds')
    ensures IsSettled(ds) && IsSettled(ds') && Concat(ds) != [] ==> IsSettled(ds + ds')
  {
    ConcatNone<Byte>();
    ConcatAppend(ds, ds');
    if ds'[l'] == [] {
      ConcatEmpties(ds');
    }
    if IsSettled(ds) && |ds| == 1 {
      ConcatOne(ds[0]);
    }
  }

  lemma HasChunks(buf: EvBuffer)
    requires buf.Valid() && buf.totalLen > 0
    ensures buf.chains != [] && buf.first != null && buf.last != null && buf.At(buf.last, |buf.chains| - 1)
  {
    ConcatNone<Byte>();
  }

  /** Joins the two lists of chunks, the one of `b` behind the one of `a`. */
  method JoinLists(a: EvBuffer, b: EvBuffer)
    requires a.Linked() && b.Linked() && Apart(a, b) && a.chains != [] && b.chains != []
    modifies a.last`next
    ensures Segment(a.chains + b.chains)
    ensures b.Linked()
    ensures a.first == a.chains[0] && b.last == b.chains[|b.chains| - 1] && b.last.next == null
  {
    ghost var all, n := a.chains + b.chains, |a.chains|;
    assert a.last == all[n - 1] && forall j :: 0 <= j < |b.chains| ==> b.chains[j] == all[n + j];
    a.last.next := b.first;
  }

  /** APPEND_CHAIN. */
  method AppendChain(dst: EvBuffer, src: EvBuffer)
    requires dst.Valid() && src.Valid() && Apart(dst, src)
    requires dst.totalLen > 0 && src.totalLen > 0
    modifies dst`last, dst`lastWithDatap, dst`totalLen, dst`chains, dst`datas, dst`lwd, dst.last`next
    ensures dst.Valid() && dst.Contents() == old(dst.Contents()) + src.Contents()
    ensures old(dst.Settled()) && src.Settled() ==> dst.Settled()
    ensures dst.chains == old(dst.chains) + src.chains
  {
    hide Concat, Holding, IsLastWithData, IsPointed, IsSettled, Segment, Distinct, IsSound, Chain.InBounds, Chain.Data,
         Apart, EvBuffer.Linked;
    HasChunks(dst);
    HasChunks(src);
    CatPieces(dst.datas, src.datas, src.lwd);
    HoldingCat(dst.chains, dst.datas, src.chains, src.datas);
    LinkedMeans(dst);
    ApartMeans(dst, src);
    JoinLists(dst, src);
    if src.lastWithDatap == FirstRef {
      dst.lastWithDatap := NextRef(dst.last);
    } else {
      dst.lastWithDatap := src.lastWithDatap;
    }
    dst.last := src.last;
    dst.totalLen := dst.totalLen + src.totalLen;
    ghost var all := dst.chains + src.chains;
    dst.lwd := |dst.datas| + src.lwd;
    assert all[dst.lwd - 1] == if src.lwd == 0 then dst.chains[|dst.chains| - 1] else src.chains[src.lwd - 1];
    dst.chains, dst.datas := all, dst.datas + src.datas;
    LinkedMeans(src);
    LinkedMeans(dst);
  }

  /** PREPEND_CHAIN. */
  method PrependChain(dst: EvBuffer, src: EvBuffer)
    requires dst.Valid() && src.Valid() && Apart(src, dst)
    requires dst.totalLen > 0 && src.totalLen > 0
    modifies dst`first, dst`lastWithDatap, dst`totalLen, dst`chains, dst`datas, dst`lwd, src.last`next
    ensures dst.Valid() && dst.Contents() == src.Contents() + old(dst.Contents())
    ensures old(dst.Settled()) && src.Settled() ==> dst.Settled()
    ensures dst.chains == src.chains + old(dst.chains) && dst.datas == src.datas + old(dst.datas)
  {
    hide Concat, Holding, IsLastWithData, IsPointed, IsSettled, Segment, Distinct, IsSound, Chain.InBounds, Chain.Data,
         Apart, EvBuffer.Linked;
    HasChunks(dst);
    HasChunks(src);
    CatPieces(src.datas, dst.datas, dst.lwd);
    HoldingCat(src.chains, src.datas, dst.chains, dst.datas);
    LinkedMeans(dst);
    ApartMeans(src, dst);
    JoinLists(src, dst);
    dst.first := src.first;
    dst.totalLen := dst.totalLen + src.totalLen;
    if dst.lastWithDatap == FirstRef {
      dst.lastWithDatap := NextRef(src.last);
    }
    ghost var all := src.chains + dst.chains;
    assert all[|src.chains| + dst.lwd - 1] ==
           if dst.lwd == 0 then src.chains[|src.chains| - 1] else dst.chains[dst.lwd - 1];
    dst.lwd := |src.datas| + dst.lwd;
    dst.chains, dst.datas := all, src.datas + dst.datas;
    LinkedMeans(dst);
  }

  /** COPY_CHAIN: `dst` takes over the whole list of `src`. */
  method CopyChain(dst: EvBuffer, src: EvBuffer)
    requires src.Valid() && dst != src
    modifies dst`first, dst`last, dst`lastWithDatap, dst`totalLen, dst`chains, dst`datas, dst`lwd
    ensures dst.Valid() && dst.Contents() == src.Contents() && dst.chains == src.chains
    ensures dst.Settled() == src.Settled()
  {
    hide Concat, Holding, IsLastWithData, IsPointed, IsSettled, Segment, Distinct, IsSound, Chain.InBounds, Chain.Data;
    dst.first := src.first;
    if src.lastWithDatap == FirstRef {
      dst.lastWithDatap := FirstRef;
    } else {
      dst.lastWithDatap := src.lastWithDatap;
    }
    dst.last := src.last;
    dst.totalLen := src.totalLen;
    dst.chains, dst.datas, dst.lwd := src.chains, src.datas, src.lwd;
  }

  lemma {:induction false} DistinctSwap(a: seq<Chain>, b: seq<Chain>)
    requires Distinct(a + b)
    ensures Distinct(b + a) && Distinct(a) && Distinct(b)
    ensures Distinct(a + b + []) && Distinct(b + a + []) && Distinct(b + [])
  {
    assert a == (a + b)[..|a|] && b == (a + b)[|a|..];
    assert a + b + [] == a + b && b + a + [] == b + a && b + [] == b;
  }

  /** evbuffer_add_buffer. */
  method AddBuffer(outbuf: EvBuffer, inbuf: EvBuffer) returns (result: int)
    requires outbuf.Valid() && inbuf.Valid() && (outbuf == inbuf || Apart(outbuf, inbuf))
    modifies outbuf, inbuf, outbuf.chains`next
    ensures outbuf.Valid() && inbuf.Valid() && (outbuf == inbuf || Apart(outbuf, inbuf))
    ensures old(outbuf.Settled()) && old(inbuf.Settled()) ==> outbuf.Settled() && inbuf.Settled()
    ensures outbuf.freezeStart == old(outbuf.freezeStart) && outbuf.freezeEnd == old(outbuf.freezeEnd)
    ensures inbuf.freezeStart == old(inbuf.freezeStart) && inbuf.freezeEnd == old(inbuf.freezeEnd)
    ensures forall c :: c in outbuf.chains + inbuf.chains ==> c in old(outbuf.chains) + old(inbuf.chains)
    ensures var idle := old(inbuf.totalLen) == 0 || outbuf == inbuf;
            && result == (if !idle && (outbuf.freezeEnd || inbuf.freezeStart) then -1 else 0)
            && (idle || result == -1 ==>
                  outbuf.Contents() == old(outbuf.Contents()) && inbuf.Contents() == old(inbuf.Contents()))
            && (!idle && result == 0 ==>
                  outbuf.Contents() == old(outbuf.Contents()) + old(inbuf.Contents()) && inbuf.Contents() == [])
  {
    hide Concat, EvBuffer.Linked, Holding, IsLastWithData, IsPointed, IsSettled, Segment, Chain.Data, Distinct;
    if inbuf.totalLen == 0 || outbuf == inbuf {
      return 0;
    }
    if outbuf.freezeEnd || inbuf.freezeStart {
      return -1;
    }
    DistinctSwap(outbuf.chains, inbuf.chains);
    if outbuf.totalLen == 0 {
      CopyChain(outbuf, inbuf);
    } else {
      HasChunks(outbuf);
      AppendChain(outbuf, inbuf);
    }
    inbuf.ZeroChain();
    result := 0;
  }

  /** evbuffer_prepend_buffer. */
  method PrependBuffer(outbuf: EvBuffer, inbuf: EvBuffer) returns (result: int)
    requires outbuf.Valid() && inbuf.Valid() && (outbuf == inbuf || Apart(outbuf, inbuf))
    modifies outbuf, inbuf, inbuf.chains`next
    ensures outbuf.Valid() && inbuf.Valid() && (outbuf == inbuf || Apart(outbuf, inbuf))
    ensures old(outbuf.Settled()) && old(inbuf.Settled()) ==> outbuf.Settled() && inbuf.Settled()
    ensures outbuf.freezeStart == old(outbuf.freezeStart) && outbuf.freezeEnd == old(outbuf.freezeEnd)
    ensures inbuf.freezeStart == old(inbuf.freezeStart) && inbuf.freezeEnd == old(inbuf.freezeEnd)
    ensures forall c :: c in outbuf.chains + inbuf.chains ==> c in old(outbuf.chains) + old(inbuf.chains)
    ensures var idle := old(inbuf.totalLen) == 0 || outbuf == inbuf;
            && result == (if !idle && (outbuf.freezeStart || inbuf.freezeStart) then -1 else 0)
            && (idle || result == -1 ==>
                  outbuf.Contents() == old(outbuf.Contents()) && inbuf.Contents() == old(inbuf.Contents()))
            && (!idle && result == 0 ==>
                  outbuf.Contents() == old(inbuf.Contents()) + old(outbuf.Contents()) && inbuf.Contents() == [])
            && (!idle && result == 0 && old(outbuf.totalLen) > 0 ==>
                  && outbuf.chains == old(inbuf.chains) + old(outbuf.chains)
                  && outbuf.datas == old(inbuf.datas) + old(outbuf.datas))
  {
    hide Concat, EvBuffer.Linked, Holding, IsLastWithData, IsPointed, IsSettled, Segment, Chain.Data, Distinct;
    if inbuf.totalLen == 0 || inbuf == outbuf {
      return 0;
    }
    if outbuf.freezeStart || inbuf.freezeStart {
      return -1;
    }
    DistinctSwap(outbuf.chains, inbuf.chains);
    if outbuf.totalLen == 0 {
      CopyChain(outbuf, inbuf);
    } else {
      HasChunks(inbuf);
      PrependChain(outbuf, inbuf);
    }
    inbuf.ZeroChain();
    result := 0;
  }

  /** How many pieces at the front the first `n` bytes take up whole; an empty one costs nothing. */
  function WholePieces(ds: seq<seq<Byte>>, n: nat): (i: nat)
    ensures i <= |ds|
  {
    if ds == [] || |ds[0]| > n then 0 else 1 + WholePieces(ds[1..], n - |ds[0]|)
  }

  lemma {:induction false} WholeIs(ds: seq<seq<Byte>>, n: nat, i: nat)
    requires i < |ds| && |Concat(ds[..i])| <= n < |Concat(ds[..i])| + |ds[i]|
    ensures WholePieces(ds, n) == i
  {
    if i > 0 {
      assert ds[..i] == [ds[0]] + ds[1..][..i - 1];
      WholeIs(ds[1..], n - |ds[0]|, i - 1);
    }
  }

  /** Walks over the chunks that `datlen` bytes take up whole. */
  method WholeChunks(src: EvBuffer, datlen: nat) returns (chain: Chain, previous: Chain, rest: nat, ghost i: nat)
    requires src.Core() && datlen < |src.Contents()|
    modifies src`lastWithDatap
    ensures i <= src.lwd && src.At(chain, i) && (i > 0 ==> src.At(previous, i - 1))
    ensures rest < chain.off == |src.datas[i]| && |Concat(src.datas[..i])| + rest == datlen
    ensures i == WholePieces(src.datas, datlen)
    ensures src.lastWithDatap == if i == src.lwd then FirstRef else src.RefTo(src.lwd)
  {
    hide Concat, WholePieces;
    ConcatNone<Byte>();
    TotalUpTo(src.datas, src.lwd);
    assert src.datas[..0] == [];
    chain, previous, rest, i := src.first, src.first, datlen, 0;
    while chain.off <= rest
      invariant i <= src.lwd && src.At(chain, i) && (i > 0 ==> src.At(previous, i - 1))
      invariant |Concat(src.datas[..i])| + rest == datlen
      invariant src.lastWithDatap == if i == src.lwd then FirstRef else src.RefTo(src.lwd)
      decreases src.lwd - i
    {
      ConcatSplit(src.datas, i);
      assert i < src.lwd && src.chains[i].next == src.chains[i + 1];
      rest := rest - chain.off;
      previous := chain;
      if src.lastWithDatap == NextRef(chain) {
        src.lastWithDatap := FirstRef;
      }
      chain, i := chain.next, i + 1;
    }
    WholeIs(src.datas, datlen, i);
  }

  lemma {:induction false} DistinctParts(d: seq<Chain>, s: seq<Chain>, k: nat, i: nat)
    requires Distinct(d + s) && k <= |d| && i <= |s|
    ensures Distinct((d[..k] + s[..i]) + s[i..])
    ensures Distinct(d[..k] + s[..i]) && Distinct(s[i..])
  {
    var all := d + s;
    var few := (d[..k] + s[..i]) + s[i..];
    assert |few| == k + |s|;
    forall x, y | 0 <= x < y < |few|
      ensures few[x] != few[y] && few[x].buffer != few[y].buffer
    {
      var x', y' := if x < k then x else |d| + (x - k), if y < k then y else |d| + (y - k);
      assert few[x] == all[x'] && few[y] == all[y'];
    }
    assert d[..k] + s[..i] == few[..k + i] && s[i..] == few[k + i..];
  }

  lemma {:induction false} SegmentParts(cs: seq<Chain>, k: nat)
    requires Segment(cs) && k <= |cs|
    ensures Segment(cs[..k]) && Segment(cs[k..])
  {
  }

  /** Hangs the chunks `b` behind the chunks `a` and ends the list there. */
  method LinkParts(ghost a: seq<Chain>, ghost b: seq<Chain>, ghost c: seq<Chain>,
                   tail: Chain?, head: Chain, previous: Chain)
    requires Distinct((a + b) + c) && Segment(a) && Segment(b) && Segment(c)
    requires b != [] && head == b[0] && previous == b[|b| - 1]
    requires tail == if a == [] then null else a[|a| - 1]
    modifies a`next, previous`next
    ensures Segment(a + b) && Segment(c) && previous.next == null
    ensures forall x :: x in c ==> x.next == old(x.next)
  {
    ghost var all := (a + b) + c;
    assert forall j :: 0 <= j < |a| ==> a[j] == all[j];
    assert forall j :: 0 <= j < |b| ==> b[j] == all[|a| + j];
    assert forall j :: 0 <= j < |c| ==> c[j] == all[|a| + |b| + j];
    if tail != null {
      tail.next := head;
    }
    previous.next := null;
  }

  /** Makes the chunks `a` and `b` the list of `dst`, and the chunks `c` the list of `src`. */
  method Hang(dst: EvBuffer, src: EvBuffer, tail: Chain?, previous: Chain, chain: Chain,
              ghost a: seq<Chain>, ghost b: seq<Chain>, ghost c: seq<Chain>)
    requires dst != src && Distinct((a + b) + c) && Distinct(a + b) && Distinct(c)
    requires Segment(a) && Segment(b) && Segment(c)
    requires b != [] && src.first == b[0] && previous == b[|b| - 1]
    requires tail == (if a == [] then null else a[|a| - 1]) && (a != [] ==> dst.first == a[0])
    requires c != [] && chain == c[0] && src.last == c[|c| - 1] && c[|c| - 1].next == null
    modifies dst`first, dst`last, dst`chains, a`next, src`first, src`chains, previous`next
    ensures dst.Linked() && src.Linked() && dst.chains == a + b && src.chains == c && dst.last == previous
  {
    hide Segment, Distinct, EvBuffer.Linked;
    LinkParts(a, b, c, tail, src.first, previous);
    if tail == null {
      dst.first := src.first;
    }
    dst.last := previous;
    src.first := chain;
    dst.chains, src.chains := a + b, c;
    LinkedMeans(dst);
    LinkedMeans(src);
  }

  /** Cuts the first `i` chunks off the list of `src` and hangs them behind the data of `dst`, in place
      of the empty chunks there. */
  method Splice(dst: EvBuffer, src: EvBuffer, previous: Chain, chain: Chain, ghost i: nat) returns (ghost k: nat)
    requires dst.Core() && src.Linked() && Apart(dst, src)
    requires 0 < i < |src.chains| && src.At(previous, i - 1) && src.At(chain, i)
    modifies dst`first, dst`last, dst`chains, dst.chains`next, src`first, src`chains, previous`next
    ensures dst.Linked() && src.Linked() && Apart(dst, src)
    ensures dst.lwd <= k <= |dst.datas| && (k < |dst.datas| ==> dst.datas[k] == [])
    ensures k == dst.lwd || (k == dst.lwd + 1 && dst.datas[dst.lwd] != [])
    ensures dst.chains == old(dst.chains)[..k] + old(src.chains)[..i] && dst.last == previous
    ensures src.chains == old(src.chains)[i..]
  {
    hide Concat, Segment, Distinct, Holding, IsLastWithData, IsPointed, IsSettled, IsSound, Chain.InBounds, Chain.Data,
         EvBuffer.Linked, Apart;
    LinkedMeans(dst);
    LinkedMeans(src);
    ApartMeans(dst, src);
    dst.Loosened();
    var chp;
    chp, k := dst.FindVictim();
    VictimBehind(dst.datas, dst.lwd, k);
    ghost var a, b, c := dst.chains[..k], src.chains[..i], src.chains[i..];
    DistinctParts(dst.chains, src.chains, k, i);
    SegmentParts(dst.chains, k);
    SegmentParts(src.chains, i);
    assert forall j :: 0 <= j < |a| ==> a[j] == dst.chains[j];
    Hang(dst, src, if chp.FirstRef? then null else chp.chain, previous, chain, a, b, c);
    ApartMeans(dst, src);
  }

  lemma VictimBehind(d: seq<seq<Byte>>, l: nat, k: nat)
    requires IsLastWithData(d, l) && l <= k <= |d|
    requires (forall j :: l <= j < k ==> d[j] != []) && (k < |d| ==> d[k] == [])
    ensures k == l || (k == l + 1 && d[l] != [])
  {
    assert l + 1 < |d| ==> d[l + 1] == [];
  }

  /** The pieces `d`, of which piece `l` is the last one with data, up to where the first `i` of other pieces can be
      hung behind them. */
  ghost predicate CanHang(d: seq<seq<Byte>>, l: nat, k: nat, s: seq<seq<Byte>>, i: nat) {
    && IsLastWithData(d, l) && k <= |d| && (k < |d| ==> d[k] == []) && 0 < i < |s|
    && (k == l || (k == l + 1 && d[l] != []))
  }

  lemma {:induction false} MovePieces(d: seq<seq<Byte>>, l: nat, k: nat, s: seq<seq<Byte>>, i: nat)
    requires CanHang(d, l, k, s, i)
    ensures var e := d[..k] + s[..i];
            && Concat(e) == Concat(d) + Concat(s[..i]) && l < |e| && (IsSettled(d) && IsSettled(s) ==> IsSettled(e))
  {
    ConcatAppend(d[..k], s[..i]);
    ConcatCut(d, k);
    ConcatEmpties(d[k..]);
  }

  /** Where the pointer is then: the first piece counts as hung behind it, unless all pieces before are empty. */
  lemma {:induction false} HangsAt(d: seq<seq<Byte>>, l: nat, k: nat, s: seq<seq<Byte>>, i: nat)
    requires CanHang(d, l, k, s, i)
    ensures var e, start := d[..k] + s[..i], if Concat(d) == [] then 1 else 0;
      && k + start == l + 1 <= |e| && (e[l] != [] || l == 0)
      && (IsRun(e, l + 1) <==> IsRun(s[..i], start))
  {
    var e, t := d[..k] + s[..i], s[..i];
    var start := if Concat(d) == [] then 1 else 0;
    if k == l {
      ConcatEmpties(d);
    } else {
      ConcatSplit(d, l);
    }
    RunBehind(e, k, t, start);
  }

  lemma RunStays(ds: seq<seq<Byte>>, l: nat)
    ensures IsRun(ds, l) <==> StaysRun(ds, l, 0)
  {
  }

  lemma {:induction false} RunBehind(e: seq<seq<Byte>>, k: nat, t: seq<seq<Byte>>, start: nat)
    requires k <= |e| && e[k..] == t
    ensures IsRun(e, k + start) <==> IsRun(t, start)
  {
    RunStays(e, k + start);
    RunStays(t, start);
    StaysBehind(e, k, t, start, 0);
  }

  /** Piece `l'` is the last of those with data that follow piece `l` one after the other. It is the last of all with
      data exactly if none comes behind an empty one there. */
  lemma {:induction false} AdvancedPieces(e: seq<seq<Byte>>, l: nat, l': nat)
    requires l <= l' < |e| && (e[l] != [] || l == 0)
    requires (forall j :: l < j <= l' ==> e[j] != []) && (l' + 1 < |e| ==> e[l' + 1] == [])
    ensures IsPointed(e, l') && (IsLastWithData(e, l') <==> IsRun(e, l + 1))
  {
  }

  /** Whether empty chunks then keep a new one from being put in does not depend on what was there before. */
  lemma {:induction false} RunAdvanced(d: seq<seq<Byte>>, l: nat, k: nat, s: seq<seq<Byte>>, i: nat, l': nat, more: nat)
    requires CanHang(d, l, k, s, i) && Concat(s[..i]) != []
    requires var e := d[..k] + s[..i];
      && l <= l' < |e| && (forall j :: l < j <= l' ==> e[j] != []) && (l' + 1 < |e| ==> e[l' + 1] == [])
    ensures StaysRun(d[..k] + s[..i], l', more) <==> StaysRun(s[..i], if Concat(d) == [] then 1 else 0, more)
  {
    hide Concat;
    var e, t := d[..k] + s[..i], s[..i];
    HangsAt(d, l, k, s, i);
    StaysBehind(e, k, t, if Concat(d) == [] then 1 else 0, more);
    if forall j :: 0 <= j < |t| ==> t[j] == [] {
      ConcatEmpties(t);
    }
    StaysAdvanced(e, l, l', more);
  }

  lemma StaysBehind(e: seq<seq<Byte>>, k: nat, t: seq<seq<Byte>>, start: nat, more: nat)
    requires k <= |e| && e[k..] == t
    ensures StaysRun(e, k + start, more) <==> StaysRun(t, start, more)
  {
    assert |e| == k + |t|;
    if StaysRun(e, k + start, more) {
      forall i, j | start <= i < j < |t| && t[i] == []
        ensures t[j] == [] && (j < |t| - 1 || more == 0)
      {
        assert e[k + i] == t[i] && e[k + j] == t[j];
      }
      assert StaysRun(t, start, more);
    }
    if StaysRun(t, start, more) {
      forall i, j | k + start <= i < j < |e| && e[i] == []
        ensures e[j] == [] && (j < |e| - 1 || more == 0)
      {
        assert e[i] == t[i - k] && e[j] == t[j - k];
      }
      assert StaysRun(e, k + start, more);
    }
  }

  lemma StaysAdvanced(e: seq<seq<Byte>>, l: nat, l': nat, more: nat)
    requires l <= l' < |e| && (forall j :: l < j <= l' ==> e[j] != []) && (l' + 1 < |e| ==> e[l' + 1] == [])
    requires e[l] != [] || exists j :: l < j < |e| && e[j] != []
    ensures StaysRun(e, l', more) <==> StaysRun(e, l + 1, more)
  {
  }

  /** When more bytes can be added then with the pointer to them. */
  lemma {:induction false} KeptBehind(d: seq<seq<Byte>>, l: nat, k: nat, s: seq<seq<Byte>>, i: nat, l': nat,
                                      remain: nat)
    requires CanHang(d, l, k, s, i) && Concat(s[..i]) != []
    requires var e := d[..k] + s[..i]; l <= l' < |e| && IsLastWithData(e, l')
    ensures var e := d[..k] + s[..i];
      && (l' + 1 >= |e| <==> s[i - 1] != [])
      && (EvBuffer.SpillsWell(e, l', remain) <==> s[i - 1] != [] || (remain > 0 && i >= 2 && s[i - 2] != []))
  {
    hide Concat, IsSettled;
    var e, t := d[..k] + s[..i], s[..i];
    assert forall j :: 0 <= j < i ==> e[k + j] == t[j];
    assert e[|e| - 1] == t[i - 1] && (i >= 2 ==> e[|e| - 2] == t[i - 2]);
    if i == 1 {
      ConcatOne(t[0]);
      assert t == [t[0]];
    }
    ConcatAppend(d[..k], t);
    if e[l'] == [] {
      ConcatEmpties(e);
    }
  }

  lemma {:induction false} HoldingMove(cs: seq<Chain>, ds: seq<seq<Byte>>, k: nat,
                                       cs': seq<Chain>, ds': seq<seq<Byte>>, i: nat)
    requires Holding(cs, ds) && Holding(cs', ds') && k <= |cs| && i <= |cs'|
    ensures Holding(cs[..k] + cs'[..i], ds[..k] + ds'[..i]) && Holding(cs'[i..], ds'[i..])
  {
    HoldingTake(cs, ds, k);
    HoldingTake(cs', ds', i);
    HoldingDrop(cs', ds', i);
    HoldingCat(cs[..k], ds[..k], cs'[..i], ds'[..i]);
  }

  /** Moves the chunks before chunk `i` of `src`; `lastWithDatap` of `dst` stays behind. */
  method MoveLists(dst: EvBuffer, src: EvBuffer, previous: Chain, chain: Chain, ghost i: nat) returns (ghost k: nat)
    requires dst.Core() && Apart(dst, src)
    requires src.Linked() && Holding(src.chains, src.datas)
    requires 0 < i < |src.chains| == |src.datas| && src.At(previous, i - 1) && src.At(chain, i)
    modifies dst`first, dst`last, dst`chains, dst`datas, dst.chains`next
    modifies src`first, src`chains, src`datas, previous`next
    ensures dst.Linked() && Holding(dst.chains, dst.datas) && |dst.chains| == |dst.datas| && Apart(dst, src)
    ensures CanHang(old(dst.datas), dst.lwd, k, old(src.datas), i) && k <= |old(dst.datas)|
    ensures dst.datas == old(dst.datas)[..k] + old(src.datas)[..i]
    ensures dst.lwd < |dst.datas| && dst.lastWithDatap == dst.RefTo(dst.lwd) && dst.last == previous
    ensures src.Linked() && Holding(src.chains, src.datas)
    ensures src.chains == old(src.chains)[i..] && src.datas == old(src.datas)[i..]
    ensures forall j :: 0 <= j < |dst.chains| ==> dst.chains[j] in old(src.chains) || dst.chains[j] in old(dst.chains)
  {
    hide Concat, Segment, Distinct, Holding, IsLastWithData, IsPointed, IsSettled, IsSound, Chain.InBounds, Chain.Data,
         EvBuffer.Linked;
    ghost var dc, sc := dst.chains, src.chains;
    k := Splice(dst, src, previous, chain, i);
    MovePieces(dst.datas, dst.lwd, k, src.datas, i);
    HoldingMove(dc, dst.datas, k, sc, src.datas, i);
    dst.datas, src.datas := dst.datas[..k] + src.datas[..i], src.datas[i..];
  }

  /** Moves the chunks before chunk `i` of `src`, data and all. */
  method MoveWhole(dst: EvBuffer, src: EvBuffer, previous: Chain, chain: Chain, ghost i: nat, nread: nat)
    requires dst.Valid() && Apart(dst, src)
    requires src.Linked() && Holding(src.chains, src.datas) && src.lwd >= i
    requires 0 < i < |src.chains| == |src.datas| && src.At(previous, i - 1) && src.At(chain, i)
    requires nread == |Concat(src.datas[..i])| > 0
    modifies dst`first, dst`last, dst`lastWithDatap, dst`totalLen, dst`chains, dst`datas, dst`lwd, dst.chains`next
    modifies src`first, src`chains, src`datas, src`lwd, previous`next
    ensures dst.Loose() && dst.Contents() == old(dst.Contents()) + Concat(old(src.datas)[..i])
    ensures dst.Valid() <==> IsRun(old(src.datas)[..i], if old(dst.totalLen) == 0 then 1 else 0)
    ensures dst.last == previous && previous.InBounds() && dst.totalLen == old(dst.totalLen) + nread
    ensures if dst.Valid() then
              forall n :: dst.PointerKept(n) <==> n == 0 || KeepsBehind(old(src.datas), i, previous, n)
            else forall n :: !dst.PointerMended(n)
    ensures StaysRun(dst.datas, dst.lwd, previous.SpaceLen()) <==>
            StaysRun(old(src.datas)[..i], if old(dst.totalLen) == 0 then 1 else 0, previous.SpaceLen())
    ensures old(dst.Settled()) && IsSettled(old(src.datas)) ==> dst.Settled()
    ensures src.Linked() && Holding(src.chains, src.datas) && Apart(dst, src)
    ensures src.chains == old(src.chains)[i..] && src.datas == old(src.datas)[i..] && src.lwd == old(src.lwd) - i
    ensures forall j :: 0 <= j < |dst.chains| ==> dst.chains[j] in old(src.chains) || dst.chains[j] in old(dst.chains)
  {
    hide Concat, Segment, Distinct, Holding, IsLastWithData, IsSettled, IsSound, IsRun, StaysRun, IsPointed,
         Chain.InBounds, Chain.Data, Chain.Fits, EvBuffer.Linked, CanHang, EvBuffer.SpillsWell, EvBuffer.Overflows;
    ghost var d, l, s := dst.datas, dst.lwd, src.datas;
    ChunkFacts(src.chains, src.datas, i - 1);
    var k := MoveLists(dst, src, previous, chain, i);
    src.lwd := src.lwd - i;
    PassData(dst, nread, d, l, k, s, i, previous.SpaceLen());
  }

  /** Moves the pointer on over the chunks that have been hung behind, and counts their bytes. */
  method PassData(dst: EvBuffer, nread: nat, ghost d: seq<seq<Byte>>, ghost l: nat, ghost k: nat,
                  ghost s: seq<seq<Byte>>, ghost i: nat, ghost more: nat)
    requires dst.Linked() && Holding(dst.chains, dst.datas) && |dst.chains| == |dst.datas|
    requires dst.lwd == l < |dst.datas| && dst.lastWithDatap == dst.RefTo(l)
    requires CanHang(d, l, k, s, i) && k <= |d| && i <= |s| && dst.datas == d[..k] + s[..i]
    requires dst.totalLen == |Concat(d)| && nread == |Concat(s[..i])| > 0
    modifies dst`lastWithDatap, dst`totalLen, dst`lwd
    ensures dst.Loose() && dst.Contents() == Concat(d) + Concat(s[..i])
    ensures dst.totalLen == old(dst.totalLen) + nread
    ensures dst.Valid() <==> IsRun(s[..i], if old(dst.totalLen) == 0 then 1 else 0)
    ensures StaysRun(dst.datas, dst.lwd, more) <==> StaysRun(s[..i], if old(dst.totalLen) == 0 then 1 else 0, more)
    ensures if dst.Valid() then
              && (dst.lwd + 1 >= |dst.datas| <==> s[i - 1] != [])
              && (EvBuffer.SpillsWell(dst.datas, dst.lwd, more) <==>
                  s[i - 1] != [] || (more > 0 && i >= 2 && s[i - 2] != []))
            else !EvBuffer.Overflows(dst.datas, dst.lwd, more)
    ensures IsSettled(d) && IsSettled(s) ==> dst.Settled()
  {
    hide Concat, Segment, Distinct, Holding, IsLastWithData, IsSettled, IsSound, IsRun, StaysRun, IsPointed,
         Chain.InBounds, Chain.Data, Chain.Fits, EvBuffer.Linked, CanHang, EvBuffer.SpillsWell, EvBuffer.Overflows;
    dst.AdvanceLastWithData();
    dst.totalLen := dst.totalLen + nread;
    MovePieces(d, l, k, s, i);
    AfterMove(d, l, k, s, i, dst.datas, dst.lwd, more);
    dst.Loosened();
  }

  /** All that is to be known of the pieces of a queue behind which others have been hung, and of the pointer moved on. */
  lemma {:induction false} AfterMove(d: seq<seq<Byte>>, l: nat, k: nat, s: seq<seq<Byte>>, i: nat, e: seq<seq<Byte>>,
                                     l': nat, more: nat)
    requires CanHang(d, l, k, s, i) && Concat(s[..i]) != [] && k <= |d| && i <= |s| && e == d[..k] + s[..i]
    requires l <= l' < |e| && (forall j :: l < j <= l' ==> e[j] != []) && (l' + 1 < |e| ==> e[l' + 1] == [])
    ensures var start := if Concat(d) == [] then 1 else 0;
      && IsPointed(e, l') && (IsLastWithData(e, l') <==> IsRun(s[..i], start))
      && (StaysRun(e, l', more) <==> StaysRun(s[..i], start, more))
      && (if IsLastWithData(e, l') then
            && (l' + 1 >= |e| <==> s[i - 1] != [])
            && (EvBuffer.SpillsWell(e, l', more) <==> s[i - 1] != [] || (more > 0 && i >= 2 && s[i - 2] != []))
          else !EvBuffer.Overflows(e, l', more))
  {
    hide Concat, IsLastWithData, IsRun, StaysRun, IsPointed, EvBuffer.SpillsWell, EvBuffer.Overflows;
    HangsAt(d, l, k, s, i);
    AdvancedPieces(e, l, l');
    RunAdvanced(d, l, k, s, i, l', more);
    if IsLastWithData(e, l') {
      KeptBehind(d, l, k, s, i, l', more);
    } else {
      NotMended(e, l', more);
    }
  }

  /** More bytes go behind the first `i` pieces of a queue, the last of which is in this chunk, with the pointer to them:
      that piece has data, or they go on into a new chunk and the piece before has data. */
  ghost predicate KeepsBehind(ds: seq<seq<Byte>>, i: nat, chain: Chain, n: nat)
    requires 0 < i <= |ds| && chain.InBounds()
    reads chain
  {
    ds[i - 1] != [] || (!chain.Fits(n) && chain.SpaceLen() > 0 && i >= 2 && ds[i - 2] != [])
  }

  /** Data behind an empty piece that comes next cannot be passed. */
  lemma NotMended(ds: seq<seq<Byte>>, l: nat, remain: nat)
    requires IsPointed(ds, l) && !IsLastWithData(ds, l) && (l + 1 < |ds| ==> ds[l + 1] == [])
    ensures !EvBuffer.Overflows(ds, l, remain)
  {
  }

  /** No chunk of `b` shares anything with a chunk of `a`. */
  ghost predicate Strangers(a: seq<Chain>, b: seq<Chain>) {
    forall x, y :: x in a && y in b ==> x != y && x.buffer != y.buffer
  }

  lemma {:induction false} DistinctStrangers(a: seq<Chain>, b: seq<Chain>)
    ensures Distinct(a + b) <==> Distinct(a) && Distinct(b) && Strangers(a, b)
  {
    var all := a + b;
    if Distinct(all) {
      assert a == all[..|a|] && b == all[|a|..];
      forall x, y | x in a && y in b
        ensures x != y && x.buffer != y.buffer
      {
        var i :| 0 <= i < |a| && a[i] == x;
        var j :| 0 <= j < |b| && b[j] == y;
        assert all[i] == x && all[|a| + j] == y;
      }
    }
    if Distinct(a) && Distinct(b) && Strangers(a, b) {
      forall i, j | 0 <= i < j < |all|
        ensures all[i] != all[j] && all[i].buffer != all[j].buffer
      {
        if i < |a| <= j {
          assert all[i] in a && all[j] in b;
        }
      }
    }
  }

  /** evbuffer_add to `dst`, which leaves the chunks of another queue alone. */
  method AddBeside(dst: EvBuffer, src: EvBuffer, data: seq<Byte>, canAlloc: bool) returns (result: int, aborted: bool)
    requires dst.Loose() && Apart(dst, src)
    requires src.Linked() && Holding(src.chains, src.datas)
    modifies dst, dst.chains, set c | c in dst.chains :: c.buffer
    ensures result == if old(dst.CanAdd(|data|, canAlloc)) then 0 else -1
    ensures aborted <==> old(dst.Aborts(|data|, canAlloc))
    ensures !aborted && dst.Valid() <==> old(StaysKept(dst, |data|, canAlloc))
    ensures old(dst.Valid() && dst.Settled()) ==> !aborted && dst.Valid() && dst.Settled()
    ensures dst.freezeStart == old(dst.freezeStart) && dst.freezeEnd == old(dst.freezeEnd)
    ensures src.Linked() && Holding(src.chains, src.datas)
    ensures forall c :: c in src.chains ==> c.off == old(c.off)
    ensures !aborted ==>
              && dst.Loose() && Apart(dst, src)
              && (forall c :: c in dst.chains ==> c in old(dst.chains) || (fresh(c) && fresh(c.buffer)))
              && dst.Contents() == if result == 0 then old(dst.Contents()) + data else old(dst.Contents())
  {
    hide Concat, IsLastWithData, IsSettled, IsPointed, Segment, IsSound, Chain.InBounds, Chain.Data, Distinct, Holding;
    hide EvBuffer.Linked, EvBuffer.PointerKept, EvBuffer.PointerMended, EvBuffer.CanAdd, StaysRun;
    DistinctStrangers(dst.chains, src.chains);
    src.Unshared();
    dst.Unshared();
    dst.Loosened();
    assert forall c :: c in src.chains ==> c !in dst.chains && forall d :: d in dst.chains ==> c.buffer != d.buffer;
    result, aborted := dst.Add(data, canAlloc);
    dst.Loosened();
    if !aborted {
      dst.Unshared();
      DistinctStrangers(dst.chains, src.chains);
    }
  }

  /** When the pointer to the last chunk with data is right after evbuffer_add of `n` bytes. */
  ghost predicate StaysKept(buf: EvBuffer, n: nat, canAlloc: bool)
    requires buf.Loose()
    reads buf, buf.chains, set c | c in buf.chains :: c.buffer
  {
    if buf.Valid() then !buf.CanAdd(n, canAlloc) || buf.PointerKept(n)
    else buf.CanAdd(n, canAlloc) && buf.PointerMended(n)
  }

  /** How many of the first `n` bytes make up whole pieces. */
  ghost function WholeBytes(ds: seq<seq<Byte>>, n: nat): (w: nat)
    ensures w <= n && w <= |Concat(ds)| && (w > 0 ==> WholePieces(ds, n) > 0)
  {
    WholeBound(ds, n);
    ConcatCut(ds, WholePieces(ds, n));
    ConcatNone<Byte>();
    |Concat(ds[..WholePieces(ds, n)])|
  }

  /** There is a place in `dst` for the bytes that do not make up a whole chunk of `src`: behind the whole ones, or
      where `dst` ends if these hold no data. */
  ghost predicate RestHasPlace(src: EvBuffer, dst: EvBuffer, datlen: nat, canAlloc: bool)
    requires Holding(src.chains, src.datas) && dst.Valid()
    reads src`chains, src`datas, dst, src.chains, dst.chains, set c | c in src.chains + dst.chains :: c.buffer
  {
    var whole := WholeBytes(src.datas, datlen);
    var rest := datlen - whole;
    HasPlace(if whole > 0 then src.chains[WholePieces(src.datas, datlen) - 1].Fits(rest) else dst.FitsLast(rest),
             dst.totalLen + whole, rest, canAlloc)
  }

  /** How many bytes evbuffer_remove_buffer really hands over, of the `datlen` first that leave `src`. */
  ghost function Moved(src: EvBuffer, dst: EvBuffer, datlen: nat, canAlloc: bool): (m: nat)
    requires src.Valid() && dst.Valid()
    reads src, dst, src.chains, dst.chains, set c | c in src.chains + dst.chains :: c.buffer
    ensures m <= |src.Contents()|
  {
    if datlen >= src.totalLen then src.totalLen
    else if RestHasPlace(src, dst, datlen, canAlloc) then datlen
    else WholeBytes(src.datas, datlen)
  }

  /** evbuffer_remove_buffer has something to do other than moving all of `src`. */
  ghost predicate MovesPart(src: EvBuffer, dst: EvBuffer, datlen: nat)
    reads src`totalLen, src`freezeStart, dst`freezeEnd
  {
    0 < datlen < src.totalLen && dst != src && !dst.freezeEnd && !src.freezeStart
  }

  /** When evbuffer_remove_buffer leaves `lastWithDatap` of `dst` leading to the last chunk with data. If chunks change
      hands, no chunk with data comes behind an empty one of them, and the bytes that are copied find no place or go
      behind the last of them with data. If not, these find no place or evbuffer_add keeps the pointer right. */
  ghost predicate DestinationKept(src: EvBuffer, dst: EvBuffer, datlen: nat, canAlloc: bool)
    requires Holding(src.chains, src.datas) && dst.Valid()
    reads src`chains, src`datas, src`totalLen, src`freezeStart, dst, src.chains, dst.chains
    reads set c | c in src.chains + dst.chains :: c.buffer
  {
    MovesPart(src, dst, datlen) ==>
      var i, whole := WholePieces(src.datas, datlen), WholeBytes(src.datas, datlen);
      if whole == 0 then !RestHasPlace(src, dst, datlen, canAlloc) || dst.PointerKept(datlen)
      else
        && IsRun(src.datas[..i], if dst.totalLen == 0 then 1 else 0)
        && (datlen == whole || !RestHasPlace(src, dst, datlen, canAlloc)
            || KeepsBehind(src.datas, i, src.chains[i - 1], datlen - whole))
  }

  /** When an assertion keeps evbuffer_remove_buffer from copying the rest: it goes on into a new chunk, and behind an
      empty chunk, from where the pointer is then, is data or free room at the very end. */
  ghost predicate MoveAborts(src: EvBuffer, dst: EvBuffer, datlen: nat, canAlloc: bool)
    requires Holding(src.chains, src.datas) && dst.Valid()
    reads src`chains, src`datas, src`totalLen, src`freezeStart, dst, src.chains, dst.chains
    reads set c | c in src.chains + dst.chains :: c.buffer
  {
    && MovesPart(src, dst, datlen) && RestHasPlace(src, dst, datlen, canAlloc)
    && var i, whole := WholePieces(src.datas, datlen), WholeBytes(src.datas, datlen);
       if whole == 0 then
         dst.last != null && !dst.FitsLast(datlen) && !StaysRun(dst.datas, dst.lwd, dst.last.SpaceLen())
       else
         && !src.chains[i - 1].Fits(datlen - whole)
         && !StaysRun(src.datas[..i], if dst.totalLen == 0 then 1 else 0, src.chains[i - 1].SpaceLen())
  }

  /** When it leaves `lastWithDatap` of `src` leading there: the chunks that it passes over are not all empty, or there
      are none, or it stops before the chunk that `lastWithDatap` leads to. */
  ghost predicate SourceKept(src: EvBuffer, dst: EvBuffer, datlen: nat)
    requires src.Valid()
    reads src, dst, src.chains, set c | c in src.chains :: c.buffer
  {
    MovesPart(src, dst, datlen) ==>
      var i := WholePieces(src.datas, datlen);
      WholeBytes(src.datas, datlen) > 0 || i == 0 || i < src.lwd
  }

  /** evbuffer_remove_buffer: moves the first bytes of `src` to the end of `dst`. Chunks that hold only such bytes change
      hands; the source ignores that the copy of the rest can fail, and then those bytes are lost. Empty chunks may
      keep `lastWithDatap` of either queue from getting to the last one with data. */
  method RemoveBuffer(src: EvBuffer, dst: EvBuffer, datlen: nat, canAlloc: bool) returns (result: int, aborted: bool)
    requires src.Valid() && dst.Valid() && (src == dst || Apart(dst, src))
    modifies src, dst, src.chains, dst.chains, set c | c in src.chains + dst.chains :: c.buffer
    ensures aborted <==> old(MoveAborts(src, dst, datlen, canAlloc))
    ensures !aborted && dst.Valid() <==> old(DestinationKept(src, dst, datlen, canAlloc))
    ensures old(src.Settled() && dst.Settled()) ==>
              !aborted && src.Valid() && src.Settled() && dst.Valid() && dst.Settled()
    ensures src.freezeStart == old(src.freezeStart) && src.freezeEnd == old(src.freezeEnd)
    ensures dst.freezeStart == old(dst.freezeStart) && dst.freezeEnd == old(dst.freezeEnd)
    ensures !aborted ==>
              && src.Loose() && (src.Valid() <==> old(SourceKept(src, dst, datlen)))
              && dst.Loose() && (src == dst || Apart(dst, src))
              && forall c :: c in src.chains || c in dst.chains ==>
                   c in old(src.chains) || c in old(dst.chains) || (fresh(c) && fresh(c.buffer))
    ensures var idle := datlen == 0 || dst == src;
            var rejected := old(dst.freezeEnd || src.freezeStart);
            var n := Min(datlen, old(src.totalLen));
            && result == (if idle then 0 else if rejected then -1 else ToInt(n))
            && (idle || rejected ==>
                  src.Contents() == old(src.Contents()) && dst.Contents() == old(dst.Contents()))
            && (!aborted && !idle && !rejected ==>
                  && src.Contents() == old(src.Contents())[n..]
                  && dst.Contents()
                     == old(dst.Contents()) + old(src.Contents())[..old(Moved(src, dst, datlen, canAlloc))])
  {
    hide Concat, IsLastWithData, IsSettled, IsPointed, Segment, Holding, Distinct, Chain.Data, EvBuffer.Linked;
    src.Loosened();
    dst.Loosened();
    if datlen == 0 || dst == src {
      return 0, false;
    }
    if dst.freezeEnd || src.freezeStart {
      return -1, false;
    }
    if datlen >= src.totalLen {
      var total := src.totalLen;
      var r := AddBuffer(dst, src);
      ghost var all := old(src.Contents());
      assert all[..total] == all && all[total..] == [];
      assert forall c :: c in src.chains || c in dst.chains ==> c in dst.chains + src.chains;
      src.Loosened();
      dst.Loosened();
      return ToInt(total), false;
    }
    result, aborted := RemovePart(src, dst, datlen, canAlloc);
  }

  lemma {:induction false} ChunkFacts(cs: seq<Chain>, ds: seq<seq<Byte>>, i: nat)
    requires Holding(cs, ds) && i < |cs|
    ensures cs[i].InBounds() && cs[i].off == |ds[i]| <= CHAIN_MAX - CHAIN_SIZE
    ensures cs[i].buffer[cs[i].misalign..cs[i].misalign + cs[i].off] == ds[i]
  {
  }

  lemma LastInBounds(buf: EvBuffer)
    requires buf.Loose()
    ensures buf.last != null ==> buf.last.InBounds()
  {
  }

  /** No piece of a settled queue that is passed over is empty. */
  lemma {:induction false} SettledWhole(ds: seq<seq<Byte>>, n: nat)
    requires IsSettled(ds) && n < |Concat(ds)|
    ensures WholePieces(ds, n) > 0 ==> WholeBytes(ds, n) > 0
    ensures IsRun(ds[..WholePieces(ds, n)], 0)
  {
    WholeBound(ds, n);
    var i := WholePieces(ds, n);
    if |ds| == 1 {
      ConcatOne(ds[0]);
      assert ds == [ds[0]];
    }
    if i > 0 {
      ConcatSplit(ds[..i], 0);
    }
  }

  /** Where the first chunk is then that keeps some bytes. */
  ghost function Kept(ds: seq<seq<Byte>>, n: nat): (at: nat) {
    if WholeBytes(ds, n) > 0 then 0 else WholePieces(ds, n)
  }

  /** Moves the chunks of `src` that `datlen` bytes take up whole. */
  method TakeSome(src: EvBuffer, dst: EvBuffer, datlen: nat, ghost canAlloc: bool, chain: Chain, previous: Chain,
                  rest: nat, ghost i: nat)
    requires src.Linked() && Holding(src.chains, src.datas) && dst.Valid() && Apart(dst, src)
    requires !dst.freezeEnd && !src.freezeStart && 0 < datlen < src.totalLen
    requires i == WholePieces(src.datas, datlen) && i <= src.lwd && 0 < i < |src.chains|
    requires src.At(previous, i - 1) && src.At(chain, i)
    requires src.lwd <= |src.chains| && src.lastWithDatap == if i == src.lwd then FirstRef else src.RefTo(src.lwd)
    requires rest == datlen - WholeBytes(src.datas, datlen) < datlen
    modifies dst`first, dst`last, dst`lastWithDatap, dst`totalLen, dst`chains, dst`datas, dst`lwd, dst.chains`next
    modifies src`first, src`chains, src`datas, src`lwd, src.chains`next
    ensures dst.Loose() && Apart(dst, src)
    ensures old(dst.Settled()) && IsSettled(old(src.datas)) && IsRun(old(src.datas)[..i], 0) ==>
              dst.Valid() && dst.Settled()
    ensures src.Linked() && Holding(src.chains, src.datas)
    ensures src.chains == old(src.chains)[i..] && src.datas == old(src.datas)[i..] && src.lwd == old(src.lwd) - i
    ensures src.lwd <= |src.chains| == |src.datas| && src.lastWithDatap == src.RefTo(src.lwd)
    ensures forall j :: 0 <= j < |src.chains| ==> src.chains[j] in old(src.chains)
    ensures dst.Contents() == old(dst.Contents()) + Concat(old(src.datas)[..i])
    ensures forall j :: 0 <= j < |dst.chains| ==> dst.chains[j] in old(src.chains) || dst.chains[j] in old(dst.chains)
    ensures old(RestHasPlace(src, dst, datlen, canAlloc)) <==> dst.CanAdd(rest, canAlloc)
    ensures old(MoveAborts(src, dst, datlen, canAlloc)) <==> dst.Aborts(rest, canAlloc)
    ensures old(DestinationKept(src, dst, datlen, canAlloc)) <==> StaysKept(dst, rest, canAlloc)
  {
    hide StaysRun, WholePieces, HasPlace, Chain.Fits, Concat, IsLastWithData, IsSettled, IsPointed, Segment, Holding,
         Distinct, IsSound, Chain.Data, EvBuffer.Linked;
    assert previous in src.chains && |src.chains| == |src.datas| by { HoldingLength(src.chains, src.datas); }
    MoveWhole(dst, src, previous, chain, i, datlen - rest);
  }

  lemma HoldingLength(cs: seq<Chain>, ds: seq<seq<Byte>>)
    requires Holding(cs, ds)
    ensures |cs| == |ds|
  {
  }

  lemma NoneWhole(src: EvBuffer, dst: EvBuffer, datlen: nat, canAlloc: bool)
    requires Holding(src.chains, src.datas) && dst.Valid() && src != dst
    requires !dst.freezeEnd && !src.freezeStart && 0 < datlen < src.totalLen && WholeBytes(src.datas, datlen) == 0
    ensures RestHasPlace(src, dst, datlen, canAlloc) <==> dst.CanAdd(datlen, canAlloc)
    ensures dst.Loose() && (DestinationKept(src, dst, datlen, canAlloc) <==> StaysKept(dst, datlen, canAlloc))
    ensures MoveAborts(src, dst, datlen, canAlloc) <==> dst.Aborts(datlen, canAlloc)
  {
    hide WholePieces, HasPlace, Concat, EvBuffer.Core, EvBuffer.PointerKept;
    dst.Loosened();
  }

  /** The same if they hold any. */
  method TakeWhole(src: EvBuffer, dst: EvBuffer, datlen: nat, ghost canAlloc: bool)
    returns (chain: Chain, rest: nat, ghost i: nat)
    requires src.Valid() && dst.Valid() && Apart(dst, src)
    requires !dst.freezeEnd && !src.freezeStart && 0 < datlen < src.totalLen
    modifies dst`first, dst`last, dst`lastWithDatap, dst`totalLen, dst`chains, dst`datas, dst`lwd, dst.chains`next
    modifies src`first, src`chains, src`datas, src`lwd, src`lastWithDatap, src.chains`next
    ensures i == old(WholePieces(src.datas, datlen)) < |old(src.datas)| && i <= old(src.lwd)
    ensures rest == datlen - old(WholeBytes(src.datas, datlen)) < |old(src.datas)[i]|
    ensures dst.Loose() && Apart(dst, src)
    ensures old(dst.Settled()) && IsSettled(old(src.datas)) && IsRun(old(src.datas)[..i], 0) ==>
              dst.Valid() && dst.Settled()
    ensures src.Linked() && Holding(src.chains, src.datas) && src.At(chain, old(Kept(src.datas, datlen)))
    ensures src.datas == (if old(WholeBytes(src.datas, datlen)) > 0 then old(src.datas)[i..] else old(src.datas))
    ensures src.lwd == LeftPointer(old(src.lwd), i, old(WholeBytes(src.datas, datlen))) <= |src.chains| == |src.datas|
    ensures src.lastWithDatap == src.RefTo(src.lwd)
    ensures dst.Contents() == old(dst.Contents()) + Concat(old(src.datas)[..i])
    ensures forall j :: 0 <= j < |dst.chains| ==> dst.chains[j] in old(src.chains) || dst.chains[j] in old(dst.chains)
    ensures forall j :: 0 <= j < |src.chains| ==> src.chains[j] in old(src.chains)
    ensures chain in old(src.chains)
    ensures old(RestHasPlace(src, dst, datlen, canAlloc)) <==> dst.CanAdd(rest, canAlloc)
    ensures old(MoveAborts(src, dst, datlen, canAlloc)) <==> dst.Aborts(rest, canAlloc)
    ensures old(DestinationKept(src, dst, datlen, canAlloc)) <==> StaysKept(dst, rest, canAlloc)
  {
    hide Chain.InBounds, MoveAborts, EvBuffer.Aborts, EvBuffer.CanAdd, EvBuffer.Strung, EvBuffer.PointerMended, RestHasPlace,
         DestinationKept, StaysKept, WholePieces, HasPlace, Chain.Fits, Concat, IsLastWithData, IsSettled, IsPointed,
         IsRun, Segment, Holding, Distinct, IsSound, Chain.Data, EvBuffer.Linked;
    HasChunks(src);
    ghost var ds, has := src.datas, RestHasPlace(src, dst, datlen, canAlloc);
    ghost var fails, kept := MoveAborts(src, dst, datlen, canAlloc), DestinationKept(src, dst, datlen, canAlloc);
    var previous;
    chain, previous, rest, i := WholeChunks(src, datlen);
    assert has == RestHasPlace(src, dst, datlen, canAlloc) && fails == MoveAborts(src, dst, datlen, canAlloc);
    assert kept == DestinationKept(src, dst, datlen, canAlloc);
    assert ds[..0] == [] && ds[0..] == ds && datlen - rest == WholeBytes(ds, datlen);
    if datlen - rest > 0 {
      TakeSome(src, dst, datlen, canAlloc, chain, previous, rest, i);
    } else {
      NoneWhole(src, dst, datlen, canAlloc);
      src.lwd := LeftPointer(src.lwd, i, 0);
    }
    LastInBounds(dst);
  }

  /** Where `lastWithDatap` leads after `i` chunks with `whole` bytes have been passed over. */
  ghost function LeftPointer(l: nat, i: nat, whole: nat): (l': nat) {
    if whole > 0 then (if l >= i then l - i else 0) else if i == l then 0 else l
  }

  /** What is left of pieces, of which the first `i` hold `whole` bytes and are given away if that is not 0, and of which
      piece `i` loses `r` bytes. */
  ghost function LeftPieces(ds: seq<seq<Byte>>, i: nat, r: nat): (es: seq<seq<Byte>>)
    requires i < |ds| && r <= |ds[i]|
  {
    if |Concat(ds[..i])| > 0 then ds[i..][0 := ds[i][r..]] else ds[i := ds[i][r..]]
  }

  lemma {:induction false} LeftIs(ds: seq<seq<Byte>>, l: nat, i: nat, r: nat)
    requires IsLastWithData(ds, l) && i <= l && i < |ds| && r < |ds[i]|
    ensures var es, whole := LeftPieces(ds, i, r), |Concat(ds[..i])|;
            var l' := LeftPointer(l, i, whole);
            && IsPointed(es, l') && (IsLastWithData(es, l') <==> whole > 0 || i == 0 || i < l)
            && (IsSettled(ds) ==> IsSettled(es))
            && whole + r <= |Concat(ds)| && Concat(es) == Concat(ds)[whole + r..]
            && Concat(ds)[..whole + r] == Concat(ds[..i]) + ds[i][..r]
  {
    hide Concat;
    DropPieces(ds, l, i, r);
    if |Concat(ds[..i])| == 0 {
      LeftInside(ds, l, i, r);
    }
  }

  lemma {:induction false} LeftInside(ds: seq<seq<Byte>>, l: nat, i: nat, r: nat)
    requires IsLastWithData(ds, l) && i <= l && i < |ds| && r < |ds[i]| && Concat(ds[..i]) == []
    ensures var es, l' := ds[i := ds[i][r..]], if i == l then 0 else l;
            && IsPointed(es, l') && (IsLastWithData(es, l') <==> i == 0 || i < l)
            && (IsSettled(ds) ==> IsSettled(es))
            && Concat(es) == Concat(ds[i..][0 := ds[i][r..]])
  {
    hide Concat;
    var d := ds[i][r..];
    var es := ds[i := d];
    ConcatUpdate(ds, i, d);
    ConcatUpdate(ds[i..], 0, d);
    assert ds[i..][..0] == [] && ds[i..][1..] == ds[i + 1..];
    ConcatNone<Byte>();
    assert forall j :: 0 <= j < |ds| && j != i ==> es[j] == ds[j];
    assert es[i] == d;
  }

  /** Copies the last bytes over that do not make up a whole chunk. */
  method TakeRest(src: EvBuffer, dst: EvBuffer, chain: Chain, ghost at: nat, rest: nat, canAlloc: bool)
    returns (r: int, aborted: bool)
    requires dst.Loose() && Apart(dst, src)
    requires src.Linked() && Holding(src.chains, src.datas) && src.At(chain, at)
    requires |src.datas| == |src.chains| && rest < |src.datas[at]|
    modifies dst, dst.chains, set c | c in dst.chains :: c.buffer
    modifies src`datas, chain`misalign, chain`off
    ensures r == if old(dst.CanAdd(rest, canAlloc)) then 0 else -1
    ensures aborted <==> old(dst.Aborts(rest, canAlloc))
    ensures !aborted && dst.Valid() <==> old(StaysKept(dst, rest, canAlloc))
    ensures old(dst.Valid() && dst.Settled()) ==> !aborted && dst.Valid() && dst.Settled()
    ensures dst.freezeStart == old(dst.freezeStart) && dst.freezeEnd == old(dst.freezeEnd)
    ensures !aborted ==>
              && dst.Loose() && Apart(dst, src) && src.Linked() && Holding(src.chains, src.datas)
              && src.datas == old(src.datas)[at := old(src.datas)[at][rest..]]
              && dst.Contents() == old(dst.Contents()) + (if r == 0 then old(src.datas)[at][..rest] else [])
              && forall c :: c in dst.chains ==> c in old(dst.chains) || (fresh(c) && fresh(c.buffer))
  {
    hide Concat, IsLastWithData, IsSettled, IsPointed, Segment, Holding, Distinct, IsSound, Chain.Data,
         EvBuffer.Linked, EvBuffer.Aborts, StaysKept;
    ChunkFacts(src.chains, src.datas, at);
    var piece := chain.buffer[chain.misalign..chain.misalign + rest];
    FirstOf(src.chains, src.datas, at, rest);
    r, aborted := AddBeside(dst, src, piece, canAlloc);
    if !aborted {
      src.Unshared();
      DistinctStrangers(dst.chains, src.chains);
      src.DropFront(chain, at, rest);
    }
  }

  lemma {:induction false} TakenBytes(now: seq<Byte>, d: seq<Byte>, all: seq<Byte>, whole: seq<Byte>, piece: seq<Byte>)
    requires now == d + whole && whole + piece <= all
    ensures now == d + all[..|whole|] && now + piece == d + all[..|whole| + |piece|] && now + [] == now
  {
    assert all[..|whole|] == whole && all[..|whole| + |piece|] == whole + piece;
  }

  /** Copies the last bytes over; what is left of `src` is a queue again. */
  method FinishMove(src: EvBuffer, dst: EvBuffer, chain: Chain, ghost at: nat, rest: nat, canAlloc: bool, n: nat)
    returns (r: int, aborted: bool)
    requires dst.Loose() && Apart(dst, src)
    requires src.Linked() && Holding(src.chains, src.datas) && src.At(chain, at)
    requires src.lwd <= |src.chains| == |src.datas| && rest < |src.datas[at]| && src.lastWithDatap == src.RefTo(src.lwd)
    requires var es := src.datas[at := src.datas[at][rest..]];
             IsPointed(es, src.lwd) && src.totalLen == n + |Concat(es)|
    modifies dst, dst.chains, set c | c in dst.chains :: c.buffer
    modifies src`datas, src`totalLen, chain`misalign, chain`off
    ensures r == if old(dst.CanAdd(rest, canAlloc)) then 0 else -1
    ensures aborted <==> old(dst.Aborts(rest, canAlloc))
    ensures !aborted && dst.Valid() <==> old(StaysKept(dst, rest, canAlloc))
    ensures old(dst.Valid() && dst.Settled()) ==> !aborted && dst.Valid() && dst.Settled()
    ensures dst.freezeStart == old(dst.freezeStart) && dst.freezeEnd == old(dst.freezeEnd)
    ensures !aborted ==>
              && src.Loose() && src.datas == old(src.datas[at := src.datas[at][rest..]])
              && dst.Loose() && Apart(dst, src)
              && dst.Contents() == old(dst.Contents()) + (if r == 0 then old(src.datas)[at][..rest] else [])
              && forall c :: c in dst.chains ==> c in old(dst.chains) || (fresh(c) && fresh(c.buffer))
  {
    hide Concat, IsLastWithData, IsSettled, IsPointed, Segment, Holding, Distinct, IsSound, Chain.Data,
         EvBuffer.Linked, EvBuffer.Aborts, StaysKept, EvBuffer.CanAdd;
    r, aborted := TakeRest(src, dst, chain, at, rest, canAlloc);
    if !aborted {
      src.totalLen := src.totalLen - n;
    }
  }

  lemma PartMeans(src: EvBuffer, dst: EvBuffer, datlen: nat, canAlloc: bool)
    requires src.Valid() && dst.Valid() && MovesPart(src, dst, datlen)
    ensures Moved(src, dst, datlen, canAlloc)
            == if RestHasPlace(src, dst, datlen, canAlloc) then datlen else WholeBytes(src.datas, datlen)
    ensures SourceKept(src, dst, datlen) <==>
            WholeBytes(src.datas, datlen) > 0 || WholePieces(src.datas, datlen) == 0
            || WholePieces(src.datas, datlen) < src.lwd
    ensures src.Settled() ==> SourceKept(src, dst, datlen) && IsRun(src.datas[..WholePieces(src.datas, datlen)], 0)
  {
    hide Concat, WholePieces, WholeBytes, RestHasPlace, IsSettled, IsRun;
    if src.Settled() {
      SettledWhole(src.datas, datlen);
    }
  }

  /** evbuffer_remove_buffer where `src` keeps some bytes. */
  method RemovePart(src: EvBuffer, dst: EvBuffer, datlen: nat, canAlloc: bool) returns (result: int, aborted: bool)
    requires src.Valid() && dst.Valid() && Apart(dst, src)
    requires !dst.freezeEnd && !src.freezeStart && 0 < datlen < src.totalLen
    modifies src, dst, src.chains, dst.chains, set c | c in src.chains + dst.chains :: c.buffer
    ensures aborted <==> old(MoveAborts(src, dst, datlen, canAlloc))
    ensures !aborted && dst.Valid() <==> old(DestinationKept(src, dst, datlen, canAlloc))
    ensures old(src.Settled() && dst.Settled()) ==>
              !aborted && src.Valid() && src.Settled() && dst.Valid() && dst.Settled()
    ensures src.freezeStart == old(src.freezeStart) && src.freezeEnd == old(src.freezeEnd)
    ensures dst.freezeStart == old(dst.freezeStart) && dst.freezeEnd == old(dst.freezeEnd)
    ensures result == ToInt(datlen)
    ensures !aborted ==>
              && src.Loose() && (src.Valid() <==> old(SourceKept(src, dst, datlen))) && dst.Loose() && Apart(dst, src)
              && (forall c :: c in src.chains || c in dst.chains ==>
                    c in old(src.chains) || c in old(dst.chains) || (fresh(c) && fresh(c.buffer)))
              && src.Contents() == old(src.Contents())[datlen..]
              && dst.Contents() == old(dst.Contents()) + old(src.Contents())[..old(Moved(src, dst, datlen, canAlloc))]
  {
    hide MoveAborts, EvBuffer.Aborts, EvBuffer.Strung, Moved, SourceKept, IsRun, KeepsBehind, LeftPointer,
         EvBuffer.Strung, Concat, IsLastWithData, IsSettled, IsPointed, Segment, Holding, Distinct, IsSound,
         Chain.Data, Chain.InBounds, EvBuffer.Linked, Apart, EvBuffer.RefTo, ToInt, Strangers, RestHasPlace, HasPlace,
         Chain.Fits, WholePieces, DestinationKept, StaysKept, EvBuffer.CanAdd;
    ApartMeans(dst, src);
    ghost var ds, l, d := src.datas, src.lwd, dst.Contents();
    ghost var arrays := set c | c in src.chains + dst.chains :: c.buffer;
    PartMeans(src, dst, datlen, canAlloc);
    var chain, rest, i := TakeWhole(src, dst, datlen, canAlloc);
    LeftIs(ds, l, i, rest);
    ghost var at := Kept(ds, datlen);
    assert src.datas[at := src.datas[at][rest..]] == LeftPieces(ds, i, rest);
    TakenBytes(dst.Contents(), d, Concat(ds), Concat(ds[..i]), ds[i][..rest]);
    assert forall j :: 0 <= j < |dst.chains| ==> dst.chains[j].buffer in arrays;
    var r;
    r, aborted := FinishMove(src, dst, chain, at, rest, canAlloc, datlen);
    src.Loosened();
    result := ToInt(datlen);
  }

  lemma {:induction false} WholeBound(ds: seq<seq<Byte>>, n: nat)
    ensures var i := WholePieces(ds, n);
            && |Concat(ds[..i])| <= n && (i < |ds| ==> n - |Concat(ds[..i])| < |ds[i]|)
            && (i == |ds| ==> ds[..i] == ds)
  {
    var i := WholePieces(ds, n);
    if i > 0 {
      assert ds[..i] == [ds[0]] + ds[1..][..i - 1];
      WholeBound(ds[1..], n - |ds[0]|);
      ConcatAppend([ds[0]], ds[1..][..i - 1]);
      ConcatOne(ds[0]);
    }
  }

  lemma MovedBounds(src: EvBuffer, dst: EvBuffer, datlen: nat, canAlloc: bool)
    requires src.Valid() && dst.Valid()
    ensures var m, n := Moved(src, dst, datlen, canAlloc), Min(datlen, src.totalLen);
            m <= n && (canAlloc && dst.totalLen + n <= SIZE_MAX ==> m == n)
  {
    hide Concat, WholePieces;
    WholeBound(src.datas, datlen);
    var i := WholePieces(src.datas, datlen);
    if i < |src.datas| {
      ChunkFacts(src.chains, src.datas, i);
    }
  }

  /** Bytes are lost exactly if some are to stay behind in `src`, the last of those to go do not make up a whole
      chunk, and there is no place for these; then exactly they are lost. */
  lemma BytesLost(src: EvBuffer, dst: EvBuffer, datlen: nat, canAlloc: bool)
    requires src.Valid() && dst.Valid()
    ensures var n, whole := Min(datlen, src.totalLen), WholeBytes(src.datas, datlen);
            var m := Moved(src, dst, datlen, canAlloc);
            && (m < n <==> datlen < src.totalLen && whole < datlen && !RestHasPlace(src, dst, datlen, canAlloc))
            && (m < n ==> m == whole)
  {
    WholeBound(src.datas, datlen);
  }

  lemma OneChunk(buf: EvBuffer)
    requires buf.Valid() && |buf.chains| == 1
    ensures Distinct(buf.chains)
    ensures |buf.Contents()| > 1 ==> WholePieces(buf.datas, 1) == 0 && WholeBytes(buf.datas, 1) == 0
  {
    ConcatOne(buf.datas[0]);
    assert buf.datas == [buf.datas[0]];
  }

  /** One byte of three is to go to an empty queue, and there is no memory for it. */
  method LoseByte() returns (src: EvBuffer, dst: EvBuffer)
    ensures src.Valid() && dst.Valid() && src.Contents() == [2, 3] && dst.Contents() == []
  {
    hide EvBuffer.Core, EvBuffer.Strung, EvBuffer.PointerKept, Apart, Distinct, WholePieces, IsSettled, Concat,
         RestHasPlace;
    src := new EvBuffer();
    dst := new EvBuffer();
    src.Loosened();
    var r, aborted := src.Add([1, 2, 3], true);
    assert forall j :: 0 <= j < |src.chains| ==> fresh(src.chains[j]) && fresh(src.chains[j].buffer);
    OneChunk(src);
    NoPlace(src, dst);
    assert dst.chains + src.chains == src.chains;
    ApartMeans(dst, src);
    r, aborted := RemoveBuffer(src, dst, 1, false);
    assert [1, 2, 3][1..] == [2, 3] && [1, 2, 3][..0] == [];
  }

  lemma NoPlace(src: EvBuffer, dst: EvBuffer)
    requires src.Valid() && dst.Valid() && dst.chains == [] && WholePieces(src.datas, 1) == 0
    ensures !RestHasPlace(src, dst, 1, false)
  {
    ConcatNone<Byte>();
    assert src.datas[..0] == [];
  }
}
