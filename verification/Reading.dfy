/** Reading from a descriptor into the free space at the end of a queue: _evbuffer_expand_fast,
    _evbuffer_read_setup_vecs and evbuffer_read. Empty chunks may wait behind the data here. */
module EvBufferReading {
  import opened Bytes
  import opened EvBuffers
  import EvBufferMoves

  const NUM_READ_IOVEC: nat := 4
  const MAX_READ: nat := 4096

  /** CHAIN_SPACE_LEN. */
  function Free(c: Chain): int
    reads c`misalign, c`off
  {
    c.buffer.Length - c.misalign - c.off
  }

  /** The free space of some chunks together. */
  ghost function Room(cs: seq<Chain>): int
    reads cs`misalign, cs`off
  {
    if cs == [] then 0 else Free(cs[0]) + Room(cs[1..])
  }

  lemma {:induction false} RoomCat(a: seq<Chain>, b: seq<Chain>)
    ensures Room(a + b) == Room(a) + Room(b)
  {
    if a == [] {
      assert a + b == b;
    } else {
      assert (a + b)[1..] == a[1..] + b && (a + b)[0] == a[0];
      RoomCat(a[1..], b);
    }
  }

  lemma {:induction false} RoomNext(cs: seq<Chain>, f: nat, k: nat)
    requires f <= k < |cs|
    ensures Room(cs[f..k + 1]) == Room(cs[f..k]) + Free(cs[k])
  {
    assert cs[f..k + 1] == cs[f..k] + [cs[k]];
    RoomCat(cs[f..k], [cs[k]]);
  }

  lemma {:induction false} RoomMono(cs: seq<Chain>, f: nat, k: nat, k': nat)
    requires f <= k <= k' <= |cs| && forall c :: c in cs ==> Free(c) >= 0
    ensures 0 <= Room(cs[f..k]) <= Room(cs[f..k'])
    decreases k' - f
  {
    if k < k' {
      RoomMono(cs, f, k, k' - 1);
      RoomNext(cs, f, k' - 1);
    } else if f < k {
      RoomMono(cs, f, k - 1, k - 1);
      RoomNext(cs, f, k - 1);
    }
  }

  /** The free space of a chunk, which is all of an empty one wherever its data would start. */
  function Space(c: Chain): int
    reads c`misalign, c`off
  {
    if c.off == 0 then c.buffer.Length else Free(c)
  }

  ghost function Spaces(cs: seq<Chain>): (ss: seq<int>)
    reads cs`misalign, cs`off
    ensures |ss| == |cs| && forall i :: 0 <= i < |cs| ==> ss[i] == Space(cs[i])
  {
    if cs == [] then [] else [Space(cs[0])] + Spaces(cs[1..])
  }

  ghost function Sum(ss: seq<int>): int {
    if ss == [] then 0 else Sum(ss[..|ss| - 1]) + ss[|ss| - 1]
  }

  /** The first of these spaces, from number `l` on, that is not 0. */
  ghost function FirstOpen(ss: seq<int>, l: nat): (f: nat)
    requires l < |ss|
    ensures f <= |ss|
  {
    if ss[l] == 0 then l + 1 else l
  }

  /** The first `n` from there on are enough for `datlen` bytes. */
  ghost predicate Enough(ss: seq<int>, l: nat, datlen: nat, n: nat)
    requires l < |ss|
  {
    var f := FirstOpen(ss, l);
    Sum(ss[f..Min(f + n, |ss|)]) >= datlen
  }

  /** The queue has space for `datlen` bytes in the first `n` chunks with space. */
  ghost predicate HasSpace(buf: EvBuffer, datlen: nat, n: nat)
    reads buf`chains, buf`lwd, buf.chains`misalign, buf.chains`off
  {
    buf.lwd < |buf.chains| && Enough(Spaces(buf.chains), buf.lwd, datlen, n)
  }

  /** How large a chunk is needed otherwise: for what the chunks with space lack, if there are fewer than `n` of them,
      and else for what the last chunk with data lacks. */
  ghost function Missing(buf: EvBuffer, datlen: nat, n: nat): int
    reads buf`chains, buf`lwd, buf.chains`misalign, buf.chains`off
  {
    if buf.lwd >= |buf.chains| then datlen
    else
      var ss := Spaces(buf.chains);
      var f := FirstOpen(ss, buf.lwd);
      if |ss| - f < n then datlen - Sum(ss[f..]) else datlen - SpaceBehind(buf.chains[buf.lwd])
  }

  function SpaceBehind(c: Chain): int
    reads c`misalign, c`off
  {
    if c.off == 0 then 0 else Free(c)
  }

  lemma {:induction false} SumMono(ss: seq<int>, f: nat, k: nat, k': nat)
    requires f <= k <= k' <= |ss| && forall j :: 0 <= j < |ss| ==> ss[j] >= 0
    ensures Sum(ss[f..k]) <= Sum(ss[f..k'])
    decreases k' - k
  {
    if k < k' {
      SumMono(ss, f, k, k' - 1);
      assert ss[f..k'][..k' - 1 - f] == ss[f..k' - 1];
    }
  }

  lemma {:induction false} RoomIsSum(cs: seq<Chain>, f: nat, k: nat)
    requires f <= k <= |cs| && forall j :: f <= j < k ==> Free(cs[j]) == Space(cs[j])
    ensures Room(cs[f..k]) == Sum(Spaces(cs)[f..k])
    decreases k
  {
    if f < k {
      RoomIsSum(cs, f, k - 1);
      RoomNext(cs, f, k - 1);
      assert Spaces(cs)[f..k][..k - 1 - f] == Spaces(cs)[f..k - 1];
    } else {
      assert cs[f..k] == [] && Spaces(cs)[f..k] == [];
    }
  }

  /** Counting stops with enough, or when nothing more may be counted. */
  lemma CountDecides(ss: seq<int>, l: nat, k: nat, avail: int, datlen: nat, n: nat)
    requires l < |ss| && (forall j :: 0 <= j < |ss| ==> ss[j] >= 0)
    requires FirstOpen(ss, l) <= k <= |ss| && k - FirstOpen(ss, l) <= n && avail == Sum(ss[FirstOpen(ss, l)..k])
    requires avail >= datlen || k - FirstOpen(ss, l) == n || k == |ss|
    ensures Enough(ss, l, datlen, n) <==> avail >= datlen
  {
    var f := FirstOpen(ss, l);
    SumMono(ss, f, k, Min(f + n, |ss|));
  }

  /** The first chunk, from the last one with data on, that has free space. */
  ghost function FirstSpace(buf: EvBuffer): nat
    requires buf.lwd < |buf.chains|
    reads buf`chains, buf`lwd, buf.chains`misalign, buf.chains`off
  {
    if Free(buf.chains[buf.lwd]) == 0 then buf.lwd + 1 else buf.lwd
  }

  /** At least `datlen` bytes are free in the first `n` chunks that have space. */
  ghost predicate HasRoom(buf: EvBuffer, datlen: nat, n: nat)
    reads buf`chains, buf`lwd, buf.chains`misalign, buf.chains`off
  {
    && buf.lwd < |buf.chains|
    && var f := FirstSpace(buf);
       exists e: nat :: f <= e <= |buf.chains| && e <= f + n && Room(buf.chains[f..e]) >= datlen
  }

  /** There is data. */
  ghost predicate EndsInData(buf: EvBuffer)
    reads buf`chains, buf`lwd, buf.chains`off
  {
    buf.lwd < |buf.chains| && buf.chains[buf.lwd].off > 0
  }

  /** Room for more than fits behind the data means that there is an empty chunk. */
  lemma RoomBeyond(buf: EvBuffer, datlen: nat, n: nat)
    requires buf.Valid() && HasRoom(buf, datlen, n) && Free(buf.chains[buf.lwd]) < datlen
    ensures buf.lwd + 1 < |buf.chains|
  {
    Layout(buf);
    var f := FirstSpace(buf);
    var e: nat :| f <= e <= |buf.chains| && Room(buf.chains[f..e]) >= datlen;
    RoomOfOne(buf.chains, f, e);
  }

  lemma {:induction false} RoomOfOne(cs: seq<Chain>, f: nat, e: nat)
    requires f <= e <= |cs|
    ensures e == f ==> Room(cs[f..e]) == 0
    ensures e == f + 1 ==> Room(cs[f..e]) == Free(cs[f])
  {
    assert cs[f..f] == [];
    if f < |cs| {
      RoomNext(cs, f, f);
    }
  }

  lemma Layout(buf: EvBuffer)
    requires buf.Valid()
    ensures |buf.chains| == |buf.datas|
    ensures (buf.first == null <==> buf.chains == []) && (buf.last == null <==> buf.chains == [])
    ensures forall i :: 0 <= i < |buf.chains| ==> IsSound(buf.chains[i]) && buf.chains[i].off == |buf.datas[i]|
    ensures forall i :: 0 <= i < |buf.chains| ==> Free(buf.chains[i]) >= 0
    ensures forall i :: 0 <= i < |buf.chains| && i > buf.lwd ==> buf.chains[i].off == 0
    ensures forall i :: 0 <= i < |buf.chains| ==>
              buf.chains[i].next == if i + 1 < |buf.chains| then buf.chains[i + 1] else null
    ensures buf.chains != [] ==> buf.lwd < |buf.chains| && buf.Deref(buf.lastWithDatap) == buf.chains[buf.lwd]
                                 && buf.last == buf.chains[|buf.chains| - 1]
  {
  }

  lemma NextOf(buf: EvBuffer, k: nat)
    requires buf.Valid() && k < |buf.chains|
    ensures buf.chains[k].next == if k + 1 < |buf.chains| then buf.chains[k + 1] else null
  {
  }

  lemma LooseSpace(buf: EvBuffer, k: nat)
    requires buf.Valid() && k < |buf.chains|
    ensures Free(buf.chains[k]) >= 0 && (k > buf.lwd ==> buf.chains[k].off == 0)
  {
  }

  lemma Others(buf: EvBuffer, f: nat, k: nat)
    requires buf.Valid() && f <= k < |buf.chains|
    ensures forall j :: 0 <= j < k - f ==> buf.chains[f..k][j] != buf.chains[k]
    ensures buf.lwd < k ==> buf.chains[buf.lwd] != buf.chains[k]
  {
  }

  method OpenChunk(chain: Chain, ghost cs: seq<Chain>)
    requires chain.off == 0
    modifies chain`misalign
    ensures chain.misalign == 0 && Free(chain) == Space(chain) && Spaces(cs) == old(Spaces(cs))
  {
    ghost var ss := Spaces(cs);
    chain.misalign := 0;
    assert Spaces(cs) == ss;
  }

  /** Moves an empty chunk's free space to the start of its memory. */
  method Realign(buf: EvBuffer, chain: Chain, ghost i: nat)
    requires buf.Valid() && buf.At(chain, i) && chain.off == 0
    modifies chain`misalign
    ensures Free(chain) == Space(chain) && Spaces(buf.chains) == old(Spaces(buf.chains))
    ensures buf.Valid() && chain.misalign == 0 && 0 < chain.buffer.Length
  {
    hide Spaces;
    OpenChunk(chain, buf.chains);
    assert chain.Data() == buf.datas[i];
  }

  /** How much space the chunks at the end of the list have, as far as it is needed. Stops early, with
      `enough`, once `datlen` bytes are found, and at the latest after `n` chunks with space. */
  method Survey(buf: EvBuffer, datlen: nat, n: nat)
    returns (enough: bool, used: nat, avail: nat, ghost k: nat)
    requires buf.Valid() && buf.chains != [] && n >= 2 && buf.lwd < |buf.chains|
    modifies buf.chains`misalign
    ensures buf.Valid()
    ensures buf.lwd < |buf.chains| && Counted(buf, k, used, avail) && used <= n
    ensures enough ==> avail >= datlen
    ensures !enough ==> avail < datlen && (used == n || k == |buf.chains|)
    ensures enough <==> old(HasSpace(buf, datlen, n))
    ensures !enough && used < n ==> old(Missing(buf, datlen, n)) == datlen - avail
    ensures !enough && used == n ==> old(Missing(buf, datlen, n)) == datlen - SpaceBehind(buf.chains[buf.lwd])
    ensures buf.chains[buf.lwd].off > 0 ==> buf.chains[buf.lwd].misalign == old(buf.chains[buf.lwd].misalign)
  {
    hide HasSpace, Missing, Concat, EvBuffer.Core, EvBuffer.Valid, Room, Counted, Spaces, Enough, FirstOpen, Sum;
    Layout(buf);
    var chain := buf.Deref(buf.lastWithDatap);
    ghost var missing := Missing(buf, datlen, n);
    ghost var had := HasSpace(buf, datlen, n);
    used, avail, k := 0, 0, buf.lwd;
    while chain != null
      invariant buf.Valid() && buf.lwd <= k <= |buf.chains| && buf.lwd < |buf.chains|
      invariant chain == if k < |buf.chains| then buf.chains[k] else null
      invariant buf.chains[buf.lwd].off > 0 ==> buf.chains[buf.lwd].misalign == old(buf.chains[buf.lwd].misalign)
      invariant Open(buf, k) && missing == Missing(buf, datlen, n) && had == HasSpace(buf, datlen, n)
      invariant k == buf.lwd ==> used == 0 && avail == 0
      invariant k > buf.lwd ==> Counted(buf, k, used, avail) && avail < datlen && used < n
      decreases |buf.chains| - k
    {
      used, avail := CountIn(buf, chain, k, used, avail);
      NextOf(buf, k);
      chain, k := chain.next, k + 1;
      if avail >= datlen || used == n {
        break;
      }
    }
    SurveyEnds(buf, k, used, avail, datlen, n);
    enough := avail >= datlen;
  }

  /** Chunks before chunk `k` have all their space behind their data. */
  ghost predicate Open(buf: EvBuffer, k: nat)
    reads buf`chains, buf`lwd, buf.chains`misalign, buf.chains`off
  {
    forall j :: buf.lwd <= j < k && j < |buf.chains| ==> Free(buf.chains[j]) == Space(buf.chains[j])
  }

  /** Counts the space of one chunk in; an empty one is realigned. */
  method CountIn(buf: EvBuffer, chain: Chain, ghost k: nat, used0: nat, avail0: nat) returns (used: nat, avail: nat)
    requires buf.Valid() && buf.lwd <= k < |buf.chains| && buf.At(chain, k) && Open(buf, k)
    requires k == buf.lwd ==> used0 == 0 && avail0 == 0
    requires k > buf.lwd ==> Counted(buf, k, used0, avail0)
    modifies chain`misalign
    ensures buf.Valid() && Counted(buf, k + 1, used, avail) && Open(buf, k + 1) && used <= used0 + 1
    ensures forall datlen, n :: HasSpace(buf, datlen, n) == old(HasSpace(buf, datlen, n))
    ensures forall datlen, n :: Missing(buf, datlen, n) == old(Missing(buf, datlen, n))
    ensures chain.off > 0 ==> chain.misalign == old(chain.misalign)
  {
    hide Concat, EvBuffer.Core, EvBuffer.Valid, Room, Counted, Spaces;
    used, avail := used0, avail0;
    LooseSpace(buf, k);
    if chain.off > 0 {
      var space := chain.buffer.Length - chain.misalign - chain.off;
      if space > 0 {
        avail, used := avail + space, used + 1;
      }
      CountFirst(buf);
    } else {
      UseEmpty(buf, chain, k, used, avail);
      avail, used := avail + chain.buffer.Length, used + 1;
    }
  }

  /** What has been counted at the end decides. */
  lemma SurveyEnds(buf: EvBuffer, k: nat, used: nat, avail: nat, datlen: nat, n: nat)
    requires buf.Valid() && buf.lwd < k <= |buf.chains| && Counted(buf, k, used, avail) && used <= n
    requires Open(buf, k)
    requires avail >= datlen || used == n || k == |buf.chains|
    ensures HasSpace(buf, datlen, n) <==> avail >= datlen
    ensures used < n && k == |buf.chains| ==> Missing(buf, datlen, n) == datlen - avail
    ensures used == n ==> Missing(buf, datlen, n) == datlen - SpaceBehind(buf.chains[buf.lwd])
  {
    hide EvBuffer.Core, Room, Sum;
    Layout(buf);
    var ss, f := Spaces(buf.chains), FirstSpace(buf);
    RoomIsSum(buf.chains, f, k);
    CountDecides(ss, buf.lwd, k, avail, datlen, n);
    assert ss[f..] == ss[f..|ss|];
  }

  /** Realigns an empty chunk and counts it in. */
  method UseEmpty(buf: EvBuffer, chain: Chain, ghost k: nat, ghost used: nat, ghost avail: nat)
    requires buf.Valid() && buf.At(chain, k) && chain.off == 0 && buf.lwd <= k
    requires k == buf.lwd ==> used == 0 && avail == 0
    requires k > buf.lwd ==> Counted(buf, k, used, avail)
    modifies chain`misalign
    ensures Free(chain) == Space(chain) && Spaces(buf.chains) == old(Spaces(buf.chains))
    ensures buf.Valid() && k < |buf.chains| && Counted(buf, k + 1, used + 1, avail + chain.buffer.Length)
  {
    hide Spaces, Concat, EvBuffer.Core, EvBuffer.Valid;
    if k > buf.lwd {
      Others(buf, FirstSpace(buf), k);
    }
    Realign(buf, chain, k);
    CountNext(buf, k, used, avail);
  }

  /** The chunks with space before chunk `k` number `used` and have `avail` bytes free. */
  ghost predicate Counted(buf: EvBuffer, k: nat, used: nat, avail: nat)
    requires buf.lwd < |buf.chains|
    reads buf`chains, buf`lwd, buf.chains`misalign, buf.chains`off
  {
    FirstSpace(buf) <= k <= |buf.chains| && used == k - FirstSpace(buf) && avail == Room(buf.chains[FirstSpace(buf)..k])
  }

  lemma CountFirst(buf: EvBuffer)
    requires buf.Valid() && buf.chains != []
    ensures buf.lwd < |buf.chains|
    ensures buf.chains[buf.lwd].off > 0 ==> FirstSpace(buf) <= buf.lwd + 1
    ensures var space := Free(buf.chains[buf.lwd]);
            space >= 0 && Counted(buf, buf.lwd + 1, if space > 0 then 1 else 0, space)
  {
    Layout(buf);
    var f := FirstSpace(buf);
    assert buf.chains[f..f] == [];
    if f == buf.lwd {
      RoomNext(buf.chains, f, f);
    }
  }

  lemma CountNext(buf: EvBuffer, k: nat, used: nat, avail: nat)
    requires buf.Valid() && buf.lwd <= k < |buf.chains| && Free(buf.chains[k]) > 0
    requires k == buf.lwd ==> used == 0 && avail == 0
    requires k > buf.lwd ==> Counted(buf, k, used, avail)
    ensures avail + Free(buf.chains[k]) >= 0 && Counted(buf, k + 1, used + 1, avail + Free(buf.chains[k]))
  {
    if k == buf.lwd {
      CountFirst(buf);
    } else {
      RoomNext(buf.chains, FirstSpace(buf), k);
    }
  }

  /** Puts an empty chunk behind all others. */
  method AddBehind(buf: EvBuffer, tmp: Chain)
    requires buf.Valid() && buf.last != null
    requires buf.IsForeign(tmp) && IsSound(tmp) && tmp.off == 0 && tmp.next == null
    modifies buf`last, buf`chains, buf`datas, buf.last`next
    ensures buf.Valid() && buf.Contents() == old(buf.Contents())
    ensures buf.chains == old(buf.chains) + [tmp]
  {
    hide Concat, Holding, Chain.Data, IsSettled;
    EmptyBehind(buf.datas, buf.lwd);
    AllButLast(buf, tmp);
    buf.last.next := tmp;
    buf.last := tmp;
    buf.chains, buf.datas := buf.chains + [tmp], buf.datas + [[]];
  }

  lemma {:induction false} EmptyBehind(ds: seq<seq<Byte>>, l: nat)
    requires ds != [] && IsLastWithData(ds, l)
    ensures IsLastWithData(ds + [[]], l) && Concat(ds + [[]]) == Concat(ds)
  {
    ConcatAppend(ds, [[]]);
    ConcatOne<Byte>([]);
  }

  lemma AllButLast(buf: EvBuffer, tmp: Chain)
    requires buf.Valid() && buf.last != null && IsSound(tmp) && tmp.off == 0
    ensures buf.chains != [] && buf.datas != [] && Holding(buf.chains + [tmp], buf.datas + [[]])
    ensures buf.last == buf.chains[|buf.chains| - 1]
  {
    assert tmp.Data() == [];
    HoldingTail(buf.chains, buf.datas, |buf.chains|, tmp);
    assert buf.chains[..|buf.chains|] == buf.chains && buf.datas[..|buf.datas|] == buf.datas;
  }

  /** Frees the empty chunks behind the last one with data. */
  method CutEmpties(buf: EvBuffer)
    requires buf.Valid() && buf.chains != []
    modifies buf`last, buf`chains, buf`datas, buf.chains`next
    ensures buf.Valid() && buf.Contents() == old(buf.Contents())
    ensures buf.lwd < |old(buf.chains)| && buf.chains == old(buf.chains)[..buf.lwd + 1]
    ensures buf.last != null && buf.last == buf.chains[buf.lwd]
    ensures buf.datas == old(buf.datas)[..buf.lwd + 1]
  {
    hide Concat, Chain.Data, IsSettled;
    Layout(buf);
    var c := buf.Deref(buf.lastWithDatap);
    ghost var n := buf.lwd + 1;
    TotalUpTo(buf.datas, buf.lwd);
    buf.last := c;
    c.next := null;
    buf.chains, buf.datas := buf.chains[..n], buf.datas[..n];
  }

  /** A list of one empty chunk. */
  method OnlyChain(buf: EvBuffer, tmp: Chain)
    requires tmp.off == 0 && tmp.next == null && IsSound(tmp) && buf.totalLen == 0
    modifies buf`first, buf`last, buf`lastWithDatap, buf`chains, buf`datas, buf`lwd
    ensures buf.Valid() && buf.Contents() == [] && buf.chains == [tmp] && buf.lwd == 0
  {
    buf.first, buf.last := tmp, tmp;
    buf.lastWithDatap := FirstRef;
    buf.chains, buf.datas, buf.lwd := [tmp], [[]], 0;
    assert tmp.Data() == [];
    ConcatOne<Byte>([]);
  }

  lemma NothingHeld(buf: EvBuffer)
    requires buf.Valid() && buf.chains != [] && buf.chains[buf.lwd].off == 0
    ensures buf.totalLen == 0 && buf.Contents() == [] && buf.lwd == 0
  {
    Layout(buf);
    ConcatEmpties(buf.datas);
  }

  /** Room that has been counted is there. */
  lemma RoomCounted(buf: EvBuffer, k: nat, used: nat, avail: nat, datlen: nat, n: nat)
    requires buf.lwd < |buf.chains| && Counted(buf, k, used, avail) && used <= n && avail >= datlen
    ensures HasRoom(buf, datlen, n)
  {
    assert Room(buf.chains[FirstSpace(buf)..k]) >= datlen;
  }

  lemma RoomInOne(buf: EvBuffer, chain: Chain, datlen: nat, n: nat)
    requires buf.lwd == 0 && buf.chains == [chain] && Free(chain) >= datlen && Free(chain) > 0 && n >= 1
    ensures HasRoom(buf, datlen, n)
  {
    var f := FirstSpace(buf);
    RoomNext(buf.chains, f, 0);
    assert buf.chains[f..f] == [];
    assert Room(buf.chains[f..f + 1]) >= datlen;
  }

  lemma Single(buf: EvBuffer)
    requires buf.Valid() && buf.first != null && buf.first == buf.last
    ensures buf.chains == [buf.first] && buf.lwd == 0
  {
  }

  /** Adds a chunk for what is missing. */
  method ExpandBehind(buf: EvBuffer, tmp: Chain, ghost used: nat, ghost avail: nat, ghost datlen: nat, ghost n: nat)
    requires buf.Valid() && buf.last != null && buf.lwd < |buf.chains|
    requires Counted(buf, |buf.chains|, used, avail) && used < n
    requires buf.IsForeign(tmp) && IsSound(tmp) && tmp.misalign == tmp.off == 0 && tmp.next == null
    requires avail + tmp.buffer.Length >= datlen
    modifies buf`last, buf`chains, buf`datas, buf.last`next
    ensures buf.Valid() && buf.Contents() == old(buf.Contents()) && HasRoom(buf, datlen, n)
    ensures buf.chains == old(buf.chains) + [tmp]
  {
    hide Concat, EvBuffer.Core;
    ghost var f, k, cs := FirstSpace(buf), |buf.chains|, buf.chains;
    AddBehind(buf, tmp);
    assert buf.chains[buf.lwd] == cs[buf.lwd] && FirstSpace(buf) == f;
    RoomNext(buf.chains, f, k);
    assert buf.chains[f..k] == cs[f..k];
    assert Room(buf.chains[f..k + 1]) >= datlen;
  }

  /** Replaces all empty chunks by one with enough space. */
  method Replace(buf: EvBuffer, datlen: nat, n: nat, canAlloc: bool) returns (r: int)
    requires buf.Valid() && buf.chains != [] && n >= 2
    requires buf.chains[buf.lwd].off > 0 ==> Free(buf.chains[buf.lwd]) <= datlen
    modifies buf, buf.chains`next
    ensures buf.Valid() && buf.Contents() == old(buf.Contents())
    ensures buf.freezeStart == old(buf.freezeStart) && buf.freezeEnd == old(buf.freezeEnd)
    ensures forall c :: c in buf.chains ==> c in old(buf.chains) || (fresh(c) && fresh(c.buffer))
    ensures r == 0 || r == -1
    ensures r == 0 ==> HasRoom(buf, datlen, n)
    ensures r == 0 && old(EndsInData(buf)) ==>
              EndsInData(buf) && buf.chains[buf.lwd] == old(buf.chains[buf.lwd])
              && Free(buf.chains[buf.lwd]) == old(Free(buf.chains[buf.lwd]))
    ensures r == 0 <==> canAlloc && datlen - old(SpaceBehind(buf.chains[buf.lwd])) <= CHAIN_MAX - CHAIN_SIZE
  {
    hide Concat, EvBuffer.Core, HasRoom;
    Layout(buf);
    var chain := buf.Deref(buf.lastWithDatap);
    var removeAll := chain.off == 0;
    var avail: nat := 0;
    if removeAll {
      NothingHeld(buf);
    } else {
      LooseSpace(buf, buf.lwd);
      avail := chain.buffer.Length - chain.misalign - chain.off;
    }
    var tmp := ChainNew(datlen - avail, canAlloc);
    if tmp == null {
      if removeAll {
        buf.ZeroChain();
      } else {
        CutEmpties(buf);
      }
      return -1;
    }
    if removeAll {
      OnlyChain(buf, tmp);
      RoomInOne(buf, tmp, datlen, n);
    } else {
      CutEmpties(buf);
      SpaceAfterCut(buf, avail);
      ExpandBehind(buf, tmp, if avail > 0 then 1 else 0, avail, datlen, n);
    }
    r := 0;
  }

  lemma SpaceAfterCut(buf: EvBuffer, avail: nat)
    requires buf.Valid() && buf.lwd + 1 == |buf.chains| && Free(buf.chains[buf.lwd]) == avail
    ensures Counted(buf, |buf.chains|, if avail > 0 then 1 else 0, avail)
  {
    CountFirst(buf);
  }

  lemma NoSpace(buf: EvBuffer, datlen: nat, n: nat)
    requires buf.chains == []
    ensures !HasSpace(buf, datlen, n) && Missing(buf, datlen, n) == datlen
  {
  }

  /** _evbuffer_expand_fast: never moves data. */
  method ExpandFast(buf: EvBuffer, datlen: nat, n: nat, canAlloc: bool) returns (r: int)
    requires buf.Valid() && n >= 2
    modifies buf, buf.chains
    ensures buf.Valid() && buf.Contents() == old(buf.Contents())
    ensures buf.freezeStart == old(buf.freezeStart) && buf.freezeEnd == old(buf.freezeEnd)
    ensures forall c :: c in buf.chains ==> c in old(buf.chains) || (fresh(c) && fresh(c.buffer))
    ensures r == 0 || r == -1
    ensures r == 0 ==> HasRoom(buf, datlen, n)
    ensures r == 0 && old(EndsInData(buf)) ==>
              EndsInData(buf) && buf.chains[buf.lwd] == old(buf.chains[buf.lwd])
              && Free(buf.chains[buf.lwd]) == old(Free(buf.chains[buf.lwd]))
    ensures r == 0 <==> old(HasSpace(buf, datlen, n)) || (canAlloc && old(Missing(buf, datlen, n)) <= CHAIN_MAX - CHAIN_SIZE)
  {
    hide Concat, EvBuffer.Core, HasRoom, Counted, HasSpace, Missing, Enough, Spaces, SpaceBehind;
    Layout(buf);
    if buf.last == null {
      NoSpace(buf, datlen, n);
      var chain := ChainNew(datlen, canAlloc);
      if chain == null {
        return -1;
      }
      buf.Loosened();
      buf.NoChains();
      var _ := buf.ChainInsert(chain);
      buf.Loosened();
      Single(buf);
      RoomInOne(buf, chain, datlen, n);
      return 0;
    }
    var enough, used, avail, k := Survey(buf, datlen, n);
    if enough {
      RoomCounted(buf, k, used, avail, datlen, n);
      return 0;
    }
    if used < n {
      var tmp := ChainNew(datlen - avail, canAlloc);
      if tmp == null {
        return -1;
      }
      ExpandBehind(buf, tmp, used, avail, datlen, n);
      r := 0;
    } else {
      FirstCounted(buf, k, used, avail);
      r := Replace(buf, datlen, n, canAlloc);
    }
  }

  /** The counted room includes that of the last chunk with data. */
  lemma FirstCounted(buf: EvBuffer, k: nat, used: nat, avail: nat)
    requires buf.Valid() && buf.lwd < |buf.chains| && Counted(buf, k, used, avail) && used > 0
    ensures Free(buf.chains[buf.lwd]) <= avail
  {
    Layout(buf);
    var f := FirstSpace(buf);
    if f == buf.lwd {
      RoomMono(buf.chains, f, f + 1, k);
      RoomNext(buf.chains, f, f);
      assert buf.chains[f..f] == [];
    } else {
      RoomMono(buf.chains, f, f, k);
    }
  }

  /** A stretch of free memory in a chunk, `len` bytes from place `base` of its buffer on. */
  datatype Iovec = Iovec(chain: Chain, base: nat, len: nat)

  ghost function SumLen(vecs: seq<Iovec>): nat {
    if vecs == [] then 0 else SumLen(vecs[..|vecs| - 1]) + vecs[|vecs| - 1].len
  }

  lemma {:induction false} SumNext(vecs: seq<Iovec>, i: nat)
    requires i < |vecs|
    ensures SumLen(vecs[..i + 1]) == SumLen(vecs[..i]) + vecs[i].len
    ensures SumLen(vecs[..i + 1]) <= SumLen(vecs)
    decreases |vecs| - i
  {
    assert vecs[..i + 1][..i] == vecs[..i];
    if i + 1 < |vecs| {
      SumNext(vecs, i + 1);
    } else {
      assert vecs[..i + 1] == vecs;
    }
  }

  /** The vectors are the free space of the chunks from number `f` on; only the last may be cut short. */
  ghost predicate Vectors(buf: EvBuffer, f: nat, vecs: seq<Iovec>)
    reads buf`chains, buf.chains`misalign, buf.chains`off
  {
    && f + |vecs| <= |buf.chains|
    && forall i :: 0 <= i < |vecs| ==>
         && vecs[i].chain == buf.chains[f + i]
         && vecs[i].base == vecs[i].chain.misalign + vecs[i].chain.off
         && vecs[i].len <= Free(vecs[i].chain)
         && (i < |vecs| - 1 ==> vecs[i].len == Free(vecs[i].chain))
  }

  /** _evbuffer_read_setup_vecs: the vectors cover `howmuch` bytes, and no more if `exact`. */
  method SetupVecs(buf: EvBuffer, howmuch: int, nVecsAvail: nat, exact: bool)
    returns (n: int, vecs: seq<Iovec>, firstRef: ChainRef)
    requires buf.Valid() && (howmuch >= 0 ==> HasRoom(buf, howmuch, nVecsAvail))
    ensures howmuch < 0 ==> n == -1
    ensures howmuch >= 0 ==>
              && n == |vecs| <= nVecsAvail && buf.lwd < |buf.chains| && FirstSpace(buf) <= |buf.chains|
              && firstRef == buf.RefTo(FirstSpace(buf)) && Vectors(buf, FirstSpace(buf), vecs)
              && SumLen(vecs) >= howmuch && (exact ==> SumLen(vecs) == howmuch)
  {
    hide Concat, EvBuffer.Core, EvBuffer.Valid, EvBuffer.RefTo, EvBuffer.Deref, Room, Vectors, SumLen, FirstSpace,
         HasRoom, AllWhole;
    if howmuch < 0 {
      return -1, [], FirstRef;
    }
    ghost var e: nat := RoomEnd(buf, howmuch, nVecsAvail);
    ghost var f := FirstSpace(buf);
    firstRef := FirstRefOf(buf);
    var chain := buf.Deref(firstRef);
    var soFar: nat := 0;
    vecs := [];
    NoVec(buf, f);
    while |vecs| < nVecsAvail && soFar < howmuch
      invariant |vecs| <= nVecsAvail && f + |vecs| <= |buf.chains|
      invariant chain == if f + |vecs| < |buf.chains| then buf.chains[f + |vecs|] else null
      invariant Vectors(buf, f, vecs) && SumLen(vecs) == soFar
      invariant soFar < howmuch ==> AllWhole(vecs) && soFar == Room(buf.chains[f..f + |vecs|])
      invariant exact ==> soFar <= howmuch
    {
      ghost var was := vecs;
      MoreRoom(buf, f, f + |vecs|, e, howmuch);
      var avail := chain.buffer.Length - chain.misalign - chain.off;
      if avail > howmuch - soFar && exact {
        avail := howmuch - soFar;
      }
      vecs := vecs + [Iovec(chain, chain.misalign + chain.off, avail)];
      VecAdded(buf, f, was, Iovec(chain, chain.misalign + chain.off, avail));
      soFar := soFar + avail;
      chain := chain.next;
    }
    if soFar < howmuch {
      MoreRoom(buf, f, f + |vecs|, e, howmuch);
    }
    n := |vecs|;
  }

  lemma RoomEnd(buf: EvBuffer, howmuch: nat, n: nat) returns (e: nat)
    requires HasRoom(buf, howmuch, n)
    ensures buf.lwd < |buf.chains| && FirstSpace(buf) <= e <= |buf.chains| && e <= FirstSpace(buf) + n
    ensures Room(buf.chains[FirstSpace(buf)..e]) >= howmuch
  {
    var f := FirstSpace(buf);
    e :| f <= e <= |buf.chains| && e <= f + n && Room(buf.chains[f..e]) >= howmuch;
  }

  ghost predicate AllWhole(vecs: seq<Iovec>)
    reads set i | 0 <= i < |vecs| :: vecs[i].chain
  {
    forall i :: 0 <= i < |vecs| ==> vecs[i].len == Free(vecs[i].chain)
  }

  lemma NoVec(buf: EvBuffer, f: nat)
    requires f <= |buf.chains|
    ensures Vectors(buf, f, []) && SumLen([]) == 0 && AllWhole([]) && Room(buf.chains[f..f]) == 0
  {
  }

  lemma {:induction false} MoreVec(buf: EvBuffer, f: nat, vecs: seq<Iovec>, v: Iovec)
    requires Vectors(buf, f, vecs) && AllWhole(vecs) && f + |vecs| < |buf.chains|
    requires v.chain == buf.chains[f + |vecs|] && v.base == v.chain.misalign + v.chain.off && v.len <= Free(v.chain)
    ensures Vectors(buf, f, vecs + [v]) && SumLen(vecs + [v]) == SumLen(vecs) + v.len
    ensures v.len == Free(v.chain) ==> AllWhole(vecs + [v])
  {
    assert (vecs + [v])[..|vecs|] == vecs;
  }

  /** One more vector covers its length more, and the room of its chunk if it takes all of that. */
  lemma VecAdded(buf: EvBuffer, f: nat, vecs: seq<Iovec>, v: Iovec)
    requires buf.Valid() && Vectors(buf, f, vecs) && AllWhole(vecs) && f + |vecs| < |buf.chains|
    requires v.chain == buf.chains[f + |vecs|] && v.base == v.chain.misalign + v.chain.off && v.len <= Free(v.chain)
    requires SumLen(vecs) == Room(buf.chains[f..f + |vecs|])
    ensures Vectors(buf, f, vecs + [v]) && SumLen(vecs + [v]) == SumLen(vecs) + v.len
    ensures v.len == Free(v.chain) ==>
              AllWhole(vecs + [v]) && SumLen(vecs + [v]) == Room(buf.chains[f..f + |vecs| + 1])
    ensures v.chain.next == if f + |vecs| + 1 < |buf.chains| then buf.chains[f + |vecs| + 1] else null
  {
    hide EvBuffer.Valid, Room, Vectors, SumLen, AllWhole;
    NextOf(buf, f + |vecs|);
    RoomNext(buf.chains, f, f + |vecs|);
    MoreVec(buf, f, vecs, v);
  }

  /** As long as the room found is too small, there is another chunk. */
  lemma MoreRoom(buf: EvBuffer, f: nat, k: nat, e: nat, howmuch: nat)
    requires buf.Valid() && f <= k <= |buf.chains| && f <= e <= |buf.chains|
    requires Room(buf.chains[f..k]) < howmuch <= Room(buf.chains[f..e])
    ensures k < e && Free(buf.chains[k]) >= 0
  {
    Layout(buf);
    if e <= k {
      RoomMono(buf.chains, f, e, k);
    }
  }

  /** The address of the pointer to the first chunk with space. */
  method FirstRefOf(buf: EvBuffer) returns (r: ChainRef)
    requires buf.Valid() && buf.chains != []
    ensures buf.lwd < |buf.chains| && FirstSpace(buf) <= |buf.chains| && r == buf.RefTo(FirstSpace(buf))
    ensures buf.Deref(r) == if FirstSpace(buf) < |buf.chains| then buf.chains[FirstSpace(buf)] else null
  {
    Layout(buf);
    r := buf.lastWithDatap;
    var chain := buf.Deref(r);
    if chain.buffer.Length - chain.misalign - chain.off == 0 {
      r := NextRef(chain);
    }
  }

  /** Vector `i` holds, from its start on, the bytes of `data` that fall into it. */
  ghost predicate Scattered(vecs: seq<Iovec>, i: nat, data: seq<Byte>)
    requires i < |vecs|
    reads vecs[i].chain.buffer
  {
    var v, o := vecs[i], SumLen(vecs[..i]);
    && v.base + v.len <= v.chain.buffer.Length
    && (o <= |data| ==>
          var n := Min(v.len, |data| - o); v.chain.buffer[v.base..v.base + n] == data[o..o + n])
  }

  /** Writes bytes into the free space of one of the chunks. */
  method FillSpace(ghost cs: seq<Chain>, ghost ds: seq<seq<Byte>>, ghost k: nat, v: Iovec, piece: seq<Byte>)
    requires Distinct(cs) && Holding(cs, ds) && |cs| == |ds| && k < |cs| && cs[k] == v.chain
    requires v.base == v.chain.misalign + v.chain.off && v.len <= Free(v.chain) && |piece| <= v.len
    modifies v.chain.buffer
    ensures Holding(cs, ds)
    ensures v.base + v.len <= v.chain.buffer.Length && v.chain.buffer[v.base..v.base + |piece|] == piece
  {
    hide Overlay;
    ghost var was := v.chain.buffer[..];
    OverlayParts(was, v.base, piece);
    HeldBefore(v.chain, was[..v.base]);
    MemCpy(v.chain.buffer, v.base, piece);
    assert v.chain.buffer[..][..v.base] == was[..v.base];
    HeldBefore(v.chain, was[..v.base]);
    assert v.chain.buffer[..][v.base..v.base + |piece|] == piece;
  }

  /** Writes bytes into the free space of a chunk of the queue. */
  method FillVector(buf: EvBuffer, ghost k: nat, v: Iovec, piece: seq<Byte>)
    requires buf.Valid() && buf.At(v.chain, k)
    requires v.base == v.chain.misalign + v.chain.off && v.len <= Free(v.chain) && |piece| <= v.len
    modifies v.chain.buffer
    ensures buf.Valid()
    ensures v.base + v.len <= v.chain.buffer.Length && v.chain.buffer[v.base..v.base + |piece|] == piece
  {
    hide Concat, Holding, IsLastWithData, EvBuffer.Linked, EvBuffer.RefTo, Free;
    LinkedDistinct(buf);
    FillSpace(buf.chains, buf.datas, k, v, piece);
  }

  lemma LinkedDistinct(buf: EvBuffer)
    requires buf.Linked()
    ensures Distinct(buf.chains)
  {
  }

  lemma HeldBefore(chain: Chain, before: seq<Byte>)
    requires chain.InBounds() && before == chain.buffer[..][..chain.misalign + chain.off]
    ensures chain.Data() == before[chain.misalign..]
  {
  }

  lemma VectorsApart(buf: EvBuffer, f: nat, vecs: seq<Iovec>)
    requires buf.Valid() && Vectors(buf, f, vecs)
    ensures forall i, j :: 0 <= i < j < |vecs| ==> vecs[i].chain.buffer != vecs[j].chain.buffer
  {
  }

  /** readv: the kernel fills the vectors one after the other. */
  method Readv(buf: EvBuffer, ghost f: nat, vecs: seq<Iovec>, data: seq<Byte>)
    requires buf.Valid() && Vectors(buf, f, vecs) && |data| <= SumLen(vecs)
    modifies set i | 0 <= i < |vecs| :: vecs[i].chain.buffer
    ensures buf.Valid()
    ensures forall i :: 0 <= i < |vecs| ==> Scattered(vecs, i, data)
  {
    hide Concat, EvBuffer.Core, EvBuffer.Valid, SumLen;
    VectorsApart(buf, f, vecs);
    NoVectors(vecs);
    var done, i := 0, 0;
    while i < |vecs|
      invariant i <= |vecs| && buf.Valid()
      invariant done == Min(SumLen(vecs[..i]), |data|)
      invariant forall j :: 0 <= j < i ==> Scattered(vecs, j, data)
    {
      SumNext(vecs, i);
      var v := vecs[i];
      var n := if v.len <= |data| - done then v.len else |data| - done;
      FillVector(buf, f + i, v, data[done..done + n]);
      i, done := i + 1, done + n;
    }
  }

  lemma NoVectors(vecs: seq<Iovec>)
    ensures SumLen(vecs[..0]) == 0
  {
  }

  /** Bytes behind piece `j`, when all later pieces are empty. */
  lemma {:induction false} ExtendAt(ds: seq<seq<Byte>>, j: nat, piece: seq<Byte>)
    requires j < |ds| && forall x :: j < x < |ds| ==> ds[x] == []
    ensures var es := ds[j := ds[j] + piece];
            && Concat(es) == Concat(ds) + piece
            && (piece != [] ==> IsLastWithData(es, j))
  {
    ConcatSplit(ds, j);
    ConcatUpdate(ds, j, ds[j] + piece);
    ConcatEmpties(ds[j + 1..]);
  }

  /** Takes bytes that lie behind a chunk's data into the data. */
  method Commit(buf: EvBuffer, chain: Chain, ghost k: nat, n: nat, ghost piece: seq<Byte>)
    requires buf.Linked() && Holding(buf.chains, buf.datas) && buf.At(chain, k) && |buf.datas| == |buf.chains|
    requires chain.misalign + chain.off + n <= chain.buffer.Length && |piece| == n
    requires chain.buffer[chain.misalign + chain.off..chain.misalign + chain.off + n] == piece
    requires forall x :: k < x < |buf.datas| ==> buf.datas[x] == []
    modifies chain`off, buf`datas
    ensures buf.Linked() && Holding(buf.chains, buf.datas)
    ensures buf.datas == old(buf.datas)[k := old(buf.datas)[k] + piece]
    ensures Concat(buf.datas) == Concat(old(buf.datas)) + piece
    ensures piece != [] ==> IsLastWithData(buf.datas, k)
    ensures chain.off == old(chain.off) + n
  {
    hide Concat, IsLastWithData, Holding, EvBuffer.Linked;
    ExtendAt(buf.datas, k, piece);
    LinkedDistinct(buf);
    TakeIn(buf.chains, buf.datas, chain, k, n, piece);
    buf.datas := buf.datas[k := buf.datas[k] + piece];
  }

  /** One of the chunks takes in bytes that lie behind its data. */
  method TakeIn(ghost cs: seq<Chain>, ghost ds: seq<seq<Byte>>, chain: Chain, ghost k: nat, n: nat,
                ghost piece: seq<Byte>)
    requires Distinct(cs) && Holding(cs, ds) && |cs| == |ds| && k < |cs| && cs[k] == chain
    requires chain.misalign + chain.off + n <= chain.buffer.Length && |piece| == n
    requires chain.buffer[chain.misalign + chain.off..chain.misalign + chain.off + n] == piece
    modifies chain`off
    ensures Holding(cs, ds[k := ds[k] + piece]) && chain.off == old(chain.off) + n
  {
    ghost var d := chain.buffer[..];
    assert chain.Data() == d[chain.misalign..chain.misalign + chain.off];
    assert d[chain.misalign + chain.off..chain.misalign + chain.off + n] == piece;
    chain.off := chain.off + n;
    assert chain.Data() == d[chain.misalign..chain.misalign + chain.off];
    assert chain.Data() == ds[k] + piece;
  }

  /** Vector `i` onwards is still as it was set up. */
  ghost predicate Pending(buf: EvBuffer, f: nat, vecs: seq<Iovec>, i: nat, data: seq<Byte>)
    reads buf`chains, buf.chains`misalign, buf.chains`off, set j | 0 <= j < |vecs| :: vecs[j].chain.buffer
  {
    && f + |vecs| <= |buf.chains|
    && forall j :: i <= j < |vecs| ==>
         && vecs[j].chain == buf.chains[f + j]
         && vecs[j].base == vecs[j].chain.misalign + vecs[j].chain.off
         && vecs[j].len <= Free(vecs[j].chain)
         && (j < |vecs| - 1 ==> vecs[j].len == Free(vecs[j].chain))
         && Scattered(vecs, j, data)
  }

  /** How much of the data the next vector holds. */
  lemma {:induction false} NextVector(buf: EvBuffer, f: nat, vecs: seq<Iovec>, i: nat, data: seq<Byte>)
    requires Pending(buf, f, vecs, i, data) && i < |vecs|
    requires SumLen(vecs[..i]) < |data| <= SumLen(vecs)
    ensures var chain, done := vecs[i].chain, SumLen(vecs[..i]);
            var base, space, remaining := chain.misalign + chain.off, Free(chain), |data| - done;
            && f + i < |buf.chains| && chain == buf.chains[f + i] && 0 <= space
            && (space < remaining ==>
                  && i + 1 < |vecs| && SumLen(vecs[..i + 1]) == done + space
                  && chain.buffer[base..base + space] == data[done..done + space])
            && (space >= remaining ==> chain.buffer[base..base + remaining] == data[done..])
  {
    SumNext(vecs, i);
    assert i + 1 == |vecs| ==> vecs[..i + 1] == vecs;
    assert Scattered(vecs, i, data);
  }

  /** Commits bytes of vector `i`, and leaves the later vectors alone. */
  method CommitNext(buf: EvBuffer, ghost f: nat, vecs: seq<Iovec>, i: nat, n: nat, ghost data: seq<Byte>,
                    ghost piece: seq<Byte>)
    requires buf.Linked() && Holding(buf.chains, buf.datas) && |buf.datas| == |buf.chains|
    requires Pending(buf, f, vecs, i, data) && i < |vecs| && n <= Free(vecs[i].chain) && |piece| == n
    requires var c := vecs[i].chain; c.buffer[c.misalign + c.off..c.misalign + c.off + n] == piece
    requires forall x :: f + i < x < |buf.datas| ==> buf.datas[x] == []
    modifies vecs[i].chain`off, buf`datas
    ensures buf.Linked() && Holding(buf.chains, buf.datas) && |buf.datas| == |buf.chains|
    ensures Pending(buf, f, vecs, i + 1, data)
    ensures Concat(buf.datas) == Concat(old(buf.datas)) + piece
    ensures piece != [] ==> IsLastWithData(buf.datas, f + i)
    ensures forall x :: f + i < x < |buf.datas| ==> buf.datas[x] == []
  {
    hide Concat, Holding, IsLastWithData, SumLen, Scattered, IsSound, Chain.Data, EvBuffer.Linked;
    PendingApart(buf, f, vecs, i, data);
    Commit(buf, vecs[i].chain, f + i, n, piece);
  }

  lemma PendingApart(buf: EvBuffer, f: nat, vecs: seq<Iovec>, i: nat, data: seq<Byte>)
    requires buf.Linked() && Pending(buf, f, vecs, i, data) && i < |vecs|
    ensures forall j :: i < j < |vecs| ==> vecs[j].chain != vecs[i].chain
  {
  }

  lemma RefLeads(buf: EvBuffer, k: nat)
    requires buf.Linked() && k < |buf.chains|
    ensures buf.Deref(buf.RefTo(k)) == buf.chains[k]
  {
  }

  lemma RefNext(buf: EvBuffer, k: nat)
    requires k < |buf.chains|
    ensures buf.RefTo(k + 1) == NextRef(buf.chains[k])
  {
  }

  lemma ChunkLimit(buf: EvBuffer, k: nat)
    requires Holding(buf.chains, buf.datas) && k < |buf.chains|
    ensures Free(buf.chains[k]) <= CHAIN_MAX
  {
  }

  /** The loop of evbuffer_read that hands the bytes read over to the chunks. */
  method CommitAll(buf: EvBuffer, ghost f: nat, vecs: seq<Iovec>, firstRef: ChainRef, data: seq<Byte>)
    requires buf.Valid() && buf.lwd < |buf.chains| && buf.lwd <= f <= buf.lwd + 1 && f <= |buf.chains|
    requires Pending(buf, f, vecs, 0, data) && firstRef == buf.RefTo(f)
    requires 0 < |data| <= SumLen(vecs)
    modifies buf`lastWithDatap, buf`datas, buf`lwd, buf.chains`off
    ensures buf.Core() && buf.Contents() == old(buf.Contents()) + data
  {
    hide Concat, Holding, IsLastWithData, SumLen, Scattered, EvBuffer.Linked, EvBuffer.RefTo, EvBuffer.Deref, Pending;
    EmptyBeyond(buf, f);
    NoVectors(vecs);
    var i, remaining, chainp := 0, |data|, firstRef;
    ghost var all := buf.Contents();
    assert all + data[..0] == all;
    while i < |vecs|
      invariant i <= |vecs| && buf.Linked() && Holding(buf.chains, buf.datas) && |buf.datas| == |buf.chains|
      invariant Pending(buf, f, vecs, i, data) && f + i <= |buf.chains| && chainp == buf.RefTo(f + i)
      invariant i < |vecs| && 0 < remaining <= |data| && remaining == |data| - SumLen(vecs[..i])
      invariant Concat(buf.datas) == all + data[..|data| - remaining]
      invariant forall x :: f + i < x < |buf.datas| ==> buf.datas[x] == []
    {
      NextVector(buf, f, vecs, i, data);
      RefLeads(buf, f + i);
      RefNext(buf, f + i);
      var chain := buf.Deref(chainp);
      ChunkLimit(buf, f + i);
      var space := chain.buffer.Length - chain.misalign - chain.off;
      if space > CHAIN_MAX {
        space := CHAIN_MAX;
      }
      ghost var done := |data| - remaining;
      if space < remaining {
        CommitNext(buf, f, vecs, i, space, data, data[done..done + space]);
        assert data[..done] + data[done..done + space] == data[..done + space];
        remaining := remaining - space;
      } else {
        CommitNext(buf, f, vecs, i, remaining, data, data[done..]);
        assert data[..done] + data[done..] == data;
        buf.lastWithDatap := chainp;
        buf.lwd := f + i;
        return;
      }
      chainp, i := NextRef(chain), i + 1;
    }
  }

  lemma EmptyBeyond(buf: EvBuffer, f: nat)
    requires buf.Valid() && buf.lwd <= f
    ensures forall x :: f < x < |buf.datas| ==> buf.datas[x] == []
  {
  }

  lemma MissingBound(buf: EvBuffer, datlen: nat, n: nat)
    requires buf.Valid()
    ensures Missing(buf, datlen, n) <= datlen
  {
    Layout(buf);
    if buf.lwd < |buf.chains| {
      var ss := Spaces(buf.chains);
      var f := FirstOpen(ss, buf.lwd);
      SumMono(ss, f, f, |ss|);
      assert ss[f..f] == [] && ss[f..] == ss[f..|ss|];
    }
  }

  /** evbuffer_read. `readable` is what FIONREAD reports, `incoming` the bytes that the descriptor can deliver,
      and `fails` tells that readv reports an error. */
  method Read(buf: EvBuffer, readable: int, howmuchIn: int, incoming: seq<Byte>, fails: bool, canAlloc: bool)
    returns (result: int)
    requires buf.Valid()
    modifies buf, buf.chains, set c | c in buf.chains :: c.buffer
    ensures buf.Valid() && buf.freezeStart == old(buf.freezeStart) && buf.freezeEnd == old(buf.freezeEnd)
    ensures forall c :: c in buf.chains ==> c in old(buf.chains) || (fresh(c) && fresh(c.buffer))
    ensures var n := if readable <= 0 || readable > MAX_READ then MAX_READ else readable;
            var howmuch := if howmuchIn < 0 || howmuchIn > n then n else howmuchIn;
            && (result == -1 <==>
                  old(buf.freezeEnd) || fails || !(canAlloc || old(HasSpace(buf, howmuch, NUM_READ_IOVEC))))
            && (result != -1 ==> result == Min(|incoming|, howmuch))
            && buf.Contents() == old(buf.Contents()) + (if result == -1 then [] else incoming[..result])
            && (result == 0 && old(EndsInData(buf) && Free(buf.chains[buf.lwd]) < howmuch) ==>
                  EndsInData(buf) && buf.lwd + 1 < |buf.chains|)
  {
    hide Concat, EvBuffer.Core, HasRoom, Vectors, FirstSpace, Scattered, SumLen;
    if buf.freezeEnd {
      return -1;
    }
    var n := readable;
    if n <= 0 || n > MAX_READ {
      n := MAX_READ;
    }
    var howmuch := howmuchIn;
    if howmuch < 0 || howmuch > n {
      howmuch := n;
    }
    MissingBound(buf, howmuch, NUM_READ_IOVEC);
    var r := ExpandFast(buf, howmuch, NUM_READ_IOVEC, canAlloc);
    if r == -1 {
      return -1;
    }
    var nvecs, vecs, chainp := SetupVecs(buf, howmuch, NUM_READ_IOVEC, true);
    var got := if |incoming| < howmuch then |incoming| else howmuch;
    if fails {
      return -1;
    }
    if got == 0 {
      if EndsInData(buf) && Free(buf.chains[buf.lwd]) < howmuch {
        RoomBeyond(buf, howmuch, NUM_READ_IOVEC);
      }
      return 0;
    }
    assert forall j :: 0 <= j < |buf.chains| ==>
             buf.chains[j] in old(buf.chains) || (fresh(buf.chains[j]) && fresh(buf.chains[j].buffer));
    Receive(buf, vecs, chainp, incoming[..got]);
    result := got;
  }

  /** readv, and the hand-over of what it read. */
  method Receive(buf: EvBuffer, vecs: seq<Iovec>, firstRef: ChainRef, data: seq<Byte>)
    requires buf.Valid() && buf.lwd < |buf.chains| && FirstSpace(buf) <= |buf.chains|
    requires firstRef == buf.RefTo(FirstSpace(buf)) && Vectors(buf, FirstSpace(buf), vecs)
    requires 0 < |data| <= SumLen(vecs)
    modifies buf`lastWithDatap, buf`datas, buf`lwd, buf`totalLen, buf.chains`off, set c | c in buf.chains :: c.buffer
    ensures buf.Valid() && buf.Contents() == old(buf.Contents()) + data
  {
    hide Concat, EvBuffer.Core, SumLen, Scattered;
    ghost var f := FirstSpace(buf);
    Readv(buf, f, vecs, data);
    CommitAll(buf, f, vecs, firstRef, data);
    buf.totalLen := buf.totalLen + |data|;
  }

  /** A new queue with a few bytes. */
  method SmallBuffer(data: seq<Byte>) returns (buf: EvBuffer)
    requires |data| <= 8
    ensures fresh(buf) && buf.Valid() && buf.Contents() == data && !buf.freezeStart && !buf.freezeEnd
    ensures |buf.chains| == 1 && fresh(buf.chains[0]) && fresh(buf.chains[0].buffer)
    ensures buf.last != null && buf.last.buffer.Length == MIN_BUFFER_SIZE - CHAIN_SIZE
  {
    hide EvBuffer.Strung, EvBuffer.Core, IsSettled, Concat, Chain.Fits;
    buf := new EvBuffer();
    buf.Loosened();
    var r, _ := buf.Add(data, true);
    assert [] + data == data && buf.chains[0] in buf.chains;
  }

  /** A read that brings nothing leaves an empty chunk behind the data. */
  method LeaveEmpty() returns (buf: EvBuffer)
    ensures fresh(buf) && buf.Valid() && buf.Contents() == [1] && buf.lwd + 1 < |buf.chains| && buf.FitsLast(1)
    ensures buf.datas[|buf.datas| - 1] == [] && !buf.PointerKept(1)
    ensures forall j :: 0 <= j < |buf.chains| ==> fresh(buf.chains[j]) && fresh(buf.chains[j].buffer)
    ensures !buf.freezeStart && !buf.freezeEnd
  {
    hide EvBuffer.Strung, EvBuffer.Core, IsSettled, Concat, EvBuffer.FitsLast, Chain.Fits;
    buf := SmallBuffer([1]);
    DataInOne(buf);
    ghost var only := buf.chains[0];
    assert forall c :: c in buf.chains ==> c == only;
    var r := Read(buf, MAX_READ, -1, [], false, true);
    forall j | 0 <= j < |buf.chains|
      ensures fresh(buf.chains[j]) && fresh(buf.chains[j].buffer)
    {
      assert buf.chains[j] in buf.chains;
    }
    EmptyLast(buf);
  }

  /** A byte that is added then goes into the empty chunk, with `lastWithDatap` left behind. */
  method LeavePointerBehind() returns (buf: EvBuffer, aborted: bool)
    ensures !aborted && buf.Loose() && !buf.Valid() && buf.Contents() == [1, 2]
  {
    hide EvBuffer.Strung, EvBuffer.Core, IsSettled, Concat, EvBuffer.FitsLast, Chain.Fits;
    buf := LeaveEmpty();
    buf.Loosened();
    var r;
    r, aborted := buf.Add([2], true);
  }

  /** That byte and the empty chunk are put before two other bytes. */
  method PutBefore() returns (buf: EvBuffer, ghost ds: seq<seq<Byte>>)
    ensures fresh(buf) && buf.Valid() && ByteBefore(buf, ds) && !buf.freezeStart
    ensures forall j :: 0 <= j < |buf.chains| ==> fresh(buf.chains[j]) && fresh(buf.chains[j].buffer)
  {
    hide EvBuffer.Strung, EvBuffer.Core, IsSettled, Concat, Chain.Fits, EvBufferMoves.Apart;
    var front := LeaveEmpty();
    FrontByte(front);
    ds := front.datas;
    buf := SmallBuffer([2, 3]);
    OnePiece(buf);
    StrangersApart(buf, front);
    var r := EvBufferMoves.PrependBuffer(buf, front);
  }

  lemma FrontByte(buf: EvBuffer)
    requires buf.Valid() && buf.lwd + 1 < |buf.chains|
    ensures |buf.chains| == |buf.datas| && buf.last == buf.chains[|buf.chains| - 1] && buf.last.InBounds()
  {
  }

  /** Pieces with one byte, of which the last is empty, and then two more bytes. */
  ghost predicate ByteBefore(buf: EvBuffer, ds: seq<seq<Byte>>)
    reads buf`datas, buf`chains, buf.chains
  {
    && ds != [] && ds[|ds| - 1] == [] && Concat(ds) == [1] && buf.datas == ds + [[2, 3]]
    && |buf.chains| == |ds| + 1 && buf.chains[|ds| - 1].InBounds() && buf.chains[|ds| - 1].Fits(1)
  }

  /** Of those, two are moved: the empty chunk changes hands with the first, and the second is copied into it, behind
      `lastWithDatap`. */
  method MovePointerBehind() returns (dst: EvBuffer, aborted: bool)
    ensures !aborted && dst.Loose() && !dst.Valid() && dst.Contents() == [1, 2]
  {
    hide EvBuffer.Strung, EvBuffer.Core, IsSettled, Concat, EvBufferMoves.Apart, EvBufferMoves.DestinationKept,
         EvBufferMoves.MoveAborts, EvBufferMoves.SourceKept, EvBufferMoves.Moved, ByteBefore;
    var src, ds := PutBefore();
    dst := new EvBuffer();
    StrangersApart(dst, src);
    EmptyBetween(src, dst, ds);
    var r;
    r, aborted := EvBufferMoves.RemoveBuffer(src, dst, 2, true);
  }

  lemma OnePiece(buf: EvBuffer)
    requires buf.Valid() && |buf.chains| == 1
    ensures buf.datas == [buf.Contents()]
  {
    ConcatOne(buf.datas[0]);
    assert buf.datas == [buf.datas[0]];
  }

  lemma StrangersApart(x: EvBuffer, y: EvBuffer)
    requires x.Valid() && y.Valid() && x != y
    requires forall i, j :: 0 <= i < |x.chains| && 0 <= j < |y.chains| ==>
               x.chains[i] != y.chains[j] && x.chains[i].buffer != y.chains[j].buffer
    ensures EvBufferMoves.Apart(x, y)
  {
    hide Distinct, EvBuffer.Linked;
    EvBufferMoves.ApartMeans(x, y);
    x.Unshared();
    y.Unshared();
    EvBufferMoves.DistinctStrangers(x.chains, y.chains);
  }

  lemma EmptyBetween(src: EvBuffer, dst: EvBuffer, ds: seq<seq<Byte>>)
    requires src.Valid() && dst.Valid() && dst.chains == [] && src != dst && ByteBefore(src, ds)
    requires !src.freezeStart && !dst.freezeEnd
    ensures !EvBufferMoves.DestinationKept(src, dst, 2, true) && !EvBufferMoves.MoveAborts(src, dst, 2, true)
    ensures EvBufferMoves.Moved(src, dst, 2, true) == 2 && src.totalLen == 3 && dst.Contents() == []
    ensures dst.Contents() + src.Contents()[..2] == [1, 2]
  {
    hide Concat, EvBufferMoves.WholePieces;
    var data: seq<Byte> := [2, 3];
    ConcatNone<Byte>();
    ConcatAppend(ds, [data]);
    ConcatOne(data);
    assert src.datas[..|ds|] == ds;
    EvBufferMoves.WholeIs(src.datas, 2, |ds|);
    assert src.datas[|ds| - 1] == [] && src.totalLen == 3 && dst.totalLen == 0;
    assert EvBufferMoves.RestHasPlace(src, dst, 2, true);
  }

  lemma DataInOne(buf: EvBuffer)
    requires buf.Valid() && |buf.chains| == 1 && |buf.Contents()| == 1
    ensures EndsInData(buf) && Free(buf.chains[buf.lwd]) < buf.chains[buf.lwd].buffer.Length
            && buf.last == buf.chains[buf.lwd]
  {
    ConcatOne(buf.datas[0]);
    assert buf.datas == [buf.datas[0]];
  }

  /** An empty last chunk can take a byte. */
  lemma EmptyLast(buf: EvBuffer)
    requires buf.Valid() && buf.lwd + 1 < |buf.chains|
    ensures buf.datas[|buf.datas| - 1] == []
    ensures buf.last != null && buf.last.InBounds() && buf.FitsLast(1) && !buf.PointerKept(1)
  {
    Layout(buf);
    var last := buf.chains[|buf.chains| - 1];
    assert last.off == 0 && last.ShouldRealign(1);
  }
}
