/** The byte queue of buffer.c: a linked list of chunks that behaves as one flat byte sequence.
    All chunks are ordinary heap chunks: none is immutable, pinned, mapped or a reference. */
module EvBuffers {
  import opened Bytes

  const CHAIN_SIZE: nat := 48
  const CHAIN_MAX: nat := SSIZE_MAX
  const MIN_BUFFER_SIZE: nat := 1024
  const MAX_TO_REALIGN_IN_EXPAND: nat := 2048
  const CHAIN_MAX_AUTO_SIZE: nat := 4096

  /** One chunk: `off` bytes of data start `misalign` bytes into `buffer`. */
  class Chain {
    const buffer: array<Byte>
    var misalign: nat
    var off: nat
    var next: Chain?

    constructor (size: nat)
      ensures fresh(buffer) && buffer.Length == size
      ensures misalign == 0 && off == 0 && next == null
    {
      buffer := new Byte[size](_ => 0);
      misalign, off, next := 0, 0, null;
    }

    predicate InBounds()
      reads this`misalign, this`off
    {
      misalign + off <= buffer.Length
    }

    ghost function Data(): (d: seq<Byte>)
      requires InBounds()
      ensures |d| == off
      reads this`misalign, this`off, buffer
    {
      buffer[misalign..misalign + off]
    }

    function SpaceLen(): nat
      requires InBounds()
      reads this`misalign, this`off
    {
      buffer.Length - (misalign + off)
    }

    /** Puts `src` into an empty chunk, at the start of its memory. */
    method Fill(src: seq<Byte>)
      requires misalign == 0 && |src| <= buffer.Length
      modifies this`off, buffer
      ensures off == |src| && Data() == src
    {
      MemCpy(buffer, 0, src);
      off := |src|;
    }

    /** Copies bytes into the free space behind the data. */
    method WriteBehind(src: seq<Byte>)
      requires InBounds() && |src| <= SpaceLen()
      modifies this`off, buffer
      ensures InBounds() && off == old(off) + |src| && Data() == old(Data()) + src
    {
      hide Overlay;
      OverlayBehind(buffer[..], misalign, misalign + off, src);
      MemCpy(buffer, misalign + off, src);
      off := off + |src|;
      assert Data() == buffer[..][misalign..misalign + off];
    }

    /** Copies bytes into the free space before the data. */
    method WriteBefore(src: seq<Byte>)
      requires InBounds() && |src| <= misalign
      modifies this`misalign, this`off, buffer
      ensures InBounds() && off == old(off) + |src| && misalign == old(misalign) - |src| && Data() == src + old(Data())
    {
      hide Overlay;
      OverlayBefore(buffer[..], misalign, misalign + off, src);
      MemCpy(buffer, misalign - |src|, src);
      misalign, off := misalign - |src|, off + |src|;
      assert Data() == buffer[..][misalign..misalign + off];
    }

    /** Puts `src` into an empty chunk, at the end of its memory. */
    method FillBack(src: seq<Byte>)
      requires |src| <= buffer.Length
      modifies this`misalign, this`off, buffer
      ensures InBounds() && off == |src| && Data() == src
    {
      off := |src|;
      misalign := buffer.Length - |src|;
      MemCpy(buffer, misalign, src);
    }

    predicate ShouldRealign(datlen: nat)
      requires InBounds()
      reads this`misalign, this`off
    {
      buffer.Length - off >= datlen && off < buffer.Length / 2 && off <= MAX_TO_REALIGN_IN_EXPAND
    }

    /** The chunk can take `n` more bytes as it is, or after its data has been moved to its start. */
    predicate Fits(n: nat)
      requires InBounds()
      reads this`misalign, this`off
    {
      n <= SpaceLen() || ShouldRealign(n)
    }
  }

  /** There is a place for `n` bytes behind `total` others, in the last chunk if they fit there. */
  predicate HasPlace(fits: bool, total: nat, n: nat, canAlloc: bool) {
    n <= SIZE_MAX - total && (fits || (canAlloc && n <= CHAIN_MAX - CHAIN_SIZE))
  }

  /** The address of a pointer to a chunk: of the queue's `first`, or of some chunk's `next`. */
  datatype ChainRef = FirstRef | NextRef(chain: Chain)

  /** A chunk able to hold `size` bytes, or null: the size is impossible, or `canAlloc` is false because
      the C allocator has no memory left. */
  method ChainNew(size: nat, canAlloc: bool) returns (chain: Chain?)
    ensures chain == null <==> !canAlloc || size > CHAIN_MAX - CHAIN_SIZE
    ensures chain != null ==>
              fresh(chain) && fresh(chain.buffer) && size <= chain.buffer.Length && IsSound(chain)
              && chain.misalign == 0 && chain.off == 0 && chain.next == null
              && (size <= MIN_BUFFER_SIZE - CHAIN_SIZE ==> chain.buffer.Length == MIN_BUFFER_SIZE - CHAIN_SIZE)
  {
    if size > CHAIN_MAX - CHAIN_SIZE {
      return null;
    }
    var total := size + CHAIN_SIZE;
    var toAlloc := total;
    if total < CHAIN_MAX / 2 {
      toAlloc := MIN_BUFFER_SIZE;
      while toAlloc < total
        invariant MIN_BUFFER_SIZE <= toAlloc && (toAlloc == MIN_BUFFER_SIZE || toAlloc < 2 * total)
        invariant total <= MIN_BUFFER_SIZE ==> toAlloc == MIN_BUFFER_SIZE
        decreases total - toAlloc
      {
        toAlloc := toAlloc * 2;
      }
    }
    if !canAlloc {
      return null;
    }
    chain := new Chain(toAlloc - CHAIN_SIZE);
  }

  ghost function Objects(cs: seq<Chain>): set<object> {
    (set c | c in cs :: c as object) + (set c | c in cs :: c.buffer as object)
  }

  /** No two chunks share storage. */
  ghost predicate Distinct(cs: seq<Chain>) {
    forall i, j :: 0 <= i < j < |cs| ==> cs[i] != cs[j] && cs[i].buffer != cs[j].buffer
  }

  /** The `next` pointers lead from each chunk to the one after it. */
  ghost predicate Segment(cs: seq<Chain>)
    reads cs`next
  {
    forall i :: 0 <= i < |cs| - 1 ==> cs[i].next == cs[i + 1]
  }

  ghost predicate IsSound(c: Chain)
    reads c`misalign, c`off
  {
    MIN_BUFFER_SIZE - CHAIN_SIZE <= c.buffer.Length <= CHAIN_MAX - CHAIN_SIZE && c.InBounds()
  }

  /** Chunk `i` holds exactly the bytes `ds[i]`. */
  ghost predicate Holding(cs: seq<Chain>, ds: seq<seq<Byte>>)
    reads cs`misalign, cs`off, set c | c in cs :: c.buffer
  {
    && |ds| == |cs|
    && (forall i :: 0 <= i < |cs| ==> IsSound(cs[i]) && cs[i].Data() == ds[i])
  }

  /** Piece `k` is the last one that holds data; it is piece 0 when none does. */
  ghost predicate IsLastWithData(ds: seq<seq<Byte>>, k: nat) {
    && (ds == [] ==> k == 0)
    && (ds != [] ==> k < |ds| && (ds[k] != [] || k == 0))
    && forall i :: k < i < |ds| ==> ds[i] == []
  }

  /** No piece is empty, except one that is alone. */
  ghost predicate IsSettled(ds: seq<seq<Byte>>) {
    |ds| <= 1 || forall i :: 0 <= i < |ds| ==> ds[i] != []
  }

  /** Piece `l` counts as the last one with data, though the very last one may hold some as well. */
  ghost predicate IsLoose(ds: seq<seq<Byte>>, l: nat) {
    && (ds == [] ==> l == 0)
    && (ds != [] ==> l < |ds| && (ds[l] != [] || l == 0))
    && forall i :: l < i < |ds| - 1 ==> ds[i] == []
  }

  /** Piece `l` holds data, or is the first of all. */
  ghost predicate IsPointed(ds: seq<seq<Byte>>, l: nat) {
    if ds == [] then l == 0 else l < |ds| && (ds[l] != [] || l == 0)
  }

  /** From piece `l` on, nothing but empty pieces is behind an empty one. */
  ghost predicate IsRun(ds: seq<seq<Byte>>, l: nat) {
    forall i, j :: l <= i < j < |ds| && ds[i] == [] ==> ds[j] == []
  }

  /** The same once the very last piece has been given `more` bytes. */
  ghost predicate StaysRun(ds: seq<seq<Byte>>, l: nat, more: nat) {
    forall i, j :: l <= i < j < |ds| && ds[i] == [] ==> ds[j] == [] && (j < |ds| - 1 || more == 0)
  }

  /** No piece from `l` on is empty. */
  ghost predicate IsFilled(ds: seq<seq<Byte>>, l: nat) {
    forall i :: l <= i < |ds| ==> ds[i] != []
  }

  lemma LooseIs(ds: seq<seq<Byte>>, l: nat)
    ensures IsLastWithData(ds, l) <==> IsLoose(ds, l) && (l + 1 < |ds| ==> ds[|ds| - 1] == [])
    ensures IsLastWithData(ds, l) && IsSettled(ds) && ds != [] ==> l == |ds| - 1
  {
  }

  lemma {:induction false} HoldingPush(cs: seq<Chain>, ds: seq<seq<Byte>>, c: Chain)
    requires Holding(cs, ds) && IsSound(c)
    ensures Holding([c] + cs, [c.Data()] + ds)
  {
  }

  lemma {:induction false} HoldingDrop(cs: seq<Chain>, ds: seq<seq<Byte>>, i: nat)
    requires Holding(cs, ds) && i <= |cs|
    ensures Holding(cs[i..], ds[i..])
  {
  }

  lemma {:induction false} HoldingTail(cs: seq<Chain>, ds: seq<seq<Byte>>, k: nat, c: Chain)
    requires Holding(cs, ds) && k <= |cs| && IsSound(c)
    ensures Holding(cs[..k] + [c], ds[..k] + [c.Data()])
  {
  }

  /** The first bytes of a piece, where they stand. */
  lemma {:induction false} FirstOf(cs: seq<Chain>, ds: seq<seq<Byte>>, i: nat, r: nat)
    requires Holding(cs, ds) && i < |cs| && r <= cs[i].off
    ensures cs[i].InBounds() && cs[i].off == |ds[i]|
    ensures cs[i].buffer[cs[i].misalign..cs[i].misalign + r] == ds[i][..r]
  {
    assert cs[i].Data()[..r] == cs[i].buffer[cs[i].misalign..cs[i].misalign + r];
  }

  /** Putting `d` behind the pieces that are not empty, in place of the empty ones from `k` on. */
  lemma {:induction false} AppendPiece(ds: seq<seq<Byte>>, l: nat, k: nat, d: seq<Byte>)
    requires IsPointed(ds, l) && l <= k <= |ds|
    requires (forall j :: l <= j < k ==> ds[j] != []) && forall j :: k <= j < |ds| ==> ds[j] == []
    requires d == [] ==> IsLastWithData(ds, l)
    ensures Concat(ds[..k] + [d]) == Concat(ds) + d
    ensures var l' := if d != [] && k == |ds| then k else l;
            && IsPointed(ds[..k] + [d], l')
            && (IsLoose(ds, l) ==> IsLoose(ds[..k] + [d], l'))
            && (IsLastWithData(ds[..k] + [d], l') <==> d == [] || k == |ds| || k == l)
    ensures IsSettled(ds) && (d != [] || ds == []) ==> IsSettled(ds[..k] + [d])
  {
    hide Concat;
    AppendBytes(ds, k, d);
    var es := ds[..k] + [d];
    assert IsLoose(ds, l) && l + 1 < |ds| - 1 ==> ds[l + 1] == [];
    assert es[|es| - 1] == d;
  }

  lemma {:induction false} AppendBytes(ds: seq<seq<Byte>>, k: nat, d: seq<Byte>)
    requires k <= |ds| && forall j :: k <= j < |ds| ==> ds[j] == []
    ensures Concat(ds[..k] + [d]) == Concat(ds) + d
  {
    var a, b := ds[..k], ds[k..];
    assert ds == a + b;
    ConcatAppend(a, b);
    ConcatEmpties(b);
    ConcatAppend(a, [d]);
    ConcatOne(d);
  }

  /** Adding to the very last piece. */
  lemma {:induction false} ExtendLast(ds: seq<seq<Byte>>, l: nat, src: seq<Byte>)
    requires ds != [] && IsPointed(ds, l)
    ensures var m := |ds| - 1;
            var es := ds[m := ds[m] + src];
            && IsPointed(es, l) && Concat(es) == Concat(ds) + src && (IsSettled(ds) ==> IsSettled(es))
            && (IsLoose(ds, l) ==> IsLoose(es, l))
            && (IsLastWithData(es, l) <==> IsLastWithData(ds, l) && (src == [] || l == m))
  {
    var m := |ds| - 1;
    ConcatSplit(ds, m);
    ConcatUpdate(ds, m, ds[m] + src);
    assert ds[m + 1..] == [];
    var es := ds[m := ds[m] + src];
    assert es[m] == ds[m] + src && forall j :: 0 <= j < m ==> es[j] == ds[j];
  }

  /** Adding before the first piece. */
  lemma {:induction false} ExtendFirst(ds: seq<seq<Byte>>, l: nat, src: seq<Byte>)
    requires ds != [] && IsLastWithData(ds, l)
    ensures var es := ds[0 := src + ds[0]];
            && IsLastWithData(es, l) && (IsSettled(ds) ==> IsSettled(es)) && Concat(es) == src + Concat(ds)
  {
    var d := src + ds[0];
    ConcatUpdate(ds, 0, d);
    ConcatSplit(ds, 0);
    ConcatNone<Byte>();
    assert ds[..0] == [];
    assert src + (ds[0] + Concat(ds[1..])) == d + Concat(ds[1..]);
  }

  /** A new piece before pieces of which the first holds data. */
  lemma {:induction false} PushPiece(ds: seq<seq<Byte>>, l: nat, d: seq<Byte>)
    requires ds != [] && ds[0] != [] && IsLastWithData(ds, l)
    ensures IsLastWithData([d] + ds, l + 1)
    ensures d != [] && IsSettled(ds) ==> IsSettled([d] + ds)
    ensures Concat([d] + ds) == d + Concat(ds)
  {
    ConcatAppend([d], ds);
    ConcatOne(d);
  }

  /** All data lies in the pieces up to the last one with data. */
  lemma {:induction false} TotalUpTo(ds: seq<seq<Byte>>, l: nat)
    requires ds != [] && IsLastWithData(ds, l)
    ensures Concat(ds) == Concat(ds[..l + 1])
    ensures |Concat(ds[..l])| + |ds[l]| == |Concat(ds)|
  {
    ConcatCut(ds, l + 1);
    ConcatEmpties(ds[l + 1..]);
    ConcatSplit(ds, l);
  }

  /** Dropping the pieces before `i` and the first `r` bytes of piece `i`. */
  lemma {:induction false} DropPieces(ds: seq<seq<Byte>>, l: nat, i: nat, r: nat)
    requires ds != [] && IsLastWithData(ds, l) && i <= l && r < |ds[i]|
    ensures |Concat(ds[..i])| + r <= |Concat(ds)|
    ensures var es := ds[i..][0 := ds[i][r..]];
            && IsLastWithData(es, l - i) && (IsSettled(ds) ==> IsSettled(es))
            && Concat(es) == Concat(ds)[|Concat(ds[..i])| + r..]
    ensures Concat(ds)[..|Concat(ds[..i])| + r] == Concat(ds[..i]) + ds[i][..r]
  {
    var cs, d := ds[i..], ds[i][r..];
    ConcatSplit(ds, i);
    ConcatUpdate(cs, 0, d);
    ConcatNone<Byte>();
    assert cs[..0] == [] && cs[1..] == ds[i + 1..];
    assert Concat(ds) == Concat(ds[..i]) + (ds[i] + Concat(ds[i + 1..]));
  }

  class EvBuffer {
    var first: Chain?
    var last: Chain?
    var lastWithDatap: ChainRef
    var totalLen: nat
    var freezeStart: bool
    var freezeEnd: bool

    ghost var chains: seq<Chain>
    ghost var datas: seq<seq<Byte>>
    ghost var lwd: nat

    ghost function Repr(): set<object>
      reads this
    {
      {this} + Objects(chains)
    }

    /** `first`, `last` and the `next` pointers string `chains` together, and no storage is shared. */
    ghost predicate Linked()
      reads `first, `last, `chains, chains`next
    {
      && first == (if chains == [] then null else chains[0])
      && last == (if chains == [] then null else chains[|chains| - 1])
      && (chains != [] ==> chains[|chains| - 1].next == null)
      && Segment(chains)
      && Distinct(chains)
    }

    /** The chunk is in the list, at place `i`. */
    ghost predicate At(chain: Chain, i: nat)
      reads `chains
    {
      i < |chains| && chains[i] == chain
    }

    ghost function RefTo(k: nat): ChainRef
      requires k <= |chains|
      reads `chains
    {
      if k == 0 then FirstRef else NextRef(chains[k - 1])
    }

    /** Chunks, links and `lastWithDatap` agree. */
    ghost predicate Core()
      reads `first, `last, `lastWithDatap, `chains, `datas, `lwd
      reads chains, set c | c in chains :: c.buffer
    {
      && Linked()
      && |datas| == |chains| && lwd <= |chains|
      && Holding(chains, datas)
      && IsLastWithData(datas, lwd)
      && lastWithDatap == RefTo(lwd)
    }

    /** Like `Core`, except that there may be data behind the chunk that `lastWithDatap` leads to. */
    ghost predicate Strung()
      reads `first, `last, `lastWithDatap, `chains, `datas, `lwd
      reads chains, set c | c in chains :: c.buffer
    {
      && Linked()
      && |datas| == |chains| && lwd <= |chains|
      && Holding(chains, datas)
      && IsPointed(datas, lwd)
      && lastWithDatap == RefTo(lwd)
    }

    /** The bytes and the chunks are in order, though `lastWithDatap` may have been left behind. */
    ghost predicate Loose()
      reads `first, `last, `lastWithDatap, `totalLen, `chains, `datas, `lwd
      reads chains, set c | c in chains :: c.buffer
    {
      Strung() && totalLen == |Contents()|
    }

    /** The representation invariant of evbuffer-internal.h. */
    ghost predicate Valid()
      reads `first, `last, `lastWithDatap, `totalLen, `chains, `datas, `lwd
      reads chains, set c | c in chains :: c.buffer
    {
      Core() && totalLen == |Contents()|
    }

    /** What appending needs in addition: no empty chunk, except one that is alone. */
    ghost predicate Settled()
      reads `datas
    {
      IsSettled(datas)
    }

    ghost function Contents(): seq<Byte>
      reads `datas
    {
      Concat(datas)
    }

    constructor ()
      ensures Valid() && Settled() && Contents() == [] && chains == [] && fresh(Repr())
      ensures !freezeStart && !freezeEnd
    {
      first, last, lastWithDatap, totalLen := null, null, FirstRef, 0;
      freezeStart, freezeEnd := false, false;
      chains, datas, lwd := [], [], 0;
    }

    /** The chunk that a pointer-to-pointer leads to. */
    function Deref(r: ChainRef): Chain?
      reads this, if r.NextRef? then {r.chain} else {}
    {
      if r.FirstRef? then first else r.chain.next
    }

    lemma Loosened()
      ensures Core() ==> Strung()
      ensures Valid() <==> Loose() && IsLastWithData(datas, lwd)
    {
      LooseIs(datas, lwd);
    }

    /** The first chunk at or after the last one with data that is empty, or the end of the list. */
    method FindVictim() returns (ch: ChainRef, ghost k: nat)
      requires Strung()
      ensures lwd <= k <= |chains| && ch == RefTo(k)
      ensures forall j :: lwd <= j < k ==> datas[j] != []
      ensures Deref(ch) == if k < |chains| then chains[k] else null
      ensures k < |chains| ==> datas[k] == []
    {
      ch, k := lastWithDatap, lwd;
      while Deref(ch) != null && Deref(ch).off != 0
        invariant lwd <= k <= |chains| && ch == RefTo(k)
        invariant forall j :: lwd <= j < k ==> datas[j] != []
        decreases |chains| - k
      {
        k := k + 1;
        ch := NextRef(Deref(ch));
      }
    }

    /** evbuffer_chains_all_empty. */
    method AllEmpty(from: Chain, ghost k: nat) returns (empty: bool)
      requires Linked() && Holding(chains, datas) && At(from, k)
      ensures empty <==> forall j :: k <= j < |datas| ==> datas[j] == []
    {
      hide Distinct, IsSound;
      var chain: Chain? := from;
      ghost var i := k;
      while chain != null
        invariant k <= i <= |chains| && chain == if i < |chains| then chains[i] else null
        invariant forall j :: k <= j < i ==> datas[j] == []
        decreases |chains| - i
      {
        assert |datas[i]| == chain.off;
        if chain.off != 0 {
          return false;
        }
        chain := chain.next;
        i := i + 1;
      }
      empty := true;
    }

    /** Makes `chain` the end of the list, in the place of chunk `k` and all behind it. */
    method LinkLast(ch: ChainRef, ghost k: nat, chain: Chain)
      requires Linked()
      requires k <= |chains| && ch == RefTo(k)
      requires IsForeign(chain) && chain.next == null
      modifies this`first, this`last, this`chains, chains`next
      ensures chains == old(chains)[..k] + [chain] && Linked()
      ensures last == chain && (k == 0 ==> first == chain)
    {
      if ch.FirstRef? {
        first := chain;
      } else {
        ch.chain.next := chain;
      }
      last := chain;
      ghost var was := chains;
      chains := was[..k] + [chain];
      assert forall i :: 0 <= i < k ==> chains[i] == was[i];
    }

    ghost predicate IsForeign(chain: Chain)
      reads this
    {
      chain !in chains && forall c :: c in chains ==> c.buffer != chain.buffer
    }

    lemma LastSound()
      requires Loose() && last != null
      ensures chains != [] && At(last, |chains| - 1) && lwd < |chains|
      ensures IsSound(last) && Holding(chains, datas) && Distinct(chains)
      ensures last.off == |datas[|chains| - 1]|
    {
    }

    lemma Unshared()
      requires Linked()
      ensures Distinct(chains)
    {
    }

    lemma NotEmpty()
      requires Valid() && totalLen > 0
      ensures chains != [] && datas != []
    {
    }

    lemma NoChains()
      requires Loose() && (last == null || first == null)
      ensures chains == [] && datas == [] && lwd == 0 && Valid()
    {
    }

    lemma Bounds()
      requires Strung()
      ensures |datas| == |chains| && lwd <= |chains|
      ensures lwd == |chains| <==> chains == []
      ensures Deref(lastWithDatap) == if lwd < |chains| then chains[lwd] else null
    {
    }

    /** Where the victims start tells whether anything but the very last chunk is empty. */
    static lemma VictimIs(ds: seq<seq<Byte>>, l: nat, k: nat)
      requires IsPointed(ds, l) && l <= k <= |ds|
      requires (forall j :: l <= j < k ==> ds[j] != []) && (k < |ds| ==> ds[k] == [])
      ensures IsFilled(ds, l) <==> k == |ds|
      ensures (forall j :: k <= j < |ds| ==> ds[j] == []) <==> IsRun(ds, l)
      ensures k < |ds| ==> (k == l <==> ds[l] == [])
    {
    }

    /** Puts a free chunk behind the chunks that hold data, in place of the empty chunks there. Only the assertion that
        those are empty can keep it from doing so. */
    method InsertPointers(chain: Chain) returns (aborted: bool, ghost k: nat)
      requires Strung()
      requires IsForeign(chain) && chain.next == null
      modifies this`first, this`last, this`lastWithDatap, this`chains, chains`next
      ensures lwd <= k <= |old(chains)| && (forall j :: lwd <= j < k ==> datas[j] != []) && (k < |datas| ==> datas[k] == [])
      ensures aborted <==> !forall j :: k <= j < |datas| ==> datas[j] == []
      ensures !aborted ==>
                && chains == old(chains)[..k] + [chain] && Linked() && last == chain && (k == 0 ==> first == chain)
                && lastWithDatap == RefTo(if chain.off > 0 && k == |old(chains)| then k else lwd)
    {
      hide Chain.Data, Segment, Distinct, Holding, IsPointed, IsSettled, Concat;
      Bounds();
      var tail: Chain? := null;
      var ch := FirstRef;
      k := 0;
      aborted := false;
      if Deref(lastWithDatap) != null {
        ch, k := FindVictim();
        if Deref(ch) == null {
          tail := last;
        } else {
          var empty := AllEmpty(Deref(ch), k);
          if !empty {
            return true, k;
          }
        }
      }
      LinkLast(ch, k, chain);
      if tail != null && chain.off > 0 {
        lastWithDatap := NextRef(tail);
      }
    }

    /** Copies bytes into the free space behind a chunk's data. */
    method WriteBack(chain: Chain, ghost i: nat, src: seq<Byte>)
      requires Distinct(chains) && Holding(chains, datas) && At(chain, i)
      requires |src| <= chain.SpaceLen()
      modifies chain`off, chain.buffer, this`datas
      ensures datas == old(datas)[i := old(datas)[i] + src]
      ensures Holding(chains, datas)
      ensures chain.off == old(chain.off) + |src|
    {
      hide Chain.Data;
      chain.WriteBehind(src);
      datas := datas[i := old(datas)[i] + src];
    }

    /** Copies bytes into the free space before a chunk's data. */
    method WriteFront(chain: Chain, ghost i: nat, src: seq<Byte>)
      requires Distinct(chains) && Holding(chains, datas) && At(chain, i)
      requires |src| <= chain.misalign
      modifies chain`misalign, chain`off, chain.buffer, this`datas
      ensures datas == old(datas)[i := src + old(datas)[i]]
      ensures Holding(chains, datas)
      ensures chain.off == old(chain.off) + |src| && chain.misalign == old(chain.misalign) - |src|
    {
      hide Chain.Data;
      chain.WriteBefore(src);
      datas := datas[i := src + old(datas)[i]];
    }

    /** Gives up the first `n` bytes of a chunk's data. */
    method DropFront(chain: Chain, ghost i: nat, n: nat)
      requires Distinct(chains) && Holding(chains, datas) && At(chain, i)
      requires n <= chain.off
      modifies chain`misalign, chain`off, this`datas
      ensures datas == old(datas)[i := old(datas)[i][n..]]
      ensures Holding(chains, datas)
      ensures chain.off == old(chain.off) - n
    {
      RestOf(chain.buffer[..], chain.misalign, chain.misalign + chain.off, n);
      chain.misalign := chain.misalign + n;
      chain.off := chain.off - n;
      assert chain.Data() == chain.buffer[..][chain.misalign..chain.misalign + chain.off];
      assert chain.Data() == old(datas)[i][n..];
      datas := datas[i := old(datas)[i][n..]];
    }

    /** evbuffer_chain_align: moves a chunk's data to the start of its memory. */
    method ChainAlign(chain: Chain, ghost i: nat)
      requires Distinct(chains) && Holding(chains, datas) && At(chain, i)
      modifies chain`misalign, chain.buffer
      ensures Holding(chains, datas)
      ensures chain.misalign == 0
    {
      MemCpy(chain.buffer, 0, chain.buffer[chain.misalign..chain.misalign + chain.off]);
      chain.misalign := 0;
      assert chain.Data() == chain.buffer[..][..chain.off];
      assert chain.Data() == datas[i];
    }

    /** evbuffer_chain_insert. It aborts if a chunk with data lies behind an empty one that `lastWithDatap` leads to
        or that is behind that. A chunk with data that takes the place of empty chunks behind others is not noted as
        the last one with data. */
    method ChainInsert(chain: Chain) returns (aborted: bool)
      requires Loose()
      requires IsForeign(chain) && chain.next == null && IsSound(chain) && (chain.off == 0 ==> Valid())
      modifies this`first, this`last, this`lastWithDatap, this`totalLen, this`chains, this`datas, this`lwd, chains`next
      ensures aborted <==> !IsRun(old(datas), old(lwd))
      ensures !aborted ==>
                && Loose() && last == chain && chains != [] && At(chain, |chains| - 1)
                && (old(chains) == [] ==> first == chain && lwd == 0)
                && (forall c :: c in chains ==> c in old(chains) || c == chain)
                && Contents() == old(Contents()) + chain.Data()
                && (old(IsLoose(datas, lwd)) ==> IsLoose(datas, lwd))
                && (IsLastWithData(datas, lwd) <==> chain.off == 0 || old(IsFilled(datas, lwd) || datas[lwd] == []))
                && (old(Settled()) && (chain.off > 0 || old(chains) == []) ==> Settled())
    {
      hide Concat, Linked, Holding, IsLastWithData, IsLoose, IsRun, IsSettled, Distinct, Segment, Chain.Data,
           Chain.InBounds;
      ghost var cs, ds, l := chains, datas, lwd;
      ghost var k;
      aborted, k := InsertPointers(chain);
      VictimIs(ds, l, k);
      if aborted {
        return;
      }
      AppendPiece(ds, l, k, chain.Data());
      HoldingTail(cs, datas, k, chain);
      lwd := if chain.off > 0 && k == |ds| then k else l;
      datas := datas[..k] + [chain.Data()];
      totalLen := totalLen + chain.off;
    }

    /** Appends to the data of the last chunk, which has room. */
    method AddToLast(src: seq<Byte>)
      requires Loose() && last != null && |src| <= last.SpaceLen()
      modifies this`datas, this`totalLen, last`off, last.buffer
      ensures Loose() && Contents() == old(Contents()) + src && (old(Settled()) ==> Settled())
      ensures last.off == old(last.off) + |src|
      ensures |chains| > 0 && datas == old(datas)[|chains| - 1 := old(datas)[|chains| - 1] + src]
      ensures old(IsLoose(datas, lwd)) ==> IsLoose(datas, lwd)
      ensures IsLastWithData(datas, lwd) <==> old(IsLastWithData(datas, lwd)) && (src == [] || lwd == |chains| - 1)
    {
      hide Concat, Segment, Distinct, Holding, IsLoose, IsPointed, IsSettled, IsLastWithData, Chain.Data;
      LastSound();
      ExtendLast(datas, lwd, src);
      WriteBack(last, |chains| - 1, src);
      totalLen := totalLen + |src|;
    }

    /** Makes all the free room of the last chunk lie behind its data. */
    method AlignLast()
      requires Loose() && last != null
      modifies last`misalign, last.buffer
      ensures Loose() && last.misalign == 0
    {
      hide Concat, Segment, Distinct, Holding, IsPointed, IsSettled, Chain.Data;
      LastSound();
      ChainAlign(last, |chains| - 1);
    }

    /** The last chunk can take `n` more bytes. */
    ghost predicate FitsLast(n: nat)
      requires last != null ==> last.InBounds()
      reads `last, last
    {
      last != null && last.Fits(n)
    }

    /** When evbuffer_add can add `n` bytes. */
    ghost predicate CanAdd(n: nat, canAlloc: bool)
      requires last != null ==> last.InBounds()
      reads `last, `freezeEnd, `totalLen, last
    {
      !freezeEnd && HasPlace(FitsLast(n), totalLen, n, canAlloc)
    }

    /** When evbuffer_add leaves `lastWithDatap` leading to the last chunk with data: nothing is added; or it leads to
        the last chunk of all; or the bytes go on into a new chunk, with either a part of them filling the one
        chunk behind it, or all of them in the place of empty chunks only. */
    ghost predicate PointerKept(n: nat)
      requires last != null ==> last.InBounds()
      reads `last, `chains, `datas, `lwd, last
    {
      n == 0 || lwd + 1 >= |datas| || (last != null && !FitsLast(n) && SpillsWell(datas, lwd, last.SpaceLen()))
    }

    /** When it makes it lead there if it did not: the bytes go on into a new chunk, and no chunk is empty then from the
        one on that it led to. */
    ghost predicate PointerMended(n: nat)
      requires last != null ==> last.InBounds()
      reads `last, `datas, `lwd, last
    {
      last != null && !FitsLast(n) && Overflows(datas, lwd, last.SpaceLen())
    }

    /** When the assertion that the chunks to be replaced are empty fails: the bytes go on into a new chunk, and behind an
        empty chunk from the one on that `lastWithDatap` leads to is data, or free room at the very end. */
    ghost predicate Aborts(n: nat, canAlloc: bool)
      requires last != null ==> last.InBounds()
      reads `last, `freezeEnd, `totalLen, `datas, `lwd, last
    {
      CanAdd(n, canAlloc) && last != null && !FitsLast(n) && !StaysRun(datas, lwd, last.SpaceLen())
    }

    /** Adds bytes to the last chunk, which can take them. */
    method AddInPlace(data: seq<Byte>)
      requires Loose() && last != null && FitsLast(|data|)
      modifies this`datas, this`totalLen, last`off, last`misalign, last.buffer
      ensures Loose() && Contents() == old(Contents()) + data && (old(Settled()) ==> Settled())
      ensures old(IsLoose(datas, lwd)) ==> IsLoose(datas, lwd)
      ensures Valid() <==> old(Valid() && PointerKept(|data|))
      ensures old(Valid() && Settled()) ==> Valid()
    {
      hide Concat, Linked, Holding, IsLastWithData, IsLoose, IsPointed, IsSettled, Distinct, Segment, Chain.Data, RefTo;
      Loosened();
      LastSound();
      LooseIs(datas, lwd);
      if last.SpaceLen() < |data| {
        AlignLast();
      }
      AddToLast(data);
      Loosened();
    }

    /** Adds bytes that do not all fit into the last chunk. */
    method AddChunk(data: seq<Byte>, canAlloc: bool) returns (ok: bool, aborted: bool)
      requires Loose() && last != null && !FitsLast(|data|)
      modifies this`first, this`last, this`lastWithDatap, this`totalLen, this`chains, this`datas, this`lwd
      modifies chains`next, last`off, last.buffer
      ensures ok == (canAlloc && |data| <= CHAIN_MAX - CHAIN_SIZE)
      ensures aborted <==> ok && old(!StaysRun(datas, lwd, last.SpaceLen()))
      ensures !ok ==> Loose() && datas == old(datas) && lwd == old(lwd)
      ensures !aborted ==> Loose() && forall c :: c in chains ==> c in old(chains) || (fresh(c) && fresh(c.buffer))
      ensures !aborted && old(IsLoose(datas, lwd)) ==> IsLoose(datas, lwd)
      ensures ok && !aborted ==> Contents() == old(Contents()) + data
      ensures ok ==> (!aborted && Valid() <==> if old(Valid()) then old(PointerKept(|data|)) else old(PointerMended(|data|)))
      ensures old(Valid() && Settled()) ==> !aborted && Valid() && Settled()
    {
      hide Concat, Linked, Holding, IsLastWithData, IsLoose, IsPointed, IsSettled, IsFilled, StaysRun, Overflows,
           Distinct, Segment, Chain.Data, RefTo;
      Loosened();
      LastSound();
      SettledLast(datas, lwd, last.SpaceLen());
      assert |data| > 0;
      ok, aborted := false, false;
      var toAlloc := last.buffer.Length;
      if toAlloc <= CHAIN_MAX_AUTO_SIZE / 2 {
        toAlloc := toAlloc * 2;
      }
      if |data| > toAlloc {
        toAlloc := |data|;
      }
      var tmp := ChainNew(toAlloc, canAlloc);
      if tmp == null {
        return;
      }
      aborted := Spill(data, tmp);
      ok := true;
    }

    /** Fills the last chunk, and puts the rest into a new one. */
    method Spill(data: seq<Byte>, tmp: Chain) returns (aborted: bool)
      requires Loose() && last != null && last.InBounds() && last.SpaceLen() < |data| <= tmp.buffer.Length
      requires IsForeign(tmp) && tmp.next == null && IsSound(tmp) && tmp.misalign == 0
      modifies this`first, this`last, this`lastWithDatap, this`totalLen, this`chains, this`datas, this`lwd
      modifies chains`next, last`off, last.buffer, tmp`off, tmp.buffer
      ensures !aborted ==>
                Loose() && (forall c :: c in chains ==> c in old(chains) || c == tmp) && Contents() == old(Contents()) + data
      ensures !aborted && old(IsLoose(datas, lwd)) ==> IsLoose(datas, lwd)
      ensures aborted <==> old(!StaysRun(datas, lwd, last.SpaceLen()))
      ensures !aborted && Valid() <==> old(Overflows(datas, lwd, last.SpaceLen()))
      ensures old(Settled()) && !aborted ==> Settled()
    {
      hide Concat, Linked, Holding, IsLastWithData, IsLoose, IsPointed, IsRun, StaysRun, IsSettled, IsFilled, Distinct,
           Segment, Chain.Data, RefTo, Overflows;
      Loosened();
      LastSound();
      var remain := last.SpaceLen();
      ghost var ds, l := datas, lwd;
      if remain > 0 {
        AddToLast(data[..remain]);
      }
      Spilled(ds, l, data[..remain]);
      var rest := data[remain..];
      assert data == data[..remain] + rest;
      tmp.Fill(rest);
      aborted := ChainInsert(tmp);
      Loosened();
    }

    /** When a new chunk goes behind the last one, of which `remain` bytes have been filled, with the pointer to it: no
        chunk is empty then from the one on that the pointer led to, or all are. */
    static ghost predicate Overflows(ds: seq<seq<Byte>>, l: nat, remain: nat) {
      || (forall j :: l <= j < |ds| ==> ds[j] != [] || (j == |ds| - 1 && remain > 0))
      || (remain == 0 && forall j :: l <= j < |ds| ==> ds[j] == [])
    }

    /** The same if the pointer led to the last chunk with data. */
    static ghost predicate SpillsWell(ds: seq<seq<Byte>>, l: nat, remain: nat) {
      l + 1 >= |ds| || if remain == 0 then ds[l] == [] else ds[l] != [] && l + 2 == |ds|
    }

    /** What a part of the bytes in the last piece means for the victims. */
    static lemma Spilled(ds: seq<seq<Byte>>, l: nat, part: seq<Byte>)
      requires ds != [] && IsPointed(ds, l)
      ensures var es := ds[|ds| - 1 := ds[|ds| - 1] + part];
              && (IsRun(es, l) <==> StaysRun(ds, l, |part|))
              && (IsRun(es, l) && (IsFilled(es, l) || es[l] == []) <==> Overflows(ds, l, |part|))
      ensures part == [] ==> ds[|ds| - 1 := ds[|ds| - 1] + part] == ds
    {
      var m := |ds| - 1;
      var es := ds[m := ds[m] + part];
      assert es[m] == ds[m] + part && ds[m] + [] == ds[m] && forall j :: 0 <= j < m ==> es[j] == ds[j];
    }

    static lemma SettledLast(ds: seq<seq<Byte>>, l: nat, remain: nat)
      requires ds != [] && IsPointed(ds, l)
      ensures IsLastWithData(ds, l) ==> (Overflows(ds, l, remain) <==> SpillsWell(ds, l, remain))
      ensures IsLastWithData(ds, l) && IsSettled(ds) ==> l + 1 == |ds| && SpillsWell(ds, l, remain)
    {
      LooseIs(ds, l);
      assert l + 1 < |ds| && IsLastWithData(ds, l) ==> ds[l + 1] == [];
    }

    /** evbuffer_add. A failed call leaves the bytes and the chunks as they were. A call on a queue that has empty chunks
        behind its data may leave `lastWithDatap` behind, or fail an assertion. */
    method Add(data: seq<Byte>, canAlloc: bool) returns (result: int, aborted: bool)
      requires Loose()
      modifies this, chains, set c | c in chains :: c.buffer
      ensures freezeStart == old(freezeStart) && freezeEnd == old(freezeEnd)
      ensures result == if old(CanAdd(|data|, canAlloc)) then 0 else -1
      ensures aborted <==> old(Aborts(|data|, canAlloc))
      ensures result == -1 ==> datas == old(datas) && lwd == old(lwd)
      ensures !aborted ==> Loose() && forall c :: c in chains ==> c in old(chains) || (fresh(c) && fresh(c.buffer))
      ensures !aborted && old(IsLoose(datas, lwd)) ==> IsLoose(datas, lwd)
      ensures result == 0 && !aborted ==> Contents() == old(Contents()) + data
      ensures result == 0 && old(Valid()) ==> (!aborted && Valid() <==> old(PointerKept(|data|)))
      ensures result == 0 && !old(Valid()) ==> (!aborted && Valid() <==> old(PointerMended(|data|)))
      ensures old(Valid() && Settled()) ==> !aborted && Valid() && Settled()
      ensures old(chains) == [] && result == 0 ==> |chains| == 1
      ensures old(chains) == [] && result == 0 && |data| <= MIN_BUFFER_SIZE - CHAIN_SIZE ==>
                last != null && last.buffer.Length == MIN_BUFFER_SIZE - CHAIN_SIZE
    {
      hide Concat, Linked, Holding, IsLastWithData, IsLoose, IsPointed, IsSettled, Distinct, Segment, Chain.Data,
           RefTo, SpillsWell, Overflows, StaysRun;
      result, aborted := -1, false;
      Loosened();
      if freezeEnd {
        return;
      }
      if |data| > SIZE_MAX - totalLen {
        return;
      }
      if last == null {
        NoChains();
        var chain := ChainNew(|data|, canAlloc);
        if chain == null {
          return;
        }
        aborted := AddFirst(chain);
        Loosened();
        LooseIs(datas, lwd);
      }
      LastSound();
      assert last in chains;
      if |data| <= last.SpaceLen() || last.ShouldRealign(|data|) {
        AddInPlace(data);
        return 0, false;
      }
      var ok;
      ok, aborted := AddChunk(data, canAlloc);
      result := if ok then 0 else -1;
    }

    /** The first chunk of all. */
    method AddFirst(chain: Chain) returns (aborted: bool)
      requires Valid() && last == null && IsForeign(chain) && chain.next == null && IsSound(chain) && chain.off == 0
      modifies this`first, this`last, this`lastWithDatap, this`totalLen, this`chains, this`datas, this`lwd
      ensures !aborted && Valid() && Settled() && last == chain && chains == [chain] && lwd == 0 && |datas| == 1
      ensures Contents() == old(Contents()) == []
    {
      Loosened();
      NoChains();
      aborted := ChainInsert(chain);
      assert chains == [chain];
      Loosened();
    }

    /** How many bytes fit before the data of the first chunk; an empty chunk counts as empty in front. */
    ghost function FrontRoom(): nat
      requires first != null ==> first.InBounds()
      reads `first, first
    {
      if first == null then 0 else if first.off == 0 then first.buffer.Length else first.misalign
    }

    lemma FirstSound()
      requires Valid() && first != null
      ensures chains != [] && At(first, 0)
      ensures IsSound(first) && Holding(chains, datas) && Distinct(chains)
      ensures |datas[0]| == first.off
    {
    }

    /** Treats an empty first chunk as empty in front instead of behind. */
    method OpenFront()
      requires Valid() && first != null
      modifies first`misalign
      ensures Valid() && IsSound(first) && first.misalign == old(FrontRoom())
      ensures FrontRoom() == old(FrontRoom())
      ensures first.off == 0 ==> first.misalign > 0
    {
      if first.off == 0 {
        first.misalign := first.buffer.Length;
        assert first.Data() == datas[0];
      }
    }

    /** Prepends to the data of the first chunk, which has room in front. */
    method PrependToFirst(src: seq<Byte>)
      requires Valid() && first != null && |src| <= first.misalign
      modifies this`datas, this`totalLen, first`misalign, first`off, first.buffer
      ensures Valid() && Contents() == src + old(Contents())
      ensures old(Settled()) ==> Settled()
      ensures first.off == old(first.off) + |src| && first.misalign == old(first.misalign) - |src|
    {
      hide Concat, Segment, Distinct, Holding, IsLastWithData, IsSettled, Chain.Data;
      FirstSound();
      ExtendFirst(datas, lwd, src);
      WriteFront(first, 0, src);
      totalLen := totalLen + |src|;
    }

    /** Makes `tmp` the first chunk, and keeps `lastWithDatap` on the chunk that it led to. */
    method LinkFirst(tmp: Chain)
      requires Linked() && first != null
      requires IsForeign(tmp)
      modifies `first, `lastWithDatap, `chains, tmp`next
      ensures chains == [tmp] + old(chains) && Linked()
      ensures lastWithDatap == if old(lastWithDatap) == FirstRef then NextRef(tmp) else old(lastWithDatap)
    {
      tmp.next := first;
      first := tmp;
      if lastWithDatap == FirstRef {
        lastWithDatap := NextRef(tmp);
      }
      chains := [tmp] + chains;
    }

    /** Puts a free chunk before a first chunk that holds data. */
    method PushFront(tmp: Chain)
      requires Valid() && first != null && first.off > 0
      requires IsForeign(tmp) && IsSound(tmp)
      modifies `first, `lastWithDatap, `totalLen, `chains, `datas, `lwd, tmp`next
      ensures Valid() && Contents() == tmp.Data() + old(Contents())
      ensures forall c :: c in chains ==> c in old(chains) || c == tmp
      ensures tmp.off > 0 && old(Settled()) ==> Settled()
    {
      hide Concat, IsLastWithData, IsSettled, Chain.Data, Holding, Segment, Distinct;
      FirstSound();
      PushPiece(datas, lwd, tmp.Data());
      HoldingPush(chains, datas, tmp);
      LinkFirst(tmp);
      datas, lwd := [tmp.Data()] + datas, lwd + 1;
      totalLen := totalLen + tmp.off;
    }

    /** Puts bytes into a new first chunk. */
    method PrependNew(rest: seq<Byte>, canAlloc: bool) returns (ok: bool)
      requires Valid() && first != null && first.off > 0 && rest != []
      modifies `first, `lastWithDatap, `totalLen, `chains, `datas, `lwd
      ensures Valid() && (old(Settled()) ==> Settled())
      ensures forall c :: c in chains ==> c in old(chains) || (fresh(c) && fresh(c.buffer))
      ensures ok == (canAlloc && |rest| <= CHAIN_MAX - CHAIN_SIZE)
      ensures Contents() == (if ok then rest else []) + old(Contents())
    {
      hide Concat, Linked, Holding, IsLastWithData, IsSettled, Distinct, Segment, Chain.Data;
      var tmp := ChainNew(|rest|, canAlloc);
      if tmp == null {
        assert [] + Contents() == Contents();
        return false;
      }
      tmp.FillBack(rest);
      PushFront(tmp);
      ok := true;
    }

    /** evbuffer_prepend. When no chunk can be had for what does not fit into the first one, the part
        that did fit stays in the queue. */
    method Prepend(data: seq<Byte>, canAlloc: bool) returns (result: int)
      requires Valid()
      modifies this, chains, set c | c in chains :: c.buffer
      ensures Valid() && (old(Settled()) ==> Settled())
      ensures freezeStart == old(freezeStart) && freezeEnd == old(freezeEnd)
      ensures forall c :: c in chains ==> c in old(chains) || (fresh(c) && fresh(c.buffer))
      ensures var rejected := freezeStart || |data| > SIZE_MAX - old(totalLen);
              var room := old(FrontRoom());
              && (result == 0 || result == -1)
              && (result == 0 <==>
                  && !rejected
                  && ((old(first) != null && |data| <= room)
                      || (canAlloc && |data| - room <= CHAIN_MAX - CHAIN_SIZE)))
              && Contents() == (if result == 0 then data
                                else if rejected then []
                                else data[|data| - room..]) + old(Contents())
    {
      hide Concat, Linked, Holding, IsLastWithData, IsSettled, Distinct, Segment, Chain.Data;
      result := -1;
      if freezeStart {
        return;
      }
      if |data| > SIZE_MAX - totalLen {
        return;
      }
      var chain := first;
      if chain == null {
        var newChain := ChainNew(|data|, canAlloc);
        if newChain == null {
          return;
        }
        chain := newChain;
        Loosened();
        NoChains();
        var _ := ChainInsert(chain);
      }
      Loosened();
      FirstSound();
      OpenFront();
      var rest := data;
      if chain.misalign >= |data| {
        PrependToFirst(data);
        return 0;
      } else if chain.misalign > 0 {
        var cut := |data| - chain.misalign;
        rest := data[..cut];
        PrependToFirst(data[cut..]);
      }
      var ok := PrependNew(rest, canAlloc);
      result := if ok then 0 else -1;
    }

    /** ZERO_CHAIN. */
    method ZeroChain()
      modifies `first, `last, `lastWithDatap, `totalLen, `chains, `datas, `lwd
      ensures Valid() && Settled() && Contents() == [] && chains == []
    {
      first, last, lastWithDatap, totalLen := null, null, FirstRef, 0;
      chains, datas, lwd := [], [], 0;
    }

    /** Frees the chunks that `len` drained bytes use up. Until `first` is moved, a `lastWithDatap` that led
        out of a freed chunk is the address of `first`. */
    method FreeDrained(len: nat) returns (chain: Chain, remaining: nat, ghost i: nat)
      requires Core() && len < |Contents()|
      modifies `lastWithDatap
      ensures i <= lwd && At(chain, i)
      ensures remaining < chain.off == |datas[i]| && |Concat(datas[..i])| + remaining == len
      ensures lastWithDatap == if i == lwd then FirstRef else RefTo(lwd)
    {
      hide Concat;
      ConcatNone<Byte>();
      TotalUpTo(datas, lwd);
      assert datas[..0] == [];
      chain, remaining, i := first, len, 0;
      while remaining >= chain.off
        invariant i <= lwd && At(chain, i)
        invariant |Concat(datas[..i])| + remaining == len
        invariant lastWithDatap == if i == lwd then FirstRef else RefTo(lwd)
        decreases lwd - i
      {
        ConcatSplit(datas, i);
        assert i < lwd && chains[i].next == chains[i + 1];
        var next := chain.next;
        remaining := remaining - chain.off;
        if chain == Deref(lastWithDatap) {
          // the source resets lastWithDatap here; fewer bytes than the queue holds never free its last chunk with data
          assert false;
        }
        if NextRef(chain) == lastWithDatap {
          lastWithDatap := FirstRef;
        }
        chain, i := next, i + 1;
      }
    }

    /** Makes chunk `i` the first one. */
    method CutFront(chain: Chain, ghost i: nat)
      requires Linked() && At(chain, i)
      modifies `first, `chains
      ensures Linked() && chains == old(chains)[i..]
    {
      first := chain;
      chains := chains[i..];
    }

    /** evbuffer_drain. */
    method Drain(len: nat) returns (result: int)
      requires Valid()
      modifies this, chains
      ensures Valid() && (old(Settled()) ==> Settled())
      ensures freezeStart == old(freezeStart) && freezeEnd == old(freezeEnd)
      ensures forall c :: c in chains ==> c in old(chains)
      ensures result == if freezeStart && old(totalLen) > 0 then -1 else 0
      ensures Contents() == if result == 0 then old(Contents())[Min(len, old(totalLen))..] else old(Contents())
    {
      hide Concat, Linked, Holding, IsLastWithData, IsSettled, Distinct, Segment, IsSound, Chain.Data, Chain.InBounds;
      if totalLen == 0 {
        return 0;
      }
      if freezeStart {
        return -1;
      }
      result := 0;
      if len >= totalLen {
        ZeroChain();
      } else {
        DrainPart(len);
      }
    }

    /** Draining where some bytes stay. */
    method DrainPart(len: nat)
      requires Valid() && len < totalLen
      modifies `first, `lastWithDatap, `totalLen, `chains, `datas, `lwd, chains
      ensures Valid() && (old(Settled()) ==> Settled())
      ensures forall c :: c in chains ==> c in old(chains)
      ensures Contents() == old(Contents())[len..]
    {
      hide Concat, Linked, Holding, IsLastWithData, IsSettled, Distinct, Segment, IsSound, Chain.Data, Chain.InBounds;
      NotEmpty();
      ghost var ds, l := datas, lwd;
      totalLen := totalLen - len;
      var chain, remaining, i := FreeDrained(len);
      DropPieces(ds, l, i, remaining);
      HoldingDrop(chains, datas, i);
      CutFront(chain, i);
      datas, lwd := datas[i..], lwd - i;
      assert Distinct(chains) by { Unshared(); }
      DropFront(chain, 0, remaining);
    }

    /** Copies the data of the first chunks, `left` bytes in all. */
    method CopyChunks(dataOut: array<Byte>, datlen: nat)
      requires Valid() && dataOut !in Repr()
      requires datlen <= totalLen && datlen <= dataOut.Length
      modifies dataOut
      ensures Valid() && dataOut[..] == Overlay(old(dataOut[..]), 0, Contents()[..datlen])
    {
      hide Concat, Linked, Holding, IsLastWithData, Segment, Distinct, Overlay, Chain.Data;
      var chain, at: nat, left: nat := first, 0, datlen;
      ghost var i, was := 0, dataOut[..];
      StartAt();
      OverlayNone(was);
      while left > 0 && left >= chain.off
        invariant at + left == datlen && i <= |chains|
        invariant left > 0 ==> chain != null && At(chain, i)
        invariant at <= |Contents()| && Concat(datas[..i]) == Contents()[..at]
        invariant dataOut[..] == Overlay(was, 0, Contents()[..at])
        decreases |chains| - i
      {
        StepAt(chain, i);
        MemCpy(dataOut, at, chain.buffer[chain.misalign..chain.misalign + chain.off]);
        OverlayTwice(was, Contents()[..at], datas[i]);
        at, left := at + chain.off, left - chain.off;
        chain, i := chain.next, i + 1;
      }
      if left > 0 {
        StepAt(chain, i);
        var src := chain.buffer[chain.misalign..chain.misalign + left];
        assert src == datas[i][..left];
        PrefixGrows(Contents(), at, datas[i], left);
        MemCpy(dataOut, at, src);
        OverlayTwice(was, Contents()[..at], datas[i][..left]);
      }
    }

    lemma PrefixGrows(all: seq<Byte>, at: nat, d: seq<Byte>, left: nat)
      requires at + |d| <= |all| && all[..at + |d|] == all[..at] + d && left <= |d|
      ensures all[..at] + d[..left] == all[..at + left]
    {
      assert all[..at + |d|][..at + left] == (all[..at] + d)[..at + left];
    }

    lemma StartAt()
      requires Valid()
      ensures totalLen > 0 ==> first != null && At(first, 0)
      ensures Concat(datas[..0]) == []
    {
    }

    /** What chunk `i` adds to the contents, and what comes after it. */
    lemma StepAt(chain: Chain, i: nat)
      requires Valid() && At(chain, i)
      ensures IsSound(chain) && chain.Data() == datas[i]
      ensures datas[i] == chain.buffer[chain.misalign..chain.misalign + chain.off]
      ensures chain.buffer in Repr()
      ensures |Concat(datas[..i])| + |datas[i]| <= |Contents()|
      ensures Concat(datas[..i + 1]) == Concat(datas[..i]) + datas[i]
              == Contents()[..|Concat(datas[..i])| + |datas[i]|]
      ensures if i + 1 < |chains| then chain.next != null && At(chain.next, i + 1)
              else chain.next == null && |Concat(datas[..i])| + |datas[i]| == |Contents()|
    {
      ConcatSplit(datas, i);
      ConcatCut(datas, i + 1);
      assert i + 1 == |datas| ==> datas[..i + 1] == datas;
    }

    /** evbuffer_copyout: copies the first bytes out and leaves the queue alone. */
    method CopyOut(dataOut: array<Byte>, datlen: nat) returns (result: int)
      requires Valid() && dataOut !in Repr()
      requires datlen <= dataOut.Length
      modifies dataOut
      ensures Valid()
      ensures var n := Min(datlen, totalLen);
              && result == (if n > 0 && freezeStart then -1 else n)
              && dataOut[..] == Overlay(old(dataOut[..]), 0, if result > 0 then Contents()[..n] else [])
    {
      hide Concat, Linked, Holding, IsLastWithData, Segment, Distinct, Overlay, Core;
      OverlayNone(dataOut[..]);
      var n := datlen;
      if n >= totalLen {
        n := totalLen;
      }
      if n == 0 {
        return 0;
      }
      if freezeStart {
        return -1;
      }
      CopyChunks(dataOut, n);
      result := n;
    }

    /** evbuffer_remove: reads bytes and drains them; the count comes back as an `int`. */
    method Remove(dataOut: array<Byte>, datlen: nat) returns (result: int)
      requires Valid() && dataOut !in Repr()
      requires datlen <= dataOut.Length
      modifies this, chains, dataOut
      ensures Valid() && (old(Settled()) ==> Settled())
      ensures freezeStart == old(freezeStart) && freezeEnd == old(freezeEnd)
      ensures forall c :: c in chains ==> c in old(chains)
      ensures var n := Min(datlen, old(totalLen));
              var ok := n == 0 || !freezeStart;
              && result == (if ok then ToInt(n) else -1)
              && Contents() == (if ok then old(Contents())[n..] else old(Contents()))
              && dataOut[..] == Overlay(old(dataOut[..]), 0, if ok then old(Contents())[..n] else [])
    {
      hide Concat, Linked, Holding, IsLastWithData, IsSettled, Segment, Distinct, Overlay, Objects;
      var n := CopyOut(dataOut, datlen);
      if n > 0 {
        var r := Drain(n);
        if r < 0 {
          n := -1;
        }
      }
      result := ToInt(n);
    }

    /** advance_last_with_data: on to the last of the chunks with data that follow one after the other. */
    method AdvanceLastWithData()
      requires Linked() && Holding(chains, datas) && lwd <= |chains| && lastWithDatap == RefTo(lwd)
      requires lwd == |chains| ==> chains == []
      modifies `lastWithDatap, `lwd
      ensures old(lwd) <= lwd <= |chains| && lastWithDatap == RefTo(lwd) && (chains == [] ==> lwd == 0)
      ensures chains != [] ==> lwd < |chains| && (lwd + 1 < |chains| ==> datas[lwd + 1] == [])
      ensures forall j :: old(lwd) < j <= lwd && j < |datas| ==> datas[j] != []
    {
      hide Distinct, IsSound;
      if Deref(lastWithDatap) == null {
        return;
      }
      while Deref(lastWithDatap).next != null && Deref(lastWithDatap).next.off > 0
        invariant old(lwd) <= lwd < |chains| && lastWithDatap == RefTo(lwd) && Deref(lastWithDatap) == chains[lwd]
        invariant Deref(lastWithDatap).next == if lwd + 1 < |chains| then chains[lwd + 1] else null
        invariant Linked() && forall j :: old(lwd) < j <= lwd ==> datas[j] != []
        decreases |chains| - lwd
      {
        assert chains[lwd + 1].off == |datas[lwd + 1]|;
        lastWithDatap := NextRef(Deref(lastWithDatap));
        lwd := lwd + 1;
      }
      assert lwd + 1 < |chains| ==> chains[lwd + 1].off == |datas[lwd + 1]|;
    }
  }
}
