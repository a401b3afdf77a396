/** Searching a queue chunk by chunk: evbuffer_ptr_set, evbuffer_search_range, evbuffer_search_eol, evbuffer_readln. */
module EvBufferSearch {
  import opened Bytes
  import opened EvBuffers

  /** A position in a queue: byte number `pos`, which is byte `posInChain` of `chain`. */
  datatype Ptr = Ptr(pos: int, chain: Chain?, posInChain: nat)

  const NOWHERE := Ptr(-1, null, 0)

  ghost function OffsetOf(buf: EvBuffer, k: nat): nat
    requires k <= |buf.datas|
    reads buf`datas
  {
    |Concat(buf.datas[..k])|
  }

  ghost predicate IsIn(buf: EvBuffer, p: Ptr, k: nat)
    reads buf`chains, buf`datas
  {
    && k < |buf.chains| == |buf.datas| && p.chain == buf.chains[k]
    && p.posInChain <= |buf.datas[k]| && p.pos == OffsetOf(buf, k) + p.posInChain
  }

  /** Chunk and offset denote the same byte as the position; past the last chunk there is only the end. */
  ghost predicate Denotes(buf: EvBuffer, p: Ptr)
    reads buf`chains, buf`datas
  {
    if p.chain == null then p.pos == |buf.Contents()| else exists k: nat :: IsIn(buf, p, k)
  }

  lemma MiddleOf(a: seq<Byte>, m: seq<Byte>, b: seq<Byte>)
    ensures (a + m + b)[|a|..|a| + |m|] == m
    ensures forall i :: 0 <= i < |m| ==> (a + m + b)[|a| + i] == m[i]
  {
  }

  /** Where chunk `k` lies in the contents. */
  lemma ChunkWindow(buf: EvBuffer, k: nat)
    requires buf.Valid() && k < |buf.chains|
    ensures |buf.chains| == |buf.datas|
    ensures var c, o, n := buf.chains[k], OffsetOf(buf, k), |buf.datas[k]|;
            && c.InBounds() && c.off == n && c.buffer[c.misalign..c.misalign + c.off] == buf.datas[k]
            && o + n <= |buf.Contents()| == buf.totalLen && buf.Contents()[o..o + n] == buf.datas[k]
            && (forall i :: 0 <= i < n ==> buf.Contents()[o + i] == buf.datas[k][i] == c.buffer[c.misalign + i])
            && OffsetOf(buf, k + 1) == o + n
            && c.next == (if k + 1 < |buf.chains| then buf.chains[k + 1] else null)
            && (k + 1 == |buf.chains| ==> o + n == |buf.Contents()|)
  {
    hide Concat, OffsetOf, EvBuffer.Valid, EvBuffer.Contents;
    ChunkHeld(buf, k);
    PieceWindow(buf, k);
  }

  /** What chunk `k` holds. */
  lemma ChunkHeld(buf: EvBuffer, k: nat)
    requires buf.Valid() && k < |buf.chains|
    ensures |buf.chains| == |buf.datas|
    ensures var c, n := buf.chains[k], |buf.datas[k]|;
            && c.InBounds() && c.off == n && c.buffer[c.misalign..c.misalign + c.off] == buf.datas[k]
            && (forall i :: 0 <= i < n ==> buf.datas[k][i] == c.buffer[c.misalign + i])
            && c.next == (if k + 1 < |buf.chains| then buf.chains[k + 1] else null)
  {
    hide Concat;
    var c := buf.chains[k];
    assert c.Data() == buf.datas[k];
    forall i | 0 <= i < |buf.datas[k]|
      ensures buf.datas[k][i] == c.buffer[c.misalign + i]
    {
      assert c.Data()[i] == c.buffer[c.misalign + i];
    }
  }

  /** Where piece `k` lies in the contents. */
  lemma PieceWindow(buf: EvBuffer, k: nat)
    requires buf.Valid() && k < |buf.datas|
    ensures var o, n := OffsetOf(buf, k), |buf.datas[k]|;
            && o + n <= |buf.Contents()| == buf.totalLen && buf.Contents()[o..o + n] == buf.datas[k]
            && (forall i :: 0 <= i < n ==> buf.Contents()[o + i] == buf.datas[k][i])
            && OffsetOf(buf, k + 1) == o + n
            && (k + 1 == |buf.datas| ==> o + n == |buf.Contents()|)
  {
    hide Concat, EvBuffer.Core;
    ConcatSplit(buf.datas, k);
    MiddleOf(Concat(buf.datas[..k]), buf.datas[k], Concat(buf.datas[k + 1..]));
    assert k + 1 == |buf.datas| ==> buf.datas[..k + 1] == buf.datas;
  }

  lemma ChunkSlice(buf: EvBuffer, p: Ptr, k: nat, n: nat)
    requires buf.Valid() && IsIn(buf, p, k)
    requires p.posInChain + n <= |buf.datas[k]|
    ensures var c := buf.chains[k];
            && c.misalign + p.posInChain + n <= c.buffer.Length && 0 <= p.pos <= p.pos + n <= |buf.Contents()|
            && c.buffer[c.misalign + p.posInChain..c.misalign + p.posInChain + n] == buf.Contents()[p.pos..p.pos + n]
  {
    hide Concat, EvBuffer.Core;
    ChunkWindow(buf, k);
    var c := buf.chains[k];
    SubSlice(buf.Contents(), OffsetOf(buf, k), buf.datas[k], p.posInChain, n);
    SubSlice(c.buffer[..], c.misalign, buf.datas[k], p.posInChain, n);
  }

  lemma {:induction false} SubSlice(s: seq<Byte>, o: nat, d: seq<Byte>, x: nat, n: nat)
    requires o + |d| <= |s| && s[o..o + |d|] == d && x + n <= |d|
    ensures s[o + x..o + x + n] == d[x..x + n]
  {
    var t, u, v := s[o..o + |d|], s[o + x..o + x + n], d[x..x + n];
    forall i | 0 <= i < |u|
      ensures u[i] == v[i]
    {
      assert t[x + i] == s[o + x + i];
    }
  }

  /** The start of a queue. */
  function Start(buf: EvBuffer): Ptr
    reads buf`first
  {
    Ptr(0, buf.first, 0)
  }

  lemma StartDenotes(buf: EvBuffer)
    requires buf.Valid()
    ensures Denotes(buf, Start(buf))
  {
    ConcatNone<Byte>();
    if buf.first != null {
      assert buf.datas[..0] == [];
      assert IsIn(buf, Start(buf), 0);
    }
  }

  /** The place after the data of chunk `k`, or before the data of the next chunk. */
  lemma NextDenotes(buf: EvBuffer, k: nat, p: Ptr)
    requires buf.Valid() && k < |buf.chains|
    requires p == Ptr(OffsetOf(buf, k) + buf.chains[k].off, buf.chains[k].next, 0)
    ensures Denotes(buf, p) && (p.chain != null ==> IsIn(buf, p, k + 1))
  {
    ChunkWindow(buf, k);
    if p.chain != null {
      assert IsIn(buf, p, k + 1);
    }
  }

  /** memcmp: the difference at the first byte where the two differ. */
  function MemCmp(a: seq<Byte>, b: seq<Byte>): (r: int)
    requires |a| == |b|
    ensures r == 0 <==> a == b
  {
    if a == [] then 0 else if a[0] != b[0] then a[0] - b[0] else MemCmp(a[1..], b[1..])
  }

  lemma {:induction false} MemCmpCat(a: seq<Byte>, a': seq<Byte>, b: seq<Byte>, b': seq<Byte>)
    requires |a| == |b| && |a'| == |b'|
    ensures MemCmp(a + a', b + b') == if MemCmp(a, b) != 0 then MemCmp(a, b) else MemCmp(a', b')
  {
    if a == [] {
      assert a + a' == a' && b + b' == b';
    } else {
      assert (a + a')[1..] == a[1..] + a' && (b + b')[1..] == b[1..] + b';
      MemCmpCat(a[1..], a', b[1..], b');
    }
  }

  /** memchr: the first place of `c` in `s`, or -1. */
  function MemChr(s: seq<Byte>, c: Byte): (r: int)
    ensures -1 <= r < |s|
    ensures r >= 0 ==> s[r] == c
    ensures forall i :: 0 <= i < (if r >= 0 then r else |s|) ==> s[i] != c
  {
    if s == [] then -1
    else if s[0] == c then 0
    else
      var r := MemChr(s[1..], c);
      if r < 0 then -1 else r + 1
  }

  /** evbuffer_ptr_set with EVBUFFER_PTR_SET. */
  method PtrSet(buf: EvBuffer, position: nat) returns (r: int, p: Ptr)
    requires buf.Valid()
    ensures r == if position < buf.totalLen then 0 else -1
    ensures r == 0 ==> p.pos == position && p.chain != null && p.posInChain < p.chain.off && Denotes(buf, p)
    ensures r == -1 ==> p.pos == -1 && p.chain == null
  {
    StartDenotes(buf);
    p := Start(buf);
    r, p := Advance(buf, p, position);
  }

  /** evbuffer_ptr_set with EVBUFFER_PTR_ADD. */
  method PtrAdd(buf: EvBuffer, from: Ptr, position: nat) returns (r: int, p: Ptr)
    requires buf.Valid() && (from.pos < 0 || Denotes(buf, from))
    ensures from.pos < 0 || SIZE_MAX - position < from.pos ==> r == -1 && p == from
    ensures from.pos >= 0 && SIZE_MAX - position >= from.pos ==>
              && r == (if from.pos + position < buf.totalLen then 0 else -1)
              && (r == 0 ==> p.pos == from.pos + position && p.chain != null && p.posInChain < p.chain.off
                             && Denotes(buf, p))
              && (r == -1 ==> p.pos == -1 && p.chain == null)
  {
    if from.pos < 0 || SIZE_MAX - position < from.pos {
      return -1, from;
    }
    r, p := Advance(buf, from, position);
  }

  /** Walks `distance` bytes on from `from`, over as many chunks as it takes. */
  method Advance(buf: EvBuffer, from: Ptr, distance: nat) returns (r: int, p: Ptr)
    requires buf.Valid() && Denotes(buf, from)
    ensures r == if from.pos + distance < buf.totalLen then 0 else -1
    ensures r == 0 ==> p.pos == from.pos + distance && p.chain != null && p.posInChain < p.chain.off && Denotes(buf, p)
    ensures r == -1 ==> p.pos == -1 && p.chain == null
  {
    hide Concat, EvBuffer.Core, EvBuffer.Linked;
    var chain, left: nat, position: nat := from.chain, distance, from.posInChain;
    ghost var at, k: nat := from.pos, 0;
    if chain != null {
      k :| IsIn(buf, from, k);
      ChunkWindow(buf, k);
    }
    while chain != null && position + left >= chain.off
      invariant at + left == from.pos + distance
      invariant chain != null ==>
                  IsIn(buf, Ptr(at, chain, position), k) && chain.off == |buf.datas[k]|
      invariant chain == null ==> at == buf.totalLen
      decreases if chain == null then -1 else |buf.chains| - k
    {
      ChunkWindow(buf, k);
      NextDenotes(buf, k, Ptr(at + (chain.off - position), chain.next, 0));
      at := at + (chain.off - position);
      left := left - (chain.off - position);
      chain, position, k := chain.next, 0, k + 1;
      if chain != null {
        ChunkWindow(buf, k);
      }
    }
    if chain != null {
      ChunkWindow(buf, k);
      p := Ptr(from.pos + distance, chain, position + left);
      assert IsIn(buf, p, k);
      r := 0;
    } else {
      p := Ptr(-1, null, from.posInChain);
      r := -1;
    }
  }

  /** `w` stands at place `i` of `s`. */
  ghost predicate Occurs(s: seq<Byte>, w: seq<Byte>, i: int) {
    0 <= i <= i + |w| <= |s| && s[i..i + |w|] == w
  }

  /** evbuffer_ptr_memcmp: memcmp of the bytes from `p` on with `mem`; -1 when there are too few. */
  method PtrMemCmp(buf: EvBuffer, p: Ptr, mem: seq<Byte>) returns (r: int)
    requires buf.Valid() && (p.pos < 0 || Denotes(buf, p))
    ensures if p.pos < 0 || SIZE_MAX - |mem| < p.pos || p.pos + |mem| > buf.totalLen then r == -1
            else p.pos + |mem| <= |buf.Contents()| && r == MemCmp(buf.Contents()[p.pos..p.pos + |mem|], mem)
  {
    hide Concat, EvBuffer.Core, EvBuffer.Linked, MemCmp;
    if p.pos < 0 || SIZE_MAX - |mem| < p.pos || p.pos + |mem| > buf.totalLen {
      return -1;
    }
    ghost var s := buf.Contents();
    var chain, position: nat, done: nat := p.chain, p.posInChain, 0;
    ghost var k: nat := 0;
    if chain != null {
      k :| IsIn(buf, p, k);
      ChunkWindow(buf, k);
    }
    while done < |mem| && chain != null
      invariant done <= |mem| && s[p.pos..p.pos + done] == mem[..done]
      invariant chain != null && done < |mem| ==>
                  IsIn(buf, Ptr(p.pos + done, chain, position), k) && chain.off == |buf.datas[k]|
      invariant chain == null && done < |mem| ==> p.pos + done == |s|
      decreases if chain == null then -1 else |buf.chains| - k
    {
      var n := if |mem| - done + position > chain.off then chain.off - position else |mem| - done;
      ChunkSlice(buf, Ptr(p.pos + done, chain, position), k, n);
      r := MemCmp(chain.buffer[chain.misalign + position..chain.misalign + position + n], mem[done..done + n]);
      Compared(s, p.pos, mem, done, n);
      if r != 0 {
        return r;
      }
      if n == chain.off - position {
        NextDenotes(buf, k, Ptr(p.pos + done + n, chain.next, 0));
        NextChunk(buf, k);
      }
      done, position, chain, k := done + n, 0, chain.next, k + 1;
    }
    assert mem[..|mem|] == mem;
    r := 0;
  }

  lemma NextChunk(buf: EvBuffer, k: nat)
    requires buf.Valid() && k < |buf.chains|
    ensures buf.chains[k].next != null ==> k + 1 < |buf.chains| == |buf.datas| && buf.chains[k].next.off == |buf.datas[k + 1]|
  {
    ChunkWindow(buf, k);
    if k + 1 < |buf.chains| {
      ChunkWindow(buf, k + 1);
    }
  }

  /** Comparing the next `n` bytes after `done` equal ones. */
  lemma {:induction false} Compared(s: seq<Byte>, pos: nat, mem: seq<Byte>, done: nat, n: nat)
    requires done + n <= |mem| && pos + |mem| <= |s| && s[pos..pos + done] == mem[..done]
    ensures var r := MemCmp(s[pos + done..pos + done + n], mem[done..done + n]);
            && (r != 0 ==> MemCmp(s[pos..pos + |mem|], mem) == r)
            && (r == 0 ==> s[pos..pos + done + n] == mem[..done + n])
            && (r == 0 && done + n == |mem| ==> MemCmp(s[pos..pos + |mem|], mem) == 0)
  {
    var a, b, c := mem[..done], mem[done..done + n], mem[done + n..];
    var y, z := s[pos + done..pos + done + n], s[pos + done + n..pos + |mem|];
    assert mem == a + (b + c) && s[pos..pos + |mem|] == a + (y + z);
    MemCmpCat(a, y + z, a, b + c);
    MemCmpCat(y, z, b, c);
    assert s[pos..pos + done + n] == a + y && mem[..done + n] == a + b;
  }

  /** `i` is the first place of `w` at or after `from`. */
  ghost predicate FirstAt(s: seq<Byte>, w: seq<Byte>, from: int, i: int) {
    from <= i && Occurs(s, w, i) && forall j :: from <= j < i ==> !Occurs(s, w, j)
  }

  /** The scan found nothing that ends by `limit`. */
  ghost predicate NoneBy(s: seq<Byte>, w: seq<Byte>, from: int, limit: int) {
    forall i :: FirstAt(s, w, from, i) ==> limit < i + |w|
  }

  lemma NoneBefore(s: seq<Byte>, w: seq<Byte>, from: int, at: int, limit: int)
    requires w != [] && limit <= at && forall i :: from <= i < at ==> !Occurs(s, w, i)
    ensures NoneBy(s, w, from, limit)
  {
  }

  lemma FirstIsUnique(s: seq<Byte>, w: seq<Byte>, from: int, at: int, limit: int)
    requires FirstAt(s, w, from, at) && limit < at + |w|
    ensures NoneBy(s, w, from, limit)
  {
    forall i | FirstAt(s, w, from, i)
      ensures i == at
    {
      assert i < at ==> !Occurs(s, w, i);
    }
  }

  lemma StartsWithFirst(s: seq<Byte>, w: seq<Byte>, i: int)
    requires w != []
    ensures Occurs(s, w, i) ==> 0 <= i < |s| && s[i] == w[0]
  {
  }

  /** Where the first byte is missing, so is the word. */
  lemma NoFirstByte(buf: EvBuffer, p: Ptr, k: nat, w: seq<Byte>, n: nat)
    requires buf.Valid() && IsIn(buf, p, k) && w != [] && p.posInChain + n <= |buf.datas[k]|
    requires forall i :: p.pos <= i < p.pos + n && i < |buf.Contents()| ==> buf.Contents()[i] != w[0]
    ensures forall i :: p.pos <= i < p.pos + n ==> !Occurs(buf.Contents(), w, i)
  {
    forall i | p.pos <= i < p.pos + n
      ensures !Occurs(buf.Contents(), w, i)
    {
      StartsWithFirst(buf.Contents(), w, i);
    }
  }

  /** memchr over the rest of the chunk that `p` points into. */
  method FindInChunk(buf: EvBuffer, p: Ptr, ghost k: nat, c: Byte) returns (r: int)
    requires buf.Valid() && IsIn(buf, p, k) && p.chain != null
    ensures -1 <= r < |buf.datas[k]| - p.posInChain
    ensures p.chain.off == |buf.datas[k]|
    ensures forall i :: p.pos <= i < p.pos + (if r >= 0 then r else p.chain.off - p.posInChain) && i < |buf.Contents()| ==>
              buf.Contents()[i] != c
    ensures r >= 0 ==> p.pos + r < |buf.Contents()| && buf.Contents()[p.pos + r] == c
                       && IsIn(buf, Ptr(p.pos + r, p.chain, p.posInChain + r), k)
                       && Denotes(buf, Ptr(p.pos + r, p.chain, p.posInChain + r))
  {
    hide Concat, EvBuffer.Core;
    ChunkWindow(buf, k);
    ghost var n := |buf.datas[k]| - p.posInChain;
    ChunkSlice(buf, p, k, n);
    var chain := p.chain;
    ghost var s := buf.Contents()[p.pos..p.pos + n];
    r := MemChr(chain.buffer[chain.misalign + p.posInChain..chain.misalign + chain.off], c);
    assert forall i :: 0 <= i < n ==> s[i] == buf.Contents()[p.pos + i];
    forall i | p.pos <= i < p.pos + (if r >= 0 then r else n) && i < |buf.Contents()|
      ensures buf.Contents()[i] != c
    {
      assert s[i - p.pos] != c;
    }
    if r >= 0 {
      assert IsIn(buf, Ptr(p.pos + r, chain, p.posInChain + r), k);
    }
  }

  /** One byte on, into the next chunk if this one is used up. */
  function NextByte(p: Ptr): Ptr
    requires p.chain != null
    reads p.chain
  {
    if p.posInChain + 1 == p.chain.off then Ptr(p.pos + 1, p.chain.next, 0)
    else Ptr(p.pos + 1, p.chain, p.posInChain + 1)
  }

  lemma NextByteDenotes(buf: EvBuffer, p: Ptr, k: nat)
    requires buf.Valid() && IsIn(buf, p, k) && p.posInChain < |buf.datas[k]|
    ensures var q := NextByte(p);
            Denotes(buf, q) && (q.chain != null ==> IsIn(buf, q, if q.chain == p.chain then k else k + 1))
  {
    ChunkWindow(buf, k);
    if p.posInChain + 1 == p.chain.off {
      NextDenotes(buf, k, NextByte(p));
      if p.chain.next != null {
        NotSame(buf, k);
      }
    } else {
      assert IsIn(buf, NextByte(p), k);
    }
  }

  /** The start of the next chunk. */
  function NextChain(p: Ptr): Ptr
    requires p.chain != null
    reads p.chain
  {
    Ptr(p.pos + (p.chain.off - p.posInChain), p.chain.next, 0)
  }

  lemma NextChainDenotes(buf: EvBuffer, p: Ptr, k: nat)
    requires buf.Valid() && IsIn(buf, p, k)
    ensures var q := NextChain(p); p.pos <= q.pos && Denotes(buf, q) && (q.chain != null ==> IsIn(buf, q, k + 1))
  {
    ChunkWindow(buf, k);
    NextDenotes(buf, k, NextChain(p));
  }

  lemma NotSame(buf: EvBuffer, k: nat)
    requires buf.Valid() && k < |buf.chains| && buf.chains[k].next != null
    ensures buf.chains[k].next != buf.chains[k]
  {
    assert k + 1 < |buf.chains| && buf.chains[k].next == buf.chains[k + 1];
  }

  method Scan(buf: EvBuffer, what: seq<Byte>, from: Ptr, lastChain: Chain?, limit: nat) returns (p: Ptr)
    requires buf.Valid() && Denotes(buf, from) && what != [] && buf.totalLen <= SIZE_MAX
    requires lastChain != null ==> exists x: nat :: Denotes(buf, Ptr(limit, lastChain, x))
    ensures p.chain == null ==> p.pos == -1 && NoneBy(buf.Contents(), what, from.pos, limit)
    ensures p.chain != null ==>
              && FirstAt(buf.Contents(), what, from.pos, p.pos) && p.pos + |what| <= limit
              && Denotes(buf, p) && p.posInChain < p.chain.off
  {
    hide Concat, EvBuffer.Valid, EvBuffer.Contents, Denotes, IsIn, OffsetOf, Occurs, FirstAt, NoneBy, MemCmp;
    p := from;
    ghost var s := buf.Contents();
    ghost var k: nat := Locate(buf, p);
    while p.chain != null
      invariant Denotes(buf, p) && from.pos <= p.pos <= |s| == buf.totalLen
      invariant if p.chain == null then p.pos == |s| else IsIn(buf, p, k) && k < |buf.chains|
      invariant forall i :: from.pos <= i < p.pos ==> !Occurs(s, what, i)
      decreases |s| - p.pos, if p.chain == null then -1 else |buf.chains| - k
    {
      var r := FindInChunk(buf, p, k, what[0]);
      NoFirstByte(buf, p, k, what, if r >= 0 then r else p.chain.off - p.posInChain);
      if r >= 0 {
        p := Ptr(p.pos + r, p.chain, p.posInChain + r);
        var m := PtrMemCmp(buf, p, what);
        CmpOccurs(s, what, p.pos, m);
        if m == 0 {
          IntroFirst(s, what, from.pos, p.pos);
          if p.pos + |what| > limit {
            FirstIsUnique(s, what, from.pos, p.pos, limit);
            return Ptr(-1, null, p.posInChain);
          }
          return p;
        }
        NextByteDenotes(buf, p, k);
        var q := NextByte(p);
        k := if q.chain == p.chain then k else k + 1;
        p := q;
      } else {
        if p.chain == lastChain {
          LimitInChunk(buf, lastChain, limit, p, k);
          NoneBefore(s, what, from.pos, p.pos + (p.chain.off - p.posInChain), limit);
          return Ptr(-1, null, p.posInChain);
        }
        NextChainDenotes(buf, p, k);
        p := NextChain(p);
        k := k + 1;
      }
      Measure(buf, p, k);
    }
    NoneFrom(s, what, from.pos, limit);
    p := Ptr(-1, null, p.posInChain);
  }

  lemma Measure(buf: EvBuffer, p: Ptr, k: nat)
    requires buf.Valid() && Denotes(buf, p) && (p.chain != null ==> IsIn(buf, p, k))
    ensures 0 <= p.pos <= |buf.Contents()| == buf.totalLen
    ensures if p.chain == null then p.pos == buf.totalLen else k < |buf.chains|
  {
    if p.chain != null {
      ChunkWindow(buf, k);
    }
  }

  lemma Locate(buf: EvBuffer, p: Ptr) returns (k: nat)
    requires buf.Valid() && Denotes(buf, p)
    ensures p.chain != null ==> IsIn(buf, p, k)
    ensures 0 <= p.pos <= |buf.Contents()| == buf.totalLen
    ensures if p.chain == null then p.pos == buf.totalLen else k < |buf.chains|
  {
    k := 0;
    if p.chain != null {
      k :| IsIn(buf, p, k);
    }
    Measure(buf, p, k);
  }

  lemma CmpOccurs(s: seq<Byte>, w: seq<Byte>, i: nat, m: int)
    requires if SIZE_MAX - |w| < i || i + |w| > |s| then m == -1
             else m == MemCmp(s[i..i + |w|], w)
    requires |s| <= SIZE_MAX
    ensures m == 0 <==> Occurs(s, w, i)
  {
  }

  lemma IntroFirst(s: seq<Byte>, w: seq<Byte>, from: int, i: int)
    requires from <= i && Occurs(s, w, i) && forall j :: from <= j < i ==> !Occurs(s, w, j)
    ensures FirstAt(s, w, from, i)
  {
  }

  lemma NoneFrom(s: seq<Byte>, w: seq<Byte>, from: int, limit: int)
    requires w != [] && forall i :: from <= i < |s| ==> !Occurs(s, w, i)
    ensures NoneBy(s, w, from, limit)
  {
  }

  /** A place in a chunk lies before the end of the chunk. */
  lemma LimitInChunk(buf: EvBuffer, chain: Chain, limit: nat, p: Ptr, k: nat)
    requires buf.Valid() && IsIn(buf, p, k) && p.chain == chain
    requires exists x: nat :: Denotes(buf, Ptr(limit, chain, x))
    ensures limit <= p.pos + (chain.off - p.posInChain)
  {
    ChunkWindow(buf, k);
    var x: nat :| Denotes(buf, Ptr(limit, chain, x));
    var k': nat :| IsIn(buf, Ptr(limit, chain, x), k');
    SamePlace(buf, k, k');
  }

  lemma SamePlace(buf: EvBuffer, k: nat, k': nat)
    requires buf.Valid() && k < |buf.chains| && k' < |buf.chains| && buf.chains[k] == buf.chains[k']
    ensures k == k'
  {
  }

  /** evbuffer_search_range. The result points at the first place of `what` from `start` on whose end does not
      lie behind `end`, or nowhere. */
  method SearchRange(buf: EvBuffer, what: seq<Byte>, start: Option<Ptr>, end: Option<Ptr>) returns (p: Ptr)
    requires buf.Valid() && buf.totalLen <= SIZE_MAX
    requires start.Some? ==> Denotes(buf, start.value)
    requires end.Some? ==> Denotes(buf, end.value)
    ensures var from := if start.Some? then start.value else Start(buf);
            if what == [] || |what| > SSIZE_MAX then p == from
            else if exists i :: FirstAt(buf.Contents(), what, from.pos, i)
                                && (end.Some? ==> i + |what| <= end.value.pos) then
              && FirstAt(buf.Contents(), what, from.pos, p.pos)
              && (end.Some? ==> p.pos + |what| <= end.value.pos)
              && Denotes(buf, p) && p.chain != null && p.posInChain < p.chain.off
            else p.pos == -1 && p.chain == null
  {
    StartDenotes(buf);
    var from := if start.Some? then start.value else Start(buf);
    if what == [] || |what| > SSIZE_MAX {
      return from;
    }
    var limit := if end.Some? then end.value.pos else buf.totalLen;
    ghost var s := buf.Contents();
    if end.Some? {
      LimitIsNat(buf, end.value);
    }
    p := Scan(buf, what, from, if end.Some? then end.value.chain else null, limit);
    assert forall i :: FirstAt(s, what, from.pos, i) ==> i + |what| <= buf.totalLen;
  }

  lemma LimitIsNat(buf: EvBuffer, p: Ptr)
    requires buf.Valid() && Denotes(buf, p)
    ensures 0 <= p.pos && (p.chain != null ==> exists x: nat :: Denotes(buf, Ptr(p.pos, p.chain, x)))
  {
    assert p == Ptr(p.pos, p.chain, p.posInChain);
  }
}
