/** Reading lines: evbuffer_search_eol and evbuffer_readln. */
module EvBufferLines {
  import opened Bytes
  import opened EvBuffers
  import opened EvBufferSearch

  const CR: Byte := 13
  const LF: Byte := 10
  const CRLF: seq<Byte> := [CR, LF]
  const CHUNK_SZ: nat := 128

  datatype EolStyle = Any | Crlf | CrlfStrict | Lf

  predicate IsEolChar(b: Byte) {
    b == CR || b == LF
  }

  /** The number of CR and LF bytes in a row from place `i` on. */
  ghost function Span(s: seq<Byte>, i: nat): (n: nat)
    requires i <= |s|
    ensures i + n <= |s| && (forall j :: i <= j < i + n ==> IsEolChar(s[j])) && (i + n < |s| ==> !IsEolChar(s[i + n]))
    decreases |s| - i
  {
    if i < |s| && IsEolChar(s[i]) then 1 + Span(s, i + 1) else 0
  }

  /** The length of the line terminator that starts at place `i`, or 0 if none does. */
  ghost function EolLen(style: EolStyle, s: seq<Byte>, i: nat): (n: nat)
    requires i <= |s|
    ensures i + n <= |s|
  {
    match style
    case Any => Span(s, i)
    case CrlfStrict => if Occurs(s, CRLF, i) then 2 else 0
    case Crlf => if i < |s| && s[i] == LF then 1 else if Occurs(s, CRLF, i) then 2 else 0
    case Lf => if i < |s| && s[i] == LF then 1 else 0
  }

  /** No terminator starts in a stretch of the bytes. */
  ghost predicate NoEol(style: EolStyle, s: seq<Byte>, from: nat, to: nat) {
    forall i :: from <= i < to && i <= |s| ==> EolLen(style, s, i) == 0
  }

  /** find_eol_char: the first CR or LF, looked for in blocks of 128 bytes. */
  method FindEolChar(s: seq<Byte>) returns (r: int)
    ensures -1 <= r < |s|
    ensures r >= 0 ==> IsEolChar(s[r])
    ensures forall i :: 0 <= i < (if r >= 0 then r else |s|) ==> !IsEolChar(s[i])
  {
    var at := 0;
    while at < |s|
      invariant forall i :: 0 <= i < at && i < |s| ==> !IsEolChar(s[i])
    {
      var chunk := if at + CHUNK_SZ < |s| then CHUNK_SZ else |s| - at;
      var block := s[at..at + chunk];
      var cr, lf := MemChr(block, CR), MemChr(block, LF);
      assert forall i :: at <= i < at + chunk ==> s[i] == block[i - at];
      if cr >= 0 {
        if lf >= 0 && lf < cr {
          return at + lf;
        }
        return at + cr;
      } else if lf >= 0 {
        return at + lf;
      }
      at := at + CHUNK_SZ;
    }
    r := -1;
  }

  /** The rest of the chunk that `p` points into, as a stretch of the contents. */
  lemma RestOfChunk(buf: EvBuffer, p: Ptr, k: nat)
    requires buf.Valid() && IsIn(buf, p, k) && p.chain != null
    ensures var c, n := p.chain, p.chain.off - p.posInChain;
            && n >= 0 && c.misalign + c.off <= c.buffer.Length && 0 <= p.pos && p.pos + n <= |buf.Contents()|
            && c.buffer[c.misalign + p.posInChain..c.misalign + c.off] == buf.Contents()[p.pos..p.pos + n]
  {
    ChunkWindow(buf, k);
    ChunkSlice(buf, p, k, |buf.datas[k]| - p.posInChain);
  }

  lemma Inside(buf: EvBuffer, p: Ptr, k: nat, r: nat)
    requires buf.Valid() && IsIn(buf, p, k) && p.chain != null && p.posInChain + r <= p.chain.off
    ensures var q := Ptr(p.pos + r, p.chain, p.posInChain + r); IsIn(buf, q, k) && Denotes(buf, q)
  {
    ChunkWindow(buf, k);
    assert IsIn(buf, Ptr(p.pos + r, p.chain, p.posInChain + r), k);
  }

  /** evbuffer_find_eol_char. */
  method FindEol(buf: EvBuffer, it: Ptr) returns (r: int, p: Ptr)
    requires buf.Valid() && Denotes(buf, it)
    ensures var s := buf.Contents();
            && 0 <= it.pos
            && (r >= 0 ==> it.pos <= r == p.pos < |s| && IsEolChar(s[r]) && Denotes(buf, p) && p.chain != null
                           && p.posInChain < p.chain.off)
            && (r < 0 ==> r == -1)
            && forall i :: it.pos <= i < (if r >= 0 then r else |s|) && i < |s| ==> !IsEolChar(s[i])
  {
    hide Concat, EvBuffer.Valid, EvBuffer.Contents, Denotes, IsIn, OffsetOf, Span;
    p := it;
    ghost var s := buf.Contents();
    ghost var k: nat := Locate(buf, p);
    while p.chain != null
      invariant Denotes(buf, p) && it.pos <= p.pos <= |s| == buf.totalLen
      invariant if p.chain == null then p.pos == |s| else IsIn(buf, p, k) && k < |buf.chains|
      invariant forall i :: it.pos <= i < p.pos ==> !IsEolChar(s[i])
      decreases if p.chain == null then -1 else |buf.chains| - k
    {
      RestOfChunk(buf, p, k);
      var chain := p.chain;
      var rest := chain.buffer[chain.misalign + p.posInChain..chain.misalign + chain.off];
      r := FindEolChar(rest);
      assert forall i :: p.pos <= i < p.pos + |rest| ==> s[i] == rest[i - p.pos];
      if r >= 0 {
        Inside(buf, p, k, r);
        p := Ptr(p.pos + r, chain, p.posInChain + r);
        return p.pos, p;
      }
      NextChainDenotes(buf, p, k);
      p := NextChain(p);
      k := k + 1;
      Measure(buf, p, k);
    }
    r := -1;
  }

  /** evbuffer_strchr. */
  method StrChr(buf: EvBuffer, it: Ptr, c: Byte) returns (r: int, p: Ptr)
    requires buf.Valid() && Denotes(buf, it)
    ensures var s := buf.Contents();
            && 0 <= it.pos
            && (r >= 0 ==> it.pos <= r == p.pos < |s| && s[r] == c && Denotes(buf, p) && p.chain != null
                           && p.posInChain < p.chain.off)
            && (r < 0 ==> r == -1)
            && forall i :: it.pos <= i < (if r >= 0 then r else |s|) && i < |s| ==> s[i] != c
  {
    hide Concat, EvBuffer.Valid, EvBuffer.Contents, Denotes, IsIn, OffsetOf;
    p := it;
    ghost var s := buf.Contents();
    ghost var k: nat := Locate(buf, p);
    while p.chain != null
      invariant Denotes(buf, p) && it.pos <= p.pos <= |s| == buf.totalLen
      invariant if p.chain == null then p.pos == |s| else IsIn(buf, p, k) && k < |buf.chains|
      invariant forall i :: it.pos <= i < p.pos ==> s[i] != c
      decreases if p.chain == null then -1 else |buf.chains| - k
    {
      r := FindInChunk(buf, p, k, c);
      if r >= 0 {
        p := Ptr(p.pos + r, p.chain, p.posInChain + r);
        return p.pos, p;
      }
      RestOfChunk(buf, p, k);
      NextChainDenotes(buf, p, k);
      p := NextChain(p);
      k := k + 1;
      Measure(buf, p, k);
    }
    r := -1;
  }

  /** The CR and LF bytes in a row in one chunk; they end there, or go on in the next. */
  method SpanInChunk(ghost s: seq<Byte>, ghost pos: nat, chain: Chain, from: nat) returns (count: nat, ended: bool)
    requires from <= chain.off && chain.misalign + chain.off <= chain.buffer.Length && pos + chain.off - from <= |s|
    requires chain.buffer[chain.misalign + from..chain.misalign + chain.off] == s[pos..pos + chain.off - from]
    ensures count <= chain.off - from && Span(s, pos) == count + if ended then 0 else Span(s, pos + chain.off - from)
    ensures !ended ==> count == chain.off - from
  {
    ghost var rest := chain.buffer[chain.misalign + from..chain.misalign + chain.off];
    var i := from;
    count := 0;
    while i < chain.off
      invariant from <= i <= chain.off && count == i - from
      invariant Span(s, pos) == count + Span(s, pos + count)
    {
      assert rest[count] == s[pos..pos + chain.off - from][count] == s[pos + count];
      assert rest[count] == chain.buffer[chain.misalign + i];
      if !IsEolChar(chain.buffer[chain.misalign + i]) {
        return count, true;
      }
      i, count := i + 1, count + 1;
    }
    ended := false;
  }

  /** evbuffer_strspn with the set of CR and LF. */
  method StrSpn(buf: EvBuffer, it: Ptr) returns (count: nat)
    requires buf.Valid() && Denotes(buf, it) && it.chain != null
    ensures 0 <= it.pos <= |buf.Contents()| && count == Span(buf.Contents(), it.pos)
  {
    hide Concat, EvBuffer.Valid, EvBuffer.Contents, Denotes, IsIn, OffsetOf;
    var p := it;
    ghost var s := buf.Contents();
    ghost var k: nat := Locate(buf, p);
    count := 0;
    while true
      invariant p.chain != null && Denotes(buf, p) && IsIn(buf, p, k) && k < |buf.chains|
      invariant it.pos <= p.pos <= |s| == buf.totalLen
      invariant p.pos == it.pos + count && Span(s, it.pos) == count + Span(s, p.pos)
      decreases |buf.chains| - k
    {
      RestOfChunk(buf, p, k);
      var n, ended := SpanInChunk(s, p.pos, p.chain, p.posInChain);
      count := count + n;
      if ended {
        return;
      }
      NextChainDenotes(buf, p, k);
      p := NextChain(p);
      k := k + 1;
      Measure(buf, p, k);
      if p.chain == null {
        return;
      }
    }
  }

  /** Where a word occurs, it also occurs for a first time. */
  lemma {:induction false} FirstExists(s: seq<Byte>, w: seq<Byte>, from: int, j: int) returns (i: int)
    requires from <= j && Occurs(s, w, j)
    ensures FirstAt(s, w, from, i)
  {
    i := from;
    while !Occurs(s, w, i)
      invariant from <= i <= j && forall x :: from <= x < i ==> !Occurs(s, w, x)
      decreases j - i
    {
      i := i + 1;
    }
  }

  lemma NoCrlf(s: seq<Byte>, from: nat)
    requires !exists i :: FirstAt(s, CRLF, from, i)
    ensures NoEol(CrlfStrict, s, from, |s| + 1)
  {
    forall j | from <= j <= |s|
      ensures EolLen(CrlfStrict, s, j) == 0
    {
      if Occurs(s, CRLF, j) {
        var i := FirstExists(s, CRLF, from, j);
        assert false;
      }
    }
  }

  /** A stretch without the bytes that can start a terminator. */
  lemma NoStart(style: EolStyle, s: seq<Byte>, from: nat, to: nat)
    requires style != CrlfStrict && to <= |s|
    requires forall i :: from <= i < to ==> if style == Lf then s[i] != LF else !IsEolChar(s[i])
    ensures NoEol(style, s, from, to) && (to == |s| ==> NoEol(style, s, from, to + 1))
  {
    forall i | from <= i <= |s| && (i < to || to == |s|)
      ensures EolLen(style, s, i) == 0
    {
      if Occurs(s, CRLF, i) {
        assert s[i] == s[i..i + 2][0];
      }
    }
  }

  /** evbuffer_search_eol. */
  method SearchEol(buf: EvBuffer, start: Option<Ptr>, style: EolStyle) returns (it: Ptr, eolLen: nat)
    requires buf.Valid() && buf.totalLen <= SIZE_MAX && (start.Some? ==> Denotes(buf, start.value))
    ensures var s, from := buf.Contents(), if start.Some? then start.value else EvBufferSearch.Start(buf);
            if it.pos >= 0 then
              && 0 <= from.pos <= it.pos < |s| && eolLen == EolLen(style, s, it.pos) > 0
              && NoEol(style, s, from.pos, it.pos) && Denotes(buf, it)
            else
              it.pos == -1 && eolLen == 0 && 0 <= from.pos && NoEol(style, s, from.pos, |s| + 1)
  {
    hide Concat, EvBuffer.Valid, EvBuffer.Contents, Denotes, NoEol, IsIn, FirstAt;
    StartDenotes(buf);
    it := if start.Some? then start.value else EvBufferSearch.Start(buf);
    ghost var s, from := buf.Contents(), it.pos;
    ghost var k := Locate(buf, it);
    var r;
    match style {
      case Any =>
        r, it := FindEol(buf, it);
        NoStart(style, s, from, if r >= 0 then r else |s|);
        if r < 0 {
          return NOWHERE, 0;
        }
        eolLen := StrSpn(buf, it);
      case CrlfStrict =>
        it := SearchRange(buf, CRLF, Some(it), None);
        if it.pos < 0 {
          NoCrlf(s, from);
          return NOWHERE, 0;
        }
        StrictFound(s, from, it.pos);
        eolLen := 2;
      case Crlf =>
        it, eolLen := SearchCrlf(buf, it);
      case Lf =>
        r, it := StrChr(buf, it, LF);
        NoStart(style, s, from, if r >= 0 then r else |s|);
        if r < 0 {
          return NOWHERE, 0;
        }
        eolLen := 1;
    }
  }

  lemma StrictFound(s: seq<Byte>, from: nat, i: int)
    requires FirstAt(s, CRLF, from, i)
    ensures from <= i < |s| && EolLen(CrlfStrict, s, i) == 2 && NoEol(CrlfStrict, s, from, i)
  {
  }

  /** The search for an LF, with or without a CR before it; a lone CR does not end a line. */
  method SearchCrlf(buf: EvBuffer, start: Ptr) returns (it: Ptr, eolLen: nat)
    requires buf.Valid() && buf.totalLen <= SIZE_MAX && Denotes(buf, start)
    ensures var s := buf.Contents();
            if it.pos >= 0 then
              && 0 <= start.pos <= it.pos < |s| && eolLen == EolLen(Crlf, s, it.pos) > 0
              && NoEol(Crlf, s, start.pos, it.pos) && Denotes(buf, it)
            else
              it.pos == -1 && eolLen == 0 && 0 <= start.pos && NoEol(Crlf, s, start.pos, |s| + 1)
  {
    hide Concat, EvBuffer.Valid, EvBuffer.Contents, Denotes, IsIn, MemCmp, Occurs;
    it := start;
    ghost var s := buf.Contents();
    ghost var k := Locate(buf, it);
    while true
      invariant Denotes(buf, it) && 0 <= start.pos <= it.pos <= |s| == buf.totalLen
      invariant NoEol(Crlf, s, start.pos, it.pos)
      decreases |s| - it.pos
    {
      var r, p := FindEol(buf, it);
      NoStart(Crlf, s, it.pos, if r >= 0 then r else |s|);
      if r < 0 {
        return NOWHERE, 0;
      }
      it := p;
      var c := GetChr(buf, it);
      if c == LF {
        return it, 1;
      }
      var m := PtrMemCmp(buf, it, CRLF);
      CmpOccurs(s, CRLF, it.pos, m);
      if m == 0 {
        return it, 2;
      }
      var moved, q := PtrAdd(buf, it, 1);
      if moved < 0 {
        assert it.pos + 1 == |s|;
        LoneCrAtEnd(s);
        return NOWHERE, 0;
      }
      it := q;
    }
  }

  lemma LoneCrAtEnd(s: seq<Byte>)
    ensures EolLen(Crlf, s, |s|) == 0
  {
  }

  /** evbuffer_getchr. */
  method GetChr(buf: EvBuffer, p: Ptr) returns (c: Byte)
    requires buf.Valid() && Denotes(buf, p) && p.chain != null && p.posInChain < p.chain.off
    ensures 0 <= p.pos < |buf.Contents()| && c == buf.Contents()[p.pos]
  {
    hide Concat, EvBuffer.Core;
    ghost var k: nat := Locate(buf, p);
    ChunkWindow(buf, k);
    c := p.chain.buffer[p.chain.misalign + p.posInChain];
  }

  /** evbuffer_readln: takes the first line and its terminator off the queue. `canAlloc` tells whether there
      is memory for the line. */
  method Readln(buf: EvBuffer, style: EolStyle, canAlloc: bool) returns (result: Option<seq<Byte>>)
    requires buf.Valid() && buf.totalLen <= SIZE_MAX
    modifies buf, buf.chains
    ensures buf.Valid() && (old(buf.Settled()) ==> buf.Settled())
    ensures var s := old(buf.Contents());
            match result
            case Some(line) =>
              && |line| <= |s| && EolLen(style, s, |line|) > 0 && NoEol(style, s, 0, |line|)
              && s == line + s[|line|..|line| + EolLen(style, s, |line|)] + buf.Contents()
            case None =>
              buf.Contents() == s && (old(buf.freezeStart) || !canAlloc || NoEol(style, s, 0, |s| + 1))
    ensures old(buf.freezeStart) ==> result == None
  {
    hide Concat, EvBuffer.Core, EolLen, NoEol, Overlay, Denotes;
    if buf.freezeStart {
      return None;
    }
    ghost var s := buf.Contents();
    var it, extra := SearchEol(buf, None, style);
    if it.pos < 0 {
      return None;
    }
    if !canAlloc {
      return None;
    }
    var line := TakeLine(buf, it.pos, extra);
    result := Some(line);
  }

  /** Copies `n` bytes out, drains them, and drains `extra` bytes more. */
  method TakeLine(buf: EvBuffer, n: nat, extra: nat) returns (result: seq<Byte>)
    requires buf.Valid() && !buf.freezeStart && n + extra <= |buf.Contents()|
    modifies buf, buf.chains
    ensures buf.Valid() && (old(buf.Settled()) ==> buf.Settled())
    ensures result == old(buf.Contents())[..n] && buf.Contents() == old(buf.Contents())[n + extra..]
  {
    hide Concat, EvBuffer.Core, Overlay, IsSettled;
    ghost var s := buf.Contents();
    var line := new Byte[n + 1](_ => 0);
    ghost var was := line[..];
    var got := buf.Remove(line, n);
    OverlayPrefix(was, s[..n]);
    assert line[..][..n] == s[..n];
    line[n] := 0;
    result := line[..n];
    assert result == s[..n];
    assert forall j :: 0 <= j < |buf.chains| ==> buf.chains[j] in old(buf.chains);
    var r := buf.Drain(extra);
    assert s[n..][extra..] == s[n + extra..];
  }

  lemma {:induction false} OverlayPrefix(s: seq<Byte>, a: seq<Byte>)
    requires |a| <= |s|
    ensures Overlay(s, 0, a)[..|a|] == a
  {
  }
}
