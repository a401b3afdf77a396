/** The text form of IPv6 addresses (RFC 4291, section 2.2): the AF_INET6 branches of evutil_inet_ntop and
    evutil_inet_pton in evutil.c. */
module Inet6 {
  import opened Bytes

  type Word = w: int | 0 <= w < 0x1_0000

  const COLON: Byte := 58

  /** A C string read at some place; its end reads as 0. */
  function At(s: Text, i: nat): Byte {
    if i < |s| then s[i] else 0
  }

  // Digits.

  predicate IsDigit(c: Byte) {
    48 <= c <= 57
  }

  predicate IsXDigit(c: Byte) {
    IsDigit(c) || 65 <= c <= 70 || 97 <= c <= 102
  }

  function DigitValue(c: Byte): (v: nat)
    ensures IsXDigit(c) ==> v < 16
  {
    if IsDigit(c) then c - 48 else if 65 <= c <= 70 then c - 55 else if 97 <= c <= 102 then c - 87 else 0
  }

  function HexDigit(d: int): (c: Byte)
    requires 0 <= d < 16
    ensures IsXDigit(c) && DigitValue(c) == d
  {
    if d < 10 then 48 + d else 87 + d
  }

  /** What %x prints. */
  function Hex(n: nat): (s: Text)
    ensures s != [] && forall i :: 0 <= i < |s| ==> IsXDigit(s[i])
  {
    if n < 16 then [HexDigit(n)] else Hex(n / 16) + [HexDigit(n % 16)]
  }

  /** What %d prints of a number that is not negative. */
  function Dec(n: nat): (s: Text)
    ensures s != [] && forall i :: 0 <= i < |s| ==> IsDigit(s[i])
  {
    if n < 10 then [48 + n] else Dec(n / 10) + [48 + n % 10]
  }

  /** The number that digits in some base stand for. */
  function DigitsValue(s: Text, base: nat): nat {
    if s == [] then 0 else base * DigitsValue(s[..|s| - 1], base) + DigitValue(s[|s| - 1])
  }

  lemma {:induction false} HexValue(n: nat)
    ensures DigitsValue(Hex(n), 16) == n
  {
    if n >= 16 {
      HexValue(n / 16);
      assert Hex(n)[..|Hex(n)| - 1] == Hex(n / 16);
    } else {
      assert Hex(n)[..0] == [];
    }
  }

  lemma {:induction false} DecValue(n: nat)
    ensures DigitsValue(Dec(n), 10) == n
  {
    if n >= 10 {
      DecValue(n / 10);
      assert Dec(n)[..|Dec(n)| - 1] == Dec(n / 10);
    } else {
      assert Dec(n)[..0] == [];
    }
  }

  lemma {:induction false} HexLength(n: nat, k: nat)
    requires n < Pow(16, k) && k > 0
    ensures |Hex(n)| <= k
  {
    if n >= 16 {
      HexLength(n / 16, k - 1);
    }
  }

  lemma WordLength(w: Word)
    ensures |Hex(w)| <= 4
  {
    assert Pow(16, 2) == 256;
    assert Pow(16, 4) == 0x1_0000;
    HexLength(w, 4);
  }

  /** The number of hexadecimal digits in a row from place `i` on. */
  function XRun(s: Text, i: nat): (n: nat)
    ensures (n > 0 ==> i + n <= |s|) && forall k :: i <= k < i + n ==> IsXDigit(s[k])
    ensures !IsXDigit(At(s, i + n))
    decreases |s| - i
  {
    if i < |s| && IsXDigit(s[i]) then 1 + XRun(s, i + 1) else 0
  }

  /** A run is known by where it ends. */
  lemma {:induction false} XRunIs(s: Text, i: nat, n: nat)
    requires i + n <= |s| && (forall k :: i <= k < i + n ==> IsXDigit(s[k])) && !IsXDigit(At(s, i + n))
    ensures XRun(s, i) == n
    decreases n
  {
    if n > 0 {
      XRunIs(s, i + 1, n - 1);
    }
  }

  /** Where strtol in base 16 starts to read digits: after "0x", if digits follow that. */
  function HexStart(s: Text, i: nat): nat {
    if At(s, i) == 48 && (At(s, i + 1) == 120 || At(s, i + 1) == 88) && IsXDigit(At(s, i + 2)) then i + 2 else i
  }

  // Printing.

  /** The words of an address. */
  function WordsOf(addr: Text): (ws: seq<Word>)
    requires |addr| == 16
    ensures |ws| == 8
  {
    seq(8, i requires 0 <= i < 8 => (addr[2 * i] as int) * 256 + addr[2 * i + 1])
  }

  /** Printed with a dotted quad at the end. */
  predicate IsV4(ws: seq<Word>)
    requires |ws| == 8
  {
    && ws[0] == ws[1] == ws[2] == ws[3] == ws[4] == 0
    && ((ws[5] == 0 && ws[6] != 0 && ws[7] != 0) || ws[5] == 0xffff)
  }

  function Quad(a: Word, b: Word): Text {
    Dec(a / 256) + [DOT] + Dec(a % 256) + [DOT] + Dec(b / 256) + [DOT] + Dec(b % 256)
  }

  function V4Form(ws: seq<Word>): Text
    requires |ws| == 8
  {
    [COLON, COLON] + (if ws[5] == 0 then [] else Hex(ws[5]) + [COLON]) + Quad(ws[6], ws[7])
  }

  /** Words each followed by a colon. */
  function Head(ws: seq<Word>): Text {
    if ws == [] then [] else Hex(ws[0]) + [COLON] + Head(ws[1..])
  }

  /** Words with colons between them. */
  function Tail(ws: seq<Word>): Text {
    if ws == [] then [] else if |ws| == 1 then Hex(ws[0]) else Hex(ws[0]) + [COLON] + Tail(ws[1..])
  }

  /** The words with those from `p` to `q` left out, if `p` is not -1. */
  function HexForm(ws: seq<Word>, p: int, q: int): Text
    requires |ws| == 8 && (p == -1 || 0 <= p <= q <= 8)
  {
    if p == -1 then Tail(ws)
    else Lead(ws[..p]) + Tail(ws[q..])
  }

  /** Words, and the colons that start a gap. */
  function Lead(ws: seq<Word>): Text {
    Head(ws) + if ws == [] then [COLON, COLON] else [COLON]
  }

  predicate AllZero(ws: seq<Word>, p: int, q: int)
    requires 0 <= p <= q <= |ws|
  {
    forall i :: p <= i < q ==> ws[i] == 0
  }

  /** The first of the longest runs of zero words, if that has at least two words. */
  ghost predicate IsBestGap(ws: seq<Word>, p: int, q: int)
    requires |ws| == 8
  {
    if p == -1 then forall a, b {:trigger AllZero(ws, a, b)} :: 0 <= a <= b <= 8 && AllZero(ws, a, b) ==> b - a <= 1
    else
      && 0 <= p && p + 2 <= q <= 8 && AllZero(ws, p, q)
      && forall a, b {:trigger AllZero(ws, a, b)} :: 0 <= a <= b <= 8 && AllZero(ws, a, b) ==>
           b - a <= q - p && (a < p ==> b - a < q - p)
  }

  /** The text that is printed for an address. */
  ghost predicate IsForm(ws: seq<Word>, text: Text)
    requires |ws| == 8
  {
    if IsV4(ws) then text == V4Form(ws) else exists p, q :: IsBestGap(ws, p, q) && text == HexForm(ws, p, q)
  }

  // Parsing.

  predicate IsSpace(c: Byte) {
    c == 32 || 9 <= c <= 13
  }

  function SkipSpace(s: Text, i: nat): (j: nat)
    ensures j >= i
    decreases |s| - i
  {
    if i < |s| && IsSpace(s[i]) then SkipSpace(s, i + 1) else i
  }

  function DigitRun(s: Text, i: nat): (n: nat)
    ensures n > 0 ==> i + n <= |s|
    decreases |s| - i
  {
    if i < |s| && IsDigit(s[i]) then 1 + DigitRun(s, i + 1) else 0
  }

  /** What %d makes of a number: the 64-bit GNU library takes the nearest `long`, and cuts that to an `int`. */
  function AsInt(v: int): (r: int)
    ensures -0x8000_0000 <= v <= INT_MAX ==> r == v
  {
    ToInt(if v > SSIZE_MAX then SSIZE_MAX else if v < -1 - SSIZE_MAX then -1 - SSIZE_MAX else v)
  }

  /** What %d reads: spaces, a sign, digits. */
  function ScanInt(s: Text, i: nat): Option<(int, nat)> {
    var j := SkipSpace(s, i);
    var k := if At(s, j) == 43 || At(s, j) == 45 then j + 1 else j;
    var n := DigitRun(s, k);
    if n == 0 then None
    else
      var v: int := DigitsValue(s[k..k + n], 10);
      Some((AsInt(if At(s, j) == 45 then 0 - v else v), k + n))
  }

  /** sscanf of "%d.%d.%d.%d%c" when exactly the four numbers are there. */
  function ScanQuad(s: Text): Option<seq<int>> {
    match ScanInt(s, 0)
    case None => None
    case Some((a, i)) =>
      if At(s, i) != DOT then None
      else
        match ScanInt(s, i + 1)
        case None => None
        case Some((b, j)) =>
          if At(s, j) != DOT then None
          else
            match ScanInt(s, j + 1)
            case None => None
            case Some((c, k)) =>
              if At(s, k) != DOT then None
              else
                match ScanInt(s, k + 1)
                case None => None
                case Some((d, l)) => if l < |s| then None else Some([a, b, c, d])
  }

  datatype Scan = Fail | Done(ws: seq<Word>, gap: int)

  /** The loop over the words: from place `pos` on, with the words and the gap found so far. */
  function ScanWords(s: Text, pos: nat, eow: nat, ws: seq<Word>, gap: int): Scan
    requires eow <= |s|
    decreases eow - pos
  {
    if pos >= eow then Done(ws, gap)
    else if |ws| > 7 then Fail
    else if IsXDigit(s[pos]) then
      var start := HexStart(s, pos);
      var next := start + XRun(s, start);
      if next > pos + 4 then Fail
      else if At(s, next) != COLON && next != eow then Fail
      else
        WordBound(s, start, next);
        ScanWords(s, next + 1, eow, ws + [DigitsValue(s[start..next], 16)], gap)
    else if s[pos] == COLON && |ws| > 0 && gap == -1 then ScanWords(s, pos + 1, eow, ws, |ws|)
    else if s[pos] == COLON && |ws| == 0 && At(s, pos + 1) == COLON && gap == -1 then ScanWords(s, pos + 2, eow, ws, 0)
    else Fail
  }

  lemma WordBound(s: Text, from: nat, to: nat)
    requires from <= to <= |s| && to <= from + 4 && forall k :: from <= k < to ==> IsXDigit(s[k])
    ensures DigitsValue(s[from..to], 16) < 0x1_0000
  {
    DigitsBound(s[from..to], 4);
    assert Pow(16, 4) == 0x1_0000 by {
      assert Pow(16, 2) == 256;
    }
  }

  lemma {:induction false} DigitsBound(s: Text, k: nat)
    requires |s| <= k && forall i :: 0 <= i < |s| ==> IsXDigit(s[i])
    ensures DigitsValue(s, 16) < Pow(16, k)
  {
    if s != [] {
      DigitsBound(s[..|s| - 1], k - 1);
    } else if k > 0 {
      DigitsBound(s, k - 1);
    }
  }

  /** strchr, or the end. */
  function IndexOf(s: Text, c: Byte): (i: nat)
    ensures i <= |s| && c !in s[..i] && (i < |s| ==> s[i] == c)
  {
    if s == [] || s[0] == c then 0
    else
      assert s[..1 + IndexOf(s[1..], c)] == [s[0]] + s[1..][..IndexOf(s[1..], c)];
      1 + IndexOf(s[1..], c)
  }

  /** The start of the digits that end at place `i`. */
  function DigitsBefore(s: Text, i: nat): (j: nat)
    requires i <= |s|
    ensures j <= i && (forall k :: j <= k < i ==> IsDigit(s[k])) && (j > 0 ==> !IsDigit(s[j - 1]))
  {
    if i > 0 && IsDigit(s[i - 1]) then DigitsBefore(s, i - 1) else i
  }

  /** The last two words, from a dotted quad. */
  function QuadWords(bytes: seq<int>): Option<seq<Word>>
    requires |bytes| == 4
  {
    if exists i :: 0 <= i < 4 && (bytes[i] > 255 || bytes[i] < 0) then None
    else Some([bytes[0] * 256 + bytes[1], bytes[2] * 256 + bytes[3]])
  }

  /** The words and the gap, put together. */
  function Assembled(scan: Scan, last: seq<Word>): Option<seq<Word>>
    requires |last| <= 2
  {
    match scan
    case Fail => None
    case Done(ws, gap) =>
      var n := |ws| + |last|;
      if n > 8 || (n == 8 && gap != -1) || (n < 8 && gap == -1) || gap > |ws| || gap < -1 then None
      else if gap == -1 then Some(ws + last)
      else Some(ws[..gap] + seq(8 - n, _ => 0) + ws[gap..] + last)
  }

  /** The eight words that a text stands for, if it is an address. */
  function Parsed(s: Text): Option<seq<Word>> {
    var dot := IndexOf(s, DOT);
    if dot == |s| then Assembled(ScanWords(s, 0, |s|, [], -1), [])
    else if dot == 0 then None
    else
      var eow := DigitsBefore(s, dot);
      match ScanQuad(s[eow..])
      case None => None
      case Some(bytes) =>
        ScanQuadFour(s[eow..]);
        match QuadWords(bytes)
        case None => None
        case Some(last) => Assembled(ScanWords(s, 0, eow, [], -1), last)
  }

  lemma ScanQuadFour(s: Text)
    ensures ScanQuad(s).Some? ==> |ScanQuad(s).value| == 4
  {
  }

  // Reading what has been printed.

  lemma ScanEnd(s: Text, pos: nat, eow: nat, ws: seq<Word>, gap: int)
    requires eow <= |s| && pos >= eow
    ensures ScanWords(s, pos, eow, ws, gap) == Done(ws, gap)
  {
  }

  /** The colon, or the two, that start a gap. */
  lemma ReadGap(s: Text, pos: nat, eow: nat, ws: seq<Word>)
    requires pos < eow <= |s| && |ws| <= 7 && s[pos] == COLON && (ws == [] ==> At(s, pos + 1) == COLON)
    ensures ScanWords(s, pos, eow, ws, -1) == ScanWords(s, pos + if ws == [] then 2 else 1, eow, ws, |ws|)
  {
    hide HexStart, XRun, DigitsValue;
  }

  // No dots.

  predicate Dotless(s: Text) {
    DOT !in s
  }

  lemma DotlessIndex(s: Text)
    requires Dotless(s)
    ensures IndexOf(s, DOT) == |s|
  {
  }

  // Dotted quads.

  lemma {:induction false} DigitRunIs(s: Text, i: nat, n: nat)
    requires i + n <= |s| && (forall k :: i <= k < i + n ==> IsDigit(s[k])) && !IsDigit(At(s, i + n))
    ensures DigitRun(s, i) == n
    decreases n
  {
    if n > 0 {
      DigitRunIs(s, i + 1, n - 1);
    }
  }

  lemma FourParts(d0: Text, d1: Text, d2: Text, d3: Text)
    ensures var s := d0 + [DOT] + d1 + [DOT] + d2 + [DOT] + d3;
            var i := |d0|; var j := i + 1 + |d1|; var k := j + 1 + |d2|;
            && s[0..i] == d0 && s[i] == DOT && s[i + 1..j] == d1 && s[j] == DOT && s[j + 1..k] == d2 && s[k] == DOT
            && s[k + 1..|s|] == d3
  {
  }

  lemma {:induction false} IndexOfIs(s: Text, c: Byte, i: nat)
    requires i < |s| && s[i] == c && c !in s[..i]
    ensures IndexOf(s, c) == i
  {
  }

  lemma {:induction false} DigitsBeforeIs(s: Text, j: nat, i: nat)
    requires j <= i <= |s| && (forall k :: j <= k < i ==> IsDigit(s[k])) && (j > 0 ==> !IsDigit(s[j - 1]))
    ensures DigitsBefore(s, i) == j
  {
    if j < i {
      DigitsBeforeIs(s, j, i - 1);
    }
  }

  // The printer.

  /** The search for the longest gap. */
  method FindGap(ws: seq<Word>) returns (p: int, ghost q: int)
    requires |ws| == 8
    ensures IsBestGap(ws, p, q) && (p >= 0 ==> p < q && (q == 8 || ws[q] != 0))
  {
    var longestGapLen := 0;
    p := -1;
    var i := 0;
    while i < 8
      invariant 0 <= i <= 8 && (i == 0 || i == 8 || ws[i - 1] != 0 || ws[i] != 0)
      invariant BestUpTo(ws, p, longestGapLen, i)
    {
      if ws[i] == 0 {
        var curGapPos := i;
        i := i + 1;
        var curGapLen := 1;
        while i < 8 && ws[i] == 0
          invariant curGapPos < i <= 8 && curGapLen == i - curGapPos && AllZero(ws, curGapPos, i)
        {
          i, curGapLen := i + 1, curGapLen + 1;
        }
        NextRun(ws, p, longestGapLen, curGapPos, i);
        if curGapLen > longestGapLen {
          p := curGapPos;
          longestGapLen := curGapLen;
        }
      } else {
        NotZero(ws, p, longestGapLen, i);
        i := i + 1;
      }
    }
    q := p + longestGapLen;
    if longestGapLen <= 1 {
      p := -1;
    }
  }

  /** The first of the longest runs of zeros that end at `i` or before. */
  ghost predicate BestUpTo(ws: seq<Word>, p: int, n: int, i: int)
    requires |ws| == 8 && 0 <= i <= 8
  {
    && 0 <= n
    && (n > 0 ==> 0 <= p && p + n <= i && AllZero(ws, p, p + n) && (p + n == 8 || ws[p + n] != 0))
    && forall a, b {:trigger AllZero(ws, a, b)} :: 0 <= a <= b <= i && AllZero(ws, a, b) ==>
         b - a <= n && (a < p ==> n == 0 || b - a < n)
  }

  lemma NextRun(ws: seq<Word>, p: int, n: int, from: int, i: int)
    requires |ws| == 8 && 0 <= from < i <= 8 && AllZero(ws, from, i) && (i == 8 || ws[i] != 0)
    requires BestUpTo(ws, p, n, from) && (from == 0 || ws[from - 1] != 0)
    ensures i - from > n ==> BestUpTo(ws, from, i - from, i)
    ensures i - from <= n ==> BestUpTo(ws, p, n, i)
  {
  }

  lemma NotZero(ws: seq<Word>, p: int, n: int, i: int)
    requires |ws| == 8 && 0 <= i < 8 && ws[i] != 0 && BestUpTo(ws, p, n, i)
    ensures BestUpTo(ws, p, n, i + 1)
  {
  }

  /** What has been printed before word `i`. */
  function Front(ws: seq<Word>, p: int, q: int, i: int): Text
    requires |ws| == 8 && 0 <= i <= 8 && (p == -1 || 0 <= p <= q <= 8)
  {
    if p == -1 || i <= p then Head(ws[..i]) else Lead(ws[..p]) + if i < q then [] else Head(ws[q..i])
  }

  lemma {:induction false} HeadAdds(ws: seq<Word>, w: Word)
    ensures Head(ws + [w]) == Head(ws) + Hex(w) + [COLON]
  {
    if ws == [] {
      assert Head([w]) == Hex(w) + [COLON] + Head([]);
      assert [] + [w] == [w];
    } else {
      assert (ws + [w])[1..] == ws[1..] + [w];
      HeadAdds(ws[1..], w);
    }
  }

  lemma {:induction false} TailIs(ws: seq<Word>)
    requires ws != []
    ensures Tail(ws) == Head(ws[..|ws| - 1]) + Hex(ws[|ws| - 1])
  {
    hide Hex;
    if |ws| == 1 {
      assert Head(ws[..0]) == [];
    } else {
      TailIs(ws[1..]);
      var h, rest, last := Hex(ws[0]), Head(ws[1..][..|ws| - 2]), Hex(ws[|ws| - 1]);
      assert ws[1..][..|ws| - 2] == ws[..|ws| - 1][1..];
      assert h + [COLON] + (rest + last) == h + [COLON] + rest + last;
    }
  }

  lemma {:induction false} FrontNext(ws: seq<Word>, p: int, q: int, i: int)
    requires |ws| == 8 && 0 <= i < 8 && (p == -1 || 0 <= p < q <= 8) && (p == -1 || i < p || q <= i)
    ensures i < 7 ==> Front(ws, p, q, i + 1) == Front(ws, p, q, i) + Hex(ws[i]) + [COLON]
    ensures i == 7 ==> HexForm(ws, p, q) == Front(ws, p, q, i) + Hex(ws[i])
  {
    hide Hex, Head, Tail, Lead;
    if p == -1 || i < p {
      assert ws[..i + 1] == ws[..i] + [ws[i]];
      HeadAdds(ws[..i], ws[i]);
      TailIs(ws);
    } else {
      assert ws[q..i + 1] == ws[q..i] + [ws[i]];
      HeadAdds(ws[q..i], ws[i]);
      TailIs(ws[q..]);
      assert i == 7 ==> ws[q..][..|ws[q..]| - 1] == ws[q..i];
      var l, h, x := Lead(ws[..p]), Head(ws[q..i]), Hex(ws[i]);
      assert l + (h + x + [COLON]) == l + h + x + [COLON] && l + (h + x) == l + h + x;
    }
  }

  lemma {:induction false} FrontGap(ws: seq<Word>, p: int, q: int)
    requires |ws| == 8 && 0 <= p < q <= 8
    ensures Front(ws, p, q, q) == Front(ws, p, q, p) + if p == 0 then [COLON, COLON] else [COLON]
    ensures q == 8 ==> HexForm(ws, p, q) == Front(ws, p, q, q)
    ensures p == 0 ==> Front(ws, p, q, p) == []
  {
  }

  lemma {:induction false} HeadLength(ws: seq<Word>)
    ensures |Head(ws)| <= 5 * |ws|
  {
    if ws != [] {
      WordLength(ws[0]);
      HeadLength(ws[1..]);
    }
  }

  lemma {:induction false} FrontLength(ws: seq<Word>, p: int, q: int, i: int)
    requires |ws| == 8 && 0 <= i <= 8 && (p == -1 || 0 <= p <= q <= 8)
    ensures |Front(ws, p, q, i)| <= 42
  {
    if p == -1 || i <= p {
      HeadLength(ws[..i]);
    } else {
      HeadLength(ws[..p]);
      if i >= q {
        HeadLength(ws[q..i]);
      }
    }
  }

  /** Puts a text at place `cp`. */
  method Put(buf: array<Byte>, cp: nat, t: Text) returns (end: nat)
    requires cp + |t| <= buf.Length
    modifies buf
    ensures end == cp + |t| && buf[..end] == old(buf[..cp]) + t
  {
    OverlayParts(buf[..], cp, t);
    MemCpy(buf, cp, t);
    end := cp + |t|;
    assert buf[..end] == buf[..][..cp] + buf[..][cp..end];
  }

  /** The hexadecimal form. */
  method PrintHex(ws: seq<Word>, buf: array<Byte>) returns (cp: nat, ghost p: int, ghost q: int)
    requires |ws| == 8 && buf.Length == 64
    modifies buf
    ensures IsBestGap(ws, p, q) && cp < 64 && buf[..cp] == HexForm(ws, p, q)
  {
    hide Front, HexForm, IsBestGap, Hex;
    var longestGapPos;
    longestGapPos, q := FindGap(ws);
    p := longestGapPos;
    GapBounds(ws, p, q);
    cp := 0;
    var i := 0;
    NothingYet(ws, p, q);
    while i < 8
      invariant 0 <= i <= 8 && cp < 64 && (p == -1 || i <= p || q <= i)
      invariant buf[..cp] == if i < 8 then Front(ws, p, q, i) else HexForm(ws, p, q)
    {
      FrontLength(ws, p, q, i);
      if ws[i] == 0 && longestGapPos == i {
        FrontGap(ws, p, q);
        if i == 0 {
          cp := Put(buf, cp, [COLON]);
        }
        cp := Put(buf, cp, [COLON]);
        while i < 8 && ws[i] == 0
          invariant p <= i <= q && cp < 64 && buf[..cp] == Front(ws, p, q, q)
        {
          i := i + 1;
        }
        assert i == q;
      } else {
        FrontNext(ws, p, q, i);
        WordLength(ws[i]);
        cp := Put(buf, cp, Hex(ws[i]));
        if i != 7 {
          cp := Put(buf, cp, [COLON]);
        }
        i := i + 1;
      }
    }
  }

  lemma GapBounds(ws: seq<Word>, p: int, q: int)
    requires |ws| == 8 && IsBestGap(ws, p, q)
    ensures p == -1 || (0 <= p < q <= 8 && forall i :: p <= i < q ==> ws[i] == 0)
  {
  }

  lemma NothingYet(ws: seq<Word>, p: int, q: int)
    requires |ws| == 8 && (p == -1 || 0 <= p <= q <= 8)
    ensures Front(ws, p, q, 0) == []
  {
  }

  lemma DecLength(n: nat)
    requires n < 256
    ensures |Dec(n)| <= 3
  {
    assert |Dec(n / 10 / 10)| == 1;
    assert |Dec(n / 10)| <= 2;
  }

  lemma V4Length(ws: seq<Word>)
    requires |ws| == 8
    ensures |V4Form(ws)| <= 22
  {
    DecLength(ws[6] / 256);
    DecLength(ws[6] % 256);
    DecLength(ws[7] / 256);
    DecLength(ws[7] % 256);
    WordLength(ws[5]);
  }

  /** The form with a dotted quad; the bytes are those of the last two words. */
  method PrintV4(ws: seq<Word>, addr: Text, buf: array<Byte>) returns (cp: nat)
    requires |addr| == 16 && ws == WordsOf(addr) && buf.Length == 64
    modifies buf
    ensures cp < 64 && buf[..cp] == V4Form(ws)
  {
    hide Hex, Dec;
    V4Length(ws);
    var quad := Dec(addr[12]) + [DOT] + Dec(addr[13]) + [DOT] + Dec(addr[14]) + [DOT] + Dec(addr[15]);
    BytesOfWords(addr, 6);
    BytesOfWords(addr, 7);
    assert quad == Quad(ws[6], ws[7]);
    if ws[5] == 0 {
      assert [COLON, COLON] + [] + quad == [COLON, COLON] + quad;
      cp := Put(buf, 0, [COLON, COLON] + quad);
    } else {
      cp := Put(buf, 0, [COLON, COLON] + (Hex(ws[5]) + [COLON]) + quad);
    }
  }

  lemma BytesOfWords(addr: Text, i: nat)
    requires |addr| == 16 && i < 8
    ensures WordsOf(addr)[i] / 256 == addr[2 * i] && WordsOf(addr)[i] % 256 == addr[2 * i + 1]
  {
  }

  /** evutil_inet_ntop for AF_INET6. A destination with no room for the final NUL is taken for large enough: the text
      then loses its last character. */
  method InetNtop(addr: Text, dst: array<Byte>, len: nat) returns (ok: bool, ghost text: Text)
    requires |addr| == 16 && len <= dst.Length
    modifies dst
    ensures IsForm(WordsOf(addr), text) && ok == (|text| <= len)
    ensures ok && |text| < len ==> dst[..|text| + 1] == text + [0]
    ensures ok && |text| == len ==> dst[..len] == text[..len - 1] + [0]
    ensures text != []
  {
    hide V4Form, HexForm, IsBestGap;
    var buf := new Byte[64](_ => 0);
    var words := new Word[8](_ => 0);
    var i := 0;
    while i < 8
      invariant 0 <= i <= 8 && forall k :: 0 <= k < i ==> words[k] == WordsOf(addr)[k]
    {
      words[i] := (addr[2 * i] as int) * 256 + addr[2 * i + 1];
      i := i + 1;
    }
    var ws := words[..];
    assert ws == WordsOf(addr);
    var cp;
    if ws[0] == 0 && ws[1] == 0 && ws[2] == 0 && ws[3] == 0 && ws[4] == 0
       && ((ws[5] == 0 && ws[6] != 0 && ws[7] != 0) || ws[5] == 0xffff) {
      cp := PrintV4(ws, addr, buf);
    } else {
      ghost var p, q;
      cp, p, q := PrintHex(ws, buf);
    }
    buf[cp] := 0;
    text := buf[..cp];
    FormNotEmpty(ws, text);
    if cp > len {
      return false, text;
    }
    ok := true;
    StrLCpy(dst, buf[..cp], len);
  }

  lemma FormNotEmpty(ws: seq<Word>, text: Text)
    requires |ws| == 8 && IsForm(ws, text)
    ensures text != []
  {
    if !IsV4(ws) {
      var p, q :| IsBestGap(ws, p, q) && text == HexForm(ws, p, q);
    }
  }

  /** strlcpy. */
  method StrLCpy(dst: array<Byte>, src: Text, size: nat)
    requires 0 < size <= dst.Length
    modifies dst
    ensures var n := Min(|src|, size - 1); n >= 0 && dst[..n + 1] == src[..n] + [0]
  {
    var n := if |src| < size then |src| else size - 1;
    var end := Put(dst, 0, src[..n]);
    dst[n] := 0;
    assert dst[..n] == src[..n];
  }

  // The parser.

  lemma HexRunStarts(s: Text, pos: nat)
    requires pos < |s| && IsXDigit(s[pos])
    ensures HexStart(s, pos) >= pos && XRun(s, HexStart(s, pos)) > 0
  {
  }

  /** The loop over the words. */
  method ScanLoop(s: Text, eow: nat, words: array<Word>) returns (ok: bool, i: nat, gapPos: int)
    requires eow <= |s| && words.Length == 8
    modifies words
    ensures i <= 8
    ensures match ScanWords(s, 0, eow, [], -1)
            case Fail => !ok
            case Done(ws, gap) => ok && i == |ws| <= 8 && words[..i] == ws && gapPos == gap
                                  && -1 <= gap <= |ws| && words[i..] == old(words[i..])
  {
    hide XRun, DigitsValue, HexStart;
    var src := 0;
    i, gapPos := 0, -1;
    while src < eow
      invariant i <= 8 && -1 <= gapPos <= i && words[i..] == old(words[i..])
      invariant ScanWords(s, 0, eow, [], -1) == ScanWords(s, src, eow, words[..i], gapPos)
      decreases eow - src
    {
      if i > 7 {
        return false, i, gapPos;
      }
      if IsXDigit(s[src]) {
        HexRunStarts(s, src);
        var start := HexStart(s, src);
        var next := start + XRun(s, start);
        if next > src + 4 {
          return false, i, gapPos;
        }
        WordBound(s, start, next);
        var r := DigitsValue(s[start..next], 16);
        if At(s, next) != COLON && next != eow {
          return false, i, gapPos;
        }
        ghost var before := words[..i];
        words[i] := r;
        i := i + 1;
        assert words[..i] == before + [r];
        src := next + 1;
      } else if s[src] == COLON && i > 0 && gapPos == -1 {
        gapPos := i;
        src := src + 1;
      } else if s[src] == COLON && i == 0 && At(s, src + 1) == COLON && gapPos == -1 {
        gapPos := i;
        src := src + 2;
      } else {
        return false, i, gapPos;
      }
    }
    ok := true;
  }

  /** memmove and memset: the words from `gapPos` on go `gapLen` places up, and zeros take their place. */
  method OpenGap(words: array<Word>, gapPos: nat, gapLen: nat, nToMove: nat)
    requires words.Length == 8 && gapPos + gapLen + nToMove <= 8
    modifies words
    ensures words[..gapPos] == old(words[..gapPos])
    ensures words[gapPos..gapPos + gapLen] == seq(gapLen, _ => 0)
    ensures words[gapPos + gapLen..gapPos + gapLen + nToMove] == old(words[gapPos..gapPos + nToMove])
    ensures words[gapPos + gapLen + nToMove..] == old(words[gapPos + gapLen + nToMove..])
  {
    MoveUp(words, gapPos, gapLen, nToMove);
    ghost var moved := words[..];
    var i := 0;
    while i < gapLen
      invariant 0 <= i <= gapLen
      invariant forall k :: 0 <= k < 8 && !(gapPos <= k < gapPos + i) ==> words[k] == moved[k]
      invariant forall k :: gapPos <= k < gapPos + i ==> words[k] == 0
    {
      words[gapPos + i] := 0;
      i := i + 1;
    }
    assert words[gapPos + gapLen..gapPos + gapLen + nToMove] == moved[gapPos + gapLen..gapPos + gapLen + nToMove];
    assert words[gapPos + gapLen + nToMove..] == moved[gapPos + gapLen + nToMove..];
  }

  /** memmove. */
  method MoveUp(words: array<Word>, gapPos: nat, gapLen: nat, nToMove: nat)
    requires words.Length == 8 && gapPos + gapLen + nToMove <= 8
    modifies words
    ensures words[..gapPos] == old(words[..gapPos])
    ensures words[gapPos + gapLen..gapPos + gapLen + nToMove] == old(words[gapPos..gapPos + nToMove])
    ensures words[gapPos + gapLen + nToMove..] == old(words[gapPos + gapLen + nToMove..])
  {
    var i := nToMove;
    while i > 0
      invariant 0 <= i <= nToMove
      invariant forall k :: 0 <= k < gapPos + i ==> words[k] == old(words[k])
      invariant forall k :: gapPos + gapLen + i <= k < gapPos + gapLen + nToMove ==>
                  words[k] == old(words[k - gapLen])
      invariant forall k :: gapPos + gapLen + nToMove <= k < 8 ==> words[k] == old(words[k])
    {
      i := i - 1;
      words[gapPos + gapLen + i] := words[gapPos + i];
    }
  }

  /** Where the words end, and the last two words if a dotted quad stands there. */
  method ReadQuadAtEnd(src: Text, words: array<Word>) returns (ok: bool, eow: nat, last: seq<Word>)
    requires words.Length == 8
    modifies words
    ensures !ok ==> Parsed(src) == None
    ensures ok ==> eow <= |src| && (last == [] || |last| == 2) && (last != [] ==> words[6..] == last)
                   && Parsed(src) == Assembled(ScanWords(src, 0, eow, [], -1), last)
  {
    hide ScanWords, IndexOf, DigitsBefore, ScanQuad, QuadWords, Assembled;
    ok, eow, last := true, |src|, [];
    var dot := IndexOf(src, DOT);
    if dot < |src| {
      if dot == 0 {
        return false, eow, last;
      }
      eow := DigitsBefore(src, dot);
      var bytes := ScanQuad(src[eow..]);
      if bytes == None {
        return false, eow, last;
      }
      ScanQuadFour(src[eow..]);
      var quad := QuadWords(bytes.value);
      if quad == None {
        return false, eow, last;
      }
      QuadTwo(bytes.value);
      last := quad.value;
      words[6], words[7] := last[0], last[1];
    }
  }

  /** evutil_inet_pton for AF_INET6. */
  method InetPton(src: Text, dst: array<Byte>) returns (r: int)
    requires 0 !in src && dst.Length == 16
    modifies dst
    ensures r == (if Parsed(src).Some? then 1 else 0)
    ensures r == 1 ==> WordsOf(dst[..]) == Parsed(src).value
    ensures r == 0 ==> dst[..] == old(dst[..])
  {
    hide ScanWords, Parsed, Assembled, WordsOf;
    var words := new Word[8](_ => 0);
    var ok, eow, last := ReadQuadAtEnd(src, words);
    if !ok {
      return 0;
    }
    var i, gapPos;
    ok, i, gapPos := ScanLoop(src, eow, words);
    Rejected(words[..i], gapPos, last);
    if !ok {
      return 0;
    }
    var setWords := i + |last|;
    if setWords > 8 || (setWords == 8 && gapPos != -1) || (setWords < 8 && gapPos == -1) {
      return 0;
    }
    ghost var ws := words[..i];
    assert last != [] ==> words[6..] == last;
    if gapPos >= 0 {
      var nToMove := i - gapPos;
      OpenGap(words, gapPos, 8 - setWords, nToMove);
    }
    Joined(words[..], ws, last, gapPos);
    Store(words, dst);
    r := 1;
  }

  /** The bytes of the words. */
  method Store(words: array<Word>, dst: array<Byte>)
    requires words.Length == 8 && dst.Length == 16
    modifies dst
    ensures WordsOf(dst[..]) == words[..]
  {
    ghost var out := words[..];
    var i := 0;
    while i < 8
      invariant 0 <= i <= 8 && words[..] == out
      invariant forall k :: 0 <= k < i ==> (dst[2 * k] as int) * 256 + dst[2 * k + 1] == words[k]
    {
      dst[2 * i] := words[i] / 256;
      dst[2 * i + 1] := words[i] % 256;
      i := i + 1;
    }
  }

  lemma QuadTwo(bytes: seq<int>)
    requires |bytes| == 4
    ensures QuadWords(bytes).Some? ==> |QuadWords(bytes).value| == 2
  {
  }

  lemma Rejected(ws: seq<Word>, gap: int, last: seq<Word>)
    requires |last| <= 2
    ensures var n := |ws| + |last|; n > 8 || (n == 8 && gap != -1) || (n < 8 && gap == -1) ==>
              Assembled(Done(ws, gap), last) == None
    ensures Assembled(Fail, last) == None
  {
  }

  lemma Joined(out: seq<Word>, ws: seq<Word>, last: seq<Word>, gap: int)
    requires |out| == 8 && |last| <= 2 && |ws| + |last| <= 8 && -1 <= gap <= |ws|
    requires gap == -1 ==> |ws| + |last| == 8 && out[..|ws|] == ws && out[|ws|..] == last
    requires gap >= 0 ==>
               var n := 8 - (|ws| + |last|);
               && n > 0 && out[..gap] == ws[..gap] && out[gap..gap + n] == seq(n, _ => 0)
               && out[gap + n..gap + n + (|ws| - gap)] == ws[gap..] && out[8 - |last|..] == last
    ensures Assembled(Done(ws, gap), last) == Some(out)
  {
    if gap >= 0 {
      var n := 8 - (|ws| + |last|);
      assert out == out[..gap] + out[gap..gap + n] + out[gap + n..gap + n + (|ws| - gap)] + out[8 - |last|..];
    } else {
      assert out == out[..|ws|] + out[|ws|..];
    }
  }
}
