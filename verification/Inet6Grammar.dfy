/** Which texts stand for IPv6 addresses: the grammar of section 2.2 of RFC 4291, and the wider one of the texts that
    evutil_inet_pton accepts. */
module Inet6Grammar {
  import opened Bytes
  import opened Inet6

  // The grammar.

  /** What stands between colons: a word, or four numbers with dots between them. */
  datatype Piece = HexPiece(text: Text) | QuadPiece(a: Text, b: Text, c: Text, d: Text)

  /** Pieces with colons between them, which are all or have a run of zeros somewhere. */
  datatype Notation = Plain(ps: seq<Piece>) | Gapped(front: seq<Piece>, back: seq<Piece>)

  function Spelling(p: Piece): Text {
    match p
    case HexPiece(t) => t
    case QuadPiece(a, b, c, d) => a + [DOT] + b + [DOT] + c + [DOT] + d
  }

  function Joined(ps: seq<Piece>): Text {
    if ps == [] then [] else if |ps| == 1 then Spelling(ps[0]) else Spelling(ps[0]) + [COLON] + Joined(ps[1..])
  }

  function Spelled(n: Notation): Text {
    match n
    case Plain(ps) => Joined(ps)
    case Gapped(front, back) => Joined(front) + [COLON, COLON] + Joined(back)
  }

  predicate HasPrefix(t: Text) {
    |t| > 2 && t[0] == 48 && (t[1] == 120 || t[1] == 88)
  }

  predicate AllXDigits(t: Text) {
    t != [] && forall i :: 0 <= i < |t| ==> IsXDigit(t[i])
  }

  predicate AllDigits(t: Text) {
    t != [] && forall i :: 0 <= i < |t| ==> IsDigit(t[i])
  }

  /** Digits, perhaps with spaces and a sign before them. */
  predicate IsInt(t: Text) {
    AllDigits(t) || (t != [] && ((IsSign(t[0]) && AllDigits(t[1..])) || (IsSpace(t[0]) && IsInt(t[1..]))))
  }

  predicate IsSign(c: Byte) {
    c == 43 || c == 45
  }

  /** The number that is written. */
  function WrittenValue(t: Text): int {
    if t == [] then 0
    else if IsSpace(t[0]) then WrittenValue(t[1..])
    else if t[0] == 45 then 0 - DigitsValue(t[1..], 10)
    else if t[0] == 43 then DigitsValue(t[1..], 10)
    else DigitsValue(t, 10)
  }

  /** The number that %d reads there. */
  function IntValue(t: Text): int {
    AsInt(WrittenValue(t))
  }

  function WordValue(t: Text): nat {
    DigitsValue(if HasPrefix(t) then t[2..] else t, 16)
  }

  predicate StrictOctet(t: Text) {
    AllDigits(t) && |t| <= 3 && DigitsValue(t, 10) <= 255
  }

  /** One to four hexadecimal digits, or four octets. */
  predicate StrictPiece(p: Piece) {
    match p
    case HexPiece(t) => AllXDigits(t) && |t| <= 4
    case QuadPiece(a, b, c, d) => StrictOctet(a) && StrictOctet(b) && StrictOctet(c) && StrictOctet(d)
  }

  predicate LaxOctet(t: Text) {
    IsInt(t) && 0 <= IntValue(t) <= 255
  }

  /** 4294967297, one more than fits 32 bits, is an octet too: it is read as 1. */
  lemma OctetWraps()
    ensures var t: Text := [52, 50, 57, 52, 57, 54, 55, 50, 57, 55];
            AllDigits(t) && LaxOctet(t) && WrittenValue(t) == TWO_32 + 1 && IntValue(t) == 1
  {
    hide DigitsValue;
    var t: Text := [52, 50, 57, 52, 57, 54, 55, 50, 57, 55];
    TenDigits(t);
    Unsigned(t);
  }

  lemma TenDigits(t: Text)
    requires t == [52, 50, 57, 52, 57, 54, 55, 50, 57, 55]
    ensures DigitsValue(t, 10) == 4294967297
  {
    NextDigit(t, 0, 0);
    NextDigit(t, 1, 4);
    NextDigit(t, 2, 42);
    NextDigit(t, 3, 429);
    NextDigit(t, 4, 4294);
    NextDigit(t, 5, 42949);
    NextDigit(t, 6, 429496);
    NextDigit(t, 7, 4294967);
    NextDigit(t, 8, 42949672);
    NextDigit(t, 9, 429496729);
    assert t[..10] == t;
  }

  lemma NextDigit(t: Text, i: nat, v: nat)
    requires i < |t| && IsDigit(t[i]) && DigitsValue(t[..i], 10) == v
    ensures DigitsValue(t[..i + 1], 10) == 10 * v + (t[i] as int) - 48
  {
    assert t[..i + 1][..i] == t[..i];
  }

  /** A word may also start with "0x", if it has no more than four characters then; octets may have any number of
      digits, and all but the first may have spaces and a sign before them. */
  predicate LaxPiece(p: Piece) {
    match p
    case HexPiece(t) => |t| <= 4 && (AllXDigits(t) || (HasPrefix(t) && AllXDigits(t[2..])))
    case QuadPiece(a, b, c, d) => AllDigits(a) && LaxOctet(a) && LaxOctet(b) && LaxOctet(c) && LaxOctet(d)
  }

  lemma Unsigned(t: Text)
    requires AllDigits(t)
    ensures IsInt(t) && WrittenValue(t) == DigitsValue(t, 10) >= 0
  {
    assert IsDigit(t[0]);
  }

  /** The words of a piece: one, or the two that four octets make. */
  function PieceWords(p: Piece): (ws: seq<Word>)
    requires LaxPiece(p)
    ensures |ws| == if p.HexPiece? then 1 else 2
  {
    match p
    case HexPiece(t) =>
      FitsWord(t);
      [WordValue(t)]
    case QuadPiece(a, b, c, d) => [IntValue(a) * 256 + IntValue(b), IntValue(c) * 256 + IntValue(d)]
  }

  lemma FitsWord(t: Text)
    requires LaxPiece(HexPiece(t))
    ensures WordValue(t) < 0x1_0000
  {
    var digits := if HasPrefix(t) then t[2..] else t;
    WordBound(digits, 0, |digits|);
    assert digits[0..|digits|] == digits;
  }

  predicate AllLax(ps: seq<Piece>) {
    forall i :: 0 <= i < |ps| ==> LaxPiece(ps[i])
  }

  predicate AllStrict(ps: seq<Piece>) {
    forall i :: 0 <= i < |ps| ==> StrictPiece(ps[i])
  }

  predicate AllWords(ps: seq<Piece>) {
    forall i :: 0 <= i < |ps| ==> ps[i].HexPiece?
  }

  /** Four octets can only stand at the end. */
  predicate QuadAtEnd(ps: seq<Piece>) {
    ps != [] ==> AllWords(ps[..|ps| - 1])
  }

  function AllPieceWords(ps: seq<Piece>): seq<Word>
    requires AllLax(ps)
  {
    if ps == [] then [] else PieceWords(ps[0]) + AllPieceWords(ps[1..])
  }

  /** Eight words, or fewer and a run of zeros in place of the others. */
  predicate Lax(n: Notation) {
    match n
    case Plain(ps) => AllLax(ps) && QuadAtEnd(ps) && |AllPieceWords(ps)| == 8
    case Gapped(front, back) =>
      && AllLax(front) && AllWords(front) && AllLax(back) && QuadAtEnd(back)
      && |AllPieceWords(front)| + |AllPieceWords(back)| <= 7
  }

  predicate Strict(n: Notation) {
    match n
    case Plain(ps) => AllStrict(ps) && Lax(n)
    case Gapped(front, back) => AllStrict(front) && AllStrict(back) && Lax(n)
  }

  /** The eight words that a notation stands for. */
  function Meaning(n: Notation): (ws: seq<Word>)
    requires Lax(n)
    ensures |ws| == 8
  {
    match n
    case Plain(ps) => AllPieceWords(ps)
    case Gapped(front, back) =>
      var a, b := AllPieceWords(front), AllPieceWords(back);
      a + seq(8 - |a| - |b|, _ => 0) + b
  }

  predicate EndsInWord(n: Notation) {
    var ps := if n.Plain? then n.ps else n.back;
    ps != [] && ps[|ps| - 1].HexPiece?
  }

  /** A notation is also accepted with a colon too many behind its last word. */
  function Closed(n: Notation, colon: bool): Text {
    Spelled(n) + if colon then [COLON] else []
  }

  // Texts that are accepted.

  /** Pieces each followed by a colon. */
  function Ended(ps: seq<Piece>): Text {
    if ps == [] then [] else Spelling(ps[0]) + [COLON] + Ended(ps[1..])
  }

  lemma {:induction false} JoinedEnd(ps: seq<Piece>, p: Piece)
    ensures Joined(ps + [p]) == Ended(ps) + Spelling(p)
    ensures Ended(ps + [p]) == Joined(ps + [p]) + [COLON] == Ended(ps) + Spelling(p) + [COLON]
    ensures QuadAtEnd(ps + [p]) <==> AllWords(ps)
    ensures AllLax(ps + [p]) <==> AllLax(ps) && LaxPiece(p)
    ensures AllLax(ps + [p]) ==> AllPieceWords(ps + [p]) == AllPieceWords(ps) + PieceWords(p)
  {
    hide Spelling, PieceWords, LaxPiece;
    assert (ps + [p])[..|ps|] == ps && (ps + [p])[|ps|] == p;
    if ps == [] {
      assert ps + [p] == [p] && Ended([p]) == Spelling(p) + [COLON] + Ended([]);
    } else {
      assert (ps + [p])[1..] == ps[1..] + [p];
      JoinedEnd(ps[1..], p);
    }
  }

  /** A word, with a colon or the end of the text behind it. */
  lemma {:induction false} ReadPiece(s: Text, pos: nat, eow: nat, ws: seq<Word>, gap: int, t: Text)
    requires LaxPiece(HexPiece(t)) && pos + |t| <= eow <= |s| && |ws| <= 7 && s[pos..pos + |t|] == t
    requires At(s, pos + |t|) == COLON || pos + |t| == |s|
    ensures ScanWords(s, pos, eow, ws, gap) == ScanWords(s, pos + |t| + 1, eow, ws + PieceWords(HexPiece(t)), gap)
  {
    hide DigitsValue, XRun;
    var off := if HasPrefix(t) then 2 else 0;
    forall k | 0 <= k < |t|
      ensures s[pos + k] == t[k]
    {
    }
    assert t[0] == s[pos] && (HasPrefix(t) ==> t[1] == s[pos + 1] && t[2] == s[pos + 2]);
    assert IsXDigit(s[pos]);
    forall k | pos + off <= k < pos + |t|
      ensures IsXDigit(s[k])
    {
      assert HasPrefix(t) ==> t[2..][k - pos - 2] == t[k - pos];
    }
    assert HexStart(s, pos) == pos + off;
    XRunIs(s, pos + off, |t| - off);
    assert s[pos + off..pos + |t|] == t[off..];
  }

  /** Where the parts of a text stand. */
  lemma Around(s: Text, pos: nat, t: Text, rest: Text)
    requires pos + |t| + 1 + |rest| <= |s| && s[pos..pos + |t| + 1 + |rest|] == t + [COLON] + rest
    ensures s[pos..pos + |t|] == t && s[pos + |t|] == COLON
    ensures s[pos + |t| + 1..pos + |t| + 1 + |rest|] == rest
  {
    var all := s[pos..pos + |t| + 1 + |rest|];
    assert s[pos..pos + |t|] == all[..|t|];
    assert s[pos + |t|] == all[|t|];
    assert s[pos + |t| + 1..pos + |t| + 1 + |rest|] == all[|t| + 1..];
  }

  lemma FirstPiece(ps: seq<Piece>)
    requires ps != []
    ensures Ended(ps) == Spelling(ps[0]) + [COLON] + Ended(ps[1..])
    ensures AllLax(ps) ==> AllPieceWords(ps) == PieceWords(ps[0]) + AllPieceWords(ps[1..])
  {
  }

  lemma {:induction false} ReadEnded(s: Text, pos: nat, eow: nat, ws: seq<Word>, ps: seq<Piece>, gap: int)
    requires pos + |Ended(ps)| <= eow <= |s| && |ws| + |ps| <= 8 && s[pos..pos + |Ended(ps)|] == Ended(ps)
    requires AllLax(ps) && AllWords(ps)
    ensures ScanWords(s, pos, eow, ws, gap) == ScanWords(s, pos + |Ended(ps)|, eow, ws + AllPieceWords(ps), gap)
    ensures |AllPieceWords(ps)| == |ps|
    decreases |ps|
  {
    hide ScanWords, LaxPiece, PieceWords, AllPieceWords, Ended;
    if ps == [] {
      NoPieces();
      JoinedNone();
      assert ws + [] == ws;
    } else {
      FirstPiece(ps);
      var t, rest := ps[0].text, Ended(ps[1..]);
      assert ps[0] == HexPiece(t);
      Around(s, pos, t, rest);
      ReadPiece(s, pos, eow, ws, gap, t);
      ReadEnded(s, pos + |t| + 1, eow, ws + PieceWords(ps[0]), ps[1..], gap);
      assert ws + PieceWords(ps[0]) + AllPieceWords(ps[1..]) == ws + AllPieceWords(ps);
    }
  }

  /** The pieces before a gap. */
  lemma {:induction false} FrontIs(front: seq<Piece>)
    ensures Joined(front) + [COLON, COLON] == Ended(front) + if front == [] then [COLON, COLON] else [COLON]
  {
    hide Joined, Ended;
    if front == [] {
      JoinedNone();
    } else {
      var ps, p := front[..|front| - 1], front[|front| - 1];
      assert front == ps + [p];
      JoinedEnd(ps, p);
      assert Joined(front) + [COLON, COLON] == Joined(front) + [COLON] + [COLON];
    }
  }

  lemma JoinedNone()
    ensures Joined([]) == [] && Ended([]) == []
  {
  }

  lemma {:induction false} ReadFront(s: Text, eow: nat, front: seq<Piece>)
    requires AllLax(front) && AllWords(front) && |front| <= 7
    requires var f := Joined(front) + [COLON, COLON]; |f| <= eow <= |s| && s[..|f|] == f
    ensures |AllPieceWords(front)| == |front|
    ensures ScanWords(s, 0, eow, [], -1)
            == ScanWords(s, |Joined(front) + [COLON, COLON]|, eow, AllPieceWords(front), |front|)
  {
    hide Joined, Ended, ScanWords, AllPieceWords, AllLax, AllWords;
    var e, f := Ended(front), Joined(front) + [COLON, COLON];
    FrontIs(front);
    assert s[0..|e|] == s[..|f|][..|e|] == e;
    assert s[|e|] == s[..|f|][|e|];
    assert front == [] ==> s[1] == s[..|f|][1];
    ReadEnded(s, 0, eow, [], front, -1);
    assert [] + AllPieceWords(front) == AllPieceWords(front);
    if front == [] {
      JoinedNone();
    }
    ReadGap(s, |e|, eow, AllPieceWords(front));
  }

  lemma TwoParts(s: Text, pos: nat, a: Text, b: Text, rest: Text)
    requires pos <= |s| && s[pos..] == a + b + rest
    ensures pos + |a| + |b| + |rest| == |s|
    ensures s[pos..pos + |a|] == a && s[pos + |a|..pos + |a| + |b|] == b
    ensures rest != [] ==> s[pos + |a| + |b|] == rest[0]
  {
    var u := s[pos..];
    assert u[..|a|] == a && u[|a|..|a| + |b|] == b && u[|a| + |b|..] == rest;
    assert s[pos..pos + |a|] == u[..|a|] && s[pos + |a|..pos + |a| + |b|] == u[|a|..|a| + |b|];
  }

  /** The pieces at the end, perhaps with a colon behind them. */
  lemma {:induction false} ReadLast(s: Text, pos: nat, ws: seq<Word>, ps: seq<Piece>, colon: bool, gap: int)
    requires pos <= |s| && s[pos..] == Joined(ps) + (if colon then [COLON] else []) && (colon ==> ps != [])
    requires AllLax(ps) && AllWords(ps) && |ws| + |ps| <= 8
    ensures ScanWords(s, pos, |s|, ws, gap) == Done(ws + AllPieceWords(ps), gap)
    ensures |AllPieceWords(ps)| == |ps|
  {
    hide Joined, Ended, ScanWords, PieceWords, LaxPiece;
    if ps == [] {
      JoinedNone();
      assert ws + [] == ws;
      ScanEnd(s, pos, |s|, ws, gap);
    } else {
      var front, p := ps[..|ps| - 1], ps[|ps| - 1];
      assert ps == front + [p];
      JoinedEnd(front, p);
      var e, t := Ended(front), p.text;
      var u := s[pos..];
      assert p == HexPiece(t);
      assert u == e + t + if colon then [COLON] else [];
      TwoParts(s, pos, e, t, if colon then [COLON] else []);
      ReadEnded(s, pos, |s|, ws, front, gap);
      ReadPiece(s, pos + |e|, |s|, ws + AllPieceWords(front), gap, t);
      ScanEnd(s, pos + |e| + |t| + 1, |s|, ws + AllPieceWords(front) + PieceWords(p), gap);
      assert ws + AllPieceWords(front) + PieceWords(p) == ws + (AllPieceWords(front) + PieceWords(p));
    }
  }

  lemma {:induction false} PiecesDotless(ps: seq<Piece>)
    requires AllLax(ps) && AllWords(ps)
    ensures Dotless(Ended(ps)) && Dotless(Joined(ps))
  {
    if ps != [] {
      PiecesDotless(ps[1..]);
      var t := ps[0].text;
      forall i | 0 <= i < |t|
        ensures t[i] != DOT
      {
        if HasPrefix(t) && i >= 2 {
          assert t[i] == t[2..][i - 2];
        }
      }
    }
  }

  // Four octets.

  lemma {:induction false} ReadInt(s: Text, i: nat, t: Text)
    requires i + |t| <= |s| && s[i..i + |t|] == t && IsInt(t) && !IsDigit(At(s, i + |t|))
    ensures ScanInt(s, i) == Some((IntValue(t), i + |t|))
    decreases |t|
  {
    hide AsInt, DigitRun, DigitsValue;
    assert s[i] == t[0];
    if IsSpace(t[0]) {
      assert s[i + 1..i + |t|] == t[1..];
      ReadInt(s, i + 1, t[1..]);
    } else {
      var off := if IsSign(t[0]) then 1 else 0;
      forall k | i + off <= k < i + |t|
        ensures IsDigit(s[k])
      {
        assert s[k] == t[off..][k - i - off];
      }
      DigitRunIs(s, i + off, |t| - off);
      assert s[i + off..i + |t|] == t[off..];
      assert t[0..] == t;
    }
  }

  lemma {:induction false} ReadQuad(q: Piece)
    requires q.QuadPiece? && LaxPiece(q)
    ensures ScanQuad(Spelling(q)) == Some([IntValue(q.a), IntValue(q.b), IntValue(q.c), IntValue(q.d)])
    ensures QuadWords([IntValue(q.a), IntValue(q.b), IntValue(q.c), IntValue(q.d)]) == Some(PieceWords(q))
  {
    hide IsInt, IntValue, ScanInt;
    var s := Spelling(q);
    var i := |q.a|;
    var j := i + 1 + |q.b|;
    var k := j + 1 + |q.c|;
    FourParts(q.a, q.b, q.c, q.d);
    ReadInt(s, 0, q.a);
    ReadInt(s, i + 1, q.b);
    ReadInt(s, j + 1, q.c);
    ReadInt(s, k + 1, q.d);
  }

  /** Where the octets start. */
  lemma {:induction false} DottedAt(front: Text, q: Piece)
    requires Dotless(front) && front != [] && front[|front| - 1] == COLON
    requires q.QuadPiece? && LaxPiece(q)
    ensures var s := front + Spelling(q);
            var dot := IndexOf(s, DOT);
            0 < dot < |s| && DigitsBefore(s, dot) == |front| && s[|front|..] == Spelling(q)
  {
    hide IndexOf, DigitsBefore, IsInt, IntValue, AllDigits, Dotless;
    var rest := [DOT] + q.b + [DOT] + q.c + [DOT] + q.d;
    assert Spelling(q) == q.a + rest;
    DotBehind(front, q.a, rest);
  }

  lemma {:induction false} DotBehind(front: Text, a: Text, rest: Text)
    requires Dotless(front) && front != [] && front[|front| - 1] == COLON && AllDigits(a)
    requires rest != [] && rest[0] == DOT
    ensures var s := front + (a + rest);
            IndexOf(s, DOT) == |front| + |a| && DigitsBefore(s, |front| + |a|) == |front| && s[|front|..] == a + rest
  {
    hide IndexOf, DigitsBefore;
    var s, dot := front + (a + rest), |front| + |a|;
    assert s[..dot] == front + a && s[dot] == rest[0];
    IndexOfIs(s, DOT, dot);
    forall k | |front| <= k < dot
      ensures IsDigit(s[k])
    {
      assert s[k] == a[k - |front|];
    }
    DigitsBeforeIs(s, |front|, dot);
  }

  /** The words that have been found are put together as the notation means. */
  lemma {:induction false} Meant(a: seq<Word>, b: seq<Word>, last: seq<Word>)
    requires |last| <= 2
    ensures |a| + |last| == 8 ==> Assembled(Done(a, -1), last) == Some(a + last)
    ensures |a| + |b| + |last| <= 7 ==>
              Assembled(Done(a + b, |a|), last) == Some(a + seq(8 - |a| - |b + last|, _ => 0) + (b + last))
  {
    if |a| + |b| + |last| <= 7 {
      assert (a + b)[..|a|] == a && (a + b)[|a|..] == b;
      var zeros := seq(8 - |a| - |b + last|, _ => 0 as Word);
      assert a + zeros + b + last == a + zeros + (b + last);
    }
  }

  /** Every text of the wider grammar is accepted, and parsed to the words that it stands for. */
  lemma {:induction false} LaxReads(n: Notation, colon: bool)
    requires Lax(n) && (colon ==> EndsInWord(n))
    ensures Parsed(Closed(n, colon)) == Some(Meaning(n))
  {
    hide Joined, AllLax, AllWords, ScanWords, ScanQuad, AllPieceWords, Assembled, IndexOf, DigitsBefore, PieceWords,
         LaxPiece;
    var ps := if n.Plain? then n.ps else n.back;
    if ps != [] && ps[|ps| - 1].QuadPiece? {
      QuadReads(n, ps, ps[..|ps| - 1], ps[|ps| - 1]);
      assert Spelled(n) + [] == Spelled(n);
    } else {
      WordsRead(n, ps, colon);
    }
  }

  lemma {:induction false} AllWordsAtEnd(ps: seq<Piece>)
    requires QuadAtEnd(ps) && (ps == [] || ps[|ps| - 1].HexPiece?)
    ensures AllWords(ps)
  {
    forall i | 0 <= i < |ps|
      ensures ps[i].HexPiece?
    {
      assert i < |ps| - 1 ==> ps[..|ps| - 1][i] == ps[i];
    }
  }

  lemma {:induction false} WordsRead(n: Notation, ps: seq<Piece>, colon: bool)
    requires Lax(n) && (colon ==> ps != []) && ps == (if n.Plain? then n.ps else n.back)
    requires ps == [] || ps[|ps| - 1].HexPiece?
    ensures Parsed(Closed(n, colon)) == Some(Meaning(n))
  {
    hide Joined, AllLax, AllWords, ScanWords, ScanQuad, AllPieceWords, Assembled, IndexOf, DigitsBefore, Dotless;
    var s, tail := Closed(n, colon), Joined(ps) + if colon then [COLON] else [];
    AllWordsAtEnd(ps);
    PiecesDotless(ps);
    WordsCount(ps);
    var all := AllPieceWords(ps);
    if n.Plain? {
      WithColons([], Joined(ps), if colon then [COLON] else []);
      assert s == [] + Joined(ps) + if colon then [COLON] else [];
      assert s[0..] == tail;
      ReadLast(s, 0, [], ps, colon, -1);
      assert [] + all == all && all + [] == all;
      Meant(all, [], []);
    } else {
      var f := Joined(n.front) + [COLON, COLON];
      PiecesDotless(n.front);
      WordsCount(n.front);
      var a := AllPieceWords(n.front);
      WithColons([], Joined(ps), if colon then [COLON] else []);
      WithColons(Joined(n.front), [COLON, COLON], tail);
      assert s == f + tail;
      assert s[..|f|] == f && s[|f|..] == tail;
      ReadFront(s, |s|, n.front);
      ReadLast(s, |f|, a, ps, colon, |a|);
      assert all + [] == all;
      Meant(a, all, []);
    }
    DotlessIndex(s);
  }

  lemma {:induction false} WordsCount(ps: seq<Piece>)
    requires AllLax(ps) && AllWords(ps)
    ensures |AllPieceWords(ps)| == |ps|
  {
    if ps != [] {
      WordsCount(ps[1..]);
    }
  }

  lemma WithColons(a: Text, b: Text, c: Text)
    requires Dotless(a) && (b == [COLON, COLON] || Dotless(b)) && (c == [] || c == [COLON] || Dotless(c))
    ensures Dotless(a + b + c) && Dotless(b + c) && Dotless(a + b)
  {
  }

  lemma {:induction false} QuadReads(n: Notation, ps: seq<Piece>, words: seq<Piece>, q: Piece)
    requires Lax(n) && ps == (if n.Plain? then n.ps else n.back) && ps == words + [q] && q.QuadPiece?
    ensures Parsed(Spelled(n)) == Some(Meaning(n))
  {
    hide Joined, Ended, AllLax, AllWords, ScanWords, ScanQuad, AllPieceWords, Assembled, IndexOf, DigitsBefore,
         Dotless, LaxPiece, PieceWords, QuadWords;
    JoinedEnd(words, q);
    WordsCount(words);
    PiecesDotless(words);
    EndedEnds(words);
    ReadQuad(q);
    if n.Plain? {
      PlainQuadReads(n, words, q);
    } else {
      GappedQuadReads(n, words, q);
    }
  }

  lemma {:induction false} DottedParsed(front: Text, q: Piece)
    requires Dotless(front) && front != [] && front[|front| - 1] == COLON && LaxPiece(q) && q.QuadPiece?
    requires var b := [IntValue(q.a), IntValue(q.b), IntValue(q.c), IntValue(q.d)];
             ScanQuad(Spelling(q)) == Some(b) && QuadWords(b) == Some(PieceWords(q))
    ensures var s := front + Spelling(q);
            Parsed(s) == Assembled(ScanWords(s, 0, |front|, [], -1), PieceWords(q))
  {
    hide ScanWords, ScanQuad, Assembled, IndexOf, DigitsBefore, LaxPiece, PieceWords, QuadWords, Spelling;
    DottedAt(front, q);
  }

  lemma {:induction false} PlainQuadReads(n: Notation, words: seq<Piece>, q: Piece)
    requires n == Plain(words + [q]) && Lax(n) && LaxPiece(q) && q.QuadPiece? && AllLax(words) && AllWords(words)
    requires Joined(words + [q]) == Ended(words) + Spelling(q) && Dotless(Ended(words))
             && |AllPieceWords(words)| == |words|
    requires words != [] <==> Ended(words) != []
    requires words != [] ==> Ended(words)[|Ended(words)| - 1] == COLON
    requires AllPieceWords(words + [q]) == AllPieceWords(words) + PieceWords(q)
    requires var b := [IntValue(q.a), IntValue(q.b), IntValue(q.c), IntValue(q.d)];
             ScanQuad(Spelling(q)) == Some(b) && QuadWords(b) == Some(PieceWords(q))
    ensures Parsed(Spelled(n)) == Some(Meaning(n))
  {
    hide Joined, Ended, AllLax, AllWords, ScanWords, ScanQuad, AllPieceWords, Assembled, Dotless, LaxPiece, PieceWords,
         QuadWords, Spelling, Parsed;
    var s, e, all := Spelled(n), Ended(words), AllPieceWords(words);
    DottedParsed(e, q);
    assert s[0..|e|] == e;
    ReadEnded(s, 0, |e|, [], words, -1);
    ScanEnd(s, |e|, |e|, all, -1);
    assert [] + all == all;
    Meant(all, [], PieceWords(q));
  }

  lemma ThreeParts(f: Text, e: Text, t: Text)
    requires f != [] && f[|f| - 1] == COLON && (e != [] ==> e[|e| - 1] == COLON)
    ensures (f + e)[|f + e| - 1] == COLON && f + (e + t) == f + e + t
    ensures (f + e + t)[..|f|] == f && (f + e + t)[|f|..|f| + |e|] == e
  {
    assert (f + e)[|f + e| - 1] == if e == [] then f[|f| - 1] else e[|e| - 1];
  }

  lemma {:induction false} GappedQuadReads(n: Notation, words: seq<Piece>, q: Piece)
    requires n.Gapped? && n.back == words + [q]
    requires Lax(n) && LaxPiece(q) && q.QuadPiece? && AllLax(words) && AllWords(words)
    requires Joined(words + [q]) == Ended(words) + Spelling(q) && Dotless(Ended(words))
             && |AllPieceWords(words)| == |words|
    requires words != [] <==> Ended(words) != []
    requires words != [] ==> Ended(words)[|Ended(words)| - 1] == COLON
    requires AllPieceWords(words + [q]) == AllPieceWords(words) + PieceWords(q)
    requires var b := [IntValue(q.a), IntValue(q.b), IntValue(q.c), IntValue(q.d)];
             ScanQuad(Spelling(q)) == Some(b) && QuadWords(b) == Some(PieceWords(q))
    ensures Parsed(Spelled(n)) == Some(Meaning(n))
  {
    hide Joined, Ended, AllLax, AllWords, ScanWords, ScanQuad, AllPieceWords, Assembled, Dotless, LaxPiece, PieceWords,
         QuadWords, Spelling, Parsed;
    var s, e, f := Spelled(n), Ended(words), Joined(n.front) + [COLON, COLON];
    PiecesDotless(n.front);
    WordsCount(n.front);
    var a, all := AllPieceWords(n.front), AllPieceWords(words);
    WithColons(Joined(n.front), [COLON, COLON], e);
    ThreeParts(f, e, Spelling(q));
    assert s == f + e + Spelling(q);
    DottedParsed(f + e, q);
    GapScanned(s, n.front, words);
    Meant(a, all, PieceWords(q));
  }

  lemma {:induction false} GapScanned(s: Text, front: seq<Piece>, words: seq<Piece>)
    requires AllLax(front) && AllWords(front) && AllLax(words) && AllWords(words) && |front| + |words| <= 7
    requires var f := Joined(front) + [COLON, COLON]; var e := Ended(words);
             |f| + |e| <= |s| && s[..|f|] == f && s[|f|..|f| + |e|] == e
    ensures ScanWords(s, 0, |Joined(front) + [COLON, COLON] + Ended(words)|, [], -1)
            == Done(AllPieceWords(front) + AllPieceWords(words), |AllPieceWords(front)|)
  {
    hide Joined, Ended, AllLax, AllWords, ScanWords, AllPieceWords;
    var f, e := Joined(front) + [COLON, COLON], Ended(words);
    var a := AllPieceWords(front);
    ReadFront(s, |f + e|, front);
    ReadEnded(s, |f|, |f + e|, a, words, |a|);
    ScanEnd(s, |f + e|, |f + e|, a + AllPieceWords(words), |a|);
  }

  lemma {:induction false} EndedEnds(ps: seq<Piece>)
    ensures ps != [] <==> Ended(ps) != []
    ensures ps != [] ==> Ended(ps)[|Ended(ps)| - 1] == COLON
  {
    if ps != [] {
      EndedEnds(ps[1..]);
    }
  }

  /** Every text of the grammar of section 2.2 of RFC 4291 is accepted, and parsed to the words that it stands for. */
  lemma {:induction false} StrictReads(n: Notation)
    requires Strict(n)
    ensures Parsed(Spelled(n)) == Some(Meaning(n))
  {
    hide Lax, Meaning, Parsed;
    LaxReads(n, false);
    assert Spelled(n) + [] == Spelled(n);
  }

  // What is printed is in the grammar, and parsed to what it was printed from.

  function HexPieces(ws: seq<Word>): seq<Piece> {
    if ws == [] then [] else [HexPiece(Hex(ws[0]))] + HexPieces(ws[1..])
  }

  lemma {:induction false} HexPieceIs(w: Word)
    ensures StrictPiece(HexPiece(Hex(w))) && LaxPiece(HexPiece(Hex(w))) && PieceWords(HexPiece(Hex(w))) == [w]
  {
    var t := Hex(w);
    WordLength(w);
    HexValue(w);
    assert HasPrefix(t) ==> IsXDigit(t[1]);
  }

  lemma {:induction false} HexPiecesAre(ws: seq<Word>)
    ensures var ps := HexPieces(ws);
      && AllStrict(ps) && AllLax(ps) && AllWords(ps) && QuadAtEnd(ps) && AllPieceWords(ps) == ws
      && Joined(ps) == Tail(ws) && Ended(ps) == Head(ws) && |ps| == |ws|
  {
    hide StrictPiece, LaxPiece, Hex, PieceWords;
    if ws != [] {
      HexPiecesAre(ws[1..]);
      HexPieceIs(ws[0]);
      assert HexPieces(ws)[1..] == HexPieces(ws[1..]);
    }
  }

  lemma {:induction false} HexFormStrict(ws: seq<Word>, p: int, q: int) returns (n: Notation)
    requires |ws| == 8 && (p == -1 || (0 <= p < q <= 8 && AllZero(ws, p, q)))
    ensures Strict(n) && Spelled(n) == HexForm(ws, p, q) && Meaning(n) == ws
  {
    hide StrictPiece, LaxPiece, Hex, PieceWords, Joined, Ended, Head, Tail, AllLax, AllWords, AllPieceWords, HexPieces;
    if p == -1 {
      HexPiecesAre(ws);
      n := Plain(HexPieces(ws));
    } else {
      var a, b := ws[..p], ws[q..];
      HexPiecesAre(a);
      HexPiecesAre(b);
      FrontIs(HexPieces(a));
      n := Gapped(HexPieces(a), HexPieces(b));
      assert a + seq(q - p, _ => 0) + b == ws;
    }
  }

  lemma {:induction false} DecOctet(n: nat)
    requires n < 256
    ensures StrictOctet(Dec(n)) && LaxOctet(Dec(n)) && IntValue(Dec(n)) == n
  {
    hide Dec, DigitsValue;
    DecLength(n);
    DecValue(n);
    Unsigned(Dec(n));
  }

  lemma {:induction false} QuadStrict(a: Word, b: Word) returns (q: Piece)
    ensures q.QuadPiece? && StrictPiece(q) && LaxPiece(q) && PieceWords(q) == [a, b] && Spelling(q) == Quad(a, b)
  {
    hide Dec, StrictOctet, LaxOctet;
    q := QuadPiece(Dec(a / 256), Dec(a % 256), Dec(b / 256), Dec(b % 256));
    DecOctet(a / 256);
    DecOctet(a % 256);
    DecOctet(b / 256);
    DecOctet(b % 256);
  }

  lemma {:induction false} V4FormStrict(ws: seq<Word>) returns (n: Notation)
    requires |ws| == 8 && IsV4(ws)
    ensures Strict(n) && Spelled(n) == V4Form(ws) && Meaning(n) == ws
  {
    hide StrictPiece, LaxPiece, Hex, Quad, Spelling, PieceWords;
    var q := QuadStrict(ws[6], ws[7]);
    JoinedNone();
    if ws[5] == 0 {
      n := Gapped([], [q]);
      assert AllPieceWords([q]) == [ws[6], ws[7]];
      assert [] + seq(6, _ => 0) + [ws[6], ws[7]] == ws;
    } else {
      n := FiveZeros(ws, q);
    }
  }

  lemma {:induction false} FiveZeros(ws: seq<Word>, q: Piece) returns (n: Notation)
    requires |ws| == 8 && forall i :: 0 <= i < 5 ==> ws[i] == 0
    requires q.QuadPiece? && StrictPiece(q) && LaxPiece(q) && PieceWords(q) == [ws[6], ws[7]]
    requires Spelling(q) == Quad(ws[6], ws[7])
    ensures Strict(n) && Meaning(n) == ws
    ensures Spelled(n) == [COLON, COLON] + (Hex(ws[5]) + [COLON] + Quad(ws[6], ws[7]))
  {
    hide StrictPiece, LaxPiece, Hex, Quad, Spelling, PieceWords;
    JoinedNone();
    var h := HexPiece(Hex(ws[5]));
    HexPieceIs(ws[5]);
    n := Gapped([], [h, q]);
    assert [h, q][1..] == [q] && [h, q][..1] == [h];
    assert AllPieceWords([q]) == [ws[6], ws[7]];
    assert AllPieceWords([h, q]) == [ws[5], ws[6], ws[7]];
    assert [] + seq(5, _ => 0) + [ws[5], ws[6], ws[7]] == ws;
    SpellingOfHex(Hex(ws[5]));
    assert Joined([h, q]) == Spelling(h) + [COLON] + Joined([q]) && Joined([q]) == Spelling(q);
    assert Spelled(n) == [COLON, COLON] + (Hex(ws[5]) + [COLON] + Quad(ws[6], ws[7]));
  }

  lemma SpellingOfHex(t: Text)
    ensures Spelling(HexPiece(t)) == t
  {
  }

  /** The printed form of any address is in the grammar, and parsing it gives the eight words of the address back. */
  lemma {:induction false} RoundTrip(ws: seq<Word>, text: Text)
    requires |ws| == 8 && IsForm(ws, text)
    ensures exists n :: Strict(n) && Spelled(n) == text && Meaning(n) == ws
    ensures Parsed(text) == Some(ws)
  {
    hide Parsed, V4Form, HexForm, Strict, Lax, Spelled, Meaning;
    var n;
    if IsV4(ws) {
      n := V4FormStrict(ws);
    } else {
      var p, q :| IsBestGap(ws, p, q) && text == HexForm(ws, p, q);
      n := HexFormStrict(ws, p, q);
    }
    StrictReads(n);
  }

  // No other texts are accepted.

  /** Where the words end: at the end of the text, or where the digits before the first dot start. */
  ghost predicate IsBorder(s: Text, eow: nat, dot: nat) {
    || eow == dot == |s|
    || (eow < dot < |s| && s[dot] == DOT && forall k :: eow <= k < dot ==> IsDigit(s[k]))
  }

  /** A word that is read is one of the grammar, with a colon or the end of the text behind it. */
  lemma {:induction false} WordShape(s: Text, pos: nat, eow: nat, dot: nat, ws: seq<Word>, gap: int) returns (next: nat)
    requires IsBorder(s, eow, dot) && pos < eow && IsXDigit(s[pos]) && ScanWords(s, pos, eow, ws, gap).Done?
    ensures pos < next <= eow && (if next == eow then eow == |s| else s[next] == COLON)
    ensures LaxPiece(HexPiece(s[pos..next]))
    ensures ScanWords(s, pos, eow, ws, gap) == ScanWords(s, next + 1, eow, ws + PieceWords(HexPiece(s[pos..next])), gap)
  {
    hide DigitsValue, XRun;
    var start := HexStart(s, pos);
    next := start + XRun(s, start);
    var t := s[pos..next];
    if start == pos {
      assert t[0] == s[pos];
      assert |t| > 2 ==> t[1] == s[pos + 1];
      forall k | 0 <= k < |t|
        ensures IsXDigit(t[k])
      {
        assert t[k] == s[pos + k];
      }
    } else {
      assert s[start] == At(s, start);
      assert t[0] == s[pos] && t[1] == s[pos + 1];
      assert t[2..] == s[start..next];
      assert AllXDigits(t[2..]);
    }
    assert s[start..next] == if HasPrefix(t) then t[2..] else t;
  }

  /** The pieces from some place on, the last with a colon behind it or not. */
  function Run(ps: seq<Piece>, closed: bool): Text {
    if closed then Ended(ps) else Joined(ps)
  }

  lemma {:induction false} RunMore(p: Piece, ps: seq<Piece>, closed: bool)
    requires ps == [] ==> closed
    ensures Run([p] + ps, closed) == Spelling(p) + [COLON] + Run(ps, closed)
    ensures Joined([p]) == Spelling(p) && Run([], closed) == []
    ensures AllLax(ps) && AllWords(ps) && LaxPiece(p) && p.HexPiece? ==>
              AllLax([p] + ps) && AllWords([p] + ps) && AllPieceWords([p] + ps) == PieceWords(p) + AllPieceWords(ps)
  {
    hide Spelling, LaxPiece;
    assert ([p] + ps)[1..] == ps;
  }

  lemma SplitAt(s: Text, pos: nat, next: nat, eow: nat)
    requires pos <= next < eow <= |s| && s[next] == COLON
    ensures s[pos..eow] == s[pos..next] + [COLON] + s[next + 1..eow]
  {
  }

  /** Words with no gap to come. */
  lemma {:induction false} TailShape(s: Text, pos: nat, eow: nat, dot: nat, ws: seq<Word>, gap: int)
    returns (ps: seq<Piece>, closed: bool)
    requires IsBorder(s, eow, dot) && pos <= eow <= |s| && gap != -1 && ScanWords(s, pos, eow, ws, gap).Done?
    ensures AllLax(ps) && AllWords(ps) && s[pos..eow] == Run(ps, closed)
    ensures (ps == [] || eow < |s|) ==> closed
    ensures ScanWords(s, pos, eow, ws, gap) == Done(ws + AllPieceWords(ps), gap)
    decreases eow - pos
  {
    hide IsBorder, LaxPiece, PieceWords, Run, AllLax, AllWords, ScanWords, IsXDigit;
    if pos == eow {
      ps, closed := [], true;
      NoPieces();
      ScanEnd(s, pos, eow, ws, gap);
      assert ws + AllPieceWords([]) == ws;
    } else {
      MustBeDigit(s, pos, eow, ws, gap);
      var next := WordShape(s, pos, eow, dot, ws, gap);
      var p := HexPiece(s[pos..next]);
      NoPieces();
      RunMore(p, [], true);
      if next == eow {
        ps, closed := [p], false;
        ScanEnd(s, next + 1, eow, ws + PieceWords(p), gap);
        OnePiece(p);
      } else {
        SplitAt(s, pos, next, eow);
        ps, closed := TailShape(s, next + 1, eow, dot, ws + PieceWords(p), gap);
        RunMore(p, ps, closed);
        assert ws + PieceWords(p) + AllPieceWords(ps) == ws + (PieceWords(p) + AllPieceWords(ps));
        ps := [p] + ps;
      }
    }
  }

  lemma MustBeDigit(s: Text, pos: nat, eow: nat, ws: seq<Word>, gap: int)
    requires pos < eow <= |s| && gap != -1 && ScanWords(s, pos, eow, ws, gap).Done?
    ensures IsXDigit(s[pos])
  {
  }

  lemma NoPieces()
    ensures AllLax([]) && AllWords([]) && AllPieceWords([]) == [] && Run([], true) == []
  {
  }

  lemma OnePiece(p: Piece)
    requires LaxPiece(p) && p.HexPiece?
    ensures AllLax([p]) && AllWords([p]) && AllPieceWords([p]) == PieceWords(p) && Run([p], false) == Spelling(p)
  {
  }

  /** All words, perhaps with a gap among them. */
  lemma {:induction false} Shape(s: Text, pos: nat, eow: nat, dot: nat, ws: seq<Word>)
    returns (front: seq<Piece>, gapped: bool, back: seq<Piece>, closed: bool)
    requires IsBorder(s, eow, dot) && pos <= eow <= |s| && ScanWords(s, pos, eow, ws, -1).Done?
    ensures AllLax(front) && AllWords(front) && AllLax(back) && AllWords(back)
    ensures (gapped && back == []) || (!gapped && front == []) || eow < |s| ==> closed
    ensures ScanWords(s, pos, eow, ws, -1)
            == if gapped then Done(ws + AllPieceWords(front) + AllPieceWords(back), |ws + AllPieceWords(front)|)
               else Done(ws + AllPieceWords(front), -1)
    ensures s[pos..eow]
            == if gapped then Ended(front) + (if ws == [] && front == [] then [COLON, COLON] else [COLON]) + Run(back, closed)
               else Run(front, closed)
    decreases eow - pos
  {
    hide LaxPiece, PieceWords, Run, AllLax, AllWords, Ended, ScanWords, IsXDigit, IsBorder, AllPieceWords;
    NoPieces();
    JoinedNone();
    ScanEnd(s, if pos == eow then pos else eow, eow, ws, -1);
    front, gapped, back, closed := [], false, [], true;
    assert ws + [] == ws;
    if pos < eow {
      if IsXDigit(s[pos]) {
        var next := WordShape(s, pos, eow, dot, ws, -1);
        var p := HexPiece(s[pos..next]);
        var now := ws + PieceWords(p);
        if next == eow {
          front, closed := [p], false;
          ScanEnd(s, next + 1, eow, now, -1);
          OnePiece(p);
        } else {
          var rest;
          rest, gapped, back, closed := Shape(s, next + 1, eow, dot, now);
          front := [p] + rest;
          ShapeMore(s, pos, next, eow, ws, p, rest, gapped, back, closed);
        }
      } else {
        gapped := true;
        back, closed := GapShape(s, pos, eow, dot, ws);
      }
    }
  }

  lemma {:induction false} GapShape(s: Text, pos: nat, eow: nat, dot: nat, ws: seq<Word>)
    returns (back: seq<Piece>, closed: bool)
    requires IsBorder(s, eow, dot) && pos < eow <= |s| && ScanWords(s, pos, eow, ws, -1).Done? && !IsXDigit(s[pos])
    ensures AllLax(back) && AllWords(back) && (back == [] || eow < |s| ==> closed)
    ensures ScanWords(s, pos, eow, ws, -1) == Done(ws + AllPieceWords(back), |ws|)
    ensures s[pos..eow] == (if ws == [] then [COLON, COLON] else [COLON]) + Run(back, closed)
  {
    hide LaxPiece, PieceWords, Run, AllLax, AllWords, Ended;
    var next := if ws == [] then pos + 2 else pos + 1;
    back, closed := TailShape(s, next, eow, dot, ws, |ws|);
    assert s[pos..eow] == s[pos..next] + s[next..eow];
    assert s[pos..next] == if ws == [] then [COLON, COLON] else [COLON];
  }

  /** A word in front of all words that come behind it. */
  lemma {:induction false} ShapeMore(s: Text, pos: nat, next: nat, eow: nat, ws: seq<Word>, p: Piece, rest: seq<Piece>,
                                     gapped: bool, back: seq<Piece>, closed: bool)
    requires pos < next < eow <= |s| && s[next] == COLON && p == HexPiece(s[pos..next]) && LaxPiece(p)
    requires AllLax(rest) && AllWords(rest) && AllLax(back) && (gapped || rest != [] || closed)
    requires s[next + 1..eow]
             == if gapped then Ended(rest) + (if ws + PieceWords(p) == [] && rest == [] then [COLON, COLON] else [COLON])
                               + Run(back, closed)
                else Run(rest, closed)
    ensures AllLax([p] + rest) && AllWords([p] + rest)
    ensures ws + PieceWords(p) + AllPieceWords(rest) == ws + AllPieceWords([p] + rest)
    ensures s[pos..eow]
            == if gapped then Ended([p] + rest) + [COLON] + Run(back, closed) else Run([p] + rest, closed)
  {
    hide LaxPiece, PieceWords, Run, AllLax, AllWords, Ended;
    SplitAt(s, pos, next, eow);
    RunMore(p, rest, if gapped then true else closed);
    EndedMore(p, rest);
    assert ws + PieceWords(p) + AllPieceWords(rest) == ws + (PieceWords(p) + AllPieceWords(rest));
    if gapped {
      Associative(s[pos..next], Ended(rest), Run(back, closed));
    }
  }

  lemma Associative(a: Text, b: Text, c: Text)
    ensures a + [COLON] + (b + [COLON] + c) == a + [COLON] + b + [COLON] + c
  {
  }

  lemma EndedMore(p: Piece, ps: seq<Piece>)
    ensures Ended([p] + ps) == Spelling(p) + [COLON] + Ended(ps)
  {
    assert ([p] + ps)[1..] == ps;
  }

  lemma {:induction false} DigitRunAll(s: Text, i: nat)
    ensures forall k :: i <= k < i + DigitRun(s, i) ==> IsDigit(At(s, k))
    ensures !IsDigit(At(s, i + DigitRun(s, i)))
    decreases |s| - i
  {
    if i < |s| && IsDigit(s[i]) {
      DigitRunAll(s, i + 1);
    }
  }

  lemma SignedShape(t: Text, n: nat)
    requires n <= 1 && n < |t| && AllDigits(t[n..]) && (if n == 1 then IsSign(t[0]) else !IsSpace(t[0]))
    ensures IsInt(t) && (n == 0 ==> AllDigits(t))
    ensures WrittenValue(t) == if t[0] == 45 then 0 - DigitsValue(t[n..], 10) else DigitsValue(t[n..], 10)
  {
    hide DigitsValue;
    assert t[0..] == t;
    assert n == 0 ==> IsDigit(t[n..][0]);
  }

  lemma {:induction false} IntShape(s: Text, i: nat)
    requires i <= |s| && ScanInt(s, i).Some?
    ensures var (v, e) := ScanInt(s, i).value;
            && i < e <= |s| && IsInt(s[i..e]) && IntValue(s[i..e]) == v
            && (i < |s| && IsDigit(s[i]) ==> AllDigits(s[i..e]))
    decreases |s| - i
  {
    hide AsInt, DigitRun, DigitsValue;
    var (v, e) := ScanInt(s, i).value;
    if i < |s| && IsSpace(s[i]) {
      IntShape(s, i + 1);
      assert s[i..e][1..] == s[i + 1..e];
    } else {
      var k := if At(s, i) == 43 || At(s, i) == 45 then i + 1 else i;
      DigitRunAll(s, k);
      var t, d := s[i..e], s[k..e];
      forall j | 0 <= j < |d|
        ensures IsDigit(d[j])
      {
        assert d[j] == At(s, k + j);
      }
      assert t[0] == s[i] && t[k - i..] == d && AllDigits(d);
      SignedShape(t, k - i);
    }
  }

  lemma {:induction false} QuadShape(s: Text) returns (q: Piece)
    requires ScanQuad(s).Some? && |ScanQuad(s).value| == 4 && QuadWords(ScanQuad(s).value).Some?
    requires s != [] && IsDigit(s[0])
    ensures q.QuadPiece? && LaxPiece(q) && Spelling(q) == s && QuadWords(ScanQuad(s).value) == Some(PieceWords(q))
  {
    hide ScanInt, IsInt, IntValue, AllDigits;
    var i := ScanInt(s, 0).value.1;
    IntShape(s, 0);
    var j := ScanInt(s, i + 1).value.1;
    IntShape(s, i + 1);
    var k := ScanInt(s, j + 1).value.1;
    IntShape(s, j + 1);
    IntShape(s, k + 1);
    q := QuadPiece(s[0..i], s[i + 1..j], s[j + 1..k], s[k + 1..|s|]);
    FourSlices(s, i, j, k);
    var v := ScanQuad(s).value;
    assert v == [IntValue(q.a), IntValue(q.b), IntValue(q.c), IntValue(q.d)];
    assert forall x :: 0 <= x < 4 ==> 0 <= v[x] <= 255;
    assert 0 <= v[0] <= 255 && 0 <= v[1] <= 255 && 0 <= v[2] <= 255 && 0 <= v[3] <= 255;
  }

  lemma FourSlices(s: Text, i: nat, j: nat, k: nat)
    requires i < j < k < |s| && s[i] == DOT && s[j] == DOT && s[k] == DOT
    ensures s == s[0..i] + [DOT] + s[i + 1..j] + [DOT] + s[j + 1..k] + [DOT] + s[k + 1..|s|]
  {
  }

  /** A text that is accepted is one of the wider grammar. */
  lemma {:induction false} ParsedIsLax(s: Text) returns (n: Notation, colon: bool)
    requires Parsed(s).Some?
    ensures Lax(n) && (colon ==> EndsInWord(n)) && s == Closed(n, colon) && Parsed(s).value == Meaning(n)
  {
    hide IndexOf, DigitsBefore, ScanWords, ScanQuad, QuadWords, Assembled;
    var dot := IndexOf(s, DOT);
    if dot == |s| {
      n, colon := WordsAccepted(s);
    } else {
      var eow := DigitsBefore(s, dot);
      ScanQuadFour(s[eow..]);
      if eow == dot {
        NoOctet(s[eow..]);
      }
      assert s[eow..][0] == s[eow];
      var q := QuadShape(s[eow..]);
      n := QuadAccepted(s, eow, dot, q);
      colon := false;
      assert Spelled(n) + [] == Spelled(n);
    }
  }

  lemma NoOctet(s: Text)
    requires s != [] && s[0] == DOT
    ensures ScanQuad(s) == None
  {
  }

  lemma {:induction false} WordsAccepted(s: Text) returns (n: Notation, colon: bool)
    requires Assembled(ScanWords(s, 0, |s|, [], -1), []).Some?
    ensures Lax(n) && (colon ==> EndsInWord(n)) && s == Closed(n, colon)
    ensures Assembled(ScanWords(s, 0, |s|, [], -1), []).value == Meaning(n)
  {
    hide ScanWords, Joined, Ended, AllPieceWords, PieceWords, LaxPiece, Run, AllLax, AllWords, Assembled;
    AssembledNeeds(ScanWords(s, 0, |s|, [], -1), []);
    var front, gapped, back, closed := Shape(s, 0, |s|, |s|, []);
    var a, b := AllPieceWords(front), AllPieceWords(back);
    assert [] + a == a && a + [] == a && b + [] == b && s[0..|s|] == s;
    Ends(front);
    Ends(back);
    Meant(a, b, []);
    FrontIs(front);
    if gapped {
      RunIs(back, closed);
      n, colon := Gapped(front, back), closed && back != [];
      assert s == Joined(front) + [COLON, COLON] + Run(back, closed);
    } else {
      RunIs(front, closed);
      n, colon := Plain(front), closed;
    }
  }

  lemma {:induction false} RunIs(ps: seq<Piece>, closed: bool)
    requires AllWords(ps) && AllLax(ps) && (ps == [] ==> closed)
    ensures Run(ps, closed) == Joined(ps) + if closed && ps != [] then [COLON] else []
  {
    hide Joined, Ended, AllLax, AllWords;
    Ends(ps);
  }

  /** What is closed has a colon behind it. */
  lemma {:induction false} Ends(ps: seq<Piece>)
    requires AllWords(ps) && AllLax(ps)
    ensures QuadAtEnd(ps) && |AllPieceWords(ps)| == |ps|
    ensures ps != [] ==> ps[|ps| - 1].HexPiece? && Ended(ps) == Joined(ps) + [COLON]
    ensures ps == [] ==> Ended(ps) == Joined(ps) == []
  {
    hide Joined, Ended, LaxPiece, PieceWords;
    WordsCount(ps);
    if ps == [] {
      JoinedNone();
    } else {
      assert ps == ps[..|ps| - 1] + [ps[|ps| - 1]];
      JoinedEnd(ps[..|ps| - 1], ps[|ps| - 1]);
    }
  }

  lemma AssembledNeeds(scan: Scan, last: seq<Word>)
    requires |last| <= 2 && Assembled(scan, last).Some?
    ensures scan.Done? && -1 <= scan.gap <= |scan.ws|
    ensures if scan.gap == -1 then |scan.ws| + |last| == 8 else |scan.ws| + |last| <= 7
  {
  }

  lemma {:induction false} QuadAccepted(s: Text, eow: nat, dot: nat, q: Piece) returns (n: Notation)
    requires IsBorder(s, eow, dot) && eow < |s| && q.QuadPiece? && LaxPiece(q) && Spelling(q) == s[eow..]
    requires Assembled(ScanWords(s, 0, eow, [], -1), PieceWords(q)).Some?
    ensures Lax(n) && s == Spelled(n)
    ensures Assembled(ScanWords(s, 0, eow, [], -1), PieceWords(q)).value == Meaning(n)
  {
    hide ScanWords, Joined, Ended, AllPieceWords, PieceWords, LaxPiece, IsBorder, Spelling, Assembled, AllLax, AllWords;
    AssembledNeeds(ScanWords(s, 0, eow, [], -1), PieceWords(q));
    var front, gapped, back, closed := Shape(s, 0, eow, dot, []);
    var a, b, last := AllPieceWords(front), AllPieceWords(back), PieceWords(q);
    assert [] + a == a && s == s[0..eow] + s[eow..];
    Meant(a, b, last);
    if gapped {
      n := GappedNotation(front, back, q);
    } else {
      n := PlainNotation(front, q);
    }
  }

  lemma {:induction false} PlainNotation(front: seq<Piece>, q: Piece) returns (n: Notation)
    requires q.QuadPiece? && LaxPiece(q) && AllLax(front) && AllWords(front) && |AllPieceWords(front)| == 6
    ensures Lax(n) && Spelled(n) == Ended(front) + Spelling(q) && Meaning(n) == AllPieceWords(front) + PieceWords(q)
  {
    hide Joined, Ended, AllPieceWords, PieceWords, LaxPiece, Spelling, AllLax, AllWords;
    n := Plain(front + [q]);
    JoinedEnd(front, q);
  }

  lemma {:induction false} GappedNotation(front: seq<Piece>, back: seq<Piece>, q: Piece) returns (n: Notation)
    requires q.QuadPiece? && LaxPiece(q) && AllLax(front) && AllWords(front) && AllLax(back) && AllWords(back)
    requires |AllPieceWords(front)| + |AllPieceWords(back)| <= 5
    ensures Lax(n)
    ensures Spelled(n)
            == Ended(front) + (if front == [] then [COLON, COLON] else [COLON]) + Ended(back) + Spelling(q)
    ensures var a, b := AllPieceWords(front), AllPieceWords(back) + PieceWords(q);
            Meaning(n) == a + seq(8 - |a| - |b|, _ => 0) + b
  {
    hide Joined, Ended, AllPieceWords, PieceWords, LaxPiece, Spelling, AllLax, AllWords;
    n := Gapped(front, back + [q]);
    FrontIs(front);
    JoinedEnd(back, q);
    var f := Joined(front) + [COLON, COLON];
    assert f + (Ended(back) + Spelling(q)) == f + Ended(back) + Spelling(q);
  }

  /** evutil_inet_pton accepts exactly the texts of the wider grammar, and parses each to the words that it stands
      for. */
  lemma {:induction false} ParsedExactly(s: Text, ws: seq<Word>)
    ensures Parsed(s) == Some(ws)
            <==> exists n, colon :: Lax(n) && (colon ==> EndsInWord(n)) && s == Closed(n, colon) && ws == Meaning(n)
  {
    hide Parsed, Lax, EndsInWord, Meaning, Closed;
    if Parsed(s) == Some(ws) {
      var n, colon := ParsedIsLax(s);
    }
    if n, colon :| Lax(n) && (colon ==> EndsInWord(n)) && s == Closed(n, colon) && ws == Meaning(n) {
      LaxReads(n, colon);
    }
  }

  // A text has one notation.

  /** What stands between the colons of a text. */
  function Fields(s: Text): (fs: seq<Text>)
    ensures fs != []
    decreases |s|
  {
    var i := IndexOf(s, COLON);
    if i == |s| then [s] else [s[..i]] + Fields(s[i + 1..])
  }

  function Spellings(ps: seq<Piece>): (ts: seq<Text>)
    ensures |ts| == |ps| && forall i :: 0 <= i < |ps| ==> ts[i] == Spelling(ps[i])
  {
    if ps == [] then [] else [Spelling(ps[0])] + Spellings(ps[1..])
  }

  lemma {:induction false} FieldsMore(t: Text, rest: Text)
    requires COLON !in t
    ensures Fields(t + [COLON] + rest) == [t] + Fields(rest) && Fields(t) == [t]
  {
    var s := t + [COLON] + rest;
    assert s[|t|] == COLON && s[..|t|] == t && s[|t| + 1..] == rest;
    IndexOfIs(s, COLON, |t|);
  }

  lemma {:induction false} IntPlain(t: Text)
    requires IsInt(t)
    ensures COLON !in t && DOT !in t && t != []
  {
    if !AllDigits(t) {
      assert t == [t[0]] + t[1..];
      if IsSpace(t[0]) && IsInt(t[1..]) {
        IntPlain(t[1..]);
      }
    }
  }

  lemma {:induction false} PieceIsField(p: Piece)
    requires LaxPiece(p)
    ensures COLON !in Spelling(p) && Spelling(p) != []
    ensures p.HexPiece? <==> DOT !in Spelling(p)
  {
    match p
    case HexPiece(t) =>
      PiecesDotless([p]);
      forall i | 0 <= i < |t|
        ensures t[i] != COLON && t[i] != DOT
      {
        if HasPrefix(t) && i >= 2 {
          assert t[i] == t[2..][i - 2];
        }
      }
    case QuadPiece(a, b, c, d) =>
      IntPlain(a);
      IntPlain(b);
      IntPlain(c);
      IntPlain(d);
      assert Spelling(p)[|a|] == DOT;
  }

  lemma {:induction false} FieldsEnded(ps: seq<Piece>, rest: Text)
    requires AllLax(ps)
    ensures Fields(Ended(ps) + rest) == Spellings(ps) + Fields(rest)
  {
    hide Fields, Spelling, LaxPiece;
    if ps == [] {
      assert [] + rest == rest && [] + Fields(rest) == Fields(rest);
    } else {
      FieldsEnded(ps[1..], rest);
      PieceIsField(ps[0]);
      FieldsMore(Spelling(ps[0]), Ended(ps[1..]) + rest);
      assert Ended(ps) + rest == Spelling(ps[0]) + [COLON] + (Ended(ps[1..]) + rest);
      assert Spellings(ps) + Fields(rest) == [Spelling(ps[0])] + (Spellings(ps[1..]) + Fields(rest));
    }
  }

  /** The fields of the pieces at the end. */
  function LastFields(ps: seq<Piece>, colon: bool): (fs: seq<Text>)
    ensures fs != []
  {
    if ps == [] then [[]] else Spellings(ps) + if colon then [[]] else []
  }

  lemma {:induction false} FieldsLast(ps: seq<Piece>, colon: bool)
    requires AllLax(ps) && (colon ==> ps != [])
    ensures Fields(Joined(ps) + if colon then [COLON] else []) == LastFields(ps, colon)
  {
    hide Spelling, LaxPiece, Fields;
    NoFields();
    if ps == [] {
      assert Joined(ps) + [] == [];
    } else {
      var front, p := ps[..|ps| - 1], ps[|ps| - 1];
      assert ps == front + [p];
      JoinedEnd(front, p);
      PieceIsField(p);
      SpellingsEnd(front, p);
      if colon {
        FieldsEnded(ps, []);
        assert Joined(ps) + [COLON] == Ended(ps) + [];
      } else {
        FieldsMore(Spelling(p), []);
        FieldsEnded(front, Spelling(p));
        assert Joined(ps) + [] == Ended(front) + Spelling(p);
        assert Spellings(ps) + [] == Spellings(front) + [Spelling(p)];
      }
    }
  }

  lemma NoFields()
    ensures Fields([]) == [[]] && Fields([COLON]) == [[], []]
  {
    FieldsMore([], []);
    assert [] + [COLON] + [] == [COLON];
  }

  lemma {:induction false} SpellingsEnd(ps: seq<Piece>, p: Piece)
    ensures Spellings(ps + [p]) == Spellings(ps) + [Spelling(p)]
  {
    if ps != [] {
      assert (ps + [p])[1..] == ps[1..] + [p];
      SpellingsEnd(ps[1..], p);
    }
  }

  /** The fields of a notation: a gap is an empty one, or two if nothing comes before it. */
  function FieldsOf(n: Notation, colon: bool): seq<Text> {
    match n
    case Plain(ps) => LastFields(ps, colon)
    case Gapped(front, back) =>
      Spellings(front) + (if front == [] then [[], []] else [[]]) + LastFields(back, colon)
  }

  lemma {:induction false} FieldsAre(n: Notation, colon: bool)
    requires Lax(n) && (colon ==> EndsInWord(n))
    ensures Fields(Closed(n, colon)) == FieldsOf(n, colon)
  {
    hide Fields, Joined, Ended, AllLax, AllWords, LastFields, Spellings, AllPieceWords;
    match n
    case Plain(ps) =>
      FieldsLast(ps, colon);
    case Gapped(front, back) =>
      FieldsLast(back, colon);
      FrontIs(front);
      var tail := Joined(back) + if colon then [COLON] else [];
      GapFields(front, tail);
      assert Closed(n, colon) == Joined(front) + [COLON, COLON] + tail;
  }

  lemma {:induction false} GapFields(front: seq<Piece>, tail: Text)
    requires AllLax(front)
    ensures Fields(Joined(front) + [COLON, COLON] + tail)
            == Spellings(front) + (if front == [] then [[], []] else [[]]) + Fields(tail)
  {
    hide Fields, Joined, Ended, AllLax, Spellings;
    FrontIs(front);
    FieldsMore([], tail);
    assert [] + [COLON] + tail == [COLON] + tail;
    if front == [] {
      JoinedNone();
      NoSpellings();
      FieldsMore([], [COLON] + tail);
      assert [] + [COLON] + ([COLON] + tail) == Joined(front) + [COLON, COLON] + tail;
      assert [[]] + ([[]] + Fields(tail)) == Spellings(front) + [[], []] + Fields(tail);
    } else {
      FieldsEnded(front, [COLON] + tail);
      assert Joined(front) + [COLON, COLON] + tail == Ended(front) + ([COLON] + tail);
      assert Spellings(front) + ([[]] + Fields(tail)) == Spellings(front) + [[]] + Fields(tail);
    }
  }

  lemma NoSpellings()
    ensures Spellings([]) == []
  {
  }

  lemma SplitOnce(a: Text, b: Text, x: Text, y: Text)
    requires DOT !in a && DOT !in b && a + [DOT] + x == b + [DOT] + y
    ensures a == b && x == y
  {
    var s := a + [DOT] + x;
    assert s[|a|] == DOT && s[|b|] == DOT && s[..|a|] == a && s[..|b|] == b;
    IndexOfIs(s, DOT, |a|);
    IndexOfIs(s, DOT, |b|);
    assert a == s[..|a|] && b == s[..|b|] && x == s[|a| + 1..] && y == s[|b| + 1..];
  }

  lemma {:induction false} SamePiece(p: Piece, q: Piece)
    requires LaxPiece(p) && LaxPiece(q) && Spelling(p) == Spelling(q)
    ensures p == q
  {
    hide IntValue, IsInt;
    PieceIsField(p);
    PieceIsField(q);
    if p.QuadPiece? {
      IntPlain(p.a);
      IntPlain(q.a);
      IntPlain(p.b);
      IntPlain(q.b);
      IntPlain(p.c);
      IntPlain(q.c);
      Nested(p);
      Nested(q);
      SplitOnce(p.a, q.a, p.b + [DOT] + (p.c + [DOT] + p.d), q.b + [DOT] + (q.c + [DOT] + q.d));
      SplitOnce(p.b, q.b, p.c + [DOT] + p.d, q.c + [DOT] + q.d);
      SplitOnce(p.c, q.c, p.d, q.d);
    }
  }

  lemma Nested(p: Piece)
    requires p.QuadPiece?
    ensures Spelling(p) == p.a + [DOT] + (p.b + [DOT] + (p.c + [DOT] + p.d))
  {
  }

  lemma {:induction false} SamePieces(ps: seq<Piece>, qs: seq<Piece>)
    requires AllLax(ps) && AllLax(qs) && Spellings(ps) == Spellings(qs)
    ensures ps == qs
  {
    hide LaxPiece, Spelling;
    forall i | 0 <= i < |ps|
      ensures ps[i] == qs[i]
    {
      assert Spellings(ps)[i] == Spellings(qs)[i];
      SamePiece(ps[i], qs[i]);
    }
  }

  lemma {:induction false} NoEmptySpelling(ps: seq<Piece>)
    requires AllLax(ps)
    ensures [] !in Spellings(ps)
  {
    forall i | 0 <= i < |ps|
      ensures Spellings(ps)[i] != []
    {
      PieceIsField(ps[i]);
    }
  }

  lemma {:induction false} FirstField(ps: seq<Piece>, c: bool)
    requires AllLax(ps)
    ensures ps != [] <==> LastFields(ps, c)[0] != []
  {
    hide LaxPiece, Spelling;
    NoEmptySpelling(ps);
    assert ps != [] ==> LastFields(ps, c)[0] == Spellings(ps)[0];
  }

  lemma {:induction false} SameLast(ps: seq<Piece>, c: bool, qs: seq<Piece>, d: bool)
    requires AllLax(ps) && AllLax(qs) && LastFields(ps, c) == LastFields(qs, d)
    requires (c ==> ps != []) && (d ==> qs != [])
    ensures ps == qs && c == d
  {
    hide LaxPiece, Spelling, AllLax;
    NoEmptySpelling(ps);
    NoEmptySpelling(qs);
    var fs := LastFields(ps, c);
    FirstField(ps, c);
    FirstField(qs, d);
    if ps != [] && qs != [] {
      assert !c ==> fs[|fs| - 1] == Spellings(ps)[|ps| - 1];
      assert !d ==> fs[|fs| - 1] == Spellings(qs)[|qs| - 1];
      assert Spellings(ps) == fs[..|ps|] && Spellings(qs) == fs[..|qs|];
      SamePieces(ps, qs);
    }
  }

  function FirstEmpty(fs: seq<Text>): nat {
    if fs == [] || fs[0] == [] then 0 else 1 + FirstEmpty(fs[1..])
  }

  lemma {:induction false} FirstEmptyIs(fs: seq<Text>, k: nat)
    requires k <= |fs| && [] !in fs[..k] && (k < |fs| ==> fs[k] == [])
    ensures FirstEmpty(fs) == k
  {
    if k > 0 {
      assert fs[0] == fs[..k][0];
      assert fs[1..][..k - 1] == fs[..k][1..];
      FirstEmptyIs(fs[1..], k - 1);
    }
  }

  /** Where the first empty field is. */
  lemma {:induction false} EmptyField(n: Notation, colon: bool)
    requires Lax(n) && (colon ==> EndsInWord(n))
    ensures var fs := FieldsOf(n, colon);
            var k := FirstEmpty(fs);
            if n.Plain? then k >= |fs| - 1 else k < |fs| - 1 && k == |n.front|
  {
    hide LaxPiece, Spelling, PieceWords;
    var fs := FieldsOf(n, colon);
    match n
    case Plain(ps) =>
      NoEmptySpelling(ps);
      assert fs[..|ps|] == Spellings(ps);
      FirstEmptyIs(fs, |ps|);
    case Gapped(front, back) =>
      NoEmptySpelling(front);
      assert fs[..|front|] == Spellings(front);
      FirstEmptyIs(fs, |front|);
  }

  /** No text has two notations. */
  lemma {:induction false} OneNotation(n: Notation, c: bool, m: Notation, d: bool)
    requires Lax(n) && (c ==> EndsInWord(n)) && Lax(m) && (d ==> EndsInWord(m)) && Closed(n, c) == Closed(m, d)
    ensures n == m && c == d
  {
    hide Closed, LastFields, Spellings, AllWords, AllLax, AllPieceWords;
    FieldsAre(n, c);
    FieldsAre(m, d);
    var fs := FieldsOf(n, c);
    var k := FirstEmpty(fs);
    EmptyField(n, c);
    EmptyField(m, d);
    if n.Plain? {
      SameLast(n.ps, c, m.ps, d);
    } else {
      SameGapped(n, c, m, d, k);
    }
  }

  lemma {:induction false} SameGapped(n: Notation, c: bool, m: Notation, d: bool, k: nat)
    requires n.Gapped? && m.Gapped? && Lax(n) && (c ==> EndsInWord(n)) && Lax(m) && (d ==> EndsInWord(m))
    requires FieldsOf(n, c) == FieldsOf(m, d) && k == |n.front| == |m.front|
    ensures n == m && c == d
  {
    hide LastFields, Spellings, AllWords, AllLax, AllPieceWords;
    var fs := FieldsOf(n, c);
    assert fs[..k] == Spellings(n.front) && fs[..k] == Spellings(m.front);
    SamePieces(n.front, m.front);
    var e := if n.front == [] then 2 else 1;
    assert fs[k + e..] == LastFields(n.back, c) && fs[k + e..] == LastFields(m.back, d);
    SameLast(n.back, c, m.back, d);
  }

  /** Of the texts that are accepted, those are not in the grammar of RFC 4291 that have a colon too many, a word that
      starts with "0x", or an octet with spaces, a sign or more than three digits. */
  lemma {:induction false} BeyondStrict(n: Notation, colon: bool)
    requires Lax(n) && (colon ==> EndsInWord(n))
    ensures (exists m :: Strict(m) && Spelled(m) == Closed(n, colon)) <==> Strict(n) && !colon
  {
    hide Spelled, Lax, EndsInWord;
    if Strict(n) && !colon {
      assert Closed(n, colon) == Spelled(n);
    }
    if m :| Strict(m) && Spelled(m) == Closed(n, colon) {
      assert Spelled(m) + [] == Spelled(m);
      OneNotation(n, colon, m, false);
    }
  }

  /** "1:1:1:1:1:1:1:1:" is accepted, and is not in the grammar. */
  lemma {:induction false} ColonTooMany()
    ensures var n := Plain(seq(8, _ => HexPiece([49])));
            && Closed(n, true) == Ended(n.ps) && Parsed(Closed(n, true)).Some?
            && !exists m :: Strict(m) && Spelled(m) == Closed(n, true)
  {
    hide Joined, Ended, Parsed, Strict, AllPieceWords;
    var ps := seq(8, _ => HexPiece([49]));
    WordsCount(ps);
    Ends(ps);
    LaxReads(Plain(ps), true);
    BeyondStrict(Plain(ps), true);
  }
}
