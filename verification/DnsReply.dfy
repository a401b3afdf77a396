/** A whole DNS reply: evdns_server_request_format_response of evdns.c. */
module DnsReplies {
  import opened Bytes
  import opened DnsNames

  const BUFFER_SIZE: nat := 1500
  const MAX_REPLY: nat := 512

  datatype Question = Question(name: Text, qtype: nat, qclass: nat)

  datatype Rdata = NameData(target: Text) | RawData(bytes: Text)

  /** struct server_reply_item. */
  datatype Item = Item(name: Text, itype: nat, iclass: nat, ttl: nat, data: Rdata)

  /** What the reply is made of: the id and flags of the request, its questions, and the items for the three sections. */
  datatype Reply = Reply(transId: nat, flags: bv16, questions: seq<Question>,
                         answer: seq<Item>, authority: seq<Item>, additional: seq<Item>)

  function Be16(x: nat): (r: Text)
    ensures |r| == 2
  {
    [x / 256 % 256, x % 256]
  }

  function Be32(x: nat): (r: Text)
    ensures |r| == 4
  {
    [x / 0x100_0000 % 256, x / 0x1_0000 % 256, x / 256 % 256, x % 256]
  }

  // What a message says, part by part.

  /** A name; a name behind its length in two bytes; or bytes as they are. */
  datatype Part = NamePart(name: Text) | SizedName(name: Text) | BytesPart(bytes: Text)

  /** The flags of the reply: the bit that marks it as one, and the error code. */
  function ReplyFlags(flags: bv16, err: bv16): nat {
    (flags | 0x8000 | err) as nat
  }

  function HeaderParts(reply: Reply, err: bv16): seq<Part> {
    [BytesPart(Be16(reply.transId)), BytesPart(Be16(ReplyFlags(reply.flags, err))),
     BytesPart(Be16(|reply.questions|)), BytesPart(Be16(|reply.answer|)),
     BytesPart(Be16(|reply.authority|)), BytesPart(Be16(|reply.additional|))]
  }

  function QuestionParts(q: Question): seq<Part> {
    [NamePart(q.name), BytesPart(Be16(q.qtype)), BytesPart(Be16(q.qclass))]
  }

  function ItemParts(it: Item): seq<Part> {
    [NamePart(it.name), BytesPart(Be16(it.itype)), BytesPart(Be16(it.iclass)), BytesPart(Be32(it.ttl))]
    + DataParts(it.data)
  }

  function DataParts(data: Rdata): seq<Part> {
    match data
    case NameData(target) => [SizedName(target)]
    case RawData(bytes) => [BytesPart(Be16(|bytes|)), BytesPart(bytes)]
  }

  function AllQuestionParts(qs: seq<Question>): seq<Part> {
    if qs == [] then [] else AllQuestionParts(qs[..|qs| - 1]) + QuestionParts(qs[|qs| - 1])
  }

  function AllItemParts(items: seq<Item>): seq<Part> {
    if items == [] then [] else AllItemParts(items[..|items| - 1]) + ItemParts(items[|items| - 1])
  }

  function Section(reply: Reply, i: nat): seq<Item> {
    if i == 0 then reply.answer else if i == 1 then reply.authority else reply.additional
  }

  /** Header, questions and the first sections. */
  function PartsUpTo(reply: Reply, err: bv16, sections: nat): seq<Part> {
    if sections == 0 then HeaderParts(reply, err) + AllQuestionParts(reply.questions)
    else PartsUpTo(reply, err, sections - 1) + AllItemParts(Section(reply, sections - 1))
  }

  function ReplyParts(reply: Reply, err: bv16): seq<Part> {
    PartsUpTo(reply, err, 3)
  }

  /** The name can be read back from place `p`, and ends where the next part starts. */
  ghost predicate NameAt(pkt: Text, p: nat, name: Text, p': nat) {
    p < p' <= |pkt| && Walk(pkt, p, p) == Some(Canon(name)) && (NoGap(name) ==> End(pkt, p) == p')
  }

  ghost predicate PartAt(pkt: Text, p: nat, part: Part, p': nat) {
    p <= p' <= |pkt|
    && match part
       case NamePart(name) => NameAt(pkt, p, name, p')
       case SizedName(name) => p + 2 <= p' && pkt[p..p + 2] == Be16(p' - (p + 2)) && NameAt(pkt, p + 2, name, p')
       case BytesPart(bytes) => pkt[p..p'] == bytes
  }

  /** The message consists of the parts, which start at the places. */
  ghost predicate Says(pkt: Text, parts: seq<Part>, places: seq<nat>) {
    && |places| == |parts| + 1 && places[0] == 0 && places[|parts|] == |pkt|
    && forall i :: 0 <= i < |parts| ==> PartAt(pkt, places[i], parts[i], places[i + 1])
  }

  ghost predicate IsSaid(pkt: Text, parts: seq<Part>) {
    exists places :: Says(pkt, parts, places)
  }

  lemma {:induction false} PartStays(pkt: Text, p: nat, part: Part, p': nat, more: Text)
    requires PartAt(pkt, p, part, p') && |pkt| <= |more| && more[..|pkt|] == pkt
    ensures PartAt(more, p, part, p')
  {
    hide Walk, End, Canon, NoGap;
    match part
    case NamePart(name) =>
      WalkExtends(pkt, more, p, p, p);
    case SizedName(name) =>
      WalkExtends(pkt, more, p + 2, p + 2, p + 2);
      SamePart(pkt, more, p, p + 2);
    case BytesPart(_) =>
      SamePart(pkt, more, p, p');
  }

  lemma {:induction false} SaysMore(pkt: Text, parts: seq<Part>, places: seq<nat>, more: Text, part: Part)
    requires Says(pkt, parts, places) && |pkt| <= |more| && more[..|pkt|] == pkt
    requires PartAt(more, |pkt|, part, |more|)
    ensures Says(more, parts + [part], places + [|more|])
  {
    hide PartAt;
    var parts', places' := parts + [part], places + [|more|];
    forall i | 0 <= i < |parts'|
      ensures PartAt(more, places'[i], parts'[i], places'[i + 1])
    {
      if i < |parts| {
        PartStays(pkt, places[i], parts[i], places[i + 1], more);
      }
    }
  }

  // How far the parts of a message get.

  /** Where writing has got to, and the table of suffixes there. */
  datatype Spot = Spot(j: nat, table: Table)

  predicate PartFits(part: Part, s: Spot, bufLen: nat) {
    match part
    case NamePart(name) => CanWrite(s.table.labels, name, s.j, bufLen)
    case SizedName(name) => CanWrite(s.table.labels, name, s.j + 2, bufLen)
    case BytesPart(bytes) => s.j + |bytes| <= bufLen
  }

  function After(part: Part, s: Spot, memory: nat -> bool): Spot {
    match part
    case NamePart(name) =>
      Spot(s.j + |Encoded(s.table.labels, name)|, Learned(s.table.labels, s.table, memory, name, s.j))
    case SizedName(name) =>
      Spot(s.j + 2 + |Encoded(s.table.labels, name)|, Learned(s.table.labels, s.table, memory, name, s.j + 2))
    case BytesPart(bytes) => Spot(s.j + |bytes|, s.table)
  }

  /** The place behind all parts, written one after the other. */
  function Final(parts: seq<Part>, memory: nat -> bool): Spot {
    if parts == [] then Spot(0, Table([], 0)) else After(parts[|parts| - 1], Final(parts[..|parts| - 1], memory), memory)
  }

  /** How many parts can be written, one after the other, before one does not fit into a buffer of this size. */
  function Fitted(parts: seq<Part>, memory: nat -> bool, bufLen: nat): (n: nat)
    ensures n <= |parts|
  {
    if parts == [] then 0
    else
      var front := parts[..|parts| - 1];
      var n := Fitted(front, memory, bufLen);
      if n == |front| && PartFits(parts[n], Final(front, memory), bufLen) then |parts| else n
  }

  predicate AllFit(parts: seq<Part>, memory: nat -> bool, bufLen: nat) {
    Fitted(parts, memory, bufLen) == |parts|
  }

  lemma FittedNext(parts: seq<Part>, part: Part, memory: nat -> bool, bufLen: nat)
    ensures Final(parts + [part], memory) == After(part, Final(parts, memory), memory)
    ensures AllFit(parts + [part], memory, bufLen)
            <==> AllFit(parts, memory, bufLen) && PartFits(part, Final(parts, memory), bufLen)
    ensures AllFit(parts, memory, bufLen) && !AllFit(parts + [part], memory, bufLen) ==>
              Fitted(parts + [part], memory, bufLen) == |parts| && (parts + [part])[..|parts|] == parts
  {
    assert (parts + [part])[..|parts|] == parts;
  }

  /** Where the parts stop fitting does not depend on what would come after. */
  lemma {:induction false} FittedMore(a: seq<Part>, b: seq<Part>, memory: nat -> bool, bufLen: nat)
    ensures if AllFit(a, memory, bufLen) then Fitted(a + b, memory, bufLen) >= |a|
            else Fitted(a + b, memory, bufLen) == Fitted(a, memory, bufLen)
  {
    if b == [] {
      assert a + b == a;
    } else {
      FittedMore(a, b[..|b| - 1], memory, bufLen);
      assert (a + b)[..|a + b| - 1] == a + b[..|b| - 1];
    }
  }

  /** What has been written ends past the buffer: a name whose last byte was not asked after has just filled it. */
  predicate Spills(parts: seq<Part>, memory: nat -> bool, bufLen: nat) {
    Final(parts[..Fitted(parts, memory, bufLen)], memory).j > bufLen
  }

  lemma {:induction false} SpillsMore(a: seq<Part>, b: seq<Part>, memory: nat -> bool, bufLen: nat)
    requires Spills(a, memory, bufLen)
    ensures Spills(a + b, memory, bufLen)
  {
    hide Final, After;
    var n := Fitted(a, memory, bufLen);
    if b == [] {
      assert a + b == a;
    } else {
      FittedMore(a, b[..1], memory, bufLen);
      FittedNext(a, b[0], memory, bufLen);
      assert b[..1] == [b[0]] && a + b[..1] + b[1..] == a + b;
      assert a[..|a|] == a;
      FittedMore(a + b[..1], b[1..], memory, bufLen);
      assert (a + b)[..n] == a[..n];
    }
  }

  /** There is memory for what has been written, and not more than the buffer where that suffices. */
  predicate Holds(size: nat, parts: seq<Part>, memory: nat -> bool, bufLen: nat) {
    bufLen <= size && (Spills(parts, memory, bufLen) ==> bufLen < size)
  }

  lemma HoldsLess(size: nat, a: seq<Part>, b: seq<Part>, memory: nat -> bool, bufLen: nat)
    requires Holds(size, a + b, memory, bufLen)
    ensures Holds(size, a, memory, bufLen) && bufLen <= size
  {
    hide Spills;
    if Spills(a, memory, bufLen) {
      SpillsMore(a, b, memory, bufLen);
    }
  }

  /** The message so far says these parts, as many bytes and as full a table as they come to, and the suffixes in the table
      can be read in it. */
  ghost predicate Message(pkt: Text, table: Table, parts: seq<Part>, memory: nat -> bool, bufLen: nat) {
    && Good(table.labels, pkt) && IsSaid(pkt, parts)
    && Final(parts, memory) == Spot(|pkt|, table) && AllFit(parts, memory, bufLen)
  }

  /** Of these parts, those that come before the first that does not fit have been written. */
  ghost predicate Stopped(pkt: Text, parts: seq<Part>, memory: nat -> bool, bufLen: nat) {
    var n := Fitted(parts, memory, bufLen);
    n < |parts| && IsSaid(pkt, parts[..n]) && Final(parts[..n], memory).j == |pkt|
  }

  lemma {:induction false} MessageMore(pkt: Text, table: Table, parts: seq<Part>, memory: nat -> bool, bufLen: nat,
                                       more: Text, table': Table, part: Part)
    requires Message(pkt, table, parts, memory, bufLen) && |pkt| <= |more| && more[..|pkt|] == pkt
    requires PartFits(part, Spot(|pkt|, table), bufLen)
             && After(part, Spot(|pkt|, table), memory) == Spot(|more|, table')
    requires PartAt(more, |pkt|, part, |more|) && Good(table'.labels, more)
    ensures Message(more, table', parts + [part], memory, bufLen)
  {
    hide PartAt, Good, Says, PartFits, After, Fitted, Final;
    var places :| Says(pkt, parts, places);
    SaysMore(pkt, parts, places, more, part);
    FittedNext(parts, part, memory, bufLen);
  }

  lemma MessageIs(pkt: Text, table: Table, parts: seq<Part>, memory: nat -> bool, bufLen: nat, part: Part)
    requires Message(pkt, table, parts, memory, bufLen)
    ensures Good(table.labels, pkt)
    ensures !PartFits(part, Spot(|pkt|, table), bufLen) ==> Stopped(pkt, parts + [part], memory, bufLen)
    ensures PartFits(part, Spot(|pkt|, table), bufLen) && After(part, Spot(|pkt|, table), memory).j > bufLen ==>
              Spills(parts + [part], memory, bufLen)
  {
    hide Good, PartFits, After, IsSaid, Fitted, Final;
    FittedNext(parts, part, memory, bufLen);
    assert (parts + [part])[..|parts| + 1] == parts + [part];
  }

  lemma StoppedMore(pkt: Text, a: seq<Part>, b: seq<Part>, memory: nat -> bool, bufLen: nat)
    requires Stopped(pkt, a, memory, bufLen)
    ensures Stopped(pkt, a + b, memory, bufLen)
  {
    hide IsSaid, Fitted, Final;
    FittedMore(a, b, memory, bufLen);
    var n := Fitted(a, memory, bufLen);
    assert (a + b)[..n] == a[..n];
  }

  /** What has been written of some parts: all of them, or those before the first that does not fit. */
  ghost predicate Written(pkt: Text, ok: bool, table: Table, parts: seq<Part>, memory: nat -> bool, bufLen: nat) {
    if ok then Message(pkt, table, parts, memory, bufLen) else Stopped(pkt, parts, memory, bufLen)
  }

  /** APPEND16, APPEND32 and the copying of data. */
  method AppendBytes(buf: array<Byte>, bufLen: nat, j: nat, bytes: Text, table: LabelTable, ghost parts: seq<Part>)
    returns (ok: bool)
    requires bufLen <= buf.Length && j <= buf.Length && Message(buf[..j], table.State(), parts, table.memory, bufLen)
    modifies buf
    ensures ok <==> j + |bytes| <= bufLen
    ensures j + (if ok then |bytes| else 0) <= buf.Length
    ensures Written(buf[..j + if ok then |bytes| else 0], ok, table.State(), parts + [BytesPart(bytes)], table.memory, bufLen)
  {
    hide Message, Good, Overlay, Fitted, Final, Stopped;
    MessageIs(buf[..j], table.State(), parts, table.memory, bufLen, BytesPart(bytes));
    if j + |bytes| > bufLen {
      return false;
    }
    ghost var b := buf[..j];
    OverlayParts(buf[..], j, bytes);
    MemCpy(buf, j, bytes);
    ok := true;
    ghost var more := buf[..j + |bytes|];
    assert more[j..] == buf[..][j..j + |bytes|] == bytes;
    assert more[..j] == buf[..][..j] == b;
    GoodExtends(table.labels, b, more);
    MessageMore(b, table.State(), parts, table.memory, bufLen, more, table.State(), BytesPart(bytes));
  }

  /** A name. */
  method AppendName(buf: array<Byte>, bufLen: nat, j: nat, name: Text, table: LabelTable, ghost parts: seq<Part>)
    returns (r: int)
    requires Holds(buf.Length, parts + [NamePart(name)], table.memory, bufLen) && bufLen <= 0x4000 && 0 !in name
    requires j <= buf.Length && Message(buf[..j], table.State(), parts, table.memory, bufLen)
    modifies buf, table`labels, table`tries
    ensures r == -1 || r == -2 || (j < r <= bufLen + 1 && r <= buf.Length)
    ensures Written(buf[..if r > 0 then r else j], r > 0, table.State(), parts + [NamePart(name)], table.memory, bufLen)
  {
    hide Message, Good, Walk, End, Canon, NoGap, Encoded, Needed, Writable, NoGapWritten, Learned, Fitted, Final,
         Stopped;
    ghost var b, state := buf[..j], table.State();
    MessageIs(b, state, parts, table.memory, bufLen, NamePart(name));
    if j > bufLen {
      // Not even a pointer can be written here.
      return -2;
    }
    r := DnsNameToLabels(buf, bufLen, j, name, table, b);
    if r > 0 {
      ghost var more := b + buf[j..r];
      assert more == buf[..j] + buf[j..r] == buf[..r];
      GapsWritten(state.labels, name);
      MessageMore(b, state, parts, table.memory, bufLen, more, table.State(), NamePart(name));
    }
  }

  lemma GapsWritten(labels: seq<Entry>, name: Text)
    requires Writable(labels, name)
    ensures NoGap(name) ==> NoGapWritten(labels, name)
  {
    EncodedSize(labels, name);
  }

  /** A name behind its length, which is put in once the name has been written. */
  method AppendSizedName(buf: array<Byte>, bufLen: nat, j: nat, name: Text, table: LabelTable, ghost parts: seq<Part>)
    returns (r: int)
    requires Holds(buf.Length, parts + [SizedName(name)], table.memory, bufLen) && bufLen <= 0x4000 && 0 !in name
    requires j <= buf.Length && Message(buf[..j], table.State(), parts, table.memory, bufLen)
    modifies buf, table`labels, table`tries
    ensures r == -1 || r == -2 || (j < r <= bufLen + 1 && r <= buf.Length)
    ensures Written(buf[..if r > 0 then r else j], r > 0, table.State(), parts + [SizedName(name)], table.memory, bufLen)
  {
    hide Message, Good, Walk, End, Canon, NoGap, Encoded, Needed, Writable, NoGapWritten, Learned, Fitted, Final,
         Stopped, Be16;
    ghost var b, state := buf[..j], table.State();
    MessageIs(b, state, parts, table.memory, bufLen, SizedName(name));
    var nameStart := j + 2;
    if nameStart > bufLen {
      // Not even a pointer can be written there.
      return -2;
    }
    ghost var pre := b + Be16(|Encoded(state.labels, name)|);
    GoodExtends(state.labels, b, pre);
    r := DnsNameToLabels(buf, bufLen, nameStart, name, table, pre);
    assert buf[..j] == buf[..nameStart][..j] == b;
    if r > 0 {
      ghost var written := buf[nameStart..r];
      PutLength(buf, j, r, r - nameStart);
      ghost var more := buf[..r];
      assert more == pre + written;
      assert more[..j] == b && more[j..j + 2] == Be16(|written|);
      GapsWritten(state.labels, name);
      MessageMore(b, state, parts, table.memory, bufLen, more, table.State(), SizedName(name));
    }
  }

  /** The length that had been left open. */
  method PutLength(buf: array<Byte>, j: nat, r: nat, len: nat)
    requires j + 2 <= r <= buf.Length
    modifies buf
    ensures buf[..r] == old(buf[..j]) + Be16(len) + old(buf[j + 2..r])
  {
    buf[j] := len / 256 % 256;
    buf[j + 1] := len % 256;
    assert buf[..r] == old(buf[..j]) + Be16(len) + old(buf[j + 2..r]);
  }

  /** Where writing has got to: up to place `at`, behind everything, or where it found no room, or where a name was
      refused with the code `r`. */
  datatype Outcome = Wrote(at: nat) | Overflow(at: nat) | Refused(at: nat, r: int)

  ghost predicate Reached(buf: seq<Byte>, o: Outcome, table: Table, parts: seq<Part>, memory: nat -> bool, bufLen: nat) {
    o.at <= |buf| && Written(buf[..o.at], o.Wrote?, table, parts, memory, bufLen)
  }

  lemma ReachedMore(buf: seq<Byte>, o: Outcome, table: Table, a: seq<Part>, b: seq<Part>, memory: nat -> bool,
                    bufLen: nat)
    requires Reached(buf, o, table, a, memory, bufLen) && !o.Wrote?
    ensures Reached(buf, o, table, a + b, memory, bufLen)
  {
    StoppedMore(buf[..o.at], a, b, memory, bufLen);
  }

  predicate NoNul(items: seq<Item>) {
    forall i :: 0 <= i < |items| ==>
      0 !in items[i].name && (items[i].data.NameData? ==> 0 !in items[i].data.target)
  }

  /** Appends two numbers of two bytes. */
  method AppendPair(buf: array<Byte>, bufLen: nat, j: nat, x: nat, y: nat, table: LabelTable, ghost parts: seq<Part>)
    returns (o: Outcome)
    requires bufLen <= buf.Length && j <= buf.Length && Message(buf[..j], table.State(), parts, table.memory, bufLen)
    modifies buf
    ensures o.Wrote? <==> j + 4 <= bufLen
    ensures o.Wrote? ==> o.at == j + 4
    ensures Reached(buf[..], o, table.State(), parts + [BytesPart(Be16(x)), BytesPart(Be16(y))], table.memory, bufLen)
    ensures !o.Refused?
  {
    hide Message, Stopped, Be16;
    ghost var one, two := [BytesPart(Be16(x))], [BytesPart(Be16(y))];
    assert parts + one + two == parts + [BytesPart(Be16(x)), BytesPart(Be16(y))];
    var ok := AppendBytes(buf, bufLen, j, Be16(x), table, parts);
    if !ok {
      o := Overflow(j);
      assert buf[..][..j] == buf[..j];
      ReachedMore(buf[..], o, table.State(), parts + one, two, table.memory, bufLen);
      return;
    }
    ok := AppendBytes(buf, bufLen, j + 2, Be16(y), table, parts + one);
    o := if ok then Wrote(j + 4) else Overflow(j + 2);
    assert buf[..][..o.at] == buf[..o.at];
  }

  /** A name, its type and its class. It is refused exactly if the name cannot be written. */
  method AppendOwner(buf: array<Byte>, bufLen: nat, j: nat, q: Question, table: LabelTable, ghost parts: seq<Part>)
    returns (o: Outcome)
    requires Holds(buf.Length, parts + QuestionParts(q), table.memory, bufLen) && bufLen <= 0x4000 && 0 !in q.name
    requires j <= buf.Length && Message(buf[..j], table.State(), parts, table.memory, bufLen)
    modifies buf, table`labels, table`tries
    ensures o.Wrote? ==> o.at <= bufLen
    ensures Reached(buf[..], o, table.State(), parts + QuestionParts(q), table.memory, bufLen)
    ensures o.Refused? <==> Fitted(parts + QuestionParts(q), table.memory, bufLen) == |parts|
    ensures o.Refused? ==> o.r == -1 || o.r == -2
  {
    hide Message, Stopped, Holds, Fitted, Be16;
    ghost var one, rest := [NamePart(q.name)], [BytesPart(Be16(q.qtype)), BytesPart(Be16(q.qclass))];
    assert parts + one + rest == parts + QuestionParts(q);
    HoldsLess(buf.Length, parts + one, rest, table.memory, bufLen);
    Fits(buf[..j], true, table.State(), parts, table.memory, bufLen);
    FittedMore(parts, one, table.memory, bufLen);
    FittedMore(parts + one, rest, table.memory, bufLen);
    var r := AppendName(buf, bufLen, j, q.name, table, parts);
    Fits(buf[..if r > 0 then r else j], r > 0, table.State(), parts + one, table.memory, bufLen);
    if r < 0 {
      o := Refused(j, r);
      assert buf[..][..j] == buf[..j];
      ReachedMore(buf[..], o, table.State(), parts + one, rest, table.memory, bufLen);
      return;
    }
    o := AppendPair(buf, bufLen, r, q.qtype, q.qclass, table, parts + one);
  }

  lemma Fits(pkt: Text, ok: bool, table: Table, parts: seq<Part>, memory: nat -> bool, bufLen: nat)
    requires Written(pkt, ok, table, parts, memory, bufLen)
    ensures ok <==> AllFit(parts, memory, bufLen)
  {
  }

  lemma ReachedIs(buf: seq<Byte>, o: Outcome, table: Table, parts: seq<Part>, memory: nat -> bool, bufLen: nat)
    requires Reached(buf, o, table, parts, memory, bufLen)
    ensures o.Wrote? <==> AllFit(parts, memory, bufLen)
    ensures o.at <= |buf| && (o.Wrote? ==> Message(buf[..o.at], table, parts, memory, bufLen))
  {
  }

  /** The part with this number, counted from the first question on, is the name of a question. */
  predicate IsQuestionName(k: int, qs: seq<Question>) {
    0 <= k < 3 * |qs| && k % 3 == 0
  }

  lemma QuestionNumber(k: int, qs: seq<Question>, i: nat)
    requires i < |qs| && 3 * i <= k < 3 * i + |QuestionParts(qs[i])|
    ensures IsQuestionName(k, qs) <==> k == 3 * i
  {
  }

  lemma NoQuestionBehind(qs: seq<Question>)
    ensures !IsQuestionName(3 * |qs|, qs)
  {
  }

  /** The questions. A name that cannot be written is an error here; numbers that find no room are an overflow. */
  method FormatQuestions(buf: array<Byte>, bufLen: nat, start: nat, qs: seq<Question>, table: LabelTable,
                         ghost parts: seq<Part>)
    returns (o: Outcome)
    requires Holds(buf.Length, parts + AllQuestionParts(qs), table.memory, bufLen) && bufLen <= 0x4000
    requires start <= bufLen && Message(buf[..start], table.State(), parts, table.memory, bufLen)
    requires forall i :: 0 <= i < |qs| ==> 0 !in qs[i].name
    modifies buf, table`labels, table`tries
    ensures o.Wrote? ==> o.at <= bufLen
    ensures Reached(buf[..], o, table.State(), parts + AllQuestionParts(qs), table.memory, bufLen)
    ensures o.Refused? <==> IsQuestionName(Fitted(parts + AllQuestionParts(qs), table.memory, bufLen) - |parts|, qs)
    ensures o.Refused? ==> o.r == -1 || o.r == -2
  {
    hide Written, QuestionParts, AllQuestionParts, Message, Holds, Fitted, Reached, IsQuestionName;
    o := Wrote(start);
    assert AllQuestionParts(qs[..0]) == [] by {
      QuestionsSplit(qs, 0);
    }
    var i := 0;
    HoldsLess(buf.Length, parts, AllQuestionParts(qs), table.memory, bufLen);
    ReachedFirst(buf, start, table.State(), parts, table.memory, bufLen);
    while i < |qs|
      invariant i <= |qs| && o.Wrote? && o.at <= bufLen
      invariant Reached(buf[..], o, table.State(), parts + AllQuestionParts(qs[..i]), table.memory, bufLen)
      modifies buf, table`labels, table`tries
    {
      ghost var before, now, rest := parts + AllQuestionParts(qs[..i]), QuestionParts(qs[i]), AllQuestionParts(qs[i + 1..]);
      QuestionsAround(parts, qs, i);
      HoldsLess(buf.Length, before + now, rest, table.memory, bufLen);
      ReachedIs(buf[..], o, table.State(), before, table.memory, bufLen);
      assert buf[..][..o.at] == buf[..o.at];
      o := AppendOwner(buf, bufLen, o.at, qs[i], table, before);
      if !o.Wrote? {
        StopsAt(before, now, rest, table.memory, bufLen, buf[..], o, table.State());
        QuestionNumber(Fitted(before + now + rest, table.memory, bufLen) - |parts|, qs, i);
        return;
      }
      i := i + 1;
    }
    assert qs[..i] == qs;
    ReachedIs(buf[..], o, table.State(), parts + AllQuestionParts(qs), table.memory, bufLen);
    QuestionsSplit(qs, |qs|);
    NoQuestionBehind(qs);
  }

  /** Some of these parts did not fit, so none behind them has been written. */
  lemma {:induction false} StopsAt(before: seq<Part>, now: seq<Part>, rest: seq<Part>, memory: nat -> bool, bufLen: nat,
                                   buf: seq<Byte>, o: Outcome, table: Table)
    requires Reached(buf, o, table, before + now, memory, bufLen) && !o.Wrote? && AllFit(before, memory, bufLen)
    ensures Reached(buf, o, table, before + now + rest, memory, bufLen)
    ensures var n := Fitted(before + now + rest, memory, bufLen);
            n == Fitted(before + now, memory, bufLen) && |before| <= n < |before + now|
  {
    hide Written, Fitted;
    ReachedIs(buf, o, table, before + now, memory, bufLen);
    ReachedMore(buf, o, table, before + now, rest, memory, bufLen);
    FittedMore(before, now, memory, bufLen);
    FittedMore(before + now, rest, memory, bufLen);
  }

  lemma {:induction false} QuestionsAround(parts: seq<Part>, qs: seq<Question>, i: nat)
    requires i < |qs|
    ensures |AllQuestionParts(qs[..i])| == 3 * i
    ensures parts + AllQuestionParts(qs[..i + 1]) == parts + AllQuestionParts(qs[..i]) + QuestionParts(qs[i])
    ensures parts + AllQuestionParts(qs)
            == parts + AllQuestionParts(qs[..i]) + QuestionParts(qs[i]) + AllQuestionParts(qs[i + 1..])
  {
    hide AllQuestionParts, QuestionParts;
    QuestionsSplit(qs, i);
    QuestionsSplit(qs, i + 1);
    Assoc(parts, AllQuestionParts(qs[..i]), QuestionParts(qs[i]), AllQuestionParts(qs[i + 1..]));
  }

  lemma {:induction false} ItemsAround(parts: seq<Part>, items: seq<Item>, i: nat)
    requires i < |items|
    ensures parts + AllItemParts(items[..i + 1]) == parts + AllItemParts(items[..i]) + ItemParts(items[i])
    ensures parts + AllItemParts(items)
            == parts + AllItemParts(items[..i]) + ItemParts(items[i]) + AllItemParts(items[i + 1..])
  {
    hide AllItemParts, ItemParts;
    ItemsSplit(items, i);
    ItemsSplit(items, i + 1);
    Assoc(parts, AllItemParts(items[..i]), ItemParts(items[i]), AllItemParts(items[i + 1..]));
  }

  lemma Assoc(a: seq<Part>, b: seq<Part>, c: seq<Part>, d: seq<Part>)
    ensures a + b + c + d == a + (b + c + d) && a + b + c == a + (b + c)
  {
  }

  lemma {:induction false} QuestionsSplit(qs: seq<Question>, i: nat)
    requires i <= |qs|
    ensures |AllQuestionParts(qs[..i])| == 3 * i
    ensures i < |qs| ==> AllQuestionParts(qs[..i + 1]) == AllQuestionParts(qs[..i]) + QuestionParts(qs[i])
    ensures AllQuestionParts(qs) == AllQuestionParts(qs[..i]) + AllQuestionParts(qs[i..])
    decreases |qs|, i
  {
    if i < |qs| {
      assert qs[..i + 1][..i] == qs[..i];
    }
    if i == |qs| {
      assert qs[..i] == qs && qs[i..] == [];
      if qs != [] {
        QuestionsSplit(qs[..|qs| - 1], i - 1);
        assert qs[..|qs| - 1][..i - 1] == qs[..i - 1];
      }
    } else {
      var front := qs[..|qs| - 1];
      QuestionsSplit(front, i);
      assert front[..i] == qs[..i] && qs[i..][..|qs| - 1 - i] == front[i..];
    }
  }

  method AppendData(buf: array<Byte>, bufLen: nat, j: nat, data: Rdata, table: LabelTable, ghost parts: seq<Part>)
    returns (o: Outcome)
    requires Holds(buf.Length, parts + DataParts(data), table.memory, bufLen) && bufLen <= 0x4000
    requires data.NameData? ==> 0 !in data.target
    requires j <= buf.Length && Message(buf[..j], table.State(), parts, table.memory, bufLen)
    modifies buf, table`labels, table`tries
    ensures o.Wrote? ==> o.at <= bufLen + 1
    ensures Reached(buf[..], o, table.State(), parts + DataParts(data), table.memory, bufLen)
    ensures !o.Refused?
  {
    hide Message, Stopped, Be16;
    match data {
      case NameData(target) =>
        var r := AppendSizedName(buf, bufLen, j, target, table, parts);
        o := if r < 0 then Overflow(j) else Wrote(r);
        assert buf[..][..o.at] == buf[..o.at];
      case RawData(bytes) =>
        ghost var one, two := [BytesPart(Be16(|bytes|))], [BytesPart(bytes)];
        assert parts + one + two == parts + DataParts(data);
        var ok := AppendBytes(buf, bufLen, j, Be16(|bytes|), table, parts);
        if !ok {
          o := Overflow(j);
          assert buf[..][..j] == buf[..j];
          ReachedMore(buf[..], o, table.State(), parts + one, two, table.memory, bufLen);
          return;
        }
        ok := AppendBytes(buf, bufLen, j + 2, bytes, table, parts + one);
        o := if ok then Wrote(j + 2 + |bytes|) else Overflow(j + 2);
        assert buf[..][..o.at] == buf[..o.at];
    }
  }

  /** An item. Whatever does not go in is an overflow. */
  method AppendItem(buf: array<Byte>, bufLen: nat, j: nat, it: Item, table: LabelTable, ghost parts: seq<Part>)
    returns (o: Outcome)
    requires Holds(buf.Length, parts + ItemParts(it), table.memory, bufLen) && bufLen <= 0x4000
    requires 0 !in it.name && (it.data.NameData? ==> 0 !in it.data.target)
    requires j <= buf.Length && Message(buf[..j], table.State(), parts, table.memory, bufLen)
    modifies buf, table`labels, table`tries
    ensures o.Wrote? ==> o.at <= bufLen + 1
    ensures Reached(buf[..], o, table.State(), parts + ItemParts(it), table.memory, bufLen)
    ensures !o.Refused?
  {
    hide Message, Stopped, Be16, Be32, Holds, Reached, Written;
    ghost var owner := QuestionParts(Question(it.name, it.itype, it.iclass));
    ghost var ttl, data := [BytesPart(Be32(it.ttl))], DataParts(it.data);
    ItemHolds(parts, owner, ttl, data, table.memory, bufLen, buf.Length);
    assert parts + owner + ttl + data == parts + ItemParts(it);
    o := AppendOwner(buf, bufLen, j, Question(it.name, it.itype, it.iclass), table, parts);
    if !o.Wrote? {
      ItemStops(buf[..], o, table.State(), parts + owner, ttl, data, table.memory, bufLen);
      o := Overflow(o.at);
      return;
    }
    ReachedIs(buf[..], o, table.State(), parts + owner, table.memory, bufLen);
    assert buf[..][..o.at] == buf[..o.at];
    var ok := AppendBytes(buf, bufLen, o.at, Be32(it.ttl), table, parts + owner);
    o := if ok then Wrote(o.at + 4) else Overflow(o.at);
    assert buf[..][..o.at] == buf[..o.at];
    ReachedWhen(buf[..], o, table.State(), parts + owner + ttl, table.memory, bufLen);
    if !ok {
      ReachedMore(buf[..], o, table.State(), parts + owner + ttl, data, table.memory, bufLen);
      return;
    }
    ReachedIs(buf[..], o, table.State(), parts + owner + ttl, table.memory, bufLen);
    o := AppendData(buf, bufLen, o.at, it.data, table, parts + owner + ttl);
  }

  lemma ReachedFirst(buf: array<Byte>, j: nat, table: Table, parts: seq<Part>, memory: nat -> bool, bufLen: nat)
    requires j <= buf.Length && Message(buf[..j], table, parts, memory, bufLen)
    ensures Reached(buf[..], Wrote(j), table, parts + [], memory, bufLen) && buf[..][..j] == buf[..j]
  {
    hide Message;
    assert parts + [] == parts && buf[..][..j] == buf[..j];
  }

  lemma ReachedWhen(buf: seq<Byte>, o: Outcome, table: Table, parts: seq<Part>, memory: nat -> bool, bufLen: nat)
    requires o.at <= |buf| && Written(buf[..o.at], o.Wrote?, table, parts, memory, bufLen)
    ensures Reached(buf, o, table, parts, memory, bufLen)
  {
  }

  lemma ItemHolds(parts: seq<Part>, a: seq<Part>, b: seq<Part>, c: seq<Part>, memory: nat -> bool, bufLen: nat,
                  size: nat)
    ensures parts + a + b + c == parts + (a + b + c)
    ensures Holds(size, parts + (a + b + c), memory, bufLen) ==> bufLen <= size && Holds(size, parts + a, memory, bufLen)
  {
    hide Holds;
    assert parts + a + b + c == parts + (a + b + c);
    if Holds(size, parts + (a + b + c), memory, bufLen) {
      HoldsLess(size, parts + a + b, c, memory, bufLen);
      HoldsLess(size, parts + a, b, memory, bufLen);
    }
  }

  lemma ItemStops(buf: seq<Byte>, o: Outcome, table: Table, a: seq<Part>, b: seq<Part>, c: seq<Part>, memory: nat -> bool,
                  bufLen: nat)
    requires !o.Wrote? && Reached(buf, o, table, a, memory, bufLen)
    ensures Reached(buf, Overflow(o.at), table, a + b + c, memory, bufLen)
  {
    hide Stopped, Message;
    ReachedMore(buf, o, table, a, b, memory, bufLen);
    ReachedMore(buf, o, table, a + b, c, memory, bufLen);
  }

  /** The items of a section. */
  method FormatItems(buf: array<Byte>, bufLen: nat, start: nat, items: seq<Item>, table: LabelTable,
                     ghost parts: seq<Part>)
    returns (o: Outcome)
    requires Holds(buf.Length, parts + AllItemParts(items), table.memory, bufLen) && bufLen <= 0x4000 && NoNul(items)
    requires start <= bufLen + 1 && start <= buf.Length
    requires Message(buf[..start], table.State(), parts, table.memory, bufLen)
    modifies buf, table`labels, table`tries
    ensures o.Wrote? ==> o.at <= bufLen + 1
    ensures Reached(buf[..], o, table.State(), parts + AllItemParts(items), table.memory, bufLen)
    ensures !o.Refused?
  {
    hide Written, ItemParts, Message, Holds, Reached;
    o := Wrote(start);
    var i := 0;
    ReachedFirst(buf, start, table.State(), parts, table.memory, bufLen);
    while i < |items|
      invariant i <= |items| && o.Wrote? && o.at <= bufLen + 1
      invariant Reached(buf[..], o, table.State(), parts + AllItemParts(items[..i]), table.memory, bufLen)
      modifies buf, table`labels, table`tries
    {
      ghost var before, now, rest := parts + AllItemParts(items[..i]), ItemParts(items[i]), AllItemParts(items[i + 1..]);
      ItemsAround(parts, items, i);
      HoldsLess(buf.Length, before + now, rest, table.memory, bufLen);
      ReachedIs(buf[..], o, table.State(), before, table.memory, bufLen);
      assert buf[..][..o.at] == buf[..o.at];
      o := AppendItem(buf, bufLen, o.at, items[i], table, before);
      if !o.Wrote? {
        ReachedMore(buf[..], o, table.State(), before + now, rest, table.memory, bufLen);
        return;
      }
      i := i + 1;
    }
    assert items[..i] == items;
  }

  lemma {:induction false} ItemsSplit(items: seq<Item>, i: nat)
    requires i <= |items|
    ensures i < |items| ==> AllItemParts(items[..i + 1]) == AllItemParts(items[..i]) + ItemParts(items[i])
    ensures AllItemParts(items) == AllItemParts(items[..i]) + AllItemParts(items[i..])
    decreases |items|
  {
    hide ItemParts;
    if i < |items| {
      assert items[..i + 1][..i] == items[..i];
      var front := items[..|items| - 1];
      ItemsSplit(front, i);
      assert front[..i] == items[..i] && items[i..][..|items| - 1 - i] == front[i..];
    } else {
      assert items[..i] == items;
    }
  }

  lemma EmptyMessage(memory: nat -> bool, bufLen: nat)
    ensures Message([], Table([], 0), [], memory, bufLen)
  {
    assert Says([], [], [0]);
  }

  /** The header of six numbers, which always has room. */
  method FormatHeader(buf: array<Byte>, reply: Reply, err: bv16, table: LabelTable)
    requires buf.Length >= BUFFER_SIZE && table.State() == Table([], 0)
    modifies buf
    ensures Message(buf[..12], table.State(), HeaderParts(reply, err), table.memory, BUFFER_SIZE)
  {
    hide Message, Be16, ReplyFlags, Stopped;
    EmptyMessage(table.memory, BUFFER_SIZE);
    assert buf[..0] == [];
    var flags := ReplyFlags(reply.flags, err);
    ghost var h := HeaderParts(reply, err);
    assert [] + [BytesPart(Be16(reply.transId)), BytesPart(Be16(flags))] == h[..2];
    assert h[..2] + [BytesPart(Be16(|reply.questions|)), BytesPart(Be16(|reply.answer|))] == h[..4];
    assert h[..4] + [BytesPart(Be16(|reply.authority|)), BytesPart(Be16(|reply.additional|))] == h;
    var o := AppendPair(buf, BUFFER_SIZE, 0, reply.transId, flags, table, []);
    assert buf[..][..4] == buf[..4];
    o := AppendPair(buf, BUFFER_SIZE, 4, |reply.questions|, |reply.answer|, table, h[..2]);
    assert buf[..][..8] == buf[..8];
    o := AppendPair(buf, BUFFER_SIZE, 8, |reply.authority|, |reply.additional|, table, h[..4]);
    assert buf[..][..12] == buf[..12];
  }

  /** The first sections, and those that are left. */
  lemma {:induction false} SectionsSplit(reply: Reply, err: bv16, i: nat) returns (rest: seq<Part>)
    requires i <= 3
    ensures ReplyParts(reply, err) == PartsUpTo(reply, err, i) + rest
    decreases 3 - i
  {
    hide AllItemParts, HeaderParts, AllQuestionParts;
    if i == 3 {
      rest := [];
    } else {
      rest := SectionsSplit(reply, err, i + 1);
      rest := AllItemParts(Section(reply, i)) + rest;
    }
  }

  /** The first part that cannot be written is the name of a question. */
  predicate Refuses(reply: Reply, err: bv16, memory: nat -> bool) {
    IsQuestionName(Fitted(ReplyParts(reply, err), memory, BUFFER_SIZE) - 6, reply.questions)
  }

  /** Questions and sections, one after the other. */
  method FormatBody(buf: array<Byte>, reply: Reply, err: bv16, table: LabelTable) returns (o: Outcome)
    requires Holds(buf.Length, ReplyParts(reply, err), table.memory, BUFFER_SIZE)
    requires Message(buf[..12], table.State(), HeaderParts(reply, err), table.memory, BUFFER_SIZE)
    requires forall i :: 0 <= i < |reply.questions| ==> 0 !in reply.questions[i].name
    requires NoNul(reply.answer) && NoNul(reply.authority) && NoNul(reply.additional)
    modifies buf, table`labels, table`tries
    ensures Reached(buf[..], o, table.State(), ReplyParts(reply, err), table.memory, BUFFER_SIZE)
    ensures o.Refused? <==> Refuses(reply, err, table.memory)
    ensures o.Refused? ==> o.r == -1 || o.r == -2
  {
    hide Message, HeaderParts, AllItemParts, AllQuestionParts, NoNul, Holds, Fitted, Written;
    ghost var rest := SectionsSplit(reply, err, 0);
    HoldsLess(buf.Length, PartsUpTo(reply, err, 0), rest, table.memory, BUFFER_SIZE);
    o := FormatQuestions(buf, BUFFER_SIZE, 12, reply.questions, table, HeaderParts(reply, err));
    QuestionsFit(reply, err, rest, table.memory, o, buf[..], table.State());
    if !o.Wrote? {
      return;
    }
    var i := 0;
    while i < 3
      invariant 0 <= i <= 3 && o.Wrote? && o.at <= BUFFER_SIZE + 1
      invariant Reached(buf[..], o, table.State(), PartsUpTo(reply, err, i), table.memory, BUFFER_SIZE)
      modifies buf, table`labels, table`tries
    {
      rest := SectionsSplit(reply, err, i + 1);
      HoldsLess(buf.Length, PartsUpTo(reply, err, i + 1), rest, table.memory, BUFFER_SIZE);
      ReachedIs(buf[..], o, table.State(), PartsUpTo(reply, err, i), table.memory, BUFFER_SIZE);
      assert buf[..][..o.at] == buf[..o.at];
      o := FormatItems(buf, BUFFER_SIZE, o.at, Section(reply, i), table, PartsUpTo(reply, err, i));
      i := i + 1;
      if !o.Wrote? {
        ReachedMore(buf[..], o, table.State(), PartsUpTo(reply, err, i), rest, table.memory, BUFFER_SIZE);
        return;
      }
    }
  }

  lemma {:induction false} QuestionsFit(reply: Reply, err: bv16, rest: seq<Part>, memory: nat -> bool, o: Outcome,
                                        buf: seq<Byte>, table: Table)
    requires Reached(buf, o, table, PartsUpTo(reply, err, 0), memory, BUFFER_SIZE)
    requires ReplyParts(reply, err) == PartsUpTo(reply, err, 0) + rest
    requires o.Refused? <==> IsQuestionName(Fitted(PartsUpTo(reply, err, 0), memory, BUFFER_SIZE) - |HeaderParts(reply, err)|,
                                           reply.questions)
    ensures o.Refused? <==> Refuses(reply, err, memory)
    ensures !o.Wrote? ==> Reached(buf, o, table, ReplyParts(reply, err), memory, BUFFER_SIZE)
  {
    hide Written, Fitted, QuestionParts, ReplyParts;
    ReachedIs(buf, o, table, PartsUpTo(reply, err, 0), memory, BUFFER_SIZE);
    FittedMore(PartsUpTo(reply, err, 0), rest, memory, BUFFER_SIZE);
    QuestionsSplit(reply.questions, |reply.questions|);
    assert reply.questions[..|reply.questions|] == reply.questions;
    if !o.Wrote? {
      ReachedMore(buf, o, table, PartsUpTo(reply, err, 0), rest, memory, BUFFER_SIZE);
    }
  }

  /** The reply is cut off: a part does not fit, or what has been written is too long to be sent. */
  predicate Truncates(reply: Reply, err: bv16, memory: nat -> bool) {
    var parts := ReplyParts(reply, err);
    !AllFit(parts, memory, BUFFER_SIZE) || Final(parts, memory).j > MAX_REPLY
  }

  /** With the truncated bit, in the third byte. */
  function Marked(b: Byte): Byte {
    if b / 2 % 2 == 0 then b + 2 else b
  }

  /** The message starts like another, as far as both go, but is marked as truncated. */
  predicate Shows(message: Text, said: Text) {
    forall i :: 0 <= i < |message| && i < |said| ==> message[i] == if i == 2 then Marked(said[i]) else said[i]
  }

  lemma {:induction false} ReachedSaid(buf: seq<Byte>, o: Outcome, table: Table, parts: seq<Part>, memory: nat -> bool,
                                       bufLen: nat)
    requires Reached(buf, o, table, parts, memory, bufLen)
    ensures var n := Fitted(parts, memory, bufLen);
            o.at <= |buf| && IsSaid(buf[..o.at], parts[..n]) && Final(parts[..n], memory).j == o.at
    ensures o.Wrote? <==> AllFit(parts, memory, bufLen)
    ensures o.Wrote? ==> parts[..Fitted(parts, memory, bufLen)] == parts
  {
    hide IsSaid, Good, Final, Fitted;
    if o.Wrote? {
      assert parts[..|parts|] == parts;
    }
  }

  /** evdns_server_request_format_response, where `memory` says which copies of names for the table get memory. It
      writes the parts of the reply up to the first that does not fit into 1500 bytes, where a name may come to end one
      byte past them. If this part is the name of a question, that is an error. Otherwise the reply is sent as it is if
      it is whole and has at most 512 bytes, and else 512 bytes are sent, of which those behind what has been written
      are whatever was in the buffer. */
  method FormatResponse(reply: Reply, err: int, memory: nat -> bool, canAlloc: bool)
    returns (r: int, response: Text, truncated: bool, ghost said: Text)
    requires forall i :: 0 <= i < |reply.questions| ==> 0 !in reply.questions[i].name
    requires NoNul(reply.answer) && NoNul(reply.authority) && NoNul(reply.additional)
    ensures r == 0 || r == -1 || r == -2
    ensures r == 0 <==> 0 <= err <= 15 && !Refuses(reply, err as bv16, memory) && canAlloc
    ensures r == 0 ==>
              var parts := ReplyParts(reply, err as bv16);
              var n := Fitted(parts, memory, BUFFER_SIZE);
              && IsSaid(said, parts[..n]) && |said| == Final(parts[..n], memory).j <= BUFFER_SIZE + 1
              && (truncated <==> Truncates(reply, err as bv16, memory))
              && (!truncated ==> n == |parts| && response == said && |response| <= MAX_REPLY)
              && (truncated ==> |response| == MAX_REPLY && Shows(response, said))
  {
    hide Message, HeaderParts, ReplyParts, NoNul, IsSaid, Reached, Fitted, Final, Refuses;
    response, truncated, said := [], false, [];
    if err < 0 || err > 15 {
      return -1, response, truncated, said;
    }
    var parts := ReplyParts(reply, err as bv16);
    var buf := new Byte[if Spills(parts, memory, BUFFER_SIZE) then BUFFER_SIZE + 1 else BUFFER_SIZE];
    var table := new LabelTable(memory);
    FormatHeader(buf, reply, err as bv16, table);
    var o := FormatBody(buf, reply, err as bv16, table);
    if o.Refused? {
      return o.r, response, truncated, said;
    }
    ReachedSaid(buf[..], o, table.State(), parts, memory, BUFFER_SIZE);
    said := buf[..][..o.at];
    var j := MAX_REPLY;
    truncated := o.Overflow? || o.at > MAX_REPLY;
    if truncated {
      buf[2] := Marked(buf[2]);
    } else {
      j := o.at;
    }
    if !canAlloc {
      return -1, response, truncated, said;
    }
    r, response := 0, buf[..j];
  }

  /** A first item with too long a label: nothing goes out but the header, in 512 bytes. */
  lemma {:induction false} OnlyHeaderWritten(reply: Reply, err: bv16, memory: nat -> bool)
    requires reply.questions == [] && reply.answer != []
    requires FindDot(reply.answer[0].name) > 63
    ensures var parts := ReplyParts(reply, err);
            var n := Fitted(parts, memory, BUFFER_SIZE);
            && Truncates(reply, err, memory) && !Refuses(reply, err, memory)
            && n == 6 && parts[..n] == HeaderParts(reply, err) && Final(parts[..n], memory).j == 12
  {
    hide Final, Fitted, After, Be16, ReplyFlags, ReplyParts, ItemParts, AllItemParts, PartsUpTo;
    var h, it := HeaderParts(reply, err), reply.answer[0];
    HeaderFits(reply, err, memory, 6);
    assert h[..6] == h;
    var rest := StartsWithName(reply, err);
    FittedNext(h, NamePart(it.name), memory, BUFFER_SIZE);
    FittedMore(h + [NamePart(it.name)], rest, memory, BUFFER_SIZE);
    assert (h + [NamePart(it.name)] + rest)[..6] == h;
  }

  lemma {:induction false} StartsWithName(reply: Reply, err: bv16)
    returns (rest: seq<Part>)
    requires reply.questions == [] && reply.answer != []
    ensures ReplyParts(reply, err) == HeaderParts(reply, err) + [NamePart(reply.answer[0].name)] + rest
  {
    hide ReplyParts, HeaderParts, ItemParts;
    var behind := SectionsSplit(reply, err, 1);
    var tail := NameFirst(reply.answer[0]);
    ItemsSplit(reply.answer, 1);
    assert reply.answer[..1] == [reply.answer[0]] && [reply.answer[0]][..0] == [];
    assert AllItemParts([reply.answer[0]]) == ItemParts(reply.answer[0]);
    rest := tail + AllItemParts(reply.answer[1..]) + behind;
    HeaderFirst(reply, err);
    assert ReplyParts(reply, err)
           == HeaderParts(reply, err) + ([NamePart(reply.answer[0].name)] + tail + AllItemParts(reply.answer[1..])) + behind;
  }

  lemma HeaderFirst(reply: Reply, err: bv16)
    requires reply.questions == []
    ensures PartsUpTo(reply, err, 1) == HeaderParts(reply, err) + AllItemParts(reply.answer)
  {
    hide AllItemParts, HeaderParts;
    assert PartsUpTo(reply, err, 0) == HeaderParts(reply, err);
  }

  lemma NameFirst(it: Item) returns (tail: seq<Part>)
    ensures ItemParts(it) == [NamePart(it.name)] + tail
  {
    tail := ItemParts(it)[1..];
  }

  lemma {:induction false} HeaderFits(reply: Reply, err: bv16, memory: nat -> bool, i: nat)
    requires i <= 6
    ensures AllFit(HeaderParts(reply, err)[..i], memory, BUFFER_SIZE)
    ensures Final(HeaderParts(reply, err)[..i], memory) == Spot(2 * i, Table([], 0))
  {
    hide Be16, ReplyFlags;
    var h := HeaderParts(reply, err);
    if i > 0 {
      HeaderFits(reply, err, memory, i - 1);
      FittedNext(h[..i - 1], h[i - 1], memory, BUFFER_SIZE);
      assert h[..i] == h[..i - 1] + [h[i - 1]];
    }
  }

  /** Where a message says a name, a reader finds it, whatever its place in the chain of pointers: the name itself if
      none of its labels is empty, with the index just past its bytes. */
  lemma {:induction false} NamesReadBack(pkt: Text, parts: seq<Part>, places: seq<nat>, i: nat)
    requires Says(pkt, parts, places) && i < |parts| && !parts[i].BytesPart?
    ensures var name := parts[i].name;
            var p := places[i] + if parts[i].SizedName? then 2 else 0;
            && Walk(pkt, p, |pkt|) == Some(Canon(name))
            && (NoGap(name) ==> End(pkt, p) == places[i + 1])
            && (Canon(name) == name <==> name == [] || (NoGap(name) && name[|name| - 1] != DOT))
  {
    hide Walk, End, Canon, NoGap;
    assert PartAt(pkt, places[i], parts[i], places[i + 1]);
    var p := places[i] + if parts[i].SizedName? then 2 else 0;
    NamesComeBack(pkt, p, parts[i].name);
    CanonIsName(parts[i].name);
  }
}
