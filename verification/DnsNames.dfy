/** Names in DNS messages, with the compression of RFC 1035, section 4.1.4: dnsname_to_labels and name_parse of
    evdns.c. */
module DnsNames {
  import opened Bytes

  const MAX_LABELS: nat := 128

  // What a message says.

  function Join(head: Text, rest: Text): Text {
    if rest == [] then head else head + [DOT] + rest
  }

  /** Where the pointer in these two bytes leads. */
  function PointerTarget(high: Byte, low: Byte): nat {
    high % 64 * 256 + low
  }

  /** The name at `p`, if there is one that can be read with at most `jumps` pointers. A length byte with either of
      its two top bits set starts a pointer. */
  function Walk(pkt: Text, p: nat, jumps: nat): Option<Text>
    decreases jumps, |pkt| - p
  {
    if p >= |pkt| then None
    else if pkt[p] == 0 then Some([])
    else if pkt[p] >= 64 then
      if p + 1 >= |pkt| then None
      else
        var t := PointerTarget(pkt[p], pkt[p + 1]);
        if t >= |pkt| || jumps == 0 then None else Walk(pkt, t, jumps - 1)
    else if p + 1 + pkt[p] > |pkt| then None
    else
      match Walk(pkt, p + 1 + pkt[p], jumps)
      case None => None
      case Some(rest) => Some(Join(pkt[p + 1..p + 1 + pkt[p]], rest))
  }

  /** The index after the name at `p`: after its first pointer, or after the empty label that ends it. */
  function End(pkt: Text, p: nat): nat
    decreases |pkt| - p
  {
    if p >= |pkt| then p
    else if pkt[p] == 0 then p + 1
    else if pkt[p] >= 64 then p + 2
    else End(pkt, p + 1 + pkt[p])
  }

  lemma SamePart(pkt: Text, more: Text, i: nat, k: nat)
    requires |pkt| <= |more| && more[..|pkt|] == pkt && i <= k <= |pkt|
    ensures more[i..k] == pkt[i..k]
  {
    assert more[..|pkt|][i..k] == more[i..k];
  }

  /** More bytes behind, and more jumps, do not change what a name says. */
  lemma {:induction false} WalkExtends(pkt: Text, more: Text, p: nat, jumps: nat, jumps': nat)
    requires Walk(pkt, p, jumps).Some? && |pkt| <= |more| && more[..|pkt|] == pkt && jumps <= jumps'
    ensures Walk(more, p, jumps') == Walk(pkt, p, jumps) && End(more, p) == End(pkt, p)
    decreases jumps, |pkt| - p
  {
    hide PointerTarget, Join;
    assert more[p] == pkt[p];
    if pkt[p] == 0 {
    } else if pkt[p] >= 64 {
      assert more[p + 1] == pkt[p + 1];
      WalkExtends(pkt, more, PointerTarget(pkt[p], pkt[p + 1]), jumps - 1, jumps' - 1);
    } else {
      WalkExtends(pkt, more, p + 1 + pkt[p], jumps, jumps');
      SamePart(pkt, more, p + 1, p + 1 + pkt[p]);
    }
  }

  /** What has been read so far, in front of what is still to come. */
  function Prefixed(done: Text, rest: Option<Text>): Option<Text> {
    match rest
    case None => None
    case Some(name) => Some(if done == [] then name else if name == [] then done else done + [DOT] + name)
  }

  lemma WalkPointer(pkt: Text, j: nat, jumps: nat)
    requires j + 1 < |pkt| && pkt[j] >= 64
    ensures var t := PointerTarget(pkt[j], pkt[j + 1]);
            Walk(pkt, j, jumps) == if t >= |pkt| || jumps == 0 then None else Walk(pkt, t, jumps - 1)
    ensures End(pkt, j) == j + 2
  {
  }

  lemma JoinInside(done: Text, head: Text, rest: Text)
    requires head != []
    ensures Prefixed(done, Some(Join(head, rest)))
            == Prefixed((if done == [] then [] else done + [DOT]) + head, Some(rest))
  {
    if done != [] && rest != [] {
      assert done + [DOT] + (head + [DOT] + rest) == done + [DOT] + head + [DOT] + rest;
    } else if done == [] {
      assert [] + head == head;
    }
  }

  /** Reading a label moves it from what is to come to what has been read. */
  lemma WalkLabel(pkt: Text, j: nat, jumps: nat, done: Text, lead: Text, head: Text)
    requires j < |pkt| && 0 < pkt[j] < 64 && |head| == pkt[j]
    requires lead == if done == [] then [] else done + [DOT]
    requires j + 1 + pkt[j] <= |pkt| ==> head == pkt[j + 1..j + 1 + pkt[j]]
    ensures Prefixed(done, Walk(pkt, j, jumps)) == Prefixed(lead + head, Walk(pkt, j + 1 + pkt[j], jumps))
    ensures End(pkt, j) == End(pkt, j + 1 + pkt[j])
  {
    var rest := Walk(pkt, j + 1 + pkt[j], jumps);
    if rest.Some? {
      assert Walk(pkt, j, jumps) == Some(Join(head, rest.value));
      JoinInside(done, head, rest.value);
    }
  }

  /** A name is at least as long as its first labels. */
  lemma PrefixedLength(done: Text, rest: Option<Text>)
    ensures Prefixed(done, rest).Some? ==> |Prefixed(done, rest).value| >= |done|
  {
  }

  /** The dot that comes before a label unless it is the first. */
  function Lead(used: nat): nat {
    if used == 0 then 0 else 1
  }

  /** Copies a label of a packet, and a dot before it unless it is the first, behind what has been read so far; the
      packet is only looked at if there is room. */
  method CopyLabel(nameOut: array<Byte>, nameOutLen: nat, at: nat, packet: array<Byte>, j: nat, n: nat)
    returns (ok: bool, cp: nat)
    requires at <= nameOutLen <= nameOut.Length && n > 0 && packet != nameOut
    requires at + Lead(at) + n < nameOutLen ==> j + n <= packet.Length
    modifies nameOut
    ensures ok <==> at + Lead(at) + n < nameOutLen
    ensures ok ==>
              cp == at + Lead(at) + n
              && nameOut[..cp] == (if at == 0 then [] else old(nameOut[..at]) + [DOT]) + packet[j..j + n]
  {
    cp := at;
    ghost var lead := if at == 0 then [] else nameOut[..at] + [DOT];
    if cp != 0 {
      if cp + 1 >= nameOutLen {
        return false, cp;
      }
      nameOut[cp] := DOT;
      cp := cp + 1;
    }
    assert nameOut[..cp] == lead;
    if cp + n >= nameOutLen {
      return false, cp;
    }
    var head := packet[j..j + n];
    OverlayParts(nameOut[..], cp, head);
    MemCpy(nameOut, cp, head);
    assert nameOut[..cp + n] == nameOut[..][..cp] + nameOut[..][cp..cp + n];
    cp := cp + n;
    ok := true;
  }

  /** Reading the name at `p`, with `used` bytes of it in an output of `room`, comes to a label that fits into the output and
      does not end within the packet. */
  predicate Strays(pkt: Text, p: nat, jumps: nat, used: nat, room: nat)
    decreases jumps, |pkt| - p
  {
    && p < |pkt| && pkt[p] != 0
    && if pkt[p] >= 64 then
         && p + 1 < |pkt| && jumps > 0
         && PointerTarget(pkt[p], pkt[p + 1]) < |pkt|
         && Strays(pkt, PointerTarget(pkt[p], pkt[p + 1]), jumps - 1, used, room)
       else
         && used + Lead(used) + pkt[p] < room
         && (p + 1 + pkt[p] > |pkt| || Strays(pkt, p + 1 + pkt[p], jumps, used + Lead(used) + pkt[p], room))
  }

  lemma StraysPointer(pkt: Text, j: nat, jumps: nat, used: nat, room: nat)
    requires j + 1 < |pkt| && pkt[j] >= 64
    ensures var t := PointerTarget(pkt[j], pkt[j + 1]);
            Strays(pkt, j, jumps, used, room) == (t < |pkt| && jumps > 0 && Strays(pkt, t, jumps - 1, used, room))
  {
  }

  lemma StraysLabel(pkt: Text, j: nat, jumps: nat, used: nat, room: nat)
    requires j < |pkt| && 0 < pkt[j] < 64
    ensures var cp, next := used + Lead(used) + pkt[j], j + 1 + pkt[j];
            Strays(pkt, j, jumps, used, room) == (cp < room && (next > |pkt| || Strays(pkt, next, jumps, cp, room)))
  {
  }

  lemma StraysEnds(pkt: Text, j: nat, jumps: nat, used: nat, room: nat)
    ensures j >= |pkt| || pkt[j] == 0 || (pkt[j] >= 64 && j + 1 >= |pkt|) ==> !Strays(pkt, j, jumps, used, room)
  {
  }

  /** What a label, in the packet or not, adds to what has been read. */
  lemma LabelStep(packet: array<Byte>, length: nat, p: nat, jumps: nat, done: Text, lead: Text, used: nat, room: nat)
    returns (head: Text)
    requires p < length <= packet.Length && 0 < packet[p] < 64
    requires lead == if done == [] then [] else done + [DOT]
    ensures var pkt, n, next := packet[..length], packet[p], p + 1 + packet[p];
            && |head| == n && (next <= packet.Length ==> head == packet[p + 1..next])
            && Prefixed(done, Walk(pkt, p, jumps)) == Prefixed(lead + head, Walk(pkt, next, jumps))
            && End(pkt, p) == End(pkt, next)
            && (Prefixed(lead + head, Walk(pkt, next, jumps)).Some? ==>
                  |Prefixed(lead + head, Walk(pkt, next, jumps)).value| >= |lead + head|)
            && Strays(pkt, p, jumps, used, room)
               == (used + Lead(used) + n < room
                   && (next > length || Strays(pkt, next, jumps, used + Lead(used) + n, room)))
  {
    hide Walk, End, Prefixed, Strays;
    var pkt, n := packet[..length], packet[p];
    head := if p + 1 + n <= packet.Length then packet[p + 1..p + 1 + n] else seq(n, _ => 0);
    if p + 1 + n <= packet.Length {
      SliceOf(packet, length, p + 1, p + 1 + n);
    }
    StraysLabel(pkt, p, jumps, used, room);
    WalkLabel(pkt, p, jumps, done, lead, head);
    PrefixedLength(lead + head, Walk(pkt, p + 1 + n, jumps));
  }

  /** A label of one byte is announced where the packet ends. */
  lemma StrayPacket()
    ensures Strays([1], 0, 1, 0, 256)
  {
  }

  /** name_parse. A label is copied before its end is checked, so exactly a packet that strays is read
      past its length, by `overread` bytes. */
  method NameParse(packet: array<Byte>, length: nat, idx: nat, nameOut: array<Byte>, nameOutLen: nat)
    returns (r: int, newIdx: nat, ghost overread: nat)
    requires length <= packet.Length && nameOutLen <= nameOut.Length && packet != nameOut
    requires Strays(packet[..length], idx, length, 0, nameOutLen) ==> length + 63 <= packet.Length
    modifies nameOut
    ensures r == 0 || r == -1
    ensures var name := Walk(packet[..length], idx, length);
      && (r == 0 <==> name.Some? && |name.value| < nameOutLen)
      && (r == 0 ==> nameOut[..|name.value| + 1] == name.value + [0] && newIdx == End(packet[..length], idx))
    ensures overread > 0 <==> Strays(packet[..length], idx, length, 0, nameOutLen)
    ensures overread <= 63
  {
    hide Walk, End, Prefixed, Overlay, Strays, PointerTarget;
    ghost var pkt := packet[..length];
    ghost var done := [];
    PrefixedNone(Walk(pkt, idx, length));
    var nameEnd: int := -1;
    var j: nat := idx;
    var ptrCount: nat := 0;
    var cp: nat := 0;
    overread := 0;
    while true
      invariant ptrCount <= length && packet[..length] == pkt
      invariant cp <= nameOut.Length && (cp > 0 ==> cp < nameOutLen) && nameOut[..cp] == done
      invariant nameEnd >= -1 && End(pkt, idx) == if nameEnd == -1 then End(pkt, j) else nameEnd
      invariant Walk(pkt, idx, length) == Prefixed(done, Walk(pkt, j, length - ptrCount))
      invariant overread == 0 ==>
                  Strays(pkt, idx, length, 0, nameOutLen) == Strays(pkt, j, length - ptrCount, cp, nameOutLen)
      invariant overread > 0 ==> overread <= 63 && j > length && Strays(pkt, idx, length, 0, nameOutLen)
      decreases length - ptrCount, length - j
    {
      WalkEnds(pkt, j, length - ptrCount, done);
      StraysEnds(pkt, j, length - ptrCount, cp, nameOutLen);
      if j >= length {
        return -1, idx, overread;
      }
      var labelLen := packet[j];
      j := j + 1;
      if labelLen == 0 {
        break;
      }
      if labelLen >= 64 {
        if j >= length {
          return -1, idx, overread;
        }
        WalkPointer(pkt, j - 1, length - ptrCount);
        StraysPointer(pkt, j - 1, length - ptrCount, cp, nameOutLen);
        var ptrLow := packet[j];
        j := j + 1;
        if nameEnd < 0 {
          nameEnd := j;
        }
        j := PointerTarget(labelLen, ptrLow);
        if j >= length {
          return -1, idx, overread;
        }
        ptrCount := ptrCount + 1;
        if ptrCount > length {
          return -1, idx, overread;
        }
        continue;
      }
      ghost var lead := if done == [] then [] else done + [DOT];
      ghost var head := LabelStep(packet, length, j - 1, length - ptrCount, done, lead, cp, nameOutLen);
      var ok;
      ok, cp := CopyLabel(nameOut, nameOutLen, cp, packet, j, labelLen);
      if !ok {
        return -1, idx, overread;
      }
      done := lead + head;
      j := j + labelLen;
      overread := if j > length then j - length else 0;
    }
    if cp >= nameOutLen {
      return -1, idx, overread;
    }
    nameOut[cp] := 0;
    newIdx := if nameEnd < 0 then j else nameEnd;
    r := 0;
  }

  lemma SliceOf(a: array<Byte>, n: nat, i: nat, k: nat)
    requires n <= a.Length && i <= k <= a.Length
    ensures k <= n ==> a[..n][i..k] == a[i..k]
  {
  }

  lemma PrefixOf(a: array<Byte>, n: nat, k: nat)
    requires k <= n <= a.Length
    ensures a[..n][..k] == a[..k]
  {
  }

  lemma PrefixedNone(rest: Option<Text>)
    ensures Prefixed([], rest) == rest
  {
  }

  /** Where a name cannot go on, or ends. */
  lemma WalkEnds(pkt: Text, j: nat, jumps: nat, done: Text)
    ensures j >= |pkt| || (j + 1 >= |pkt| && pkt[j] >= 64) ==> Prefixed(done, Walk(pkt, j, jumps)) == None
    ensures j < |pkt| && pkt[j] == 0 ==> Prefixed(done, Walk(pkt, j, jumps)) == Some(done) && End(pkt, j) == j + 1
    ensures Prefixed(done, None) == None
  {
  }

  // What a text says as a name.

  /** The place of the first dot, or the end. */
  function FindDot(s: Text): (d: nat)
    ensures d <= |s| && DOT !in s[..d] && (d < |s| ==> s[d] == DOT)
  {
    if s == [] || s[0] == DOT then 0
    else
      assert s[..1 + FindDot(s[1..])] == [s[0]] + s[1..][..FindDot(s[1..])];
      1 + FindDot(s[1..])
  }

  /** The labels of a text up to the first empty one, which is where a message would end the name. */
  function Canon(s: Text): Text
    decreases |s|
  {
    var d := FindDot(s);
    if d == |s| then s else if d == 0 then [] else Join(s[..d], Canon(s[d + 1..]))
  }

  /** No label before the last is empty. */
  predicate NoGap(s: Text)
    decreases |s|
  {
    var d := FindDot(s);
    d == |s| || (d > 0 && NoGap(s[d + 1..]))
  }

  /** A name comes back as it was exactly if none of its labels is empty, or if it has no label at all. */
  lemma {:induction false} CanonIsName(s: Text)
    ensures Canon(s) == s <==> s == [] || (NoGap(s) && s[|s| - 1] != DOT)
    ensures |Canon(s)| <= |s|
    decreases |s|
  {
    var d := FindDot(s);
    if d < |s| {
      var rest := s[d + 1..];
      assert s == s[..d] + [DOT] + rest;
      CanonIsName(rest);
      if d > 0 {
        if rest == [] {
          assert |Canon(s)| == d;
        } else if Canon(rest) == [] {
          assert |Canon(s)| == d;
        } else {
          assert s[..d] + [DOT] + Canon(rest) == s <==> Canon(rest) == rest by {
            if s[..d] + [DOT] + Canon(rest) == s {
              assert (s[..d] + [DOT] + Canon(rest))[d + 1..] == Canon(rest);
            }
          }
        }
      }
    } else if s != [] {
      assert s[..d] == s;
      assert s[|s| - 1] in s[..d];
    }
  }

  // Writing names.

  /** The bytes of `b` from `p` on are the labels of `v`, up to where `s` is all that is left of it. */
  ghost predicate Leads(b: Text, p: nat, v: Text, s: Text)
    decreases |v|
  {
    if p >= |b| then p == |b| && v == s
    else
      var d := FindDot(v);
      && d < |v| && d < 64 && p + 1 + d <= |b| && b[p] == d && b[p + 1..p + 1 + d] == v[..d]
      && Leads(b, p + 1 + d, v[d + 1..], s)
  }

  lemma {:induction false} LeadsExtends(b: Text, p: nat, v: Text, s: Text, more: Text)
    requires Leads(b, p, v, s)
    requires var d := FindDot(s); d < |s| && d < 64 && more == b + [d] + s[..d]
    ensures Leads(more, p, v, s[FindDot(s) + 1..])
    decreases |v|
  {
    hide FindDot;
    var d := FindDot(v);
    if p >= |b| {
      assert more[p + 1..p + 1 + d] == v[..d];
    } else {
      LeadsExtends(b, p + 1 + d, v[d + 1..], s, more);
      assert more[p + 1..p + 1 + d] == b[p + 1..p + 1 + d];
    }
  }

  /** If what is left of the name can be read where the labels stop, the whole name can be read where they start. */
  lemma {:induction false} LeadsWalk(b: Text, p: nat, v: Text, s: Text, pkt: Text, jumps: nat)
    requires Leads(b, p, v, s) && |b| <= |pkt| && pkt[..|b|] == b
    requires Walk(pkt, |b|, jumps) == Some(Canon(s))
    ensures Walk(pkt, p, jumps) == Some(Canon(v))
    ensures NoGap(v) ==> End(pkt, p) == End(pkt, |b|) && NoGap(s)
    decreases |v|
  {
    hide FindDot, Walk, End, Canon, NoGap;
    if p < |b| {
      var d := FindDot(v);
      LeadsWalk(b, p + 1 + d, v[d + 1..], s, pkt, jumps);
      assert pkt[p] == b[p] == d;
      SamePart(b, pkt, p + 1, p + 1 + d);
      ReadLabel(pkt, p, jumps);
      CanonLabel(v);
    }
  }

  lemma ReadLabel(pkt: Text, p: nat, jumps: nat)
    requires p < |pkt| && pkt[p] < 64 && p + 1 + pkt[p] <= |pkt|
    ensures pkt[p] == 0 ==> Walk(pkt, p, jumps) == Some([])
    ensures pkt[p] > 0 && Walk(pkt, p + 1 + pkt[p], jumps).Some? ==>
              Walk(pkt, p, jumps)
              == Some(Join(pkt[p + 1..p + 1 + pkt[p]], Walk(pkt, p + 1 + pkt[p], jumps).value))
    ensures pkt[p] > 0 ==> End(pkt, p) == End(pkt, p + 1 + pkt[p])
  {
  }

  lemma CanonLabel(v: Text)
    requires FindDot(v) < |v|
    ensures Canon(v) == if FindDot(v) == 0 then [] else Join(v[..FindDot(v)], Canon(v[FindDot(v) + 1..]))
    ensures NoGap(v) <==> FindDot(v) > 0 && NoGap(v[FindDot(v) + 1..])
  {
    hide FindDot, Join;
  }

  /** The last label of a name, and an empty one behind it unless it is empty itself. */
  function LastBytes(s: Text): Text
    requires |s| < 256
  {
    [|s|] + s + if s == [] then [] else [0]
  }

  /** The last label, with the empty one behind it, or the last label being empty itself. */
  lemma LastLabelReads(b: Text, s: Text, pkt: Text, jumps: nat)
    requires FindDot(s) == |s| < 64 && pkt == b + LastBytes(s)
    ensures Walk(pkt, |b|, jumps) == Some(Canon(s)) && End(pkt, |b|) == |pkt|
  {
    assert pkt[|b|] == |s|;
    if s != [] {
      assert pkt[|b| + 1..|b| + 1 + |s|] == s;
      assert pkt[|b| + 1 + |s|] == 0;
      assert Walk(pkt, |b| + 1 + |s|, jumps) == Some([]);
    }
  }

  lemma PointerReads(b: Text, t: nat, pkt: Text, jumps: nat)
    requires t < 0x4000 && t < |b| && jumps > 0 && pkt == b + PointerBytes(t)
    ensures Walk(pkt, |b|, jumps) == Walk(pkt, t, jumps - 1) && End(pkt, |b|) == |pkt|
  {
    hide Walk, End, PointerTarget;
    PointerLeads(t);
    assert pkt[|b|] == PointerBytes(t)[0] && pkt[|b| + 1] == PointerBytes(t)[1];
    WalkPointer(pkt, |b|, jumps);
  }

  lemma PointerLeads(t: nat)
    requires t < 0x4000
    ensures PointerBytes(t)[0] >= 192 && PointerTarget(PointerBytes(t)[0], PointerBytes(t)[1]) == t
  {
  }

  // The table of suffixes.

  datatype Entry = Entry(v: Text, pos: nat)

  /** Every suffix in the table can be read at its place, with no more jumps than bytes before it. */
  ghost predicate Good(labels: seq<Entry>, pkt: Text) {
    forall e :: e in labels ==> e.pos < |pkt| && e.pos < 0x4000 && Walk(pkt, e.pos, e.pos) == Some(Canon(e.v))
  }

  /** Whatever is written behind them, the suffixes stay readable. */
  lemma {:induction false} GoodExtends(labels: seq<Entry>, pkt: Text, more: Text)
    requires Good(labels, pkt) && |pkt| <= |more| && more[..|pkt|] == pkt
    ensures Good(labels, more)
  {
    forall e | e in labels
      ensures e.pos < |more| && e.pos < 0x4000 && Walk(more, e.pos, e.pos) == Some(Canon(e.v))
    {
      WalkExtends(pkt, more, e.pos, e.pos, e.pos);
    }
  }

  /** No entry is for this suffix. */
  predicate IsNew(labels: seq<Entry>, v: Text) {
    forall e :: e in labels ==> e.v != v
  }

  /** The place of the first entry for a suffix, or -1. */
  function Place(labels: seq<Entry>, v: Text): int {
    if labels == [] then -1 else if labels[0].v == v then labels[0].pos else Place(labels[1..], v)
  }

  lemma {:induction false} PlaceIs(labels: seq<Entry>, v: Text)
    ensures Place(labels, v) >= -1 && (Place(labels, v) == -1 <==> IsNew(labels, v))
    ensures Place(labels, v) >= 0 ==> Entry(v, Place(labels, v)) in labels
  {
    if labels != [] {
      PlaceIs(labels[1..], v);
      assert labels == [labels[0]] + labels[1..];
    }
  }

  lemma {:induction false} PlaceAfter(labels: seq<Entry>, more: seq<Entry>, v: Text)
    requires forall e :: e in more ==> e.v != v
    ensures Place(labels + more, v) == Place(labels, v)
  {
    if labels == [] {
      PlaceIs(more, v);
      assert labels + more == more;
    } else {
      PlaceAfter(labels[1..], more, v);
      assert (labels + more)[1..] == labels[1..] + more;
    }
  }

  lemma {:induction false} PlaceSkips(labels: seq<Entry>, i: nat, v: Text)
    requires i <= |labels| && forall k :: 0 <= k < i ==> labels[k].v != v
    ensures Place(labels, v) == Place(labels[i..], v)
  {
    if i > 0 {
      PlaceSkips(labels[1..], i - 1, v);
      assert labels[1..][i - 1..] == labels[i..];
    } else {
      assert labels[0..] == labels;
    }
  }

  /** A table, and how many copies have been asked for. */
  datatype Table = Table(labels: seq<Entry>, tries: nat)

  /** A table that has been asked to take an entry in; `memory` says of each copy whether there is memory for it. */
  function Tried(t: Table, memory: nat -> bool, e: Entry): Table {
    if |t.labels| == MAX_LABELS then t
    else Table(if memory(t.tries) then t.labels + [e] else t.labels, t.tries + 1)
  }

  /** struct dnslabel_table. */
  class LabelTable {
    var labels: seq<Entry>
    var tries: nat
    const memory: nat -> bool

    constructor (memory: nat -> bool)
      ensures labels == [] && tries == 0 && this.memory == memory
    {
      labels, tries := [], 0;
      this.memory := memory;
    }

    function State(): Table
      reads `labels, `tries
    {
      Table(labels, tries)
    }

    /** dnslabel_table_get_pos. */
    method GetPos(v: Text) returns (pos: int)
      ensures pos == Place(labels, v)
    {
      var i := 0;
      while i < |labels|
        invariant i <= |labels| && forall k :: 0 <= k < i ==> labels[k].v != v
      {
        if labels[i].v == v {
          PlaceSkips(labels, i, v);
          return labels[i].pos;
        }
        i := i + 1;
      }
      PlaceSkips(labels, i, v);
      pos := -1;
    }

    /** dnslabel_table_add. The copy of the suffix may not get its memory. */
    method Add(v: Text, pos: nat) returns (r: int)
      modifies `labels, `tries
      ensures State() == Tried(old(State()), memory, Entry(v, pos))
      ensures r == if labels == old(labels) then -1 else 0
    {
      if |labels| == MAX_LABELS {
        return -1;
      }
      tries := tries + 1;
      if !memory(tries - 1) {
        return -1;
      }
      labels := labels + [Entry(v, pos)];
      r := 0;
    }
  }

  /** The entries of the name that is being written. */
  ghost predicate Unfinished(labels: seq<Entry>, b: Text, start: nat, s: Text) {
    forall e :: e in labels ==> start <= e.pos < |b| && |s| < |e.v| && Leads(b, e.pos, e.v, s)
  }

  lemma {:induction false} UnfinishedExtends(labels: seq<Entry>, b: Text, start: nat, s: Text, more: Text)
    requires Unfinished(labels, b, start, s)
    requires var d := FindDot(s); d < |s| && d < 64 && more == b + [d] + s[..d]
    ensures Unfinished(labels, more, start, s[FindDot(s) + 1..])
  {
    forall e | e in labels
      ensures Leads(more, e.pos, e.v, s[FindDot(s) + 1..])
    {
      LeadsExtends(b, e.pos, e.v, s, more);
    }
  }

  /** Once what is left of the name can be read, so can the whole name and all its entries. */
  lemma {:induction false} Finished(before: seq<Entry>, own: seq<Entry>, b: Text, start: nat, name: Text, s: Text,
                                    pkt: Text)
    requires start <= |b| <= |pkt| && pkt[..|b|] == b
    requires Good(before, b[..start]) && Unfinished(own, b, start, s) && Leads(b, start, name, s)
    requires forall jumps :: jumps >= start ==> Walk(pkt, |b|, jumps) == Some(Canon(s))
    requires |b| < |pkt| && End(pkt, |b|) == |pkt|
    ensures Walk(pkt, start, start) == Some(Canon(name))
    ensures End(pkt, start) == |pkt| <==> Solid(name, s)
    ensures |b| <= 0x4000 ==> Good(before + own, pkt)
  {
    LeadsWalk(b, start, name, s, pkt, start);
    SolidEnds(b, start, name, s, pkt);
    assert pkt[..start] == b[..start];
    GoodExtends(before, b[..start], pkt);
    forall e | e in own
      ensures Walk(pkt, e.pos, e.pos) == Some(Canon(e.v))
    {
      LeadsWalk(b, e.pos, e.v, s, pkt, e.pos);
    }
  }

  /** The two bytes of a pointer to `pos`. */
  function PointerBytes(pos: nat): (r: Text)
    ensures |r| == 2
  {
    [0xc0 + pos % 0x4000 / 256, pos % 256]
  }

  /** APPEND16, for a pointer to `pos`. */
  method AppendPointer(buf: array<Byte>, bufLen: nat, j: nat, pos: nat, ghost start: nat) returns (r: int)
    requires bufLen <= buf.Length && start <= j <= bufLen
    modifies buf
    ensures r == if j + 2 > bufLen then -2 else j + 2
    ensures r > 0 ==> buf[..r] == old(buf[..j]) + PointerBytes(pos)
    ensures buf[..start] == old(buf[..start]) && forall k :: j + 2 <= k < buf.Length ==> buf[k] == old(buf[k])
    ensures r == -2 ==> buf[..] == old(buf[..])
  {
    if j + 2 > bufLen {
      return -2;
    }
    buf[j] := 0xc0 + pos % 0x4000 / 256;
    buf[j + 1] := pos % 256;
    r := j + 2;
    assert buf[..r] == old(buf[..j]) + PointerBytes(pos);
  }

  /** A length byte and its label. */
  method AppendLabel(buf: array<Byte>, at: nat, head: Text, ghost start: nat) returns (j: nat)
    requires start <= at && at + 1 + |head| <= buf.Length && |head| < 256
    modifies buf
    ensures j == at + 1 + |head| && buf[..j] == old(buf[..at]) + [|head|] + head
    ensures buf[..start] == old(buf[..start]) && forall k :: j <= k < buf.Length ==> buf[k] == old(buf[k])
  {
    ghost var was := buf[..];
    buf[at] := |head|;
    assert buf[at + 1..] == was[at + 1..];
    assert buf[..at + 1] == old(buf[..at]) + [|head|];
    OverlayParts(buf[..], at + 1, head);
    MemCpy(buf, at + 1, head);
    j := at + 1 + |head|;
    assert buf[..j] == buf[..][..at + 1] + buf[..][at + 1..j];
    assert buf[..start] == buf[..][..at + 1][..start];
    assert buf[..][j..] == was[j..];
  }

  /** The last label, and an empty one behind it unless it is empty itself. */
  method AppendLast(buf: array<Byte>, at: nat, head: Text, ghost start: nat) returns (j: nat)
    requires start <= at && |head| < 256 && at + |LastBytes(head)| <= buf.Length && 0 !in head
    modifies buf
    ensures at < j <= at + |head| + 2 && j <= buf.Length && buf[..start] == old(buf[..start])
    ensures buf[j - 1] == 0 && forall k :: j <= k < buf.Length ==> buf[k] == old(buf[k])
    ensures buf[..j] == old(buf[..at]) + LastBytes(head)
  {
    ghost var b := buf[..at];
    j := AppendLabel(buf, at, head, start);
    ghost var with := buf[..j];
    assert head != [] ==> buf[..j][j - 1] == head[|head| - 1];
    assert head == [] ==> buf[..j][j - 1] == 0;
    if buf[j - 1] != 0 {
      buf[j] := 0;
      j := j + 1;
      assert buf[..j] == with + [0];
    }
  }

  /** How a name with labels of at most 63 bytes is written: label by label, up to the longest suffix that is known,
      which becomes a pointer. */
  function Encoded(labels: seq<Entry>, s: Text): Text
    decreases |s|
  {
    var d, ref := FindDot(s), Place(labels, s);
    if ref >= 0 then PointerBytes(ref)
    else if d > 63 then []
    else if d == |s| then LastBytes(s)
    else [d] + s[..d] + Encoded(labels, s[d + 1..])
  }

  /** How many bytes of a name need room; the empty label that ends it is not asked after. */
  function Needed(labels: seq<Entry>, s: Text): (n: nat)
    ensures 0 < n <= |s| + 2
    decreases |s|
  {
    var d := FindDot(s);
    if Place(labels, s) >= 0 then 2
    else if d == |s| then 1 + |s|
    else d + 1 + Needed(labels, s[d + 1..])
  }

  /** Every label that is written out has at most 63 bytes. */
  predicate Writable(labels: seq<Entry>, s: Text)
    decreases |s|
  {
    var d := FindDot(s);
    Place(labels, s) >= 0 || (d <= 63 && (d < |s| ==> Writable(labels, s[d + 1..])))
  }

  /** No label that is written out before the last one is empty. */
  predicate NoGapWritten(labels: seq<Entry>, s: Text)
    decreases |s|
  {
    var d := FindDot(s);
    Place(labels, s) >= 0 || d == |s| || (d > 0 && NoGapWritten(labels, s[d + 1..]))
  }

  /** What the table becomes when a name is written whose suffixes are looked up in `labels`. */
  function Learned(labels: seq<Entry>, t: Table, memory: nat -> bool, s: Text, pos: nat): Table
    decreases |s|
  {
    var d, t' := FindDot(s), Tried(t, memory, Entry(s, pos));
    if Place(labels, s) >= 0 then t
    else if d == |s| then t'
    else Learned(labels, t', memory, s[d + 1..], pos + d + 1)
  }

  /** A name is written exactly if it is short enough, as are the labels that are written out, and there is room. */
  predicate CanWrite(labels: seq<Entry>, name: Text, start: nat, bufLen: nat) {
    |name| <= 255 && Writable(labels, name) && start + Needed(labels, name) <= bufLen
  }

  /** A name is written, and the empty label that ends it goes one byte past the buffer. */
  predicate Overruns(labels: seq<Entry>, name: Text, start: nat, bufLen: nat) {
    CanWrite(labels, name, start, bufLen) && start + |Encoded(labels, name)| == bufLen + 1
  }

  /** "a", in a buffer of two bytes. */
  lemma OverrunBuffer()
    ensures Overruns([], [97], 0, 2) && Encoded([], [97]) == [1, 97, 0]
  {
    var a: Text := [97];
    assert FindDot(a) == 1 && Place([], a) == -1;
    assert LastBytes(a) == [1, 97, 0];
  }

  /** The bytes of a name are those that need room, and at most one more. */
  lemma {:induction false} EncodedSize(labels: seq<Entry>, s: Text)
    requires Writable(labels, s)
    ensures Needed(labels, s) <= |Encoded(labels, s)| <= Needed(labels, s) + 1
    ensures NoGap(s) ==> NoGapWritten(labels, s)
    decreases |s|
  {
    hide Place;
    var d := FindDot(s);
    if Place(labels, s) < 0 && d < |s| {
      EncodedSize(labels, s[d + 1..]);
    }
  }

  // How far the writing of a name has got.

  /** The labels from `v` on to its suffix `s` are not empty. */
  predicate Solid(v: Text, s: Text)
    decreases |v|
  {
    |v| <= |s| || (0 < FindDot(v) < |v| && Solid(v[FindDot(v) + 1..], s))
  }

  lemma {:induction false} SolidNext(b: Text, p: nat, v: Text, s: Text)
    requires Leads(b, p, v, s) && FindDot(s) < |s|
    ensures Solid(v, s[FindDot(s) + 1..]) <==> Solid(v, s) && FindDot(s) > 0
    ensures |v| >= |s|
    decreases |v|
  {
    hide FindDot;
    if p < |b| {
      SolidNext(b, p + 1 + FindDot(v), v[FindDot(v) + 1..], s);
    }
  }

  /** A reader that starts where the labels do ends where they do exactly if none of them is empty. */
  lemma {:induction false} SolidEnds(b: Text, p: nat, v: Text, s: Text, pkt: Text)
    requires Leads(b, p, v, s) && |b| < |pkt| && pkt[..|b|] == b && End(pkt, |b|) == |pkt|
    ensures End(pkt, p) == |pkt| <==> Solid(v, s)
    ensures |v| >= |s| && (p < |b| ==> |v| > |s|)
    decreases |v|
  {
    hide FindDot;
    if p < |b| {
      assert pkt[p] == b[p];
      SolidEnds(b, p + 1 + FindDot(v), v[FindDot(v) + 1..], s, pkt);
    }
  }

  /** What is to come of writing a name. */
  datatype Goal = Goal(text: Text, needed: nat, writable: bool, noGap: bool, table: Table)

  function GoalOf(labels: seq<Entry>, t: Table, memory: nat -> bool, name: Text, start: nat): Goal {
    Goal(Encoded(labels, name), Needed(labels, name), Writable(labels, name), NoGapWritten(labels, name),
         Learned(labels, t, memory, name, start))
  }

  /** What has been written of a name, and what is to come of the rest, make up the goal. */
  ghost predicate IsAhead(goal: Goal, labels: seq<Entry>, t: Table, memory: nat -> bool, name: Text, s: Text, done: Text,
                          j: nat)
  {
    && goal.text == done + Encoded(labels, s) && goal.needed == |done| + Needed(labels, s)
    && goal.writable == Writable(labels, s) && goal.noGap == (Solid(name, s) && NoGapWritten(labels, s))
    && goal.table == Learned(labels, t, memory, s, j)
  }

  lemma StartAhead(labels: seq<Entry>, t: Table, memory: nat -> bool, name: Text, start: nat)
    ensures IsAhead(GoalOf(labels, t, memory, name, start), labels, t, memory, name, name, [], start)
  {
    assert [] + Encoded(labels, name) == Encoded(labels, name);
  }

  lemma AheadPointer(goal: Goal, labels: seq<Entry>, t: Table, memory: nat -> bool, name: Text, s: Text, done: Text,
                     j: nat)
    requires IsAhead(goal, labels, t, memory, name, s, done, j) && Place(labels, s) >= 0
    ensures goal == Goal(done + PointerBytes(Place(labels, s)), |done| + 2, true, Solid(name, s), t)
  {
  }

  lemma AheadLabel(goal: Goal, labels: seq<Entry>, t: Table, memory: nat -> bool, name: Text, s: Text, done: Text,
                   j: nat)
    requires IsAhead(goal, labels, t, memory, name, s, done, j) && Place(labels, s) == -1
    ensures FindDot(s) > 63 ==> !goal.writable
    ensures goal.needed >= |done| + FindDot(s) + 1 && (|s| < 256 ==> |s| < |LastBytes(s)| <= |s| + 2)
    ensures FindDot(s) == |s| < 64 ==>
              goal == Goal(done + LastBytes(s), |done| + 1 + |s|, true, Solid(name, s), Tried(t, memory, Entry(s, j)))
  {
  }

  lemma AheadNext(goal: Goal, labels: seq<Entry>, t: Table, memory: nat -> bool, name: Text, s: Text, done: Text, j: nat,
                  b: Text, start: nat)
    requires IsAhead(goal, labels, t, memory, name, s, done, j) && Place(labels, s) == -1
    requires FindDot(s) < |s| && FindDot(s) < 64 && Leads(b, start, name, s)
    ensures IsAhead(goal, labels, Tried(t, memory, Entry(s, j)), memory, name, s[FindDot(s) + 1..],
                    done + ([FindDot(s)] + s[..FindDot(s)]), j + FindDot(s) + 1)
  {
    hide Place, Solid, Tried;
    var d := FindDot(s);
    SolidNext(b, start, name, s);
    var rest := Encoded(labels, s[d + 1..]);
    assert done + ([d] + s[..d]) + rest == done + ([d] + s[..d] + rest);
  }

  lemma SliceOfRest(s: Text, start: nat, i: nat, k: nat)
    requires start <= i <= k <= |s|
    ensures s[i..k] == s[start..][i - start..k - start]
  {
  }

  /** What leads through a name does not depend on the bytes before the name. */
  lemma {:induction false} LeadsMoved(b: Text, b': Text, start: nat, p: nat, v: Text, s: Text)
    requires Leads(b, p, v, s) && start <= p && |b| == |b'| && start <= |b| && b'[start..] == b[start..]
    ensures Leads(b', p, v, s)
    decreases |v|
  {
    hide FindDot;
    if p < |b| {
      var d := FindDot(v);
      assert b[p] == b[start..][p - start] && b'[p] == b'[start..][p - start];
      SliceOfRest(b, start, p + 1, p + 1 + d);
      SliceOfRest(b', start, p + 1, p + 1 + d);
      LeadsMoved(b, b', start, p + 1 + d, v[d + 1..], s);
    }
  }

  lemma {:induction false} UnfinishedMoved(own: seq<Entry>, b: Text, b': Text, start: nat, name: Text, s: Text)
    requires Unfinished(own, b, start, s) && Leads(b, start, name, s)
    requires |b| == |b'| && start <= |b| && b'[start..] == b[start..]
    ensures Unfinished(own, b', start, s) && Leads(b', start, name, s)
  {
    hide Leads;
    LeadsMoved(b, b', start, start, name, s);
    forall e | e in own
      ensures Leads(b', e.pos, e.v, s)
    {
      LeadsMoved(b, b', start, e.pos, e.v, s);
    }
  }

  /** A name has been written behind `pre` as was the goal, can be read back, and so can the suffixes in the table. */
  ghost predicate IsWritten(goal: Goal, pre: Text, text: Text, t: Table, name: Text, bufLen: nat) {
    && text == goal.text && |text| <= |name| + 2 && t == goal.table
    && Walk(pre + text, |pre|, |pre|) == Some(Canon(name))
    && (End(pre + text, |pre|) == |pre + text| <==> goal.noGap)
    && (bufLen <= 0x4000 ==> Good(t.labels, pre + text))
  }

  /** A name of at most 255 bytes, label by label. */
  method WriteName(buf: array<Byte>, bufLen: nat, start: nat, name: Text, table: LabelTable, ghost pre: Text,
                   ghost goal: Goal)
    returns (r: int)
    requires bufLen <= buf.Length && start <= bufLen && 0 !in name && |name| <= 255
    requires goal == GoalOf(table.labels, table.State(), table.memory, name, start)
    requires goal.writable && start + goal.needed <= bufLen < start + |goal.text| ==> bufLen < buf.Length
    requires |pre| == start && Good(table.labels, pre)
    modifies buf, table`labels, table`tries
    ensures buf[..start] == old(buf[..start])
    ensures r == -1 || r == -2 || (start < r <= bufLen + 1 && r <= buf.Length)
    ensures r > 0 <==> goal.writable && start + goal.needed <= bufLen
    ensures forall k :: bufLen <= k < buf.Length ==> buf[k] == if k < r then 0 else old(buf[k])
    ensures r > 0 ==> IsWritten(goal, pre, buf[start..r], table.State(), name, bufLen)
    ensures r == -1 ==> !goal.writable
    ensures |old(table.labels)| <= |table.labels| && table.labels[..|old(table.labels)|] == old(table.labels)
    ensures |old(table.labels)| <= MAX_LABELS ==> |table.labels| <= MAX_LABELS
  {
    hide Walk, End, Canon, NoGap, FindDot, Leads, Good, Unfinished, Overlay, PointerBytes, IsNew, Place, Encoded,
         Needed, Writable, NoGapWritten, Learned, Tried, Solid, IsAhead, LastBytes, IsWritten;
    ghost var before, own: seq<Entry> := table.labels, [];
    ghost var orig := buf[..start];
    StartAhead(before, table.State(), table.memory, name, start);
    var j := start;
    var k := 0;
    StartName(orig, start, name);
    assert name[0..] == name && buf[start..start] == [];
    while true
      invariant start <= j <= bufLen && k <= |name| && j - start == k
      invariant buf[..start] == orig && forall i :: bufLen <= i < buf.Length ==> buf[i] == old(buf[i])
      invariant table.labels == before + own && (|before| <= MAX_LABELS ==> |table.labels| <= MAX_LABELS)
      invariant Unfinished(own, buf[..j], start, name[k..]) && Leads(buf[..j], start, name, name[k..])
      invariant IsAhead(goal, before, table.State(), table.memory, name, name[k..], buf[start..j], j)
      decreases |name| - k
    {
      ghost var b, done := buf[..j], buf[start..j];
      PrefixOf(buf, j, start);
      assert b[..start] == orig && b[start..] == done;
      var rest := name[k..];
      var ref := table.GetPos(rest);
      KnownBefore(before, own, b, start, rest);
      if ref >= 0 {
        AheadPointer(goal, before, table.State(), table.memory, name, rest, done, j);
        r := WritePointer(buf, bufLen, j, rest, ref, start, before, own, name, pre, goal, table.State());
        return;
      }
      var labelLen := FindDot(rest);
      AheadLabel(goal, before, table.State(), table.memory, name, rest, done, j);
      if labelLen > 63 {
        return -1;
      }
      if j + labelLen + 1 > bufLen {
        return -2;
      }
      if labelLen == |rest| {
        r := WriteLast(buf, bufLen, j, rest, table, start, before, own, name, pre, goal);
        return;
      }
      AheadNext(goal, before, table.State(), table.memory, name, rest, done, j, b, start);
      own := WriteLabel(buf, j, rest, table, start, before, own, name);
      j := j + labelLen + 1;
      k := k + labelLen + 1;
    }
  }

  /** dnsname_to_labels, with a table. Room for the byte that ends the name is not checked, so the buffer has a byte of
      slack behind it where that is needed. The name can be read back behind any bytes `pre` in which the suffixes of
      the table can be read, such as those that are before it in the buffer. */
  method DnsNameToLabels(buf: array<Byte>, bufLen: nat, start: nat, name: Text, table: LabelTable, ghost pre: Text)
    returns (r: int)
    requires bufLen <= buf.Length && start <= bufLen && 0 !in name
    requires Overruns(table.labels, name, start, bufLen) ==> bufLen < buf.Length
    requires |pre| == start && Good(table.labels, pre)
    modifies buf, table`labels, table`tries
    ensures buf[..start] == old(buf[..start])
    ensures r == -1 || r == -2 || (start < r <= bufLen + 1 && r <= buf.Length)
    ensures r > 0 <==> old(CanWrite(table.labels, name, start, bufLen))
    ensures forall k :: bufLen <= k < buf.Length ==>
              buf[k] == if k == bufLen && old(Overruns(table.labels, name, start, bufLen)) then 0 else old(buf[k])
    ensures r > 0 ==>
              && buf[start..r] == old(Encoded(table.labels, name)) && r <= start + |name| + 2
              && table.State() == old(Learned(table.labels, table.State(), table.memory, name, start))
              && Walk(pre + buf[start..r], start, start) == Some(Canon(name))
              && (End(pre + buf[start..r], start) == r <==> old(NoGapWritten(table.labels, name)))
              && (bufLen <= 0x4000 ==> Good(table.labels, pre + buf[start..r]))
    ensures r == -1 ==> !old(Writable(table.labels, name))
    ensures |old(table.labels)| <= |table.labels| && table.labels[..|old(table.labels)|] == old(table.labels)
    ensures |old(table.labels)| <= MAX_LABELS ==> |table.labels| <= MAX_LABELS
  {
    hide Walk, End, Canon, Good, Place, Encoded, Needed, Writable, NoGapWritten, Learned;
    ghost var goal := GoalOf(table.labels, table.State(), table.memory, name, start);
    if |name| > 255 {
      return -2;
    }
    if Writable(table.labels, name) {
      EncodedSize(table.labels, name);
    }
    r := WriteName(buf, bufLen, start, name, table, pre, goal);
  }

  /** A suffix that is known was known before, since those of the name itself are all longer. */
  lemma {:induction false} KnownBefore(before: seq<Entry>, own: seq<Entry>, b: Text, start: nat, s: Text)
    requires Unfinished(own, b, start, s)
    ensures Place(before + own, s) == Place(before, s) >= -1
    ensures Place(before, s) >= 0 ==> Entry(s, Place(before, s)) in before
  {
    hide Leads, Place;
    PlaceAfter(before, own, s);
    PlaceIs(before, s);
  }

  /** Bytes that have been put behind others, behind other bytes in their place. */
  lemma Behind(buf: array<Byte>, start: nat, r: nat, b: Text, more: Text, pre: Text)
    requires start <= |b| <= r <= buf.Length && |pre| == start && buf[..r] == b + more
    ensures buf[start..r] == b[start..] + more && pre + buf[start..r] == (pre + b[start..]) + more
  {
    assert buf[start..r] == buf[..r][start..];
    assert (b + more)[start..] == b[start..] + more;
  }

  /** A pointer to what is left of the name. */
  method WritePointer(buf: array<Byte>, bufLen: nat, j: nat, rest: Text, ref: nat,
                      ghost start: nat, ghost before: seq<Entry>, ghost own: seq<Entry>, ghost name: Text, ghost pre: Text,
                      ghost goal: Goal, ghost t: Table)
    returns (r: int)
    requires bufLen <= buf.Length && start <= j <= bufLen && |pre| == start && Good(before, pre)
             && Entry(rest, ref) in before
    requires Unfinished(own, buf[..j], start, rest) && Leads(buf[..j], start, name, rest)
    requires goal == Goal(buf[start..j] + PointerBytes(ref), j - start + 2, true, Solid(name, rest), t)
    requires t.labels == before + own && j - start <= |name|
    modifies buf
    ensures r == if j + 2 > bufLen then -2 else j + 2
    ensures buf[..start] == old(buf[..start]) && forall k :: bufLen <= k < buf.Length ==> buf[k] == old(buf[k])
    ensures r > 0 ==> IsWritten(goal, pre, buf[start..r], t, name, bufLen)
  {
    hide Walk, End, Canon, Leads, Good, Unfinished, PointerBytes, Solid;
    ghost var b := buf[..j];
    ghost var done := b[start..];
    assert done == buf[start..j];
    r := AppendPointer(buf, bufLen, j, ref, start);
    if r > 0 {
      Behind(buf, start, r, b, PointerBytes(ref), pre);
      UnfinishedMoved(own, b, pre + done, start, name, rest);
      assert (pre + done)[..start] == pre;
      FinishPointer(before, own, pre + done, start, name, rest, ref, pre + buf[start..r]);
    }
  }

  /** A label with more labels to follow, and its entry in the table. */
  method WriteLabel(buf: array<Byte>, j: nat, rest: Text, table: LabelTable,
                    ghost start: nat, ghost before: seq<Entry>, ghost own: seq<Entry>, ghost name: Text)
    returns (ghost own': seq<Entry>)
    requires FindDot(rest) < |rest| && FindDot(rest) <= 63 && start <= j && j + 1 + FindDot(rest) <= buf.Length
    requires table.labels == before + own
    requires Unfinished(own, buf[..j], start, rest) && Leads(buf[..j], start, name, rest)
    modifies buf, table`labels, table`tries
    ensures buf[..start] == old(buf[..start]) && table.labels == before + own'
    ensures |old(table.labels)| <= MAX_LABELS ==> |table.labels| <= MAX_LABELS
    ensures table.State() == Tried(old(table.State()), table.memory, Entry(rest, j))
    ensures forall k :: j + FindDot(rest) + 1 <= k < buf.Length ==> buf[k] == old(buf[k])
    ensures var more := buf[..j + FindDot(rest) + 1];
      && Unfinished(own', more, start, rest[FindDot(rest) + 1..]) && Leads(more, start, name, rest[FindDot(rest) + 1..])
    ensures buf[start..j + FindDot(rest) + 1] == old(buf[start..j]) + ([FindDot(rest)] + rest[..FindDot(rest)])
  {
    hide FindDot, Leads, Unfinished;
    var e := table.Add(rest, j);
    own' := if e == 0 then own + [Entry(rest, j)] else own;
    assert table.labels == before + own';
    ghost var b := buf[..j];
    var n := AppendLabel(buf, j, rest[..FindDot(rest)], start);
    NextLabel(own, b, start, name, rest, buf[..n]);
    Behind(buf, start, n, b, [FindDot(rest)] + rest[..FindDot(rest)], b[..start]);
    assert b[start..] == old(buf[start..j]);
  }

  /** The last label, and its entry in the table. */
  method WriteLast(buf: array<Byte>, bufLen: nat, j: nat, rest: Text, table: LabelTable,
                   ghost start: nat, ghost before: seq<Entry>, ghost own: seq<Entry>, ghost name: Text, ghost pre: Text,
                   ghost goal: Goal)
    returns (r: nat)
    requires FindDot(rest) == |rest| <= 63 && start <= j && j + |LastBytes(rest)| <= buf.Length && 0 !in rest
    requires table.labels == before + own && |pre| == start && Good(before, pre)
    requires Unfinished(own, buf[..j], start, rest) && Leads(buf[..j], start, name, rest)
    requires goal == Goal(buf[start..j] + LastBytes(rest), j - start + 1 + |rest|, true, Solid(name, rest),
                          Tried(table.State(), table.memory, Entry(rest, j)))
    requires j + 1 + |rest| <= bufLen && j - start + |rest| == |name|
    modifies buf, table`labels, table`tries
    ensures buf[..start] == old(buf[..start]) && j < r <= j + |rest| + 2 && r <= buf.Length
    ensures |old(table.labels)| <= MAX_LABELS ==> |table.labels| <= MAX_LABELS
    ensures buf[r - 1] == 0 && forall k :: r <= k < buf.Length ==> buf[k] == old(buf[k])
    ensures IsWritten(goal, pre, buf[start..r], table.State(), name, bufLen)
    ensures table.labels == before + own || table.labels == before + own + [Entry(rest, j)]
  {
    hide Walk, End, Canon, NoGap, FindDot, Leads, Good, Unfinished, Encoded, PointerBytes, Place, Overlay, LastBytes,
         Solid;
    var e := table.Add(rest, j);
    assert table.labels == if e == 0 then before + (own + [Entry(rest, j)]) else before + own;
    ghost var b := buf[..j];
    ghost var tail := LastBytes(rest);
    assert b[start..] == buf[start..j];
    r := AppendLast(buf, j, rest, start);
    Behind(buf, start, r, b, tail, pre);
    ghost var b' := pre + b[start..];
    UnfinishedMoved(own, b, b', start, name, rest);
    assert b'[..start] == pre;
    FinishLabel(before, own, b', start, name, rest, pre + buf[start..r]);
  }

  /** The name ends in a pointer to a suffix from the table: a suffix of another name, since those of this one are
      all longer. */
  lemma {:induction false} FinishPointer(before: seq<Entry>, own: seq<Entry>, b: Text, start: nat, name: Text, s: Text,
                                         ref: nat, pkt: Text)
    requires start <= |b| && Good(before, b[..start]) && Unfinished(own, b, start, s) && Leads(b, start, name, s)
    requires Entry(s, ref) in before + own && pkt == b + PointerBytes(ref)
    ensures Walk(pkt, start, start) == Some(Canon(name))
    ensures End(pkt, start) == |pkt| <==> Solid(name, s)
    ensures |b| <= 0x4000 ==> Good(before + own, pkt)
  {
    hide Walk, End, Canon, NoGap, FindDot, Leads, PointerBytes;
    assert Entry(s, ref) in before;
    assert pkt[..|b|] == b && pkt[..start] == b[..start];
    forall jumps | jumps >= start
      ensures Walk(pkt, |b|, jumps) == Some(Canon(s))
    {
      WalkExtends(b[..start], pkt, ref, ref, jumps - 1);
      PointerReads(b, ref, pkt, jumps);
    }
    PointerReads(b, ref, pkt, start);
    Finished(before, own, b, start, name, s, pkt);
  }

  /** A label with more labels to follow. */
  lemma {:induction false} NextLabel(own: seq<Entry>, b: Text, start: nat, name: Text, s: Text, more: Text)
    requires start <= |b| && Unfinished(own, b, start, s) && Leads(b, start, name, s)
    requires var d := FindDot(s); d < |s| && d < 64 && more == b + [d] + s[..d]
    ensures Unfinished(own, more, start, s[FindDot(s) + 1..])
    ensures Unfinished(own + [Entry(s, |b|)], more, start, s[FindDot(s) + 1..])
    ensures Leads(more, start, name, s[FindDot(s) + 1..])
  {
    hide FindDot;
    UnfinishedExtends(own, b, start, s, more);
    LeadsExtends(b, start, name, s, more);
    assert Leads(b, |b|, s, s);
    LeadsExtends(b, |b|, s, s, more);
  }

  /** The last label. */
  lemma {:induction false} FinishLabel(before: seq<Entry>, own: seq<Entry>, b: Text, start: nat, name: Text, s: Text,
                                       pkt: Text)
    requires start <= |b| && Good(before, b[..start]) && Unfinished(own, b, start, s) && Leads(b, start, name, s)
    requires FindDot(s) == |s| < 64 && pkt == b + LastBytes(s)
    ensures Walk(pkt, start, start) == Some(Canon(name))
    ensures End(pkt, start) == |pkt| <==> Solid(name, s)
    ensures |b| < 0x4000 ==> Good(before + own, pkt) && Good(before + (own + [Entry(s, |b|)]), pkt)
  {
    hide Walk, End, Canon, NoGap, FindDot, Leads, Unfinished;
    assert pkt[..|b|] == b;
    forall jumps: nat
      ensures Walk(pkt, |b|, jumps) == Some(Canon(s))
    {
      LastLabelReads(b, s, pkt, jumps);
    }
    LastLabelReads(b, s, pkt, 0);
    Finished(before, own, b, start, name, s, pkt);
  }

  lemma StartName(b: Text, start: nat, name: Text)
    requires |b| == start
    ensures Unfinished([], b, start, name) && Leads(b, start, name, name)
  {
  }

  // A whole message.

  /** Reading a name back gives its canonical form, which is the name itself exactly if no label is empty. */
  lemma {:induction false} NamesComeBack(pkt: Text, p: nat, name: Text)
    requires p <= |pkt| && Walk(pkt, p, p) == Some(Canon(name))
    ensures Walk(pkt, p, |pkt|) == Some(Canon(name)) && |Canon(name)| <= |name|
    ensures Walk(pkt, p, |pkt|) == Some(name) <==> name == [] || (NoGap(name) && name[|name| - 1] != DOT)
  {
    WalkExtends(pkt, pkt, p, p, |pkt|);
    CanonIsName(name);
  }

  /** With an empty label inside, "a..b" say, the reader stops in the middle of what was written. */
  lemma GapStopsReader()
    ensures var name, pkt: Text := [97, DOT, DOT, 98], [1, 97, 0, 1, 98, 0];
      && !NoGap(name) && Leads(pkt[..3], 0, name, [98]) && End(pkt, 0) == 3
  {
    var name: Text := [97, DOT, DOT, 98];
    assert name[1..] == [DOT, DOT, 98] && name[2..] == [DOT, 98] && name[3..] == [98];
    assert FindDot(name) == 1 && FindDot(name[2..]) == 0;
    var b: Text := [1, 97, 0];
    assert [1, 97, 0, 1, 98, 0][..3] == b;
    assert b[1..2] == name[..1] && b[3..3] == name[2..][..0];
    assert Leads(b, 3, [98], [98]);
    assert Leads(b, 2, name[2..], [98]);
  }
}
