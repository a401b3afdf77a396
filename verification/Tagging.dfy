/** The tagged stream format of event_tagging.c. The buffer is taken as the flat byte queue that an evbuffer is. */
module Tagging {
  import opened Bytes

  type Nibble = d: int | 0 <= d < 16

  // Integers, by nibbles.

  /** The significant nibbles of a number, lowest first. */
  function Nibbles(n: nat): seq<Nibble> {
    if n == 0 then [] else [n % 16] + Nibbles(n / 16)
  }

  /** The number that nibbles stand for. */
  function Value(ds: seq<Nibble>): nat {
    if ds == [] then 0 else ds[0] + 16 * Value(ds[1..])
  }

  lemma {:induction false} ValueOfNibbles(n: nat)
    ensures Value(Nibbles(n)) == n
  {
    if n > 0 {
      ValueOfNibbles(n / 16);
      assert Nibbles(n)[1..] == Nibbles(n / 16);
    }
  }

  lemma {:induction false} NibbleCount(n: nat, k: nat)
    requires n < Pow(16, k)
    ensures |Nibbles(n)| <= k
  {
    if n > 0 {
      NibbleCount(n / 16, k - 1);
    }
  }

  /** Nibble `i` of a byte sequence; the first of a byte is its high one. */
  function NibbleAt(data: Text, i: nat): Nibble
    requires i / 2 < |data|
  {
    if i % 2 == 0 then data[i / 2] / 16 else data[i / 2] % 16
  }

  function TwoNibbles(high: int, low: int): Byte
    requires 0 <= high < 16 && 0 <= low < 16
  {
    16 * high + low
  }

  /** Nibbles two to a byte. */
  function Packed(ds: seq<Nibble>): (bs: Text)
    ensures |bs| == (|ds| + 1) / 2
  {
    if ds == [] then []
    else if |ds| == 1 then [TwoNibbles(ds[0], 0)]
    else [TwoNibbles(ds[0], ds[1])] + Packed(ds[2..])
  }

  lemma {:induction false} PackedAt(ds: seq<Nibble>, i: nat)
    requires i / 2 < |Packed(ds)|
    ensures NibbleAt(Packed(ds), i) == if i < |ds| then ds[i] else 0
  {
    if i >= 2 {
      PackedAt(ds[2..], i - 2);
      assert Packed(ds)[i / 2] == Packed(ds[2..])[(i - 2) / 2];
    }
  }

  /** Byte sequences with the same nibbles are the same. */
  lemma {:induction false} SameNibbles(a: Text, b: Text)
    requires |a| == |b| && forall i :: 0 <= i < 2 * |a| ==> NibbleAt(a, i) == NibbleAt(b, i)
    ensures a == b
  {
    forall k | 0 <= k < |a|
      ensures a[k] == b[k]
    {
      assert NibbleAt(a, 2 * k) == NibbleAt(b, 2 * k);
      assert NibbleAt(a, 2 * k + 1) == NibbleAt(b, 2 * k + 1);
    }
  }

  /** An encoded integer: the number of its nibbles less one, its nibbles, and one of padding if that makes the count
      even. */
  function EncodedInt(n: nat): (bs: Text)
    requires n < Pow(16, 16)
    ensures |bs| == (|Nibbles(n)| + 2) / 2 <= 9
  {
    NibbleCount(n, 16);
    Packed([Leader(|Nibbles(n)|)] + Nibbles(n))
  }

  function Leader(count: nat): Nibble
    requires count <= 16
  {
    if count > 1 then count - 1 else 0
  }

  /** Nibbles `from` to `last` of a byte sequence. */
  function NibblesOf(data: Text, from: nat, last: nat): seq<Nibble>
    requires from <= last + 1 && last / 2 < |data|
    ensures |NibblesOf(data, from, last)| == last + 1 - from
    decreases last + 1 - from
  {
    if from > last then [] else [NibbleAt(data, from)] + NibblesOf(data, from + 1, last)
  }

  /** What a decoder finds at the front of `bs`: the number, and how many bytes it takes. */
  function DecodedInt(bs: Text, maxNibbles: nat): Option<(nat, nat)> {
    if bs == [] then None
    else
      var nibbles := bs[0] / 16 + 1;
      var len := nibbles / 2 + 1;
      if nibbles > maxNibbles || len > |bs| then None
      else Some((Value(NibblesOf(bs, 1, nibbles)), len))
  }

  lemma {:induction false} NibblesOfMeans(data: Text, ds: seq<Nibble>, from: nat, last: nat)
    requires 0 < from <= last + 1 && last / 2 < |data|
    requires forall i :: from <= i <= last ==> NibbleAt(data, i) == if i <= |ds| then ds[i - 1] else 0
    requires last >= |ds|
    ensures Value(NibblesOf(data, from, last)) == Value(if from <= |ds| then ds[from - 1..] else [])
    decreases last + 1 - from
  {
    if from <= last {
      assert NibbleAt(data, from) == if from <= |ds| then ds[from - 1] else 0;
      NibblesOfMeans(data, ds, from + 1, last);
      assert NibblesOf(data, from, last)[1..] == NibblesOf(data, from + 1, last);
      if from < |ds| {
        assert ds[from - 1..][1..] == ds[from..];
      }
    }
  }

  /** Nibble 0 is `first`, the next ones are `ds`, and what follows is zero. */
  ghost predicate Holds(bs: Text, first: Nibble, ds: seq<Nibble>) {
    forall i :: 0 <= i < 2 * |bs| ==>
      NibbleAt(bs, i) == if i == 0 then first else if i <= |ds| then ds[i - 1] else 0
  }

  lemma FirstNibble(bs: Text)
    requires bs != []
    ensures NibbleAt(bs, 0) == bs[0] / 16
  {
  }

  /** Only the nibbles that the first one announces matter. */
  lemma {:induction false} HoldsDecodes(bs: Text, ds: seq<Nibble>, max: nat)
    requires |ds| <= max && 1 <= max <= 16 && (|ds| + 2) / 2 <= |bs|
    requires forall i :: 0 <= i < (|ds| + 2) / 2 * 2 ==>
               NibbleAt(bs, i) == if i == 0 then Leader(|ds|) else if i <= |ds| then ds[i - 1] else 0
    ensures DecodedInt(bs, max) == Some((Value(ds), (|ds| + 2) / 2))
  {
    hide Value, NibbleAt, NibblesOf;
    FirstNibble(bs);
    var nibbles := bs[0] / 16 + 1;
    assert nibbles == if |ds| > 1 then |ds| else 1;
    NibblesOfMeans(bs, ds, 1, nibbles);
    assert (if 1 <= |ds| then ds[0..] else []) == ds;
  }

  lemma {:induction false} EncodingHolds(n: nat)
    requires n < Pow(16, 16) && |Nibbles(n)| <= 16
    ensures Holds(EncodedInt(n), Leader(|Nibbles(n)|), Nibbles(n))
  {
    hide Packed, Nibbles;
    var all := [Leader(|Nibbles(n)|)] + Nibbles(n);
    forall i | 0 <= i < 2 * |EncodedInt(n)|
      ensures NibbleAt(Packed(all), i) == if i < |all| then all[i] else 0
    {
      PackedAt(all, i);
    }
  }

  /** Decoding undoes encoding, and takes exactly the bytes that encoding made. */
  lemma {:induction false} IntRoundTrip(n: nat, max: nat, rest: Text)
    requires n < Pow(16, max) && 1 <= max <= 16 && n < Pow(16, 16)
    ensures DecodedInt(EncodedInt(n) + rest, max) == Some((n, |EncodedInt(n)|))
  {
    hide Pow, DecodedInt, Nibbles, Value, Leader;
    var e := EncodedInt(n);
    NibbleCount(n, max);
    EncodingHolds(n);
    forall i | 0 <= i < 2 * |e|
      ensures NibbleAt(e + rest, i) == NibbleAt(e, i)
    {
      assert (e + rest)[i / 2] == e[i / 2];
    }
    HoldsDecodes(e + rest, Nibbles(n), max);
    ValueOfNibbles(n);
  }

  lemma {:induction false} HoldsEncoding(bs: Text, n: nat)
    requires n < Pow(16, 16) && |Nibbles(n)| <= 16 && |EncodedInt(n)| <= |bs|
    requires Holds(bs, Leader(|Nibbles(n)|), Nibbles(n))
    ensures bs[..|EncodedInt(n)|] == EncodedInt(n)
  {
    var len, all := |EncodedInt(n)|, [Leader(|Nibbles(n)|)] + Nibbles(n);
    forall i | 0 <= i < 2 * len
      ensures NibbleAt(bs[..len], i) == NibbleAt(Packed(all), i)
    {
      PackedAt(all, i);
      assert NibbleAt(bs, i) == NibbleAt(bs[..len], i);
    }
    SameNibbles(bs[..len], Packed(all));
  }

  lemma {:induction false} HoldsNext(bs: Text, first: Nibble, ds: seq<Nibble>, d: Nibble)
    requires Holds(bs, first, ds) && (|ds| + 1) / 2 < |bs|
    ensures var k := (|ds| + 1) / 2;
            Holds(bs[k := if |ds| % 2 == 0 then TwoNibbles(bs[k] / 16, d) else TwoNibbles(d, bs[k] % 16)], first, ds + [d])
  {
    var k := (|ds| + 1) / 2;
    var more := bs[k := if |ds| % 2 == 0 then TwoNibbles(bs[k] / 16, d) else TwoNibbles(d, bs[k] % 16)];
    forall i | 0 <= i < 2 * |more|
      ensures NibbleAt(more, i) == if i == 0 then first else if i <= |ds| + 1 then (ds + [d])[i - 1] else 0
    {
      assert NibbleAt(bs, i) == if i == 0 then first else if i <= |ds| then ds[i - 1] else 0;
    }
  }

  lemma {:induction false} HoldsLeader(bs: Text, ds: seq<Nibble>, d: Nibble)
    requires Holds(bs, 0, ds) && |bs| > 0
    ensures Holds(bs[0 := TwoNibbles(d, bs[0] % 16)], d, ds)
  {
    var more := bs[0 := TwoNibbles(d, bs[0] % 16)];
    forall i | 0 <= i < 2 * |more|
      ensures NibbleAt(more, i) == if i == 0 then d else if i <= |ds| then ds[i - 1] else 0
    {
      assert NibbleAt(bs, i) == if i == 0 then 0 else if i <= |ds| then ds[i - 1] else 0;
    }
  }

  /** ENCODE_INT_INTERNAL, for an integer of `size` bytes. */
  method EncodeIntInternal(data: array<Byte>, number: nat, size: nat) returns (len: nat)
    requires size == 4 || size == 8
    requires number < Pow(16, 2 * size) && number < Pow(16, 16) && data.Length == size + 1
    modifies data
    ensures len == |EncodedInt(number)| <= size + 1 && data[..len] == EncodedInt(number)
  {
    hide Holds, Nibbles, TwoNibbles, EncodedInt, Pow;
    NibbleCount(number, 2 * size);
    var off, nibbles := 1, 0;
    Clear(data);
    var rest := number;
    ghost var done: seq<Nibble> := [];
    NoNibbles(0);
    while rest != 0
      invariant Nibbles(number) == done + Nibbles(rest) && off == |done| + 1
      invariant Holds(data[..], 0, done)
      decreases rest
    {
      NextNibble(rest);
      HoldsNext(data[..], 0, done, rest % 16);
      if off % 2 == 1 {
        data[off / 2] := TwoNibbles(data[off / 2] / 16, rest % 16);
      } else {
        data[off / 2] := TwoNibbles(rest % 16, data[off / 2] % 16);
      }
      done := done + [rest % 16];
      rest := rest / 16;
      off := off + 1;
    }
    assert done == Nibbles(number);
    if off > 2 {
      nibbles := off - 2;
    }
    HoldsLeader(data[..], done, nibbles % 16);
    data[0] := TwoNibbles(nibbles % 16, data[0] % 16);
    len := (off + 1) / 2;
    HoldsEncoding(data[..], number);
  }

  /** memset to zero. */
  method Clear(data: array<Byte>)
    modifies data
    ensures Holds(data[..], 0, [])
  {
    var i := 0;
    while i < data.Length
      invariant i <= data.Length
      invariant forall k :: 0 <= k < i ==> data[k] == 0
    {
      data[i] := 0;
      i := i + 1;
    }
  }

  lemma NoNibbles(n: nat)
    ensures n == 0 ==> Nibbles(n) == []
  {
  }

  lemma NextNibble(n: nat)
    requires n > 0
    ensures Nibbles(n) == [n % 16] + Nibbles(n / 16)
  {
  }

  lemma {:induction false} ValueBound(ds: seq<Nibble>)
    ensures Value(ds) < Pow(16, |ds|)
  {
    if ds != [] {
      ValueBound(ds[1..]);
    }
  }

  // Tags, by sevens of bits.

  /** An encoded tag: seven bits to a byte, lowest first, the top bit set on all but the last. */
  function EncodedTag(tag: nat): (bs: Text)
    ensures bs != []
  {
    if tag < 128 then [tag] else [tag % 128 + 128] + EncodedTag(tag / 128)
  }

  /** What stands at the front of `bs`, with no limit on its size: the tag, and how many bytes it takes. */
  function DecodedTag(bs: Text): Option<(nat, nat)> {
    if bs == [] then None
    else if bs[0] < 128 then Some((bs[0], 1))
    else
      match DecodedTag(bs[1..])
      case None => None
      case Some(r) => Some((bs[0] - 128 + 128 * r.0, r.1 + 1))
  }

  /** Decoding undoes encoding, and takes exactly the bytes that encoding made. */
  lemma {:induction false} TagRoundTrip(tag: nat, rest: Text)
    ensures DecodedTag(EncodedTag(tag) + rest) == Some((tag, |EncodedTag(tag)|))
  {
    if tag >= 128 {
      TagRoundTrip(tag / 128, rest);
      assert (EncodedTag(tag) + rest)[1..] == EncodedTag(tag / 128) + rest;
    }
  }

  lemma {:induction false} TagLength(tag: nat, k: nat)
    requires tag < Pow(128, k) && k > 0
    ensures |EncodedTag(tag)| <= k
  {
    if tag >= 128 {
      TagLength(tag / 128, k - 1);
    }
  }

  // The buffer.

  /** An evbuffer, as the byte queue that it is. */
  class ByteQueue {
    var bytes: Text

    constructor ()
      ensures bytes == []
    {
      bytes := [];
    }

    /** evbuffer_add. */
    method Add(data: Text, canAlloc: bool) returns (r: int)
      modifies this
      ensures r == if canAlloc then 0 else -1
      ensures bytes == if canAlloc then old(bytes) + data else old(bytes)
    {
      if !canAlloc {
        return -1;
      }
      bytes := bytes + data;
      r := 0;
    }

    /** evbuffer_drain. */
    method Drain(n: nat)
      modifies this
      ensures bytes == if n <= |old(bytes)| then old(bytes)[n..] else []
    {
      bytes := if n <= |bytes| then bytes[n..] else [];
    }

    /** evbuffer_pullup: the first bytes, or a null pointer if there are not as many, or none were wanted, or
        (without `canPull`) the first chunk has no room for them and there is no memory for a chunk that has. */
    method Pullup(size: nat, canPull: bool) returns (data: Option<Text>)
      ensures data == if size == 0 || size > |bytes| || !canPull then None else Some(bytes[..size])
    {
      if size == 0 || size > |bytes| || !canPull {
        return None;
      }
      data := Some(bytes[..size]);
    }
  }

  /** evtag_encode_int and evtag_encode_int64. Nobody is told if the bytes cannot be added. */
  method EncodeInt(evbuf: ByteQueue, number: nat, size: nat, canAlloc: bool)
    requires (size == 4 || size == 8) && number < Pow(16, 2 * size) && number < Pow(16, 16)
    modifies evbuf
    ensures evbuf.bytes == old(evbuf.bytes) + if canAlloc then EncodedInt(number) else []
  {
    var data := new Byte[size + 1](_ => 0);
    var len := EncodeIntInternal(data, number, size);
    var _ := evbuf.Add(data[..len], canAlloc);
  }

  /** evtag_encode_tag. */
  method EncodeTag(evbuf: ByteQueue, tag: nat, canAlloc: bool) returns (bytes: nat)
    requires tag < TWO_32
    modifies evbuf
    ensures evbuf.bytes == old(evbuf.bytes) + if canAlloc then EncodedTag(tag) else []
    ensures bytes == |EncodedTag(tag)| <= 5
  {
    hide EncodedTag;
    TagFits(tag);
    var data := new Byte[5](_ => 0);
    bytes := 0;
    var t := tag;
    var more := true;
    ghost var whole, todo := EncodedTag(tag), EncodedTag(tag);
    while more
      invariant evbuf.bytes == old(evbuf.bytes)
      invariant bytes + |todo| == |whole| && data[..bytes] + todo == whole
      invariant todo == if more then EncodedTag(t) else []
      decreases |todo|
    {
      NextSeven(t);
      var lower := t % 128;
      t := t / 128;
      if t != 0 {
        lower := lower + 128;
      }
      data[bytes] := lower;
      MoveByte(data[..bytes], todo);
      assert data[..bytes + 1] == data[..bytes] + [lower];
      todo := todo[1..];
      bytes := bytes + 1;
      more := t != 0;
    }
    assert data[..bytes] == whole;
    var _ := evbuf.Add(data[..bytes], canAlloc);
  }

  lemma MoveByte(done: Text, todo: Text)
    requires todo != []
    ensures done + [todo[0]] + todo[1..] == done + todo
  {
  }

  lemma NextSeven(tag: nat)
    ensures var bs := EncodedTag(tag);
      && bs[0] == (if tag / 128 == 0 then tag % 128 else tag % 128 + 128)
      && bs[1..] == if tag / 128 == 0 then [] else EncodedTag(tag / 128)
  {
  }

  lemma TagFits(tag: nat)
    requires tag < TWO_32
    ensures |EncodedTag(tag)| <= 5
  {
    assert Pow(128, 1) == 128 && Pow(128, 2) == 16384 && Pow(128, 3) == 2097152 && Pow(128, 4) == 268435456;
    assert Pow(128, 5) == 128 * 268435456;
    TagLength(tag, 5);
  }

  // Reading.

  /** How many bytes are pulled up for a tag. */
  const PULLED: nat := 5

  /** The tag ends within the bytes that are pulled up, or the bytes do. */
  predicate TagInReach(bs: Text) {
    |bs| <= PULLED || exists i :: 0 <= i < PULLED && bs[i] < 128
  }

  /** The bytes that a reader of the tag sees. Behind those that are pulled up they are not those of the buffer, unless
      it happens to keep them there, but what is next in memory. */
  function Seen(bs: Text, beyond: nat -> Byte): (read: Text)
    ensures |read| == |bs|
  {
    if |bs| <= PULLED then bs else bs[..PULLED] + seq(|bs| - PULLED, k requires 0 <= k => beyond(k))
  }

  lemma SeenAt(bs: Text, beyond: nat -> Byte, i: nat)
    requires i < |bs|
    ensures Seen(bs, beyond)[i] == if i < PULLED then bs[i] else beyond(i - PULLED)
  {
  }

  /** How many of the bytes behind a reader looks at. */
  function Strayed(read: Text): nat {
    var n := match DecodedTag(read) case None => |read| case Some(r) => r.1;
    if n <= PULLED then 0 else n - PULLED
  }

  /** A tag that is in reach is read from the buffer, and from nowhere else; for any other the reader strays. */
  lemma {:induction false} ReachDecides(bs: Text, beyond: nat -> Byte)
    ensures TagInReach(bs) ==> DecodedTag(Seen(bs, beyond)) == DecodedTag(bs)
    ensures Strayed(Seen(bs, beyond)) == 0 <==> TagInReach(bs)
  {
    hide Lower, Pow, DecodedTag;
    var read := Seen(bs, beyond);
    if |bs| <= PULLED {
      DecodedWithin(bs);
    } else if i :| 0 <= i < PULLED && bs[i] < 128 {
      var k := FirstEnd(bs, i);
      SamePlaces(bs, read, k);
      LastByte(bs, k);
      LastByte(read, k);
    } else {
      assert Continues(read, PULLED);
      DecodedFrom(read, PULLED, Lower(read, PULLED));
      DecodedWithin(read[PULLED..]);
    }
  }

  lemma {:induction false} DecodedWithin(bs: Text)
    ensures DecodedTag(bs).Some? ==> 0 < DecodedTag(bs).value.1 <= |bs|
  {
    if bs != [] {
      DecodedWithin(bs[1..]);
    }
  }

  lemma {:induction false} FirstEnd(bs: Text, i: nat) returns (k: nat)
    requires i < |bs| && bs[i] < 128
    ensures k <= i && bs[k] < 128 && Continues(bs, k)
  {
    if Continues(bs, i) {
      k := i;
    } else {
      var j :| 0 <= j < i && bs[j] < 128;
      k := FirstEnd(bs, j);
    }
  }

  lemma {:induction false} SamePlaces(bs: Text, read: Text, k: nat)
    requires k < |bs| == |read| && Continues(bs, k) && forall i :: 0 <= i <= k ==> read[i] == bs[i]
    ensures Continues(read, k) && Lower(read, k + 1) == Lower(bs, k + 1)
  {
    LowerSame(bs, read, k + 1);
  }

  lemma {:induction false} LowerSame(bs: Text, read: Text, k: nat)
    requires k <= |bs| == |read| && forall i :: 0 <= i < k ==> read[i] == bs[i]
    ensures Lower(read, k) == Lower(bs, k)
    decreases k
  {
    if k > 0 {
      LowerSame(bs[1..], read[1..], k - 1);
    }
  }

  /** Six bytes of 0x80: no tag ends in them, but one may end in the byte of memory behind the five that are pulled
      up. */
  lemma {:induction false} SixBytesStray(beyond: nat -> Byte)
    ensures var bs: Text := [128, 128, 128, 128, 128, 128];
      && !TagInReach(bs) && Strayed(Seen(bs, beyond)) == 1 && DecodedTag(bs) == None
      && (DecodedTag(Seen(bs, beyond)).Some? <==> beyond(0) < 128)
  {
    hide Lower, Pow, DecodedTag;
    var bs: Text := [128, 128, 128, 128, 128, 128];
    var read := Seen(bs, beyond);
    assert bs[5] == 128;
    AllContinue(bs);
    SeenAt(bs, beyond, 5);
    assert Continues(read, 5);
    if read[5] < 128 {
      LastByte(read, 5);
    } else {
      AllContinue(read);
    }
  }

  /** The bytes up to `k` all have their top bit set. */
  predicate Continues(bs: Text, k: nat)
    requires k <= |bs|
  {
    forall i :: 0 <= i < k ==> bs[i] >= 128
  }

  /** Reading a tag byte by byte: `k` bytes that all continue stand for `low` below `128^k`. */
  lemma {:induction false} DecodedFrom(bs: Text, k: nat, low: nat)
    requires k <= |bs| && Continues(bs, k) && low == Lower(bs, k)
    ensures DecodedTag(bs) == match DecodedTag(bs[k..])
                              case None => None
                              case Some(r) => Some((low + Pow(128, k) * r.0, k + r.1))
    decreases k
  {
    hide Pow, DecodedTag;
    if k > 0 {
      var rest := bs[1..];
      assert forall i :: 0 <= i < k - 1 ==> rest[i] == bs[i + 1];
      DecodedFrom(rest, k - 1, Lower(rest, k - 1));
      assert rest[k - 1..] == bs[k..];
      HighByte(bs);
      NextPower(k - 1);
      if DecodedTag(bs[k..]).Some? {
        Distribute(Lower(rest, k - 1), Pow(128, k - 1), DecodedTag(bs[k..]).value.0);
      }
    } else {
      assert bs[0..] == bs;
      StartOfTag(bs);
      if DecodedTag(bs).Some? {
        Commute(1, DecodedTag(bs).value.0);
      }
    }
  }

  lemma HighByte(bs: Text)
    requires bs != [] && bs[0] >= 128
    ensures DecodedTag(bs) == match DecodedTag(bs[1..])
                              case None => None
                              case Some(r) => Some((bs[0] % 128 + 128 * r.0, r.1 + 1))
  {
  }

  lemma Distribute(low: nat, p: nat, v: nat)
    ensures 128 * (low + p * v) == 128 * low + p * 128 * v
  {
  }

  /** What the first `k` bytes contribute. */
  function Lower(bs: Text, k: nat): nat
    requires k <= |bs|
  {
    if k == 0 then 0 else bs[0] % 128 + 128 * Lower(bs[1..], k - 1)
  }

  lemma {:induction false} LowerNext(bs: Text, k: nat)
    requires k < |bs|
    ensures Lower(bs, k + 1) == Lower(bs, k) + Pow(128, k) * (bs[k] % 128)
  {
    if k > 0 {
      LowerNext(bs[1..], k - 1);
      var d := bs[k] % 128;
      assert bs[1..][k - 1] == bs[k];
      assert 128 * (Pow(128, k - 1) * d) == Pow(128, k) * d;
    }
  }

  /** decode_tag_internal. Only the first five bytes are pulled up, so a tag that is not in reach makes it read on
      in the memory behind them, `strayed` bytes of it. A shift by more than the width of the number has no meaning
      in C, so what the number is then is left open; otherwise it is cut to 32 bits. */
  method DecodeTagInternal(evbuf: ByteQueue, dodrain: bool, canPull: bool, beyond: nat -> Byte)
    returns (r: int, tag: nat, ghost strayed: nat)
    modifies evbuf
    ensures strayed == if canPull then Strayed(Seen(old(evbuf.bytes), beyond)) else 0
    ensures strayed == 0 <==> !canPull || TagInReach(old(evbuf.bytes))
    ensures match if canPull then DecodedTag(Seen(old(evbuf.bytes), beyond)) else None
            case None => r == -1 && evbuf.bytes == old(evbuf.bytes)
            case Some((t, n)) =>
              && r == Min(n, INT_MAX) && 0 < n <= |old(evbuf.bytes)| && (n <= PULLED ==> tag == t % TWO_32)
              && evbuf.bytes == if dodrain then old(evbuf.bytes)[n..] else old(evbuf.bytes)
    ensures canPull && strayed == 0 ==> DecodedTag(Seen(old(evbuf.bytes), beyond)) == DecodedTag(old(evbuf.bytes))
  {
    hide DecodedTag, Lower, Pow, Seen, TagInReach;
    var len := |evbuf.bytes|;
    ghost var bs, read := evbuf.bytes, Seen(evbuf.bytes, beyond);
    ReachDecides(bs, beyond);
    DecodedWithin(read);
    var pulled := evbuf.Pullup(Min(len, PULLED), canPull);
    tag, strayed := 0, 0;
    if pulled == None {
      assert canPull ==> read == [];
      NothingDecoded();
      return -1, 0, 0;
    }
    var data := pulled.value;
    var count, unit := 0, 1;
    var isDone := false;
    StartOfTag(read);
    while !isDone && count < len
      invariant evbuf.bytes == bs && 0 <= count <= |bs| && unit == Pow(128, count)
      invariant strayed == if count <= PULLED then 0 else count - PULLED
      invariant !isDone ==> Continues(read, count)
      invariant isDone ==> DecodedTag(read) == Some((Lower(read, count), count))
      invariant count <= PULLED ==> tag == Lower(read, count) % TWO_32
    {
      SeenAt(bs, beyond, count);
      var lower := if count < PULLED then data[count] else beyond(count - PULLED);
      assert lower == read[count];
      strayed := if count < PULLED then strayed else strayed + 1;
      NextByte(read, count, tag, unit);
      var shifted: nat :| shifted < TWO_32;
      tag := if count < PULLED then (tag + (lower as int) % 128 * unit) % TWO_32 else shifted;
      unit := unit * 128;
      count := count + 1;
      if lower < 128 {
        isDone := true;
      }
    }
    if !isDone {
      AllContinue(read);
      return -1, tag, strayed;
    }
    if dodrain {
      evbuf.Drain(count);
    }
    r := if count > INT_MAX then INT_MAX else count;
  }

  lemma NothingDecoded()
    ensures DecodedTag([]) == None
  {
  }

  lemma StartOfTag(bs: Text)
    ensures Lower(bs, 0) == 0 && Pow(128, 0) == 1
  {
  }

  lemma AddModulo(x: nat, y: nat)
    ensures (x % TWO_32 + y) % TWO_32 == (x + y) % TWO_32
  {
  }

  lemma {:induction false} NextByte(bs: Text, count: nat, tag: nat, unit: nat)
    requires count < |bs| && Continues(bs, count) && unit == Pow(128, count)
    ensures tag == Lower(bs, count) % TWO_32 ==>
              (tag + (bs[count] as int) % 128 * unit) % TWO_32 == Lower(bs, count + 1) % TWO_32
    ensures unit * 128 == Pow(128, count + 1)
    ensures bs[count] < 128 ==> DecodedTag(bs) == Some((Lower(bs, count + 1), count + 1))
    ensures bs[count] >= 128 ==> Continues(bs, count + 1)
  {
    hide DecodedTag, Lower, Pow;
    LowerNext(bs, count);
    var d := (bs[count] as int) % 128;
    Commute(d, unit);
    AddModulo(Lower(bs, count), unit * d);
    NextPower(count);
    if bs[count] < 128 {
      LastByte(bs, count);
    }
  }

  lemma Commute(x: int, y: int)
    ensures x * y == y * x
  {
  }

  lemma NextPower(k: nat)
    ensures Pow(128, k + 1) == Pow(128, k) * 128
  {
  }

  lemma {:induction false} LastByte(bs: Text, count: nat)
    requires count < |bs| && Continues(bs, count) && bs[count] < 128
    ensures DecodedTag(bs) == Some((Lower(bs, count + 1), count + 1))
  {
    hide Lower, Pow;
    LowerNext(bs, count);
    DecodedFrom(bs, count, Lower(bs, count));
  }

  lemma {:induction false} AllContinue(bs: Text)
    requires Continues(bs, |bs|)
    ensures DecodedTag(bs) == None
  {
    DecodedFrom(bs, |bs|, Lower(bs, |bs|));
  }

  /** DECODE_INT_INTERNAL: reads at `offset`, without draining. The offset is added to what evbuffer_pullup returns before
      that is compared with a null pointer, so behind the start of the buffer it is `misled` to read near address 0. */
  method DecodeIntInternal(evbuf: ByteQueue, offset: nat, maxNibbles: nat, canPullOne: bool, canPullAll: bool)
    returns (r: int, number: nat, misled: bool)
    requires 1 <= maxNibbles <= 16
    ensures var rest := if offset <= |evbuf.bytes| then evbuf.bytes[offset..] else [];
            && (misled <==> offset > 0 && rest != []
                            && (!canPullOne || (!canPullAll && DecodedInt(rest, maxNibbles).Some?)))
            && (!misled ==>
                  match if canPullOne && canPullAll then DecodedInt(rest, maxNibbles) else None
                  case None => r == -1
                  case Some((n, len)) =>
                    r == len && number == n < Pow(16, maxNibbles) && offset + len <= |evbuf.bytes|)
  {
    hide Value, NibblesOf, Pow;
    number := 0;
    var len: int := |evbuf.bytes| - offset;
    if len <= 0 {
      return -1, 0, false;
    }
    ghost var bs := evbuf.bytes[offset..];
    var pulled := evbuf.Pullup(offset + 1, canPullOne);
    if pulled == None {
      return -1, 0, offset > 0;
    }
    var data := pulled.value[offset..];
    assert data[0] == bs[0];
    var nibbles: nat := data[0] / 16 + 1;
    if nibbles > maxNibbles || nibbles / 2 + 1 > len {
      return -1, 0, false;
    }
    len := nibbles / 2 + 1;
    pulled := evbuf.Pullup(offset + len, canPullAll);
    if pulled == None {
      return -1, 0, offset > 0;
    }
    data := pulled.value[offset..];
    assert data == bs[..len];
    ghost var all := nibbles;
    NoNibblesLeft(bs, all);
    while nibbles > 0
      invariant nibbles <= all && number == Value(NibblesOf(bs, nibbles + 1, all))
    {
      NibbleUp(bs, nibbles, all);
      number := number * 16;
      if nibbles % 2 == 1 {
        number := number + data[nibbles / 2] % 16;
      } else {
        number := number + data[nibbles / 2] / 16;
      }
      nibbles := nibbles - 1;
    }
    ValueBelow(NibblesOf(bs, 1, all), maxNibbles);
    r, misled := len, false;
  }

  lemma NoNibblesLeft(bs: Text, all: nat)
    requires all / 2 < |bs|
    ensures Value(NibblesOf(bs, all + 1, all)) == 0
  {
  }

  lemma NibbleUp(bs: Text, k: nat, all: nat)
    requires 1 <= k <= all && all / 2 < |bs|
    ensures Value(NibblesOf(bs, k, all)) == 16 * Value(NibblesOf(bs, k + 1, all)) + NibbleAt(bs, k)
  {
    assert NibblesOf(bs, k, all)[1..] == NibblesOf(bs, k + 1, all);
  }

  lemma {:induction false} ValueBelow(ds: seq<Nibble>, max: nat)
    requires |ds| <= max
    ensures Value(ds) < Pow(16, max)
  {
    ValueBound(ds);
    PowGrows(|ds|, max);
  }

  lemma {:induction false} PowGrows(a: nat, b: nat)
    requires a <= b
    ensures Pow(16, a) <= Pow(16, b)
  {
    if a < b {
      PowGrows(a, b - 1);
    }
  }

  /** evtag_decode_int and evtag_decode_int64. */
  method DecodeInt(evbuf: ByteQueue, maxNibbles: nat, canPullOne: bool, canPullAll: bool) returns (r: int, number: nat)
    requires 1 <= maxNibbles <= 16
    modifies evbuf
    ensures match if canPullOne && canPullAll then DecodedInt(old(evbuf.bytes), maxNibbles) else None
            case None => r == -1 && evbuf.bytes == old(evbuf.bytes)
            case Some((n, len)) => r == 0 && number == n < Pow(16, maxNibbles) && len <= |old(evbuf.bytes)|
                                   && evbuf.bytes == old(evbuf.bytes)[len..]
  {
    assert evbuf.bytes[0..] == evbuf.bytes;
    var res, misled;
    res, number, misled := DecodeIntInternal(evbuf, 0, maxNibbles, canPullOne, canPullAll);
    if res != -1 {
      evbuf.Drain(res);
    }
    r := if res == -1 then -1 else 0;
  }

  // Records.

  datatype Item = Item(tag: nat, payload: Text) {
    /** A tag of 32 bits, and a payload whose length fits a C int. */
    predicate Valid() {
      tag < TWO_32 && |payload| <= INT_MAX
    }
  }

  lemma LengthFits(n: nat)
    requires n < TWO_32
    ensures n < Pow(16, 8) && n < Pow(16, 16)
  {
    assert Pow(16, 4) == 65536;
    assert Pow(16, 8) == 65536 * 65536;
    PowGrows(8, 16);
  }

  /** A record: tag, length and payload. */
  function Record(item: Item): Text
    requires |item.payload| < TWO_32
  {
    LengthFits(|item.payload|);
    EncodedTag(item.tag) + EncodedInt(|item.payload|) + item.payload
  }

  /** What there is memory for of a record. */
  function PartsOf(item: Item, hasTag: bool, hasLength: bool, hasPayload: bool): Text
    requires |item.payload| < TWO_32
  {
    LengthFits(|item.payload|);
    (if hasTag then EncodedTag(item.tag) else []) + (if hasLength then EncodedInt(|item.payload|) else [])
    + if hasPayload then item.payload else []
  }

  function Stream(items: seq<Item>): Text
    requires forall i :: 0 <= i < |items| ==> items[i].Valid()
  {
    if items == [] then []
    else
      assert items[0].Valid();
      Record(items[0]) + Stream(items[1..])
  }

  /** The record is whole exactly if all parts that have bytes found memory. */
  lemma {:induction false} WholeRecord(item: Item, hasTag: bool, hasLength: bool, hasPayload: bool)
    requires |item.payload| < TWO_32
    ensures PartsOf(item, hasTag, hasLength, hasPayload) == Record(item)
            <==> hasTag && hasLength && (hasPayload || item.payload == [])
  {
    hide EncodedTag, EncodedInt, Pow;
    LengthFits(|item.payload|);
    var parts := PartsOf(item, hasTag, hasLength, hasPayload);
    assert |parts| == (if hasTag then |EncodedTag(item.tag)| else 0) + (if hasLength then |EncodedInt(|item.payload|)| else 0)
                      + if hasPayload then |item.payload| else 0;
    if hasTag && hasLength && !hasPayload {
      assert item.payload == [] ==> EncodedTag(item.tag) + EncodedInt(|item.payload|) + [] == Record(item);
    }
  }

  /** evtag_marshal. Its three parts are added one by one, and nobody is told which of them found memory. */
  method Marshal(evbuf: ByteQueue, item: Item, canAllocTag: bool, canAllocLength: bool, canAllocPayload: bool)
    requires item.tag < TWO_32 && |item.payload| < TWO_32
    modifies evbuf
    ensures evbuf.bytes == old(evbuf.bytes) + PartsOf(item, canAllocTag, canAllocLength, canAllocPayload)
  {
    hide EncodedTag, EncodedInt, Pow;
    LengthFits(|item.payload|);
    var _ := EncodeTag(evbuf, item.tag, canAllocTag);
    EncodeInt(evbuf, |item.payload|, 4, canAllocLength);
    var _ := evbuf.Add(item.payload, canAllocPayload);
  }

  /** What a reader makes of the front of the bytes: what was wrong there and what is left then, or the tag, the
      length of the payload, and the bytes from the payload on. */
  datatype Header = Bad(rest: Text) | Good(tag: nat, len: nat, rest: Text)

  /** What evbuffer_pullup can do when a record is read: for the tag, for the first byte of the length, for all of it,
      and for the payload. */
  datatype Pulls = Pulls(tag: bool, one: bool, length: bool, payload: bool)

  const ALL_PULLS := Pulls(true, true, true, true)

  function HeaderOf(bs: Text): Header {
    HeaderSeen(bs, bs, ALL_PULLS)
  }

  /** The same if it reads `read` for the tag. */
  function HeaderSeen(bs: Text, read: Text, pulls: Pulls): Header {
    match if pulls.tag then DecodedTag(read) else None
    case None => Bad(bs)
    case Some((t, n)) =>
      if n > |bs| then Bad(bs)
      else
        match if pulls.one && pulls.length then DecodedInt(bs[n..], 8) else None
        case None => Bad(bs[n..])
        case Some((len, k)) =>
          if k > |bs[n..]| then Bad(bs[n..])
          else if |bs[n + k..]| < len then Bad(bs[n + k..]) else Good(t % TWO_32, len, bs[n + k..])
  }

  /** evtag_unmarshal_header. A length above INT_MAX comes out negative. */
  method UnmarshalHeader(evbuf: ByteQueue, pulls: Pulls, beyond: nat -> Byte)
    returns (r: int, tag: nat, ghost strayed: nat)
    modifies evbuf
    ensures strayed == 0 <==> !pulls.tag || TagInReach(old(evbuf.bytes))
    ensures evbuf.bytes == HeaderSeen(old(evbuf.bytes), Seen(old(evbuf.bytes), beyond), pulls).rest
    ensures match HeaderSeen(old(evbuf.bytes), Seen(old(evbuf.bytes), beyond), pulls)
            case Bad(_) => r == -1
            case Good(t, len, rest) => r == ToInt(len) && (strayed == 0 ==> tag == t) && len <= |rest| && len < TWO_32
    ensures pulls == ALL_PULLS && strayed == 0 ==>
              HeaderSeen(old(evbuf.bytes), Seen(old(evbuf.bytes), beyond), pulls) == HeaderOf(old(evbuf.bytes))
  {
    hide DecodedTag, DecodedInt, Pow, Seen;
    ghost var bs, read := evbuf.bytes, Seen(evbuf.bytes, beyond);
    var ok, len;
    ok, tag, strayed := DecodeTagInternal(evbuf, true, pulls.tag, beyond);
    if ok == -1 {
      return -1, tag, strayed;
    }
    ok, len := DecodeInt(evbuf, 8, pulls.one, pulls.length);
    if ok == -1 {
      return -1, tag, strayed;
    }
    EightNibbles();
    ghost var n := DecodedTag(read).value.1;
    assert bs[n..][DecodedInt(bs[n..], 8).value.1..] == bs[n + DecodedInt(bs[n..], 8).value.1..];
    if |evbuf.bytes| < len {
      return -1, tag, strayed;
    }
    r := ToInt(len);
  }

  lemma EightNibbles()
    ensures Pow(16, 8) == TWO_32
  {
    assert Pow(16, 4) == 65536;
    assert Pow(16, 8) == 65536 * 65536;
  }

  /** evtag_unmarshal. A record whose length comes out negative cannot be added to the destination. What evbuffer_pullup
      returns is not looked at, so that without the payload in one chunk it is `misled` to copy from a null pointer. */
  method Unmarshal(src: ByteQueue, dst: ByteQueue, canAlloc: bool, pulls: Pulls, beyond: nat -> Byte)
    returns (r: int, tag: nat, misled: bool, ghost strayed: nat)
    requires src != dst
    modifies src, dst
    ensures strayed == 0 <==> !pulls.tag || TagInReach(old(src.bytes))
    ensures pulls == ALL_PULLS && strayed == 0 ==>
              HeaderSeen(old(src.bytes), Seen(old(src.bytes), beyond), pulls) == HeaderOf(old(src.bytes))
    ensures match HeaderSeen(old(src.bytes), Seen(old(src.bytes), beyond), pulls)
            case Bad(rest) => !misled && r == -1 && src.bytes == rest && dst.bytes == old(dst.bytes)
            case Good(t, len, rest) =>
              && (misled <==> 0 < len <= INT_MAX && canAlloc && !pulls.payload)
              && (!misled ==>
                    if len <= INT_MAX && canAlloc then
                      && r == len <= |rest| && (strayed == 0 ==> tag == t)
                      && src.bytes == rest[len..] && dst.bytes == old(dst.bytes) + rest[..len]
                    else r == -1 && src.bytes == rest && dst.bytes == old(dst.bytes))
  {
    hide HeaderOf, HeaderSeen, TagInReach, Seen;
    misled := false;
    var len;
    len, tag, strayed := UnmarshalHeader(src, pulls, beyond);
    if len == -1 {
      return -1, tag, false, strayed;
    }
    if len < 0 {
      return -1, tag, false, strayed;
    }
    var data := src.Pullup(len, pulls.payload);
    if data == None && len > 0 && canAlloc {
      return -1, tag, true, strayed;
    }
    var e := dst.Add(if data == None then [] else data.value, canAlloc);
    if e == -1 {
      return -1, tag, false, strayed;
    }
    src.Drain(len);
    r := len;
  }

  /** A record is read back as it was written, and nothing of what follows is touched. */
  lemma {:induction false} RecordRoundTrip(item: Item, rest: Text)
    requires item.Valid()
    ensures HeaderOf(Record(item) + rest) == Good(item.tag, |item.payload|, item.payload + rest)
    ensures (item.payload + rest)[..|item.payload|] == item.payload && (item.payload + rest)[|item.payload|..] == rest
    ensures TagInReach(Record(item) + rest)
  {
    hide EncodedTag, EncodedInt, DecodedTag, DecodedInt, Pow;
    LengthFits(|item.payload|);
    var a, b := EncodedTag(item.tag), EncodedInt(|item.payload|);
    var bs := Record(item) + rest;
    assert bs == a + (b + (item.payload + rest));
    TagRoundTrip(item.tag, b + (item.payload + rest));
    IntRoundTrip(|item.payload|, 8, item.payload + rest);
    assert bs[|a|..] == b + (item.payload + rest);
    assert bs[|a| + |b|..] == item.payload + rest;
    TagFits(item.tag);
    LastSeven(item.tag);
    assert bs[|a| - 1] == a[|a| - 1];
  }

  lemma {:induction false} LastSeven(tag: nat)
    ensures EncodedTag(tag)[|EncodedTag(tag)| - 1] < 128
  {
    if tag >= 128 {
      LastSeven(tag / 128);
    }
  }

  /** All the records at the front of a buffer, as evtag_unmarshal reads them one by one. */
  function Unmarshalled(bs: Text, n: nat): Option<seq<Item>> {
    if n == 0 then if bs == [] then Some([]) else None
    else
      match HeaderOf(bs)
      case Bad(_) => None
      case Good(t, len, rest) =>
        if len > |rest| then None
        else
          match Unmarshalled(rest[len..], n - 1)
          case None => None
          case Some(items) => Some([Item(t, rest[..len])] + items)
  }

  /** Any list of records that has been marshalled is unmarshalled to the same list, and the buffer is empty then. */
  lemma {:induction false} StreamRoundTrip(items: seq<Item>)
    requires forall i :: 0 <= i < |items| ==> items[i].Valid()
    ensures Unmarshalled(Stream(items), |items|) == Some(items)
  {
    hide HeaderOf, Record, TagInReach;
    if items != [] {
      var item, rest := items[0], Stream(items[1..]);
      RecordRoundTrip(item, rest);
      StreamRoundTrip(items[1..]);
      assert [item] + items[1..] == items;
    }
  }
}
