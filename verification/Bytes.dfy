/** Bytes, byte sequences cut into pieces, and the C integer limits that the modelled code depends on. */
module Bytes {
  type Byte = b: int | 0 <= b < 256

  type Text = seq<Byte>

  datatype Option<T> = None | Some(value: T)

  const SIZE_MAX: nat := 0xffff_ffff_ffff_ffff
  const SSIZE_MAX: nat := 0x7fff_ffff_ffff_ffff
  const INT_MAX: nat := 0x7fff_ffff
  const TWO_32: nat := 0x1_0000_0000

  const DOT: Byte := 46

  /** The C cast of a wide integer to a 32-bit `int`. */
  function ToInt(n: int): (r: int)
    ensures -0x8000_0000 <= r <= INT_MAX
    ensures -0x8000_0000 <= n <= INT_MAX ==> r == n
  {
    (n + 0x8000_0000) % 0x1_0000_0000 - 0x8000_0000
  }

  function Min(a: int, b: int): int {
    if a <= b then a else b
  }

  function Pow(b: nat, k: nat): nat {
    if k == 0 then 1 else b * Pow(b, k - 1)
  }

  /** The pieces laid end to end. */
  ghost function Concat<T>(ds: seq<seq<T>>): seq<T> {
    if ds == [] then [] else ds[0] + Concat(ds[1..])
  }

  lemma {:induction false} ConcatAppend<T>(a: seq<seq<T>>, b: seq<seq<T>>)
    ensures Concat(a + b) == Concat(a) + Concat(b)
  {
    if a == [] {
      assert a + b == b;
    } else {
      assert (a + b)[1..] == a[1..] + b;
      ConcatAppend(a[1..], b);
    }
  }

  lemma {:induction false} ConcatNone<T>()
    ensures Concat<T>([]) == []
  {
  }

  lemma {:induction false} ConcatOne<T>(d: seq<T>)
    ensures Concat([d]) == d
  {
  }

  /** Piece `i` sits between the pieces before it and the pieces after it. */
  lemma {:induction false} ConcatSplit<T>(ds: seq<seq<T>>, i: nat)
    requires i < |ds|
    ensures Concat(ds) == Concat(ds[..i]) + ds[i] + Concat(ds[i + 1..])
    ensures Concat(ds[..i + 1]) == Concat(ds[..i]) + ds[i]
    ensures Concat(ds[i..]) == ds[i] + Concat(ds[i + 1..])
  {
    var l, r := ds[..i], ds[i + 1..];
    assert ds == l + ([ds[i]] + r) && ds[i..] == [ds[i]] + r && ds[..i + 1] == l + [ds[i]];
    ConcatAppend(l, [ds[i]] + r);
    ConcatAppend([ds[i]], r);
    ConcatAppend(l, [ds[i]]);
    ConcatOne(ds[i]);
  }

  lemma {:induction false} ConcatUpdate<T>(ds: seq<seq<T>>, i: nat, d: seq<T>)
    requires i < |ds|
    ensures Concat(ds[i := d]) == Concat(ds[..i]) + d + Concat(ds[i + 1..])
  {
    var es := ds[i := d];
    ConcatSplit(es, i);
    assert es[..i] == ds[..i] && es[i + 1..] == ds[i + 1..];
  }

  lemma {:induction false} ConcatEmpties<T>(ds: seq<seq<T>>)
    requires forall i :: 0 <= i < |ds| ==> ds[i] == []
    ensures Concat(ds) == []
  {
    if ds != [] {
      ConcatEmpties(ds[1..]);
    }
  }

  lemma {:induction false} ConcatCut<T>(ds: seq<seq<T>>, i: nat)
    requires i <= |ds|
    ensures Concat(ds) == Concat(ds[..i]) + Concat(ds[i..])
    ensures |Concat(ds[..i])| <= |Concat(ds)|
  {
    assert ds == ds[..i] + ds[i..];
    ConcatAppend(ds[..i], ds[i..]);
  }

  /** `s` with the bytes from place `at` on overwritten by `src`. */
  ghost function Overlay(s: seq<Byte>, at: nat, src: seq<Byte>): (r: seq<Byte>)
    requires at + |src| <= |s|
    ensures |r| == |s|
  {
    s[..at] + src + s[at + |src|..]
  }

  lemma {:induction false} OverlayTwice(s: seq<Byte>, a: seq<Byte>, b: seq<Byte>)
    requires |a| + |b| <= |s|
    ensures Overlay(Overlay(s, 0, a), |a|, b) == Overlay(s, 0, a + b)
  {
  }

  lemma {:induction false} OverlayNone(s: seq<Byte>)
    ensures Overlay(s, 0, []) == s
  {
  }

  lemma {:induction false} OverlayParts(s: seq<Byte>, at: nat, src: seq<Byte>)
    requires at + |src| <= |s|
    ensures Overlay(s, at, src)[..at] == s[..at] && Overlay(s, at, src)[at..at + |src|] == src
  {
  }

  lemma OverlayBehind(s: seq<Byte>, lo: nat, at: nat, src: seq<Byte>)
    requires lo <= at && at + |src| <= |s|
    ensures Overlay(s, at, src)[lo..at + |src|] == s[lo..at] + src
  {
  }

  lemma OverlayBefore(s: seq<Byte>, at: nat, hi: nat, src: seq<Byte>)
    requires |src| <= at <= hi <= |s|
    ensures Overlay(s, at - |src|, src)[at - |src|..hi] == src + s[at..hi]
  {
  }

  lemma RestOf(s: seq<Byte>, lo: nat, hi: nat, n: nat)
    requires lo + n <= hi <= |s|
    ensures s[lo..hi][n..] == s[lo + n..hi]
  {
  }

  /** Copies `src` over the bytes of `dst` that start at `at`. */
  method MemCpy(dst: array<Byte>, at: nat, src: seq<Byte>)
    requires at + |src| <= dst.Length
    modifies dst
    ensures dst[..] == Overlay(old(dst[..]), at, src)
  {
    forall i | 0 <= i < |src| {
      dst[at + i] := src[i];
    }
  }

  // Lists without repetition.

  ghost predicate NoRepeats<T>(s: seq<T>) {
    forall i, j :: 0 <= i < j < |s| ==> s[i] != s[j]
  }

  lemma EndsEqual<T>(s: seq<T>, x: T)
    requires s != [] && forall k :: 0 <= k < |s| ==> s[k] == x
    ensures s[0] == x && s[|s| - 1] == x
  {
  }

  /** Elements that are all equal and do not repeat are one element. */
  lemma AllEqual<T>(s: seq<T>, x: T)
    requires x in s && NoRepeats(s) && forall k :: 0 <= k < |s| ==> s[k] == x
    ensures s == [x]
  {
    EndsEqual(s, x);
  }

  /** A list without the first occurrence of `x`. */
  function Without<T(==)>(s: seq<T>, x: T): seq<T> {
    if s == [] then [] else if s[0] == x then s[1..] else [s[0]] + Without(s[1..], x)
  }

  lemma {:induction false} WithoutIs<T>(s: seq<T>, x: T)
    requires NoRepeats(s)
    ensures forall y :: y in Without(s, x) <==> y in s && y != x
    ensures NoRepeats(Without(s, x))
    ensures |Without(s, x)| == |s| - if x in s then 1 else 0
  {
    if s != [] {
      assert s == [s[0]] + s[1..];
      assert s[0] !in s[1..];
      if s[0] != x {
        WithoutIs(s[1..], x);
        assert s[0] !in Without(s[1..], x);
      }
    }
  }

  /** The number of elements in all the lists. */
  ghost function Total<T>(qs: seq<seq<T>>): nat {
    if qs == [] then 0 else Total(qs[..|qs| - 1]) + |qs[|qs| - 1]|
  }

  lemma {:induction false} TotalUpdate<T>(qs: seq<seq<T>>, i: nat, q: seq<T>)
    requires i < |qs|
    ensures Total(qs[i := q]) == Total(qs) - |qs[i]| + |q|
  {
    var n := |qs| - 1;
    if i == n {
      assert qs[i := q][..n] == qs[..n];
    } else {
      assert qs[i := q][..n] == qs[..n][i := q];
      TotalUpdate(qs[..n], i, q);
    }
  }

  lemma {:induction false} TotalNone<T>(qs: seq<seq<T>>)
    requires forall i :: 0 <= i < |qs| ==> qs[i] == []
    ensures Total(qs) == 0
  {
    if qs != [] {
      TotalNone(qs[..|qs| - 1]);
    }
  }

  lemma {:induction false} TotalZero<T>(qs: seq<seq<T>>)
    ensures Total(qs) == 0 ==> forall i :: 0 <= i < |qs| ==> qs[i] == []
  {
    if qs != [] {
      TotalZero(qs[..|qs| - 1]);
    }
  }
}
