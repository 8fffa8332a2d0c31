/** Bytes, and writing a run of bytes over part of a file. */
module Bytes {

  type Byte = x: int | 0 <= x < 256

  const TWO_TO_THE_32: nat := 0x1_0000_0000

  function Min(a: nat, b: nat): nat {
    if a <= b then a else b
  }

  /** The number of whole elements of `size` bytes in `bytes` bytes. */
  function WholeElements(bytes: nat, size: nat): nat {
    if size == 0 then 0 else bytes / size
  }

  lemma WholeElementsFit(bytes: nat, size: nat)
    ensures size * WholeElements(bytes, size) <= bytes
  {
    if size > 0 {
      QuotientBounds(bytes, size);
    }
  }

  /** One more would not fit. */
  lemma WholeElementsFill(bytes: nat, size: nat)
    ensures if size == 0 then WholeElements(bytes, size) == 0 else bytes < size * WholeElements(bytes, size) + size
  {
    if size > 0 {
      QuotientBounds(bytes, size);
    }
  }

  lemma QuotientBounds(n: nat, d: nat)
    requires d > 0
    ensures d * (n / d) <= n < d * (n / d) + d
  {
  }

  lemma RemainderIsUnique(n: int, d: int, q: int, r: int)
    requires 0 <= r < d && n == d * q + r
    ensures n % d == r
  {
    var q', r' := n / d, n % d;
    assert n == d * q' + r';
    assert d * (q' - q) == r - r';
    assert q' - q >= 1 ==> d * (q' - q) >= d;
    assert q - q' >= 1 ==> d * (q - q') >= d;
  }

  lemma QuotientIsUnique(n: int, d: int, q: int, r: int)
    requires 0 <= r < d && n == d * q + r
    ensures n / d == q
  {
    var q' := n / d;
    RemainderIsUnique(n, d, q, r);
    assert n == d * q' + n % d;
    assert d * (q' - q) == 0;
    assert q' - q >= 1 ==> d * (q' - q) >= d;
    assert q - q' >= 1 ==> d * (q - q') >= d;
  }

  lemma Monotone(size: nat, a: nat, b: nat)
    requires a <= b
    ensures size * a <= size * b
    ensures size * (a + 1) == size * a + size
  {
  }

  /** The file `f` after `d` has been written at offset `p`; the file grows when `d` reaches past its end. */
  function Overlay(f: seq<Byte>, p: nat, d: seq<Byte>): (r: seq<Byte>)
    requires p <= |f|
    ensures |r| == if p + |d| > |f| then p + |d| else |f|
  {
    f[..p] + d + (if p + |d| < |f| then f[p + |d|..] else [])
  }

  lemma OverlayAt(f: seq<Byte>, p: nat, d: seq<Byte>, i: nat)
    requires p <= |f| && i < |Overlay(f, p, d)|
    ensures Overlay(f, p, d)[i] == if p <= i < p + |d| then d[i - p] else f[i]
  {
  }

  lemma OverlayNothing(f: seq<Byte>, p: nat)
    requires p <= |f|
    ensures Overlay(f, p, []) == f
  {
  }

  /** Two writes in a row are one write of the concatenation. */
  lemma OverlayTwice(f: seq<Byte>, p: nat, a: seq<Byte>, b: seq<Byte>)
    requires p <= |f|
    ensures Overlay(Overlay(f, p, a), p + |a|, b) == Overlay(f, p, a + b)
  {
    var g := Overlay(f, p, a);
    forall i | 0 <= i < |Overlay(f, p, a + b)|
      ensures Overlay(g, p + |a|, b)[i] == Overlay(f, p, a + b)[i]
    {
      OverlayAt(f, p, a + b, i);
      OverlayAt(g, p + |a|, b, i);
      if i < |g| {
        OverlayAt(f, p, a, i);
      }
    }
  }

  /** Writing a sequence piece by piece. */
  lemma OverlayGrows(f: seq<Byte>, p: nat, s: seq<Byte>, i: nat, n: nat)
    requires p <= |f| && i + n <= |s|
    ensures Overlay(Overlay(f, p, s[..i]), p + i, s[i..i + n]) == Overlay(f, p, s[..i + n])
  {
    OverlayTwice(f, p, s[..i], s[i..i + n]);
    assert s[..i] + s[i..i + n] == s[..i + n];
  }

  lemma SliceOfSlice(s: seq<Byte>, a: nat, b: nat, i: nat, j: nat)
    requires a <= b <= |s| && i <= j <= b - a
    ensures s[a..b][i..j] == s[a + i..a + j]
  {
    var part := s[a..b];
    forall k | 0 <= k < j - i
      ensures part[i..j][k] == s[a + i..a + j][k]
    {
      assert part[i + k] == s[a + i + k];
    }
  }

  /** What an array holds. */
  ghost function Elements(a: array<Byte>): (s: seq<Byte>)
    reads a
    ensures |s| == a.Length
  {
    a[..]
  }

  lemma ElementsPrefix(a: array<Byte>, n: nat)
    requires n <= a.Length
    ensures a[..n] == Elements(a)[..n]
  {
  }

  /** Copies `d` into `dest` from index `at` on. */
  method Copy(dest: array<Byte>, at: nat, d: seq<Byte>)
    requires at + |d| <= dest.Length
    modifies dest
    ensures Elements(dest) == Overlay(old(Elements(dest)), at, d)
  {
    forall i | 0 <= i < |d| {
      dest[at + i] := d[i];
    }
    forall i | 0 <= i < dest.Length
      ensures dest[i] == Overlay(old(Elements(dest)), at, d)[i]
    {
      OverlayAt(old(Elements(dest)), at, d, i);
    }
  }

  /** Writing inside a prefix that is long enough, or growing it. */
  lemma OverlayPrefix(f: seq<Byte>, n: nat, p: nat, d: seq<Byte>)
    requires p <= n <= |f| && p + |d| <= |f|
    ensures Overlay(f, p, d)[..if n < p + |d| then p + |d| else n] == Overlay(f[..n], p, d)
  {
    var m := if n < p + |d| then p + |d| else n;
    forall i | 0 <= i < m
      ensures Overlay(f, p, d)[i] == Overlay(f[..n], p, d)[i]
    {
      OverlayAt(f, p, d, i);
      OverlayAt(f[..n], p, d, i);
    }
  }

  datatype Pointer<T> = Null | To(value: T)
}
