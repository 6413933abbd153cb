/** Bytes, splices of byte sequences and little-endian values (src/fat/bit_ops.h). */
module Bytes {

  type byte = b: int | 0 <= b < 256

  /** `s` with the bytes from `at` on replaced by `d` (what a memcpy into a buffer leaves behind). */
  function Splice(s: seq<byte>, at: nat, d: seq<byte>): (r: seq<byte>)
    requires at + |d| <= |s|
    ensures |r| == |s|
  {
    s[..at] + d + s[at + |d|..]
  }

  /** The `len` bytes from `at` on. */
  function Sub(s: seq<byte>, at: nat, len: nat): (r: seq<byte>)
    requires at + len <= |s|
    ensures |r| == len
  {
    s[at..at + len]
  }

  lemma SubSub(s: seq<byte>, at: nat, len: nat, at': nat, len': nat)
    requires at + len <= |s| && at' + len' <= len
    ensures Sub(Sub(s, at, len), at', len') == Sub(s, at + at', len')
  {
    var t := Sub(s, at, len);
    forall i | 0 <= i < len'
      ensures Sub(t, at', len')[i] == Sub(s, at + at', len')[i]
    {
      assert Sub(t, at', len')[i] == t[at' + i] == s[at + at' + i];
    }
  }

  lemma SubConcat(s: seq<byte>, at: nat, n: nat, m: nat)
    requires at + n + m <= |s|
    ensures Sub(s, at, n) + Sub(s, at + n, m) == Sub(s, at, n + m)
  {
  }

  lemma SubOfPrefix(s: seq<byte>, n: nat, at: nat, len: nat)
    requires at + len <= n <= |s|
    ensures s[..n][at..at + len] == Sub(s, at, len)
  {
  }

  /** A part of a middle piece. */
  lemma SubOfMiddle(s: seq<byte>, lo: nat, hi: nat, at: nat, len: nat)
    requires lo <= at && at + len <= hi <= |s|
    ensures Sub(s[lo..hi], at - lo, len) == Sub(s, at, len)
  {
    var a, b := Sub(s[lo..hi], at - lo, len), Sub(s, at, len);
    forall i | 0 <= i < len
      ensures a[i] == b[i]
    {
      assert a[i] == s[lo..hi][at - lo + i] == s[at + i];
    }
  }

  /** A splice inside a part is a splice of the part. */
  lemma SpliceSub(s: seq<byte>, at: nat, len: nat, off: nat, d: seq<byte>)
    requires at + len <= |s| && off + |d| <= len
    ensures Sub(Splice(s, at + off, d), at, len) == Splice(Sub(s, at, len), off, d)
  {
  }

  /** A splice outside a part leaves the part alone. */
  lemma SubOutside(s: seq<byte>, at: nat, d: seq<byte>, lo: nat, len: nat)
    requires at + |d| <= |s| && lo + len <= |s|
    requires at + |d| <= lo || lo + len <= at
    ensures Sub(Splice(s, at, d), lo, len) == Sub(s, lo, len)
  {
  }

  function Zeros(n: nat): (r: seq<byte>)
    ensures |r| == n && forall i :: 0 <= i < n ==> r[i] == 0
  {
    seq(n, i => 0)
  }

  lemma SpliceSplice(s: seq<byte>, at: nat, d: seq<byte>, e: seq<byte>)
    requires at + |d| + |e| <= |s|
    ensures Splice(Splice(s, at, d), at + |d|, e) == Splice(s, at, d + e)
  {
  }

  /** What was spliced in is there. */
  lemma SubOfSplice(s: seq<byte>, at: nat, d: seq<byte>)
    requires at + |d| <= |s|
    ensures Sub(Splice(s, at, d), at, |d|) == d
  {
  }

  lemma SubRight(a: seq<byte>, b: seq<byte>, at: nat, len: nat)
    requires at + len <= |b|
    ensures Sub(a + b, |a| + at, len) == Sub(b, at, len)
  {
  }

  lemma SubLeft(a: seq<byte>, b: seq<byte>, at: nat, len: nat)
    requires at + len <= |a|
    ensures Sub(a + b, at, len) == Sub(a, at, len)
  {
  }

  lemma SpliceLeft(a: seq<byte>, b: seq<byte>, at: nat, d: seq<byte>)
    requires at + |d| <= |a|
    ensures Splice(a + b, at, d) == Splice(a, at, d) + b
  {
  }

  lemma SpliceRight(a: seq<byte>, b: seq<byte>, at: nat, d: seq<byte>)
    requires at + |d| <= |b|
    ensures Splice(a + b, |a| + at, d) == a + Splice(b, at, d)
  {
  }

  lemma SpliceWhole(s: seq<byte>, d: seq<byte>)
    requires |d| == |s|
    ensures Splice(s, 0, d) == d
  {
  }

  lemma SpliceNothing(s: seq<byte>, at: nat, d: seq<byte>)
    requires at <= |s| && d == []
    ensures Splice(s, at, d) == s
  {
  }

  lemma SpliceMore(s: seq<byte>, at: nat, buffer: seq<byte>, n: nat, m: nat)
    requires n + m <= |buffer| && at + n + m <= |s|
    ensures Splice(Splice(s, at, buffer[..n]), at + n, Sub(buffer, n, m)) == Splice(s, at, buffer[..n + m])
  {
    SpliceSplice(s, at, buffer[..n], Sub(buffer, n, m));
    assert buffer[..n] + Sub(buffer, n, m) == buffer[..n + m];
  }

  function Min(a: int, b: int): (m: int)
    ensures m <= a && m <= b && (m == a || m == b)
  {
    if a < b then a else b
  }

  function Max(a: int, b: int): (m: int)
    ensures a <= m && b <= m && (m == a || m == b)
  {
    if a < b then b else a
  }

  /** Little-endian encoding in 1, 2 or 4 bytes; what does not fit is cut off. */
  function LeBytes(v: nat, size: nat): (d: seq<byte>)
    requires size == 1 || size == 2 || size == 4
    ensures |d| == size
  {
    if size == 1 then [v % 256]
    else if size == 2 then [v % 256, v / 256 % 256]
    else [v % 256, v / 256 % 256, v / 0x1_0000 % 256, v / 0x100_0000 % 256]
  }

  function LeValue(d: seq<byte>): (v: nat)
    requires |d| == 1 || |d| == 2 || |d| == 4
    ensures v < if |d| == 1 then 0x100 else if |d| == 2 then 0x1_0000 else 0x1_0000_0000
  {
    if |d| == 1 then d[0]
    else if |d| == 2 then d[0] as int + 256 * (d[1] as int)
    else d[0] as int + 256 * (d[1] as int) + 0x1_0000 * (d[2] as int) + 0x100_0000 * (d[3] as int)
  }

  /** A value read back is the value written, cut to its width. */
  lemma LeRoundTrip(v: nat, size: nat)
    requires size == 1 || size == 2 || size == 4
    ensures LeValue(LeBytes(v, size)) == v % if size == 1 then 0x100 else if size == 2 then 0x1_0000 else 0x1_0000_0000
  {
    var a, b, c := v / 256, v / 0x1_0000, v / 0x100_0000;
    assert a / 256 == b && b / 256 == c;
    assert v == v % 256 + 256 * (a % 256) + 0x1_0000 * b;
    assert v == v % 256 + 256 * (a % 256) + 0x1_0000 * (b % 256) + 0x100_0000 * c;
  }

  lemma LeOne(s: seq<byte>, at: nat)
    requires at + 1 <= |s|
    ensures LeValue(Sub(s, at, 1)) == s[at] as int
  {
  }

  lemma LeTwo(s: seq<byte>, at: nat)
    requires at + 2 <= |s|
    ensures LeValue(Sub(s, at, 2)) == s[at] as int + 256 * (s[at + 1] as int)
  {
  }

  lemma LeFour(s: seq<byte>, at: nat)
    requires at + 4 <= |s|
    ensures LeValue(Sub(s, at, 4))
         == s[at] as int + 256 * (s[at + 1] as int) + 0x1_0000 * (s[at + 2] as int) + 0x100_0000 * (s[at + 3] as int)
  {
  }
}
