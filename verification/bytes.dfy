/** Bytes and big-endian 32-bit integers: the byte-order boundary of the
    on-disk bank table. Every multi-byte on-disk field is big-endian, every
    value the model computes with is a host integer. */
module Bytes {

  type byte = bv8

  /** A C `uint32_t`, with its width and wrap-around. */
  type u32 = bv32

  /** All bytes of `s` are zero. */
  predicate AllZero(s: seq<byte>) {
    forall i :: 0 <= i < |s| ==> s[i] == 0
  }

  /** `n` copies of the byte `b`, the effect of `memset(p, b, n)`. */
  function Fill(b: byte, n: nat): (r: seq<byte>)
    ensures |r| == n
    ensures forall i :: 0 <= i < n ==> r[i] == b
  {
    seq(n, _ => b)
  }

  function Zeros(n: nat): (r: seq<byte>)
    ensures |r| == n
    ensures AllZero(r)
  {
    Fill(0, n)
  }

  /** `cpu_to_be32`: the four bytes of `x`, most significant first. */
  function Be32(x: u32): (b: seq<byte>)
    ensures |b| == 4
  {
    [((x >> 24) & 0xFF) as byte, ((x >> 16) & 0xFF) as byte, ((x >> 8) & 0xFF) as byte, (x & 0xFF) as byte]
  }

  /** `be32_to_cpu`: the inverse reading of four big-endian bytes. */
  function FromBe32(b: seq<byte>): (x: u32)
    requires |b| == 4
  {
    ((b[0] as u32) << 24) | ((b[1] as u32) << 16) | ((b[2] as u32) << 8) | (b[3] as u32)
  }

  lemma Be32RoundTrip(x: u32)
    ensures FromBe32(Be32(x)) == x
  {
  }

  lemma FromBe32RoundTrip(b: seq<byte>)
    requires |b| == 4
    ensures Be32(FromBe32(b)) == b
  {
  }

  /** Big-endian encoding is injective, so distinct values stay distinct on disk. */
  lemma Be32Injective(x: u32, y: u32)
    requires Be32(x) == Be32(y)
    ensures x == y
  {
    Be32RoundTrip(x);
    Be32RoundTrip(y);
  }

  /** Adjacent slices join into one. */
  lemma JoinSlices<T>(s: seq<T>, a: nat, b: nat, c: nat)
    requires a <= b <= c <= |s|
    ensures s[a..b] + s[b..c] == s[a..c]
  {
    assert forall k :: 0 <= k < c - a ==> (s[a..b] + s[b..c])[k] == s[a..c][k];
  }

  /** Two sequences that agree on `[lo, mid)` and from `mid` on agree from `lo` on. */
  lemma AgreeFrom<T>(a: seq<T>, b: seq<T>, lo: nat, mid: nat)
    requires lo <= mid <= |a| == |b|
    requires a[lo..mid] == b[lo..mid] && a[mid..] == b[mid..]
    ensures a[lo..] == b[lo..]
  {
    forall k | lo <= k < |a|
      ensures a[k] == b[k]
    {
      if k < mid {
        assert a[k] == a[lo..mid][k - lo];
      } else {
        assert a[k] == a[mid..][k - mid];
      }
    }
    assert forall k :: 0 <= k < |a| - lo ==> a[lo..][k] == b[lo..][k];
  }

  /** A slice inside the first part of a concatenation. */
  lemma SliceOfPrefix<T>(a: seq<T>, b: seq<T>, lo: nat, hi: nat)
    requires lo <= hi <= |a|
    ensures (a + b)[lo..hi] == a[lo..hi]
  {
    assert forall k :: 0 <= k < hi - lo ==> (a + b)[lo..hi][k] == a[lo..hi][k];
  }

  /** The second part of a concatenation, sliced back out. */
  lemma SliceOfSuffix<T>(a: seq<T>, b: seq<T>)
    ensures (a + b)[|a|..|a| + |b|] == b
  {
  }

  /** Two sequences of `n` sectors that agree sector by sector are equal. */
  lemma SectorsEqual<T>(a: seq<T>, b: seq<T>, n: nat)
    requires |a| == |b| == n * 512
    requires forall i :: 0 <= i < n ==> a[i * 512..i * 512 + 512] == b[i * 512..i * 512 + 512]
    ensures a == b
  {
    forall k | 0 <= k < |a|
      ensures a[k] == b[k]
    {
      var i := k / 512;
      assert a[i * 512..i * 512 + 512][k - i * 512] == b[i * 512..i * 512 + 512][k - i * 512];
    }
  }

  /** `memcpy(s + off, d, |d|)`: `s` with `d` written over it at `off`. */
  function Splice(s: seq<byte>, off: nat, d: seq<byte>): (r: seq<byte>)
    requires off + |d| <= |s|
    ensures |r| == |s|
    ensures r[off..off + |d|] == d
  {
    s[..off] + d + s[off + |d|..]
  }

  /** A splice leaves every range it does not overlap as it was. */
  lemma SpliceKeeps(s: seq<byte>, off: nat, d: seq<byte>, lo: nat, hi: nat)
    requires off + |d| <= |s|
    requires lo <= hi <= |s|
    requires hi <= off || off + |d| <= lo
    ensures Splice(s, off, d)[lo..hi] == s[lo..hi]
  {
    var r := Splice(s, off, d);
    forall k | lo <= k < hi
      ensures r[k] == s[k]
    {
      if k < off {
        assert r[k] == s[..off][k];
      } else {
        assert r[k] == s[off + |d|..][k - off - |d|];
      }
    }
    assert forall k :: 0 <= k < hi - lo ==> r[lo..hi][k] == s[lo..hi][k];
  }

  /** Bitwise OR of all bytes of `s`, the reduction `rvth_is_block_empty`
      performs on each group of words. */
  function OrAll(s: seq<byte>): byte
  {
    if |s| == 0 then 0 else OrAll(s[..|s| - 1]) | s[|s| - 1]
  }

  lemma {:induction false} OrAllZero(s: seq<byte>)
    ensures OrAll(s) == 0 <==> AllZero(s)
  {
    if |s| > 0 {
      var init := s[..|s| - 1];
      OrAllZero(init);
      var x, y := OrAll(init), s[|s| - 1];
      assert x | y == 0 <==> x == 0 && y == 0;
      if AllZero(s) {
        assert AllZero(init);
      } else if AllZero(init) {
        assert y != 0;
      }
    }
  }
}
