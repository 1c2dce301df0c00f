/** Bytes, fixed-width words in both byte orders, and byte ranges inside a larger sequence. */
module Bytes {
  type byte = x: int | 0 <= x < 256

  const TWO32: int := 0x1_0000_0000
  const TWO64: int := 0x1_0000_0000_0000_0000

  /** The word `n` in big-endian order (the order of every devicetree cell). */
  function BE32(n: nat): (s: seq<byte>)
    requires n < TWO32
    ensures |s| == 4
  {
    [n / 256 / 256 / 256, n / 256 / 256 % 256, n / 256 % 256, n % 256]
  }

  function GetBE32(s: seq<byte>, i: nat): (n: nat)
    requires i + 4 <= |s|
    ensures n < TWO32
  {
    var (a: int, b: int, c: int, d: int) := (s[i], s[i + 1], s[i + 2], s[i + 3]);
    a * 0x100_0000 + b * 0x1_0000 + c * 0x100 + d
  }

  /** The word `n` in little-endian order (boot image headers, payload tables). */
  function LE32(n: nat): (s: seq<byte>)
    requires n < TWO32
    ensures |s| == 4
  {
    [n % 256, n / 256 % 256, n / 256 / 256 % 256, n / 256 / 256 / 256]
  }

  function GetLE32(s: seq<byte>, i: nat): (n: nat)
    requires i + 4 <= |s|
    ensures n < TWO32
  {
    var (a: int, b: int, c: int, d: int) := (s[i], s[i + 1], s[i + 2], s[i + 3]);
    a + b * 0x100 + c * 0x1_0000 + d * 0x100_0000
  }

  function Ascii(s: string): (r: seq<byte>)
    ensures |r| == |s|
  {
    seq(|s|, i requires 0 <= i < |s| => (s[i] as int) % 256)
  }

  function Zeros(n: nat): (s: seq<byte>)
    ensures |s| == n
    ensures forall i :: 0 <= i < n ==> s[i] == 0
  {
    seq(n, _ => 0)
  }

  /** `bs` occupies the bytes of `m` that start at `p`. */
  ghost predicate At(m: seq<byte>, p: nat, bs: seq<byte>)
  {
    p + |bs| <= |m| && m[p..p + |bs|] == bs
  }

  /** `s` with the bytes from `off` on overwritten by `v`. */
  function Patch(s: seq<byte>, off: nat, v: seq<byte>): (r: seq<byte>)
    requires off + |v| <= |s|
    ensures |r| == |s|
    ensures forall i :: 0 <= i < |s| ==> r[i] == if off <= i < off + |v| then v[i - off] else s[i]
  {
    s[..off] + v + s[off + |v|..]
  }

  lemma BE32RoundTrip(n: nat)
    requires n < TWO32
    ensures GetBE32(BE32(n), 0) == n
  {
    var a, b := n / 256, n / 256 / 256;
    assert n == 256 * a + n % 256 && a == 256 * b + a % 256 && b == 256 * (b / 256) + b % 256;
  }

  lemma LE32RoundTrip(n: nat)
    requires n < TWO32
    ensures GetLE32(LE32(n), 0) == n
  {
    var a, b := n / 256, n / 256 / 256;
    assert n == 256 * a + n % 256 && a == 256 * b + a % 256 && b == 256 * (b / 256) + b % 256;
  }

  /** Which byte comes first. */
  lemma ByteOrders()
    ensures BE32(0x0102_0304) == [1, 2, 3, 4] && LE32(0x0102_0304) == [4, 3, 2, 1]
  {
  }

  lemma AtConcat(m: seq<byte>, p: nat, a: seq<byte>, b: seq<byte>)
    ensures At(m, p, a + b) <==> At(m, p, a) && At(m, p + |a|, b)
  {
    if At(m, p, a + b) {
      assert m[p..p + |a|] == m[p..p + |a + b|][..|a|] == (a + b)[..|a|] == a;
      assert m[p + |a|..p + |a| + |b|] == m[p..p + |a + b|][|a|..] == (a + b)[|a|..] == b;
    }
    if At(m, p, a) && At(m, p + |a|, b) {
      assert m[p..p + |a + b|] == m[p..p + |a|] + m[p + |a|..p + |a| + |b|];
    }
  }

  lemma AtBE32(m: seq<byte>, p: nat, n: nat)
    requires n < TWO32 && At(m, p, BE32(n))
    ensures GetBE32(m, p) == n
  {
    var w := m[p..p + 4];
    assert w[0] == m[p] && w[1] == m[p + 1] && w[2] == m[p + 2] && w[3] == m[p + 3];
    BE32RoundTrip(n);
  }

  lemma AtLE32(m: seq<byte>, p: nat, n: nat)
    requires n < TWO32 && At(m, p, LE32(n))
    ensures GetLE32(m, p) == n
  {
    var w := m[p..p + 4];
    assert w[0] == m[p] && w[1] == m[p + 1] && w[2] == m[p + 2] && w[3] == m[p + 3];
    LE32RoundTrip(n);
  }

  lemma AtIndex(m: seq<byte>, p: nat, bs: seq<byte>, i: nat)
    requires At(m, p, bs) && i < |bs|
    ensures m[p + i] == bs[i]
  {
    assert m[p..p + |bs|][i] == bs[i];
  }
}
