/** Bytes, NUL-free names and little-endian numbers as the programs lay them out in memory. */
module Bytes {

  type Byte = x: int | 0 <= x < 256

  function Pow256(w: nat): (p: nat)
    ensures p >= 1
  {
    if w == 0 then 1 else 256 * Pow256(w - 1)
  }

  /** The low `w` bytes of `n`, least significant first: what `memcpy` of a `w`-byte unsigned
      integer leaves on a little-endian machine. */
  function LittleEndian(n: nat, w: nat): (s: seq<Byte>)
    ensures |s| == w
  {
    if w == 0 then [] else [n % 256] + LittleEndian(n / 256, w - 1)
  }

  function FromLittleEndian(s: seq<Byte>): nat
  {
    if s == [] then 0 else s[0] + 256 * FromLittleEndian(s[1..])
  }

  lemma {:induction false} LittleEndianReads(n: nat, w: nat)
    ensures FromLittleEndian(LittleEndian(n, w)) == n % Pow256(w)
  {
    if w != 0 {
      LittleEndianReads(n / 256, w - 1);
      assert LittleEndian(n, w)[1..] == LittleEndian(n / 256, w - 1);
      ModSplit(n, Pow256(w - 1));
    }
  }

  /** Byte `i` is the one of weight 256^i. */
  lemma {:induction false} LittleEndianByte(n: nat, w: nat, i: nat)
    requires i < w
    ensures LittleEndian(n, w)[i] == n / Pow256(i) % 256
  {
    if i == 0 {
      assert Pow256(0) == 1 && n / 1 == n;
    } else {
      LittleEndianByte(n / 256, w - 1, i - 1);
      ModSplit(n, Pow256(i - 1));
    }
  }

  lemma ModSplit(n: nat, p: nat)
    requires p >= 1
    ensures n % (256 * p) == n % 256 + 256 * ((n / 256) % p)
    ensures n / (256 * p) == n / 256 / p
  {
    var q, r := n / 256 / p, (n / 256) % p;
    assert n / 256 == p * q + r;
    assert n == 256 * (p * q + r) + n % 256;
    assert 256 * (p * q) == (256 * p) * q;
    var low := n % 256 + 256 * r;
    assert n == (256 * p) * q + low;
    assert 0 <= low < 256 * p;
    DivModUnique(n, 256 * p, q, low);
  }

  lemma DivModUnique(n: int, d: int, q: int, r: int)
    requires d > 0 && n == d * q + r && 0 <= r < d
    ensures n / d == q && n % d == r
  {
    var q', r' := n / d, n % d;
    assert d * q + r == d * q' + r';
    assert d * (q - q') == r' - r;
    if q' > q {
      assert d * (q - q') == -(d * (q' - q));
      MulAtLeast(d, q' - q);
    } else if q' < q {
      MulAtLeast(d, q - q');
    }
  }

  lemma MulMonotone(a: nat, b: nat, c: nat)
    requires a <= b
    ensures a * c <= b * c
  {
    assert b * c == a * c + (b - a) * c;
  }

  lemma MulAtLeast(d: int, k: int)
    requires d > 0 && k >= 1
    ensures d * k >= d
  {
    assert d * k == d * (k - 1) + d;
    assert d * (k - 1) >= 0;
  }

  /** Reading then writing gives the same bytes back. */
  lemma {:induction false} LittleEndianWrites(s: seq<Byte>)
    ensures LittleEndian(FromLittleEndian(s), |s|) == s
    ensures FromLittleEndian(s) < Pow256(|s|)
  {
    if s != [] {
      LittleEndianWrites(s[1..]);
      DivModUnique(FromLittleEndian(s), 256, FromLittleEndian(s[1..]), s[0]);
      assert s == [s[0]] + s[1..];
    }
  }

  /** The low bytes do not depend on how many high bytes are written after them. */
  lemma {:induction false} LittleEndianPrefix(n: nat, w: nat, k: nat)
    requires k <= w
    ensures LittleEndian(n, w)[..k] == LittleEndian(n, k)
  {
    if k != 0 {
      LittleEndianPrefix(n / 256, w - 1, k - 1);
      assert LittleEndian(n, w)[..k] == [n % 256] + LittleEndian(n / 256, w - 1)[..k - 1];
    }
  }

  lemma Pow256Values()
    ensures Pow256(4) == 0x1_0000_0000
    ensures Pow256(8) == 0x1_0000_0000_0000_0000
  {
    assert Pow256(2) == 0x1_0000;
    assert Pow256(3) == 0x100_0000;
    assert Pow256(4) == 0x1_0000_0000;
    assert Pow256(6) == 0x1_0000_0000_0000;
    assert Pow256(7) == 0x100_0000_0000_0000;
  }

  /** `s` with `t` written over it from position `off` on. */
  function Overwrite(s: seq<Byte>, off: nat, t: seq<Byte>): (r: seq<Byte>)
    requires off + |t| <= |s|
    ensures |r| == |s|
  {
    s[..off] + t + s[off + |t|..]
  }

  lemma OverwriteTwice(s: seq<Byte>, off: nat, t: seq<Byte>, u: seq<Byte>)
    requires off + |t| + |u| <= |s|
    ensures Overwrite(Overwrite(s, off, t), off + |t|, u) == Overwrite(s, off, t + u)
  {
  }

  lemma OverwriteNothing(s: seq<Byte>, off: nat)
    requires off <= |s|
    ensures Overwrite(s, off, []) == s
  {
  }

  /** One `memcpy`, `memset` or store through a pointer cast. */
  method Memcpy(a: array<Byte>, off: nat, s: seq<Byte>)
    requires off + |s| <= a.Length
    modifies a
    ensures a[..off] == old(a[..off]) && a[off + |s|..] == old(a[off + |s|..])
    ensures a[..off + |s|] == old(a[..off]) + s
    ensures a[..] == Overwrite(old(a[..]), off, s)
  {
    forall i | 0 <= i < |s| {
      a[off + i] := s[i];
    }
  }
}
