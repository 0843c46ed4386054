/** Machine words as bit sequences, least significant bit first, with the C operators on them. */
module Bits {
  import opened Bytes

  type Bits = seq<bool>

  /** A C `int` and a `uint16_t`. */
  type CInt = b: Bits | |b| == 32 witness seq(32, _ => false)
  type Word = b: Bits | |b| == 16 witness seq(16, _ => false)

  function Or(a: CInt, b: CInt): CInt { seq(32, i requires 0 <= i < 32 => a[i] || b[i]) }

  function And(a: CInt, b: CInt): CInt { seq(32, i requires 0 <= i < 32 => a[i] && b[i]) }

  function Xor(a: CInt, b: CInt): CInt { seq(32, i requires 0 <= i < 32 => a[i] != b[i]) }

  function Not(a: CInt): CInt { seq(32, i requires 0 <= i < 32 => !a[i]) }

  function Shl(a: CInt, k: nat): CInt { seq(32, i requires 0 <= i < 32 => i >= k && a[i - k]) }

  /** Promotion of a `uint16_t`, and conversion back to it. */
  function Widen(w: Word): CInt { seq(32, i requires 0 <= i < 32 => i < 16 && w[i]) }

  function Cut(a: CInt): Word { a[..16] }

  function One(): CInt { seq(32, i => i == 0) }

  // ---------------------------------------------------------------- numbers

  function Pow2(k: nat): (p: nat)
    ensures p >= 1
  {
    if k == 0 then 1 else 2 * Pow2(k - 1)
  }

  /** Bit `k` of a number in two's complement. */
  predicate TestBit(n: int, k: nat)
  {
    (n / Pow2(k)) % 2 == 1
  }

  function ToBits(n: int): CInt
  {
    seq(32, i requires 0 <= i < 32 => TestBit(n, i))
  }

  function Number(b: Bits): nat
  {
    if b == [] then 0 else (if b[0] then 1 else 0) + 2 * Number(b[1..])
  }

  /** 0 and 1 have one significant bit. */
  lemma BoolBits(x: int)
    requires 0 <= x <= 1
    ensures ToBits(x)[0] == (x == 1)
    ensures forall i :: 0 < i < 32 ==> !ToBits(x)[i]
  {
    forall i | 0 < i < 32
      ensures !TestBit(x, i)
    {
      assert Pow2(i) >= 2;
      DivModUnique(x, Pow2(i), 0, x);
    }
    assert Pow2(0) == 1;
    DivModUnique(x, 1, x, 0);
  }

  lemma DivideStep(n: nat, k: nat)
    ensures n / Pow2(k + 1) == (n / 2) / Pow2(k)
  {
    var p := Pow2(k);
    var q, r := n / 2 / p, (n / 2) % p;
    assert n / 2 == p * q + r;
    var low := 2 * r + n % 2;
    assert n == 2 * (p * q + r) + n % 2;
    assert 2 * (p * q) == (2 * p) * q;
    assert 0 <= low < 2 * p;
    DivModUnique(n, 2 * p, q, low);
  }

  /** The low `k` bits of `n` make up `n` modulo 2^k. */
  lemma {:induction false} NumberOfBits(n: nat, k: nat, b: Bits)
    requires |b| == k && forall i :: 0 <= i < k ==> b[i] == TestBit(n, i)
    ensures Number(b) == n % Pow2(k)
  {
    if k > 0 {
      forall i | 0 <= i < k - 1
        ensures b[1..][i] == TestBit(n / 2, i)
      {
        DivideStep(n, i);
      }
      NumberOfBits(n / 2, k - 1, b[1..]);
      assert Pow2(0) == 1 && n / 1 == n;
      assert b[0] == (n % 2 == 1);
      ModStep(n, Pow2(k - 1));
    }
  }

  lemma ModStep(n: nat, p: nat)
    requires p >= 1
    ensures n % (2 * p) == n % 2 + 2 * ((n / 2) % p)
  {
    var q, r := n / 2 / p, (n / 2) % p;
    assert n / 2 == p * q + r;
    var low := 2 * r + n % 2;
    assert n == 2 * (p * q + r) + n % 2;
    assert 2 * (p * q) == (2 * p) * q;
    assert 0 <= low < 2 * p;
    DivModUnique(n, 2 * p, q, low);
  }
}
