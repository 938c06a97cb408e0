/** The C operators on 64-bit words, bit by bit. */
module Bits {
  import opened Words

  function Pow2(k: nat): (p: nat)
    ensures p >= 1
  {
    if k == 0 then 1 else 2 * Pow2(k - 1)
  }

  /** The operator `&`, bit by bit. */
  function And(x: nat, y: nat): nat {
    if x == 0 || y == 0 then 0 else 2 * And(x / 2, y / 2) + (x % 2) * (y % 2)
  }

  /** The operator `|`, bit by bit. */
  function Or(x: nat, y: nat): nat
    decreases x + y
  {
    if x == 0 && y == 0 then 0
    else 2 * Or(x / 2, y / 2) + (if x % 2 == 1 || y % 2 == 1 then 1 else 0)
  }

  /** `x << k` on 64 bits. */
  function Shl(x: u64, k: nat): u64 {
    (x * Pow2(k)) % TWO64
  }

  /** `x >> k` on an unsigned value. */
  function Shr(x: u64, k: nat): u64 {
    DivBound(x, Pow2(k));
    x / Pow2(k)
  }

  lemma {:induction false} Pow2Add(i: nat, j: nat)
    ensures Pow2(i + j) == Pow2(i) * Pow2(j)
  {
    if i > 0 {
      Pow2Add(i - 1, j);
    }
  }

  lemma {:induction false} Pow2Mono(i: nat, j: nat)
    requires i <= j
    ensures Pow2(i) <= Pow2(j)
    decreases j
  {
    if i < j {
      Pow2Mono(i, j - 1);
    }
  }

  /** The powers of two that the 64-bit code writes as constants. */
  lemma Pow2Values()
    ensures Pow2(1) == 2 && Pow2(2) == 4 && Pow2(4) == 0x10 && Pow2(8) == 0x100
    ensures Pow2(16) == 0x1_0000 && Pow2(32) == TWO32
    ensures Pow2(48) == 0x1_0000_0000_0000 && Pow2(56) == 0x100_0000_0000_0000
    ensures Pow2(60) == 0x1000_0000_0000_0000 && Pow2(62) == 0x4000_0000_0000_0000
    ensures Pow2(63) == TWO63 && Pow2(64) == TWO64
  {
    Pow2Is(0, 1, 1, 2);
    Pow2Is(1, 1, 2, 2);
    Pow2Is(2, 2, 4, 4);
    Pow2Is(4, 4, 16, 16);
    Pow2Is(8, 8, 0x100, 0x100);
    Pow2Is(16, 16, 0x1_0000, 0x1_0000);
    Pow2Is(32, 16, TWO32, 0x1_0000);
    Pow2Is(48, 8, 0x1_0000_0000_0000, 0x100);
    Pow2Is(56, 4, 0x100_0000_0000_0000, 0x10);
    Pow2Is(60, 2, 0x1000_0000_0000_0000, 4);
    Pow2Is(62, 1, 0x4000_0000_0000_0000, 2);
    Pow2Is(63, 1, TWO63, 2);
  }

  lemma Pow2Is(i: nat, j: nat, x: nat, y: nat)
    requires Pow2(i) == x && Pow2(j) == y
    ensures Pow2(i + j) == x * y
  {
    Pow2Add(i, j);
  }

  /** `2x | b` sets the low bit. */
  lemma {:induction false} OrLowBit(x: nat, b: nat)
    requires x % 2 == 0 && b <= 1
    ensures Or(x, b) == x + b
  {
    OrZero(x / 2);
  }

  lemma {:induction false} OrZero(x: nat)
    ensures Or(x, 0) == x
  {
    if x > 0 {
      OrZero(x / 2);
    }
  }

  /** `x & 1` is the parity. */
  lemma AndOne(x: nat)
    ensures And(x, 1) == x % 2
  {
    if x > 0 {
      assert And(x / 2, 0) == 0;
    }
  }

  /** A mask of `k` ones keeps every value of `k` bits. */
  lemma {:induction false} AndOnes(x: nat, k: nat)
    requires x < Pow2(k)
    ensures And(x, Pow2(k) - 1) == x
  {
    if x > 0 && k > 0 {
      AndOnes(x / 2, k - 1);
      assert (Pow2(k) - 1) / 2 == Pow2(k - 1) - 1;
    }
  }

  /** Masking with the bits from `k` upwards gives zero exactly on values below `2^k`. */
  lemma {:induction false} AndHigh(x: nat, k: nat, n: nat, mask: nat)
    requires x < Pow2(n) && k <= n && mask == Pow2(n) - Pow2(k)
    ensures And(x, mask) == 0 <==> x < Pow2(k)
  {
    Pow2Mono(k, n);
    if k == 0 {
      AndOnes(x, n);
    } else if x > 0 && k < n {
      AndHigh(x / 2, k - 1, n - 1, mask / 2);
      assert (Pow2(n) - Pow2(k)) / 2 == Pow2(n - 1) - Pow2(k - 1);
      assert (Pow2(n) - Pow2(k)) % 2 == 0;
      Pow2Mono(k + 1, n);
    }
  }
}
