/**
 The 64-bit division support of a kernel that cannot link a compiler runtime:
 count-leading-zeros by binary search, a shift-subtract division that finds
 "remainder >= divisor" in a sign bit, and the signed wrappers.
 */
module Arith64 {
  import opened Words
  import opened Bits

  type s64 = x: int | -TWO63 <= x < TWO63

  const S64_MIN: s64 := -TWO63
  const ALL_ONES: u64 := TWO64 - 1

  /** The object representation of a signed value, and the value of a representation. */
  function ToUnsigned(x: s64): u64 {
    if x < 0 then x + TWO64 else x
  }

  function ToSigned(x: u64): s64 {
    if x < TWO63 then x else x - TWO64
  }

  function High32(x: u64): nat {
    x / TWO32
  }

  /** Unsigned subtraction wraps. */
  function WrapSub(x: int, y: int): u64 {
    (x - y) % TWO64
  }

  /** `((s64) x) >> 63` copies the sign bit over the whole word. */
  function SignMask(x: u64): u64 {
    if x >= TWO63 then ALL_ONES else 0
  }

  // ----- count leading zeros -----

  /**
   One narrowing step of the search: a word that has fewer than `2 * w` leading zeros
   (`a >= low`) is shifted left by `w` when it has at least `w` (`a < half`).
   */
  method ClzStep(a: u64, n: nat, w: nat, mask: nat, ghost a0: u64, ghost low: nat, ghost half: nat)
    returns (a': u64, n': nat)
    requires 1 <= w <= 32
    requires half == Pow2(64 - w) && mask == TWO64 - half
    requires low * Pow2(w) == half && half * Pow2(w) == TWO64
    requires a == a0 * Pow2(n) && a >= low
    ensures n <= n' <= n + w
    ensures a' == a0 * Pow2(n') && a' >= half
  {
    var b := if And(a, mask) == 0 then w else 0;
    n' := n + b;
    a' := Shl(a, b);
    HighBitsClear(a, w, mask);
    assert b == w ==> low <= a < half;
    ShiftedWord(a, b, n, w, a0, low, half);
  }

  lemma ShiftedWord(a: u64, b: nat, n: nat, w: nat, a0: u64, low: nat, half: nat)
    requires b == w || b == 0
    requires low * Pow2(w) == half && half * Pow2(w) == TWO64
    requires if b == w then low <= a < half else half <= a
    requires a == a0 * Pow2(n)
    ensures Shl(a, b) == a0 * Pow2(n + b) && Shl(a, b) >= half
  {
    ShiftLeft(a, b, a0, n);
    if b == w {
      NoOverflow(a, low, half, Pow2(w));
      ShlExact(a, b);
    } else {
      assert Pow2(0) == 1;
    }
  }

  lemma ShlExact(x: u64, k: nat)
    requires x * Pow2(k) < TWO64
    ensures Shl(x, k) == x * Pow2(k)
  {
    Times(0, x, Pow2(k));
  }

  lemma HighBitsClear(a: u64, w: nat, mask: nat)
    requires 1 <= w <= 32 && mask == TWO64 - Pow2(64 - w)
    ensures And(a, mask) == 0 <==> a < Pow2(64 - w)
  {
    Pow2Values();
    AndHigh(a, 64 - w, 64, mask);
  }

  lemma ShiftLeft(a: int, b: nat, a0: int, n: nat)
    requires a == a0 * Pow2(n)
    ensures a * Pow2(b) == a0 * Pow2(n + b)
  {
    Pow2Add(n, b);
    MulAssoc(a0, Pow2(n), Pow2(b));
  }

  lemma MulAssoc(x: int, y: int, z: int)
    ensures (x * y) * z == x * (y * z)
  {
  }

  lemma NoOverflow(a: nat, low: nat, half: nat, p: nat)
    requires low <= a < half && p >= 1
    ensures low * p <= a * p < half * p
  {
    Times(low, a, p);
    Times(a + 1, half, p);
  }

  /** The number of leading zero bits of a non-zero word; the C comment leaves zero undefined. */
  method Clz(a: u64) returns (n: nat)
    requires a != 0
    ensures n <= 63
    ensures Pow2(63 - n) <= a < Pow2(64 - n)
  {
    Pow2Values();
    var x: u64;
    assert Pow2(0) == 1;
    x, n := ClzStep(a, 0, 32, 0xffff_ffff_0000_0000, a, 1, TWO32);
    x, n := ClzStep(x, n, 16, 0xffff_0000_0000_0000, a, TWO32, 0x1_0000_0000_0000);
    x, n := ClzStep(x, n, 8, 0xff00_0000_0000_0000, a, 0x1_0000_0000_0000, 0x100_0000_0000_0000);
    x, n := ClzStep(x, n, 4, 0xf000_0000_0000_0000, a, 0x100_0000_0000_0000, 0x1000_0000_0000_0000);
    x, n := ClzStep(x, n, 2, 0xc000_0000_0000_0000, a, 0x1000_0000_0000_0000, 0x4000_0000_0000_0000);
    HighBitsClear(x, 1, TWO63);
    ShiftLeft(x, 1, a, n);
    n := n + if And(x, TWO63) == 0 then 1 else 0;
    ClzBounds(a, n);
  }

  lemma ClzBounds(a: u64, n: nat)
    requires n <= 63 && TWO63 <= a * Pow2(n) < TWO64
    ensures Pow2(63 - n) <= a < Pow2(64 - n)
  {
    assert Pow2(63 - n) * Pow2(n) == TWO63 && Pow2(64 - n) * Pow2(n) == TWO64 by {
      Pow2Values();
      Pow2Add(63 - n, n);
      Pow2Add(64 - n, n);
    }
    LeFromMul(Pow2(63 - n), a, Pow2(n));
    if a >= Pow2(64 - n) {
      Times(Pow2(64 - n), a, Pow2(n));
    }
  }

  // ----- shift-subtract division -----

  /**
   The state of the long division of `a` by `b` with `m` numerator bits still to take: the bits
   already taken divide into `quot` and `rem`; the register `x` holds the remaining bits at its
   top and all but the last quotient bit at its bottom; `wrap` remembers the last quotient bit.
   */
  ghost predicate Dividing(a: u64, b: u64, m: nat, rem: u64, x: u64, wrap: u64, quot: nat) {
    && m <= 63 && 2 <= b
    && rem < b
    && a / Pow2(m) == quot * b + rem
    && (wrap == if quot % 2 == 1 then ALL_ONES else 0)
    && x == (a % Pow2(m)) * Pow2(64 - m) + quot / 2
    && (b > TWO63 ==> m == 0 || (m == 1 && quot == 0 && b <= a))
  }

  /** Bit `m - 1` of the numerator: it moves from the bits left to the bits taken. */
  ghost predicate IsNextBit(a: u64, m: nat, bit: nat)
    requires m >= 1
  {
    && bit <= 1
    && a / Pow2(m - 1) == 2 * (a / Pow2(m)) + bit
    && a % Pow2(m) == bit * Pow2(m - 1) + a % Pow2(m - 1)
  }

  lemma NextBit(a: u64, m: nat) returns (bit: nat)
    requires 1 <= m <= 63
    ensures bit <= 1 && IsNextBit(a, m, bit)
  {
    var p := Pow2(m - 1);
    bit := (a / p) % 2;
    assert Pow2(m) == 2 * p;
    DivMod2(a, p);
  }

  lemma DivMod2(a: nat, p: nat)
    requires p >= 1
    ensures a / (2 * p) == (a / p) / 2
    ensures a % (2 * p) == ((a / p) % 2) * p + a % p
  {
    var q, r := a / p, a % p;
    var h, b := q / 2, q % 2;
    assert a == (2 * h + b) * p + r;
    assert (2 * h + b) * p == h * (2 * p) + b * p;
    Times(b, 1, p);
    Division(a, 2 * p, h, b * p + r);
  }

  /** The top bit of the register is the next numerator bit; shifting it out keeps the rest. */
  lemma ShiftRegister(low: nat, bit: nat, m: nat, h: nat, x: u64)
    requires 1 <= m <= 63 && bit <= 1 && low < Pow2(m - 1) && h < Pow2(64 - m)
    requires x == (bit * Pow2(m - 1) + low) * Pow2(64 - m) + h
    ensures Shr(x, 63) == bit
    ensures Shl(x, 1) == low * Pow2(65 - m) + 2 * h
  {
    hide *;
    Pow2Values();
    Pow2Add(m - 1, 64 - m);
    Pow2Add(1, 64 - m);
    TopBit(low, bit, Pow2(m - 1), Pow2(64 - m), h, x);
    ShiftsByOne(x);
    Doubled(low, Pow2(64 - m), Pow2(65 - m));
  }

  lemma Doubled(x: int, s: int, s2: int)
    requires s2 == 2 * s
    ensures x * s2 == 2 * (x * s)
  {
  }

  lemma ShiftsByOne(x: u64)
    ensures Shr(x, 63) == x / TWO63 && Shl(x, 1) == (2 * x) % TWO64
  {
    Pow2Values();
  }

  lemma TopBit(low: nat, bit: nat, p: nat, s: nat, h: nat, x: u64)
    requires p * s == TWO63 && bit <= 1 && low < p && h < s
    requires x == (bit * p + low) * s + h
    ensures x / TWO63 == bit
    ensures (2 * x) % TWO64 == 2 * (low * s) + 2 * h
  {
    LowPart(low, p, s, h);
    MulAdd(bit * p, low, s);
    MulAssoc(bit, p, s);
    TopBitOf(x, bit, low * s + h);
  }

  lemma LowPart(low: nat, p: nat, s: nat, h: nat)
    requires p * s == TWO63 && low < p && h < s
    ensures 0 <= low * s + h < TWO63
  {
    Times(low + 1, p, s);
    MulAdd(low, 1, s);
    Times(0, low, s);
  }

  lemma TopBitOf(x: u64, bit: nat, rest: nat)
    requires bit <= 1 && rest < TWO63 && x == bit * TWO63 + rest
    ensures x / TWO63 == bit && (2 * x) % TWO64 == 2 * rest
  {
  }

  /** The sign of `b - rem - 1` tells `rem >= b`: the difference never needs more than 63 bits. */
  lemma SignTest(rem: u64, b: u64)
    requires rem < 2 * b
    requires b > TWO63 ==> rem >= b
    ensures SignMask(WrapSub(b - 1, rem)) == if rem >= b then ALL_ONES else 0
  {
  }

  lemma MaskedSubtract(rem: u64, b: u64, wrap: u64)
    requires wrap == if rem >= b then ALL_ONES else 0
    ensures WrapSub(rem, And(b, wrap)) == if rem >= b then rem - b else rem
  {
    AndAll(b);
    hide And;
  }

  lemma AndAll(b: u64)
    ensures And(b, 0) == 0 && And(b, ALL_ONES) == b
  {
    Pow2Values();
    AndOnes(b, 64);
  }

  /** A quotient by a divisor of at least two leaves the register room for its bits. */
  lemma QuotientBound(a: u64, b: u64, m: nat, quot: nat, rem: nat)
    requires m <= 63 && 2 <= b && a / Pow2(m) == quot * b + rem
    ensures a / Pow2(m) < Pow2(64 - m)
    ensures rem < Pow2(64 - m) && 2 * quot < Pow2(64 - m)
  {
    var p, s := Pow2(m), Pow2(64 - m);
    assert s * p == TWO64 by { Pow2Values(); Pow2Add(64 - m, m); }
    QuotientBelow(a, p, s);
    Times(2, b, quot);
    assert quot * b >= 0 by { Times(0, b, quot); }
  }

  /** What one iteration does to the numerator register. */
  lemma RegisterStep(a: u64, b: u64, m: nat, rem: u64, x: u64, wrap: u64, quot: nat, bit: nat)
    returns (x': u64)
    requires m >= 1 && Dividing(a, b, m, rem, x, wrap, quot) && IsNextBit(a, m, bit)
    ensures Shr(x, 63) == bit
    ensures x' == Or(Shl(x, 1), And(wrap, 1)) == (a % Pow2(m - 1)) * Pow2(64 - (m - 1)) + quot
  {
    QuotientBound(a, b, m, quot, rem);
    ShiftRegister(a % Pow2(m - 1), bit, m, quot / 2, x);
    AndOne(wrap);
    ShiftedIsEven(x);
    OrLowBit(Shl(x, 1), quot % 2);
    x' := Shl(x, 1) + quot % 2;
  }

  lemma ShiftedIsEven(x: u64)
    ensures Shl(x, 1) % 2 == 0 && (x < TWO63 ==> Shl(x, 1) == 2 * x)
  {
    assert Pow2(1) == 2;
  }

  /** What one iteration does to the partial remainder, and the quotient bit it finds. */
  lemma RemainderStep(a: u64, b: u64, m: nat, rem: u64, x: u64, wrap: u64, quot: nat, bit: nat)
    returns (rem': u64, wrap': u64)
    requires m >= 1 && Dividing(a, b, m, rem, x, wrap, quot) && IsNextBit(a, m, bit)
    ensures rem' == Or(Shl(rem, 1), bit) == 2 * rem + bit < 2 * b
    ensures wrap' == SignMask(WrapSub(b - 1, rem')) == if rem' >= b then ALL_ONES else 0
    ensures WrapSub(rem', And(b, wrap')) == if rem' >= b then rem' - b else rem'
  {
    hide *;
    DividingRemainder(a, b, m, rem, x, wrap, quot, bit);
    ShiftedIsEven(rem);
    OrLowBit(Shl(rem, 1), bit);
    rem' := 2 * rem + bit;
    SignTest(rem', b);
    wrap' := SignMask(WrapSub(b - 1, rem'));
    MaskedSubtract(rem', b, wrap');
  }

  lemma DividingRemainder(a: u64, b: u64, m: nat, rem: u64, x: u64, wrap: u64, quot: nat, bit: nat)
    requires m >= 1 && Dividing(a, b, m, rem, x, wrap, quot) && IsNextBit(a, m, bit)
    ensures rem < TWO63 && bit <= 1 && 0 <= 2 * rem + bit < TWO64 && 2 * rem + bit < 2 * b && b >= 1
    ensures b > TWO63 ==> 2 * rem + bit >= b
  {
    RemainderFits(a, b, m, quot, rem);
    if b > TWO63 {
      assert Pow2(0) == 1;
    }
  }

  lemma RemainderFits(a: u64, b: u64, m: nat, quot: nat, rem: nat)
    requires 1 <= m <= 63 && 2 <= b && a / Pow2(m) == quot * b + rem
    ensures rem < TWO63
  {
    QuotientBound(a, b, m, quot, rem);
    Pow2Mono(64 - m, 63);
    Pow2Values();
  }

  /** The quotient bit found by the sign test keeps the division identity. */
  lemma QuotientStep(a: u64, b: u64, m: nat, rem: u64, x: u64, wrap: u64, quot: nat, bit: nat, found: bool)
    returns (quot': nat)
    requires m >= 1 && Dividing(a, b, m, rem, x, wrap, quot) && IsNextBit(a, m, bit)
    ensures quot' == 2 * quot + if found then 1 else 0
    ensures a / Pow2(m - 1) == quot' * b + (2 * rem + bit - if found then b else 0)
  {
    quot' := 2 * quot + if found then 1 else 0;
    MulAssoc(2, quot, b);
    MulAdd(2 * quot, if found then 1 else 0, b);
  }

  lemma MulAdd(x: int, y: int, z: int)
    ensures (x + y) * z == x * z + y * z
  {
  }

  /** One iteration of the loop, as a step of the abstract division. */
  lemma DivideStep(a: u64, b: u64, m: nat, rem: u64, x: u64, wrap: u64, quot: nat)
    returns (rem': u64, x': u64, wrap': u64, quot': nat)
    requires m >= 1 && Dividing(a, b, m, rem, x, wrap, quot)
    ensures rem' == Or(Shl(rem, 1), Shr(x, 63))
    ensures x' == Or(Shl(x, 1), And(wrap, 1))
    ensures wrap' == SignMask(WrapSub(b - 1, rem'))
    ensures Dividing(a, b, m - 1, WrapSub(rem', And(b, wrap')), x', wrap', quot')
  {
    hide *;
    DividingBounds(a, b, m, rem, x, wrap, quot);
    var bit := NextBit(a, m);
    x' := RegisterStep(a, b, m, rem, x, wrap, quot, bit);
    rem', wrap' := RemainderStep(a, b, m, rem, x, wrap, quot, bit);
    quot' := QuotientStep(a, b, m, rem, x, wrap, quot, bit, rem' >= b);
    DividingAgain(a, b, m - 1, rem', x', wrap', quot, quot');
  }

  lemma DividingBounds(a: u64, b: u64, m: nat, rem: u64, x: u64, wrap: u64, quot: nat)
    requires m >= 1 && Dividing(a, b, m, rem, x, wrap, quot)
    ensures 2 <= b && m <= 63 && (b > TWO63 ==> m - 1 == 0)
  {
  }

  lemma DividingAgain(a: u64, b: u64, m: nat, rem: u64, x: u64, wrap: u64, quot: nat, quot': nat)
    requires m <= 62 && 2 <= b && rem < 2 * b && (b > TWO63 ==> m == 0)
    requires quot' == 2 * quot + if rem >= b then 1 else 0
    requires a / Pow2(m) == quot' * b + (rem - if rem >= b then b else 0)
    requires x == (a % Pow2(m)) * Pow2(64 - m) + quot
    requires wrap == if rem >= b then ALL_ONES else 0
    ensures Dividing(a, b, m, if rem >= b then rem - b else rem, x, wrap, quot')
  {
  }

  lemma BitCount(a: u64, b: u64, clzA: nat, clzB: nat)
    requires 2 <= b <= a && clzA <= 63 && clzB <= 63
    requires a < Pow2(64 - clzA) && Pow2(63 - clzB) <= b < Pow2(64 - clzB)
    ensures 1 <= clzB - clzA + 1 <= 63
  {
    assert Pow2(1) == 2;
    if clzB < clzA {
      Pow2Mono(64 - clzA, 63 - clzB);
    }
  }

  lemma DivideStart(a: u64, b: u64, bits: nat, clzA: nat, clzB: nat)
    requires 2 <= b <= a && clzA <= 63 && clzB <= 63 && 1 <= bits <= 63 && bits == clzB - clzA + 1
    requires a < Pow2(64 - clzA) && Pow2(63 - clzB) <= b < Pow2(64 - clzB)
    ensures Dividing(a, b, bits, Shr(a, bits), Shl(a, 64 - bits), 0, 0)
  {
    StartRemainder(a, b, bits, clzA, clzB);
    StartRegister(a, bits);
    if b > TWO63 {
      if clzB > 0 {
        Pow2Mono(64 - clzB, 63);
        Pow2Values();
      }
    }
  }

  lemma StartRemainder(a: u64, b: u64, bits: nat, clzA: nat, clzB: nat)
    requires clzA <= 63 && clzB <= 63 && bits == clzB - clzA + 1
    requires a < Pow2(64 - clzA) && Pow2(63 - clzB) <= b
    ensures Shr(a, bits) < b
  {
    var p, h := Pow2(bits), Pow2(63 - clzB);
    assert h * p == Pow2(64 - clzA) by {
      Pow2Add(63 - clzB, bits);
      assert 63 - clzB + bits == 64 - clzA;
    }
    QuotientBelow(a, p, h);
  }

  lemma QuotientBelow(a: nat, p: nat, h: nat)
    requires p >= 1 && a < h * p
    ensures a / p < h
  {
    if a / p >= h {
      Times(h, a / p, p);
    }
  }

  lemma StartRegister(a: u64, bits: nat)
    requires 1 <= bits <= 63
    ensures Shl(a, 64 - bits) == (a % Pow2(bits)) * Pow2(64 - bits)
  {
    hide Pow2;
    var p, s := Pow2(bits), Pow2(64 - bits);
    Pow2Values();
    Pow2Add(bits, 64 - bits);
    ScaledSplit(a, p, s, a / p, a % p);
  }

  lemma ScaledSplit(a: nat, p: nat, s: nat, q: nat, low: nat)
    requires p * s == TWO64 && a == q * p + low && low < p
    ensures a * s % TWO64 == low * s
  {
    assert a * s == q * TWO64 + low * s by {
      MulAdd(q * p, low, s);
      MulAssoc(q, p, s);
    }
    Times(low + 1, p, s);
    MulAdd(low, 1, s);
    Times(0, low, s);
    Division(a * s, TWO64, q, low * s);
  }

  /** The shift-subtract loop. */
  method LongDivide(a: u64, b: u64) returns (q: u64, r: u64)
    requires 2 <= b <= a
    ensures a == q * b + r && r < b
  {
    hide *;
    var clzB := Clz(b);
    var clzA := Clz(a);
    BitCount(a, b, clzA, clzB);
    var bits: int := clzB - clzA + 1;
    DivideStart(a, b, bits, clzA, clzB);
    var rem: u64 := Shr(a, bits);
    var x: u64 := Shl(a, 64 - bits);
    var wrap: u64 := 0;
    ghost var quot: nat := 0;
    while bits > 0
      invariant 0 <= bits
      invariant Dividing(a, b, bits, rem, x, wrap, quot)
    {
      ghost var rem', x', wrap', quot' := DivideStep(a, b, bits, rem, x, wrap, quot);
      bits := bits - 1;
      rem := Or(Shl(rem, 1), Shr(x, 63));
      x := Or(Shl(x, 1), And(wrap, 1));
      wrap := SignMask(WrapSub(b - 1, rem));
      rem := WrapSub(rem, And(b, wrap));
      quot := quot';
    }
    DivideEnd(a, b, rem, x, wrap, quot);
    return Or(Shl(x, 1), And(wrap, 1)), rem;
  }

  lemma DivideEnd(a: u64, b: u64, rem: u64, x: u64, wrap: u64, quot: nat)
    requires Dividing(a, b, 0, rem, x, wrap, quot)
    ensures a == quot * b + rem && rem < b
    ensures Or(Shl(x, 1), And(wrap, 1)) == quot < TWO64
  {
    assert Pow2(0) == 1;
    QuotientBound(a, b, 0, quot, rem);
    assert Pow2(64) == TWO64 by { Pow2Values(); }
    AndOne(wrap);
    ShiftedIsEven(x);
    OrLowBit(Shl(x, 1), quot % 2);
  }

  /**
   The unsigned division: quotient and remainder of any two words with a non-zero divisor
   (a zero divisor traps).
   */
  method DivMod(a: u64, b: u64) returns (q: u64, r: u64)
    requires b != 0
    ensures a == q * b + r && r < b
  {
    if b > a {
      return 0, a;
    }
    if High32(b) == 0 {
      if b == 1 {
        return a, 0;
      }
      if High32(a) == 0 {
        DivBound(a, b);
        return a / b, a % b;
      }
    }
    q, r := LongDivide(a, b);
  }

  // ----- signed wrappers -----

  /** `arith64_neg(a, b)`: invert and increment when `b` is negative. */
  function NegateIf(a: u64, negative: bool): u64 {
    if negative then (ALL_ONES - a + 1) % TWO64 else a
  }

  function Abs(a: s64): u64 {
    NegateIf(ToUnsigned(a), a < 0)
  }

  /** C's division: the quotient truncates toward zero and the remainder takes the numerator's sign. */
  ghost predicate IsTruncatingDivision(a: int, b: int, q: int, r: int) {
    && a == q * b + r
    && (if b < 0 then b < r < -b else -b < r < b)
    && (r == 0 || (r < 0 <==> a < 0))
  }

  lemma TruncatingDivisionUnique(a: int, b: int, q: int, r: int, q': int, r': int)
    requires b != 0 && IsTruncatingDivision(a, b, q, r) && IsTruncatingDivision(a, b, q', r')
    ensures q == q' && r == r'
  {
    var s := if b > 0 then b else -b;
    assert (q - q') * b == r' - r;
    if q > q' {
      Times(1, q - q', s);
    } else if q < q' {
      Times(1, q' - q, s);
    }
  }

  lemma SignsOfDivision(a: int, b: int, q: int, r: int)
    requires b != 0 && q >= 0 && r >= 0
    requires (if a < 0 then -a else a) == q * (if b < 0 then -b else b) + r
    requires r < if b < 0 then -b else b
    ensures IsTruncatingDivision(a, b, if (a < 0) != (b < 0) then -q else q, if a < 0 then -r else r)
  {
    assert (-q) * b == -(q * b) && q * (-b) == -(q * b);
    Times(0, q, if b < 0 then -b else b);
  }

  /** The signed quotient; it is the mathematical one except for the minimum divided by minus one, which wraps. */
  method DivSigned(a: s64, b: s64) returns (q: s64)
    requires b != 0
    ensures a == S64_MIN && b == -1 ==> q == S64_MIN
    ensures !(a == S64_MIN && b == -1) ==> exists r :: IsTruncatingDivision(a, b, q, r)
  {
    hide *;
    AbsPositive(b);
    var uq, ur := DivMod(Abs(a), Abs(b));
    q := ToSigned(NegateIf(uq, (a < 0) != (b < 0)));
    SignedQuotient(a, b, uq, ur);
  }

  lemma AbsPositive(b: s64)
    ensures b != 0 ==> Abs(b) != 0
    ensures Abs(b) as int == if b < 0 then -(b as int) else b
  {
  }

  lemma SignedQuotient(a: s64, b: s64, uq: u64, ur: u64)
    requires b != 0 && Abs(a) == uq * Abs(b) + ur && ur < Abs(b)
    ensures var q := ToSigned(NegateIf(uq, (a < 0) != (b < 0)));
      if a == S64_MIN && b == -1 then q == S64_MIN else exists r :: IsTruncatingDivision(a, b, q, r)
  {
    hide Abs, IsTruncatingDivision;
    AbsPositive(a);
    AbsPositive(b);
    SignsOfDivision(a, b, uq, ur);
    SignedQuotientFits(a, b, uq, ur);
    if !(a == S64_MIN && b == -1) {
      var q, r := if (a < 0) != (b < 0) then -(uq as int) else uq, if a < 0 then -(ur as int) else ur;
      assert IsTruncatingDivision(a, b, q, r);
      assert ToSigned(NegateIf(uq, (a < 0) != (b < 0))) == q;
    }
  }

  lemma SignedQuotientFits(a: s64, b: s64, q: u64, r: u64)
    requires b != 0 && Abs(a) == q * Abs(b) + r && r < Abs(b)
    ensures q <= TWO63
    ensures q == TWO63 && (a < 0) == (b < 0) ==> a == S64_MIN && b == -1
    ensures a == S64_MIN && b == -1 ==> q == TWO63
  {
    Times(1, Abs(b), q);
    if q == TWO63 && Abs(b) >= 2 {
      Times(2, Abs(b), q);
    }
  }

  /** The signed remainder, for every numerator and every non-zero divisor. */
  method ModSigned(a: s64, b: s64) returns (r: s64)
    requires b != 0
    ensures exists q :: IsTruncatingDivision(a, b, q, r)
  {
    hide *;
    AbsPositive(b);
    var uq, ur := DivMod(Abs(a), Abs(b));
    r := ToSigned(NegateIf(ur, a < 0));
    SignedRemainder(a, b, uq, ur, r);
  }

  lemma SignedRemainder(a: s64, b: s64, uq: u64, ur: u64, r: s64)
    requires b != 0 && Abs(a) == uq * Abs(b) + ur && ur < Abs(b) && r == ToSigned(NegateIf(ur, a < 0))
    ensures exists q :: IsTruncatingDivision(a, b, q, r)
  {
    hide Abs, IsTruncatingDivision;
    AbsPositive(a);
    AbsPositive(b);
    SignsOfDivision(a, b, uq, ur);
    assert r as int == if a < 0 then -(ur as int) else ur;
    assert IsTruncatingDivision(a, b, if (a < 0) != (b < 0) then -(uq as int) else uq, r);
  }
}
