/** Unsigned machine words as bounded integers, and the few facts about products and quotients that every module needs. */
module Words {

  const TWO32 := 0x1_0000_0000
  const TWO63 := 0x8000_0000_0000_0000
  const TWO64 := 0x1_0000_0000_0000_0000

  type byte = x: int | 0 <= x < 0x100
  type u16 = x: int | 0 <= x < 0x1_0000
  type u32 = x: int | 0 <= x < TWO32
  type u64 = x: int | 0 <= x < TWO64

  lemma Times(x: int, y: int, z: nat)
    requires x <= y
    ensures x * z <= y * z
  {
  }

  lemma TimesBack(x: int, y: int, z: nat)
    requires x * z < y * z
    ensures x < y
  {
    if x >= y {
      Times(y, x, z);
    }
  }

  /** Quotient and remainder are unique. */
  lemma Division(a: nat, d: nat, q: nat, r: nat)
    requires d >= 1 && a == q * d + r && r < d
    ensures a / d == q && a % d == r
  {
    var q', r' := a / d, a % d;
    assert a == q' * d + r';
    if q' > q {
      Times(q + 1, q', d);
    } else if q' < q {
      Times(q' + 1, q, d);
    }
  }

  lemma LeFromMul(x: int, y: int, z: nat)
    requires z > 0 && x * z <= y * z
    ensures x <= y
  {
    if x > y {
      Times(y + 1, x, z);
    }
  }

  lemma DivBound(x: nat, d: nat)
    requires d >= 1
    ensures 0 <= x / d <= x
  {
    if x / d > x {
      assert d * (x / d) >= x / d by { Times(1, d, x / d); }
    }
  }
}
