/** Unsigned machine words as natural numbers: shifts and bitwise operators defined bit by
    bit, with the 64-bit wrap-around written out. */
module Words {

  const U64: nat := 0x1_0000_0000_0000_0000

  /** Two numbers below 2^63 add without wrapping. */
  const I64_LIMIT: nat := 0x8000_0000_0000_0000

  /** `a + b` on u64 in a release build: wraps. */
  function WrapAdd(a: nat, b: nat): nat {
    (a + b) % U64
  }

  function SaturatingSub(a: nat, b: nat): nat {
    if a < b then 0 else a - b
  }

  /** `x` followed by `n` zero bits. */
  function Scale(x: nat, n: nat): nat {
    if n == 0 then x else 2 * Scale(x, n - 1)
  }

  function Pow2(n: nat): nat {
    Scale(1, n)
  }

  /** `x << n` on u64, for n < 64: bits pushed past bit 63 are lost. */
  function Shl(x: nat, n: nat): nat {
    Scale(x, n) % U64
  }

  function Shr(x: nat, n: nat): nat {
    if n == 0 then x else Shr(x / 2, n - 1)
  }

  function Or(a: nat, b: nat): nat
    decreases a + b
  {
    if a == 0 && b == 0 then 0
    else 2 * Or(a / 2, b / 2) + (if a % 2 == 1 || b % 2 == 1 then 1 else 0)
  }

  function And(a: nat, b: nat): nat
    decreases a + b
  {
    if a == 0 && b == 0 then 0
    else 2 * And(a / 2, b / 2) + (if a % 2 == 1 && b % 2 == 1 then 1 else 0)
  }

  lemma {:induction false} Pow2Positive(n: nat)
    ensures Pow2(n) >= 1
  {
    if n > 0 {
      Pow2Positive(n - 1);
    }
  }

  /** `(1 << n) - 1`. */
  function Mask(n: nat): nat {
    Pow2Positive(n);
    Pow2(n) - 1
  }

  /** Shifting is multiplying by a power of two. */
  lemma {:induction false} ScaleIsProduct(x: nat, n: nat)
    ensures Scale(x, n) == x * Pow2(n)
  {
    if n > 0 {
      ScaleIsProduct(x, n - 1);
      assert x * (2 * Pow2(n - 1)) == 2 * (x * Pow2(n - 1));
    }
  }

  lemma {:induction false} ScaleScale(x: nat, m: nat, n: nat)
    ensures Scale(x, m + n) == Scale(Scale(x, m), n)
  {
    if n > 0 {
      ScaleScale(x, m, n - 1);
      assert Scale(x, m + n) == 2 * Scale(x, m + (n - 1));
    }
  }

  lemma {:induction false} ScaleSum(a: nat, b: nat, n: nat)
    ensures Scale(a + b, n) == Scale(a, n) + Scale(b, n)
  {
    if n > 0 {
      ScaleSum(a, b, n - 1);
    }
  }

  lemma {:induction false} ScaleZero(n: nat)
    ensures Scale(0, n) == 0
  {
    if n > 0 {
      ScaleZero(n - 1);
    }
  }

  lemma {:induction false} ScaleMonotone(a: nat, b: nat, n: nat)
    requires a < b
    ensures Scale(a, n) + Pow2(n) <= Scale(b, n)
  {
    ScaleSum(a, 1, n);
    ScaleSum(a + 1, b - a - 1, n);
  }

  /** A value below 2^m followed by n bits is below 2^(m+n). */
  lemma {:induction false} AppendBound(x: nat, m: nat, low: nat, n: nat)
    requires x < Pow2(m) && low < Pow2(n)
    ensures Scale(x, n) + low < Pow2(m + n)
  {
    ScaleMonotone(x, Pow2(m), n);
    ScaleScale(1, m, n);
  }

  lemma {:induction false} ScaleByHalfWord(x: nat)
    ensures Scale(x, 16) == 0x1_0000 * x
  {
    ScaleScale(x, 8, 8);
    ScaleScale(x, 4, 4);
    ScaleScale(Scale(x, 8), 4, 4);
    assert forall y: nat :: Scale(y, 4) == 16 * y by {
      forall y: nat
        ensures Scale(y, 4) == 16 * y
      {
        assert Scale(y, 1) == 2 * y;
        assert Scale(y, 2) == 4 * y;
        assert Scale(y, 3) == 8 * y;
      }
    }
  }

  lemma {:induction false} Pow2Word()
    ensures Pow2(64) == U64
  {
    ScaleByHalfWord(1);
    ScaleScale(1, 16, 16);
    ScaleByHalfWord(Pow2(16));
    ScaleScale(1, 32, 16);
    ScaleByHalfWord(Pow2(32));
    ScaleScale(1, 48, 16);
    ScaleByHalfWord(Pow2(48));
  }

  lemma {:induction false} OrZero(a: nat)
    ensures Or(a, 0) == a
  {
    if a > 0 {
      OrZero(a / 2);
    }
  }

  /** An or of fields that do not overlap is a sum. */
  lemma {:induction false} OrDisjoint(a: nat, b: nat, n: nat)
    requires b < Pow2(n)
    ensures Or(Scale(a, n), b) == Scale(a, n) + b
  {
    if n == 0 {
      OrZero(a);
    } else {
      OrDisjoint(a, b / 2, n - 1);
    }
  }

  lemma {:induction false} AndZero(x: nat)
    ensures And(x, 0) == 0
  {
    if x > 0 {
      AndZero(x / 2);
    }
  }

  lemma {:induction false} AndMaskBound(x: nat, n: nat)
    ensures And(x, Mask(n)) <= Mask(n)
  {
    if n == 0 {
      AndZero(x);
    } else {
      AndMaskBound(x / 2, n - 1);
      assert Mask(n) / 2 == Mask(n - 1) && Mask(n) % 2 == 1;
    }
  }

  /** Masking keeps exactly the low `n` bits. */
  lemma {:induction false} AndMaskLow(hi: nat, low: nat, n: nat)
    requires low < Pow2(n)
    ensures And(Scale(hi, n) + low, Mask(n)) == low
  {
    if n == 0 {
      AndZero(hi);
    } else {
      AndMaskLow(hi, low / 2, n - 1);
      assert Mask(n) / 2 == Mask(n - 1) && Mask(n) % 2 == 1;
      assert (Scale(hi, n) + low) / 2 == Scale(hi, n - 1) + low / 2;
    }
  }

  /** Shifting right drops exactly the low `n` bits. */
  lemma {:induction false} ShrDropsLow(hi: nat, low: nat, n: nat)
    requires low < Pow2(n)
    ensures Shr(Scale(hi, n) + low, n) == hi
  {
    if n > 0 {
      ShrDropsLow(hi, low / 2, n - 1);
      assert (Scale(hi, n) + low) / 2 == Scale(hi, n - 1) + low / 2;
    }
  }

  lemma {:induction false} ShrShr(x: nat, m: nat, n: nat)
    ensures Shr(x, n + m) == Shr(Shr(x, n), m)
  {
    if n > 0 {
      ShrShr(x / 2, m, n - 1);
    }
  }

  /** A shifted field that still fits the word loses nothing. */
  lemma {:induction false} ShlFits(x: nat, n: nat, k: nat)
    requires n + k == 64 && x < Pow2(k)
    ensures Shl(x, n) == Scale(x, n) < U64
  {
    Pow2Positive(n);
    AppendBound(x, k, 0, n);
    Pow2Word();
  }

  // Or and and, bit by bit

  lemma {:induction false} OrCommutes(a: nat, b: nat)
    ensures Or(a, b) == Or(b, a)
    decreases a + b
  {
    if a != 0 || b != 0 {
      OrCommutes(a / 2, b / 2);
    }
  }

  lemma {:induction false} OrAssociates(a: nat, b: nat, c: nat)
    ensures Or(Or(a, b), c) == Or(a, Or(b, c))
    decreases a + b + c
  {
    if a != 0 || b != 0 || c != 0 {
      OrAssociates(a / 2, b / 2, c / 2);
      assert Or(a, b) / 2 == Or(a / 2, b / 2) && Or(b, c) / 2 == Or(b / 2, c / 2);
    }
  }

  lemma {:induction false} AndDistributes(a: nat, b: nat, m: nat)
    ensures And(Or(a, b), m) == Or(And(a, m), And(b, m))
    decreases a + b + m
  {
    if a != 0 || b != 0 || m != 0 {
      AndDistributes(a / 2, b / 2, m / 2);
      assert Or(a, b) / 2 == Or(a / 2, b / 2);
      assert And(a, m) / 2 == And(a / 2, m / 2) && And(b, m) / 2 == And(b / 2, m / 2);
    }
  }

  lemma {:induction false} OrBound(a: nat, b: nat, n: nat)
    requires a < Pow2(n) && b < Pow2(n)
    ensures Or(a, b) < Pow2(n)
  {
    if n > 0 {
      OrBound(a / 2, b / 2, n - 1);
    } else {
      assert Or(0, 0) == 0;
    }
  }

  lemma {:induction false} OrScales(a: nat, b: nat, n: nat)
    ensures Or(Scale(a, n), Scale(b, n)) == Scale(Or(a, b), n)
  {
    if n > 0 {
      OrScales(a, b, n - 1);
    }
  }

  lemma {:induction false} MaskHalves(n: nat)
    requires n > 0
    ensures Mask(n) == 2 * Mask(n - 1) + 1
  {
  }

  lemma {:induction false} AndScales(x: nat, m: nat, n: nat)
    ensures And(Scale(x, n), Mask(m + n)) == Scale(And(x, Mask(m)), n)
  {
    if n > 0 {
      AndScales(x, m, n - 1);
      MaskHalves(m + n);
    }
  }

  /** Bits at or above the mask's width do not matter. */
  lemma {:induction false} AndIgnoresHigh(hi: nat, low: nat, n: nat, m: nat)
    requires m <= n
    ensures And(Scale(hi, n) + low, Mask(m)) == And(low, Mask(m))
  {
    if m == 0 {
      AndZero(Scale(hi, n) + low);
      AndZero(low);
    } else {
      AndIgnoresHigh(hi, low / 2, n - 1, m - 1);
      MaskHalves(m);
      assert (Scale(hi, n) + low) / 2 == Scale(hi, n - 1) + low / 2;
    }
  }

  /** So neither do the bits a shift pushes past the word. */
  lemma {:induction false} AndOfShl(x: nat, n: nat, m: nat)
    requires m <= 64
    ensures And(Shl(x, n), Mask(m)) == And(Scale(x, n), Mask(m))
  {
    var y := Scale(x, n);
    Pow2Word();
    ScaleIsProduct(y / U64, 64);
    AndIgnoresHigh(y / U64, y % U64, 64, m);
  }

  /** Oring into a word whose high bits are all set changes its low bits only. */
  lemma {:induction false} OrOnes(y: nat, high: nat, low: nat)
    requires y < Pow2(high + low)
    ensures Or(Scale(Mask(high), low), y) == Scale(Mask(high), low) + And(y, Mask(low))
    decreases high + low
  {
    if low > 0 {
      OrOnes(y / 2, high, low - 1);
      MaskHalves(low);
      assert Scale(Mask(high), low) / 2 == Scale(Mask(high), low - 1);
    } else if high > 0 {
      OrOnes(y / 2, high - 1, 0);
      MaskHalves(high);
      AndZero(y);
      AndZero(y / 2);
    } else {
      AndZero(y);
    }
  }
}
