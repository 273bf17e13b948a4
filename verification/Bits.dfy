/** Unsigned machine words as naturals, and the bit operations the C sources apply to them. */
module Bits {

  /** 2^32, the modulus of `uint32_t` and `unsigned` arithmetic. */
  const WORD_MODULUS: nat := 0x1_0000_0000

  type Word = x: nat | x < 0x1_0000_0000

  function Min(a: nat, b: nat): nat {
    if a <= b then a else b
  }

  /** Multiples of 2^32 vanish in 32-bit arithmetic. */
  lemma AddMultiple(x: nat, k: nat)
    ensures (x + 0x1_0000_0000 * k) % 0x1_0000_0000 == x % 0x1_0000_0000
  {
  }

  function Pow2(k: nat): (p: nat)
    ensures p > 0
  {
    if k == 0 then 1 else 2 * Pow2(k - 1)
  }

  lemma Pow2Word()
    ensures Pow2(5) == 32 && Pow2(22) == 0x40_0000
    ensures Pow2(28) == 0x1000_0000 && Pow2(31) == 0x8000_0000 && Pow2(32) == WORD_MODULUS
  {
    assert Pow2(8) == 256;
    assert Pow2(16) == 0x1_0000;
    assert Pow2(24) == 0x100_0000;
  }

  lemma {:induction false} Pow2Add(j: nat, k: nat)
    ensures Pow2(j + k) == Pow2(j) * Pow2(k)
  {
    if j == 0 {
    } else {
      Pow2Add(j - 1, k);
      assert Pow2(j + k) == 2 * (Pow2(j - 1) * Pow2(k)) == (2 * Pow2(j - 1)) * Pow2(k);
    }
  }

  /** The product, as repeated addition. */
  function Times(p: nat, q: int): (r: int)
    ensures q >= 0 ==> r >= 0
  {
    if p == 0 then 0 else Times(p - 1, q) + q
  }

  lemma {:induction false} TimesIsProduct(p: nat, q: int)
    ensures Times(p, q) == p * q
  {
    if p > 0 {
      TimesIsProduct(p - 1, q);
      assert p * q == (p - 1) * q + q;
    }
  }

  lemma {:induction false} TimesDouble(p: nat, q: int)
    ensures Times(2 * p, q) == 2 * Times(p, q)
  {
    if p > 0 {
      TimesDouble(p - 1, q);
    }
  }

  lemma {:induction false} TimesSucc(p: nat, q: int)
    ensures Times(p, q + 1) == Times(p, q) + p
  {
    if p > 0 {
      TimesSucc(p - 1, q);
    }
  }

  /** A multiple other than zero is not small. */
  lemma NonzeroMultiple(d: int, m: nat)
    requires d != 0
    ensures d * m >= m || d * m <= 0 - m
  {
    if d >= 1 {
      assert (d - 1) * m >= 0;
    } else {
      assert (0 - d - 1) * m >= 0;
    }
  }

  /** Quotient and remainder are the only such pair. */
  lemma Divided(x: nat, q: nat, r: nat, m: nat)
    requires r < m && x == q * m + r
    ensures x / m == q && x % m == r
  {
    var d := x / m - q;
    assert d * m == r - x % m;
    if d != 0 {
      NonzeroMultiple(d, m);
    }
  }

  /** `a & b` */
  function And(a: nat, b: nat): nat
    decreases a
  {
    if a == 0 then 0 else (if a % 2 == 1 && b % 2 == 1 then 1 else 0) + 2 * And(a / 2, b / 2)
  }

  /** `a ^ b` */
  function Xor(a: nat, b: nat): nat
    decreases a + b
  {
    if a == 0 && b == 0 then 0
    else (if a % 2 != b % 2 then 1 else 0) + 2 * Xor(a / 2, b / 2)
  }

  /** `a >> s` */
  function Shr(a: nat, s: nat): (r: nat)
    ensures r <= a
  {
    if s == 0 then a else Shr(a / 2, s - 1)
  }

  /** Masking with 2^k - 1 keeps the low bit and masks the rest with 2^(k-1) - 1. */
  lemma MaskStep(a: nat, k: nat)
    requires k > 0
    ensures And(a, Pow2(k) - 1) == a % 2 + 2 * And(a / 2, Pow2(k - 1) - 1)
  {
    assert (Pow2(k) - 1) / 2 == Pow2(k - 1) - 1 && (Pow2(k) - 1) % 2 == 1;
  }

  lemma {:induction false} MaskBound(a: nat, k: nat)
    ensures And(a, Pow2(k) - 1) < Pow2(k)
    decreases k
  {
    if k == 0 {
      AndZero(a);
    } else {
      MaskStep(a, k);
      MaskBound(a / 2, k - 1);
    }
  }

  /** The masked low k bits and the shifted rest make up the number. */
  lemma {:induction false} SplitAt(a: nat, k: nat)
    ensures a == Times(Pow2(k), Shr(a, k)) + And(a, Pow2(k) - 1)
    decreases k
  {
    if k == 0 {
      AndZero(a);
    } else {
      MaskStep(a, k);
      SplitAt(a / 2, k - 1);
      TimesDouble(Pow2(k - 1), Shr(a, k));
    }
  }

  function Quotient(a: nat, m: nat): nat
    requires m > 0
  {
    a / m
  }

  /** Shifting right is division, and masking with 2^k - 1 the remainder. */
  lemma ShiftAndMask(a: nat, k: nat)
    ensures Shr(a, k) == Quotient(a, Pow2(k)) && And(a, Pow2(k) - 1) == a % Pow2(k)
  {
    hide Shr, And, Pow2, Times;
    SplitAt(a, k);
    MaskBound(a, k);
    TimesIsProduct(Pow2(k), Shr(a, k));
    Divided(a, Shr(a, k), And(a, Pow2(k) - 1), Pow2(k));
  }

  /** One more mask bit adds 2^k exactly when bit k of the number is set. */
  lemma {:induction false} MaskOneMore(a: nat, k: nat)
    ensures And(a, Pow2(k + 1) - 1) == And(a, Pow2(k) - 1) + (if Shr(a, k) % 2 == 1 then Pow2(k) else 0)
    decreases k
  {
    MaskStep(a, k + 1);
    if k == 0 {
      AndZero(a);
      AndZero(a / 2);
    } else {
      MaskStep(a, k);
      MaskOneMore(a / 2, k - 1);
    }
  }

  lemma {:induction false} AndZero(a: nat)
    ensures And(a, 0) == 0
  {
    if a != 0 {
      AndZero(a / 2);
    }
  }

  lemma {:induction false} XorComm(a: nat, b: nat)
    ensures Xor(a, b) == Xor(b, a)
    decreases a + b
  {
    if a != 0 || b != 0 {
      XorComm(a / 2, b / 2);
    }
  }

  lemma {:induction false} XorZero(a: nat)
    ensures Xor(a, 0) == a
  {
    if a != 0 {
      XorZero(a / 2);
    }
  }

  lemma {:induction false} XorSelf(a: nat)
    ensures Xor(a, a) == 0
  {
    if a != 0 {
      XorSelf(a / 2);
    }
  }

  /** The low bit and the remaining bits of an exclusive or. */
  lemma XorStep(a: nat, b: nat)
    ensures Xor(a, b) % 2 == (if a % 2 != b % 2 then 1 else 0)
    ensures Xor(a, b) / 2 == Xor(a / 2, b / 2)
  {
  }

  lemma {:induction false} XorAssoc(a: nat, b: nat, c: nat)
    ensures Xor(Xor(a, b), c) == Xor(a, Xor(b, c))
    decreases a + b + c
  {
    if a == 0 && b == 0 {
      XorComm(0, Xor(0, c));
      XorComm(0, c);
      XorZero(c);
    } else if c == 0 && b == 0 {
      XorZero(a);
    } else if a != 0 || c != 0 || b != 0 {
      XorAssoc(a / 2, b / 2, c / 2);
      XorStep(a, b);
      XorStep(b, c);
      XorStep(Xor(a, b), c);
      XorStep(a, Xor(b, c));
    }
  }

  /** Applying the same mask twice undoes it. */
  lemma XorCancel(a: nat, b: nat)
    ensures Xor(Xor(a, b), b) == a
  {
    XorAssoc(a, b, b);
    XorSelf(b);
    XorZero(a);
  }

  lemma {:induction false} XorBound(a: nat, b: nat, k: nat)
    requires a < Pow2(k) && b < Pow2(k)
    ensures Xor(a, b) < Pow2(k)
    decreases k
  {
    if k > 0 {
      XorBound(a / 2, b / 2, k - 1);
    }
  }

  /** Shifting right distributes over exclusive or. */
  lemma {:induction false} ShrXor(a: nat, b: nat, s: nat)
    ensures Shr(Xor(a, b), s) == Xor(Shr(a, s), Shr(b, s))
    decreases s
  {
    if s > 0 {
      XorStep(a, b);
      ShrXor(a / 2, b / 2, s - 1);
    }
  }

  lemma {:induction false} ShrShr(a: nat, s: nat, t: nat)
    ensures Shr(Shr(a, s), t) == Shr(a, s + t)
    decreases s
  {
    if s > 0 {
      ShrShr(a / 2, s - 1, t);
    }
  }

  lemma {:induction false} ShrBound(a: nat, s: nat, k: nat)
    requires a < Pow2(s + k)
    ensures Shr(a, s) < Pow2(k)
    decreases s
  {
    if s > 0 {
      ShrBound(a / 2, s - 1, k);
    }
  }

  function XorWord(a: Word, b: Word): (r: Word)
  {
    Pow2Word();
    XorBound(a, b, 32);
    Xor(a, b)
  }
}
