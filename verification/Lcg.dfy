/** The linear congruential generator of tests/munit/munit.c and its period. */
module Lcg {
  import opened Bits

  /** `munit_rand_next_state` */
  function NextState(state: Word): Word {
    (state * 747796405 + 1729) % 0x1_0000_0000
  }

  /** The state after n draws. */
  function Orbit(state: Word, n: nat): Word {
    if n == 0 then state else NextState(Orbit(state, n - 1))
  }

  /** The recurrence, with the constants of the source. */
  lemma OrbitIs(state: Word, n: nat)
    ensures Orbit(state, 0) == state
    ensures Orbit(state, n + 1) == (Orbit(state, n) * 747796405 + 1729) % 0x1_0000_0000
  {
  }

  lemma {:induction false} OrbitAdd(state: Word, m: nat, n: nat)
    ensures Orbit(state, m + n) == Orbit(Orbit(state, m), n)
  {
    if n > 0 {
      OrbitAdd(state, m, n - 1);
    }
  }

  // ----- The same recurrence without reduction

  function Iter(x: nat, n: nat): nat {
    if n == 0 then x else Iter(x, n - 1) * 747796405 + 1729
  }

  lemma {:induction false} IterAdd(x: nat, m: nat, n: nat)
    ensures Iter(x, m + n) == Iter(Iter(x, m), n)
  {
    if n > 0 {
      IterAdd(x, m, n - 1);
    }
  }

  lemma ModStep(y: nat)
    ensures NextState(y % 0x1_0000_0000) == (y * 747796405 + 1729) % 0x1_0000_0000
  {
    var q, r := y / 0x1_0000_0000, y % 0x1_0000_0000;
    AddMultiple(r * 747796405 + 1729, q * 747796405);
  }

  lemma {:induction false} OrbitIsIter(state: Word, n: nat)
    ensures Orbit(state, n) == Iter(state, n) % 0x1_0000_0000
  {
    if n > 0 {
      OrbitIsIter(state, n - 1);
      ModStep(Iter(state, n - 1));
    }
  }

  // ----- 2^k steps at once

  /** 2^k steps map x to (1 + 4 * 2^k * Alpha(k)) * x + 2^k * (2 * Beta(k) + 1). */
  function Alpha(k: nat): nat {
    if k == 0 then 186949101
    else var a := Alpha(k - 1); a + 2 * Pow2(k - 1) * a * a
  }

  function Beta(k: nat): nat {
    if k == 0 then 864
    else var b := Beta(k - 1); b + Pow2(k - 1) * Alpha(k - 1) * (2 * b + 1)
  }

  /** What 2^k steps add to x, in units of 2^k. */
  function Gain(k: nat, x: nat): nat {
    4 * (Alpha(k) * x) + 2 * Beta(k) + 1
  }

  /** Doubling the number of steps: the algebra. */
  lemma Twice(p: nat, a: nat, b: nat, x: nat)
    ensures var y := x + p * (4 * (a * x) + 2 * b + 1);
      var a', b' := a + 2 * p * a * a, b + p * a * (2 * b + 1);
      y + p * (4 * (a * y) + 2 * b + 1) == x + (2 * p) * (4 * (a' * x) + 2 * b' + 1)
  {
  }

  lemma PowerBase(x: nat)
    ensures Iter(x, Pow2(0)) == x + Times(Pow2(0), Gain(0, x))
  {
    assert Iter(x, 1) == Iter(x, 0) * 747796405 + 1729;
  }

  lemma PowerDouble(k: nat, x: nat)
    ensures var y := x + Times(Pow2(k), Gain(k, x));
      y + Times(Pow2(k), Gain(k, y)) == x + Times(Pow2(k + 1), Gain(k + 1, x))
  {
    hide Gain, Alpha, Beta, Times;
    var g := Gain(k, x);
    var y := x + Times(Pow2(k), g);
    GainDouble(k, x);
    TimesIsProduct(Pow2(k), g);
    TimesIsProduct(Pow2(k), Gain(k, y));
    TimesIsProduct(Pow2(k + 1), Gain(k + 1, x));
  }

  lemma GainDouble(k: nat, x: nat)
    ensures var y := x + Pow2(k) * Gain(k, x);
      y + Pow2(k) * Gain(k, y) == x + Pow2(k + 1) * Gain(k + 1, x)
  {
    Twice(Pow2(k), Alpha(k), Beta(k), x);
  }

  lemma {:induction false} PowerSteps(k: nat, x: nat)
    ensures Iter(x, Pow2(k)) == x + Times(Pow2(k), Gain(k, x))
    decreases k
  {
    hide Gain, Iter, Times;
    if k == 0 {
      PowerBase(x);
    } else {
      var p := Pow2(k - 1);
      IterAdd(x, p, p);
      PowerSteps(k - 1, x);
      PowerSteps(k - 1, Iter(x, p));
      PowerDouble(k - 1, x);
    }
  }

  lemma GainOdd(k: nat, x: nat)
    ensures Gain(k, x) % 2 == 1
  {
    hide Alpha, Beta;
    OddForm(Alpha(k) * x, Beta(k));
  }

  lemma OddForm(a: nat, b: nat)
    ensures (4 * a + 2 * b + 1) % 2 == 1
  {
  }

  lemma {:induction false} Distribute(p: nat, a: int, b: int)
    ensures Times(p, a + b) == Times(p, a) + Times(p, b)
  {
    if p > 0 {
      Distribute(p - 1, a, b);
    }
  }

  lemma {:induction false} MoveTwo(p: nat, a: int)
    ensures Times(p, 2 * a) == Times(2 * p, a)
  {
    if p > 0 {
      MoveTwo(p - 1, a);
    }
  }

  lemma {:induction false} TimesZero(p: nat)
    ensures Times(p, 0) == 0
  {
    if p > 0 {
      TimesZero(p - 1);
    }
  }

  lemma IterZero(x: nat, p: nat)
    ensures Times(p, 0) == 0 && Times(0, p) == 0 && Iter(x, 0) == x
  {
    TimesZero(p);
  }

  lemma OneMore(m: nat, p: nat)
    requires m > 0
    ensures Times(m, p) == Times(m - 1, p) + p
  {
  }

  /** m times p = 2^k steps add p times a number of the same parity as m. */
  lemma {:induction false} PowerMultiple(k: nat, m: nat, x: nat) returns (e: nat)
    ensures Iter(x, Times(m, Pow2(k))) == x + Times(Pow2(k), e) && e % 2 == m % 2
    decreases m
  {
    hide Gain, Pow2, Times, Iter;
    e := 0;
    IterZero(x, Pow2(k));
    if m > 0 {
      var e' := PowerMultiple(k, m - 1, x);
      var y := Iter(x, Times(m - 1, Pow2(k)));
      OneMore(m, Pow2(k));
      IterAdd(x, Times(m - 1, Pow2(k)), Pow2(k));
      PowerSteps(k, y);
      GainOdd(k, y);
      e := e' + Gain(k, y);
      Distribute(Pow2(k), e', Gain(k, y));
    }
  }

  lemma {:induction false} SplitOdd(d: nat) returns (k: nat, m: nat)
    requires d > 0
    ensures m % 2 == 1 && d == Times(m, Pow2(k)) && Pow2(k) <= d
    decreases d
  {
    if d % 2 == 1 {
      k, m := 0, d;
      TimesIsProduct(d, 1);
    } else {
      k, m := SplitOdd(d / 2);
      TimesIsProduct(m, Pow2(k));
      TimesIsProduct(m, Pow2(k + 1));
      MoveTwo(m, Pow2(k));
      k := k + 1;
    }
  }

  lemma {:induction false} Pow2Monotone(j: nat, k: nat)
    requires j <= k
    ensures Pow2(j) <= Pow2(k)
  {
    if j < k {
      Pow2Monotone(j, k - 1);
    }
  }

  lemma Cancel(p: nat, a: int, b: int)
    requires p > 0 && Times(p, a) == Times(p, b)
    ensures a == b
  {
    hide Times;
    TimesIsProduct(p, a);
    TimesIsProduct(p, b);
    if a != b {
      NonzeroMultiple(a - b, p);
    }
  }

  /** An odd multiple of 2^k, k < 32, is not a multiple of 2^32. */
  lemma OddMultiple(k: nat, e: nat, q: int)
    requires k < 32 && e % 2 == 1
    ensures Times(Pow2(k), e) != Times(Pow2(32), q)
  {
    hide Pow2, Times;
    if Times(Pow2(k), e) == Times(Pow2(32), q) {
      var p, h := Pow2(k), Pow2(31 - k);
      Pow2Add(k, 31 - k);
      Pow2Double(31);
      Regroup(p, h, q);
      Cancel(p, e, 2 * Times(h, q));
    }
  }

  lemma Pow2Double(k: nat)
    ensures Pow2(k + 1) == 2 * Pow2(k)
  {
  }

  lemma Regroup(p: nat, h: nat, q: int)
    ensures Times(2 * (p * h), q) == Times(p, 2 * Times(h, q))
  {
    hide Times;
    TimesIsProduct(h, q);
    TimesIsProduct(p, 2 * (h * q));
    TimesIsProduct(2 * (p * h), q);
    assert (2 * (p * h)) * q == p * (2 * (h * q));
  }

  /** No state comes back in fewer than 2^32 steps. */
  lemma NoShorterCycle(t: Word, d: nat)
    requires 0 < d < 0x1_0000_0000
    ensures Orbit(t, d) != t
  {
    hide Orbit, Iter;
    OrbitIsIter(t, d);
    var k, m := SplitOdd(d);
    var e := PowerMultiple(k, m, t);
    Pow2Word();
    if k >= 32 {
      Pow2Monotone(32, k);
    } else if Orbit(t, d) == t {
      var q := Iter(t, d) / 0x1_0000_0000;
      OddMultiple(k, e, q);
      TimesIsProduct(Pow2(32), q);
    }
  }

  /** The states of one period are pairwise different. */
  lemma OrbitDistinct(s: Word, m: nat, n: nat)
    requires m < n < m + 0x1_0000_0000
    ensures Orbit(s, m) != Orbit(s, n)
  {
    hide Orbit;
    OrbitAdd(s, m, n - m);
    NoShorterCycle(Orbit(s, m), n - m);
  }

  lemma ReachBase(x: nat, y: nat)
    ensures y - Iter(x, 0) == Times(Pow2(0), y - x)
  {
  }

  /** Fewer than 2^k steps reach any target in its low k bits. */
  lemma {:induction false} Reach(x: nat, y: nat, k: nat) returns (n: nat, q: int)
    ensures n < Pow2(k) && y - Iter(x, n) == Times(Pow2(k), q)
    decreases k
  {
    hide Gain, Iter, Times;
    if k == 0 {
      n, q := 0, y - x;
      ReachBase(x, y);
    } else {
      n, q := Reach(x, y, k - 1);
      var p, z := Pow2(k - 1), Iter(x, n);
      Pow2Double(k - 1);
      if q % 2 == 0 {
        MoveTwo(p, q / 2);
        q := q / 2;
      } else {
        var g: int := Gain(k - 1, z);
        IterAdd(x, n, p);
        PowerSteps(k - 1, z);
        GainOdd(k - 1, z);
        Distribute(p, q - g, g);
        MoveTwo(p, (q - g) / 2);
        n, q := n + p, (q - g) / 2;
      }
    }
  }

  lemma OrbitReaches(s: Word, y: Word) returns (n: nat)
    ensures n < 0x1_0000_0000 && Orbit(s, n) == y
  {
    hide Orbit, Iter;
    Pow2Word();
    var q: int;
    n, q := Reach(s, y, 32);
    TimesIsProduct(Pow2(32), q);
    OrbitIsIter(s, n);
  }

  /** Full period: from any state every state occurs in the next 2^32, at one position only. */
  lemma FullPeriod(s: Word, y: Word)
    ensures exists n: nat :: n < 0x1_0000_0000 && Orbit(s, n) == y
    ensures forall m: nat, n: nat :: m < n < 0x1_0000_0000 ==> Orbit(s, m) != Orbit(s, n)
    ensures Orbit(s, 0x1_0000_0000) == s
  {
    hide Orbit, Iter, Gain;
    var n := OrbitReaches(s, y);
    forall m: nat, n: nat | m < n < 0x1_0000_0000
      ensures Orbit(s, m) != Orbit(s, n)
    {
      OrbitDistinct(s, m, n);
    }
    OrbitIsIter(s, 0x1_0000_0000);
    Pow2Word();
    PowerSteps(32, s);
    TimesIsProduct(Pow2(32), Gain(32, s));
    AddMultiple(s, Gain(32, s));
  }
}
