/** The random words of tests/munit/munit.c: the output permutation and the draws of a period. */
module Prng {
  import opened Bits
  import opened Lcg

  // ----- x ^ (x >> s) and its inverse

  function XorShift(x: nat, s: nat): nat {
    Xor(Shr(x, s), x)
  }

  lemma {:induction false} ShrSmaller(x: nat, s: nat)
    requires x > 0 && s > 0
    ensures Shr(x, s) < x
  {
    assert Shr(x, s) == Shr(x / 2, s - 1) <= x / 2;
  }

  /** The solution x of x ^ (x >> s) == y, from the high bits down. */
  function UnXorShift(y: nat, s: nat): nat
    requires s > 0
    decreases y
  {
    if y == 0 then 0
    else
      ShrSmaller(y, s);
      Xor(UnXorShift(Shr(y, s), s), y)
  }

  lemma {:induction false} ShrZero(s: nat)
    ensures Shr(0, s) == 0
  {
    if s > 0 {
      ShrZero(s - 1);
    }
  }

  /** Xor(Xor(a, b), Xor(b, c)) and similar: the shared operand cancels. */
  lemma CancelLeft(a: nat, b: nat)
    ensures Xor(b, Xor(b, a)) == a && Xor(b, Xor(a, b)) == a && Xor(Xor(b, a), b) == a
  {
    XorCancel(a, b);
    XorComm(a, b);
    XorComm(b, Xor(a, b));
  }

  lemma {:induction false} UnXorShiftLeft(x: nat, s: nat)
    requires s > 0
    ensures UnXorShift(XorShift(x, s), s) == x
    decreases x
  {
    hide Xor, Shr;
    var y, h := XorShift(x, s), Shr(x, s);
    CancelLeft(x, h);
    if x == 0 {
      ShrZero(s);
      XorZero(0);
    } else {
      ShrSmaller(x, s);
      ShrXor(h, x, s);
      UnXorShiftLeft(h, s);
      XorZero(h);
    }
  }

  lemma {:induction false} UnXorShiftRight(y: nat, s: nat)
    requires s > 0
    ensures XorShift(UnXorShift(y, s), s) == y
    decreases y
  {
    hide Xor, Shr;
    if y == 0 {
      ShrZero(s);
      XorZero(0);
    } else {
      var g := Shr(y, s);
      ShrSmaller(y, s);
      var u := UnXorShift(g, s);
      UnXorShiftRight(g, s);
      ShrXor(u, y, s);
      CancelLeft(u, Shr(u, s));
      CancelLeft(y, u);
    }
  }

  lemma {:induction false} UnXorShiftBound(y: nat, s: nat, k: nat)
    requires s > 0 && y < Pow2(k)
    ensures UnXorShift(y, s) < Pow2(k)
    decreases y
  {
    if y > 0 {
      ShrSmaller(y, s);
      UnXorShiftBound(Shr(y, s), s, k);
      XorBound(UnXorShift(Shr(y, s), s), y, k);
    }
  }

  // ----- The output permutation

  function ScrambleShift(state: Word): (s: nat)
    ensures s > 0
  {
    Shr(state, 28) + 4
  }

  function Fold(x: Word, s: nat): (r: Word) {
    ShrXorWord(x, s);
    XorShift(x, s)
  }

  lemma ShrXorWord(x: Word, s: nat)
    ensures XorShift(x, s) < WORD_MODULUS
  {
    Pow2Word();
    XorBound(Shr(x, s), x, 32);
  }

  function Unfold(y: Word, s: nat): (r: Word)
    requires s > 0
  {
    Pow2Word();
    UnXorShiftBound(y, s, 32);
    UnXorShift(y, s)
  }

  function Scale(x: Word): Word {
    x * 277803737 % 0x1_0000_0000
  }

  function Unscale(x: Word): Word {
    x * 2897767785 % 0x1_0000_0000
  }

  /** `munit_rand_from_state` */
  function FromState(state: Word): Word {
    Fold(Scale(Fold(state, ScrambleShift(state))), 22)
  }

  lemma FoldIs(x: Word, s: nat)
    ensures Fold(x, s) == Xor(Quotient(x, Pow2(s)), x) && Xor(Fold(x, s), x) == Quotient(x, Pow2(s))
  {
    hide Xor, Shr, Pow2, Quotient;
    ShiftAndMask(x, s);
    XorCancel(Shr(x, s), x);
  }

  lemma ScrambleShiftIs(state: Word)
    ensures ScrambleShift(state) == state / 0x1000_0000 + 4
  {
    hide Shr, Pow2;
    Pow2Word();
    ShiftAndMask(state, 28);
  }

  /** The output in plain arithmetic: the state is folded by its top four bits plus four, multiplied,
      and folded by 22. */
  lemma OutputIs(state: Word)
    ensures var k := state / 0x1000_0000 + 4;
      var p := Xor(Quotient(state, Pow2(k)), state) * 277803737 % 0x1_0000_0000;
      Xor(FromState(state), p) == p / 0x40_0000
  {
    hide Xor, Pow2, Fold, ScrambleShift, Scale;
    Pow2Word();
    var f := Fold(state, ScrambleShift(state));
    ScrambleShiftIs(state);
    FoldIs(state, ScrambleShift(state));
    FoldIs(Scale(f), 22);
    ScaleIs(f);
  }

  lemma ScaleIs(x: Word)
    ensures Scale(x) == x * 277803737 % 0x1_0000_0000
  {
  }

  /** The state that `munit_rand_from_state` turns into the given value. */
  function ToState(value: Word): Word {
    var folded := Unscale(Unfold(value, 22));
    Unfold(folded, ScrambleShift(folded))
  }

  /** The two multipliers are inverse modulo 2^32. */
  lemma MultiplyBack(x: Word)
    ensures Unscale(Scale(x)) == x
    ensures Scale(Unscale(x)) == x
  {
    BackAgain(x, 277803737, 2897767785, 187431164);
    BackAgain(x, 2897767785, 277803737, 187431164);
  }

  lemma BackAgain(x: Word, a: nat, b: nat, c: nat)
    requires a * b == 1 + 0x1_0000_0000 * c
    ensures ((x * a) % 0x1_0000_0000) * b % 0x1_0000_0000 == x
  {
    var y, q := x * a % 0x1_0000_0000, x * a / 0x1_0000_0000;
    Products(x, a, b, c, q);
    SameWord(x, y * b, x * c - q * b);
  }

  lemma Products(x: int, a: int, b: int, c: int, q: int)
    requires a * b == 1 + 0x1_0000_0000 * c
    ensures (x * a - 0x1_0000_0000 * q) * b == x + 0x1_0000_0000 * (x * c - q * b)
  {
    calc {
      (x * a - 0x1_0000_0000 * q) * b;
      x * (a * b) - 0x1_0000_0000 * (q * b);
      x * (1 + 0x1_0000_0000 * c) - 0x1_0000_0000 * (q * b);
      x + 0x1_0000_0000 * (x * c - q * b);
    }
  }

  lemma SameWord(x: Word, n: nat, t: int)
    requires n == x + 0x1_0000_0000 * t
    ensures n % 0x1_0000_0000 == x
  {
  }

  lemma {:induction false} ShrToZero(x: nat, s: nat)
    requires x < Pow2(s)
    ensures Shr(x, s) == 0
  {
    if s > 0 {
      ShrToZero(x / 2, s - 1);
    }
  }

  /** Folding by at least four bits keeps the top four bits, so the shift can be read back. */
  lemma FoldKeepsShift(x: Word)
    ensures ScrambleShift(Fold(x, ScrambleShift(x))) == ScrambleShift(x)
  {
    hide Xor, Shr, Pow2;
    var s := ScrambleShift(x);
    Pow2Word();
    TopCleared(x, s);
    ShrXor(Shr(x, s), x, 28);
    XorComm(0, Shr(x, 28));
    XorZero(Shr(x, 28));
  }

  /** Shifting by s >= 4 leaves fewer than 28 bits. */
  lemma TopCleared(x: Word, s: nat)
    requires s >= 4
    ensures Shr(x, s) < Pow2(28) && Shr(Shr(x, s), 28) == 0
  {
    hide Xor, Shr, Pow2;
    Pow2Word();
    ShrShr(x, 4, s - 4);
    assert Pow2(4 + 28) == Pow2(32);
    ShrBound(x, 4, 28);
    ShrToZero(Shr(x, s), 28);
  }

  lemma UnfoldKeepsShift(y: Word)
    ensures ScrambleShift(Unfold(y, ScrambleShift(y))) == ScrambleShift(y)
  {
    hide Xor, Shr, Pow2;
    var s := ScrambleShift(y);
    Pow2Word();
    if y > 0 {
      TopCleared(y, s);
      var u := UnXorShift(Shr(y, s), s);
      UnXorShiftBound(Shr(y, s), s, 28);
      ShrToZero(u, 28);
      ShrXor(u, y, 28);
      XorComm(0, Shr(y, 28));
      XorZero(Shr(y, 28));
    }
  }

  /** The output function is a bijection on words, with ToState as its inverse. */
  lemma OutputBijection(state: Word, value: Word)
    ensures ToState(FromState(state)) == state
    ensures FromState(ToState(value)) == value
  {
    hide Shr, UnXorShift, XorShift;
    ToFrom(state);
    FromTo(value);
  }

  lemma ToFrom(state: Word)
    ensures ToState(FromState(state)) == state
  {
    hide ScrambleShift, UnXorShift, XorShift, Scale, Unscale;
    var f := Fold(state, ScrambleShift(state));
    MultiplyBack(f);
    UnXorShiftLeft(Scale(f), 22);
    FoldKeepsShift(state);
    UnXorShiftLeft(state, ScrambleShift(state));
  }

  lemma FromTo(value: Word)
    ensures FromState(ToState(value)) == value
  {
    hide ScrambleShift, UnXorShift, XorShift, Scale, Unscale;
    var u := Unfold(value, 22);
    var f := Unscale(u);
    MultiplyBack(u);
    UnXorShiftRight(value, 22);
    UnfoldKeepsShift(f);
    UnXorShiftRight(f, ScrambleShift(f));
  }

  // ----- Draws

  /** The n-th value drawn from the given state. */
  function Draw(state: Word, n: nat): Word {
    FromState(Orbit(state, n))
  }

  /** A draw is the output of the state it is made from, and the next draw is one from the next state. */
  lemma DrawIs(state: Word, n: nat)
    ensures var x := Orbit(state, n);
      var p := Xor(Quotient(x, Pow2(x / 0x1000_0000 + 4)), x) * 277803737 % 0x1_0000_0000;
      Xor(Draw(state, n), p) == p / 0x40_0000
    ensures Draw(state, n + 1) == Draw((state * 747796405 + 1729) % 0x1_0000_0000, n)
  {
    hide FromState;
    OutputIs(Orbit(state, n));
    OrbitAdd(state, 1, n);
    OrbitIs(state, 0);
  }

  lemma DrawDistinct(s: Word, m: nat, n: nat)
    requires m < n < m + 0x1_0000_0000
    ensures Draw(s, m) != Draw(s, n)
  {
    hide FromState, ToState;
    OrbitDistinct(s, m, n);
    ToFrom(Orbit(s, m));
    ToFrom(Orbit(s, n));
  }

  /** Every word is among the draws of a period. */
  lemma EveryWordDrawn(s: Word, value: Word)
    ensures exists n: nat :: n < 0x1_0000_0000 && Draw(s, n) == value
  {
    hide FromState, ToState;
    FromTo(value);
    var n := OrbitReaches(s, ToState(value));
    assert Draw(s, n) == value;
  }

  /** 2^32 consecutive draws produce every word exactly once. */
  lemma EveryWordOnce(s: Word, value: Word)
    ensures exists n: nat :: n < 0x1_0000_0000 && Draw(s, n) == value
    ensures forall m: nat, n: nat :: m < n < 0x1_0000_0000 ==> Draw(s, m) != Draw(s, n)
  {
    hide Draw;
    EveryWordDrawn(s, value);
    forall m: nat, n: nat | m < n < 0x1_0000_0000
      ensures Draw(s, m) != Draw(s, n)
    {
      DrawDistinct(s, m, n);
    }
  }
}
