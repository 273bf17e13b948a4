/** The draws of tests/munit/munit.c that advance a state held by the caller. */
module Generator {
  import opened Bits
  import opened Bytes
  import opened Lcg
  import opened Prng

  const WORD_MAX: nat := 0xFFFF_FFFF

  /** The n-th salted draw. */
  function Salted(state: Word, salt: Word, n: nat): Word {
    XorWord(Draw(state, n), salt)
  }

  /** Draws below this are rejected: (2^32 - max) mod max. */
  function Threshold(max: Word): (t: nat)
    requires max > 0
    ensures t < max
  {
    (0x1_0000_0000 - max) % max
  }

  /** How many draws a byte buffer takes. */
  function WordsFor(size: nat): nat {
    size / 4 + if size % 4 == 0 then 0 else 1
  }

  /** Byte j of the buffer filled from the given state. */
  function ByteAt(state: Word, j: nat): Byte {
    Le(Draw(state, j / 4), 4)[j % 4]
  }

  lemma SaltedIs(state: Word, salt: Word, n: nat)
    ensures Salted(state, salt, n) == Xor(Draw(state, n), salt)
  {
  }

  /** The threshold is 2^32 mod max. */
  lemma ThresholdIs(max: Word)
    requires max > 0
    ensures Threshold(max) == 0x1_0000_0000 % max
  {
    var q := (0x1_0000_0000 - max) / max;
    Divided(0x1_0000_0000, q + 1, Threshold(max), max);
  }

  lemma WordsForIs(size: nat)
    ensures WordsFor(size) == (size + 3) / 4
  {
  }

  /** A buffer holds the draws one after another, each with its low byte first. */
  lemma ByteAtIs(state: Word, j: nat)
    ensures var w := Draw(state, j / 4);
      ByteAt(state, j) == [w % 256, w / 256 % 256, w / 0x1_0000 % 256, w / 0x100_0000 % 256][j % 4]
  {
    hide Draw, Le;
    Le4(Draw(state, j / 4));
  }

  lemma SaltedDistinct(state: Word, salt: Word, m: nat, n: nat)
    requires m < n < 0x1_0000_0000
    ensures Salted(state, salt, m) != Salted(state, salt, n)
  {
    hide Draw;
    DrawDistinct(state, m, n);
    XorCancel(Draw(state, m), salt);
    XorCancel(Draw(state, n), salt);
  }

  // ----- Counting the draws of a period

  /** How many of the first n salted draws satisfy p. */
  function DrawCount(state: Word, salt: Word, p: Word -> bool, n: nat): nat {
    if n == 0 then 0
    else DrawCount(state, salt, p, n - 1) + if p(Salted(state, salt, n - 1)) then 1 else 0
  }

  /** The words counted by DrawCount; no two draws coincide. */
  lemma {:induction false} DrawnSet(state: Word, salt: Word, p: Word -> bool, n: nat) returns (drawn: set<nat>)
    requires n <= 0x1_0000_0000
    ensures |drawn| == DrawCount(state, salt, p, n)
    ensures forall v: Word :: v in drawn <==> p(v) && exists i: nat :: i < n && Salted(state, salt, i) == v
    ensures forall v :: v in drawn ==> v < 0x1_0000_0000
  {
    hide Salted;
    if n == 0 {
      drawn := {};
    } else {
      drawn := DrawnSet(state, salt, p, n - 1);
      var last := Salted(state, salt, n - 1);
      forall i: nat | i < n - 1
        ensures Salted(state, salt, i) != last
      {
        SaltedDistinct(state, salt, i, n - 1);
      }
      if p(last) {
        drawn := drawn + {last as nat};
      }
    }
  }

  /** Every word is the salted draw at some position of a period. */
  lemma SaltedReaches(state: Word, salt: Word, word: Word)
    ensures exists i: nat :: i < 0x1_0000_0000 && Salted(state, salt, i) == word
  {
    hide Draw;
    EveryWordDrawn(state, XorWord(word, salt));
    var i: nat :| i < 0x1_0000_0000 && Draw(state, i) == XorWord(word, salt);
    XorCancel(word, salt);
    assert Salted(state, salt, i) == word;
  }

  /** Over one period the draws that satisfy p are the words that satisfy p, each once. */
  lemma PeriodCount(state: Word, salt: Word, p: Word -> bool, words: set<nat>)
    requires forall v: nat :: v in words <==> v < 0x1_0000_0000 && p(v)
    ensures DrawCount(state, salt, p, 0x1_0000_0000) == |words|
  {
    hide Salted, DrawCount;
    var drawn := DrawnSet(state, salt, p, 0x1_0000_0000);
    forall v: nat
      ensures v in drawn <==> v in words
    {
      if v < 0x1_0000_0000 {
        SaltedReaches(state, salt, v);
      }
    }
    assert drawn == words;
  }

  function Below(t: nat): Word -> bool {
    (v: Word) => v < t
  }

  lemma {:induction false} NumbersBelow(t: nat) returns (words: set<nat>)
    ensures |words| == t && forall v: nat :: v in words <==> v < t
  {
    if t == 0 {
      words := {};
    } else {
      words := NumbersBelow(t - 1);
      words := words + {t - 1};
    }
  }

  lemma {:induction false} DrawCountGrows(state: Word, salt: Word, p: Word -> bool, m: nat, n: nat)
    requires m <= n
    ensures DrawCount(state, salt, p, m) <= DrawCount(state, salt, p, n)
    decreases n - m
  {
    hide Salted;
    if m < n {
      DrawCountGrows(state, salt, p, m, n - 1);
    }
  }

  lemma {:induction false} AllCounted(state: Word, salt: Word, p: Word -> bool, n: nat)
    requires forall i: nat :: i < n ==> p(Salted(state, salt, i))
    ensures DrawCount(state, salt, p, n) == n
  {
    hide Salted;
    if n > 0 {
      AllCounted(state, salt, p, n - 1);
    }
  }

  /** Of the draws of one period exactly t are below t. */
  lemma RejectionsExact(state: Word, salt: Word, t: nat)
    requires t <= 0x1_0000_0000
    ensures DrawCount(state, salt, Below(t), 0x1_0000_0000) == t
  {
    hide DrawCount;
    var words := NumbersBelow(t);
    PeriodCount(state, salt, Below(t), words);
  }

  /** So at most t draws in a row are below t. */
  lemma RejectionsBounded(state: Word, salt: Word, n: nat, t: nat)
    requires n <= 0x1_0000_0000 && t <= 0x1_0000_0000
    requires forall i: nat :: i < n ==> Salted(state, salt, i) < t
    ensures n <= t
  {
    hide Salted, DrawCount;
    RejectionsExact(state, salt, t);
    AllCounted(state, salt, Below(t), n);
    DrawCountGrows(state, salt, Below(t), n, 0x1_0000_0000);
  }

  class Generator {
    var state: Word

    /** `munit_rand_state_uint32` */
    method NextWord() returns (r: Word)
      modifies this
      ensures r == Draw(old(state), 0)
      ensures state == Orbit(old(state), 1) == (old(state) * 747796405 + 1729) % 0x1_0000_0000
      ensures var k := old(state) / 0x1000_0000 + 4;
        var p := Xor(Quotient(old(state), Pow2(k)), old(state)) * 277803737 % 0x1_0000_0000;
        Xor(r, p) == p / 0x40_0000
    {
      hide FromState, Xor, Quotient, Pow2;
      var before := state;
      OutputIs(before);
      state := NextState(before);
      r := FromState(before);
    }

    /**
     * `munit_rand_state_at_most`: the first salted draw that is not below the threshold, reduced.
     * A threshold's worth of rejections cannot be exceeded, since a period repeats no draw.
     */
    method AtMost(salt: Word, max: Word) returns (r: Word, ghost rejected: nat)
      requires max > 0
      modifies this
      ensures r <= max
      ensures rejected <= Threshold(max)
      ensures state == Orbit(old(state), rejected + 1)
      ensures max == WORD_MAX ==> rejected == 0 && r == Salted(old(state), salt, 0)
      ensures max < WORD_MAX ==>
        && (forall i: nat :: i < rejected ==> Salted(old(state), salt, i) < Threshold(max))
        && Salted(old(state), salt, rejected) >= Threshold(max)
        && r == Salted(old(state), salt, rejected) % (max + 1)
    {
      hide Draw, Orbit, Xor, XorWord, Quotient, Pow2;
      var min := Threshold(max);
      var start := state;
      rejected := 0;
      var x := NextWord();
      StartOf(start);
      r := XorWord(x, salt);
      if max != WORD_MAX {
        while r < min
          invariant rejected <= min
          invariant forall i: nat :: i < rejected ==> Salted(start, salt, i) < min
          invariant state == Orbit(start, rejected + 1) && r == Salted(start, salt, rejected)
          decreases min - rejected
        {
          rejected := rejected + 1;
          RejectionsBounded(start, salt, rejected, min);
          Continue(start, rejected);
          x := NextWord();
          r := XorWord(x, salt);
        }
        r := r % (max + 1);
      }
    }

    /** `munit_rand_state_memory`: whole words, then the low bytes of one more. */
    method Memory(data: array<Byte>)
      modifies this, data
      ensures forall j :: 0 <= j < data.Length ==> data[j] == ByteAt(old(state), j)
      ensures state == Orbit(old(state), WordsFor(data.Length))
    {
      hide Draw, Orbit, Xor, Quotient, Pow2, Le;
      var start := state;
      var words, rest := data.Length / 4, data.Length % 4;
      var b, n := 0, 0;
      StartOf(start);
      while n < words
        invariant 0 <= n <= words && b == 4 * n
        invariant forall j :: 0 <= j < b ==> data[j] == ByteAt(start, j)
        invariant state == Orbit(start, n)
      {
        Continue(start, n);
        var rv := NextWord();
        Copy(data, b, rv, 4);
        Lanes(start, b);
        b, n := b + 4, n + 1;
      }
      if rest != 0 {
        Continue(start, n);
        var rv := NextWord();
        Copy(data, b, rv, rest);
        Lanes(start, b);
      }
    }
  }

  lemma StartOf(s: Word)
    ensures Orbit(s, 0) == s
  {
  }

  /** One more draw after n of them. */
  lemma Continue(s: Word, n: nat)
    ensures Draw(Orbit(s, n), 0) == Draw(s, n) && Orbit(Orbit(s, n), 1) == Orbit(s, n + 1)
  {
    OrbitAdd(s, n, 1);
  }

  lemma Lanes(s: Word, b: nat)
    requires b % 4 == 0
    ensures forall k :: 0 <= k < 4 ==> ByteAt(s, b + k) == Le(Draw(s, b / 4), 4)[k]
  {
    hide Le, Draw;
  }

  /** `memcpy` of the first bytes of a word. */
  method Copy(data: array<Byte>, at: nat, word: Word, bytes: nat)
    requires bytes <= 4 && at + bytes <= data.Length
    modifies data
    ensures forall j :: 0 <= j < data.Length ==>
      data[j] == if at <= j < at + bytes then Le(word, 4)[j - at] else old(data[j])
  {
    forall k | at <= k < at + bytes {
      data[k] := Le(word, 4)[k - at];
    }
  }
}
