/** How evenly the bounded draws of tests/munit/munit.c are spread. */
module Bias {
  import opened Bits
  import opened Generator

  /** How many of the n numbers from lo on have remainder r modulo m. */
  function Hits(lo: nat, n: nat, m: nat, r: nat): nat
    requires m > 0
  {
    if n == 0 then 0 else Hits(lo, n - 1, m, r) + if (lo + n - 1) % m == r then 1 else 0
  }

  /** How far above a, going round modulo m, the remainder r is. */
  function Distance(a: nat, r: nat, m: nat): nat
    requires a < m && r < m
  {
    if r >= a then r - a else r + m - a
  }

  lemma NextRemainder(x: nat, m: nat)
    requires m > 0
    ensures (x + 1) % m == if x % m == m - 1 then 0 else x % m + 1
  {
    var q, r := x / m, x % m;
    if r == m - 1 {
      Divided(x + 1, q + 1, 0, m);
    } else {
      Divided(x + 1, q, r + 1, m);
    }
  }

  lemma {:induction false} ShiftedRemainder(lo: nat, n: nat, m: nat)
    requires n < m
    ensures var a := lo % m; (lo + n) % m == if a + n < m then a + n else a + n - m
  {
    if n > 0 {
      ShiftedRemainder(lo, n - 1, m);
      NextRemainder(lo + n - 1, m);
    }
  }

  /** In a window of at most m numbers a remainder occurs at most once. */
  lemma {:induction false} ShortWindow(lo: nat, n: nat, m: nat, r: nat)
    requires n <= m && r < m
    ensures Hits(lo, n, m, r) == if Distance(lo % m, r, m) < n then 1 else 0
  {
    if n > 0 {
      ShortWindow(lo, n - 1, m, r);
      ShiftedRemainder(lo, n - 1, m);
    }
  }

  lemma {:induction false} HitsAdd(lo: nat, n: nat, n': nat, m: nat, r: nat)
    requires m > 0
    ensures Hits(lo, n + n', m, r) == Hits(lo, n, m, r) + Hits(lo + n, n', m, r)
    decreases n'
  {
    if n' > 0 {
      HitsAdd(lo, n, n' - 1, m, r);
    }
  }

  /** Any window: one hit per full round, and one more in the first t places. */
  lemma {:induction false} LongWindow(lo: nat, q: nat, t: nat, m: nat, r: nat)
    requires t < m && r < m
    ensures Hits(lo, Times(q, m) + t, m, r) == q + if Distance(lo % m, r, m) < t then 1 else 0
    decreases q
  {
    hide Hits, Distance;
    if q == 0 {
      ShortWindow(lo, t, m, r);
    } else {
      HitsAdd(lo, m, Times(q - 1, m) + t, m, r);
      ShortWindow(lo, m, m, r);
      RoundEnd(lo, m, r);
      LongWindow(lo + m, q - 1, t, m, r);
    }
  }

  lemma RoundEnd(lo: nat, m: nat, r: nat)
    requires r < m
    ensures (lo + m) % m == lo % m && Distance(lo % m, r, m) < m
  {
    Divided(lo + m, lo / m + 1, lo % m, m);
  }

  /** All remainders modulo m occur equally often among the n numbers from lo on. */
  ghost predicate Spread(lo: nat, n: nat, m: nat)
    requires m > 0
  {
    forall r :: 0 <= r < m ==> Hits(lo, n, m, r) == Hits(lo, n, m, 0)
  }

  lemma SpreadIff(lo: nat, q: nat, t: nat, m: nat)
    requires t < m
    ensures Spread(lo, Times(q, m) + t, m) <==> t == 0
  {
    hide Hits, Distance, Times;
    var n, a := Times(q, m) + t, lo % m;
    forall r | 0 <= r < m
      ensures Hits(lo, n, m, r) == q + if Distance(a, r, m) < t then 1 else 0
    {
      LongWindow(lo, q, t, m, r);
    }
    var last := if a == 0 then m - 1 else a - 1;
    Ends(a, m);
    assert t > 0 ==> Hits(lo, n, m, a) != Hits(lo, n, m, last);
  }

  lemma SpreadDivides(lo: nat, n: nat, m: nat)
    requires m > 0
    ensures Spread(lo, n, m) <==> n % m == 0
  {
    TimesIsProduct(n / m, m);
    SpreadIff(lo, n / m, n % m, m);
  }

  lemma Ends(a: nat, m: nat)
    requires a < m
    ensures Distance(a, a, m) == 0 && Distance(a, if a == 0 then m - 1 else a - 1, m) == m - 1
  {
  }

  // ----- The draws of one period

  /** The least accepted word; with the largest bound every word is accepted. */
  function Floor(max: Word): (t: nat)
    requires 0 < max
    ensures t < max
  {
    if max == WORD_MAX then 0 else Threshold(max)
  }

  lemma FloorIs(max: Word)
    requires 0 < max
    ensures Floor(max) == if max == 0xFFFF_FFFF then 0 else 0x1_0000_0000 % max
  {
    ThresholdIs(max);
  }

  /** Whether a salted word is accepted and gives the result r. */
  predicate Gives(max: Word, word: Word, r: nat)
    requires 0 < max
  {
    word >= Floor(max) && word % (max + 1) == r
  }

  /** Acceptance and result as a bounded draw has them. */
  lemma GivesIs(max: Word, word: Word, r: nat)
    requires 0 < max
    ensures max == 0xFFFF_FFFF ==> (Gives(max, word, r) <==> word == r)
    ensures max < 0xFFFF_FFFF ==> (Gives(max, word, r) <==> word >= 0x1_0000_0000 % max && word % (max + 1) == r)
  {
    hide Floor;
    FloorIs(max);
  }

  /** How many of the draws of a period are accepted and give the result r. */
  function Frequency(state: Word, salt: Word, max: Word, r: nat): nat
    requires 0 < max
  {
    DrawCount(state, salt, Giving(max, r), 0x1_0000_0000)
  }

  function Giving(max: Word, r: nat): Word -> bool
    requires 0 < max
  {
    (word: Word) => Gives(max, word, r)
  }

  /** The numbers counted by Hits. */
  lemma {:induction false} HitSet(lo: nat, n: nat, m: nat, r: nat) returns (hits: set<nat>)
    requires m > 0
    ensures |hits| == Hits(lo, n, m, r)
    ensures forall v :: v in hits <==> lo <= v < lo + n && v % m == r
  {
    if n == 0 {
      hits := {};
    } else {
      hits := HitSet(lo, n - 1, m, r);
      if (lo + n - 1) % m == r {
        hits := hits + {lo + n - 1};
      }
    }
  }

  /** Over one period the accepted draws are the words from the floor on, each once. */
  lemma PeriodFrequency(state: Word, salt: Word, max: Word, r: nat)
    requires 0 < max
    ensures Frequency(state, salt, max, r) == Hits(Floor(max), 0x1_0000_0000 - Floor(max), max + 1, r)
  {
    hide DrawCount, Hits, Floor;
    var hits := HitSet(Floor(max), 0x1_0000_0000 - Floor(max), max + 1, r);
    PeriodCount(state, salt, Giving(max, r), hits);
  }

  /** Over a period from the given state every result is as frequent as 0. */
  ghost predicate Uniform(state: Word, salt: Word, max: Word)
    requires 0 < max
  {
    forall r :: 0 <= r <= max ==>
      Frequency(state, salt, max, r) == Frequency(state, salt, max, 0)
  }

  /**
   * Over a period the results 0 to max are equally frequent exactly when max + 1 divides the number
   * of accepted words. The threshold, taken before `max` is incremented, makes max divide it instead.
   */
  lemma UniformIff(state: Word, salt: Word, max: Word)
    requires 0 < max
    ensures Uniform(state, salt, max) <==>
      (max == 0xFFFF_FFFF || (0x1_0000_0000 - 0x1_0000_0000 % max) % (max + 1) == 0)
  {
    hide Hits, Frequency, Floor;
    var lo, m := Floor(max), max + 1;
    var n := 0x1_0000_0000 - lo;
    SpreadDivides(lo, n, m);
    FloorIs(max);
    PeriodFrequency(state, salt, max, 0);
    forall r | 0 <= r <= max
      ensures Frequency(state, salt, max, r) == Hits(lo, n, m, r)
    {
      PeriodFrequency(state, salt, max, r);
    }
    if Uniform(state, salt, max) {
      assert Spread(lo, n, m);
    }
    if Spread(lo, n, m) {
      assert Uniform(state, salt, max);
    }
  }

  /** Bounded by 2, the three results are not equally frequent; bounded by 1, the two are. */
  lemma BiasedByTwo(state: Word, salt: Word)
    ensures !Uniform(state, salt, 2) && Uniform(state, salt, 1)
  {
    hide Uniform;
    UniformIff(state, salt, 2);
    UniformIff(state, salt, 1);
  }
}
