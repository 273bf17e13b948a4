/** The bottom-up mergesort behind `HASH_SRT`, as a function on sequences. */
module MergeSort {
  import opened Bits

  /** Merging prefers the left run on ties. */
  ghost function Merge<T>(le: (T, T) -> bool, p: seq<T>, q: seq<T>): seq<T>
    decreases |p| + |q|
  {
    if p == [] then q
    else if q == [] then p
    else if le(p[0], q[0]) then [p[0]] + Merge(le, p[1..], q)
    else [q[0]] + Merge(le, p, q[1..])
  }

  /** One pass merges neighbouring runs of length k. */
  ghost function Pass<T>(le: (T, T) -> bool, s: seq<T>, k: nat): seq<T>
    requires k > 0
    decreases |s|
  {
    if s == [] then []
    else
      var a, b := Min(k, |s|), Min(2 * k, |s|);
      Merge(le, s[..a], s[a..b]) + Pass(le, s[b..], k)
  }

  /** Passes over runs of doubling length, until one merge covers the whole list. */
  ghost function SortFrom<T>(le: (T, T) -> bool, s: seq<T>, k: nat): seq<T>
    requires k > 0
    decreases |s| - k
  {
    var r := Pass(le, s, k);
    PassPermutes(le, s, k);
    if |s| <= 2 * k then r else SortFrom(le, r, 2 * k)
  }

  // ----- Permutation

  lemma {:induction false} MergePermutes<T>(le: (T, T) -> bool, p: seq<T>, q: seq<T>)
    ensures multiset(Merge(le, p, q)) == multiset(p) + multiset(q)
    ensures |Merge(le, p, q)| == |p| + |q|
    decreases |p| + |q|
  {
    if p == [] || q == [] {
    } else if le(p[0], q[0]) {
      MergePermutes(le, p[1..], q);
      Front(p[0], Merge(le, p[1..], q));
      FrontOf(p);
    } else {
      MergePermutes(le, p, q[1..]);
      Front(q[0], Merge(le, p, q[1..]));
      FrontOf(q);
    }
  }

  lemma Front<T>(x: T, r: seq<T>)
    ensures multiset([x] + r) == multiset{x} + multiset(r)
  {
  }

  lemma FrontOf<T>(s: seq<T>)
    requires s != []
    ensures multiset(s) == multiset{s[0]} + multiset(s[1..])
  {
    assert s == [s[0]] + s[1..];
  }

  lemma {:induction false} PassPermutes<T>(le: (T, T) -> bool, s: seq<T>, k: nat)
    requires k > 0
    ensures multiset(Pass(le, s, k)) == multiset(s) && |Pass(le, s, k)| == |s|
    decreases |s|
  {
    hide Merge;
    if s != [] {
      var a, b := Min(k, |s|), Min(2 * k, |s|);
      MergePermutes(le, s[..a], s[a..b]);
      PassPermutes(le, s[b..], k);
      assert s == s[..a] + s[a..b] + s[b..];
    }
  }

  lemma {:induction false} SortPermutes<T>(le: (T, T) -> bool, s: seq<T>, k: nat)
    requires k > 0
    ensures multiset(SortFrom(le, s, k)) == multiset(s) && |SortFrom(le, s, k)| == |s|
    decreases |s| - k
  {
    PassPermutes(le, s, k);
    if |s| > 2 * k {
      SortPermutes(le, Pass(le, s, k), 2 * k);
    }
  }

  // ----- Order

  /** le is total and transitive on the given elements. */
  ghost predicate Preorder<T>(le: (T, T) -> bool, all: set<T>) {
    && (forall x, y :: x in all && y in all ==> le(x, y) || le(y, x))
    && (forall x, y, z :: x in all && y in all && z in all && le(x, y) && le(y, z) ==> le(x, z))
  }

  ghost predicate Sorted<T>(le: (T, T) -> bool, s: seq<T>) {
    forall i, j :: 0 <= i < j < |s| ==> le(s[i], s[j])
  }

  ghost predicate Over<T>(s: seq<T>, all: set<T>) {
    forall x :: x in s ==> x in all
  }

  lemma {:induction false} MergeMember<T>(le: (T, T) -> bool, p: seq<T>, q: seq<T>, x: T)
    ensures x in Merge(le, p, q) <==> x in p || x in q
  {
    MergePermutes(le, p, q);
    assert x in multiset(Merge(le, p, q)) <==> x in multiset(p) || x in multiset(q);
  }

  lemma SortedCons<T>(le: (T, T) -> bool, f: T, m: seq<T>)
    requires Sorted(le, m) && forall x :: x in m ==> le(f, x)
    ensures Sorted(le, [f] + m)
  {
  }

  /** In a sorted run the first element is below all. */
  lemma HeadBelow<T>(le: (T, T) -> bool, s: seq<T>, all: set<T>, x: T)
    requires Preorder(le, all) && Over(s, all) && Sorted(le, s) && x in s
    ensures le(s[0], x)
  {
    assert le(s[0], s[0]);
  }

  lemma {:induction false} MergeSorts<T>(le: (T, T) -> bool, p: seq<T>, q: seq<T>, all: set<T>)
    requires Preorder(le, all) && Over(p, all) && Over(q, all) && Sorted(le, p) && Sorted(le, q)
    ensures Sorted(le, Merge(le, p, q))
    decreases |p| + |q|
  {
    if p == [] || q == [] {
    } else if le(p[0], q[0]) {
      MergeSorts(le, p[1..], q, all);
      forall x | x in Merge(le, p[1..], q)
        ensures le(p[0], x)
      {
        MergeMember(le, p[1..], q, x);
        if x in p {
          HeadBelow(le, p, all, x);
        } else {
          HeadBelow(le, q, all, x);
        }
      }
      SortedCons(le, p[0], Merge(le, p[1..], q));
    } else {
      MergeSorts(le, p, q[1..], all);
      forall x | x in Merge(le, p, q[1..])
        ensures le(q[0], x)
      {
        MergeMember(le, p, q[1..], x);
        if x in q {
          HeadBelow(le, q, all, x);
        } else {
          HeadBelow(le, p, all, x);
        }
      }
      SortedCons(le, q[0], Merge(le, p, q[1..]));
    }
  }

  /** Every run of length k, and the shorter last one, is sorted. */
  ghost predicate RunsSorted<T>(le: (T, T) -> bool, s: seq<T>, k: nat)
    requires k > 0
    decreases |s|
  {
    if |s| <= k then Sorted(le, s) else Sorted(le, s[..k]) && RunsSorted(le, s[k..], k)
  }

  lemma {:induction false} PassSorts<T>(le: (T, T) -> bool, s: seq<T>, k: nat, all: set<T>)
    requires k > 0 && Preorder(le, all) && Over(s, all) && RunsSorted(le, s, k)
    ensures RunsSorted(le, Pass(le, s, k), 2 * k)
    decreases |s|
  {
    if s != [] {
      var a, b := Min(k, |s|), Min(2 * k, |s|);
      var m, rest := Merge(le, s[..a], s[a..b]), Pass(le, s[b..], k);
      RunsOf(le, s, k);
      MergeSorts(le, s[..a], s[a..b], all);
      MergePermutes(le, s[..a], s[a..b]);
      PassPermutes(le, s[b..], k);
      PassSorts(le, s[b..], k, all);
      if |s| <= 2 * k {
        assert rest == [] && m + rest == m;
      } else {
        assert (m + rest)[..2 * k] == m && (m + rest)[2 * k..] == rest;
      }
    }
  }

  lemma NothingSorted<T>(le: (T, T) -> bool, k: nat)
    requires k > 0
    ensures Sorted(le, []) && RunsSorted(le, [], k)
  {
  }

  /** The two runs a pass starts with, and the runs behind them, are sorted. */
  lemma RunsOf<T>(le: (T, T) -> bool, s: seq<T>, k: nat)
    requires k > 0 && s != [] && RunsSorted(le, s, k)
    ensures var a, b := Min(k, |s|), Min(2 * k, |s|);
      Sorted(le, s[..a]) && Sorted(le, s[a..b]) && RunsSorted(le, s[b..], k)
  {
    hide Sorted, RunsSorted;
    NothingSorted(le, k);
    if |s| <= k {
      assert s[|s|..|s|] == [] && s[|s|..] == [];
      LastRun(le, s, k);
    } else {
      FirstRun(le, s, k);
      var t := s[k..];
      if |s| <= 2 * k {
        assert s[k..|s|] == t && s[|s|..] == [];
        LastRun(le, t, k);
      } else {
        FirstRun(le, t, k);
        assert t[..k] == s[k..2 * k] && t[k..] == s[2 * k..];
      }
    }
  }

  lemma LastRun<T>(le: (T, T) -> bool, s: seq<T>, k: nat)
    requires k > 0 && |s| <= k && RunsSorted(le, s, k)
    ensures Sorted(le, s) && s[..|s|] == s
  {
    hide Sorted;
  }

  lemma FirstRun<T>(le: (T, T) -> bool, s: seq<T>, k: nat)
    requires k > 0 && |s| > k && RunsSorted(le, s, k)
    ensures Sorted(le, s[..k]) && RunsSorted(le, s[k..], k)
  {
    hide Sorted;
  }

  lemma {:induction false} SortSorts<T>(le: (T, T) -> bool, s: seq<T>, k: nat, all: set<T>)
    requires k > 0 && Preorder(le, all) && Over(s, all) && RunsSorted(le, s, k)
    ensures Sorted(le, SortFrom(le, s, k))
    decreases |s| - k
  {
    var r := Pass(le, s, k);
    PassSorts(le, s, k, all);
    PassPermutes(le, s, k);
    if |s| > 2 * k {
      forall x | x in r
        ensures x in all
      {
        assert x in multiset(r);
      }
      SortSorts(le, r, 2 * k, all);
    }
  }

  lemma {:induction false} SingletonRuns<T>(le: (T, T) -> bool, s: seq<T>)
    ensures RunsSorted(le, s, 1)
    decreases |s|
  {
    if |s| > 1 {
      SingletonRuns(le, s[1..]);
    }
  }

  // ----- Stability

  ghost predicate Equiv<T>(le: (T, T) -> bool, g: T, x: T) {
    le(g, x) && le(x, g)
  }

  /** The elements that compare equal to g, in order. */
  ghost function Class<T>(le: (T, T) -> bool, g: T, s: seq<T>): seq<T> {
    if s == [] then []
    else if Equiv(le, g, s[0]) then [s[0]] + Class(le, g, s[1..])
    else Class(le, g, s[1..])
  }

  lemma {:induction false} ClassConcat<T>(le: (T, T) -> bool, g: T, s: seq<T>, t: seq<T>)
    ensures Class(le, g, s + t) == Class(le, g, s) + Class(le, g, t)
  {
    if s == [] {
      assert s + t == t;
    } else {
      ClassConcat(le, g, s[1..], t);
      assert (s + t)[1..] == s[1..] + t;
    }
  }

  lemma {:induction false} ClassEmpty<T>(le: (T, T) -> bool, g: T, s: seq<T>)
    requires forall x :: x in s ==> !Equiv(le, g, x)
    ensures Class(le, g, s) == []
  {
    if s != [] {
      ClassEmpty(le, g, s[1..]);
    }
  }

  lemma {:induction false} MergeStable<T>(le: (T, T) -> bool, p: seq<T>, q: seq<T>, g: T, all: set<T>)
    requires Preorder(le, all) && Over(p, all) && Over(q, all) && g in all && Sorted(le, p)
    ensures Class(le, g, Merge(le, p, q)) == Class(le, g, p) + Class(le, g, q)
    decreases |p| + |q|
  {
    if p == [] || q == [] {
    } else if le(p[0], q[0]) {
      MergeStable(le, p[1..], q, g, all);
      assert ([p[0]] + Merge(le, p[1..], q))[1..] == Merge(le, p[1..], q);
    } else {
      MergeStable(le, p, q[1..], g, all);
      assert ([q[0]] + Merge(le, p, q[1..]))[1..] == Merge(le, p, q[1..]);
      if Equiv(le, g, q[0]) {
        forall x | x in p
          ensures !Equiv(le, g, x)
        {
          HeadBelow(le, p, all, x);
          if Equiv(le, g, x) {
            Through(le, p[0], x, g, q[0], all);
          }
        }
        ClassEmpty(le, g, p);
      }
    }
  }

  /** What is below some member of a class is below every member. */
  lemma Through<T>(le: (T, T) -> bool, f: T, x: T, g: T, y: T, all: set<T>)
    requires Preorder(le, all) && f in all && x in all && g in all && y in all
    requires le(f, x) && Equiv(le, g, x) && Equiv(le, g, y)
    ensures le(f, y)
  {
    assert le(f, g);
  }

  lemma {:induction false} PassStable<T>(le: (T, T) -> bool, s: seq<T>, k: nat, g: T, all: set<T>)
    requires k > 0 && Preorder(le, all) && Over(s, all) && g in all && RunsSorted(le, s, k)
    ensures Class(le, g, Pass(le, s, k)) == Class(le, g, s)
    decreases |s|
  {
    hide Class, Merge, RunsSorted, Preorder, Sorted;
    if s != [] {
      var a, b := Min(k, |s|), Min(2 * k, |s|);
      RunsOf(le, s, k);
      MergeStable(le, s[..a], s[a..b], g, all);
      PassStable(le, s[b..], k, g, all);
      ClassConcat(le, g, s[..a], s[a..b]);
      assert s[..a] + s[a..b] == s[..b] && s[..b] + s[b..] == s;
      ClassConcat(le, g, s[..b], s[b..]);
      ClassConcat(le, g, Merge(le, s[..a], s[a..b]), Pass(le, s[b..], k));
    }
  }

  lemma {:induction false} SortStable<T>(le: (T, T) -> bool, s: seq<T>, k: nat, g: T, all: set<T>)
    requires k > 0 && Preorder(le, all) && Over(s, all) && g in all && RunsSorted(le, s, k)
    ensures Class(le, g, SortFrom(le, s, k)) == Class(le, g, s)
    decreases |s| - k
  {
    var r := Pass(le, s, k);
    PassStable(le, s, k, g, all);
    PassSorts(le, s, k, all);
    PassPermutes(le, s, k);
    if |s| > 2 * k {
      forall x | x in r
        ensures x in all
      {
        assert x in multiset(r);
      }
      SortStable(le, r, 2 * k, g, all);
    }
  }

  /** The mergesort yields a sorted permutation that keeps equivalent elements in their original order. */
  lemma MergeSortCorrect<T>(le: (T, T) -> bool, s: seq<T>, all: set<T>)
    requires Preorder(le, all) && Over(s, all)
    ensures Sorted(le, SortFrom(le, s, 1)) && multiset(SortFrom(le, s, 1)) == multiset(s)
    ensures forall g :: g in all ==> Class(le, g, SortFrom(le, s, 1)) == Class(le, g, s)
  {
    SingletonRuns(le, s);
    SortSorts(le, s, 1, all);
    SortPermutes(le, s, 1);
    forall g | g in all
      ensures Class(le, g, SortFrom(le, s, 1)) == Class(le, g, s)
    {
      SortStable(le, s, 1, g, all);
    }
  }

  // ----- Order of two elements

  /** Some occurrence of x stands before some occurrence of y. */
  ghost predicate Precedes<T>(r: seq<T>, x: T, y: T) {
    exists k, l :: 0 <= k < l < |r| && r[k] == x && r[l] == y
  }

  /** Members of a class stand in the class as in the sequence. */
  lemma {:induction false} ClassIndex<T>(le: (T, T) -> bool, g: T, s: seq<T>, i: nat) returns (p: nat)
    requires i < |s| && Equiv(le, g, s[i])
    ensures p < |Class(le, g, s)| && Class(le, g, s)[p] == s[i]
    ensures forall j :: i < j < |s| && Equiv(le, g, s[j]) ==>
      exists q :: p < q < |Class(le, g, s)| && Class(le, g, s)[q] == s[j]
  {
    var a, b := s[..i], s[i + 1..];
    assert s == a + ([s[i]] + b);
    ClassConcat(le, g, a, [s[i]] + b);
    ClassConcat(le, g, [s[i]], b);
    assert Class(le, g, [s[i]]) == [s[i]];
    p := |Class(le, g, a)|;
    forall j | i < j < |s| && Equiv(le, g, s[j])
      ensures exists q :: p < q < |Class(le, g, s)| && Class(le, g, s)[q] == s[j]
    {
      var t := InClass(le, g, b, j - i - 1);
      assert Class(le, g, s)[p + 1 + t] == s[j];
    }
  }

  lemma {:induction false} InClass<T>(le: (T, T) -> bool, g: T, s: seq<T>, i: nat) returns (p: nat)
    requires i < |s| && Equiv(le, g, s[i])
    ensures p < |Class(le, g, s)| && Class(le, g, s)[p] == s[i]
  {
    if i == 0 {
      p := 0;
    } else {
      p := InClass(le, g, s[1..], i - 1);
      if Equiv(le, g, s[0]) {
        p := p + 1;
      }
    }
  }

  lemma {:induction false} ClassPositions<T>(le: (T, T) -> bool, g: T, r: seq<T>, p: nat, q: nat)
    returns (k: nat, l: nat)
    requires p < q < |Class(le, g, r)|
    ensures k < l < |r| && r[k] == Class(le, g, r)[p] && r[l] == Class(le, g, r)[q]
  {
    if Equiv(le, g, r[0]) && p == 0 {
      k := 0;
      l := FromClass(le, g, r[1..], q - 1);
      l := l + 1;
    } else {
      var d := if Equiv(le, g, r[0]) then 1 else 0;
      k, l := ClassPositions(le, g, r[1..], p - d, q - d);
      k, l := k + 1, l + 1;
    }
  }

  lemma {:induction false} FromClass<T>(le: (T, T) -> bool, g: T, r: seq<T>, p: nat) returns (k: nat)
    requires p < |Class(le, g, r)|
    ensures k < |r| && r[k] == Class(le, g, r)[p]
  {
    if Equiv(le, g, r[0]) && p == 0 {
      k := 0;
    } else {
      k := FromClass(le, g, r[1..], p - if Equiv(le, g, r[0]) then 1 else 0);
      k := k + 1;
    }
  }

  /** In a stable sort an element that is not above a later one still stands before it. */
  lemma StableOrder<T>(le: (T, T) -> bool, s: seq<T>, r: seq<T>, all: set<T>, i: nat, j: nat)
    requires Preorder(le, all) && Over(s, all) && Sorted(le, r) && multiset(r) == multiset(s)
    requires i < j < |s| && le(s[i], s[j]) && Class(le, s[i], r) == Class(le, s[i], s)
    ensures Precedes(r, s[i], s[j])
  {
    hide Class, Preorder;
    var x, y := s[i], s[j];
    if le(y, x) {
      Reflexive(le, all, x);
      var p := ClassIndex(le, x, s, i);
      assert Equiv(le, x, s[j]);
      var q :| p < q < |Class(le, x, s)| && Class(le, x, s)[q] == y;
      var k, l := ClassPositions(le, x, r, p, q);
    } else {
      assert x in multiset(s) && y in multiset(s);
      assert x in multiset(r) && y in multiset(r);
      var k :| 0 <= k < |r| && r[k] == x;
      var l :| 0 <= l < |r| && r[l] == y;
    }
  }

  lemma Reflexive<T>(le: (T, T) -> bool, all: set<T>, x: T)
    requires Preorder(le, all) && x in all
    ensures le(x, x)
  {
  }
}
