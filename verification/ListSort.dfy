/** `HASH_SRT`: the mergesort relinking the insertion-order list in place. */
module ListSort {
  import opened Bits
  import opened StreamRecord
  import opened Chains
  import opened MergeSort

  /** The not yet merged part of s can still be walked. */
  ghost predicate Walk(s: seq<Stream>, lo: nat, hi: nat)
    reads s`next
  {
    forall i {:trigger s[i].next} :: lo <= i < hi <= |s| ==> s[i].next == Nth(s, i + 1)
  }

  /** The output so far: linked both ways, except that nothing is known about where its last node leads. */
  ghost predicate Built(d: seq<Stream>)
    reads d`next, d`prev
  {
    && (forall i {:trigger d[i].next} :: 0 <= i < |d| - 1 ==> d[i].next == d[i + 1])
    && (forall i {:trigger d[i].prev} :: 0 <= i < |d| ==> d[i].prev == Nth(d, i - 1))
  }

  ghost function LastOf(d: seq<Stream>): Stream? {
    Nth(d, |d| - 1)
  }

  /** Appends e to the output. */
  method Attach(list: Stream?, tail: Stream?, e: Stream, ghost d: seq<Stream>) returns (list': Stream?, tail': Stream?)
    requires Built(d) && list == Nth(d, 0) && tail == LastOf(d) && NoDup(d) && e !in d
    modifies (if tail == null then {} else {tail})`next, e`prev
    ensures Built(d + [e]) && list' == Nth(d + [e], 0) && tail' == LastOf(d + [e])
  {
    NoDupElim(d);
    list' := list;
    if tail != null {
      tail.next := e;
    } else {
      list' := e;
    }
    e.prev := tail;
    tail' := e;
  }

  ghost function Remaining(d: seq<Stream>, s: seq<Stream>, i: nat, qs: nat, j: nat): seq<Stream>
    requires i <= qs <= j <= |s|
  {
    d + s[i..qs] + s[j..]
  }

  /** `cmpfcn(p, q) <= 0` */
  ghost function Leq(cmp: (Stream, Stream) -> int): (Stream, Stream) -> bool {
    (a: Stream, b: Stream) => cmp(a, b) <= 0
  }

  lemma TakeLeft(le: (Stream, Stream) -> bool, d: seq<Stream>, s: seq<Stream>, i: nat, qs: nat, j: nat, qe: nat)
    requires i < qs <= j <= qe <= |s| && (j == qe || le(s[i], s[j]))
    ensures Remaining(d + [s[i]], s, i + 1, qs, j) == Remaining(d, s, i, qs, j)
    ensures d + [s[i]] + Merge(le, s[i + 1..qs], s[j..qe]) == d + Merge(le, s[i..qs], s[j..qe])
  {
    var p, q := s[i..qs], s[j..qe];
    assert p[1..] == s[i + 1..qs] && p == [s[i]] + p[1..];
    if j == qe {
      assert Merge(le, p[1..], q) == p[1..];
    }
  }

  lemma TakeRight(le: (Stream, Stream) -> bool, d: seq<Stream>, s: seq<Stream>, i: nat, qs: nat, j: nat, qe: nat)
    requires i <= qs <= j < qe <= |s| && NoDup(Remaining(d, s, i, qs, j)) && (i == qs || !le(s[i], s[j]))
    ensures NoDup(Remaining(d + [s[j]], s, i, qs, j + 1))
    ensures d + [s[j]] + Merge(le, s[i..qs], s[j + 1..qe]) == d + Merge(le, s[i..qs], s[j..qe])
  {
    hide Merge, NoDup, Remaining;
    TakeRightPermutes(d, s, i, qs, j);
    NoDupPermuted(Remaining(d, s, i, qs, j), Remaining(d + [s[j]], s, i, qs, j + 1));
    TakeRightMerge(le, s[i..qs], s[j..qe]);
    assert s[j..qe][1..] == s[j + 1..qe];
  }

  lemma TakeRightPermutes(d: seq<Stream>, s: seq<Stream>, i: nat, qs: nat, j: nat)
    requires i <= qs <= j < |s|
    ensures multiset(Remaining(d + [s[j]], s, i, qs, j + 1)) == multiset(Remaining(d, s, i, qs, j))
  {
    assert s[j..] == [s[j]] + s[j + 1..];
    assert multiset(s[j..]) == multiset{s[j]} + multiset(s[j + 1..]);
  }

  lemma TakeRightMerge(le: (Stream, Stream) -> bool, p: seq<Stream>, q: seq<Stream>)
    requires q != [] && (p == [] || !le(p[0], q[0]))
    ensures Merge(le, p, q) == [q[0]] + Merge(le, p, q[1..])
  {
    if p == [] {
      assert Merge(le, p, q[1..]) == q[1..];
    }
  }

  /** The output is duplicate free and shares no node with what is left. */
  lemma Disjoint(d: seq<Stream>, s: seq<Stream>, i: nat, qs: nat, j: nat)
    requires i <= qs <= j <= |s| && NoDup(Remaining(d, s, i, qs, j))
    ensures NoDup(d) && forall k :: i <= k < qs || j <= k < |s| ==> s[k] !in d
  {
    var w := Remaining(d, s, i, qs, j);
    NoDupElim(w);
    assert forall k :: 0 <= k < |d| ==> w[k] == d[k];
    assert forall k :: i <= k < qs ==> w[|d| + k - i] == s[k];
    assert forall k :: j <= k < |s| ==> w[|d| + qs - i + k - j] == s[k];
  }

  /** The state inside a merge: d is out, s[i..qs] and s[j..] are still linked input. */
  ghost predicate Merging(d: seq<Stream>, s: seq<Stream>, i: nat, qs: nat, j: nat)
    reads d`next, d`prev, s`next
  {
    && i <= qs <= j <= |s| && NoDup(Remaining(d, s, i, qs, j))
    && Built(d) && Walk(s, i, qs) && Walk(s, j, |s|)
  }

  /** One step of a merge: the smaller front node moves to the output, the left one on ties. */
  method MergeStep(cmp: (Stream, Stream) -> int, p: Stream?, q: Stream?, psize: nat, qsize: nat,
                   list: Stream?, tail: Stream?,
                   ghost d: seq<Stream>, ghost s: seq<Stream>, ghost i: nat, ghost qs: nat, ghost j: nat, ghost qe: nat)
    returns (p': Stream?, q': Stream?, psize': nat, qsize': nat, list': Stream?, tail': Stream?,
             ghost d': seq<Stream>, ghost i': nat, ghost j': nat)
    requires Merging(d, s, i, qs, j) && j <= qe <= |s|
    requires psize == qs - i && (qsize == 0 || q == null <==> j == qe) && (q != null ==> qe - j <= qsize)
    requires p == Nth(s, i) && q == Nth(s, j) && list == Nth(d, 0) && tail == LastOf(d)
    requires psize != 0 || (qsize != 0 && q != null)
    requires forall x :: x in d ==> x in s
    modifies s`next, s`prev
    ensures Merging(d', s, i', qs, j') && j' <= qe && i + j < i' + j' && i <= i' && j <= j'
    ensures psize' == qs - i' && qsize' == qsize - (j' - j)
    ensures p' == Nth(s, i') && q' == Nth(s, j') && list' == Nth(d', 0) && tail' == LastOf(d')
    ensures d' + Merge(Leq(cmp), s[i'..qs], s[j'..qe]) == d + Merge(Leq(cmp), s[i..qs], s[j..qe])
    ensures forall x :: x in d' ==> x in s
  {
    Disjoint(d, s, i, qs, j);
    var e: Stream;
    p', q', psize', qsize', i', j' := p, q, psize, qsize, i, j;
    if psize == 0 || !(qsize == 0 || q == null || cmp(p, q) <= 0) {
      TakeRight(Leq(cmp), d, s, i, qs, j, qe);
      e := q;
      q', qsize', j' := q.next, qsize - 1, j + 1;
    } else {
      TakeLeft(Leq(cmp), d, s, i, qs, j, qe);
      e := p;
      p', psize', i' := p.next, psize - 1, i + 1;
    }
    d' := d + [e];
    assert tail != null ==> tail in d;
    list', tail' := Attach(list, tail, e, d);
  }

  /** Between merges the unmerged input is one suffix. */
  lemma OneSuffix(d: seq<Stream>, s: seq<Stream>, pos: nat, qs: nat)
    requires pos <= qs <= |s|
    ensures Remaining(d, s, pos, qs, qs) == Remaining(d, s, pos, pos, pos)
    ensures Remaining(d, s, pos, pos, qs) == Remaining(d, s, qs, qs, qs)
  {
    assert s[pos..qs] + s[qs..] == s[pos..];
  }

  /** Steps over the first run: q ends insize nodes behind p, or at the end of the list. */
  method SkipRun(p: Stream, insize: nat, ghost s: seq<Stream>, ghost pos: nat) returns (q: Stream?, psize: nat)
    requires pos < |s| && p == s[pos] && Walk(s, pos, |s|) && insize > 0
    ensures psize == Min(insize, |s| - pos) && q == Nth(s, pos + psize)
  {
    q, psize := p, 0;
    var i := 0;
    while i < insize
      invariant i == psize <= insize && pos + psize < |s| && q == s[pos + psize]
    {
      psize := psize + 1;
      q := q.next;
      if q == null {
        break;
      }
      i := i + 1;
    }
  }

  lemma WalkOf(d: seq<Stream>, s: seq<Stream>, pos: nat)
    requires Merging(d, s, pos, pos, pos)
    ensures Walk(s, pos, |s|)
  {
  }

  lemma StartMerge(d: seq<Stream>, s: seq<Stream>, pos: nat, qs: nat)
    requires Merging(d, s, pos, pos, pos) && pos <= qs <= |s|
    ensures Merging(d, s, pos, qs, qs)
  {
    OneSuffix(d, s, pos, qs);
  }

  lemma EndMerge(le: (Stream, Stream) -> bool, d: seq<Stream>, s: seq<Stream>, qs: nat, qe: nat)
    requires Merging(d, s, qs, qs, qe)
    ensures Merging(d, s, qe, qe, qe) && d + Merge(le, s[qs..qs], s[qe..qe]) == d
  {
    OneSuffix(d, s, qs, qe);
  }

  /** Merges the two runs at position pos onto the output. */
  method MergeRuns(cmp: (Stream, Stream) -> int, first: Stream, insize: nat, list: Stream?, tail: Stream?,
                   ghost d: seq<Stream>, ghost s: seq<Stream>, ghost pos: nat)
    returns (p: Stream?, list': Stream?, tail': Stream?, ghost d': seq<Stream>, ghost qe: nat)
    requires pos < |s| && first == s[pos] && Merging(d, s, pos, pos, pos) && insize > 0
    requires list == Nth(d, 0) && tail == LastOf(d) && forall x :: x in d ==> x in s
    modifies s`next, s`prev
    ensures qe == Min(pos + 2 * insize, |s|) && p == Nth(s, qe) && Merging(d', s, qe, qe, qe)
    ensures var qs := Min(pos + insize, |s|); d' == d + Merge(Leq(cmp), s[pos..qs], s[qs..qe])
    ensures list' == Nth(d', 0) && tail' == LastOf(d') && forall x :: x in d' ==> x in s
  {
    hide Merging, Merge, Leq;
    assert Walk(s, pos, |s|) by {
      WalkOf(d, s, pos);
    }
    var q, psize := SkipRun(first, insize, s, pos);
    var qsize := insize;
    ghost var qs: nat, i: nat, j: nat := pos + psize, pos, pos + psize;
    qe := Min(pos + 2 * insize, |s|);
    p, list', tail', d' := first, list, tail, d;
    StartMerge(d, s, pos, qs);
    while psize != 0 || (qsize != 0 && q != null)
      invariant Merging(d', s, i, qs, j) && j <= qe && psize == qs - i && qsize == insize - (j - qs)
      invariant p == Nth(s, i) && q == Nth(s, j) && list' == Nth(d', 0) && tail' == LastOf(d')
      invariant forall x :: x in d' ==> x in s
      invariant d' + Merge(Leq(cmp), s[i..qs], s[j..qe]) == d + Merge(Leq(cmp), s[pos..qs], s[qs..qe])
      decreases qs + qe - i - j
    {
      p, q, psize, qsize, list', tail', d', i, j :=
        MergeStep(cmp, p, q, psize, qsize, list', tail', d', s, i, qs, j, qe);
    }
    p := q;
    EndMerge(Leq(cmp), d', s, qs, qe);
  }

  lemma SubSlice(s: seq<Stream>, pos: nat, a: nat, b: nat)
    requires a <= b && pos + b <= |s|
    ensures s[pos..][a..b] == s[pos + a..pos + b]
  {
  }

  /** The suffix a pass still has to merge, with the head pair split off. */
  lemma PassSuffix(le: (Stream, Stream) -> bool, s: seq<Stream>, pos: nat, k: nat)
    requires pos < |s| && k > 0
    ensures var qs, qe := Min(pos + k, |s|), Min(pos + 2 * k, |s|);
      Pass(le, s[pos..], k) == Merge(le, s[pos..qs], s[qs..qe]) + Pass(le, s[qe..], k)
  {
    hide Merge;
    var t := s[pos..];
    var a, b := Min(k, |t|), Min(2 * k, |t|);
    SubSlice(s, pos, 0, a);
    SubSlice(s, pos, a, b);
    SubSlice(s, pos, b, |t|);
  }

  /** Ends the output list. */
  method Terminate(tail: Stream, ghost d: seq<Stream>)
    requires d != [] && Built(d) && NoDup(d) && tail == d[|d| - 1]
    modifies tail`next
    ensures ListHeld(d, d[0], tail)
  {
    NoDupElim(d);
    tail.next := null;
  }

  lemma StartPass(s: seq<Stream>, first: Stream, last: Stream)
    requires ListHeld(s, first, last)
    ensures s != [] && first == s[0] && s[0..] == s && Merging([], s, 0, 0, 0)
  {
    assert Remaining([], s, 0, 0, 0) == s;
  }

  lemma EndPass(le: (Stream, Stream) -> bool, d: seq<Stream>, s: seq<Stream>, pos: nat, k: nat)
    requires pos == |s| > 0 && k > 0 && Merging(d, s, pos, pos, pos) && d + Pass(le, s[pos..], k) == Pass(le, s, k)
    ensures d == Pass(le, s, k) && d != [] && Built(d) && NoDup(d)
  {
    PassPermutes(le, s, k);
    Disjoint(d, s, pos, pos, pos);
  }

  /** One pass over the list: the outer loop body of `HASH_SRT`. */
  method SortPass(cmp: (Stream, Stream) -> int, first: Stream, insize: nat, ghost s: seq<Stream>, ghost last: Stream)
    returns (list: Stream, tail: Stream, nmerges: nat, ghost d: seq<Stream>)
    requires ListHeld(s, first, last) && insize > 0
    modifies s`next, s`prev
    ensures d == Pass(Leq(cmp), s, insize) && ListHeld(d, list, tail)
    ensures nmerges <= 1 <==> |s| <= 2 * insize
  {
    hide Merging, Pass, Built, ListHeld, NoDup, Leq;
    ghost var pos, le := 0, Leq(cmp);
    var p: Stream?, list', tail': Stream? := first, null, null;
    d, nmerges := [], 0;
    StartPass(s, first, last);
    while p != null
      invariant pos <= |s| && p == Nth(s, pos) && Merging(d, s, pos, pos, pos)
      invariant list' == Nth(d, 0) && tail' == LastOf(d) && forall x :: x in d ==> x in s
      invariant d + Pass(le, s[pos..], insize) == Pass(le, s, insize)
      invariant nmerges == 0 ==> pos == 0
      invariant nmerges == 1 ==> pos == Min(2 * insize, |s|)
      invariant nmerges >= 2 ==> 2 * insize < pos
      decreases |s| - pos
    {
      PassSuffix(le, s, pos, insize);
      nmerges := nmerges + 1;
      p, list', tail', d, pos := MergeRuns(cmp, p, insize, list', tail', d, s, pos);
    }
    EndPass(le, d, s, pos, insize);
    list, tail := list', tail';
    assert tail in d;
    Terminate(tail, d);
  }

  /** The run length after a pass; `unsigned` arithmetic cannot wrap while another pass is needed. */
  function Twice(insize: nat): nat {
    insize * 2 % WORD_MODULUS
  }

  ghost predicate Rearranged(s: seq<Stream>, r: seq<Stream>) {
    multiset(r) == multiset(s)
  }

  lemma RearrangedNodes(s: seq<Stream>, r: seq<Stream>)
    requires Rearranged(s, r)
    ensures |r| == |s| && forall i :: 0 <= i < |r| ==> r[i] in s
  {
    assert |multiset(s)| == |s| && |multiset(r)| == |r|;
    forall i | 0 <= i < |r|
      ensures r[i] in s
    {
      assert r[i] in multiset(r);
    }
  }

  lemma TwiceFits(k: nat, n: nat)
    requires n < WORD_MODULUS && n > 2 * k
    ensures Twice(k) == 2 * k
  {
  }

  lemma NextPass(le: (Stream, Stream) -> bool, s: seq<Stream>, r: seq<Stream>, k: nat)
    requires k > 0 && |r| < WORD_MODULUS && Rearranged(s, r)
    ensures Rearranged(s, Pass(le, r, k))
    ensures |r| <= 2 * k ==> SortFrom(le, r, k) == Pass(le, r, k)
    ensures |r| > 2 * k ==> Twice(k) == 2 * k && SortFrom(le, r, k) == SortFrom(le, Pass(le, r, k), Twice(k))
  {
    hide Pass, Twice;
    PassPermutes(le, r, k);
    if |r| > 2 * k {
      TwiceFits(k, |r|);
    }
  }

  /** `HASH_SRT` on a non-empty list. */
  method SortList(cmp: (Stream, Stream) -> int, head: Stream, tail: Stream, ghost s: seq<Stream>)
    returns (head': Stream, tail': Stream, ghost r: seq<Stream>)
    requires ListHeld(s, head, tail) && |s| < WORD_MODULUS
    modifies s`next, s`prev
    ensures r == SortFrom(Leq(cmp), s, 1) && ListHeld(r, head', tail')
  {
    hide Twice, ListHeld, ListLinked, SortFrom, Leq;
    ghost var le := Leq(cmp);
    var insize, looping := 1, true;
    head', tail', r := head, tail, s;
    assert Rearranged(s, r);
    while looping
      invariant Rearranged(s, r) && ListHeld(r, head', tail')
      invariant looping ==> insize > 0 && SortFrom(le, s, 1) == SortFrom(le, r, insize)
      invariant !looping ==> SortFrom(le, s, 1) == r
      decreases looping, |s| - insize
    {
      RearrangedNodes(s, r);
      NextPass(le, s, r, insize);
      var nmerges;
      head', tail', nmerges, r := SortPass(cmp, head', insize, r, tail');
      if nmerges <= 1 {
        looping := false;
      }
      insize := Twice(insize);
    }
  }

  /** The comparison as `HASH_SRT` uses it: the first argument goes first unless the result is positive. */
  lemma LeqIs(cmp: (Stream, Stream) -> int, a: Stream, b: Stream)
    ensures Leq(cmp)(a, b) <==> cmp(a, b) <= 0
  {
  }

  /** r is s sorted: the same nodes in order, and a node that need not go behind a later one stays before it. */
  ghost predicate StablySorted(cmp: (Stream, Stream) -> int, s: seq<Stream>, r: seq<Stream>) {
    && multiset(r) == multiset(s)
    && (forall i, j :: 0 <= i < j < |r| ==> cmp(r[i], r[j]) <= 0)
    && forall i, j :: 0 <= i < j < |s| && cmp(s[i], s[j]) <= 0 ==> Precedes(r, s[i], s[j])
  }

  /** The comparison is total and transitive on the given nodes. */
  ghost predicate Consistent(cmp: (Stream, Stream) -> int, s: seq<Stream>) {
    && (forall x, y :: x in s && y in s ==> cmp(x, y) <= 0 || cmp(y, x) <= 0)
    && (forall x, y, z :: x in s && y in s && z in s && cmp(x, y) <= 0 && cmp(y, z) <= 0 ==> cmp(x, z) <= 0)
  }

  lemma ConsistentIsPreorder(cmp: (Stream, Stream) -> int, s: seq<Stream>)
    requires Consistent(cmp, s)
    ensures Preorder(Leq(cmp), Elems(s))
  {
    assert forall x, y :: Leq(cmp)(x, y) == (cmp(x, y) <= 0);
  }

  lemma SortIsStable(cmp: (Stream, Stream) -> int, s: seq<Stream>)
    requires Consistent(cmp, s)
    ensures var r := SortFrom(Leq(cmp), s, 1);
      StablySorted(cmp, s, r) && forall i, j :: 0 <= i < j < |r| ==> cmp(r[i], r[j]) <= 0
  {
    hide Class, SortFrom, Preorder, Consistent, Precedes;
    var le, r := Leq(cmp), SortFrom(Leq(cmp), s, 1);
    ConsistentIsPreorder(cmp, s);
    MergeSortCorrect(le, s, Elems(s));
    forall i, j | 0 <= i < j < |r|
      ensures cmp(r[i], r[j]) <= 0
    {
      assert le(r[i], r[j]);
    }
    forall i, j | 0 <= i < j < |s| && cmp(s[i], s[j]) <= 0
      ensures Precedes(r, s[i], s[j])
    {
      assert s[i] in Elems(s) && le(s[i], s[j]);
      StableOrder(le, s, r, Elems(s), i, j);
    }
  }
}
