/** `HASH_EXPAND_BUCKETS`: moving every chain into a bucket array of twice the size. */
module Rehash {
  import opened Bits
  import opened StreamRecord
  import opened Chains
  import opened Buckets

  /** Moves the j-th member of old chain i and steps to the next one. */
  method RehashStep(nb: array<Bucket>, thh: Stream, ideal: nat, nonideal: nat,
                    ghost cs: seq<seq<Stream>>, ghost i: nat, ghost j: nat, ghost k: nat,
                    ghost nc: seq<seq<Stream>>, ghost nodes: set<Stream>, ghost hash: Word -> Word)
    returns (nxt: Stream?, nonideal': nat, ghost nc': seq<seq<Stream>>)
    requires |cs| == Pow2(k) && i < |cs| && nb.Length == 2 * |cs| && j < |cs[i]| && thh == cs[i][j]
    requires Placed(cs, hash) && NoDup(cs[i]) && Forward(cs[i], j)
    requires thh in nodes && thh.hashv == hash(thh.id)
    requires Filling(nb, nc, nodes, hash, ideal, nonideal) && ideal > 0
    requires Redistributed(cs, nc, i, j, hash)
    modifies nb, thh`hhNext, nodes`hhPrev
    ensures nxt == Nth(cs[i], j + 1) && Forward(cs[i], j + 1)
    ensures Filling(nb, nc', nodes, hash, ideal, nonideal')
    ensures Redistributed(cs, nc', i, j + 1, hash)
  {
    RedistributeNode(cs, nc, i, j, hash, k);
    nxt := thh.hhNext;
    nonideal', nc' := RehashNode(nb, thh, ideal, nonideal, nc, nodes, hash);
  }

  /** Moves the members of old chain i, walking its forward links. */
  method RehashChain(nb: array<Bucket>, first: Stream?, ideal: nat, nonideal: nat,
                     ghost cs: seq<seq<Stream>>, ghost i: nat, ghost k: nat,
                     ghost nc: seq<seq<Stream>>, ghost nodes: set<Stream>, ghost hash: Word -> Word)
    returns (nonideal': nat, ghost nc': seq<seq<Stream>>)
    requires |cs| == Pow2(k) && i < |cs| && nb.Length == 2 * |cs|
    requires Placed(cs, hash) && NoDup(cs[i]) && Forward(cs[i], 0) && first == Nth(cs[i], 0)
    requires forall x :: x in cs[i] ==> x in nodes && x.hashv == hash(x.id)
    requires Filling(nb, nc, nodes, hash, ideal, nonideal) && ideal > 0
    requires Moved(cs, nc, i, hash)
    modifies nb, cs[i]`hhNext, nodes`hhPrev
    ensures Filling(nb, nc', nodes, hash, ideal, nonideal')
    ensures Moved(cs, nc', i + 1, hash)
  {
    ghost var j := 0;
    var thh := first;
    nonideal', nc' := nonideal, nc;
    while thh != null
      invariant j <= |cs[i]| && thh == Nth(cs[i], j) && Forward(cs[i], j)
      invariant Filling(nb, nc', nodes, hash, ideal, nonideal')
      invariant Redistributed(cs, nc', i, j, hash)
      decreases |cs[i]| - j
    {
      assert thh in cs[i];
      thh, nonideal', nc' := RehashStep(nb, thh, ideal, nonideal', cs, i, j, k, nc', nodes, hash);
      j := j + 1;
    }
    RedistributeNext(cs, nc', i, hash);
  }

  /** A zeroed bucket array is where a redistribution starts. */
  lemma StartFilling(nb: array<Bucket>, cs: seq<seq<Stream>>, nodes: set<Stream>, hash: Word -> Word, ideal: nat)
    requires nb.Length == 2 * |cs| && ideal > 0 && |cs| > 0
    requires forall b :: 0 <= b < nb.Length ==> nb[b] == EMPTY_BUCKET
    ensures Filling(nb, EmptyChains(nb.Length), nodes, hash, ideal, 0)
    ensures Moved(cs, EmptyChains(nb.Length), 0, hash)
  {
    OverflowEmpty(EmptyChains(nb.Length), ideal);
  }

  /** Moves every old chain into the zeroed array nb of twice the size. */
  method RehashAll(ob: array<Bucket>, nb: array<Bucket>, ideal: nat,
                   ghost cs: seq<seq<Stream>>, ghost k: nat, ghost nodes: set<Stream>, ghost hash: Word -> Word)
    returns (nonideal: nat, ghost nc: seq<seq<Stream>>)
    requires ob != nb && ob.Length == Pow2(k) && nb.Length == 2 * ob.Length && ideal > 0
    requires Family(ob, cs, nodes) && Placed(cs, hash) && forall x :: x in nodes ==> x.hashv == hash(x.id)
    requires forall b :: 0 <= b < nb.Length ==> nb[b] == EMPTY_BUCKET
    modifies nb, nodes`hhNext, nodes`hhPrev
    ensures Filling(nb, nc, nodes, hash, ideal, nonideal) && Rehashed(cs, nc, hash)
  {
    nonideal, nc := 0, EmptyChains(nb.Length);
    StartFilling(nb, cs, nodes, hash, ideal);
    var i := 0;
    while i < ob.Length
      invariant i <= ob.Length
      invariant Filling(nb, nc, nodes, hash, ideal, nonideal)
      invariant Moved(cs, nc, i, hash)
      invariant forall r {:trigger cs[r]} :: i <= r < |cs| ==> Forward(cs[r], 0)
    {
      OthersKept(cs, i, hash);
      nonideal, nc := RehashChain(nb, ob[i].hhHead, ideal, nonideal, cs, i, k, nc, nodes, hash);
      i := i + 1;
    }
  }

  /** Allocates a bucket array of twice the size and moves every chain there. */
  method DoubleBuckets(ob: array<Bucket>, numItems: nat, k: nat,
                       ghost cs: seq<seq<Stream>>, ghost nodes: set<Stream>, ghost hash: Word -> Word)
    returns (nb: array<Bucket>, ideal: nat, nonideal: nat, ghost nc: seq<seq<Stream>>)
    requires ob.Length == Pow2(k) && numItems > 0
    requires Family(ob, cs, nodes) && Placed(cs, hash) && AllPlaced(cs, nodes, hash)
    modifies nodes`hhNext, nodes`hhPrev
    ensures fresh(nb) && nb.Length == 2 * ob.Length && IsCeil(ideal, numItems, nb.Length)
    ensures Filling(nb, nc, nodes, hash, ideal, nonideal) && Rehashed(cs, nc, hash)
    ensures AllPlaced(nc, nodes, hash) && |nc| == nb.Length
    ensures forall b :: 0 <= b < nb.Length ==>
      nb[b].count == |nc[b]| && Multiplied(nb[b].count, nb[b].expandMult, ideal)
  {
    nb := new Bucket[2 * ob.Length](_ => EMPTY_BUCKET);
    ideal := Shr(numItems, k + 1) + (if And(numItems, ob.Length * 2 - 1) != 0 then 1 else 0);
    IdealIsCeil(numItems, k + 1, ideal);
    nonideal, nc := RehashAll(ob, nb, ideal, cs, k, nodes, hash);
    RehashedPlaced(cs, nc, k, nodes, hash);
  }

  lemma RehashedPlaced(cs: seq<seq<Stream>>, nc: seq<seq<Stream>>, k: nat, nodes: set<Stream>, hash: Word -> Word)
    requires |cs| == Pow2(k) && AllPlaced(cs, nodes, hash) && Rehashed(cs, nc, hash)
    ensures AllPlaced(nc, nodes, hash)
  {
    forall n {:trigger n.hashv} | n in nodes
      ensures ToBkt(n.hashv, |nc|) < |nc| && n in nc[ToBkt(n.hashv, |nc|)]
    {
      RehashedMember(cs, nc, hash, k, n);
    }
  }

  lemma PickedNone(hash: Word -> Word, m: nat, b: nat)
    requires m > 0
    ensures Picked([], hash, m, b) == []
  {
  }

  /** One more member, put in front on one of the two sides. */
  lemma DealtOne(x: Stream, a: seq<Stream>, b: seq<Stream>, a': seq<Stream>, b': seq<Stream>, r: seq<Stream>)
    requires multiset(a) + multiset(b) == multiset(r)
    requires (a' == [x] + a && b' == b) || (a' == a && b' == [x] + b)
    ensures multiset(a') + multiset(b') == multiset(r + [x])
  {
  }

  /** Where the last member of a chain goes. */
  lemma PickedLast(c: seq<Stream>, hash: Word -> Word, k: nat, i: nat)
    requires c != [] && ToBktIn(hash, c[|c| - 1], k) == i
    ensures var r, x, m, j := c[..|c| - 1], c[|c| - 1], Pow2(k + 1), i + Pow2(k);
      || (Picked(c, hash, m, i) == [x] + Picked(r, hash, m, i) && Picked(c, hash, m, j) == Picked(r, hash, m, j))
      || (Picked(c, hash, m, i) == Picked(r, hash, m, i) && Picked(c, hash, m, j) == [x] + Picked(r, hash, m, j))
  {
    hide Picked, Pow2, ToBkt, Shr;
    assert c[..|c|] == c;
    PickedSnoc(c, |c| - 1, hash, Pow2(k + 1), i);
    PickedSnoc(c, |c| - 1, hash, Pow2(k + 1), i + Pow2(k));
    BktDouble(hash(c[|c| - 1].id), k);
  }

  /** A chain of bucket i is dealt out between new buckets i and i + 2^k. */
  lemma {:induction false} PickedSplits(c: seq<Stream>, hash: Word -> Word, k: nat, i: nat)
    requires forall x :: x in c ==> ToBktIn(hash, x, k) == i
    ensures var m := Pow2(k + 1);
      multiset(Picked(c, hash, m, i)) + multiset(Picked(c, hash, m, i + Pow2(k))) == multiset(c)
    decreases |c|
  {
    hide Picked, Pow2, ToBktIn;
    var m, j := Pow2(k + 1), i + Pow2(k);
    if c == [] {
      PickedNone(hash, m, i);
      PickedNone(hash, m, j);
    } else {
      var r, x := c[..|c| - 1], c[|c| - 1];
      assert c == r + [x];
      assert x in c && forall y :: y in r ==> y in c;
      PickedSplits(r, hash, k, i);
      PickedLast(c, hash, k, i);
      DealtOne(x, Picked(r, hash, m, i), Picked(r, hash, m, j), Picked(c, hash, m, i), Picked(c, hash, m, j), r);
    }
  }

  /**
   * A doubling loses and duplicates nothing: the members of old chain i are those of new chains i and
   * i + 2^k together, and bit k of a member's hash says in which of the two it is.
   */
  lemma RehashSplits(cs: seq<seq<Stream>>, nc: seq<seq<Stream>>, hash: Word -> Word, k: nat, i: nat)
    requires |cs| == Pow2(k) && Rehashed(cs, nc, hash) && Placed(cs, hash) && i < |cs|
    ensures |nc| == Pow2(k + 1)
    ensures multiset(nc[i]) + multiset(nc[i + |cs|]) == multiset(cs[i])
    ensures forall x :: x in cs[i] ==>
      (x in nc[i] <==> Shr(hash(x.id), k) % 2 == 0) && (x in nc[i + |cs|] <==> Shr(hash(x.id), k) % 2 == 1)
  {
    hide Picked, Shr;
    var n := |cs|;
    forall x | x in cs[i]
      ensures ToBktIn(hash, x, k) == i
      ensures (x in nc[i] <==> Shr(hash(x.id), k) % 2 == 0) && (x in nc[i + n] <==> Shr(hash(x.id), k) % 2 == 1)
    {
      BktDouble(hash(x.id), k);
      PickedMember(cs[i], hash, 2 * n, i, x);
      PickedMember(cs[i], hash, 2 * n, i + n, x);
    }
    PickedSplits(cs[i], hash, k, i);
    assert Source(i, n) == i && Source(i + n, n) == i;
  }
}
