/** The bucket array of the hash table and its doubling. */
module Buckets {
  import opened Bits
  import opened StreamRecord
  import opened Chains

  /** Chain counts in the buckets, and expansion multipliers after a redistribution. */
  ghost predicate Counted(bs: array<Bucket>, cs: seq<seq<Stream>>)
    reads bs
  {
    |cs| == bs.Length && forall b :: 0 <= b < |cs| ==> bs[b].count == |cs[b]|
  }

  ghost predicate AllMultiplied(bs: array<Bucket>, ideal: nat)
    reads bs
  {
    forall b :: 0 <= b < bs.Length ==> Multiplied(bs[b].count, bs[b].expandMult, ideal)
  }

  /** A bucket after one more arrival: `count` grows, and `expand_mult` too when the chain outgrows it. */
  function Arrived(bk: Bucket, ideal: nat): (r: Bucket)
    requires ideal > 0
    ensures r.count == bk.count + 1 && r.hhHead == bk.hhHead
    ensures Multiplied(bk.count, bk.expandMult, ideal) ==> Multiplied(r.count, r.expandMult, ideal)
  {
    OneMoreTime(bk.expandMult, ideal);
    var count := bk.count + 1;
    if count > ideal && count > Times(bk.expandMult, ideal)
    then Bucket(bk.hhHead, count, bk.expandMult + 1)
    else Bucket(bk.hhHead, count, bk.expandMult)
  }

  /** Counts one arrival in bucket b. */
  method CountArrival(nb: array<Bucket>, b: nat, ideal: nat)
    requires b < nb.Length && ideal > 0 && AllMultiplied(nb, ideal)
    modifies nb
    ensures AllMultiplied(nb, ideal)
    ensures nb[b].hhHead == old(nb[b].hhHead) && nb[b].count == old(nb[b].count) + 1
    ensures forall i :: 0 <= i < nb.Length && i != b ==> nb[i] == old(nb[i])
  {
    nb[b] := Arrived(nb[b], ideal);
  }

  /** The buckets under construction hold exactly the chains nc, with their statistics up to date. */
  ghost predicate Filling(nb: array<Bucket>, nc: seq<seq<Stream>>, nodes: set<Stream>, hash: Word -> Word,
                          ideal: nat, nonideal: nat)
    reads nb, nodes`hhNext, nodes`hhPrev
  {
    && Family(nb, nc, nodes) && Placed(nc, hash) && Counted(nb, nc)
    && AllMultiplied(nb, ideal) && nonideal == Overflow(nc, ideal)
  }

  /** One step of the redistribution: count the node into its new bucket, then link it there. */
  method RehashNode(nb: array<Bucket>, node: Stream, ideal: nat, nonideal: nat,
                    ghost nc: seq<seq<Stream>>, ghost nodes: set<Stream>, ghost hash: Word -> Word)
    returns (nonideal': nat, ghost nc': seq<seq<Stream>>)
    requires Filling(nb, nc, nodes, hash, ideal, nonideal) && ideal > 0
    requires nb.Length > 0 && node in nodes && node.hashv == hash(node.id)
    requires ToBkt(node.hashv, nb.Length) < nb.Length && node !in nc[ToBkt(node.hashv, nb.Length)]
    modifies nb, node`hhNext, node`hhPrev, nodes`hhPrev
    ensures var b := ToBkt(node.hashv, nb.Length); nc' == nc[b := [node] + nc[b]]
    ensures Filling(nb, nc', nodes, hash, ideal, nonideal')
  {
    var b := ToBkt(node.hashv, nb.Length);
    CountArrival(nb, b, ideal);
    nonideal' := if nb[b].count > ideal then nonideal + 1 else nonideal;
    nc' := PushFront(nb, b, node, nc, nodes, hash);
    OverflowUpdate(nc, b, nc'[b], ideal);
  }

  function EmptyChains(n: nat): seq<seq<Stream>> {
    seq(n, _ => [])
  }

  /** Every node carries its hash value and is in the chain that value selects. */
  ghost predicate AllPlaced(cs: seq<seq<Stream>>, nodes: set<Stream>, hash: Word -> Word)
    reads nodes`hashv
  {
    |cs| > 0 && forall n {:trigger n.hashv} :: n in nodes ==>
      n.hashv == hash(n.id) && ToBkt(n.hashv, |cs|) < |cs| && n in cs[ToBkt(n.hashv, |cs|)]
  }

  // ----- The buckets of a whole table

  /** Bucket `over` counts one node too many; -1 when every count is right. */
  ghost predicate CountsOver(bs: array<Bucket>, cs: seq<seq<Stream>>, over: int)
    reads bs
  {
    && |cs| == bs.Length
    && forall b :: 0 <= b < |cs| ==> bs[b].count == |cs[b]| + (if b == over then 1 else 0)
  }

  /** 2^k buckets hold exactly the given nodes, each in the chain its hash value selects. */
  ghost predicate Holds(bs: array<Bucket>, k: nat, cs: seq<seq<Stream>>, nodes: set<Stream>, hash: Word -> Word,
                        over: int)
    reads bs, nodes`hhNext, nodes`hhPrev, nodes`hashv
  {
    && bs.Length == Pow2(k)
    && Family(bs, cs, nodes) && Placed(cs, hash) && CountsOver(bs, cs, over) && AllPlaced(cs, nodes, hash)
  }

  /** A finished redistribution is a bucket array in order. */
  lemma FilledHolds(nb: array<Bucket>, k: nat, nc: seq<seq<Stream>>, nodes: set<Stream>, hash: Word -> Word,
                    ideal: nat, nonideal: nat)
    requires nb.Length == Pow2(k) && Filling(nb, nc, nodes, hash, ideal, nonideal) && AllPlaced(nc, nodes, hash)
    ensures Holds(nb, k, nc, nodes, hash, -1)
  {
    hide Family, Placed, Multiplied;
  }

  /** The chains of a table together hold each node once. */
  lemma TotalNodes(bs: array<Bucket>, k: nat, cs: seq<seq<Stream>>, nodes: set<Stream>, hash: Word -> Word)
    requires Holds(bs, k, cs, nodes, hash, -1)
    ensures Total(cs, |cs|) == |nodes|
  {
    TotalIsCard(cs, hash, |cs|);
    forall x | x in nodes
      ensures x in Gathered(cs, |cs|)
    {
      assert x.hashv == hash(x.id);
      GatheredFrom(cs, |cs|, x);
    }
    forall x | x in Gathered(cs, |cs|)
      ensures x in nodes
    {
      GatheredFrom(cs, |cs|, x);
      var b :| 0 <= b < |cs| && x in cs[b];
      var i := Position(cs[b], x);
      assert cs[b][i] in nodes;
    }
    assert Gathered(cs, |cs|) == nodes;
  }

  ghost function Pushed(cs: seq<seq<Stream>>, b: nat, n: Stream): seq<seq<Stream>>
    requires b < |cs|
  {
    cs[b := [n] + cs[b]]
  }

  /** Taking a pushed node out again gives the old chains back. */
  lemma UndoPush(cs: seq<seq<Stream>>, b: nat, n: Stream, cs': seq<seq<Stream>>, j: nat)
    requires b < |cs| && n !in cs[b]
    requires j <= |cs[b]| && ([n] + cs[b])[j] == n && cs' == Pushed(cs, b, n)[b := Without([n] + cs[b], j)]
    ensures cs' == cs
  {
    assert j == 0 && Without([n] + cs[b], 0) == cs[b];
  }

  /** The counting and linking part of `HASH_ADD_TO_BKT`. */
  method LinkIntoBkt(bs: array<Bucket>, b: nat, add: Stream,
                     ghost k: nat, ghost cs: seq<seq<Stream>>, ghost nodes: set<Stream>, ghost hash: Word -> Word)
    returns (ghost cs': seq<seq<Stream>>)
    requires Holds(bs, k, cs, nodes - {add}, hash, -1) && add in nodes && add.hashv == hash(add.id)
    requires b == ToBkt(add.hashv, bs.Length) && b < bs.Length
    modifies bs, add`hhNext, add`hhPrev, nodes`hhPrev
    ensures cs' == Pushed(cs, b, add) && add !in cs[b] && Holds(bs, k, cs', nodes, hash, -1)
    ensures bs[b] == old(bs[b]).(hhHead := add, count := old(bs[b].count) + 1)
    ensures forall i :: 0 <= i < bs.Length && i != b ==> bs[i] == old(bs[i])
  {
    bs[b] := bs[b].(count := bs[b].count + 1);
    cs' := PushFront(bs, b, add, cs, nodes, hash);
  }

  /** Takes a node out of its bucket with `HASH_DEL_IN_BKT`; over >= 0 when it is detached but still counted there. */
  method UnlinkChain(bs: array<Bucket>, b: nat, n: Stream, ghost over: int,
                     ghost k: nat, ghost cs: seq<seq<Stream>>, ghost nodes: set<Stream>, ghost hash: Word -> Word)
    returns (ghost cs': seq<seq<Stream>>, ghost j: int)
    requires Holds(bs, k, cs, if over < 0 then nodes else nodes - {n}, hash, over)
    requires n in nodes && n.hashv == hash(n.id)
    requires b == ToBkt(n.hashv, bs.Length) && b < bs.Length
    requires over >= 0 ==> over == b && n.hhNext == null && n.hhPrev == null
    modifies bs, nodes`hhNext, nodes`hhPrev
    ensures Holds(bs, k, cs', nodes - {n}, hash, -1)
    ensures over < 0 ==> 0 <= j < |cs[b]| && cs[b][j] == n && cs' == cs[b := Without(cs[b], j)]
    ensures over >= 0 ==> cs' == cs
    ensures bs[b] == old(bs[b]).(hhHead := Nth(cs'[b], 0), count := |cs'[b]|)
    ensures forall i :: 0 <= i < bs.Length && i != b ==> bs[i] == old(bs[i])
  {
    j := -1;
    if over < 0 {
      assert n in cs[b];
      j := Position(cs[b], n);
      WithoutElems(cs[b], j);
    }
    cs' := DelInBkt(bs, b, n, cs, j, nodes, hash);
  }

  /** A zeroed array of 2^k buckets. */
  method NewBuckets(n: nat, ghost k: nat, ghost hash: Word -> Word) returns (bs: array<Bucket>)
    requires n == Pow2(k)
    ensures fresh(bs) && Holds(bs, k, EmptyChains(n), {}, hash, -1)
    ensures forall b :: 0 <= b < bs.Length ==> bs[b] == EMPTY_BUCKET
  {
    bs := new Bucket[n](_ => EMPTY_BUCKET);
  }
}
