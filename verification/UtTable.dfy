/** `UT_hash_table`: the bucket side of the hash table in src/uthash.h. */
module UtTable {
  import opened Bits
  import opened StreamRecord
  import opened Chains
  import opened Buckets
  import opened Rehash
  import opened Bloom

  const INITIAL_NUM_BUCKETS := 32
  const INITIAL_NUM_BUCKETS_LOG2 := 5
  const BKT_CAPACITY_THRESH := 10

  /** What can differ between uses of the macros. */
  datatype Config = Config(
    hash: Word -> Word,  // `HASH_FCN`: any function of the key
    bloom: bool,         // whether `HASH_BLOOM` is defined
    bloomBits: nat)      // and its value

  class UtTable {
    const cfg: Config
    var tail: Stream
    var numItems: nat
    var buckets: array<Bucket>
    var numBuckets: nat
    var log2NumBuckets: nat
    var idealChainMaxlen: nat
    var nonidealItems: nat
    var ineffExpands: nat
    var noexpand: bool
    var bloomBv: array<bv8>

    /** The chain of each bucket. */
    ghost var chains: seq<seq<Stream>>

    /** `HASH_MAKE_TABLE` for the element that becomes the head. */
    constructor (cfg: Config, add: Stream)
      ensures this.cfg == cfg && tail == add && numItems == 0
      ensures Holds({}, -1) && BloomHolds({}) && fresh(buckets) && fresh(bloomBv)
      ensures numBuckets == 32 && chains == EmptyChains(32) && ineffExpands == 0
      ensures forall b :: 0 <= b < buckets.Length ==> buckets[b] == EMPTY_BUCKET
      ensures forall k :: 0 <= k < bloomBv.Length ==> bloomBv[k] == 0
    {
      hide Buckets.Holds, Pow2;
      Pow2Word();
      this.cfg := cfg;
      tail, numItems := add, 0;
      numBuckets, log2NumBuckets := INITIAL_NUM_BUCKETS, INITIAL_NUM_BUCKETS_LOG2;
      idealChainMaxlen, nonidealItems, ineffExpands, noexpand := 0, 0, 0, false;
      var bs := NewBuckets(INITIAL_NUM_BUCKETS, INITIAL_NUM_BUCKETS_LOG2, cfg.hash);
      buckets := bs;
      bloomBv := new bv8[if cfg.bloom then ByteLen(cfg.bloomBits) else 0](_ => 0);
      chains := EmptyChains(INITIAL_NUM_BUCKETS);
    }

    /** The buckets hold exactly the given nodes, `over` counting one too many (-1 for none);
        expansion stops for good after two ineffective doublings in a row. */
    ghost predicate Holds(nodes: set<Stream>, over: int)
      reads `buckets, `chains, `numBuckets, `log2NumBuckets, `ineffExpands, `noexpand, buckets
      reads nodes`hhNext, nodes`hhPrev, nodes`hashv
    {
      && log2NumBuckets <= 31 && numBuckets == buckets.Length
      && Buckets.Holds(buckets, log2NumBuckets, chains, nodes, cfg.hash, over)
      && ineffExpands <= 2 && (noexpand <==> ineffExpands == 2)
    }

    lemma BucketsMatch(nodes: set<Stream>)
      requires Holds(nodes, -1)
      ensures |chains| == buckets.Length
      ensures forall b :: 0 <= b < buckets.Length ==>
        buckets[b].hhHead == Nth(chains[b], 0) && buckets[b].count == |chains[b]|
    {
    }

    lemma SizeBound(nodes: set<Stream>)
      requires Holds(nodes, -1)
      ensures numBuckets < 0x8000_0000 ==> log2NumBuckets < 31
    {
      Pow2Word();
    }

    /** Tables with the same chains have the same chain links. */
    twostate lemma SameChains(nodes: set<Stream>)
      requires old(Holds(nodes, -1)) && Holds(nodes, -1) && chains == old(chains)
      ensures unchanged(nodes`hhNext, nodes`hhPrev)
    {
      forall n | n in nodes
        ensures n.hhNext == old(n.hhNext) && n.hhPrev == old(n.hhPrev)
      {
        var c := chains[ToBkt(n.hashv, numBuckets)];
        assert n in c;
        SameChainLinks(c);
      }
    }

    /** No stored node's filter bit is clear. */
    ghost predicate BloomHolds(nodes: set<Stream>)
      reads `buckets, `bloomBv, bloomBv
    {
      && bloomBv as object != buckets
      && (cfg.bloom ==> bloomBv.Length == ByteLen(cfg.bloomBits))
      && (cfg.bloom ==>
          forall n {:trigger n.id} :: n in nodes ==> BitSet(bloomBv[..], BitOf(cfg.hash(n.id), cfg.bloomBits)))
    }

    /** `HASH_TO_BKT` for this table. */
    method BktOf(hashv: Word) returns (b: nat)
      requires numBuckets == Pow2(log2NumBuckets)
      ensures b == ToBkt(hashv, numBuckets) && b < numBuckets
    {
      MaskBound(hashv, log2NumBuckets);
      b := ToBkt(hashv, numBuckets);
    }

    /** The table's size and statistics are as before. */
    twostate predicate StatsKept()
      reads `numBuckets, `log2NumBuckets, `idealChainMaxlen, `nonidealItems, `ineffExpands, `noexpand
    {
      && numBuckets == old(numBuckets) && log2NumBuckets == old(log2NumBuckets)
      && idealChainMaxlen == old(idealChainMaxlen) && nonidealItems == old(nonidealItems)
      && ineffExpands == old(ineffExpands) && noexpand == old(noexpand)
    }

    /** The state right after doubling a table that had chains cs and `ineff` ineffective expansions so far. */
    ghost predicate Doubled(cs: seq<seq<Stream>>, ineff: nat)
      reads `chains, `buckets, `numBuckets, `numItems, `idealChainMaxlen, `nonidealItems, `ineffExpands, buckets
    {
      && Rehashed(cs, chains, cfg.hash)
      && numBuckets == 2 * |cs|
      && IsCeil(idealChainMaxlen, numItems, numBuckets)
      && nonidealItems == Overflow(chains, idealChainMaxlen)
      && AllMultiplied(buckets, idealChainMaxlen)
      && ineffExpands == (if nonidealItems > numItems / 2 then ineff + 1 else 0)
    }

    /** Replaces the bucket array by its doubled successor and re-decides whether expansion still helps. */
    method InstallBuckets(nb: array<Bucket>, ideal: nat, nonideal: nat,
                          ghost nc: seq<seq<Stream>>, ghost nodes: set<Stream>)
      requires log2NumBuckets < 31 && numBuckets == Pow2(log2NumBuckets)
      requires nb.Length == 2 * numBuckets && Filling(nb, nc, nodes, cfg.hash, ideal, nonideal)
      requires AllPlaced(nc, nodes, cfg.hash) && ineffExpands <= 1 && !noexpand
      modifies `buckets, `numBuckets, `log2NumBuckets, `chains
      modifies `idealChainMaxlen, `nonidealItems, `ineffExpands, `noexpand
      ensures Holds(nodes, -1) && buckets == nb && chains == nc
      ensures numBuckets == 2 * old(numBuckets) && log2NumBuckets == old(log2NumBuckets) + 1
      ensures idealChainMaxlen == ideal && nonidealItems == nonideal
      ensures ineffExpands == if nonideal > numItems / 2 then old(ineffExpands) + 1 else 0
    {
      hide Buckets.Holds, Filling, AllPlaced;
      FilledHolds(nb, log2NumBuckets + 1, nc, nodes, cfg.hash, ideal, nonideal);
      buckets, chains := nb, nc;
      numBuckets := numBuckets * 2;
      log2NumBuckets := log2NumBuckets + 1;
      idealChainMaxlen, nonidealItems := ideal, nonideal;
      ineffExpands := if nonidealItems > numItems / 2 then ineffExpands + 1 else 0;
      if ineffExpands > 1 {
        noexpand := true;
      }
    }

    /** `HASH_EXPAND_BUCKETS`; mem says whether the new bucket array can be allocated. */
    method ExpandBuckets(mem: bool, ghost nodes: set<Stream>) returns (oomed: bool)
      requires Holds(nodes, -1) && numItems > 0 && !noexpand && (mem ==> log2NumBuckets < 31)
      modifies `buckets, `numBuckets, `log2NumBuckets, `chains
      modifies `idealChainMaxlen, `nonidealItems, `ineffExpands, `noexpand, nodes`hhNext, nodes`hhPrev
      ensures oomed == !mem && Holds(nodes, -1)
      ensures oomed ==> buckets == old(buckets) && chains == old(chains) && StatsKept()
      ensures oomed ==> unchanged(this) && unchanged(nodes`hhNext, nodes`hhPrev)
      ensures !oomed ==> Doubled(old(chains), old(ineffExpands)) && fresh(buckets)
      ensures !oomed ==> forall b :: 0 <= b < buckets.Length ==>
        Multiplied(buckets[b].count, buckets[b].expandMult, idealChainMaxlen)
    {
      if !mem {
        return true;
      }
      oomed := false;
      var nb, ideal, nonideal;
      ghost var nc;
      nb, ideal, nonideal, nc := DoubleBuckets(buckets, numItems, log2NumBuckets, chains, nodes, cfg.hash);
      InstallBuckets(nb, ideal, nonideal, nc, nodes);
    }

    /** The linking half of `HASH_ADD_TO_BKT`. */
    method LinkBkt(add: Stream, ghost nodes: set<Stream>) returns (b: nat)
      requires add in nodes && add.hashv == cfg.hash(add.id) && Holds(nodes - {add}, -1)
      modifies `chains, buckets, add`hhNext, add`hhPrev, nodes`hhPrev
      ensures Holds(nodes, -1) && b == ToBkt(add.hashv, numBuckets) && b < buckets.Length
      ensures chains == Pushed(old(chains), b, add)
      ensures buckets[b] == old(buckets[b]).(hhHead := add, count := old(buckets[b].count) + 1)
      ensures forall i :: 0 <= i < buckets.Length && i != b ==> buckets[i] == old(buckets[i])
    {
      b := BktOf(add.hashv);
      chains := LinkIntoBkt(buckets, b, add, log2NumBuckets, chains, nodes, cfg.hash);
    }

    /** `HASH_DEL_IN_BKT` on the bucket of n; over >= 0 when n is detached but still counted there. */
    method UnlinkBkt(n: Stream, ghost over: int, ghost nodes: set<Stream>) returns (ghost b: nat, ghost j: int)
      requires Holds(if over < 0 then nodes else nodes - {n}, over) && n in nodes && n.hashv == cfg.hash(n.id)
      requires over >= 0 ==> over == ToBkt(n.hashv, buckets.Length) && n.hhNext == null && n.hhPrev == null
      modifies `chains, buckets, nodes`hhNext, nodes`hhPrev
      ensures Holds(nodes - {n}, -1) && b == ToBkt(n.hashv, numBuckets) && b < buckets.Length
      ensures over < 0 ==> 0 <= j < |old(chains)[b]| && old(chains)[b][j] == n
      ensures over < 0 ==> chains == old(chains)[b := Without(old(chains)[b], j)]
      ensures over >= 0 ==> chains == old(chains)
      ensures buckets[b] == old(buckets[b]).(hhHead := Nth(chains[b], 0), count := |chains[b]|)
      ensures forall i :: 0 <= i < buckets.Length && i != b ==> buckets[i] == old(buckets[i])
    {
      var bkt := BktOf(n.hashv);
      chains, j := UnlinkChain(buckets, bkt, n, over, log2NumBuckets, chains, nodes, cfg.hash);
      b := bkt;
    }

    /** Whether `HASH_ADD_TO_BKT` tries to expand after counting one more node in a bucket. */
    predicate Overfull(count: nat, expandMult: nat)
      reads `noexpand
    {
      count >= (expandMult + 1) * BKT_CAPACITY_THRESH && !noexpand
    }

    /** `HASH_ADD_TO_BKT`; when the expansion cannot be allocated, the node is taken out of the bucket again. */
    method AddToBkt(add: Stream, mem: bool, ghost nodes: set<Stream>)
      returns (oomed: bool, ghost b: nat, ghost full: bool)
      requires add in nodes && add.hashv == cfg.hash(add.id) && Holds(nodes - {add}, -1)
      requires numItems > 0 && (mem ==> log2NumBuckets < 31)
      modifies `buckets, `numBuckets, `log2NumBuckets, `chains, buckets
      modifies `idealChainMaxlen, `nonidealItems, `ineffExpands, `noexpand, nodes`hhNext, nodes`hhPrev
      ensures b == ToBkt(add.hashv, old(numBuckets)) && b < |old(chains)| && b < old(buckets.Length)
      ensures full == old(Overfull(buckets[b].count + 1, buckets[b].expandMult)) && oomed == (full && !mem)
      ensures Holds(if oomed then nodes - {add} else nodes, -1)
      ensures oomed ==> chains == old(chains) && buckets == old(buckets) && StatsKept()
      ensures oomed ==> forall i :: 0 <= i < buckets.Length ==> buckets[i] == old(buckets[i])
      ensures !full ==> chains == Pushed(old(chains), b, add) && buckets == old(buckets) && StatsKept()
      ensures full && mem ==> Doubled(Pushed(old(chains), b, add), old(ineffExpands)) && fresh(buckets)
    {
      oomed := false;
      var bkt := LinkBkt(add, nodes);
      b, full := bkt, Overfull(buckets[bkt].count, buckets[bkt].expandMult);
      if Overfull(buckets[bkt].count, buckets[bkt].expandMult) {
        oomed := ExpandBuckets(mem, nodes);
        if oomed {
          ghost var b', j := UnlinkBkt(add, -1, nodes);
          UndoPush(old(chains), b, add, chains, j);
        }
      }
    }

    /** `HASH_ROLLBACK_BKT` */
    method RollbackBkt(add: Stream, ghost nodes: set<Stream>) returns (b: nat)
      requires add in nodes && add.hashv == cfg.hash(add.id) && Holds(nodes - {add}, -1)
      modifies buckets, add`hhNext, add`hhPrev
      ensures b == ToBkt(add.hashv, numBuckets) && b < buckets.Length && Holds(nodes - {add}, b)
      ensures add.hhNext == null && add.hhPrev == null
      ensures buckets[b] == old(buckets[b]).(count := old(buckets[b]).count + 1)
      ensures forall i :: 0 <= i < buckets.Length && i != b ==> buckets[i] == old(buckets[i])
    {
      b := BktOf(add.hashv);
      buckets[b] := buckets[b].(count := buckets[b].count + 1);
      add.hhNext := null;
      add.hhPrev := null;
    }

    /** `HASH_BLOOM_ADD` */
    method BloomAdd(add: Stream, ghost nodes: set<Stream>)
      requires add.hashv == cfg.hash(add.id) && BloomHolds(nodes - {add})
      modifies bloomBv
      ensures BloomHolds(nodes)
      ensures cfg.bloom ==> Marked(old(bloomBv[..]), bloomBv[..], BitOf(add.hashv, cfg.bloomBits))
      ensures cfg.bloom ==> forall j: nat ::
        BitSet(bloomBv[..], j) <==> j == BitOf(add.hashv, cfg.bloomBits) || BitSet(old(bloomBv[..]), j)
      ensures !cfg.bloom ==> bloomBv[..] == old(bloomBv[..])
    {
      if cfg.bloom {
        var i := BitOf(add.hashv, cfg.bloomBits);
        ghost var was := bloomBv[..];
        SetMarks(was, i);
        SetBit(bloomBv, i);
        forall n {:trigger n.id} | n in nodes
          ensures BitSet(bloomBv[..], BitOf(cfg.hash(n.id), cfg.bloomBits))
        {
          WithBitSets(was, i, BitOf(cfg.hash(n.id), cfg.bloomBits));
        }
      }
    }

    /** `HASH_FIND_IN_BKT` */
    method FindInBkt(b: nat, key: Word, hashv: Word, ghost nodes: set<Stream>) returns (out: Stream?)
      requires Holds(nodes, -1) && b < buckets.Length && hashv == cfg.hash(key)
      ensures out == FirstWith(chains[b], key)
    {
      ghost var c, i := chains[b], 0;
      out := buckets[b].hhHead;
      assert c[0..] == c;
      while out != null
        invariant i <= |c| && out == Nth(c, i) && FirstWith(c[i..], key) == FirstWith(c, key)
        decreases |c| - i
      {
        assert out in c;
        if out.hashv == hashv && out.id == key {
          break;
        }
        assert c[i..][1..] == c[i + 1..];
        out := out.hhNext;
        i := i + 1;
      }
    }

    /** `HASH_BLOOM_TEST` */
    predicate BloomTest(hashv: Word)
      reads `bloomBv, bloomBv
    {
      cfg.bloom ==> BitSet(bloomBv[..], BitOf(hashv, cfg.bloomBits))
    }

    /** The gate opens without a filter, and otherwise exactly for a set bit. */
    lemma GateIs(hashv: Word)
      ensures !cfg.bloom ==> BloomTest(hashv)
      ensures cfg.bloom ==> var i := hashv % Pow2(cfg.bloomBits);
        BloomTest(hashv) <==> i / 8 < bloomBv.Length && (bloomBv[i / 8] >> (i % 8)) & 1 == 1
    {
      hide Pow2, Has, Bit;
      BitOfIs(hashv, cfg.bloomBits);
      var i := BitOf(hashv, cfg.bloomBits);
      if i / 8 < bloomBv.Length {
        HasBit(bloomBv[i / 8], i % 8);
      }
    }

    /** One bucket's share of `HASH_FSCK`: walks its chain, checking `hh_prev` and counting. */
    method CheckChain(b: nat, ghost nodes: set<Stream>) returns (ok: bool, bktCount: nat)
      requires Holds(nodes, -1) && b < buckets.Length
      ensures ok && bktCount == |chains[b]| == buckets[b].count
    {
      ghost var c := chains[b];
      ok, bktCount := true, 0;
      var thh := buckets[b].hhHead;
      var prev: Stream? := null;
      while thh != null
        invariant ok && bktCount <= |c| && thh == Nth(c, bktCount)
        invariant prev == if bktCount == 0 then null else c[bktCount - 1]
        decreases |c| - bktCount
      {
        assert c[bktCount] in nodes;
        if prev != thh.hhPrev {
          ok := false;
        }
        bktCount := bktCount + 1;
        prev := thh;
        thh := thh.hhNext;
      }
    }

    /** The bucket half of `HASH_FSCK`. */
    method CheckBuckets(ghost nodes: set<Stream>) returns (ok: bool)
      requires Holds(nodes, -1) && numItems == |nodes|
      ensures ok
    {
      ok := true;
      var count := 0;
      var i := 0;
      while i < numBuckets
        invariant i <= numBuckets == |chains| && ok && count == Total(chains, i)
      {
        var chainOk, bktCount := CheckChain(i, nodes);
        count := count + bktCount;
        if !chainOk || buckets[i].count != bktCount {
          ok := false;
        }
        i := i + 1;
      }
      TotalNodes(buckets, log2NumBuckets, chains, nodes, cfg.hash);
      if count != numItems {
        ok := false;
      }
    }
  }
}
