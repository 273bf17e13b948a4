/** The hash table macros of src/uthash.h over an insertion-order list and its `UT_hash_table`. */
module UtHash {
  import opened Bits
  import opened StreamRecord
  import opened Chains
  import opened Buckets
  import opened Bloom
  import opened UtTable
  import opened MergeSort
  import opened ListSort

  /** The `head` variable and the table it leads to; both are null while nothing is stored. */
  class Index {
    const cfg: Config
    var head: Stream?
    var tbl: UtTable?

    /** The stored elements in insertion order. */
    ghost var order: seq<Stream>

    constructor (cfg: Config)
      ensures Valid() && order == [] && this.cfg == cfg && tbl == null
    {
      this.cfg := cfg;
      head, tbl, order := null, null, [];
    }

    /** The table, its bucket array and its filter. */
    ghost function Repr(): set<object>
      reads `tbl, tbl
    {
      if tbl == null then {} else {tbl as object, tbl.buckets, tbl.bloomBv}
    }

    ghost predicate Valid()
      reads this, tbl, Repr(), order
    {
      if order == [] then head == null && tbl == null
      else
        && tbl != null && tbl.cfg == cfg && tbl.numItems == |order|
        && ListHeld(order, head, tbl.tail)
        && tbl.Holds(Elems(order), -1) && tbl.BloomHolds(Elems(order))
    }

    /** The removal half of `HASH_DELETE_HH` that concerns the insertion-order list. */
    method UnlinkList(n: Stream) returns (ghost k: nat)
      requires tbl != null && ListHeld(order, head, tbl.tail) && n in order && (n.prev != null || n.next != null)
      modifies `head, `order, tbl`tail, order`next, order`prev
      ensures ListHeld(order, head, tbl.tail) && Elems(order) == Elems(old(order)) - {n}
      ensures k < |old(order)| && old(order)[k] == n && order == Without(old(order), k)
    {
      k := Position(order, n);
      OnlyNode(order, n);
      WithoutElems(order, k);
      if n == tbl.tail {
        tbl.tail := n.prev;
      }
      if n.prev == null {
        head := n.next;
      }
      BypassList(n, order, k);
      order := Without(order, k);
    }

    /** The removal of an element that is not the only one from both lists. */
    method UnlinkBoth(n: Stream, ghost over: int) returns (ghost k: nat)
      requires tbl != null && tbl.cfg == cfg && tbl.numItems == |order| && ListHeld(order, head, tbl.tail)
      requires n in order && n.hashv == cfg.hash(n.id) && tbl.BloomHolds(Elems(order) - {n})
      requires tbl.Holds(if over < 0 then Elems(order) else Elems(order) - {n}, over)
      requires n.prev != null || n.next != null
      requires over >= 0 ==> over == ToBkt(n.hashv, tbl.buckets.Length) && n.hhNext == null && n.hhPrev == null
      modifies `head, `order, tbl`tail, tbl`numItems, tbl`chains, tbl.buckets
      modifies order`next, order`prev, order`hhNext, order`hhPrev
      ensures tbl.numItems == |order| && ListHeld(order, head, tbl.tail)
      ensures tbl.Holds(Elems(order), -1) && tbl.BloomHolds(Elems(order))
      ensures k < |old(order)| && old(order)[k] == n && order == Without(old(order), k)
      ensures over >= 0 ==> tbl.chains == old(tbl.chains) && over < tbl.buckets.Length
      ensures over >= 0 ==>
        tbl.buckets[over] == old(tbl.buckets[over]).(hhHead := Nth(tbl.chains[over], 0), count := |tbl.chains[over]|)
      ensures over >= 0 ==>
        forall i :: 0 <= i < tbl.buckets.Length && i != over ==> tbl.buckets[i] == old(tbl.buckets[i])
    {
      hide Valid, Buckets.Holds, ListHeld, UtTable.Holds;
      ghost var nodes := Elems(order);
      k := UnlinkList(n);
      ghost var b, j := tbl.UnlinkBkt(n, over, nodes);
      tbl.numItems := tbl.numItems - 1;
    }

    /** `HASH_DELETE_HH`; over >= 0 when an add rolls back a node that is detached but still counted in its bucket. */
    method DeleteHH(n: Stream, ghost over: int) returns (ghost k: nat)
      requires tbl != null && tbl.cfg == cfg && tbl.numItems == |order| && ListHeld(order, head, tbl.tail)
      requires n in order && n.hashv == cfg.hash(n.id) && tbl.BloomHolds(Elems(order) - {n})
      requires tbl.Holds(if over < 0 then Elems(order) else Elems(order) - {n}, over)
      requires over >= 0 ==>
        |order| > 1 && over == ToBkt(n.hashv, tbl.buckets.Length) && n.hhNext == null && n.hhPrev == null
      modifies `head, `tbl, `order, tbl`tail, tbl`numItems, tbl`chains, tbl.buckets
      modifies order`next, order`prev, order`hhNext, order`hhPrev
      ensures Valid() && k < |old(order)| && old(order)[k] == n && order == Without(old(order), k)
      ensures order != [] ==> tbl == old(tbl)
      ensures over >= 0 ==> order != [] && tbl.chains == old(tbl.chains) && over < tbl.buckets.Length
      ensures over >= 0 ==>
        tbl.buckets[over] == old(tbl.buckets[over]).(hhHead := Nth(tbl.chains[over], 0), count := |tbl.chains[over]|)
      ensures over >= 0 ==>
        forall i :: 0 <= i < tbl.buckets.Length && i != over ==> tbl.buckets[i] == old(tbl.buckets[i])
    {
      hide Valid, Buckets.Holds, ListHeld, UtTable.Holds, UtTable.BloomHolds;
      OnlyHeld(order, head, tbl.tail, n);
      if n.prev == null && n.next == null {
        k, head, tbl, order := 0, null, null, [];
      } else {
        k := UnlinkBoth(n, over);
      }
      ValidIf();
    }

    lemma ValidIf()
      requires order == [] ==> head == null && tbl == null
      requires order != [] ==>
        && tbl != null && tbl.cfg == cfg && tbl.numItems == |order| && ListHeld(order, head, tbl.tail)
        && tbl.Holds(Elems(order), -1) && tbl.BloomHolds(Elems(order))
      ensures Valid()
    {
    }

    /** `HASH_DELETE` */
    method Delete(n: Stream) returns (ghost k: nat)
      requires Valid() && n in order
      modifies `head, `tbl, `order, tbl`tail, tbl`numItems, tbl`chains, tbl.buckets
      modifies order`next, order`prev, order`hhNext, order`hhPrev
      ensures Valid() && k < |old(order)| && old(order)[k] == n && order == Without(old(order), k)
      ensures order != [] ==> tbl == old(tbl)
    {
      NodeHashed(n);
      k := DeleteHH(n, -1);
    }

    lemma NodeHashed(n: Stream)
      requires Valid() && n in order
      ensures n.hashv == cfg.hash(n.id)
    {
    }

    /** Takes an appended node out again when its bucket could not be expanded. */
    method UndoAdd(add: Stream)
      requires tbl != null && tbl.cfg == cfg && tbl.numItems == |order| > 1 && ListHeld(order, head, tbl.tail)
      requires order[|order| - 1] == add && add.hashv == cfg.hash(add.id)
      requires tbl.Holds(Elems(order) - {add}, -1) && tbl.BloomHolds(Elems(order) - {add})
      modifies `head, `tbl, `order, tbl`tail, tbl`numItems, tbl`chains, tbl.buckets
      modifies order`next, order`prev, order`hhNext, order`hhPrev
      ensures Valid() && order == old(order)[..|old(order)| - 1] && tbl == old(tbl) && tbl.chains == old(tbl.chains)
      ensures forall i :: 0 <= i < tbl.buckets.Length ==> tbl.buckets[i] == old(tbl.buckets[i])
    {
      hide Buckets.Holds;
      LastPosition(order);
      tbl.BucketsMatch(Elems(order) - {add});
      var b := tbl.RollbackBkt(add, Elems(order));
      ghost var k := DeleteHH(add, b);
    }

    /** `HASH_ADD_KEYPTR_BYHASHVALUE` into an empty index; mem says whether the table can be allocated. */
    method AddFirst(add: Stream, mem: bool) returns (oomed: bool)
      requires Valid() && order == []
      modifies `head, `tbl, `order, add`hashv, add`next, add`prev, add`hhNext, add`hhPrev
      ensures Valid() && oomed == !mem && order == (if oomed then [] else [add])
      ensures !oomed ==> fresh(tbl) && fresh(tbl.buckets) && fresh(tbl.bloomBv)
      ensures !oomed && cfg.bloom ==> Marked([], tbl.bloomBv[..], BitOf(cfg.hash(add.id), cfg.bloomBits))
    {
      hide Marked, Buckets.Holds, UtTable.Holds, Overflow, Rehashed, AllMultiplied, IsCeil, Pushed;
      add.hashv := cfg.hash(add.id);
      add.next := null;
      add.prev := null;
      oomed := !mem;
      if mem {
        var t := new UtTable(cfg, add);
        ClearIsEmpty(t.bloomBv[..]);
        head, tbl, order := add, t, [add];
        t.numItems := t.numItems + 1;
        PutFirst(t, add);
        assert Elems(order) == {add};
      }
    }

    /** Links the one element of a new table into its bucket; that cannot run out of memory. */
    method PutFirst(t: UtTable, add: Stream)
      requires t.cfg == cfg && add.hashv == cfg.hash(add.id) && t.numItems == 1
      requires t.Holds({}, -1) && t.BloomHolds({})
      requires t.numBuckets == INITIAL_NUM_BUCKETS && t.chains == EmptyChains(INITIAL_NUM_BUCKETS)
      requires t.ineffExpands == 0
      requires forall b :: 0 <= b < t.buckets.Length ==> t.buckets[b] == EMPTY_BUCKET
      modifies t, t.buckets, t.bloomBv, add`hhNext, add`hhPrev
      ensures t.Holds({add}, -1) && t.BloomHolds({add}) && t.numItems == 1 && t.tail == old(t.tail)
      ensures t.buckets == old(t.buckets) && t.bloomBv == old(t.bloomBv)
      ensures cfg.bloom ==> Marked(old(t.bloomBv[..]), t.bloomBv[..], BitOf(add.hashv, cfg.bloomBits))
    {
      hide Marked, Buckets.Holds, UtTable.Holds, Overflow, Rehashed, AllMultiplied, IsCeil;
      ghost var nodes := {add};
      assert nodes - {add} == {};
      t.BucketsMatch({});
      ghost var b, full;
      var oomed;
      oomed, b, full := t.AddToBkt(add, false, nodes);
      t.BloomAdd(add, nodes);
    }

    /** `HASH_APPEND_LIST`, and the element count of `HASH_ADD_TO_TABLE`. */
    method Append(add: Stream)
      requires Valid() && order != [] && add !in order
      modifies `order, tbl`tail, tbl`numItems, add`hashv, add`next, add`prev, order`next
      ensures tbl.cfg == cfg && tbl.numItems == |order| && ListHeld(order, head, tbl.tail)
      ensures order == old(order) + [add] && Elems(order) - {add} == Elems(old(order)) && add.hashv == cfg.hash(add.id)
      ensures tbl.Holds(Elems(order) - {add}, -1) && tbl.BloomHolds(Elems(order) - {add})
    {
      hide Buckets.Holds;
      add.hashv := cfg.hash(add.id);
      LinkLast(tbl.tail, add, order, head);
      tbl.tail := add;
      ghost var was := order;
      order := order + [add];
      assert Elems(order) - {add} == Elems(was);
      tbl.numItems := tbl.numItems + 1;
    }

    /** The rest of `HASH_ADD_TO_TABLE`, with its out-of-memory path. */
    method AddToTable(add: Stream, mem: bool) returns (oomed: bool, ghost b: nat, ghost full: bool)
      requires tbl != null && tbl.cfg == cfg && tbl.numItems == |order| > 1 && ListHeld(order, head, tbl.tail)
      requires order[|order| - 1] == add && add.hashv == cfg.hash(add.id) && (mem ==> tbl.log2NumBuckets < 31)
      requires tbl.Holds(Elems(order) - {add}, -1) && tbl.BloomHolds(Elems(order) - {add})
      modifies `head, `tbl, `order, tbl, tbl.buckets, tbl.bloomBv
      modifies order`next, order`prev, order`hhNext, order`hhPrev
      ensures Valid() && tbl == old(tbl) && order == if oomed then old(order)[..|old(order)| - 1] else old(order)
      ensures b == ToBkt(add.hashv, old(tbl.numBuckets)) && b < |old(tbl.chains)| && b < old(tbl.buckets.Length)
      ensures full == old(tbl.Overfull(tbl.buckets[b].count + 1, tbl.buckets[b].expandMult)) && oomed == (full && !mem)
      ensures oomed ==> tbl.chains == old(tbl.chains) && tbl.buckets == old(tbl.buckets) && tbl.StatsKept()
      ensures oomed ==> forall i :: 0 <= i < tbl.buckets.Length ==> tbl.buckets[i] == old(tbl.buckets[i])
      ensures tbl.bloomBv == old(tbl.bloomBv) && (oomed || !cfg.bloom ==> tbl.bloomBv[..] == old(tbl.bloomBv[..]))
      ensures !oomed && cfg.bloom ==>
        Marked(old(tbl.bloomBv[..]), tbl.bloomBv[..], BitOf(cfg.hash(add.id), cfg.bloomBits))
      ensures !full ==>
        tbl.chains == Pushed(old(tbl.chains), b, add) && tbl.buckets == old(tbl.buckets) && tbl.StatsKept()
      ensures full && mem ==>
        tbl.Doubled(Pushed(old(tbl.chains), b, add), old(tbl.ineffExpands)) && fresh(tbl.buckets)
    {
      hide Buckets.Holds;
      oomed, b, full := tbl.AddToBkt(add, mem, Elems(order));
      if oomed {
        UndoAdd(add);
      } else {
        tbl.BloomAdd(add, Elems(order));
      }
    }

    /** `HASH_ADD_KEYPTR_BYHASHVALUE` into a non-empty index; mem says whether a larger bucket array can be
        allocated. */
    method AddNext(add: Stream, mem: bool) returns (oomed: bool, ghost b: nat, ghost full: bool)
      requires Valid() && order != [] && add !in order
      requires |order| + 1 < WORD_MODULUS && (mem ==> tbl.log2NumBuckets < 31)
      modifies `head, `tbl, `order, tbl, tbl.buckets, tbl.bloomBv
      modifies add`hashv, add`next, add`prev, add`hhNext, add`hhPrev, order`next, order`prev, order`hhNext, order`hhPrev
      ensures Valid() && tbl == old(tbl) && order == if oomed then old(order) else old(order) + [add]
      ensures b == ToBkt(cfg.hash(add.id), old(tbl.numBuckets)) && b < |old(tbl.chains)| && b < old(tbl.buckets.Length)
      ensures full == old(tbl.Overfull(tbl.buckets[b].count + 1, tbl.buckets[b].expandMult)) && oomed == (full && !mem)
      ensures oomed ==> tbl.chains == old(tbl.chains) && tbl.buckets == old(tbl.buckets) && tbl.StatsKept()
      ensures oomed ==> forall i :: 0 <= i < tbl.buckets.Length ==> tbl.buckets[i] == old(tbl.buckets[i])
      ensures tbl.bloomBv == old(tbl.bloomBv) && (oomed || !cfg.bloom ==> tbl.bloomBv[..] == old(tbl.bloomBv[..]))
      ensures !oomed && cfg.bloom ==>
        Marked(old(tbl.bloomBv[..]), tbl.bloomBv[..], BitOf(cfg.hash(add.id), cfg.bloomBits))
      ensures oomed ==> unchanged(old(order)`next, old(order)`prev, old(order)`hhNext, old(order)`hhPrev)
      ensures !full ==>
        tbl.chains == Pushed(old(tbl.chains), b, add) && tbl.buckets == old(tbl.buckets) && tbl.StatsKept()
      ensures full && mem ==>
        tbl.Doubled(Pushed(old(tbl.chains), b, add), old(tbl.ineffExpands)) && fresh(tbl.buckets)
    {
      hide Buckets.Holds;
      Append(add);
      oomed, b, full := AddToTable(add, mem);
      if oomed {
        SameListLinks(order);
        tbl.SameChains(Elems(order));
      }
    }

    /** What a lookup without the Bloom gate finds. */
    ghost function Lookup(key: Word): Stream?
      requires Valid()
      reads this, tbl, Repr(), order
    {
      if order == [] then null
      else
        BktInRange(cfg.hash(key));
        FirstWith(tbl.chains[ToBkt(cfg.hash(key), tbl.numBuckets)], key)
    }

    lemma BktInRange(h: Word)
      requires Valid() && order != []
      ensures |tbl.chains| == tbl.numBuckets == tbl.buckets.Length > 0 && ToBkt(h, tbl.numBuckets) < tbl.numBuckets
    {
      MaskBound(h, tbl.log2NumBuckets);
    }

    /** A lookup finds exactly the stored keys. */
    lemma LookupFinds(key: Word)
      requires Valid()
      ensures Lookup(key) != null ==> Lookup(key) in order && Lookup(key).id == key
      ensures Lookup(key) == null <==> forall n :: n in order ==> n.id != key
    {
      if order != [] {
        BktInRange(cfg.hash(key));
        var c := tbl.chains[ToBkt(cfg.hash(key), tbl.numBuckets)];
        FirstWithFinds(c, key);
        forall n | n in order && n.id == key
          ensures n in c
        {
          assert n.hashv == cfg.hash(key);
        }
      }
    }

    /** `HASH_FIND`, with the Bloom gate when it is configured: the gate never changes the answer. */
    method Find(key: Word) returns (out: Stream?)
      requires Valid()
      ensures out == Lookup(key)
    {
      out := null;
      if head != null {
        var hashv := cfg.hash(key);
        BktInRange(hashv);
        var b := tbl.BktOf(hashv);
        LookupFinds(key);
        if tbl.BloomTest(hashv) {
          out := tbl.FindInBkt(b, key, hashv, Elems(order));
        } else {
          forall n | n in order
            ensures n.id != key
          {
          }
        }
      }
    }

    /** `HASH_FSCK`: every integrity check of a debug build passes. */
    method Fsck() returns (ok: bool)
      requires Valid()
      ensures ok
    {
      ok := true;
      if head != null {
        NoDupOf();
        CardElems(order);
        ok := tbl.CheckBuckets(Elems(order));
        var count := 0;
        var prev: Stream? := null;
        var thh := head;
        while thh != null
          invariant ok && count <= |order| && thh == Nth(order, count)
          invariant prev == if count == 0 then null else order[count - 1]
          decreases |order| - count
        {
          count := count + 1;
          if prev != thh.prev {
            ok := false;
          }
          prev := thh;
          thh := thh.next;
        }
        if count != tbl.numItems {
          ok := false;
        }
      }
    }

    lemma NoDupOf()
      requires Valid()
      ensures NoDup(order)
    {
    }

    /** The bucket a key belongs to. */
    ghost function Target(key: Word): (b: nat)
      requires Valid() && order != []
      reads this, tbl, Repr(), order
      ensures b < |tbl.chains| && b < tbl.buckets.Length
    {
      BktInRange(cfg.hash(key));
      ToBkt(cfg.hash(key), tbl.numBuckets)
    }

    /** Whether adding this key makes the table try to expand. */
    ghost predicate Grows(key: Word)
      requires Valid()
      reads this, tbl, Repr(), order
    {
      order != [] && tbl.Overfull(tbl.buckets[Target(key)].count + 1, tbl.buckets[Target(key)].expandMult)
    }

    /** The bucket is the hash value's remainder, and the table grows when the chain there reaches ten
        times one more than its multiplier. */
    lemma GrowsIff(key: Word)
      requires Valid()
      ensures order != [] ==> Target(key) == cfg.hash(key) % tbl.numBuckets
      ensures order == [] ==> !Grows(key)
      ensures order != [] ==> var b := Target(key);
        Grows(key) <==> !tbl.noexpand && |tbl.chains[b]| + 1 >= 10 * (tbl.buckets[b].expandMult + 1)
    {
      hide ListHeld, UtTable.BloomHolds;
      if order != [] {
        BktIsRemainder(cfg.hash(key), tbl.log2NumBuckets);
        tbl.BucketsMatch(Elems(order));
      }
    }

    /** `HASH_ADD`. In a build without `HASH_NONFATAL_OOM` both allocations must succeed. */
    method Add(add: Stream, tableMem: bool, bucketMem: bool) returns (oomed: bool)
      requires Valid() && add !in order && |order| + 1 < WORD_MODULUS
      requires tbl != null && bucketMem ==> tbl.numBuckets < 0x8000_0000
      modifies this, tbl, Repr(), order, add`hashv, add`next, add`prev, add`hhNext, add`hhPrev
      ensures Valid() && order == if oomed then old(order) else old(order) + [add]
      ensures oomed <==> if old(tbl) == null then !tableMem else old(Grows(add.id)) && !bucketMem
      ensures oomed ==> head == old(head) && tbl == old(tbl)
      ensures oomed ==> unchanged(old(order)`next, old(order)`prev, old(order)`hhNext, old(order)`hhPrev)
      ensures oomed && tbl != null ==>
        && tbl.chains == old(tbl.chains) && tbl.buckets == old(tbl.buckets) && tbl.StatsKept()
        && tbl.buckets[..] == old(tbl.buckets[..]) && tbl.bloomBv[..] == old(tbl.bloomBv[..])
        && unchanged(tbl`numBuckets, tbl`log2NumBuckets, tbl`idealChainMaxlen, tbl`nonidealItems)
        && unchanged(tbl`ineffExpands, tbl`noexpand)
      ensures old(tbl) != null ==> tbl == old(tbl) && tbl.bloomBv == old(tbl.bloomBv)
      ensures !oomed && cfg.bloom ==>
        var before := if old(tbl) == null then [] else old(tbl.bloomBv[..]);
        Marked(before, tbl.bloomBv[..], BitOf(cfg.hash(add.id), cfg.bloomBits))
      ensures old(tbl) != null && !old(Grows(add.id)) ==>
        && tbl.chains == Pushed(old(tbl.chains), old(Target(add.id)), add)
        && tbl.buckets == old(tbl.buckets) && tbl.StatsKept()
      ensures old(tbl) != null && old(Grows(add.id)) && bucketMem ==>
        tbl.Doubled(Pushed(old(tbl.chains), old(Target(add.id)), add), old(tbl.ineffExpands)) && fresh(tbl.buckets)
      ensures old(tbl) != null && old(Grows(add.id)) && bucketMem ==> forall b :: 0 <= b < tbl.buckets.Length ==>
        Multiplied(tbl.buckets[b].count, tbl.buckets[b].expandMult, tbl.idealChainMaxlen)
      ensures old(tbl) != null && old(tbl.noexpand) ==> tbl.noexpand && tbl.numBuckets == old(tbl.numBuckets)
      ensures fresh(Repr() - old(Repr()))
    {
      hide Marked, Buckets.Holds, ListLinked, NoDup, Rehashed, Overflow, IsCeil, Multiplied;
      if head == null {
        oomed := AddFirst(add, tableMem);
      } else {
        tbl.SizeBound(Elems(order));
        ghost var b, full;
        oomed, b, full := AddNext(add, bucketMem);
      }
    }

    /** `HASH_SRT`: the insertion-order list becomes its stable sort; no chain, and so no lookup, changes. */
    method Sort(cmp: (Stream, Stream) -> int)
      requires Valid() && |order| < WORD_MODULUS
      modifies `head, `order, (if tbl == null then {} else {tbl})`tail, order`next, order`prev
      ensures Valid() && order == SortFrom(Leq(cmp), old(order), 1)
      ensures Consistent(cmp, old(order)) ==> StablySorted(cmp, old(order), order)
      ensures Consistent(cmp, old(order)) ==> forall i, j :: 0 <= i < j < |order| ==> cmp(order[i], order[j]) <= 0
      ensures forall key: Word :: Lookup(key) == old(Lookup(key))
    {
      hide UtTable.Holds, UtTable.BloomHolds, SortFrom, Leq, Consistent, StablySorted;
      SortPermutes(Leq(cmp), order, 1);
      if Consistent(cmp, order) {
        SortIsStable(cmp, order);
      }
      if head != null {
        NoDupPermuted(order, SortFrom(Leq(cmp), order, 1));
        var h, t;
        h, t, order := SortList(cmp, head, tbl.tail, order);
        head := h;
        tbl.tail := t;
      }
    }
  }
}
