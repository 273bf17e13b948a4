/** The stream index of a provider (src/provider.c). */
module Provider {
  import opened Bits
  import opened StreamRecord
  import opened Chains
  import opened UtTable
  import opened UtHash
  import opened StreamId
  import IndexSpec

  /** The `aggregator_return_t` values used here; Exited is the default build's end of the process on out-of-memory. */
  datatype Ret = Success | InvalidName | InvalidStream | Exited

  /** A `char*` that may be NULL. */
  datatype MaybeString = Null | Str(s: CString)

  ghost predicate UniqueIds(s: seq<Stream>) {
    forall i, j {:trigger At(i), At(j)} :: 0 <= i < j < |s| ==> s[i].id != s[j].id
  }

  lemma UniqueElim(s: seq<Stream>)
    requires UniqueIds(s)
    ensures forall i, j :: 0 <= i < j < |s| ==> s[i].id != s[j].id
  {
    forall i, j | 0 <= i < j < |s|
      ensures s[i].id != s[j].id
    {
      assert At(i) && At(j);
    }
  }

  lemma UniqueSnoc(s: seq<Stream>, n: Stream)
    requires UniqueIds(s) && forall x :: x in s ==> x.id != n.id
    ensures UniqueIds(s + [n]) && Elems(s + [n]) == Elems(s) + {n}
  {
    UniqueElim(s);
  }

  lemma UniqueWithout(s: seq<Stream>, k: nat)
    requires UniqueIds(s) && k < |s|
    ensures UniqueIds(Without(s, k)) && Elems(Without(s, k)) == Elems(s) - {s[k]}
  {
    UniqueElim(s);
    UniqueNoDup(s);
    WithoutElems(s, k);
  }

  lemma UniqueNoDup(s: seq<Stream>)
    requires UniqueIds(s)
    ensures NoDup(s)
  {
    UniqueElim(s);
  }

  ghost function Ids(s: seq<Stream>): (ids: seq<Word>)
    ensures |ids| == |s|
  {
    seq(|s|, i requires 0 <= i < |s| => s[i].id)
  }

  lemma IdsWithout(s: seq<Stream>, k: nat)
    requires UniqueIds(s) && k < |s|
    ensures Ids(Without(s, k)) == IndexSpec.Drop(Ids(s), s[k].id)
  {
    UniqueElim(s);
    IndexSpec.DropAt(Ids(s), k);
    assert Ids(Without(s, k)) == Ids(s)[..k] + Ids(s)[k + 1..];
  }

  lemma IdsSnoc(s: seq<Stream>, n: Stream)
    ensures Ids(s + [n]) == Ids(s) + [n.id]
  {
  }

  lemma IdsMember(s: seq<Stream>, id: Word)
    ensures id in Ids(s) <==> exists n :: n in s && n.id == id
  {
    if id in Ids(s) {
      var i :| 0 <= i < |s| && Ids(s)[i] == id;
      assert s[i] in s;
    }
    if n :| n in s && n.id == id {
      var i := Position(s, n);
      assert Ids(s)[i] == id;
    }
  }

  class Provider {
    const streams: Index
    var numStreams: nat

    /** The streams that have been freed. */
    ghost var freed: set<Stream>

    constructor (cfg: Config)
      ensures Valid() && streams.order == [] && fresh(streams) && fresh(streams.Repr()) && freed == {}
    {
      streams := new Index(cfg);
      numStreams, freed := 0, {};
    }

    ghost predicate Valid()
      reads this, streams, streams.tbl, streams.Repr(), streams.order
    {
      && streams.Valid() && UniqueIds(streams.order) && numStreams == |streams.order|
      && freed !! Elems(streams.order)
    }

    /** From one state to the next the table is dropped, replaced by a new one, or the same; and once the
        expansion of a table is off, it stays off and the number of buckets stays what it is. */
    twostate predicate TableAges()
      reads streams, streams.tbl
    {
      && (streams.tbl == null || streams.tbl == old(streams.tbl) || fresh(streams.tbl))
      && (streams.tbl != null && streams.tbl == old(streams.tbl) && old(streams.tbl.noexpand) ==>
        streams.tbl.noexpand && streams.tbl.numBuckets == old(streams.tbl.numBuckets))
    }

    /** `find_stream`: exactly the stored ids are found. */
    method FindStream(id: Word) returns (r: Stream?)
      requires Valid()
      ensures r != null ==> r in streams.order && r.id == id
      ensures r == null <==> forall n :: n in streams.order ==> n.id != id
    {
      r := streams.Find(id);
      streams.LookupFinds(id);
    }

    /** Whether adding a stream with this id allocates: the id is new, and there is no table or it has to grow. */
    ghost predicate NeedsMemory(id: Word)
      requires Valid()
      reads this, streams, streams.tbl, streams.Repr(), streams.order
    {
      (streams.tbl == null || streams.Grows(id)) && forall n :: n in streams.order ==> n.id != id
    }

    /** `add_stream`: a stream whose id is taken is refused and changes nothing; memory can only run out
        for a new table or for one that has to grow. */
    method AddStream(stream: Stream, mem: bool) returns (ret: Ret)
      requires Valid() && stream !in streams.order && stream !in freed && |streams.order| + 1 < WORD_MODULUS
      requires streams.tbl != null && mem ==> streams.tbl.numBuckets < 0x8000_0000
      modifies `numStreams, streams, streams.tbl, streams.Repr(), streams.order
      modifies stream`hashv, stream`next, stream`prev, stream`hhNext, stream`hhPrev
      ensures Valid() && fresh(streams.Repr() - old(streams.Repr()))
      ensures ret == InvalidStream <==> exists n :: n in old(streams.order) && n.id == stream.id
      ensures ret == Success ==> streams.order == old(streams.order) + [stream]
      ensures ret != Success ==> streams.order == old(streams.order)
      ensures ret == Success || ret == InvalidStream || ret == Exited
      ensures ret == Exited <==> !mem && old(NeedsMemory(stream.id))
      ensures ret == InvalidStream ==> unchanged(this) && unchanged(streams) && unchanged(stream)
      ensures ret == InvalidStream ==> unchanged(old(streams.Repr())) && unchanged(old(streams.order))
      ensures ret == Exited ==> streams.head == old(streams.head) && streams.tbl == old(streams.tbl)
      ensures ret == Exited ==> unchanged(old(streams.order)`next, old(streams.order)`prev)
      ensures ret == Exited ==> unchanged(old(streams.order)`hhNext, old(streams.order)`hhPrev)
      ensures ret == Exited && streams.tbl != null ==>
        && streams.tbl.StatsKept() && streams.tbl.buckets == old(streams.tbl.buckets)
        && streams.tbl.buckets[..] == old(streams.tbl.buckets[..])
      ensures TableAges()
    {
      hide Index.Valid, Elems;
      ret := InvalidStream;
      var existing := FindStream(stream.id);
      if existing == null {
        UniqueSnoc(streams.order, stream);
        var oomed := streams.Add(stream, mem, mem);
        if oomed {
          ret := Exited;
        } else {
          numStreams := numStreams + 1;
          ret := Success;
        }
      }
    }

    /** Unlinking and freeing a stored stream. */
    method Free(stream: Stream) returns (ghost k: nat)
      requires streams.Valid() && UniqueIds(streams.order) && freed !! Elems(streams.order) && stream in streams.order
      modifies `freed, streams, streams.tbl, streams.Repr(), streams.order
      ensures streams.Valid() && UniqueIds(streams.order) && freed !! Elems(streams.order)
      ensures k < |old(streams.order)| && old(streams.order)[k] == stream
      ensures streams.order == Without(old(streams.order), k) && freed == old(freed) + {stream}
      ensures streams.Repr() <= old(streams.Repr()) && TableAges()
    {
      hide Elems, ListHeld, UtTable.Holds, UtTable.BloomHolds, UniqueIds;
      ghost var was := streams.order;
      k := streams.Delete(stream);
      UniqueWithout(was, k);
      freed := freed + {stream};
    }

    /** `remove_stream` */
    method RemoveStream(id: Word) returns (ret: Ret, ghost k: nat)
      requires Valid()
      modifies `numStreams, `freed, streams, streams.tbl, streams.Repr(), streams.order
      ensures Valid() && streams.Repr() <= old(streams.Repr())
      ensures ret == Success <==> exists n :: n in old(streams.order) && n.id == id
      ensures ret == Success ==> k < |old(streams.order)| && old(streams.order)[k].id == id
      ensures ret == Success ==>
        streams.order == Without(old(streams.order), k) && freed == old(freed) + {old(streams.order)[k]}
      ensures ret != Success ==> ret == InvalidStream && streams.order == old(streams.order) && freed == old(freed)
      ensures TableAges()
    {
      hide Index.Valid, Elems, UniqueIds;
      ret, k := InvalidStream, 0;
      var stream := FindStream(id);
      if stream != null {
        k := Free(stream);
        numStreams := numStreams - 1;
        ret := Success;
      }
    }

    /** The unlinking and freeing of the element a removal loop has reached. */
    method RemoveFirst(r: Stream)
      requires streams.Valid() && UniqueIds(streams.order) && freed !! Elems(streams.order)
      requires streams.order != [] && r == streams.order[0]
      modifies `freed, streams, streams.tbl, streams.Repr(), streams.order
      ensures streams.Valid() && UniqueIds(streams.order) && freed == old(freed) + {r} && freed !! Elems(streams.order)
      ensures streams.order == old(streams.order)[1..] && streams.Repr() <= old(streams.Repr())
    {
      hide Index.Valid, Elems;
      UniqueElim(streams.order);
      ghost var k := Free(r);
    }

    /** The next element of an iteration, read before the current one is freed; a freed one is never asked. */
    method NextOf(r: Stream?, ghost i: nat) returns (nxt: Stream?)
      requires streams.Valid() && freed !! Elems(streams.order) && r == Nth(streams.order, i)
      ensures nxt == Nth(streams.order, i + 1)
      ensures r != null ==> r !in freed
    {
      nxt := null;
      if r != null {
        assert r in streams.order && r !in freed;
        nxt := r.next;
      }
    }

    /** One round of the removal loop: r is freed, and the iteration moves on along the links it has saved. */
    method RemoveStep(r: Stream, tmp: Stream?) returns (r': Stream?, tmp': Stream?)
      requires streams.Valid() && UniqueIds(streams.order) && freed !! Elems(streams.order)
      requires streams.order != [] && r == streams.order[0] && tmp == Nth(streams.order, 1)
      modifies `freed, streams, streams.tbl, streams.Repr(), streams.order
      ensures streams.Valid() && UniqueIds(streams.order) && freed !! Elems(streams.order)
      ensures streams.order == old(streams.order)[1..] && freed == old(freed) + {r}
      ensures streams.Repr() <= old(streams.Repr())
      ensures r' == Nth(streams.order, 0) && tmp' == Nth(streams.order, 1)
    {
      hide ListHeld, UtTable.Holds, UtTable.BloomHolds;
      RemoveFirst(r);
      r' := tmp;
      tmp' := NextOf(r', 0);
    }

    /** `remove_all_streams`: every stream is visited once, in order, although each is freed inside the iteration. */
    method RemoveAllStreams() returns (ghost visited: seq<Stream>)
      requires Valid()
      modifies `numStreams, `freed, streams, streams.tbl, streams.Repr(), streams.order
      ensures Valid() && streams.order == [] && numStreams == 0 && streams.Repr() <= old(streams.Repr())
      ensures visited == old(streams.order) && freed == old(freed) + Elems(old(streams.order))
    {
      hide ListHeld, UtTable.Holds, UtTable.BloomHolds, UniqueIds, Elems;
      ghost var all := streams.order;
      visited := [];
      HeadOf();
      var r := streams.head;
      var tmp := NextOf(r, 0);
      while r != null
        invariant streams.Valid() && UniqueIds(streams.order) && freed !! Elems(streams.order)
        invariant visited + streams.order == all && freed == old(freed) + Elems(visited)
        invariant streams.Repr() <= old(streams.Repr())
        invariant r == Nth(streams.order, 0) && tmp == Nth(streams.order, 1)
        decreases |streams.order|
      {
        Advance(visited, streams.order);
        TblInRepr();
        visited := visited + [r];
        r, tmp := RemoveStep(r, tmp);
      }
      numStreams := 0;
    }

    /** Moving the first element behind the visited ones. */
    static lemma Advance(a: seq<Stream>, b: seq<Stream>)
      requires b != []
      ensures a + [b[0]] + b[1..] == a + b && Elems(a + [b[0]]) == Elems(a) + {b[0]}
      ensures forall i :: 0 <= i < |b| ==> b[i] in a + b
    {
      assert forall i :: 0 <= i < |b| ==> (a + b)[|a| + i] == b[i];
    }

    lemma TblInRepr()
      ensures streams.tbl != null ==> streams.tbl in streams.Repr()
    {
    }

    lemma HeadOf()
      requires streams.Valid()
      ensures streams.head == Nth(streams.order, 0) && Elems<Stream>([]) == {}
    {
    }

    /** The allocated and zeroed record of a new stream. */
    static method NewStream(id: Word, ty: StreamType) returns (m: Stream)
      ensures fresh(m) && fresh(m.buffer) && m.id == id && m.ty == ty && m.bufferIndex == 0
      ensures m.buffer.Length == STREAM_BUFFER_SIZE
    {
      var buffer := new Sample[STREAM_BUFFER_SIZE](_ => ZERO_SAMPLE);
      m := new Stream(id, ty, buffer);
    }

    /** `aggregator_provider_stream_create`. The result of `add_stream` is ignored: when the id is taken,
        the call still succeeds, but the stream it hands out is not in the index. */
    method CreateStream(ns: MaybeString, name: MaybeString, ty: StreamType, tags: seq<CString>,
                        signedChar: bool, mem: bool)
      returns (ret: Ret, m: Stream?)
      requires Valid() && |streams.order| + 1 < WORD_MODULUS
      requires streams.tbl != null && mem ==> streams.tbl.numBuckets < 0x8000_0000
      modifies `numStreams, streams, streams.tbl, streams.Repr(), streams.order
      ensures Valid() && fresh(streams.Repr() - old(streams.Repr()))
      ensures ret == InvalidName <==> ns == Null || name == Null
      ensures ret == InvalidName || ret == Exited || ret == Success
      ensures ns != Null && name != Null ==> var id := IdOf(ns.s, name.s, tags, signedChar);
        ret == Exited <==> !mem && old(NeedsMemory(id))
      ensures ret == Success ==> m != null && fresh(m) && m.id == IdOf(ns.s, name.s, tags, signedChar)
      ensures ret == Success ==>
        m.ty == ty && m.bufferIndex == 0 && fresh(m.buffer) && m.buffer.Length == STREAM_BUFFER_SIZE
      ensures ret == Success && (exists n :: n in old(streams.order) && n.id == m.id) ==>
        streams.order == old(streams.order)
      ensures ret == Success && (forall n :: n in old(streams.order) ==> n.id != m.id) ==>
        streams.order == old(streams.order) + [m]
      ensures ret != Success ==> streams.order == old(streams.order)
    {
      hide ListHeld, UtTable.Holds, UtTable.BloomHolds, UniqueIds, Elems, IdOf;
      ret, m := InvalidName, null;
      if ns != Null && name != Null {
        var id := IdFromStrings(ns.s, name.s, tags, signedChar);
        m := NewStream(id, ty);
        var added := AddStream(m, mem);
        ret := if added == Exited then Exited else Success;
      }
    }

    /** A stream is found under the id of its names with the tags in any order. */
    lemma FoundInAnyTagOrder(m: Stream, ns: CString, name: CString, tags: seq<CString>, tags': seq<CString>,
                             signedChar: bool)
      requires Valid() && m in streams.order && m.id == IdOf(ns, name, tags, signedChar)
      requires multiset(tags) == multiset(tags')
      ensures streams.Lookup(IdOf(ns, name, tags', signedChar)) == m
    {
      TagOrderIrrelevant(ns, name, tags, tags', signedChar);
      streams.LookupFinds(m.id);
      var r := streams.Lookup(m.id);
      UniqueElim(streams.order);
      var i := Position(streams.order, m);
      var j := Position(streams.order, r);
    }

    /** The id loop of `aggregator_list_streams_ult`: one slot per stream, in insertion order. */
    method FillIds() returns (ids: array<Word>)
      requires Valid()
      ensures fresh(ids) && ids.Length == numStreams && ids[..] == Ids(streams.order)
      ensures ids.Length == |streams.order| && forall i :: 0 <= i < ids.Length ==> ids[i] == streams.order[i].id
    {
      hide ListHeld, UtTable.Holds, UtTable.BloomHolds, UniqueIds;
      ids := new Word[numStreams](_ => 0);
      HeadOf();
      var i := 0;
      var r := streams.head;
      var tmp := NextOf(r, 0);
      while r != null
        invariant i <= |streams.order| && r == Nth(streams.order, i) && tmp == Nth(streams.order, i + 1)
        invariant ids[..i] == Ids(streams.order)[..i]
        decreases |streams.order| - i
      {
        ids[i] := r.id;
        i := i + 1;
        r := tmp;
        tmp := NextOf(r, i);
      }
    }

    /** The memory a doubling of the buckets asks for is there until there are 2^31 buckets. */
    predicate BucketMemory()
      reads streams, streams.tbl
    {
      streams.tbl != null ==> streams.tbl.numBuckets < 0x8000_0000
    }

    /** A create that ends the process: a new id, a table that has to grow, and no memory for it. */
    ghost predicate Stuck(op: IndexSpec.Op)
      requires Valid()
      reads this, streams, streams.tbl, streams.Repr(), streams.order
    {
      op.Create? && op.id !in Ids(streams.order) && streams.Grows(op.id) && !BucketMemory()
    }

    method DoCreate(id: Word) returns (out: IndexSpec.Outcome, exited: bool)
      requires Valid() && |streams.order| + 1 < WORD_MODULUS
      modifies `numStreams, streams, streams.tbl, streams.Repr(), streams.order
      ensures Valid() && fresh(streams.Repr() - old(streams.Repr()))
      ensures forall n :: n in streams.order ==> n in old(streams.order) || fresh(n)
      ensures !exited ==> (Ids(streams.order), out) == IndexSpec.Step(Ids(old(streams.order)), IndexSpec.Create(id))
      ensures exited <==> old(Stuck(IndexSpec.Create(id)))
      ensures exited ==> streams.order == old(streams.order) && Stuck(IndexSpec.Create(id))
      ensures TableAges()
    {
      hide ListHeld, UtTable.Holds, UtTable.BloomHolds, UniqueIds, Elems;
      var m := NewStream(id, Gauge);
      IdsSnoc(streams.order, m);
      IdsMember(streams.order, id);
      var ret := AddStream(m, BucketMemory());
      exited := ret == Exited;
      out := if ret == Success then IndexSpec.Done else IndexSpec.Refused;
    }

    method DoRemove(id: Word) returns (out: IndexSpec.Outcome)
      requires Valid()
      modifies `numStreams, `freed, streams, streams.tbl, streams.Repr(), streams.order
      ensures Valid() && streams.Repr() <= old(streams.Repr())
      ensures forall n :: n in streams.order ==> n in old(streams.order)
      ensures (Ids(streams.order), out) == IndexSpec.Step(Ids(old(streams.order)), IndexSpec.Remove(id))
      ensures TableAges()
    {
      hide ListHeld, UtTable.Holds, UtTable.BloomHolds, Elems;
      IdsMember(streams.order, id);
      ghost var was := streams.order;
      var ret;
      ghost var k;
      ret, k := RemoveStream(id);
      out := IndexSpec.Refused;
      if ret == Success {
        IdsWithout(was, k);
        out := IndexSpec.Done;
      }
    }

    /** One operation of a run, on this index. */
    method Do(op: IndexSpec.Op) returns (out: IndexSpec.Outcome, exited: bool)
      requires Valid() && |streams.order| + 1 < WORD_MODULUS
      modifies `numStreams, `freed, streams, streams.tbl, streams.Repr(), streams.order
      ensures Valid() && fresh(streams.Repr() - old(streams.Repr()))
      ensures forall n :: n in streams.order ==> n in old(streams.order) || fresh(n)
      ensures !exited ==> (Ids(streams.order), out) == IndexSpec.Step(Ids(old(streams.order)), op)
      ensures exited <==> old(Stuck(op))
      ensures exited ==> streams.order == old(streams.order) && Stuck(op)
      ensures TableAges()
    {
      hide ListHeld, UtTable.Holds, UtTable.BloomHolds, UniqueIds, Elems, IndexSpec.Drop;
      exited := false;
      match op
      case Create(id) =>
        out, exited := DoCreate(id);
      case Remove(id) =>
        out := DoRemove(id);
      case Find(id) =>
        IdsMember(streams.order, id);
        var r := FindStream(id);
        out := if r != null then IndexSpec.Found else IndexSpec.Missing;
      case RemoveAll =>
        ghost var visited := RemoveAllStreams();
        out := IndexSpec.Done;
    }

    /**
     * Any run of operations, from any state, does what the specification says. It ends early only at
     * a create of a new id whose table has to grow and finds no memory. A table that lives through the
     * run has expanded in vain at most twice in a row, and if its expansion was off at the start of the
     * run, it is off at the end, with as many buckets.
     */
    method Run(ops: seq<IndexSpec.Op>) returns (outs: seq<IndexSpec.Outcome>, exited: bool)
      requires Valid() && |streams.order| + |ops| < WORD_MODULUS
      modifies `numStreams, `freed, streams, streams.tbl, streams.Repr(), streams.order
      ensures Valid() && |outs| <= |ops| && (|outs| == |ops| <==> !exited)
      ensures (Ids(streams.order), outs) == IndexSpec.RunFrom(old(Ids(streams.order)), ops[..|outs|])
      ensures exited ==> Stuck(ops[|outs|])
      ensures TableAges() && ExpansionBound()
    {
      hide ListHeld, UtTable.Holds, UtTable.BloomHolds, UniqueIds, Elems, Stuck;
      hide IndexSpec.RunFrom, IndexSpec.Step;
      ghost var ids := Ids(streams.order);
      outs, exited := [], false;
      IndexSpec.RunNothing(ids, ops);
      while !exited && |outs| < |ops|
        invariant Valid() && |outs| <= |ops| && (exited ==> |outs| < |ops|)
        invariant |streams.order| <= |ids| + |outs|
        invariant (Ids(streams.order), outs) == IndexSpec.RunFrom(ids, ops[..|outs|])
        invariant exited ==> Stuck(ops[|outs|])
        invariant TableAges()
        invariant fresh(streams.Repr() - old(streams.Repr()))
        invariant forall i :: 0 <= i < |streams.order| ==>
          streams.order[i] in old(streams.order) || fresh(streams.order[i])
        decreases !exited, |ops| - |outs|
      {
        IndexSpec.RunSnoc(ids, ops, |outs|);
        StepLength(Ids(streams.order), ops[|outs|]);
        TblInRepr();
        ghost var was := streams.order;
        var out;
        out, exited := Do(ops[|outs|]);
        forall i | 0 <= i < |streams.order|
          ensures streams.order[i] in old(streams.order) || fresh(streams.order[i])
        {
          assert streams.order[i] in was || fresh(streams.order[i]);
        }
        if !exited {
          outs := outs + [out];
        }
      }
      StatsBounded();
    }

    /** At most two ineffective expansions are counted, and the second one switches expansion off. */
    ghost predicate ExpansionBound()
      reads streams, streams.tbl
    {
      streams.tbl != null ==>
        streams.tbl.ineffExpands <= 2 && (streams.tbl.noexpand <==> streams.tbl.ineffExpands == 2)
    }

    lemma StatsBounded()
      requires Valid()
      ensures ExpansionBound()
    {
      hide Buckets.Holds, ListHeld, UtTable.BloomHolds, UniqueIds;
    }

    static lemma StepLength(ids: seq<Word>, op: IndexSpec.Op)
      ensures |IndexSpec.Step(ids, op).0| <= |ids| + 1
    {
      if op.Remove? {
        DropLength(ids, op.id);
      }
    }

    static lemma {:induction false} DropLength(ids: seq<Word>, id: Word)
      ensures |IndexSpec.Drop(ids, id)| <= |ids|
    {
      if ids != [] {
        DropLength(ids[1..], id);
      }
    }
  }
}
