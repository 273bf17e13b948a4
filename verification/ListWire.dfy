/** The reply of a list call: its serialization (src/types.h) and both ends of the call. */
module ListWire {
  import opened Bits
  import opened Bytes
  import opened StreamRecord
  import opened Chains
  import opened Provider

  /** An id array as the bytes `memcpy` moves. */
  function IdBytes(ids: seq<Word>): (b: seq<Byte>)
    ensures |b| == 4 * |ids|
  {
    if ids == [] then [] else IdBytes(ids[..|ids| - 1]) + Le(ids[|ids| - 1], 4)
  }

  /** The ids in such bytes. */
  function IdsIn(b: seq<Byte>): (ids: seq<Word>)
    requires |b| % 4 == 0
    ensures |ids| == |b| / 4
  {
    if b == [] then [] else IdsIn(b[..|b| - 4]) + [FromLe(b[|b| - 4..]) % WORD_MODULUS]
  }

  lemma {:induction false} IdsRoundTrip(ids: seq<Word>)
    ensures IdsIn(IdBytes(ids)) == ids
  {
    hide Le, FromLe, Pow256;
    if ids != [] {
      var b, last := IdBytes(ids), ids[|ids| - 1];
      IdsRoundTrip(ids[..|ids| - 1]);
      Pow256Values();
      LeRoundTrip(last, 4);
      assert b[..|b| - 4] == IdBytes(ids[..|ids| - 1]) && b[|b| - 4..] == Le(last, 4);
    }
  }

  /** The reply on the wire. */
  function Encoding(ret: Word, ids: seq<Word>): seq<Byte> {
    Le(ret, 4) + Le(|ids|, 8) + IdBytes(ids)
  }

  /** The layout of a reply: four bytes of code, eight of count, four for each id, low bytes first. */
  lemma EncodingIs(ret: Word, ids: seq<Word>, k: nat)
    requires |ids| < Pow256(8) && k < |ids|
    ensures var e, n := Encoding(ret, ids), |ids|;
      && |e| == 12 + 4 * n
      && e[..4] == [ret % 256, ret / 256 % 256, ret / 0x1_0000 % 256, ret / 0x100_0000 % 256]
      && e[4..8] == [n % 256, n / 256 % 256, n / 0x1_0000 % 256, n / 0x100_0000 % 256]
      && e[12 + 4 * k..16 + 4 * k] ==
        [ids[k] % 256, ids[k] / 256 % 256, ids[k] / 0x1_0000 % 256, ids[k] / 0x100_0000 % 256]
  {
    hide Le, IdBytes, Pow256;
    var n := |ids|;
    Le4(ret);
    Le8(n);
    Le4(n);
    Le4(ids[k]);
    IdBytesAt(ids, k);
    var e := Encoding(ret, ids);
    assert e[..4] == Le(ret, 4) && e[4..8] == Le(n, 8)[..4];
    assert e[12 + 4 * k..16 + 4 * k] == IdBytes(ids)[4 * k..4 * k + 4];
  }

  lemma {:induction false} IdBytesAt(ids: seq<Word>, k: nat)
    requires k < |ids|
    ensures IdBytes(ids)[4 * k..4 * k + 4] == Le(ids[k], 4)
  {
    hide Le;
    var last := |ids| - 1;
    if k < last {
      IdBytesAt(ids[..last], k);
      assert IdBytes(ids)[4 * k..4 * k + 4] == IdBytes(ids[..last])[4 * k..4 * k + 4];
    }
  }

  // ----- `hg_proc`

  datatype ProcOp = Encode | Decode | Free

  class Proc {
    const op: ProcOp
    var buf: seq<Byte>
    var pos: nat

    constructor (op: ProcOp, buf: seq<Byte>)
      ensures this.op == op && this.buf == buf && pos == 0
    {
      this.op, this.buf, pos := op, buf, 0;
    }

    /** Copies raw bytes to or from the buffer. */
    method Memcpy(data: seq<Byte>) returns (ok: bool, data': seq<Byte>)
      requires pos <= |buf|
      modifies this
      ensures old(pos) <= pos <= |buf| && |data'| == |data|
      ensures op == Encode ==> ok && buf == old(buf) + data && pos == old(pos) && data' == data
      ensures op == Decode ==> buf == old(buf) && ok == (old(pos) + |data| <= |buf|)
      ensures op == Decode && ok ==> data' == buf[old(pos)..pos] && pos == old(pos) + |data|
      ensures op == Free ==> ok && buf == old(buf) && pos == old(pos)
    {
      ok, data' := true, data;
      match op
      case Encode => buf := buf + data;
      case Decode =>
        ok := pos + |data| <= |buf|;
        if ok {
          data' := buf[pos..pos + |data|];
          pos := pos + |data|;
        }
      case Free =>
    }

    /** A fixed-width number, in or out. */
    method Number(v: nat, width: nat) returns (ok: bool, v': nat)
      requires pos <= |buf| && v < Pow256(width)
      modifies this
      ensures old(pos) <= pos <= |buf|
      ensures op == Encode ==> ok && buf == old(buf) + Le(v, width) && pos == old(pos) && v' == v
      ensures op == Decode ==> buf == old(buf) && ok == (old(pos) + width <= |buf|)
      ensures op == Decode && ok ==> v' == FromLe(buf[old(pos)..pos]) && pos == old(pos) + width
      ensures op == Free ==> ok && buf == old(buf) && pos == old(pos)
    {
      LeRoundTrip(v, width);
      var data;
      ok, data := Memcpy(Le(v, width));
      v' := FromLe(data);
    }
  }

  /** `list_streams_out_t` */
  class ListOut {
    var ret: Word
    var count: nat
    var ids: array?<Word>

    constructor (ret: Word, count: nat, ids: array?<Word>)
      ensures this.ret == ret && this.count == count && this.ids == ids
    {
      this.ret, this.count, this.ids := ret, count, ids;
    }
  }

  /** Where the parts of a reply are found in a buffer that ends with it. */
  lemma ReplyParts(buf: seq<Byte>, p: nat, ret: Word, xs: seq<Word>)
    requires p <= |buf| && buf[p..] == Encoding(ret, xs) && |xs| < Pow256(8)
    ensures |buf| == p + 12 + 4 * |xs|
    ensures FromLe(buf[p..p + 4]) == ret && FromLe(buf[p + 4..p + 12]) == |xs|
    ensures IdsIn(buf[p + 12..p + 12 + 4 * |xs|]) == xs
  {
    hide Le, FromLe, IdBytes, IdsIn, Pow256;
    var e := Encoding(ret, xs);
    Pow256Values();
    LeRoundTrip(ret, 4);
    LeRoundTrip(|xs|, 8);
    IdsRoundTrip(xs);
    assert buf[p..p + 4] == e[..4] == Le(ret, 4);
    assert buf[p + 4..p + 12] == e[4..12] == Le(|xs|, 8);
    assert buf[p + 12..p + 12 + 4 * |xs|] == e[12..] == IdBytes(xs);
  }

  /** The id array of a reply, in or out. */
  method ProcIds(proc: Proc, ids: array<Word>, count: nat) returns (ok: bool)
    requires proc.pos <= |proc.buf| && count <= ids.Length
    modifies proc, ids
    ensures old(proc.pos) <= proc.pos <= |proc.buf|
    ensures proc.op == Encode ==> ok && proc.buf == old(proc.buf) + IdBytes(ids[..count]) && ids[..] == old(ids[..])
    ensures proc.op == Decode ==> proc.buf == old(proc.buf) && ok == (old(proc.pos) + 4 * count <= |proc.buf|)
    ensures proc.op == Decode && ok ==> ids[..count] == IdsIn(proc.buf[old(proc.pos)..old(proc.pos) + 4 * count])
  {
    var data;
    ok, data := proc.Memcpy(IdBytes(ids[..count]));
    if proc.op == Decode && ok {
      var words := IdsIn(data);
      var i := 0;
      while i < count
        invariant i <= count && ids[..i] == words[..i]
        modifies ids
      {
        ids[i] := words[i];
        i := i + 1;
      }
    }
  }

  /** The leading `ret` and `count` of a reply, in or out. */
  method ProcHeader(proc: Proc, out: ListOut) returns (ok: bool)
    requires proc.pos <= |proc.buf| && out.count < Pow256(8)
    modifies proc, out`ret, out`count
    ensures old(proc.pos) <= proc.pos <= |proc.buf|
    ensures proc.op == Encode ==> ok && unchanged(out`ret, out`count)
    ensures proc.op == Encode ==> proc.buf == old(proc.buf) + Le(out.ret, 4) + Le(out.count, 8)
    ensures proc.op == Decode ==> proc.buf == old(proc.buf) && ok == (old(proc.pos) + 12 <= |proc.buf|)
    ensures proc.op == Decode && ok ==> proc.pos == old(proc.pos) + 12
    ensures proc.op == Decode && ok ==> out.ret == FromLe(proc.buf[old(proc.pos)..old(proc.pos) + 4]) % WORD_MODULUS
    ensures proc.op == Decode && ok ==> out.count == FromLe(proc.buf[old(proc.pos) + 4..proc.pos])
  {
    Pow256Values();
    var v;
    ok, v := proc.Number(out.ret, 4);
    if ok {
      out.ret := v % WORD_MODULUS;
      ok, v := proc.Number(out.count, 8);
      if ok {
        out.count := v;
      }
    }
  }

  /** `hg_proc_list_streams_out_t`; emptyIsNull says whether `calloc(0, ...)` returns NULL.
      Decoding the encoding of any return code and ids gives them back. */
  method ProcListOut(proc: Proc, out: ListOut, emptyIsNull: bool, ghost ret: Word, ghost xs: seq<Word>)
    returns (ok: bool)
    requires proc.pos <= |proc.buf| && out.count < Pow256(8)
    requires proc.op == Encode && out.ids != null ==> out.count <= out.ids.Length
    modifies proc, out, if proc.op == Encode && out.ids != null then {out.ids} else {}
    ensures proc.pos <= |proc.buf|
    ensures proc.op == Encode ==> ok && unchanged(out) && (out.ids != null ==> out.ids[..] == old(out.ids[..]))
    ensures proc.op == Encode && out.ids != null ==> proc.buf == old(proc.buf) + Encoding(out.ret, out.ids[..out.count])
    ensures proc.op == Encode && out.ids == null && out.count == 0 ==> proc.buf == old(proc.buf) + Encoding(out.ret, [])
    ensures proc.op == Decode && old(proc.buf)[old(proc.pos)..] == Encoding(ret, xs) && |xs| < Pow256(8) ==>
      ok && out.ret == ret && out.count == |xs| && (out.ids == null ==> xs == [])
    ensures proc.op == Decode && old(proc.buf)[old(proc.pos)..] == Encoding(ret, xs) && |xs| < Pow256(8) ==>
      out.ids != null ==> fresh(out.ids) && out.ids[..] == xs
    ensures proc.op == Free && ok ==> out.ids == null
  {
    hide FromLe, IdsIn, Le, IdBytes, Pow256;
    if proc.op == Decode && proc.buf[proc.pos..] == Encoding(ret, xs) && |xs| < Pow256(8) {
      ReplyParts(proc.buf, proc.pos, ret, xs);
    }
    ok := ProcHeader(proc, out);
    if ok {
      match proc.op
      case Decode =>
        out.ids := null;
        if out.count != 0 || !emptyIsNull {
          out.ids := new Word[out.count](_ => 0);
          ok := ProcIds(proc, out.ids, out.count);
          assert out.ids[..out.count] == out.ids[..];
        }
      case Encode =>
        if out.ids != null {
          ok := ProcIds(proc, out.ids, out.count);
        }
      case Free =>
        out.ids := null;
    }
  }

  // ----- The list call

  /** `aggregator_list_streams_ult`: the reply carries the first ids in insertion order. */
  method ServeList(p: Provider, maxIds: nat, emptyIsNull: bool) returns (reply: seq<Byte>)
    requires p.Valid() && maxIds < Pow256(8)
    ensures reply == Encoding(0, Ids(p.streams.order)[..Min(p.numStreams, maxIds)])
  {
    hide FromLe, IdsIn, Le, IdBytes, Pow256, Encoding;
    var count := Min(p.numStreams, maxIds);
    var filled := p.FillIds();
    var ids: array?<Word> := filled;
    if p.numStreams == 0 && emptyIsNull {
      ids := null;
    }
    var out := new ListOut(0, count, ids);
    var proc := new Proc(Encode, []);
    assert filled[..][..count] == filled[..count];
    var ok := ProcListOut(proc, out, emptyIsNull, 0, []);
    reply := proc.buf;
    assert [] + Encoding(0, filled[..count]) == Encoding(0, filled[..count]);
  }

  /** `aggregator_remote_list_streams`: the caller's count and buffer receive what the provider holds. */
  method ListStreams(p: Provider, ids: array<Word>, count: nat, emptyIsNull: bool) returns (ret: Word, count': nat)
    requires p.Valid() && count < Pow256(8) && count <= ids.Length
    modifies ids
    ensures ret == 0 && count' == Min(p.numStreams, count)
    ensures ids[..count'] == Ids(p.streams.order)[..count'] && ids[count'..] == old(ids[count'..])
    ensures forall i :: 0 <= i < count' ==> ids[i] == p.streams.order[i].id
  {
    hide FromLe, IdsIn, Le, IdBytes, Pow256, Encoding;
    ghost var listed := Ids(p.streams.order)[..Min(p.numStreams, count)];
    var reply := ServeList(p, count, emptyIsNull);
    var out := new ListOut(0, 0, null);
    var proc := new Proc(Decode, reply);
    assert reply[0..] == reply;
    var ok := ProcListOut(proc, out, emptyIsNull, 0, listed);
    ret, count' := out.ret, count;
    if ret == 0 {
      count' := out.count;
      var i := 0;
      while i < count'
        invariant i <= count' && ids[..i] == listed[..i] && ids[count'..] == old(ids[count'..])
        modifies ids
      {
        ids[i] := out.ids[i];
        i := i + 1;
      }
    }
  }

  /** The listed ids are distinct, each is found by a lookup, and with room for all they are the whole key set. */
  lemma ListedAreLive(p: Provider, maxIds: nat)
    requires p.Valid()
    ensures var listed := Ids(p.streams.order)[..Min(p.numStreams, maxIds)];
      && (forall i, j :: 0 <= i < j < |listed| ==> listed[i] != listed[j])
      && (forall id :: id in listed ==> p.streams.Lookup(id) != null)
      && (maxIds >= p.numStreams ==> forall id :: id in listed <==> p.streams.Lookup(id) != null)
  {
    var s := p.streams.order;
    UniqueElim(s);
    var listed := Ids(s)[..Min(p.numStreams, maxIds)];
    forall id
      ensures id in listed ==> p.streams.Lookup(id) != null
      ensures maxIds >= p.numStreams && p.streams.Lookup(id) != null ==> id in listed
    {
      p.streams.LookupFinds(id);
      IdsMember(s, id);
      if id in listed {
        assert id in Ids(s);
      }
    }
  }
}
