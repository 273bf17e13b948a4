/** Recording samples one call at a time, and fetching the most recent ones (src/client.c, src/provider.c). */
module Fetch {
  import opened Bits
  import opened StreamRecord
  import opened Chains
  import opened UtTable
  import opened Provider
  import UpdateMachine

  datatype UpdateRet = Ok | InvalidValue

  /** The counted samples of a stream. */
  function Samples(m: Stream): seq<Sample>
    reads m`bufferIndex, m.buffer
    requires m.bufferIndex <= m.buffer.Length
  {
    m.buffer[..m.bufferIndex]
  }

  /** `aggregator_stream_update`, undisturbed by other calls; the code leaves the bound on the index to its callers. */
  method Update(m: Stream, val: real, now: real, self: nat) returns (ret: UpdateRet)
    requires m.bufferIndex < m.buffer.Length
    modifies m`bufferIndex, m.buffer
    ensures m.bufferIndex <= m.buffer.Length
    ensures m.ty == Counter ==>
      (ret == InvalidValue <==> old(m.bufferIndex) > 0 && old(m.buffer[m.bufferIndex - 1]).val > val)
    ensures m.ty == Timer ==> (ret == InvalidValue <==> val < 0.0)
    ensures m.ty == Gauge ==> ret == Ok
    ensures ret == InvalidValue ==> m.bufferIndex == old(m.bufferIndex) && m.buffer[..] == old(m.buffer[..])
    ensures ret == Ok ==> Samples(m) == old(Samples(m)) + [Sample(now, val, self)]
    ensures ret == Ok ==> m.buffer[m.bufferIndex..] == old(m.buffer[m.bufferIndex + 1..])
  {
    ret := Ok;
    match m.ty {
      case Counter =>
        if m.bufferIndex >= 1 && m.buffer[m.bufferIndex - 1].val > val {
          ret := InvalidValue;
        }
      case Timer =>
        if val < 0.0 {
          ret := InvalidValue;
        }
      case Gauge =>
    }
    if ret == Ok {
      Record(m, val, now, self);
    }
  }

  /** `aggregator_stream_update_gauge_by_fixed_amount`, undisturbed by other calls. */
  method UpdateByAmount(m: Stream, diff: real, now: real, self: nat) returns (ret: UpdateRet)
    requires m.bufferIndex < m.buffer.Length
    modifies m`bufferIndex, m.buffer
    ensures m.bufferIndex <= m.buffer.Length
    ensures ret == InvalidValue <==> m.ty != Gauge
    ensures ret == InvalidValue ==> m.bufferIndex == old(m.bufferIndex) && m.buffer[..] == old(m.buffer[..])
    ensures ret == Ok ==>
      var val := if old(m.bufferIndex) == 0 then 1.0 else old(m.buffer[m.bufferIndex - 1]).val + diff;
      Samples(m) == old(Samples(m)) + [Sample(now, val, self)]
    ensures ret == Ok ==> m.buffer[m.bufferIndex..] == old(m.buffer[m.bufferIndex + 1..])
  {
    ret := InvalidValue;
    if m.ty == Gauge {
      ret := Ok;
      var val := if m.bufferIndex != 0 then m.buffer[m.bufferIndex - 1].val + diff else 1.0;
      Record(m, val, now, self);
    }
  }

  /** The locked part of an update. */
  method Record(m: Stream, val: real, now: real, self: nat)
    requires m.bufferIndex < m.buffer.Length
    modifies m`bufferIndex, m.buffer
    ensures m.bufferIndex == old(m.bufferIndex) + 1
    ensures m.buffer[..] == old(m.buffer[..])[old(m.bufferIndex) := Sample(now, val, self)]
  {
    m.buffer[m.bufferIndex] := m.buffer[m.bufferIndex].(val := val);
    m.buffer[m.bufferIndex] := m.buffer[m.bufferIndex].(time := now);
    m.buffer[m.bufferIndex] := m.buffer[m.bufferIndex].(sampleId := self);
    m.bufferIndex := m.bufferIndex + 1;
  }

  // ----- Fetching

  /** The last n elements, or all when there are fewer. */
  function LastN<T>(s: seq<T>, n: nat): (r: seq<T>)
    ensures |r| == Min(|s|, n) && forall i :: 0 <= i < |r| ==> r[i] == s[|s| - |r| + i]
  {
    if |s| < n then s else s[|s| - n..]
  }

  lemma LastNIs<T>(s: seq<T>, n: nat)
    ensures LastN(s, n) == s[|s| - Min(|s|, n)..]
  {
  }

  /** The copy-out of `aggregator_stream_fetch_ult`. */
  method CopyOut(m: Stream, b: array<Sample>, count: nat) returns (actual: nat)
    requires m.bufferIndex <= m.buffer.Length && b.Length == count && b != m.buffer
    modifies b
    ensures actual == if m.bufferIndex < count then m.bufferIndex else count
    ensures b[..actual] == LastN(Samples(m), count) && b[actual..] == old(b[actual..])
    ensures forall i :: 0 <= i < actual ==> b[i] == m.buffer[m.bufferIndex - actual + i]
  {
    hide LastN;
    var from;
    if m.bufferIndex < count {
      actual, from := m.bufferIndex, 0;
    } else {
      actual := count;
      from := m.bufferIndex - actual;
    }
    var i := 0;
    while i < actual
      invariant i <= actual && b[..i] == m.buffer[from..from + i] && b[actual..] == old(b[actual..])
    {
      b[i] := m.buffer[from + i];
      i := i + 1;
    }
    LastNIs(Samples(m), count);
    assert m.buffer[from..from + actual] == Samples(m)[from..];
  }

  /** `aggregator_remote_stream_fetch` answered by `aggregator_stream_fetch_ult`: whatever count is asked for,
      the client gets exactly the last samples in order, and the rest of its buffer stays zero. */
  method FetchSamples(p: Provider, id: Word, requested: int) returns (ret: Ret, actual: nat, buf: array<Sample>)
    requires p.Valid() && forall m :: m in p.streams.order ==> m.bufferIndex <= m.buffer.Length
    ensures ret == InvalidStream <==> p.streams.Lookup(id) == null
    ensures ret == InvalidStream || ret == Success
    ensures fresh(buf)
    ensures buf.Length == if 0 <= requested < 160000000 then requested else 160000000
    ensures ret == Success ==> var m := p.streams.Lookup(id);
      m in p.streams.order && actual == Min(m.bufferIndex, buf.Length)
        && buf[..actual] == LastN(Samples(m), buf.Length)
        && (forall i :: 0 <= i < actual ==> buf[i] == m.buffer[m.bufferIndex - actual + i])
        && forall i :: actual <= i < buf.Length ==> buf[i] == ZERO_SAMPLE
  {
    hide LastN, Samples, ListHeld, UniqueIds, UtTable.Holds, UtTable.BloomHolds;
    var n := requested;
    if requested >= STREAM_BUFFER_SIZE || requested < 0 {
      n := STREAM_BUFFER_SIZE;
    }
    buf := new Sample[n](_ => ZERO_SAMPLE);
    ret, actual := InvalidStream, 0;
    p.streams.LookupFinds(id);
    var m := p.streams.Find(id);
    if m != null {
      actual := CopyOut(m, buf, n);
      ret := Success;
    }
  }

  /** Taken at any point of any interleaving of updates, a fetch delivers the last committed samples in lock order. */
  lemma FetchDeliversLog(ty: StreamType, size: nat, run: UpdateMachine.Run, n: nat)
    ensures var s := UpdateMachine.Exec(UpdateMachine.Init(ty, size), run);
      && s.index == |s.log| <= |s.buf| && |LastN(s.buf[..s.index], n)| == Min(s.index, n)
      && forall i :: 0 <= i < Min(s.index, n) ==> LastN(s.buf[..s.index], n)[i] == s.log[|s.log| - Min(s.index, n) + i]
  {
    hide UpdateMachine.Exec, UpdateMachine.Recorded, LastN;
    UpdateMachine.CommittedOnce(ty, size, run);
  }
}
