/** When concurrent updates keep a counter's samples in order (src/client.c): the check is outside the lock. */
module CounterOrder {
  import opened StreamRecord
  import opened UpdateMachine

  /** The updates that threads may make, each as often as it likes. */
  type Calls = set<(Tid, real)>

  /** Only such updates begin in the run. */
  ghost predicate FromCalls(calls: Calls, run: Run) {
    forall i :: 0 <= i < |run| ==> Allows(calls, run[i].0, run[i].1)
  }

  ghost predicate Allows(calls: Calls, t: Tid, c: Choice) {
    c.Begin? ==> c.op.Update? && (t, c.op.val) in calls
  }

  /** Updates of different threads that are not below the last sample have the same value. */
  ghost predicate Agree(calls: Calls, log: seq<Sample>) {
    forall c, d :: c in calls && d in calls && c.0 != d.0 && Above(log, c.1) && Above(log, d.1) ==> c.1 == d.1
  }

  // ----- Agreement keeps every interleaving in order

  /** A call of the given thread that passed its check, or could have, before any of the run's samples. */
  ghost predicate Entitled(calls: Calls, start: seq<Sample>, t: Tid, val: real) {
    (t, val) in calls && Above(start, val)
  }

  /** Every sample counted since the start is an entitled call's. */
  ghost predicate LogFrom(calls: Calls, start: seq<Sample>, log: seq<Sample>) {
    |start| <= |log| && start == log[..|start|] &&
    forall i :: |start| <= i < |log| ==> Entitled(calls, start, log[i].sampleId, log[i].val)
  }

  /** What is known of a thread: past its check its value is no less than the last sample, and a slot it
      has read is not followed by a sample of its own. */
  ghost predicate ThreadOk(calls: Calls, start: seq<Sample>, log: seq<Sample>, t: Tid, pc: Pc) {
    match pc
    case Idle => true
    case CheckIndex(op) => op.Update? && (t, op.val) in calls
    case CheckVal(op, slot) =>
      && op.Update? && (t, op.val) in calls && |start| <= slot + 1 <= |log|
      && forall i :: slot < i < |log| ==> log[i].sampleId != t
    case WantLock(op) => Passed(calls, start, log, t, op)
    case Locked(op) => Passed(calls, start, log, t, op)
    case WroteVal(op) => Passed(calls, start, log, t, op)
    case WroteTime(op) => Passed(calls, start, log, t, op)
    case WroteId(op) => Passed(calls, start, log, t, op)
    case Counted => true
  }

  ghost predicate Passed(calls: Calls, start: seq<Sample>, log: seq<Sample>, t: Tid, op: Op) {
    op.Update? && Entitled(calls, start, t, op.val) && Above(log, op.val)
  }

  ghost predicate InOrder(calls: Calls, start: seq<Sample>, s: State) {
    && s.ty == Counter && NonDecreasing(s.log) && LogFrom(calls, start, s.log)
    && forall t :: ThreadOk(calls, start, s.log, t, s.Pc(t))
  }

  lemma {:induction false} OrderedTo(log: seq<Sample>, i: nat, j: nat)
    requires NonDecreasing(log) && i <= j < |log|
    ensures log[i].val <= log[j].val
  {
    if i < j {
      OrderedTo(log, i, j - 1);
    }
  }

  /** A call that finds a slot not above its value is entitled, and its value is no less than the last
      sample: later samples, if any, are other threads' and so have the same value. */
  lemma CheckedSlot(calls: Calls, start: seq<Sample>, log: seq<Sample>, t: Tid, op: Op, slot: nat)
    requires Agree(calls, start) && NonDecreasing(log) && LogFrom(calls, start, log)
    requires ThreadOk(calls, start, log, t, CheckVal(op, slot)) && log[slot].val <= op.val
    ensures Passed(calls, start, log, t, op)
  {
    if start != [] {
      OrderedTo(log, |start| - 1, slot);
      assert start[|start| - 1] == log[|start| - 1];
    }
    var last := log[|log| - 1];
    if slot < |log| - 1 {
      assert Entitled(calls, start, last.sampleId, last.val);
      assert (last.sampleId, last.val) in calls && (t, op.val) in calls;
    }
  }

  /** Counting a sample of an entitled call keeps what is known of every other thread. */
  lemma OtherThread(calls: Calls, start: seq<Sample>, log: seq<Sample>, sample: Sample, t: Tid, pc: Pc)
    requires Agree(calls, start) && ThreadOk(calls, start, log, t, pc)
    requires Entitled(calls, start, sample.sampleId, sample.val) && sample.sampleId != t
    ensures ThreadOk(calls, start, log + [sample], t, pc)
  {
    if pc.WantLock? || pc.Locked? || pc.WroteVal? || pc.WroteTime? || pc.WroteId? {
      assert (t, pc.op.val) in calls && (sample.sampleId, sample.val) in calls;
    }
  }

  /** The sample that a step counts, if it counts one. */
  lemma Counts(s: State, t: Tid, c: Choice)
    requires Inv(s)
    ensures var s' := Step(s, t, c);
      s'.ty == s.ty && (s'.log == s.log || (s.Pc(t).WroteId? && s.index < |s.buf| && s'.Pc(t) == Counted
        && s'.log == s.log + [s.buf[s.index]] && Recorded(s.buf[s.index], (t, s.Pc(t).op), s.log)))
    ensures forall u :: u != t ==> Step(s, t, c).Pc(u) == s.Pc(u)
  {
    HolderFacts(s, t);
  }

  /** The stepping thread itself. */
  lemma OwnThread(calls: Calls, start: seq<Sample>, s: State, t: Tid, c: Choice)
    requires Inv(s) && Agree(calls, start) && InOrder(calls, start, s) && Allows(calls, t, c)
    ensures var s' := Step(s, t, c);
      ThreadOk(calls, start, s'.log, t, s'.Pc(t))
  {
    hide Agree, LogFrom, Passed, Entitled, NonDecreasing;
    var pc := s.Pc(t);
    assert ThreadOk(calls, start, s.log, t, pc);
    LogIsBuffer(s);
    StartBelow(calls, start, s);
    if pc.CheckVal? && s.buf[pc.slot].val <= pc.op.val {
      CheckedSlot(calls, start, s.log, t, pc.op, pc.slot);
    }
    if pc.Idle? && c.Begin? && s.index == 0 {
      FirstPasses(calls, start, t, c.op);
    }
  }

  lemma LogIsBuffer(s: State)
    requires Inv(s)
    ensures |s.log| == s.index <= |s.buf| && forall i :: 0 <= i < s.index ==> s.buf[i] == s.log[i]
  {
    assert forall i :: 0 <= i < s.index ==> s.buf[..s.index][i] == s.buf[i];
  }

  lemma StartBelow(calls: Calls, start: seq<Sample>, s: State)
    requires LogFrom(calls, start, s.log)
    ensures |start| <= |s.log| && (s.log == [] ==> start == [])
  {
  }

  /** With no sample yet, every value passes. */
  lemma FirstPasses(calls: Calls, start: seq<Sample>, t: Tid, op: Op)
    requires start == [] && op.Update? && (t, op.val) in calls
    ensures Passed(calls, start, [], t, op)
  {
  }

  lemma StepInOrder(calls: Calls, start: seq<Sample>, s: State, t: Tid, c: Choice)
    requires Inv(s) && Agree(calls, start) && InOrder(calls, start, s) && Allows(calls, t, c)
    ensures InOrder(calls, start, Step(s, t, c))
  {
    hide Step, Inv, Agree, ThreadOk, Recorded;
    var s' := Step(s, t, c);
    Counts(s, t, c);
    if s'.log != s.log {
      CountedSample(calls, start, s, t);
    }
    forall u
      ensures ThreadOk(calls, start, s'.log, u, s'.Pc(u))
    {
      if u == t {
        OwnThread(calls, start, s, t, c);
      } else if s'.log != s.log {
        assert ThreadOk(calls, start, s.log, u, s.Pc(u));
        OtherThread(calls, start, s.log, s.buf[s.index], u, s.Pc(u));
      }
    }
  }

  /** The sample a thread is about to count continues the order. */
  lemma CountedSample(calls: Calls, start: seq<Sample>, s: State, t: Tid)
    requires InOrder(calls, start, s) && s.Pc(t).WroteId? && s.index < |s.buf|
    requires Recorded(s.buf[s.index], (t, s.Pc(t).op), s.log)
    ensures var sample := s.buf[s.index];
      && sample.sampleId == t && Entitled(calls, start, t, sample.val)
      && NonDecreasing(s.log + [sample]) && LogFrom(calls, start, s.log + [sample])
  {
    assert ThreadOk(calls, start, s.log, t, s.Pc(t));
  }

  lemma {:induction false} ExecInOrder(calls: Calls, s: State, run: Run)
    requires Inv(s) && AllIdle(s) && s.ty == Counter && NonDecreasing(s.log)
    requires Agree(calls, s.log) && FromCalls(calls, run)
    ensures InOrder(calls, s.log, Exec(s, run))
  {
    hide Inv, Step, Agree, Allows;
    if run != [] {
      var r, last := run[..|run| - 1], run[|run| - 1];
      assert last == run[|run| - 1] && Allows(calls, last.0, last.1);
      ExecInOrder(calls, s, r);
      ExecInv(s, r);
      StepInOrder(calls, s.log, Exec(s, r), last.0, last.1);
    }
  }

  // ----- Without agreement some interleaving is out of order

  lemma OverlapFrom(calls: Calls, index: nat, t: Tid, a: real, u: Tid, b: real)
    requires (t, a) in calls && (u, b) in calls
    ensures FromCalls(calls, OverlapRun(index, t, a, u, b))
  {
    hide OverlapRun;
    var c1, c2, c3, c4 := CheckSteps(index, t, a), CheckSteps(index, u, b), CommitSteps(t), CommitSteps(u);
    FromConcat(calls, c1, c2);
    FromConcat(calls, c1 + c2, c3);
    FromConcat(calls, c1 + c2 + c3, c4);
    OverlapIs(index, t, a, u, b);
  }

  lemma OverlapIs(index: nat, t: Tid, a: real, u: Tid, b: real)
    ensures OverlapRun(index, t, a, u, b)
        == CheckSteps(index, t, a) + CheckSteps(index, u, b) + CommitSteps(t) + CommitSteps(u)
  {
  }

  lemma FromConcat(calls: Calls, r: Run, r': Run)
    requires FromCalls(calls, r) && FromCalls(calls, r')
    ensures FromCalls(calls, r + r')
  {
    hide Allows;
  }

  /** Of two different admissible values, the larger can be counted before the smaller. */
  lemma OutOfOrder(calls: Calls, s: State, c: (Tid, real), d: (Tid, real)) returns (run: Run)
    requires Inv(s) && AllIdle(s) && s.ty == Counter && NonDecreasing(s.log) && s.index + 2 <= |s.buf|
    requires c in calls && d in calls && c.0 != d.0 && Above(s.log, c.1) && Above(s.log, d.1) && c.1 != d.1
    ensures FromCalls(calls, run) && !NonDecreasing(Exec(s, run).log)
  {
    hide Exec, OverlapRun, Inv, NonDecreasing, FromCalls;
    var hi, lo := if c.1 > d.1 then c else d, if c.1 > d.1 then d else c;
    run := OverlapRun(s.index, hi.0, hi.1, lo.0, lo.1);
    OverlapFrom(calls, s.index, hi.0, hi.1, lo.0, lo.1);
    OverlappingCounters(s, hi.0, hi.1, lo.0, lo.1);
  }

  /**
   * Concurrent updates of an idle counter keep its samples in order, in every interleaving, exactly
   * when all updates of different threads that the last sample does not rule out have the same value.
   */
  lemma CounterOrderIff(calls: Calls, s: State)
    requires Inv(s) && AllIdle(s) && s.ty == Counter && NonDecreasing(s.log) && s.index + 2 <= |s.buf|
    ensures (forall run :: FromCalls(calls, run) ==> NonDecreasing(Exec(s, run).log)) <==> Agree(calls, s.log)
  {
    hide Exec, Inv, NonDecreasing, FromCalls, Above, LogFrom, ThreadOk;
    if Agree(calls, s.log) {
      forall run | FromCalls(calls, run)
        ensures NonDecreasing(Exec(s, run).log)
      {
        ExecInOrder(calls, s, run);
      }
    } else {
      var c, d :| c in calls && d in calls && c.0 != d.0 && Above(s.log, c.1) && Above(s.log, d.1) && c.1 != d.1;
      var run := OutOfOrder(calls, s, c, d);
    }
  }

  /** For two threads with one admissible value each: exactly when the values are equal. */
  lemma TwoUpdatesIff(s: State, t: Tid, a: real, u: Tid, b: real)
    requires Inv(s) && AllIdle(s) && s.ty == Counter && NonDecreasing(s.log) && s.index + 2 <= |s.buf|
    requires t != u && Above(s.log, a) && Above(s.log, b)
    ensures (forall run :: FromCalls({(t, a), (u, b)}, run) ==> NonDecreasing(Exec(s, run).log)) <==> a == b
  {
    hide Exec, Inv, NonDecreasing, FromCalls, Above;
    var calls := {(t, a), (u, b)};
    CounterOrderIff(calls, s);
    assert (t, a) in calls && (u, b) in calls;
  }
}
