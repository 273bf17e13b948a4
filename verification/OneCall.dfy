/** What one update call does when no other thread gets in between (src/client.c). */
module OneCall {
  import opened StreamRecord
  import opened UpdateMachine

  /** The following steps of a thread at the given times. */
  function StepsOf(t: Tid, times: seq<real>): (run: Run)
    ensures |run| == |times|
  {
    seq(|times|, i requires 0 <= i < |times| => (t, Go(times[i])))
  }

  function GoOn(s: State, t: Tid, times: seq<real>): State
    decreases |times|
  {
    if times == [] then s else GoOn(Step(s, t, Go(times[0])), t, times[1..])
  }

  lemma {:induction false} ExecSteps(s: State, t: Tid, times: seq<real>)
    ensures Exec(s, StepsOf(t, times)) == GoOn(s, t, times)
    decreases |times|
  {
    hide Step;
    if times == [] {
      ExecEmpty(s);
    } else {
      ExecSteps(Step(s, t, Go(times[0])), t, times[1..]);
      ExecOne(s, t, Go(times[0]), StepsOf(t, times[1..]));
      assert StepsOf(t, times) == [(t, Go(times[0]))] + StepsOf(t, times[1..]);
    }
  }

  lemma {:induction false} IdleStays(s: State, t: Tid, times: seq<real>)
    requires s.Pc(t) == Idle
    ensures GoOn(s, t, times) == s
    decreases |times|
  {
    if times != [] {
      IdleStays(s, t, times[1..]);
    }
  }

  lemma GoTwo(s: State, t: Tid, times: seq<real>)
    requires |times| >= 2
    ensures GoOn(s, t, times) == GoOn(Step(Step(s, t, Go(times[0])), t, Go(times[1])), t, times[2..])
  {
    hide Step;
    assert times[1..][1..] == times[2..];
  }

  // ----- The locked part

  /** Lock and value. */
  lemma LockAndVal(s: State, t: Tid, op: Op, x: real, y: real)
    requires s.Pc(t) == WantLock(op) && s.owner == Free && s.index < |s.buf|
    ensures var s' := Step(Step(s, t, Go(x)), t, Go(y));
      var val := match op
        case Update(v) => v
        case ByAmount(d) => if s.index == 0 then 1.0 else s.buf[s.index - 1].val + d;
      && s'.Pc(t) == WroteVal(op) && s'.owner == Held(t) && s'.index == s.index
      && s'.buf == s.buf[s.index := s.buf[s.index].(val := val)]
      && s'.log == s.log && s'.succeeded == s.succeeded && s'.ty == s.ty
      && forall u :: u != t ==> s'.Pc(u) == s.Pc(u)
  {
  }

  /** Time and thread id. */
  lemma TimeAndId(s: State, t: Tid, op: Op, x: real, y: real)
    requires s.Pc(t) == WroteVal(op) && s.index < |s.buf|
    ensures var s' := Step(Step(s, t, Go(x)), t, Go(y));
      && s'.Pc(t) == WroteId(op) && s'.owner == s.owner && s'.index == s.index
      && s'.buf == s.buf[s.index := Sample(x, s.buf[s.index].val, t)]
      && s'.log == s.log && s'.succeeded == s.succeeded && s'.ty == s.ty
      && forall u :: u != t ==> s'.Pc(u) == s.Pc(u)
  {
  }

  /** Count and unlock. */
  lemma CountAndUnlockAt(s: State, t: Tid, op: Op, x: real, y: real)
    requires s.Pc(t) == WroteId(op) && s.index < |s.buf|
    ensures var s' := Step(Step(s, t, Go(x)), t, Go(y));
      && s'.Pc(t) == Idle && s'.owner == Free && s'.index == s.index + 1 && s'.buf == s.buf
      && s'.log == s.log + [s.buf[s.index]] && s'.succeeded == s.succeeded + 1 && s'.ty == s.ty
      && forall u :: u != t ==> s'.Pc(u) == s.Pc(u)
  {
  }

  /** The call has recorded this sample and nothing else. */
  ghost predicate RecordedOnly(s: State, s': State, t: Tid, sample: Sample) {
    && s.index < |s.buf| && s'.buf == s.buf[s.index := sample] && s'.index == s.index + 1
    && s'.log == s.log + [sample] && s'.succeeded == s.succeeded + 1
    && s'.Pc(t) == Idle && s'.owner == Free && s'.ty == s.ty && forall u :: u != t ==> s'.Pc(u) == s.Pc(u)
  }

  lemma LastInBuffer(s: State)
    requires Inv(s)
    ensures |s.log| == s.index <= |s.buf| && (s.index > 0 ==> s.buf[s.index - 1] == s.log[s.index - 1])
  {
    hide Recorded, Allowed;
    assert s.index > 0 ==> s.buf[..s.index][s.index - 1] == s.buf[s.index - 1];
  }

  /** From the lock on, a call records its sample with the time of its third step. */
  lemma Commits(s: State, t: Tid, op: Op, times: seq<real>)
    requires s.Pc(t) == WantLock(op) && s.owner == Free && s.index < |s.buf| && |times| >= 6
    requires |s.log| == s.index && (s.index > 0 ==> s.buf[s.index - 1] == s.log[s.index - 1])
    ensures RecordedOnly(s, GoOn(s, t, times), t, Sample(times[2], ValueFor(op, s.log), t))
  {
    hide Step;
    GoTwo(s, t, times);
    LockAndVal(s, t, op, times[0], times[1]);
    var s2 := Step(Step(s, t, Go(times[0])), t, Go(times[1]));
    GoTwo(s2, t, times[2..]);
    TimeAndId(s2, t, op, times[2], times[3]);
    var s4 := Step(Step(s2, t, Go(times[2])), t, Go(times[3]));
    assert times[2..][2..] == times[4..];
    GoTwo(s4, t, times[4..]);
    CountAndUnlockAt(s4, t, op, times[4], times[5]);
    var s6 := Step(Step(s4, t, Go(times[4])), t, Go(times[5]));
    assert times[4..][2..] == times[6..];
    IdleStays(s6, t, times[6..]);
  }

  // ----- The unlocked part

  /** The check of a counter that has samples. */
  lemma CounterCheck(s: State, t: Tid, v: real, x: real, y: real)
    requires s.ty == Counter && s.Pc(t) == Idle && 1 <= s.index <= |s.buf|
    ensures var s1 := Step(s, t, Begin(Update(v)));
      var s' := Step(Step(s1, t, Go(x)), t, Go(y));
      && s' == s.(pcs := s'.pcs) && (forall u :: u != t ==> s'.Pc(u) == s.Pc(u))
      && s'.Pc(t) == if s.buf[s.index - 1].val > v then Idle else WantLock(Update(v))
  {
  }

  /** Every other call decides at once. */
  lemma FirstStep(s: State, t: Tid, op: Op)
    requires s.Pc(t) == Idle && !(s.ty == Counter && op.Update? && s.index > 0)
    ensures var s' := Step(s, t, Begin(op));
      && s' == s.(pcs := s'.pcs) && (forall u :: u != t ==> s'.Pc(u) == s.Pc(u))
      && s'.Pc(t) ==
        if (op.Update? && !(s.ty == Timer && op.val < 0.0)) || (op.ByAmount? && s.ty == Gauge) then WantLock(op)
        else Idle
  {
  }

  /**
   * An undisturbed call, for every type and both functions: it records exactly one sample, with its
   * value, its thread and the time at which it wrote the time, when the call is acceptable, and
   * changes nothing otherwise. A timer accepts values from zero on, a counter values not below its
   * last sample, a gauge everything, and only a gauge is moved by an amount.
   */
  lemma Undisturbed(s: State, t: Tid, op: Op, times: seq<real>)
    requires Inv(s) && s.Pc(t) == Idle && s.owner == Free && s.index < |s.buf| && |times| >= 8
    ensures var s' := Exec(s, [(t, Begin(op))] + StepsOf(t, times));
      var n := |s.log|;
      var acceptable := match op
        case Update(v) => (s.ty == Timer ==> v >= 0.0) && (s.ty == Counter && n > 0 ==> s.log[n - 1].val <= v)
        case ByAmount(d) => s.ty == Gauge;
      var val := match op
        case Update(v) => v
        case ByAmount(d) => if n == 0 then 1.0 else s.log[n - 1].val + d;
      var now := if s.ty == Counter && n > 0 then times[4] else times[2];
      && s'.Pc(t) == Idle && s'.owner == Free && s'.ty == s.ty && (forall u :: u != t ==> s'.Pc(u) == s.Pc(u))
      && (acceptable ==>
        && s'.log == s.log + [Sample(now, val, t)] && s'.index == s.index + 1 && s'.succeeded == s.succeeded + 1
        && s'.buf == s.buf[s.index := Sample(now, val, t)])
      && (!acceptable ==>
        s'.log == s.log && s'.index == s.index && s'.succeeded == s.succeeded && s'.buf == s.buf)
  {
    hide Step, Exec, Inv, StepsOf, GoOn;
    LastInBuffer(s);
    ExecOne(s, t, Begin(op), StepsOf(t, times));
    var s1 := Step(s, t, Begin(op));
    ExecSteps(s1, t, times);
    if s.ty == Counter && op.Update? && s.index > 0 {
      GoTwo(s1, t, times);
      CounterCheck(s, t, op.val, times[0], times[1]);
      var s3 := Step(Step(s1, t, Go(times[0])), t, Go(times[1]));
      if s3.Pc(t) == Idle {
        IdleStays(s3, t, times[2..]);
      } else {
        Commits(s3, t, op, times[2..]);
        assert times[2..][2] == times[4];
      }
    } else {
      FirstStep(s, t, op);
      if s1.Pc(t) == Idle {
        IdleStays(s1, t, times);
      } else {
        Commits(s1, t, op, times);
      }
    }
  }
}
