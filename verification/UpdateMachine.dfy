/** Concurrent updates of one stream (src/client.c), as small steps of any number of threads. */
module UpdateMachine {
  import opened StreamRecord

  type Tid = nat

  /** A call of `aggregator_stream_update`, or of `aggregator_stream_update_gauge_by_fixed_amount`. */
  datatype Op = Update(val: real) | ByAmount(diff: real)

  /** Where a thread is in its call. Only Locked and the states after it are inside the mutex. */
  datatype Pc =
    | Idle
    | CheckIndex(op: Op)              // counter: has seen buffer_index >= 1, reads it again next
    | CheckVal(op: Op, slot: nat)     // counter: reads the value in that slot next
    | WantLock(op: Op)
    | Locked(op: Op)
    | WroteVal(op: Op)
    | WroteTime(op: Op)
    | WroteId(op: Op)
    | Counted

  datatype Owner = Free | Held(tid: Tid)

  datatype State = State(
    ty: StreamType,
    buf: seq<Sample>,
    index: nat,                  // `buffer_index`
    owner: Owner,                // of `stream_mutex`
    pcs: map<Tid, Pc>,           // threads that are not listed are idle
    acquired: seq<(Tid, Op)>,    // history: the calls in the order they got the lock
    log: seq<Sample>,            // history: the samples in the order they were counted
    succeeded: nat)              // history: calls that returned success
  {
    function Pc(t: Tid): Pc {
      if t in pcs then pcs[t] else Idle
    }
  }

  /** What a thread does next: begin a call when idle, otherwise go on with its call at the given time. */
  datatype Choice = Begin(op: Op) | Go(now: real)

  function At(s: State, t: Tid, pc: Pc): State {
    s.(pcs := s.pcs[t := pc])
  }

  /** The value the next sample gets. */
  function ValueFor(op: Op, prev: seq<Sample>): real {
    match op
    case Update(v) => v
    case ByAmount(d) => if prev == [] then 1.0 else prev[|prev| - 1].val + d
  }

  /** The unlocked first part of a call: the switch on the stream type. */
  function Start(s: State, t: Tid, op: Op): State {
    match (op, s.ty)
    case (Update(v), Counter) => At(s, t, if s.index >= 1 then CheckIndex(op) else WantLock(op))
    case (Update(v), Timer) => if v < 0.0 then s else At(s, t, WantLock(op))
    case (Update(v), Gauge) => At(s, t, WantLock(op))
    case (ByAmount(d), Gauge) => At(s, t, WantLock(op))
    case (ByAmount(d), _) => s
  }

  /** One step of thread t; a step that is not enabled changes nothing. */
  function Step(s: State, t: Tid, c: Choice): State {
    match (s.Pc(t), c)
    case (Idle, Begin(op)) => Start(s, t, op)
    case (CheckIndex(op), Go(_)) => if s.index >= 1 then At(s, t, CheckVal(op, s.index - 1)) else s
    case (CheckVal(op, slot), Go(_)) =>
      if slot < |s.buf| && op.Update? && s.buf[slot].val > op.val then At(s, t, Idle) else At(s, t, WantLock(op))
    case (WantLock(op), Go(_)) =>
      if s.owner == Free then At(s, t, Locked(op)).(owner := Held(t), acquired := s.acquired + [(t, op)]) else s
    case (Locked(op), Go(_)) =>
      if s.index < |s.buf| then
        var val := match op
          case Update(v) => v
          case ByAmount(d) => if s.index != 0 then s.buf[s.index - 1].val + d else 1.0;
        At(s, t, WroteVal(op)).(buf := s.buf[s.index := s.buf[s.index].(val := val)])
      else s
    case (WroteVal(op), Go(now)) =>
      if s.index < |s.buf| then At(s, t, WroteTime(op)).(buf := s.buf[s.index := s.buf[s.index].(time := now)]) else s
    case (WroteTime(op), Go(_)) =>
      if s.index < |s.buf| then At(s, t, WroteId(op)).(buf := s.buf[s.index := s.buf[s.index].(sampleId := t)]) else s
    case (WroteId(op), Go(_)) =>
      if s.index < |s.buf| then At(s, t, Counted).(index := s.index + 1, log := s.log + [s.buf[s.index]]) else s
    case (Counted, Go(_)) => At(s, t, Idle).(owner := Free, succeeded := s.succeeded + 1)
    case _ => s
  }

  type Run = seq<(Tid, Choice)>

  /** The state after a run: every interleaving of every set of calls is some run. */
  function Exec(s: State, run: Run): State {
    if run == [] then s
    else
      var last := run[|run| - 1];
      Step(Exec(s, run[..|run| - 1]), last.0, last.1)
  }

  function Init(ty: StreamType, size: nat): State {
    State(ty, seq(size, _ => ZERO_SAMPLE), 0, Free, map[], [], [], 0)
  }

  // ----- Invariant

  predicate Inside(pc: Pc) {
    pc.Locked? || pc.WroteVal? || pc.WroteTime? || pc.WroteId? || pc.Counted?
  }

  /** What a call that got past the switch may be. */
  predicate Allowed(ty: StreamType, op: Op) {
    match ty
    case Counter => op.Update?
    case Timer => op.Update? && op.val >= 0.0
    case Gauge => true
  }

  predicate Waiting(pc: Pc) {
    pc.CheckIndex? || pc.CheckVal? || pc.WantLock?
  }

  /** Threads respect the mutex and the switch. */
  ghost predicate ThreadsOk(s: State) {
    && (forall t :: Inside(s.Pc(t)) <==> s.owner == Held(t))
    && (forall t :: Waiting(s.Pc(t)) ==> Allowed(s.ty, s.Pc(t).op))
  }

  /** The i-th counted sample is the one of the i-th call that got the lock. */
  ghost predicate Recorded(sample: Sample, call: (Tid, Op), prev: seq<Sample>) {
    sample.sampleId == call.0 && sample.val == ValueFor(call.1, prev)
  }

  /** Counted samples sit in the buffer, in lock order. */
  ghost predicate LogOk(s: State) {
    && |s.log| == s.index <= |s.acquired| && s.index <= |s.buf| && s.buf[..s.index] == s.log
    && (forall i :: 0 <= i < s.index ==> Recorded(s.log[i], s.acquired[i], s.log[..i]))
    && (forall i :: 0 <= i < |s.acquired| ==> Allowed(s.ty, s.acquired[i].1))
  }

  /** The call inside the mutex, if any, is the last in lock order, and its writes so far are in the next slot. */
  ghost predicate HolderOk(s: State) {
    match s.owner
    case Free => |s.acquired| == s.index == s.succeeded
    case Held(t) =>
      match s.Pc(t)
      case Locked(op) => |s.acquired| == s.index + 1 == s.succeeded + 1 && s.acquired[s.index] == (t, op)
      case WroteVal(op) => |s.acquired| == s.index + 1 == s.succeeded + 1 && s.acquired[s.index] == (t, op)
        && s.index < |s.buf| && s.buf[s.index].val == ValueFor(op, s.log)
      case WroteTime(op) => |s.acquired| == s.index + 1 == s.succeeded + 1 && s.acquired[s.index] == (t, op)
        && s.index < |s.buf| && s.buf[s.index].val == ValueFor(op, s.log)
      case WroteId(op) => |s.acquired| == s.index + 1 == s.succeeded + 1 && s.acquired[s.index] == (t, op)
        && s.index < |s.buf| && Recorded(s.buf[s.index], (t, op), s.log)
      case Counted => |s.acquired| == s.index == s.succeeded + 1
      case _ => true
  }

  ghost predicate Inv(s: State) {
    ThreadsOk(s) && LogOk(s) && HolderOk(s)
  }

  lemma InitInv(ty: StreamType, size: nat)
    ensures Inv(Init(ty, size))
  {
  }

  /** The stepping thread takes or leaves the mutex exactly as it enters or leaves the locked part. */
  lemma StepThread(s: State, t: Tid, c: Choice)
    requires ThreadsOk(s)
    ensures var s' := Step(s, t, c);
      && s'.ty == s.ty && (forall u :: u != t ==> s'.Pc(u) == s.Pc(u))
      && (Inside(s'.Pc(t)) <==> s'.owner == Held(t)) && (Waiting(s'.Pc(t)) ==> Allowed(s'.ty, s'.Pc(t).op))
      && (s'.owner == s.owner || (s.owner == Free && s'.owner == Held(t)) || (s.owner == Held(t) && s'.owner == Free))
  {
    assert Inside(s.Pc(t)) <==> s.owner == Held(t);
    assert Waiting(s.Pc(t)) ==> Allowed(s.ty, s.Pc(t).op);
  }

  lemma StepThreads(s: State, t: Tid, c: Choice)
    requires Inv(s)
    ensures ThreadsOk(Step(s, t, c))
  {
    hide LogOk, HolderOk, Step;
    var s' := Step(s, t, c);
    StepThread(s, t, c);
    forall u
      ensures Inside(s'.Pc(u)) <==> s'.owner == Held(u)
      ensures Waiting(s'.Pc(u)) ==> Allowed(s'.ty, s'.Pc(u).op)
    {
      assert Inside(s.Pc(u)) <==> s.owner == Held(u);
      assert Waiting(s.Pc(u)) ==> Allowed(s.ty, s.Pc(u).op);
    }
  }

  lemma StepLog(s: State, t: Tid, c: Choice)
    requires Inv(s)
    ensures LogOk(Step(s, t, c))
  {
    var pc := s.Pc(t);
    if pc.WroteId? && c.Go? {
      CountLog(s, t);
    }
  }

  /** Counting the finished sample. */
  lemma CountLog(s: State, t: Tid)
    requires Inv(s) && s.Pc(t).WroteId?
    ensures LogOk(s.(index := s.index + 1, log := s.log + [s.buf[s.index]]))
  {
    assert Inside(s.Pc(t)) && s.owner == Held(t);
  }

  lemma HolderFacts(s: State, t: Tid)
    requires Inv(s)
    ensures HolderOk(s) && (Inside(s.Pc(t)) <==> s.owner == Held(t)) && |s.log| == s.index <= |s.buf|
    ensures s.index != 0 ==> s.buf[s.index - 1] == s.log[s.index - 1]
  {
    hide Inside, Recorded, Allowed;
    assert s.index != 0 ==> s.buf[..s.index][s.index - 1] == s.buf[s.index - 1];
  }

  lemma StepHolder(s: State, t: Tid, c: Choice)
    requires Inv(s)
    ensures HolderOk(Step(s, t, c))
  {
    hide ThreadsOk, LogOk;
    HolderFacts(s, t);
  }

  lemma StepInv(s: State, t: Tid, c: Choice)
    requires Inv(s)
    ensures Inv(Step(s, t, c))
  {
    StepThreads(s, t, c);
    StepLog(s, t, c);
    StepHolder(s, t, c);
  }

  /** The invariant holds in every interleaving. */
  lemma {:induction false} ExecInv(s: State, run: Run)
    requires Inv(s)
    ensures Inv(Exec(s, run))
  {
    if run != [] {
      var last := run[|run| - 1];
      ExecInv(s, run[..|run| - 1]);
      StepInv(Exec(s, run[..|run| - 1]), last.0, last.1);
    }
  }

  // ----- What every interleaving keeps

  /** The counted slots, the log and the lock order only ever grow. */
  ghost predicate Extends(s: State, s': State) {
    && s.index <= s'.index <= |s'.buf| && s.index <= |s.buf| == |s'.buf| && s'.buf[..s.index] == s.buf[..s.index]
    && s.log <= s'.log && s.acquired <= s'.acquired && s.ty == s'.ty
  }

  lemma StepExtends(s: State, t: Tid, c: Choice)
    requires Inv(s)
    ensures Extends(s, Step(s, t, c))
  {
  }

  lemma {:induction false} SlotsNeverChange(s: State, run: Run)
    requires Inv(s)
    ensures Extends(s, Exec(s, run))
  {
    if run != [] {
      var r, last := run[..|run| - 1], run[|run| - 1];
      SlotsNeverChange(s, r);
      ExecInv(s, r);
      StepExtends(Exec(s, r), last.0, last.1);
    }
  }

  /** `buffer_index` counts the committed calls: those that returned success, and one that has not yet unlocked.
      Each has exactly one sample, and they stand in lock order. */
  lemma CommittedOnce(ty: StreamType, size: nat, run: Run)
    ensures var s := Exec(Init(ty, size), run);
      && s.index == |s.log| <= |s.buf| && s.log == s.buf[..s.index]
      && s.succeeded <= s.index <= |s.acquired| <= s.succeeded + 1
      && forall i :: 0 <= i < s.index ==> Recorded(s.log[i], s.acquired[i], s.log[..i])
  {
    InitInv(ty, size);
    ExecInv(Init(ty, size), run);
    var s := Exec(Init(ty, size), run);
    if s.owner.Held? {
      assert Inside(s.Pc(s.owner.tid));
    }
  }

  /** Timer samples are never negative. */
  lemma TimerNonNegative(size: nat, run: Run)
    ensures forall i :: 0 <= i < |Exec(Init(Timer, size), run).log| ==> Exec(Init(Timer, size), run).log[i].val >= 0.0
  {
    var s0 := Init(Timer, size);
    var s := Exec(s0, run);
    InitInv(Timer, size);
    ExecInv(s0, run);
    SlotsNeverChange(s0, run);
    forall i | 0 <= i < |s.log|
      ensures s.log[i].val >= 0.0
    {
      assert Recorded(s.log[i], s.acquired[i], s.log[..i]) && Allowed(s.ty, s.acquired[i].1);
    }
  }

  // ----- Gauges moved by fixed amounts

  predicate AllByAmount(run: Run) {
    forall i :: 0 <= i < |run| && run[i].1.Begin? ==> run[i].1.op.ByAmount?
  }

  ghost predicate OnlyByAmount(s: State) {
    && (forall t :: !s.Pc(t).Idle? && !s.Pc(t).Counted? ==> s.Pc(t).op.ByAmount?)
    && (forall i :: 0 <= i < |s.acquired| ==> s.acquired[i].1.ByAmount?)
  }

  lemma {:induction false} ExecByAmount(size: nat, run: Run)
    requires AllByAmount(run)
    ensures OnlyByAmount(Exec(Init(Gauge, size), run))
  {
    if run != [] {
      var r, last := run[..|run| - 1], run[|run| - 1];
      ExecByAmount(size, r);
      StepByAmount(Exec(Init(Gauge, size), r), last.0, last.1);
    }
  }

  lemma StepByAmount(s: State, t: Tid, c: Choice)
    requires OnlyByAmount(s) && (c.Begin? ==> c.op.ByAmount?)
    ensures OnlyByAmount(Step(s, t, c))
  {
    var s' := Step(s, t, c);
    forall u | u != t
      ensures s'.Pc(u) == s.Pc(u)
    {
    }
  }

  /** The diffs of the calls after the first. */
  ghost function LaterDiffs(calls: seq<(Tid, Op)>): real {
    if |calls| <= 1 then 0.0
    else
      var op := calls[|calls| - 1].1;
      LaterDiffs(calls[..|calls| - 1]) + (if op.ByAmount? then op.diff else 0.0)
  }

  /** A gauge only moved by fixed amounts stands, after n commits, at 1 plus all diffs but the first committed one. */
  lemma GaugeSum(size: nat, run: Run, n: nat)
    requires AllByAmount(run) && 0 < n <= Exec(Init(Gauge, size), run).index
    ensures var s := Exec(Init(Gauge, size), run);
      n <= |s.log| && n <= |s.acquired| && s.log[n - 1].val == 1.0 + LaterDiffs(s.acquired[..n])
  {
    InitInv(Gauge, size);
    ExecInv(Init(Gauge, size), run);
    ExecByAmount(size, run);
    GaugeSumOf(Exec(Init(Gauge, size), run), n);
  }

  lemma {:induction false} GaugeSumOf(s: State, n: nat)
    requires LogOk(s) && OnlyByAmount(s) && 0 < n <= s.index
    ensures s.log[n - 1].val == 1.0 + LaterDiffs(s.acquired[..n])
  {
    assert Recorded(s.log[n - 1], s.acquired[n - 1], s.log[..n - 1]);
    if n > 1 {
      GaugeSumOf(s, n - 1);
      assert s.acquired[..n][..n - 1] == s.acquired[..n - 1];
      assert s.log[..n - 1][n - 2] == s.log[n - 2];
    }
  }

  // ----- Counters

  ghost predicate AllIdle(s: State) {
    forall t :: s.Pc(t).Idle?
  }

  /** No call begins while another is under way. */
  ghost predicate NoOverlap(s: State, run: Run) {
    run != [] ==>
      && NoOverlap(s, run[..|run| - 1])
      && (run[|run| - 1].1.Begin? ==> AllIdle(Exec(s, run[..|run| - 1])))
  }

  ghost predicate NonDecreasing(log: seq<Sample>) {
    forall i :: 0 < i < |log| ==> log[i - 1].val <= log[i].val
  }

  /** v is no less than the last counted sample. */
  ghost predicate Above(log: seq<Sample>, v: real) {
    log == [] || log[|log| - 1].val <= v
  }

  /** With calls one after the other, the call under way has checked against the current last sample. */
  ghost predicate CheckedOk(s: State, pc: Pc) {
    match pc
    case CheckVal(op, slot) => slot + 1 == s.index
    case WantLock(op) => op.Update? && Above(s.log, op.val)
    case Locked(op) => op.Update? && Above(s.log, op.val)
    case WroteVal(op) => op.Update? && Above(s.log, op.val)
    case WroteTime(op) => op.Update? && Above(s.log, op.val)
    case WroteId(op) => op.Update? && Above(s.log, op.val)
    case _ => true
  }

  ghost predicate Serial(s: State) {
    && s.ty == Counter && NonDecreasing(s.log)
    && (forall t, u :: !s.Pc(t).Idle? && !s.Pc(u).Idle? ==> t == u)
    && (forall t :: CheckedOk(s, s.Pc(t)))
  }

  lemma StepAlone(s: State, t: Tid, c: Choice)
    requires Serial(s) && (c.Begin? ==> AllIdle(s))
    ensures var s' := Step(s, t, c);
      forall t, u :: !s'.Pc(t).Idle? && !s'.Pc(u).Idle? ==> t == u
  {
    var s' := Step(s, t, c);
    forall u | u != t
      ensures s'.Pc(u) == s.Pc(u)
    {
    }
  }

  lemma StepOrdered(s: State, t: Tid, c: Choice)
    requires Inv(s) && Serial(s)
    ensures NonDecreasing(Step(s, t, c).log)
  {
    assert CheckedOk(s, s.Pc(t));
  }

  lemma StepChecked(s: State, t: Tid, c: Choice, u: Tid)
    requires Inv(s) && Serial(s) && (c.Begin? ==> AllIdle(s))
    ensures CheckedOk(Step(s, t, c), Step(s, t, c).Pc(u))
  {
    assert CheckedOk(s, s.Pc(t)) && CheckedOk(s, s.Pc(u));
    assert u != t ==> Step(s, t, c).Pc(u) == s.Pc(u);
  }

  lemma StepSerial(s: State, t: Tid, c: Choice)
    requires Inv(s) && Serial(s) && (c.Begin? ==> AllIdle(s))
    ensures Serial(Step(s, t, c))
  {
    hide CheckedOk;
    StepAlone(s, t, c);
    StepOrdered(s, t, c);
    forall u
      ensures CheckedOk(Step(s, t, c), Step(s, t, c).Pc(u))
    {
      StepChecked(s, t, c, u);
    }
    StepType(s, t, c);
  }

  lemma StepType(s: State, t: Tid, c: Choice)
    ensures Step(s, t, c).ty == s.ty
  {
  }

  lemma {:induction false} ExecSerial(size: nat, run: Run)
    requires NoOverlap(Init(Counter, size), run)
    ensures Serial(Exec(Init(Counter, size), run))
  {
    if run != [] {
      var r, last := run[..|run| - 1], run[|run| - 1];
      ExecSerial(size, r);
      InitInv(Counter, size);
      ExecInv(Init(Counter, size), r);
      StepSerial(Exec(Init(Counter, size), r), last.0, last.1);
    }
  }

  /** Counter samples never decrease when calls do not overlap. */
  lemma CounterNonDecreasing(size: nat, run: Run)
    requires NoOverlap(Init(Counter, size), run)
    ensures NonDecreasing(Exec(Init(Counter, size), run).log)
  {
    ExecSerial(size, run);
  }

  // ----- Overlapping counter calls

  lemma {:induction false} ExecConcat(s: State, a: Run, b: Run)
    ensures Exec(s, a + b) == Exec(Exec(s, a), b)
  {
    if b == [] {
      assert a + b == a;
    } else {
      assert (a + b)[..|a + b| - 1] == a + b[..|b| - 1];
      ExecConcat(s, a, b[..|b| - 1]);
    }
  }

  lemma ExecOne(s: State, t: Tid, c: Choice, rest: Run)
    ensures Exec(s, [(t, c)] + rest) == Exec(Step(s, t, c), rest)
  {
    assert [(t, c)][..0] == [];
    ExecConcat(s, [(t, c)], rest);
  }

  /** The unlocked steps of a counter update of v. */
  function CheckSteps(index: nat, t: Tid, v: real): Run {
    [(t, Begin(Update(v)))] + if index >= 1 then [(t, Go(0.0)), (t, Go(0.0))] else []
  }

  /** The steps from the lock to the return. */
  function CommitSteps(t: Tid): Run {
    var g := (t, Go(0.0));
    [g] + ([g] + ([g] + ([g] + ([g] + ([g] + [])))))
  }

  /** The check of a value that is large enough only moves its thread on. */
  lemma CheckPasses(s: State, t: Tid, v: real)
    requires LogOk(s) && s.ty == Counter && s.Pc(t) == Idle && Above(s.log, v)
    ensures var s' := Exec(s, CheckSteps(s.index, t, v));
      s' == s.(pcs := s'.pcs) && s'.Pc(t) == WantLock(Update(v)) && forall u :: u != t ==> s'.Pc(u) == s.Pc(u)
  {
    ExecEmpty(s);
    hide Exec;
    var op := Update(v);
    if s.index >= 1 {
      assert s.buf[s.index - 1] == s.log[s.index - 1];
      var g := (t, Go(0.0));
      var s1 := Step(s, t, Begin(op));
      var s2 := Step(s1, t, Go(0.0));
      ExecOne(s, t, Begin(op), [g, g]);
      assert [g, g] == [g] + [g] && [g] == [g] + [];
      ExecOne(s1, t, Go(0.0), [g]);
      ExecOne(s2, t, Go(0.0), []);
      ExecEmpty(Step(s2, t, Go(0.0)));
    } else {
      ExecOne(s, t, Begin(op), []);
      ExecEmpty(Step(s, t, Begin(op)));
    }
  }

  function Steps(s: State, t: Tid, n: nat): State {
    if n == 0 then s else Step(Steps(s, t, n - 1), t, Go(0.0))
  }

  lemma CommitIsSixSteps(s: State, t: Tid)
    ensures Exec(s, CommitSteps(t)) == Steps(s, t, 6)
  {
    hide Step, Exec;
    var g: Choice := Go(0.0);
    assert Steps(s, t, 0) == s;
    var tail: Run := [];
    assert Exec(Steps(s, t, 6), tail) == Steps(s, t, 6) by {
      ExecEmpty(Steps(s, t, 6));
    }
    ExecOne(Steps(s, t, 5), t, g, tail);
    ExecOne(Steps(s, t, 4), t, g, [(t, g)] + tail);
    ExecOne(Steps(s, t, 3), t, g, [(t, g)] + ([(t, g)] + tail));
    ExecOne(Steps(s, t, 2), t, g, [(t, g)] + ([(t, g)] + ([(t, g)] + tail)));
    ExecOne(Steps(s, t, 1), t, g, [(t, g)] + ([(t, g)] + ([(t, g)] + ([(t, g)] + tail))));
    ExecOne(s, t, g, [(t, g)] + ([(t, g)] + ([(t, g)] + ([(t, g)] + ([(t, g)] + tail)))));
  }

  lemma ExecEmpty(s: State)
    ensures Exec(s, []) == s
  {
  }

  /** The locked writes of an update of v: the slot holds the sample and the state is otherwise as before. */
  lemma WritesSlot(s: State, t: Tid, v: real)
    requires s.Pc(t) == WantLock(Update(v)) && s.owner == Free && s.index < |s.buf|
    ensures var s' := Steps(s, t, 4);
      && s'.Pc(t) == WroteId(Update(v)) && (forall u :: u != t ==> s'.Pc(u) == s.Pc(u))
      && s'.log == s.log && s'.index == s.index && s'.buf == s.buf[s.index := Sample(0.0, v, t)]
      && s'.owner == Held(t) && s'.succeeded == s.succeeded && s'.ty == s.ty
  {
    var op := Update(v);
    assert Steps(s, t, 1) == At(s, t, Locked(op)).(owner := Held(t), acquired := s.acquired + [(t, op)]);
    assert Steps(s, t, 2).Pc(t) == WroteVal(op) && Steps(s, t, 2).buf[s.index].val == v;
    assert Steps(s, t, 3).Pc(t) == WroteTime(op);
    assert Steps(s, t, 3).buf[s.index] == Sample(0.0, v, s.buf[s.index].sampleId);
  }

  /** A waiting update commits its value, whatever has happened since its check. */
  lemma CommitAppends(s: State, t: Tid, v: real)
    requires Inv(s) && s.Pc(t) == WantLock(Update(v)) && s.owner == Free && s.index < |s.buf|
    ensures var s' := Exec(s, CommitSteps(t));
      && s'.log == s.log + [Sample(0.0, v, t)] && s'.index == s.index + 1 && |s'.buf| == |s.buf|
      && s'.owner == Free && s'.succeeded == s.succeeded + 1 && s'.ty == s.ty
      && forall u :: u != t ==> s'.Pc(u) == s.Pc(u)
  {
    hide Exec, Inv, CommitSteps;
    CommitIsSixSteps(s, t);
    WritesSlot(s, t, v);
    var s4 := Steps(s, t, 4);
    CountAndUnlock(s4, t);
    assert Steps(s, t, 6) == Step(Step(s4, t, Go(0.0)), t, Go(0.0));
  }

  lemma CountAndUnlock(s: State, t: Tid)
    requires s.Pc(t).WroteId? && s.index < |s.buf|
    ensures var s' := Step(Step(s, t, Go(0.0)), t, Go(0.0));
      && s'.log == s.log + [s.buf[s.index]] && s'.index == s.index + 1 && s'.buf == s.buf
      && s'.owner == Free && s'.succeeded == s.succeeded + 1 && s'.ty == s.ty
      && forall u :: u != t ==> s'.Pc(u) == s.Pc(u)
  {
  }

  /** Both calls check before either commits. */
  function OverlapRun(index: nat, t: Tid, a: real, u: Tid, b: real): Run {
    CheckSteps(index, t, a) + CheckSteps(index, u, b) + CommitSteps(t) + CommitSteps(u)
  }

  lemma IdleMeansFree(s: State)
    requires ThreadsOk(s) && AllIdle(s)
    ensures s.owner == Free
  {
    var holder := if s.owner.Held? then s.owner.tid else 0;
    assert Inside(s.Pc(holder)) <==> s.owner == Held(holder);
  }

  /** Two counter calls with admissible values a and b that overlap both succeed and commit a before b:
      the samples stay in order exactly when a <= b, so the unlocked check does not protect a counter. */
  lemma OverlappingCounters(s: State, t: Tid, a: real, u: Tid, b: real)
    requires Inv(s) && s.ty == Counter && AllIdle(s) && t != u && s.index + 2 <= |s.buf|
    requires NonDecreasing(s.log) && Above(s.log, a) && Above(s.log, b)
    ensures var s' := Exec(s, OverlapRun(s.index, t, a, u, b));
      && s'.log == s.log + [Sample(0.0, a, t), Sample(0.0, b, u)] && s'.succeeded == s.succeeded + 2
      && (NonDecreasing(s'.log) <==> a <= b)
  {
    hide Step, Exec, CommitSteps, CheckSteps, ValueFor;
    var c1, c2, c3, c4 := CheckSteps(s.index, t, a), CheckSteps(s.index, u, b), CommitSteps(t), CommitSteps(u);
    ExecConcat(s, c1 + c2 + c3, c4);
    ExecConcat(s, c1 + c2, c3);
    ExecConcat(s, c1, c2);
    IdleMeansFree(s);
    CheckPasses(s, t, a);
    var s1 := Exec(s, c1);
    CheckPasses(s1, u, b);
    var s2 := Exec(s1, c2);
    ExecInv(s, c1);
    ExecInv(s1, c2);
    CommitAppends(s2, t, a);
    var s3 := Exec(s2, c3);
    ExecInv(s2, c3);
    CommitAppends(s3, u, b);
    var log := s.log + [Sample(0.0, a, t), Sample(0.0, b, u)];
    assert Exec(s3, c4).log == log;
    assert log[|s.log|].val == a && log[|s.log| + 1].val == b;
  }
}
