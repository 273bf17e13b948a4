/** The shared random state of tests/munit/munit.c under any number of threads: the compare-and-swap loops. */
module SharedPrng {
  import opened Bits
  import opened Bytes
  import opened Lcg
  import opened Prng
  import opened Generator

  type Tid = nat

  type Max = x: nat | 0 < x < 0x1_0000_0000 witness 1

  /** A call of `munit_rand_uint32`, `munit_rand_memory` or `munit_rand_at_most`. */
  datatype Op = DrawWord | Fill(size: nat) | DrawAtMost(salt: Word, max: Max)

  datatype Value = Number(word: Word) | Buffer(bytes: seq<Byte>)

  // ----- One call on its own

  /** The position of the first salted draw at or after n that is not below t; t if there is none before t. */
  function Accepted(state: Word, salt: Word, t: nat, n: nat): nat
    decreases t - n
  {
    if n >= t || Salted(state, salt, n) >= t then n else Accepted(state, salt, t, n + 1)
  }

  /** How many states a call takes when it starts from the given one. */
  function Cost(op: Op, state: Word): nat {
    match op
    case DrawWord => 1
    case Fill(size) => WordsFor(size)
    case DrawAtMost(salt, max) => if max == WORD_MAX then 1 else Accepted(state, salt, Threshold(max), 0) + 1
  }

  /** The consecutive states from the given one on. */
  function Stretch(state: Word, n: nat): (b: seq<Word>)
    ensures |b| == n
  {
    if n == 0 then [] else Stretch(state, n - 1) + [Orbit(state, n - 1)]
  }

  /** What a call returns, as a function of the states it took. */
  function ValueOf(op: Op, taken: seq<Word>): Value {
    match op
    case DrawWord => Number(if taken == [] then 0 else FromState(taken[0]))
    case Fill(size) => Buffer(seq(size, j requires 0 <= j < size =>
        if j / 4 < |taken| then Le(FromState(taken[j / 4]), 4)[j % 4] else 0))
    case DrawAtMost(salt, max) =>
      Number(if taken == [] then 0 else XorWord(FromState(taken[|taken| - 1]), salt) % (max + 1))
  }

  lemma {:induction false} StretchAt(state: Word, n: nat, k: nat)
    requires k < n
    ensures Stretch(state, n)[k] == Orbit(state, k)
  {
    if k < n - 1 {
      StretchAt(state, n - 1, k);
    }
  }

  lemma {:induction false} StretchAdd(state: Word, m: nat, n: nat)
    ensures Stretch(state, m + n) == Stretch(state, m) + Stretch(Orbit(state, m), n)
  {
    if n > 0 {
      StretchAdd(state, m, n - 1);
      OrbitAdd(state, m, n - 1);
    }
  }

  lemma {:induction false} AcceptedIs(state: Word, salt: Word, t: nat, n: nat, r: nat)
    requires n <= r <= t && Salted(state, salt, r) >= t
    requires forall i: nat :: n <= i < r ==> Salted(state, salt, i) < t
    ensures Accepted(state, salt, t, n) == r
    decreases r - n
  {
    hide Salted;
    if n < r {
      AcceptedIs(state, salt, t, n + 1, r);
    }
  }

  /** A call as the loops perform it on a private copy of the state. */
  method Perform(g: Generator, op: Op) returns (v: Value)
    modifies g
    ensures g.state == Orbit(old(g.state), Cost(op, old(g.state)))
    ensures v == ValueOf(op, Stretch(old(g.state), Cost(op, old(g.state))))
  {
    hide FromState, Orbit;
    ghost var start := g.state;
    ghost var cost := Cost(op, start);
    match op {
      case DrawWord =>
        var w := g.NextWord();
        StretchAt(start, cost, 0);
        v := Number(w);
      case Fill(size) =>
        var data := new Byte[size];
        g.Memory(data);
        FillValue(start, data[..]);
        v := Buffer(data[..]);
      case DrawAtMost(salt, max) =>
        var w, rejected := g.AtMost(salt, max);
        if max < WORD_MAX {
          AcceptedIs(start, salt, Threshold(max), 0, rejected);
        }
        StretchAt(start, cost, rejected);
        v := Number(w);
    }
  }

  lemma FillValue(start: Word, bytes: seq<Byte>)
    requires forall j :: 0 <= j < |bytes| ==> bytes[j] == ByteAt(start, j)
    ensures Buffer(bytes) == ValueOf(Fill(|bytes|), Stretch(start, WordsFor(|bytes|)))
  {
    hide FromState, Orbit, Le;
    var n := WordsFor(|bytes|);
    forall j | 0 <= j < |bytes|
      ensures j / 4 < n && Stretch(start, n)[j / 4] == Orbit(start, j / 4)
    {
      StretchAt(start, n, j / 4);
    }
    assert bytes == ValueOf(Fill(|bytes|), Stretch(start, n)).bytes;
  }

  // ----- Any number of threads

  /** Where a thread is: Loaded remembers what it read, and (as history) how many calls had completed then. */
  datatype Pc = Idle | Trying(op: Op) | Loaded(op: Op, before: Word, seen: nat)

  datatype Call = Call(tid: Tid, op: Op, value: Value)

  datatype State = State(
    shared: Word,
    pcs: map<Tid, Pc>,    // threads that are not listed are idle
    log: seq<Call>)       // history: the completed calls, in the order of their swaps
  {
    function Pc(t: Tid): Pc {
      if t in pcs then pcs[t] else Idle
    }
  }

  /** A weak compare-and-swap may fail without cause. */
  datatype Choice = Begin(op: Op) | Load | Swap(spurious: bool)

  /** One step of thread t; a step that is not enabled changes nothing. */
  function Step(s: State, t: Tid, c: Choice): State {
    match (s.Pc(t), c)
    case (Idle, Begin(op)) => s.(pcs := s.pcs[t := Trying(op)])
    case (Trying(op), Load) => s.(pcs := s.pcs[t := Loaded(op, s.shared, |s.log|)])
    case (Loaded(op, before, _), Swap(spurious)) =>
      if !spurious && s.shared == before then
        var n := Cost(op, before);
        State(Orbit(before, n), s.pcs[t := Idle], s.log + [Call(t, op, ValueOf(op, Stretch(before, n)))])
      else s.(pcs := s.pcs[t := Trying(op)])
    case _ => s
  }

  /** The state after a run: every interleaving of every set of calls is some run. */
  function Exec(s: State, run: seq<(Tid, Choice)>): State {
    if run == [] then s
    else
      var last := run[|run| - 1];
      Step(Exec(s, run[..|run| - 1]), last.0, last.1)
  }

  // ----- One call through the machine

  /** The position found is the first acceptable one; there is one, since a period repeats no draw. */
  lemma {:induction false} AcceptedFrom(state: Word, salt: Word, t: nat, n: nat)
    requires n <= t
    ensures var r := Accepted(state, salt, t, n);
      && n <= r <= t && (forall i: nat :: n <= i < r ==> Salted(state, salt, i) < t)
      && (r < t ==> Salted(state, salt, r) >= t)
    decreases t - n
  {
    hide Salted;
    if n < t && Salted(state, salt, n) < t {
      AcceptedFrom(state, salt, t, n + 1);
    }
  }

  lemma AcceptedIsFirst(state: Word, salt: Word, t: nat)
    requires t < 0x1_0000_0000
    ensures var r := Accepted(state, salt, t, 0);
      r <= t && Salted(state, salt, r) >= t && forall i: nat :: i < r ==> Salted(state, salt, i) < t
  {
    hide Salted, Accepted;
    AcceptedFrom(state, salt, t, 0);
    if Salted(state, salt, Accepted(state, salt, t, 0)) < t {
      RejectionsBounded(state, salt, t + 1, t);
    }
  }

  /** What a word draw and a buffer fill return, as bytes and draws. */
  lemma WordAndBuffer(state: Word, size: nat)
    ensures ValueOf(DrawWord, Stretch(state, Cost(DrawWord, state))) == Number(Draw(state, 0))
    ensures Cost(DrawWord, state) == 1 && Cost(Fill(size), state) == (size + 3) / 4
    ensures var v := ValueOf(Fill(size), Stretch(state, Cost(Fill(size), state)));
      v.Buffer? && |v.bytes| == size && forall j :: 0 <= j < size ==> v.bytes[j] == ByteAt(state, j)
  {
    hide FromState, Orbit, Le;
    StretchAt(state, 1, 0);
    WordsForIs(size);
    var bytes := seq(size, j requires 0 <= j < size => ByteAt(state, j));
    FillValue(state, bytes);
  }

  lemma BoundedValue(state: Word, salt: Word, max: Max) returns (n: nat)
    ensures Cost(DrawAtMost(salt, max), state) == n + 1
    ensures var w := Xor(Draw(state, n), salt);
      ValueOf(DrawAtMost(salt, max), Stretch(state, n + 1)) == Number(w % (max + 1))
    ensures max == 0xFFFF_FFFF ==> n == 0
    ensures max < 0xFFFF_FFFF ==> var t := 0x1_0000_0000 % max;
      n <= t && Xor(Draw(state, n), salt) >= t && forall i: nat :: i < n ==> Xor(Draw(state, i), salt) < t
  {
    hide Salted, Draw, Stretch, ValueOf, Accepted, Threshold;
    n := Cost(DrawAtMost(salt, max), state) - 1;
    LastDrawn(state, salt, max, n);
    SaltedIs(state, salt, n);
    ThresholdIs(max);
    if max < WORD_MAX {
      AcceptedIsFirst(state, salt, Threshold(max));
      forall i: nat | i < n
        ensures Xor(Draw(state, i), salt) < Threshold(max)
      {
        SaltedIs(state, salt, i);
      }
    }
  }

  lemma LastDrawn(state: Word, salt: Word, max: Max, n: nat)
    ensures ValueOf(DrawAtMost(salt, max), Stretch(state, n + 1)) == Number(Salted(state, salt, n) % (max + 1))
  {
    hide FromState, Orbit, XorWord;
    StretchAt(state, n + 1, n);
  }

  /**
   * An undisturbed begin, load and swap completes that very call: a word is the next draw, a buffer
   * holds the next draws with their low bytes first, and a bounded draw is the first salted draw that
   * is not below 2^32 mod max, reduced.
   */
  lemma Undisturbed(s: State, t: Tid, op: Op) returns (n: nat)
    requires s.Pc(t) == Idle
    ensures var s' := Step(Step(Step(s, t, Begin(op)), t, Load), t, Swap(false));
      && s'.Pc(t) == Idle && (forall u :: u != t ==> s'.Pc(u) == s.Pc(u))
      && |s'.log| == |s.log| + 1 && s'.log[..|s.log|] == s.log
      && s'.log[|s.log|].tid == t && s'.log[|s.log|].op == op
      && (op.DrawWord? ==>
        s'.shared == Orbit(s.shared, 1) && s'.log[|s.log|].value == Number(Draw(s.shared, 0)))
      && (op.Fill? ==>
        && s'.shared == Orbit(s.shared, (op.size + 3) / 4)
        && s'.log[|s.log|].value.Buffer? && |s'.log[|s.log|].value.bytes| == op.size
        && forall j :: 0 <= j < op.size ==> var w := Draw(s.shared, j / 4);
            s'.log[|s.log|].value.bytes[j] == [w % 256, w / 256 % 256, w / 0x1_0000 % 256, w / 0x100_0000 % 256][j % 4])
      && (op.DrawAtMost? ==>
        && s'.shared == Orbit(s.shared, n + 1)
        && s'.log[|s.log|].value == Number(Xor(Draw(s.shared, n), op.salt) % (op.max + 1))
        && (op.max == 0xFFFF_FFFF ==> n == 0)
        && (op.max < 0xFFFF_FFFF ==> var t := 0x1_0000_0000 % op.max;
            && n <= t && Xor(Draw(s.shared, n), op.salt) >= t
            && forall i: nat :: i < n ==> Xor(Draw(s.shared, i), op.salt) < t))
  {
    hide Cost, ValueOf, Stretch, Orbit, Draw, Xor, ByteAt;
    n := 0;
    match op {
      case DrawWord => WordAndBuffer(s.shared, 0);
      case Fill(size) =>
        WordAndBuffer(s.shared, size);
        forall j | 0 <= j < size
          ensures var w := Draw(s.shared, j / 4);
            ByteAt(s.shared, j) == [w % 256, w / 256 % 256, w / 0x1_0000 % 256, w / 0x100_0000 % 256][j % 4]
        {
          ByteAtIs(s.shared, j);
        }
      case DrawAtMost(salt, max) => n := BoundedValue(s.shared, salt, max);
    }
  }

  /** A swap that finds another state, or fails without cause, only sends its thread back to load again. */
  lemma SwapFails(s: State, t: Tid, spurious: bool)
    requires s.Pc(t).Loaded? && (spurious || s.shared != s.Pc(t).before)
    ensures var s' := Step(Step(s, t, Swap(spurious)), t, Load);
      && s'.shared == s.shared && s'.log == s.log && (forall u :: u != t ==> s'.Pc(u) == s.Pc(u))
      && s'.Pc(t) == Loaded(s.Pc(t).op, s.shared, |s.log|)
  {
    hide Cost, ValueOf, Stretch, Orbit;
  }

  // ----- The calls one after another

  /** How many states the calls take when they are made one after another from the seed. */
  function Taken(seed: Word, calls: seq<Call>): nat {
    if calls == [] then 0
    else
      var n := Taken(seed, calls[..|calls| - 1]);
      n + Cost(calls[|calls| - 1].op, Orbit(seed, n))
  }

  /** The states that call i takes. */
  function BlockOf(seed: Word, calls: seq<Call>, i: nat): seq<Word>
    requires i < |calls|
  {
    var start := Orbit(seed, Taken(seed, calls[..i]));
    Stretch(start, Cost(calls[i].op, start))
  }

  function Blocks(seed: Word, calls: seq<Call>, n: nat): seq<Word>
    requires n <= |calls|
  {
    if n == 0 then [] else Blocks(seed, calls, n - 1) + BlockOf(seed, calls, n - 1)
  }

  /** Every completed call returned what it would return in its turn, were the calls made one after another. */
  ghost predicate Sequential(seed: Word, calls: seq<Call>) {
    forall i :: 0 <= i < |calls| ==> calls[i].value == ValueOf(calls[i].op, BlockOf(seed, calls, i))
  }

  // ----- Invariant over runs

  ghost predicate Position(seed: Word, s: State) {
    && s.shared == Orbit(seed, Taken(seed, s.log))
    && Sequential(seed, s.log)
  }

  /** A thread that loaded before any later completion still holds the current state. */
  ghost predicate LoadsOk(s: State) {
    forall t :: s.Pc(t).Loaded? ==>
      s.Pc(t).seen <= |s.log| && (s.Pc(t).seen == |s.log| ==> s.Pc(t).before == s.shared)
  }

  ghost predicate Inv(seed: Word, s: State) {
    Position(seed, s) && LoadsOk(s)
  }

  lemma SequentialSnoc(seed: Word, calls: seq<Call>, call: Call)
    requires Sequential(seed, calls)
    requires var start := Orbit(seed, Taken(seed, calls));
      call.value == ValueOf(call.op, Stretch(start, Cost(call.op, start)))
    ensures Sequential(seed, calls + [call])
  {
    hide ValueOf, Cost, Orbit, Stretch, Taken;
    var all := calls + [call];
    assert all[..|calls|] == calls;
    forall i | 0 <= i < |all|
      ensures all[i].value == ValueOf(all[i].op, BlockOf(seed, all, i))
    {
      if i < |calls| {
        assert all[..i] == calls[..i];
      }
    }
  }

  /** A step either completes a call from the current state or leaves state and history alone. */
  lemma StepEffect(s: State, t: Tid, c: Choice) returns (op: Op)
    ensures var s' := Step(s, t, c);
      var n := Cost(op, s.shared);
      || (s'.shared == s.shared && s'.log == s.log)
      || (s'.shared == Orbit(s.shared, n) && s'.log == s.log + [Call(t, op, ValueOf(op, Stretch(s.shared, n)))])
  {
    hide ValueOf, Cost, Stretch, Orbit;
    op := DrawWord;
    if s.Pc(t).Loaded? {
      op := s.Pc(t).op;
    }
  }

  /** A completed call moves the position on by what it took. */
  lemma CallMoves(seed: Word, calls: seq<Call>, call: Call)
    ensures var start := Orbit(seed, Taken(seed, calls));
      Orbit(seed, Taken(seed, calls + [call])) == Orbit(start, Cost(call.op, start))
  {
    hide Orbit, Cost;
    var all, n := calls + [call], Taken(seed, calls);
    assert all[..|all| - 1] == calls;
    OrbitAdd(seed, n, Cost(call.op, Orbit(seed, n)));
  }

  lemma StepPosition(seed: Word, s: State, t: Tid, c: Choice)
    requires Position(seed, s)
    ensures Position(seed, Step(s, t, c))
  {
    hide Step, ValueOf, Cost, Stretch, Sequential, Orbit, Taken;
    var op := StepEffect(s, t, c);
    if Step(s, t, c).log != s.log {
      var call := Call(t, op, ValueOf(op, Stretch(s.shared, Cost(op, s.shared))));
      SequentialSnoc(seed, s.log, call);
      CallMoves(seed, s.log, call);
    }
  }

  lemma StepLoads(s: State, t: Tid, c: Choice)
    requires LoadsOk(s)
    ensures LoadsOk(Step(s, t, c))
  {
    hide ValueOf, Cost, Stretch, Orbit;
    var s' := Step(s, t, c);
    forall u | s'.Pc(u).Loaded?
      ensures s'.Pc(u).seen <= |s'.log| && (s'.Pc(u).seen == |s'.log| ==> s'.Pc(u).before == s'.shared)
    {
      assert u != t ==> s'.Pc(u) == s.Pc(u);
    }
  }

  lemma StepInv(seed: Word, s: State, t: Tid, c: Choice)
    requires Inv(seed, s)
    ensures Inv(seed, Step(s, t, c))
  {
    hide Step, Position, LoadsOk;
    StepPosition(seed, s, t, c);
    StepLoads(s, t, c);
  }

  lemma {:induction false} ExecInv(seed: Word, run: seq<(Tid, Choice)>)
    ensures Inv(seed, Exec(State(seed, map[], []), run))
  {
    hide Inv, Step;
    if run == [] {
      InitInv(seed);
    } else {
      ExecInv(seed, run[..|run| - 1]);
      var last := run[|run| - 1];
      StepInv(seed, Exec(State(seed, map[], []), run[..|run| - 1]), last.0, last.1);
    }
  }

  lemma InitInv(seed: Word)
    ensures Inv(seed, State(seed, map[], []))
  {
  }

  /** The blocks of calls made one after another are one unbroken stretch of the orbit. */
  lemma {:induction false} BlocksAreStretch(seed: Word, calls: seq<Call>, n: nat)
    requires n <= |calls|
    ensures Blocks(seed, calls, n) == Stretch(seed, Taken(seed, calls[..n]))
  {
    hide Cost, Orbit, Stretch;
    if n == 0 {
      assert Stretch(seed, 0) == [];
    } else {
      BlocksAreStretch(seed, calls, n - 1);
      assert calls[..n][..n - 1] == calls[..n - 1];
      var m := Taken(seed, calls[..n - 1]);
      StretchAdd(seed, m, Cost(calls[n - 1].op, Orbit(seed, m)));
    }
  }

  /**
   * In every interleaving the completed calls take, in the order of their swaps, consecutive blocks
   * of the orbit of the seed: no state is skipped and none is taken twice. Each call returns what
   * its own block determines.
   */
  lemma SharedRuns(seed: Word, run: seq<(Tid, Choice)>)
    ensures var s := Exec(State(seed, map[], []), run);
      && s.shared == Orbit(seed, Taken(seed, s.log))
      && Blocks(seed, s.log, |s.log|) == Stretch(seed, Taken(seed, s.log))
      && Sequential(seed, s.log)
  {
    hide Exec, Blocks, Sequential;
    var s := Exec(State(seed, map[], []), run);
    ExecInv(seed, run);
    BlocksAreStretch(seed, s.log, |s.log|);
    assert s.log[..|s.log|] == s.log;
  }

  /** Within one period no two words are drawn from the same state, whichever threads draw them. */
  lemma NoStateTwice(seed: Word, run: seq<(Tid, Choice)>)
    requires Taken(seed, Exec(State(seed, map[], []), run).log) <= 0x1_0000_0000
    ensures var log := Exec(State(seed, map[], []), run).log;
      var taken := Blocks(seed, log, |log|);
      forall i, j :: 0 <= i < j < |taken| ==> taken[i] != taken[j]
  {
    hide Exec, Blocks, Taken, Orbit;
    var log := Exec(State(seed, map[], []), run).log;
    SharedRuns(seed, run);
    var n := Taken(seed, log);
    forall i, j | 0 <= i < j < n
      ensures Stretch(seed, n)[i] != Stretch(seed, n)[j]
    {
      StretchAt(seed, n, i);
      StretchAt(seed, n, j);
      OrbitDistinct(seed, i, j);
    }
  }

  /** A swap fails with cause only when another call completed since the load: some thread always gets on. */
  lemma FailureMeansProgress(seed: Word, run: seq<(Tid, Choice)>, t: Tid)
    ensures var s := Exec(State(seed, map[], []), run);
      s.Pc(t).Loaded? && Step(s, t, Swap(false)).log == s.log ==> s.Pc(t).seen < |s.log|
  {
    hide Exec, Taken, Orbit, Sequential;
    ExecInv(seed, run);
  }
}
