/** What a provider's index means: the live stream ids in insertion order, over any run of operations. */
module IndexSpec {
  import opened Bits

  datatype Op = Create(id: Word) | Remove(id: Word) | Find(id: Word) | RemoveAll
  datatype Outcome = Done | Refused | Found | Missing

  /** ids without its first occurrence of id. */
  function Drop(ids: seq<Word>, id: Word): seq<Word> {
    if ids == [] then [] else if ids[0] == id then ids[1..] else [ids[0]] + Drop(ids[1..], id)
  }

  function Step(ids: seq<Word>, op: Op): (seq<Word>, Outcome) {
    match op
    case Create(id) => if id in ids then (ids, Refused) else (ids + [id], Done)
    case Remove(id) => if id in ids then (Drop(ids, id), Done) else (ids, Refused)
    case Find(id) => (ids, if id in ids then Found else Missing)
    case RemoveAll => ([], Done)
  }

  /** The ids and outcomes of a run. */
  function RunFrom(start: seq<Word>, ops: seq<Op>): (r: (seq<Word>, seq<Outcome>))
    ensures |r.1| == |ops|
  {
    if ops == [] then (start, [])
    else
      var (ids, outs) := RunFrom(start, ops[..|ops| - 1]);
      var (ids', out) := Step(ids, ops[|ops| - 1]);
      (ids', outs + [out])
  }

  /** A run from an empty index. */
  function Run(ops: seq<Op>): (seq<Word>, seq<Outcome>) {
    RunFrom([], ops)
  }

  lemma RunNothing(start: seq<Word>, ops: seq<Op>)
    ensures RunFrom(start, ops[..0]) == (start, [])
  {
  }

  /** A run with one more operation. */
  lemma RunSnoc(start: seq<Word>, ops: seq<Op>, k: nat)
    requires k < |ops|
    ensures var (ids, outs) := RunFrom(start, ops[..k]);
      var (ids', out) := Step(ids, ops[k]);
      RunFrom(start, ops[..k + 1]) == (ids', outs + [out])
  {
    assert ops[..k + 1][..k] == ops[..k];
  }

  /** Whether the last operation of the run that concerns id put it in. */
  predicate Alive(ops: seq<Op>, id: Word) {
    ops != [] &&
    match ops[|ops| - 1]
    case Create(i) => i == id || Alive(ops[..|ops| - 1], id)
    case Remove(i) => i != id && Alive(ops[..|ops| - 1], id)
    case Find(_) => Alive(ops[..|ops| - 1], id)
    case RemoveAll => false
  }

  /** The position in the run of the create that a live id stems from. */
  function Birth(ops: seq<Op>, id: Word): (k: nat)
    requires Alive(ops, id)
    ensures k < |ops| && ops[k] == Create(id)
  {
    var r := ops[..|ops| - 1];
    if Alive(r, id) then Birth(r, id) else |ops| - 1
  }

  ghost predicate Distinct(ids: seq<Word>) {
    forall i, j :: 0 <= i < j < |ids| ==> ids[i] != ids[j]
  }

  /** Dropping the id at position k closes the gap there. */
  lemma {:induction false} DropAt(ids: seq<Word>, k: nat)
    requires Distinct(ids) && k < |ids|
    ensures Drop(ids, ids[k]) == ids[..k] + ids[k + 1..]
  {
    if k > 0 {
      DropAt(ids[1..], k - 1);
      assert ids[..k] == [ids[0]] + ids[1..][..k - 1];
    }
  }

  /** ids are exactly the live ones, in the order of the creates they stem from. */
  ghost predicate Means(ops: seq<Op>, ids: seq<Word>) {
    AreLive(ops, ids) && InBirthOrder(ops, ids)
  }

  ghost predicate AreLive(ops: seq<Op>, ids: seq<Word>) {
    forall id :: id in ids <==> Alive(ops, id)
  }

  ghost predicate InBirthOrder(ops: seq<Op>, ids: seq<Word>) {
    && (forall i :: 0 <= i < |ids| ==> Alive(ops, ids[i]))
    && (forall i, j :: 0 <= i < j < |ids| ==> Birth(ops, ids[i]) < Birth(ops, ids[j]))
  }

  lemma MeansDistinct(ops: seq<Op>, ids: seq<Word>)
    requires Means(ops, ids)
    ensures Distinct(ids)
  {
  }

  /** What was born before the last operation, and is still alive after it, keeps its birth. */
  lemma BirthKept(ops: seq<Op>, id: Word)
    requires ops != [] && Alive(ops[..|ops| - 1], id) && Alive(ops, id)
    ensures Birth(ops, id) == Birth(ops[..|ops| - 1], id)
  {
  }

  lemma AfterCreate(r: seq<Op>, id: Word)
    ensures var ops := r + [Create(id)];
      && (forall x :: Alive(ops, x) <==> x == id || Alive(r, x))
      && (forall x :: Alive(r, x) ==> Birth(ops, x) == Birth(r, x))
      && (!Alive(r, id) ==> Birth(ops, id) == |r|)
  {
    var ops := r + [Create(id)];
    assert ops[..|ops| - 1] == r;
  }

  lemma CreateMeans(r: seq<Op>, ids: seq<Word>, id: Word)
    requires Means(r, ids)
    ensures Means(r + [Create(id)], if id in ids then ids else ids + [id])
  {
    hide Alive, Birth, AreLive, InBirthOrder;
    CreateLive(r, ids, id);
    CreateOrder(r, ids, id);
  }

  lemma CreateLive(r: seq<Op>, ids: seq<Word>, id: Word)
    requires AreLive(r, ids)
    ensures AreLive(r + [Create(id)], if id in ids then ids else ids + [id])
  {
    hide Alive, Birth;
    AfterCreate(r, id);
  }

  lemma CreateOrder(r: seq<Op>, ids: seq<Word>, id: Word)
    requires Means(r, ids)
    ensures InBirthOrder(r + [Create(id)], if id in ids then ids else ids + [id])
  {
    hide Alive, Birth;
    AfterCreate(r, id);
    var ops := r + [Create(id)];
    assert forall i :: 0 <= i < |ids| ==>
      Alive(r, ids[i]) && Alive(ops, ids[i]) && Birth(ops, ids[i]) == Birth(r, ids[i]);
  }

  lemma AfterRemove(r: seq<Op>, id: Word)
    ensures var ops := r + [Remove(id)];
      && (forall x :: Alive(ops, x) <==> x != id && Alive(r, x))
      && (forall x :: x != id && Alive(r, x) ==> Birth(ops, x) == Birth(r, x))
  {
    var ops := r + [Remove(id)];
    assert ops[..|ops| - 1] == r;
  }

  lemma RemoveMeans(r: seq<Op>, ids: seq<Word>, id: Word)
    requires Means(r, ids)
    ensures Means(r + [Remove(id)], if id in ids then Drop(ids, id) else ids)
  {
    hide Alive, Birth, Drop, AreLive, InBirthOrder;
    MeansDistinct(r, ids);
    if id in ids {
      var k :| 0 <= k < |ids| && ids[k] == id;
      DropAt(ids, k);
      RemoveLive(r, ids, k);
      RemoveOrder(r, ids, k);
    } else {
      RemoveNothing(r, ids, id);
    }
  }

  lemma RemoveNothing(r: seq<Op>, ids: seq<Word>, id: Word)
    requires Means(r, ids) && id !in ids
    ensures Means(r + [Remove(id)], ids)
  {
    hide Alive, Birth;
    AfterRemove(r, id);
    assert forall i :: 0 <= i < |ids| ==> ids[i] in ids;
  }

  lemma RemoveLive(r: seq<Op>, ids: seq<Word>, k: nat)
    requires AreLive(r, ids) && Distinct(ids) && k < |ids|
    ensures AreLive(r + [Remove(ids[k])], ids[..k] + ids[k + 1..])
  {
    hide Alive, Birth, Distinct;
    AfterRemove(r, ids[k]);
    var ops, d := r + [Remove(ids[k])], ids[..k] + ids[k + 1..];
    forall id
      ensures id in d <==> Alive(ops, id)
    {
      WithoutMember(ids, k, id);
      assert id in ids <==> Alive(r, id);
    }
  }

  lemma RemoveOrder(r: seq<Op>, ids: seq<Word>, k: nat)
    requires InBirthOrder(r, ids) && Distinct(ids) && k < |ids|
    ensures InBirthOrder(r + [Remove(ids[k])], ids[..k] + ids[k + 1..])
  {
    hide Alive, Birth;
    AfterRemove(r, ids[k]);
    var d := ids[..k] + ids[k + 1..];
    assert forall i :: 0 <= i < |d| ==> d[i] == ids[if i < k then i else i + 1];
  }

  /** Distinct ids without the k-th: the others. */
  lemma WithoutMember(ids: seq<Word>, k: nat, id: Word)
    requires Distinct(ids) && k < |ids|
    ensures id in ids[..k] + ids[k + 1..] <==> id in ids && id != ids[k]
  {
    var d := ids[..k] + ids[k + 1..];
    if id in ids && id != ids[k] {
      var i :| 0 <= i < |ids| && ids[i] == id;
      assert d[if i < k then i else i - 1] == id;
    }
  }

  lemma SameMeans(r: seq<Op>, ids: seq<Word>, id: Word)
    requires Means(r, ids)
    ensures Means(r + [Find(id)], ids)
  {
    var ops := r + [Find(id)];
    assert ops[..|ops| - 1] == r;
    forall x | x in ids
      ensures Birth(ops, x) == Birth(r, x)
    {
      BirthKept(ops, x);
    }
  }

  /** Over every run, an id is stored exactly when its last create, remove or remove-all was a create,
      and the ids stand in the order of the creates they stem from, each once. */
  lemma {:induction false} RunMeaning(ops: seq<Op>)
    ensures Means(ops, Run(ops).0) && Distinct(Run(ops).0)
  {
    if ops != [] {
      var r := ops[..|ops| - 1];
      var ids := Run(r).0;
      RunMeaning(r);
      assert ops == r + [ops[|ops| - 1]];
      match ops[|ops| - 1]
      case Create(id) => CreateMeans(r, ids, id);
      case Remove(id) => RemoveMeans(r, ids, id);
      case Find(id) => SameMeans(r, ids, id);
      case RemoveAll =>
    }
    MeansDistinct(ops, Run(ops).0);
  }

  /** Operation k puts the id in, and none after it takes it out. */
  ghost predicate PutInAt(ops: seq<Op>, id: Word, k: nat) {
    k < |ops| && ops[k] == Create(id) && forall j :: k < j < |ops| ==> ops[j] != Remove(id) && ops[j] != RemoveAll
  }

  lemma PutInBefore(ops: seq<Op>, id: Word, k: nat)
    requires ops != [] && k < |ops| - 1
    ensures PutInAt(ops, id, k) <==>
      (PutInAt(ops[..|ops| - 1], id, k) && ops[|ops| - 1] != Remove(id) && ops[|ops| - 1] != RemoveAll)
  {
    var r := ops[..|ops| - 1];
    assert forall j :: 0 <= j < |r| ==> r[j] == ops[j];
  }

  /** An id is alive when a create of it is not followed by its remove or by a remove-all. */
  lemma {:induction false} AliveIff(ops: seq<Op>, id: Word)
    ensures Alive(ops, id) <==> exists k: nat ::
      (k < |ops| && ops[k] == Create(id) && forall j :: k < j < |ops| ==> ops[j] != Remove(id) && ops[j] != RemoveAll)
  {
    PutInIff(ops, id);
    if k: nat :| PutInAt(ops, id, k) {
      assert ops[k] == Create(id);
    }
    if k: nat :|
      k < |ops| && ops[k] == Create(id) && forall j :: k < j < |ops| ==> ops[j] != Remove(id) && ops[j] != RemoveAll {
      assert PutInAt(ops, id, k);
    }
  }

  lemma {:induction false} PutInIff(ops: seq<Op>, id: Word)
    ensures Alive(ops, id) <==> exists k: nat :: PutInAt(ops, id, k)
    decreases |ops|
  {
    if ops != [] {
      var r, last := ops[..|ops| - 1], |ops| - 1;
      PutInIff(r, id);
      forall k: nat | k < last
        ensures PutInAt(ops, id, k) <==> PutInAt(r, id, k) && ops[last] != Remove(id) && ops[last] != RemoveAll
      {
        PutInBefore(ops, id, k);
      }
      assert PutInAt(ops, id, last) <==> ops[last] == Create(id);
      if k: nat :| PutInAt(r, id, k) {
        assert k < last && (PutInAt(ops, id, k) || ops[last] == Remove(id) || ops[last] == RemoveAll);
      }
    }
  }

  /** The create a live id stems from: the id was not alive before it, and is not removed after it. */
  lemma {:induction false} BirthIs(ops: seq<Op>, id: Word)
    requires Alive(ops, id)
    ensures var k := Birth(ops, id);
      && ops[k] == Create(id) && !Alive(ops[..k], id)
      && forall j :: k < j < |ops| ==> ops[j] != Remove(id) && ops[j] != RemoveAll
  {
    var r := ops[..|ops| - 1];
    if Alive(r, id) {
      BirthIs(r, id);
      assert r[..Birth(r, id)] == ops[..Birth(r, id)];
      assert forall j :: 0 <= j < |r| ==> r[j] == ops[j];
    }
  }

  /** The answer to every operation, from the history before it. */
  lemma Answers(ops: seq<Op>, op: Op)
    ensures var out := Run(ops + [op]).1[|ops|];
      && (op.Create? ==> out == if Alive(ops, op.id) then Refused else Done)
      && (op.Remove? ==> out == if Alive(ops, op.id) then Done else Refused)
      && (op.Find? ==> out == if Alive(ops, op.id) then Found else Missing)
      && (op.RemoveAll? ==> out == Done)
  {
    hide Alive, Birth;
    RunMeaning(ops);
    assert (ops + [op])[..|ops|] == ops;
  }

  /** The creates that build up an index with the given ids. */
  function Creates(ids: seq<Word>): (ops: seq<Op>)
    ensures |ops| == |ids|
  {
    seq(|ids|, i requires 0 <= i < |ids| => Create(ids[i]))
  }

  lemma {:induction false} Built(start: seq<Word>)
    requires Distinct(start)
    ensures Run(Creates(start)).0 == start
    decreases |start|
  {
    if start != [] {
      var r := start[..|start| - 1];
      Built(r);
      assert Creates(start)[..|start| - 1] == Creates(r);
      assert start == r + [start[|start| - 1]];
    }
  }

  /** A run from any state is a run from an empty index after the creates that lead to that state. */
  lemma {:induction false} RunFromIsRun(start: seq<Word>, ops: seq<Op>)
    requires Distinct(start)
    ensures RunFrom(start, ops).0 == Run(Creates(start) + ops).0
    ensures RunFrom(start, ops).1 == Run(Creates(start) + ops).1[|start|..]
    decreases |ops|
  {
    var all := Creates(start) + ops;
    if ops == [] {
      Built(start);
      assert all == Creates(start);
    } else {
      var r := ops[..|ops| - 1];
      RunFromIsRun(start, r);
      assert all[..|all| - 1] == Creates(start) + r;
    }
  }

  lemma LastAnswer(start: seq<Word>, ops: seq<Op>, op: Op)
    requires Distinct(start)
    ensures var before := Creates(start) + ops;
      RunFrom(start, ops + [op]).1[|ops|] == Run(before + [op]).1[|before|]
  {
    hide RunFrom, Creates;
    var whole := Creates(start) + (ops + [op]);
    RunFromIsRun(start, ops + [op]);
    assert whole == Creates(start) + ops + [op];
    Behind(Run(whole).1, |start|, |ops|);
  }

  lemma Behind<T>(s: seq<T>, a: nat, b: nat)
    requires a + b < |s|
    ensures s[a..][b] == s[a + b]
  {
  }

  /** The answers of a run from any state. */
  lemma AnswersFrom(start: seq<Word>, ops: seq<Op>, op: Op)
    requires Distinct(start)
    ensures var before, out := Creates(start) + ops, RunFrom(start, ops + [op]).1[|ops|];
      && (op.Create? ==> out == if Alive(before, op.id) then Refused else Done)
      && (op.Remove? ==> out == if Alive(before, op.id) then Done else Refused)
      && (op.Find? ==> out == if Alive(before, op.id) then Found else Missing)
      && (op.RemoveAll? ==> out == Done)
  {
    hide Alive, RunFrom, Creates, Run;
    LastAnswer(start, ops, op);
    Answers(Creates(start) + ops, op);
  }
}
