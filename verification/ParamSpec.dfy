/** Which parameter combinations a test runs on: the enumeration of tests/munit/munit.c as values. */
module ParamSpec {

  datatype Option<T> = None | Some(value: T)

  datatype Param = Param(name: string, value: string)

  /** `MunitParameterEnum`: a name and its possible values; the list may be absent. */
  datatype Enum = Enum(name: string, values: Option<seq<string>>)

  /** A parameter to be tried with each of its values. */
  datatype Wild = Wild(name: string, values: seq<string>)

  datatype Outcome = Passed | Failed | Errored

  /** The parameters of the runs so far and the failure counts of the runner. */
  datatype Report = Report(log: seq<seq<Param>>, failed: nat, errored: nat)

  /** What a run of the test does to the counts; it may depend on every run before it. */
  type Verdict = seq<seq<Param>> -> Outcome

  function Ran(r: Report, verdict: Verdict, params: seq<Param>): Report {
    var log := r.log + [params];
    match verdict(log)
    case Passed => r.(log := log)
    case Failed => r.(log := log, failed := r.failed + 1)
    case Errored => r.(log := log, errored := r.errored + 1)
  }

  predicate Stops(r: Report, fatal: bool) {
    fatal && (r.failed != 0 || r.errored != 0)
  }

  /** Run the combinations in order; with fatal failures, stop after a run that leaves a failure on the counts. */
  function RunAll(r: Report, verdict: Verdict, fatal: bool, combos: seq<seq<Param>>): Report
    decreases |combos|
  {
    if combos == [] then r
    else
      var next := Ran(r, verdict, combos[0]);
      if Stops(next, fatal) then next else RunAll(next, verdict, fatal, combos[1..])
  }

  // ----- The combinations

  /** Every way to extend the fixed parameters by one value for each wild one, the last varying fastest. */
  function Combos(fixed: seq<Param>, wild: seq<Wild>): seq<seq<Param>>
    decreases |wild|, 0
  {
    if wild == [] then [fixed] else CombosOver(fixed, wild[0].name, wild[0].values, wild[1..])
  }

  function CombosOver(fixed: seq<Param>, name: string, values: seq<string>, rest: seq<Wild>): seq<seq<Param>>
    decreases |rest|, |values| + 1
  {
    if values == [] then []
    else
      var last := |values| - 1;
      CombosOver(fixed, name, values[..last], rest) + Combos(fixed + [Param(name, values[last])], rest)
  }

  function Size(wild: seq<Wild>): nat {
    if wild == [] then 1 else |wild[0].values| * Size(wild[1..])
  }

  /** One value index for each wild parameter. */
  ghost predicate Choice(wild: seq<Wild>, d: seq<nat>) {
    |d| == |wild| && forall k :: 0 <= k < |d| ==> d[k] < |wild[k].values|
  }

  function Pick(wild: seq<Wild>, d: seq<nat>): seq<Param>
    requires Choice(wild, d)
  {
    seq(|wild|, k requires 0 <= k < |wild| => Param(wild[k].name, wild[k].values[d[k]]))
  }

  /** The number a choice denotes in the mixed radix of the value counts. */
  function Rank(wild: seq<Wild>, d: seq<nat>): nat
    requires |d| == |wild|
  {
    if wild == [] then 0 else d[0] * Size(wild[1..]) + Rank(wild[1..], d[1..])
  }

  lemma {:induction false} CombosOverSize(fixed: seq<Param>, name: string, values: seq<string>, rest: seq<Wild>)
    ensures |CombosOver(fixed, name, values, rest)| == |values| * Size(rest)
    decreases |rest|, |values| + 1
  {
    if values != [] {
      var last := |values| - 1;
      CombosOverSize(fixed, name, values[..last], rest);
      CombosSize(fixed + [Param(name, values[last])], rest);
      assert |values| * Size(rest) == last * Size(rest) + Size(rest);
    }
  }

  lemma {:induction false} CombosSize(fixed: seq<Param>, wild: seq<Wild>)
    ensures |Combos(fixed, wild)| == Size(wild)
    decreases |wild|, 0
  {
    if wild != [] {
      CombosOverSize(fixed, wild[0].name, wild[0].values, wild[1..]);
    }
  }

  /** The block of one value inside the enumeration over a list of values. */
  lemma {:induction false} CombosOverAt(fixed: seq<Param>, name: string, values: seq<string>, rest: seq<Wild>,
                                        v: nat, i: nat)
    requires v < |values| && i < Size(rest)
    ensures v * Size(rest) + i < |values| * Size(rest)
    ensures |CombosOver(fixed, name, values, rest)| == |values| * Size(rest)
    ensures |Combos(fixed + [Param(name, values[v])], rest)| == Size(rest)
    ensures CombosOver(fixed, name, values, rest)[v * Size(rest) + i] ==
      Combos(fixed + [Param(name, values[v])], rest)[i]
    decreases |values|
  {
    hide Combos, Size;
    var last, size := |values| - 1, Size(rest);
    CombosOverSize(fixed, name, values, rest);
    CombosOverSize(fixed, name, values[..last], rest);
    CombosSize(fixed + [Param(name, values[v])], rest);
    Above(v, |values|, size);
    if v < last {
      Above(v, last, size);
      CombosOverAt(fixed, name, values[..last], rest, v, i);
    }
  }

  lemma {:induction false} RankBound(wild: seq<Wild>, d: seq<nat>)
    requires Choice(wild, d)
    ensures Rank(wild, d) < Size(wild)
  {
    if wild != [] {
      RankBound(wild[1..], d[1..]);
      Above(d[0], |wild[0].values|, Size(wild[1..]));
    }
  }

  lemma Above(a: nat, b: nat, size: nat)
    requires a < b
    ensures a * size + size <= b * size
  {
    assert (a + 1) * size <= b * size;
  }

  /** The combination at the rank of a choice is that choice. */
  lemma {:induction false} CombosAt(fixed: seq<Param>, wild: seq<Wild>, d: seq<nat>)
    requires Choice(wild, d)
    ensures Rank(wild, d) < |Combos(fixed, wild)|
    ensures Combos(fixed, wild)[Rank(wild, d)] == fixed + Pick(wild, d)
    decreases |wild|
  {
    hide Size, CombosOver;
    RankBound(wild, d);
    CombosSize(fixed, wild);
    if wild != [] {
      var p := Param(wild[0].name, wild[0].values[d[0]]);
      RankBound(wild[1..], d[1..]);
      CombosOverAt(fixed, wild[0].name, wild[0].values, wild[1..], d[0], Rank(wild[1..], d[1..]));
      CombosAt(fixed + [p], wild[1..], d[1..]);
      assert Pick(wild, d) == [p] + Pick(wild[1..], d[1..]);
      assert fixed + [p] + Pick(wild[1..], d[1..]) == fixed + Pick(wild, d);
    } else {
      assert fixed + Pick(wild, d) == fixed;
    }
  }

  ghost predicate ChosenAt(wild: seq<Wild>, i: nat) {
    exists d :: Choice(wild, d) && Rank(wild, d) == i
  }

  /** The combination of a choice, entry by entry: the fixed ones, then the chosen value of each wild one. */
  lemma CombinationIs(fixed: seq<Param>, wild: seq<Wild>, d: seq<nat>, k: nat)
    requires Choice(wild, d) && k < |wild|
    ensures Rank(wild, d) < |Combos(fixed, wild)|
    ensures var c := Combos(fixed, wild)[Rank(wild, d)];
      |c| == |fixed| + |wild| && c[..|fixed|] == fixed
      && c[|fixed| + k] == Param(wild[k].name, wild[k].values[d[k]])
  {
    hide Combos, Rank;
    CombosAt(fixed, wild, d);
  }

  /** Every position is the rank of some choice. */
  lemma {:induction false} Unrank(wild: seq<Wild>, i: nat) returns (d: seq<nat>)
    requires i < Size(wild)
    ensures Choice(wild, d) && Rank(wild, d) == i
  {
    if wild == [] {
      d := [];
    } else {
      var n := Size(wild[1..]);
      var q, r := Divide(i, |wild[0].values|, n);
      var rest := Unrank(wild[1..], r);
      d := [q] + rest;
      assert d[1..] == rest;
    }
  }

  lemma {:induction false} Divide(i: nat, count: nat, size: nat) returns (q: nat, r: nat)
    requires i < count * size
    ensures i == q * size + r && r < size && q < count
    decreases count
  {
    assert count * size == (count - 1) * size + size;
    if i >= (count - 1) * size {
      q, r := count - 1, i - (count - 1) * size;
    } else {
      q, r := Divide(i, count - 1, size);
    }
  }

  /** Ranks follow the lexicographic order of the choices: the first difference, at k, decides. */
  lemma {:induction false} RankOrder(wild: seq<Wild>, d: seq<nat>, e: seq<nat>, k: nat)
    requires Choice(wild, d) && Choice(wild, e) && k < |wild| && d[..k] == e[..k] && d[k] < e[k]
    ensures Rank(wild, d) < Rank(wild, e)
    decreases k
  {
    RankBound(wild[1..], d[1..]);
    if k == 0 {
      Above(d[0], e[0], Size(wild[1..]));
    } else {
      assert d[..k][0] == e[..k][0];
      assert d[1..][..k - 1] == d[..k][1..] && e[1..][..k - 1] == e[..k][1..];
      RankOrder(wild[1..], d[1..], e[1..], k - 1);
    }
  }

  /**
   * The enumeration is the Cartesian product of the value lists after the fixed parameters: it has
   * one position for every choice of values, in lexicographic order, and no other position.
   */
  lemma CombosAreProduct(fixed: seq<Param>, wild: seq<Wild>)
    ensures forall d :: Choice(wild, d) ==>
      Rank(wild, d) < |Combos(fixed, wild)| && Combos(fixed, wild)[Rank(wild, d)] == fixed + Pick(wild, d)
    ensures forall i :: 0 <= i < |Combos(fixed, wild)| ==> ChosenAt(wild, i)
    ensures forall d, e, k ::
      Choice(wild, d) && Choice(wild, e) && 0 <= k < |wild| && d[..k] == e[..k] && d[k] < e[k] ==>
        Rank(wild, d) < Rank(wild, e)
  {
    hide Combos, Rank;
    forall d | Choice(wild, d)
      ensures Rank(wild, d) < |Combos(fixed, wild)| && Combos(fixed, wild)[Rank(wild, d)] == fixed + Pick(wild, d)
    {
      CombosAt(fixed, wild, d);
    }
    CombosSize(fixed, wild);
    forall i | 0 <= i < |Combos(fixed, wild)|
      ensures ChosenAt(wild, i)
    {
      var d := Unrank(wild, i);
    }
    forall d, e, k | Choice(wild, d) && Choice(wild, e) && 0 <= k < |wild| && d[..k] == e[..k] && d[k] < e[k]
      ensures Rank(wild, d) < Rank(wild, e)
    {
      RankOrder(wild, d, e, k);
    }
  }

  // ----- Early stop

  lemma {:induction false} RunAllAppend(r: Report, verdict: Verdict, fatal: bool,
                                        a: seq<seq<Param>>, b: seq<seq<Param>>)
    requires a != []
    ensures var mid := RunAll(r, verdict, fatal, a);
      RunAll(r, verdict, fatal, a + b) == if Stops(mid, fatal) then mid else RunAll(mid, verdict, fatal, b)
    decreases |a|
  {
    hide Ran, Stops;
    var next := Ran(r, verdict, a[0]);
    assert (a + b)[1..] == a[1..] + b;
    if a[1..] == [] {
      assert (a + b)[1..] == b;
    } else if !Stops(next, fatal) {
      RunAllAppend(next, verdict, fatal, a[1..], b);
    }
  }

  /** How many of the runs, made one after another after those in the log, have the given outcome. */
  function Tally(verdict: Verdict, log: seq<seq<Param>>, combos: seq<seq<Param>>, outcome: Outcome): nat
    decreases |combos|
  {
    if combos == [] then 0
    else
      (if verdict(log + [combos[0]]) == outcome then 1 else 0) + Tally(verdict, log + [combos[0]], combos[1..], outcome)
  }

  /** How many of the combinations are run. */
  function RunCount(r: Report, verdict: Verdict, fatal: bool, combos: seq<seq<Param>>): (n: nat)
    ensures n <= |combos|
    decreases |combos|
  {
    if combos == [] then 0
    else
      var next := Ran(r, verdict, combos[0]);
      if Stops(next, fatal) then 1 else 1 + RunCount(next, verdict, fatal, combos[1..])
  }

  /** The n-th prefix of the combinations, behind a log. */
  lemma Prefixes(log: seq<seq<Param>>, combos: seq<seq<Param>>, k: nat)
    requires k < |combos|
    ensures (log + [combos[0]]) + combos[1..][..k] == log + combos[..k + 1]
    ensures combos[..k + 1][0] == combos[0] && combos[..k + 1][1..] == combos[1..][..k]
  {
  }

  lemma {:induction false} RunsMade(r: Report, verdict: Verdict, fatal: bool, combos: seq<seq<Param>>)
    ensures var end, n := RunAll(r, verdict, fatal, combos), RunCount(r, verdict, fatal, combos);
      && end.log == r.log + combos[..n]
      && end.failed == r.failed + Tally(verdict, r.log, combos[..n], Failed)
      && end.errored == r.errored + Tally(verdict, r.log, combos[..n], Errored)
    decreases |combos|
  {
    hide Stops;
    if combos != [] {
      var next := Ran(r, verdict, combos[0]);
      if Stops(next, fatal) {
        Prefixes(r.log, combos, 0);
      } else {
        RunsMade(next, verdict, fatal, combos[1..]);
        Prefixes(r.log, combos, RunCount(next, verdict, fatal, combos[1..]));
      }
    }
  }

  lemma {:induction false} RunsUntil(r: Report, verdict: Verdict, combos: seq<seq<Param>>, k: nat)
    requires r.failed == 0 && r.errored == 0
    ensures var n := RunCount(r, verdict, true, combos);
      && (0 < k < n ==> verdict(r.log + combos[..k]) == Passed)
      && (n < |combos| ==> n > 0 && verdict(r.log + combos[..n]) != Passed)
    decreases |combos|
  {
    if combos != [] {
      var next, one, rest := Ran(r, verdict, combos[0]), r.log + [combos[0]], combos[1..];
      assert next.log == one && combos[..1] == [combos[0]];
      if !Stops(next, true) {
        var m := RunCount(next, verdict, true, rest);
        RunsUntil(next, verdict, rest, if k > 0 then k - 1 else 0);
        if m < |rest| {
          assert one + rest[..m] == r.log + combos[..m + 1];
        }
        if 1 < k <= m {
          assert one + rest[..k - 1] == r.log + combos[..k];
        }
      }
    }
  }

  lemma {:induction false} RunsAll(r: Report, verdict: Verdict, combos: seq<seq<Param>>)
    ensures RunCount(r, verdict, false, combos) == |combos|
    decreases |combos|
  {
    if combos != [] {
      RunsAll(Ran(r, verdict, combos[0]), verdict, combos[1..]);
    }
  }

  /**
   * The runs made are a prefix of the enumeration: all of it, unless failures are fatal, and then they
   * end with the first run that does not pass, or with the first run if there were failures before.
   */
  lemma RunsArePrefix(r: Report, verdict: Verdict, fatal: bool, combos: seq<seq<Param>>) returns (n: nat)
    ensures n <= |combos| && RunAll(r, verdict, fatal, combos).log == r.log + combos[..n]
    ensures !fatal ==> n == |combos|
    ensures fatal && (r.failed > 0 || r.errored > 0) ==> n == if combos == [] then 0 else 1
    ensures fatal && r.failed == 0 && r.errored == 0 ==>
      && (forall k :: 0 < k < n ==> verdict(r.log + combos[..k]) == Passed)
      && (n < |combos| ==> n > 0 && verdict(r.log + combos[..n]) != Passed)
    ensures var end := RunAll(r, verdict, fatal, combos);
      && end.failed == r.failed + Tally(verdict, r.log, combos[..n], Failed)
      && end.errored == r.errored + Tally(verdict, r.log, combos[..n], Errored)
  {
    hide RunAll, Tally;
    n := RunCount(r, verdict, fatal, combos);
    RunsMade(r, verdict, fatal, combos);
    if !fatal {
      RunsAll(r, verdict, combos);
    } else if r.failed == 0 && r.errored == 0 {
      forall k | 0 < k < n
        ensures verdict(r.log + combos[..k]) == Passed
      {
        RunsUntil(r, verdict, combos, k);
      }
      RunsUntil(r, verdict, combos, 0);
    }
  }

  // ----- Which parameters are fixed and which are wild

  /** The value given on the command line, if any: the first with that name. */
  function Given(cli: seq<Param>, name: string): Option<string> {
    if cli == [] then None
    else if cli[0].name == name then Some(cli[0].value)
    else Given(cli[1..], name)
  }

  /** The first value with the name counts. */
  lemma {:induction false} GivenIs(cli: seq<Param>, name: string)
    ensures Given(cli, name) == None <==> forall i :: 0 <= i < |cli| ==> cli[i].name != name
    ensures forall i :: 0 <= i < |cli| && cli[i].name == name && (forall j :: 0 <= j < i ==> cli[j].name != name) ==>
      Given(cli, name) == Some(cli[i].value)
  {
    if cli != [] && cli[0].name != name {
      var r := cli[1..];
      GivenIs(r, name);
      assert forall i :: 0 <= i < |r| ==> r[i] == cli[i + 1];
      assert forall i :: 0 < i < |cli| ==> cli[i] == r[i - 1];
      forall i | 0 <= i < |cli| && cli[i].name == name && (forall j :: 0 <= j < i ==> cli[j].name != name)
        ensures Given(cli, name) == Some(cli[i].value)
      {
        assert forall j :: 0 <= j < i - 1 ==> r[j].name != name;
      }
    }
  }

  predicate IsWild(cli: seq<Param>, e: Enum) {
    Given(cli, e.name) == None && e.values.Some? && e.values.value != []
  }

  function FixedOf(cli: seq<Param>, test: seq<Enum>): seq<Param> {
    if test == [] then []
    else
      var e := test[|test| - 1];
      var given := Given(cli, e.name);
      FixedOf(cli, test[..|test| - 1]) + if given.Some? then [Param(e.name, given.value)] else []
  }

  function WildOf(cli: seq<Param>, test: seq<Enum>): seq<Wild> {
    if test == [] then []
    else
      var e := test[|test| - 1];
      WildOf(cli, test[..|test| - 1]) + if IsWild(cli, e) then [Wild(e.name, e.values.value)] else []
  }

  ghost predicate DistinctNames(test: seq<Enum>) {
    forall i, j :: 0 <= i < j < |test| ==> test[i].name != test[j].name
  }

  /** How many parameters come before the first one whose value list is absent. */
  function Listed(test: seq<Enum>): (n: nat)
    ensures n <= |test|
    ensures forall i :: 0 <= i < n ==> test[i].values.Some?
    ensures n < |test| ==> test[n].values == None
  {
    if test == [] || test[0].values == None then 0 else 1 + Listed(test[1..])
  }
}
