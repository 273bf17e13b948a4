/** Running a test over its parameters in tests/munit/munit.c: the recursive walk and its setup. */
module ParamRunner {
  import opened Bits
  import opened ParamSpec

  /** The values of the first parameter with the given name. */
  function ValuesOf(test: seq<Enum>, name: string): seq<string> {
    if test == [] then []
    else if test[0].name == name then (if test[0].values.Some? then test[0].values.value else [])
    else ValuesOf(test[1..], name)
  }

  /** The wild parameters that array entries stand for; only their names matter. */
  function WildsFor(test: seq<Enum>, ps: seq<Param>): (w: seq<Wild>)
    ensures |w| == |ps|
  {
    seq(|ps|, i requires 0 <= i < |ps| => Wild(ps[i].name, ValuesOf(test, ps[i].name)))
  }

  ghost predicate Known(test: seq<Enum>, ps: seq<Param>) {
    forall i :: 0 <= i < |ps| ==> ValuesOf(test, ps[i].name) != []
  }

  predicate SameNames(ps: seq<Param>, qs: seq<Param>) {
    |ps| == |qs| && forall i :: 0 <= i < |ps| ==> ps[i].name == qs[i].name
  }

  ghost predicate NonEmpty(wild: seq<Wild>) {
    forall i :: 0 <= i < |wild| ==> wild[i].values != []
  }

  lemma {:induction false} CombosNonEmpty(fixed: seq<Param>, wild: seq<Wild>)
    requires NonEmpty(wild)
    ensures Combos(fixed, wild) != []
    decreases |wild|
  {
    if wild != [] {
      var values := wild[0].values;
      CombosNonEmpty(fixed + [Param(wild[0].name, values[|values| - 1])], wild[1..]);
    }
  }

  /** The enumeration over a list of values starts with the enumeration over any prefix of it. */
  lemma {:induction false} CombosOverPrefix(fixed: seq<Param>, name: string, values: seq<string>, v: nat,
                                            rest: seq<Wild>)
    returns (tail: seq<seq<Param>>)
    requires v <= |values|
    ensures CombosOver(fixed, name, values, rest) == CombosOver(fixed, name, values[..v], rest) + tail
    decreases |values|
  {
    hide Combos;
    if v == |values| {
      assert values[..v] == values;
      tail := [];
    } else {
      var last := |values| - 1;
      assert values[..last][..v] == values[..v];
      tail := CombosOverPrefix(fixed, name, values[..last], v, rest);
      tail := tail + Combos(fixed + [Param(name, values[last])], rest);
    }
  }

  class Runner {
    const cli: seq<Param>     // parameters given on the command line
    const fatal: bool         // `fatal_failures`
    const verdict: Verdict    // what each run of the test does
    var log: seq<seq<Param>>  // history: the parameters of the runs so far
    var failed: nat
    var errored: nat

    constructor (cli: seq<Param>, fatal: bool, verdict: Verdict)
      ensures this.cli == cli && this.fatal == fatal && this.verdict == verdict
      ensures Report() == ParamSpec.Report([], 0, 0)
    {
      this.cli, this.fatal, this.verdict := cli, fatal, verdict;
      log, failed, errored := [], 0, 0;
    }

    function Report(): Report
      reads this
    {
      ParamSpec.Report(log, failed, errored)
    }

    /** `munit_test_runner_run_test_with_params`, reduced to its effect on the counts. */
    method RunWithParams(params: seq<Param>)
      modifies this
      ensures Report() == Ran(old(Report()), verdict, params)
      ensures log == old(log) + [params]
      ensures failed == old(failed) + if verdict(log) == Failed then 1 else 0
      ensures errored == old(errored) + if verdict(log) == Errored then 1 else 0
    {
      log := log + [params];
      match verdict(log) {
        case Passed =>
        case Failed => failed := failed + 1;
        case Errored => errored := errored + 1;
      }
    }

    /** The search for the parameter that a name stands for. */
    static method FindValues(test: seq<Enum>, name: string) returns (values: seq<string>)
      ensures values == ValuesOf(test, name)
    {
      var j := 0;
      while j < |test| && test[j].name != name
        invariant 0 <= j <= |test|
        invariant ValuesOf(test[j..], name) == ValuesOf(test, name)
      {
        assert test[j..][1..] == test[j + 1..];
        j := j + 1;
      }
      values := [];
      if j < |test| && test[j].values.Some? {
        values := test[j].values.value;
      }
    }

    /**
     * `munit_test_runner_run_test_wild`: the entries from p on are tried with all their values, in
     * place. The runs made are those of the enumeration after the entries before p.
     */
    method RunWild(test: seq<Enum>, params: array<Param>, p: nat)
      requires p < params.Length && Known(test, params[p..])
      modifies this, params
      ensures params[..p] == old(params[..p]) && SameNames(params[..], old(params[..]))
      ensures Report() == RunAll(old(Report()), verdict, fatal,
                                 Combos(old(params[..p]), WildsFor(test, old(params[p..]))))
      decreases params.Length - p
    {
      hide Combos, CombosOver, Ran, RunAll, Stops, ValuesOf, NonEmpty;
      var name := params[p].name;
      ghost var before, fixed := Report(), params[..p];
      ghost var rest := WildsFor(test, params[p + 1..]);
      assert params[p] == params[p..][0];
      var values := FindValues(test, name);
      RestNonEmpty(test, params[p + 1..]);
      OverFirst(fixed, test, params[p..]);
      assert params[p..][1..] == params[p + 1..];
      var v, stopped := 0, false;
      while v < |values| && !stopped
        invariant 0 <= v <= |values| && (v == 0 ==> !stopped)
        invariant params[..p] == fixed && SameNames(params[..], old(params[..]))
        invariant v == 0 ==> Report() == before
        invariant v > 0 ==> Report() == RunAll(before, verdict, fatal, CombosOver(fixed, name, values[..v], rest))
        invariant v > 0 ==> stopped == Stops(Report(), fatal)
      {
        ghost var here := Report();
        params[p] := Param(name, values[v]);
        ghost var extended := fixed + [Param(name, values[v])];
        assert params[..p + 1] == extended;
        assert SameNames(params[p + 1..], old(params[p + 1..]));
        SameWilds(test, params[p + 1..], old(params[p + 1..]));
        if p + 1 == params.Length {
          RunWithParams(params[..]);
          assert params[..] == extended;
          OneCombo(here, verdict, fatal, extended);
        } else {
          RunWild(test, params, p + 1);
        }
        assert Report() == RunAll(here, verdict, fatal, Combos(extended, rest));
        NextValue(before, verdict, fatal, fixed, name, values, v, rest);
        stopped := fatal && (failed != 0 || errored != 0);
        StopsIs(Report(), fatal);
        v := v + 1;
      }
      if v < |values| {
        StopsEarly(before, verdict, fatal, fixed, name, values, v, rest);
      } else {
        assert values[..v] == values;
      }
    }

    /** The first loop of `munit_test_runner_run_test`: fixed parameters and the names of the wild ones. */
    method Split(test: seq<Enum>) returns (params: seq<Param>, wildNames: seq<string>)
      ensures params == FixedOf(cli, test)
      ensures wildNames == NamesOf(WildOf(cli, test))
    {
      hide FixedOf, WildOf, Given;
      params, wildNames := [], [];
      var i := 0;
      SplitNone(cli, test);
      while i < |test|
        invariant 0 <= i <= |test|
        invariant params == FixedOf(cli, test[..i])
        invariant wildNames == NamesOf(WildOf(cli, test[..i]))
      {
        var e := test[i];
        var c := 0;
        while c < |cli| && cli[c].name != e.name
          invariant 0 <= c <= |cli|
          invariant Given(cli[c..], e.name) == Given(cli, e.name)
        {
          GivenTail(cli, c, e.name);
          c := c + 1;
        }
        GivenHere(cli, c, e.name);
        SplitOne(cli, test, i);
        if c < |cli| {
          params := params + [Param(e.name, cli[c].value)];
        } else if e.values.Some? && e.values.value != [] {
          wildNames := wildNames + [e.name];
        }
        i := i + 1;
      }
      assert test[..i] == test;
    }

    /**
     * The second loop: an entry for each wild parameter. The inner loop ends at the first parameter
     * whose value list is absent, so wild parameters after it get no entry.
     */
    method Append(test: seq<Enum>, wildNames: seq<string>) returns (entries: seq<Param>)
      requires DistinctNames(test)
      requires wildNames == NamesOf(WildOf(cli, test))
      ensures entries == Entries(WildOf(cli, test[..Listed(test)]))
      ensures var kept := WildOf(cli, test[..Listed(test)]);
        forall i :: 0 <= i < |kept| ==>
          kept[i].values != [] && entries[i] == Param(kept[i].name, kept[i].values[0])
    {
      hide WildOf, Listed, NonEmpty, Entries;
      ghost var all, kept := WildOf(cli, test), WildOf(cli, test[..Listed(test)]);
      WildPrefix(cli, test, Listed(test));
      WildNonEmpty(cli, test[..Listed(test)]);
      EntriesAre(kept);
      NoEntries(all);
      entries := [];
      var w := 0;
      while w < |wildNames|
        invariant 0 <= w <= |wildNames|
        invariant entries == Entries(all[..Min(w, |kept|)])
      {
        ghost var t := WildIndex(cli, test, w, Listed(test));
        ghost var sofar := entries;
        var j := 0;
        while j < |test| && test[j].values.Some?
          invariant 0 <= j <= Listed(test)
          invariant entries == if t < j then sofar + [Param(all[w].name, all[w].values[0])] else sofar
        {
          if wildNames[w] == test[j].name {
            var values := test[j].values.value;
            entries := entries + [Param(test[j].name, if values == [] then "" else values[0])];
          }
          j := j + 1;
        }
        if w < |kept| {
          OneEntry(all, w);
        }
        w := w + 1;
      }
    }

    /**
     * `munit_test_runner_run_test`, all combinations. It is undefined (a null value list is read) when
     * there are wild parameters and none of them got an entry.
     */
    method RunTest(test: seq<Enum>) returns (defined: bool)
      requires DistinctNames(test)
      modifies this
      ensures defined <==> (WildOf(cli, test) == [] || WildOf(cli, test[..Listed(test)]) != [])
      ensures Report() == if !defined then old(Report())
        else RunAll(old(Report()), verdict, fatal, Combos(FixedOf(cli, test), WildOf(cli, test[..Listed(test)])))
    {
      hide WildOf, FixedOf, Combos, RunAll, Ran, Stops, Listed, Known;
      ghost var all, kept := WildOf(cli, test), WildOf(cli, test[..Listed(test)]);
      WildPrefix(cli, test, Listed(test));
      var fixed, wildNames := Split(test);
      defined := true;
      if wildNames != [] {
        var entries := Append(test, wildNames);
        var params := fixed + entries;
        if entries == [] {
          defined := false;
        } else {
          var a := new Param[|params|](i requires 0 <= i < |params| => params[i]);
          assert a[..] == params && a[|fixed|..] == entries && a[..|fixed|] == fixed;
          EntriesAreWild(cli, test, Listed(test));
          RunWild(test, a, |fixed|);
        }
      } else {
        RunWithParams(fixed);
        OneCombo(old(Report()), verdict, fatal, fixed);
      }
    }
  }

  lemma GivenTail(cli: seq<Param>, c: nat, name: string)
    requires c < |cli| && cli[c].name != name
    ensures Given(cli[c..], name) == Given(cli[c + 1..], name)
  {
    assert cli[c..][1..] == cli[c + 1..];
  }

  lemma GivenHere(cli: seq<Param>, c: nat, name: string)
    requires c <= |cli| && (c < |cli| ==> cli[c].name == name)
    ensures Given(cli[c..], name) == if c < |cli| then Some(cli[c].value) else None
  {
  }

  lemma SplitNone(cli: seq<Param>, test: seq<Enum>)
    ensures FixedOf(cli, test[..0]) == [] && WildOf(cli, test[..0]) == []
    ensures cli[0..] == cli && test[..|test|] == test
  {
  }

  /** How one more listed parameter is classified. */
  lemma SplitOne(cli: seq<Param>, test: seq<Enum>, i: nat)
    requires i < |test|
    ensures var given := Given(cli, test[i].name);
      FixedOf(cli, test[..i + 1]) ==
        FixedOf(cli, test[..i]) + if given.Some? then [Param(test[i].name, given.value)] else []
    ensures WildOf(cli, test[..i + 1]) ==
      WildOf(cli, test[..i]) +
        if Given(cli, test[i].name) == None && test[i].values.Some? && test[i].values.value != []
        then [Wild(test[i].name, test[i].values.value)]
        else []
  {
    hide Given;
    assert test[..i + 1][..i] == test[..i];
  }

  function NamesOf(wild: seq<Wild>): (names: seq<string>)
    ensures |names| == |wild|
  {
    seq(|wild|, i requires 0 <= i < |wild| => wild[i].name)
  }

  /** The array entries that stand for wild parameters; each starts at its first value. */
  function Entries(wild: seq<Wild>): (ps: seq<Param>)
    ensures |ps| == |wild|
  {
    seq(|wild|, i requires 0 <= i < |wild| =>
      Param(wild[i].name, if wild[i].values == [] then "" else wild[i].values[0]))
  }

  /** Each entry starts with the first value. */
  lemma EntriesAre(wild: seq<Wild>)
    requires NonEmpty(wild)
    ensures forall i :: 0 <= i < |wild| ==>
      wild[i].values != [] && Entries(wild)[i] == Param(wild[i].name, wild[i].values[0])
  {
  }

  lemma NoEntries(wild: seq<Wild>)
    ensures Entries(wild[..0]) == []
  {
  }

  lemma OneEntry(wild: seq<Wild>, w: nat)
    requires w < |wild|
    ensures Entries(wild[..w + 1]) ==
      Entries(wild[..w]) + [Param(wild[w].name, if wild[w].values == [] then "" else wild[w].values[0])]
  {
  }

  /** The wild parameters among the first n are the first of the wild ones. */
  lemma {:induction false} WildPrefix(cli: seq<Param>, test: seq<Enum>, n: nat)
    requires n <= |test|
    ensures var all, kept := WildOf(cli, test), WildOf(cli, test[..n]);
      |kept| <= |all| && all[..|kept|] == kept
    decreases |test|
  {
    hide IsWild;
    if n == |test| {
      assert test[..n] == test;
    } else {
      var last := |test| - 1;
      assert test[..last][..n] == test[..n];
      WildPrefix(cli, test[..last], n);
    }
  }

  /** Where a wild parameter is listed; it is among the first n exactly when it is kept. */
  lemma {:induction false} WildIndex(cli: seq<Param>, test: seq<Enum>, w: nat, n: nat) returns (t: nat)
    requires DistinctNames(test) && w < |WildOf(cli, test)| && n <= |test|
    ensures t < |test| && IsWild(cli, test[t])
    ensures WildOf(cli, test)[w] == Wild(test[t].name, test[t].values.value)
    ensures w < |WildOf(cli, test[..n])| <==> t < n
    ensures forall j :: 0 <= j < |test| && test[j].name == test[t].name ==> j == t
    decreases |test|
  {
    hide IsWild;
    var last := |test| - 1;
    WildPrefix(cli, test, n);
    if w < |WildOf(cli, test[..last])| {
      var m := if n < last then n else last;
      assert n < |test| ==> test[..last][..m] == test[..n];
      assert n == |test| ==> test[..n] == test && test[..last][..m] == test[..last];
      t := WildIndex(cli, test[..last], w, m);
      assert test[t].name != test[last].name;
    } else {
      t := last;
      if n < |test| {
        assert test[..last][..n] == test[..n];
        WildPrefix(cli, test[..last], n);
      } else {
        assert test[..n] == test;
      }
    }
  }

  /** A listed name is found with its own values. */
  lemma {:induction false} ValuesAt(test: seq<Enum>, t: nat)
    requires DistinctNames(test) && t < |test| && test[t].values.Some?
    ensures ValuesOf(test, test[t].name) == test[t].values.value
  {
    if t > 0 {
      assert test[0].name != test[t].name;
      assert forall i :: 0 <= i < |test[1..]| ==> test[1..][i] == test[i + 1];
      ValuesAt(test[1..], t - 1);
    }
  }

  /** The entries of the kept wild parameters stand for those parameters. */
  lemma EntriesAreWild(cli: seq<Param>, test: seq<Enum>, n: nat)
    requires DistinctNames(test) && n <= |test|
    ensures var kept := WildOf(cli, test[..n]);
      WildsFor(test, Entries(kept)) == kept && Known(test, Entries(kept))
  {
    hide WildOf, ValuesOf, DistinctNames;
    var all, kept := WildOf(cli, test), WildOf(cli, test[..n]);
    WildPrefix(cli, test, n);
    forall w | 0 <= w < |kept|
      ensures ValuesOf(test, kept[w].name) == kept[w].values && kept[w].values != []
    {
      assert kept[w] == all[w];
      var t := WildIndex(cli, test, w, n);
      ValuesAt(test, t);
    }
  }

  lemma StopsIs(r: Report, fatal: bool)
    ensures Stops(r, fatal) == (fatal && (r.failed != 0 || r.errored != 0))
  {
  }

  lemma SameWilds(test: seq<Enum>, ps: seq<Param>, qs: seq<Param>)
    requires SameNames(ps, qs)
    ensures WildsFor(test, ps) == WildsFor(test, qs)
    ensures Known(test, ps) == Known(test, qs)
  {
  }

  lemma RestNonEmpty(test: seq<Enum>, ps: seq<Param>)
    requires Known(test, ps)
    ensures NonEmpty(WildsFor(test, ps))
  {
  }

  lemma OverFirst(fixed: seq<Param>, test: seq<Enum>, ps: seq<Param>)
    requires ps != []
    ensures Combos(fixed, WildsFor(test, ps))
        == CombosOver(fixed, ps[0].name, ValuesOf(test, ps[0].name), WildsFor(test, ps[1..]))
  {
    assert WildsFor(test, ps)[1..] == WildsFor(test, ps[1..]);
  }

  lemma OneCombo(r: Report, verdict: Verdict, fatal: bool, params: seq<Param>)
    ensures RunAll(r, verdict, fatal, Combos(params, [])) == Ran(r, verdict, params)
  {
    var next := Ran(r, verdict, params);
    assert [params][1..] == [];
    assert RunAll(next, verdict, fatal, []) == next;
  }

  /** The runs over one more value follow the runs over the values before it. */
  lemma NextValue(r: Report, verdict: Verdict, fatal: bool, fixed: seq<Param>, name: string,
                  values: seq<string>, v: nat, rest: seq<Wild>)
    requires v < |values| && NonEmpty(rest)
    requires v > 0 ==> !Stops(RunAll(r, verdict, fatal, CombosOver(fixed, name, values[..v], rest)), fatal)
    ensures var here := if v == 0 then r else RunAll(r, verdict, fatal, CombosOver(fixed, name, values[..v], rest));
      RunAll(r, verdict, fatal, CombosOver(fixed, name, values[..v + 1], rest))
      == RunAll(here, verdict, fatal, Combos(fixed + [Param(name, values[v])], rest))
  {
    hide Combos, Ran, Stops, RunAll;
    var done, more := CombosOver(fixed, name, values[..v], rest), Combos(fixed + [Param(name, values[v])], rest);
    assert values[..v + 1][..v] == values[..v];
    if v == 0 {
      assert done + more == more;
    } else {
      CombosNonEmpty(fixed + [Param(name, values[v - 1])], rest);
      RunAllAppend(r, verdict, fatal, done, more);
    }
  }

  /** A stop after some of the values is the end of the whole enumeration. */
  lemma StopsEarly(r: Report, verdict: Verdict, fatal: bool, fixed: seq<Param>, name: string,
                   values: seq<string>, v: nat, rest: seq<Wild>)
    requires 0 < v <= |values| && NonEmpty(rest)
    requires Stops(RunAll(r, verdict, fatal, CombosOver(fixed, name, values[..v], rest)), fatal)
    ensures RunAll(r, verdict, fatal, CombosOver(fixed, name, values, rest))
        == RunAll(r, verdict, fatal, CombosOver(fixed, name, values[..v], rest))
  {
    hide Combos, Ran, Stops, RunAll;
    var done := CombosOver(fixed, name, values[..v], rest);
    var tail := CombosOverPrefix(fixed, name, values, v, rest);
    CombosNonEmpty(fixed + [Param(name, values[v - 1])], rest);
    RunAllAppend(r, verdict, fatal, done, tail);
  }

  // ----- When every combination is run

  lemma {:induction false} WildAfter(cli: seq<Param>, test: seq<Enum>, n: nat)
    requires n <= |test|
    ensures |WildOf(cli, test)| == |WildOf(cli, test[..n])| <==> forall j :: n <= j < |test| ==> !IsWild(cli, test[j])
    decreases |test|
  {
    hide IsWild;
    if n == |test| {
      assert test[..n] == test;
    } else {
      var last := |test| - 1;
      assert test[..last][..n] == test[..n];
      WildAfter(cli, test[..last], n);
      WildPrefix(cli, test[..last], n);
      assert forall j :: n <= j < last ==> test[..last][j] == test[j];
    }
  }

  lemma {:induction false} WildNonEmpty(cli: seq<Param>, test: seq<Enum>)
    ensures NonEmpty(WildOf(cli, test))
  {
    if test != [] {
      WildNonEmpty(cli, test[..|test| - 1]);
    }
  }

  lemma FirstLength(fixed: seq<Param>, wild: seq<Wild>)
    requires NonEmpty(wild)
    ensures Combos(fixed, wild) != [] && |Combos(fixed, wild)[0]| == |fixed| + |wild|
  {
    hide Combos, Rank;
    CombosNonEmpty(fixed, wild);
    CombosSize(fixed, wild);
    var d := Unrank(wild, 0);
    CombosAt(fixed, wild, d);
  }

  /**
   * A test is run on every combination exactly when no wild parameter is listed after one whose
   * value list is absent. (Absent lists are otherwise allowed: such a parameter is skipped or takes
   * its value from the command line.)
   */
  lemma EveryCombinationIff(cli: seq<Param>, test: seq<Enum>)
    ensures var fixed := FixedOf(cli, test);
      Combos(fixed, WildOf(cli, test[..Listed(test)])) == Combos(fixed, WildOf(cli, test))
      <==> forall j :: Listed(test) <= j < |test| ==> !IsWild(cli, test[j])
  {
    hide IsWild, WildOf, FixedOf, Combos, Listed;
    var n := Listed(test);
    var all := WildOf(cli, test);
    assert all[..|all|] == all;
    WildAfter(cli, test, n);
    WildPrefix(cli, test, n);
    WildNonEmpty(cli, test);
    WildNonEmpty(cli, test[..n]);
    FirstLength(FixedOf(cli, test), WildOf(cli, test));
    FirstLength(FixedOf(cli, test), WildOf(cli, test[..n]));
  }

  /** With an absent list between them, the second of two wild parameters is never set. */
  lemma WildDropped()
    ensures var test := [Enum("b", Some(["x", "y"])), Enum("a", None), Enum("c", Some(["p"]))];
      && DistinctNames(test)
      && Combos(FixedOf([], test), WildOf([], test[..Listed(test)])) == [[Param("b", "x")], [Param("b", "y")]]
      && |WildOf([], test)| == 2
  {
    var b, a, c := Enum("b", Some(["x", "y"])), Enum("a", None), Enum("c", Some(["p"]));
    var test := [b, a, c];
    assert test[1..] == [a, c] && Listed([a, c]) == 0 && Listed(test) == 1;
    assert test[..1] == [b] && test[..2] == [b, a];
    assert [b, a][..1] == [b] && [b][..0] == [];
    assert WildOf([], []) == [] && FixedOf([], []) == [];
    assert WildOf([], [b]) == [Wild("b", ["x", "y"])] && FixedOf([], [b]) == [];
    assert WildOf([], [b, a]) == [Wild("b", ["x", "y"])] && FixedOf([], [b, a]) == [];
    assert FixedOf([], test) == [];
    var w := Wild("b", ["x", "y"]);
    assert [w][1..] == [];
    assert ["x", "y"][..1] == ["x"] && ["x"][..0] == [];
    assert CombosOver([], "b", [], []) == [];
    var px, py := Param("b", "x"), Param("b", "y");
    assert [] + [px] == [px] && [] + [py] == [py];
    assert Combos([] + [Param("b", "x")], []) == [[Param("b", "x")]];
    assert CombosOver([], "b", ["x"], []) == [[Param("b", "x")]];
    assert Combos([] + [Param("b", "y")], []) == [[Param("b", "y")]];
  }
}
