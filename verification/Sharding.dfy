/** Selecting the tests to run: the filter, disabled tests, and sharding. Running the selection
    once per shard partitions the runnable tests evenly. */
module Sharding {
  import opened Basics
  import opened TestFilter

  const DISABLE_TEST_FILTER := "DISABLED_*:*/DISABLED_*"

  /** The shard honoured by a run, as the environment gives it. */
  datatype Shard = Shard(total: int, index: int) {
    predicate Valid() {
      0 <= index < total
    }
  }

  datatype Flags = Flags(filter: string, disableFilter: string, alsoRunDisabled: bool)

  datatype TestInfo = TestInfo(name: string, isDisabled: bool, matchesFilter: bool, isInAnotherShard: bool, shouldRun: bool)

  predicate ShouldRunTestOnShard(shard: Shard, testId: nat)
    requires shard.Valid()
  {
    testId % shard.total == shard.index
  }

  // ---------- What is selected ----------

  ghost predicate IsDisabled(flags: Flags, suiteName: string, testName: string) {
    FilterAccepts(suiteName, flags.disableFilter) || FilterAccepts(testName, flags.disableFilter)
  }

  /** A test that some shard has to run. */
  ghost predicate IsRunnable(flags: Flags, suiteName: string, testName: string) {
    && (flags.alsoRunDisabled || !IsDisabled(flags, suiteName, testName))
    && Selects(flags.filter, suiteName + "." + testName)
  }

  /** The names that disable a test, of its suite or its own, begin with "DISABLED_" or contain it
      behind a slash. */
  lemma DisabledNames(name: string)
    ensures FilterAccepts(name, DISABLE_TEST_FILTER) <==> BeginsWith(name, "DISABLED_") || Contains(name, "/DISABLED_")
  {
    DisabledParts();
    BeginsOrContains(name, "DISABLED_", "/DISABLED_");
  }

  lemma DisabledParts()
    ensures DISABLE_TEST_FILTER == "DISABLED_" + "*:*" + "/DISABLED_" + "*"
    ensures Plain("DISABLED_") && Plain("/DISABLED_")
  {
  }

  /** What makes a test runnable: the filter selects its full name, and neither name disables it
      unless disabled tests are wanted too. */
  lemma RunnableTest(filter: string, alsoRunDisabled: bool, suiteName: string, testName: string)
    ensures IsRunnable(TestFlags(filter, alsoRunDisabled), suiteName, testName) <==>
            && Selects(filter, suiteName + "." + testName)
            && (alsoRunDisabled
                || !(BeginsWith(suiteName, "DISABLED_") || Contains(suiteName, "/DISABLED_")
                     || BeginsWith(testName, "DISABLED_") || Contains(testName, "/DISABLED_")))
  {
    DisabledNames(suiteName);
    DisabledNames(testName);
  }

  /** Which tests, by suite and test name, some shard has to run. */
  type Decision = (string, string) -> bool

  ghost predicate Decides(d: Decision, flags: Flags) {
    forall suiteName, testName {:trigger IsRunnable(flags, suiteName, testName)} ::
      d(suiteName, testName) <==> IsRunnable(flags, suiteName, testName)
  }

  lemma DecisionExists(flags: Flags) returns (d: Decision)
    ensures Decides(d, flags)
  {
    d := (suiteName, testName) => IsRunnable(flags, suiteName, testName);
  }

  ghost function RunnableTests(d: Decision, suiteName: string, tests: seq<TestInfo>): seq<bool> {
    seq(|tests|, i requires 0 <= i < |tests| => d(suiteName, tests[i].name))
  }

  ghost function Chosen(tests: seq<TestInfo>): seq<bool> {
    seq(|tests|, i requires 0 <= i < |tests| => tests[i].shouldRun)
  }

  ghost function CountTrue(r: seq<bool>): nat {
    if r == [] then 0 else CountTrue(r[..|r| - 1]) + (if r[|r| - 1] then 1 else 0)
  }

  predicate OnShard(shard: Option<Shard>, testId: nat)
    requires shard.Some? ==> shard.value.Valid()
  {
    shard.Some? ==> ShouldRunTestOnShard(shard.value, testId)
  }

  /** The tests a shard selects, when `before` runnable tests precede these. */
  ghost function Selection(runnable: seq<bool>, shard: Option<Shard>, before: nat): (s: seq<bool>)
    requires shard.Some? ==> shard.value.Valid()
    ensures |s| == |runnable|
  {
    if runnable == [] then []
    else
      var n := |runnable| - 1;
      Selection(runnable[..n], shard, before)
      + [runnable[n] && OnShard(shard, before + CountTrue(runnable[..n]))]
  }

  lemma {:induction false} CountAppend(a: seq<bool>, b: seq<bool>)
    ensures CountTrue(a + b) == CountTrue(a) + CountTrue(b)
  {
    if b == [] {
      assert a + b == a;
    } else {
      var n := |b| - 1;
      CountAppend(a, b[..n]);
      assert (a + b)[..|a + b| - 1] == a + b[..n];
    }
  }

  lemma {:induction false} SelectionAppend(a: seq<bool>, b: seq<bool>, shard: Option<Shard>, before: nat)
    requires shard.Some? ==> shard.value.Valid()
    ensures Selection(a + b, shard, before) == Selection(a, shard, before) + Selection(b, shard, before + CountTrue(a))
    decreases |b|
  {
    if b == [] {
      assert a + b == a;
    } else {
      var n := |b| - 1;
      SelectionAppend(a, b[..n], shard, before);
      CountAppend(a, b[..n]);
      assert (a + b)[..|a + b| - 1] == a + b[..n];
    }
  }

  /** Test k is selected exactly when it is runnable and its number falls to the shard. */
  lemma {:induction false} SelectionAt(runnable: seq<bool>, shard: Option<Shard>, k: nat)
    requires (shard.Some? ==> shard.value.Valid()) && k < |runnable|
    ensures Selection(runnable, shard, 0)[k] <==> runnable[k] && OnShard(shard, CountTrue(runnable[..k]))
    decreases |runnable|
  {
    var n := |runnable| - 1;
    if k < n {
      SelectionAt(runnable[..n], shard, k);
      assert runnable[..n][..k] == runnable[..k];
    }
  }

  // ---------- All shards together ----------

  /** Every runnable test is selected by exactly one shard, and no other test by any. */
  lemma ShardsPartition(runnable: seq<bool>, total: int, k: nat)
    requires total > 0 && k < |runnable|
    ensures var mine := CountTrue(runnable[..k]) % total;
            forall i :: 0 <= i < total ==>
              (Selection(runnable, Some(Shard(total, i)), 0)[k] <==> runnable[k] && i == mine)
  {
    forall i | 0 <= i < total
      ensures Selection(runnable, Some(Shard(total, i)), 0)[k] <==> runnable[k] && i == CountTrue(runnable[..k]) % total
    {
      SelectionAt(runnable, Some(Shard(total, i)), k);
    }
  }

  /** The number of 0..n that fall to shard `index`. */
  function Quota(n: nat, total: int, index: int): nat
    requires 0 <= index < total
  {
    n / total + if index < n % total then 1 else 0
  }

  lemma QuotaStep(n: nat, total: int, index: int)
    requires 0 <= index < total
    ensures Quota(n + 1, total, index) == Quota(n, total, index) + if n % total == index then 1 else 0
  {
    var q, m := n / total, n % total;
    assert n == q * total + m;
    if m + 1 < total {
      DivModUnique(n + 1, total, q, m + 1);
    } else {
      assert (q + 1) * total == q * total + total;
      DivModUnique(n + 1, total, q + 1, 0);
    }
  }

  lemma MulMonotone(a: int, b: int, t: int)
    requires a <= b && t >= 0
    ensures a * t <= b * t
  {
    assert (b - a) * t >= 0;
    assert b * t == a * t + (b - a) * t;
  }

  lemma DivModUnique(n: nat, total: int, q: nat, m: nat)
    requires total > 0 && n == q * total + m && m < total
    ensures n / total == q && n % total == m
  {
    var q' := n / total;
    assert n == q' * total + n % total;
    assert (q + 1) * total == q * total + total;
    assert (q' + 1) * total == q' * total + total;
    if q < q' {
      MulMonotone(q + 1, q', total);
    } else if q' < q {
      MulMonotone(q' + 1, q, total);
    }
  }

  lemma {:induction false} ShardSize(runnable: seq<bool>, total: int, index: int)
    requires 0 <= index < total
    ensures CountTrue(Selection(runnable, Some(Shard(total, index)), 0)) == Quota(CountTrue(runnable), total, index)
    decreases |runnable|
  {
    if runnable == [] {
      DivModUnique(0, total, 0, 0);
    } else {
      var n := |runnable| - 1;
      var shard := Some(Shard(total, index));
      ShardSize(runnable[..n], total, index);
      QuotaStep(CountTrue(runnable[..n]), total, index);
      var s := Selection(runnable, shard, 0);
      assert s[..n] == Selection(runnable[..n], shard, 0);
    }
  }

  /** The sizes of any two shards differ by at most one. */
  lemma ShardsAreBalanced(runnable: seq<bool>, total: int, i: int, j: int)
    requires 0 <= i < total && 0 <= j < total
    ensures CountTrue(Selection(runnable, Some(Shard(total, i)), 0)) <=
            CountTrue(Selection(runnable, Some(Shard(total, j)), 0)) + 1
  {
    ShardSize(runnable, total, i);
    ShardSize(runnable, total, j);
  }

  ghost function TotalSize(runnable: seq<bool>, total: int, upTo: nat): nat
    requires upTo <= total
  {
    if upTo == 0 then 0
    else TotalSize(runnable, total, upTo - 1) + CountTrue(Selection(runnable, Some(Shard(total, upTo - 1)), 0))
  }

  /** Together the shards run as many tests as are runnable. */
  lemma ShardsCoverAll(runnable: seq<bool>, total: int)
    requires total > 0
    ensures TotalSize(runnable, total, total) == CountTrue(runnable)
  {
    var n := CountTrue(runnable);
    PartialTotal(runnable, total, total);
    assert n == total * (n / total) + n % total;
  }

  lemma {:induction false} PartialTotal(runnable: seq<bool>, total: int, upTo: nat)
    requires 0 <= upTo <= total && total > 0
    ensures var n := CountTrue(runnable);
            TotalSize(runnable, total, upTo) == upTo * (n / total) + if upTo < n % total then upTo else n % total
  {
    var n := CountTrue(runnable);
    var q := n / total;
    if upTo > 0 {
      PartialTotal(runnable, total, upTo - 1);
      ShardSize(runnable, total, upTo - 1);
      assert upTo * q == (upTo - 1) * q + q;
    } else {
      assert upTo * q == 0;
    }
  }

  // ---------- The registry's side ----------

  class TestSuite {
    const name: string
    var tests: seq<TestInfo>
    var shouldRun: bool

    constructor (name: string, tests: seq<TestInfo>)
      ensures this.name == name && this.tests == tests && !shouldRun
    {
      this.name := name;
      this.tests := tests;
      shouldRun := false;
    }
  }

  ghost predicate SameNames(a: seq<TestInfo>, b: seq<TestInfo>) {
    |a| == |b| && forall i :: 0 <= i < |a| ==> a[i].name == b[i].name
  }

  /** The state of the inner loop after the first i tests of a suite. */
  ghost predicate Filtering(suiteName: string, tests: seq<TestInfo>, shouldRun: bool, d: Decision, shard: Option<Shard>,
                            before: nat, i: nat, runnable: nat, selected: nat)
  {
    && (shard.Some? ==> shard.value.Valid()) && i <= |tests|
    && Tally(RunnableTests(d, suiteName, tests)[..i], Chosen(tests[..i]), shouldRun, shard, before, runnable, selected)
  }

  ghost predicate Tally(all: seq<bool>, chosen: seq<bool>, shouldRun: bool, shard: Option<Shard>, before: nat,
                        runnable: nat, selected: nat)
    requires shard.Some? ==> shard.value.Valid()
  {
    && chosen == Selection(all, shard, before)
    && runnable == CountTrue(all)
    && selected == CountTrue(chosen)
    && (shouldRun <==> true in chosen)
  }

  lemma FilteringStep(suiteName: string, tests: seq<TestInfo>, shouldRun: bool, d: Decision, shard: Option<Shard>,
                      before: nat, i: nat, runnable: nat, selected: nat, info: TestInfo, counts: bool)
    requires Filtering(suiteName, tests, shouldRun, d, shard, before, i, runnable, selected) && i < |tests|
    requires info.name == tests[i].name && (counts <==> d(suiteName, tests[i].name))
    requires info.shouldRun <==> counts && OnShard(shard, before + runnable)
    ensures Filtering(suiteName, tests[i := info], shouldRun || info.shouldRun, d, shard, before, i + 1,
                      runnable + (if counts then 1 else 0), selected + (if info.shouldRun then 1 else 0))
  {
    var tests' := tests[i := info];
    RunnableByName(d, suiteName, tests, tests');
    var all, chosen := RunnableTests(d, suiteName, tests)[..i], Chosen(tests[..i]);
    var all' := RunnableTests(d, suiteName, tests')[..i + 1];
    assert all' == all + [counts];
    assert Chosen(tests'[..i + 1]) == chosen + [info.shouldRun];
    TallyStep(all, chosen, shouldRun, shard, before, runnable, selected, counts, info.shouldRun);
  }

  lemma TallyStep(all: seq<bool>, chosen: seq<bool>, shouldRun: bool, shard: Option<Shard>, before: nat,
                  runnable: nat, selected: nat, counts: bool, chooses: bool)
    requires shard.Some? ==> shard.value.Valid()
    requires Tally(all, chosen, shouldRun, shard, before, runnable, selected)
    requires chooses <==> counts && OnShard(shard, before + runnable)
    ensures Tally(all + [counts], chosen + [chooses], shouldRun || chooses, shard, before,
                  runnable + (if counts then 1 else 0), selected + (if chooses then 1 else 0))
  {
    var all', chosen' := all + [counts], chosen + [chooses];
    assert all'[..|all|] == all && chosen'[..|chosen|] == chosen;
    assert chosen'[|chosen|] == chooses;
    assert true in chosen' <==> true in chosen || chooses;
  }

  lemma NameKept(tests: seq<TestInfo>, was: seq<TestInfo>, i: nat, info: TestInfo)
    requires SameNames(tests, was) && i < |tests| && info.name == tests[i].name
    ensures SameNames(tests[i := info], was)
  {
  }

  lemma FilteringDone(suiteName: string, tests: seq<TestInfo>, shouldRun: bool, d: Decision, shard: Option<Shard>,
                      before: nat, runnable: nat, selected: nat)
    requires Filtering(suiteName, tests, shouldRun, d, shard, before, |tests|, runnable, selected)
    ensures Chosen(tests) == Selection(RunnableTests(d, suiteName, tests), shard, before)
    ensures runnable == CountTrue(RunnableTests(d, suiteName, tests)) && selected == CountTrue(Chosen(tests))
    ensures shouldRun <==> true in Chosen(tests)
  {
    var all := RunnableTests(d, suiteName, tests);
    assert tests[..|tests|] == tests && all[..|all|] == all;
  }

  /** The two filters are those of the flags, which d decides by. */
  ghost predicate Prepared(flagFilter: PositiveAndNegativeUnitTestFilter, disableFilter: UnitTestFilter,
                           flags: Flags, d: Decision)
  {
    && flagFilter.Valid() && flagFilter.Text == flags.filter
    && disableFilter.Valid() && disableFilter.Patterns == Fields(flags.disableFilter, ':')
    && Decides(d, flags)
  }

  /** Filters test i of a suite. */
  method FilterTestAt(suite: TestSuite, i: nat, flags: Flags, shard: Option<Shard>, before: nat, runnable: nat,
                      ghost selected: nat, flagFilter: PositiveAndNegativeUnitTestFilter, disableFilter: UnitTestFilter,
                      ghost d: Decision, ghost was: seq<TestInfo>)
    returns (isRunnable: bool, isSelected: bool)
    requires Prepared(flagFilter, disableFilter, flags, d) && i < |suite.tests|
    requires SuiteFiltered(suite.name, suite.tests, suite.shouldRun, was, flags, d, shard, before, i, runnable, selected)
    modifies suite
    ensures SuiteFiltered(suite.name, suite.tests, suite.shouldRun, was, flags, d, shard, before, i + 1,
                          runnable + (if isRunnable then 1 else 0), selected + (if isSelected then 1 else 0))
  {
    ghost var tests, shouldRun := suite.tests, suite.shouldRun;
    var info := FilterTest(suite.name, suite.tests[i].name, flags, shard, before + runnable, flagFilter, disableFilter, d);
    isRunnable := (flags.alsoRunDisabled || !info.isDisabled) && info.matchesFilter;
    isSelected := info.shouldRun;
    TestFiltered(suite.name, tests, shouldRun, was, flags, d, shard, before, i, runnable, selected, info, isRunnable);
    suite.tests := suite.tests[i := info];
    suite.shouldRun := suite.shouldRun || isSelected;
  }

  /** Filters one suite; `before` runnable tests precede it. */
  method FilterSuite(suite: TestSuite, flags: Flags, shard: Option<Shard>, before: nat,
                     flagFilter: PositiveAndNegativeUnitTestFilter, disableFilter: UnitTestFilter, ghost d: Decision)
    returns (runnable: nat, selected: nat)
    requires shard.Some? ==> shard.value.Valid()
    requires Prepared(flagFilter, disableFilter, flags, d)
    modifies suite
    ensures SameNames(suite.tests, old(suite.tests))
    ensures Chosen(suite.tests) == Selection(RunnableTests(d, suite.name, suite.tests), shard, before)
    ensures runnable == CountTrue(RunnableTests(d, suite.name, suite.tests))
    ensures selected == CountTrue(Chosen(suite.tests))
    ensures suite.shouldRun <==> true in Chosen(suite.tests)
    ensures AllLabelled(flags, suite.name, suite.tests, |suite.tests|)
  {
    runnable, selected := 0, 0;
    suite.shouldRun := false;
    ghost var was := suite.tests;
    SuiteStarts(suite.name, was, flags, d, shard, before);
    for i := 0 to |suite.tests|
      invariant SuiteFiltered(suite.name, suite.tests, suite.shouldRun, was, flags, d, shard, before, i, runnable, selected)
    {
      var runs, chosen := FilterTestAt(suite, i, flags, shard, before, runnable, selected, flagFilter, disableFilter, d, was);
      runnable := runnable + if runs then 1 else 0;
      selected := selected + if chosen then 1 else 0;
    }
    SuiteEnds(suite.name, suite.tests, suite.shouldRun, was, flags, d, shard, before, runnable, selected);
  }

  lemma SuiteStarts(suiteName: string, tests: seq<TestInfo>, flags: Flags, d: Decision, shard: Option<Shard>, before: nat)
    requires shard.Some? ==> shard.value.Valid()
    ensures SuiteFiltered(suiteName, tests, false, tests, flags, d, shard, before, 0, 0, 0)
  {
    assert RunnableTests(d, suiteName, tests)[..0] == [] && Chosen(tests[..0]) == [];
  }

  lemma SuiteEnds(suiteName: string, tests: seq<TestInfo>, shouldRun: bool, was: seq<TestInfo>, flags: Flags,
                  d: Decision, shard: Option<Shard>, before: nat, runnable: nat, selected: nat)
    requires SuiteFiltered(suiteName, tests, shouldRun, was, flags, d, shard, before, |tests|, runnable, selected)
    ensures shard.Some? ==> shard.value.Valid()
    ensures SameNames(tests, was) && AllLabelled(flags, suiteName, tests, |tests|)
    ensures Chosen(tests) == Selection(RunnableTests(d, suiteName, tests), shard, before)
    ensures runnable == CountTrue(RunnableTests(d, suiteName, tests)) && selected == CountTrue(Chosen(tests))
    ensures shouldRun <==> true in Chosen(tests)
  {
    FilteringDone(suiteName, tests, shouldRun, d, shard, before, runnable, selected);
  }

  /** The first i tests have been dealt with. */
  ghost predicate SuiteFiltered(suiteName: string, tests: seq<TestInfo>, shouldRun: bool, was: seq<TestInfo>, flags: Flags,
                                d: Decision, shard: Option<Shard>, before: nat, i: nat, runnable: nat, selected: nat)
  {
    && SameNames(tests, was) && AllLabelled(flags, suiteName, tests, i)
    && Filtering(suiteName, tests, shouldRun, d, shard, before, i, runnable, selected)
  }

  lemma TestFiltered(suiteName: string, tests: seq<TestInfo>, shouldRun: bool, was: seq<TestInfo>, flags: Flags,
                     d: Decision, shard: Option<Shard>, before: nat, i: nat, runnable: nat, selected: nat,
                     info: TestInfo, counts: bool)
    requires SuiteFiltered(suiteName, tests, shouldRun, was, flags, d, shard, before, i, runnable, selected) && i < |tests|
    requires info.name == tests[i].name && Labelled(flags, suiteName, info) && (counts <==> d(suiteName, tests[i].name))
    requires info.shouldRun <==> counts && OnShard(shard, before + runnable)
    ensures SuiteFiltered(suiteName, tests[i := info], shouldRun || info.shouldRun, was, flags, d, shard, before, i + 1,
                          runnable + (if counts then 1 else 0), selected + (if info.shouldRun then 1 else 0))
  {
    NameKept(tests, was, i, info);
    LabelledStep(flags, suiteName, tests, i, info);
    FilteringStep(suiteName, tests, shouldRun, d, shard, before, i, runnable, selected, info, counts);
  }

  /** The marks of a test: whether it is disabled, and whether the filter selects it. */
  ghost predicate Labelled(flags: Flags, suiteName: string, info: TestInfo) {
    && (info.isDisabled <==> IsDisabled(flags, suiteName, info.name))
    && (info.matchesFilter <==> Selects(flags.filter, suiteName + "." + info.name))
  }

  lemma LabelledStep(flags: Flags, suiteName: string, tests: seq<TestInfo>, i: nat, info: TestInfo)
    requires AllLabelled(flags, suiteName, tests, i) && i < |tests| && Labelled(flags, suiteName, info)
    ensures AllLabelled(flags, suiteName, tests[i := info], i + 1)
  {
  }

  ghost predicate AllLabelled(flags: Flags, suiteName: string, tests: seq<TestInfo>, n: nat) {
    n <= |tests| && forall i :: 0 <= i < n ==> Labelled(flags, suiteName, tests[i])
  }

  /** The decision for one test, numbered by the runnable tests before it. */
  method FilterTest(suiteName: string, testName: string, flags: Flags, shard: Option<Shard>, testId: nat,
                    flagFilter: PositiveAndNegativeUnitTestFilter, disableFilter: UnitTestFilter, ghost d: Decision)
    returns (info: TestInfo)
    requires shard.Some? ==> shard.value.Valid()
    requires Prepared(flagFilter, disableFilter, flags, d)
    ensures info.name == testName
    ensures (flags.alsoRunDisabled || !info.isDisabled) && info.matchesFilter <==> d(suiteName, testName)
    ensures info.shouldRun <==> d(suiteName, testName) && OnShard(shard, testId)
    ensures Labelled(flags, suiteName, info) && (info.isInAnotherShard <==> !OnShard(shard, testId))
  {
    var suiteDisabled := disableFilter.MatchesName(suiteName);
    var testDisabled := disableFilter.MatchesName(testName);
    var isDisabled := suiteDisabled || testDisabled;
    assert isDisabled <==> IsDisabled(flags, suiteName, testName);
    var matchesFilter := flagFilter.MatchesTest(suiteName, testName);
    var isRunnable := (flags.alsoRunDisabled || !isDisabled) && matchesFilter;
    assert isRunnable <==> IsRunnable(flags, suiteName, testName);
    var isInAnotherShard := !OnShard(shard, testId);
    info := TestInfo(testName, isDisabled, matchesFilter, isInAnotherShard, isRunnable && !isInAnotherShard);
  }

  ghost function AllRunnable(d: Decision, suites: seq<TestSuite>): seq<bool>
    reads suites
  {
    if suites == [] then []
    else
      var last := suites[|suites| - 1];
      AllRunnable(d, suites[..|suites| - 1]) + RunnableTests(d, last.name, last.tests)
  }

  ghost function AllChosen(suites: seq<TestSuite>): seq<bool>
    reads suites
  {
    if suites == [] then [] else AllChosen(suites[..|suites| - 1]) + Chosen(suites[|suites| - 1].tests)
  }

  lemma RunnableByName(d: Decision, name: string, a: seq<TestInfo>, b: seq<TestInfo>)
    requires SameNames(a, b)
    ensures RunnableTests(d, name, a) == RunnableTests(d, name, b)
  {
  }

  /** The state of the outer loop after the first i suites. */
  ghost predicate FilteredUpTo(suites: seq<TestSuite>, flags: Flags, d: Decision, shard: Option<Shard>, i: nat, runnable: nat, selected: nat)
    reads suites
  {
    && (shard.Some? ==> shard.value.Valid()) && i <= |suites|
    && AllChosen(suites[..i]) == Selection(AllRunnable(d, suites[..i]), shard, 0)
    && runnable == CountTrue(AllRunnable(d, suites[..i]))
    && selected == CountTrue(AllChosen(suites[..i]))
    && forall k :: 0 <= k < i ==>
         (suites[k].shouldRun <==> true in Chosen(suites[k].tests)) && AllLabelled(flags, suites[k].name, suites[k].tests, |suites[k].tests|)
  }

  lemma SuiteDone(suites: seq<TestSuite>, flags: Flags, d: Decision, shard: Option<Shard>, i: nat, before: nat, selectedBefore: nat,
                  runnable: nat, selected: nat)
    requires FilteredUpTo(suites, flags, d, shard, i, before, selectedBefore) && i < |suites|
    requires Chosen(suites[i].tests) == Selection(RunnableTests(d, suites[i].name, suites[i].tests), shard, before)
    requires runnable == CountTrue(RunnableTests(d, suites[i].name, suites[i].tests))
    requires selected == CountTrue(Chosen(suites[i].tests))
    requires suites[i].shouldRun <==> true in Chosen(suites[i].tests)
    requires AllLabelled(flags, suites[i].name, suites[i].tests, |suites[i].tests|)
    ensures FilteredUpTo(suites, flags, d, shard, i + 1, before + runnable, selectedBefore + selected)
  {
    AllSplit(suites, d, i);
    Extend(AllRunnable(d, suites[..i]), RunnableTests(d, suites[i].name, suites[i].tests),
           AllChosen(suites[..i]), Chosen(suites[i].tests), shard);
  }

  lemma AllSplit(suites: seq<TestSuite>, d: Decision, i: nat)
    requires i < |suites|
    ensures AllRunnable(d, suites[..i + 1]) == AllRunnable(d, suites[..i]) + RunnableTests(d, suites[i].name, suites[i].tests)
    ensures AllChosen(suites[..i + 1]) == AllChosen(suites[..i]) + Chosen(suites[i].tests)
  {
    assert suites[..i + 1][..i] == suites[..i];
  }

  lemma Extend(r: seq<bool>, r': seq<bool>, c: seq<bool>, c': seq<bool>, shard: Option<Shard>)
    requires shard.Some? ==> shard.value.Valid()
    requires c == Selection(r, shard, 0) && c' == Selection(r', shard, CountTrue(r))
    ensures c + c' == Selection(r + r', shard, 0)
    ensures CountTrue(r + r') == CountTrue(r) + CountTrue(r') && CountTrue(c + c') == CountTrue(c) + CountTrue(c')
  {
    SelectionAppend(r, r', shard, 0);
    CountAppend(r, r');
    CountAppend(c, c');
  }

  /** The flags of a run; the filter for disabled tests is fixed. */
  function TestFlags(filter: string, alsoRunDisabled: bool): Flags {
    Flags(filter, DISABLE_TEST_FILTER, alsoRunDisabled)
  }

  ghost predicate DistinctSuites(suites: seq<TestSuite>) {
    forall i, j :: 0 <= i < j < |suites| ==> suites[i] != suites[j]
  }

  /** The selection of one run; the number returned is the number of selected tests. */
  method FilterTests(testSuites: seq<TestSuite>, filter: string, alsoRunDisabled: bool, shard: Option<Shard>, ghost d: Decision)
    returns (numSelected: nat)
    requires Decides(d, TestFlags(filter, alsoRunDisabled)) && DistinctSuites(testSuites)
    requires shard.Some? ==> shard.value.Valid()
    modifies testSuites
    ensures KeptNames(testSuites, old(AllTests(testSuites)))
    ensures AllChosen(testSuites) == Selection(AllRunnable(d, testSuites), shard, 0)
    ensures numSelected == CountTrue(AllChosen(testSuites))
    ensures forall k :: 0 <= k < |testSuites| ==> (testSuites[k].shouldRun <==> true in Chosen(testSuites[k].tests))
    ensures forall k :: 0 <= k < |testSuites| ==>
              AllLabelled(TestFlags(filter, alsoRunDisabled), testSuites[k].name, testSuites[k].tests, |testSuites[k].tests|)
  {
    numSelected := FilterByFlags(testSuites, TestFlags(filter, alsoRunDisabled), shard, d);
  }

  method FilterByFlags(testSuites: seq<TestSuite>, flags: Flags, shard: Option<Shard>, ghost d: Decision)
    returns (numSelected: nat)
    requires Decides(d, flags) && DistinctSuites(testSuites)
    requires shard.Some? ==> shard.value.Valid()
    modifies testSuites
    ensures KeptNames(testSuites, old(AllTests(testSuites)))
    ensures AllChosen(testSuites) == Selection(AllRunnable(d, testSuites), shard, 0)
    ensures numSelected == CountTrue(AllChosen(testSuites))
    ensures forall k :: 0 <= k < |testSuites| ==> (testSuites[k].shouldRun <==> true in Chosen(testSuites[k].tests))
    ensures forall k :: 0 <= k < |testSuites| ==> AllLabelled(flags, testSuites[k].name, testSuites[k].tests, |testSuites[k].tests|)
  {
    var flagFilter := new PositiveAndNegativeUnitTestFilter(flags.filter);
    var disableFilter := new UnitTestFilter(flags.disableFilter);
    numSelected := FilterAll(testSuites, flags, shard, flagFilter, disableFilter, d);
    assert testSuites[..|testSuites|] == testSuites;
  }

  ghost function SuiteNames(suites: seq<TestSuite>): seq<string> {
    seq(|suites|, k requires 0 <= k < |suites| => suites[k].name)
  }

  /** What is runnable, from the names of the suites and their tests. */
  ghost function RunnableOf(d: Decision, names: seq<string>, tests: seq<seq<TestInfo>>): seq<bool>
    requires |names| == |tests|
  {
    if names == [] then []
    else
      var n := |names| - 1;
      RunnableOf(d, names[..n], tests[..n]) + RunnableTests(d, names[n], tests[n])
  }

  lemma {:induction false} RunnableByValue(d: Decision, suites: seq<TestSuite>)
    ensures AllRunnable(d, suites) == RunnableOf(d, SuiteNames(suites), AllTests(suites))
  {
    if suites != [] {
      var front := suites[..|suites| - 1];
      RunnableByValue(d, front);
      assert SuiteNames(suites)[..|front|] == SuiteNames(front) && AllTests(suites)[..|front|] == AllTests(front);
    }
  }

  lemma {:induction false} RunnableByNames(d: Decision, names: seq<string>, a: seq<seq<TestInfo>>, b: seq<seq<TestInfo>>)
    requires |names| == |a| == |b| && forall k :: 0 <= k < |a| ==> SameNames(b[k], a[k])
    ensures RunnableOf(d, names, a) == RunnableOf(d, names, b)
  {
    if names != [] {
      var n := |names| - 1;
      RunnableByNames(d, names[..n], a[..n], b[..n]);
      RunnableByName(d, names[n], b[n], a[n]);
    }
  }

  /** How many of the first n runs chose test k. */
  ghost function TimesChosen(runs: seq<seq<bool>>, k: nat, n: nat): nat
    requires n <= |runs| && forall i :: 0 <= i < |runs| ==> k < |runs[i]|
  {
    if n == 0 then 0 else TimesChosen(runs, k, n - 1) + if runs[n - 1][k] then 1 else 0
  }

  /** The runs are those of the first n shards. */
  ghost predicate AreRuns(runs: seq<seq<bool>>, runnable: seq<bool>, total: int, n: nat) {
    |runs| == n <= total && forall i :: 0 <= i < n ==> runs[i] == Selection(runnable, Some(Shard(total, i)), 0)
  }

  lemma OneMoreRun(runs: seq<seq<bool>>, runnable: seq<bool>, total: int, n: nat, run: seq<bool>)
    requires AreRuns(runs, runnable, total, n) && n < total && run == Selection(runnable, Some(Shard(total, n)), 0)
    ensures AreRuns(runs + [run], runnable, total, n + 1)
    ensures TotalSize(runnable, total, n + 1) == TotalSize(runnable, total, n) + CountTrue(run)
  {
  }

  lemma {:induction false} RunsPartition(runnable: seq<bool>, total: int, runs: seq<seq<bool>>, k: nat, n: nat)
    requires total > 0 && AreRuns(runs, runnable, total, total) && k < |runnable| && n <= total
    ensures TimesChosen(runs, k, n) == if runnable[k] && CountTrue(runnable[..k]) % total < n then 1 else 0
  {
    if n > 0 {
      RunsPartition(runnable, total, runs, k, n - 1);
      SelectionAt(runnable, Some(Shard(total, n - 1)), k);
    }
  }

  /** Filters for one shard of many. */
  method FilterForShard(testSuites: seq<TestSuite>, flags: Flags, shard: Shard, ghost d: Decision, ghost runnable: seq<bool>)
    returns (numSelected: nat, ghost run: seq<bool>)
    requires Decides(d, flags) && DistinctSuites(testSuites) && shard.Valid()
    requires AllRunnable(d, testSuites) == runnable
    modifies testSuites
    ensures AllRunnable(d, testSuites) == runnable
    ensures run == Selection(runnable, Some(shard), 0) == AllChosen(testSuites) && numSelected == CountTrue(run)
  {
    ghost var was := AllTests(testSuites);
    RunnableByValue(d, testSuites);
    numSelected := FilterByFlags(testSuites, flags, Some(shard), d);
    RunnableByValue(d, testSuites);
    RunnableByNames(d, SuiteNames(testSuites), was, AllTests(testSuites));
    run := AllChosen(testSuites);
  }

  /** Filters the same suites once for every shard: each runnable test is chosen in exactly one
      of the runs, any other test in none, and the numbers of selected tests add up. */
  method FilterForEveryShard(testSuites: seq<TestSuite>, filter: string, alsoRunDisabled: bool, total: int)
    returns (numSelected: nat, ghost runs: seq<seq<bool>>, ghost d: Decision)
    requires DistinctSuites(testSuites) && total > 0
    modifies testSuites
    ensures Decides(d, TestFlags(filter, alsoRunDisabled)) && |runs| == total
    ensures AllRunnable(d, testSuites) == old(AllRunnable(d, testSuites)) && AllChosen(testSuites) == runs[total - 1]
    ensures var runnable := AllRunnable(d, testSuites);
            && numSelected == CountTrue(runnable)
            && (forall i :: 0 <= i < total ==> |runs[i]| == |runnable|)
            && forall k :: 0 <= k < |runnable| ==> TimesChosen(runs, k, total) == if runnable[k] then 1 else 0
  {
    d := DecisionExists(TestFlags(filter, alsoRunDisabled));
    numSelected, runs := FilterForShards(testSuites, TestFlags(filter, alsoRunDisabled), total, d);
    ghost var runnable := AllRunnable(d, testSuites);
    forall k | 0 <= k < |runnable|
      ensures TimesChosen(runs, k, total) == if runnable[k] then 1 else 0
    {
      RunsPartition(runnable, total, runs, k, total);
    }
  }

  method FilterForShards(testSuites: seq<TestSuite>, flags: Flags, total: int, ghost d: Decision)
    returns (numSelected: nat, ghost runs: seq<seq<bool>>)
    requires Decides(d, flags) && DistinctSuites(testSuites) && total > 0
    modifies testSuites
    ensures AllRunnable(d, testSuites) == old(AllRunnable(d, testSuites)) && |runs| == total && AllChosen(testSuites) == runs[total - 1]
    ensures numSelected == CountTrue(AllRunnable(d, testSuites)) && AreRuns(runs, AllRunnable(d, testSuites), total, total)
  {
    numSelected, runs := 0, [];
    ghost var runnable := AllRunnable(d, testSuites);
    for index := 0 to total
      invariant AllRunnable(d, testSuites) == runnable && AreRuns(runs, runnable, total, index)
      invariant numSelected == TotalSize(runnable, total, index) && (index > 0 ==> AllChosen(testSuites) == runs[index - 1])
    {
      var selected;
      ghost var run;
      selected, run := FilterForShard(testSuites, flags, Shard(total, index), d, runnable);
      numSelected := numSelected + selected;
      OneMoreRun(runs, runnable, total, index, run);
      runs := runs + [run];
    }
    ShardsCoverAll(runnable, total);
  }

  ghost function AllTests(suites: seq<TestSuite>): seq<seq<TestInfo>>
    reads suites
  {
    seq(|suites|, k requires 0 <= k < |suites| reads suites => suites[k].tests)
  }

  ghost predicate KeptNames(suites: seq<TestSuite>, was: seq<seq<TestInfo>>)
    reads suites
  {
    |was| == |suites| && forall k :: 0 <= k < |suites| ==> SameNames(suites[k].tests, was[k])
  }

  /** The outer loop. */
  method FilterAll(testSuites: seq<TestSuite>, flags: Flags, shard: Option<Shard>,
                   flagFilter: PositiveAndNegativeUnitTestFilter, disableFilter: UnitTestFilter, ghost d: Decision)
    returns (numSelected: nat)
    requires Prepared(flagFilter, disableFilter, flags, d)
    requires DistinctSuites(testSuites)
    requires shard.Some? ==> shard.value.Valid()
    modifies testSuites
    ensures KeptNames(testSuites, old(AllTests(testSuites)))
    ensures exists runnable :: FilteredUpTo(testSuites, flags, d, shard, |testSuites|, runnable, numSelected)
  {
    var numRunnable := 0;
    numSelected := 0;
    ghost var was := AllTests(testSuites);
    for i := 0 to |testSuites|
      invariant KeptNames(testSuites, was)
      invariant FilteredUpTo(testSuites, flags, d, shard, i, numRunnable, numSelected)
    {
      var runnable, selected := FilterNext(testSuites, i, flags, shard, numRunnable, numSelected, flagFilter, disableFilter, d, was);
      numRunnable := numRunnable + runnable;
      numSelected := numSelected + selected;
    }
  }

  /** The next suite. */
  method FilterNext(testSuites: seq<TestSuite>, i: nat, flags: Flags, shard: Option<Shard>,
                    numRunnable: nat, ghost numSelected: nat,
                    flagFilter: PositiveAndNegativeUnitTestFilter, disableFilter: UnitTestFilter, ghost d: Decision,
                    ghost was: seq<seq<TestInfo>>)
    returns (runnable: nat, selected: nat)
    requires KeptNames(testSuites, was)
    requires DistinctSuites(testSuites)
    requires FilteredUpTo(testSuites, flags, d, shard, i, numRunnable, numSelected) && i < |testSuites|
    requires Prepared(flagFilter, disableFilter, flags, d)
    modifies testSuites[i]
    ensures KeptNames(testSuites, was)
    ensures FilteredUpTo(testSuites, flags, d, shard, i + 1, numRunnable + runnable, numSelected + selected)
  {
    runnable, selected := FilterAt(testSuites, i, flags, shard, numRunnable, numSelected, flagFilter, disableFilter, d, was);
    SuiteDone(testSuites, flags, d, shard, i, numRunnable, numSelected, runnable, selected);
  }

  lemma NamesThrough(a: seq<TestInfo>, b: seq<TestInfo>, c: seq<TestInfo>)
    requires SameNames(a, b) && SameNames(b, c)
    ensures SameNames(a, c)
  {
  }

  /** Filtering suite i leaves the earlier ones as they are. */
  method FilterAt(testSuites: seq<TestSuite>, i: nat, flags: Flags, shard: Option<Shard>,
                  numRunnable: nat, ghost numSelected: nat,
                  flagFilter: PositiveAndNegativeUnitTestFilter, disableFilter: UnitTestFilter, ghost d: Decision,
                  ghost was: seq<seq<TestInfo>>)
    returns (runnable: nat, selected: nat)
    requires KeptNames(testSuites, was)
    requires DistinctSuites(testSuites)
    requires FilteredUpTo(testSuites, flags, d, shard, i, numRunnable, numSelected) && i < |testSuites|
    requires Prepared(flagFilter, disableFilter, flags, d)
    modifies testSuites[i]
    ensures KeptNames(testSuites, was)
    ensures FilteredUpTo(testSuites, flags, d, shard, i, numRunnable, numSelected)
    ensures var suite := testSuites[i];
            && Chosen(suite.tests) == Selection(RunnableTests(d, suite.name, suite.tests), shard, numRunnable)
            && runnable == CountTrue(RunnableTests(d, suite.name, suite.tests)) && selected == CountTrue(Chosen(suite.tests))
            && (suite.shouldRun <==> true in Chosen(suite.tests)) && AllLabelled(flags, suite.name, suite.tests, |suite.tests|)
  {
    ghost var done, tests := testSuites[..i], testSuites[i].tests;
    assert testSuites[i] !in done;
    runnable, selected := FilterSuite(testSuites[i], flags, shard, numRunnable, flagFilter, disableFilter, d);
    assert AllRunnable(d, done) == old(AllRunnable(d, done)) && AllChosen(done) == old(AllChosen(done));
    assert FilteredUpTo(testSuites, flags, d, shard, i, numRunnable, numSelected);
    NamesThrough(testSuites[i].tests, tests, was[i]);
  }
}
