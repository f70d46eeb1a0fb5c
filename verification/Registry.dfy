/** The registry of test suites: registration in any order keeps the death test suites in
    front, shuffling keeps them there, and unshuffling restores the registration order. */
module TestRegistry {
  import opened Basics
  import opened TestFilter
  import opened Shuffling

  const DEATH_TEST_SUITE_FILTER := "*DeathTest:*DeathTest/*"

  /** The names a filter accepts; for DEATH_TEST_SUITE_FILTER, those of death test suites. */
  type Classifier = string -> bool

  ghost predicate Classifies(isDeath: Classifier, filter: string) {
    forall name {:trigger FilterAccepts(name, filter)} :: isDeath(name) <==> FilterAccepts(name, filter)
  }

  /** Death test suites are those whose names end in "DeathTest" or contain "DeathTest/". */
  lemma DeathTestNames(name: string)
    ensures FilterAccepts(name, DEATH_TEST_SUITE_FILTER) <==> EndsWith(name, "DeathTest") || Contains(name, "DeathTest/")
  {
    DeathTestParts();
    EndsOrContains(name, "DeathTest", "DeathTest/");
  }

  lemma DeathTestParts()
    ensures DEATH_TEST_SUITE_FILTER == "*" + "DeathTest" + ":*" + "DeathTest/" + "*"
    ensures Plain("DeathTest") && Plain("DeathTest/")
  {
  }

  class TestSuite {
    const name: string
    var testCount: nat
    var testIndices: seq<nat>

    ghost predicate Valid()
      reads this
    {
      testCount <= MAX_RANGE && IsOrder(testIndices, testCount)
    }

    constructor (name: string)
      ensures this.name == name && testCount == 0 && Valid()
    {
      this.name := name;
      testCount := 0;
      testIndices := [];
    }

    method AddTestInfo()
      requires Valid() && testCount < MAX_RANGE
      modifies this
      ensures Valid() && testCount == old(testCount) + 1 && testIndices == old(testIndices) + [old(testCount)]
      ensures old(testIndices == Identity(testCount)) ==> testIndices == Identity(testCount)
    {
      OneMorePlace(testIndices, testCount);
      testIndices := testIndices + [testCount];
      testCount := testCount + 1;
    }

    method ShuffleTests(random: Random)
      requires Valid()
      modifies this`testIndices, random
      ensures Valid()
      ensures testIndices == PartShuffled(old(testIndices), 0, testCount, old(random.state))
      ensures random.state == AfterDraws(old(random.state), testCount)
    {
      ghost var before, choices := testIndices, Draws(random.state, |testIndices|);
      testIndices := ShuffleRange(random, 0, |testIndices|, testIndices);
      ShuffledRearranges(before, 0, |before|, choices);
      RearrangedOrder(before, testIndices, 0, |before|);
    }

    method UnshuffleTests()
      requires Valid()
      modifies this`testIndices
      ensures Valid() && testIndices == Identity(testCount)
    {
      for i := 0 to |testIndices|
        invariant |testIndices| == testCount
        invariant forall k :: 0 <= k < i ==> testIndices[k] == k
      {
        testIndices := testIndices[i := i];
      }
      assert testIndices == Identity(testCount);
    }
  }

  // ---------- Orders ----------

  /** v after the shuffle of one range with a generator in the given state. */
  ghost function PartShuffled(v: seq<nat>, begin: nat, end: nat, state: nat): (w: seq<nat>)
    requires begin <= end <= |v|
    ensures |w| == |v|
  {
    Shuffled(v, begin, end - begin, Draws(state, end - begin))
  }

  /** v after the places before `split` and then those from `split` on were shuffled. */
  ghost function SplitShuffled(v: seq<nat>, split: nat, state: nat): seq<nat>
    requires split <= |v|
  {
    PartShuffled(PartShuffled(v, 0, split, state), split, |v|, AfterDraws(state, split))
  }

  function AfterSplit(n: nat, split: nat, state: nat): nat
    requires split <= n
  {
    AfterDraws(AfterDraws(state, split), n - split)
  }

  /** The index vectors of the suites after each was shuffled in turn. */
  ghost function EachShuffled(vs: seq<seq<nat>>, state: nat): (ws: seq<seq<nat>>)
    ensures |ws| == |vs|
  {
    if vs == [] then []
    else [PartShuffled(vs[0], 0, |vs[0]|, state)] + EachShuffled(vs[1..], AfterDraws(state, |vs[0]|))
  }

  lemma OneShuffled(done: seq<seq<nat>>, vs: seq<seq<nat>>, i: nat, state: nat)
    requires i < |vs|
    ensures done + EachShuffled(vs[i..], state) ==
            done + [PartShuffled(vs[i], 0, |vs[i]|, state)] + EachShuffled(vs[i + 1..], AfterDraws(state, |vs[i]|))
  {
    assert vs[i..][1..] == vs[i + 1..];
  }

  function Identities(counts: seq<nat>): seq<seq<nat>> {
    seq(|counts|, i requires 0 <= i < |counts| => Identity(counts[i]))
  }

  /** The places of the suites, and of the tests in each suite. */
  datatype TestOrder = TestOrder(suites: seq<nat>, tests: seq<seq<nat>>)

  /** The order that a seed gives suites with so many tests, of which the first `split` are death
      test suites. */
  ghost function OrderFor(seed: nat, counts: seq<nat>, split: nat): TestOrder
    requires split <= |counts|
  {
    TestOrder(SplitShuffled(Identity(|counts|), split, seed),
              EachShuffled(Identities(counts), AfterSplit(|counts|, split, seed)))
  }

  ghost function IterationOrder(shuffle: bool, seed: nat, counts: seq<nat>, split: nat): TestOrder
    requires split <= |counts|
  {
    if shuffle then OrderFor(seed, counts, split) else TestOrder(Identity(|counts|), Identities(counts))
  }

  const MAX_RANDOM_SEED := 99999

  function GetNextRandomSeed(seed: nat): (next: nat)
    requires 1 <= seed <= MAX_RANDOM_SEED
    ensures 1 <= next <= MAX_RANDOM_SEED && next != seed
  {
    var next := seed + 1;
    if next > MAX_RANDOM_SEED then 1 else next
  }

  function SeedAfter(shuffle: bool, seed: nat): (next: nat)
    requires 1 <= seed <= MAX_RANDOM_SEED
    ensures 1 <= next <= MAX_RANDOM_SEED
  {
    if shuffle then GetNextRandomSeed(seed) else seed
  }

  /** The seed of iteration i. */
  ghost function SeedAt(shuffle: bool, seed: nat, i: nat): (s: nat)
    requires 1 <= seed <= MAX_RANDOM_SEED
    ensures 1 <= s <= MAX_RANDOM_SEED
  {
    if i == 0 then seed else SeedAfter(shuffle, SeedAt(shuffle, seed, i - 1))
  }

  /** With shuffling the seeds go through 1 to 99999 in increasing order, wrapping around; without,
      the seed stays. */
  lemma {:induction false} SeedsInOrder(seed: nat, i: nat)
    requires 1 <= seed <= 99999
    ensures SeedAt(true, seed, i) == (seed - 1 + i) % 99999 + 1 && SeedAt(false, seed, i) == seed
  {
    if i > 0 {
      SeedsInOrder(seed, i - 1);
      WrapAround(seed - 1 + (i - 1));
    }
  }

  lemma WrapAround(n: nat)
    ensures (n + 1) % 99999 == if n % 99999 == 99998 then 0 else n % 99999 + 1
  {
  }

  /** The orders of the first n iterations. */
  ghost function OrdersFrom(hasTests: bool, shuffle: bool, seed: nat, n: nat, counts: seq<nat>, split: nat): (orders: seq<TestOrder>)
    requires 1 <= seed <= MAX_RANDOM_SEED && split <= |counts|
    ensures |orders| == n
  {
    if n == 0 then []
    else OrdersFrom(hasTests, shuffle, seed, n - 1, counts, split)
         + [IterationOrder(hasTests && shuffle, SeedAt(shuffle, seed, n - 1), counts, split)]
  }

  lemma OneMoreOrder(hasTests: bool, shuffle: bool, seed: nat, i: nat, counts: seq<nat>, split: nat)
    returns (order: TestOrder, orders: seq<TestOrder>)
    requires 1 <= seed <= MAX_RANDOM_SEED && split <= |counts|
    ensures order == IterationOrder(hasTests && shuffle, SeedAt(shuffle, seed, i), counts, split)
    ensures SeedAt(shuffle, seed, i + 1) == SeedAfter(shuffle, SeedAt(shuffle, seed, i))
    ensures orders == OrdersFrom(hasTests, shuffle, seed, i + 1, counts, split) == OrdersFrom(hasTests, shuffle, seed, i, counts, split) + [order]
  {
    order := IterationOrder(hasTests && shuffle, SeedAt(shuffle, seed, i), counts, split);
    orders := OrdersFrom(hasTests, shuffle, seed, i + 1, counts, split);
  }

  /** Starting from the seed of iteration i repeats the iterations from i on, without the first ones. */
  lemma {:induction false} StartLater(hasTests: bool, shuffle: bool, seed: nat, i: nat, n: nat, counts: seq<nat>, split: nat)
    requires 1 <= seed <= MAX_RANDOM_SEED && split <= |counts|
    ensures OrdersFrom(hasTests, shuffle, SeedAt(shuffle, seed, i), n, counts, split) == OrdersFrom(hasTests, shuffle, seed, i + n, counts, split)[i..]
  {
    if n > 0 {
      StartLater(hasTests, shuffle, seed, i, n - 1, counts, split);
      SeedsCompose(shuffle, seed, i, n - 1);
    }
  }

  lemma {:induction false} SeedsCompose(shuffle: bool, seed: nat, i: nat, j: nat)
    requires 1 <= seed <= MAX_RANDOM_SEED
    ensures SeedAt(shuffle, SeedAt(shuffle, seed, i), j) == SeedAt(shuffle, seed, i + j)
  {
    if j > 0 {
      SeedsCompose(shuffle, seed, i, j - 1);
    }
  }

  ghost function TestOrders(suites: seq<TestSuite>): seq<seq<nat>>
    reads suites
  {
    seq(|suites|, i requires 0 <= i < |suites| reads suites => suites[i].testIndices)
  }

  ghost function Counts(suites: seq<TestSuite>): seq<nat>
    reads suites
  {
    seq(|suites|, i requires 0 <= i < |suites| reads suites => suites[i].testCount)
  }

  function Identity(n: nat): seq<nat> {
    seq(n, i requires 0 <= i < n => i)
  }

  /** v lists 0..n in some order. */
  ghost predicate IsOrder(v: seq<nat>, n: nat) {
    |v| == n && Distinct(v) && forall i :: 0 <= i < n ==> v[i] < n
  }

  /** v keeps the first `split` places for the first `split` indices. */
  ghost predicate KeepsSplit(v: seq<nat>, split: nat) {
    forall i :: 0 <= i < |v| ==> (v[i] < split <==> i < split)
  }

  lemma RearrangedOrder(v: seq<nat>, w: seq<nat>, begin: nat, end: nat)
    requires begin <= end <= |v| && IsOrder(v, |v|) && Rearranges(v, w, begin, end)
    ensures IsOrder(w, |v|)
  {
    forall i | 0 <= i < |w|
      ensures w[i] < |v|
    {
      if begin <= i < end {
        assert InRange(v, begin, end, w[i]);
      }
    }
  }

  lemma RearrangedSplit(v: seq<nat>, w: seq<nat>, begin: nat, end: nat, split: nat)
    requires begin <= end <= |v| && Rearranges(v, w, begin, end) && KeepsSplit(v, split)
    requires end <= split || split <= begin
    ensures KeepsSplit(w, split)
  {
    forall i | 0 <= i < |w|
      ensures w[i] < split <==> i < split
    {
      if begin <= i < end {
        assert InRange(v, begin, end, w[i]);
      }
    }
  }

  // ---------- The registry ----------

  method GetElementOr(v: seq<nat>, i: int, defaultValue: int) returns (e: int)
    ensures e == if 0 <= i < |v| then v[i] else defaultValue
  {
    if i < 0 || i >= |v| {
      return defaultValue;
    }
    return v[i];
  }

  /** Names are unique, and the name map agrees with the list. */
  ghost predicate NamesAgree(suites: seq<TestSuite>, byName: map<string, TestSuite>) {
    && byName.Keys == Names(suites)
    && (forall i :: 0 <= i < |suites| ==> byName[suites[i].name] == suites[i])
    && (forall i, j :: 0 <= i < j < |suites| ==> suites[i] != suites[j])
  }

  ghost function Names(suites: seq<TestSuite>): set<string> {
    set i | 0 <= i < |suites| :: suites[i].name
  }

  lemma FindByName(suites: seq<TestSuite>, byName: map<string, TestSuite>, name: string)
    requires NamesAgree(suites, byName)
    ensures name in byName ==> byName[name] in suites && byName[name].name == name
    ensures suites != [] && suites[|suites| - 1].name == name ==> name in byName && byName[name] == suites[|suites| - 1]
  {
  }

  /** The death test suites are those up to position last. */
  ghost predicate DeathFirst(isDeath: Classifier, suites: seq<TestSuite>, last: int) {
    && -1 <= last < |suites|
    && forall i :: 0 <= i < |suites| ==> (isDeath(suites[i].name) <==> i <= last)
  }

  ghost predicate AllValid(suites: seq<TestSuite>)
    reads suites
  {
    forall s :: s in suites ==> s.Valid()
  }

  ghost predicate AllUnshuffled(suites: seq<TestSuite>)
    reads suites
  {
    forall s :: s in suites ==> s.testIndices == Identity(s.testCount)
  }

  function InsertAt<T>(v: seq<T>, at: nat, x: T): seq<T>
    requires at <= |v|
  {
    v[..at] + [x] + v[at..]
  }

  lemma InsertedElements<T>(v: seq<T>, at: nat, x: T)
    requires at <= |v|
    ensures forall y :: y in InsertAt(v, at, x) <==> y == x || y in v
    ensures forall i :: 0 <= i <= |v| ==> InsertAt(v, at, x)[i] == if i < at then v[i] else if i == at then x else v[i - 1]
  {
    assert forall y :: y in v <==> y in v[..at] || y in v[at..] by {
      assert v == v[..at] + v[at..];
    }
  }

  lemma InsertedNames(suites: seq<TestSuite>, byName: map<string, TestSuite>, at: nat, suite: TestSuite)
    requires at <= |suites| && NamesAgree(suites, byName) && suite.name !in byName
    ensures NamesAgree(InsertAt(suites, at, suite), byName[suite.name := suite])
  {
    InsertedElements(suites, at, suite);
    var more := InsertAt(suites, at, suite);
    forall i | 0 <= i < |suites|
      ensures suites[i].name in Names(more) && suites[i] != suite
    {
      assert more[if i < at then i else i + 1] == suites[i];
      assert suites[i].name in Names(suites);
    }
    assert more[at].name in Names(more);
  }

  lemma InsertedDeath(isDeath: Classifier, suites: seq<TestSuite>, last: int, suite: TestSuite)
    requires DeathFirst(isDeath, suites, last)
    ensures if isDeath(suite.name) then DeathFirst(isDeath, InsertAt(suites, last + 1, suite), last + 1)
            else DeathFirst(isDeath, InsertAt(suites, |suites|, suite), last)
  {
    InsertedElements(suites, last + 1, suite);
    InsertedElements(suites, |suites|, suite);
  }

  lemma AppendIsInsert<T>(v: seq<T>, x: T)
    ensures InsertAt(v, |v|, x) == v + [x]
  {
  }

  lemma InsertedSuites(suites: seq<TestSuite>, at: nat, suite: TestSuite)
    requires at <= |suites| && AllValid(suites)
    requires suite.Valid() && suite.testIndices == Identity(suite.testCount)
    ensures AllValid(InsertAt(suites, at, suite))
    ensures AllUnshuffled(suites) ==> AllUnshuffled(InsertAt(suites, at, suite))
  {
    InsertedElements(suites, at, suite);
  }

  lemma OneMorePlace(v: seq<nat>, n: nat)
    requires IsOrder(v, n)
    ensures IsOrder(v + [n], n + 1)
    ensures v == Identity(n) ==> v + [n] == Identity(n + 1)
  {
  }

  lemma IdentityOrder(n: nat, split: nat)
    ensures IsOrder(Identity(n), n) && KeepsSplit(Identity(n), split)
    ensures Identity(n) + [n] == Identity(n + 1)
  {
  }

  method IsDeathTestSuite(name: string, deathFilter: string, ghost isDeath: Classifier) returns (death: bool)
    requires Classifies(isDeath, deathFilter)
    ensures death <==> isDeath(name)
  {
    var filter := new UnitTestFilter(deathFilter);
    death := filter.MatchesName(name);
    assert death <==> FilterAccepts(name, deathFilter);
  }

  class UnitTestImpl {
    var testSuites: seq<TestSuite>
    var testSuitesByName: map<string, TestSuite>
    var testSuiteIndices: seq<nat>
    var lastDeathTestSuite: int
    const deathFilter: string
    ghost const isDeath: Classifier

    /** What every registration keeps, in any order of the suites. */
    ghost predicate Sound()
      reads this, testSuites
    {
      && |testSuites| <= MAX_RANGE
      && NamesAgree(testSuites, testSuitesByName)
      && DeathFirst(isDeath, testSuites, lastDeathTestSuite)
      && IsOrder(testSuiteIndices, |testSuites|)
      && AllValid(testSuites)
    }

    /** Moreover, death test suites run first. */
    ghost predicate Valid()
      reads this, testSuites
    {
      Sound() && KeepsSplit(testSuiteIndices, lastDeathTestSuite + 1)
    }

    /** A death test suite registered now would displace a suite from its own place. */
    ghost predicate TooLateForDeath()
      reads this, testSuites
      requires Sound()
    {
      lastDeathTestSuite + 1 < |testSuites| && testSuiteIndices[lastDeathTestSuite + 1] != lastDeathTestSuite + 1
    }

    ghost predicate Unshuffled()
      reads this, testSuites
    {
      testSuiteIndices == Identity(|testSuites|) && AllUnshuffled(testSuites)
    }

    constructor ()
      ensures Valid() && Unshuffled() && testSuites == []
      ensures Classifies(isDeath, deathFilter) && deathFilter == DEATH_TEST_SUITE_FILTER
    {
      deathFilter := DEATH_TEST_SUITE_FILTER;
      isDeath := name => FilterAccepts(name, DEATH_TEST_SUITE_FILTER);
      testSuites := [];
      testSuitesByName := map[];
      testSuiteIndices := [];
      lastDeathTestSuite := -1;
    }

    /** Finds the suite or inserts a new one: a death test suite after the last one, any other
        at the end. With shuffled suites a new death test suite may end up behind others. */
    method GetTestSuite(name: string) returns (suite: TestSuite)
      requires Sound() && |testSuites| < MAX_RANGE
      requires Classifies(isDeath, deathFilter)
      modifies this
      ensures Sound() && (old(Unshuffled()) ==> Valid() && Unshuffled())
      ensures old(Valid()) ==> (Valid() <==> !(isDeath(name) && old(name !in testSuitesByName && TooLateForDeath())))
      ensures suite in testSuites && suite.name == name
      ensures if old(name in testSuitesByName) then
                testSuites == old(testSuites) && suite == old(testSuitesByName)[name]
              else
                && fresh(suite) && suite.testCount == 0
                && testSuites == InsertAt(old(testSuites),
                                          if isDeath(name) then old(lastDeathTestSuite) + 1 else |old(testSuites)|, suite)
    {
      IdentityOrder(|testSuites|, lastDeathTestSuite + 1);
      FindByName(testSuites, testSuitesByName, name);
      if testSuites != [] && testSuites[|testSuites| - 1].name == name {
        return testSuites[|testSuites| - 1];
      }
      if name in testSuitesByName {
        return testSuitesByName[name];
      }
      suite := AddTestSuite(name);
    }

    method AddTestSuite(name: string) returns (suite: TestSuite)
      requires Sound() && |testSuites| < MAX_RANGE && name !in testSuitesByName
      requires Classifies(isDeath, deathFilter)
      modifies this
      ensures Sound() && (old(Unshuffled()) ==> Valid() && Unshuffled())
      ensures old(Valid()) ==> (Valid() <==> !(isDeath(name) && old(TooLateForDeath())))
      ensures fresh(suite) && suite.name == name && suite.testCount == 0 && suite in testSuites
      ensures testSuites == InsertAt(old(testSuites),
                                     if isDeath(name) then old(lastDeathTestSuite) + 1 else |old(testSuites)|, suite)
    {
      suite := new TestSuite(name);
      var death := IsDeathTestSuite(name, deathFilter, isDeath);
      Insert(suite, death);
    }

    method Insert(suite: TestSuite, death: bool)
      requires Sound() && |testSuites| < MAX_RANGE
      requires suite.name !in testSuitesByName && (death <==> isDeath(suite.name))
      requires suite.Valid() && suite.testIndices == Identity(suite.testCount)
      modifies this
      ensures Sound() && (old(Unshuffled()) ==> Valid() && Unshuffled())
      // death test suites still run first exactly if this is none, or comes in time
      ensures old(Valid()) ==> (Valid() <==> !(death && old(TooLateForDeath())))
      ensures testSuites == InsertAt(old(testSuites), if death then old(lastDeathTestSuite) + 1 else |old(testSuites)|, suite)
      ensures suite in testSuites
    {
      ghost var indices, n := testSuiteIndices, |testSuites|;
      ghost var more := InsertedSound(suite, death);
      InsertedPlace(death);
      testSuitesByName := testSuitesByName[suite.name := suite];
      Place(suite, death);
      testSuiteIndices := testSuiteIndices + [|testSuiteIndices|];
      assert testSuites == more && testSuiteIndices == indices + [n];
    }

    /** Puts a new suite in its place in the list. */
    method Place(suite: TestSuite, death: bool)
      requires -1 <= lastDeathTestSuite < |testSuites|
      modifies this`testSuites, this`lastDeathTestSuite
      ensures lastDeathTestSuite == if death then old(lastDeathTestSuite) + 1 else old(lastDeathTestSuite)
      ensures testSuites == InsertAt(old(testSuites), if death then old(lastDeathTestSuite) + 1 else |old(testSuites)|, suite)
    {
      if death {
        lastDeathTestSuite := lastDeathTestSuite + 1;
        testSuites := InsertAt(testSuites, lastDeathTestSuite, suite);
      } else {
        AppendIsInsert(testSuites, suite);
        testSuites := testSuites + [suite];
      }
    }

    lemma InsertedSound(suite: TestSuite, death: bool) returns (more: seq<TestSuite>)
      requires Sound() && |testSuites| < MAX_RANGE
      requires suite.name !in testSuitesByName && (death <==> isDeath(suite.name))
      requires suite.Valid() && suite.testIndices == Identity(suite.testCount)
      ensures more == InsertAt(testSuites, if death then lastDeathTestSuite + 1 else |testSuites|, suite)
      ensures |more| == |testSuites| + 1 && suite in more && NamesAgree(more, testSuitesByName[suite.name := suite])
      ensures DeathFirst(isDeath, more, if death then lastDeathTestSuite + 1 else lastDeathTestSuite)
      ensures AllValid(more) && (Unshuffled() ==> AllUnshuffled(more))
    {
      var at := if death then lastDeathTestSuite + 1 else |testSuites|;
      more := InsertAt(testSuites, at, suite);
      assert suite in more by {
        InsertedElements(testSuites, at, suite);
      }
      assert NamesAgree(more, testSuitesByName[suite.name := suite]) by {
        InsertedNames(testSuites, testSuitesByName, at, suite);
      }
      assert DeathFirst(isDeath, more, if death then lastDeathTestSuite + 1 else lastDeathTestSuite) by {
        InsertedDeath(isDeath, testSuites, lastDeathTestSuite, suite);
      }
      InsertedSuites(testSuites, at, suite);
    }

    lemma InsertedPlace(death: bool)
      requires Sound()
      ensures var split, more := lastDeathTestSuite + 1, testSuiteIndices + [|testSuites|];
              && IsOrder(more, |testSuites| + 1)
              && (testSuiteIndices == Identity(|testSuites|) ==> more == Identity(|testSuites| + 1) && Valid() && !TooLateForDeath())
              && (Valid() ==> (KeepsSplit(more, if death then split + 1 else split) <==> !(death && TooLateForDeath())))
    {
      OneMorePlace(testSuiteIndices, |testSuites|);
      if Valid() {
        LateDeathTestSuite(testSuiteIndices, lastDeathTestSuite + 1);
      }
    }

    /** Shuffles the suites, death test suites among themselves, and the tests in each suite. */
    method ShuffleTests(random: Random)
      requires Valid()
      modifies this`testSuiteIndices, testSuites, random
      ensures Valid()
      ensures testSuiteIndices == SplitShuffled(old(testSuiteIndices), lastDeathTestSuite + 1, old(random.state))
      ensures TestOrders(testSuites) == EachShuffled(old(TestOrders(testSuites)),
                                                     AfterSplit(|testSuites|, lastDeathTestSuite + 1, old(random.state)))
      ensures Counts(testSuites) == old(Counts(testSuites))
    {
      ghost var orders, counts := TestOrders(testSuites), Counts(testSuites);
      ShuffleSuites(random);
      assert TestOrders(testSuites) == orders && Counts(testSuites) == counts;
      ShuffleEach(random);
    }

    /** The tests of the first i suites are shuffled, the others are as they were. */
    ghost predicate ShuffledUpTo(orders: seq<seq<nat>>, counts: seq<nat>, i: nat, state: nat, all: seq<seq<nat>>)
      reads this, testSuites
    {
      && AllValid(testSuites) && Counts(testSuites) == counts && i <= |orders| == |testSuites|
      && TestOrders(testSuites)[i..] == orders[i..]
      && TestOrders(testSuites)[..i] + EachShuffled(orders[i..], state) == all
    }

    ghost predicate DistinctSuites()
      reads this
    {
      forall i, j :: 0 <= i < j < |testSuites| ==> testSuites[i] != testSuites[j]
    }

    method ShuffleNext(random: Random, i: nat, ghost orders: seq<seq<nat>>, ghost counts: seq<nat>, ghost all: seq<seq<nat>>)
      requires DistinctSuites() && i < |testSuites| && ShuffledUpTo(orders, counts, i, random.state, all)
      modifies testSuites[i], random
      ensures ShuffledUpTo(orders, counts, i + 1, random.state, all)
    {
      assert testSuites[i] in testSuites && testSuites[i].Valid();
      ghost var before, state := TestOrders(testSuites), random.state;
      assert before[i] == before[i..][0] == orders[i];
      assert Counts(testSuites)[i] == testSuites[i].testCount == |orders[i]|;
      testSuites[i].ShuffleTests(random);
      ghost var after := TestOrders(testSuites);
      OneShuffled(before[..i], orders, i, state);
      assert after == before[i := after[i]];
      assert after[..i + 1] == before[..i] + [after[i]] && after[i + 1..] == orders[i..][1..] == orders[i + 1..];
      assert Counts(testSuites) == counts;
    }

    method ShuffleEach(random: Random)
      requires AllValid(testSuites) && DistinctSuites()
      modifies testSuites, random
      ensures AllValid(testSuites) && Counts(testSuites) == old(Counts(testSuites))
      ensures TestOrders(testSuites) == EachShuffled(old(TestOrders(testSuites)), old(random.state))
    {
      ghost var counts, orders, all := Counts(testSuites), TestOrders(testSuites), EachShuffled(TestOrders(testSuites), random.state);
      assert orders[0..] == orders && [] + all == all;
      for i := 0 to |testSuites|
        invariant ShuffledUpTo(orders, counts, i, random.state, all)
      {
        ShuffleNext(random, i, orders, counts, all);
      }
      ghost var after := TestOrders(testSuites);
      assert after[..|after|] + [] == after && orders[|orders|..] == [];
    }

    method ShuffleSuites(random: Random)
      requires Valid()
      modifies this`testSuiteIndices, random
      ensures Valid()
      ensures testSuiteIndices == SplitShuffled(old(testSuiteIndices), lastDeathTestSuite + 1, old(random.state))
      ensures random.state == AfterSplit(|testSuites|, lastDeathTestSuite + 1, old(random.state))
    {
      var death := lastDeathTestSuite + 1;
      var between := ShufflePart(random, 0, death, testSuiteIndices, death);
      testSuiteIndices := ShufflePart(random, death, |testSuites|, between, death);
    }

    /** Unshuffling also puts late death test suites in front again. */
    method UnshuffleTests()
      requires Sound()
      modifies this`testSuiteIndices, testSuites
      ensures Valid() && Unshuffled() && Counts(testSuites) == old(Counts(testSuites))
    {
      ghost var counts := Counts(testSuites);
      for i := 0 to |testSuites|
        invariant |testSuiteIndices| == |testSuites| && AllValid(testSuites) && Counts(testSuites) == counts
        invariant forall k :: 0 <= k < i ==> testSuiteIndices[k] == k
        invariant forall k :: 0 <= k < i ==> testSuites[k].testIndices == Identity(testSuites[k].testCount)
      {
        testSuites[i].UnshuffleTests();
        testSuiteIndices := testSuiteIndices[i := i];
      }
      assert testSuiteIndices == Identity(|testSuites|);
      IdentityOrder(|testSuites|, lastDeathTestSuite + 1);
    }

    /** The order in which suites and tests would run now. */
    ghost function Order(): TestOrder
      reads this, testSuites
    {
      TestOrder(testSuiteIndices, TestOrders(testSuites))
    }

    lemma UnshuffledOrder()
      requires Valid() && Unshuffled()
      ensures TestOrders(testSuites) == Identities(Counts(testSuites))
    {
    }

    method ShuffleWithSeed(random: Random, randomSeed: nat)
      requires Valid() && Unshuffled()
      modifies this`testSuiteIndices, testSuites, random
      ensures Valid() && Counts(testSuites) == old(Counts(testSuites))
      ensures Order() == OrderFor(randomSeed, Counts(testSuites), lastDeathTestSuite + 1)
    {
      UnshuffledOrder();
      ghost var counts, orders := Counts(testSuites), TestOrders(testSuites);
      assert orders == Identities(counts) && |counts| == |testSuites|;
      random.Reseed(randomSeed);
      assert Counts(testSuites) == counts && TestOrders(testSuites) == orders;
      ShuffleTests(random);
    }

    /** Shuffles for an iteration if there is anything to shuffle for. */
    method StartIteration(random: Random, shuffle: bool, randomSeed: nat) returns (ghost order: TestOrder)
      requires Valid() && Unshuffled()
      modifies this`testSuiteIndices, testSuites, random
      ensures Valid() && Counts(testSuites) == old(Counts(testSuites)) && order.suites == testSuiteIndices
      ensures order == IterationOrder(shuffle, randomSeed, Counts(testSuites), lastDeathTestSuite + 1)
    {
      if shuffle {
        ShuffleWithSeed(random, randomSeed);
      } else {
        UnshuffledOrder();
      }
      order := Order();
    }

    /** Runs the suites in the current order if there is a test to run at all. */
    method RunSuites(hasTestsToRun: bool) returns (ran: seq<TestSuite>)
      requires Valid()
      ensures ran == if hasTestsToRun then RunOrder(testSuites, testSuiteIndices) else []
    {
      ran := [];
      if !hasTestsToRun {
        return;
      }
      for i := 0 to |testSuites|
        invariant ran == RunOrder(testSuites, testSuiteIndices)[..i]
      {
        var suite := GetMutableSuiteCase(i);
        ran := ran + [suite];
      }
    }

    /** An iteration before it unshuffles. */
    method RunOnce(random: Random, hasTestsToRun: bool, shuffle: bool, randomSeed: nat)
      returns (ran: seq<TestSuite>, ghost order: TestOrder)
      requires Valid() && Unshuffled()
      modifies this`testSuiteIndices, testSuites, random
      ensures Valid() && Counts(testSuites) == old(Counts(testSuites))
      ensures order == IterationOrder(hasTestsToRun && shuffle, randomSeed, Counts(testSuites), lastDeathTestSuite + 1)
      ensures IsOrder(order.suites, |testSuites|) && ran == if hasTestsToRun then RunOrder(testSuites, order.suites) else []
    {
      order := StartIteration(random, hasTestsToRun && shuffle, randomSeed);
      ran := RunSuites(hasTestsToRun);
    }

    /** One iteration: runs the suites, shuffled if asked to, if there is a test to run at all,
        and unshuffles in any case. */
    method RunIteration(random: Random, hasTestsToRun: bool, shuffle: bool, randomSeed: nat)
      returns (nextSeed: nat, ran: seq<TestSuite>, ghost order: TestOrder)
      requires Valid() && Unshuffled() && 1 <= randomSeed <= MAX_RANDOM_SEED
      modifies this`testSuiteIndices, testSuites, random
      ensures Valid() && Unshuffled() && Counts(testSuites) == old(Counts(testSuites))
      ensures order == IterationOrder(hasTestsToRun && shuffle, randomSeed, Counts(testSuites), lastDeathTestSuite + 1)
      ensures IsOrder(order.suites, |testSuites|) && ran == if hasTestsToRun then RunOrder(testSuites, order.suites) else []
      ensures nextSeed == SeedAfter(shuffle, randomSeed)
    {
      ghost var suites, counts, split := testSuites, Counts(testSuites), lastDeathTestSuite + 1;
      ran, order := RunOnce(random, hasTestsToRun, shuffle, randomSeed);
      assert order == IterationOrder(hasTestsToRun && shuffle, randomSeed, counts, split);
      UnshuffleTests();
      assert testSuites == suites && Counts(testSuites) == counts && lastDeathTestSuite + 1 == split;
      nextSeed := if shuffle then GetNextRandomSeed(randomSeed) else randomSeed;
    }

    /** The iterations of a test run. The order in which an iteration runs depends on its seed alone. */
    method RepeatTests(random: Random, hasTestsToRun: bool, shuffle: bool, randomSeed: nat, repeat: nat)
      returns (nextSeed: nat, ghost orders: seq<TestOrder>)
      requires Valid() && Unshuffled() && 1 <= randomSeed <= MAX_RANDOM_SEED
      modifies this`testSuiteIndices, testSuites, random
      ensures Valid() && Unshuffled() && Counts(testSuites) == old(Counts(testSuites))
      ensures nextSeed == SeedAt(shuffle, randomSeed, repeat)
      ensures orders == OrdersFrom(hasTestsToRun, shuffle, randomSeed, repeat, Counts(testSuites), lastDeathTestSuite + 1)
    {
      nextSeed, orders := randomSeed, [];
      ghost var counts, split := Counts(testSuites), lastDeathTestSuite + 1;
      for i := 0 to repeat
        invariant Valid() && Unshuffled() && Counts(testSuites) == counts
        invariant nextSeed == SeedAt(shuffle, randomSeed, i)
        invariant orders == OrdersFrom(hasTestsToRun, shuffle, randomSeed, i, counts, split)
      {
        ghost var order, expected := OneMoreOrder(hasTestsToRun, shuffle, randomSeed, i, counts, split);
        var ran;
        nextSeed, ran, order := RunIteration(random, hasTestsToRun, shuffle, nextSeed);
        orders := orders + [order];
        assert orders == expected;
      }
    }

    /** The suite at place i of the current order. */
    method GetMutableSuiteCase(i: int) returns (suite: TestSuite?)
      requires Valid()
      ensures suite == if 0 <= i < |testSuites| then testSuites[testSuiteIndices[i]] else null
    {
      var index := GetElementOr(testSuiteIndices, i, -1);
      suite := if index < 0 then null else testSuites[index];
    }

    /** Unlike GetMutableSuiteCase this ignores the current order. */
    method GetTestSuiteAt(i: int) returns (suite: TestSuite?)
      requires Valid()
      ensures suite == if 0 <= i < |testSuites| then testSuites[i] else null
    {
      var index := GetElementOr(testSuiteIndices, i, -1);
      suite := if index < 0 then null else testSuites[i];
    }
  }

  lemma ShuffledOrder(v: seq<nat>, begin: nat, end: nat, split: nat, choices: seq<nat>)
    requires begin <= end <= |v| && AreChoices(choices, end - begin)
    requires IsOrder(v, |v|) && KeepsSplit(v, split) && (end <= split || split <= begin)
    ensures var w := Shuffled(v, begin, end - begin, choices); IsOrder(w, |v|) && KeepsSplit(w, split)
  {
    ShuffledRearranges(v, begin, end - begin, choices);
    var w := Shuffled(v, begin, end - begin, choices);
    RearrangedOrder(v, w, begin, end);
    RearrangedSplit(v, w, begin, end, split);
  }

  /** Shuffles one side of the split. */
  method ShufflePart(random: Random, begin: nat, end: nat, v: seq<nat>, ghost split: nat) returns (w: seq<nat>)
    requires begin <= end <= |v| <= MAX_RANGE && IsOrder(v, |v|) && KeepsSplit(v, split) && (end <= split || split <= begin)
    modifies random
    ensures IsOrder(w, |v|) && KeepsSplit(w, split) && w == PartShuffled(v, begin, end, old(random.state))
    ensures random.state == AfterDraws(old(random.state), end - begin)
  {
    ghost var choices := Draws(random.state, end - begin);
    w := ShuffleRange(random, begin, end, v);
    ShuffledOrder(v, begin, end, split, choices);
  }

  lemma PartIsOrder(v: seq<nat>, begin: nat, end: nat, split: nat, state: nat)
    requires begin <= end <= |v| && IsOrder(v, |v|) && KeepsSplit(v, split) && (end <= split || split <= begin)
    ensures IsOrder(PartShuffled(v, begin, end, state), |v|) && KeepsSplit(PartShuffled(v, begin, end, state), split)
  {
    ShuffledOrder(v, begin, end, split, Draws(state, end - begin));
  }

  lemma {:induction false} EachIsOrder(vs: seq<seq<nat>>, state: nat)
    requires forall i :: 0 <= i < |vs| ==> IsOrder(vs[i], |vs[i]|)
    ensures forall i :: 0 <= i < |vs| ==> IsOrder(EachShuffled(vs, state)[i], |vs[i]|)
  {
    if vs != [] {
      var later := AfterDraws(state, |vs[0]|);
      assert forall i :: 0 <= i < |vs[1..]| ==> vs[1..][i] == vs[i + 1];
      EachIsOrder(vs[1..], later);
      PartIsOrder(vs[0], 0, |vs[0]|, |vs[0]|, state);
      forall i | 0 <= i < |vs|
        ensures IsOrder(EachShuffled(vs, state)[i], |vs[i]|)
      {
        if i > 0 {
          assert EachShuffled(vs, state)[i] == EachShuffled(vs[1..], later)[i - 1];
        }
      }
    }
  }

  /** In the order of every seed each suite and each test has one place, death test suites first. */
  lemma OrdersAreOrders(seed: nat, counts: seq<nat>, split: nat)
    requires split <= |counts|
    ensures var order := OrderFor(seed, counts, split);
            && IsOrder(order.suites, |counts|) && KeepsSplit(order.suites, split) && |order.tests| == |counts|
            && forall i :: 0 <= i < |counts| ==> IsOrder(order.tests[i], counts[i])
  {
    var n := |counts|;
    IdentityOrder(n, split);
    PartIsOrder(Identity(n), 0, split, split, seed);
    PartIsOrder(PartShuffled(Identity(n), 0, split, seed), split, n, split, AfterDraws(seed, split));
    forall i | 0 <= i < n
      ensures IsOrder(Identities(counts)[i], counts[i])
    {
      IdentityOrder(counts[i], 0);
    }
    EachIsOrder(Identities(counts), AfterSplit(n, split, seed));
  }

  // ---------- What the order means for a run ----------

  /** The suites in the order in which they run. */
  ghost function RunOrder(suites: seq<TestSuite>, indices: seq<nat>): seq<TestSuite>
    requires IsOrder(indices, |suites|)
  {
    seq(|suites|, i requires 0 <= i < |suites| => suites[indices[i]])
  }

  /** In every valid state all death test suites run before all others. */
  lemma DeathTestsRunFirst(isDeath: Classifier, suites: seq<TestSuite>, indices: seq<nat>, last: int, i: nat, j: nat)
    requires DeathFirst(isDeath, suites, last) && IsOrder(indices, |suites|) && KeepsSplit(indices, last + 1)
    requires i < |suites| && j < |suites|
    requires isDeath(RunOrder(suites, indices)[i].name) && !isDeath(RunOrder(suites, indices)[j].name)
    ensures i < j
  {
    assert isDeath(suites[indices[i]].name) && !isDeath(suites[indices[j]].name);
  }

  /** One more death test suite, inserted behind the first `split` suites, keeps them first
      exactly when the suite it displaces was in its own place. */
  lemma LateDeathTestSuite(v: seq<nat>, split: nat)
    requires IsOrder(v, |v|) && KeepsSplit(v, split) && split <= |v|
    ensures KeepsSplit(v + [|v|], split + 1) <==> split == |v| || v[split] == split
  {
    var w := v + [|v|];
    if split < |v| {
      OrderIsOnto(v, |v|, split);
      var i :| 0 <= i < |v| && v[i] == split;
      assert w[i] == split && w[split] == v[split];
      assert forall k :: 0 <= k < |v| ==> w[k] == v[k];
    }
  }

  /** Every suite runs, and none runs twice. */
  lemma EverySuiteRunsOnce(suites: seq<TestSuite>, byName: map<string, TestSuite>, indices: seq<nat>, k: nat)
    requires NamesAgree(suites, byName) && IsOrder(indices, |suites|) && k < |suites|
    ensures exists i :: 0 <= i < |suites| && RunOrder(suites, indices)[i] == suites[k]
    ensures forall i, j :: 0 <= i < j < |suites| ==> RunOrder(suites, indices)[i] != RunOrder(suites, indices)[j]
  {
    OrderIsOnto(indices, |suites|, k);
    var i :| 0 <= i < |indices| && indices[i] == k;
    assert RunOrder(suites, indices)[i] == suites[k];
    forall i, j | 0 <= i < j < |suites|
      ensures RunOrder(suites, indices)[i] != RunOrder(suites, indices)[j]
    {
      assert indices[i] != indices[j];
    }
  }

  /** By counting, an order misses no index. */
  lemma OrderIsOnto(v: seq<nat>, n: nat, k: nat)
    requires IsOrder(v, n) && k < n
    ensures k in v
  {
    DistinctCount(v);
    assert Elements(v) <= Range(n);
    if k !in Elements(v) {
      SubsetCount(Elements(v), Range(n) - {k});
    }
  }

  /** The two accessors agree everywhere exactly when the suites are in registration order. */
  lemma AccessorsAgreeIffUnshuffled(suites: seq<TestSuite>, byName: map<string, TestSuite>, indices: seq<nat>)
    requires NamesAgree(suites, byName) && IsOrder(indices, |suites|)
    ensures (forall i :: 0 <= i < |suites| ==> suites[indices[i]] == suites[i]) <==> indices == Identity(|suites|)
  {
    if forall i :: 0 <= i < |suites| ==> suites[indices[i]] == suites[i] {
      forall i | 0 <= i < |suites|
        ensures indices[i] == i
      {
        assert suites[indices[i]] == suites[i];
      }
    }
  }
}
