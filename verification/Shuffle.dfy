/** Random numbers and the Fisher-Yates shuffle of a range of a vector. */
module Shuffling {
  import opened Basics

  const MAX_RANGE: nat := 0x8000_0000

  class Random {
    var state: nat

    constructor (seed: nat)
      ensures state == seed
    {
      state := seed;
    }

    method Reseed(seed: nat)
      modifies this
      ensures state == seed
    {
      state := seed;
    }

    /** A number below range, from a linear congruential generator. */
    method Generate(range: nat) returns (n: nat)
      requires 0 < range <= MAX_RANGE
      modifies this
      ensures n < range && n == state % range && state == NextState(old(state))
      ensures state == (1103515245 * old(state) + 12345) % 2147483648
    {
      ModuliNest(1103515245 * state + 12345);
      state := (1103515245 * state + 12345) % 0x1_0000_0000_0000_0000 % 0x1_0000_0000 % MAX_RANGE;
      n := state % range;
    }
  }

  /** The source multiplies in 64 bits, truncates to 32, and reduces to 31. */
  function NextState(state: nat): nat {
    (1103515245 * state + 12345) % 0x1_0000_0000_0000_0000 % 0x1_0000_0000 % MAX_RANGE
  }

  /** Truncating to 64 and to 32 bits first makes no difference. */
  lemma ModuliNest(n: nat)
    ensures n % 0x1_0000_0000_0000_0000 % 0x1_0000_0000 % 0x8000_0000 == n % 2147483648
  {
  }

  function Swap<T>(v: seq<T>, i: nat, j: nat): seq<T>
    requires i < |v| && j < |v|
  {
    v[i := v[j]][j := v[i]]
  }

  /** The first choices of a shuffle of `width` elements, each below the width that is left. */
  ghost predicate AreChoices(choices: seq<nat>, width: nat) {
    |choices| <= width && forall k :: 0 <= k < |choices| ==> choices[k] < width - k
  }

  /** All choices: the last remaining element is not chosen. */
  ghost predicate AreAllChoices(choices: seq<nat>, width: nat) {
    AreChoices(choices, width) && |choices| == if width < 2 then 0 else width - 1
  }

  /** The numbers drawn to shuffle `width` elements, and the state of the generator afterwards. */
  function Draws(state: nat, width: nat): (draws: seq<nat>)
    ensures AreAllChoices(draws, width)
    decreases width
  {
    if width < 2 then [] else [NextState(state) % width] + Draws(NextState(state), width - 1)
  }

  function AfterDraws(state: nat, width: nat): nat
    decreases width
  {
    if width < 2 then state else AfterDraws(NextState(state), width - 1)
  }

  /** The vector after these choices in v[begin..begin+width]. */
  ghost function Shuffled<T>(v: seq<T>, begin: nat, width: nat, choices: seq<nat>): (w: seq<T>)
    requires begin + width <= |v| && AreChoices(choices, width)
    ensures |w| == |v|
    decreases width
  {
    if choices == [] then v
    else Shuffled(Swap(v, begin + choices[0], begin + width - 1), begin, width - 1, choices[1..])
  }

  lemma {:induction false} OneMoreChoice<T>(v: seq<T>, begin: nat, width: nat, choices: seq<nat>, last: nat)
    requires begin + width <= |v| && AreChoices(choices + [last], width)
    ensures AreChoices(choices, width) && |choices| < width && last < width - |choices|
    ensures Shuffled(v, begin, width, choices + [last]) ==
            Swap(Shuffled(v, begin, width, choices), begin + last, begin + width - |choices| - 1)
    decreases width
  {
    var all := choices + [last];
    assert all[|choices|] == last;
    assert forall k :: 0 <= k < |choices| ==> choices[k] == all[k];
    if choices == [] {
      assert all[1..] == [];
    } else {
      assert all[1..] == choices[1..] + [last];
      OneMoreChoice(Swap(v, begin + choices[0], begin + width - 1), begin, width - 1, choices[1..], last);
    }
  }

  method DrawOne(random: Random, width: nat) returns (offset: nat)
    requires 2 <= width <= MAX_RANGE
    modifies random
    ensures offset < width && Draws(old(random.state), width) == [offset] + Draws(random.state, width - 1)
    ensures AfterDraws(old(random.state), width) == AfterDraws(random.state, width - 1)
  {
    offset := random.Generate(width);
  }

  /** The loop's state: `choices` have been applied, `draws` are those of the rest. */
  ghost predicate Choosing<T>(v: seq<T>, w: seq<T>, begin: nat, end: nat, choices: seq<nat>, width: nat,
                              draws: seq<nat>, all: seq<nat>)
    requires begin <= end <= |v|
  {
    && |choices| + width == end - begin && AreChoices(choices, end - begin)
    && w == Shuffled(v, begin, end - begin, choices) && choices + draws == all
  }

  lemma ChoosingStep<T>(v: seq<T>, w: seq<T>, begin: nat, end: nat, choices: seq<nat>, width: nat,
                        draws: seq<nat>, all: seq<nat>, offset: nat, rest: seq<nat>)
    requires begin <= end <= |v| && width >= 2 && offset < width && draws == [offset] + rest
    requires Choosing(v, w, begin, end, choices, width, draws, all)
    ensures |w| == |v|
    ensures Choosing(v, Swap(w, begin + offset, begin + width - 1), begin, end, choices + [offset], width - 1, rest, all)
  {
    OneMoreChoice(v, begin, end - begin, choices, offset);
    assert choices + [offset] + rest == choices + draws;
  }

  /** Shuffles v[begin..end] with the numbers drawn, from the last place down. */
  method ShuffleRange<T>(random: Random, begin: nat, end: nat, v: seq<T>) returns (w: seq<T>)
    requires begin <= end <= |v| <= MAX_RANGE
    modifies random
    ensures w == Shuffled(v, begin, end - begin, Draws(old(random.state), end - begin))
    ensures random.state == AfterDraws(old(random.state), end - begin)
  {
    w := v;
    var width := end - begin;
    ghost var choices: seq<nat>, draws := [], Draws(random.state, width);
    ghost var all, after := draws, AfterDraws(random.state, width);
    while width >= 2
      invariant 0 <= width <= end - begin && (width == 0 ==> end == begin)
      invariant Choosing(v, w, begin, end, choices, width, draws, all)
      invariant draws == Draws(random.state, width) && AfterDraws(random.state, width) == after
    {
      ghost var before := draws;
      var last := begin + width - 1;
      var offset := DrawOne(random, width);
      var selected := begin + offset;
      draws := Draws(random.state, width - 1);
      ChoosingStep(v, w, begin, end, choices, width, before, all, offset, draws);
      w := Swap(w, selected, last);
      choices := choices + [offset];
      width := width - 1;
    }
    assert choices + [] == choices;
  }

  // ---------- What a shuffle keeps ----------

  lemma SwapKeepsMultiset<T>(a: seq<T>, i: nat, j: nat)
    requires i < |a| && j < |a|
    ensures multiset(Swap(a, i, j)) == multiset(a)
  {
    var b := a[i := a[j]];
    assert multiset(b) == multiset(a) - multiset{a[i]} + multiset{a[j]};
    assert multiset(b[j := a[i]]) == multiset(b) - multiset{b[j]} + multiset{a[i]};
  }

  lemma FirstSwap<T>(v: seq<T>, begin: nat, width: nat, choices: seq<nat>) returns (u: seq<T>)
    requires begin + width <= |v| && AreChoices(choices, width) && choices != []
    ensures |u| == |v| && multiset(u) == multiset(v) && AreChoices(choices[1..], width - 1)
    ensures Shuffled(v, begin, width, choices) == Shuffled(u, begin, width - 1, choices[1..])
  {
    u := Swap(v, begin + choices[0], begin + width - 1);
    SwapKeepsMultiset(v, begin + choices[0], begin + width - 1);
  }

  lemma {:induction false} ShuffledKeepsMultiset<T>(v: seq<T>, begin: nat, width: nat, choices: seq<nat>)
    requires begin + width <= |v| && AreChoices(choices, width)
    ensures multiset(Shuffled(v, begin, width, choices)) == multiset(v)
    decreases width
  {
    if choices != [] {
      var u := FirstSwap(v, begin, width, choices);
      ShuffledKeepsMultiset(u, begin, width - 1, choices[1..]);
    }
  }

  ghost predicate InRange<T>(v: seq<T>, begin: nat, end: nat, x: T)
    requires end <= |v|
  {
    exists j :: begin <= j < end && v[j] == x
  }

  /** w rearranges distinct elements within the range and leaves everything else in place. */
  ghost predicate Rearranges<T>(v: seq<T>, w: seq<T>, begin: nat, end: nat)
    requires begin <= end <= |v|
  {
    && |w| == |v| && Distinct(w)
    && (forall i :: 0 <= i < |v| && (i < begin || end <= i) ==> w[i] == v[i])
    && (forall i :: begin <= i < end ==> InRange(v, begin, end, w[i]))
  }

  lemma SwapRearranges<T>(v: seq<T>, begin: nat, end: nat, i: nat, j: nat)
    requires Distinct(v) && begin <= i < end <= |v| && begin <= j < end
    ensures Rearranges(v, Swap(v, i, j), begin, end)
  {
    var u := Swap(v, i, j);
    forall k | begin <= k < end
      ensures InRange(v, begin, end, u[k])
    {
      assert u[k] == v[if k == j then i else if k == i then j else k];
    }
  }

  lemma RearrangesTwice<T>(v: seq<T>, u: seq<T>, w: seq<T>, begin: nat, end: nat)
    requires begin < end <= |v| && Rearranges(v, u, begin, end) && Rearranges(u, w, begin, end - 1)
    ensures Rearranges(v, w, begin, end)
  {
    forall i | begin <= i < end
      ensures InRange(v, begin, end, w[i])
    {
      if i < end - 1 {
        assert InRange(u, begin, end - 1, w[i]);
        var j :| begin <= j < end - 1 && u[j] == w[i];
        assert InRange(v, begin, end, u[j]);
      } else {
        assert InRange(v, begin, end, u[i]);
      }
    }
  }

  lemma {:induction false} ShuffledRearranges<T>(v: seq<T>, begin: nat, width: nat, choices: seq<nat>)
    requires Distinct(v) && begin + width <= |v| && AreChoices(choices, width)
    ensures Rearranges(v, Shuffled(v, begin, width, choices), begin, begin + width)
    decreases width
  {
    if choices == [] {
      forall i | begin <= i < begin + width
        ensures InRange(v, begin, begin + width, v[i])
      {
      }
    } else {
      var u := Swap(v, begin + choices[0], begin + width - 1);
      SwapRearranges(v, begin, begin + width, begin + choices[0], begin + width - 1);
      ShuffledRearranges(u, begin, width - 1, choices[1..]);
      RearrangesTwice(v, u, Shuffled(u, begin, width - 1, choices[1..]), begin, begin + width);
    }
  }

  // ---------- Every order can come out, in exactly one way ----------

  /** Once the last place holds what w wants there, the rest of w rearranges what is left. */
  lemma LastPlaced<T>(v: seq<T>, w: seq<T>, begin: nat, end: nat, offset: nat)
    requires Distinct(v) && begin < end <= |v| && Rearranges(v, w, begin, end)
    requires begin + offset < end && v[begin + offset] == w[end - 1]
    ensures Rearranges(Swap(v, begin + offset, end - 1), w, begin, end - 1)
  {
    var u := Swap(v, begin + offset, end - 1);
    forall i | begin <= i < end - 1
      ensures InRange(u, begin, end - 1, w[i])
    {
      assert InRange(v, begin, end, w[i]);
      var j :| begin <= j < end && v[j] == w[i];
      assert j != begin + offset;
      var k := if j == end - 1 then begin + offset else j;
      assert u[k] == w[i] && k < end - 1;
    }
  }

  /** The choice that brings the last element of w to its place. */
  lemma FindLast<T>(v: seq<T>, w: seq<T>, begin: nat, width: nat) returns (c: nat)
    requires width >= 2 && Distinct(v) && begin + width <= |v| && Rearranges(v, w, begin, begin + width)
    ensures c < width && Distinct(Swap(v, begin + c, begin + width - 1))
    ensures Rearranges(Swap(v, begin + c, begin + width - 1), w, begin, begin + width - 1)
  {
    var last := begin + width - 1;
    assert InRange(v, begin, begin + width, w[last]);
    var j :| begin <= j < begin + width && v[j] == w[last];
    c := j - begin;
    LastPlaced(v, w, begin, begin + width, c);
    SwapRearranges(v, begin, begin + width, j, last);
  }

  lemma NothingToChoose<T>(v: seq<T>, w: seq<T>, begin: nat, width: nat)
    requires width < 2 && begin + width <= |v| && Rearranges(v, w, begin, begin + width)
    ensures v == w
  {
    if width == 1 {
      assert InRange(v, begin, begin + 1, w[begin]);
    }
  }

  lemma ShuffledCons<T>(v: seq<T>, begin: nat, width: nat, c: nat, rest: seq<nat>)
    requires width >= 2 && begin + width <= |v| && c < width && AreAllChoices(rest, width - 1)
    ensures AreAllChoices([c] + rest, width)
    ensures Shuffled(v, begin, width, [c] + rest) == Shuffled(Swap(v, begin + c, begin + width - 1), begin, width - 1, rest)
  {
    assert ([c] + rest)[1..] == rest;
  }

  /** For every rearrangement of distinct elements there are choices that produce it. */
  lemma {:induction false} EveryOrderReachable<T>(v: seq<T>, w: seq<T>, begin: nat, width: nat) returns (choices: seq<nat>)
    requires Distinct(v) && begin + width <= |v| && Rearranges(v, w, begin, begin + width)
    ensures AreAllChoices(choices, width) && Shuffled(v, begin, width, choices) == w
    decreases width
  {
    if width < 2 {
      NothingToChoose(v, w, begin, width);
      return [];
    }
    var c := FindLast(v, w, begin, width);
    var rest := EveryOrderReachable(Swap(v, begin + c, begin + width - 1), w, begin, width - 1);
    ShuffledCons(v, begin, width, c, rest);
    choices := [c] + rest;
  }

  /** The place chosen first is never touched again. */
  lemma FirstChoiceShows<T>(v: seq<T>, begin: nat, width: nat, choices: seq<nat>)
    requires Distinct(v) && begin + width <= |v| && AreChoices(choices, width) && choices != []
    ensures Shuffled(v, begin, width, choices)[begin + width - 1] == v[begin + choices[0]]
  {
    var u := Swap(v, begin + choices[0], begin + width - 1);
    SwapRearranges(v, begin, begin + width, begin + choices[0], begin + width - 1);
    ShuffledRearranges(u, begin, width - 1, choices[1..]);
  }

  /** Different choices shuffle distinct elements into different orders. */
  lemma {:induction false} ChoicesAreUnique<T>(v: seq<T>, begin: nat, width: nat, a: seq<nat>, b: seq<nat>)
    requires begin + width <= |v| && Distinct(v) && AreAllChoices(a, width) && AreAllChoices(b, width)
    requires Shuffled(v, begin, width, a) == Shuffled(v, begin, width, b)
    ensures a == b
    decreases width
  {
    if width >= 2 {
      FirstChoiceShows(v, begin, width, a);
      FirstChoiceShows(v, begin, width, b);
      var u := AfterFirst(v, begin, width, a);
      var u' := AfterFirst(v, begin, width, b);
      ChoicesAreUnique(u, begin, width - 1, a[1..], b[1..]);
      assert a == [a[0]] + a[1..] && b == [b[0]] + b[1..];
    }
  }

  lemma AfterFirst<T>(v: seq<T>, begin: nat, width: nat, a: seq<nat>) returns (u: seq<T>)
    requires begin + width <= |v| && Distinct(v) && AreAllChoices(a, width) && width >= 2
    ensures u == Swap(v, begin + a[0], begin + width - 1) && Distinct(u) && |u| == |v|
    ensures AreAllChoices(a[1..], width - 1) && Shuffled(v, begin, width, a) == Shuffled(u, begin, width - 1, a[1..])
  {
    u := Swap(v, begin + a[0], begin + width - 1);
    SwapRearranges(v, begin, begin + width, begin + a[0], begin + width - 1);
  }

  /** The state of the generator after n numbers. */
  ghost function StateAfter(state: nat, n: nat): nat {
    if n == 0 then state else NextState(StateAfter(state, n - 1))
  }

  lemma {:induction false} LaterState(state: nat, n: nat)
    ensures StateAfter(NextState(state), n) == StateAfter(state, n + 1)
  {
    if n > 0 {
      LaterState(state, n - 1);
    }
  }

  /** Number k drawn is the generator's next one, reduced below the width that is left. */
  lemma {:induction false} DrawAt(state: nat, width: nat, k: nat)
    requires k + 1 < width
    ensures Draws(state, width)[k] == StateAfter(state, k + 1) % (width - k)
    decreases width
  {
    if k > 0 {
      DrawAt(NextState(state), width - 1, k - 1);
      LaterState(state, k);
    } else {
      assert StateAfter(state, 1) == NextState(StateAfter(state, 0));
    }
  }

  /** A shuffle of `width` elements draws one number fewer. */
  lemma {:induction false} StateAfterDraws(state: nat, width: nat)
    ensures AfterDraws(state, width) == StateAfter(state, if width < 2 then 0 else width - 1)
    decreases width
  {
    if width >= 2 {
      StateAfterDraws(NextState(state), width - 1);
      LaterState(state, width - 2);
    }
  }
}
