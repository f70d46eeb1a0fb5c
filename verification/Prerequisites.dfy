/** Expectations and their prerequisites.

    Expectations are numbered; each has its immediate prerequisites in iteration order. The
    worklist traversals are proved against paths in this graph: one of them marks what it
    visits and terminates on every graph, the other two do not and need an acyclic one. */
module Prerequisites {
  import opened Basics

  type Graph = seq<seq<nat>>

  // ---------- Paths ----------

  ghost predicate WellFormed(g: Graph) {
    forall e, k :: 0 <= e < |g| && 0 <= k < |g[e]| ==> g[e][k] < |g|
  }

  ghost predicate IsPath(g: Graph, p: seq<nat>) {
    && p != []
    && (forall i :: 0 <= i < |p| ==> p[i] < |g|)
    && (forall i :: 0 <= i < |p| - 1 ==> p[i + 1] in g[p[i]])
  }

  ghost predicate Links(g: Graph, p: seq<nat>, e: nat, f: nat) {
    |p| >= 2 && IsPath(g, p) && p[0] == e && p[|p| - 1] == f
  }

  /** f is a direct or indirect prerequisite of e. */
  ghost predicate Requires(g: Graph, e: nat, f: nat) {
    exists p :: Links(g, p, e, f)
  }

  lemma RequiresDirect(g: Graph, e: nat, f: nat)
    requires e < |g| && f < |g| && f in g[e]
    ensures Requires(g, e, f)
  {
    assert Links(g, [e, f], e, f);
  }

  lemma RequiresCons(g: Graph, e: nat, n: nat, f: nat)
    requires e < |g| && n in g[e] && Requires(g, n, f)
    ensures Requires(g, e, f)
  {
    var p :| Links(g, p, n, f);
    assert Links(g, [e] + p, e, f);
  }

  /** The first step of a chain of prerequisites. */
  lemma RequiresSplit(g: Graph, e: nat, f: nat) returns (n: nat)
    requires Requires(g, e, f)
    ensures e < |g| && n in g[e] && n < |g| && (n == f || Requires(g, n, f))
  {
    var p :| Links(g, p, e, f);
    n := p[1];
    if n != f {
      assert Links(g, p[1..], n, f);
    }
  }

  lemma RequiresTransitive(g: Graph, a: nat, b: nat, c: nat)
    requires Requires(g, a, b) && Requires(g, b, c)
    ensures Requires(g, a, c)
  {
    var p :| Links(g, p, a, b);
    var q :| Links(g, q, b, c);
    var r := p + q[1..];
    assert forall i :: |p| - 1 <= i < |r| ==> r[i] == q[i - |p| + 1];
    assert Links(g, r, a, c);
  }

  // ---------- Acyclic graphs ----------

  ghost predicate Ranked(g: Graph, rank: seq<nat>) {
    && |rank| == |g|
    && forall e, k :: 0 <= e < |g| && 0 <= k < |g[e]| ==> g[e][k] < |g| && rank[g[e][k]] < rank[e]
  }

  ghost predicate Acyclic(g: Graph) {
    exists rank :: Ranked(g, rank)
  }

  lemma {:induction false} PathDescends(g: Graph, rank: seq<nat>, p: seq<nat>)
    requires Ranked(g, rank) && |p| >= 2 && IsPath(g, p)
    ensures rank[p[|p| - 1]] < rank[p[0]]
    decreases |p|
  {
    assert p[0 + 1] in g[p[0]];
    if |p| > 2 {
      assert IsPath(g, p[1..]) by {
        assert forall i :: 0 <= i < |p| - 2 ==> p[1..][i] == p[i + 1] && p[i + 1 + 1] in g[p[i + 1]];
      }
      PathDescends(g, rank, p[1..]);
    }
  }

  lemma NoSelfRequirement(g: Graph, e: nat)
    requires Acyclic(g)
    ensures !Requires(g, e, e)
  {
    var rank :| Ranked(g, rank);
    forall p
      ensures !Links(g, p, e, e)
    {
      if Links(g, p, e, e) { PathDescends(g, rank, p); }
    }
  }

  /** The number of paths that start at e: what a traversal without a visited set costs. */
  ghost function PathCount(g: Graph, rank: seq<nat>, e: nat): nat
    requires Ranked(g, rank) && e < |g|
    decreases rank[e], |g[e]| + 1
  {
    1 + Total(g, rank, g[e], rank[e])
  }

  ghost function Total(g: Graph, rank: seq<nat>, es: seq<nat>, bound: nat): nat
    requires Ranked(g, rank)
    requires forall k :: 0 <= k < |es| ==> es[k] < |g| && rank[es[k]] < bound
    decreases bound, |es|
  {
    if es == [] then 0
    else PathCount(g, rank, es[0]) + Total(g, rank, es[1..], bound)
  }

  ghost predicate InRange(g: Graph, es: seq<nat>) {
    forall k :: 0 <= k < |es| ==> es[k] < |g|
  }

  /** The path count of a stack. */
  ghost function Weight(g: Graph, rank: seq<nat>, stack: seq<nat>): nat
    requires Ranked(g, rank) && InRange(g, stack)
  {
    if stack == [] then 0
    else Weight(g, rank, stack[..|stack| - 1]) + PathCount(g, rank, stack[|stack| - 1])
  }

  lemma WeightOfPush(g: Graph, rank: seq<nat>, stack: seq<nat>, e: nat)
    requires Ranked(g, rank) && InRange(g, stack) && e < |g|
    ensures InRange(g, stack + [e])
    ensures Weight(g, rank, stack + [e]) == Weight(g, rank, stack) + PathCount(g, rank, e)
  {
    assert (stack + [e])[..|stack|] == stack;
  }

  /** What the prerequisites of e from the k-th on can still add to the weight of the stack. */
  ghost function ToCome(g: Graph, rank: seq<nat>, e: nat, k: nat): nat
    requires Ranked(g, rank) && e < |g| && k <= |g[e]|
  {
    Total(g, rank, g[e][k..], rank[e])
  }

  lemma ToComeStep(g: Graph, rank: seq<nat>, e: nat, k: nat)
    requires Ranked(g, rank) && e < |g| && k < |g[e]|
    ensures g[e][k] < |g|
    ensures ToCome(g, rank, e, k) == PathCount(g, rank, g[e][k]) + ToCome(g, rank, e, k + 1)
  {
    assert g[e][k..][1..] == g[e][k + 1..];
  }

  // ---------- What the traversals compute ----------

  ghost predicate AllSatisfied(g: Graph, satisfied: set<nat>, e: nat) {
    forall f :: Requires(g, e, f) ==> f in satisfied
  }

  lemma AllSatisfiedUnfold(g: Graph, satisfied: set<nat>, e: nat)
    requires WellFormed(g) && e < |g|
    ensures AllSatisfied(g, satisfied, e) <==>
            forall k :: 0 <= k < |g[e]| ==> g[e][k] in satisfied && AllSatisfied(g, satisfied, g[e][k])
  {
    if AllSatisfied(g, satisfied, e) {
      forall k | 0 <= k < |g[e]|
        ensures g[e][k] in satisfied && AllSatisfied(g, satisfied, g[e][k])
      {
        RequiresDirect(g, e, g[e][k]);
        forall f | Requires(g, g[e][k], f)
          ensures f in satisfied
        {
          RequiresCons(g, e, g[e][k], f);
        }
      }
    }
    if forall k :: 0 <= k < |g[e]| ==> g[e][k] in satisfied && AllSatisfied(g, satisfied, g[e][k]) {
      forall f | Requires(g, e, f)
        ensures f in satisfied
      {
        var n := RequiresSplit(g, e, f);
        var k :| 0 <= k < |g[e]| && g[e][k] == n;
      }
    }
  }

  /** A path whose inner nodes are satisfied without having been called. */
  ghost predicate QuietPath(g: Graph, quiet: set<nat>, p: seq<nat>) {
    IsPath(g, p) && forall i :: 0 < i < |p| - 1 ==> p[i] in quiet
  }

  ghost predicate Finds(g: Graph, satisfied: set<nat>, quiet: set<nat>, e: nat, f: nat) {
    && f !in satisfied
    && exists p :: |p| >= 2 && QuietPath(g, quiet, p) && p[0] == e && p[|p| - 1] == f
  }

  lemma FindsUnfold(g: Graph, satisfied: set<nat>, quiet: set<nat>, e: nat, f: nat)
    requires WellFormed(g) && e < |g| && quiet <= satisfied
    ensures Finds(g, satisfied, quiet, e, f) <==>
            exists k :: 0 <= k < |g[e]| &&
                        if g[e][k] in satisfied then g[e][k] in quiet && Finds(g, satisfied, quiet, g[e][k], f)
                        else g[e][k] == f
  {
    if Finds(g, satisfied, quiet, e, f) {
      var p :| |p| >= 2 && QuietPath(g, quiet, p) && p[0] == e && p[|p| - 1] == f;
      assert p[0 + 1] in g[p[0]];
      var k :| 0 <= k < |g[e]| && g[e][k] == p[1];
      if |p| > 2 {
        var q := p[1..];
        assert forall i :: 0 <= i < |q| - 1 ==> q[i] == p[i + 1] && p[i + 1 + 1] in g[p[i + 1]];
        assert QuietPath(g, quiet, q);
      }
    }
    forall k | 0 <= k < |g[e]| && if g[e][k] in satisfied then g[e][k] in quiet && Finds(g, satisfied, quiet, g[e][k], f)
                                   else g[e][k] == f
      ensures Finds(g, satisfied, quiet, e, f)
    {
      if g[e][k] in satisfied {
        var q :| |q| >= 2 && QuietPath(g, quiet, q) && q[0] == g[e][k] && q[|q| - 1] == f;
        assert QuietPath(g, quiet, [e] + q);
      } else {
        assert QuietPath(g, quiet, [e, f]);
      }
    }
  }

  /** If whatever was called and satisfied has satisfied prerequisites, nothing is found
      exactly when all prerequisites are satisfied. */
  lemma FindsNothingIffAllSatisfied(g: Graph, satisfied: set<nat>, quiet: set<nat>, e: nat)
    requires WellFormed(g) && quiet <= satisfied
    requires forall n :: n in satisfied && n !in quiet ==> AllSatisfied(g, satisfied, n)
    ensures (forall f :: !Finds(g, satisfied, quiet, e, f)) <==> AllSatisfied(g, satisfied, e)
  {
    forall f | Finds(g, satisfied, quiet, e, f)
      ensures !AllSatisfied(g, satisfied, e)
    {
      var p :| |p| >= 2 && QuietPath(g, quiet, p) && p[0] == e && p[|p| - 1] == f;
      assert Links(g, p, e, f);
    }
    if !AllSatisfied(g, satisfied, e) {
      var f :| Requires(g, e, f) && f !in satisfied;
      var p :| Links(g, p, e, f);
      var f' := FindsAlong(g, satisfied, quiet, p);
    }
  }

  lemma {:induction false} FindsAlong(g: Graph, satisfied: set<nat>, quiet: set<nat>, p: seq<nat>) returns (f: nat)
    requires WellFormed(g) && quiet <= satisfied && |p| >= 2 && IsPath(g, p) && p[|p| - 1] !in satisfied
    requires forall n :: n in satisfied && n !in quiet ==> AllSatisfied(g, satisfied, n)
    ensures Finds(g, satisfied, quiet, p[0], f)
    decreases |p|
  {
    var e, n := p[0], p[0 + 1];
    assert n in g[e];
    var k :| 0 <= k < |g[e]| && g[e][k] == n;
    if n !in satisfied {
      FindsUnfold(g, satisfied, quiet, e, n);
      return n;
    }
    var q := p[1..];
    assert forall i :: 0 <= i < |q| - 1 ==> q[i] == p[i + 1] && p[i + 1 + 1] in g[p[i + 1]];
    assert IsPath(g, q) && |q| >= 2;
    assert Links(g, q, n, q[|q| - 1]);
    assert n in quiet;
    f := FindsAlong(g, satisfied, quiet, q);
    FindsUnfold(g, satisfied, quiet, e, f);
  }

  // ---------- The traversals ----------

  class Expectations {
    var prereqs: Graph
    var retired: seq<bool>
    var callCounts: seq<nat>
    const satisfiedBy: seq<nat -> bool>

    ghost predicate Valid()
      reads this
    {
      WellFormed(prereqs) && |retired| == |callCounts| == |satisfiedBy| == |prereqs|
    }

    ghost function Retired(): set<nat>
      reads this
    {
      set e | 0 <= e < |retired| && retired[e]
    }

    ghost function Satisfied(): set<nat>
      requires Valid()
      reads this
    {
      set e | 0 <= e < |prereqs| && IsSatisfied(e)
    }

    /** Satisfied without a single call. */
    ghost function Quiet(): set<nat>
      requires Valid()
      reads this
    {
      set e | e in Satisfied() && callCounts[e] == 0
    }

    predicate IsSatisfied(e: nat)
      requires Valid() && e < |prereqs|
      reads this
    {
      satisfiedBy[e](callCounts[e])
    }

    /** Retired expectations have retired prerequisites. */
    ghost predicate RetiredClosed()
      requires Valid()
      reads this
    {
      Closed(prereqs, Retired())
    }

    method Retire(e: nat)
      requires Valid() && e < |prereqs|
      modifies `retired
      ensures Valid() && Retired() == old(Retired()) + {e}
    {
      retired := retired[e := true];
    }

    /** One prerequisite of exp: retired and pushed unless it is retired already. */
    method RetireNext(exp: nat, next: nat, stack0: seq<nat>, ghost before: set<nat>, ghost self: nat) returns (stack: seq<nat>)
      requires Valid() && InRange(prereqs, stack0) && exp < |prereqs| && next in prereqs[exp] && next < |prereqs|
      requires Marking(prereqs, before, Retired(), self, Elements(stack0) + {exp})
      modifies `retired
      ensures Valid() && InRange(prereqs, stack) && Retired() == old(Retired()) + {next}
      ensures Marking(prereqs, before, Retired(), self, Elements(stack) + {exp})
      ensures Retired() == old(Retired()) ==> stack == stack0
    {
      stack := stack0;
      if !retired[next] {
        MarkNext(prereqs, before, Retired(), self, Elements(stack0), exp, next);
        Retire(next);
        stack := stack + [next];
        assert Elements(stack) + {exp} == Elements(stack0) + {next} + {exp};
      }
    }

    /** The inner loop: retires and pushes the prerequisites of exp that are not yet retired. */
    method RetireUnretired(exp: nat, stack0: seq<nat>, ghost before: set<nat>, ghost self: nat) returns (stack: seq<nat>)
      requires Valid() && InRange(prereqs, stack0) && exp < |prereqs|
      requires Marking(prereqs, before, Retired(), self, Elements(stack0) + {exp})
      modifies `retired
      ensures Valid() && InRange(prereqs, stack)
      ensures Marking(prereqs, before, Retired(), self, Elements(stack))
      ensures old(Retired()) <= Retired()
      ensures Retired() == old(Retired()) ==> stack == stack0
    {
      stack := stack0;
      for k := 0 to |prereqs[exp]|
        invariant Valid() && InRange(prereqs, stack) && old(Retired()) <= Retired()
        invariant Retired() == old(Retired()) ==> stack == stack0
        invariant Marking(prereqs, before, Retired(), self, Elements(stack) + {exp})
        invariant forall j :: 0 <= j < k ==> prereqs[exp][j] in Retired()
      {
        stack := RetireNext(exp, prereqs[exp][k], stack, before, self);
      }
      Explored(prereqs, before, Retired(), self, Elements(stack), exp);
    }

    /** Works on every finite graph, cyclic or not. */
    method RetireAllPreRequisites(self: nat)
      requires Valid() && RetiredClosed() && self < |prereqs|
      modifies `retired
      ensures Valid() && RetiredClosed()
      ensures forall f :: f in Retired() <==> f in old(Retired()) || Requires(prereqs, self, f)
    {
      ghost var before := Retired();
      if retired[self] {
        forall f | Requires(prereqs, self, f)
          ensures f in before
        {
          ReachedFrom(prereqs, before, before, self, f);
        }
        return;
      }
      var stack := [self];
      while stack != []
        invariant Valid() && InRange(prereqs, stack)
        invariant Marking(prereqs, before, Retired(), self, Elements(stack))
        decreases Range(|prereqs|) - Retired(), |stack|
      {
        var exp := stack[|stack| - 1];
        stack := stack[..|stack| - 1];
        assert Elements(stack + [exp]) == Elements(stack) + {exp};
        stack := RetireUnretired(exp, stack, before, self);
        assert Retired() <= Range(|prereqs|);
      }
      AllMarked(prereqs, before, Retired(), self);
      StillClosed(prereqs, before, Retired(), self);
    }

    /** Without a visited set; terminates because the graph is acyclic. */
    method AllPrerequisitesAreSatisfied(self: nat) returns (all: bool)
      requires Valid() && Acyclic(prereqs) && self < |prereqs|
      ensures all <==> AllSatisfied(prereqs, Satisfied(), self)
    {
      ghost var rank :| Ranked(prereqs, rank);
      ghost var sat := Satisfied();
      var stack := [self];
      assert Elements(stack) == {self};
      while stack != []
        invariant InRange(prereqs, stack)
        invariant AllSatisfied(prereqs, sat, self) <==> forall x :: x in stack ==> AllSatisfied(prereqs, sat, x)
        decreases Weight(prereqs, rank, stack)
      {
        ghost var full := stack;
        var exp := stack[|stack| - 1];
        stack := stack[..|stack| - 1];
        AllSatisfiedUnfold(prereqs, sat, exp);
        assert full == stack + [exp];
        assert ToCome(prereqs, rank, exp, 0) == Total(prereqs, rank, prereqs[exp], rank[exp]) by {
          assert prereqs[exp][0..] == prereqs[exp];
        }
        for k := 0 to |prereqs[exp]|
          invariant InRange(prereqs, stack)
          invariant AllSatisfied(prereqs, sat, self) <==>
                    && (forall x :: x in stack ==> AllSatisfied(prereqs, sat, x))
                    && (forall j :: k <= j < |prereqs[exp]| ==>
                          prereqs[exp][j] in sat && AllSatisfied(prereqs, sat, prereqs[exp][j]))
          invariant Weight(prereqs, rank, stack) + ToCome(prereqs, rank, exp, k) < Weight(prereqs, rank, full)
        {
          var next := prereqs[exp][k];
          if !IsSatisfied(next) {
            return false;
          }
          ToComeStep(prereqs, rank, exp, k);
          WeightOfPush(prereqs, rank, stack, next);
          stack := stack + [next];
        }
      }
      return true;
    }

    /** Adds the unsatisfied prerequisites that are reached through expectations that are
        satisfied without having been called. */
    method FindUnsatisfiedPrerequisites(self: nat, result0: set<nat>) returns (result: set<nat>)
      requires Valid() && Acyclic(prereqs) && self < |prereqs|
      ensures forall f :: f in result <==> f in result0 || Finds(prereqs, Satisfied(), Quiet(), self, f)
    {
      ghost var rank :| Ranked(prereqs, rank);
      ghost var sat, quiet := Satisfied(), Quiet();
      result := result0;
      var stack := [self];
      while stack != []
        invariant InRange(prereqs, stack)
        invariant Finding(prereqs, sat, quiet, self, result0, result, Elements(stack))
        decreases Weight(prereqs, rank, stack)
      {
        ghost var full := stack;
        var exp := stack[|stack| - 1];
        stack := stack[..|stack| - 1];
        assert full == stack + [exp] && Elements(full) == Elements(stack) + {exp};
        StartExpectation(prereqs, sat, quiet, self, result0, result, Elements(stack), exp);
        assert prereqs[exp][0..] == prereqs[exp];
        for k := 0 to |prereqs[exp]|
          invariant InRange(prereqs, stack)
          invariant FindingFrom(prereqs, sat, quiet, self, result0, result, Elements(stack), exp, k)
          invariant Weight(prereqs, rank, stack) + ToCome(prereqs, rank, exp, k) < Weight(prereqs, rank, full)
        {
          var next := prereqs[exp][k];
          ToComeStep(prereqs, rank, exp, k);
          ghost var pending, found := Elements(stack), result;
          if IsSatisfied(next) {
            if callCounts[next] == 0 {
              WeightOfPush(prereqs, rank, stack, next);
              stack := stack + [next];
              assert Elements(stack) == pending + {next};
            }
          } else {
            result := result + {next};
          }
          FindingStep(prereqs, sat, quiet, self, result0, found, pending, exp, k);
        }
        assert FindingFrom(prereqs, sat, quiet, self, result0, result, Elements(stack), exp, |prereqs[exp]|);
      }
    }

    /** Sequence::AddExpectation; last is the sequence's last expectation, if any. */
    method AddExpectation(last: Option<nat>, expectation: nat) returns (newLast: Option<nat>)
      requires Valid() && expectation < |prereqs| && (last.Some? ==> last.value < |prereqs|)
      modifies `prereqs
      ensures Valid() && newLast == Some(expectation)
      ensures prereqs == if last.Some? && last.value != expectation then AddEdge(old(prereqs), expectation, last.value)
                         else old(prereqs)
    {
      if last != Some(expectation) {
        if last.Some? {
          if last.value !in prereqs[expectation] {
            prereqs := prereqs[expectation := prereqs[expectation] + [last.value]];
          }
        }
      }
      newLast := Some(expectation);
    }
  }

  // ---------- Retiring ----------

  ghost predicate Closed(g: Graph, s: set<nat>) {
    LeadsInto(g, s, s)
  }

  /** The prerequisites of the members of s lie in t. */
  ghost predicate LeadsInto(g: Graph, s: set<nat>, t: set<nat>) {
    forall e, k :: e in s && e < |g| && 0 <= k < |g[e]| ==> g[e][k] in t
  }

  lemma RequiresVia(g: Graph, self: nat, e: nat, f: nat)
    requires e < |g| && f < |g| && f in g[e] && (e == self || Requires(g, self, e))
    ensures Requires(g, self, f)
  {
    RequiresDirect(g, e, f);
    if e != self {
      RequiresTransitive(g, self, e, f);
    }
  }

  /** What has been retired so far, and that only pending expectations are unexplored. */
  ghost predicate Marking(g: Graph, before: set<nat>, now: set<nat>, self: nat, pending: set<nat>) {
    && before <= now
    && (forall f :: f in now && f !in before ==> Requires(g, self, f))
    && (forall f :: f in pending ==> f == self || Requires(g, self, f))
    && LeadsInto(g, (now + {self}) - pending, now)
  }

  lemma MarkNext(g: Graph, before: set<nat>, now: set<nat>, self: nat, pending: set<nat>, e: nat, next: nat)
    requires Marking(g, before, now, self, pending + {e}) && e < |g| && next in g[e] && next < |g|
    ensures Marking(g, before, now + {next}, self, pending + {next} + {e})
  {
    RequiresVia(g, self, e, next);
  }

  lemma Explored(g: Graph, before: set<nat>, now: set<nat>, self: nat, pending: set<nat>, e: nat)
    requires Marking(g, before, now, self, pending + {e}) && e < |g|
    requires forall k :: 0 <= k < |g[e]| ==> g[e][k] in now
    ensures Marking(g, before, now, self, pending)
  {
  }

  lemma AllMarked(g: Graph, before: set<nat>, now: set<nat>, self: nat)
    requires Marking(g, before, now, self, {})
    ensures forall f :: f in now <==> f in before || Requires(g, self, f)
  {
    forall f | Requires(g, self, f)
      ensures f in now
    {
      assert (now + {self}) - {} == now + {self};
      ReachedFrom(g, now + {self}, now, self, f);
    }
  }

  lemma StillClosed(g: Graph, before: set<nat>, now: set<nat>, self: nat)
    requires WellFormed(g) && Closed(g, before)
    requires forall f :: f in now <==> f in before || Requires(g, self, f)
    ensures Closed(g, now)
  {
    forall e, k | e in now && e < |g| && 0 <= k < |g[e]|
      ensures g[e][k] in now
    {
      if e !in before { RequiresVia(g, self, e, g[e][k]); }
    }
  }

  lemma ReachedFrom(g: Graph, s: set<nat>, t: set<nat>, e: nat, f: nat)
    requires LeadsInto(g, s, t) && t <= s && e in s && Requires(g, e, f)
    ensures f in t
  {
    var p :| Links(g, p, e, f);
    ReachedAlong(g, s, t, p);
  }

  lemma {:induction false} ReachedAlong(g: Graph, s: set<nat>, t: set<nat>, p: seq<nat>)
    requires LeadsInto(g, s, t) && t <= s && |p| >= 2 && IsPath(g, p) && p[0] in s
    ensures p[|p| - 1] in t
    decreases |p|
  {
    assert p[0 + 1] in g[p[0]];
    if |p| > 2 {
      PathTail(g, p);
      ReachedAlong(g, s, t, p[1..]);
    }
  }

  lemma PathTail(g: Graph, p: seq<nat>)
    requires |p| >= 2 && IsPath(g, p)
    ensures IsPath(g, p[1..]) && p[1] in g[p[0]]
  {
    var q := p[1..];
    assert p[0 + 1] in g[p[0]];
    assert forall i :: 0 <= i < |q| - 1 ==> q[i] == p[i + 1] && p[i + 1 + 1] in g[p[i + 1]];
  }

  // ---------- Finding ----------

  ghost predicate Finding(g: Graph, sat: set<nat>, quiet: set<nat>, self: nat, result0: set<nat>, result: set<nat>,
                          pending: set<nat>)
  {
    forall f :: (f in result0 || Finds(g, sat, quiet, self, f)) <==>
                (f in result || exists x :: x in pending && Finds(g, sat, quiet, x, f))
  }

  /** What the prerequisites of e from the k-th on contribute. */
  ghost predicate Contributes(g: Graph, sat: set<nat>, quiet: set<nat>, e: nat, k: nat, f: nat)
    requires e < |g|
  {
    exists j :: k <= j < |g[e]| &&
                if g[e][j] in sat then g[e][j] in quiet && Finds(g, sat, quiet, g[e][j], f) else g[e][j] == f
  }

  ghost predicate FindingFrom(g: Graph, sat: set<nat>, quiet: set<nat>, self: nat, result0: set<nat>, result: set<nat>,
                              pending: set<nat>, e: nat, k: nat)
    requires e < |g|
  {
    forall f :: (f in result0 || Finds(g, sat, quiet, self, f)) <==>
                (f in result || (exists x :: x in pending && Finds(g, sat, quiet, x, f)) || Contributes(g, sat, quiet, e, k, f))
  }

  lemma StartExpectation(g: Graph, sat: set<nat>, quiet: set<nat>, self: nat, result0: set<nat>, result: set<nat>,
                         pending: set<nat>, e: nat)
    requires WellFormed(g) && e < |g| && quiet <= sat
    requires Finding(g, sat, quiet, self, result0, result, pending + {e})
    ensures FindingFrom(g, sat, quiet, self, result0, result, pending, e, 0)
  {
    forall f
      ensures Finds(g, sat, quiet, e, f) <==> Contributes(g, sat, quiet, e, 0, f)
    {
      FindsUnfold(g, sat, quiet, e, f);
    }
  }

  lemma FindingStep(g: Graph, sat: set<nat>, quiet: set<nat>, self: nat, result0: set<nat>, result: set<nat>,
                    pending: set<nat>, e: nat, k: nat)
    requires WellFormed(g) && e < |g| && k < |g[e]| && quiet <= sat
    requires FindingFrom(g, sat, quiet, self, result0, result, pending, e, k)
    ensures var n := g[e][k];
            FindingFrom(g, sat, quiet, self, result0,
                        if n in sat then result else result + {n},
                        if n in quiet then pending + {n} else pending, e, k + 1)
  {
    var n := g[e][k];
    forall f
      ensures Contributes(g, sat, quiet, e, k, f) <==>
              (if n in sat then n in quiet && Finds(g, sat, quiet, n, f) else n == f) || Contributes(g, sat, quiet, e, k + 1, f)
    {
    }
  }

  // ---------- Sequences ----------

  function AddEdge(g: Graph, e: nat, n: nat): Graph
    requires e < |g|
  {
    if n in g[e] then g else g[e := g[e] + [n]]
  }

  lemma {:induction false} PathInLarger(g: Graph, e: nat, n: nat, p: seq<nat>)
    requires e < |g| && IsPath(g, p)
    ensures IsPath(AddEdge(g, e, n), p)
  {
  }

  /** Appending to a sequence keeps the graph acyclic exactly when the sequence's last
      expectation does not already require the new one. */
  lemma SequenceStaysAcyclic(g: Graph, e: nat, last: nat)
    requires WellFormed(g) && Acyclic(g) && e < |g| && last < |g| && e != last
    ensures Acyclic(AddEdge(g, e, last)) <==> !Requires(g, last, e)
  {
    var h := AddEdge(g, e, last);
    if Requires(g, last, e) {
      var p :| Links(g, p, last, e);
      PathInLarger(g, e, last, p);
      assert Links(h, p, last, e);
      RequiresCons(h, e, last, e);
      if Acyclic(h) {
        NoSelfRequirement(h, e);
      }
    } else {
      var rank :| Ranked(g, rank);
      var lift := rank[last] + 1;
      var rank' := seq(|g|, x requires 0 <= x < |g| => rank[x] + if x == e || Requires(g, x, e) then lift else 0);
      forall x, k | 0 <= x < |h| && 0 <= k < |h[x]|
        ensures h[x][k] < |g| && rank'[h[x][k]] < rank'[x]
      {
        if k < |g[x]| {
          var y := g[x][k];
          if y == e { RequiresDirect(g, x, e); }
          if Requires(g, y, e) { RequiresCons(g, x, y, e); }
        }
      }
      assert Ranked(h, rank');
    }
  }

  /** After appending, the new expectation requires the previous one and all it requires. */
  lemma SequenceOrders(g: Graph, e: nat, last: nat, f: nat)
    requires WellFormed(g) && e < |g| && last < |g| && e != last
    ensures Requires(AddEdge(g, e, last), e, last)
    ensures Requires(g, last, f) ==> Requires(AddEdge(g, e, last), e, f)
  {
    var h := AddEdge(g, e, last);
    RequiresDirect(h, e, last);
    if Requires(g, last, f) {
      var p :| Links(g, p, last, f);
      PathInLarger(g, e, last, p);
      assert Links(h, p, last, f);
      RequiresCons(h, e, last, f);
    }
  }
}
