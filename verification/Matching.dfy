/** Maximum bipartite matching between elements (left) and matchers (right), as used by
    UnorderedElementsAre, IsSupersetOf and IsSubsetOf.

    The state is the pair of mutually referent vectors of MaxBipartiteMatchState. The main
    result is that one augmentation attempt per left node is enough: the matching found is
    of maximum size, and FindPairing therefore decides whether the required pairing exists. */
module BipartiteMatching {
  import opened Basics

  // ---------- The graph and its matchings ----------

  datatype MatchMatrix = MatchMatrix(lhsSize: nat, rhsSize: nat, edges: set<(nat, nat)>) {
    predicate HasEdge(l: nat, r: nat) {
      (l, r) in edges
    }
  }

  type Pairs = seq<(nat, nat)>

  ghost predicate IsMatching(g: MatchMatrix, m: Pairs) {
    && (forall i :: 0 <= i < |m| ==> m[i].0 < g.lhsSize && m[i].1 < g.rhsSize && g.HasEdge(m[i].0, m[i].1))
    && (forall i, j :: 0 <= i < j < |m| ==> m[i].0 != m[j].0 && m[i].1 != m[j].1)
  }

  ghost predicate IsMaximumMatching(g: MatchMatrix, m: Pairs) {
    && IsMatching(g, m)
    && forall other :: IsMatching(g, other) ==> |other| <= |m|
  }

  // ---------- The two vectors ----------

  const UNUSED := -1

  ghost predicate MutuallyReferent(g: MatchMatrix, left: seq<int>, right: seq<int>) {
    && |left| == g.lhsSize && |right| == g.rhsSize
    && (forall l :: 0 <= l < |left| && left[l] != UNUSED ==>
                      0 <= left[l] < |right| && right[left[l]] == l && g.HasEdge(l, left[l]))
    && (forall r :: 0 <= r < |right| && right[r] != UNUSED ==>
                      0 <= right[r] < |left| && left[right[r]] == r)
  }

  /** The right vector without the edge into r; r may be UNUSED. */
  ghost function Detach(right: seq<int>, r: int): seq<int>
    requires r == UNUSED || 0 <= r < |right|
  {
    if r == UNUSED then right else right[r := UNUSED]
  }

  ghost function Marked(seen: seq<bool>): set<nat> {
    set r | 0 <= r < |seen| && seen[r]
  }

  ghost function Unmarked(seen: seq<bool>): set<nat> {
    set r | 0 <= r < |seen| && !seen[r]
  }

  /** p is a path of right nodes from left node l to the sink in the residual graph,
      visiting no node of `avoid` and no node twice. */
  ghost predicate AugmentingPath(g: MatchMatrix, right: seq<int>, avoid: set<nat>, l: nat, p: seq<nat>)
    decreases |p|
  {
    && p != []
    && p[0] < |right| && p[0] !in avoid && g.HasEdge(l, p[0])
    && if |p| == 1 then right[p[0]] == UNUSED
       else right[p[0]] >= 0 && AugmentingPath(g, right, avoid + {p[0]}, right[p[0]], p[1..])
  }

  ghost predicate HasAugmentingPath(g: MatchMatrix, right: seq<int>, avoid: set<nat>, l: nat) {
    exists p :: AugmentingPath(g, right, avoid, l, p)
  }

  /** Every edge out of l leads into s. */
  ghost predicate LeadsInto(g: MatchMatrix, l: nat, s: set<nat>) {
    forall r :: 0 <= r < g.rhsSize && g.HasEdge(l, r) ==> r in s
  }

  /** No residual path leaves s: its nodes are matched and their partners lead back into s. */
  ghost predicate Trapped(g: MatchMatrix, right: seq<int>, nodes: set<nat>, s: set<nat>) {
    forall r :: r in nodes ==> r < |right| && right[r] >= 0 && LeadsInto(g, right[r], s)
  }

  lemma {:induction false} TrappedBlocksPaths(g: MatchMatrix, right: seq<int>, avoid: set<nat>,
                                              s: set<nat>, l: nat, p: seq<nat>)
    requires |right| == g.rhsSize
    requires LeadsInto(g, l, s) && Trapped(g, right, s - avoid, s)
    ensures !AugmentingPath(g, right, avoid, l, p)
    decreases |p|
  {
    if AugmentingPath(g, right, avoid, l, p) {
      assert p[0] in s - avoid;
      TrappedBlocksPaths(g, right, avoid + {p[0]}, s, right[p[0]], p[1..]);
    }
  }

  lemma NoPathLeaves(g: MatchMatrix, right: seq<int>, avoid: set<nat>, s: set<nat>, l: nat)
    requires |right| == g.rhsSize
    requires LeadsInto(g, l, s) && Trapped(g, right, s - avoid, s)
    ensures !HasAugmentingPath(g, right, avoid, l)
  {
    forall p
      ensures !AugmentingPath(g, right, avoid, l, p)
    {
      TrappedBlocksPaths(g, right, avoid, s, l, p);
    }
  }

  lemma MarkOne(start: seq<bool>, seen: seq<bool>, r: nat)
    requires |start| == |seen| && (forall k :: 0 <= k < |seen| && start[k] ==> seen[k])
    requires r < |seen| && !seen[r]
    ensures Marked(seen[r := true]) == Marked(seen) + {r}
    ensures Unmarked(seen[r := true]) < Unmarked(start)
  {
    assert r in Unmarked(start);
  }

  // ---------- Counting ----------

  ghost function Lefts(m: Pairs): seq<nat> {
    seq(|m|, i requires 0 <= i < |m| => m[i].0)
  }

  ghost function Rights(m: Pairs): seq<nat> {
    seq(|m|, i requires 0 <= i < |m| => m[i].1)
  }

  ghost function MatchedRights(right: seq<int>): set<nat> {
    set r | 0 <= r < |right| && right[r] != UNUSED
  }

  /** m lists the pairs of the left vector below upTo, in order. */
  ghost predicate Lists(left: seq<int>, upTo: nat, m: Pairs)
    requires upTo <= |left|
  {
    && (forall i :: 0 <= i < |m| ==> m[i].0 < upTo && left[m[i].0] == m[i].1)
    && (forall i, j :: 0 <= i < j < |m| ==> m[i].0 < m[j].0)
    && (forall l :: 0 <= l < upTo && left[l] >= 0 ==> (l, left[l] as nat) in m)
  }

  lemma ListedIsMatching(g: MatchMatrix, left: seq<int>, right: seq<int>, m: Pairs)
    requires MutuallyReferent(g, left, right) && Lists(left, |left|, m)
    ensures IsMatching(g, m)
    ensures |m| == |MatchedRights(right)|
  {
    assert Distinct(Rights(m));
    DistinctCount(Rights(m));
    forall r | r in MatchedRights(right)
      ensures r in Elements(Rights(m))
    {
      var i :| 0 <= i < |m| && m[i] == (right[r], r);
      assert Rights(m)[i] == r;
    }
    assert Elements(Rights(m)) == MatchedRights(right);
  }

  // ---------- Maximality ----------

  /** What the single pass has established once it is over: a set of right nodes that no
      residual path leaves and that contains all neighbours of every unmatched left node. */
  ghost predicate Certificate(g: MatchMatrix, left: seq<int>, right: seq<int>, blocked: set<nat>) {
    && MutuallyReferent(g, left, right)
    && Trapped(g, right, blocked, blocked)
    && (forall l :: 0 <= l < |left| && left[l] == UNUSED ==> LeadsInto(g, l, blocked))
  }

  /** The matched right node an arbitrary edge is charged to. */
  ghost function Charge(left: seq<int>, blocked: set<nat>, e: (nat, nat)): nat
    requires e.1 in blocked || (e.0 < |left| && left[e.0] >= 0)
  {
    if e.1 in blocked then e.1 else left[e.0]
  }

  lemma ChargeIsDefined(g: MatchMatrix, left: seq<int>, right: seq<int>, blocked: set<nat>, e: (nat, nat))
    requires Certificate(g, left, right, blocked)
    requires e.0 < g.lhsSize && e.1 < g.rhsSize && g.HasEdge(e.0, e.1)
    ensures e.1 in blocked || left[e.0] >= 0
    ensures Charge(left, blocked, e) in MatchedRights(right)
    ensures e.1 !in blocked ==> left[e.0] !in blocked
  {
  }

  lemma CertificateBounds(g: MatchMatrix, left: seq<int>, right: seq<int>, blocked: set<nat>, other: Pairs)
    requires Certificate(g, left, right, blocked) && IsMatching(g, other)
    ensures |other| <= |MatchedRights(right)|
  {
    forall i | 0 <= i < |other|
      ensures other[i].1 in blocked || left[other[i].0] >= 0
      ensures Charge(left, blocked, other[i]) in MatchedRights(right)
      ensures other[i].1 !in blocked ==> left[other[i].0] !in blocked
    {
      ChargeIsDefined(g, left, right, blocked, other[i]);
    }
    var charged := seq(|other|, i requires 0 <= i < |other| => Charge(left, blocked, other[i]));
    assert Distinct(charged);
    DistinctCount(charged);
    assert Elements(charged) <= MatchedRights(right);
    SubsetCount(Elements(charged), MatchedRights(right));
  }

  // ---------- The algorithm ----------

  class MaxBipartiteMatchState {
    const graph: MatchMatrix
    const left: array<int>
    const right: array<int>

    ghost predicate Valid()
      reads this, left, right
    {
      && left != right
      && MutuallyReferent(graph, left[..], right[..])
    }

    constructor (g: MatchMatrix)
      ensures graph == g && Valid() && fresh(left) && fresh(right)
      ensures forall l :: 0 <= l < left.Length ==> left[l] == UNUSED
    {
      graph := g;
      left := new int[g.lhsSize](_ => UNUSED);
      right := new int[g.rhsSize](_ => UNUSED);
    }

    method Join(l: nat, r: nat)
      requires l < left.Length && r < right.Length && left != right
      modifies left, right
      ensures left[..] == old(left[..])[l := r] && right[..] == old(right[..])[r := l]
    {
      left[l] := r;
      right[r] := l;
    }

    /** Searches depth-first for a path from l to the sink and, if there is one, adds the flow.
        When l is already matched, to r0, r0 is the node the caller is about to take away. */
    method TryAugment(l: nat, seen: array<bool>, ghost blocked: set<nat>) returns (found: bool)
      requires Valid() && l < left.Length && seen.Length == right.Length
      requires left[l] != UNUSED ==> seen[left[l]]
      requires Trapped(graph, right[..], blocked, blocked)
      modifies left, right, seen
      ensures left.Length == graph.lhsSize && right.Length == graph.rhsSize
      // exactly the existence of an augmenting path decides
      ensures found <==> HasAugmentingPath(graph, old(right[..]), Marked(old(seen[..])), l)
      ensures !found ==> left[..] == old(left[..]) && right[..] == old(right[..])
      ensures found ==> MutuallyReferent(graph, left[..], Detach(right[..], old(left[l])))
      ensures found ==> left[l] != UNUSED && left[l] != old(left[l])
      // no other left node gains or loses a partner
      ensures forall k :: 0 <= k < left.Length && k != l ==> (left[k] == UNUSED <==> old(left[k]) == UNUSED)
      // nodes already seen, and nodes no path leaves, keep their partner
      ensures forall r :: 0 <= r < right.Length && old(seen[r]) ==> seen[r] && right[r] == old(right[r])
      ensures forall r :: r in blocked ==> right[r] == old(right[r])
      ensures old(left[l]) in blocked ==> !found
      // what a failed search has seen is a dead end
      ensures !found ==> LeadsInto(graph, l, Marked(seen[..]))
      ensures !found ==> Trapped(graph, right[..], Marked(seen[..]) - Marked(old(seen[..])), Marked(seen[..]))
      decreases Unmarked(seen[..])
    {
      ghost var avoid, left0, right0 := Marked(seen[..]), left[..], right[..];
      for r := 0 to graph.rhsSize
        invariant left[..] == left0 && right[..] == right0
        invariant forall k :: 0 <= k < seen.Length && old(seen[k]) ==> seen[k]
        invariant forall k :: 0 <= k < r && graph.HasEdge(l, k) ==> k in Marked(seen[..])
        invariant Trapped(graph, right0, Marked(seen[..]) - avoid, Marked(seen[..]))
      {
        if seen[r] || !graph.HasEdge(l, r) {
          continue;
        }
        ghost var before, seen0 := Marked(seen[..]), seen[..];
        seen[r] := true;
        assert seen[..] == seen0[r := true];
        MarkOne(old(seen[..]), seen0, r);
        var free := right[r] == UNUSED;
        if free {
          PathOfOne(graph, right0, avoid, l, r);
          assert Detach(right[..], r) == right[..];
        } else {
          free := TryAugment(right[r], seen, blocked);
          if free {
            PathExists(graph, right0, avoid, before, l, r);
          } else {
            assert right[..] == right0;
            TrappedTogether(graph, right0, avoid, before, r, Marked(seen[..]));
          }
        }
        if free {
          AddFlow(graph, left0, right0, left[..], right[..], l, r);
          Join(l, r);
          return true;
        }
      }
      NoPathLeaves(graph, right0, avoid, Marked(seen[..]), l);
      return false;
    }

    method Compute() returns (result: Pairs)
      requires Valid()
      requires forall l :: 0 <= l < left.Length ==> left[l] == UNUSED
      modifies left, right
      ensures Valid()
      ensures IsMaximumMatching(graph, result)
      ensures forall i, j :: 0 <= i < j < |result| ==> result[i].0 < result[j].0
    {
      ghost var blocked: set<nat> := {};
      for l := 0 to graph.lhsSize
        invariant Valid()
        invariant forall k :: l <= k < left.Length ==> left[k] == UNUSED
        invariant Trapped(graph, right[..], blocked, blocked)
        invariant forall k :: 0 <= k < l && left[k] == UNUSED ==> LeadsInto(graph, k, blocked)
      {
        assert left[l] == UNUSED;
        var seen := new bool[graph.rhsSize](_ => false);
        var found := TryAugment(l, seen, blocked);
        if !found {
          assert Marked(seen[..]) - {} == Marked(seen[..]);
          blocked := blocked + Marked(seen[..]);
        }
      }
      result := [];
      for l := 0 to left.Length
        invariant Lists(left[..], l, result)
      {
        if left[l] == UNUSED {
          continue;
        }
        result := result + [(l, left[l])];
      }
      ListedIsMatching(graph, left[..], right[..], result);
      forall other | IsMatching(graph, other)
        ensures |other| <= |result|
      {
        CertificateBounds(graph, left[..], right[..], blocked, other);
      }
    }
  }

  /** Linking l and r once r is free restores mutual reference, except at l's former partner. */
  lemma AddFlow(g: MatchMatrix, left0: seq<int>, right0: seq<int>, left: seq<int>, right: seq<int>, l: nat, r: nat)
    requires MutuallyReferent(g, left0, right0)
    requires l < |left0| == |left| && r < |right0| == |right| && g.HasEdge(l, r) && left0[l] != r
    requires MutuallyReferent(g, left, Detach(right, r))
    requires left0[l] == UNUSED ==> left[l] == UNUSED
    requires left0[l] != UNUSED ==> right[left0[l]] == l
    ensures MutuallyReferent(g, left[l := r], Detach(right[r := l], left0[l]))
  {
    var free, linked := Detach(right, r), Detach(right[r := l], left0[l]);
    assert left[l] == left0[l] by {
      if left0[l] != UNUSED { assert free[left0[l]] == l; }
    }
    forall k | 0 <= k < |left| && k != l && left[k] != UNUSED
      ensures linked[left[k]] == k
    {
      assert free[left[k]] == k;
    }
    forall k | 0 <= k < |right| && k != r && linked[k] != UNUSED
      ensures 0 <= linked[k] < |left| && left[linked[k]] == k && linked[k] != l
    {
      assert free[k] == linked[k];
    }
  }

  /** What a failed search from r has seen joins what was a dead end before. */
  lemma TrappedTogether(g: MatchMatrix, right: seq<int>, avoid: set<nat>, before: set<nat>, r: nat, after: set<nat>)
    requires avoid <= before && before + {r} <= after && r < |right| && right[r] >= 0
    requires Trapped(g, right, before - avoid, before)
    requires LeadsInto(g, right[r], after) && Trapped(g, right, after - (before + {r}), after)
    ensures Trapped(g, right, after - avoid, after)
  {
  }

  /** Prefixing a path that avoids r with the edge from l to r. */
  lemma PathThrough(g: MatchMatrix, right: seq<int>, avoid: set<nat>, before: set<nat>, l: nat, r: nat, p: seq<nat>)
    requires avoid <= before && r !in before && r < |right| && right[r] >= 0 && g.HasEdge(l, r)
    requires AugmentingPath(g, right, before + {r}, right[r], p)
    ensures AugmentingPath(g, right, avoid, l, [r] + p)
  {
    AvoidLess(g, right, avoid + {r}, before + {r}, right[r], p);
    assert ([r] + p)[1..] == p;
  }

  lemma PathExists(g: MatchMatrix, right: seq<int>, avoid: set<nat>, before: set<nat>, l: nat, r: nat)
    requires avoid <= before && r !in before && r < |right| && right[r] >= 0 && g.HasEdge(l, r)
    requires HasAugmentingPath(g, right, before + {r}, right[r])
    ensures HasAugmentingPath(g, right, avoid, l)
  {
    var p :| AugmentingPath(g, right, before + {r}, right[r], p);
    PathThrough(g, right, avoid, before, l, r, p);
  }

  lemma PathOfOne(g: MatchMatrix, right: seq<int>, avoid: set<nat>, l: nat, r: nat)
    requires r < |right| && r !in avoid && right[r] == UNUSED && g.HasEdge(l, r)
    ensures HasAugmentingPath(g, right, avoid, l)
  {
    assert AugmentingPath(g, right, avoid, l, [r]);
  }

  lemma {:induction false} AvoidLess(g: MatchMatrix, right: seq<int>, fewer: set<nat>, more: set<nat>, l: nat, p: seq<nat>)
    requires fewer <= more && AugmentingPath(g, right, more, l, p)
    ensures AugmentingPath(g, right, fewer, l, p)
    decreases |p|
  {
    if |p| > 1 {
      AvoidLess(g, right, fewer + {p[0]}, more + {p[0]}, right[p[0]], p[1..]);
    }
  }

  method FindMaxBipartiteMatching(g: MatchMatrix) returns (pairs: Pairs)
    ensures IsMaximumMatching(g, pairs)
  {
    var state := new MaxBipartiteMatchState(g);
    pairs := state.Compute();
  }

  // ---------- The verdict ----------

  datatype UnorderedMatcherRequire = Superset | Subset | ExactMatch {
    predicate HasSuperset() {
      Superset? || ExactMatch?
    }

    predicate HasSubset() {
      Subset? || ExactMatch?
    }
  }

  /** f assigns to each matcher its own element. */
  ghost predicate MatchersInjectIntoElements(g: MatchMatrix, f: seq<nat>) {
    && |f| == g.rhsSize && Distinct(f)
    && forall r :: 0 <= r < |f| ==> f[r] < g.lhsSize && g.HasEdge(f[r], r)
  }

  /** f assigns to each element its own matcher. */
  ghost predicate ElementsInjectIntoMatchers(g: MatchMatrix, f: seq<nat>) {
    && |f| == g.lhsSize && Distinct(f)
    && forall l :: 0 <= l < |f| ==> f[l] < g.rhsSize && g.HasEdge(l, f[l])
  }

  ghost predicate PairingExists(g: MatchMatrix, flags: UnorderedMatcherRequire) {
    match flags
    case Superset => exists f :: MatchersInjectIntoElements(g, f)
    case Subset => exists f :: ElementsInjectIntoMatchers(g, f)
    case ExactMatch =>
      exists f :: ElementsInjectIntoMatchers(g, f) && forall r :: 0 <= r < g.rhsSize ==> r in f
  }

  ghost function IndexOf(s: seq<nat>, x: nat): (i: nat)
    requires x in s
    ensures i < |s| && s[i] == x
  {
    var i :| 0 <= i < |s| && s[i] == x;
    i
  }

  lemma DistinctFillsRange(s: seq<nat>, n: nat)
    requires Distinct(s) && |s| >= n && forall i :: 0 <= i < |s| ==> s[i] < n
    ensures |s| == n
    ensures forall x :: 0 <= x < n ==> x in s
  {
    DistinctCount(s);
    SubsetCount(Elements(s), Range(n));
    forall x | 0 <= x < n
      ensures x in s
    {
      assert x in Range(n);
      assert x in Elements(s);
    }
  }

  /** Distinct keys that fill 0..n, each with its own value, form an injective vector. */
  lemma PairsAsVector(keys: seq<nat>, values: seq<nat>, n: nat) returns (f: seq<nat>)
    requires Distinct(keys) && Distinct(values) && |keys| == |values| >= n
    requires forall i :: 0 <= i < |keys| ==> keys[i] < n
    ensures |keys| == n && |f| == n && Distinct(f)
    ensures forall i :: 0 <= i < n ==> f[keys[i]] == values[i]
    ensures forall x :: 0 <= x < n ==> x in keys
  {
    DistinctFillsRange(keys, n);
    var at := seq(n, x requires x in keys => IndexOf(keys, x));
    f := seq(n, x requires 0 <= x < n => values[at[x]]);
    forall i | 0 <= i < n
      ensures f[keys[i]] == values[i]
    {
      assert keys[at[keys[i]]] == keys[i];
    }
    forall x, y | 0 <= x < y < n
      ensures f[x] != f[y]
    {
      assert keys[at[x]] == x && keys[at[y]] == y;
    }
  }

  lemma FullRightsGiveInjection(g: MatchMatrix, m: Pairs)
    requires IsMatching(g, m) && |m| >= g.rhsSize
    ensures |m| == g.rhsSize
    ensures forall r :: 0 <= r < g.rhsSize ==> r in Rights(m)
    ensures exists f :: MatchersInjectIntoElements(g, f)
  {
    var f := PairsAsVector(Rights(m), Lefts(m), g.rhsSize);
    forall r | 0 <= r < g.rhsSize
      ensures f[r] < g.lhsSize && g.HasEdge(f[r], r)
    {
      var i := IndexOf(Rights(m), r);
      assert Rights(m)[i] == m[i].1 && Lefts(m)[i] == m[i].0;
    }
    assert MatchersInjectIntoElements(g, f);
  }

  lemma FullLeftsGiveInjection(g: MatchMatrix, m: Pairs)
    requires IsMatching(g, m) && |m| >= g.lhsSize
    ensures |m| == g.lhsSize
    ensures exists f :: ElementsInjectIntoMatchers(g, f) && forall i :: 0 <= i < |m| ==> m[i].1 in f
  {
    var f := PairsAsVector(Lefts(m), Rights(m), g.lhsSize);
    forall l | 0 <= l < g.lhsSize
      ensures f[l] < g.rhsSize && g.HasEdge(l, f[l])
    {
      var i := IndexOf(Lefts(m), l);
      assert Rights(m)[i] == m[i].1 && Lefts(m)[i] == m[i].0;
    }
    assert ElementsInjectIntoMatchers(g, f);
    forall i | 0 <= i < |m|
      ensures m[i].1 in f
    {
      assert f[Lefts(m)[i]] == Rights(m)[i];
    }
  }

  lemma InjectionOfMatchersIsMatching(g: MatchMatrix, f: seq<nat>)
    requires MatchersInjectIntoElements(g, f)
    ensures exists m :: IsMatching(g, m) && |m| == g.rhsSize
  {
    var m := seq(g.rhsSize, r requires 0 <= r < g.rhsSize => (f[r], r));
    assert IsMatching(g, m);
  }

  lemma InjectionOfElementsIsMatching(g: MatchMatrix, f: seq<nat>)
    requires ElementsInjectIntoMatchers(g, f)
    ensures exists m :: IsMatching(g, m) && |m| == g.lhsSize
  {
    var m := seq(g.lhsSize, l requires 0 <= l < g.lhsSize => (l, f[l]));
    assert IsMatching(g, m);
  }

  lemma BijectionHasEqualSizes(g: MatchMatrix, f: seq<nat>)
    requires ElementsInjectIntoMatchers(g, f) && forall r :: 0 <= r < g.rhsSize ==> r in f
    ensures g.lhsSize == g.rhsSize
  {
    DistinctCount(f);
    assert Elements(f) == Range(g.rhsSize);
  }

  /** The size of a maximum matching decides which pairings exist. */
  lemma FlowDecidesPairing(g: MatchMatrix, m: Pairs, flags: UnorderedMatcherRequire)
    requires IsMaximumMatching(g, m)
    ensures PairingExists(g, flags) <==>
            && (flags.HasSuperset() ==> |m| >= g.rhsSize)
            && (flags.HasSubset() ==> |m| >= g.lhsSize)
  {
    if |m| >= g.rhsSize { FullRightsGiveInjection(g, m); }
    if |m| >= g.lhsSize { FullLeftsGiveInjection(g, m); }
    forall f | MatchersInjectIntoElements(g, f)
      ensures |m| >= g.rhsSize
    {
      InjectionOfMatchersIsMatching(g, f);
    }
    forall f | ElementsInjectIntoMatchers(g, f)
      ensures |m| >= g.lhsSize
      ensures (forall r :: 0 <= r < g.rhsSize ==> r in f) ==> |m| >= g.rhsSize
    {
      InjectionOfElementsIsMatching(g, f);
      if forall r :: 0 <= r < g.rhsSize ==> r in f {
        BijectionHasEqualSizes(g, f);
      }
    }
    if flags.ExactMatch? && |m| >= g.rhsSize && |m| >= g.lhsSize {
      var f :| ElementsInjectIntoMatchers(g, f) && forall i :: 0 <= i < |m| ==> m[i].1 in f;
      forall r | 0 <= r < g.rhsSize
        ensures r in f
      {
        assert r in Rights(m);
      }
    }
  }

  method FindPairing(matrix: MatchMatrix, flags: UnorderedMatcherRequire) returns (ok: bool)
    ensures ok <==> PairingExists(matrix, flags)
  {
    var matches := FindMaxBipartiteMatching(matrix);
    FlowDecidesPairing(matrix, matches, flags);
    var maxFlow := |matches|;
    if flags.HasSuperset() && maxFlow < matrix.rhsSize {
      return false;
    }
    if flags.HasSubset() && maxFlow < matrix.lhsSize {
      return false;
    }
    return true;
  }

  ghost predicate ElementMatched(g: MatchMatrix, l: nat) {
    exists r :: 0 <= r < g.rhsSize && g.HasEdge(l, r)
  }

  ghost predicate MatcherMatched(g: MatchMatrix, r: nat) {
    exists l :: 0 <= l < g.lhsSize && g.HasEdge(l, r)
  }

  ghost predicate SizesAgree(g: MatchMatrix, flags: UnorderedMatcherRequire) {
    flags.ExactMatch? ==> g.lhsSize == g.rhsSize
  }

  method VerifyMatchMatrix(matrix: MatchMatrix, flags: UnorderedMatcherRequire) returns (result: bool)
    ensures result <==>
            && SizesAgree(matrix, flags)
            && (flags.HasSuperset() ==> forall r :: 0 <= r < matrix.rhsSize ==> MatcherMatched(matrix, r))
            && (flags.HasSubset() ==> forall l :: 0 <= l < matrix.lhsSize ==> ElementMatched(matrix, l))
  {
    if matrix.lhsSize == 0 && matrix.rhsSize == 0 {
      return true;
    }
    result := !(flags.ExactMatch? && matrix.lhsSize != matrix.rhsSize);
    var elementMatched := new bool[matrix.lhsSize](_ => false);
    var matcherMatched := new bool[matrix.rhsSize](_ => false);
    for l := 0 to matrix.lhsSize
      invariant forall k :: 0 <= k < matrix.lhsSize ==>
                  (elementMatched[k] <==> k < l && ElementMatched(matrix, k))
      invariant forall r :: 0 <= r < matrix.rhsSize ==>
                  (matcherMatched[r] <==> exists k :: 0 <= k < l && matrix.HasEdge(k, r))
    {
      for r := 0 to matrix.rhsSize
        invariant forall k :: 0 <= k < matrix.lhsSize && k != l ==>
                    (elementMatched[k] <==> k < l && ElementMatched(matrix, k))
        invariant elementMatched[l] <==> exists q :: 0 <= q < r && matrix.HasEdge(l, q)
        invariant forall q :: 0 <= q < matrix.rhsSize ==>
                    (matcherMatched[q] <==> (q < r && matrix.HasEdge(l, q)) || exists k :: 0 <= k < l && matrix.HasEdge(k, q))
      {
        var matched := matrix.HasEdge(l, r);
        elementMatched[l] := elementMatched[l] || matched;
        matcherMatched[r] := matcherMatched[r] || matched;
      }
    }
    assert forall l :: 0 <= l < matrix.lhsSize ==> (elementMatched[l] <==> ElementMatched(matrix, l));
    assert forall r :: 0 <= r < matrix.rhsSize ==> (matcherMatched[r] <==> MatcherMatched(matrix, r));
    if flags.HasSuperset() {
      for r := 0 to matcherMatched.Length
        invariant result <==> SizesAgree(matrix, flags) && forall k :: 0 <= k < r ==> matcherMatched[k]
      {
        if matcherMatched[r] {
          continue;
        }
        result := false;
      }
    }
    ghost var resultSoFar := result;
    if flags.HasSubset() {
      for l := 0 to elementMatched.Length
        invariant result <==> resultSoFar && forall k :: 0 <= k < l ==> elementMatched[k]
      {
        if elementMatched[l] {
          continue;
        }
        result := false;
      }
    }
  }

  /** The pre-filter never rejects a matrix for which a pairing exists. */
  lemma VerifyIsSound(g: MatchMatrix, flags: UnorderedMatcherRequire)
    requires PairingExists(g, flags)
    ensures SizesAgree(g, flags)
    ensures flags.HasSuperset() ==> forall r :: 0 <= r < g.rhsSize ==> MatcherMatched(g, r)
    ensures flags.HasSubset() ==> forall l :: 0 <= l < g.lhsSize ==> ElementMatched(g, l)
  {
    match flags
    case Superset =>
      var f :| MatchersInjectIntoElements(g, f);
      forall r | 0 <= r < g.rhsSize
        ensures MatcherMatched(g, r)
      {
        assert g.HasEdge(f[r], r);
      }
    case Subset =>
      var f :| ElementsInjectIntoMatchers(g, f);
      forall l | 0 <= l < g.lhsSize
        ensures ElementMatched(g, l)
      {
        assert g.HasEdge(l, f[l]);
      }
    case ExactMatch =>
      var f :| ElementsInjectIntoMatchers(g, f) && forall r :: 0 <= r < g.rhsSize ==> r in f;
      BijectionHasEqualSizes(g, f);
      forall l | 0 <= l < g.lhsSize
        ensures ElementMatched(g, l)
      {
        assert g.HasEdge(l, f[l]);
      }
      forall r | 0 <= r < g.rhsSize
        ensures MatcherMatched(g, r)
      {
        assert r in f;
        assert g.HasEdge(IndexOf(f, r), r);
      }
  }

  method MatchAndExplain(matrix: MatchMatrix, flags: UnorderedMatcherRequire) returns (ok: bool)
    ensures ok <==> PairingExists(matrix, flags)
  {
    ok := VerifyMatchMatrix(matrix, flags);
    if PairingExists(matrix, flags) { VerifyIsSound(matrix, flags); }
    if ok {
      ok := FindPairing(matrix, flags);
    }
  }
}
