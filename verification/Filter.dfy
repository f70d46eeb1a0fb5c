/** The test filter language: globs, ':'-separated alternatives, and a '-' before the
    negative part. The linear-time matcher is proved against the declarative meaning of
    globs, and filters against the fields of the filter text. */
module TestFilter {

  // ---------- Globs ----------

  /** The declarative meaning: '?' is any one character, '*' any number of characters. */
  ghost predicate GlobMatches(name: string, pattern: string)
    decreases |pattern|
  {
    if pattern == [] then name == []
    else if pattern[0] == '*' then exists k :: 0 <= k <= |name| && GlobMatches(name[k..], pattern[1..])
    else name != [] && (pattern[0] == '?' || pattern[0] == name[0]) && GlobMatches(name[1..], pattern[1..])
  }

  /** A leading '*' can absorb more of the name. */
  lemma StarAbsorbs(name: string, pattern: string, from: nat, later: nat)
    requires pattern != [] && pattern[0] == '*' && from <= later <= |name|
    requires GlobMatches(name[later..], pattern)
    ensures GlobMatches(name[from..], pattern)
  {
    var k :| 0 <= k <= |name[later..]| && GlobMatches(name[later..][k..], pattern[1..]);
    assert name[later..][k..] == name[from..][later - from + k..];
  }

  /** A '*' either matches nothing more or takes one more character. */
  lemma StarStep(name: string, pattern: string)
    requires pattern != [] && pattern[0] == '*'
    ensures GlobMatches(name, pattern) <==>
            GlobMatches(name, pattern[1..]) || (name != [] && GlobMatches(name[1..], pattern))
  {
    if GlobMatches(name, pattern) {
      var k :| 0 <= k <= |name| && GlobMatches(name[k..], pattern[1..]);
      if k == 0 {
        assert name[0..] == name;
      } else {
        assert name[k..] == name[1..][k - 1..];
      }
    }
    if GlobMatches(name, pattern[1..]) {
      assert name[0..] == name;
    }
    if name != [] && GlobMatches(name[1..], pattern) {
      StarAbsorbs(name, pattern, 0, 1);
      assert name[0..] == name;
    }
  }

  ghost predicate StarFree(pattern: string) {
    forall i :: 0 <= i < |pattern| ==> pattern[i] != '*'
  }

  /** A star-free stretch consumes exactly as many characters as it has. */
  lemma {:induction false} StarFreePrefix(name: string, pattern: string, n: nat)
    requires n <= |pattern| && StarFree(pattern[..n]) && GlobMatches(name, pattern)
    ensures n <= |name| && GlobMatches(name[n..], pattern[n..])
  {
    if n == 0 {
      assert name[0..] == name && pattern[0..] == pattern;
    } else {
      assert pattern[0] == pattern[..n][0];
      assert pattern[1..][..n - 1] == pattern[..n][1..];
      StarFreePrefix(name[1..], pattern[1..], n - 1);
      assert name[1..][n - 1..] == name[n..] && pattern[1..][n - 1..] == pattern[n..];
    }
  }

  /** Why remembering the last '*' is enough: a match that restarts at an earlier star also
      exists from the current position once a later star has been reached. */
  lemma EarlierStarIsRedundant(name: string, pattern: string, star: nat, tried: nat, later: nat, p: nat, n: nat)
    requires star < p < |pattern| && pattern[star] == '*' && pattern[p] == '*'
    requires StarFree(pattern[star + 1..p])
    requires tried <= later <= |name| && n == tried + (p - star - 1) <= |name|
    requires GlobMatches(name[later..], pattern[star..])
    ensures GlobMatches(name[n..], pattern[p..])
  {
    var rest := pattern[star..];
    var k :| 0 <= k <= |name[later..]| && GlobMatches(name[later..][k..], rest[1..]);
    assert name[later..][k..] == name[later + k..] && rest[1..] == pattern[star + 1..];
    assert pattern[star + 1..][..p - star - 1] == pattern[star + 1..p];
    StarFreePrefix(name[later + k..], pattern[star + 1..], p - star - 1);
    var m := later + k + (p - star - 1);
    assert name[later + k..][p - star - 1..] == name[m..] && pattern[star + 1..][p - star - 1..] == pattern[p..];
    StarAbsorbs(name, pattern[p..], n, m);
  }

  /** What is still to be decided: the current attempt, or a restart at the last star. */
  ghost predicate Undecided(name: string, pattern: string, p: nat, n: nat, pNext: nat, nNext: nat)
    requires p <= |pattern| && n <= |name| && pNext <= |pattern|
  {
    || GlobMatches(name[n..], pattern[p..])
    || (0 < nNext <= |name| && GlobMatches(name[nNext..], pattern[pNext..]))
  }

  /** The last '*' is at pNext, the attempt in progress started matching after it at nNext-1. */
  ghost predicate Restartable(pattern: string, p: nat, n: nat, pNext: nat, nNext: nat) {
    if nNext == 0 then pNext == 0
    else
      && pNext < p <= |pattern| && pattern[pNext] == '*'
      && StarFree(pattern[pNext + 1..p]) && n == nNext - 1 + (p - pNext - 1)
  }

  method PatternMatchesString(name: string, pattern: string) returns (matches: bool)
    ensures matches <==> GlobMatches(name, pattern)
  {
    var p, n := 0, 0;
    var pNext, nNext := 0, 0;
    assert name[0..] == name && pattern[0..] == pattern;
    ghost var restarted := false;
    while p < |pattern| || n < |name|
      invariant p <= |pattern| && n <= |name| && pNext <= |pattern|
      invariant if restarted then 0 < nNext == n && p == pNext < |pattern| && pattern[p] == '*'
                else Restartable(pattern, p, n, pNext, nNext)
      invariant GlobMatches(name, pattern) <==> Undecided(name, pattern, p, n, pNext, nNext)
      decreases |pattern| - pNext, |name| + 1 - nNext, if restarted then 0 else |pattern| - p + 1
    {
      if p < |pattern| {
        if pattern[p] == '*' {
          StarStep(name[n..], pattern[p..]);
          assert pattern[p..][1..] == pattern[p + 1..];
          if n < |name| { assert name[n..][1..] == name[n + 1..]; }
          if !restarted && 0 < nNext <= |name| && GlobMatches(name[nNext..], pattern[pNext..]) {
            EarlierStarIsRedundant(name, pattern, pNext, nNext - 1, nNext, p, n);
          }
          pNext := p;
          nNext := n + 1;
          p := p + 1;
          restarted := false;
          continue;
        } else if n < |name| && (pattern[p] == '?' || name[n] == pattern[p]) {
          assert name[n..][1..] == name[n + 1..] && pattern[p..][1..] == pattern[p + 1..];
          assert pNext < p ==> pattern[pNext + 1..p + 1] == pattern[pNext + 1..p] + [pattern[p]];
          p := p + 1;
          n := n + 1;
          continue;
        }
      }
      assert !GlobMatches(name[n..], pattern[p..]);
      if 0 < nNext <= |name| {
        p := pNext;
        n := nNext;
        restarted := true;
        continue;
      }
      return false;
    }
    return true;
  }

  // ---------- Splitting ----------

  ghost function Index(s: string, d: char): (i: nat)
    ensures i <= |s| && (forall k :: 0 <= k < i ==> s[k] != d) && (i < |s| ==> s[i] == d)
  {
    if s == [] || s[0] == d then 0 else 1 + Index(s[1..], d)
  }

  /** The fields of s between delimiters; there is always at least one. */
  ghost function Fields(s: string, d: char): (fields: seq<string>)
    ensures fields != []
  {
    var i := Index(s, d);
    if i == |s| then [s] else [s[..i]] + Fields(s[i + 1..], d)
  }

  ghost function Join(fields: seq<string>, d: char): string
    requires fields != []
  {
    if |fields| == 1 then fields[0] else fields[0] + [d] + Join(fields[1..], d)
  }

  lemma {:induction false} SplitIsLossless(s: string, d: char)
    ensures Join(Fields(s, d), d) == s
    ensures forall f :: f in Fields(s, d) ==> d !in f
  {
    var i := Index(s, d);
    if i < |s| {
      SplitIsLossless(s[i + 1..], d);
      assert Fields(s, d)[1..] == Fields(s[i + 1..], d);
      assert s == s[..i] + [d] + s[i + 1..];
    }
  }

  lemma {:induction false} JoinIsReversible(fields: seq<string>, d: char)
    requires fields != [] && forall f :: f in fields ==> d !in f
    ensures Fields(Join(fields, d), d) == fields
  {
    var s, f := Join(fields, d), fields[0];
    assert f in fields;
    if |fields| == 1 {
      assert Index(s, d) == |s|;
    } else {
      JoinIsReversible(fields[1..], d);
      assert s[|f|] == d && s[..|f|] == f && s[|f| + 1..] == Join(fields[1..], d);
      assert forall k :: 0 <= k < |f| ==> s[k] == f[k] && f[k] in f;
      assert Index(s, d) == |f|;
    }
  }

  /** The first place from pos on where d stands, or the end. */
  ghost function IndexAt(s: string, d: char, pos: nat): (i: nat)
    requires pos <= |s|
    ensures pos <= i <= |s|
    decreases |s| - pos
  {
    if pos == |s| || s[pos] == d then pos else IndexAt(s, d, pos + 1)
  }

  /** The fields of what follows pos. */
  ghost function FieldsAt(s: string, d: char, pos: nat): seq<string>
    requires pos <= |s|
    decreases |s| - pos
  {
    var i := IndexAt(s, d, pos);
    if i == |s| then [s[pos..i]] else [s[pos..i]] + FieldsAt(s, d, i + 1)
  }

  lemma {:induction false} IndexAtIsIndex(s: string, d: char, pos: nat)
    requires pos <= |s|
    ensures IndexAt(s, d, pos) == pos + Index(s[pos..], d)
    decreases |s| - pos
  {
    if pos < |s| && s[pos] != d {
      IndexAtIsIndex(s, d, pos + 1);
      assert s[pos..][1..] == s[pos + 1..];
    }
  }

  lemma {:induction false} FieldsAtIsFields(s: string, d: char, pos: nat)
    requires pos <= |s|
    ensures FieldsAt(s, d, pos) == Fields(s[pos..], d)
    decreases |s| - pos
  {
    var i, t := IndexAt(s, d, pos), s[pos..];
    IndexAtIsIndex(s, d, pos);
    if i == |s| {
      assert s[pos..i] == t;
      OneField(t, d);
    } else {
      FieldsAtIsFields(s, d, i + 1);
      assert s[pos..i] == t[..i - pos] && s[i + 1..] == t[i - pos + 1..];
      FirstField(t, d, i - pos);
    }
  }

  lemma OneField(t: string, d: char)
    requires Index(t, d) == |t|
    ensures Fields(t, d) == [t]
  {
  }

  lemma FirstField(t: string, d: char, i: nat)
    requires Index(t, d) == i < |t|
    ensures Fields(t, d) == [t[..i]] + Fields(t[i + 1..], d)
  {
  }

  method Find(s: string, d: char, from: nat) returns (i: nat)
    requires from <= |s|
    ensures i == IndexAt(s, d, from)
  {
    i := from;
    while i < |s| && s[i] != d
      invariant from <= i <= |s| && IndexAt(s, d, from) == IndexAt(s, d, i)
    {
      i := i + 1;
    }
  }

  /** The fields from pos on are the remaining ones once the others have been parsed. */
  ghost predicate Remaining(s: string, d: char, parsed: seq<string>, pos: nat) {
    pos <= |s| && parsed + FieldsAt(s, d, pos) == Fields(s, d)
  }

  lemma AllRemain(s: string, d: char)
    ensures Remaining(s, d, [], 0)
  {
    FieldsAtIsFields(s, d, 0);
    assert s[0..] == s && [] + FieldsAt(s, d, 0) == FieldsAt(s, d, 0);
  }

  lemma MoveOver(s: string, d: char, parsed: seq<string>, pos: nat, at: nat)
    requires Remaining(s, d, parsed, pos) && at == IndexAt(s, d, pos)
    ensures if at == |s| then parsed + [s[pos..at]] == Fields(s, d) else Remaining(s, d, parsed + [s[pos..at]], at + 1)
  {
    if at < |s| {
      assert parsed + ([s[pos..at]] + FieldsAt(s, d, at + 1)) == parsed + [s[pos..at]] + FieldsAt(s, d, at + 1);
    }
  }

  method SplitString(s: string, d: char) returns (parsed: seq<string>)
    ensures parsed == Fields(s, d)
  {
    parsed := [];
    var pos := 0;
    AllRemain(s, d);
    while true
      invariant Remaining(s, d, parsed, pos)
      decreases |s| - pos
    {
      var at := Find(s, d, pos);
      MoveOver(s, d, parsed, pos, at);
      parsed := parsed + [s[pos..at]];
      if at == |s| {
        return;
      }
      pos := at + 1;
    }
  }

  // ---------- Filters ----------

  predicate IsGlobPattern(pattern: string) {
    '?' in pattern || '*' in pattern
  }

  /** Looking a wildcard-free pattern up in a set agrees with globbing it. */
  lemma {:induction false} ExactIsGlob(name: string, pattern: string)
    requires !IsGlobPattern(pattern)
    ensures GlobMatches(name, pattern) <==> name == pattern
  {
    if pattern != [] {
      assert pattern[0] in pattern;
      if name != [] {
        ExactIsGlob(name[1..], pattern[1..]);
        assert name == [name[0]] + name[1..] && pattern == [pattern[0]] + pattern[1..];
      }
    }
  }

  ghost predicate AnyMatches(name: string, patterns: seq<string>) {
    exists i :: 0 <= i < |patterns| && GlobMatches(name, patterns[i])
  }

  /** The meaning of a list of patterns. */
  ghost predicate FilterAccepts(name: string, filter: string) {
    AnyMatches(name, Fields(filter, ':'))
  }

  /** The two collections hold exactly the patterns, told apart by their wildcards. */
  ghost predicate Partitioned(globs: seq<string>, exact: set<string>, patterns: seq<string>) {
    && (forall i :: 0 <= i < |globs| ==> globs[i] in patterns)
    && (forall p :: p in exact ==> p in patterns && !IsGlobPattern(p))
    && (forall p :: p in patterns ==> if IsGlobPattern(p) then p in globs else p in exact)
  }

  class UnitTestFilter {
    ghost const Patterns: seq<string>
    const globPatterns: seq<string>
    const exactMatchPatterns: set<string>

    ghost predicate Valid() {
      Partitioned(globPatterns, exactMatchPatterns, Patterns)
    }

    constructor Empty()
      ensures Valid() && Patterns == []
    {
      Patterns := [];
      globPatterns := [];
      exactMatchPatterns := {};
    }

    constructor (filter: string)
      ensures Valid() && Patterns == Fields(filter, ':')
    {
      var all := SplitString(filter, ':');
      var globs: seq<string>, exact: set<string> := [], {};
      for i := 0 to |all|
        invariant Partitioned(globs, exact, all[..i])
      {
        if IsGlobPattern(all[i]) {
          globs := globs + [all[i]];
        } else {
          exact := exact + {all[i]};
        }
        assert all[..i + 1] == all[..i] + [all[i]];
      }
      assert all[..|all|] == all;
      Patterns := Fields(filter, ':');
      globPatterns := globs;
      exactMatchPatterns := exact;
    }

    method MatchesName(name: string) returns (matches: bool)
      requires Valid()
      ensures matches <==> AnyMatches(name, Patterns)
    {
      if name in exactMatchPatterns {
        ExactIsGlob(name, name);
        return true;
      }
      for g := 0 to |globPatterns|
        invariant forall k :: 0 <= k < g ==> !GlobMatches(name, globPatterns[k])
      {
        var m := PatternMatchesString(name, globPatterns[g]);
        if m {
          return true;
        }
      }
      forall i | 0 <= i < |Patterns|
        ensures !GlobMatches(name, Patterns[i])
      {
        if !IsGlobPattern(Patterns[i]) { ExactIsGlob(name, Patterns[i]); }
      }
      return false;
    }
  }

  const UNIVERSAL_FILTER := "*"

  /** The part of a filter before its first '-'. */
  ghost function PositivePart(filter: string): string {
    filter[..Index(filter, '-')]
  }

  ghost predicate HasNegativePart(filter: string) {
    Index(filter, '-') < |filter|
  }

  /** The part of a filter after its first '-'; later dashes belong to it. */
  ghost function NegativePart(filter: string): string
    requires HasNegativePart(filter)
  {
    filter[Index(filter, '-') + 1..]
  }

  /** The meaning of a whole filter. */
  ghost predicate Selects(filter: string, name: string) {
    if HasNegativePart(filter) then
      && FilterAccepts(name, if PositivePart(filter) == [] then UNIVERSAL_FILTER else PositivePart(filter))
      && !FilterAccepts(name, NegativePart(filter))
    else FilterAccepts(name, filter)
  }

  /** Splitting at every '-' and rejoining the tail recovers the two parts. */
  lemma PartsOfFilter(filter: string)
    ensures var parts := Fields(filter, '-');
            && parts[0] == PositivePart(filter)
            && (HasNegativePart(filter) <==> |parts| > 1)
            && (HasNegativePart(filter) ==> Join(parts[1..], '-') == NegativePart(filter))
  {
    var parts := Fields(filter, '-');
    if HasNegativePart(filter) {
      assert parts[1..] == Fields(NegativePart(filter), '-');
      SplitIsLossless(NegativePart(filter), '-');
    }
  }

  class PositiveAndNegativeUnitTestFilter {
    ghost const Text: string
    const positiveFilter: UnitTestFilter
    const negativeFilter: UnitTestFilter

    ghost predicate Valid() {
      && positiveFilter.Valid() && negativeFilter.Valid()
      && if HasNegativePart(Text) then
           && positiveFilter.Patterns ==
              Fields(if PositivePart(Text) == [] then UNIVERSAL_FILTER else PositivePart(Text), ':')
           && negativeFilter.Patterns == Fields(NegativePart(Text), ':')
         else positiveFilter.Patterns == Fields(Text, ':') && negativeFilter.Patterns == []
    }

    constructor (filter: string)
      ensures Valid() && Text == filter
    {
      Text := filter;
      var parts := SplitString(filter, '-');
      PartsOfFilter(filter);
      if |parts| > 1 {
        var positive := new UnitTestFilter(if parts[0] == [] then UNIVERSAL_FILTER else parts[0]);
        var negative := parts[1];
        for i := 2 to |parts|
          invariant negative == Join(parts[1..i], '-')
        {
          JoinAppend(parts[1..i], parts[i], '-');
          assert parts[1..i + 1] == parts[1..i] + [parts[i]];
          negative := negative + ['-'] + parts[i];
        }
        assert parts[1..|parts|] == parts[1..];
        positiveFilter := positive;
        negativeFilter := new UnitTestFilter(negative);
      } else {
        positiveFilter := new UnitTestFilter(parts[0]);
        negativeFilter := new UnitTestFilter.Empty();
      }
    }

    method MatchesName(name: string) returns (matches: bool)
      requires Valid()
      ensures matches <==> Selects(Text, name)
    {
      matches := positiveFilter.MatchesName(name);
      if matches {
        var excluded := negativeFilter.MatchesName(name);
        matches := !excluded;
      }
    }

    method MatchesTest(suiteName: string, testName: string) returns (matches: bool)
      requires Valid()
      ensures matches <==> Selects(Text, suiteName + "." + testName)
    {
      matches := MatchesName(suiteName + "." + testName);
    }
  }

  lemma {:induction false} JoinAppend(fields: seq<string>, last: string, d: char)
    requires fields != []
    ensures Join(fields + [last], d) == Join(fields, d) + [d] + last
  {
    var all := fields + [last];
    if |fields| == 1 {
      assert all[1..] == [last];
    } else {
      JoinAppend(fields[1..], last, d);
      assert all[1..] == fields[1..] + [last];
    }
  }

  /** The universal filter accepts every name, so "-x" runs everything but x. */
  lemma UniversalAcceptsAll(name: string)
    ensures FilterAccepts(name, UNIVERSAL_FILTER)
  {
    assert Fields(UNIVERSAL_FILTER, ':') == [UNIVERSAL_FILTER];
    assert UNIVERSAL_FILTER[1..] == [] && name[|name|..] == [];
    assert GlobMatches(name[|name|..], UNIVERSAL_FILTER[1..]);
    assert GlobMatches(name, [UNIVERSAL_FILTER][0]);
  }

  /** Without a positive part the negative part alone decides. */
  lemma NegativeOnly(filter: string, name: string)
    requires filter != [] && filter[0] == '-'
    ensures Selects(filter, name) <==> !FilterAccepts(name, filter[1..])
  {
    UniversalAcceptsAll(name);
  }

  // ---------- What patterns and filters mean, character by character ----------

  /** Without a star a pattern matches the names of its length that agree with it wherever it
      has no question mark. */
  lemma {:induction false} StarFreeMatches(name: string, pattern: string)
    requires '*' !in pattern
    ensures GlobMatches(name, pattern) <==>
            |name| == |pattern| && forall i :: 0 <= i < |name| ==> pattern[i] == '?' || name[i] == pattern[i]
  {
    if pattern != [] && name != [] {
      var n, p := name[1..], pattern[1..];
      StarFreeMatches(n, p);
      assert pattern[0] in pattern;
      assert forall i :: 1 <= i < |name| ==> name[i] == n[i - 1];
      assert forall i :: 1 <= i < |pattern| ==> pattern[i] == p[i - 1];
      assert forall i :: 0 <= i < |p| && i < |n| ==> p[i] == pattern[i + 1] && n[i] == name[i + 1];
    } else if pattern != [] {
      assert pattern[0] in pattern;
    }
  }

  /** A star matches any part of the name, the empty one included. */
  lemma StarMatches(name: string, rest: string)
    ensures GlobMatches(name, "*" + rest) <==> exists k :: 0 <= k <= |name| && GlobMatches(name[k..], rest)
  {
    assert ("*" + rest)[1..] == rest;
  }

  /** Ordinary characters in front must stand in front of the name. */
  lemma {:induction false} LiteralPrefix(name: string, literal: string, rest: string)
    requires '*' !in literal && '?' !in literal
    ensures GlobMatches(name, literal + rest) <==> literal <= name && GlobMatches(name[|literal|..], rest)
  {
    if literal == [] {
      assert literal + rest == rest && name[0..] == name;
    } else {
      var l := literal[1..];
      assert literal[0] in literal;
      assert (literal + rest)[1..] == l + rest;
      if name != [] {
        LiteralPrefix(name[1..], l, rest);
        assert literal == [literal[0]] + l && name == [name[0]] + name[1..];
        assert |literal| <= |name| ==> name[1..][|l|..] == name[|literal|..];
        assert literal <= name <==> literal[0] == name[0] && l <= name[1..];
      }
    }
  }

  ghost predicate BeginsWith(name: string, part: string) {
    |part| <= |name| && name[..|part|] == part
  }

  ghost predicate EndsWith(name: string, part: string) {
    |part| <= |name| && name[|name| - |part|..] == part
  }

  ghost predicate Contains(name: string, part: string) {
    exists i :: 0 <= i <= |name| && BeginsWith(name[i..], part)
  }

  lemma LoneStar(name: string)
    ensures GlobMatches(name, "*")
  {
    StarMatches(name, []);
    assert "*" + [] == "*" && name[|name|..] == [] && GlobMatches(name[|name|..], []);
  }

  /** "part*", "*part" and "*part*" match the names that begin with, end with, and contain the part. */
  lemma PrefixPattern(name: string, part: string)
    requires '*' !in part && '?' !in part
    ensures GlobMatches(name, part + "*") <==> BeginsWith(name, part)
  {
    LiteralPrefix(name, part, "*");
    if part <= name { LoneStar(name[|part|..]); }
  }

  lemma SuffixPattern(name: string, part: string)
    requires '*' !in part && '?' !in part
    ensures GlobMatches(name, "*" + part) <==> EndsWith(name, part)
  {
    StarMatches(name, part);
    forall k | 0 <= k <= |name|
      ensures GlobMatches(name[k..], part) <==> name[k..] == part
    {
      ExactIsGlob(name[k..], part);
    }
    if EndsWith(name, part) {
      assert GlobMatches(name[|name| - |part|..], part);
    }
  }

  lemma InfixPattern(name: string, part: string)
    requires '*' !in part && '?' !in part
    ensures GlobMatches(name, "*" + part + "*") <==> Contains(name, part)
  {
    assert "*" + part + "*" == "*" + (part + "*");
    StarMatches(name, part + "*");
    forall k | 0 <= k <= |name|
      ensures GlobMatches(name[k..], part + "*") <==> BeginsWith(name[k..], part)
    {
      PrefixPattern(name[k..], part);
    }
  }

  ghost predicate NoneHas(fields: seq<string>, d: char) {
    forall f :: f in fields ==> d !in f
  }

  /** A filter accepts what one of the patterns between its colons matches. */
  lemma ColonsSeparate(name: string, patterns: seq<string>)
    requires patterns != [] && NoneHas(patterns, ':')
    ensures FilterAccepts(name, Join(patterns, ':')) <==> exists p :: p in patterns && GlobMatches(name, p)
  {
    JoinIsReversible(patterns, ':');
    if p :| p in patterns && GlobMatches(name, p) {
      var i :| 0 <= i < |patterns| && patterns[i] == p;
      assert GlobMatches(name, patterns[i]);
    }
    if i :| 0 <= i < |patterns| && GlobMatches(name, patterns[i]) {
      assert patterns[i] in patterns;
    }
  }

  lemma TwoPatterns(name: string, first: string, second: string)
    requires ':' !in first && ':' !in second
    ensures FilterAccepts(name, first + ":" + second) <==> GlobMatches(name, first) || GlobMatches(name, second)
  {
    var patterns := [first, second];
    assert patterns[1..] == [second];
    assert Join(patterns, ':') == first + [':'] + second;
    ColonsSeparate(name, patterns);
    assert first in patterns && second in patterns;
  }

  ghost predicate Plain(part: string) {
    '*' !in part && '?' !in part && ':' !in part
  }

  lemma BeginsOrContains(name: string, first: string, second: string)
    requires Plain(first) && Plain(second)
    ensures FilterAccepts(name, first + "*:*" + second + "*") <==> BeginsWith(name, first) || Contains(name, second)
  {
    assert first + "*:*" + second + "*" == (first + "*") + ":" + ("*" + second + "*");
    TwoPatterns(name, first + "*", "*" + second + "*");
    PrefixPattern(name, first);
    InfixPattern(name, second);
  }

  lemma EndsOrContains(name: string, first: string, second: string)
    requires Plain(first) && Plain(second)
    ensures FilterAccepts(name, "*" + first + ":*" + second + "*") <==> EndsWith(name, first) || Contains(name, second)
  {
    assert "*" + first + ":*" + second + "*" == ("*" + first) + ":" + ("*" + second + "*");
    TwoPatterns(name, "*" + first, "*" + second + "*");
    SuffixPattern(name, first);
    InfixPattern(name, second);
  }

  lemma {:induction false} JoinedHasNone(fields: seq<string>, d: char, c: char)
    requires fields != [] && NoneHas(fields, c) && c != d
    ensures c !in Join(fields, d)
  {
    assert fields[0] in fields;
    if |fields| > 1 {
      JoinedHasNone(fields[1..], d, c);
    }
  }

  lemma {:induction false} IndexIs(s: string, d: char, i: nat)
    requires i <= |s| && d !in s[..i] && (i < |s| ==> s[i] == d)
    ensures Index(s, d) == i
  {
    if i > 0 {
      assert s[..i][0] == s[0];
      assert s[1..][..i - 1] == s[..i][1..];
      IndexIs(s[1..], d, i - 1);
    }
  }

  lemma PartsAroundDash(positive: string, negative: string)
    requires '-' !in positive
    ensures var filter := positive + "-" + negative;
            HasNegativePart(filter) && PositivePart(filter) == positive && NegativePart(filter) == negative
  {
    var filter := positive + "-" + negative;
    assert filter[..|positive|] == positive && filter[|positive| + 1..] == negative;
    IndexIs(filter, '-', |positive|);
  }

  /** The filter language: a name runs if a pattern before the dash matches it, or there is none,
      and no pattern after the dash does. */
  lemma FilterLanguage(name: string, positive: seq<string>, negative: seq<string>)
    requires positive != [] && negative != [] && NoneHas(positive, ':') && NoneHas(negative, ':') && NoneHas(positive, '-')
    ensures Selects(Join(positive, ':'), name) <==> exists p :: p in positive && GlobMatches(name, p)
    ensures Selects(Join(positive, ':') + "-" + Join(negative, ':'), name) <==>
            && (positive == [""] || exists p :: p in positive && GlobMatches(name, p))
            && !exists p :: p in negative && GlobMatches(name, p)
  {
    var before, after := Join(positive, ':'), Join(negative, ':');
    ColonsSeparate(name, positive);
    ColonsSeparate(name, negative);
    JoinedHasNone(positive, ':', '-');
    assert before[..|before|] == before;
    IndexIs(before, '-', |before|);
    PartsAroundDash(before, after);
    if before == [] {
      assert |positive| == 1;
      UniversalAcceptsAll(name);
    }
  }
}
