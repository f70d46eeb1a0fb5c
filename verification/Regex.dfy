/** The simple regular expressions of GTEST_USES_SIMPLE_RE.

    Regex trees with their printed form and their language are the reference; the validator
    accepts exactly the printed forms of well-formed trees, and the matcher decides the
    language. Strings are C strings: reading a character at index |s| yields the terminator,
    and no read beyond it is possible. */
module SimpleRegex {
  import opened Basics

  const NUL := '\0'

  predicate NulFree(s: string) {
    NUL !in s
  }

  /** A read of a C string. */
  function At(s: string, i: nat): char
    requires i <= |s|
  {
    if i < |s| then s[i] else NUL
  }

  // ---------- Characters ----------

  predicate IsInSet(ch: char, chars: set<char>) {
    ch != NUL && ch in chars
  }

  predicate IsAsciiDigit(ch: char) {
    '0' <= ch <= '9'
  }

  predicate IsAsciiPunct(ch: char) {
    IsInSet(ch, {'^', '-', '!', '\"', '#', '$', '%', '&', '\'', '(', ')', '*', '+', ','}
                + {'.', '/', ':', ';', '<', '=', '>', '?', '@', '[', '\\', ']', '_', '`', '{', '|', '}', '~'})
  }

  predicate IsRepeat(ch: char) {
    IsInSet(ch, {'?', '*', '+'})
  }

  predicate IsAsciiWhiteSpace(ch: char) {
    IsInSet(ch, {' ', '\U{0C}', '\n', '\r', '\t', '\U{0B}'})
  }

  predicate IsAsciiWordChar(ch: char) {
    'a' <= ch <= 'z' || 'A' <= ch <= 'Z' || '0' <= ch <= '9' || ch == '_'
  }

  predicate IsValidEscape(c: char) {
    IsAsciiPunct(c) || IsInSet(c, {'d', 'D', 'f', 'n', 'r', 's', 'S', 't', 'v', 'w', 'W'})
  }

  const UNSUPPORTED: set<char> := {'(', ')', '[', ']', '{', '}', '|'}
  const NOT_REPEATABLE: set<char> := {'^', '$', '?', '*', '+'}
  const SPECIAL: set<char> := UNSUPPORTED + NOT_REPEATABLE + {'\\'}

  predicate AtomMatchesChar(escaped: bool, patternChar: char, ch: char) {
    if escaped then
      match patternChar
      case 'd' => IsAsciiDigit(ch)
      case 'D' => !IsAsciiDigit(ch)
      case 'f' => ch == '\U{0C}'
      case 'n' => ch == '\n'
      case 'r' => ch == '\r'
      case 's' => IsAsciiWhiteSpace(ch)
      case 'S' => !IsAsciiWhiteSpace(ch)
      case 't' => ch == '\t'
      case 'v' => ch == '\U{0B}'
      case 'w' => IsAsciiWordChar(ch)
      case 'W' => !IsAsciiWordChar(ch)
      case _ => IsAsciiPunct(patternChar) && patternChar == ch
    else (patternChar == '.' && ch != '\n') || patternChar == ch
  }

  // ---------- Trees, their text and their language ----------

  datatype Repeat = One | Optional | Star | Plus {
    function Text(): string {
      match this
      case One => ""
      case Optional => "?"
      case Star => "*"
      case Plus => "+"
    }

    predicate Allows(count: nat) {
      match this
      case One => count == 1
      case Optional => count <= 1
      case Star => true
      case Plus => count >= 1
    }
  }

  datatype Item = Item(escaped: bool, c: char, repeat: Repeat) {
    predicate WellFormed() {
      if escaped then IsValidEscape(c) else c != NUL && c !in SPECIAL
    }

    function Text(): string {
      (if escaped then "\\" else "") + [c] + repeat.Text()
    }

    predicate Accepts(ch: char) {
      AtomMatchesChar(escaped, c, ch)
    }

    /** Every character of s is one the atom accepts. */
    ghost predicate AcceptsAll(s: string) {
      forall i :: 0 <= i < |s| ==> Accepts(s[i])
    }

    ghost predicate Denotes(s: string) {
      repeat.Allows(|s|) && AcceptsAll(s)
    }
  }

  ghost predicate AllWellFormed(items: seq<Item>) {
    forall i :: 0 <= i < |items| ==> items[i].WellFormed()
  }

  /** The text of the items, followed by '$' when the regex is anchored at the end. */
  ghost function Body(items: seq<Item>, eol: bool): string {
    if items == [] then (if eol then "$" else "")
    else items[0].Text() + Body(items[1..], eol)
  }

  /** The language of a list of items. */
  ghost predicate Denotes(items: seq<Item>, s: string)
    decreases |items|
  {
    if items == [] then s == []
    else exists k :: 0 <= k <= |s| && items[0].Denotes(s[..k]) && Denotes(items[1..], s[k..])
  }

  datatype Regex = Regex(bol: bool, items: seq<Item>, eol: bool) {
    ghost function Text(): string {
      (if bol then "^" else "") + Body(items, eol)
    }

    ghost predicate WellFormed() {
      AllWellFormed(items)
    }

    /** Some substring of s, between the anchors, is in the language. */
    ghost predicate MatchesIn(s: string) {
      exists i, j :: 0 <= i <= j <= |s| && (bol ==> i == 0) && (eol ==> j == |s|) && Denotes(items, s[i..j])
    }
  }

  ghost predicate IsTextOfTree(s: string) {
    exists r: Regex :: r.WellFormed() && r.Text() == s
  }

  // ---------- Validation ----------

  /** Whether an unescaped character may stand where it does. */
  predicate PlainAllowed(ch: char, first: bool, last: bool, prevRepeatable: bool) {
    && (ch == '^' ==> first)
    && (ch == '$' ==> last)
    && !IsInSet(ch, UNSUPPORTED)
    && (IsRepeat(ch) ==> prevRepeatable)
  }

  predicate Repeatable(ch: char) {
    !IsInSet(ch, NOT_REPEATABLE)
  }

  /** The rules the validator checks from one position on. */
  ghost predicate ValidFrom(s: string, first: bool, prevRepeatable: bool)
    decreases |s|
  {
    if s == [] then true
    else if s[0] == '\\' then |s| >= 2 && IsValidEscape(s[1]) && ValidFrom(s[2..], false, true)
    else PlainAllowed(s[0], first, |s| == 1, prevRepeatable) && ValidFrom(s[1..], false, Repeatable(s[0]))
  }

  lemma EscapeHead(c: char, tail: string, first: bool, prevRepeatable: bool)
    ensures ValidFrom(['\\', c] + tail, first, prevRepeatable) <==> IsValidEscape(c) && ValidFrom(tail, false, true)
  {
    assert (['\\', c] + tail)[2..] == tail;
  }

  lemma PlainHead(ch: char, tail: string, first: bool, prevRepeatable: bool)
    requires ch != '\\'
    ensures ValidFrom([ch] + tail, first, prevRepeatable) <==>
            PlainAllowed(ch, first, tail == [], prevRepeatable) && ValidFrom(tail, false, Repeatable(ch))
  {
    assert ([ch] + tail)[1..] == tail;
  }

  method ValidateRegex(regex: Option<string>) returns (isValid: bool)
    requires regex.Some? ==> NulFree(regex.value)
    ensures isValid <==> regex.Some? && IsTextOfTree(regex.value)
  {
    if regex.None? {
      return false;
    }
    isValid := ScanRegex(regex.value);
    ValidMeansTree(regex.value);
  }

  lemma EscapeAt(s: string, i: nat, first: bool, prevRepeatable: bool, valid: bool)
    requires i + 1 < |s| && s[i] == '\\' && valid == IsValidEscape(s[i + 1])
    ensures ValidFrom(s[i..], first, prevRepeatable) <==> valid && ValidFrom(s[i + 2..], false, true)
  {
    var c, tail := s[i + 1], s[i + 2..];
    EscapeHead(c, tail, first, prevRepeatable);
    assert s[i..] == ['\\', c] + tail;
  }

  lemma TrailingEscape(s: string, i: nat, first: bool, prevRepeatable: bool)
    requires i + 1 == |s| && s[i] == '\\'
    ensures !ValidFrom(s[i..], first, prevRepeatable)
  {
  }

  lemma PlainAt(s: string, i: nat, first: bool, prevRepeatable: bool)
    requires i < |s| && s[i] != '\\'
    ensures ValidFrom(s[i..], first, prevRepeatable) <==>
            PlainAllowed(s[i], first, i + 1 == |s|, prevRepeatable) && ValidFrom(s[i + 1..], false, Repeatable(s[i]))
  {
    PlainHead(s[i], s[i + 1..], first, prevRepeatable);
    assert s[i..] == [s[i]] + s[i + 1..];
  }

  /** The scanning loop of ValidateRegex. */
  method ScanRegex(s: string) returns (isValid: bool)
    requires NulFree(s)
    ensures isValid <==> ValidFrom(s, true, false)
  {
    isValid := true;
    var prevRepeatable := false;
    var i := 0;
    ghost var rest := s;
    assert s[0..] == s;
    while At(s, i) != NUL
      invariant i <= |s| && rest == s[i..]
      invariant ValidFrom(s, true, false) <==> isValid && ValidFrom(rest, i == 0, prevRepeatable)
      decreases |s| - i
    {
      if s[i] == '\\' {
        i := i + 1;
        if At(s, i) == NUL {
          TrailingEscape(s, i - 1, i == 1, prevRepeatable);
          return false;
        }
        assert ValidFrom(rest, i == 1, prevRepeatable) <==> IsValidEscape(s[i]) && ValidFrom(s[i + 1..], false, true) by {
          EscapeAt(s, i - 1, i == 1, prevRepeatable, IsValidEscape(s[i]));
        }
        if !IsValidEscape(s[i]) {
          isValid := false;
        }
        prevRepeatable := true;
      } else {
        var allowed := PlainIsAllowed(s, i, prevRepeatable);
        assert ValidFrom(rest, i == 0, prevRepeatable) <==> allowed && ValidFrom(s[i + 1..], false, Repeatable(s[i])) by {
          PlainAt(s, i, i == 0, prevRepeatable);
        }
        if !allowed {
          isValid := false;
        }
        prevRepeatable := Repeatable(s[i]);
      }
      i := i + 1;
      rest := s[i..];
    }
  }

  method PlainIsAllowed(s: string, i: nat, prevRepeatable: bool) returns (allowed: bool)
    requires NulFree(s) && i < |s|
    ensures allowed <==> PlainAllowed(s[i], i == 0, i + 1 == |s|, prevRepeatable)
  {
    var ch := s[i];
    if ch == '^' && i > 0 {
      return false;
    } else if ch == '$' && At(s, i + 1) != NUL {
      return false;
    } else if IsInSet(ch, UNSUPPORTED) {
      return false;
    } else if IsRepeat(ch) && !prevRepeatable {
      return false;
    }
    return true;
  }

  ghost function RepeatOf(ch: char): (r: Repeat)
    ensures IsRepeat(ch) ==> r.Text() == [ch]
    ensures !IsRepeat(ch) ==> r.One?
  {
    if ch == '?' then Optional else if ch == '*' then Star else if ch == '+' then Plus else One
  }

  lemma NoLeadingRepeat(s: string, first: bool)
    requires ValidFrom(s, first, false)
    ensures !IsRepeat(At(s, 0))
  {
  }

  /** A valid body starts with a well-formed atom, after which a repetition may follow. */
  lemma AtomConsumed(s: string, prevRepeatable: bool) returns (n: nat)
    requires NulFree(s) && ValidFrom(s, false, prevRepeatable)
    requires s != [] && s[0] != '$' && !IsRepeat(s[0])
    ensures 0 < n <= |s| && n == if s[0] == '\\' then 2 else 1
    ensures Item(s[0] == '\\', s[n - 1], One).WellFormed()
    ensures ValidFrom(s[n..], false, true)
  {
    assert s[0] in s;
    n := if s[0] == '\\' then 2 else 1;
  }

  lemma {:induction false} HasTree(s: string, prevRepeatable: bool) returns (items: seq<Item>, eol: bool)
    requires NulFree(s) && ValidFrom(s, false, prevRepeatable) && !IsRepeat(At(s, 0))
    ensures AllWellFormed(items) && Body(items, eol) == s
    decreases |s|
  {
    if s == [] {
      return [], false;
    }
    if s[0] == '$' {
      return [], true;
    }
    var n := AtomConsumed(s, prevRepeatable);
    var item := Item(s[0] == '\\', s[n - 1], RepeatOf(At(s, n)));
    var rest := s[|item.Text()|..];
    assert s == item.Text() + rest;
    if item.repeat.One? {
      items, eol := HasTree(rest, true);
    } else {
      PlainHead(s[n], rest, false, true);
      assert s[n..] == [s[n]] + rest;
      NoLeadingRepeat(rest, false);
      items, eol := HasTree(rest, false);
    }
    items := [item] + items;
    assert items[1..] == items[1..];
  }

  lemma RepeatIsValid(repeat: Repeat, rest: string)
    requires ValidFrom(rest, false, true) && ValidFrom(rest, false, false)
    ensures ValidFrom(repeat.Text() + rest, false, true)
  {
    if repeat.One? {
      assert repeat.Text() + rest == rest;
    } else {
      PlainHead(repeat.Text()[0], rest, false, true);
    }
  }

  /** The text of an item in front of more text: its atom, its repetition, the rest. */
  lemma ItemText(item: Item, rest: string) returns (tail: string)
    ensures tail == item.repeat.Text() + rest
    ensures item.Text() + rest == (if item.escaped then ['\\', item.c] else [item.c]) + tail
  {
    tail := item.repeat.Text() + rest;
    var atom := if item.escaped then ['\\', item.c] else [item.c];
    assert item.Text() == atom + item.repeat.Text();
  }

  lemma ItemIsValid(item: Item, rest: string, first: bool, prevRepeatable: bool)
    requires item.WellFormed() && ValidFrom(rest, false, true) && ValidFrom(rest, false, false)
    ensures ValidFrom(item.Text() + rest, first, prevRepeatable)
  {
    RepeatIsValid(item.repeat, rest);
    var tail := ItemText(item, rest);
    AtomIsValid(item, tail, first, prevRepeatable);
  }

  lemma AtomIsValid(item: Item, tail: string, first: bool, prevRepeatable: bool)
    requires item.WellFormed() && ValidFrom(tail, false, true)
    ensures ValidFrom((if item.escaped then ['\\', item.c] else [item.c]) + tail, first, prevRepeatable)
  {
    if item.escaped {
      EscapeHead(item.c, tail, first, prevRepeatable);
    } else {
      PlainHead(item.c, tail, first, prevRepeatable);
    }
  }

  lemma {:induction false} BodyIsValid(items: seq<Item>, eol: bool, first: bool, prevRepeatable: bool)
    requires AllWellFormed(items)
    ensures ValidFrom(Body(items, eol), first, prevRepeatable)
    decreases |items|
  {
    if items == [] {
      PlainHead('$', [], first, prevRepeatable);
    } else {
      BodyIsValid(items[1..], eol, false, true);
      BodyIsValid(items[1..], eol, false, false);
      ItemIsValid(items[0], Body(items[1..], eol), first, prevRepeatable);
    }
  }

  lemma BodyHead(items: seq<Item>, eol: bool)
    requires AllWellFormed(items)
    ensures var ch := At(Body(items, eol), 0);
            && !IsRepeat(ch) && ch != '^'
            && (items == [] <==> ch == NUL || ch == '$')
            && (items != [] ==> ch == if items[0].escaped then '\\' else items[0].c)
  {
    if items != [] {
      assert items[0].WellFormed();
      assert items[0].Text()[0] == Body(items, eol)[0];
    }
  }

  /** Validity is having a tree. */
  lemma ValidMeansTree(s: string)
    requires NulFree(s)
    ensures ValidFrom(s, true, false) <==> IsTextOfTree(s)
  {
    forall r: Regex | r.WellFormed() && r.Text() == s
      ensures ValidFrom(s, true, false)
    {
      TextIsValid(r);
    }
    if ValidFrom(s, true, false) {
      var bol := s != [] && s[0] == '^';
      var body := if bol then s[1..] else s;
      if bol {
        PlainHead('^', body, true, false);
        assert s == ['^'] + body;
      } else {
        NotFirst(s, false);
      }
      NoLeadingRepeat(body, false);
      var items, eol := HasTree(body, false);
      assert Regex(bol, items, eol).Text() == s;
    }
  }

  lemma TextIsValid(r: Regex)
    requires r.WellFormed()
    ensures ValidFrom(r.Text(), true, false)
  {
    BodyIsValid(r.items, r.eol, true, false);
    BodyIsValid(r.items, r.eol, false, false);
    if r.bol {
      PlainHead('^', Body(r.items, r.eol), true, false);
    } else {
      assert r.Text() == Body(r.items, r.eol);
    }
  }

  lemma NotFirst(s: string, prevRepeatable: bool)
    requires s != [] ==> s[0] != '^'
    ensures ValidFrom(s, true, prevRepeatable) <==> ValidFrom(s, false, prevRepeatable)
  {
  }

  /** The text after an item's atom tells its repetition. */
  lemma RepeatIsVisible(r: Repeat, rest: string, r': Repeat, rest': string)
    requires !IsRepeat(At(rest, 0)) && !IsRepeat(At(rest', 0))
    requires r.Text() + rest == r'.Text() + rest'
    ensures r == r' && rest == rest'
  {
    var s := r.Text() + rest;
    assert At(s, 0) == if r.One? then At(rest, 0) else r.Text()[0];
    assert At(s, 0) == if r'.One? then At(rest', 0) else r'.Text()[0];
    assert s[|r.Text()|..] == rest && s[|r'.Text()|..] == rest';
  }

  /** The text of an item in front of text that does not begin with a repetition: what
      follows the atom tells the repetition. */
  lemma ItemCons(item: Item, rest: string, b: string) returns (n: nat)
    requires !IsRepeat(At(rest, 0)) && b == item.Text() + rest
    ensures n == if item.escaped then 2 else 1
    ensures n <= |b| && b[n - 1] == item.c && b[n..] == item.repeat.Text() + rest
    ensures item.repeat.One? ==> b[n..] == rest && !IsRepeat(At(b[n..], 0))
    ensures !item.repeat.One? ==> n < |b| && IsRepeat(b[n]) && RepeatOf(b[n]) == item.repeat && b[n + 1..] == rest
  {
    var tail := ItemText(item, rest);
    n := if item.escaped then 2 else 1;
    assert b[n..] == tail;
    if item.repeat.One? {
      assert tail == rest;
    } else {
      assert tail[0] == b[n] && tail[1..] == rest;
      assert b[n + 1..] == tail[1..];
    }
  }

  /** A body starts with its first atom; what follows tells the repetition. */
  lemma BodyCons(items: seq<Item>, eol: bool) returns (n: nat)
    requires AllWellFormed(items) && items != []
    ensures n == if items[0].escaped then 2 else 1
    ensures var b := Body(items, eol);
            && n <= |b| && b[n - 1] == items[0].c
            && b[n..] == items[0].repeat.Text() + Body(items[1..], eol)
            && (items[0].repeat.One? ==> b[n..] == Body(items[1..], eol) && !IsRepeat(At(b[n..], 0)))
            && (!items[0].repeat.One? ==> n < |b| && IsRepeat(b[n]) && RepeatOf(b[n]) == items[0].repeat
                                          && b[n + 1..] == Body(items[1..], eol))
  {
    BodyHead(items[1..], eol);
    n := ItemCons(items[0], Body(items[1..], eol), Body(items, eol));
  }

  /** The tree of a valid regex is unique, so "the parsed list" is well defined. */
  lemma {:induction false} BodyIsInjective(items: seq<Item>, eol: bool, items': seq<Item>, eol': bool)
    requires AllWellFormed(items) && AllWellFormed(items')
    requires Body(items, eol) == Body(items', eol')
    ensures items == items' && eol == eol'
  {
    BodyHead(items, eol);
    BodyHead(items', eol');
    if items != [] {
      var s, item, item' := Body(items, eol), items[0], items'[0];
      var rest, rest' := Body(items[1..], eol), Body(items'[1..], eol');
      assert item.escaped == item'.escaped by { assert item.WellFormed() && item'.WellFormed(); }
      var n := BodyCons(items, eol);
      var n' := BodyCons(items', eol');
      BodyHead(items[1..], eol);
      BodyHead(items'[1..], eol');
      RepeatIsVisible(item.repeat, rest, item'.repeat, rest');
      BodyIsInjective(items[1..], eol, items'[1..], eol');
      assert items == [item] + items[1..] && items' == [item'] + items'[1..];
    }
  }

  lemma TreeIsUnique(r: Regex, r': Regex)
    requires r.WellFormed() && r'.WellFormed() && r.Text() == r'.Text()
    ensures r == r'
  {
    BodyHead(r.items, r.eol);
    BodyHead(r'.items, r'.eol);
    assert At(r.Text(), 0) == '^' <==> r.bol;
    assert At(r'.Text(), 0) == '^' <==> r'.bol;
    var n := if r.bol then 1 else 0;
    assert r.Text()[n..] == Body(r.items, r.eol) && r'.Text()[n..] == Body(r'.items, r'.eol);
    BodyIsInjective(r.items, r.eol, r'.items, r'.eol);
  }

  // ---------- Matching ----------

  /** A prefix of s, or all of it under `eol`, is in the language of the items. */
  ghost predicate HeadMatches(items: seq<Item>, eol: bool, s: string) {
    exists k :: 0 <= k <= |s| && (eol ==> k == |s|) && Denotes(items, s[..k])
  }

  /** The first n characters of s may be taken by the item. */
  ghost predicate Takes(item: Item, s: string, n: nat) {
    n <= |s| && item.repeat.Allows(n) && item.AcceptsAll(s[..n])
  }

  ghost predicate RepetitionMatches(item: Item, rest: seq<Item>, eol: bool, s: string) {
    exists n: nat :: Takes(item, s, n) && HeadMatches(rest, eol, s[n..])
  }

  /** All counts up to n have been tried. */
  ghost predicate Tried(item: Item, rest: seq<Item>, eol: bool, s: string, n: nat) {
    forall k: nat :: k < n && Takes(item, s, k) ==> !HeadMatches(rest, eol, s[k..])
  }

  lemma TriedMore(item: Item, rest: seq<Item>, eol: bool, s: string, n: nat)
    requires Tried(item, rest, eol, s, n)
    requires Takes(item, s, n) ==> !HeadMatches(rest, eol, s[n..])
    ensures Tried(item, rest, eol, s, n + 1)
  {
  }

  /** The item takes no further character after n. */
  ghost predicate StopsAt(item: Item, s: string, n: nat) {
    n >= |s| || !item.Accepts(s[n])
  }

  lemma AcceptsMore(item: Item, s: string, n: nat)
    requires !StopsAt(item, s, n) && item.AcceptsAll(s[..n])
    ensures n < |s| && item.AcceptsAll(s[..n + 1])
  {
  }

  lemma NoneLeft(item: Item, rest: seq<Item>, eol: bool, s: string, n: nat)
    requires Tried(item, rest, eol, s, n + 1)
    requires StopsAt(item, s, n) || (item.repeat.Optional? && n >= 1)
    ensures !RepetitionMatches(item, rest, eol, s)
  {
    forall k: nat | Takes(item, s, k)
      ensures k <= n
    {
    }
  }

  /** The test of one character of the string against an atom; the terminator fails it. */
  method AtomStops(escaped: bool, c: char, str: string, j: nat, n: nat, ghost item: Item) returns (stops: bool)
    requires NulFree(str) && j + n <= |str| && item.escaped == escaped && item.c == c
    ensures stops <==> StopsAt(item, str[j..], n)
  {
    return At(str, j + n) == NUL || !AtomMatchesChar(escaped, c, str[j + n]);
  }

  /** How a match splits into what the first item takes and the rest. */
  lemma HeadUnfold(items: seq<Item>, eol: bool, s: string)
    requires items != []
    ensures HeadMatches(items, eol, s) <==> RepetitionMatches(items[0], items[1..], eol, s)
  {
    if HeadMatches(items, eol, s) {
      var k :| 0 <= k <= |s| && (eol ==> k == |s|) && Denotes(items, s[..k]);
      var n: nat :| n <= k && items[0].Denotes(s[..k][..n]) && Denotes(items[1..], s[..k][n..]);
      assert s[..k][..n] == s[..n] && s[..k][n..] == s[n..][..k - n];
      assert Takes(items[0], s, n) && HeadMatches(items[1..], eol, s[n..]);
    }
    forall n: nat | Takes(items[0], s, n) && HeadMatches(items[1..], eol, s[n..])
      ensures HeadMatches(items, eol, s)
    {
      var m :| 0 <= m <= |s[n..]| && (eol ==> m == |s[n..]|) && Denotes(items[1..], s[n..][..m]);
      assert s[..n + m][..n] == s[..n] && s[..n + m][n..] == s[n..][..m];
      assert Denotes(items, s[..n + m]);
    }
  }

  lemma HeadOfNothing(eol: bool, s: string)
    ensures HeadMatches([], eol, s) <==> (eol ==> s == [])
  {
    assert s[..0] == [];
    if HeadMatches([], eol, s) && eol {
      assert s[..|s|] == s;
    }
  }

  const SIZE_MAX := 0xFFFF_FFFF_FFFF_FFFF

  /** The regex text from position i on is that of the given items. */
  ghost predicate Reads(regex: string, i: nat, items: seq<Item>, eol: bool) {
    i <= |regex| && regex[i..] == Body(items, eol) && AllWellFormed(items)
  }

  method MatchRepetitionAndRegexAtHead(escaped: bool, c: char, repeat: char, regex: string, i: nat, str: string, j: nat,
                                       ghost items: seq<Item>, ghost eol: bool)
    returns (matches: bool)
    requires items != [] && items[0] == Item(escaped, c, RepeatOf(repeat)) && IsRepeat(repeat)
    requires Reads(regex, i, items[1..], eol) && AllWellFormed(items)
    requires NulFree(regex) && NulFree(str) && j <= |str| < SIZE_MAX
    ensures matches <==> HeadMatches(items, eol, str[j..])
    decreases |regex| - i, 1
  {
    ghost var s, item, rest := str[j..], items[0], items[1..];
    HeadUnfold(items, eol, s);
    var minCount := if repeat == '+' then 1 else 0;
    var maxCount := if repeat == '?' then 1 else SIZE_MAX - 1;
    var n := 0;
    while n <= maxCount
      invariant n <= |s| && item.AcceptsAll(s[..n])
      invariant Tried(item, rest, eol, s, n)
      decreases |s| - n
    {
      if n >= minCount {
        var tail := MatchRegexAtHead(regex, i, str, j + n, rest, eol);
        assert s[n..] == str[j + n..];
        if tail {
          assert Takes(item, s, n);
          return true;
        }
      }
      TriedMore(item, rest, eol, s, n);
      var stops := AtomStops(escaped, c, str, j, n, item);
      if stops {
        NoneLeft(item, rest, eol, s, n);
        return false;
      }
      AcceptsMore(item, s, n);
      n := n + 1;
    }
    NoneLeft(item, rest, eol, s, n - 1);
    return false;
  }

  lemma ReadsHead(regex: string, i: nat, items: seq<Item>, eol: bool)
    requires Reads(regex, i, items, eol) && NulFree(regex)
    ensures if items == [] then At(regex, i) == (if eol then '$' else NUL)
            else At(regex, i) != NUL && At(regex, i) != '$' && (At(regex, i) == '\\' <==> items[0].escaped)
  {
    BodyHead(items, eol);
    assert At(regex, i) == At(regex[i..], 0);
  }

  method MatchRegexAtHead(regex: string, i: nat, str: string, j: nat, ghost items: seq<Item>, ghost eol: bool)
    returns (matches: bool)
    requires Reads(regex, i, items, eol)
    requires NulFree(regex) && NulFree(str) && j <= |str| < SIZE_MAX
    ensures matches <==> HeadMatches(items, eol, str[j..])
    decreases |regex| - i, 0
  {
    ReadsHead(regex, i, items, eol);
    if At(regex, i) == NUL {
      HeadOfNothing(eol, str[j..]);
      return true;
    }
    if regex[i] == '$' {
      HeadOfNothing(eol, str[j..]);
      return At(str, j) == NUL;
    }
    var escaped := regex[i] == '\\';
    var a := if escaped then i + 1 else i;
    AtomText(regex, i, items, eol);
    if IsRepeat(At(regex, a + 1)) {
      matches := MatchRepetitionAndRegexAtHead(escaped, regex[a], regex[a + 1], regex, a + 2, str, j, items, eol);
    } else {
      SingleUnfold(items, eol, str[j..]);
      var stops := AtomStops(escaped, regex[a], str, j, 0, items[0]);
      if stops {
        return false;
      }
      assert str[j..][1..] == str[j + 1..];
      matches := MatchRegexAtHead(regex, a + 1, str, j + 1, items[1..], eol);
    }
  }

  lemma SingleUnfold(items: seq<Item>, eol: bool, s: string)
    requires items != [] && items[0].repeat.One?
    ensures HeadMatches(items, eol, s) <==>
            !StopsAt(items[0], s, 0) && HeadMatches(items[1..], eol, s[1..])
  {
    HeadUnfold(items, eol, s);
    if !StopsAt(items[0], s, 0) {
      assert Takes(items[0], s, 1);
    }
    if RepetitionMatches(items[0], items[1..], eol, s) {
      var n: nat :| Takes(items[0], s, n) && HeadMatches(items[1..], eol, s[n..]);
      assert s[..n][0] == s[0];
    }
  }

  /** What the characters at the head of the text say about the first item. */
  lemma AtomText(regex: string, i: nat, items: seq<Item>, eol: bool)
    requires Reads(regex, i, items, eol) && items != []
    ensures var a := if items[0].escaped then i + 1 else i;
            && a < |regex| && regex[a] == items[0].c
            && items[0].repeat == RepeatOf(At(regex, a + 1))
            && (IsRepeat(At(regex, a + 1)) <==> !items[0].repeat.One?)
            && Reads(regex, if items[0].repeat.One? then a + 1 else a + 2, items[1..], eol)
  {
    var n := BodyCons(items, eol);
    var b := regex[i..];
    assert regex[i + n - 1] == b[n - 1];
    assert regex[i + n..] == b[n..];
    assert At(regex, i + n) == At(b[n..], 0);
    if !items[0].repeat.One? {
      assert regex[i + n + 1..] == b[n + 1..];
    }
  }

  lemma HeadIsSubstring(r: Regex, s: string, i: nat)
    requires i <= |s|
    ensures HeadMatches(r.items, r.eol, s[i..]) <==>
            exists j :: i <= j <= |s| && (r.eol ==> j == |s|) && Denotes(r.items, s[i..j])
  {
    if HeadMatches(r.items, r.eol, s[i..]) {
      var k :| 0 <= k <= |s[i..]| && (r.eol ==> k == |s[i..]|) && Denotes(r.items, s[i..][..k]);
      assert s[i..][..k] == s[i..i + k];
    }
    forall j | i <= j <= |s| && (r.eol ==> j == |s|) && Denotes(r.items, s[i..j])
      ensures HeadMatches(r.items, r.eol, s[i..])
    {
      assert s[i..][..j - i] == s[i..j];
    }
  }

  method MatchRegexAnywhere(regex: Option<string>, str: Option<string>, ghost r: Regex) returns (matches: bool)
    requires regex.Some? ==> NulFree(regex.value) && r.WellFormed() && r.Text() == regex.value
    requires str.Some? ==> NulFree(str.value) && |str.value| < SIZE_MAX
    ensures matches <==> regex.Some? && str.Some? && r.MatchesIn(str.value)
  {
    if regex.None? || str.None? {
      return false;
    }
    var text, s := regex.value, str.value;
    BodyHead(r.items, r.eol);
    MatchesSomewhere(r, s);
    if At(text, 0) == '^' {
      assert text[1..] == Body(r.items, r.eol);
      matches := MatchRegexAtHead(text, 1, s, 0, r.items, r.eol);
      return;
    }
    assert text == text[0..] == Body(r.items, r.eol);
    var i := 0;
    while true
      invariant i <= |s| && forall k :: 0 <= k < i ==> !HeadMatches(r.items, r.eol, s[k..])
      decreases |s| - i
    {
      matches := MatchRegexAtHead(text, 0, s, i, r.items, r.eol);
      if matches {
        return;
      }
      if At(s, i) == NUL {
        return false;
      }
      i := i + 1;
    }
  }

  /** Matching somewhere is matching at the head of some rest, or of the whole string if anchored. */
  lemma MatchesSomewhere(r: Regex, s: string)
    ensures r.bol ==> (r.MatchesIn(s) <==> HeadMatches(r.items, r.eol, s[0..]))
    ensures !r.bol ==> (r.MatchesIn(s) <==> exists k :: 0 <= k <= |s| && HeadMatches(r.items, r.eol, s[k..]))
  {
    HeadIsSubstring(r, s, 0);
    if i, j :| 0 <= i <= j <= |s| && (r.bol ==> i == 0) && (r.eol ==> j == |s|) && Denotes(r.items, s[i..j]) {
      HeadIsSubstring(r, s, i);
      assert HeadMatches(r.items, r.eol, s[i..]);
    }
    if k :| 0 <= k <= |s| && HeadMatches(r.items, r.eol, s[k..]) && !r.bol {
      HeadIsSubstring(r, s, k);
    }
  }

  // ---------- The RE class ----------

  /** The pattern ends in an escaped dollar sign, which Init mistakes for an anchor. */
  predicate EndsInEscapedDollar(r: Regex) {
    r.items != [] && !r.eol && r.items[|r.items| - 1] == Item(true, '$', One)
  }

  /** The regex whose text Init stores as full_pattern_. */
  function FullRegex(r: Regex): Regex {
    Regex(true, r.items, r.eol || !EndsInEscapedDollar(r))
  }

  lemma {:induction false} BodyEnd(items: seq<Item>, eol: bool)
    requires AllWellFormed(items)
    ensures var b := Body(items, eol);
            b != [] && b[|b| - 1] == '$' <==> eol || (items != [] && items[|items| - 1] == Item(true, '$', One))
    ensures items != [] ==> Body(items, eol) != []
  {
    if items != [] {
      var b, text, rest := Body(items, eol), items[0].Text(), Body(items[1..], eol);
      BodyEnd(items[1..], eol);
      ItemEnd(items[0]);
      assert b == text + rest;
      assert b[|b| - 1] == if rest == [] then text[|text| - 1] else rest[|rest| - 1];
      if items[1..] != [] {
        assert items[1..][|items| - 2] == items[|items| - 1];
      }
    }
  }

  lemma ItemEnd(item: Item)
    requires item.WellFormed()
    ensures item.Text() != [] && (item.Text()[|item.Text()| - 1] == '$' <==> item == Item(true, '$', One))
  {
  }

  lemma BodyAppend(items: seq<Item>)
    ensures Body(items, true) == Body(items, false) + "$"
  {
  }

  predicate StartsAnchored(p: string) {
    p != [] && p[0] == '^'
  }

  predicate EndsInDollar(p: string) {
    p != [] && p[|p| - 1] == '$'
  }

  function FullPattern(p: string): string {
    (if StartsAnchored(p) then p else "^" + p) + (if EndsInDollar(p) then "" else "$")
  }

  lemma AnchorsVisible(r: Regex)
    requires r.WellFormed()
    ensures StartsAnchored(r.Text()) <==> r.bol
    ensures EndsInDollar(r.Text()) <==> r.eol || EndsInEscapedDollar(r)
  {
    BodyHead(r.items, r.eol);
    BodyEnd(r.items, r.eol);
    assert EndsInDollar(r.Text()) <==> EndsInDollar(Body(r.items, r.eol));
  }

  lemma FullText(r: Regex)
    requires r.WellFormed()
    ensures FullRegex(r).Text() == FullPattern(r.Text())
  {
    AnchorsVisible(r);
    var b := Body(r.items, r.eol);
    var p := if StartsAnchored(r.Text()) then r.Text() else "^" + r.Text();
    assert p == "^" + b;
    if EndsInDollar(r.Text()) {
      assert FullRegex(r) == Regex(true, r.items, r.eol);
      assert p + "" == p;
    } else {
      BodyAppend(r.items);
      assert FullRegex(r) == Regex(true, r.items, true);
      assert "^" + (b + "$") == p + "$";
    }
  }

  lemma FullPatternNulFree(p: string)
    requires NulFree(p)
    ensures NulFree(FullPattern(p))
  {
  }

  method BuildFullPattern(pattern: string) returns (full: string)
    ensures full == FullPattern(pattern)
  {
    full := "";
    if !StartsAnchored(pattern) {
      full := full + "^";
    }
    full := full + pattern;
    if !EndsInDollar(pattern) {
      full := full + "$";
    }
  }

  class RE {
    var pattern: string
    var fullPattern: string
    var isValid: bool
    ghost var Tree: Regex

    ghost predicate Valid()
      reads this
    {
      isValid ==>
        && Tree.WellFormed() && NulFree(pattern)
        && pattern == Tree.Text() && fullPattern == FullPattern(pattern)
    }

    constructor (regex: Option<string>)
      requires regex.Some? ==> NulFree(regex.value)
      ensures Valid()
      ensures isValid <==> regex.Some? && IsTextOfTree(regex.value)
      ensures isValid ==> Tree.Text() == regex.value
    {
      var text := if regex.Some? then regex.value else "";
      var valid := ValidateRegex(regex);
      var full := "";
      ghost var tree := Regex(false, [], false);
      if valid {
        tree :| tree.WellFormed() && tree.Text() == text;
        full := BuildFullPattern(text);
      }
      pattern := text;
      fullPattern := full;
      isValid := valid;
      Tree := tree;
    }

    method PartialMatch(str: Option<string>) returns (matches: bool)
      requires Valid() && (str.Some? ==> NulFree(str.value) && |str.value| < SIZE_MAX)
      ensures matches <==> isValid && str.Some? && Tree.MatchesIn(str.value)
    {
      matches := isValid;
      if matches {
        matches := MatchRegexAnywhere(Some(pattern), str, Tree);
      }
    }

    /** The whole string must be in the language, unless the pattern ends in an escaped
        dollar sign: then a prefix is enough. */
    method FullMatch(str: Option<string>) returns (matches: bool)
      requires Valid() && (str.Some? ==> NulFree(str.value) && |str.value| < SIZE_MAX)
      ensures matches <==> isValid && str.Some? && FullRegex(Tree).MatchesIn(str.value)
      ensures isValid && !EndsInEscapedDollar(Tree) && str.Some? ==>
                (matches <==> Denotes(Tree.items, str.value))
      ensures isValid && EndsInEscapedDollar(Tree) && str.Some? ==>
                (matches <==> exists j :: 0 <= j <= |str.value| && Denotes(Tree.items, str.value[..j]))
    {
      matches := isValid;
      if matches {
        FullText(Tree);
        FullPatternNulFree(pattern);
        matches := MatchRegexAnywhere(Some(fullPattern), str, FullRegex(Tree));
        if str.Some? { AnchoredMeaning(Tree, str.value); }
      }
    }
  }

  // ---------- When FullMatch is anchored at the end ----------

  function Sample(item: Item): char {
    if item.escaped then
      match item.c
      case 'd' => '0' case 'D' => 'a' case 'f' => '\U{0C}' case 'n' => '\n' case 'r' => '\r'
      case 's' => ' ' case 'S' => 'a' case 't' => '\t' case 'v' => '\U{0B}'
      case 'w' => 'a' case 'W' => ' '
      case _ => item.c
    else item.c
  }

  lemma SampleAccepted(item: Item)
    requires item.WellFormed()
    ensures item.Accepts(Sample(item)) && item.Denotes([Sample(item)]) && Sample(item) != NUL
  {
  }

  /** No well-formed list of items has an empty language. */
  lemma {:induction false} LanguageInhabited(items: seq<Item>) returns (s: string)
    requires AllWellFormed(items)
    ensures Denotes(items, s) && NulFree(s)
  {
    s := [];
    if items != [] {
      var rest := LanguageInhabited(items[1..]);
      SampleAccepted(items[0]);
      s := [Sample(items[0])] + rest;
      assert s[..1] == [Sample(items[0])] && s[1..] == rest;
    }
  }

  /** Anchored at the beginning, and at the end unless an escaped dollar sign stands there. */
  lemma AnchoredMeaning(r: Regex, s: string)
    ensures !EndsInEscapedDollar(r) ==> (FullRegex(r).MatchesIn(s) <==> Denotes(r.items, s))
    ensures EndsInEscapedDollar(r) ==>
              (FullRegex(r).MatchesIn(s) <==> exists j :: 0 <= j <= |s| && Denotes(r.items, s[..j]))
  {
    assert s[0..|s|] == s;
    assert forall j :: 0 <= j <= |s| ==> s[0..j] == s[..j];
    if j :| EndsInEscapedDollar(r) && 0 <= j <= |s| && Denotes(r.items, s[..j]) {
      assert Denotes(r.items, s[0..j]);
    }
  }

  lemma {:induction false} LastItemDecidesEnd(items: seq<Item>, s: string)
    requires items != [] && items[|items| - 1] == Item(true, '$', One) && Denotes(items, s)
    ensures s != [] && s[|s| - 1] == '$'
  {
    var k :| 0 <= k <= |s| && items[0].Denotes(s[..k]) && Denotes(items[1..], s[k..]);
    if |items| == 1 {
      assert s[k..] == [];
      assert s[..k] == s;
    } else {
      LastItemDecidesEnd(items[1..], s[k..]);
    }
  }

  /** FullMatch means membership of the whole string, for all C strings, exactly when the
      pattern does not end in an escaped dollar sign. */
  lemma FullMatchAnchored(r: Regex)
    requires r.WellFormed()
    ensures (forall s :: NulFree(s) ==> (FullRegex(r).MatchesIn(s) <==> Denotes(r.items, s))) <==> !EndsInEscapedDollar(r)
  {
    if EndsInEscapedDollar(r) {
      var w := LanguageInhabited(r.items);
      var longer := w + "x";
      assert longer[0..|w|] == w;
      assert FullRegex(r).MatchesIn(longer);
      if Denotes(r.items, longer) {
        LastItemDecidesEnd(r.items, longer);
      }
      assert NulFree(longer) && !(FullRegex(r).MatchesIn(longer) <==> Denotes(r.items, longer));
    } else {
      forall s
        ensures FullRegex(r).MatchesIn(s) <==> Denotes(r.items, s)
      {
        assert s[0..|s|] == s;
      }
    }
  }
}
