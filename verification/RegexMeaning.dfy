/** What simple regular expressions match and which are valid, stated by character codes. */
module RegexMeaning {
  import opened Basics
  import opened SimpleRegex

  // ---------- What patterns mean, character by character ----------

  lemma OneAtom(item: Item, s: string)
    requires item.repeat.One?
    ensures Denotes([item], s) <==> |s| == 1 && item.Accepts(s[0])
  {
    OneItem(item, s);
  }

  lemma OneItem(item: Item, s: string)
    ensures Denotes([item], s) <==> item.Denotes(s)
  {
    var rest := [item][1..];
    assert forall k :: 0 <= k <= |s| ==> (Denotes(rest, s[k..]) <==> k == |s|);
    assert s[..|s|] == s;
  }

  ghost predicate IsDigitCode(n: int) {
    48 <= n <= 57
  }

  ghost predicate IsSpaceCode(n: int) {
    9 <= n <= 13 || n == 32
  }

  ghost predicate IsWordCode(n: int) {
    48 <= n <= 57 || 65 <= n <= 90 || n == 95 || 97 <= n <= 122
  }

  lemma ClassCodes(ch: char)
    ensures IsAsciiDigit(ch) <==> IsDigitCode(ch as int)
    ensures IsAsciiWhiteSpace(ch) <==> IsSpaceCode(ch as int)
    ensures IsAsciiWordChar(ch) <==> IsWordCode(ch as int)
  {
  }

  /** The classes: digits, white space and word characters, and their complements. */
  lemma ClassMeaning(s: string)
    ensures Denotes([Item(true, 'd', One)], s) <==> |s| == 1 && IsDigitCode(s[0] as int)
    ensures Denotes([Item(true, 'D', One)], s) <==> |s| == 1 && !IsDigitCode(s[0] as int)
    ensures Denotes([Item(true, 's', One)], s) <==> |s| == 1 && IsSpaceCode(s[0] as int)
    ensures Denotes([Item(true, 'S', One)], s) <==> |s| == 1 && !IsSpaceCode(s[0] as int)
    ensures Denotes([Item(true, 'w', One)], s) <==> |s| == 1 && IsWordCode(s[0] as int)
    ensures Denotes([Item(true, 'W', One)], s) <==> |s| == 1 && !IsWordCode(s[0] as int)
  {
    DigitMeaning(s);
    SpaceMeaning(s);
    WordMeaning(s);
  }

  lemma DigitMeaning(s: string)
    ensures Denotes([Item(true, 'd', One)], s) <==> |s| == 1 && IsDigitCode(s[0] as int)
    ensures Denotes([Item(true, 'D', One)], s) <==> |s| == 1 && !IsDigitCode(s[0] as int)
  {
    OneAtom(Item(true, 'd', One), s);
    OneAtom(Item(true, 'D', One), s);
    if |s| == 1 { ClassCodes(s[0]); }
  }

  lemma SpaceMeaning(s: string)
    ensures Denotes([Item(true, 's', One)], s) <==> |s| == 1 && IsSpaceCode(s[0] as int)
    ensures Denotes([Item(true, 'S', One)], s) <==> |s| == 1 && !IsSpaceCode(s[0] as int)
  {
    OneAtom(Item(true, 's', One), s);
    OneAtom(Item(true, 'S', One), s);
    if |s| == 1 { ClassCodes(s[0]); }
  }

  lemma WordMeaning(s: string)
    ensures Denotes([Item(true, 'w', One)], s) <==> |s| == 1 && IsWordCode(s[0] as int)
    ensures Denotes([Item(true, 'W', One)], s) <==> |s| == 1 && !IsWordCode(s[0] as int)
  {
    OneAtom(Item(true, 'w', One), s);
    OneAtom(Item(true, 'W', One), s);
    if |s| == 1 { ClassCodes(s[0]); }
  }

  /** The control escapes stand for one character each. */
  lemma ControlMeaning(s: string)
    ensures Denotes([Item(true, 't', One)], s) <==> |s| == 1 && s[0] as int == 9
    ensures Denotes([Item(true, 'n', One)], s) <==> |s| == 1 && s[0] as int == 10
    ensures Denotes([Item(true, 'v', One)], s) <==> |s| == 1 && s[0] as int == 11
    ensures Denotes([Item(true, 'f', One)], s) <==> |s| == 1 && s[0] as int == 12
    ensures Denotes([Item(true, 'r', One)], s) <==> |s| == 1 && s[0] as int == 13
  {
    OneAtom(Item(true, 't', One), s);
    OneAtom(Item(true, 'n', One), s);
    OneAtom(Item(true, 'v', One), s);
    OneAtom(Item(true, 'f', One), s);
    OneAtom(Item(true, 'r', One), s);
  }

  /** A dot is any character but a newline; every other plain character and every escaped
      punctuation mark is itself. */
  lemma LiteralMeaning(c: char, s: string)
    ensures Denotes([Item(false, '.', One)], s) <==> |s| == 1 && s[0] as int != 10
    ensures c != '.' ==> (Denotes([Item(false, c, One)], s) <==> s == [c])
    ensures IsPunctuation(c as int) ==> (Denotes([Item(true, c, One)], s) <==> s == [c])
  {
    OneAtom(Item(false, '.', One), s);
    OneAtom(Item(false, c, One), s);
    OneAtom(Item(true, c, One), s);
    if |s| == 1 { LiteralAtom(c, s[0]); }
  }

  lemma LiteralAtom(c: char, ch: char)
    ensures IsPunctuation(c as int) ==> (Item(true, c, One).Accepts(ch) <==> ch == c)
  {
    PunctuationIsPunct(c);
  }

  ghost predicate IsPunctuation(n: int) {
    33 <= n <= 47 || 58 <= n <= 64 || 91 <= n <= 96 || 123 <= n <= 126
  }

  lemma PunctuationIsPunct(c: char)
    ensures IsAsciiPunct(c) <==> IsPunctuation(c as int)
  {
  }

  /** A repeated item matches strings each of whose characters its atom matches alone. */
  lemma RepetitionMeaning(escaped: bool, c: char, s: string)
    ensures var atom := [Item(escaped, c, One)];
            && (Denotes([Item(escaped, c, Star)], s) <==> forall i :: 0 <= i < |s| ==> Denotes(atom, [s[i]]))
            && (Denotes([Item(escaped, c, Plus)], s) <==> |s| >= 1 && forall i :: 0 <= i < |s| ==> Denotes(atom, [s[i]]))
            && (Denotes([Item(escaped, c, Optional)], s) <==> |s| <= 1 && forall i :: 0 <= i < |s| ==> Denotes(atom, [s[i]]))
  {
    OneItem(Item(escaped, c, Optional), s);
    OneItem(Item(escaped, c, Star), s);
    OneItem(Item(escaped, c, Plus), s);
    forall i | 0 <= i < |s|
      ensures Denotes([Item(escaped, c, One)], [s[i]]) <==> Item(escaped, c, Star).Accepts(s[i])
    {
      OneAtom(Item(escaped, c, One), [s[i]]);
    }
  }

  /** A sequence of items matches a string that splits into a match of the first one and a match of
      the others; the empty sequence matches the empty string alone. */
  lemma SequenceMeaning(item: Item, rest: seq<Item>, s: string)
    ensures Denotes([item] + rest, s) <==> exists x, y :: s == x + y && Denotes([item], x) && Denotes(rest, y)
    ensures Denotes([], s) <==> s == ""
  {
    if Denotes([item] + rest, s) {
      var x, y := FirstTakes(item, rest, s);
      OneItem(item, x);
    }
    if x, y :| s == x + y && Denotes([item], x) && Denotes(rest, y) {
      OneItem(item, x);
      FirstAdded(item, rest, x, y);
    }
  }

  lemma FirstTakes(item: Item, rest: seq<Item>, s: string) returns (x: string, y: string)
    requires Denotes([item] + rest, s)
    ensures s == x + y && item.Denotes(x) && Denotes(rest, y)
  {
    var items := [item] + rest;
    assert items[1..] == rest;
    var i :| 0 <= i <= |s| && items[0].Denotes(s[..i]) && Denotes(items[1..], s[i..]);
    x, y := s[..i], s[i..];
  }

  lemma FirstAdded(item: Item, rest: seq<Item>, x: string, y: string)
    requires item.Denotes(x) && Denotes(rest, y)
    ensures Denotes([item] + rest, x + y)
  {
    assert ([item] + rest)[1..] == rest;
    assert (x + y)[..|x|] == x && (x + y)[|x|..] == y;
  }

  /** How the items are written. */
  lemma ItemSpelling(c: char)
    ensures Item(false, c, One).Text() == [c] && Item(true, c, One).Text() == ['\\', c]
    ensures Item(false, c, Optional).Text() == [c, '?'] && Item(true, c, Optional).Text() == ['\\', c, '?']
    ensures Item(false, c, Star).Text() == [c, '*'] && Item(true, c, Star).Text() == ['\\', c, '*']
    ensures Item(false, c, Plus).Text() == [c, '+'] && Item(true, c, Plus).Text() == ['\\', c, '+']
  {
  }

  ghost function PlainItems(p: string): seq<Item> {
    seq(|p|, i requires 0 <= i < |p| => Item(false, p[i], One))
  }

  lemma {:induction false} PlainDenotes(p: string, s: string)
    requires '.' !in p
    ensures Denotes(PlainItems(p), s) <==> s == p
  {
    var items := PlainItems(p);
    if p != [] {
      assert items[1..] == PlainItems(p[1..]) && p[0] in p;
      forall k | 0 <= k <= |s|
        ensures items[0].Denotes(s[..k]) && Denotes(items[1..], s[k..]) <==> k == 1 && s[0] == p[0] && s[1..] == p[1..]
      {
        PlainDenotes(p[1..], s[k..]);
      }
      assert p == [p[0]] + p[1..];
      assert s != [] ==> s == [s[0]] + s[1..];
    }
  }

  lemma {:induction false} PlainText(p: string, eol: bool)
    ensures Body(PlainItems(p), eol) == p + if eol then "$" else ""
  {
    if p != [] {
      assert PlainItems(p)[1..] == PlainItems(p[1..]);
      PlainText(p[1..], eol);
      assert p == [p[0]] + p[1..];
    }
  }

  /** A pattern of plain characters is found where they occur, and the anchors tie the place to the
      ends of the string. */
  lemma AnchorMeaning(p: string, s: string)
    requires '.' !in p
    ensures Regex(false, PlainItems(p), false).MatchesIn(s) <==> exists i :: 0 <= i <= |s| && p <= s[i..]
    ensures Regex(true, PlainItems(p), false).MatchesIn(s) <==> p <= s
    ensures Regex(false, PlainItems(p), true).MatchesIn(s) <==> |p| <= |s| && s[|s| - |p|..] == p
    ensures Regex(true, PlainItems(p), true).MatchesIn(s) <==> s == p
  {
    var items := PlainItems(p);
    forall i, j | 0 <= i <= j <= |s|
      ensures Denotes(items, s[i..j]) <==> s[i..j] == p
    {
      PlainDenotes(p, s[i..j]);
    }
    assert s[0..] == s && s[0..|s|] == s;
    assert |p| <= |s| ==> s[|s| - |p|..|s|] == s[|s| - |p|..];
    if |p| <= |s| && s[..|p|] == p { assert s[0..|p|] == p; }
    FoundSomewhere(p, s);
  }

  lemma FoundSomewhere(p: string, s: string)
    requires '.' !in p
    ensures Regex(false, PlainItems(p), false).MatchesIn(s) <==> exists i :: 0 <= i <= |s| && p <= s[i..]
  {
    var r := Regex(false, PlainItems(p), false);
    if i, j :| 0 <= i <= j <= |s| && Denotes(r.items, s[i..j]) {
      PlainDenotes(p, s[i..j]);
      assert s[i..][..|p|] == s[i..j];
    }
    if i :| 0 <= i <= |s| && p <= s[i..] {
      assert s[i..i + |p|] == s[i..][..|p|];
      PlainDenotes(p, s[i..i + |p|]);
      assert Denotes(r.items, s[i..i + |p|]);
    }
  }

  /** Four patterns of plain characters, with and without anchors, as they are written. */
  lemma AnchorSpelling(p: string)
    ensures Regex(false, PlainItems(p), false).Text() == p
    ensures Regex(true, PlainItems(p), false).Text() == "^" + p
    ensures Regex(false, PlainItems(p), true).Text() == p + "$"
    ensures Regex(true, PlainItems(p), true).Text() == "^" + p + "$"
  {
    PlainText(p, false);
    PlainText(p, true);
    assert "" + p == p && p + "" == p && "^" + (p + "$") == "^" + p + "$";
  }

  // ---------- Which patterns are valid, character by character ----------

  /** The characters that may follow a backslash. */
  ghost predicate IsEscapable(n: int) {
    IsPunctuation(n) || n in {68, 83, 87, 100, 102, 110, 114, 115, 116, 118, 119}
  }

  lemma EscapesAreValid(c: char)
    ensures IsValidEscape(c) <==> IsEscapable(c as int)
  {
    PunctuationIsPunct(c);
  }

  /** The place of a character of a text without escapes. */
  ghost predicate PlacedWell(s: string, i: nat)
    requires i < |s|
  {
    && s[i] !in "()[]{}|"
    && (s[i] == '^' ==> i == 0)
    && (s[i] == '$' ==> i == |s| - 1)
    && (s[i] in "?*+" ==> i > 0 && s[i - 1] !in "^$?*+")
  }

  lemma SetsAreStrings(ch: char)
    requires ch != NUL
    ensures (IsInSet(ch, UNSUPPORTED) <==> ch in "()[]{}|") && (IsRepeat(ch) <==> ch in "?*+")
    ensures Repeatable(ch) <==> ch !in "^$?*+"
  {
  }

  lemma {:induction false} PlacedFrom(s: string, i: nat)
    requires NulFree(s) && '\\' !in s && i <= |s|
    ensures ValidFrom(s[i..], i == 0, i > 0 && Repeatable(s[i - 1])) <==> forall k :: i <= k < |s| ==> PlacedWell(s, k)
    decreases |s| - i
  {
    if i < |s| {
      assert s[i] in s;
      PlacedFrom(s, i + 1);
      PlainAt(s, i, i == 0, i > 0 && Repeatable(s[i - 1]));
      SetsAreStrings(s[i]);
      if i > 0 {
        assert s[i - 1] in s;
        SetsAreStrings(s[i - 1]);
      }
      assert PlacedWell(s, i) <==> PlainAllowed(s[i], i == 0, i + 1 == |s|, i > 0 && Repeatable(s[i - 1]));
      assert (forall k :: i <= k < |s| ==> PlacedWell(s, k)) <==>
             PlacedWell(s, i) && forall k :: i + 1 <= k < |s| ==> PlacedWell(s, k);
    }
  }

  /** A text without escapes is a valid pattern exactly if brackets, braces and bars are absent, the
      anchors are at the ends, and each repetition follows something to repeat. */
  lemma ValidWithoutEscapes(s: string)
    requires NulFree(s) && '\\' !in s
    ensures IsTextOfTree(s) <==> forall i :: 0 <= i < |s| ==> PlacedWell(s, i)
  {
    ValidMeansTree(s);
    PlacedFrom(s, 0);
    assert s[0..] == s;
  }

  /** For the rest of a pattern an escape counts like a letter. */
  lemma {:induction false} EscapeLikeLetter(a: string, c: char, b: string, first: bool, prevRepeatable: bool)
    requires '\\' !in a
    ensures ValidFrom(a + (['\\', c] + b), first, prevRepeatable) <==>
            IsEscapable(c as int) && ValidFrom(a + (['x'] + b), first, prevRepeatable)
    decreases |a|
  {
    if a == [] {
      EscapesAreValid(c);
      EscapeHead(c, b, first, prevRepeatable);
      LetterHead(b, first, prevRepeatable);
      assert a + (['\\', c] + b) == ['\\', c] + b && a + (['x'] + b) == ['x'] + b;
    } else {
      assert a[0] in a;
      EscapeLikeLetter(a[1..], c, b, false, Repeatable(a[0]));
      MoveHead(a, ['\\', c] + b, first, prevRepeatable);
      MoveHead(a, ['x'] + b, first, prevRepeatable);
    }
  }

  lemma LetterHead(b: string, first: bool, prevRepeatable: bool)
    ensures ValidFrom(['x'] + b, first, prevRepeatable) <==> ValidFrom(b, false, true)
  {
    SetsAreStrings('x');
    PlainHead('x', b, first, prevRepeatable);
  }

  lemma MoveHead(a: string, tail: string, first: bool, prevRepeatable: bool)
    requires a != [] && a[0] != '\\' && tail != []
    ensures ValidFrom(a + tail, first, prevRepeatable) <==>
            PlainAllowed(a[0], first, false, prevRepeatable) && ValidFrom(a[1..] + tail, false, Repeatable(a[0]))
  {
    assert a + tail == [a[0]] + (a[1..] + tail);
    PlainHead(a[0], a[1..] + tail, first, prevRepeatable);
  }

  /** A pattern with an escape is valid exactly if the escape is and the pattern with a letter in
      its place is. */
  lemma ValidWithEscape(a: string, c: char, b: string)
    requires NulFree(a) && NulFree(b) && c != NUL && '\\' !in a
    ensures IsTextOfTree(a + ['\\', c] + b) <==> IsEscapable(c as int) && IsTextOfTree(a + ['x'] + b)
    ensures !IsTextOfTree(a + ['\\'])
  {
    ValidMeansTree(a + ['\\', c] + b);
    ValidMeansTree(a + ['x'] + b);
    ValidMeansTree(a + ['\\']);
    EscapeLikeLetter(a, c, b, true, false);
    assert a + (['\\', c] + b) == a + ['\\', c] + b && a + (['x'] + b) == a + ['x'] + b;
    LoneBackslash(a, true, false);
  }

  lemma {:induction false} LoneBackslash(a: string, first: bool, prevRepeatable: bool)
    requires '\\' !in a
    ensures !ValidFrom(a + ['\\'], first, prevRepeatable)
    decreases |a|
  {
    if a != [] {
      assert a[0] in a;
      LoneBackslash(a[1..], false, Repeatable(a[0]));
      assert a + ['\\'] == [a[0]] + (a[1..] + ['\\']);
      PlainHead(a[0], a[1..] + ['\\'], first, prevRepeatable);
    }
  }
}
