/** Printing byte strings as C++ string literals, and lexing them back (section 5.13.3 and
    5.13.5 of ISO C++17). */
module StringLiteral {
  import opened Basics

  // ---------- Characters ----------

  predicate IsPrintableAscii(c: Byte) {
    0x20 <= c <= 0x7E
  }

  predicate IsXDigit(c: int) {
    0x30 <= c <= 0x39 || 0x41 <= c <= 0x46 || 0x61 <= c <= 0x66
  }

  predicate IsOctal(c: int) {
    0x30 <= c <= 0x37
  }

  function HexValue(c: char): nat
    requires IsXDigit(c as int)
  {
    if c <= '9' then (c - '0') as nat else if c <= 'F' then (c - 'A') as nat + 10 else (c - 'a') as nat + 10
  }

  // ---------- The printer ----------

  datatype CharFormat = AsIs | HexEscape | SpecialEscape

  function UpperHexDigit(d: nat): char
    requires d < 16
  {
    if d < 10 then '0' + d as char else 'A' + (d - 10) as char
  }

  /** The digits std::hex and std::uppercase produce for one byte. */
  function HexText(c: Byte): string {
    if c < 16 then [UpperHexDigit(c)] else [UpperHexDigit(c / 16), UpperHexDigit(c % 16)]
  }

  /** As in a character literal: of the two quotes only the single one needs an escape. */
  method PrintAsCharLiteralTo(c: Byte, os: string) returns (out: string, format: CharFormat)
    ensures c != 0x27 && c != 0x22 ==> out == os + CharText(c) && format == FormatOf(c)
    ensures c == 0x27 ==> out == os + "\\'" && format == SpecialEscape
    ensures c == 0x22 ==> out == os + "\"" && format == AsIs
  {
    match c {
      case 0x00 => out := os + "\\0";
      case 0x27 => out := os + "\\'";
      case 0x5C => out := os + "\\\\";
      case 0x07 => out := os + "\\a";
      case 0x08 => out := os + "\\b";
      case 0x0C => out := os + "\\f";
      case 0x0A => out := os + "\\n";
      case 0x0D => out := os + "\\r";
      case 0x09 => out := os + "\\t";
      case 0x0B => out := os + "\\v";
      case _ =>
        if IsPrintableAscii(c) {
          return os + [c as char], AsIs;
        } else {
          return os + "\\x" + HexText(c), HexEscape;
        }
    }
    format := SpecialEscape;
  }

  method PrintAsStringLiteralTo(c: Byte, os: string) returns (out: string, format: CharFormat)
    ensures out == os + CharText(c) && format == FormatOf(c)
  {
    match c {
      case 0x27 => return os + "'", AsIs;
      case 0x22 => return os + "\\\"", SpecialEscape;
      case _ => out, format := PrintAsCharLiteralTo(c, os);
    }
  }

  method PrintCharsAsStringTo(s: seq<Byte>) returns (os: string, printFormat: CharFormat)
    ensures os == "\"" + Tail(s, false)
    ensures printFormat == if exists i :: 0 <= i < |s| && FormatOf(s[i]).HexEscape? then HexEscape else AsIs
  {
    os := "\"";
    var isPreviousHex := false;
    printFormat := AsIs;
    assert s[0..] == s;
    for index := 0 to |s|
      invariant os + Tail(s[index..], isPreviousHex) == "\"" + Tail(s, false)
      invariant printFormat == if exists i :: 0 <= i < index && FormatOf(s[i]).HexEscape? then HexEscape else AsIs
    {
      var cur := s[index];
      ghost var before := os;
      if isPreviousHex && IsXDigit(cur) {
        os := os + "\" \"";
      }
      assert os == before + Break(cur, isPreviousHex);
      TailSplits(before, s, index, isPreviousHex);
      var format;
      os, format := PrintAsStringLiteralTo(cur, os);
      isPreviousHex := format == HexEscape;
      if isPreviousHex {
        printFormat := HexEscape;
      }
    }
    assert s[|s|..] == [];
    os := os + "\"";
  }

  /** The literal is closed and reopened where a digit would extend a hex escape. */
  function Break(c: Byte, previousHex: bool): string {
    if previousHex && IsXDigit(c) then "\" \"" else ""
  }

  lemma TailSplits(os: string, s: seq<Byte>, i: nat, previousHex: bool)
    requires i < |s|
    ensures os + Tail(s[i..], previousHex) ==
            os + Break(s[i], previousHex) + CharText(s[i]) + Tail(s[i + 1..], FormatOf(s[i]).HexEscape?)
  {
    assert s[i..][1..] == s[i + 1..];
  }

  /** The characters with an escape of their own. */
  predicate HasShortEscape(c: Byte) {
    c == 0x00 || c == 0x22 || c == 0x5C || 0x07 <= c <= 0x0D
  }

  function EscapeLetter(c: Byte): char
    requires HasShortEscape(c)
  {
    match c
    case 0x00 => '0'
    case 0x22 => '"'
    case 0x5C => '\\'
    case 0x07 => 'a'
    case 0x08 => 'b'
    case 0x09 => 't'
    case 0x0A => 'n'
    case 0x0B => 'v'
    case 0x0C => 'f'
    case _ => 'r'
  }

  /** How one character is written inside a string literal. */
  function CharText(c: Byte): string {
    if HasShortEscape(c) then ['\\', EscapeLetter(c)]
    else if IsPrintableAscii(c) then [c as char]
    else "\\x" + HexText(c)
  }

  function FormatOf(c: Byte): CharFormat {
    if HasShortEscape(c) then SpecialEscape else if IsPrintableAscii(c) then AsIs else HexEscape
  }

  /** What is written from one character on, up to the closing quote. */
  ghost function Tail(s: seq<Byte>, previousHex: bool): string {
    if s == [] then "\""
    else
      Break(s[0], previousHex) + CharText(s[0]) + Tail(s[1..], FormatOf(s[0]).HexEscape?)
  }

  // ---------- The lexer ----------

  /** The length of the longest run of hexadecimal digits at the head of t. */
  ghost function HexRun(t: string): (n: nat)
    ensures n <= |t| && (forall i :: 0 <= i < n ==> IsXDigit(t[i] as int))
    ensures n < |t| ==> !IsXDigit(t[n] as int)
  {
    if t == [] || !IsXDigit(t[0] as int) then 0 else 1 + HexRun(t[1..])
  }

  ghost function HexNumber(t: string): nat
    requires forall i :: 0 <= i < |t| ==> IsXDigit(t[i] as int)
  {
    if t == [] then 0 else 16 * HexNumber(t[..|t| - 1]) + HexValue(t[|t| - 1])
  }

  /** The number of octal digits, at most three, at the head of t. */
  ghost function OctalRun(t: string): (n: nat)
    ensures n <= |t| && n <= 3 && forall i :: 0 <= i < n ==> IsOctal(t[i] as int)
  {
    if |t| < 1 || !IsOctal(t[0] as int) then 0
    else if |t| < 2 || !IsOctal(t[1] as int) then 1
    else if |t| < 3 || !IsOctal(t[2] as int) then 2
    else 3
  }

  function OctalValue(c: char): nat
    requires IsOctal(c as int)
  {
    c as int - 0x30
  }

  ghost function OctalNumber(t: string): nat
    requires forall i :: 0 <= i < |t| ==> IsOctal(t[i] as int)
  {
    if t == [] then 0 else 8 * OctalNumber(t[..|t| - 1]) + OctalValue(t[|t| - 1])
  }

  /** The simple escape sequences. */
  ghost function SimpleEscape(c: char): Option<Byte> {
    match c
    case '\'' => Some(0x27)
    case '"' => Some(0x22)
    case '?' => Some(0x3F)
    case '\\' => Some(0x5C)
    case 'a' => Some(0x07)
    case 'b' => Some(0x08)
    case 'f' => Some(0x0C)
    case 'n' => Some(0x0A)
    case 'r' => Some(0x0D)
    case 't' => Some(0x09)
    case 'v' => Some(0x0B)
    case _ => None
  }

  ghost function Prepend(c: nat, rest: Option<seq<Byte>>): Option<seq<Byte>> {
    if c >= 256 || rest.None? then None else Some([c] + rest.value)
  }

  /** The characters denoted by adjacent string literals; None if t is not that. */
  ghost function Lex(t: string, inside: bool): Option<seq<Byte>>
    decreases |t|
  {
    if t == [] then (if inside then None else Some([]))
    else if t[0] == '"' then Lex(t[1..], !inside)
    else if !inside then (if t[0] == ' ' then Lex(t[1..], false) else None)
    else if t[0] == '\n' then None
    else if t[0] != '\\' then Prepend(t[0] as nat, Lex(t[1..], true))
    else if |t| < 2 then None
    else if t[1] == 'x' then
      var n := HexRun(t[2..]);
      if n == 0 then None else Prepend(HexNumber(t[2..][..n]), Lex(t[2 + n..], true))
    else if IsOctal(t[1] as int) then
      var n := OctalRun(t[1..]);
      Prepend(OctalNumber(t[1..][..n]), Lex(t[1 + n..], true))
    else
      match SimpleEscape(t[1])
      case None => None
      case Some(c) => Prepend(c, Lex(t[2..], true))
  }

  // ---------- Lexing what was printed ----------

  /** What the literal denotes: a NUL takes up to two octal digits that follow it. */
  ghost function Denoted(s: seq<Byte>): seq<Byte> {
    if s == [] then []
    else if s[0] == 0 && |s| >= 2 && IsOctal(s[1]) then
      if |s| >= 3 && IsOctal(s[2]) then [8 * (s[1] - 0x30) + (s[2] - 0x30)] + Denoted(s[3..])
      else [s[1] - 0x30] + Denoted(s[2..])
    else [s[0]] + Denoted(s[1..])
  }

  /** No NUL is immediately followed by an octal digit. */
  ghost predicate NoNulBeforeOctal(s: seq<Byte>) {
    forall i :: 0 <= i < |s| - 1 && s[i] == 0 ==> !IsOctal(s[i + 1])
  }

  lemma {:induction false} DenotedIsSelf(s: seq<Byte>)
    ensures |Denoted(s)| <= |s|
    ensures |Denoted(s)| == |s| ==> NoNulBeforeOctal(s)
    ensures NoNulBeforeOctal(s) ==> Denoted(s) == s
  {
    if s == [] {
    } else if s[0] == 0 && |s| >= 2 && IsOctal(s[1]) {
      if |s| >= 3 && IsOctal(s[2]) { DenotedIsSelf(s[3..]); } else { DenotedIsSelf(s[2..]); }
    } else {
      DenotedIsSelf(s[1..]);
      assert s == [s[0]] + s[1..];
      if NoNulBeforeOctal(s[1..]) {
        assert forall i :: 1 <= i < |s| ==> s[i] == s[1..][i - 1];
        assert NoNulBeforeOctal(s);
      }
      if NoNulBeforeOctal(s) {
        assert NoNulBeforeOctal(s[1..]);
      }
    }
  }

  /** The first character of what follows: a digit only if the next character is one. */
  lemma TailHead(s: seq<Byte>, previousHex: bool)
    ensures var t := Tail(s, previousHex);
            && t != []
            && (IsXDigit(t[0] as int) ==> s != [] && IsXDigit(s[0]) && !previousHex)
            && (IsOctal(t[0] as int) ==> s != [] && IsOctal(s[0]) && !previousHex)
  {
  }

  lemma PrintedDigit(s: seq<Byte>)
    requires s != [] && IsOctal(s[0])
    ensures Tail(s, false) == [s[0] as char] + Tail(s[1..], false)
  {
  }

  lemma HexRunStops(digits: string, t: string)
    requires forall i :: 0 <= i < |digits| ==> IsXDigit(digits[i] as int)
    requires t != [] && !IsXDigit(t[0] as int)
    ensures HexRun(digits + t) == |digits|
  {
    var n := HexRun(digits + t);
    assert (digits + t)[|digits|] == t[0];
    assert forall i :: 0 <= i < |digits| ==> (digits + t)[i] == digits[i];
  }

  lemma HexTextDenotes(c: Byte)
    ensures HexText(c) != [] && (forall i :: 0 <= i < |HexText(c)| ==> IsXDigit(HexText(c)[i] as int))
    ensures HexNumber(HexText(c)) == c
  {
    var t := HexText(c);
    assert HexNumber([]) == 0;
    assert t[..1] == [t[0]] && [t[0]][..0] == [];
    if c >= 16 {
      assert HexNumber([t[0]]) == c / 16;
    }
  }

  lemma HexEscapeText(c: Byte, t: string) returns (all: string)
    requires t != [] && !IsXDigit(t[0] as int)
    ensures all == "\\x" + HexText(c) + t && |all| > 2 && all[0] == '\\' && all[1] == 'x'
    ensures HexRun(all[2..]) == |HexText(c)| && all[2..][..|HexText(c)|] == HexText(c)
    ensures all[2 + |HexText(c)|..] == t && HexText(c) != []
  {
    all := "\\x" + HexText(c) + t;
    HexTextDenotes(c);
    HexRunStops(HexText(c), t);
    assert all[2..] == HexText(c) + t;
  }

  lemma LexHex(c: Byte, t: string)
    requires t != [] && !IsXDigit(t[0] as int)
    ensures Lex("\\x" + HexText(c) + t, true) == Prepend(c, Lex(t, true))
  {
    var all := HexEscapeText(c, t);
    HexTextDenotes(c);
  }

  lemma LexPlain(c: Byte, t: string)
    requires c != 0 && FormatOf(c) != HexEscape
    ensures Lex(CharText(c) + t, true) == Prepend(c, Lex(t, true))
  {
    var all := CharText(c) + t;
    if FormatOf(c).AsIs? {
      assert all[0] == c as char && all[1..] == t;
    } else {
      assert all[0] == '\\' && all[1] == CharText(c)[1] && all[2..] == t;
    }
  }

  lemma LexBreak(t: string)
    ensures Lex("\" \"" + t, true) == Lex(t, true)
  {
    var all := "\" \"" + t;
    assert all[1..] == " \"" + t && (" \"" + t)[1..] == "\"" + t && ("\"" + t)[1..] == t;
    assert Lex(all, true) == Lex(" \"" + t, false) == Lex("\"" + t, false) == Lex(t, true);
  }

  lemma OctalEscapeText(all: string, digits: string, t: string)
    requires all == "\\" + digits + t
    requires 1 <= |digits| <= 3 && forall i :: 0 <= i < |digits| ==> IsOctal(digits[i] as int)
    requires |digits| < 3 ==> t != [] && !IsOctal(t[0] as int)
    ensures |all| >= 2 && all[0] == '\\' && IsOctal(all[1] as int)
    ensures OctalRun(all[1..]) == |digits| && all[1..][..|digits|] == digits && all[1 + |digits|..] == t
  {
    var tail := digits + t;
    assert all[1..] == tail;
    assert forall i :: 0 <= i < |digits| ==> tail[i] == digits[i];
    if t != [] { assert tail[|digits|] == t[0]; }
  }

  lemma LexOctal(all: string, digits: string, t: string)
    requires all == "\\" + digits + t
    requires 1 <= |digits| <= 3 && forall i :: 0 <= i < |digits| ==> IsOctal(digits[i] as int)
    requires |digits| < 3 ==> t != [] && !IsOctal(t[0] as int)
    ensures Lex(all, true) == Prepend(OctalNumber(digits), Lex(t, true))
  {
    OctalEscapeText(all, digits, t);
    LexOctalEscape(all, digits, t);
  }

  lemma LexOctalEscape(all: string, digits: string, t: string)
    requires |all| >= 2 && all[0] == '\\' && IsOctal(all[1] as int)
    requires forall i :: 0 <= i < |digits| ==> IsOctal(digits[i] as int)
    requires OctalRun(all[1..]) == |digits| && all[1..][..|digits|] == digits && all[1 + |digits|..] == t
    ensures Lex(all, true) == Prepend(OctalNumber(digits), Lex(t, true))
  {
  }

  lemma OctalNumbers(a: Byte, b: Byte)
    requires IsOctal(a) && IsOctal(b)
    ensures OctalNumber("0") == 0
    ensures OctalNumber(['0', a as char]) == a - 0x30
    ensures OctalNumber(['0', a as char, b as char]) == 8 * (a - 0x30) + (b - 0x30)
  {
    assert "0"[..0] == [];
    assert ['0', a as char][..1] == "0";
    assert ['0', a as char, b as char][..2] == ['0', a as char];
  }

  lemma LexOther(s: seq<Byte>, t: string)
    requires s != [] && s[0] != 0 && t == Tail(s[1..], FormatOf(s[0]).HexEscape?)
    requires Lex(t, true) == Some(Denoted(s[1..]))
    ensures Lex(CharText(s[0]) + t, true) == Some(Denoted(s))
  {
    TailHead(s[1..], FormatOf(s[0]).HexEscape?);
    if FormatOf(s[0]).HexEscape? {
      assert CharText(s[0]) == "\\x" + HexText(s[0]);
      LexHex(s[0], t);
    } else {
      LexPlain(s[0], t);
    }
  }

  /** The octal escape a NUL and the digits after it form. */
  lemma LexNulText(all: string, digits: string, u: string, rest: seq<Byte>)
    requires 1 <= |digits| <= 3 && (forall i :: 0 <= i < |digits| ==> IsOctal(digits[i] as int))
    requires |digits| < 3 ==> u != [] && !IsOctal(u[0] as int)
    requires all == "\\" + digits + u && OctalNumber(digits) < 256 && Lex(u, true) == Some(rest)
    ensures Lex(all, true) == Some([OctalNumber(digits)] + rest)
  {
    LexOctal(all, digits, u);
  }

  lemma NulText(s: seq<Byte>)
    requires s != [] && s[0] == 0 && (|s| >= 2 ==> !IsOctal(s[1]))
    ensures var t := Tail(s[1..], false);
            && "\\0" + t == "\\" + "0" + t && t != [] && !IsOctal(t[0] as int)
  {
    TailHead(s[1..], false);
  }

  lemma NulDenotes(s: seq<Byte>)
    requires s != [] && s[0] == 0 && (|s| >= 2 ==> !IsOctal(s[1]))
    ensures OctalNumber("0") < 256 && Denoted(s) == [OctalNumber("0")] + Denoted(s[1..])
  {
    OctalNumbers(0x30, 0x30);
  }

  lemma NulOneText(s: seq<Byte>)
    requires |s| >= 2 && s[0] == 0 && IsOctal(s[1]) && (|s| >= 3 ==> !IsOctal(s[2]))
    ensures var u := Tail(s[2..], false);
            && "\\0" + Tail(s[1..], false) == "\\" + ['0', s[1] as char] + u && u != [] && !IsOctal(u[0] as int)
  {
    PrintedDigit(s[1..]);
    assert s[1..][1..] == s[2..];
    TailHead(s[2..], false);
  }

  lemma NulOneDenotes(s: seq<Byte>)
    requires |s| >= 2 && s[0] == 0 && IsOctal(s[1]) && (|s| >= 3 ==> !IsOctal(s[2]))
    ensures OctalNumber(['0', s[1] as char]) < 256 && Denoted(s) == [OctalNumber(['0', s[1] as char])] + Denoted(s[2..])
  {
    OctalNumbers(s[1], s[1]);
  }

  lemma NulTwoText(s: seq<Byte>)
    requires |s| >= 3 && s[0] == 0 && IsOctal(s[1]) && IsOctal(s[2])
    ensures "\\0" + Tail(s[1..], false) == "\\" + ['0', s[1] as char, s[2] as char] + Tail(s[3..], false)
  {
    PrintedDigit(s[1..]);
    PrintedDigit(s[2..]);
    assert s[1..][1..] == s[2..] && s[2..][1..] == s[3..];
  }

  lemma NulTwoDenotes(s: seq<Byte>)
    requires |s| >= 3 && s[0] == 0 && IsOctal(s[1]) && IsOctal(s[2])
    ensures OctalNumber(['0', s[1] as char, s[2] as char]) < 256
    ensures Denoted(s) == [OctalNumber(['0', s[1] as char, s[2] as char])] + Denoted(s[3..])
  {
    OctalNumbers(s[1], s[2]);
  }

  lemma {:induction false} LexNul(s: seq<Byte>)
    requires s != [] && s[0] == 0
    ensures Lex("\\0" + Tail(s[1..], false), true) == Some(Denoted(s))
    decreases |s|, 0
  {
    var t := Tail(s[1..], false);
    var all := "\\0" + t;
    if |s| < 2 || !IsOctal(s[1]) {
      LexTail(s[1..], false);
      NulText(s);
      NulDenotes(s);
      LexNulText(all, "0", t, Denoted(s[1..]));
    } else if |s| < 3 || !IsOctal(s[2]) {
      LexTail(s[2..], false);
      NulOneText(s);
      NulOneDenotes(s);
      LexNulText(all, ['0', s[1] as char], Tail(s[2..], false), Denoted(s[2..]));
    } else {
      LexTail(s[3..], false);
      NulTwoText(s);
      NulTwoDenotes(s);
      LexNulText(all, ['0', s[1] as char, s[2] as char], Tail(s[3..], false), Denoted(s[3..]));
    }
  }

  /** A character, without the break that may stand before it. */
  lemma {:induction false} LexHead(s: seq<Byte>) returns (t: string)
    requires s != []
    ensures t == CharText(s[0]) + Tail(s[1..], FormatOf(s[0]).HexEscape?)
    ensures Lex(t, true) == Some(Denoted(s))
    decreases |s|, 1
  {
    var hex := FormatOf(s[0]).HexEscape?;
    t := CharText(s[0]) + Tail(s[1..], hex);
    if s[0] == 0 {
      LexNul(s);
    } else {
      LexTail(s[1..], hex);
      LexOther(s, Tail(s[1..], hex));
    }
  }

  lemma {:induction false} LexTail(s: seq<Byte>, previousHex: bool)
    ensures Lex(Tail(s, previousHex), true) == Some(Denoted(s))
    decreases |s|, 2
  {
    if s == [] {
      assert "\""[1..] == [];
      return;
    }
    var t := LexHead(s);
    TailIs(s, previousHex, t);
    LexBreak(t);
  }

  lemma TailIs(s: seq<Byte>, previousHex: bool, t: string)
    requires s != [] && t == CharText(s[0]) + Tail(s[1..], FormatOf(s[0]).HexEscape?)
    ensures Tail(s, previousHex) == if previousHex && IsXDigit(s[0]) then "\" \"" + t else t
  {
    var b, c, rest := Break(s[0], previousHex), CharText(s[0]), Tail(s[1..], FormatOf(s[0]).HexEscape?);
    assert Tail(s, previousHex) == b + c + rest;
    BreakFirst(b, c, rest);
  }

  lemma BreakFirst(b: string, c: string, rest: string)
    ensures b + c + rest == b + (c + rest) && (b == "" ==> b + c + rest == c + rest)
  {
  }

  /** The printed literal denotes the original string exactly when no NUL is immediately
      followed by an octal digit. */
  lemma RoundTrip(s: seq<Byte>)
    ensures Lex("\"" + Tail(s, false), false) == Some(Denoted(s))
    ensures Lex("\"" + Tail(s, false), false) == Some(s) <==>
            !exists i :: 0 <= i < |s| - 1 && s[i] == 0 && 48 <= s[i + 1] <= 55
  {
    assert NoNulBeforeOctal(s) <==> !exists i :: 0 <= i < |s| - 1 && s[i] == 0 && 48 <= s[i + 1] <= 55;
    LexTail(s, false);
    assert ("\"" + Tail(s, false))[1..] == Tail(s, false);
    DenotedIsSelf(s);
  }

  // ---------- What is printed, byte by byte ----------

  /** How each byte is spelled: printable characters as themselves, a few by letters, and all
      others by hexadecimal digits. */
  lemma Spelling(c: Byte)
    ensures 0x20 <= c <= 0x7E && c != 0x22 && c != 0x5C ==> CharText(c) == [c as char]
    ensures c == 0 ==> CharText(c) == ['\\', '0']
    ensures c == 7 ==> CharText(c) == ['\\', 'a']
    ensures c == 8 ==> CharText(c) == ['\\', 'b']
    ensures c == 9 ==> CharText(c) == ['\\', 't']
    ensures c == 10 ==> CharText(c) == ['\\', 'n']
    ensures c == 11 ==> CharText(c) == ['\\', 'v']
    ensures c == 12 ==> CharText(c) == ['\\', 'f']
    ensures c == 13 ==> CharText(c) == ['\\', 'r']
    ensures c == 0x22 || c == 0x5C ==> CharText(c) == ['\\', c as char]
    ensures 1 <= c <= 6 || 14 <= c <= 31 || c >= 127 ==>
              CharText(c) == ['\\', 'x'] + (if c < 16 then [] else [DIGITS[c / 16]]) + [DIGITS[c % 16]]
    // and how it counts for the format
    ensures FormatOf(c).AsIs? <==> 0x20 <= c <= 0x7E && c != 0x22 && c != 0x5C
    ensures FormatOf(c).HexEscape? <==> 1 <= c <= 6 || 14 <= c <= 31 || c >= 127
  {
    DigitsInOrder(c % 16);
    DigitsInOrder(c / 16);
  }

  const DIGITS := "0123456789ABCDEF"

  lemma DigitsInOrder(d: nat)
    requires d < 16
    ensures |DIGITS| == 16 && DIGITS[d] == UpperHexDigit(d)
  {
  }

  /** The literal is interrupted only between a byte spelled by hexadecimal digits and one of the
      characters 0 to 9, A to F and a to f. */
  lemma Interruption(a: Byte, b: Byte, rest: seq<Byte>)
    ensures var hex := 1 <= a <= 6 || 14 <= a <= 31 || a >= 127;
            var digit := 48 <= b <= 57 || 65 <= b <= 70 || 97 <= b <= 102;
            Tail([a, b] + rest, false) == CharText(a) + (if hex && digit then "\" \"" else "") + Tail([b] + rest, false)
  {
    assert ([a, b] + rest)[1..] == [b] + rest && ([b] + rest)[1..] == rest;
    var t := Tail(rest, FormatOf(b).HexEscape?);
    assert Tail([b] + rest, false) == CharText(b) + t;
  }

  /** Printable characters other than quote and backslash are printed as they are. */
  lemma {:induction false} PrintableIsItself(s: seq<Byte>)
    requires forall i :: 0 <= i < |s| ==> 0x20 <= s[i] <= 0x7E && s[i] != 0x22 && s[i] != 0x5C
    ensures Tail(s, false) == seq(|s|, i requires 0 <= i < |s| => s[i] as char) + "\""
  {
    if s != [] {
      PrintableIsItself(s[1..]);
      Spelling(s[0]);
    }
  }

  /** The lexer reads upper-case and lower-case digits alike, and the octal ones by their place. */
  lemma DigitsRead(d: nat)
    requires d < 16
    ensures |LOWER_DIGITS| == 16 && IsXDigit(DIGITS[d] as int) && IsXDigit(LOWER_DIGITS[d] as int)
    ensures HexValue(DIGITS[d]) == HexValue(LOWER_DIGITS[d]) == d
    ensures d < 8 <==> IsOctal(DIGITS[d] as int)
    ensures d < 8 ==> OctalValue(DIGITS[d]) == d
  {
    DigitsInOrder(d);
  }

  const LOWER_DIGITS := "0123456789abcdef"
}
