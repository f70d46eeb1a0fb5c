/** UTF-8 and UTF-16: validation and encoding, against section 4 of RFC 3629 and section 2 of
    RFC 2781. Masks and shifts of the source are written as remainders and quotients; the
    correspondence is a lemma on bit-vectors. */
module Utf8 {
  import opened Basics

  /** A wide character, of 16 or 32 bits. */
  type Unit = x: int | 0 <= x < 0x1_0000_0000

  // ---------- The reference ----------

  predicate IsSurrogate(cp: int) {
    0xD800 <= cp <= 0xDFFF
  }

  predicate IsScalar(cp: int) {
    0 <= cp <= 0x10FFFF && !IsSurrogate(cp)
  }

  predicate AllScalar(cps: seq<nat>) {
    forall i :: 0 <= i < |cps| ==> IsScalar(cps[i])
  }

  /** The octets of a value of up to 21 bits. */
  function Encode(cp: nat): seq<Byte>
    requires cp <= 0x1FFFFF
  {
    if cp < 0x80 then [cp]
    else if cp < 0x800 then [0xC0 + cp / 64, 0x80 + cp % 64]
    else if cp < 0x10000 then [0xE0 + cp / 4096, 0x80 + cp / 64 % 64, 0x80 + cp % 64]
    else [0xF0 + cp / 262144, 0x80 + cp / 4096 % 64, 0x80 + cp / 64 % 64, 0x80 + cp % 64]
  }

  function EncodeAll(cps: seq<nat>): seq<Byte>
    requires AllScalar(cps)
  {
    if cps == [] then [] else Encode(cps[0]) + EncodeAll(cps[1..])
  }

  predicate IsTail(b: Byte) {
    0x80 <= b <= 0xBF
  }

  /** The octet sequences of one character, as the grammar lists them. */
  predicate IsUtf8Char(b: seq<Byte>) {
    || (|b| == 1 && b[0] <= 0x7F)
    || (|b| == 2 && 0xC2 <= b[0] <= 0xDF && IsTail(b[1]))
    || (|b| == 3 && IsTail(b[2])
        && ((b[0] == 0xE0 && 0xA0 <= b[1] <= 0xBF) || (0xE1 <= b[0] <= 0xEC && IsTail(b[1]))
            || (b[0] == 0xED && 0x80 <= b[1] <= 0x9F) || (0xEE <= b[0] <= 0xEF && IsTail(b[1]))))
    || (|b| == 4 && IsTail(b[2]) && IsTail(b[3])
        && ((b[0] == 0xF0 && 0x90 <= b[1] <= 0xBF) || (0xF1 <= b[0] <= 0xF3 && IsTail(b[1]))
            || (b[0] == 0xF4 && 0x80 <= b[1] <= 0x8F)))
  }

  /** The value the grammar's octets stand for. */
  function DecodeChar(b: seq<Byte>): nat
    requires IsUtf8Char(b)
  {
    var lead, second := b[0] as int, if |b| > 1 then b[1] as int - 0x80 else 0;
    match |b|
    case 1 => lead
    case 2 => (lead - 0xC0) * 64 + second
    case 3 => (lead - 0xE0) * 4096 + second * 64 + (b[2] as int - 0x80)
    case _ => (lead - 0xF0) * 262144 + second * 4096 + (b[2] as int - 0x80) * 64 + (b[3] as int - 0x80)
  }

  /** The grammar generates exactly the encodings of scalar values. */
  lemma EncodedIsChar(cp: nat)
    requires cp <= 0x1FFFFF
    ensures IsUtf8Char(Encode(cp)) <==> IsScalar(cp)
    ensures IsScalar(cp) ==> DecodeChar(Encode(cp)) == cp
  {
    assert cp == cp / 64 * 64 + cp % 64;
    assert cp / 64 == cp / 4096 * 64 + cp / 64 % 64;
    assert cp / 4096 == cp / 262144 * 64 + cp / 4096 % 64;
  }

  lemma CharIsEncoded(b: seq<Byte>)
    requires IsUtf8Char(b)
    ensures IsScalar(DecodeChar(b)) && Encode(DecodeChar(b)) == b
  {
    match |b|
    case 1 =>
    case 2 => Digits(b[0] as int - 0xC0, b[1] - 0x80);
    case 3 => ThreeAreEncoded(b);
    case _ => FourAreEncoded(b);
  }

  lemma ThreeAreEncoded(b: seq<Byte>)
    requires |b| == 3 && IsUtf8Char(b)
    ensures IsScalar(DecodeChar(b)) && Encode(DecodeChar(b)) == b
  {
    var lead: int, high: int, low: int := b[0], b[1], b[2];
    var cp := DecodeChar(b);
    Digits(lead - 0xE0, high - 0x80);
    Digits((lead - 0xE0) * 64 + high - 0x80, low - 0x80);
    Quarters(cp);
    assert 0x800 <= cp < 0x10000;
    assert Encode(cp) == [lead, high, low];
  }

  lemma FourAreEncoded(b: seq<Byte>)
    requires |b| == 4 && IsUtf8Char(b)
    ensures IsScalar(DecodeChar(b)) && Encode(DecodeChar(b)) == b
  {
    var lead: int, high: int, middle: int, low: int := b[0], b[1], b[2], b[3];
    var cp := DecodeChar(b);
    Digits(lead - 0xF0, high - 0x80);
    Digits((lead - 0xF0) * 64 + high - 0x80, middle - 0x80);
    Digits((lead - 0xF0) * 4096 + (high - 0x80) * 64 + middle - 0x80, low - 0x80);
    Quarters(cp);
    assert 0x10000 <= cp <= 0x10FFFF;
    assert Encode(cp) == [lead, high, middle, low];
  }

  lemma Quarters(n: nat)
    ensures n / 4096 == n / 64 / 64 && n / 262144 == n / 64 / 64 / 64
  {
  }

  lemma Digits(high: nat, low: nat)
    requires low < 64
    ensures (high * 64 + low) / 64 == high && (high * 64 + low) % 64 == low
  {
  }

  /** The length of the character at the head of s, 0 if there is none. */
  function HeadLength(s: seq<Byte>): (n: nat)
    ensures n <= |s| && (n > 0 ==> IsUtf8Char(s[..n]))
  {
    if |s| >= 1 && IsUtf8Char(s[..1]) then 1
    else if |s| >= 2 && IsUtf8Char(s[..2]) then 2
    else if |s| >= 3 && IsUtf8Char(s[..3]) then 3
    else if |s| >= 4 && IsUtf8Char(s[..4]) then 4
    else 0
  }

  /** The lead octet alone determines the length. */
  lemma CharHead(b: seq<Byte>, rest: seq<Byte>)
    requires IsUtf8Char(b)
    ensures HeadLength(b + rest) == |b|
  {
    var s := b + rest;
    assert s[..|b|] == b;
    assert forall n :: 1 <= n <= |s| ==> s[..n][0] == b[0];
  }

  ghost predicate WellFormed(s: seq<Byte>) {
    s == [] || (HeadLength(s) > 0 && WellFormed(s[HeadLength(s)..]))
  }

  lemma CharThenRest(b: seq<Byte>, rest: seq<Byte>)
    requires IsUtf8Char(b)
    ensures WellFormed(b + rest) <==> WellFormed(rest)
  {
    CharHead(b, rest);
    assert (b + rest)[|b|..] == rest;
  }

  lemma {:induction false} EncodingsAreWellFormed(cps: seq<nat>)
    requires AllScalar(cps)
    ensures WellFormed(EncodeAll(cps))
  {
    if cps != [] {
      EncodedIsChar(cps[0]);
      EncodingsAreWellFormed(cps[1..]);
      CharThenRest(Encode(cps[0]), EncodeAll(cps[1..]));
    }
  }

  lemma {:induction false} WellFormedHasDecoding(s: seq<Byte>) returns (cps: seq<nat>)
    requires WellFormed(s)
    ensures AllScalar(cps) && EncodeAll(cps) == s
  {
    if s == [] {
      return [];
    }
    var n := HeadLength(s);
    CharIsEncoded(s[..n]);
    var rest := WellFormedHasDecoding(s[n..]);
    EncodeCons(DecodeChar(s[..n]), rest);
    cps := [DecodeChar(s[..n])] + rest;
    assert s == s[..n] + s[n..];
  }

  lemma EncodeCons(cp: nat, cps: seq<nat>)
    requires IsScalar(cp) && AllScalar(cps)
    ensures AllScalar([cp] + cps) && EncodeAll([cp] + cps) == Encode(cp) + EncodeAll(cps)
  {
    assert ([cp] + cps)[1..] == cps;
  }

  ghost predicate IsUtf8(s: seq<Byte>) {
    exists cps :: AllScalar(cps) && EncodeAll(cps) == s
  }

  lemma WellFormedIsUtf8(s: seq<Byte>)
    ensures WellFormed(s) <==> IsUtf8(s)
  {
    if WellFormed(s) {
      var cps := WellFormedHasDecoding(s);
    }
    forall cps | AllScalar(cps) && EncodeAll(cps) == s
      ensures WellFormed(s)
    {
      EncodingsAreWellFormed(cps);
    }
  }

  /** The decomposition into characters is unique. */
  lemma {:induction false} DecodingIsUnique(a: seq<nat>, b: seq<nat>)
    requires AllScalar(a) && AllScalar(b) && EncodeAll(a) == EncodeAll(b)
    ensures a == b
  {
    if a != [] { EncodedIsChar(a[0]); }
    if b != [] { EncodedIsChar(b[0]); }
    if a != [] && b != [] {
      CharHead(Encode(a[0]), EncodeAll(a[1..]));
      CharHead(Encode(b[0]), EncodeAll(b[1..]));
      var n := |Encode(a[0])|;
      assert EncodeAll(a)[..n] == Encode(a[0]) && EncodeAll(a)[n..] == EncodeAll(a[1..]);
      assert EncodeAll(b)[..n] == Encode(b[0]) && EncodeAll(b)[n..] == EncodeAll(b[1..]);
      DecodingIsUnique(a[1..], b[1..]);
      assert a == [a[0]] + a[1..] && b == [b[0]] + b[1..];
    }
  }

  // ---------- The validator ----------

  predicate IsUTF8TrailByte(t: Byte) {
    0x80 <= t <= 0xBF
  }

  method IsValidUTF8(s: seq<Byte>) returns (valid: bool)
    ensures valid <==> IsUtf8(s)
  {
    WellFormedIsUtf8(s);
    var length := |s|;
    var i := 0;
    assert s[0..] == s;
    while i < length
      invariant 0 <= i <= length
      invariant WellFormed(s) <==> WellFormed(s[i..])
    {
      ghost var rest := s[i..];
      var lead := s[i];
      i := i + 1;
      if lead <= 0x7F {
        Step(rest, 1);
        continue;
      }
      if lead < 0xC2 {
        return false;
      } else if lead <= 0xDF && i + 1 <= length && IsUTF8TrailByte(s[i]) {
        Step(rest, 2);
        i := i + 1;
      } else if 0xE0 <= lead <= 0xEF && i + 2 <= length
                && IsUTF8TrailByte(s[i]) && IsUTF8TrailByte(s[i + 1])
                && (lead != 0xE0 || s[i] >= 0xA0)
                && (lead != 0xED || s[i] < 0xA0) {
        Step(rest, 3);
        i := i + 2;
      } else if 0xF0 <= lead <= 0xF4 && i + 3 <= length
                && IsUTF8TrailByte(s[i]) && IsUTF8TrailByte(s[i + 1]) && IsUTF8TrailByte(s[i + 2])
                && (lead != 0xF0 || s[i] >= 0x90)
                && (lead != 0xF4 || s[i] < 0x90) {
        Step(rest, 4);
        i := i + 3;
      } else {
        return false;
      }
    }
    return true;
  }

  lemma Step(s: seq<Byte>, n: nat)
    requires n <= |s| && IsUtf8Char(s[..n])
    ensures WellFormed(s) <==> WellFormed(s[n..])
  {
    CharThenRest(s[..n], s[n..]);
    assert s == s[..n] + s[n..];
  }

  // ---------- Code points to UTF-8 ----------

  /** Masks and shifts by six bits are remainders and quotients by 64, and setting the marker
      bits above them is addition. */
  lemma BitFieldsAreDigits(x: bv32)
    ensures x & 0x3F == x % 64 && x >> 6 == x / 64
  {
  }

  lemma MarkersAreAdded(x: bv8)
    ensures x < 0x40 ==> 0x80 | x == 0x80 + x
    ensures x < 0x20 ==> 0xC0 | x == 0xC0 + x
    ensures x < 0x10 ==> 0xE0 | x == 0xE0 + x
    ensures x < 0x08 ==> 0xF0 | x == 0xF0 + x
  {
  }

  function HexDigit(d: nat): Byte
    requires d < 16
  {
    if d < 10 then 0x30 + d else 0x41 + d - 10
  }

  function Hex(n: nat): seq<Byte> {
    if n < 16 then [HexDigit(n)] else Hex(n / 16) + [HexDigit(n % 16)]
  }

  /** The octets of "(Invalid Unicode 0x". */
  const INVALID_UNICODE: seq<Byte> :=
    [0x28, 0x49, 0x6E, 0x76, 0x61, 0x6C, 0x69, 0x64, 0x20, 0x55, 0x6E, 0x69, 0x63, 0x6F, 0x64, 0x65, 0x20, 0x30, 0x78]

  /** What is written for a code point: nothing for 0, a remark above 21 bits. */
  function Written(cp: nat): seq<Byte> {
    if cp == 0 then []
    else if cp > 0x1FFFFF then INVALID_UNICODE + Hex(cp) + [0x29]
    else Encode(cp)
  }

  /** The characters of a C string up to its terminator. */
  ghost function CString(s: seq<Byte>): seq<Byte> {
    if s == [] || s[0] == 0 then [] else [s[0]] + CString(s[1..])
  }

  lemma {:induction false} CStringUpTo(s: seq<Byte>, n: nat)
    requires n < |s| && s[n] == 0 && forall i :: 0 <= i < n ==> s[i] != 0
    ensures CString(s) == s[..n]
  {
    if n > 0 {
      CStringUpTo(s[1..], n - 1);
      assert s[..n] == [s[0]] + s[1..][..n - 1];
    } else {
      assert s[..0] == [];
    }
  }

  method CStringOf(str: array<Byte>, ghost n: nat) returns (text: seq<Byte>)
    requires n < str.Length && str[n] == 0
    ensures text == CString(str[..])
  {
    var i := 0;
    while str[i] != 0
      invariant 0 <= i <= n && forall k :: 0 <= k < i ==> str[k] != 0
      decreases n - i
    {
      i := i + 1;
    }
    CStringUpTo(str[..], i);
    text := str[..i];
    assert str[..][..i] == str[..i];
  }

  method CodePointToUtf8(codePoint: nat) returns (text: seq<Byte>)
    requires codePoint < 0x1_0000_0000
    ensures text == Written(codePoint)
  {
    if codePoint > 0x1FFFFF {
      return INVALID_UNICODE + Hex(codePoint) + [0x29];
    }
    var str := new Byte[5];
    ghost var n := StoreChars(codePoint, str);
    text := CStringOf(str, n);
    if codePoint != 0 {
      CStringUpTo(str[..], n);
      assert str[..][..n] == str[..n];
    }
  }

  /** Chops six bits at a time off the code point, last octet first. */
  method StoreChars(codePoint: nat, str: array<Byte>) returns (ghost n: nat)
    requires codePoint <= 0x1FFFFF && str.Length == 5
    modifies str
    ensures 0 < n < 5 && str[..n] == Encode(codePoint) && str[n] == 0
    ensures codePoint == 0 ==> str[0] == 0
    ensures codePoint > 0 ==> forall i :: 0 <= i < n ==> str[i] != 0
  {
    var bits := codePoint;
    Quarters(codePoint);
    if codePoint <= 0x7F {
      n := 1;
      str[1] := 0;
      str[0] := bits;
    } else if codePoint <= 0x7FF {
      n := 2;
      str[2] := 0;
      str[1], bits := 0x80 + bits % 64, bits / 64;
      str[0] := 0xC0 + bits;
    } else if codePoint <= 0xFFFF {
      n := 3;
      str[3] := 0;
      str[2], bits := 0x80 + bits % 64, bits / 64;
      str[1], bits := 0x80 + bits % 64, bits / 64;
      str[0] := 0xE0 + bits;
    } else {
      n := 4;
      str[4] := 0;
      str[3], bits := 0x80 + bits % 64, bits / 64;
      str[2], bits := 0x80 + bits % 64, bits / 64;
      str[1], bits := 0x80 + bits % 64, bits / 64;
      str[0] := 0xF0 + bits;
    }
  }

  lemma {:induction false} HexIsAscii(n: nat)
    ensures forall i :: 0 <= i < |Hex(n)| ==> Hex(n)[i] <= 0x7F
  {
    if n >= 16 {
      HexIsAscii(n / 16);
    }
  }

  lemma {:induction false} AsciiIsWellFormed(s: seq<Byte>)
    requires forall i :: 0 <= i < |s| ==> s[i] <= 0x7F
    ensures WellFormed(s)
  {
    if s != [] {
      AsciiIsWellFormed(s[1..]);
      CharThenRest([s[0]], s[1..]);
      assert s == [s[0]] + s[1..];
    }
  }

  lemma RemarkIsWellFormed(cp: nat)
    ensures WellFormed(INVALID_UNICODE + Hex(cp) + [0x29])
  {
    HexIsAscii(cp);
    assert forall i :: 0 <= i < |INVALID_UNICODE| ==> INVALID_UNICODE[i] <= 0x7F;
    AsciiIsWellFormed(INVALID_UNICODE + Hex(cp) + [0x29]);
  }

  const DIGITS := "0123456789ABCDEF"

  lemma DigitsInOrder(d: nat)
    requires d < 16
    ensures |DIGITS| == 16 && HexDigit(d) == DIGITS[d] as int
  {
  }

  /** The number that upper-case hexadecimal digits denote. */
  ghost predicate Denotes(text: seq<Byte>, n: nat)
    decreases |text|
  {
    text != [] && exists d: nat ::
      d < 16 == |DIGITS| && text[|text| - 1] == DIGITS[d] as int
      && if |text| == 1 then n == d else n >= d && (n - d) % 16 == 0 && Denotes(text[..|text| - 1], (n - d) / 16)
  }

  /** The remark gives the code point in upper-case hexadecimal digits without leading zeros. */
  lemma {:induction false} HexDenotes(n: nat)
    ensures Denotes(Hex(n), n) && (|Hex(n)| > 1 ==> Hex(n)[0] != 48)
    ensures n > 0 ==> Hex(n)[0] != 48
  {
    DigitsInOrder(n % 16);
    if n >= 16 {
      HexDenotes(n / 16);
      var text := Hex(n);
      assert text[..|text| - 1] == Hex(n / 16);
      assert (n - n % 16) / 16 == n / 16;
    }
  }

  const REMARK := "(Invalid Unicode 0x"

  lemma RemarkText()
    ensures |INVALID_UNICODE| == |REMARK| && forall i :: 0 <= i < |REMARK| ==> INVALID_UNICODE[i] == REMARK[i] as int
  {
  }

  /** What is written for one code point is UTF-8 unless it is a surrogate or lies between
      the last code point and the 21-bit limit. */
  lemma WrittenIsUtf8(cp: nat)
    ensures IsUtf8(Written(cp)) <==> IsScalar(cp) || cp > 0x1FFFFF
  {
    var text := Written(cp);
    WellFormedIsUtf8(text);
    if cp > 0x1FFFFF {
      RemarkIsWellFormed(cp);
    } else {
      EncodedIsChar(cp);
      var b := Encode(cp);
      assert b + [] == b;
      if IsScalar(cp) { CharThenRest(b, []); } else { NonScalarHead(cp, []); }
    }
  }

  /** An encoded non-scalar value is no character, whatever follows it. */
  lemma NonScalarHead(cp: nat, rest: seq<Byte>)
    requires cp <= 0x1FFFFF && !IsScalar(cp)
    ensures HeadLength(Encode(cp) + rest) == 0
  {
    EncodedIsChar(cp);
    var b, s := Encode(cp), Encode(cp) + rest;
    assert s[..|b|] == b;
    assert forall n :: 1 <= n <= |s| ==> s[..n][0] == b[0];
  }

  // ---------- Wide strings ----------

  predicate IsHigh(u: Unit) {
    0xD800 <= u <= 0xDBFF
  }

  predicate IsLow(u: Unit) {
    0xDC00 <= u <= 0xDFFF
  }

  /** The masks that recognise surrogates are ranges. */
  lemma SurrogateMasks(u: bv16)
    ensures u & 0xFC00 == 0xD800 <==> 0xD800 <= u <= 0xDBFF
    ensures u & 0xFC00 == 0xDC00 <==> 0xDC00 <= u <= 0xDFFF
    ensures 0xD800 <= u <= 0xDBFF ==> u & 0x3FF == u - 0xD800
    ensures 0xDC00 <= u <= 0xDFFF ==> u & 0x3FF == u - 0xDC00
  {
  }

  /** Combining the masked halves of a pair is the arithmetic of Combine. */
  lemma PairBits(first: bv32, second: bv32)
    requires 0xD800 <= first <= 0xDBFF && 0xDC00 <= second <= 0xDFFF
    ensures (((first & 0x3FF) << 10) | (second & 0x3FF)) + 0x10000
         == (first - 0xD800) * 1024 + (second - 0xDC00) + 0x10000
  {
  }

  function Combine(first: Unit, second: Unit): nat
    requires IsHigh(first) && IsLow(second)
  {
    (first as int - 0xD800) * 1024 + (second as int - 0xDC00) + 0x10000
  }

  predicate IsUtf16SurrogatePair(utf16: bool, first: Unit, second: Unit) {
    utf16 && IsHigh(first) && IsLow(second)
  }

  /** Units of 16 bits if the string is UTF-16, else of 32. */
  predicate Fits(utf16: bool, s: seq<Unit>) {
    utf16 ==> forall i :: 0 <= i < |s| ==> s[i] < 0x10000
  }

  /** The code points of a wide string; an unpaired surrogate stands for itself. */
  ghost function Units(utf16: bool, s: seq<Unit>): seq<nat> {
    if s == [] then []
    else if |s| >= 2 && IsUtf16SurrogatePair(utf16, s[0], s[1]) then [Combine(s[0], s[1])] + Units(utf16, s[2..])
    else [s[0] as int] + Units(utf16, s[1..])
  }

  ghost function WrittenAll(cps: seq<nat>): seq<Byte> {
    if cps == [] then [] else Written(cps[0]) + WrittenAll(cps[1..])
  }

  /** The units before the terminator and within the given length. */
  ghost function Visible(s: seq<Unit>, n: nat): seq<Unit> {
    if s == [] || n == 0 || s[0] == 0 then [] else [s[0]] + Visible(s[1..], n - 1)
  }

  /** A read of a terminated wide string. */
  function At(s: seq<Unit>, i: nat): Unit
    requires i <= |s|
  {
    if i < |s| then s[i] else 0
  }

  method WcsLen(s: seq<Unit>) returns (n: nat)
    ensures n <= |s| && At(s, n) == 0 && forall i :: 0 <= i < n ==> s[i] != 0
  {
    n := 0;
    while At(s, n) != 0
      invariant n <= |s| && forall i :: 0 <= i < n ==> s[i] != 0
      decreases |s| - n
    {
      n := n + 1;
    }
  }

  /** The units from i on that a length limit of n leaves. */
  ghost function Rest(s: seq<Unit>, i: nat, n: nat): seq<Unit>
    requires i <= |s|
  {
    Visible(s[i..], if i <= n then n - i else 0)
  }

  lemma RestStep(s: seq<Unit>, i: nat, n: nat)
    requires i <= |s|
    ensures Rest(s, i, n) == if i < n && At(s, i) != 0 then [s[i]] + Rest(s, i + 1, n) else []
  {
    if i < |s| { assert s[i..][1..] == s[i + 1..]; }
  }

  /** Reads one code point at i, combining a surrogate pair. */
  method NextCodePoint(utf16: bool, str: seq<Unit>, i: nat, n: nat) returns (codePoint: nat, next: nat)
    requires i < n && i < |str| && str[i] != 0
    ensures i < next <= |str| && codePoint < 0x1_0000_0000
    ensures Units(utf16, Rest(str, i, n)) == [codePoint] + Units(utf16, Rest(str, next, n))
  {
    RestStep(str, i, n);
    RestStep(str, i + 1, n);
    ghost var units := Rest(str, i, n);
    if i + 1 < n && IsUtf16SurrogatePair(utf16, str[i], At(str, i + 1)) {
      codePoint := Combine(str[i], str[i + 1]);
      next := i + 2;
      assert units[2..] == Rest(str, next, n);
    } else {
      codePoint := str[i];
      next := i + 1;
      assert units[1..] == Rest(str, next, n);
    }
  }

  lemma WrittenCons(before: seq<Byte>, cp: nat, cps: seq<nat>)
    ensures before + WrittenAll([cp] + cps) == before + Written(cp) + WrittenAll(cps)
  {
    assert ([cp] + cps)[1..] == cps;
  }

  /** The loop: writes the units before n, or before the terminator if that comes first. */
  method WriteUnits(utf16: bool, str: seq<Unit>, n: nat) returns (stream: seq<Byte>)
    ensures stream == WrittenAll(Units(utf16, Visible(str, n)))
  {
    stream := [];
    var i := 0;
    ghost var rest := Units(utf16, Rest(str, 0, n));
    ghost var all := WrittenAll(rest);
    assert str[0..] == str;
    while i < n && At(str, i) != 0
      invariant i <= |str| && rest == Units(utf16, Rest(str, i, n))
      invariant stream + WrittenAll(rest) == all
      decreases |str| - i
    {
      var codePoint, next := NextCodePoint(utf16, str, i, n);
      var text := CodePointToUtf8(codePoint);
      rest := Units(utf16, Rest(str, next, n));
      WrittenCons(stream, codePoint, rest);
      stream := stream + text;
      i := next;
    }
    RestStep(str, i, n);
  }

  method WideStringToUtf8(utf16: bool, str: seq<Unit>, numChars: int) returns (stream: seq<Byte>)
    requires Fits(utf16, str)
    ensures stream == WrittenAll(Units(utf16, Visible(str, Limit(str, numChars))))
    // the output is UTF-8 exactly if no surrogate is unpaired (UTF-16) or each unit can be written (UTF-32)
    ensures IsUtf8(stream) <==> Encodable(utf16, Visible(str, Limit(str, numChars)))
  {
    ghost var visible := Visible(str, Limit(str, numChars));
    if numChars == -1 {
      var n := WcsLen(str);
      VisibleUpTo(str, n);
      stream := WriteUnits(utf16, str, n);
    } else {
      stream := WriteUnits(utf16, str, if numChars < 0 then 0 else numChars);
    }
    VisibleFits(utf16, str, Limit(str, numChars));
    OutputOfUnits(utf16, visible);
  }

  /** How many units count: all for -1, none for other negative numbers. */
  function Limit(str: seq<Unit>, numChars: int): nat {
    if numChars == -1 then |str| else if numChars < 0 then 0 else numChars
  }

  /** Every high surrogate is followed by a low one, and every low one preceded by a high one. */
  ghost predicate Paired(s: seq<Unit>) {
    && (forall i :: 0 <= i < |s| && IsHigh(s[i]) ==> i + 1 < |s| && IsLow(s[i + 1]))
    && (forall i :: 0 <= i < |s| && IsLow(s[i]) ==> i > 0 && IsHigh(s[i - 1]))
  }

  lemma PairedBehindPair(s: seq<Unit>)
    requires |s| >= 2 && IsHigh(s[0]) && IsLow(s[1])
    ensures Paired(s) <==> Paired(s[2..])
  {
    var t := s[2..];
    assert forall i :: 2 <= i < |s| ==> s[i] == t[i - 2];
    if Paired(t) {
      forall i | 0 <= i < |s| && IsHigh(s[i])
        ensures i + 1 < |s| && IsLow(s[i + 1])
      {
        if i >= 2 { assert IsHigh(t[i - 2]); }
      }
      forall i | 0 <= i < |s| && IsLow(s[i])
        ensures i > 0 && IsHigh(s[i - 1])
      {
        if i >= 2 { assert IsLow(t[i - 2]); }
      }
    }
  }

  lemma PairedBehindOther(s: seq<Unit>)
    requires s != [] && !IsHigh(s[0]) && !IsLow(s[0])
    ensures Paired(s) <==> Paired(s[1..])
  {
    var t := s[1..];
    assert forall i :: 1 <= i < |s| ==> s[i] == t[i - 1];
    if Paired(t) {
      forall i | 0 <= i < |s| && IsHigh(s[i])
        ensures i + 1 < |s| && IsLow(s[i + 1])
      {
        assert IsHigh(t[i - 1]);
      }
      forall i | 0 <= i < |s| && IsLow(s[i])
        ensures i > 0 && IsHigh(s[i - 1])
      {
        assert IsLow(t[i - 1]);
      }
    }
  }

  /** What is written for cp is UTF-8. */
  predicate Writable(cp: nat) {
    IsScalar(cp) || cp > 0x1FFFFF
  }

  ghost predicate AllWritable(cps: seq<nat>) {
    cps == [] || (Writable(cps[0]) && AllWritable(cps[1..]))
  }

  /** In UTF-16 every surrogate has its partner; in UTF-32 each unit can be written. */
  ghost predicate Encodable(utf16: bool, s: seq<Unit>) {
    if utf16 then Paired(s) else forall i :: 0 <= i < |s| ==> Writable(s[i])
  }

  /** What is read from UTF-16 can be written exactly when its surrogates are paired. */
  lemma {:induction false} WritableIffPaired(s: seq<Unit>)
    requires Fits(true, s)
    ensures AllWritable(Units(true, s)) <==> Paired(s)
  {
    if s == [] {
    } else if |s| >= 2 && IsUtf16SurrogatePair(true, s[0], s[1]) {
      WritableIffPaired(s[2..]);
      PairedBehindPair(s);
      WritableCons(Combine(s[0], s[1]), Units(true, s[2..]));
    } else {
      WritableIffPaired(s[1..]);
      WritableCons(s[0], Units(true, s[1..]));
      if !IsHigh(s[0]) && !IsLow(s[0]) {
        PairedBehindOther(s);
      } else {
        assert !Writable(s[0]) && !Paired(s);
      }
    }
  }

  lemma WritableCons(cp: nat, cps: seq<nat>)
    ensures AllWritable([cp] + cps) <==> Writable(cp) && AllWritable(cps)
  {
    assert ([cp] + cps)[1..] == cps;
  }

  lemma {:induction false} WritableEach(s: seq<Unit>)
    ensures AllWritable(Units(false, s)) <==> forall i :: 0 <= i < |s| ==> Writable(s[i])
  {
    if s != [] {
      WritableEach(s[1..]);
      WritableCons(s[0], Units(false, s[1..]));
      assert forall i :: 1 <= i < |s| ==> s[i] == s[1..][i - 1];
    }
  }

  /** The units that count: those before the first NUL, before the end, and no more than asked for. */
  lemma {:induction false} VisibleMeaning(s: seq<Unit>, n: nat)
    ensures var v := Visible(s, n);
            && v <= s && |v| <= n && 0 !in v
            && (|v| < |s| && |v| < n ==> s[|v|] == 0)
  {
    if s != [] && n > 0 && s[0] != 0 {
      VisibleMeaning(s[1..], n - 1);
      var v := Visible(s[1..], n - 1);
      assert Visible(s, n) == [s[0]] + v;
      assert s == [s[0]] + s[1..];
    }
  }

  /** All units for -1, none for any other negative number. */
  lemma LimitMeaning(str: seq<Unit>, numChars: int)
    ensures var v := Visible(str, Limit(str, numChars));
            && (numChars < -1 ==> v == [])
            && (numChars == -1 && 0 !in str ==> v == str)
            && (numChars >= 0 && numChars <= |str| && 0 !in str[..numChars] ==> v == str[..numChars])
  {
    var v := Visible(str, Limit(str, numChars));
    VisibleMeaning(str, Limit(str, numChars));
    if |v| < |str| && |v| < Limit(str, numChars) {
      assert str[|v|] in str;
      assert numChars >= 0 && numChars <= |str| ==> str[..numChars][|v|] == str[|v|];
    }
  }

  lemma OutputOfUnits(utf16: bool, s: seq<Unit>)
    requires Fits(utf16, s)
    ensures IsUtf8(WrittenAll(Units(utf16, s))) <==> Encodable(utf16, s)
  {
    ValidOutput(Units(utf16, s));
    if utf16 {
      WritableIffPaired(s);
    } else {
      WritableEach(s);
    }
  }

  lemma {:induction false} VisibleFits(utf16: bool, s: seq<Unit>, n: nat)
    requires Fits(utf16, s)
    ensures Fits(utf16, Visible(s, n))
  {
    if s != [] && n > 0 {
      VisibleFits(utf16, s[1..], n - 1);
    }
  }

  lemma {:induction false} VisibleUpTo(s: seq<Unit>, n: nat)
    requires n <= |s| && At(s, n) == 0 && forall i :: 0 <= i < n ==> s[i] != 0
    ensures Visible(s, n) == s[..n] == Visible(s, |s|)
  {
    if n > 0 {
      VisibleUpTo(s[1..], n - 1);
      assert s[..n] == [s[0]] + s[1..][..n - 1];
    } else {
      assert s[..0] == [];
    }
  }

  // ---------- Well-formed UTF-16 ----------

  function Utf16(cp: nat): seq<Unit>
    requires IsScalar(cp)
  {
    if cp < 0x10000 then [cp]
    else [0xD800 + (cp - 0x10000) / 1024, 0xDC00 + (cp - 0x10000) % 1024]
  }

  function Utf16All(cps: seq<nat>): seq<Unit>
    requires AllScalar(cps)
  {
    if cps == [] then [] else Utf16(cps[0]) + Utf16All(cps[1..])
  }

  lemma {:induction false} UnitsOfUtf16(cps: seq<nat>)
    requires AllScalar(cps)
    ensures Units(true, Utf16All(cps)) == cps && Fits(true, Utf16All(cps))
  {
    if cps != [] {
      UnitsOfUtf16(cps[1..]);
      var s, rest, n := Utf16All(cps), Utf16All(cps[1..]), |Utf16(cps[0])|;
      assert s[n..] == rest;
      assert cps == [cps[0]] + cps[1..];
    }
  }

  lemma {:induction false} NulFreeUtf16(cps: seq<nat>)
    requires AllScalar(cps) && 0 !in cps
    ensures 0 !in Utf16All(cps)
  {
    if cps != [] {
      NulFreeUtf16(cps[1..]);
      assert cps[0] in cps;
    }
  }

  lemma {:induction false} WrittenScalars(cps: seq<nat>)
    requires AllScalar(cps) && 0 !in cps
    ensures WrittenAll(cps) == EncodeAll(cps)
  {
    if cps != [] {
      WrittenScalars(cps[1..]);
      assert cps[0] in cps;
    }
  }

  lemma {:induction false} UnitsOfUtf32(s: seq<Unit>)
    ensures Units(false, s) == s
  {
    if s != [] {
      UnitsOfUtf32(s[1..]);
    }
  }

  /** Well-formed UTF-16 or UTF-32 without NUL becomes the UTF-8 of the same code points. */
  method Transcode(utf16: bool, str: seq<Unit>, ghost cps: seq<nat>) returns (text: seq<Byte>)
    requires AllScalar(cps) && 0 !in cps && str == if utf16 then Utf16All(cps) else cps
    ensures text == EncodeAll(cps)
  {
    NulFreeUtf16(cps);
    VisibleUpTo(str, |str|);
    assert str[..|str|] == str;
    UnitsOfUtf16(cps);
    UnitsOfUtf32(str);
    WrittenScalars(cps);
    text := WideStringToUtf8(utf16, str, -1);
  }

  lemma {:induction false} AsciiThenRest(s: seq<Byte>, rest: seq<Byte>)
    requires forall i :: 0 <= i < |s| ==> s[i] <= 0x7F
    ensures WellFormed(s + rest) <==> WellFormed(rest)
  {
    if s == [] {
      assert s + rest == rest;
    } else {
      AsciiThenRest(s[1..], rest);
      CharThenRest([s[0]], s[1..] + rest);
      assert s + rest == [s[0]] + (s[1..] + rest);
    }
  }

  /** What is written is UTF-8 for one code point more exactly if it is for that one. */
  lemma OneMoreWritten(cp: nat, rest: seq<Byte>)
    ensures WellFormed(Written(cp) + rest) <==> Writable(cp) && WellFormed(rest)
  {
    if cp > 0x1FFFFF {
      HexIsAscii(cp);
      assert forall i :: 0 <= i < |INVALID_UNICODE| ==> INVALID_UNICODE[i] <= 0x7F;
      AsciiThenRest(Written(cp), rest);
    } else if cp == 0 {
      assert Written(cp) + rest == rest;
    } else {
      EncodedIsChar(cp);
      if IsScalar(cp) {
        CharThenRest(Encode(cp), rest);
      } else {
        NonScalarHead(cp, rest);
      }
    }
  }

  /** The output is valid UTF-8 exactly when every code point can be written. */
  lemma {:induction false} ValidOutput(cps: seq<nat>)
    ensures IsUtf8(WrittenAll(cps)) <==> AllWritable(cps)
  {
    WellFormedIsUtf8(WrittenAll(cps));
    if cps != [] {
      ValidOutput(cps[1..]);
      WellFormedIsUtf8(WrittenAll(cps[1..]));
      OneMoreWritten(cps[0], WrittenAll(cps[1..]));
    }
  }
}
