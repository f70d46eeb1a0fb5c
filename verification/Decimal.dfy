/** Printing 128-bit integers in decimal with two 64-bit words. */
module Decimal {

  const TWO64: int := 0x1_0000_0000_0000_0000
  const TWO127: int := 0x8000_0000_0000_0000_0000_0000_0000_0000
  const TWO128: int := 0x1_0000_0000_0000_0000_0000_0000_0000_0000

  /** The result of unsigned arithmetic modulo 2^64 and 2^128. */
  function U64(x: int): (r: nat)
    ensures r < TWO64 && (0 <= x < TWO64 ==> r == x)
  {
    x % TWO64
  }

  function U128(x: int): (r: nat)
    ensures r < TWO128 && (0 <= x < TWO128 ==> r == x) && (-TWO128 <= x < 0 ==> r == x + TWO128)
  {
    x % TWO128
  }

  // ---------- Decimal numerals ----------

  predicate IsDigit(c: char) {
    '0' <= c <= '9'
  }

  function DigitChar(d: nat): char
    requires d < 10
  {
    '0' + d as char
  }

  function DigitValue(c: char): nat
    requires IsDigit(c)
  {
    (c - '0') as nat
  }

  ghost predicate IsNumeral(s: string) {
    s != [] && (forall i :: 0 <= i < |s| ==> IsDigit(s[i])) && (|s| > 1 ==> s[0] != '0')
  }

  ghost function Value(s: string): nat
    requires forall i :: 0 <= i < |s| ==> IsDigit(s[i])
  {
    if s == [] then 0 else 10 * Value(s[..|s| - 1]) + DigitValue(s[|s| - 1])
  }

  ghost function Numeral(n: nat): string {
    if n < 10 then [DigitChar(n)] else Numeral(n / 10) + [DigitChar(n % 10)]
  }

  /** Numeral is the canonical decimal representation: its value is n ... */
  lemma {:induction false} NumeralDenotes(n: nat)
    ensures IsNumeral(Numeral(n)) && Value(Numeral(n)) == n
    ensures n > 0 ==> Numeral(n)[0] != '0'
  {
    var s := Numeral(n);
    if n >= 10 {
      NumeralDenotes(n / 10);
      assert s[..|s| - 1] == Numeral(n / 10);
    } else {
      assert s[..0] == [];
    }
  }

  /** ... and it is the only numeral without leading zeros that has this value. */
  lemma {:induction false} NumeralIsUnique(s: string)
    requires IsNumeral(s)
    ensures s == Numeral(Value(s))
  {
    var front, last := s[..|s| - 1], s[|s| - 1];
    assert s == front + [last];
    if |s| > 1 {
      assert front[0] == s[0];
      NumeralIsUnique(front);
      LeadingDigit(front);
    } else {
      assert front == [];
    }
  }

  lemma {:induction false} LeadingDigit(s: string)
    requires IsNumeral(s) && s[0] != '0'
    ensures Value(s) > 0
  {
    if |s| > 1 {
      assert s[..|s| - 1][0] == s[0];
      LeadingDigit(s[..|s| - 1]);
    }
  }

  ghost function Pow10(k: nat): (p: nat)
    ensures p > 0
  {
    if k == 0 then 1 else 10 * Pow10(k - 1)
  }

  lemma {:induction false} NumeralLength(n: nat, k: nat)
    requires k > 0 && n < Pow10(k)
    ensures 0 < |Numeral(n)| <= k
  {
    if n >= 10 {
      assert Pow10(1) == 10 * Pow10(0);
      NumeralLength(n / 10, k - 1);
    }
  }

  lemma ThirtyNineDigits()
    ensures TWO128 <= Pow10(39)
  {
    assert Pow10(8) == 1_0000_0000;
    assert Pow10(16) == 1_0000_0000_0000_0000;
    assert Pow10(24) == 1_0000_0000_0000_0000_0000_0000;
    assert Pow10(32) == 1_0000_0000_0000_0000_0000_0000_0000_0000;
  }

  // ---------- Long division by 10 ----------

  function Join(high: nat, low: nat): nat {
    high * TWO64 + low
  }

  const QUOTIENT: nat := 1844674407370955161

  /** One step of the long division: the true quotient and remainder, no word overflowing. */
  lemma DivisionStep(high: nat, low: nat)
    requires high < TWO64 && low < TWO64
    ensures var carry := 6 * (high % 10) + low % 10;
            var low' := low / 10 + (high % 10) * QUOTIENT + carry / 10;
            && carry < TWO64 && low' < TWO64
            && Join(high / 10, low') == Join(high, low) / 10
            && carry % 10 == Join(high, low) % 10
  {
    var m, d := high % 10, high / 10;
    assert TWO64 == 10 * QUOTIENT + 6;
    assert high == 10 * d + m && low == 10 * (low / 10) + low % 10;
    var carry := 6 * m + low % 10;
    assert carry == 10 * (carry / 10) + carry % 10;
    var low' := low / 10 + m * QUOTIENT + carry / 10;
    assert Join(high, low) == 10 * Join(d, low') + carry % 10;
  }

  method DivideByTen(high: nat, low: nat) returns (high': nat, low': nat, digit: nat)
    requires high < TWO64 && low < TWO64
    ensures Holds(high', low', Join(high, low) / 10) && digit == Join(high, low) % 10
  {
    DivisionStep(high, low);
    var highMod := high % 10;
    high' := high / 10;
    var carry := U64(6 * highMod + low % 10);
    low' := U64(low / 10 + highMod * QUOTIENT + carry / 10);
    digit := carry % 10;
  }

  /** The digits of n that are still to be printed. */
  ghost function Remaining(n: nat): string {
    if n == 0 then [] else Numeral(n)
  }

  lemma RemainingStep(n: nat)
    requires n > 0
    ensures Remaining(n) == Remaining(n / 10) + [DigitChar(n % 10)]
  {
  }

  /** The two words hold n. */
  ghost predicate Holds(high: nat, low: nat, n: nat) {
    high < TWO64 && low < TWO64 && n == Join(high, low)
  }

  lemma HoldsZero(high: nat, low: nat, n: nat)
    requires Holds(high, low, n)
    ensures n == 0 <==> high == 0 && low == 0
  {
  }

  /** Writes the digits backwards from the end of the buffer; they start at p. */
  method WriteDigits(v: nat, buf: array<char>) returns (p: nat)
    requires 0 < v < TWO128 && buf.Length == 40
    modifies buf
    ensures p <= 39 && buf[p..39] == Numeral(v) && buf[39] == '\0'
  {
    p := 39;
    buf[p] := '\0';
    var high: nat, low: nat := v / TWO64, v % TWO64;
    ghost var n := v;
    ThirtyNineDigits();
    NumeralLength(v, 39);
    HoldsZero(high, low, n);
    while high != 0 || low != 0
      invariant Holds(high, low, n) && (n == 0 <==> high == 0 && low == 0)
      invariant p <= 39 && Numeral(v) == Remaining(n) + buf[p..39] && buf[39] == '\0'
      decreases n
    {
      RemainingStep(n);
      var digit;
      high, low, digit := DivideByTen(high, low);
      p := WriteBefore(buf, p, DigitChar(digit));
      n := n / 10;
      HoldsZero(high, low, n);
    }
  }

  method WriteBefore(buf: array<char>, p: nat, c: char) returns (p': nat)
    requires 0 < p <= 39 < buf.Length
    modifies buf
    ensures p' == p - 1 && buf[p'..39] == [c] + old(buf[p..39]) && buf[39] == old(buf[39])
  {
    p' := p - 1;
    buf[p'] := c;
    assert buf[p'..39] == [buf[p']] + buf[p..39] && buf[p..39] == old(buf[p..39]);
  }

  method PrintUnsigned(v: nat) returns (text: string)
    requires v < TWO128
    ensures text == Numeral(v)
  {
    if v == 0 {
      return "0";
    }
    var buf := new char[40];
    var p := WriteDigits(v, buf);
    text := buf[p..39];
  }

  method PrintSigned(v: int) returns (text: string)
    requires -TWO127 <= v < TWO127
    ensures text == if v < 0 then "-" + Numeral(-v) else Numeral(v)
  {
    var uv: nat := U128(v);
    text := "";
    if v < 0 {
      text := "-";
      uv := U128(-(uv as int));
    }
    assert uv == if v < 0 then -v else v;
    var digits := PrintUnsigned(uv);
    text := text + digits;
  }
}
