/** The prime tables of the samples: trial division, the sieve, and their hybrid, against
    mathematical primality. */
module Primes {

  // ---------- Primality ----------

  ghost predicate Divides(d: nat, n: nat)
    requires d > 0
  {
    exists k: nat :: n == d * k
  }

  ghost predicate IsPrimeNumber(n: int) {
    n >= 2 && forall d: nat :: 2 <= d < n ==> !Divides(d, n)
  }

  /** The least prime above p. */
  ghost predicate IsNextPrime(p: int, q: int) {
    && p < q && IsPrimeNumber(q)
    && forall n :: p < n < q ==> !IsPrimeNumber(n)
  }

  lemma DividesIsMod(d: nat, n: nat)
    requires d > 0
    ensures Divides(d, n) <==> n % d == 0
  {
    if n % d == 0 {
      assert n == d * (n / d);
    }
    if Divides(d, n) {
      var k: nat :| n == d * k;
      ModMultiple(d, k);
    }
  }

  lemma ModMultiple(d: nat, k: nat)
    requires d > 0
    ensures (d * k) % d == 0
  {
    var q := d * k / d;
    assert d * k == d * q + d * k % d;
    assert d * (q + 1) == d * q + d;
    MulOrder(d, q + 1, k);
    MulOrder(d, k, q);
  }

  lemma MulOrder(c: nat, a: nat, b: nat)
    ensures a <= b ==> c * a <= c * b
    ensures a < b && c > 0 ==> c * a < c * b
  {
    if a <= b {
      assert c * (b - a) >= 0;
      assert c * b == c * a + c * (b - a);
      if a < b && c > 0 { MulPositive(c, b - a); }
    }
  }

  lemma MulPositive(a: nat, b: nat)
    requires a > 0 && b > 0
    ensures a * b > 0
  {
  }

  /** The cofactor of a divisor of n. */
  lemma Cofactor(d: nat, n: nat) returns (k: nat)
    requires 2 <= d < n && Divides(d, n)
    ensures n == d * k == k * d && 2 <= k < n
    ensures n < d * d ==> k < d
    ensures d * d < n ==> d < k
  {
    k :| n == d * k;
    MulOrder(d, k, 1);
    MulOrder(d, d, k);
    MulOrder(d, k, d);
    MulOrder(k, 2, d);
    assert d * k == k * d;
  }

  lemma DividesTransitive(a: nat, b: nat, c: nat)
    requires a > 0 && b > 0 && Divides(a, b) && Divides(b, c)
    ensures Divides(a, c)
  {
    var j: nat :| b == a * j;
    var k: nat :| c == b * k;
    assert c == a * (j * k);
  }

  /** Every composite number has a divisor no larger than its square root. */
  lemma SmallDivisor(n: nat) returns (d: nat)
    requires n >= 2 && !IsPrimeNumber(n)
    ensures 2 <= d < n && d * d <= n && Divides(d, n)
  {
    d :| 2 <= d < n && Divides(d, n);
    if d * d > n {
      var k := Cofactor(d, n);
      MulOrder(k, k, d);
      assert Divides(k, n);
      d := k;
    }
  }

  /** Every number above 1 has a prime divisor. */
  lemma {:induction false} PrimeDivisor(n: nat) returns (p: nat)
    requires n >= 2
    ensures IsPrimeNumber(p) && p <= n && Divides(p, n)
    decreases n
  {
    if IsPrimeNumber(n) {
      assert n == n * 1;
      return n;
    }
    var d := SmallDivisor(n);
    p := PrimeDivisor(d);
    DividesTransitive(p, d, n);
  }

  // ---------- There is always a larger prime ----------

  ghost function Factorial(n: nat): (f: nat)
    ensures f >= 1
  {
    if n == 0 then 1 else n * Factorial(n - 1)
  }

  lemma {:induction false} FactorialDivisible(d: nat, n: nat)
    requires 1 <= d <= n
    ensures Divides(d, Factorial(n))
  {
    if d == n {
      assert Factorial(n) == d * Factorial(n - 1);
    } else {
      FactorialDivisible(d, n - 1);
      var k: nat :| Factorial(n - 1) == d * k;
      assert Factorial(n) == d * (n * k) by { assert n * (d * k) == d * (n * k); }
    }
  }

  /** Two neighbours have no common divisor above 1. */
  lemma NeighboursAreCoprime(d: nat, n: nat)
    requires d >= 2 && Divides(d, n)
    ensures !Divides(d, n + 1)
  {
    var j: nat :| n == d * j;
    forall k: nat
      ensures n + 1 != d * k
    {
      MulOrder(d, k, j);
      MulOrder(d, j + 1, k);
      assert d * (j + 1) == n + d;
    }
  }

  lemma LargerPrime(p: nat) returns (q: nat)
    ensures IsPrimeNumber(q) && q > p
  {
    q := PrimeDivisor(Factorial(p) + 1);
    if q <= p {
      FactorialDivisible(q, p);
      NeighboursAreCoprime(q, Factorial(p));
    }
  }

  lemma ExistsLargerPrime(p: nat)
    ensures exists q :: q > p && IsPrimeNumber(q)
  {
    var q := LargerPrime(p);
  }

  // ---------- On the fly ----------

  method OnTheFlyIsPrime(n: int) returns (prime: bool)
    ensures prime <==> IsPrimeNumber(n)
  {
    if n <= 1 {
      return false;
    }
    var i := 2;
    while i * i <= n
      invariant 2 <= i <= n + 1
      invariant forall d: nat :: 2 <= d < i && d < n ==> !Divides(d, n)
      decreases n + 1 - i
    {
      DividesIsMod(i, n);
      Below(i, n);
      if n % i == 0 {
        return false;
      }
      i := i + 1;
    }
    if !IsPrimeNumber(n) {
      ghost var d := SmallDivisor(n);
      SquareOrder(d, i);
      assert false;
    }
    return true;
  }

  lemma Below(i: nat, n: nat)
    requires i >= 2 && i * i <= n
    ensures i < n
  {
    assert i * i >= 2 * i;
  }

  lemma SquareOrder(d: nat, i: nat)
    requires d * d < i * i
    ensures d < i
  {
    MulOrder(i, i, d);
    MulOrder(d, i, d);
    assert i * d == d * i;
  }

  method OnTheFlyGetNextPrime(p: int) returns (next: int)
    ensures if p < 0 then next == -1 else IsNextPrime(p, next)
  {
    if p < 0 {
      return -1;
    }
    ExistsLargerPrime(p);
    ghost var bound :| bound > p && IsPrimeNumber(bound);
    var n := p + 1;
    while true
      invariant p < n <= bound
      invariant forall m :: p < m < n ==> !IsPrimeNumber(m)
      decreases bound - n
    {
      var prime := OnTheFlyIsPrime(n);
      if prime {
        return n;
      }
      n := n + 1;
    }
  }

  // ---------- The sieve ----------

  /** n has no divisor below i other than 1 and itself. */
  ghost predicate Survives(n: nat, i: nat) {
    n >= 2 && forall d: nat :: 2 <= d < i && d < n ==> !Divides(d, n)
  }

  /** An index that has been struck out adds nothing: its divisors did all of its work. */
  lemma StruckIndexAddsNothing(n: nat, i: nat)
    requires i >= 2 && !Survives(i, i)
    ensures Survives(n, i + 1) <==> Survives(n, i)
  {
    if Survives(n, i) && i < n && Divides(i, n) {
      var d: nat :| 2 <= d < i && Divides(d, i);
      DividesTransitive(d, i, n);
    }
  }

  /** Even indices above 2 are skipped for the same reason. */
  lemma EvenIndexAddsNothing(n: nat, i: nat)
    requires i > 2 && i % 2 == 0
    ensures Survives(n, i + 1) <==> Survives(n, i)
  {
    DividesIsMod(2, i);
    StruckIndexAddsNothing(n, i);
  }

  /** Below i * i every multiple of i has a smaller divisor already. */
  lemma StartAtSquare(n: nat, i: nat)
    requires i >= 2 && n < i * i && Divides(i, n) && i < n
    ensures !Survives(n, i)
  {
    var k := Cofactor(i, n);
    assert Divides(k, n);
  }

  class PreCalculatedPrimeTable {
    const isPrimeSize: int
    const isPrime: array<bool>

    ghost predicate Valid()
      reads this, isPrime
    {
      && isPrimeSize == isPrime.Length >= 2
      && forall n :: 0 <= n < isPrimeSize ==> (isPrime[n] <==> IsPrimeNumber(n))
    }

    /** The table needs room for index 1, which is always written. */
    constructor (max: int)
      requires max >= 1
      ensures Valid() && isPrimeSize == max + 1
    {
      isPrimeSize := if max + 1 > 1 then max + 1 else 1;
      isPrime := new bool[if max + 1 > 1 then max + 1 else 1];
      new;
      CalculatePrimesUpTo(isPrimeSize - 1);
    }

    method CalculatePrimesUpTo(max: int)
      requires isPrimeSize == isPrime.Length >= 2 && max == isPrimeSize - 1
      modifies isPrime
      ensures Valid()
    {
      for n := 0 to isPrime.Length
        invariant forall m :: 0 <= m < n ==> isPrime[m]
      {
        isPrime[n] := true;
      }
      isPrime[0], isPrime[1] := false, false;
      var i := 2;
      while i * i <= max
        invariant 2 <= i && (i == 2 || i % 2 == 1) && i <= max + 2
        invariant forall n :: 0 <= n <= max ==> (isPrime[n] <==> Survives(n, i))
        decreases max + 2 - i
      {
        Below(i, max);
        if isPrime[i] {
          Strike(i, max);
        } else {
          ghost var next := i + 1;
          forall n | 0 <= n <= max
            ensures Survives(n, next) <==> Survives(n, i)
          {
            StruckIndexAddsNothing(n, i);
          }
        }
        ghost var struck := i + 1;
        i := i + i % 2 + 1;
        forall n | 0 <= n <= max
          ensures Survives(n, i) <==> Survives(n, struck)
        {
          if struck < i { EvenIndexAddsNothing(n, struck); }
        }
      }
      forall n | 0 <= n <= max
        ensures Survives(n, i) <==> IsPrimeNumber(n)
      {
        if n >= 2 && !IsPrimeNumber(n) {
          var d := SmallDivisor(n);
          SquareOrder(d, i);
        }
      }
    }

    /** Strikes out the multiples of i, from its square on. */
    method Strike(i: int, max: int)
      requires isPrimeSize == isPrime.Length && max == isPrimeSize - 1 && 2 <= i && i * i <= max
      requires forall n :: 0 <= n <= max ==> (isPrime[n] <==> Survives(n, i))
      modifies isPrime
      ensures forall n :: 0 <= n <= max ==> (isPrime[n] <==> Survives(n, i + 1))
    {
      var j := i * i;
      ghost var k := i;
      while j <= max
        invariant j == i * k && k >= i
        invariant forall n :: 0 <= n <= max ==>
                    (isPrime[n] <==> Survives(n, i) && !(i * i <= n < j && Divides(i, n)))
        decreases max - j
      {
        assert Divides(i, j);
        assert i * (k + 1) == j + i;
        forall n | j < n < j + i
          ensures !Divides(i, n)
        {
          BetweenMultiples(i, k, n);
        }
        isPrime[j] := false;
        j := j + i;
        k := k + 1;
      }
      ghost var next := i + 1;
      forall n | 0 <= n <= max
        ensures Survives(n, next) <==> Survives(n, i) && !(i * i <= n < j && Divides(i, n))
      {
        if i < n < i * i && Divides(i, n) {
          StartAtSquare(n, i);
        }
        Below(i, i * i);
      }
    }

    method IsPrime(n: int) returns (prime: bool)
      requires Valid()
      ensures prime <==> n < isPrimeSize && IsPrimeNumber(n)
    {
      return 0 <= n < isPrimeSize && isPrime[n];
    }

    /** Below -1 the source would read in front of the table. */
    method GetNextPrime(p: int) returns (next: int)
      requires Valid() && p >= -1
      ensures next == -1 || (IsNextPrime(p, next) && next < isPrimeSize)
      ensures next == -1 <==> forall n :: p < n < isPrimeSize ==> !IsPrimeNumber(n)
    {
      var n := p + 1;
      while n < isPrimeSize
        invariant p < n
        invariant forall m :: p < m < n && m < isPrimeSize ==> !IsPrimeNumber(m)
        decreases isPrimeSize - n
      {
        if isPrime[n] {
          return n;
        }
        n := n + 1;
      }
      return -1;
    }
  }

  lemma BetweenMultiples(i: nat, k: nat, n: nat)
    requires i > 0 && i * k < n < i * k + i
    ensures !Divides(i, n)
  {
    forall q: nat
      ensures n != i * q
    {
      MulOrder(i, q, k);
      MulOrder(i, k + 1, q);
      assert i * (k + 1) == i * k + i;
    }
  }

  // ---------- The hybrid ----------

  class HybridPrimeTable {
    const precalc: PreCalculatedPrimeTable?
    const maxPrecalculated: int

    ghost predicate Valid()
      reads this, precalc, if precalc != null then {precalc.isPrime} else {}
    {
      precalc != null ==> precalc.Valid() && precalc.isPrimeSize == maxPrecalculated + 1
    }

    constructor (forceOnTheFly: bool, max: int)
      requires forceOnTheFly || max >= 1
      ensures Valid() && maxPrecalculated == max && (precalc == null <==> forceOnTheFly)
    {
      if forceOnTheFly {
        precalc := null;
      } else {
        precalc := new PreCalculatedPrimeTable(max);
      }
      maxPrecalculated := max;
    }

    method IsPrime(n: int) returns (prime: bool)
      requires Valid()
      ensures prime <==> IsPrimeNumber(n)
    {
      if precalc != null && n < maxPrecalculated {
        prime := precalc.IsPrime(n);
      } else {
        prime := OnTheFlyIsPrime(n);
      }
    }

    method GetNextPrime(p: int) returns (next: int)
      requires Valid() && (precalc != null ==> p >= -1)
      ensures p >= 0 ==> IsNextPrime(p, next)
      ensures p < 0 ==> next == if precalc != null && p < maxPrecalculated && maxPrecalculated >= 2 then 2 else -1
    {
      next := -1;
      if precalc != null && p < maxPrecalculated {
        next := precalc.GetNextPrime(p);
        TwoIsPrime();
      }
      if next == -1 {
        next := OnTheFlyGetNextPrime(p);
      }
    }
  }

  lemma TwoIsPrime()
    ensures IsPrimeNumber(2) && forall n :: n < 2 ==> !IsPrimeNumber(n)
  {
  }
}
