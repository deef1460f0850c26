/** Table sizes: the search for a prime that holds so many entries. */
module Primes {
  import opened Arith
  import opened Probe

  /** The first primes, which no table size is divisible by; 0 ends the list. */
  const QUICK: seq<nat> := [2, 3, 5, 7, 11, 13, 17, 19, 23, 29, 31, 37, 0]

  ghost predicate Divides(d: nat, n: nat) {
    exists e: nat :: Times(d, e) == n
  }

  function Times(d: nat, e: nat): nat {
    d * e
  }

  ghost predicate Prime(n: nat) {
    n >= 2 && forall d :: 2 <= d < n ==> !Divides(d, n)
  }

  /** What isprime() accepts, apart from 1. */
  ghost predicate TablePrime(n: nat) {
    Prime(n) && n > 37
  }

  // ----- division

  lemma RemainderIsZero(x: nat, d: nat)
    requires d > 0
    ensures x % d == 0 <==> Divides(d, x)
  {
    if x % d == 0 {
      assert Times(d, x / d) == x;
    } else if Divides(d, x) {
      var e: nat :| Times(d, e) == x;
      ExactQuotient(x, d, e);
    }
  }

  lemma ExactQuotient(x: nat, d: nat, e: nat)
    requires d > 0 && d * e == x
    ensures x % d == 0
  {
    var q, r := x / d, x % d;
    assert x == d * q + r;
    if e <= q {
      if e < q {
        ProductGrows(d, e, q);
      }
    } else {
      ProductGrows(d, q, e);
    }
  }

  lemma DividesTransitive(a: nat, b: nat, c: nat)
    requires Divides(a, b) && Divides(b, c)
    ensures Divides(a, c)
  {
    var e: nat :| Times(a, e) == b;
    var f: nat :| Times(b, f) == c;
    assert Times(a, e * f) == c;
  }

  lemma DividesItself(n: nat)
    ensures Divides(n, n)
  {
    assert Times(n, 1) == n;
  }

  /** A number that has no divisor below u is prime, if its square root is below u. */
  lemma PrimeBySquareRoot(x: nat, u: nat)
    requires x >= 2 && x < u * u
    requires forall d :: 2 <= d < u && d < x ==> !Divides(d, x)
    ensures Prime(x)
  {
    forall d | 2 <= d < x
      ensures !Divides(d, x)
    {
      if Divides(d, x) {
        var c := SmallDivisor(x, d, u);
      }
    }
  }

  lemma SmallDivisor(x: nat, d: nat, u: nat) returns (c: nat)
    requires Divides(d, x) && x < u * u && 2 <= d < x
    ensures 2 <= c < x && c < u && Divides(c, x)
  {
    var e: nat :| Times(d, e) == x;
    if d >= u && e >= u {
      ProductOrder(u, u, d, e);
    }
    if e >= x {
      ProductOrder(2, x, d, e);
    }
    assert Times(e, d) == x;
    c := if d < u then d else e;
  }

  // ----- there is always a larger prime

  function Factorial(n: nat): (f: nat)
    ensures f >= 1
  {
    if n == 0 then 1 else n * Factorial(n - 1)
  }

  lemma {:induction false} FactorialDivides(n: nat, d: nat)
    requires 1 <= d <= n
    ensures Divides(d, Factorial(n))
  {
    if d == n {
      assert Times(n, Factorial(n - 1)) == Factorial(n);
    } else {
      FactorialDivides(n - 1, d);
      assert Times(Factorial(n - 1), n) == Factorial(n);
      DividesTransitive(d, Factorial(n - 1), Factorial(n));
    }
  }

  /** Every number from 2 on has a prime divisor. */
  lemma {:induction false} PrimeDivisor(n: nat, d: nat) returns (p: nat)
    requires 2 <= d <= n && Divides(d, n)
    ensures Prime(p) && Divides(p, n) && p <= d
    decreases d
  {
    if Prime(d) {
      p := d;
    } else {
      var c :| 2 <= c < d && Divides(c, d);
      DividesTransitive(c, d, n);
      p := PrimeDivisor(n, c);
    }
  }

  /** Euclid's theorem. */
  lemma LargerPrime(n: nat) returns (p: nat)
    ensures Prime(p) && p > n
  {
    var f := Factorial(n);
    DividesItself(f + 1);
    p := PrimeDivisor(f + 1, f + 1);
    if p <= n {
      FactorialDivides(n, p);
      NotBoth(p, f);
    }
  }

  lemma NotBoth(p: nat, f: nat)
    requires p >= 2 && Divides(p, f)
    ensures !Divides(p, f + 1)
  {
    if Divides(p, f + 1) {
      var a: nat :| Times(p, a) == f;
      var b: nat :| Times(p, b) == f + 1;
      if b > a {
        ProductGrows(p, a, b);
      } else if b < a {
        ProductGrows(p, b, a);
      }
    }
  }

  lemma TablePrimeIsOdd(p: nat)
    requires Prime(p) && p > 2
    ensures p % 2 == 1
  {
    RemainderIsZero(p, 2);
  }

  // ----- isprime

  /** Whatever a number up to 37 divides, one of the quick primes divides. */
  lemma QuickDivisor(x: nat, d: nat) returns (j: nat)
    requires 2 <= d <= 37 && Divides(d, x)
    ensures j < 12 && Divides(QUICK[j], x)
  {
    j := if d % 2 == 0 then 0 else if d % 3 == 0 then 1 else if d % 5 == 0 then 2
         else if d == 7 then 3 else if d == 11 then 4 else if d == 13 then 5 else if d == 17 then 6
         else if d == 19 then 7 else if d == 23 then 8 else if d == 29 then 9 else if d == 31 then 10 else 11;
    RemainderIsZero(d, QUICK[j]);
    DividesTransitive(QUICK[j], d, x);
  }

  lemma QuickReject(x: nat, q: nat)
    requires 2 <= q <= 37 && Divides(q, x)
    ensures x != 1 && !TablePrime(x)
  {
    var e: nat :| Times(q, e) == x;
    if e >= 1 {
      Multiple(q, e);
    }
  }

  /** The two candidate lists together leave no divisor up to the square root. */
  lemma AllTried(x: nat, stop: nat)
    requires x >= 2 && x < (stop + 1) * (stop + 1) && stop % 2 == 0
    requires forall j :: 0 <= j < 12 ==> !Divides(QUICK[j], x)
    requires forall d :: 37 <= d < stop && d % 2 == 1 ==> !Divides(d, x)
    ensures TablePrime(x)
  {
    assert !Divides(QUICK[0], x);
    forall d | 2 <= d < stop + 1
      ensures !Divides(d, x)
    {
      if Divides(d, x) {
        if d <= 37 {
          var j := QuickDivisor(x, d);
        } else if d % 2 == 0 {
          RemainderIsZero(d, 2);
          DividesTransitive(2, d, x);
        }
      }
    }
    PrimeBySquareRoot(x, stop + 1);
    if x <= 37 {
      DividesItself(x);
      var j := QuickDivisor(x, x);
    }
  }

  /** A divisor below twice a number whose square fits is a proper one. */
  lemma ProperDivisor(x: nat, stop: nat, div: nat)
    requires stop * stop <= x && 37 <= div < 2 * stop && Divides(div, x)
    ensures !TablePrime(x) && x != 1
  {
    ProductOrder(2, stop, stop, stop);
  }

  lemma Halves(x: nat, stop: nat)
    requires stop >= 1
    ensures x / stop < stop <==> x < stop * stop
  {
    var q, r := x / stop, x % stop;
    assert x == stop * q + r;
    if q < stop {
      ProductGrows(stop, q, stop);
    } else if q > stop {
      ProductGrows(stop, stop, q);
    }
  }

  /** Trial division by the listed primes; ip comes to stand on the zero behind them. */
  method QuickTest(x: nat) returns (pass: bool, ip: nat)
    ensures !pass ==> x != 1 && !TablePrime(x)
    ensures pass ==> ip == 12 && x != 0 && forall j :: 0 <= j < 12 ==> !Divides(QUICK[j], x)
  {
    ip := 0;
    while QUICK[ip] != 0
      invariant ip <= 12 && (ip > 0 ==> x != 0)
      invariant forall j :: 0 <= j < ip ==> !Divides(QUICK[j], x)
      decreases 12 - ip
    {
      RemainderIsZero(x, QUICK[ip]);
      if x % QUICK[ip] == 0 {
        QuickReject(x, QUICK[ip]);
        return false, ip;
      }
      ip := ip + 1;
    }
    return true, ip;
  }

  /** Approximate the square root by halving; twice the result is no less than the root, but for rounding. */
  method HalvedRoot(x: nat) returns (stop: nat)
    requires x >= 1
    ensures stop * stop <= x
    ensures x < (2 * stop + 1) * (2 * stop + 1)
  {
    stop := x;
    ghost var u := 2 * x;
    Distribute(u, x, x);
    ProductOrder(1, x, u, x);
    while x / stop < stop
      invariant stop >= 1 && u / 2 == stop && x < u * u
      decreases stop
    {
      Halves(x, stop);
      stop, u := stop / 2, stop;
      HalfIsPositive(x, u);
    }
    Halves(x, stop);
    ProductOrder(u, u, 2 * stop + 1, 2 * stop + 1);
  }

  lemma HalfIsPositive(x: nat, u: nat)
    requires x >= 1 && x < u * u
    ensures u / 2 >= 1
  {}

  /** Trial division by odd numbers from 37 on, below twice the halved root. */
  method TryOdds(x: nat, first: nat, root: nat) returns (pass: bool)
    requires first == 37 && root * root <= x
    ensures !pass ==> x != 1 && !TablePrime(x)
    ensures pass ==> forall d :: 37 <= d < 2 * root && d % 2 == 1 ==> !Divides(d, x)
  {
    var div := first;
    while div < 2 * root
      invariant div >= 37 && div % 2 == 1
      invariant forall d :: 37 <= d < div && d % 2 == 1 ==> !Divides(d, x)
    {
      RemainderIsZero(x, div);
      if x % div == 0 {
        ProperDivisor(x, root, div);
        return false;
      }
      div := div + 2;
    }
    return true;
  }

  /** Primality for table sizes: 1 passes too, and the listed primes do not. */
  method IsPrime(x: nat) returns (r: bool)
    ensures r <==> x == 1 || TablePrime(x)
  {
    var pass, ip := QuickTest(x);
    if !pass {
      return false;
    }
    var stop := HalvedRoot(x);
    pass := TryOdds(x, QUICK[ip - 1], stop);
    if pass && x != 1 {
      AllTried(x, 2 * stop);
    }
    return pass;
  }

  // ----- dbzsize

  /** Where the search for a size begins: about three halves of the contents, and odd. */
  function Start(contents: nat): nat {
    var n := contents / 2 * 3;
    if n % 2 == 0 then n + 1 else n
  }

  /** The least usable prime from there on; without contents there is a default, and one entry gets a table of 1. */
  ghost predicate BestSize(contents: int, n: nat) {
    if contents <= 0 then n == DEFSIZE
    else if contents == 1 then n == 1
    else TablePrime(n) && n >= Start(contents) && NoTablePrime(Start(contents), n)
  }

  /** The least prime above 37 whose double is at least some number. */
  ghost predicate LeastSize(twice: nat, n: nat) {
    && Prime(n) && n > 37 && 2 * n >= twice
    && forall p: nat :: Prime(p) && p > 37 && 2 * p >= twice ==> n <= p
  }

  /** A size in terms of the contents alone: three halves of them at least, where an odd number counts as the even one
      below it. */
  lemma SizeInNumbers(contents: int, n: nat)
    requires BestSize(contents, n)
    ensures contents <= 0 ==> n == 120011
    ensures contents == 1 ==> n == 1
    ensures contents >= 2 ==> LeastSize(3 * (contents - contents % 2), n)
  {
    if contents >= 2 {
      var twice: nat := 3 * (contents - contents % 2);
      forall p: nat | Prime(p) && p > 37
        ensures p >= Start(contents) <==> 2 * p >= twice
        ensures p >= Start(contents) ==> n <= p
      {
        TablePrimeIsOdd(p);
        StartInNumbers(contents, p);
        assert TablePrime(p);
      }
    }
  }

  lemma StartInNumbers(contents: nat, p: nat)
    requires p % 2 == 1
    ensures p >= Start(contents) <==> 2 * p >= 3 * (contents - contents % 2)
  {}

  /** The size of a table that some number of entries fill to two thirds at most. */
  method DbzSize(contents: int) returns (n: nat)
    ensures BestSize(contents, n) && 3 * contents <= 2 * n + 3
    ensures contents <= 0 ==> n == 120011
    ensures contents == 1 ==> n == 1
    ensures contents >= 2 ==> LeastSize(3 * (contents - contents % 2), n)
  {
    if contents <= 0 {
      return DEFSIZE;
    }
    n := contents / 2 * 3;
    if n % 2 == 0 {
      n := n + 1;
    }
    StartIsLarge(contents, n);
    n := NextSize(n);
    SizeInNumbers(contents, n);
  }

  /** The search from an odd number on. */
  method NextSize(start: nat) returns (n: nat)
    requires start % 2 == 1
    ensures if start == 1 then n == 1 else TablePrime(n) && n >= start && NoTablePrime(start, n)
  {
    n := start;
    ghost var bound := LargerPrime(if n < 37 then 37 else n);
    TablePrimeIsOdd(bound);
    var found := IsPrime(n);
    while !found
      invariant start <= n <= bound && n % 2 == 1 && NoTablePrime(start, n)
      invariant found <==> n == 1 || TablePrime(n)
      invariant start == 1 ==> n == 1
      decreases bound - n
    {
      PassOver(start, n, bound);
      n := n + 2;
      found := IsPrime(n);
    }
  }

  lemma StartIsLarge(contents: nat, n: nat)
    requires contents > 0 && n == Start(contents)
    ensures n % 2 == 1 && 3 * contents <= 2 * n + 3 && (contents == 1 <==> n == 1)
  {}

  ghost predicate NoTablePrime(from: nat, to: nat) {
    forall m :: from <= m < to ==> !TablePrime(m)
  }

  lemma PassOver(from: nat, n: nat, bound: nat)
    requires NoTablePrime(from, n) && n % 2 == 1 && n != 1 && !TablePrime(n)
    requires n <= bound && bound % 2 == 1 && TablePrime(bound)
    ensures NoTablePrime(from, n + 2) && n + 2 <= bound
  {
    if TablePrime(n + 1) {
      TablePrimeIsOdd(n + 1);
    }
  }
}
