/** Prime factors of a natural number. */
module Divisors {
  import opened Arithmetic

  predicate Factors(n: nat, c: nat, p: nat) {
    n * c == p
  }

  ghost predicate Prime(p: nat) {
    p > 1 && forall n: nat, c: nat | Factors(n, c, p) :: n == 1 || c == 1
  }

  function ProductOf(factors: seq<nat>): nat {
    if factors == [] then 1 else ProductOf(factors[..|factors| - 1]) * factors[|factors| - 1]
  }

  lemma Cancel(p: nat, x: int, y: int)
    requires p > 0 && p * x == p * y
    ensures x == y
  {
    assert (x - y) * p == 0;
    Multiple(x - y, p);
  }

  /** If p divides both a * m and b * m then it divides n * m for the common divisor n of a and b. */
  lemma {:induction false} Euclid(p: nat, m: nat, a: nat, x: int, b: nat, y: int)
    returns (n: nat, c: nat, e: nat, z: int)
    requires p > 0 && a > 0 && b > 0 && a * m == p * x && b * m == p * y
    ensures n * c == a && n * e == b && n * m == p * z
    decreases a + b
  {
    if a == b {
      n, c, e, z := a, 1, 1, x;
    } else if a > b {
      assert (a - b) * m == p * (x - y);
      n, c, e, z := Euclid(p, m, a - b, x - y, b, y);
      assert n * (c + e) == a;
      c := c + e;
    } else {
      assert (b - a) * m == p * (y - x);
      n, c, e, z := Euclid(p, m, a, x, b - a, y - x);
      assert n * (c + e) == b;
      e := c + e;
    }
  }

  /** A prime factor of a product g * c is a factor of c or of g. */
  lemma PrimeFactor(p: nat, g: nat, c: nat, m: nat) returns (inC: bool, e: nat)
    requires Prime(p) && g > 0 && c > 0 && g * c == p * m
    ensures if inC then g * e == m else g == p * e && e * c == m
  {
    var n, k, f, z := Euclid(p, g, p, g, c, m);
    assert Factors(n, k, p);
    if n != 1 {
      assert n == p;
      assert p * (g * f) == p * m by {
        assert p * (g * f) == g * (p * f);
      }
      Cancel(p, g * f, m);
      return true, f;
    }
    assert g == p * z;
    assert p * (z * c) == p * m;
    Cancel(p, z * c, m);
    assert z >= 0;
    return false, z;
  }

  lemma OneFactors(g: nat, c: nat)
    requires g * c == 1
    ensures c == 1
  {
  }

  /** A proper divisor of a product of primes divides what is left of the product without one of them. */
  lemma {:induction false} ProperDivisor(g: nat, c: nat, primes: seq<nat>) returns (p: nat, e: nat)
    requires forall q | q in primes :: Prime(q)
    requires g * c == ProductOf(primes) > 0 && c != 1
    ensures p in primes && p * (g * e) == ProductOf(primes)
    decreases |primes|
  {
    if primes == [] {
      OneFactors(g, c);
    } else {
      var k := |primes| - 1;
      var last, rest := primes[k], primes[..k];
      assert last in primes && g * c == last * ProductOf(rest);
      var inC, f := PrimeFactor(last, g, c, ProductOf(rest));
      if inC {
        return last, f;
      }
      p, e := ProperDivisor(f, c, rest);
      assert p * (g * e) == last * (p * (f * e));
    }
  }

  // Trial division.

  lemma PrimeByTrial(p: nat, k: nat)
    requires 1 < p < (k + 1) * (k + 1)
    requires forall n: nat, c: nat | Factors(n, c, p) && 2 <= n <= k :: false
    ensures Prime(p)
  {
    forall n: nat, c: nat | Factors(n, c, p) ensures n == 1 || c == 1 {
      assert Factors(c, n, p);
      if n > k && c > k {
        LargerProduct(k + 1, n, c);
      }
    }
  }

  lemma LargerProduct(k: nat, n: nat, c: nat)
    requires n >= k && c >= k
    ensures n * c >= k * k
  {
    assert n * c >= k * c;
  }

  lemma SmallPrimes()
    ensures Prime(3) && Prime(5) && Prime(7) && Prime(17) && Prime(31) && Prime(151) && Prime(257)
  {
    PrimeByTrial(3, 1);
    PrimeByTrial(5, 2);
    PrimeByTrial(7, 2);
    PrimeByTrial(17, 4);
    PrimeByTrial(31, 5);
    PrimeByTrial(151, 12);
    PrimeByTrial(257, 16);
  }

  lemma TrialUpTo96(n: nat, c: nat)
    ensures 2 <= n <= 96 ==> n * c != 65537
  {
  }

  lemma TrialUpTo176(n: nat, c: nat)
    ensures 97 <= n <= 176 ==> n * c != 65537
  {
  }

  lemma TrialUpTo256(n: nat, c: nat)
    ensures 177 <= n <= 256 ==> n * c != 65537
  {
  }

  lemma FermatPrime()
    ensures Prime(65537)
  {
    forall n: nat, c: nat | Factors(n, c, 65537) && 2 <= n <= 256 ensures false {
      TrialUpTo96(n, c);
      TrialUpTo176(n, c);
      TrialUpTo256(n, c);
    }
    PrimeByTrial(65537, 256);
  }
}
