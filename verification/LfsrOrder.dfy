/** Powers of x modulo a generator: their products, the order of x, and two-bit error patterns. */
module LfsrOrder {
  import opened BitStrings
  import opened Lfsr
  import Arithmetic
  import opened Divisors

  function Unit(w: nat): (r: Bits)
    requires w > 0
    ensures |r| == w
  {
    Zeros(w - 1) + [true]
  }

  /** x^n modulo the generator. */
  function Power(g: Bits, n: nat): (r: Bits)
    requires |g| > 0
    ensures |r| == |g|
  {
    Run(g, Unit(|g|), Zeros(n))
  }

  lemma RunZeros(g: Bits, s: Bits, m: nat, n: nat)
    requires |g| == |s| > 0
    ensures Run(g, s, Zeros(m + n)) == Run(g, Run(g, s, Zeros(m)), Zeros(n))
  {
    assert Zeros(m + n) == Zeros(m) + Zeros(n);
    RunAppend(g, s, Zeros(m), Zeros(n));
  }

  lemma RunOneZero(g: Bits, s: Bits)
    requires |g| == |s| > 0
    ensures Run(g, s, Zeros(1)) == Feed(g, s, false)
    ensures Run(g, s, Zeros(0)) == s
  {
    assert Zeros(1)[..0] == [];
    assert Run(g, s, Zeros(1)) == Feed(g, Run(g, s, []), false);
  }

  /** One step of Horner's rule: x * r, plus a when the next coefficient is 1. */
  function Absorb(g: Bits, a: Bits, r: Bits, b: bool): (r': Bits)
    requires |g| == |a| == |r| > 0
    ensures |r'| == |g|
  {
    var s := Feed(g, r, false);
    if b then Xor(s, a) else s
  }

  /** r * x^|m| + a * m modulo the generator, for the coefficients m of a polynomial, highest first. */
  function Product(g: Bits, a: Bits, r: Bits, m: Bits): (p: Bits)
    requires |g| == |a| == |r| > 0
    ensures |p| == |g|
    decreases |m|
  {
    if m == [] then r else Absorb(g, a, Product(g, a, r, m[..|m| - 1]), m[|m| - 1])
  }

  lemma {:induction false} ProductAppend(g: Bits, a: Bits, r: Bits, m: Bits, m': Bits)
    requires |g| == |a| == |r| > 0
    ensures Product(g, a, r, m + m') == Product(g, a, Product(g, a, r, m), m')
    decreases |m'|
  {
    hide Absorb;
    if m' == [] {
      assert m + m' == m;
    } else {
      var k := |m'| - 1;
      assert (m + m')[..|m + m'| - 1] == m + m'[..k];
      ProductAppend(g, a, r, m, m'[..k]);
    }
  }

  lemma AbsorbShifts(g: Bits, a: Bits, r: Bits, b: bool)
    requires |g| == |a| == |r| > 0
    ensures Absorb(g, Feed(g, a, false), Feed(g, r, false), b) == Feed(g, Absorb(g, a, r, b), false)
  {
    hide Feed;
    FeedLinear(g, Feed(g, r, false), a, false, false);
  }

  lemma {:induction false} ProductShifts(g: Bits, a: Bits, r: Bits, m: Bits)
    requires |g| == |a| == |r| > 0
    ensures Product(g, Feed(g, a, false), Feed(g, r, false), m) == Feed(g, Product(g, a, r, m), false)
    decreases |m|
  {
    hide Absorb, Feed;
    if m != [] {
      var k := |m| - 1;
      ProductShifts(g, a, r, m[..k]);
      AbsorbShifts(g, a, Product(g, a, r, m[..k]), m[k]);
    }
  }

  /** Multiplying 1 by a polynomial below the generator's degree leaves it as it is. */
  lemma {:induction false} ProductUnit(g: Bits, m: Bits)
    requires |m| <= |g| && |g| > 0
    ensures Product(g, Unit(|g|), Zeros(|g|), m) == Zeros(|g| - |m|) + m
    decreases |m|
  {
    var w := |g|;
    if m == [] {
      assert Zeros(w) + [] == Zeros(w);
    } else {
      var k := |m| - 1;
      ProductUnit(g, m[..k]);
      var r := Zeros(w - k) + m[..k];
      assert !r[0] && Feed(g, r, false) == Zeros(w - k - 1) + m[..k] + [false];
      assert Zeros(w - k - 1) + m == Zeros(w - k - 1) + m[..k] + [m[k]];
      if m[k] {
        AddUnit(Zeros(w - k - 1) + m[..k]);
      }
    }
  }

  lemma AddUnit(s: Bits)
    ensures Xor(s + [false], Unit(|s| + 1)) == s + [true]
  {
  }

  lemma {:induction false} ProductPower(g: Bits, n: nat, s: Bits)
    requires |g| == |s| > 0
    ensures Product(g, Power(g, n), Zeros(|g|), s) == Run(g, s, Zeros(n))
  {
    hide Product, Feed;
    var z := Zeros(|g|);
    if n == 0 {
      RunOneZero(g, Unit(|g|));
      RunOneZero(g, s);
      ProductUnit(g, s);
      assert Zeros(0) + s == s;
    } else {
      ProductPower(g, n - 1, s);
      RunZeros(g, Unit(|g|), n - 1, 1);
      RunZeros(g, s, n - 1, 1);
      RunOneZero(g, Power(g, n - 1));
      RunOneZero(g, Run(g, s, Zeros(n - 1)));
      RunZero(g, 1);
      RunOneZero(g, z);
      ProductShifts(g, Power(g, n - 1), z, s);
    }
  }

  /** x^m * x^n = x^(m+n): the product agrees with clocking the register. */
  lemma PowerSum(g: Bits, m: nat, n: nat)
    requires |g| > 0
    ensures Product(g, Power(g, m), Zeros(|g|), Power(g, n)) == Power(g, m + n)
  {
    hide Product, Run;
    ProductPower(g, m, Power(g, n));
    RunZeros(g, Unit(|g|), n, m);
  }

  // Periods of x.

  predicate Period(g: Bits, n: nat)
    requires |g| > 0
  {
    Power(g, n) == Unit(|g|)
  }

  lemma PeriodSum(g: Bits, m: nat, n: nat)
    requires |g| > 0 && Period(g, m)
    ensures Period(g, m + n) <==> Period(g, n)
  {
    RunZeros(g, Unit(|g|), m, n);
  }

  lemma PeriodZero(g: Bits)
    requires |g| > 0
    ensures Period(g, 0)
  {
    RunOneZero(g, Unit(|g|));
  }

  lemma {:induction false} PeriodMultiple(g: Bits, m: nat, k: nat)
    requires |g| > 0 && Period(g, m)
    ensures Period(g, m * k)
  {
    hide Period;
    if k == 0 {
      PeriodZero(g);
    } else {
      PeriodMultiple(g, m, k - 1);
      PeriodSum(g, m, m * (k - 1));
      assert m + m * (k - 1) == m * k;
    }
  }

  /** The common divisor of two periods is a period. */
  lemma {:induction false} PeriodGcd(g: Bits, a: nat, b: nat) returns (n: nat, c: nat, e: nat)
    requires |g| > 0 && a > 0 && b > 0 && Period(g, a) && Period(g, b)
    ensures n * c == a && n * e == b && Period(g, n)
    decreases a + b
  {
    hide Period;
    if a == b {
      n, c, e := a, 1, 1;
    } else if a > b {
      PeriodSum(g, b, a - b);
      n, c, e := PeriodGcd(g, a - b, b);
      assert n * (c + e) == a;
      c := c + e;
    } else {
      PeriodSum(g, a, b - a);
      n, c, e := PeriodGcd(g, a, b - a);
      assert n * (c + e) == b;
      e := c + e;
    }
  }

  /** A period k that properly divides n gives a period among the cofactors of the primes of n. */
  lemma CofactorPeriod(g: Bits, primes: seq<nat>, n: nat, k: nat, c: nat) returns (p: nat, m: nat)
    requires |g| > 0 && n == ProductOf(primes) > 0 && Period(g, k) && k * c == n && c != 1
    requires forall p | p in primes :: Prime(p)
    ensures p in primes && Factors(p, m, n) && Period(g, m)
  {
    hide Period, Prime, ProductOf;
    var f;
    p, f := ProperDivisor(k, c, primes);
    m := k * f;
    PeriodMultiple(g, k, f);
  }

  /** The order test: a product of primes is the order of x when it is a period and no cofactor of one
      of the primes is. */
  lemma OrderTest(g: Bits, primes: seq<nat>, n: nat, d: nat)
    requires |g| > 0 && n == ProductOf(primes) > 0 && Period(g, n)
    requires forall p | p in primes :: Prime(p)
    requires forall p: nat, m: nat | p in primes && Factors(p, m, n) :: !Period(g, m)
    ensures Period(g, d) <==> d % n == 0
  {
    hide Period, Prime, ProductOf;
    if d % n == 0 {
      PeriodMultiple(g, n, d / n);
    } else if Period(g, d) {
      var k, c, e := PeriodGcd(g, n, d);
      if c == 1 {
        Remainder(n, e);
      } else {
        var p, m := CofactorPeriod(g, primes, n, k, c);
      }
    }
  }

  lemma Remainder(n: nat, e: nat)
    requires n > 0
    ensures (n * e) % n == 0
  {
    Arithmetic.DivMod(n * e, n, e, 0);
  }

  // Two set bits at distance d.

  /** The shift is invertible, so equal registers were equal n clocks ago. */
  lemma RunInjective(g: Bits, s: Bits, t: Bits, n: nat)
    requires |g| == |s| == |t| > 0 && g[|g| - 1]
    ensures Run(g, s, Zeros(n)) == Run(g, t, Zeros(n)) <==> s == t
  {
    hide Run;
    RunLinear(g, s, t, Zeros(n), Zeros(n));
    XorSelf(Zeros(n));
    XorCancels(s, t);
    XorCancels(Run(g, s, Zeros(n)), Run(g, t, Zeros(n)));
    if s != t {
      ShiftKeepsNonzero(g, Xor(s, t), n);
    }
  }

  lemma FirstOne(g: Bits)
    requires |g| > 0
    ensures Run(g, Zeros(|g|), [true]) == g
  {
    var z := Zeros(|g|);
    RunSnoc(g, z, [], true);
    assert [] + [true] == [true];
    XorZero(g);
    assert z[1..] + [false] == z;
  }

  lemma LeadingOne(g: Bits)
    requires |g| > 0
    ensures Feed(g, [true] + Zeros(|g| - 1), false) == g
  {
    var s := [true] + Zeros(|g| - 1);
    assert s[1..] + [false] == Zeros(|g|);
    XorZero(g);
  }

  /** x^w is what the generator of degree w leaves of it. */
  lemma PowerWidth(g: Bits)
    requires |g| > 0
    ensures Power(g, |g|) == g
  {
    var w, u := |g|, Unit(|g|);
    assert u[..w - 1] == Zeros(w - 1) && u[w - 1..] == [true];
    hide Run, Zeros, Feed;
    RunOwnPrefix(g, u, w - 1);
    RunZeros(g, u, w - 1, 1);
    RunOneZero(g, [true] + Zeros(w - 1));
    LeadingOne(g);
  }

  /** A pattern of two bits at distance d vanishes exactly when x^d is 1. */
  lemma TwoOnesVanish(g: Bits, i: nat, d: nat, k: nat)
    requires |g| > 0 && g[|g| - 1] && d > 0
    ensures Vanishes(g, Zeros(i) + ([true] + Zeros(d - 1) + [true]) + Zeros(k)) <==> Period(g, d)
  {
    hide Run;
    var z, m := Zeros(|g|), [true] + Zeros(d - 1) + [true];
    RunZero(g, i);
    RunAppend(g, z, Zeros(i), m);
    RunAppend(g, z, Zeros(i) + m, Zeros(k));
    RunZero(g, k);
    RunInjective(g, Run(g, z, m), z, k);
    TwoOnes(g, d);
    var w := |g|;
    PowerWidth(g);
    RunZeros(g, Unit(w), w, d);
    RunZeros(g, Unit(w), d, w);
    RunInjective(g, Power(g, d), Unit(w), w);
  }

  lemma TwoOnesSum(d: nat)
    requires d > 0
    ensures [true] + Zeros(d - 1) + [true] == Xor([true] + Zeros(d), Zeros(d) + [true])
  {
  }

  lemma TwoOnes(g: Bits, d: nat)
    requires |g| > 0 && d > 0
    ensures Run(g, Zeros(|g|), [true] + Zeros(d - 1) + [true]) == Zeros(|g|) <==> Run(g, g, Zeros(d)) == g
  {
    hide Run, Zeros, Xor;
    var z := Zeros(|g|);
    TwoOnesSum(d);
    RunLinear(g, z, z, [true] + Zeros(d), Zeros(d) + [true]);
    XorSelf(z);
    FirstOne(g);
    RunAppend(g, z, [true], Zeros(d));
    RunAppend(g, z, Zeros(d), [true]);
    RunZero(g, d);
    XorCancels(Run(g, g, Zeros(d)), g);
  }
}
