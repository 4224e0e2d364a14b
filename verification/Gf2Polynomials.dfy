/** Polynomials over the two-element field, as the finite set of exponents whose coefficient is 1. */
module Gf2Polynomials {
  import opened BitStrings

  type Poly = set<nat>

  ghost function Plus(p: Poly, q: Poly): Poly {
    (p - q) + (q - p)
  }

  /** p times x^n */
  ghost function TimesX(p: Poly, n: nat): Poly {
    set e | e in p :: e + n
  }

  /** The exponents i for which x^i * x^(e-i) contributes to the coefficient of x^e in p * q. */
  ghost function Contributions(p: Poly, q: Poly, e: nat): set<nat> {
    set i | i in p && i <= e && e - i in q
  }

  /** Convolution: a coefficient is 1 exactly when an odd number of pairs contribute. */
  ghost function Times(p: Poly, q: Poly): Poly {
    set i, j | i in p && j in q && |Contributions(p, q, i + j)| % 2 == 1 :: i + j
  }

  /** n divides p. */
  ghost predicate MultipleOf(p: Poly, n: Poly) {
    exists q :: Times(q, n) == p
  }

  ghost predicate DegreeBelow(p: Poly, n: nat) {
    forall e | e in p :: e < n
  }

  /** The polynomial whose coefficients are the given bits, highest first. */
  ghost function OfBits(m: Bits): Poly {
    set i: nat | i < |m| && Coefficient(m, i)
  }

  predicate Coefficient(m: Bits, i: nat) {
    i < |m| && m[|m| - 1 - i]
  }

  lemma TimesCoefficient(p: Poly, q: Poly, e: nat)
    ensures e in Times(p, q) <==> |Contributions(p, q, e)| % 2 == 1
  {
    if |Contributions(p, q, e)| % 2 == 1 {
      var i :| i in Contributions(p, q, e);
      assert i + (e - i) == e;
    }
  }

  lemma PlusParity(a: set<nat>, b: set<nat>)
    ensures |Plus(a, b)| % 2 == (|a| + |b|) % 2
  {
    assert a == (a - b) + a * b && b == (b - a) + a * b;
    assert |a| == |a - b| + |a * b| && |b| == |b - a| + |a * b|;
    assert |Plus(a, b)| == |a - b| + |b - a|;
  }

  lemma TimesXMember(p: Poly, n: nat, e: nat)
    ensures e in TimesX(p, n) <==> e >= n && e - n in p
  {
    if e >= n && e - n in p {
      assert e - n + n == e;
    }
  }

  lemma {:induction false} TimesXSize(p: Poly, n: nat)
    ensures |TimesX(p, n)| == |p|
    decreases |p|
  {
    if p != {} {
      var e :| e in p;
      assert p == (p - {e}) + {e};
      forall f: nat ensures f in TimesX(p, n) <==> f in TimesX(p - {e}, n) + {e + n} {
        TimesXMember(p, n, f);
        TimesXMember(p - {e}, n, f);
      }
      assert TimesX(p, n) == TimesX(p - {e}, n) + {e + n};
      TimesXMember(p - {e}, n, e + n);
      TimesXSize(p - {e}, n);
    }
  }

  lemma TimesXTwice(p: Poly, a: nat, b: nat)
    ensures TimesX(TimesX(p, a), b) == TimesX(p, a + b)
  {
    forall e | e in p ensures e + (a + b) in TimesX(TimesX(p, a), b) {
      assert e + a in TimesX(p, a);
    }
  }

  lemma NothingShifted(p: Poly, n: nat)
    ensures TimesX(p, 0) == p && TimesX({}, n) == {}
  {
    forall e: nat ensures e in TimesX(p, 0) <==> e in p {
      TimesXMember(p, 0, e);
    }
  }

  lemma TimesXInjective(p: Poly, q: Poly, n: nat)
    requires TimesX(p, n) == TimesX(q, n)
    ensures p == q
  {
    forall e: nat ensures e in p <==> e in q {
      TimesXMember(p, n, e + n);
      TimesXMember(q, n, e + n);
    }
  }

  lemma TimesDistributes(p: Poly, p': Poly, q: Poly)
    ensures Times(Plus(p, p'), q) == Plus(Times(p, q), Times(p', q))
  {
    hide Times;
    forall e: nat
      ensures e in Times(Plus(p, p'), q) <==> e in Plus(Times(p, q), Times(p', q))
    {
      TimesCoefficient(Plus(p, p'), q, e);
      TimesCoefficient(p, q, e);
      TimesCoefficient(p', q, e);
      ContributionsPlus(p, p', q, e);
      PlusParity(Contributions(p, q, e), Contributions(p', q, e));
    }
  }

  lemma ContributionsPlus(p: Poly, p': Poly, q: Poly, e: nat)
    ensures Contributions(Plus(p, p'), q, e) == Plus(Contributions(p, q, e), Contributions(p', q, e))
  {
  }

  lemma TimesShifts(p: Poly, q: Poly)
    ensures Times(TimesX(p, 1), q) == TimesX(Times(p, q), 1)
  {
    hide Times, TimesX, Contributions;
    forall e: nat ensures e in Times(TimesX(p, 1), q) <==> e in TimesX(Times(p, q), 1) {
      TimesCoefficient(TimesX(p, 1), q, e);
      TimesXMember(Times(p, q), 1, e);
      ContributionsShift(p, q, e);
      if e > 0 {
        TimesCoefficient(p, q, e - 1);
        TimesXSize(Contributions(p, q, e - 1), 1);
      }
    }
  }

  lemma {:induction false} TimesShiftsBy(p: Poly, q: Poly, n: nat)
    ensures Times(TimesX(p, n), q) == TimesX(Times(p, q), n)
  {
    hide Times, TimesX;
    if n == 0 {
      NothingShifted(p, 0);
      NothingShifted(Times(p, q), 0);
    } else {
      TimesShiftsBy(p, q, n - 1);
      TimesShifts(TimesX(p, n - 1), q);
      TimesXTwice(p, n - 1, 1);
      TimesXTwice(Times(p, q), n - 1, 1);
    }
  }

  lemma ContributionsShift(p: Poly, q: Poly, e: nat)
    ensures Contributions(TimesX(p, 1), q, e) == if e == 0 then {} else TimesX(Contributions(p, q, e - 1), 1)
  {
    forall i: nat
      ensures i in Contributions(TimesX(p, 1), q, e)
         <==> e > 0 && i in TimesX(Contributions(p, q, e - 1), 1)
    {
      TimesXMember(p, 1, i);
      if e > 0 {
        TimesXMember(Contributions(p, q, e - 1), 1, i);
      }
    }
  }

  lemma TimesUnit(q: Poly)
    ensures Times({0}, q) == q
    ensures Times({}, q) == {}
  {
    hide Times;
    forall e: nat ensures (e in Times({0}, q) <==> e in q) && e !in Times({}, q) {
      TimesCoefficient({0}, q, e);
      TimesCoefficient({}, q, e);
      assert Contributions({0}, q, e) == if e in q then {0} else {};
      assert Contributions({}, q, e) == {};
    }
  }

  lemma {:induction false} Leading(p: Poly) returns (d: nat)
    requires p != {}
    ensures d in p && DegreeBelow(p, d + 1)
    decreases |p|
  {
    d :| d in p;
    var rest := p - {d};
    if rest != {} {
      var d' := Leading(rest);
      forall e | e in p ensures e < (if d' > d then d' else d) + 1 {
        assert e == d || e in rest;
      }
      d := if d' > d then d' else d;
    } else {
      forall e | e in p ensures e < d + 1 {
        assert e == d || e in rest;
      }
    }
  }

  /** A nonzero multiple of q has at least the degree of q. */
  lemma TimesDegree(p: Poly, q: Poly, n: nat)
    requires n in q && DegreeBelow(q, n + 1) && DegreeBelow(Times(p, q), n)
    ensures p == {}
  {
    hide Times;
    if p != {} {
      var d := Leading(p);
      TimesCoefficient(p, q, d + n);
      OnlyLeading(p, q, d, n);
    }
  }

  lemma OnlyLeading(p: Poly, q: Poly, d: nat, n: nat)
    requires d in p && DegreeBelow(p, d + 1) && n in q && DegreeBelow(q, n + 1)
    ensures Contributions(p, q, d + n) == {d}
  {
    assert d + n - d == n;
    var c := Contributions(p, q, d + n);
    assert d in c;
    forall i | i in c ensures i == d {
      assert i < d + 1 && d + n - i < n + 1;
    }
  }

  ghost predicate DivisibleByX(p: Poly, n: nat) {
    forall e | e in p :: e >= n
  }

  lemma {:induction false} Trailing(p: Poly) returns (d: nat)
    requires p != {}
    ensures d in p && DivisibleByX(p, d)
    decreases |p|
  {
    d :| d in p;
    var rest := p - {d};
    if rest != {} {
      var d' := Trailing(rest);
      d := if d' < d then d' else d;
    }
    forall e | e in p ensures e >= d {
      assert e in rest || p == rest + {e};
    }
  }

  lemma OnlyTrailing(p: Poly, q: Poly, d: nat)
    requires d in p && DivisibleByX(p, d) && 0 in q
    ensures Contributions(p, q, d) == {d}
  {
    assert d - d in q;
  }

  /** x^n divides p * q only if it divides p, when q has a constant term. */
  lemma FactorDivisibleByX(p: Poly, q: Poly, n: nat)
    requires 0 in q && DivisibleByX(Times(p, q), n)
    ensures DivisibleByX(p, n)
  {
    hide Times;
    if p != {} {
      var d := Trailing(p);
      TimesCoefficient(p, q, d);
      OnlyTrailing(p, q, d);
    }
  }

  lemma Unshifted(p: Poly, n: nat) returns (q: Poly)
    requires DivisibleByX(p, n)
    ensures TimesX(q, n) == p
  {
    q := set e | e in p :: e - n;
    forall e: nat ensures e in TimesX(q, n) <==> e in p {
      TimesXMember(q, n, e);
    }
  }

  /** A polynomial with a constant term divides p exactly when it divides x^n * p. */
  lemma ShiftedMultiple(p: Poly, n: Poly, k: nat)
    requires 0 in n
    ensures MultipleOf(TimesX(p, k), n) <==> MultipleOf(p, n)
  {
    hide Times, TimesX;
    if MultipleOf(p, n) {
      var q :| Times(q, n) == p;
      TimesShiftsBy(q, n, k);
    }
    if MultipleOf(TimesX(p, k), n) {
      var q :| Times(q, n) == TimesX(p, k);
      forall e | e in Times(q, n) ensures e >= k {
        TimesXMember(p, k, e);
      }
      FactorDivisibleByX(q, n, k);
      var q' := Unshifted(q, k);
      TimesShiftsBy(q', n, k);
      TimesXInjective(Times(q', n), p, k);
    }
  }

  lemma OfBitsSnoc(m: Bits, b: bool)
    ensures OfBits(m + [b]) == Plus(TimesX(OfBits(m), 1), if b then {0} else {})
  {
    hide TimesX;
    var l := m + [b];
    forall e: nat
      ensures e in OfBits(l) <==> e in Plus(TimesX(OfBits(m), 1), if b then {0} else {})
    {
      TimesXMember(OfBits(m), 1, e);
      if 0 < e <= |m| {
        assert l[|m| - e] == m[|m| - 1 - (e - 1)];
        assert Coefficient(l, e) == Coefficient(m, e - 1);
      }
    }
  }

  lemma OfBitsXor(a: Bits, b: Bits)
    requires |a| == |b|
    ensures OfBits(Xor(a, b)) == Plus(OfBits(a), OfBits(b))
  {
  }

  lemma OfZeros(n: nat)
    ensures OfBits(Zeros(n)) == {}
  {
  }

  lemma NoCoefficients(s: Bits)
    requires OfBits(s) == {}
    ensures s == Zeros(|s|)
  {
    forall i | 0 <= i < |s| ensures !s[i] {
      var e: nat := |s| - 1 - i;
      assert e !in OfBits(s) && Coefficient(s, e) == s[i];
    }
  }
}
