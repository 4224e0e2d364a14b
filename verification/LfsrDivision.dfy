/** The shift register computes the remainder of polynomial division. */
module LfsrDivision {
  import opened BitStrings
  import opened Lfsr
  import opened Gf2Polynomials

  /** The generator with its implicit leading coefficient. */
  ghost function Generator(g: Bits): Poly {
    {|g|} + OfBits(g)
  }

  /** The quotient that the register's feedback decisions spell out. */
  ghost function Quotient(g: Bits, s: Bits, m: Bits): Poly
    requires |g| == |s| > 0
    decreases |m|
  {
    if m == [] then {} else
      var k := |m| - 1;
      Plus(TimesX(Quotient(g, s, m[..k]), 1), if Run(g, s, m[..k])[0] != m[k] then {0} else {})
  }

  /** What the register divides: the message times x^w plus the initial contents times x^|message|. */
  ghost function Dividend(s: Bits, m: Bits): Poly {
    Plus(TimesX(OfBits(m), |s|), TimesX(OfBits(s), |m|))
  }

  /** One clock subtracts the generator exactly when the outgoing coefficient is 1. */
  lemma FeedDivides(g: Bits, s: Bits, b: bool)
    requires |g| == |s| > 0
    ensures Plus(TimesX(OfBits(s), 1), if b then {|s|} else {})
         == Plus(OfBits(Feed(g, s, b)), if s[0] != b then Generator(g) else {})
  {
    hide TimesX;
    var t := s[1..] + [false];
    ShiftedOutCoefficient(s);
    OfBitsXor(t, g);
    assert OfBits(Feed(g, s, b)) == Plus(OfBits(t), if s[0] != b then OfBits(g) else {});
    assert |s| !in OfBits(t) && |s| !in OfBits(g);
  }

  lemma ShiftedOutCoefficient(s: Bits)
    requires |s| > 0
    ensures TimesX(OfBits(s), 1) == Plus(OfBits(s[1..] + [false]), if s[0] then {|s|} else {})
  {
    var w, t := |s|, s[1..] + [false];
    forall e: nat
      ensures e in TimesX(OfBits(s), 1) <==> e in Plus(OfBits(t), if s[0] then {w} else {})
    {
      TimesXMember(OfBits(s), 1, e);
      if 0 < e < w {
        assert t[w - 1 - e] == s[w - 1 - (e - 1)];
        assert Coefficient(t, e) == Coefficient(s, e - 1);
      }
    }
  }

  lemma DividendSnoc(s: Bits, m: Bits, b: bool)
    ensures Dividend(s, m + [b]) == Plus(TimesX(Dividend(s, m), 1), if b then {|s|} else {})
  {
    OfBitsSnoc(m, b);
    var p, q := OfBits(m), OfBits(s);
    TimesXTwice(p, |s|, 1);
    TimesXTwice(p, 1, |s|);
    TimesXTwice(q, |m|, 1);
    TimesXPlus(TimesX(p, |s|), TimesX(q, |m|), 1);
    TimesXPlus(TimesX(p, 1), if b then {0} else {}, |s|);
    assert TimesX({0}, |s|) == {|s|};
  }

  lemma TimesXPlus(p: Poly, q: Poly, n: nat)
    ensures TimesX(Plus(p, q), n) == Plus(TimesX(p, n), TimesX(q, n))
  {
  }

  lemma EmptyDivides(g: Bits, s: Bits)
    requires |g| == |s| > 0
    ensures Dividend(s, []) == Plus(Times({}, Generator(g)), OfBits(s))
    ensures DegreeBelow(OfBits(s), |g|)
  {
    hide Times, Generator;
    TimesUnit(Generator(g));
    RegisterDegree(s);
    NothingShifted(OfBits(s), |s|);
    assert OfBits([]) == {};
  }

  /** Dividend = quotient * generator + register, and the register has degree below the generator. */
  lemma {:induction false} RunDivides(g: Bits, s: Bits, m: Bits)
    requires |g| == |s| > 0
    ensures Dividend(s, m) == Plus(Times(Quotient(g, s, m), Generator(g)), OfBits(Run(g, s, m)))
    ensures DegreeBelow(OfBits(Run(g, s, m)), |g|)
    decreases |m|
  {
    hide Times, TimesX, OfBits, Generator, Dividend, Feed, DegreeBelow;
    if m == [] {
      EmptyDivides(g, s);
    } else {
      var k := |m| - 1;
      var r, b := Run(g, s, m[..k]), m[k];
      RunDivides(g, s, m[..k]);
      assert m == m[..k] + [b];
      DividendSnoc(s, m[..k], b);
      FeedDivides(g, r, b);
      DivisionStep(Dividend(s, m[..k]), Quotient(g, s, m[..k]), Generator(g), OfBits(r),
                   if b then {|s|} else {}, OfBits(Feed(g, r, b)), r[0] != b);
      RegisterDegree(Feed(g, r, b));
    }
  }

  lemma RegisterDegree(s: Bits)
    ensures DegreeBelow(OfBits(s), |s|)
  {
  }

  /** Multiplying a division identity by x and correcting it by one generator keeps it an identity. */
  lemma DivisionStep(d: Poly, q: Poly, n: Poly, r: Poly, input: Poly, r': Poly, top: bool)
    requires d == Plus(Times(q, n), r)
    requires Plus(TimesX(r, 1), input) == Plus(r', if top then n else {})
    ensures Plus(TimesX(d, 1), input) == Plus(Times(Plus(TimesX(q, 1), if top then {0} else {}), n), r')
  {
    hide Times, TimesX;
    TimesXPlus(Times(q, n), r, 1);
    TimesShifts(q, n);
    TimesDistributes(TimesX(q, 1), if top then {0} else {}, n);
    TimesUnit(n);
    Regroup(TimesX(Times(q, n), 1), TimesX(r, 1), input, r', if top then n else {});
  }

  lemma Regroup(a: Poly, b: Poly, c: Poly, d: Poly, e: Poly)
    requires Plus(b, c) == Plus(d, e)
    ensures Plus(Plus(a, b), c) == Plus(Plus(a, e), d)
  {
    assert Plus(Plus(a, b), c) == Plus(a, Plus(b, c));
    assert Plus(Plus(a, e), d) == Plus(a, Plus(d, e));
  }

  /** Quotient and remainder of a division by the generator are unique. */
  lemma DivisionUnique(g: Bits, q: Poly, r: Poly, q': Poly, r': Poly)
    requires DegreeBelow(r, |g|) && DegreeBelow(r', |g|)
    requires Plus(Times(q, Generator(g)), r) == Plus(Times(q', Generator(g)), r')
    ensures q == q' && r == r'
  {
    var n, d := |g|, Plus(q, q');
    TimesDistributes(q, q', Generator(g));
    assert Times(d, Generator(g)) == Plus(r, r');
    TimesDegree(d, Generator(g), n);
    assert q == q';
  }

  lemma ZeroStart(g: Bits, e: Bits)
    requires |g| > 0
    ensures TimesX(OfBits(e), |g|)
         == Plus(Times(Quotient(g, Zeros(|g|), e), Generator(g)), OfBits(Run(g, Zeros(|g|), e)))
    ensures DegreeBelow(OfBits(Run(g, Zeros(|g|), e)), |g|)
  {
    hide Times, TimesX, OfBits, Generator, Run, Quotient, DegreeBelow;
    RunDivides(g, Zeros(|g|), e);
    OfZeros(|g|);
    NothingShifted({}, |e|);
  }

  /** A zero register ends at zero exactly when the generator divides what was fed. */
  lemma VanishesExactly(g: Bits, e: Bits)
    requires |g| > 0 && g[|g| - 1]
    ensures Vanishes(g, e) <==> MultipleOf(OfBits(e), Generator(g))
  {
    var z, n, w := Zeros(|g|), Generator(g), |g|;
    assert Coefficient(g, 0) && 0 in n;
    hide Times, TimesX, OfBits, Generator, Run, Quotient, Zeros;
    var q, r := Quotient(g, z, e), OfBits(Run(g, z, e));
    ZeroStart(g, e);
    ShiftedMultiple(OfBits(e), n, w);
    OfZeros(w);
    if Vanishes(g, e) {
      assert Times(q, n) == TimesX(OfBits(e), w);
    }
    if MultipleOf(OfBits(e), n) {
      var q' :| Times(q', n) == TimesX(OfBits(e), w);
      DivisionUnique(g, q, r, q', {});
      NoCoefficients(Run(g, z, e));
    }
  }

  /** x^(w-1) + ... + x + 1, the polynomial of an all-ones register. */
  ghost function AllOnes(w: nat): Poly {
    if w == 0 then {} else AllOnes(w - 1) + {w - 1}
  }

  lemma {:induction false} AllOnesMember(w: nat, e: nat)
    ensures e in AllOnes(w) <==> e < w
  {
    if w > 0 {
      AllOnesMember(w - 1, e);
    }
  }

  /** q and r are quotient and remainder of x^w * M(x) + (x^(w-1) + ... + 1) * x^|M| by a generator
      of degree w, for a message of bits M: the division that a CRC with an all-ones start performs. */
  ghost predicate Divides(generator: Poly, w: nat, m: Bits, q: Poly, r: Poly) {
    && DegreeBelow(r, w)
    && Plus(Times(q, generator), r) == Plus(TimesX(OfBits(m), w), TimesX(AllOnes(w), |m|))
  }

  /** A register started with all ones ends with the remainder, and no other remainder exists. */
  lemma RunIsRemainder(g: Bits, s: Bits, m: Bits)
    requires |g| == |s| > 0 && OfBits(s) == AllOnes(|s|)
    ensures Divides(Generator(g), |g|, m, Quotient(g, s, m), OfBits(Run(g, s, m)))
    ensures forall q, r :: Divides(Generator(g), |g|, m, q, r) ==> r == OfBits(Run(g, s, m))
  {
    hide Times, TimesX, OfBits, Generator, Run, Quotient, DegreeBelow, AllOnes;
    RunDivides(g, s, m);
    forall q, r | Divides(Generator(g), |g|, m, q, r) ensures r == OfBits(Run(g, s, m)) {
      DivisionUnique(g, q, r, Quotient(g, s, m), OfBits(Run(g, s, m)));
    }
  }
}
