/** Powers of x modulo a generator, computed on machine words. A generator of degree n, 16 or 32, and
    the residues modulo it are the n leading bits of a word. */
module WordPowers {
  import opened BitStrings
  import opened Lfsr
  import opened LfsrOrder
  import opened Words
  import opened ByteStrings

  /** One step of Horner's rule on words: x * r, plus a when the next coefficient is 1. */
  function AbsorbBit(p: bv32, a: bv32, r: bv32, b: bool): bv32 {
    if r & 0x8000_0000 != 0 then
      if b then ((r << 1) ^ p) ^ a else (r << 1) ^ p
    else
      if b then (r << 1) ^ a else r << 1
  }

  lemma Sums(p: bv32, a: bv32, r: bv32)
    ensures ((r << 1) ^ p) ^ a == Add(Add(Shl(r), p), a)
    ensures (r << 1) ^ p == Add(Shl(r), p)
    ensures (r << 1) ^ a == Add(Shl(r), a)
    ensures r << 1 == Shl(r)
  {
  }

  lemma AbsorbBitCases(p: bv32, a: bv32, r: bv32)
    ensures Top(r) ==> AbsorbBit(p, a, r, true) == ((r << 1) ^ p) ^ a && AbsorbBit(p, a, r, false) == (r << 1) ^ p
    ensures !Top(r) ==> AbsorbBit(p, a, r, true) == (r << 1) ^ a && AbsorbBit(p, a, r, false) == r << 1
  {
  }

  lemma AbsorbBitClocks(p: bv32, a: bv32, r: bv32, b: bool)
    ensures AbsorbBit(p, a, r, b) == if b then Add(Clock(p, r), a) else Clock(p, r)
  {
    hide AbsorbBit, Add, Shl, Top;
    AbsorbBitCases(p, a, r);
    Sums(p, a, r);
  }

  lemma AddFits(c: bv32, d: bv32, n: nat)
    requires Fits(c, n) && Fits(d, n)
    ensures Fits(Add(c, d), n)
  {
    hide Add;
    ZeroWord();
    ShlByAdd(c, d, n);
  }

  lemma AbsorbBitFeeds(p: bv32, a: bv32, r: bv32, b: bool, n: nat)
    requires n > 0 && Fits(p, n) && Fits(a, n) && Fits(r, n)
    ensures Fits(AbsorbBit(p, a, r, b), n)
    ensures WordBits(AbsorbBit(p, a, r, b), n) == Absorb(WordBits(p, n), WordBits(a, n), WordBits(r, n), b)
  {
    hide Fits, WordBits, Clock, Add, AbsorbBit;
    AbsorbBitClocks(p, a, r, b);
    ClockFits(p, r, n);
    ClockFeeds(p, r, n);
    AddFits(Clock(p, r), a, n);
    WordBitsAdd(Clock(p, r), a, n);
  }

  function AbsorbBits(p: bv32, a: bv32, r: bv32, m: Bits): bv32
    decreases |m|
  {
    if m == [] then r else AbsorbBit(p, a, AbsorbBits(p, a, r, m[..|m| - 1]), m[|m| - 1])
  }

  lemma AbsorbBitsSnoc(p: bv32, a: bv32, r: bv32, m: Bits, b: bool)
    ensures AbsorbBits(p, a, r, m + [b]) == AbsorbBit(p, a, AbsorbBits(p, a, r, m), b)
  {
    hide AbsorbBit;
    assert (m + [b])[..|m|] == m;
  }

  lemma {:induction false} AbsorbBitsProduct(p: bv32, a: bv32, r: bv32, m: Bits, n: nat)
    requires n > 0 && Fits(p, n) && Fits(a, n) && Fits(r, n)
    ensures Fits(AbsorbBits(p, a, r, m), n)
    ensures WordBits(AbsorbBits(p, a, r, m), n) == Product(WordBits(p, n), WordBits(a, n), WordBits(r, n), m)
    decreases |m|
  {
    hide Fits, WordBits, AbsorbBit;
    if m != [] {
      var k := |m| - 1;
      AbsorbBitsProduct(p, a, r, m[..k], n);
      AbsorbBitFeeds(p, a, AbsorbBits(p, a, r, m[..k]), m[k], n);
    }
  }

  function AbsorbFour(p: bv32, a: bv32, r: bv32, b0: bool, b1: bool, b2: bool, b3: bool): bv32 {
    AbsorbBit(p, a, AbsorbBit(p, a, AbsorbBit(p, a, AbsorbBit(p, a, r, b0), b1), b2), b3)
  }

  function AbsorbByte(p: bv32, a: bv32, r: bv32, b: bv8): bv32 {
    AbsorbFour(p, a, AbsorbFour(p, a, r, Bit(b, 0x80), Bit(b, 0x40), Bit(b, 0x20), Bit(b, 0x10)),
               Bit(b, 0x08), Bit(b, 0x04), Bit(b, 0x02), Bit(b, 0x01))
  }

  lemma ByteDisplay(b: bv8)
    ensures ByteBits(MsbFirst, b)
         == [Bit(b, 0x80), Bit(b, 0x40), Bit(b, 0x20), Bit(b, 0x10)]
          + [Bit(b, 0x08), Bit(b, 0x04), Bit(b, 0x02), Bit(b, 0x01)]
  {
    hide Bit;
  }

  lemma AbsorbFourBits(p: bv32, a: bv32, r: bv32, m: Bits, b0: bool, b1: bool, b2: bool, b3: bool)
    ensures AbsorbBits(p, a, r, m + [b0, b1, b2, b3]) == AbsorbFour(p, a, AbsorbBits(p, a, r, m), b0, b1, b2, b3)
  {
    hide AbsorbBit, AbsorbBits;
    AbsorbBitsSnoc(p, a, r, m, b0);
    AbsorbBitsSnoc(p, a, r, m + [b0], b1);
    AbsorbBitsSnoc(p, a, r, m + [b0] + [b1], b2);
    AbsorbBitsSnoc(p, a, r, m + [b0] + [b1] + [b2], b3);
    assert m + [b0] + [b1] + [b2] + [b3] == m + [b0, b1, b2, b3];
  }

  lemma AbsorbByteBits(p: bv32, a: bv32, r: bv32, b: bv8)
    ensures AbsorbByte(p, a, r, b) == AbsorbBits(p, a, r, ByteBits(MsbFirst, b))
  {
    hide Bit, AbsorbFour, ByteBits;
    var h := [Bit(b, 0x80), Bit(b, 0x40), Bit(b, 0x20), Bit(b, 0x10)];
    ByteDisplay(b);
    AbsorbFourBits(p, a, r, [], Bit(b, 0x80), Bit(b, 0x40), Bit(b, 0x20), Bit(b, 0x10));
    AbsorbFourBits(p, a, r, h, Bit(b, 0x08), Bit(b, 0x04), Bit(b, 0x02), Bit(b, 0x01));
    assert [] + h == h;
  }

  lemma AbsorbByteProduct(p: bv32, a: bv32, r: bv32, b: bv8, n: nat)
    requires n > 0 && Fits(p, n) && Fits(a, n) && Fits(r, n)
    ensures Fits(AbsorbByte(p, a, r, b), n)
    ensures WordBits(AbsorbByte(p, a, r, b), n)
         == Product(WordBits(p, n), WordBits(a, n), WordBits(r, n), ByteBits(MsbFirst, b))
  {
    hide Fits, WordBits, AbsorbByte, AbsorbBits, Product, ByteBits;
    AbsorbByteBits(p, a, r, b);
    AbsorbBitsProduct(p, a, r, ByteBits(MsbFirst, b), n);
  }

  /** Absorbs the two leading bytes of m. */
  function AbsorbHalf(p: bv32, a: bv32, r: bv32, m: bv32): bv32 {
    AbsorbByte(p, a, AbsorbByte(p, a, r, TopByte(m)), TopByte(m << 8))
  }

  lemma AbsorbHalfProduct(p: bv32, a: bv32, r: bv32, m: bv32, n: nat)
    requires n > 0 && Fits(p, n) && Fits(a, n) && Fits(r, n)
    ensures Fits(AbsorbHalf(p, a, r, m), n)
    ensures WordBits(AbsorbHalf(p, a, r, m), n)
         == Product(WordBits(p, n), WordBits(a, n), WordBits(r, n), WordBits(m, 16))
  {
    hide Fits, WordBits, AbsorbByte, Product, ByteBits, TopByte;
    var h, l := TopByte(m), TopByte(m << 8);
    HalfBits(m);
    AbsorbByteProduct(p, a, r, h, n);
    AbsorbByteProduct(p, a, AbsorbByte(p, a, r, h), l, n);
    ProductAppend(WordBits(p, n), WordBits(a, n), WordBits(r, n), ByteBits(MsbFirst, h), ByteBits(MsbFirst, l));
  }

  lemma LowerHalf(d: bv32)
    ensures TopByte((d << 16) << 8) == TopByte(d << 24)
  {
  }

  /** The product of two residues. */
  function Multiplied(p: bv32, n: nat, a: bv32, m: bv32): bv32 {
    if n == 16 then AbsorbHalf(p, a, 0, m) else AbsorbHalf(p, a, AbsorbHalf(p, a, 0, m), m << 16)
  }

  lemma MultipliedIsProduct(p: bv32, n: nat, a: bv32, m: bv32)
    requires (n == 16 || n == 32) && Fits(p, n) && Fits(a, n)
    ensures Fits(Multiplied(p, n, a, m), n)
    ensures WordBits(Multiplied(p, n, a, m), n) == Product(WordBits(p, n), WordBits(a, n), Zeros(n), WordBits(m, n))
  {
    hide Fits, WordBits, AbsorbHalf, Product, ShlBy;
    ZeroFits(n);
    ZeroWordBits(n);
    AbsorbHalfProduct(p, a, 0, m, n);
    if n == 32 {
      ShiftedOut(m);
      WordBitsSplit(m, 16, 16);
      AbsorbHalfProduct(p, a, AbsorbHalf(p, a, 0, m), m << 16, n);
      ProductAppend(WordBits(p, n), WordBits(a, n), Zeros(n), WordBits(m, 16), WordBits(m << 16, 16));
    }
  }

  lemma ZeroFits(n: nat)
    ensures Fits(0, n)
  {
    ZeroShifted(n);
  }

  /** c is x^k modulo the generator p of degree n. */
  ghost predicate PowerIs(p: bv32, n: nat, k: nat, c: bv32) {
    && (n == 16 || n == 32) && Fits(p, n) && Fits(c, n)
    && WordBits(c, n) == Power(WordBits(p, n), k)
  }

  lemma Multiply(p: bv32, n: nat, j: nat, c: bv32, k: nat, d: bv32, e: bv32)
    requires PowerIs(p, n, j, c) && PowerIs(p, n, k, d) && Multiplied(p, n, c, d) == e
    ensures PowerIs(p, n, j + k, e)
  {
    hide Fits, WordBits, Multiplied, Power, Product;
    MultipliedIsProduct(p, n, c, d);
    PowerSum(WordBits(p, n), j, k);
  }

  lemma Next(p: bv32, n: nat, k: nat, c: bv32)
    requires PowerIs(p, n, k, c)
    ensures PowerIs(p, n, k + 1, Clock(p, c))
  {
    hide Fits, WordBits, Clock, Run, Feed;
    ClockFits(p, c, n);
    ClockFeeds(p, c, n);
    RunZeros(WordBits(p, n), Unit(n), k, 1);
    RunOneZero(WordBits(p, n), WordBits(c, n));
  }

  lemma Double(p: bv32, n: nat, k: nat, c: bv32, d: bv32)
    requires PowerIs(p, n, k, c) && Multiplied(p, n, c, c) == d
    ensures PowerIs(p, n, 2 * k, d) && PowerIs(p, n, 2 * k + 1, Clock(p, d))
  {
    hide PowerIs, Multiplied, Clock;
    Multiply(p, n, k, c, k, c, d);
    Next(p, n, 2 * k, d);
  }

  /** u is the residue 1: k is a period exactly when its power is u. */
  lemma PeriodByWord(p: bv32, n: nat, u: bv32, k: nat, c: bv32)
    requires PowerIs(p, n, 0, u) && PowerIs(p, n, k, c)
    ensures Period(WordBits(p, n), k) <==> c == u
  {
    hide ShlBy, WordBits, Run;
    RunOneZero(WordBits(p, n), Unit(n));
    if Period(WordBits(p, n), k) {
      ShlBySame(c, u, 0, n);
      ShlByConstant(c);
      ShlByConstant(u);
    }
  }
}
