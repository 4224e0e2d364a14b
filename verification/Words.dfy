/** Machine words as bit strings, most significant bit first, and the bit operators of C on them.
    The operators are named so that the proofs about strings can hide their bit-vector bodies. */
module Words {
  import opened BitStrings
  import opened Lfsr

  function Top(c: bv32): bool {
    c & 0x8000_0000 != 0
  }

  function Shl(c: bv32): bv32 {
    c << 1
  }

  function Add(c: bv32, d: bv32): bv32 {
    c ^ d
  }

  function ShlBy(c: bv32, n: nat): bv32
    decreases n
  {
    if n == 0 then c else Shl(ShlBy(c, n - 1))
  }

  /** The n leading bits of a word. */
  function WordBits(c: bv32, n: nat): (r: Bits)
    ensures |r| == n
  {
    seq(n, i requires 0 <= i < n => Top(ShlBy(c, i)))
  }

  lemma AddShl(c: bv32, d: bv32)
    ensures Shl(Add(c, d)) == Add(Shl(c), Shl(d))
  {
  }

  lemma AddTop(c: bv32, d: bv32)
    ensures Top(Add(c, d)) == (Top(c) != Top(d))
  {
  }

  lemma ShlInjective(c: bv32, d: bv32)
    requires Shl(c) == Shl(d) && Top(c) == Top(d)
    ensures c == d
  {
  }

  lemma {:induction false} ShlByAdd(c: bv32, d: bv32, n: nat)
    ensures ShlBy(Add(c, d), n) == Add(ShlBy(c, n), ShlBy(d, n))
    decreases n
  {
    hide Top, Shl, Add;
    if n > 0 {
      ShlByAdd(c, d, n - 1);
      AddShl(ShlBy(c, n - 1), ShlBy(d, n - 1));
    }
  }

  lemma {:induction false} ShlByShlBy(c: bv32, m: nat, n: nat)
    ensures ShlBy(ShlBy(c, m), n) == ShlBy(c, m + n)
    decreases n
  {
    hide Top, Shl, Add;
    if n > 0 {
      ShlByShlBy(c, m, n - 1);
    }
  }

  lemma ShlByShl(c: bv32, n: nat)
    ensures ShlBy(Shl(c), n) == ShlBy(c, n + 1)
  {
    hide Top, Shl, Add;
    ShlByShlBy(c, 1, n);
  }

  lemma WordBitsAdd(c: bv32, d: bv32, n: nat)
    ensures WordBits(Add(c, d), n) == Xor(WordBits(c, n), WordBits(d, n))
  {
    hide Top, Shl, Add;
    forall i | 0 <= i < n ensures WordBits(Add(c, d), n)[i] == Xor(WordBits(c, n), WordBits(d, n))[i] {
      ShlByAdd(c, d, i);
      AddTop(ShlBy(c, i), ShlBy(d, i));
    }
  }

  lemma WordBitsSplit(c: bv32, m: nat, n: nat)
    ensures WordBits(c, m + n) == WordBits(c, m) + WordBits(ShlBy(c, m), n)
  {
    hide Top, Shl, Add, ShlBy;
    var l, r := WordBits(c, m + n), WordBits(c, m) + WordBits(ShlBy(c, m), n);
    forall i: nat | i < m + n ensures l[i] == r[i] {
      if i >= m {
        ShlByShlBy(c, m, i - m);
      }
    }
  }

  lemma {:induction false} ShlBySame(c: bv32, d: bv32, k: nat, n: nat)
    requires ShlBy(c, n) == ShlBy(d, n) && k <= n && WordBits(c, n) == WordBits(d, n)
    ensures ShlBy(c, k) == ShlBy(d, k)
    decreases n - k
  {
    hide Top, Shl, Add;
    if k < n {
      ShlBySame(c, d, k + 1, n);
      assert WordBits(c, n)[k] == WordBits(d, n)[k];
      ShlInjective(ShlBy(c, k), ShlBy(d, k));
    }
  }

  lemma ShlByConstant(c: bv32)
    ensures ShlBy(c, 0) == c
    ensures ShlBy(c, 1) == c << 1
    ensures ShlBy(c, 2) == c << 2
    ensures ShlBy(c, 3) == c << 3
    ensures ShlBy(c, 4) == c << 4
    ensures ShlBy(c, 5) == c << 5
    ensures ShlBy(c, 6) == c << 6
    ensures ShlBy(c, 7) == c << 7
    ensures ShlBy(c, 8) == c << 8
  {
    hide Shl;
    NestedShifts(c);
    assert ShlBy(c, 1) == Shl(c);
    assert ShlBy(c, 2) == Shl(Shl(c));
    assert ShlBy(c, 3) == Shl(Shl(Shl(c)));
    assert ShlBy(c, 4) == Shl(Shl(Shl(Shl(c))));
    assert ShlBy(c, 5) == Shl(ShlBy(c, 4));
    assert ShlBy(c, 6) == Shl(ShlBy(c, 5));
    assert ShlBy(c, 7) == Shl(ShlBy(c, 6));
    assert ShlBy(c, 8) == Shl(ShlBy(c, 7));
  }

  lemma NestedShifts(c: bv32)
    ensures Shl(c) == c << 1
    ensures Shl(c << 1) == c << 2
    ensures Shl(c << 2) == c << 3
    ensures Shl(c << 3) == c << 4
    ensures Shl(c << 4) == c << 5
    ensures Shl(c << 5) == c << 6
    ensures Shl(c << 6) == c << 7
    ensures Shl(c << 7) == c << 8
  {
  }

  lemma ShlByEight(c: bv32, n: nat)
    ensures ShlBy(c, n + 8) == ShlBy(c, n) << 8
  {
    hide Shl, ShlBy;
    ShlByConstant(ShlBy(c, n));
    ShlByShlBy(c, n, 8);
  }

  lemma ShiftedOut(c: bv32)
    ensures ShlBy(c, 16) == c << 16
    ensures ShlBy(c, 32) == 0
  {
    hide Shl, ShlBy;
    ShlByConstant(c);
    ShlByEight(c, 0);
    ShlByEight(c, 8);
    ShlByEight(c, 16);
    ShlByEight(c, 24);
    ShiftSums(c);
  }

  lemma ShiftSums(c: bv32)
    ensures (c << 8) << 8 == c << 16
    ensures (((c << 8) << 8) << 8) << 8 == 0
  {
  }

  /** A word is determined by its 32 bits. */
  lemma WordBitsInjective(c: bv32, d: bv32)
    requires WordBits(c, 32) == WordBits(d, 32)
    ensures c == d
  {
    hide Top, Shl, Add;
    ShiftedOut(c);
    ShiftedOut(d);
    ShlBySame(c, d, 0, 32);
  }

  /** One step of a left-shifting CRC with generator p. */
  function Clock(p: bv32, c: bv32): bv32 {
    if Top(c) then Add(Shl(c), p) else Shl(c)
  }

  function Clocks(p: bv32, c: bv32, n: nat): bv32
    decreases n
  {
    if n == 0 then c else Clock(p, Clocks(p, c, n - 1))
  }

  /** A word whose bits all lie in its n leading places. */
  predicate Fits(c: bv32, n: nat) {
    ShlBy(c, n) == 0
  }

  lemma WordBitsShl(c: bv32, n: nat)
    requires n > 0 && !Top(ShlBy(c, n))
    ensures WordBits(Shl(c), n) == WordBits(c, n)[1..] + [false]
  {
    hide Top, Shl, Add, ShlBy;
    forall i: nat | i < n ensures ShlBy(Shl(c), i) == ShlBy(c, i + 1) {
      ShlByShl(c, i);
    }
    var w, l := WordBits(c, n), WordBits(Shl(c), n);
    forall i: nat | i < n ensures l[i] == if i + 1 < n then w[i + 1] else false {
      assert l[i] == Top(ShlBy(c, i + 1));
    }
  }

  lemma ClockFits(p: bv32, c: bv32, n: nat)
    requires Fits(p, n) && Fits(c, n)
    ensures Fits(Clock(p, c), n)
  {
    hide Top, Shl, Add;
    ZeroWord();
    ShlByShl(c, n);
    ShlByAdd(Shl(c), p, n);
  }

  lemma ClockFeeds(p: bv32, c: bv32, n: nat)
    requires n > 0 && Fits(c, n)
    ensures WordBits(Clock(p, c), n) == Feed(WordBits(p, n), WordBits(c, n), false)
  {
    hide Top, Shl, Add;
    ZeroWord();
    WordBitsShl(c, n);
    WordBitsAdd(Shl(c), p, n);
  }

  lemma ZeroWord()
    ensures Shl(0) == 0 && Add(0, 0) == 0 && !Top(0)
  {
  }

  lemma {:induction false} ClocksRun(p: bv32, c: bv32, n: nat, k: nat)
    requires n > 0 && Fits(p, n) && Fits(c, n)
    ensures Fits(Clocks(p, c, k), n)
    ensures WordBits(Clocks(p, c, k), n) == Run(WordBits(p, n), WordBits(c, n), Zeros(k))
    decreases k
  {
    hide Top, Shl, Add, Clock;
    if k > 0 {
      ClocksRun(p, c, n, k - 1);
      ClockFits(p, Clocks(p, c, k - 1), n);
      ClockFeeds(p, Clocks(p, c, k - 1), n);
      assert Zeros(k)[..k - 1] == Zeros(k - 1);
    }
  }

  lemma {:induction false} ZeroWordBits(n: nat)
    ensures WordBits(0, n) == Zeros(n)
  {
    hide Top, Shl;
    forall i: nat | i < n ensures !Top(ShlBy(0, i)) {
      ZeroShifted(i);
    }
  }

  lemma {:induction false} ZeroShifted(n: nat)
    ensures ShlBy(0, n) == 0 && !Top(0)
  {
    ZeroWord();
    if n > 0 {
      ZeroShifted(n - 1);
    }
  }
}
