/** Finite bit strings: exclusive or, weight and parity. */
module BitStrings {

  type Bits = seq<bool>

  function Zeros(n: nat): (r: Bits)
    ensures |r| == n
  {
    seq(n, _ => false)
  }

  function Xor(a: Bits, b: Bits): (r: Bits)
    requires |a| == |b|
    ensures |r| == |a|
  {
    seq(|a|, i requires 0 <= i < |a| => a[i] != b[i])
  }

  /** The number of set bits. */
  function Ones(a: Bits): nat {
    if a == [] then 0 else Ones(a[..|a| - 1]) + (if a[|a| - 1] then 1 else 0)
  }

  predicate Odd(a: Bits) {
    Ones(a) % 2 == 1
  }

  lemma OddSnoc(a: Bits, b: bool)
    ensures Odd(a + [b]) == (Odd(a) != b)
  {
    assert (a + [b])[..|a|] == a;
  }

  lemma {:induction false} OddAppend(a: Bits, b: Bits)
    ensures Odd(a + b) == (Odd(a) != Odd(b))
  {
    if b == [] {
      assert a + b == a;
    } else {
      var k := |b| - 1;
      OddAppend(a, b[..k]);
      OddSnoc(a + b[..k], b[k]);
      OddSnoc(b[..k], b[k]);
      assert a + b == (a + b[..k]) + [b[k]] && b == b[..k] + [b[k]];
    }
  }

  lemma OddCons(b: bool, a: Bits)
    ensures Odd([b] + a) == (b != Odd(a))
  {
    OddAppend([b], a);
    OddSnoc([], b);
    assert [] + [b] == [b];
  }

  lemma {:induction false} OddXor(a: Bits, b: Bits)
    requires |a| == |b|
    ensures Odd(Xor(a, b)) == (Odd(a) != Odd(b))
  {
    if a != [] {
      var k := |a| - 1;
      OddXor(a[..k], b[..k]);
      OddSnoc(a[..k], a[k]);
      OddSnoc(b[..k], b[k]);
      OddSnoc(Xor(a[..k], b[..k]), a[k] != b[k]);
      assert a == a[..k] + [a[k]] && b == b[..k] + [b[k]];
      assert Xor(a, b) == Xor(a[..k], b[..k]) + [a[k] != b[k]];
    }
  }

  lemma {:induction false} NoOnes(a: Bits)
    ensures Ones(a) == 0 <==> a == Zeros(|a|)
  {
    if a != [] {
      var k := |a| - 1;
      NoOnes(a[..k]);
      if Ones(a) == 0 {
        assert a == a[..k] + [false];
      }
      if a == Zeros(|a|) {
        assert a[..k] == Zeros(k);
      }
    }
  }

  /** Peels off the last set bit of a string that has one. */
  lemma {:induction false} LastOne(a: Bits) returns (p: nat)
    requires Ones(a) > 0
    ensures p < |a| && a[p]
    ensures a == a[..p] + [true] + Zeros(|a| - p - 1)
    ensures Ones(a[..p]) == Ones(a) - 1
  {
    var k := |a| - 1;
    if a[k] {
      p := k;
    } else {
      p := LastOne(a[..k]);
      assert a[..k][..p] == a[..p];
      assert a == a[..k] + [false];
      assert a == a[..p] + [true] + Zeros(k - p - 1) + [false];
    }
  }

  /** Two set bits at distance d, behind i and before k clear ones. */
  lemma TwoOnesShape(e: Bits) returns (i: nat, d: nat, k: nat)
    requires Ones(e) == 2
    ensures d > 0 && i + d + 1 + k == |e|
    ensures e == Zeros(i) + ([true] + Zeros(d - 1) + [true]) + Zeros(k)
  {
    hide Ones;
    var q := LastOne(e);
    var f := e[..q];
    i := LastOne(f);
    NoOnes(f[..i]);
    d, k := q - i, |e| - q - 1;
    assert f == Zeros(i) + [true] + Zeros(d - 1);
    assert e == f + [true] + Zeros(k);
  }

  lemma XorSelf(a: Bits)
    ensures Xor(a, a) == Zeros(|a|)
  {
  }

  lemma XorZero(a: Bits)
    ensures Xor(a, Zeros(|a|)) == a && Xor(Zeros(|a|), a) == a
  {
  }

  lemma XorCancels(a: Bits, b: Bits)
    requires |a| == |b|
    ensures Xor(a, Xor(a, b)) == b
    ensures Xor(a, b) == Zeros(|a|) <==> a == b
  {
    if Xor(a, b) == Zeros(|a|) {
      forall i | 0 <= i < |a| ensures a[i] == b[i] {
        assert Xor(a, b)[i] == Zeros(|a|)[i];
      }
    }
  }
}
