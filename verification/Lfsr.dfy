/** A linear-feedback shift register over bit strings, most significant stage first.
    g holds the low coefficients of the generator polynomial (the leading one is implicit). */
module Lfsr {
  import opened BitStrings

  /** One input bit: it is added to the outgoing stage, and the generator is added when the sum is 1. */
  function Feed(g: Bits, s: Bits, b: bool): (r: Bits)
    requires |g| == |s| > 0
    ensures |r| == |s|
  {
    var t := s[1..] + [false];
    if s[0] != b then Xor(t, g) else t
  }

  function Run(g: Bits, s: Bits, m: Bits): (r: Bits)
    requires |g| == |s| > 0
    ensures |r| == |s|
    decreases |m|
  {
    if m == [] then s else Feed(g, Run(g, s, m[..|m| - 1]), m[|m| - 1])
  }

  /** Fed to a zero register, e leaves no trace. */
  predicate Vanishes(g: Bits, e: Bits)
    requires |g| > 0
  {
    Run(g, Zeros(|g|), e) == Zeros(|g|)
  }

  lemma RunSnoc(g: Bits, s: Bits, m: Bits, b: bool)
    requires |g| == |s| > 0
    ensures Run(g, s, m + [b]) == Feed(g, Run(g, s, m), b)
  {
    assert (m + [b])[..|m|] == m;
  }

  lemma {:induction false} RunAppend(g: Bits, s: Bits, a: Bits, b: Bits)
    requires |g| == |s| > 0
    ensures Run(g, s, a + b) == Run(g, Run(g, s, a), b)
    decreases |b|
  {
    if b == [] {
      assert a + b == a;
    } else {
      var k := |b| - 1;
      assert (a + b)[..|a + b| - 1] == a + b[..k];
      RunAppend(g, s, a, b[..k]);
    }
  }

  lemma FeedLinear(g: Bits, s: Bits, t: Bits, a: bool, b: bool)
    requires |g| == |s| == |t| > 0
    ensures Feed(g, Xor(s, t), a != b) == Xor(Feed(g, s, a), Feed(g, t, b))
  {
    var l, r := Feed(g, Xor(s, t), a != b), Xor(Feed(g, s, a), Feed(g, t, b));
    forall i | 0 <= i < |g| ensures l[i] == r[i] {
      assert Xor(s, t)[0] == (s[0] != t[0]);
      assert i + 1 < |g| ==> Xor(s, t)[i + 1] == (s[i + 1] != t[i + 1]);
    }
  }

  /** The register is linear in the pair of initial state and input. */
  lemma {:induction false} RunLinear(g: Bits, s: Bits, t: Bits, a: Bits, b: Bits)
    requires |g| == |s| == |t| > 0 && |a| == |b|
    ensures Run(g, Xor(s, t), Xor(a, b)) == Xor(Run(g, s, a), Run(g, t, b))
    decreases |a|
  {
    if a != [] {
      var k := |a| - 1;
      assert Xor(a, b)[..k] == Xor(a[..k], b[..k]);
      RunLinear(g, s, t, a[..k], b[..k]);
      FeedLinear(g, Run(g, s, a[..k]), Run(g, t, b[..k]), a[k], b[k]);
    }
  }

  /** Feeding a register its own leading bits only shifts them out. */
  lemma {:induction false} RunOwnPrefix(g: Bits, s: Bits, k: nat)
    requires |g| == |s| > 0 && k <= |s|
    ensures Run(g, s, s[..k]) == s[k..] + Zeros(k)
  {
    if k > 0 {
      RunOwnPrefix(g, s, k - 1);
      assert s[..k][..k - 1] == s[..k - 1];
      var r := s[k - 1..] + Zeros(k - 1);
      assert r[0] == s[k - 1];
      assert r[1..] + [false] == s[k..] + Zeros(k);
    } else {
      assert s[..0] == [] && s[0..] + Zeros(0) == s;
    }
  }

  /** Adding the input to the leading stages first and then clocking in zeros gives the same
      register as feeding the input bit by bit. */
  lemma RunPreloaded(g: Bits, s: Bits, m: Bits)
    requires |g| == |s| > 0 && |m| <= |s|
    ensures Run(g, Xor(s, m + Zeros(|s| - |m|)), Zeros(|m|)) == Run(g, s, m)
  {
    var p := m + Zeros(|s| - |m|);
    assert p[..|m|] == m;
    RunOwnPrefix(g, p, |m|);
    assert p[|m|..] + Zeros(|m|) == Zeros(|s|);
    assert Run(g, p, m) == Zeros(|s|);
    RunLinear(g, s, p, m, m);
    XorSelf(m);
    XorZero(Run(g, s, m));
  }

  lemma {:induction false} RunZero(g: Bits, n: nat)
    requires |g| > 0
    ensures Run(g, Zeros(|g|), Zeros(n)) == Zeros(|g|)
  {
    if n > 0 {
      RunZero(g, n - 1);
      assert Zeros(n)[..n - 1] == Zeros(n - 1);
      assert Zeros(|g|)[1..] + [false] == Zeros(|g|);
    }
  }

  /** A generator with a nonzero constant term makes the shift invertible: zero comes only from zero. */
  lemma ShiftToZero(g: Bits, s: Bits)
    requires |g| == |s| > 0 && g[|g| - 1]
    requires Feed(g, s, false) == Zeros(|s|)
    ensures s == Zeros(|s|)
  {
    var f := Feed(g, s, false);
    assert !f[|s| - 1];
    assert !s[0];
    forall i | 0 < i < |s| ensures !s[i] {
      assert !f[i - 1];
    }
  }

  lemma {:induction false} ShiftKeepsNonzero(g: Bits, s: Bits, n: nat)
    requires |g| == |s| > 0 && g[|g| - 1] && s != Zeros(|s|)
    ensures Run(g, s, Zeros(n)) != Zeros(|s|)
  {
    if n > 0 {
      ShiftKeepsNonzero(g, s, n - 1);
      assert Zeros(n)[..n - 1] == Zeros(n - 1);
      var r := Run(g, s, Zeros(n - 1));
      if Feed(g, r, false) == Zeros(|s|) {
        ShiftToZero(g, r);
      }
    }
  }

  lemma PaddingKeepsNonzero(a: Bits, n: nat)
    requires a != Zeros(|a|)
    ensures a + Zeros(n) != Zeros(|a| + n)
  {
    var i :| 0 <= i < |a| && a[i];
    assert (a + Zeros(n))[i];
  }

  lemma ShortInput(g: Bits, burst: Bits)
    requires 0 < |burst| <= |g| && g[|g| - 1] && burst != Zeros(|burst|)
    ensures Run(g, Zeros(|g|), burst) != Zeros(|g|)
  {
    hide Run, Zeros, Xor;
    var k := |g| - |burst|;
    var z, p := Zeros(|g|), burst + Zeros(k);
    assert |p| == |g|;
    RunPreloaded(g, z, burst);
    XorZero(p);
    PaddingKeepsNonzero(burst, k);
    ShiftKeepsNonzero(g, p, |burst|);
  }

  /** No burst no longer than the register is divisible by the generator. */
  lemma BurstLeavesTrace(g: Bits, i: nat, burst: Bits, k: nat)
    requires 0 < |burst| <= |g| && g[|g| - 1] && burst != Zeros(|burst|)
    ensures Run(g, Zeros(|g|), Zeros(i) + burst + Zeros(k)) != Zeros(|g|)
  {
    hide Run, Zeros;
    var z := Zeros(|g|);
    RunZero(g, i);
    RunAppend(g, z, Zeros(i), burst);
    RunAppend(g, z, Zeros(i) + burst, Zeros(k));
    ShortInput(g, burst);
    ShiftKeepsNonzero(g, Run(g, z, burst), k);
  }

  /** All set bits of e lie within n consecutive positions starting at p. */
  predicate Within(e: Bits, p: nat, n: nat) {
    forall i | 0 <= i < |e| && e[i] :: p <= i < p + n
  }

  lemma Window(e: Bits, p: nat, n: nat) returns (burst: Bits, k: nat)
    requires Within(e, p, n) && e != Zeros(|e|)
    ensures e == Zeros(p) + burst + Zeros(k)
    ensures 0 < |burst| <= n && burst != Zeros(|burst|)
  {
    hide Ones;
    NoOnes(e);
    var i := LastOne(e);
    assert p <= i < p + n;
    var q := if p + n <= |e| then p + n else |e|;
    burst, k := e[p..q], |e| - q;
    assert burst[i - p] == e[i];
    assert e[..p] == Zeros(p);
    assert e[q..] == Zeros(k);
    assert e == e[..p] + burst + e[q..];
  }

  lemma WindowLeavesTrace(g: Bits, e: Bits, p: nat)
    requires |g| > 0 && g[|g| - 1] && Within(e, p, |g|) && e != Zeros(|e|)
    ensures Run(g, Zeros(|g|), e) != Zeros(|g|)
  {
    hide Run, Zeros, Within;
    var burst, k := Window(e, p, |g|);
    BurstLeavesTrace(g, p, burst, k);
  }

  /** The difference of two runs from one state depends only on the difference of the inputs. */
  lemma RunDifference(g: Bits, s: Bits, a: Bits, b: Bits)
    requires |g| == |s| > 0 && |a| == |b|
    ensures Xor(Run(g, s, a), Run(g, s, b)) == Run(g, Zeros(|s|), Xor(a, b))
    ensures Run(g, s, a) == Run(g, s, b) <==> Run(g, Zeros(|s|), Xor(a, b)) == Zeros(|s|)
  {
    RunLinear(g, s, s, a, b);
    XorSelf(s);
    XorCancels(Run(g, s, a), Run(g, s, b));
  }

  lemma FeedParity(g: Bits, s: Bits, b: bool)
    requires |g| == |s| > 0 && Odd(g)
    ensures Odd(Feed(g, s, b)) == (Odd(s) != b)
  {
    var t := s[1..] + [false];
    assert Odd(t) == (Odd(s) != s[0]) by {
      assert s == [s[0]] + s[1..];
      OddCons(s[0], s[1..]);
      OddSnoc(s[1..], false);
    }
    OddXor(t, g);
  }

  /** With an odd number of low generator bits, the parity of the register follows the input. */
  lemma {:induction false} RunParity(g: Bits, s: Bits, m: Bits)
    requires |g| == |s| > 0 && Odd(g)
    ensures Odd(Run(g, s, m)) == (Odd(s) != Odd(m))
    decreases |m|
  {
    if m != [] {
      var k := |m| - 1;
      RunParity(g, s, m[..k]);
      FeedParity(g, Run(g, s, m[..k]), m[k]);
    }
  }
}
