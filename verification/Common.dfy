/** Vocabulary shared by the components. */
module Options {
  datatype Option<T> = None | Some(value: T)
}

module Memory {
  /** The library copy between disjoint regions. */
  method Copy<T>(dest: array<T>, to: nat, src: array<T>, from: nat, len: nat)
    requires dest != src && to + len <= dest.Length && from + len <= src.Length
    modifies dest
    ensures dest[..to] == old(dest[..to])
    ensures dest[to..to + len] == src[from..from + len]
    ensures dest[to + len..] == old(dest[to + len..])
  {
    var i := 0;
    while i < len
      invariant 0 <= i <= len
      invariant dest[..to] == old(dest[..to])
      invariant dest[to..to + i] == src[from..from + i]
      invariant dest[to + i..] == old(dest[to + i..])
    {
      dest[to + i] := src[from + i];
      i := i + 1;
    }
  }
}

module Arithmetic {
  lemma Multiple(d: int, b: int)
    requires b > 0
    ensures d >= 0 ==> d * b >= 0
    ensures d >= 1 ==> d * b >= b
    ensures d <= -1 ==> d * b <= -b
  {
    if d >= 1 {
      assert (d - 1) * b >= 0;
    } else if d <= -1 {
      assert (-1 - d) * b >= 0;
    }
  }

  /** Quotient and remainder are unique. */
  lemma DivMod(a: nat, b: nat, q: nat, r: nat)
    requires b > 0 && a == q * b + r && r < b
    ensures a / b == q && a % b == r
  {
    var q', r' := a / b, a % b;
    assert a == q' * b + r';
    assert (q - q') * b == r' - r;
    Multiple(q - q', b);
  }
}
