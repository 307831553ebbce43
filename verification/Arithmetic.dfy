/** Facts about products, quotients and powers of two that the kernels share. */
module Arithmetic {
  import opened Common

  lemma MulBelow(a: nat, b: nat, c: nat, d: nat)
    requires a <= c && b <= d
    ensures 0 <= a * b <= c * d
  {
    assert a * b <= a * d;
    assert a * d <= c * d;
  }

  lemma DivMod(a: int, d: int)
    requires d > 0
    ensures a == (a / d) * d + a % d && 0 <= a % d < d
  {
  }

  // The only multiple of l strictly between -l and l is zero.
  lemma NoShortMultiple(k: int, l: int)
    requires l > 0 && -l < k * l < l
    ensures k == 0
  {
    if k != 0 {
      LongMultiple(k, l);
    }
  }

  lemma LongMultiple(k: int, l: int)
    requires k != 0 && l > 0
    ensures k * l >= l || k * l <= -l
  {
    if k > 0 {
      MulBelow(1, l, k, l);
    } else {
      MulBelow(1, l, -k, l);
      assert (-k) * l == -(k * l);
    }
  }

  // Quotient and remainder are unique.
  lemma DivModUnique(a: int, q: int, l: int, r: int)
    requires l > 0 && a == q * l + r && 0 <= r < l
    ensures a / l == q && a % l == r
  {
    var q', r' := a / l, a % l;
    DivMod(a, l);
    assert (q' - q) * l == q' * l - q * l;
    NoShortMultiple(q' - q, l);
  }

  lemma QuotientBelow(a: nat, d: nat, k: nat)
    requires d > 0 && a < k * d
    ensures a / d < k
  {
    DivMod(a, d);
    if a / d >= k {
      MulBelow(k, d, a / d, d);
    }
  }

  // a / b / c == a / (b*c)
  lemma DivDiv(a: nat, b: nat, c: nat)
    requires b > 0 && c > 0
    ensures b * c > 0 && a / b / c == a / (b * c)
  {
    MulBelow(1, 1, b, c);
    var q, r := a / b, a % b;
    var p, s := q / c, q % c;
    DivMod(a, b);
    DivMod(q, c);
    MulBelow(s, b, c - 1, b);
    assert (c - 1) * b == b * c - b;
    calc {
      a;
      (p * c + s) * b + r;
      p * c * b + s * b + r;
      p * (b * c) + (s * b + r);
    }
    DivModUnique(a, p, b * c, s * b + r);
  }

  // ---------- sums ----------

  function Sum(xs: seq<nat>): nat {
    if xs == [] then 0 else Sum(xs[..|xs| - 1]) + xs[|xs| - 1]
  }

  lemma SumFrom(xs: seq<nat>, x: nat, k: nat)
    requires k <= |xs|
    ensures Sum((xs + [x])[k..]) == Sum(xs[k..]) + x
  {
    var ys := xs[k..];
    assert (xs + [x])[k..] == ys + [x] && (ys + [x])[..|ys|] == ys;
  }

  lemma {:induction false} SumBounded(xs: seq<nat>, bound: nat)
    requires forall i :: 0 <= i < |xs| ==> xs[i] <= bound
    ensures Sum(xs) <= bound * |xs|
  {
    if xs != [] {
      var n := |xs| - 1;
      SumBounded(xs[..n], bound);
      assert bound * |xs| == bound * n + bound;
    }
  }

  lemma SumFromBounded(xs: seq<nat>, k: nat, bound: nat)
    requires k <= |xs| && forall i :: 0 <= i < |xs| ==> xs[i] <= bound
    ensures Sum(xs[k..]) <= bound * (|xs| - k)
  {
    SumBounded(xs[k..], bound);
  }

  // ---------- powers of two ----------

  lemma {:induction false} Pow2Monotone(m: nat, n: nat)
    requires m <= n
    ensures Pow2(m) <= Pow2(n)
  {
    if m < n {
      Pow2Monotone(m, n - 1);
    }
  }

  lemma {:induction false} Pow2Add(m: nat, n: nat)
    ensures Pow2(m + n) == Pow2(m) * Pow2(n)
  {
    if m > 0 {
      Pow2Add(m - 1, n);
      assert Pow2(m + n) == 2 * Pow2(m - 1 + n);
    }
  }

  lemma Pow2Values()
    ensures Pow2(14) == 0x4000 && Pow2(15) == 0x8000
    ensures Pow2(30) == 0x4000_0000 && Pow2(31) == 0x8000_0000 && Pow2(32) == WORD_LIMIT
  {
    assert Pow2(5) == 0x20;
    assert Pow2(10) == 0x400;
    assert Pow2(15) == 0x8000;
    assert Pow2(20) == 0x10_0000;
    assert Pow2(25) == 0x200_0000;
    assert Pow2(30) == 0x4000_0000;
  }
}
