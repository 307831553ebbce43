/**
 * The bit reversal of cores without the RBIT instruction.  Words are numbers here: a shift left
 * is a multiplication modulo 2^32, a shift right a halving, and or-ing a bit into a word whose
 * lowest bit is clear is an addition.
 */
module BitReversal {
  import opened Arithmetic
  import opened Common

  function Bit(v: nat, i: nat): nat {
    v / Pow2(i) % 2
  }

  // The lowest n bits of v in reverse order.
  function Reversed(v: nat, n: nat): (r: nat)
    ensures r < Pow2(n)
  {
    if n == 0 then 0 else v % 2 * Pow2(n - 1) + Reversed(v / 2, n - 1)
  }

  // __RBIT.  The accumulator starts as the whole word, so above its n reversed bits it holds
  // junk; each shift moves the junk up and the last one moves it out.
  method Rbit(v: Word) returns (result: Word)
    ensures result == Reversed(v, 32)
  {
    Pow2Values();
    var s := 31;
    result := v;
    ghost var n := 1;
    var value: Word := v / 2;
    assert Pow2(1) == 2 && Reversed(v, 1) == v % 2 by {
      assert Reversed(v / 2, 0) == 0;
    }
    while value != 0
      invariant 1 <= n <= 32 && s == 32 - n
      invariant value == v / Pow2(n)
      invariant result % Pow2(n) == Reversed(v, n)
      decreases value
    {
      BitsLeft(v, n);
      Push(v, n, result);
      result := 2 * result % WORD_LIMIT + value % 2;
      DivDiv(v, Pow2(n), 2);
      value := value / 2;
      s := s - 1;
      n := n + 1;
    }
    FinalShift(v, n, result);
    result := result * Pow2(s) % WORD_LIMIT;
  }

  // A bit is left after n only if n is below 32.
  lemma BitsLeft(v: Word, n: nat)
    requires n <= 32 && v / Pow2(n) != 0
    ensures n < 32
  {
    Pow2Values();
    if n == 32 {
      QuotientBelow(v, Pow2(32), 1);
    }
  }

  lemma {:induction false} Snoc(v: nat, n: nat)
    ensures Reversed(v, n + 1) == 2 * Reversed(v, n) + Bit(v, n)
  {
    if n == 0 {
      assert Reversed(v / 2, 0) == 0;
    } else {
      Snoc(v / 2, n - 1);
      DivDiv(v, 2, Pow2(n - 1));
      assert v % 2 * Pow2(n) == 2 * (v % 2 * Pow2(n - 1));
    }
  }

  lemma Push(v: Word, n: nat, result: Word)
    requires 1 <= n < 32 && result % Pow2(n) == Reversed(v, n)
    ensures 2 * result % WORD_LIMIT + 1 < WORD_LIMIT
    ensures (2 * result % WORD_LIMIT + v / Pow2(n) % 2) % Pow2(n + 1) == Reversed(v, n + 1)
  {
    hide Reversed;
    Snoc(v, n);
    Pow2Values();
    Pow2Add(n + 1, 31 - n);
    var a, c, k := result / Pow2(n), 2 * result / WORD_LIMIT, Pow2(31 - n);
    DivMod(result, Pow2(n));
    DivMod(2 * result, WORD_LIMIT);
    PushSum(a, Pow2(n), Reversed(v, n), c, k);
    DivModUnique(2 * result % WORD_LIMIT + Bit(v, n), a - c * k, Pow2(n + 1), Reversed(v, n + 1));
  }

  lemma PushSum(a: int, p: int, r: int, c: int, k: int)
    ensures 2 * (a * p + r) - c * (2 * p * k) == (a - c * k) * (2 * p) + 2 * r
  {
    assert c * (2 * p * k) == c * k * (2 * p) by { Shuffle(c, 2 * p, k); }
    assert (a - c * k) * (2 * p) == a * (2 * p) - c * k * (2 * p);
  }

  lemma Shuffle(a: int, b: int, c: int)
    ensures a * (b * c) == a * c * b == a * b * c
  {
  }

  // Leading zeros of v are trailing zeros of the reversal.
  lemma {:induction false} HighZeros(v: nat, n: nat, m: nat)
    requires v < Pow2(n)
    ensures Reversed(v, n + m) == Reversed(v, n) * Pow2(m)
  {
    if n == 0 {
      if m > 0 {
        HighZeros(0, 0, m - 1);
      }
    } else {
      HighZeros(v / 2, n - 1, m);
      Pow2Add(n - 1, m);
      HighSum(v % 2, Pow2(n - 1), Pow2(m), Reversed(v / 2, n - 1));
    }
  }

  lemma HighSum(b: int, p: int, k: int, r: int)
    ensures b * (p * k) + r * k == (b * p + r) * k
  {
    Shuffle(b, p, k);
  }

  lemma ShiftSum(result: int, a: int, p: int, r: int, k: int, limit: int)
    requires result == a * p + r && p * k == limit
    ensures result * k == a * limit + r * k
  {
    HighSum(a, p, k, r);
  }

  lemma FinalShift(v: Word, n: nat, result: Word)
    requires 1 <= n <= 32 && v / Pow2(n) == 0 && result % Pow2(n) == Reversed(v, n)
    ensures result * Pow2(32 - n) % WORD_LIMIT == Reversed(v, 32)
  {
    hide Pow2, Reversed;
    Pow2Values();
    Pow2Add(n, 32 - n);
    DivMod(v, Pow2(n));
    HighZeros(v, n, 32 - n);
    var a, k := result / Pow2(n), Pow2(32 - n);
    DivMod(result, Pow2(n));
    ShiftSum(result, a, Pow2(n), Reversed(v, n), k, WORD_LIMIT);
    DivModUnique(result * k, a, WORD_LIMIT, Reversed(v, 32));
  }

  // Bit i of the result is bit 31 - i of the input, for every word.
  lemma {:induction false} BitOfReversed(v: nat, n: nat, i: nat)
    requires i < n
    ensures Bit(Reversed(v, n), i) == Bit(v, n - 1 - i)
  {
    Snoc(v, n - 1);
    var x, b := Reversed(v, n - 1), Bit(v, n - 1);
    assert (2 * x + b) / 2 == x && (2 * x + b) % 2 == b;
    if i == 0 {
      assert Pow2(0) == 1;
    } else {
      DivDiv(2 * x + b, 2, Pow2(i - 1));
      BitOfReversed(v, n - 1, i - 1);
    }
  }

  lemma {:induction false} ReversedTwice(v: nat, n: nat)
    ensures Reversed(Reversed(v, n), n) == v % Pow2(n)
  {
    if n > 0 {
      ReversedTwice(v, n - 1);
      Snoc(v, n - 1);
      ReversedSnoc(Reversed(v, n - 1), Bit(v, n - 1), n);
      LowBits(v, Pow2(n - 1));
    }
  }

  lemma ReversedSnoc(x: nat, b: nat, n: nat)
    requires n > 0 && b < 2
    ensures Reversed(2 * x + b, n) == b * Pow2(n - 1) + Reversed(x, n - 1)
  {
    assert (2 * x + b) / 2 == x && (2 * x + b) % 2 == b;
  }

  // One more low bit.
  lemma LowBits(v: nat, p: nat)
    requires p > 0
    ensures v % (2 * p) == v / p % 2 * p + v % p
  {
    var q := v / p;
    DivMod(v, p);
    DivMod(q, 2);
    TwiceSum(q / 2, q % 2, p, v % p);
    DivModUnique(v, q / 2, 2 * p, q % 2 * p + v % p);
  }

  lemma TwiceSum(h: int, b: int, p: int, r: int)
    requires 0 <= b <= 1 && 0 <= r < p
    ensures (h * 2 + b) * p + r == h * (2 * p) + (b * p + r)
    ensures 0 <= b * p + r < 2 * p
  {
    Shuffle(h, 2, p);
  }

  lemma SmallResidue(v: nat, l: nat)
    requires v < l
    ensures v % l == v
  {
  }

  // The function is its own inverse.
  lemma Involution(v: Word)
    ensures Reversed(v, 32) < WORD_LIMIT && Reversed(Reversed(v, 32), 32) == v
  {
    Pow2Values();
    ReversedTwice(v, 32);
    SmallResidue(v, WORD_LIMIT);
  }
}
