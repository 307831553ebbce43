/**
 * Newton-Raphson reciprocal in Q31 and Q15.  Both kernels run the same step in a format of
 * half scale h (2^30 and 2^14): for an input x normalised to [h, 2h) the exact answer is
 * 2*h*h / x.  The error of an approximation is kept as the integer 2*h*h - x*out, so nothing
 * is rounded in the statements below.
 */
module Reciprocal {
  import opened Arithmetic
  import opened Common
  import opened Saturation

  function NewtonStep(h: nat, x: int, out: int): int
    requires h > 0
  {
    out * (2 * h - 1 - x * out / (2 * h)) / h
  }

  function Error(h: nat, x: int, out: int): int {
    2 * h * h - x * out
  }

  predicate Normalised(h: nat, x: nat, out: nat) {
    0 < h <= x < 2 * h && out < 2 * h
  }

  // x*out stays below 4*h*h, so the subtraction from 2h - 1 does not wrap.
  lemma FactorInRange(h: nat, x: nat, out: nat)
    requires Normalised(h, x, out)
    ensures 0 <= x * out / (2 * h) < 2 * h
  {
    FactorBelow(2 * h, x, out);
  }

  lemma FactorBelow(k: nat, x: nat, out: nat)
    requires x < k && out < k
    ensures 0 <= x * out / k < k
  {
    MulBelow(x, out, k - 1, k);
    assert (k - 1) * k == k * k - k;
    QuotientBelow(x * out, k, k);
  }

  // The exact error recurrence: with n = 2*h*h, the two remainders r and q of the step are all
  // that separates it from a pure square.  It holds of every input, negative ones as well.
  lemma ErrorRecurrence(h: nat, x: int, out: int) returns (r: nat, q: nat)
    requires h > 0
    ensures r < 2 * h && q < h
    ensures (2 * h * h) * Error(h, x, NewtonStep(h, x, out))
            == Error(h, x, out) * Error(h, x, out) + x * out * (2 * h - r) + 2 * h * x * q
  {
    var p := x * out;
    var t := p / (2 * h);
    r := p % (2 * h);
    DivMod(p, 2 * h);
    var m := out * (2 * h - 1 - t);
    q := m % h;
    DivMod(m, h);
    Expand(h, x, out, t, r, m / h, q);
  }

  lemma Expand(h: int, x: int, out: int, t: int, r: int, out': int, q: int)
    requires x * out == t * (2 * h) + r
    requires out * (2 * h - 1 - t) == out' * h + q
    ensures (2 * h * h) * (2 * h * h - x * out')
            == (2 * h * h - x * out) * (2 * h * h - x * out) + x * out * (2 * h - r) + 2 * h * x * q
  {
    var p, n := x * out, 2 * h * h;
    calc {
      n * (x * out');
      2 * h * x * (out' * h);
      2 * h * x * (out * (2 * h - 1 - t) - q);
      { Distribute(2 * h, x, out, 2 * h - 1 - t, q); }
      2 * h * (p * (2 * h - 1 - t)) - 2 * h * x * q;
      { ScaleFactor(h, p, t, r); }
      p * (2 * n - p) - p * (2 * h - r) - 2 * h * x * q;
    }
    SquareGap(n, p);
    assert n * (n - x * out') == n * n - n * (x * out');
  }

  lemma Distribute(k: int, x: int, out: int, f: int, q: int)
    ensures k * x * (out * f - q) == k * (x * out * f) - k * x * q
  {
    assert x * (out * f) == x * out * f;
    assert k * x * (out * f - q) == k * (x * (out * f)) - k * x * q;
  }

  lemma ScaleFactor(h: int, p: int, t: int, r: int)
    requires p == t * (2 * h) + r
    ensures 2 * h * (p * (2 * h - 1 - t)) == p * (2 * (2 * h * h) - p) - p * (2 * h - r)
  {
    assert 2 * h * (2 * h - 1 - t) == 2 * (2 * h * h) - 2 * h - t * (2 * h);
    assert 2 * h * (p * (2 * h - 1 - t)) == p * (2 * h * (2 * h - 1 - t));
    assert p * (2 * (2 * h * h) - 2 * h - (p - r)) == p * (2 * (2 * h * h) - p) - p * (2 * h - r);
  }

  lemma SquareGap(n: int, p: int)
    ensures (n - p) * (n - p) == n * n - p * (2 * n - p)
  {
  }

  // Quadratic convergence from any seed: the error squares, up to three units of x, and never
  // changes sign again, so the result does not exceed the true reciprocal.
  lemma StepConverges(h: nat, x: nat, out: nat)
    requires Normalised(h, x, out)
    ensures var n, e, e' := 2 * h * h, Error(h, x, out), Error(h, x, NewtonStep(h, x, out));
            e * e <= n * e' <= e * e + n * (3 * x)
    ensures 0 <= Error(h, x, NewtonStep(h, x, out))
  {
    var r, q := ErrorRecurrence(h, x, out);
    RemainderTerms(h, x, out, r, q);
    SquareBounds(2 * h * h, Error(h, x, out), Error(h, x, NewtonStep(h, x, out)), x,
                 x * out * (2 * h - r), 2 * h * x * q);
  }

  lemma SquareBounds(n: nat, e: int, e': int, x: nat, t: nat, u: nat)
    requires n > 0 && n * e' == e * e + t + u
    requires t <= n * (2 * x) && u <= n * x
    ensures e * e <= n * e' <= e * e + n * (3 * x)
    ensures 0 <= e'
  {
    assert n * (3 * x) == n * (2 * x) + n * x;
    SquareNonNegative(e);
    NonNegativeFactor(n, e');
  }

  lemma SquareNonNegative(e: int)
    ensures e * e >= 0
  {
  }

  lemma RemainderTerms(h: nat, x: nat, out: nat, r: nat, q: nat)
    requires Normalised(h, x, out) && r < 2 * h && q < h
    ensures 0 <= x * out * (2 * h - r) <= 2 * h * h * (2 * x)
    ensures 0 <= 2 * h * x * q <= 2 * h * h * x
  {
    MulBelow(x, out, x, 2 * h);
    MulBelow(x * out, 2 * h - r, x * (2 * h), 2 * h);
    assert x * (2 * h) * (2 * h) == 2 * h * h * (2 * x);
    MulBelow(2 * h * x, q, 2 * h * x, h);
    assert 2 * h * x * h == 2 * h * h * x;
  }

  lemma NonNegativeFactor(n: int, e: int)
    requires n > 0 && n * e >= 0
    ensures e >= 0
  {
    if e < 0 {
      NegativeProduct(n, e);
    }
  }

  lemma NegativeProduct(n: nat, e: int)
    requires n > 0 && e < 0
    ensures n * e < 0
  {
    MulBelow(1, 1, n, -e);
    assert n * (-e) == -(n * e);
  }

  // The result fits the format: the Q31 clip never fires and the Q15 conversion never wraps.
  lemma StepFits(h: nat, x: nat, out: nat)
    requires Normalised(h, x, out)
    ensures 0 <= NewtonStep(h, x, out) < 2 * h
  {
    StepConverges(h, x, out);
    FactorInRange(h, x, out);
    MulBelow(0, 0, out, 2 * h - 1 - x * out / (2 * h));
    ResultBelow(h, x, out, NewtonStep(h, x, out));
  }

  // A result of 2h leaves no error, so there was none before: the step did not move, and out
  // would have been 2h already.
  lemma ResultBelow(h: nat, x: nat, out: nat, out': nat)
    requires Normalised(h, x, out)
    requires Error(h, x, out) * Error(h, x, out) <= 2 * h * h * Error(h, x, out') && 0 <= Error(h, x, out')
    ensures out' < 2 * h
  {
    if out' >= 2 * h {
      MulBelow(h, 2 * h, x, out');
      assert h * (2 * h) == 2 * h * h;
      assert Error(h, x, out') == 0;
      SquareZero(Error(h, x, out));
      SameFactor(x, out, out');
    }
  }

  lemma SameFactor(x: nat, a: int, b: int)
    requires x > 0 && x * a == x * b
    ensures a == b
  {
    assert x * (a - b) == 0;
  }

  lemma SquarePositive(e: int)
    requires e != 0
    ensures e * e > 0
  {
    if e > 0 {
      MulBelow(1, 1, e, e);
    } else {
      MulBelow(1, 1, -e, -e);
    }
  }

  lemma SquareZero(e: int)
    requires e * e <= 0
    ensures e == 0
  {
    if e != 0 {
      SquarePositive(e);
    }
  }

  // ---------- counting leading zeros ----------

  // The __CLZ loop for cores without the instruction: tests bit after bit from the top.  A bit
  // test data & 2^k is written (data / 2^k) % 2.
  method Clz(data: Word) returns (count: nat)
    requires data > 0
    ensures count <= 31 && Pow2(31 - count) <= data < 2 * Pow2(31 - count)
  {
    Pow2Values();
    var mask := 0x8000_0000;
    count := 0;
    while data / mask % 2 == 0
      invariant count <= 31 && mask == Pow2(31 - count) && data < 2 * mask
      decreases mask
    {
      BitTest(data, mask);
      count := count + 1;
      mask := mask / 2;
    }
    BitTest(data, mask);
  }

  // With no bit above the mask, the tested bit is clear exactly if data is below the mask.
  lemma BitTest(data: nat, mask: nat)
    requires 0 < mask && data < 2 * mask
    ensures data / mask % 2 == 0 <==> data < mask
  {
    QuotientBelow(data, mask, 2);
    DivMod(data, mask);
    if data < mask {
      QuotientBelow(data, mask, 1);
    }
  }

  // ---------- the two kernels ----------

  // Shifting the leading one to position top.
  lemma NormaliseShift(input: nat, count: nat, top: nat)
    requires count <= 31 && top <= 31 && Pow2(31 - count) <= input < 2 * Pow2(31 - count)
    requires count + top >= 31
    ensures Pow2(top) <= input * Pow2(count + top - 31) < 2 * Pow2(top)
  {
    Pow2Add(31 - count, count + top - 31);
    ScaleBounds(Pow2(31 - count), Pow2(count + top - 31), input);
  }

  lemma ScaleBounds(a: nat, k: nat, input: nat)
    requires a <= input < 2 * a && k > 0
    ensures a * k <= input * k < 2 * (a * k)
  {
    MulBelow(a, k, input, k);
    MulBelow(input, k, 2 * a - 1, k);
    assert (2 * a - 1) * k == 2 * (a * k) - k;
  }

  // One round of the Q31 loop, with a clip at the end.
  function RoundQ31(x: int, out: int): Int32 {
    ClipQ63ToQ31(out * (0x7FFF_FFFF - x * out / 0x8000_0000) / 0x4000_0000)
  }

  // One round of the Q15 loop, where the result is converted without a clip.
  function RoundQ15(x: int, out: int): Int16 {
    AsInt16(out * (0x7FFF - x * out / 0x8000) / 0x4000)
  }

  // For a positive input a round is a Newton step; neither subtraction nor clip nor conversion
  // does anything else.
  lemma RoundIsStep(x: nat, out: nat)
    ensures Normalised(0x4000_0000, x, out) ==> 0 <= RoundQ31(x, out) == NewtonStep(0x4000_0000, x, out)
    ensures Normalised(0x4000, x, out) ==> 0 <= RoundQ15(x, out) == NewtonStep(0x4000, x, out)
  {
    if Normalised(0x4000_0000, x, out) {
      StepFits(0x4000_0000, x, out);
      ClipIsClamp(NewtonStep(0x4000_0000, x, out));
    }
    if Normalised(0x4000, x, out) {
      StepFits(0x4000, x, out);
    }
  }

  // The unsigned intermediate value of both kernels: the shifted product wraps if it is negative,
  // and the subtraction wraps it back.
  lemma FactorWraps(h: nat, x: int, out: int)
    requires 0 < h <= 0x4000_0000 && -2 * h < x < 2 * h && -2 * h <= out < 2 * h
    ensures 0 <= 2 * h - 1 - x * out / (2 * h) < WORD_LIMIT
    ensures (2 * h - 1 - x * out / (2 * h) % WORD_LIMIT) % WORD_LIMIT == 2 * h - 1 - x * out / (2 * h)
  {
    var f := x * out / (2 * h);
    ProductBounds(2 * h, x, out);
    assert -2 * h <= f <= 2 * h - 1;
    assert f % WORD_LIMIT == if f < 0 then f + WORD_LIMIT else f;
  }

  lemma ProductBounds(k: int, x: int, out: int)
    requires k > 0 && -k < x < k && -k <= out < k
    ensures -k <= x * out / k <= k - 1
  {
    MulBelow(if x < 0 then -x else x, if out < 0 then -out else out, k - 1, k);
    assert (k - 1) * k == k * k - k;
    assert x * out == (if x < 0 then -x else x) * (if out < 0 then -out else out)
           || x * out == -((if x < 0 then -x else x) * (if out < 0 then -out else out));
    assert -(k * k) <= x * out <= k * k - k;
    DivMod(x * out, k);
    QuotientBounds(x * out / k, x * out % k, k);
  }

  lemma QuotientBounds(q: int, r: int, k: int)
    requires k > 0 && 0 <= r < k && -(k * k) <= q * k + r <= k * k - k
    ensures -k <= q <= k - 1
  {
    if q >= k {
      MulBelow(k, k, q, k);
    } else if q < -k {
      assert (-q) * k == -(q * k);
      MulBelow(k + 1, k, -q, k);
    }
  }

  // Converting a product to 16 bits does not notice that it has been cut to 32 bits before.
  lemma CutTwice(p: int)
    ensures AsInt16(p % WORD_LIMIT / 0x4000) == AsInt16(p / 0x4000)
  {
    var q, r := p / WORD_LIMIT, p % WORD_LIMIT;
    DivMod(p, WORD_LIMIT);
    DivMod(r, 0x4000);
    DivModUnique(p, 0x4_0000 * q + r / 0x4000, 0x4000, r % 0x4000);
    var u := r / 0x4000 + 0x8000;
    DivMod(u, 0x1_0000);
    DivModUnique(0x4_0000 * q + u, 4 * q + u / 0x1_0000, 0x1_0000, u % 0x1_0000);
  }

  // What one pass of the Q31 loop computes with its unsigned intermediate value.
  lemma PassQ31(x: int, out: nat)
    requires -0x8000_0000 < x < 0x8000_0000 && out < 0x8000_0000
    ensures 0 <= RoundQ31(x, out)
            == ClipQ63ToQ31(out * ((0x7FFF_FFFF - x * out / 0x8000_0000 % WORD_LIMIT) % WORD_LIMIT) / 0x4000_0000)
  {
    FactorWraps(0x4000_0000, x, out);
    RoundPositive(x, out);
  }

  // What one pass of the Q15 loop computes; its last product is unsigned and cut to 32 bits.
  lemma PassQ15(x: int, out: Int16)
    requires -0x8000 < x < 0x8000
    ensures var factor := (0x7FFF - x * out / 0x8000 % WORD_LIMIT) % WORD_LIMIT;
            RoundQ15(x, out) == AsInt16(out * factor % WORD_LIMIT / 0x4000)
  {
    FactorWraps(0x4000, x, out);
    CutTwice(out * (0x7FFF - x * out / 0x8000));
  }

  // The magnitude of the input is shifted up until its leading one is at position top.
  lemma NormaliseSigned(input: int, count: nat, top: nat)
    requires count <= 31 && top <= 31 && count + top >= 31
    requires Pow2(31 - count) <= (if input > 0 then input else -input) < 2 * Pow2(31 - count)
    ensures var x := input * Pow2(count + top - 31);
            if input > 0 then Pow2(top) <= x < 2 * Pow2(top) else -2 * Pow2(top) < x <= -Pow2(top)
  {
    NormaliseShift(if input > 0 then input else -input, count, top);
    assert (-input) * Pow2(count + top - 31) == -(input * Pow2(count + top - 31));
  }

  // The leading zeros of the magnitude.
  method CountOf(input: Int32) returns (count: nat)
    requires input != 0 && input != INT32_MIN
    ensures 1 <= count <= 31
    ensures Pow2(31 - count) <= (if input > 0 then input else -input) < 2 * Pow2(31 - count)
  {
    if input > 0 {
      count := Clz(input);
    } else {
      count := Clz(-input);
    }
    Pow2Values();
    assert count != 0;
  }

  // arm_recip_q31; shifting the input left is a multiplication.
  method RecipQ31(input: Int32, table: seq<Int32>) returns (dst: Int32, signBits: nat, ghost x: int)
    requires input != 0 && input != INT32_MIN
    requires |table| == 64 && forall i :: 0 <= i < 64 ==> table[i] >= 0
    ensures 1 <= signBits <= 31 && x == input * Pow2(signBits - 1)
    ensures if input > 0 then 0x4000_0000 <= x < 0x8000_0000 else -0x8000_0000 < x <= -0x4000_0000
    ensures var seed := table[x / 0x100_0000 % 0x40];
            if input > 0 then dst == NewtonStep(0x4000_0000, x, NewtonStep(0x4000_0000, x, seed))
            else dst == RoundQ31(x, RoundQ31(x, seed))
  {
    hide RoundQ31, NewtonStep, ClipQ63ToQ31;
    var count := CountOf(input);
    Pow2Values();
    NormaliseSigned(input, count, 30);
    signBits := count - 1;
    var scaled: Int32 := input * Pow2(signBits);
    x := scaled;
    var out: Int32 := table[scaled / 0x100_0000 % 0x40];
    ghost var seed := out;
    for i := 0 to 2
      invariant out >= 0
      invariant i == 0 ==> out == seed
      invariant i == 1 ==> out == RoundQ31(x, seed)
      invariant i == 2 ==> out == RoundQ31(x, RoundQ31(x, seed))
    {
      PassQ31(x, out);
      var tempVal: Word := scaled * out / 0x8000_0000 % WORD_LIMIT;
      tempVal := (0x7FFF_FFFF - tempVal) % WORD_LIMIT;
      out := ClipQ63ToQ31(out * tempVal / 0x4000_0000);
    }
    if input > 0 {
      RoundIsStep(x, seed);
      RoundIsStep(x, RoundQ31(x, seed));
    }
    dst := out;
    signBits := signBits + 1;
  }

  // For any input, negative ones as well, a round is a Newton step cut to the format: in Q31 to the
  // nearest number, in Q15 to the number with the same residue.
  lemma RoundsCut(x: int, out: nat)
    ensures -0x8000_0000 < x < 0x8000_0000 && out < 0x8000_0000 ==>
              Nearest(RoundQ31(x, out), NewtonStep(0x4000_0000, x, out), INT32_MIN, INT32_MAX)
    ensures (RoundQ15(x, out) - NewtonStep(0x4000, x, out)) % 0x1_0000 == 0
  {
    hide Nearest, ClipQ63ToQ31, AsInt16;
    CastResidue(NewtonStep(0x4000, x, out));
    if -0x8000_0000 < x < 0x8000_0000 && out < 0x8000_0000 {
      RoundFits(x, out);
      ClipIsClamp(NewtonStep(0x4000_0000, x, out));
    }
  }

  lemma RoundFits(x: int, out: nat)
    requires -0x8000_0000 < x < 0x8000_0000 && out < 0x8000_0000
    ensures 0 <= NewtonStep(0x4000_0000, x, out) <= 0x7FFF_FFFF_FFFF_FFFF
  {
    FactorWraps(0x4000_0000, x, out);
    MulBelow(out, 0x7FFF_FFFF - x * out / 0x8000_0000, 0x7FFF_FFFF, WORD_LIMIT);
  }

  lemma RoundPositive(x: int, out: nat)
    requires -0x8000_0000 < x < 0x8000_0000 && out < 0x8000_0000
    ensures RoundQ31(x, out) >= 0
  {
    RoundFits(x, out);
    ClipIsClamp(NewtonStep(0x4000_0000, x, out));
  }

  // arm_recip_q15
  method RecipQ15(input: Int16, table: seq<Int16>) returns (dst: Int16, signBits: nat, ghost x: int)
    requires input != 0 && input != -0x8000
    requires |table| == 64 && forall i :: 0 <= i < 64 ==> table[i] >= 0
    ensures 1 <= signBits <= 15 && x == input * Pow2(signBits - 1)
    ensures if input > 0 then 0x4000 <= x < 0x8000 else -0x8000 < x <= -0x4000
    ensures var seed := table[x / 0x100 % 0x40];
            if input > 0 then dst == NewtonStep(0x4000, x, NewtonStep(0x4000, x, seed))
            else dst == RoundQ15(x, RoundQ15(x, seed))
  {
    hide RoundQ15, NewtonStep, AsInt16;
    var count := CountOf(input);
    Pow2Values();
    assert count >= 17 by {
      if count <= 16 {
        Pow2Monotone(15, 31 - count);
      }
    }
    NormaliseSigned(input, count, 14);
    signBits := count - 17;
    var scaled: Int16 := input * Pow2(signBits);
    x := scaled;
    var out: Int16 := table[scaled / 0x100 % 0x40];
    ghost var seed := out;
    for i := 0 to 2
      invariant i == 0 ==> out == seed
      invariant i == 1 ==> out == RoundQ15(x, seed)
      invariant i == 2 ==> out == RoundQ15(x, RoundQ15(x, seed))
    {
      PassQ15(x, out);
      var tempVal: Word := scaled * out / 0x8000 % WORD_LIMIT;
      tempVal := (0x7FFF - tempVal) % WORD_LIMIT;
      var product: Word := out * tempVal % WORD_LIMIT;
      out := AsInt16(product / 0x4000);
    }
    if input > 0 {
      RoundIsStep(x, seed);
      RoundIsStep(x, RoundQ15(x, seed));
    }
    dst := out;
    signBits := signBits + 1;
  }

  // A negative input is normalised as well, but the rounds then move away from the reciprocal:
  // each at least doubles the seed.  From any seed of a quarter of full scale on, and every
  // table entry of a reciprocal is at least half, the Q31 kernel returns the largest number.
  lemma NegativeSaturates(x: int, seed: nat)
    requires -0x8000_0000 < x <= -0x4000_0000 && seed < 0x8000_0000
    ensures RoundQ31(x, seed) >= Min(2 * seed, 0x7FFF_FFFF)
    ensures seed >= 0x2000_0000 ==> RoundQ31(x, RoundQ31(x, seed)) == 0x7FFF_FFFF
  {
    Doubles(x, seed);
    var out := RoundQ31(x, seed);
    Doubles(x, out);
  }

  lemma Doubles(x: int, out: nat)
    requires -0x8000_0000 < x <= -0x4000_0000 && out < 0x8000_0000
    ensures RoundQ31(x, out) >= Min(2 * out, 0x7FFF_FFFF)
  {
    var f := 0x7FFF_FFFF - x * out / 0x8000_0000;
    if out > 0 {
      MulBelow(1, 1, -x, out);
      assert (-x) * out == -(x * out);
      assert x * out < 0 && f >= 0x8000_0000;
      MulBelow(out, 0x8000_0000, out, f);
    }
    ClipIsClamp(out * f / 0x4000_0000);
  }

  // The Q15 kernel does not clip but convert, and so it wraps: from any seed of half scale on, the
  // first round of a negative input leaves the 16-bit range.
  lemma NegativeWraps(x: int, seed: nat)
    requires -0x8000 < x <= -0x4000 && 0x4000 <= seed < 0x8000
    ensures var exact := seed * (0x7FFF - x * seed / 0x8000) / 0x4000;
            exact > 0x7FFF && RoundQ15(x, seed) == exact - (if exact < 0x1_8000 then 0x1_0000 else 0x2_0000)
  {
    var f := 0x7FFF - x * seed / 0x8000;
    FactorWraps(0x4000, x, seed);
    ProductBounds(0x8000, x, seed);
    MulBelow(1, 1, -x, seed);
    assert (-x) * seed == -(x * seed);
    assert x * seed < 0 && 0x8000 <= f <= 0xFFFF;
    MulBelow(seed, 0x8000, seed, f);
    MulBelow(seed, f, 0x7FFF, 0xFFFF);
    Wrapped(seed * f / 0x4000);
  }

  lemma Wrapped(v: int)
    requires 0x8000 <= v < 0x2_8000
    ensures AsInt16(v) == v - (if v < 0x1_8000 then 0x1_0000 else 0x2_0000)
  {
  }

  // ---------- accuracy after two steps ----------

  // A seed that is right to one part in 64 gives a Q31 reciprocal that is never too large and
  // less than 132 units in the last place too small.
  lemma AccuracyQ31(x: nat, seed: nat)
    requires Normalised(0x4000_0000, x, seed)
    requires -0x80_0000_0000_0000 <= Error(0x4000_0000, x, seed) <= 0x80_0000_0000_0000
    ensures 0 <= Error(0x4000_0000, x, NewtonStep(0x4000_0000, x, NewtonStep(0x4000_0000, x, seed))) < 132 * x
  {
    TwoStepError(0x4000_0000, x, seed, 0x80_0000_0000_0000, 0x2_0001_8000_0000);
  }

  // The same in Q15: less than 4 units.
  lemma AccuracyQ15(x: nat, seed: nat)
    requires Normalised(0x4000, x, seed)
    requires -0x80_0000 <= Error(0x4000, x, seed) <= 0x80_0000
    ensures 0 <= Error(0x4000, x, NewtonStep(0x4000, x, NewtonStep(0x4000, x, seed))) < 4 * x
  {
    TwoStepError(0x4000, x, seed, 0x80_0000, 0x3_8000);
  }

  lemma TwoStepError(h: nat, x: nat, seed: nat, e0: int, e1: nat)
    requires Normalised(h, x, seed) && -e0 <= Error(h, x, seed) <= e0
    requires e0 * e0 + 2 * h * h * (6 * h) <= 2 * h * h * e1
    ensures 0 <= Error(h, x, NewtonStep(h, x, NewtonStep(h, x, seed)))
    ensures 2 * h * h * Error(h, x, NewtonStep(h, x, NewtonStep(h, x, seed))) <= e1 * e1 + 2 * h * h * (3 * x)
  {
    var out := NewtonStep(h, x, seed);
    StepFits(h, x, seed);
    StepConverges(h, x, seed);
    StepConverges(h, x, out);
    FirstError(2 * h * h, Error(h, x, seed), e0, Error(h, x, out), x, h, e1);
    MulBelow(Error(h, x, out), Error(h, x, out), e1, e1);
  }

  lemma FirstError(n: nat, e: int, e0: int, e': int, x: nat, h: nat, e1: nat)
    requires n > 0 && -e0 <= e <= e0 && x <= 2 * h
    requires n * e' <= e * e + n * (3 * x)
    requires e0 * e0 + n * (6 * h) <= n * e1
    ensures e' <= e1
  {
    if e >= 0 {
      MulBelow(e, e, e0, e0);
    } else {
      MulBelow(-e, -e, e0, e0);
    }
    MulBelow(n, 3 * x, n, 6 * h);
    CancelLeft(n, e', e1);
  }

  lemma CancelLeft(n: int, a: int, b: int)
    requires n > 0 && n * a <= n * b
    ensures a <= b
  {
    assert n * (b - a) == n * b - n * a;
    NonNegativeFactor(n, b - a);
  }
}
