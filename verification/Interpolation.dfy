/** Table interpolation in Q15 and Q7.  The input is 12.20: table index and 20-bit fraction. */
module Interpolation {
  import opened Common

  const ONE := 0x10_0000
  const FRACTION_MAX := 0xF_FFFF

  // The weights FRACTION_MAX - f and f add up to one less than 2^20.
  function Blend(y0: int, y1: int, f: int): int {
    (y0 * (FRACTION_MAX - f) + y1 * f) / ONE
  }

  // x & 0xFFF00000 shifted down by 20, and x & 0x000FFFFF, on two's complement.
  function Index(x: Int32): int {
    x / ONE
  }

  function Fraction(x: Int32): nat {
    x % ONE
  }

  lemma IndexRange(x: Int32)
    ensures -2048 <= Index(x) <= 2047
    ensures x == Index(x) * ONE + Fraction(x)
  {
  }

  // arm_linear_interp_q15.  Both table reads are in bounds for every x.
  function InterpQ15(table: seq<Int16>, x: Int32): Int16
    requires 0 < |table| <= 0x8000_0000
  {
    var index, n := Index(x), |table|;
    if index >= n - 1 then table[n - 1]
    else if index < 0 then table[0]
    else
      BlendBounds(table[index], table[index + 1], Fraction(x));
      Blend(table[index], table[index + 1], Fraction(x))
  }

  // arm_linear_interp_q7 tests for a negative input first and masks the index.
  function InterpQ7(table: seq<Int8>, x: Int32): Int8
    requires 0 < |table| <= 0x8000_0000
  {
    if x < 0 then table[0]
    else
      var index, n := Index(x) % 0x1000, |table|;
      if index >= n - 1 then table[n - 1]
      else
        BlendBounds(table[index], table[index + 1], Fraction(x));
        Blend(table[index], table[index + 1], Fraction(x))
  }

  // The result is the floor of the interpolant y0 + (y1 - y0)*f/2^20 less y0/2^20; it lies
  // between the table values, or one unit below the lower one if that is positive.
  lemma BlendBounds(y0: int, y1: int, f: nat)
    requires -0x8000 <= y0 <= 0x7FFF && -0x8000 <= y1 <= 0x7FFF && f <= FRACTION_MAX
    ensures ONE * Blend(y0, y1, f) <= ONE * y0 + (y1 - y0) * f - y0 < ONE * (Blend(y0, y1, f) + 1)
    ensures var lo := Min(y0, y1); lo - (if lo > 0 then 1 else 0) <= Blend(y0, y1, f)
    ensures Blend(y0, y1, f) <= if y0 <= y1 then y1 else y0
  {
    var v := y0 * (FRACTION_MAX - f) + y1 * f;
    assert v == ONE * y0 + (y1 - y0) * f - y0;
    if y0 <= y1 {
      Weigh(y1 - y0, f);
    } else {
      Weigh(y0 - y1, f);
      assert (y1 - y0) * f == -((y0 - y1) * f);
    }
  }

  // Inside the table the Q15 kernel interpolates between the two neighbours of x = i + f/2^20, with
  // the deviation of -y0/2^20 and rounding down; outside it returns the first or the last value.
  lemma InterpolatesQ15(table: seq<Int16>, x: Int32, i: int, f: nat)
    requires 0 < |table| <= 0x8000_0000 && x == i * ONE + f && f < ONE
    ensures i < 0 ==> InterpQ15(table, x) == table[0]
    ensures i >= |table| - 1 && x >= 0 ==> InterpQ15(table, x) == table[|table| - 1]
    ensures 0 <= i < |table| - 1 ==>
              var r, y0, y1 := InterpQ15(table, x), table[i], table[i + 1];
              ONE * r <= ONE * y0 + (y1 - y0) * f - y0 < ONE * (r + 1)
  {
    assert Index(x) == i && Fraction(x) == f;
    if 0 <= i < |table| - 1 {
      BlendBounds(table[i], table[i + 1], f);
    }
  }

  lemma InterpolatesQ7(table: seq<Int8>, x: Int32, i: int, f: nat)
    requires 0 < |table| <= 0x8000_0000 && x == i * ONE + f && f < ONE
    ensures i < 0 ==> InterpQ7(table, x) == table[0]
    ensures i >= |table| - 1 && x >= 0 ==> InterpQ7(table, x) == table[|table| - 1]
    ensures 0 <= i < |table| - 1 ==>
              var r, y0, y1 := InterpQ7(table, x), table[i], table[i + 1];
              ONE * r <= ONE * y0 + (y1 - y0) * f - y0 < ONE * (r + 1)
  {
    hide Blend;
    Q7IsQ15(table, x);
    InterpolatesQ15(table, x, i, f);
  }

  lemma Weigh(d: nat, f: nat)
    requires f <= FRACTION_MAX
    ensures 0 <= d * f <= d * FRACTION_MAX
  {
    assert d * (FRACTION_MAX - f) >= 0;
  }

  predicate NonDecreasing(table: seq<int>) {
    forall i, j :: 0 <= i <= j < |table| ==> table[i] <= table[j]
  }

  // Within a segment the result grows with the fraction.
  lemma BlendMonotone(y0: int, y1: int, f: nat, g: nat)
    requires y0 <= y1 && f <= g <= FRACTION_MAX
    ensures Blend(y0, y1, f) <= Blend(y0, y1, g)
  {
    assert (y1 - y0) * (g - f) >= 0;
    assert y0 * (FRACTION_MAX - g) + y1 * g - (y0 * (FRACTION_MAX - f) + y1 * f) == (y1 - y0) * (g - f);
  }

  // For a non-decreasing table the Q15 kernel is non-decreasing over all x >= 0, across segment
  // boundaries and the upper end.
  lemma MonotoneQ15(table: seq<Int16>, x: Int32, x': Int32)
    requires 0 < |table| <= 0x8000_0000 && NonDecreasing(table)
    requires 0 <= x <= x'
    ensures InterpQ15(table, x) <= InterpQ15(table, x')
  {
    var n, i, i' := |table|, Index(x), Index(x');
    if i < n - 1 {
      BlendBounds(table[i], table[i + 1], Fraction(x));
      if i' < n - 1 {
        if i == i' {
          BlendMonotone(table[i], table[i + 1], Fraction(x), Fraction(x'));
        } else {
          AcrossSegments(table, i, Fraction(x), i', Fraction(x'));
        }
      }
    }
  }

  lemma AcrossSegments(table: seq<Int16>, i: nat, f: nat, i': nat, f': nat)
    requires NonDecreasing(table) && i < i' && i' + 1 < |table|
    requires f <= FRACTION_MAX && f' <= FRACTION_MAX
    ensures Blend(table[i], table[i + 1], f) <= Blend(table[i'], table[i' + 1], f')
  {
    BlendMonotone(table[i], table[i + 1], f, FRACTION_MAX);
    BlendMonotone(table[i'], table[i' + 1], 0, f');
    assert table[i + 1] <= table[i'];
  }

  // At a node the kernel does not return the table value but one less, if that is positive; the
  // last node is exact.
  lemma NodeValue(table: seq<Int16>, i: nat)
    requires 0 < |table| <= 0x8000_0000 && i < |table| && i * ONE <= INT32_MAX
    ensures InterpQ15(table, i * ONE) == table[i] <==> i == |table| - 1 || table[i] <= 0
    ensures table[i] - 1 <= InterpQ15(table, i * ONE) <= table[i]
  {
    assert Index(i * ONE) == i && Fraction(i * ONE) == 0;
  }

  // Over all x, negative ones included, monotonicity fails exactly when the step from the first
  // table value to the first segment goes down.
  lemma MonotoneEverywhereIff(table: seq<Int16>)
    requires 0 < |table| <= 0x8000_0000 && NonDecreasing(table)
    ensures |table| == 1 || table[0] <= 0 <==>
            forall x: Int32, x': Int32 :: x <= x' ==> InterpQ15(table, x) <= InterpQ15(table, x')
  {
    if |table| == 1 || table[0] <= 0 {
      forall x: Int32, x': Int32 | x <= x'
        ensures InterpQ15(table, x) <= InterpQ15(table, x')
      {
        if x >= 0 {
          MonotoneQ15(table, x, x');
        } else if x' >= 0 {
          StartValue(table);
          MonotoneQ15(table, 0, x');
        }
      }
    } else {
      var x: Int32, x': Int32 := -1, 0;
      StartValue(table);
      assert InterpQ15(table, x) == table[0];
      assert InterpQ15(table, x') == table[0] - 1;
    }
  }

  lemma StartValue(table: seq<Int16>)
    requires 0 < |table| <= 0x8000_0000
    ensures InterpQ15(table, 0) == if |table| == 1 || table[0] <= 0 then table[0] else table[0] - 1
  {
    NodeValue(table, 0);
  }

  // The index of a signed 12.20 input ends at 2047, so of a longer table only the first 2049 values
  // matter; the documentation promises tables of 2^12 values.
  lemma RestUnused(table: seq<Int16>, x: Int32)
    requires 2049 <= |table| <= 0x8000_0000
    ensures InterpQ15(table, x) == InterpQ15(table[..2049], x)
  {
    IndexRange(x);
  }

  // The Q7 kernel computes the same law, so everything above holds for it.
  lemma Q7IsQ15(table: seq<Int8>, x: Int32)
    requires 0 < |table| <= 0x8000_0000
    ensures InterpQ7(table, x) == InterpQ15(table, x)
  {
  }

  lemma MonotoneQ7(table: seq<Int8>, x: Int32, x': Int32)
    requires 0 < |table| <= 0x8000_0000 && NonDecreasing(table)
    requires 0 <= x <= x'
    ensures InterpQ7(table, x) <= InterpQ7(table, x')
  {
    Q7IsQ15(table, x);
    Q7IsQ15(table, x');
    MonotoneQ15(table, x, x');
  }
}
