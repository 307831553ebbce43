/** The saturating helpers of arm_math.h.  Right shifts of negative numbers floor, like "/" here. */
module Saturation {
  import opened Arithmetic
  import opened Common

  // x shifted down by 31 as a 32-bit number: its sign.
  function Sign(x: Int32): int {
    if x < 0 then -1 else 0
  }

  // Compares the high word with the sign of the low word instead of comparing with the limits.
  function ClipQ63ToQ31(x: int): Int32 {
    if AsInt32(x / WORD_LIMIT) != Sign(AsInt32(x))
    then (if x < 0 then INT32_MIN else INT32_MAX)
    else AsInt32(x)
  }

  lemma ClipIsClamp(x: int)
    requires -0x8000_0000_0000_0000 <= x <= 0x7FFF_FFFF_FFFF_FFFF
    ensures ClipQ63ToQ31(x) == Clamp(x, INT32_MIN, INT32_MAX)
    ensures Nearest(ClipQ63ToQ31(x), x, INT32_MIN, INT32_MAX)
  {
    ClampNearest(Clamp(x, INT32_MIN, INT32_MAX), x, INT32_MIN, INT32_MAX);
    var h, l := x / WORD_LIMIT, x % WORD_LIMIT;
    assert x == h * WORD_LIMIT + l;
    assert AsInt32(h) == h;
    assert (x + 0x8000_0000) % WORD_LIMIT == (l + 0x8000_0000) % WORD_LIMIT;
  }

  function QAdd(x: Int32, y: Int32): Int32 {
    ClipQ63ToQ31(x + y)
  }

  function QSub(x: Int32, y: Int32): Int32 {
    ClipQ63ToQ31(x - y)
  }

  // The software __SSAT of cores without the instruction; y is the width in bits.
  method Ssat(x: Int32, y: nat) returns (r: Int32)
    requires 1 <= y <= 31
    ensures r == Clamp(x, -Pow2(y - 1), Pow2(y - 1) - 1)
    ensures Nearest(r, x, -Pow2(y - 1), Pow2(y - 1) - 1)
  {
    ClampNearest(Clamp(x, -Pow2(y - 1), Pow2(y - 1) - 1), x, -Pow2(y - 1), Pow2(y - 1) - 1);
    Pow2Monotone(y - 1, 30);
    Pow2Values();
    var posMax: Int32 := 1;
    for i := 0 to y - 1
      invariant posMax == Pow2(i)
    {
      Pow2Monotone(i + 1, y - 1);
      posMax := posMax * 2;
    }
    r := x;
    if x > 0 {
      posMax := posMax - 1;
      if x > posMax {
        r := posMax;
      }
    } else {
      var negMin: Int32 := -posMax;
      if x < negMin {
        r := negMin;
      }
    }
  }
}
