/** The Q31 Clarke transform and its inverse. */
module Clarke {
  import opened Common
  import opened Saturation

  const ONE_OVER_SQRT3 := 0x24F34E8B       // 2.30
  const TWO_OVER_SQRT3 := 0x49E69D16       // 2.30
  const SQRT3_OVER_2 := 0x6ED9EBA1         // 1.31
  const HALF := 0x4000_0000                // 1.31
  const LARGEST_IB := 1859775393

  function Clarke(ia: Int32, ib: Int32): (Int32, Int32) {
    var product1 := AsInt32(ia * ONE_OVER_SQRT3 / 0x4000_0000);
    var product2 := AsInt32(ib * TWO_OVER_SQRT3 / 0x4000_0000);
    (ia, QAdd(product1, product2))
  }

  function InvClarke(ialpha: Int32, ibeta: Int32): (Int32, Int32) {
    var product1 := AsInt32(ialpha * HALF / 0x8000_0000);
    var product2 := AsInt32(ibeta * SQRT3_OVER_2 / 0x8000_0000);
    (ialpha, QSub(product2, product1))
  }

  // The constants are the multiples of 1/sqrt(3), 2/sqrt(3) and sqrt(3)/2, rounded down.
  lemma Constants()
    ensures var c := ONE_OVER_SQRT3; 3 * c * c <= 0x4000_0000 * 0x4000_0000 < 3 * (c + 1) * (c + 1)
    ensures var c := TWO_OVER_SQRT3; 3 * c * c <= 4 * 0x4000_0000 * 0x4000_0000 < 3 * (c + 1) * (c + 1)
    ensures var c := SQRT3_OVER_2; 4 * c * c <= 3 * 0x8000_0000 * 0x8000_0000 < 4 * (c + 1) * (c + 1)
  {
  }

  // The transform of any pair: the 32-bit number nearest to the sum of the two products, where the
  // second one has been cut to 32 bits.
  lemma ClarkeNearest(ia: Int32, ib: Int32)
    ensures Clarke(ia, ib).0 == ia
    ensures var p1, p2 := ia * ONE_OVER_SQRT3 / 0x4000_0000, ib * TWO_OVER_SQRT3 / 0x4000_0000;
            var cut := if ib > LARGEST_IB then p2 - WORD_LIMIT else if ib < -LARGEST_IB then p2 + WORD_LIMIT else p2;
            Nearest(Clarke(ia, ib).1, p1 + cut, INT32_MIN, INT32_MAX)
  {
    hide Nearest, ClipQ63ToQ31;
    ProductsFit(ia, ib);
    var p1, p2 := ia * ONE_OVER_SQRT3 / 0x4000_0000, ib * TWO_OVER_SQRT3 / 0x4000_0000;
    assert AsInt32(p1) == p1;
    assert ib > LARGEST_IB ==> AsInt32(p2) == p2 - WORD_LIMIT;
    assert ib < -LARGEST_IB ==> AsInt32(p2) == p2 + WORD_LIMIT;
    ClipIsClamp(AsInt32(p1) + AsInt32(p2));
  }

  // The inverse of any pair, an image of the transform or not: the 32-bit number nearest to the
  // difference of the two quotients.
  lemma InvClarkeNearest(ialpha: Int32, ibeta: Int32)
    ensures InvClarke(ialpha, ibeta).0 == ialpha
    ensures Nearest(InvClarke(ialpha, ibeta).1, ibeta * SQRT3_OVER_2 / 0x8000_0000 - ialpha / 2, INT32_MIN, INT32_MAX)
  {
    hide Nearest, ClipQ63ToQ31;
    var q1, q2 := ialpha * HALF / 0x8000_0000, ibeta * SQRT3_OVER_2 / 0x8000_0000;
    assert q1 == ialpha / 2;
    CastExact(q1);
    CastExact(q2);
    ClipIsClamp(q2 - q1);
  }

  // Where the forward transform stays in 32 bits: |Ib| below sqrt(3)/2 of full scale, and the sum.
  predicate Fits(ia: Int32, ib: Int32) {
    && -LARGEST_IB <= ib <= LARGEST_IB
    && INT32_MIN <= ia * ONE_OVER_SQRT3 / 0x4000_0000 + ib * TWO_OVER_SQRT3 / 0x4000_0000 <= INT32_MAX
  }

  // The first product always fits; the second one exactly up to LARGEST_IB.
  lemma ProductsFit(ia: Int32, ib: Int32)
    ensures INT32_MIN <= ia * ONE_OVER_SQRT3 / 0x4000_0000 <= INT32_MAX
    ensures INT32_MIN <= ib * TWO_OVER_SQRT3 / 0x4000_0000 <= INT32_MAX <==> -LARGEST_IB <= ib <= LARGEST_IB
  {
  }

  // The transform is the plain scaled sum exactly where Fits says so.
  lemma ClarkeExactIff(ia: Int32, ib: Int32)
    ensures Fits(ia, ib) <==>
            Clarke(ia, ib).1 == ia * ONE_OVER_SQRT3 / 0x4000_0000 + ib * TWO_OVER_SQRT3 / 0x4000_0000
  {
    ProductsFit(ia, ib);
    var p1, p2 := ia * ONE_OVER_SQRT3 / 0x4000_0000, ib * TWO_OVER_SQRT3 / 0x4000_0000;
    CastExact(p1);
    CastExact(p2);
    assert p2 > INT32_MAX ==> AsInt32(p2) == p2 - WORD_LIMIT;
    assert p2 < INT32_MIN ==> AsInt32(p2) == p2 + WORD_LIMIT;
    ClipIsClamp(AsInt32(p1) + AsInt32(p2));
  }

  // Forward and back: Ia exactly, Ib up to rounding.
  lemma RoundTrip(ia: Int32, ib: Int32)
    requires Fits(ia, ib)
    ensures var (alpha, beta) := Clarke(ia, ib);
            InvClarke(alpha, beta).0 == ia && -3 <= InvClarke(alpha, beta).1 - ib <= 1
  {
    ClarkeExactIff(ia, ib);
    var beta := Clarke(ia, ib).1;
    var q1, q2 := ia * HALF / 0x8000_0000, beta * SQRT3_OVER_2 / 0x8000_0000;
    CastExact(q1);
    CastExact(q2);
    ClipIsClamp(q2 - q1);
  }

  // The inverse undoes the plain sum, cut off or not, up to rounding.
  lemma PlainRoundTrip(ia: Int32, ib: Int32)
    requires -LARGEST_IB <= ib <= LARGEST_IB
    ensures var sum := ia * ONE_OVER_SQRT3 / 0x4000_0000 + ib * TWO_OVER_SQRT3 / 0x4000_0000;
            -3 <= sum * SQRT3_OVER_2 / 0x8000_0000 - ia * HALF / 0x8000_0000 - ib <= 1
  {
    var p1, p2 := ia * ONE_OVER_SQRT3 / 0x4000_0000, ib * TWO_OVER_SQRT3 / 0x4000_0000;
    FloorBounds(ia, ib, p1, p2, (p1 + p2) * SQRT3_OVER_2 / 0x8000_0000, ia * HALF / 0x8000_0000);
  }

  // The same over the inequalities that define the four quotients.
  lemma FloorBounds(ia: Int32, ib: Int32, p1: int, p2: int, w: int, q1: int)
    requires -LARGEST_IB <= ib <= LARGEST_IB
    requires p1 * 0x4000_0000 <= ia * ONE_OVER_SQRT3 < (p1 + 1) * 0x4000_0000
    requires p2 * 0x4000_0000 <= ib * TWO_OVER_SQRT3 < (p2 + 1) * 0x4000_0000
    requires w * 0x8000_0000 <= (p1 + p2) * SQRT3_OVER_2 < (w + 1) * 0x8000_0000
    requires q1 * 0x8000_0000 <= ia * HALF < (q1 + 1) * 0x8000_0000
    ensures -3 <= w - q1 - ib <= 1
  {
    assert 2 * q1 <= ia <= 2 * q1 + 1;
    var sum, exact := p1 + p2, ia * ONE_OVER_SQRT3 + ib * TWO_OVER_SQRT3;
    assert sum * 0x4000_0000 <= exact < (sum + 2) * 0x4000_0000;
    assert sum * 0x4000_0000 * SQRT3_OVER_2 <= exact * SQRT3_OVER_2;
    assert exact * SQRT3_OVER_2 <= (sum + 2) * 0x4000_0000 * SQRT3_OVER_2;
  }

  lemma SplitFloor(sum: int, excess: int)
    ensures var c, d := SQRT3_OVER_2, 0x8000_0000;
            -1 <= (sum - excess) * c / d + excess * c / d - sum * c / d <= 0
  {
  }

  lemma PositivePart(ia: Int32, ib: Int32)
    requires -LARGEST_IB <= ib <= LARGEST_IB
    ensures var sum := ia * ONE_OVER_SQRT3 / 0x4000_0000 + ib * TWO_OVER_SQRT3 / 0x4000_0000;
            (sum > INT32_MAX ==> ia >= 0) && (sum < INT32_MIN ==> ia <= 0)
  {
  }

  // Where only the sum leaves the range it is cut off, by the excess, and the recovered Ib is too
  // small by sqrt(3)/2 of the excess, up to rounding.
  lemma RoundTripSaturated(ia: Int32, ib: Int32)
    requires -LARGEST_IB <= ib <= LARGEST_IB
    ensures var (alpha, beta) := Clarke(ia, ib);
            var excess := ia * ONE_OVER_SQRT3 / 0x4000_0000 + ib * TWO_OVER_SQRT3 / 0x4000_0000 - beta;
            && (excess == 0 <==> Fits(ia, ib))
            && InvClarke(alpha, beta).0 == ia
            && -4 <= InvClarke(alpha, beta).1 - ib + excess * SQRT3_OVER_2 / 0x8000_0000 <= 1
  {
    hide ClipQ63ToQ31, AsInt32;
    ProductsFit(ia, ib);
    var p1, p2 := ia * ONE_OVER_SQRT3 / 0x4000_0000, ib * TWO_OVER_SQRT3 / 0x4000_0000;
    CastExact(p1);
    CastExact(p2);
    ClipIsClamp(p1 + p2);
    var beta := Clarke(ia, ib).1;
    var q1, q2 := ia * HALF / 0x8000_0000, beta * SQRT3_OVER_2 / 0x8000_0000;
    CastExact(q1);
    CastExact(q2);
    ClipIsClamp(q2 - q1);
    PlainRoundTrip(ia, ib);
    SplitFloor(p1 + p2, p1 + p2 - beta);
    PositivePart(ia, ib);
    assert INT32_MIN <= q2 - q1 <= INT32_MAX;
  }

  // Beyond LARGEST_IB the conversion of the second product wraps, although the documentation
  // says there is no risk of overflow: the current comes back with the wrong sign.
  lemma WrapFlipsSign(ia: Int32, ib: Int32)
    requires ib > LARGEST_IB || ib < -LARGEST_IB
    ensures var (alpha, beta) := Clarke(ia, ib);
            if ib > 0 then InvClarke(alpha, beta).1 < 0 else InvClarke(alpha, beta).1 > 0
  {
    hide ClipQ63ToQ31;
    ProductsFit(ia, ib);
    var p1, p2 := ia * ONE_OVER_SQRT3 / 0x4000_0000, ib * TWO_OVER_SQRT3 / 0x4000_0000;
    CastExact(p1);
    assert AsInt32(p2) == if ib > 0 then p2 - WORD_LIMIT else p2 + WORD_LIMIT;
    ClipIsClamp(p1 + AsInt32(p2));
    var beta := Clarke(ia, ib).1;
    var q1, q2 := ia * HALF / 0x8000_0000, beta * SQRT3_OVER_2 / 0x8000_0000;
    CastExact(q1);
    CastExact(q2);
    ClipIsClamp(q2 - q1);
  }
}
