/** Vocabulary shared by the models: machine words, optional values and small arithmetic. */
module Common {
  const WORD_LIMIT := 0x1_0000_0000

  // A uint32_t.  Storing a value outside the range is a verification error, so every
  // assignment to a Word is also a proof that the C expression does not wrap there.
  type Word = x: int | 0 <= x < WORD_LIMIT

  datatype Option<+T> = None | Some(value: T)

  function Min(a: int, b: int): int {
    if a <= b then a else b
  }

  // max(a - b, 0)
  function Monus(a: int, b: int): nat {
    if a <= b then 0 else a - b
  }

  // The C pattern that limits x to the closed range [lo, hi].
  function Clamp(x: int, lo: int, hi: int): int {
    if x < lo then lo else if x > hi then hi else x
  }

  function Distance(a: int, b: int): nat {
    if a <= b then b - a else a - b
  }

  // Of the numbers from lo to hi, r is the one nearest to x.
  ghost predicate Nearest(r: int, x: int, lo: int, hi: int) {
    lo <= r <= hi && forall q :: lo <= q <= hi ==> Distance(x, r) <= Distance(x, q)
  }

  // Saturation: the result is the nearest number of the range, and only it is.
  lemma ClampNearest(r: int, x: int, lo: int, hi: int)
    requires lo <= hi
    ensures Nearest(r, x, lo, hi) <==> r == Clamp(x, lo, hi)
  {
    if Nearest(r, x, lo, hi) {
      assert Distance(x, r) <= Distance(x, Clamp(x, lo, hi));
    }
  }

  const INT32_MIN := -0x8000_0000
  const INT32_MAX := 0x7FFF_FFFF

  type Int32 = x: int | INT32_MIN <= x <= INT32_MAX
  type Int16 = x: int | -0x8000 <= x <= 0x7FFF
  type Uint16 = x: int | 0 <= x <= 0xFFFF
  type Int8 = x: int | -0x80 <= x <= 0x7F

  // The C conversion to int32_t: keep the low 32 bits, read them as two's complement.
  function AsInt32(x: int): Int32 {
    (x + 0x8000_0000) % WORD_LIMIT - 0x8000_0000
  }

  // The C conversion to int16_t.
  function AsInt16(x: int): Int16 {
    (x + 0x8000) % 0x1_0000 - 0x8000
  }

  // The conversions keep numbers in range, and the residue of others.
  lemma CastExact(x: int)
    ensures AsInt32(x) == x <==> INT32_MIN <= x <= INT32_MAX
  {
  }

  lemma CastResidue(x: int)
    ensures (AsInt32(x) - x) % WORD_LIMIT == 0 && (AsInt16(x) - x) % 0x1_0000 == 0
  {
  }

  function Pow2(n: nat): (p: int)
    ensures p > 0
  {
    if n == 0 then 1 else 2 * Pow2(n - 1)
  }
}
