/** The circular write and read kernels, the delay line they make, and strided writing. */
module CircularBuffer {
  import opened Arithmetic
  import opened Common

  // The offset update of both kernels.
  function Advance(w: int, inc: int, l: int): int {
    if w + inc >= l then w + inc - l else w + inc
  }

  predicate Ring(w: int, inc: int, l: int) {
    0 <= w < l <= 0x4000_0000 && 0 <= inc <= l
  }

  function OffsetAfter(w: int, inc: int, l: int, k: nat): (r: int)
    ensures Ring(w, inc, l) ==> 0 <= r < l
  {
    if k == 0 then w else Advance(OffsetAfter(w, inc, l, k - 1), inc, l)
  }

  // The offset is w + k*inc less a whole number of rounds, and always inside the buffer.
  lemma {:induction false} OffsetLinear(w: int, inc: int, l: int, k: nat) returns (rounds: int)
    requires Ring(w, inc, l)
    ensures OffsetAfter(w, inc, l, k) == w + k * inc - rounds * l
    ensures 0 <= OffsetAfter(w, inc, l, k) < l
  {
    if k == 0 {
      rounds := 0;
    } else {
      rounds := OffsetLinear(w, inc, l, k - 1);
      assert k * inc == (k - 1) * inc + inc;
      if OffsetAfter(w, inc, l, k - 1) + inc >= l {
        assert (rounds + 1) * l == rounds * l + l;
        rounds := rounds + 1;
      }
    }
  }

  lemma OffsetIsMod(w: int, inc: int, l: int, k: nat)
    requires Ring(w, inc, l)
    ensures OffsetAfter(w, inc, l, k) == (w + k * inc) % l
  {
    var rounds := OffsetLinear(w, inc, l, k);
    DivModUnique(w + k * inc, rounds, l, OffsetAfter(w, inc, l, k));
  }

  // What C asks of a walk of n steps: every slot lies in the buffer, no signed sum overflows.
  predicate Within(w: int, inc: int, l: int, n: nat) {
    forall k: nat :: k < n ==>
      0 <= OffsetAfter(w, inc, l, k) < l && INT32_MIN <= OffsetAfter(w, inc, l, k) + inc <= INT32_MAX
  }

  lemma RingWithin(w: int, inc: int, l: int, n: nat)
    requires Ring(w, inc, l)
    ensures Within(w, inc, l, n)
  {
  }

  // A negative stride walks straight down.  It is not brought back at the lower end, so it stays
  // in the buffer exactly while the distance to slot 0 lasts.
  lemma BackwardIff(w: int, inc: int, l: int, n: nat)
    requires 0 <= w < l <= 0x4000_0000 && -l <= inc < 0
    ensures Within(w, inc, l, n) <==> n == 0 || 0 <= w + (n - 1) * inc
  {
    if n > 0 {
      if 0 <= w + (n - 1) * inc {
        forall k: nat | k < n
          ensures 0 <= OffsetAfter(w, inc, l, k) < l
        {
          MulBelow(k, -inc, n - 1, -inc);
          assert k * inc == -(k * (-inc)) && (n - 1) * inc == -((n - 1) * (-inc));
          Backward(w, inc, l, k);
        }
      } else if Within(w, inc, l, n) {
        StaysBackward(w, inc, l, n - 1);
      }
    }
  }

  lemma {:induction false} Backward(w: int, inc: int, l: int, k: nat)
    requires 0 <= w < l && inc < 0 && 0 <= w + k * inc
    ensures OffsetAfter(w, inc, l, k) == w + k * inc < l
  {
    if k > 0 {
      assert k * inc == (k - 1) * inc + inc;
      Backward(w, inc, l, k - 1);
    }
  }

  lemma {:induction false} StaysBackward(w: int, inc: int, l: int, k: nat)
    requires 0 <= w < l && inc < 0 && Within(w, inc, l, k + 1)
    ensures OffsetAfter(w, inc, l, k) == w + k * inc
  {
    if k > 0 {
      assert k * inc == (k - 1) * inc + inc;
      StaysBackward(w, inc, l, k - 1);
    }
  }

  // Where the offset is after n steps, perhaps below slot 0.
  lemma EndsBackward(w: int, inc: int, l: int, n: nat)
    requires 0 <= w < l && inc < 0 && Within(w, inc, l, n)
    ensures OffsetAfter(w, inc, l, n) == w + n * inc
  {
    if n > 0 {
      StaysBackward(w, inc, l, n - 1);
      assert n * inc == (n - 1) * inc + inc;
    }
  }

  // ---------- the kernels ----------

  // A pointer that walks through an array with a stride.
  predicate Readable(src: seq<Int16>, start: int, srcInc: int, n: nat) {
    forall k :: 0 <= k < n ==> 0 <= start + k * srcInc < |src|
  }

  function Samples(src: seq<Int16>, start: int, srcInc: int, n: nat): seq<Int16>
    requires Readable(src, start, srcInc, n)
  {
    seq(n, k requires 0 <= k < n => src[start + k * srcInc])
  }

  // The buffer after writing xs from offset w on.
  function Written(buf: seq<Int16>, w: int, inc: int, xs: seq<Int16>): (r: seq<Int16>)
    requires Within(w, inc, |buf|, |xs|)
    ensures |r| == |buf|
  {
    if xs == [] then buf
    else
      var n := |xs| - 1;
      Written(buf, w, inc, xs[..n])[OffsetAfter(w, inc, |buf|, n) := xs[n]]
  }

  lemma NothingWritten(buf: seq<Int16>, w: int, inc: int)
    ensures Written(buf, w, inc, []) == buf
  {
  }

  lemma WrittenStep(buf: seq<Int16>, w: int, inc: int, xs: seq<Int16>, k: nat)
    requires k < |xs| && Within(w, inc, |buf|, |xs|)
    ensures Written(buf, w, inc, xs[..k + 1]) == Written(buf, w, inc, xs[..k])[OffsetAfter(w, inc, |buf|, k) := xs[k]]
  {
    assert xs[..k + 1][..k] == xs[..k];
  }

  function Offsets(w: int, inc: int, l: int, n: nat): seq<int> {
    seq(n, k requires 0 <= k < n => OffsetAfter(w, inc, l, k))
  }

  // What storing samples one after the other does: a slot holds the last sample that has gone there,
  // and the slots to which none has gone keep their values.
  ghost predicate Stored(before: seq<Int16>, after: seq<Int16>, slots: seq<int>, xs: seq<Int16>) {
    && |slots| == |xs| && |after| == |before|
    && (forall k :: 0 <= k < |slots| ==> 0 <= slots[k] < |after|)
    && (forall k :: 0 <= k < |slots| && slots[k] !in slots[k + 1..] ==> after[slots[k]] == xs[k])
    && (forall q :: 0 <= q < |after| && q !in slots ==> after[q] == before[q])
  }

  lemma StoredLast(before: seq<Int16>, after: seq<Int16>, slots: seq<int>, xs: seq<Int16>, slot: int, x: Int16)
    requires Stored(before, after, slots, xs) && 0 <= slot < |after|
    ensures Stored(before, after[slot := x], slots + [slot], xs + [x])
  {
    var longer := slots + [slot];
    forall k | 0 <= k < |longer| && longer[k] !in longer[k + 1..]
      ensures after[slot := x][longer[k]] == (xs + [x])[k]
    {
      if k < |slots| {
        assert longer[k + 1..] == slots[k + 1..] + [slot];
      }
    }
    assert forall q :: q in slots ==> q in longer;
    assert slot in longer;
  }

  lemma {:induction false} WrittenStored(buf: seq<Int16>, w: int, inc: int, xs: seq<Int16>)
    requires Within(w, inc, |buf|, |xs|)
    ensures Stored(buf, Written(buf, w, inc, xs), Offsets(w, inc, |buf|, |xs|), xs)
  {
    hide OffsetAfter;
    if xs != [] {
      var n := |xs| - 1;
      WrittenStored(buf, w, inc, xs[..n]);
      StoredLast(buf, Written(buf, w, inc, xs[..n]), Offsets(w, inc, |buf|, n), xs[..n], OffsetAfter(w, inc, |buf|, n), xs[n]);
      assert Offsets(w, inc, |buf|, |xs|) == Offsets(w, inc, |buf|, n) + [OffsetAfter(w, inc, |buf|, n)];
      assert xs == xs[..n] + [xs[n]];
    }
  }

  lemma OffsetsRing(w: int, inc: int, l: int, n: nat)
    requires Ring(w, inc, l)
    ensures Offsets(w, inc, l, n) == seq(n, k requires 0 <= k < n => (w + k * inc) % l)
  {
    forall k | 0 <= k < n
      ensures OffsetAfter(w, inc, l, k) == (w + k * inc) % l
    {
      OffsetIsMod(w, inc, l, k);
    }
  }

  lemma OffsetsBackward(w: int, inc: int, l: int, n: nat)
    requires inc < 0 && Within(w, inc, l, n)
    ensures Offsets(w, inc, l, n) == seq(n, k requires 0 <= k < n => w + k * inc)
  {
    hide OffsetAfter;
    forall k | 0 <= k < n
      ensures OffsetAfter(w, inc, l, k) == w + k * inc
    {
      NoOffset(w, inc, l);
      StaysBackward(w, inc, l, k);
    }
  }

  lemma WriteStored(buf: seq<Int16>, w: int, inc: int, xs: seq<Int16>)
    requires Within(w, inc, |buf|, |xs|)
    ensures Ring(w, inc, |buf|) ==>
              Stored(buf, Written(buf, w, inc, xs), seq(|xs|, k requires 0 <= k < |xs| => (w + k * inc) % |buf|), xs)
    ensures inc < 0 ==>
              Stored(buf, Written(buf, w, inc, xs), seq(|xs|, k requires 0 <= k < |xs| => w + k * inc), xs)
  {
    hide Stored, Written, Within, OffsetAfter;
    WrittenStored(buf, w, inc, xs);
    if Ring(w, inc, |buf|) {
      OffsetsRing(w, inc, |buf|, |xs|);
    }
    if inc < 0 {
      OffsetsBackward(w, inc, |buf|, |xs|);
    }
  }

  lemma NoOffset(w: int, inc: int, l: int)
    ensures OffsetAfter(w, inc, l, 0) == w
  {
  }

  // The offset that a write hands back, in a uint16_t.
  function NextOffset(w: int, inc: int, l: int, n: nat): Uint16 {
    OffsetAfter(w, inc, l, n) % 0x1_0000
  }

  // arm_circularWrite_q15
  method CircularWrite(circBuffer: array<Int16>, l: Int32, writeOffset: Uint16, bufferInc: Int32,
                       src: seq<Int16>, start: int, srcInc: Int32, blockSize: Word)
    returns (newOffset: Uint16)
    requires circBuffer.Length == l && Within(writeOffset, bufferInc, l, blockSize)
    requires Readable(src, start, srcInc, blockSize)
    modifies circBuffer
    ensures Ring(writeOffset, bufferInc, l) ==>
              Stored(old(circBuffer[..]), circBuffer[..],
                     seq(blockSize, k requires 0 <= k < blockSize => (writeOffset + k * bufferInc) % l),
                     seq(blockSize, k requires 0 <= k < blockSize => src[start + k * srcInc]))
    ensures bufferInc < 0 ==>
              Stored(old(circBuffer[..]), circBuffer[..],
                     seq(blockSize, k requires 0 <= k < blockSize => writeOffset + k * bufferInc),
                     seq(blockSize, k requires 0 <= k < blockSize => src[start + k * srcInc]))
    ensures Ring(writeOffset, bufferInc, l) ==>
              newOffset == (writeOffset + blockSize * bufferInc) % l % 0x1_0000
    ensures bufferInc < 0 && writeOffset < l ==> newOffset == (writeOffset + blockSize * bufferInc) % 0x1_0000
    ensures circBuffer[..] == Written(old(circBuffer[..]), writeOffset, bufferInc, Samples(src, start, srcInc, blockSize))
    ensures newOffset == NextOffset(writeOffset, bufferInc, l, blockSize)
  {
    hide Written, Stored;
    ghost var xs := Samples(src, start, srcInc, blockSize);
    NothingWritten(circBuffer[..], writeOffset, bufferInc);
    var wOffset: Int32 := writeOffset;
    var p := start;
    var i := blockSize;
    ghost var k := 0;
    while i > 0
      invariant 0 <= i && k == blockSize - i
      invariant wOffset == OffsetAfter(writeOffset, bufferInc, l, k)
      invariant p == start + k * srcInc
      invariant circBuffer[..] == Written(old(circBuffer[..]), writeOffset, bufferInc, xs[..k])
    {
      WrittenStep(old(circBuffer[..]), writeOffset, bufferInc, xs, k);
      circBuffer[wOffset] := src[p];
      assert (k + 1) * srcInc == k * srcInc + srcInc;
      p := p + srcInc;
      wOffset := wOffset + bufferInc;
      if wOffset >= l {
        wOffset := wOffset - l;
      }
      i := i - 1;
      k := k + 1;
    }
    assert xs[..k] == xs;
    WriteStored(old(circBuffer[..]), writeOffset, bufferInc, xs);
    if Ring(writeOffset, bufferInc, l) {
      OffsetIsMod(writeOffset, bufferInc, l, blockSize);
    }
    if bufferInc < 0 && writeOffset < l {
      EndsBackward(writeOffset, bufferInc, l, blockSize);
    }
    newOffset := wOffset % 0x1_0000;
  }

  // Where the destination pointer is after k samples: it goes back to the base when it hits the
  // end exactly.
  function DstAfter(p: int, base: int, length: int, inc: int, k: nat): int {
    if k == 0 then p
    else
      var q := DstAfter(p, base, length, inc, k - 1) + inc;
      if q == base + length then base else q
  }

  predicate Writable(size: nat, p: int, base: int, length: int, inc: int, n: nat) {
    forall k: nat :: k < n ==> 0 <= DstAfter(p, base, length, inc, k) < size
  }

  function Scattered(dst: seq<Int16>, p: int, base: int, length: int, inc: int, xs: seq<Int16>): (r: seq<Int16>)
    requires Writable(|dst|, p, base, length, inc, |xs|)
    ensures |r| == |dst|
  {
    if xs == [] then dst
    else
      var n := |xs| - 1;
      Scattered(dst, p, base, length, inc, xs[..n])[DstAfter(p, base, length, inc, n) := xs[n]]
  }

  lemma NothingScattered(dst: seq<Int16>, p: int, base: int, length: int, inc: int)
    ensures Scattered(dst, p, base, length, inc, []) == dst
  {
  }

  lemma ScatteredStep(dst: seq<Int16>, p: int, base: int, length: int, inc: int, xs: seq<Int16>, k: nat)
    requires k < |xs| && Writable(|dst|, p, base, length, inc, |xs|)
    ensures Scattered(dst, p, base, length, inc, xs[..k + 1])
            == Scattered(dst, p, base, length, inc, xs[..k])[DstAfter(p, base, length, inc, k) := xs[k]]
  {
    assert xs[..k + 1][..k] == xs[..k];
  }

  function Positions(p: int, base: int, length: int, inc: int, n: nat): seq<int> {
    seq(n, k requires 0 <= k < n => DstAfter(p, base, length, inc, k))
  }

  lemma {:induction false} ScatteredStored(dst: seq<Int16>, p: int, base: int, length: int, inc: int, xs: seq<Int16>)
    requires Writable(|dst|, p, base, length, inc, |xs|)
    ensures Stored(dst, Scattered(dst, p, base, length, inc, xs), Positions(p, base, length, inc, |xs|), xs)
  {
    hide DstAfter;
    if xs != [] {
      var n := |xs| - 1;
      ScatteredStored(dst, p, base, length, inc, xs[..n]);
      StoredLast(dst, Scattered(dst, p, base, length, inc, xs[..n]), Positions(p, base, length, inc, n), xs[..n],
                 DstAfter(p, base, length, inc, n), xs[n]);
      assert Positions(p, base, length, inc, |xs|)
             == Positions(p, base, length, inc, n) + [DstAfter(p, base, length, inc, n)];
      assert xs == xs[..n] + [xs[n]];
    }
  }

  lemma ModStep(a: int, inc: int, l: int)
    requires 0 < l && 0 <= inc && a % l + inc <= l
    ensures (a + inc) % l == if a % l + inc == l then 0 else a % l + inc
  {
    var q, r := a / l, a % l;
    if r + inc == l {
      assert (q + 1) * l == q * l + l;
      DivModUnique(a + inc, q + 1, l, 0);
    } else {
      DivModUnique(a + inc, q, l, r + inc);
    }
  }

  // For any stride: the pointer goes back to the base when it hits the end, and walks on from there
  // as if it had started there.
  lemma DstHits(p: int, base: int, length: int, inc: int, k: nat, m: nat)
    requires k > 0 && p + k * inc == base + length && forall j: nat :: 0 < j < k ==> p + j * inc != base + length
    ensures DstAfter(p, base, length, inc, k) == base
    ensures DstAfter(p, base, length, inc, k + m) == DstAfter(base, base, length, inc, m)
  {
    DstStraight(p, base, length, inc, k - 1);
    assert k * inc == (k - 1) * inc + inc;
    DstSplit(p, base, length, inc, k, m);
  }

  lemma {:induction false} DstSplit(p: int, base: int, length: int, inc: int, k: nat, m: nat)
    ensures DstAfter(p, base, length, inc, k + m) == DstAfter(DstAfter(p, base, length, inc, k), base, length, inc, m)
  {
    if m > 0 {
      DstSplit(p, base, length, inc, k, m - 1);
    }
  }

  // While the destination pointer does not hit the end it walks straight on, also beyond it.
  lemma {:induction false} DstStraight(p: int, base: int, length: int, inc: int, k: nat)
    requires forall j: nat :: 0 < j <= k ==> p + j * inc != base + length
    ensures DstAfter(p, base, length, inc, k) == p + k * inc
  {
    if k > 0 {
      DstStraight(p, base, length, inc, k - 1);
      assert k * inc == (k - 1) * inc + inc;
    }
  }

  // If the stride divides the length and the distance to the base it goes round in the destination.
  lemma {:induction false} DstRound(p: int, base: int, length: int, inc: int, k: nat)
    requires base <= p < base + length && 0 < inc && length % inc == 0 && (p - base) % inc == 0
    ensures DstAfter(p, base, length, inc, k) == base + (p - base + k * inc) % length
    ensures (DstAfter(p, base, length, inc, k) - base) % inc == 0
  {
    if k == 0 {
      DivModUnique(p - base, 0, length, p - base);
    } else {
      DstRound(p, base, length, inc, k - 1);
      var a := p - base + (k - 1) * inc;
      assert k * inc == (k - 1) * inc + inc;
      NextMultiple(a % length, inc, length);
      ModStep(a, inc, length);
    }
  }

  // Between two multiples there is room for one more step.
  lemma NextMultiple(a: nat, inc: nat, l: nat)
    requires 0 < inc && a < l && a % inc == 0 && l % inc == 0
    ensures a + inc <= l && (a + inc) % inc == 0
  {
    var u, v := a / inc, l / inc;
    DivMod(a, inc);
    DivMod(l, inc);
    if v <= u {
      MulBelow(v, inc, u, inc);
    }
    MulBelow(u + 1, inc, v, inc);
    assert (u + 1) * inc == u * inc + inc;
    DivModUnique(a + inc, u + 1, inc, 0);
  }

  lemma PositionsRound(p: int, base: int, length: int, inc: int, n: nat)
    requires base <= p < base + length && 0 < inc && length % inc == 0 && (p - base) % inc == 0
    ensures Positions(p, base, length, inc, n) == seq(n, k requires 0 <= k < n => base + (p - base + k * inc) % length)
  {
    forall k | 0 <= k < n
      ensures DstAfter(p, base, length, inc, k) == base + (p - base + k * inc) % length
    {
      DstRound(p, base, length, inc, k);
    }
  }

  lemma ReadBackRing(buf: seq<Int16>, r: int, inc: int, n: nat)
    requires Ring(r, inc, |buf|)
    ensures Within(r, inc, |buf|, n)
    ensures ReadBack(buf, r, inc, n) == seq(n, k requires 0 <= k < n => buf[(r + k * inc) % |buf|])
  {
    RingWithin(r, inc, |buf|, n);
    forall k | 0 <= k < n
      ensures OffsetAfter(r, inc, |buf|, k) == (r + k * inc) % |buf|
    {
      OffsetIsMod(r, inc, |buf|, k);
    }
  }

  // What a read delivers.
  function ReadBack(buf: seq<Int16>, r: int, inc: int, n: nat): seq<Int16>
    requires Within(r, inc, |buf|, n)
  {
    seq(n, k requires 0 <= k < n => buf[OffsetAfter(r, inc, |buf|, k)])
  }

  // With a negative stride a read goes straight down.
  lemma ReadBackDown(buf: seq<Int16>, r: int, inc: int, n: nat, k: nat)
    requires Within(r, inc, |buf|, n) && inc < 0 && k < n
    ensures 0 <= r + k * inc < |buf| && ReadBack(buf, r, inc, n)[k] == buf[r + k * inc]
  {
    NoOffset(r, inc, |buf|);
    assert OffsetAfter(r, inc, |buf|, 0) == r;
    StaysBackward(r, inc, |buf|, k);
  }

  lemma ReadStored(buf: seq<Int16>, r: int, inc: int, dst: seq<Int16>, p: int, base: int, length: int, dstInc: int, n: nat)
    requires Within(r, inc, |buf|, n) && Writable(|dst|, p, base, length, dstInc, n) && Ring(r, inc, |buf|)
    requires base <= p < base + length && 0 < dstInc && length % dstInc == 0 && (p - base) % dstInc == 0
    ensures Stored(dst, Scattered(dst, p, base, length, dstInc, ReadBack(buf, r, inc, n)),
                   seq(n, k requires 0 <= k < n => base + (p - base + k * dstInc) % length),
                   seq(n, k requires 0 <= k < n => buf[(r + k * inc) % |buf|]))
  {
    hide Stored, Scattered;
    ScatteredStored(dst, p, base, length, dstInc, ReadBack(buf, r, inc, n));
    PositionsRound(p, base, length, dstInc, n);
    ReadBackRing(buf, r, inc, n);
  }

  // arm_circularRead_q15
  method CircularRead(circBuffer: array<Int16>, l: Int32, readOffset: Int32, bufferInc: Int32,
                      dst: array<Int16>, start: int, base: int, dstLength: Int32, dstInc: Int32, blockSize: Word)
    returns (newOffset: Int32)
    requires circBuffer.Length == l && Within(readOffset, bufferInc, l, blockSize) && dst != circBuffer
    requires Writable(dst.Length, start, base, dstLength, dstInc, blockSize)
    modifies dst
    ensures Ring(readOffset, bufferInc, l) && base <= start < base + dstLength
            && 0 < dstInc && dstLength % dstInc == 0 && (start - base) % dstInc == 0 ==>
              var buf := circBuffer[..];
              Stored(old(dst[..]), dst[..],
                     seq(blockSize, k requires 0 <= k < blockSize => base + (start - base + k * dstInc) % dstLength),
                     seq(blockSize, k requires 0 <= k < blockSize => buf[(readOffset + k * bufferInc) % l]))
    ensures Ring(readOffset, bufferInc, l) ==> newOffset == (readOffset + blockSize * bufferInc) % l
    ensures bufferInc < 0 && 0 <= readOffset < l ==> newOffset == readOffset + blockSize * bufferInc
    ensures dst[..] == Scattered(old(dst[..]), start, base, dstLength, dstInc,
                                 ReadBack(circBuffer[..], readOffset, bufferInc, blockSize))
    ensures newOffset == OffsetAfter(readOffset, bufferInc, l, blockSize)
  {
    hide Scattered, Stored;
    NothingScattered(dst[..], start, base, dstLength, dstInc);
    ghost var xs := ReadBack(circBuffer[..], readOffset, bufferInc, blockSize);
    var rOffset: Int32 := readOffset;
    var p := start;
    var i := blockSize;
    ghost var k := 0;
    while i > 0
      invariant 0 <= i && k == blockSize - i
      invariant rOffset == OffsetAfter(readOffset, bufferInc, l, k)
      invariant p == DstAfter(start, base, dstLength, dstInc, k)
      invariant dst[..] == Scattered(old(dst[..]), start, base, dstLength, dstInc, xs[..k])
    {
      ScatteredStep(old(dst[..]), start, base, dstLength, dstInc, xs, k);
      dst[p] := circBuffer[rOffset];
      p := p + dstInc;
      if p == base + dstLength {
        p := base;
      }
      rOffset := rOffset + bufferInc;
      if rOffset >= l {
        rOffset := rOffset - l;
      }
      i := i - 1;
      k := k + 1;
    }
    assert xs[..k] == xs;
    if Ring(readOffset, bufferInc, l) {
      OffsetIsMod(readOffset, bufferInc, l, blockSize);
      if base <= start < base + dstLength && 0 < dstInc && dstLength % dstInc == 0 && (start - base) % dstInc == 0 {
        ReadStored(circBuffer[..], readOffset, bufferInc, old(dst[..]), start, base, dstLength, dstInc, blockSize);
      }
    }
    if bufferInc < 0 && 0 <= readOffset < l {
      EndsBackward(readOffset, bufferInc, l, blockSize);
    }
    newOffset := rOffset;
  }

  // A unit stride that stays below the end fills a contiguous stretch and touches nothing else.
  lemma {:induction false} ScatterContiguous(dst: seq<Int16>, p: int, base: int, length: int, xs: seq<Int16>)
    requires Writable(|dst|, p, base, length, 1, |xs|)
    requires base <= p && p + |xs| <= base + length && 0 <= p && p + |xs| <= |dst|
    ensures Scattered(dst, p, base, length, 1, xs) == dst[..p] + xs + dst[p + |xs|..]
  {
    if xs != [] {
      var n := |xs| - 1;
      ScatterContiguous(dst, p, base, length, xs[..n]);
      Contiguous(p, base, length, n);
    }
  }

  lemma {:induction false} Contiguous(p: int, base: int, length: int, k: nat)
    requires base <= p && p + k < base + length
    ensures DstAfter(p, base, length, 1, k) == p + k
  {
    if k > 0 {
      Contiguous(p, base, length, k - 1);
    }
  }

  // ---------- the delay line ----------

  // The slot of stream sample i when sample 0 went to offset w0.
  function SlotOf(w0: int, l: int, i: nat): int
    requires l > 0
  {
    (w0 + i) % l
  }

  // The buffer holds the last samples of the stream h, and w is the slot of the next one.
  ghost predicate Tracks(buf: seq<Int16>, w0: int, w: int, h: seq<Int16>) {
    && |buf| > 0 && w == SlotOf(w0, |buf|, |h|)
    && (forall i :: 0 <= i < |h| && i >= |h| - |buf| ==> buf[SlotOf(w0, |buf|, i)] == h[i])
  }

  lemma SlotsApart(w0: int, l: int, i: nat, j: nat)
    requires l > 0 && i < j < i + l
    ensures SlotOf(w0, l, i) != SlotOf(w0, l, j)
  {
    var a, b := (w0 + i) / l, (w0 + j) / l;
    if SlotOf(w0, l, i) == SlotOf(w0, l, j) {
      assert (b - a) * l == b * l - a * l == j - i;
      NoShortMultiple(b - a, l);
    }
  }

  lemma SlotNext(w0: int, l: int, i: nat)
    requires l > 0
    ensures SlotOf(w0, l, i + 1) == Advance(SlotOf(w0, l, i), 1, l)
  {
    var q, r := (w0 + i) / l, (w0 + i) % l;
    if r + 1 == l {
      assert (q + 1) * l == q * l + l;
      DivModUnique(w0 + i + 1, q + 1, l, 0);
    } else {
      DivModUnique(w0 + i + 1, q, l, r + 1);
    }
  }

  lemma WriteOneTracks(buf: seq<Int16>, w0: int, w: int, h: seq<Int16>, x: Int16)
    requires Tracks(buf, w0, w, h)
    ensures 0 <= w < |buf|
    ensures Tracks(buf[w := x], w0, Advance(w, 1, |buf|), h + [x])
  {
    SlotNext(w0, |buf|, |h|);
    forall i | 0 <= i < |h| && i >= |h| + 1 - |buf|
      ensures SlotOf(w0, |buf|, i) != w
    {
      SlotsApart(w0, |buf|, i, |h|);
    }
  }

  lemma {:induction false} WriteTracks(buf: seq<Int16>, w0: int, w: int, h: seq<Int16>, xs: seq<Int16>)
    requires Tracks(buf, w0, w, h) && Within(w, 1, |buf|, |xs|)
    ensures Tracks(Written(buf, w, 1, xs), w0, OffsetAfter(w, 1, |buf|, |xs|), h + xs)
  {
    if xs == [] {
      assert h + xs == h;
    } else {
      var n := |xs| - 1;
      WriteTracks(buf, w0, w, h, xs[..n]);
      WriteOneTracks(Written(buf, w, 1, xs[..n]), w0, OffsetAfter(w, 1, |buf|, n), h + xs[..n], xs[n]);
      assert (h + xs[..n]) + [xs[n]] == h + xs;
    }
  }

  // A sequence of block writes of any sizes.
  function Stream(blocks: seq<seq<Int16>>): seq<Int16> {
    if blocks == [] then [] else Stream(blocks[..|blocks| - 1]) + blocks[|blocks| - 1]
  }

  // The buffer and the offset after them; the offset is narrowed after every block.
  function BlocksWritten(buf: seq<Int16>, w: int, blocks: seq<seq<Int16>>): (r: (seq<Int16>, int))
    requires Ring(w, 1, |buf|)
    ensures |r.0| == |buf| && Ring(r.1, 1, |buf|)
  {
    if blocks == [] then (buf, w)
    else
      var (b, v) := BlocksWritten(buf, w, blocks[..|blocks| - 1]);
      var xs := blocks[|blocks| - 1];
      RingWithin(v, 1, |buf|, |xs|);
      (Written(b, v, 1, xs), NextOffset(v, 1, |buf|, |xs|))
  }

  lemma EmptyTracks(buf: seq<Int16>, w: int)
    requires 0 <= w < |buf|
    ensures Tracks(buf, w, w, [])
  {
    DivModUnique(w, 0, |buf|, w);
  }

  lemma {:induction false} BlocksTrack(buf: seq<Int16>, w: int, blocks: seq<seq<Int16>>)
    requires Ring(w, 1, |buf|) && |buf| <= 0x1_0000
    ensures var (b, v) := BlocksWritten(buf, w, blocks); Tracks(b, w, v, Stream(blocks))
  {
    hide Written, OffsetAfter, Tracks, Within;
    if blocks == [] {
      EmptyTracks(buf, w);
    } else {
      var n := |blocks| - 1;
      BlocksTrack(buf, w, blocks[..n]);
      var (b, v) := BlocksWritten(buf, w, blocks[..n]);
      RingWithin(v, 1, |buf|, |blocks[n]|);
      WriteTracks(b, w, v, Stream(blocks[..n]), blocks[n]);
    }
  }

  // A read of n samples that starts d behind the write offset returns exactly the stream samples
  // d ago, in order.
  predicate Delays(buf: seq<Int16>, w: int, blocks: seq<seq<Int16>>, d: nat, n: nat)
    requires Ring(w, 1, |buf|) && n <= d <= |buf| && d <= |Stream(blocks)|
  {
    var (b, v) := BlocksWritten(buf, w, blocks);
    var h := Stream(blocks);
    var r := if v - d < 0 then v - d + |buf| else v - d;
    RingWithin(r, 1, |buf|, n);
    ReadBack(b, r, 1, n) == h[|h| - d..|h| - d + n]
  }

  // The delay line, after writes of any blocks to a buffer of at most 65536 samples.
  lemma DelayLine(buf: seq<Int16>, w: int, blocks: seq<seq<Int16>>, d: nat, n: nat)
    requires Ring(w, 1, |buf|) && |buf| <= 0x1_0000
    requires n <= d <= |buf| && d <= |Stream(blocks)|
    ensures Delays(buf, w, blocks, d, n)
  {
    hide BlocksWritten, Stream, Tracks, ReadBack, Within, OffsetAfter;
    BlocksTrack(buf, w, blocks);
    var (b, v) := BlocksWritten(buf, w, blocks);
    ReadTracks(b, w, v, Stream(blocks), d, n);
  }

  // A call of the write kernel, and what it writes: every srcInc-th sample from start on.
  datatype Block = Block(src: seq<Int16>, start: int, srcInc: Int32, size: Word)

  predicate AllReadable(blocks: seq<Block>) {
    forall i :: 0 <= i < |blocks| ==> Readable(blocks[i].src, blocks[i].start, blocks[i].srcInc, blocks[i].size)
  }

  function Sampled(blocks: seq<Block>): seq<seq<Int16>>
    requires AllReadable(blocks)
  {
    seq(|blocks|, i requires 0 <= i < |blocks| =>
      Samples(blocks[i].src, blocks[i].start, blocks[i].srcInc, blocks[i].size))
  }

  lemma SampledAt(blocks: seq<Block>, i: nat, k: nat)
    requires AllReadable(blocks) && i < |blocks| && k < blocks[i].size
    ensures |Sampled(blocks)| == |blocks| && |Sampled(blocks)[i]| == blocks[i].size
    ensures Sampled(blocks)[i][k] == blocks[i].src[blocks[i].start + k * blocks[i].srcInc]
  {
  }

  lemma NoBlocks(buf: seq<Int16>, w: int)
    requires Ring(w, 1, |buf|)
    ensures BlocksWritten(buf, w, []) == (buf, w)
  {
  }

  lemma BlocksLast(buf: seq<Int16>, w: int, blocks: seq<seq<Int16>>, xs: seq<Int16>)
    requires Ring(w, 1, |buf|)
    ensures var (b, v) := BlocksWritten(buf, w, blocks);
            && Within(v, 1, |buf|, |xs|)
            && BlocksWritten(buf, w, blocks + [xs]) == (Written(b, v, 1, xs), NextOffset(v, 1, |buf|, |xs|))
  {
    hide Written, OffsetAfter, Within;
    assert (blocks + [xs])[..|blocks|] == blocks;
    RingWithin(BlocksWritten(buf, w, blocks).1, 1, |buf|, |xs|);
  }

  lemma SampledStep(blocks: seq<Block>, i: nat)
    requires AllReadable(blocks) && i < |blocks|
    ensures Readable(blocks[i].src, blocks[i].start, blocks[i].srcInc, blocks[i].size)
    ensures var xs := Samples(blocks[i].src, blocks[i].start, blocks[i].srcInc, blocks[i].size);
            |xs| == blocks[i].size && Sampled(blocks)[..i + 1] == Sampled(blocks)[..i] + [xs]
  {
  }

  // Calls of the write kernel, one after the other.
  method WriteBlocks(circBuffer: array<Int16>, l: Int32, writeOffset: Uint16, blocks: seq<Block>)
    returns (newOffset: Uint16)
    requires circBuffer.Length == l && Ring(writeOffset, 1, l) && AllReadable(blocks)
    modifies circBuffer
    ensures (circBuffer[..], newOffset as int) == BlocksWritten(old(circBuffer[..]), writeOffset, Sampled(blocks))
  {
    hide BlocksWritten, Written, Within, Stored, Samples, Readable, OffsetAfter, AllReadable;
    newOffset := writeOffset;
    NoBlocks(circBuffer[..], writeOffset);
    for i := 0 to |blocks|
      invariant (circBuffer[..], newOffset as int)
                == BlocksWritten(old(circBuffer[..]), writeOffset, Sampled(blocks)[..i])
    {
      var b := blocks[i];
      SampledStep(blocks, i);
      BlocksLast(old(circBuffer[..]), writeOffset, Sampled(blocks)[..i], Samples(b.src, b.start, b.srcInc, b.size));
      newOffset := CircularWrite(circBuffer, l, newOffset, 1, b.src, b.start, b.srcInc, b.size);
    }
    assert Sampled(blocks)[..|blocks|] == Sampled(blocks);
  }

  // The delay line made of the two kernels: a read that starts d behind the write offset fills the
  // destination with the samples of the source arrays d ago.
  method DelayedRead(circBuffer: array<Int16>, l: Int32, writeOffset: Uint16, blocks: seq<Block>,
                     dst: array<Int16>, d: nat)
    requires circBuffer.Length == l <= 0x1_0000 && Ring(writeOffset, 1, l) && AllReadable(blocks)
    requires dst != circBuffer && dst.Length <= d <= l && d <= |Stream(Sampled(blocks))|
    modifies circBuffer, dst
    ensures var h := Stream(Sampled(blocks)); dst[..] == h[|h| - d..|h| - d + dst.Length]
  {
    hide BlocksWritten, Written, Stored, Sampled, Stream, OffsetAfter, DstAfter, Scattered, AllReadable;
    DelayLine(circBuffer[..], writeOffset, Sampled(blocks), d, dst.Length);
    var newOffset := WriteBlocks(circBuffer, l, writeOffset, blocks);
    var readOffset: Int32 := if newOffset - d < 0 then newOffset - d + l else newOffset - d;
    RingWithin(readOffset, 1, l, dst.Length);
    WholeWritable(dst.Length);
    var n: Int32 := dst.Length;
    ghost var before := dst[..];
    var _ := CircularRead(circBuffer, l, readOffset, 1, dst, 0, 0, n, 1, n);
    ScatterContiguous(before, 0, 0, n, ReadBack(circBuffer[..], readOffset, 1, n));
  }

  lemma WholeWritable(n: nat)
    ensures Writable(n, 0, 0, n, 1, n)
  {
    forall k: nat | k < n
      ensures DstAfter(0, 0, n, 1, k) == k
    {
      Contiguous(0, 0, n, k);
    }
  }

  // Larger buffers lose the delay line when an offset is narrowed: one sample at offset 65535
  // leaves the next offset at 0, and the slot behind that is the last one of the buffer.
  lemma NarrowedAway(buf: seq<Int16>)
    requires 0x1_0000 < |buf| <= 0x4000_0000 && buf[|buf| - 1] == 0
    ensures !Delays(buf, 0xFFFF, [[7]], 1, 1)
  {
    var blocks: seq<seq<Int16>> := [[7]];
    assert blocks[..0] == [] && Stream(blocks) == [7];
    RingWithin(0xFFFF, 1, |buf|, 1);
    var xs: seq<Int16> := [7];
    var b := Written(buf, 0xFFFF, 1, xs);
    assert xs[..0] == [];
    assert Written(buf, 0xFFFF, 1, xs[..0]) == buf && b == buf[0xFFFF := 7];
    assert NextOffset(0xFFFF, 1, |buf|, 1) == 0;
    assert BlocksWritten(buf, 0xFFFF, blocks) == (b, 0);
    RingWithin(|buf| - 1, 1, |buf|, 1);
    assert ReadBack(b, |buf| - 1, 1, 1)[0] == 0;
  }

  // The delay line is right for every use of a buffer of l samples if and only if l is at most
  // 65536.
  lemma DelayLineIff(l: int)
    requires 0 < l <= 0x4000_0000
    ensures l <= 0x1_0000 <==>
            forall buf: seq<Int16>, w: Uint16, blocks, d: nat, n: nat ::
              |buf| == l && w < l && n <= d <= l && d <= |Stream(blocks)| ==> Delays(buf, w, blocks, d, n)
  {
    if l <= 0x1_0000 {
      forall buf: seq<Int16>, w: Uint16, blocks, d: nat, n: nat
        | |buf| == l && w < l && n <= d <= l && d <= |Stream(blocks)|
        ensures Delays(buf, w, blocks, d, n)
      {
        DelayLine(buf, w, blocks, d, n);
      }
    } else {
      var buf: seq<Int16> := seq(l, _ => 0);
      NarrowedAway(buf);
      var w: Uint16 := 0xFFFF;
      assert |Stream([[7 as Int16]])| == 1 by {
        assert [[7 as Int16]][..0] == [];
      }
      assert !Delays(buf, w, [[7]], 1, 1);
    }
  }

  lemma ReadTracks(b: seq<Int16>, w: int, v: int, h: seq<Int16>, d: nat, n: nat)
    requires Tracks(b, w, v, h) && Ring(v, 1, |b|)
    requires n <= d <= |b| && d <= |h|
    ensures var r := if v - d < 0 then v - d + |b| else v - d;
            Within(r, 1, |b|, n) && ReadBack(b, r, 1, n) == h[|h| - d..|h| - d + n]
  {
    var r := if v - d < 0 then v - d + |b| else v - d;
    RingWithin(r, 1, |b|, n);
    var got, want := ReadBack(b, r, 1, n), h[|h| - d..|h| - d + n];
    forall k: nat | k < n
      ensures got[k] == want[k]
    {
      ReadSample(b, w, v, h, d, k, r);
    }
  }

  lemma ReadSample(b: seq<Int16>, w: int, v: int, h: seq<Int16>, d: nat, k: nat, r: int)
    requires Tracks(b, w, v, h) && Ring(r, 1, |b|)
    requires k < d <= |b| && d <= |h| && r == if v - d < 0 then v - d + |b| else v - d
    ensures b[OffsetAfter(r, 1, |b|, k)] == h[|h| - d + k]
  {
    StartSlot(w, |b|, |h|, d);
    ReadSlots(w, |b|, |h| - d, k);
  }

  lemma StartSlot(w0: int, l: int, m: nat, d: nat)
    requires 0 < l && d <= l && d <= m
    ensures var v := SlotOf(w0, l, m);
            SlotOf(w0, l, m - d) == if v - d < 0 then v - d + l else v - d
  {
    var q, v := (w0 + m) / l, (w0 + m) % l;
    if v - d < 0 {
      assert (q - 1) * l == q * l - l;
      DivModUnique(w0 + m - d, q - 1, l, v - d + l);
    } else {
      DivModUnique(w0 + m - d, q, l, v - d);
    }
  }

  lemma {:induction false} ReadSlots(w0: int, l: int, s: nat, k: nat)
    requires l > 0
    ensures OffsetAfter(SlotOf(w0, l, s), 1, l, k) == SlotOf(w0, l, s + k)
  {
    if k > 0 {
      ReadSlots(w0, l, s, k - 1);
      SlotNext(w0, l, s + k - 1);
    }
  }

  // ---------- strided writes ----------

  ghost predicate Coprime(a: nat, b: nat) {
    forall d: nat :: d > 1 ==> a % d != 0 || b % d != 0
  }

  // l consecutive writes end where they started.
  lemma FullRound(w: int, inc: int, l: int)
    requires Ring(w, inc, l)
    ensures OffsetAfter(w, inc, l, l) == w
  {
    OffsetIsMod(w, inc, l, l);
    DivModUnique(w + l * inc, inc, l, w);
  }

  lemma Bezout(a: nat, b: nat) returns (g: nat, x: int, y: int)
    requires a > 0 || b > 0
    ensures g > 0 && a * x + b * y == g
    ensures a % g == 0 && b % g == 0
    decreases b
  {
    if b == 0 {
      g, x, y := a, 1, 0;
      DivModUnique(a, 1, a, 0);
    } else {
      var q, r := a / b, a % b;
      var x', y';
      g, x', y' := Bezout(b, r);
      x, y := y', x' - q * y';
      assert a == q * b + r;
      assert a * y' + b * (x' - q * y') == b * x' + r * y';
      var u, v := b / g, r / g;
      assert a == (q * u + v) * g;
      DivModUnique(a, q * u + v, g, 0);
    }
  }

  // If two of l consecutive writes meet, their distance is a multiple of l.
  lemma Injective(w: int, inc: int, l: int, i: nat, j: nat)
    requires Ring(w, inc, l) && Coprime(inc, l) && i < j < l
    ensures OffsetAfter(w, inc, l, i) != OffsetAfter(w, inc, l, j)
  {
    var a := OffsetLinear(w, inc, l, i);
    var b := OffsetLinear(w, inc, l, j);
    var g, x, y := Bezout(inc, l);
    assert g == 1;
    if OffsetAfter(w, inc, l, i) == OffsetAfter(w, inc, l, j) {
      var d := j - i;
      assert d * inc == (b - a) * l;
      BezoutDivides(d, inc, l, b - a, x, y);
      NoShortMultiple((b - a) * x + d * y, l);
    }
  }

  lemma BezoutDivides(d: int, inc: int, l: int, m: int, x: int, y: int)
    requires d * inc == m * l && inc * x + l * y == 1
    ensures d == (m * x + d * y) * l
  {
    calc {
      d;
      d * (inc * x + l * y);
      (d * inc) * x + d * l * y;
      m * l * x + d * l * y;
      (m * x + d * y) * l;
    }
  }

  // A stride reaches every slot exactly once in l writes if and only if it is coprime to l.
  // (l distinct offsets among l slots are all of them.)
  lemma StrideCoversIff(w: int, inc: int, l: int)
    requires Ring(w, inc, l) && inc > 0
    ensures Coprime(inc, l) <==>
            forall i: nat, j: nat :: i < j < l ==> OffsetAfter(w, inc, l, i) != OffsetAfter(w, inc, l, j)
  {
    if Coprime(inc, l) {
      forall i: nat, j: nat | i < j < l
        ensures OffsetAfter(w, inc, l, i) != OffsetAfter(w, inc, l, j)
      {
        Injective(w, inc, l, i, j);
      }
    } else {
      var d: nat :| d > 1 && inc % d == 0 && l % d == 0;
      Collide(w, inc, l, d);
    }
  }

  // The same from the other side: every slot is reached.
  lemma StrideReachesAll(w: int, inc: int, l: int, slot: int) returns (k: nat)
    requires Ring(w, inc, l) && Coprime(inc, l) && 0 <= slot < l
    ensures k < l && OffsetAfter(w, inc, l, k) == slot
  {
    var g, x, y := Bezout(inc, l);
    var d := slot - w;
    var q := d * x / l;
    k := d * x % l;
    DivMod(d * x, l);
    ReachEquation(w, inc, l, d, x, y, q, k);
    OffsetIsMod(w, inc, l, k);
    DivModUnique(w + k * inc, -(d * y + q * inc), l, slot);
  }

  lemma ReachEquation(w: int, inc: int, l: int, d: int, x: int, y: int, q: int, k: int)
    requires inc * x + l * y == 1 && d * x == q * l + k
    ensures w + k * inc == -(d * y + q * inc) * l + (w + d)
  {
    calc {
      k * inc;
      (d * x - q * l) * inc;
      d * (inc * x) - q * inc * l;
      d * (1 - l * y) - q * inc * l;
      d - (d * y + q * inc) * l;
    }
  }

  lemma Doubled(j: nat, d: nat)
    requires d >= 2
    ensures j * d >= 2 * j
  {
    assert j * (d - 2) >= 0;
  }

  lemma Collide(w: int, inc: int, l: int, d: nat)
    requires Ring(w, inc, l) && inc > 0 && d > 1 && inc % d == 0 && l % d == 0
    ensures 0 < l / d < l && OffsetAfter(w, inc, l, 0) == OffsetAfter(w, inc, l, l / d)
  {
    var j, u := l / d, inc / d;
    DivMod(l, d);
    DivMod(inc, d);
    Doubled(j, d);
    Crosswise(j, u, d);
    OffsetIsMod(w, inc, l, j);
    DivModUnique(w + j * inc, u, l, w);
  }

  lemma Crosswise(j: int, u: int, d: int)
    ensures j * (u * d) == u * (j * d)
  {
  }
}
