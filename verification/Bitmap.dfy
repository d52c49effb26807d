/** The allocator of model/kernel_hash/bitmap.c: bitmap_find_next_zero_area.  A bitmap is
    the set of its set bits. */
module Bitmap {

  ghost predicate Multiple(x: nat, align: nat) {
    exists k: nat :: x == k * align
  }

  // __ALIGN_MASK(x, mask) with mask == align - 1.
  function AlignUp(x: nat, align: nat): (r: nat)
    requires align >= 1
  {
    (x + align - 1) / align * align
  }

  lemma {:induction false} LessFactor(k: nat, q: nat, align: nat)
    requires align >= 1
    ensures k <= q ==> k * align <= q * align
    ensures k < q ==> k * align + align <= q * align
    decreases q
  {
    if k < q {
      LessFactor(k, q - 1, align);
      assert q * align == (q - 1) * align + align;
    }
  }

  /** AlignUp gives the least multiple that is not below x. */
  lemma AlignUpIsLeast(x: nat, align: nat)
    requires align >= 1
    ensures x <= AlignUp(x, align) < x + align && Multiple(AlignUp(x, align), align)
    ensures forall t: nat :: x <= t && Multiple(t, align) ==> AlignUp(x, align) <= t
  {
    var y := x + align - 1;
    var q := y / align;
    assert y == q * align + y % align;
    forall t: nat | x <= t && Multiple(t, align)
      ensures q * align <= t
    {
      var k: nat :| t == k * align;
      LessFactor(k, q, align);
    }
  }

  // An aligned run of nr clear bits inside the bitmap, at t.
  ghost predicate ZeroArea(bits: set<nat>, size: nat, nr: nat, align: nat, t: nat) {
    Multiple(t, align) && t + nr <= size && forall b :: t <= b < t + nr ==> b !in bits
  }

  ghost predicate FirstZeroArea(bits: set<nat>, size: nat, start: nat, nr: nat, align: nat, r: nat) {
    if r <= size then
      start <= r && ZeroArea(bits, size, nr, align, r)
      && forall t: nat :: start <= t < r ==> !ZeroArea(bits, size, nr, align, t)
    else
      forall t: nat :: start <= t ==> !ZeroArea(bits, size, nr, align, t)
  }

  // find_next_zero_bit and find_next_bit, of which the repository has only the calls.
  method FindNextZeroBit(bits: set<nat>, size: nat, start: nat) returns (r: nat)
    ensures r <= size && (start <= size ==> start <= r) && (r < size ==> start <= r && r !in bits)
    ensures forall b :: start <= b < r ==> b in bits
  {
    if start >= size { return size; }
    r := start;
    while r < size && r in bits
      invariant start <= r <= size && forall b :: start <= b < r ==> b in bits
    {
      r := r + 1;
    }
  }

  method FindNextBit(bits: set<nat>, size: nat, start: nat) returns (r: nat)
    ensures r <= size && (start <= size ==> start <= r) && (r < size ==> start <= r && r in bits)
    ensures forall b :: start <= b < r ==> b !in bits
  {
    if start >= size { return size; }
    r := start;
    while r < size && r !in bits
      invariant start <= r <= size && forall b :: start <= b < r ==> b !in bits
    {
      r := r + 1;
    }
  }

  // An area from from on starts at a clear bit, so not before the first multiple at or
  // behind the first clear bit.
  lemma AreaNotBefore(bits: set<nat>, size: nat, from: nat, nr: nat, align: nat, zero: nat, t: nat)
    requires align >= 1 && nr >= 1 && from <= t && ZeroArea(bits, size, nr, align, t)
    requires zero <= size && forall b :: from <= b < zero ==> b in bits
    ensures AlignUp(zero, align) <= t
  {
    assert t !in bits;
    AlignUpIsLeast(zero, align);
  }

  /** bitmap_find_next_zero_area: the least aligned area from start on, or a value above
      size exactly when there is none. */
  method FindNextZeroArea(bits: set<nat>, size: nat, start: nat, nr: nat, align: nat) returns (r: nat)
    requires align >= 1
    ensures nr >= 1 ==> FirstZeroArea(bits, size, start, nr, align, r)
  {
    var from := start;
    while true
      invariant start <= from
      invariant nr >= 1 ==> forall t: nat :: start <= t < from ==> !ZeroArea(bits, size, nr, align, t)
      decreases size - from
    {
      var zero := FindNextZeroBit(bits, size, from);
      AlignUpIsLeast(zero, align);
      forall t: nat | nr >= 1 && from <= t && ZeroArea(bits, size, nr, align, t)
        ensures AlignUp(zero, align) <= t
      {
        AreaNotBefore(bits, size, from, nr, align, zero, t);
      }
      var index := AlignUp(zero, align);
      var end := index + nr;
      if end > size { return end; }
      var i := FindNextBit(bits, end, index);
      if i >= end { return index; }
      from := i + 1;
    }
  }

  // ----- The answer as a function -----

  // Above size when there is no area.
  ghost function FirstFit(bits: set<nat>, size: nat, start: nat, nr: nat, align: nat): nat
    decreases size - start
  {
    if start > size then size + 1
    else if ZeroArea(bits, size, nr, align, start) then start
    else FirstFit(bits, size, start + 1, nr, align)
  }

  lemma {:induction false} FirstFitIsFirst(bits: set<nat>, size: nat, start: nat, nr: nat, align: nat)
    ensures FirstZeroArea(bits, size, start, nr, align, FirstFit(bits, size, start, nr, align))
    decreases size - start
  {
    if start <= size && !ZeroArea(bits, size, nr, align, start) {
      FirstFitIsFirst(bits, size, start + 1, nr, align);
    }
  }

  /** There is one right answer, up to how a failure is reported. */
  lemma FirstZeroAreaIsFirstFit(bits: set<nat>, size: nat, start: nat, nr: nat, align: nat, r: nat)
    requires FirstZeroArea(bits, size, start, nr, align, r)
    ensures r > size <==> FirstFit(bits, size, start, nr, align) > size
    ensures r <= size ==> r == FirstFit(bits, size, start, nr, align)
  {
    FirstFitIsFirst(bits, size, start, nr, align);
  }

  /** Where nothing is set from start on, the search stays at start. */
  lemma FirstFitInFreeTail(bits: set<nat>, size: nat, start: nat, nr: nat)
    requires forall b :: b in bits ==> b < start
    ensures start + nr <= size ==> FirstFit(bits, size, start, nr, 1) == start
  {
    assert start == start * 1;
  }
}
