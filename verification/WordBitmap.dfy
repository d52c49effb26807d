/** The word-level bitmaps of test/kernel/mmap/test.c: 64-bit words, masks and shifts,
    against the bits that they stand for. */
module WordBitmap {

  type Word = bv64

  const BITS_PER_LONG := 64
  const ONES: Word := 0xffff_ffff_ffff_ffff

  // A shift amount.
  function Amount(k: nat): Word
    requires k < BITS_PER_LONG
  {
    (k as bv8) as bv64
  }

  predicate At(w: Word, j: Word)
    requires j < 64
  {
    (w >> j) & 1 == 1
  }

  predicate Bit(w: Word, k: nat)
    requires k < BITS_PER_LONG
  {
    AmountSmall(k);
    At(w, Amount(k))
  }

  lemma AmountSmall(k: nat)
    requires k < BITS_PER_LONG
    ensures Amount(k) < 64
  {
    AmountIs(k);
    Below(k as bv8, k as bv8);
  }

  // ----- Facts about words -----

  lemma AmountOrder(k: nat, s: nat)
    requires k < BITS_PER_LONG && s < BITS_PER_LONG
    ensures Amount(k) < 64 && (k < s <==> Amount(k) < Amount(s))
  {
    AmountIs(k);
    AmountIs(s);
    Below(k as bv8, s as bv8);
  }

  lemma AmountIs(k: nat)
    requires k < BITS_PER_LONG
    ensures (k as bv8) as int == k
  {
  }

  lemma Below(a: bv8, b: bv8)
    ensures a < b <==> (a as int) < (b as int)
    ensures (a as int) < 64 ==> (a as bv64) < 64
    ensures a < b <==> (a as bv64) < (b as bv64)
  {
  }

  lemma AmountOfNext(k: nat)
    requires k + 1 < BITS_PER_LONG
    ensures Amount(k + 1) == Amount(k) + 1
  {
    AmountIs(k);
    AmountIs(k + 1);
    NextByte(k as bv8, (k + 1) as bv8);
  }

  lemma NextByte(a: bv8, b: bv8)
    requires (b as int) == (a as int) + 1
    ensures (b as bv64) == (a as bv64) + 1
  {
  }

  lemma AndLeft(w: Word, m: Word, j: Word)
    requires j < 64
    ensures At(w & m, j) ==> At(w, j)
  {
  }

  lemma AndRight(w: Word, m: Word, j: Word)
    requires j < 64
    ensures At(w & m, j) ==> At(m, j)
  {
  }

  lemma OrLeft(w: Word, m: Word, j: Word)
    requires j < 64
    ensures At(w, j) ==> At(w | m, j)
  {
  }

  lemma OrRight(w: Word, m: Word, j: Word)
    requires j < 64
    ensures At(m, j) ==> At(w | m, j)
  {
  }

  lemma OrOnly(w: Word, m: Word, j: Word)
    requires j < 64
    ensures At(w | m, j) ==> At(w, j) || At(m, j)
  {
  }

  lemma Parted(w: Word, m: Word, j: Word)
    requires j < 64
    ensures At(w, j) ==> At(w & m, j) || At(w & !m, j)
  {
  }

  lemma PartedFrom(w: Word, m: Word, j: Word)
    requires j < 64
    ensures !At(w & !m, j) || !At(m, j)
  {
  }

  lemma NotBoth(w: Word, j: Word)
    requires j < 64
    ensures !At(w, j) || !At(!w, j)
  {
  }

  lemma NotNeither(w: Word, j: Word)
    requires j < 64
    ensures At(w, j) || At(!w, j)
  {
  }

  lemma OrBit(w: Word, m: Word, k: nat)
    requires k < BITS_PER_LONG
    ensures Bit(w | m, k) <==> Bit(w, k) || Bit(m, k)
  {
    hide At, Amount;
    AmountSmall(k);
    OrLeft(w, m, Amount(k));
    OrRight(w, m, Amount(k));
    OrOnly(w, m, Amount(k));
  }

  lemma AndBit(w: Word, m: Word, k: nat)
    requires k < BITS_PER_LONG
    ensures Bit(w & m, k) <==> Bit(w, k) && Bit(m, k)
  {
    hide At, Amount;
    AmountSmall(k);
    AndLeft(w, m, Amount(k));
    AndRight(w, m, Amount(k));
    Parted(w, m, Amount(k));
    PartedFrom(w, m, Amount(k));
  }

  lemma NotBit(w: Word, k: nat)
    requires k < BITS_PER_LONG
    ensures Bit(!w, k) <==> !Bit(w, k)
  {
    hide At, Amount;
    AmountSmall(k);
    NotBoth(w, Amount(k));
    NotNeither(w, Amount(k));
  }

  // The masks, as the macros write them.
  function FirstWordMask(start: nat): Word {
    AmountSmall(start % BITS_PER_LONG);
    ONES << Amount(start % BITS_PER_LONG)
  }

  function LastWordMask(nbits: nat): Word {
    if nbits % BITS_PER_LONG != 0 then
      AmountSmall(nbits % BITS_PER_LONG);
      (1 << Amount(nbits % BITS_PER_LONG)) - 1
    else ONES
  }

  lemma HighAt(j: Word, s: Word)
    requires j < 64 && s < 64
    ensures At((0xffff_ffff_ffff_ffff as Word) << s, j) <==> s <= j
  {
  }

  lemma LowIsNotHigh(s: Word)
    requires s < 64
    ensures ((1 as Word) << s) - 1 == !((0xffff_ffff_ffff_ffff as Word) << s)
  {
  }

  lemma LowAt(j: Word, s: Word)
    requires j < 64 && s < 64
    ensures At(((1 as Word) << s) - 1, j) <==> j < s
  {
    hide At;
    LowIsNotHigh(s);
    HighAt(j, s);
    var high: Word := 0xffff_ffff_ffff_ffff << s;
    NotBoth(high, j);
    NotNeither(high, j);
  }

  lemma ShiftedOnesIn(j: Word, s: Word)
    requires j < 64 && 0 < s < 64
    ensures j < s ==> At((0xffff_ffff_ffff_ffff as Word) >> (64 - s), j)
  {
  }

  lemma ShiftedOnesOut(j: Word, s: Word)
    requires j < 64 && 0 < s < 64
    ensures At((0xffff_ffff_ffff_ffff as Word) >> (64 - s), j) ==> j < s
  {
  }

  lemma ConstantsAt(j: Word)
    requires j < 64
    ensures At(0xffff_ffff_ffff_ffff, j) && !At(0, j)
  {
  }

  lemma FirstMaskBit(start: nat, k: nat)
    requires k < BITS_PER_LONG
    ensures Bit(FirstWordMask(start), k) <==> start % BITS_PER_LONG <= k
  {
    hide At, Amount;
    AmountOrder(k, start % BITS_PER_LONG);
    AmountSmall(start % BITS_PER_LONG);
    HighAt(Amount(k), Amount(start % BITS_PER_LONG));
  }

  lemma LastMaskBit(nbits: nat, k: nat)
    requires k < BITS_PER_LONG && nbits % BITS_PER_LONG != 0
    ensures Bit(LastWordMask(nbits), k) <==> k < nbits % BITS_PER_LONG
  {
    hide At, Amount;
    AmountOrder(k, nbits % BITS_PER_LONG);
    AmountSmall(nbits % BITS_PER_LONG);
    LowAt(Amount(k), Amount(nbits % BITS_PER_LONG));
  }

  lemma OnesBit(k: nat)
    requires k < BITS_PER_LONG
    ensures Bit(ONES, k) && !Bit(0, k)
  {
    hide At, Amount;
    AmountSmall(k);
    ConstantsAt(Amount(k));
  }

  // ~0UL << size and ~0UL >> (64 - size), the masks of the two searches.
  function TailMask(size: nat): Word
    requires size < BITS_PER_LONG
  {
    AmountSmall(size);
    ONES << Amount(size)
  }

  function HeadMask(size: nat): Word
    requires 0 < size < BITS_PER_LONG
  {
    AmountSmall(size);
    ONES >> (64 - Amount(size))
  }

  lemma TailMaskBit(size: nat, k: nat)
    requires k < BITS_PER_LONG && size < BITS_PER_LONG
    ensures Bit(TailMask(size), k) <==> size <= k
  {
    assert size % BITS_PER_LONG == size;
    FirstMaskBit(size, k);
  }

  lemma HeadMaskBit(size: nat, k: nat)
    requires k < BITS_PER_LONG && 0 < size < BITS_PER_LONG
    ensures Bit(HeadMask(size), k) <==> k < size
  {
    hide At, Amount;
    AmountOrder(k, size);
    AmountOrder(0, size);
    AmountSmall(size);
    ShiftedOnesIn(Amount(k), Amount(size));
    ShiftedOnesOut(Amount(k), Amount(size));
  }

  // ----- __ffs and ffz -----

  // The bits of w below r are clear.
  predicate LowClear(w: Word, r: Word)
    requires r <= 64
  {
    w & ((1 << r) - 1) == 0
  }

  lemma LowClearStep(w: Word, r: Word)
    requires r < 64 && LowClear(w, r) && !At(w, r)
    ensures LowClear(w, r + 1)
  {
  }

  lemma LowClearEnds(w: Word)
    ensures LowClear(w, 0) && (LowClear(w, 64) ==> w == 0)
  {
  }

  lemma {:induction false} NoLowBits(w: Word, k: nat)
    requires k < BITS_PER_LONG && forall j :: 0 <= j < k ==> !Bit(w, j)
    ensures Amount(k) < 64 && LowClear(w, Amount(k))
  {
    hide At, LowClear, Amount;
    AmountSmall(k);
    if k > 0 {
      NoLowBits(w, k - 1);
      AmountOfNext(k - 1);
      assert !Bit(w, k - 1);
      LowClearStep(w, Amount(k - 1));
    } else {
      AmountOfZero();
      LowClearEnds(w);
    }
  }

  lemma AmountOfZero()
    ensures Amount(0) == 0 && Amount(63) == 63
  {
  }

  lemma NoBits(w: Word)
    requires forall j :: 0 <= j < BITS_PER_LONG ==> !Bit(w, j)
    ensures w == 0
  {
    hide At, LowClear, Amount;
    NoLowBits(w, 63);
    AmountOfZero();
    assert !Bit(w, 63) && Amount(63) == 63;
    LowClearStep(w, 63);
    LowClearEnds(w);
  }

  // The tests and operations on words, apart from the bits.
  predicate IsZero(w: Word) {
    w == 0
  }

  predicate IsOnes(w: Word) {
    w == ONES
  }

  function SetIn(w: Word, mask: Word): Word {
    w | mask
  }

  function Both(a: Word, b: Word): Word {
    a & b
  }

  function Not(w: Word): Word {
    !w
  }

  function ClearIn(w: Word, mask: Word): Word {
    Both(w, Not(mask))
  }

  lemma ZeroHasNone(w: Word, k: nat)
    requires k < BITS_PER_LONG && IsZero(w)
    ensures !Bit(w, k)
  {
    OnesBit(k);
  }

  lemma OnesHasAll(w: Word, k: nat)
    requires k < BITS_PER_LONG && IsOnes(w)
    ensures Bit(w, k)
  {
    OnesBit(k);
  }

  // The bsf instruction: the least set bit.
  method Ffs(word: Word) returns (r: nat)
    requires !IsZero(word)
    ensures r < BITS_PER_LONG && Bit(word, r) && forall j :: 0 <= j < r ==> !Bit(word, j)
  {
    hide Bit;
    assert word != 0;
    r := 0;
    while !Bit(word, r)
      invariant r < BITS_PER_LONG && forall j :: 0 <= j < r ==> !Bit(word, j)
      decreases BITS_PER_LONG - r
    {
      if r == 63 {
        NoBits(word);
      }
      r := r + 1;
    }
  }

  method Ffz(word: Word) returns (r: nat)
    requires !IsOnes(word)
    ensures r < BITS_PER_LONG && !Bit(word, r) && forall j :: 0 <= j < r ==> Bit(word, j)
  {
    hide Bit, Not, IsZero, IsOnes;
    NotOnes(word);
    r := Ffs(Not(word));
    forall j | 0 <= j <= r
      ensures Bit(Not(word), j) <==> !Bit(word, j)
    {
      ComplementBit(word, j);
    }
  }

  lemma NotOnes(w: Word)
    requires !IsOnes(w)
    ensures !IsZero(Not(w))
  {
  }

  // ----- The bits of a map -----

  ghost predicate MapBit(words: seq<Word>, i: nat)
    requires i < BITS_PER_LONG * |words|
  {
    Bit(words[i / BITS_PER_LONG], i % BITS_PER_LONG)
  }

  lemma MapBitAt(words: seq<Word>, p: nat, k: nat)
    requires p < |words| && k < BITS_PER_LONG
    ensures MapBit(words, BITS_PER_LONG * p + k) <==> Bit(words[p], k)
  {
    assert (BITS_PER_LONG * p + k) / BITS_PER_LONG == p && (BITS_PER_LONG * p + k) % BITS_PER_LONG == k;
  }

  // All bits below i are as v says, and the one at i is not, if there is one before size.
  ghost predicate FirstOther(words: seq<Word>, size: nat, v: bool, r: nat)
    requires size <= BITS_PER_LONG * |words|
  {
    && r <= size && (forall i :: 0 <= i < r ==> MapBit(words, i) == v)
    && (r < size ==> MapBit(words, r) == !v)
  }

  // Word p of the map ends the search at its bit k, or does not end it.
  lemma WordSearched(words: seq<Word>, size: nat, v: bool, p: nat, k: nat)
    requires p < |words| && k <= BITS_PER_LONG && BITS_PER_LONG * p + k <= size <= BITS_PER_LONG * |words|
    requires forall i :: 0 <= i < BITS_PER_LONG * p ==> MapBit(words, i) == v
    requires forall j :: 0 <= j < k ==> Bit(words[p], j) == v
    ensures forall i :: 0 <= i < BITS_PER_LONG * p + k ==> MapBit(words, i) == v
    ensures k < BITS_PER_LONG && Bit(words[p], k) == !v ==> FirstOther(words, size, v, BITS_PER_LONG * p + k)
    ensures BITS_PER_LONG * p + k == size ==> FirstOther(words, size, v, size)
  {
    hide Bit;
    forall i | BITS_PER_LONG * p <= i < BITS_PER_LONG * p + k
      ensures MapBit(words, i) == v
    {
      MapBitAt(words, p, i - BITS_PER_LONG * p);
    }
    if k < BITS_PER_LONG {
      MapBitAt(words, p, k);
    }
  }

  /** find_first_zero_bit: the least clear bit below size, or size. */
  method FindFirstZeroBit(addr: array<Word>, size: nat) returns (r: nat)
    requires size <= BITS_PER_LONG * addr.Length
    ensures FirstOther(addr[..], size, true, r)
  {
    hide Bit, MapBit, IsZero, IsOnes;
    ghost var words := addr[..];
    var p: nat, left: nat := 0, size;
    r := 0;
    var tmp: Word := 0;
    while left >= BITS_PER_LONG
      invariant r == BITS_PER_LONG * p && r + left == size && |words| == addr.Length
      invariant forall i :: 0 <= i < r ==> MapBit(words, i)
    {
      tmp := addr[p];
      if !IsOnes(tmp) {
        var k := Ffz(tmp);
        WordSearched(words, size, true, p, k);
        return r + k;
      }
      forall j | 0 <= j < BITS_PER_LONG ensures Bit(tmp, j) { OnesHasAll(tmp, j); }
      WordSearched(words, size, true, p, BITS_PER_LONG);
      p := p + 1;
      r := r + BITS_PER_LONG;
      left := left - BITS_PER_LONG;
    }
    if left == 0 {
      return r;
    }
    var k := TailZero(addr[p], left);
    WordSearched(words, size, true, p, k);
    r := r + k;
  }

  lemma TailOr(w: Word, left: nat, j: nat)
    requires left < BITS_PER_LONG && j < BITS_PER_LONG
    ensures Bit(SetIn(w, TailMask(left)), j) <==> Bit(w, j) || left <= j
  {
    hide Bit, TailMask, SetIn;
    SetBit(w, TailMask(left), j);
    TailMaskBit(left, j);
  }

  // The last word of the search: its first left bits.
  method TailZero(w: Word, left: nat) returns (k: nat)
    requires 0 < left < BITS_PER_LONG
    ensures k <= left && (forall j :: 0 <= j < k ==> Bit(w, j)) && (k < left ==> !Bit(w, k))
  {
    hide Bit, TailMask, SetIn, IsOnes;
    var tmp := SetIn(w, TailMask(left));
    forall j | 0 <= j < BITS_PER_LONG
      ensures Bit(tmp, j) <==> Bit(w, j) || left <= j
      ensures IsOnes(tmp) ==> Bit(tmp, j)
    {
      TailOr(w, left, j);
      if IsOnes(tmp) { OnesHasAll(tmp, j); }
    }
    if IsOnes(tmp) {
      return left;
    }
    k := Ffz(tmp);
  }

  /** find_first_bit: the least set bit below size, or size. */
  method FindFirstBit(addr: array<Word>, size: nat) returns (r: nat)
    requires size <= BITS_PER_LONG * addr.Length
    ensures FirstOther(addr[..], size, false, r)
  {
    hide Bit, MapBit, IsZero, IsOnes;
    ghost var words := addr[..];
    var p: nat, left: nat := 0, size;
    r := 0;
    var tmp: Word := 0;
    while left >= BITS_PER_LONG
      invariant r == BITS_PER_LONG * p && r + left == size && |words| == addr.Length
      invariant forall i :: 0 <= i < r ==> !MapBit(words, i)
    {
      tmp := addr[p];
      if !IsZero(tmp) {
        var k := Ffs(tmp);
        WordSearched(words, size, false, p, k);
        return r + k;
      }
      forall j | 0 <= j < BITS_PER_LONG ensures !Bit(tmp, j) { ZeroHasNone(tmp, j); }
      WordSearched(words, size, false, p, BITS_PER_LONG);
      p := p + 1;
      r := r + BITS_PER_LONG;
      left := left - BITS_PER_LONG;
    }
    if left == 0 {
      return r;
    }
    var k := TailSet(addr[p], left);
    WordSearched(words, size, false, p, k);
    r := r + k;
  }

  lemma HeadAnd(w: Word, left: nat, j: nat)
    requires 0 < left < BITS_PER_LONG && j < BITS_PER_LONG
    ensures Bit(Both(w, HeadMask(left)), j) <==> Bit(w, j) && j < left
  {
    hide Bit, HeadMask, Both;
    BothBit(w, HeadMask(left), j);
    HeadMaskBit(left, j);
  }

  method TailSet(w: Word, left: nat) returns (k: nat)
    requires 0 < left < BITS_PER_LONG
    ensures k <= left && (forall j :: 0 <= j < k ==> !Bit(w, j)) && (k < left ==> Bit(w, k))
  {
    hide Bit, HeadMask, Both, IsZero;
    var tmp := Both(w, HeadMask(left));
    forall j | 0 <= j < BITS_PER_LONG
      ensures Bit(tmp, j) <==> Bit(w, j) && j < left
      ensures IsZero(tmp) ==> !Bit(tmp, j)
    {
      HeadAnd(w, left, j);
      if IsZero(tmp) { ZeroHasNone(tmp, j); }
    }
    if IsZero(tmp) {
      return left;
    }
    k := Ffs(tmp);
  }

  // ----- bitmap_set and bitmap_clear -----

  // What one store does to the bits: those from lo to hi of word p become v.
  ghost predicate WordStored(was: Word, now: Word, lo: nat, hi: nat, v: bool) {
    forall k :: 0 <= k < BITS_PER_LONG ==> (Bit(now, k) <==> if lo <= k < hi then v else Bit(was, k))
  }

  // The map has been changed from start up to, but not including, cur.
  ghost predicate Changed(was: seq<Word>, now: seq<Word>, start: nat, cur: nat, v: bool) {
    && |now| == |was|
    && forall i :: 0 <= i < BITS_PER_LONG * |was|
         ==> (MapBit(now, i) <==> if start <= i < cur then v else MapBit(was, i))
  }

  lemma StoreStep(was: seq<Word>, now: seq<Word>, start: nat, v: bool, p: nat, lo: nat, hi: nat, w: Word)
    requires p < |now| && lo <= hi <= BITS_PER_LONG && start <= BITS_PER_LONG * p + lo
    requires Changed(was, now, start, BITS_PER_LONG * p + lo, v) && WordStored(now[p], w, lo, hi, v)
    ensures Changed(was, now[p := w], start, BITS_PER_LONG * p + hi, v)
  {
    var next := now[p := w];
    hide Bit;
    forall i | 0 <= i < BITS_PER_LONG * |was|
      ensures MapBit(next, i) <==> if start <= i < BITS_PER_LONG * p + hi then v else MapBit(was, i)
    {
      var q, k := i / BITS_PER_LONG, i % BITS_PER_LONG;
      assert i == BITS_PER_LONG * q + k;
      assert MapBit(now, i) <==> if start <= i < BITS_PER_LONG * p + lo then v else MapBit(was, i);
      if q == p {
        assert Bit(w, k) <==> if lo <= k < hi then v else Bit(now[p], k);
      }
    }
  }

  // The mask of a store holds the bits from lo to hi.
  ghost predicate MaskOf(mask: Word, lo: nat, hi: nat) {
    forall k :: 0 <= k < BITS_PER_LONG ==> (Bit(mask, k) <==> lo <= k < hi)
  }

  lemma SetBit(w: Word, mask: Word, k: nat)
    requires k < BITS_PER_LONG
    ensures Bit(SetIn(w, mask), k) <==> Bit(w, k) || Bit(mask, k)
  {
    hide Bit;
    OrBit(w, mask, k);
  }

  lemma BothBit(w: Word, mask: Word, k: nat)
    requires k < BITS_PER_LONG
    ensures Bit(Both(w, mask), k) <==> Bit(w, k) && Bit(mask, k)
  {
    hide Bit;
    AndBit(w, mask, k);
  }

  lemma ComplementBit(w: Word, k: nat)
    requires k < BITS_PER_LONG
    ensures Bit(Not(w), k) <==> !Bit(w, k)
  {
    hide Bit;
    NotBit(w, k);
  }

  lemma ClearBit(w: Word, mask: Word, k: nat)
    requires k < BITS_PER_LONG
    ensures Bit(ClearIn(w, mask), k) <==> Bit(w, k) && !Bit(mask, k)
  {
    hide Bit, Both, Not;
    ComplementBit(mask, k);
    BothBit(w, Not(mask), k);
  }

  lemma Stored(w: Word, mask: Word, lo: nat, hi: nat)
    requires MaskOf(mask, lo, hi)
    ensures WordStored(w, SetIn(w, mask), lo, hi, true) && WordStored(w, ClearIn(w, mask), lo, hi, false)
  {
    hide Bit, SetIn, ClearIn, Both;
    forall k | 0 <= k < BITS_PER_LONG
      ensures Bit(SetIn(w, mask), k) <==> Bit(w, k) || lo <= k < hi
      ensures Bit(ClearIn(w, mask), k) <==> Bit(w, k) && !(lo <= k < hi)
    {
      SetBit(w, mask, k);
      ClearBit(w, mask, k);
    }
  }

  lemma FirstMask(start: nat)
    ensures MaskOf(FirstWordMask(start), start % BITS_PER_LONG, BITS_PER_LONG)
    ensures MaskOf(ONES, 0, BITS_PER_LONG)
  {
    hide Bit, FirstWordMask;
    forall k | 0 <= k < BITS_PER_LONG
      ensures Bit(FirstWordMask(start), k) <==> start % BITS_PER_LONG <= k
      ensures Bit(ONES, k)
    {
      FirstMaskBit(start, k);
      OnesBit(k);
    }
  }

  lemma LastMask(mask: Word, lo: nat, size: nat)
    requires MaskOf(mask, lo, BITS_PER_LONG) && size % BITS_PER_LONG != 0
    ensures MaskOf(Both(mask, LastWordMask(size)), lo, size % BITS_PER_LONG)
  {
    hide Bit, LastWordMask, SetIn, ClearIn, Both;
    forall k | 0 <= k < BITS_PER_LONG
      ensures Bit(Both(mask, LastWordMask(size)), k) <==> lo <= k < size % BITS_PER_LONG
    {
      BothBit(mask, LastWordMask(size), k);
      LastMaskBit(size, k);
    }
  }

  lemma Unchanged(was: seq<Word>, start: nat, v: bool)
    ensures Changed(was, was, start, start, v)
  {
  }

  // One store: *p |= mask, or *p &= ~mask.
  method Store(words: array<Word>, p: nat, mask: Word, v: bool, ghost was: seq<Word>, ghost start: nat,
               ghost lo: nat, ghost hi: nat)
    requires p < words.Length && lo <= hi <= BITS_PER_LONG && start <= BITS_PER_LONG * p + lo
    requires MaskOf(mask, lo, hi) && Changed(was, words[..], start, BITS_PER_LONG * p + lo, v)
    modifies words
    ensures Changed(was, words[..], start, BITS_PER_LONG * p + hi, v)
  {
    hide Bit, MaskOf, WordStored, Changed, SetIn, ClearIn;
    ghost var now, w := words[..], words[p];
    Stored(w, mask, lo, hi);
    StoreStep(was, now, start, v, p, lo, hi, if v then SetIn(w, mask) else ClearIn(w, mask));
    if v {
      words[p] := SetIn(words[p], mask);
    } else {
      words[p] := ClearIn(words[p], mask);
    }
    assert words[..] == now[p := words[p]];
  }

  /** bitmap_set: exactly the bits from start to start + nr become one, whatever word
      boundaries lie between. */
  method BitmapSet(words: array<Word>, start: nat, nr: nat)
    requires start + nr <= BITS_PER_LONG * words.Length
    modifies words
    ensures Changed(old(words[..]), words[..], start, start + nr, true)
  {
    hide Bit, MapBit, MaskOf, WordStored, Changed, FirstWordMask, LastWordMask, Both, SetIn, ClearIn, Not;
    ghost var was := words[..];
    var p, size, left := start / BITS_PER_LONG, start + nr, nr;
    var bitsToSet, mask := BITS_PER_LONG - start % BITS_PER_LONG, FirstWordMask(start);
    FirstMask(start);
    Unchanged(was, start, true);
    while left - bitsToSet >= 0
      invariant 0 <= p && 0 < bitsToSet <= BITS_PER_LONG && 0 <= left
      invariant start <= BITS_PER_LONG * (p + 1) - bitsToSet
      invariant BITS_PER_LONG * (p + 1) - bitsToSet + left == size
      invariant MaskOf(mask, BITS_PER_LONG - bitsToSet, BITS_PER_LONG)
      invariant Changed(was, words[..], start, BITS_PER_LONG * p + (BITS_PER_LONG - bitsToSet), true)
      decreases left
    {
      Store(words, p, mask, true, was, start, BITS_PER_LONG - bitsToSet, BITS_PER_LONG);
      left := left - bitsToSet;
      bitsToSet := BITS_PER_LONG;
      mask := ONES;
      p := p + 1;
    }
    if left != 0 {
      ghost var lo := BITS_PER_LONG - bitsToSet;
      assert size == BITS_PER_LONG * p + (lo + left) && size % BITS_PER_LONG == lo + left;
      LastMask(mask, lo, size);
      mask := Both(mask, LastWordMask(size));
      Store(words, p, mask, true, was, start, lo, lo + left);
    }
  }

  /** bitmap_clear: exactly the bits from start to start + nr become zero, whatever word
      boundaries lie between. */
  method BitmapClear(words: array<Word>, start: nat, nr: nat)
    requires start + nr <= BITS_PER_LONG * words.Length
    modifies words
    ensures Changed(old(words[..]), words[..], start, start + nr, false)
  {
    hide Bit, MapBit, MaskOf, WordStored, Changed, FirstWordMask, LastWordMask, Both, SetIn, ClearIn, Not;
    ghost var was := words[..];
    var p, size, left := start / BITS_PER_LONG, start + nr, nr;
    var bitsToClear, mask := BITS_PER_LONG - start % BITS_PER_LONG, FirstWordMask(start);
    FirstMask(start);
    Unchanged(was, start, false);
    while left - bitsToClear >= 0
      invariant 0 <= p && 0 < bitsToClear <= BITS_PER_LONG && 0 <= left
      invariant start <= BITS_PER_LONG * (p + 1) - bitsToClear
      invariant BITS_PER_LONG * (p + 1) - bitsToClear + left == size
      invariant MaskOf(mask, BITS_PER_LONG - bitsToClear, BITS_PER_LONG)
      invariant Changed(was, words[..], start, BITS_PER_LONG * p + (BITS_PER_LONG - bitsToClear), false)
      decreases left
    {
      Store(words, p, mask, false, was, start, BITS_PER_LONG - bitsToClear, BITS_PER_LONG);
      left := left - bitsToClear;
      bitsToClear := BITS_PER_LONG;
      mask := ONES;
      p := p + 1;
    }
    if left != 0 {
      ghost var lo := BITS_PER_LONG - bitsToClear;
      assert size == BITS_PER_LONG * p + (lo + left) && size % BITS_PER_LONG == lo + left;
      LastMask(mask, lo, size);
      mask := Both(mask, LastWordMask(size));
      Store(words, p, mask, false, was, start, lo, lo + left);
    }
  }
}
