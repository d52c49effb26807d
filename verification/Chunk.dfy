/** Content-defined chunking: model/kernel_hash/chunk.c with the parameters that
    model/kernel_hash/main.c computes.  Arithmetic is that of 64-bit unsigned words,
    and payload bytes are signed chars. */
module Chunk {
  import opened Binary

  type schar = c: int | -128 <= c < 128

  const WORD := 0x1_0000_0000_0000_0000 // 2^64
  const Q := 0x1000_0000_0000_0000      // 2^60
  const R := 1048583
  const CHUNK_NUM := 32
  const CHUNKSTEP := 32
  const STEP := CHUNKSTEP - 1
  const ZERO_NUM := 6
  const KFIFO_SLOTS := 1024             // KFIFOLEN / sizeof(int)

  // Conversion to unsigned long; negative values are sign-extended.
  function U64(x: int): int {
    x % WORD
  }

  function Pow(b: int, e: nat): int {
    if e == 0 then 1 else b * Pow(b, e - 1)
  }

  lemma {:induction false} PowAdd(b: int, m: nat, n: nat)
    ensures Pow(b, m + n) == Pow(b, m) * Pow(b, n)
  {
    if m > 0 {
      PowAdd(b, m - 1, n);
      assert b * (Pow(b, m - 1) * Pow(b, n)) == (b * Pow(b, m - 1)) * Pow(b, n);
    }
  }

  lemma {:induction false} PowOf2Grows(m: nat, n: nat)
    requires m <= n
    ensures 1 <= Pow(2, m) <= Pow(2, n)
  {
    if n > m {
      PowOf2Grows(m, n - 1);
    } else if m > 0 {
      PowOf2Grows(m - 1, n - 1);
    }
  }

  lemma PowOf2Values()
    ensures Pow(2, 6) == 64 && Pow(2, 60) == Q
  {
    assert Pow(2, 6) == 64;
    PowAdd(2, 6, 6);
    assert Pow(2, 12) == 4096;
    PowAdd(2, 12, 12);
    PowAdd(2, 24, 24);
    PowAdd(2, 48, 12);
  }

  // Q divides the word size, so wrapping does not change residues modulo Q.
  lemma WrapThenMod(x: int)
    ensures U64(x) % Q == x % Q
  {
  }

  // One Horner step may be taken on residues.
  lemma ModStep(a: int, c: int)
    ensures (R * (a % Q) + c) % Q == (R * a + c) % Q
  {
    assert R * a == R * (a % Q) + Q * (R * (a / Q));
  }

  /** init_hash_parameters: Q, RM and the mask come out as 2^60, R^31 mod Q and 2^6 - 1. */
  method InitHashParameters() returns (q: int, rm: int, zeroValue: int)
    ensures q == Q == Pow(2, 60)
    ensures rm == Pow(R, CHUNK_NUM - 1) % Q == Pow(1048583, 31) % 0x1000_0000_0000_0000
    ensures zeroValue == Pow(2, ZERO_NUM) - 1 == 63
  {
    PowOf2Values();
    q := 1;
    for i := 0 to 60
      invariant q == Pow(2, i)
    {
      PowOf2Grows(i + 1, 60);
      q := U64(2 * q);
    }
    rm := 1;
    for i := 1 to CHUNK_NUM
      invariant rm == Pow(R, i - 1) % Q
    {
      ModStep(Pow(R, i - 1), 0);
      WrapThenMod(R * rm);
      rm := U64(R * rm) % q;
    }
    zeroValue := 1;
    for i := 0 to ZERO_NUM
      invariant zeroValue == Pow(2, i)
    {
      PowOf2Grows(i + 1, 60);
      zeroValue := U64(2 * zeroValue);
    }
    zeroValue := zeroValue - 1;
  }

  // ----- The window hash -----

  /** The polynomial that the hash stands for, over unbounded integers. */
  ghost function Poly(w: seq<schar>): int {
    if w == [] then 0 else R * Poly(w[..|w| - 1]) + w[|w| - 1]
  }

  ghost function WindowHash(w: seq<schar>): int {
    Poly(w) % Q
  }

  // One step of pack_hash on machine words.
  function HashStep(h: int, c: schar): int {
    U64(R * h + U64(c)) % Q
  }

  lemma HashStepIsHorner(w: seq<schar>, c: schar)
    ensures HashStep(WindowHash(w), c) == WindowHash(w + [c])
  {
    var h := WindowHash(w);
    WrapThenMod(R * h + U64(c));
    assert (R * h + U64(c)) % Q == (R * h + c) % Q by {
      assert U64(c) == c || U64(c) == c + WORD;
    }
    ModStep(Poly(w), c);
    assert (w + [c])[..|w|] == w;
  }

  method PackHash(key: seq<schar>, m: nat) returns (h: nat)
    requires m <= |key|
    ensures h == WindowHash(key[..m])
  {
    h := 0;
    for j := 0 to m
      invariant h == WindowHash(key[..j])
    {
      HashStepIsHorner(key[..j], key[j]);
      assert key[..j + 1] == key[..j] + [key[j]];
      h := HashStep(h, key[j]);
    }
  }

  lemma {:induction false} PolyHead(w: seq<schar>)
    requires w != []
    ensures Poly(w) == Pow(R, |w| - 1) * w[0] + Poly(w[1..])
  {
    if |w| > 1 {
      var n := |w| - 1;
      PolyHead(w[..n]);
      assert w[..n][1..] == w[1..][..n - 1];
      var p := Pow(R, n - 1);
      assert R * (p * w[0]) == (R * p) * w[0];
    }
  }

  // Take the oldest byte out of the window hash t.
  function DropOldest(t: int, rm: int, oldest: schar): int {
    U64(t + Q - U64(rm * U64(oldest)) % Q) % Q
  }

  lemma ProductResidue(rm: int, p: int, x: int)
    requires rm == p % Q
    ensures (rm * U64(x)) % Q == (p * x) % Q
  {
    var k, j := p / Q, x / WORD;
    assert p == Q * k + rm && U64(x) == x - WORD * j;
    assert p * x == Q * (k * x) + rm * x;
    assert rm * U64(x) == rm * x - Q * (16 * rm * j);
    ModShift(rm * x, k * x);
    ModShift(rm * x, -(16 * rm * j));
  }

  lemma ModShift(a: int, k: int)
    ensures (a + Q * k) % Q == a % Q
  {
  }

  lemma ModDifference(a: int, b: int)
    ensures (a % Q + Q - b % Q) % Q == (a - b) % Q
    ensures 0 < a % Q + Q - b % Q < WORD
  {
    ModShift(a % Q + Q - b % Q, a / Q - b / Q - 1);
    assert a - b == a % Q + Q - b % Q + Q * (a / Q - b / Q - 1);
  }

  lemma DropIsDifference(a: int, p: int, rm: int, x: schar)
    requires rm == p % Q
    ensures DropOldest(a % Q, rm, x) == (a - p * x) % Q
  {
    ProductResidue(rm, p, x);
    WrapThenMod(rm * U64(x));
    ModDifference(a, p * x);
    var d := a % Q + Q - (p * x) % Q;
    assert U64(d) == d;
  }

  lemma DropOldestIsExact(w: seq<schar>, rm: int)
    requires |w| == CHUNK_NUM && rm == Pow(R, CHUNK_NUM - 1) % Q
    ensures DropOldest(WindowHash(w), rm, w[0]) == WindowHash(w[1..])
  {
    hide Poly, Pow, DropOldest, U64;
    var p := Pow(R, CHUNK_NUM - 1);
    PolyHead(w);
    DropIsDifference(Poly(w), p, rm, w[0]);
    assert Poly(w) - p * w[0] == Poly(w[1..]);
  }

  /** Sliding the window by one byte, as the loop of calculate_partition does, gives
      the hash of the new window computed from scratch. */
  lemma RollIsExact(w: seq<schar>, rm: int, c: schar)
    requires |w| == CHUNK_NUM && rm == Pow(R, CHUNK_NUM - 1) % Q
    ensures HashStep(DropOldest(WindowHash(w), rm, w[0]), c) == WindowHash(w[1..] + [c])
  {
    DropOldestIsExact(w, rm);
    HashStepIsHorner(w[1..], c);
  }

  // ----- Cut selection -----

  // The window of CHUNK_NUM bytes ending at i.
  ghost function Window(p: seq<schar>, i: nat): seq<schar>
    requires CHUNK_NUM - 1 <= i < |p|
  {
    p[i - (CHUNK_NUM - 1)..i + 1]
  }

  // The low bits of the hash of the window ending at i are zero.
  ghost predicate Boundary(p: seq<schar>, i: nat) {
    CHUNK_NUM - 1 <= i < |p| && WindowHash(Window(p, i)) % 64 == 0
  }

  // The cuts made from position i on: every boundary, but none for CHUNKSTEP
  // positions after a cut.
  ghost function Scan(p: seq<schar>, i: nat): seq<nat>
    decreases |p| - i
  {
    if i >= |p| then []
    else if Boundary(p, i) then [i] + Scan(p, i + CHUNKSTEP)
    else Scan(p, i + 1)
  }

  lemma ScanUnfolds(p: seq<schar>, i: nat)
    ensures i >= |p| ==> Scan(p, i) == [] && !Boundary(p, i)
    ensures Boundary(p, i) ==> i < |p| && Scan(p, i) == [i] + Scan(p, i + CHUNKSTEP)
    ensures i < |p| && !Boundary(p, i) ==> Scan(p, i) == Scan(p, i + 1)
  {
  }

  ghost function Cuts(p: seq<schar>): seq<nat> {
    Scan(p, CHUNK_NUM - 1)
  }

  // kfifo_put drops what does not fit.
  function KfifoPut(fifo: seq<nat>, x: nat): seq<nat> {
    if |fifo| < KFIFO_SLOTS then fifo + [x] else fifo
  }

  ghost function FirstSlots(cuts: seq<nat>): seq<nat> {
    if |cuts| <= KFIFO_SLOTS then cuts else cuts[..KFIFO_SLOTS]
  }

  lemma KfifoPutKeepsFirst(cuts: seq<nat>, x: nat)
    ensures KfifoPut(FirstSlots(cuts), x) == FirstSlots(cuts + [x])
  {
  }

  // The fifo has the cuts that come before next, k of them.
  ghost predicate Selected(p: seq<schar>, fifo: seq<nat>, k: nat, next: nat) {
    k <= |Cuts(p)| && Cuts(p)[k..] == Scan(p, next) && fifo == FirstSlots(Cuts(p)[..k])
  }

  lemma TakeCut(p: seq<schar>, fifo: seq<nat>, k: nat, i: nat)
    requires Boundary(p, i) && Selected(p, fifo, k, i)
    ensures Selected(p, KfifoPut(fifo, i), k + 1, i + CHUNKSTEP)
  {
    ScanUnfolds(p, i);
    hide Scan, Boundary, FirstSlots, KfifoPut;
    NextCut(Cuts(p), k, i, Scan(p, i + CHUNKSTEP));
  }

  lemma SkipByte(p: seq<schar>, fifo: seq<nat>, k: nat, i: nat)
    requires i < |p| && !Boundary(p, i) && Selected(p, fifo, k, i)
    ensures Selected(p, fifo, k, i + 1)
  {
    ScanUnfolds(p, i);
  }

  // The test for a boundary.
  method ZeroBits(p: seq<schar>, i: nat, hash: nat, zeroValue: nat) returns (zero: bool)
    requires CHUNK_NUM - 1 <= i < |p| && hash == WindowHash(Window(p, i)) && zeroValue == 63
    ensures zero <==> Boundary(p, i)
  {
    assert Pow2(6) == 64;
    MaskIsModulus(hash, 6);
    zero := BitAnd(hash, zeroValue) == 0;
  }

  // One round of the loop.
  method SlideTo(p: seq<schar>, rm: int, zeroValue: nat, i: nat, hash: nat, delay: nat, fifo: seq<nat>, ghost k: nat)
    returns (hash': nat, delay': nat, fifo': seq<nat>, ghost k': nat)
    requires CHUNK_NUM <= i < |p| && rm == Pow(R, CHUNK_NUM - 1) % Q && zeroValue == 63
    requires hash == WindowHash(Window(p, i - 1)) && delay <= STEP && Selected(p, fifo, k, i + delay)
    ensures hash' == WindowHash(Window(p, i)) && delay' <= STEP && Selected(p, fifo', k', i + 1 + delay')
  {
    SlideWindow(p, rm, i);
    hide Selected, Boundary, Pow, WindowHash, Window;
    hash' := DropOldest(hash, rm, p[i - CHUNK_NUM]);
    hash' := HashStep(hash', p[i]);
    fifo', delay', k' := fifo, delay, k;
    if delay == 0 {
      var zero := ZeroBits(p, i, hash', zeroValue);
      if zero {
        TakeCut(p, fifo, k, i);
        fifo' := KfifoPut(fifo, i);
        delay' := STEP;
        k' := k + 1;
      } else {
        SkipByte(p, fifo, k, i);
      }
    } else {
      delay' := delay - 1;
    }
  }

  // What comes before the loop.
  method FirstWindow(p: seq<schar>, zeroValue: nat)
    returns (hash: nat, delay: nat, fifo: seq<nat>, ghost k: nat)
    requires |p| >= CHUNK_NUM && zeroValue == 63
    ensures hash == WindowHash(Window(p, CHUNK_NUM - 1)) && delay <= STEP && Selected(p, fifo, k, CHUNK_NUM + delay)
  {
    NothingSelected(p);
    hide *;
    fifo, delay, k := [], 0, 0;
    hash := PackHash(p, CHUNK_NUM);
    var zero := ZeroBits(p, CHUNK_NUM - 1, hash, zeroValue);
    if zero {
      TakeCut(p, fifo, 0, CHUNK_NUM - 1);
      fifo := KfifoPut(fifo, CHUNK_NUM - 1);
      delay := STEP;
      k := 1;
    } else {
      SkipByte(p, fifo, 0, CHUNK_NUM - 1);
    }
  }

  lemma NothingSelected(p: seq<schar>)
    requires |p| >= CHUNK_NUM
    ensures p[..CHUNK_NUM] == Window(p, CHUNK_NUM - 1) && Selected(p, [], 0, CHUNK_NUM - 1)
  {
  }

  /** calculate_partition with the parameters of InitHashParameters: the fifo receives
      the cuts, as many as it has room for. */
  method CalculatePartition(p: seq<schar>, rm: int, zeroValue: nat) returns (fifo: seq<nat>)
    requires |p| >= CHUNK_NUM && rm == Pow(R, CHUNK_NUM - 1) % Q && zeroValue == 63
    ensures fifo == FirstSlots(Cuts(p))
    ensures fifo <= Cuts(p) && |fifo| == if |Cuts(p)| <= 1024 then |Cuts(p)| else 1024
  {
    FirstSlotsAre(Cuts(p));
    assert CHUNK_NUM == 32;
    hide *;
    var hash: nat, delay: nat;
    ghost var k: nat;
    hash, delay, fifo, k := FirstWindow(p, zeroValue);
    for i := CHUNK_NUM to |p|
      invariant delay <= STEP && hash == WindowHash(Window(p, i - 1)) && Selected(p, fifo, k, i + delay)
    {
      hash, delay, fifo, k := SlideTo(p, rm, zeroValue, i, hash, delay, fifo, k);
    }
    AllSelected(p, fifo, k, |p| + delay);
  }

  lemma FirstSlotsAre(cuts: seq<nat>)
    ensures FirstSlots(cuts) <= cuts && |FirstSlots(cuts)| == if |cuts| <= 1024 then |cuts| else 1024
  {
  }

  lemma AllSelected(p: seq<schar>, fifo: seq<nat>, k: nat, next: nat)
    requires next >= |p| && Selected(p, fifo, k, next)
    ensures fifo == FirstSlots(Cuts(p))
  {
    ScanUnfolds(p, next);
    assert Cuts(p)[..k] == Cuts(p);
  }

  lemma NextCut(cuts: seq<nat>, k: nat, i: nat, rest: seq<nat>)
    requires k <= |cuts| && cuts[k..] == [i] + rest
    ensures k < |cuts| && cuts[k + 1..] == rest
    ensures KfifoPut(FirstSlots(cuts[..k]), i) == FirstSlots(cuts[..k + 1])
  {
    assert cuts[k] == cuts[k..][0] && cuts[k..][1..] == cuts[k + 1..];
    assert cuts[..k + 1] == cuts[..k] + [i];
    KfifoPutKeepsFirst(cuts[..k], i);
  }

  lemma SlideWindow(p: seq<schar>, rm: int, i: nat)
    requires CHUNK_NUM <= i < |p| && rm == Pow(R, CHUNK_NUM - 1) % Q
    ensures HashStep(DropOldest(WindowHash(Window(p, i - 1)), rm, p[i - CHUNK_NUM]), p[i]) == WindowHash(Window(p, i))
    ensures Boundary(p, i) <==> WindowHash(Window(p, i)) % 64 == 0
  {
    var w := Window(p, i - 1);
    RollIsExact(w, rm, p[i]);
    assert w[1..] + [p[i]] == Window(p, i);
  }
}
