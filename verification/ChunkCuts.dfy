/** What the cut selection of calculate_partition guarantees: it is the greedy one, it
    resynchronises after every cut, and how many cuts there can be. */
module ChunkCuts {
  import opened Chunk

  ghost predicate Spaced(cs: seq<nat>) {
    forall i, j :: 0 <= i < j < |cs| ==> cs[i] + CHUNKSTEP <= cs[j]
  }

  // b is a cut, or comes less than CHUNKSTEP after one.
  ghost predicate Covered(cs: seq<nat>, b: nat) {
    exists k :: 0 <= k < |cs| && cs[k] <= b < cs[k] + CHUNKSTEP
  }

  /** A greedy selection among the boundaries of p from position i on: boundaries only,
      at least CHUNKSTEP apart, and no boundary left out except one that is too close
      behind a cut. */
  ghost predicate Greedy(p: seq<schar>, i: nat, cs: seq<nat>) {
    && Spaced(cs)
    && (forall k :: 0 <= k < |cs| ==> i <= cs[k] && Boundary(p, cs[k]))
    && (forall b {:trigger Covered(cs, b)} :: i <= b && Boundary(p, b) ==> Covered(cs, b))
  }

  lemma CoveredCons(c: nat, cs: seq<nat>, b: nat)
    ensures Covered([c] + cs, b) <==> c <= b < c + CHUNKSTEP || Covered(cs, b)
  {
    var all := [c] + cs;
    if Covered(cs, b) {
      var k :| 0 <= k < |cs| && cs[k] <= b < cs[k] + CHUNKSTEP;
      assert all[k + 1] == cs[k];
    }
    if c <= b < c + CHUNKSTEP {
      assert all[0] == c;
    }
    if Covered(all, b) && !(c <= b < c + CHUNKSTEP) {
      var k :| 0 <= k < |all| && all[k] <= b < all[k] + CHUNKSTEP;
      assert all[k] == cs[k - 1];
    }
  }

  // A greedy selection from i on takes a boundary at i and goes on CHUNKSTEP further.
  lemma GreedyTakes(p: seq<schar>, i: nat, rest: seq<nat>)
    requires Boundary(p, i) && Greedy(p, i + CHUNKSTEP, rest)
    ensures Greedy(p, i, [i] + rest)
  {
    hide Boundary;
    forall b | i <= b && Boundary(p, b) ensures Covered([i] + rest, b) {
      CoveredCons(i, rest, b);
    }
    hide Covered;
  }

  lemma GreedyStarts(p: seq<schar>, i: nat, cs: seq<nat>)
    requires Greedy(p, i, cs) && Boundary(p, i)
    ensures cs != [] && cs[0] == i && Greedy(p, i + CHUNKSTEP, cs[1..])
  {
    hide Boundary;
    assert Covered(cs, i);
    var k :| 0 <= k < |cs| && cs[k] <= i < cs[k] + CHUNKSTEP;
    assert cs[k] == i && i <= cs[0];
    assert cs == [i] + cs[1..];
    forall b | i + CHUNKSTEP <= b && Boundary(p, b) ensures Covered(cs[1..], b) {
      CoveredCons(i, cs[1..], b);
    }
    hide Covered;
    assert forall k :: 0 <= k < |cs[1..]| ==> cs[1..][k] == cs[k + 1] && cs[0] + CHUNKSTEP <= cs[k + 1];
  }

  lemma GreedySkips(p: seq<schar>, i: nat, cs: seq<nat>)
    requires !Boundary(p, i)
    ensures Greedy(p, i + 1, cs) <==> Greedy(p, i, cs)
  {
    hide Boundary, Covered;
  }

  lemma GreedyAtEnd(p: seq<schar>, i: nat, cs: seq<nat>)
    requires i >= |p|
    ensures Greedy(p, i, cs) <==> cs == []
  {
    assert Greedy(p, i, cs) && cs != [] ==> Boundary(p, cs[0]);
  }

  lemma {:induction false} ScanIsGreedy(p: seq<schar>, i: nat)
    ensures Greedy(p, i, Scan(p, i))
    decreases |p| - i
  {
    ScanUnfolds(p, i);
    hide Scan, Greedy, Boundary;
    if i >= |p| {
      GreedyAtEnd(p, i, []);
    } else if Boundary(p, i) {
      ScanIsGreedy(p, i + CHUNKSTEP);
      GreedyTakes(p, i, Scan(p, i + CHUNKSTEP));
    } else {
      ScanIsGreedy(p, i + 1);
      GreedySkips(p, i, Scan(p, i + 1));
    }
  }

  lemma {:induction false} GreedyIsScan(p: seq<schar>, i: nat, cs: seq<nat>)
    requires Greedy(p, i, cs)
    ensures cs == Scan(p, i)
    decreases |p| - i
  {
    ScanUnfolds(p, i);
    hide Scan, Greedy, Boundary;
    if i >= |p| {
      GreedyAtEnd(p, i, cs);
    } else if Boundary(p, i) {
      GreedyStarts(p, i, cs);
      GreedyIsScan(p, i + CHUNKSTEP, cs[1..]);
      assert cs == [i] + cs[1..];
    } else {
      GreedySkips(p, i, cs);
      GreedyIsScan(p, i + 1, cs);
    }
  }

  /** The cuts are the greedy selection, and the only one. */
  lemma CutsAreTheGreedySelection(p: seq<schar>, cs: seq<nat>)
    ensures cs == Cuts(p) <==> Greedy(p, CHUNK_NUM - 1, cs)
  {
    ScanIsGreedy(p, CHUNK_NUM - 1);
    if Greedy(p, CHUNK_NUM - 1, cs) {
      GreedyIsScan(p, CHUNK_NUM - 1, cs);
    }
  }

  // ----- Resynchronisation -----

  ghost function Shift(cs: seq<nat>, o: nat): seq<nat> {
    seq(|cs|, k requires 0 <= k < |cs| => cs[k] + o)
  }

  lemma ShiftCons(c: nat, cs: seq<nat>, o: nat)
    ensures Shift([c] + cs, o) == [c + o] + Shift(cs, o)
  {
  }

  lemma ShiftOfNone(o: nat)
    ensures Shift([], o) == []
  {
  }

  lemma BoundaryOfSuffix(u: seq<schar>, s: seq<schar>, i: nat)
    requires CHUNK_NUM - 1 <= i < |s|
    ensures Boundary(u + s, |u| + i) <==> Boundary(s, i)
  {
    assert Window(u + s, |u| + i) == Window(s, i);
  }

  lemma {:induction false} ScanOfSuffix(u: seq<schar>, s: seq<schar>, i: nat)
    requires CHUNK_NUM - 1 <= i
    ensures Scan(u + s, |u| + i) == Shift(Scan(s, i), |u|)
    decreases |s| - i
  {
    hide Scan, Boundary, Shift;
    ScanUnfolds(s, i);
    ScanUnfolds(u + s, |u| + i);
    if i >= |s| {
      ShiftOfNone(|u|);
    } else {
      BoundaryOfSuffix(u, s, i);
      if Boundary(s, i) {
        ScanOfSuffix(u, s, i + CHUNKSTEP);
        ShiftCons(i, Scan(s, i + CHUNKSTEP), |u|);
      } else {
        ScanOfSuffix(u, s, i + 1);
      }
    }
  }

  lemma {:induction false} ScanAfterCut(p: seq<schar>, i: nat, k: nat)
    requires k < |Scan(p, i)|
    ensures i <= Scan(p, i)[k] < |p|
    ensures Scan(p, i)[k + 1..] == Scan(p, Scan(p, i)[k] + CHUNKSTEP)
    decreases |p| - i
  {
    if Boundary(p, i) {
      hide Boundary;
      var rest := Scan(p, i + CHUNKSTEP);
      assert ([i] + rest)[1..] == rest;
      if k > 0 {
        ScanAfterCut(p, i + CHUNKSTEP, k - 1);
        assert ([i] + rest)[k + 1..] == rest[k..];
      }
    } else {
      hide Boundary;
      ScanAfterCut(p, i + 1, k);
    }
  }

  /** After a cut, the selection forgets what came before: the later cuts are those of
      the remaining suffix on its own. */
  lemma CutsResynchronise(u: seq<schar>, s: seq<schar>, k: nat)
    requires k < |Cuts(u + s)| && Cuts(u + s)[k] == |u| - 1
    ensures Cuts(u + s)[k + 1..] == Shift(Cuts(s), |u|)
  {
    ScanAfterCut(u + s, CHUNK_NUM - 1, k);
    ScanOfSuffix(u, s, CHUNK_NUM - 1);
  }

  // Increasing positions inside [start, n).
  ghost predicate Within(cs: seq<nat>, start: nat, n: nat) {
    && start <= n
    && (forall k :: 0 <= k < |cs| ==> start <= cs[k] < n)
    && (forall j, k :: 0 <= j < k < |cs| ==> cs[j] < cs[k])
  }

  // The pieces of p from start on when it is cut after each position of cs.
  ghost function Pieces(p: seq<schar>, start: nat, cs: seq<nat>): seq<seq<schar>>
    requires Within(cs, start, |p|)
    decreases |cs|
  {
    if cs == [] then if start < |p| then [p[start..]] else []
    else [p[start..cs[0] + 1]] + Pieces(p, cs[0] + 1, cs[1..])
  }

  lemma CutsWithin(p: seq<schar>)
    ensures Within(Cuts(p), 0, |p|)
  {
    ScanIsGreedy(p, CHUNK_NUM - 1);
    assert forall k :: 0 <= k < |Cuts(p)| ==> Boundary(p, Cuts(p)[k]);
  }

  // The first piece and the rest.
  lemma PiecesUnfold(p: seq<schar>, start: nat, cs: seq<nat>)
    requires Within(cs, start, |p|) && cs != []
    ensures Within(cs[1..], cs[0] + 1, |p|) && start <= cs[0] < |p|
    ensures Pieces(p, start, cs) == [p[start..cs[0] + 1]] + Pieces(p, cs[0] + 1, cs[1..])
  {
  }

  lemma SliceOfSuffix(u: seq<schar>, s: seq<schar>, from: nat, to: nat)
    requires from <= to <= |s|
    ensures (u + s)[|u| + from..|u| + to] == s[from..to] && (u + s)[|u| + from..] == s[from..]
  {
  }

  lemma ShiftWithin(cs: seq<nat>, o: nat, start: nat, n: nat)
    requires Within(cs, start, n)
    ensures start <= n && |Shift(cs, o)| == |cs| && Within(Shift(cs, o), o + start, o + n)
    ensures cs != [] ==> Shift(cs, o)[1..] == Shift(cs[1..], o) && Shift(cs, o)[0] == cs[0] + o
  {
  }

  lemma LastPiece(u: seq<schar>, s: seq<schar>, start: nat)
    requires start <= |s|
    ensures Shift([], |u|) == [] && Within([], |u| + start, |u + s|) && Within([], start, |s|)
    ensures Pieces(u + s, |u| + start, []) == Pieces(s, start, [])
  {
    SliceOfSuffix(u, s, start, start);
  }

  lemma {:induction false} PiecesOfSuffix(u: seq<schar>, s: seq<schar>, start: nat, cs: seq<nat>)
    requires Within(cs, start, |s|)
    ensures Within(Shift(cs, |u|), |u| + start, |u + s|)
    ensures Pieces(u + s, |u| + start, Shift(cs, |u|)) == Pieces(s, start, cs)
    decreases |cs|
  {
    hide Pieces, Within, Shift;
    ShiftWithin(cs, |u|, start, |s|);
    if cs == [] {
      LastPiece(u, s, start);
    } else {
      PiecesUnfold(s, start, cs);
      PiecesUnfold(u + s, |u| + start, Shift(cs, |u|));
      SliceOfSuffix(u, s, start, cs[0] + 1);
      PiecesOfSuffix(u, s, cs[0] + 1, cs[1..]);
    }
  }

  lemma {:induction false} PiecesAfterCut(p: seq<schar>, start: nat, cs: seq<nat>, k: nat)
    requires Within(cs, start, |p|) && k < |cs|
    ensures Within(cs[k + 1..], cs[k] + 1, |p|) && |Pieces(p, start, cs)| > k
    ensures Pieces(p, start, cs)[k + 1..] == Pieces(p, cs[k] + 1, cs[k + 1..])
    decreases |cs|
  {
    hide Pieces, Within;
    PiecesUnfold(p, start, cs);
    var x, rest := p[start..cs[0] + 1], Pieces(p, cs[0] + 1, cs[1..]);
    if k == 0 {
      DropOfCons(x, rest, 0);
    } else {
      PiecesAfterCut(p, cs[0] + 1, cs[1..], k - 1);
      DropOfTail(cs, k);
      DropOfCons(x, rest, k);
    }
  }

  lemma DropOfTail<T>(s: seq<T>, k: nat)
    requires 0 < k < |s|
    ensures s[1..][k..] == s[k + 1..] && s[1..][k - 1] == s[k]
  {
  }

  lemma DropOfCons<T>(x: T, rest: seq<T>, k: nat)
    requires k <= |rest|
    ensures ([x] + rest)[k + 1..] == rest[k..]
    ensures k == 0 ==> rest[k..] == rest
  {
  }

  ghost function ChunksOf(p: seq<schar>): seq<seq<schar>> {
    CutsWithin(p);
    Pieces(p, 0, Cuts(p))
  }

  /** What chunk deduplication relies on: when two payloads end alike and both have a
      cut right before the common end, they have the same chunks from there on. */
  lemma SharedSuffixSharesChunks(u: seq<schar>, v: seq<schar>, s: seq<schar>, k: nat, l: nat)
    requires k < |Cuts(u + s)| && Cuts(u + s)[k] == |u| - 1
    requires l < |Cuts(v + s)| && Cuts(v + s)[l] == |v| - 1
    ensures |ChunksOf(u + s)| > k && |ChunksOf(v + s)| > l
    ensures ChunksOf(u + s)[k + 1..] == ChunksOf(s) == ChunksOf(v + s)[l + 1..]
  {
    ChunksAfterCut(u, s, k);
    ChunksAfterCut(v, s, l);
  }

  lemma ChunksAfterCut(u: seq<schar>, s: seq<schar>, k: nat)
    requires k < |Cuts(u + s)| && Cuts(u + s)[k] == |u| - 1
    ensures |ChunksOf(u + s)| > k && ChunksOf(u + s)[k + 1..] == ChunksOf(s)
  {
    CutsWithin(u + s);
    CutsWithin(s);
    CutsResynchronise(u, s, k);
    PiecesAfterCut(u + s, 0, Cuts(u + s), k);
    PiecesOfSuffix(u, s, 0, Cuts(s));
  }

  // ----- How many cuts -----

  lemma {:induction false} CutsAreFarOut(p: seq<schar>, k: nat)
    requires k < |Cuts(p)|
    ensures CHUNKSTEP * (k + 1) <= Cuts(p)[k] + 1 <= |p|
    decreases k
  {
    ScanIsGreedy(p, CHUNK_NUM - 1);
    assert Boundary(p, Cuts(p)[k]);
    if k > 0 {
      CutsAreFarOut(p, k - 1);
    }
  }

  lemma CutsAreFew(p: seq<schar>)
    ensures |Cuts(p)| <= |p| / CHUNKSTEP
  {
    if Cuts(p) != [] {
      CutsAreFarOut(p, |Cuts(p)| - 1);
    }
  }

  ghost function Zeros(n: nat): seq<schar> {
    seq(n, _ => 0)
  }

  lemma {:induction false} PolyOfZeros(n: nat)
    ensures Poly(Zeros(n)) == 0
  {
    if n > 0 {
      PolyOfZeros(n - 1);
      assert Zeros(n)[..n - 1] == Zeros(n - 1);
    }
  }

  lemma ZerosAreBoundaries(n: nat, i: nat)
    requires CHUNK_NUM - 1 <= i < n
    ensures Boundary(Zeros(n), i)
  {
    assert Window(Zeros(n), i) == Zeros(CHUNK_NUM);
    PolyOfZeros(CHUNK_NUM);
  }

  lemma {:induction false} ZerosAreCutOften(n: nat, i: nat)
    requires CHUNK_NUM - 1 <= i
    ensures |Scan(Zeros(n), i)| == if i < n then (n - 1 - i) / CHUNKSTEP + 1 else 0
    decreases n - i
  {
    if i < n {
      ZerosAreBoundaries(n, i);
      hide Boundary, Zeros;
      ZerosAreCutOften(n, i + CHUNKSTEP);
    }
  }

  /** The fifo is large enough for every payload of n bytes exactly when n is at most
      32799; a longer payload of zeros overflows it. */
  lemma FifoSuffices(n: nat)
    ensures (forall p: seq<schar> :: |p| == n ==> FirstSlots(Cuts(p)) == Cuts(p)) <==> n <= 32799
  {
    if n <= 32799 {
      forall p: seq<schar> | |p| == n ensures FirstSlots(Cuts(p)) == Cuts(p) {
        CutsAreFew(p);
      }
    } else {
      ZerosAreCutOften(n, CHUNK_NUM - 1);
      assert |FirstSlots(Cuts(Zeros(n)))| < |Cuts(Zeros(n))|;
    }
  }
}
