/** The sending side, model/send_module/nf_out.c: a payload is partitioned at its cuts,
    known segments are put on a replacement list, and the length accounting of the two
    passes has to agree.  Digests are uninterpreted; the table, of
    model/send_module/hash_table.c, maps the digests it has to their reference counts, refuses
    new entries above a limit, and loses what the timers of its buckets count down. */
module Outbound {
  import opened Chunk
  import opened ChunkCuts

  const SHALEN := 20
  const ITEM_CITE_ADD := 6
  const ITEM_CITE_FIND := 6

  datatype Segment = Segment(start: nat, len: nat)

  // A struct replace_item, end inclusive.
  datatype Item<D> = Item(start: nat, end: int, sha1: D)

  // The segments between cuts, from start to n.
  ghost function Tiles(start: nat, cuts: seq<nat>, n: nat): seq<Segment>
    requires Within(cuts, start, n)
    decreases |cuts|
  {
    if cuts == [] then if start < n then [Segment(start, n - start)] else []
    else [Segment(start, cuts[0] - start + 1)] + Tiles(cuts[0] + 1, cuts[1..], n)
  }

  // The segments follow each other without gap or overlap, from start to n.
  ghost predicate Tiling(segs: seq<Segment>, start: nat, n: nat) {
    if segs == [] then start == n
    else segs[0].start == start && segs[0].len > 0 && start + segs[0].len <= n
         && Tiling(segs[1..], start + segs[0].len, n)
  }

  lemma {:induction false} TilesTile(start: nat, cuts: seq<nat>, n: nat)
    requires Within(cuts, start, n)
    ensures Tiling(Tiles(start, cuts, n), start, n)
    decreases |cuts|
  {
    if cuts != [] {
      TilesTile(cuts[0] + 1, cuts[1..], n);
    }
  }

  function Slice(p: seq<schar>, g: Segment): seq<schar>
    requires g.start + g.len <= |p|
  {
    p[g.start..g.start + g.len]
  }

  ghost function Concat(ss: seq<seq<schar>>): seq<schar> {
    if ss == [] then [] else ss[0] + Concat(ss[1..])
  }

  /** The partition loses nothing: the pieces, in order, are the payload again. */
  lemma {:induction false} PiecesRejoin(p: seq<schar>, start: nat, cs: seq<nat>)
    requires Within(cs, start, |p|)
    ensures Concat(Pieces(p, start, cs)) == p[start..]
    decreases |cs|
  {
    if cs == [] {
      assert p[start..] + [] == p[start..];
    } else {
      PiecesRejoin(p, cs[0] + 1, cs[1..]);
      var piece, rest := p[start..cs[0] + 1], Pieces(p, cs[0] + 1, cs[1..]);
      assert ([piece] + rest)[1..] == rest;
      assert piece + p[cs[0] + 1..] == p[start..];
    }
  }

  // The segments are the pieces by position, and long where the cuts are far apart.
  lemma {:induction false} TilesArePieces(p: seq<schar>, start: nat, cs: seq<nat>, k: nat)
    requires Within(cs, start, |p|) && Spaced(cs) && (cs != [] ==> cs[0] + 1 >= start + CHUNKSTEP)
    ensures |Tiles(start, cs, |p|)| == |Pieces(p, start, cs)|
    ensures k < |Tiles(start, cs, |p|)| ==>
              var g := Tiles(start, cs, |p|)[k];
              && g.start + g.len <= |p| && Slice(p, g) == Pieces(p, start, cs)[k]
              && (k < |Tiles(start, cs, |p|)| - 1 ==> g.len >= CHUNKSTEP)
    decreases |cs|
  {
    hide Tiles, Pieces, Within, Spaced;
    if cs != [] {
      TilesUnfold(p, start, cs);
      PiecesUnfold(p, start, cs);
      SpacedTail(cs);
      TilesArePieces(p, cs[0] + 1, cs[1..], if k > 0 then k - 1 else 0);
    } else {
      LastTile(p, start);
    }
  }

  lemma TilesUnfold(p: seq<schar>, start: nat, cs: seq<nat>)
    requires Within(cs, start, |p|) && cs != []
    ensures Within(cs[1..], cs[0] + 1, |p|) && start <= cs[0] < |p|
    ensures Tiles(start, cs, |p|) == [Segment(start, cs[0] - start + 1)] + Tiles(cs[0] + 1, cs[1..], |p|)
  {
  }

  lemma SpacedTail(cs: seq<nat>)
    requires Spaced(cs) && cs != []
    ensures Spaced(cs[1..]) && (|cs| > 1 ==> cs[1..][0] + 1 >= cs[0] + 1 + CHUNKSTEP)
  {
  }

  lemma LastTile(p: seq<schar>, start: nat)
    requires Within([], start, |p|)
    ensures start <= |p| && Pieces(p, start, []) == if start < |p| then [p[start..]] else []
    ensures Tiles(start, [], |p|) == if start < |p| then [Segment(start, |p| - start)] else []
  {
  }

  // The state that get_partition threads through its calls.
  datatype Out<D> = Out(known: map<D, nat>, items: seq<Item<D>>, newLen: int)

  // One call of build_hash.
  ghost function Built<D(!new)>(sha1: seq<schar> -> D, limit: nat, p: seq<schar>, o: Out<D>, g: Segment): Out<D>
    requires g.start + g.len <= |p|
  {
    if g.len <= SHALEN + 2 then o
    else
      var d := sha1(Slice(p, g));
      if d in o.known then
        Out(o.known[d := o.known[d] + ITEM_CITE_FIND], o.items + [Item(g.start, g.start + g.len - 1, d)],
            o.newLen - (g.len - (SHALEN + 2)))
      else if |o.known| > limit then o
      else o.(known := o.known[d := ITEM_CITE_ADD])
  }

  ghost function BuiltAll<D(!new)>(sha1: seq<schar> -> D, limit: nat, p: seq<schar>, o: Out<D>, segs: seq<Segment>,
                                   start: nat): Out<D>
    requires Tiling(segs, start, |p|)
    decreases |segs|
  {
    if segs == [] then o
    else BuiltAll(sha1, limit, p, Built(sha1, limit, p, o, segs[0]), segs[1..], start + segs[0].len)
  }

  // The replacement list is in payload order inside [from, n).
  ghost predicate Ordered<D>(items: seq<Item<D>>, from: nat, n: nat) {
    if items == [] then from <= n
    else from <= items[0].start <= items[0].end < n && Ordered(items[1..], items[0].end + 1, n)
  }

  // What replace_skb saves with a digest in place of each listed segment.
  ghost function Saved<D>(items: seq<Item<D>>): int {
    if items == [] then 0 else (items[0].end - items[0].start + 1 - SHALEN) + Saved(items[1..])
  }

  lemma {:induction false} OrderedAppend<D>(items: seq<Item<D>>, from: nat, mid: nat, x: Item<D>, n: nat)
    requires Ordered(items, from, mid) && mid <= x.start <= x.end < n
    ensures Ordered(items + [x], from, n)
    ensures Saved(items + [x]) == Saved(items) + (x.end - x.start + 1 - SHALEN)
  {
    if items != [] {
      OrderedAppend(items[1..], items[0].end + 1, mid, x, n);
      assert (items + [x])[1..] == items[1..] + [x];
    } else {
      assert (items + [x])[1..] == [];
    }
  }

  lemma {:induction false} OrderedWiden<D>(items: seq<Item<D>>, from: nat, mid: nat, n: nat)
    requires Ordered(items, from, mid) && mid <= n
    ensures Ordered(items, from, n)
  {
    if items != [] {
      OrderedWiden(items[1..], items[0].end + 1, mid, n);
    }
  }

  // The two accounts of the packet length agree up to two bytes for each item.
  ghost predicate Balanced<D>(o: Out<D>, n: int) {
    o.newLen == n - Saved(o.items) + 2 * |o.items|
  }

  /** get_partition keeps its list in payload order and its length account balanced. */
  lemma {:induction false} BuiltAllBalanced<D(!new)>(sha1: seq<schar> -> D, limit: nat, p: seq<schar>, o: Out<D>,
                                                     segs: seq<Segment>, start: nat)
    requires Tiling(segs, start, |p|) && Ordered(o.items, 0, start) && Balanced(o, |p|)
    ensures Ordered(BuiltAll(sha1, limit, p, o, segs, start).items, 0, |p|)
    ensures Balanced(BuiltAll(sha1, limit, p, o, segs, start), |p|)
    decreases |segs|
  {
    if segs != [] {
      var g := segs[0];
      var o' := Built(sha1, limit, p, o, g);
      if o'.items != o.items {
        OrderedAppend(o.items, 0, start, Item(g.start, g.start + g.len - 1, sha1(Slice(p, g))), start + g.len);
      } else {
        OrderedWiden(o.items, 0, start, start + g.len);
      }
      BuiltAllBalanced(sha1, limit, p, o', segs[1..], start + g.len);
    }
  }

  lemma {:induction false} SavedFits<D>(items: seq<Item<D>>, from: nat, n: nat)
    requires Ordered(items, from, n)
    ensures Saved(items) + SHALEN * |items| <= n - from
  {
    if items != [] {
      SavedFits(items[1..], items[0].end + 1, n);
    }
  }

  // What the list becomes when every digest is known.
  ghost function LongItem<D(!new)>(sha1: seq<schar> -> D, p: seq<schar>, g: Segment): seq<Item<D>>
    requires g.start + g.len <= |p|
  {
    if g.len > SHALEN + 2 then [Item(g.start, g.start + g.len - 1, sha1(Slice(p, g)))] else []
  }

  ghost function LongItems<D(!new)>(sha1: seq<schar> -> D, p: seq<schar>, segs: seq<Segment>, start: nat): seq<Item<D>>
    requires Tiling(segs, start, |p|)
    decreases |segs|
  {
    if segs == [] then []
    else LongItem(sha1, p, segs[0]) + LongItems(sha1, p, segs[1..], start + segs[0].len)
  }

  // The digests of long segments.
  ghost predicate LongDigest<D(!new)>(sha1: seq<schar> -> D, p: seq<schar>, segs: seq<Segment>, d: D) {
    exists k :: 0 <= k < |segs| && SHALEN + 2 < segs[k].len && segs[k].start + segs[k].len <= |p|
      && d == sha1(Slice(p, segs[k]))
  }

  ghost predicate AllKnown<D(!new)>(sha1: seq<schar> -> D, p: seq<schar>, known: map<D, nat>, segs: seq<Segment>) {
    forall d :: LongDigest(sha1, p, segs, d) ==> d in known
  }

  lemma LongDigestCons<D(!new)>(sha1: seq<schar> -> D, p: seq<schar>, segs: seq<Segment>, d: D)
    requires segs != [] && segs[0].start + segs[0].len <= |p|
    ensures LongDigest(sha1, p, segs, d)
       <==> LongDigest(sha1, p, segs[1..], d) || (segs[0].len > SHALEN + 2 && d == sha1(Slice(p, segs[0])))
  {
    if LongDigest(sha1, p, segs[1..], d) {
      var k :| 0 <= k < |segs[1..]| && SHALEN + 2 < segs[1..][k].len && segs[1..][k].start + segs[1..][k].len <= |p|
        && d == sha1(Slice(p, segs[1..][k]));
      assert segs[1..][k] == segs[k + 1];
    }
    if LongDigest(sha1, p, segs, d) {
      var k :| 0 <= k < |segs| && SHALEN + 2 < segs[k].len && segs[k].start + segs[k].len <= |p|
        && d == sha1(Slice(p, segs[k]));
      assert k > 0 ==> segs[k] == segs[1..][k - 1];
    }
  }

  lemma AllKnownCons<D(!new)>(sha1: seq<schar> -> D, p: seq<schar>, known: map<D, nat>, segs: seq<Segment>)
    requires segs != [] && segs[0].start + segs[0].len <= |p|
    ensures AllKnown(sha1, p, known, segs)
       <==> AllKnown(sha1, p, known, segs[1..]) && (segs[0].len > SHALEN + 2 ==> sha1(Slice(p, segs[0])) in known)
  {
    forall d
      ensures LongDigest(sha1, p, segs, d)
         <==> LongDigest(sha1, p, segs[1..], d) || (segs[0].len > SHALEN + 2 && d == sha1(Slice(p, segs[0])))
    {
      LongDigestCons(sha1, p, segs, d);
    }
    hide LongDigest;
    if segs[0].len > SHALEN + 2 {
      assert LongDigest(sha1, p, segs, sha1(Slice(p, segs[0])));
    }
  }

  // One call of build_hash: the item it adds, if its digest is known.
  lemma BuiltItem<D(!new)>(sha1: seq<schar> -> D, limit: nat, p: seq<schar>, o: Out<D>, g: Segment)
    requires g.start + g.len <= |p|
    ensures var o1 := Built(sha1, limit, p, o, g);
            && (g.len > SHALEN + 2 && sha1(Slice(p, g)) !in o.known
                ==> |LongItem(sha1, p, g)| == 1 && o1.items == o.items)
            && (!(g.len > SHALEN + 2 && sha1(Slice(p, g)) !in o.known)
                ==> o1.items == o.items + LongItem(sha1, p, g) && o1.known.Keys == o.known.Keys)
  {
  }

  lemma {:induction false} ItemsAreFew<D(!new)>(sha1: seq<schar> -> D, limit: nat, p: seq<schar>, o: Out<D>,
                                                segs: seq<Segment>, start: nat)
    requires Tiling(segs, start, |p|)
    ensures |BuiltAll(sha1, limit, p, o, segs, start).items| <= |o.items| + |LongItems(sha1, p, segs, start)|
    decreases |segs|
  {
    if segs != [] {
      BuiltItem(sha1, limit, p, o, segs[0]);
      hide Built, LongItem;
      ItemsAreFew(sha1, limit, p, Built(sha1, limit, p, o, segs[0]), segs[1..], start + segs[0].len);
    }
  }

  /** Every segment longer than 22 bytes is replaced exactly when the digests of all of them
      are known beforehand: what is learned on the way comes too late for its first segment. */
  lemma {:induction false} ReplacesAllKnown<D(!new)>(sha1: seq<schar> -> D, limit: nat, p: seq<schar>, o: Out<D>,
                                                     segs: seq<Segment>, start: nat)
    requires Tiling(segs, start, |p|)
    ensures BuiltAll(sha1, limit, p, o, segs, start).items == o.items + LongItems(sha1, p, segs, start)
       <==> AllKnown(sha1, p, o.known, segs)
    decreases |segs|
  {
    if segs != [] {
      var g, tail := segs[0], LongItems(sha1, p, segs[1..], start + segs[0].len);
      var o1 := Built(sha1, limit, p, o, g);
      BuiltItem(sha1, limit, p, o, g);
      AllKnownCons(sha1, p, o.known, segs);
      hide Built, Slice, LongItem, LongDigest;
      if g.len > SHALEN + 2 && sha1(Slice(p, g)) !in o.known {
        ItemsAreFew(sha1, limit, p, o1, segs[1..], start + g.len);
      } else {
        ReplacesAllKnown(sha1, limit, p, o1, segs[1..], start + g.len);
        Reassociated(o.items, LongItem(sha1, p, g), tail);
      }
    }
  }

  lemma Reassociated<T>(a: seq<T>, b: seq<T>, c: seq<T>)
    ensures (a + b) + c == a + (b + c)
  {
  }

  // ----- The timers of the table -----

  // A tick of bucket b: what has counted down to 1 goes, the rest counts down.
  ghost function Ticked<D(!new)>(bkt: D -> nat, known: map<D, nat>, b: nat): map<D, nat> {
    map d | d in known && (bkt(d) != b || known[d] > 1) :: if bkt(d) == b then known[d] - 1 else known[d]
  }

  ghost function TickAll<D(!new)>(bkt: D -> nat, known: map<D, nat>, ticks: seq<nat>): map<D, nat> {
    if ticks == [] then known else TickAll(bkt, Ticked(bkt, known, ticks[0]), ticks[1..])
  }

  ghost function TicksOf(ticks: seq<nat>, b: nat): nat {
    if ticks == [] then 0 else (if ticks[0] == b then 1 else 0) + TicksOf(ticks[1..], b)
  }

  // A digest outlives fewer ticks of its bucket than its count.
  ghost predicate Outlives<D(!new)>(bkt: D -> nat, known: map<D, nat>, ticks: seq<nat>, d: D) {
    d in known && (TicksOf(ticks, bkt(d)) == 0 || TicksOf(ticks, bkt(d)) < known[d])
  }

  lemma {:induction false} KnownAfterTicks<D(!new)>(bkt: D -> nat, known: map<D, nat>, ticks: seq<nat>, d: D)
    ensures d in TickAll(bkt, known, ticks) <==> Outlives(bkt, known, ticks, d)
    decreases |ticks|
  {
    if ticks != [] {
      KnownAfterTicks(bkt, Ticked(bkt, known, ticks[0]), ticks[1..], d);
    }
  }

  /** A payload that is sent again after some ticks has every segment longer than 22 bytes
      replaced exactly when each of their digests was learned and has outlived the ticks of
      its bucket. */
  lemma SecondSendReplacesAll<D(!new)>(sha1: seq<schar> -> D, bkt: D -> nat, limit: nat, p: seq<schar>, o: Out<D>,
                                       segs: seq<Segment>, start: nat, ticks: seq<nat>)
    requires Tiling(segs, start, |p|)
    ensures var known := BuiltAll(sha1, limit, p, o, segs, start).known;
            var again := BuiltAll(sha1, limit, p, Out(TickAll(bkt, known, ticks), [], |p|), segs, start);
            again.items == LongItems(sha1, p, segs, start)
            <==> forall d :: LongDigest(sha1, p, segs, d) ==> Outlives(bkt, known, ticks, d)
  {
    hide LongDigest, Outlives, Built;
    var known := BuiltAll(sha1, limit, p, o, segs, start).known;
    var later := TickAll(bkt, known, ticks);
    forall d ensures d in later <==> Outlives(bkt, known, ticks, d) {
      KnownAfterTicks(bkt, known, ticks, d);
    }
    ReplacesAllKnown(sha1, limit, p, Out(later, [], |p|), segs, start);
    assert [] + LongItems(sha1, p, segs, start) == LongItems(sha1, p, segs, start);
  }

  lemma {:induction false} Remembers<D(!new)>(sha1: seq<schar> -> D, limit: nat, p: seq<schar>, o: Out<D>,
                                              segs: seq<Segment>, start: nat, d: D)
    requires Tiling(segs, start, |p|) && d in o.known && o.known[d] >= ITEM_CITE_ADD
    ensures var known := BuiltAll(sha1, limit, p, o, segs, start).known; d in known && known[d] >= ITEM_CITE_ADD
    decreases |segs|
  {
    if segs != [] {
      Remembers(sha1, limit, p, Built(sha1, limit, p, o, segs[0]), segs[1..], start + segs[0].len, d);
    }
  }

  lemma {:induction false} LearnsAll<D(!new)>(sha1: seq<schar> -> D, limit: nat, p: seq<schar>, o: Out<D>,
                                              segs: seq<Segment>, start: nat, d: D)
    requires Tiling(segs, start, |p|) && |o.known| + |segs| <= limit + 1 && LongDigest(sha1, p, segs, d)
    ensures var known := BuiltAll(sha1, limit, p, o, segs, start).known; d in known && known[d] >= ITEM_CITE_ADD
    decreases |segs|
  {
    if segs != [] {
      var g := segs[0];
      var o1 := Built(sha1, limit, p, o, g);
      LongDigestCons(sha1, p, segs, d);
      hide LongDigest;
      if g.len > SHALEN + 2 && d == sha1(Slice(p, g)) {
        Remembers(sha1, limit, p, o1, segs[1..], start + g.len, d);
      } else {
        KnownGrows(sha1, limit, p, o, g);
        LearnsAll(sha1, limit, p, o1, segs[1..], start + g.len, d);
      }
    }
  }

  lemma KnownGrows<D(!new)>(sha1: seq<schar> -> D, limit: nat, p: seq<schar>, o: Out<D>, g: Segment)
    requires g.start + g.len <= |p|
    ensures |Built(sha1, limit, p, o, g).known| <= |o.known| + 1
  {
    var d := sha1(Slice(p, g));
    if d in o.known {
      assert o.known[d := o.known[d] + ITEM_CITE_FIND].Keys == o.known.Keys;
    } else {
      assert o.known[d := ITEM_CITE_ADD].Keys == o.known.Keys + {d};
    }
  }

  /** So with room in the table, and no more than five ticks of any bucket, it has. */
  lemma FiveTicksAreHarmless<D(!new)>(sha1: seq<schar> -> D, bkt: D -> nat, limit: nat, p: seq<schar>, o: Out<D>,
                                      segs: seq<Segment>, start: nat, ticks: seq<nat>)
    requires Tiling(segs, start, |p|) && |o.known| + |segs| <= limit + 1
    requires forall b :: TicksOf(ticks, b) < ITEM_CITE_ADD
    ensures var known := BuiltAll(sha1, limit, p, o, segs, start).known;
            var again := BuiltAll(sha1, limit, p, Out(TickAll(bkt, known, ticks), [], |p|), segs, start);
            again.items == LongItems(sha1, p, segs, start)
  {
    hide LongDigest, Built;
    var known := BuiltAll(sha1, limit, p, o, segs, start).known;
    forall d | LongDigest(sha1, p, segs, d) ensures Outlives(bkt, known, ticks, d) {
      LearnsAll(sha1, limit, p, o, segs, start, d);
    }
    SecondSendReplacesAll(sha1, bkt, limit, p, o, segs, start, ticks);
  }

  ghost function Repeat(b: nat, n: nat): seq<nat> {
    seq(n, _ => b)
  }

  lemma {:induction false} TicksCountDown<D(!new)>(bkt: D -> nat, d: D, n: nat)
    requires n > 0
    ensures TickAll(bkt, map[d := n], Repeat(bkt(d), n)) == map[]
    decreases n
  {
    assert Repeat(bkt(d), n)[1..] == Repeat(bkt(d), n - 1);
    if n > 1 {
      assert Ticked(bkt, map[d := n], bkt(d)) == map[d := n - 1];
      TicksCountDown(bkt, d, n - 1);
    } else {
      assert Ticked(bkt, map[d := n], bkt(d)) == map[];
    }
  }

  // ----- The code -----

  // How get_partition cuts a payload: not at all up to CHUNK_NUM bytes.
  ghost function SegmentsOf(p: seq<schar>): (segs: seq<Segment>)
    ensures Tiling(segs, if |p| > CHUNK_NUM then 0 else |p|, |p|)
  {
    if |p| > CHUNK_NUM then
      FifoWithin(p);
      TilesTile(0, FirstSlots(Cuts(p)), |p|);
      Tiles(0, FirstSlots(Cuts(p)), |p|)
    else []
  }

  lemma FifoWithin(p: seq<schar>)
    ensures Within(FirstSlots(Cuts(p)), 0, |p|)
  {
    CutsWithin(p);
  }

  /** The segments of a payload are its chunks, as far as the fifo has room for their cuts,
      and every one but the last has at least CHUNKSTEP bytes. */
  lemma SegmentsAreLong(p: seq<schar>, k: nat)
    requires |p| > CHUNK_NUM && k < |SegmentsOf(p)|
    ensures Within(FirstSlots(Cuts(p)), 0, |p|) && |SegmentsOf(p)| == |Pieces(p, 0, FirstSlots(Cuts(p)))|
    ensures var g := SegmentsOf(p)[k];
            && g.start + g.len <= |p| && Slice(p, g) == Pieces(p, 0, FirstSlots(Cuts(p)))[k]
            && (k < |SegmentsOf(p)| - 1 ==> g.len >= CHUNKSTEP)
  {
    FifoWithin(p);
    ScanIsGreedy(p, CHUNK_NUM - 1);
    if Cuts(p) != [] {
      CutsAreFarOut(p, 0);
    }
    TilesArePieces(p, 0, FirstSlots(Cuts(p)), k);
  }

  lemma ZerosAreSegmented()
    ensures SegmentsOf(Zeros(33)) == [Segment(0, 32), Segment(32, 1)]
  {
    var p := Zeros(33);
    assert CHUNK_NUM == 32;
    ZerosAreCutOnce();
    TilesOfOne();
    hide Zeros, Cuts, Tiles, Tiling;
    FifoWithin(p);
  }

  lemma ZerosAreCutOnce()
    ensures |Zeros(33)| == 33 && FirstSlots(Cuts(Zeros(33))) == [31]
  {
    assert |Zeros(33)| == 33 && CHUNK_NUM == CHUNKSTEP == 32;
    ZerosAreBoundaries(33, 31);
    hide Zeros, Boundary, Scan;
    ScanUnfolds(Zeros(33), 31);
    ScanUnfolds(Zeros(33), 63);
  }

  lemma TilesOfOne()
    ensures Within([31], 0, 33) && Tiles(0, [31], 33) == [Segment(0, 32), Segment(32, 1)]
  {
    assert [31][1..] == [];
    assert Tiles(32, [], 33) == [Segment(32, 1)];
  }

  // What 33 bytes of zeros come to, given what is known.
  ghost function OfZeros<D(!new)>(sha1: seq<schar> -> D, limit: nat, known: map<D, nat>): Out<D> {
    BuiltAll(sha1, limit, Zeros(33), Out(known, [], 33), SegmentsOf(Zeros(33)), 0)
  }

  lemma OfZerosIs<D(!new)>(sha1: seq<schar> -> D, limit: nat, known: map<D, nat>)
    ensures OfZeros(sha1, limit, known) == Built(sha1, limit, Zeros(33), Out(known, [], 33), Segment(0, 32))
  {
    ZerosAreSegmented();
    var p, o := Zeros(33), Out(known, [], 33);
    var segs := [Segment(0, 32), Segment(32, 1)];
    var o1 := Built(sha1, limit, p, o, segs[0]);
    hide SegmentsOf, Cuts, Scan;
    assert segs[1..] == [Segment(32, 1)] && segs[1..][1..] == [];
    assert Built(sha1, limit, p, o1, Segment(32, 1)) == o1;
    assert BuiltAll(sha1, limit, p, o1, [], 33) == o1;
    assert BuiltAll(sha1, limit, p, o1, [Segment(32, 1)], 32) == o1;
  }

  /** Six ticks are not harmless: 33 bytes of zeros, new to the table, have a segment of 32,
      which is forgotten, and sent again they are not replaced. */
  lemma SixTicksForget<D(!new)>(sha1: seq<schar> -> D, bkt: D -> nat, limit: nat)
    ensures var b := bkt(sha1(Zeros(32)));
            var later := TickAll(bkt, OfZeros(sha1, limit, map[]).known, [b, b, b, b, b, b]);
            later == map[] && OfZeros(sha1, limit, later).items == []
  {
    var d := sha1(Zeros(32));
    assert Slice(Zeros(33), Segment(0, 32)) == Zeros(32);
    OfZerosIs(sha1, limit, map[]);
    hide OfZeros, Zeros, TickAll;
    assert OfZeros(sha1, limit, map[]).known == map[d := 6];
    TicksCountDown(bkt, d, 6);
    assert Repeat(bkt(d), 6) == [bkt(d), bkt(d), bkt(d), bkt(d), bkt(d), bkt(d)];
  }

  // o is what comes of handing the remaining segments to build_hash.
  ghost predicate LeftToBuild<D(!new)>(sha1: seq<schar> -> D, limit: nat, p: seq<schar>, now: Out<D>,
                                       cuts: seq<nat>, from: nat, o: Out<D>)
    requires Within(cuts, from, |p|)
  {
    TilesTile(from, cuts, |p|);
    o == BuiltAll(sha1, limit, p, now, Tiles(from, cuts, |p|), from)
  }

  lemma BuildNext<D(!new)>(sha1: seq<schar> -> D, limit: nat, p: seq<schar>, now: Out<D>,
                           cuts: seq<nat>, from: nat, o: Out<D>)
    requires Within(cuts, from, |p|) && cuts != [] && LeftToBuild(sha1, limit, p, now, cuts, from, o)
    ensures Within(cuts[1..], cuts[0] + 1, |p|)
    ensures LeftToBuild(sha1, limit, p, Built(sha1, limit, p, now, Segment(from, cuts[0] - from + 1)),
                        cuts[1..], cuts[0] + 1, o)
  {
    TilesTile(from, cuts, |p|);
  }

  lemma BuildLast<D(!new)>(sha1: seq<schar> -> D, limit: nat, p: seq<schar>, now: Out<D>, from: nat, o: Out<D>)
    requires from <= |p| && LeftToBuild(sha1, limit, p, now, [], from, o)
    ensures o == if from < |p| then Built(sha1, limit, p, now, Segment(from, |p| - from)) else now
  {
    if from < |p| {
      var g := Segment(from, |p| - from);
      assert Tiles(from, [], |p|) == [g] && [g][1..] == [];
      var o' := Built(sha1, limit, p, now, g);
      assert BuiltAll(sha1, limit, p, o', [], |p|) == o';
    }
  }

  class Sender<D(==, !new)> {
    const sha1: seq<schar> -> D
    const limit: nat // hash_max_count
    const rm: int
    const bkt: D -> nat // the bucket of a digest
    var known: map<D, nat>

    ghost predicate Valid()
      reads this
    {
      rm == Pow(R, CHUNK_NUM - 1) % Q
    }

    constructor (sha1: seq<schar> -> D, bkt: D -> nat, limit: nat)
      ensures Valid() && known == map[] && this.sha1 == sha1 && this.bkt == bkt && this.limit == limit
    {
      var q, r, z := InitHashParameters();
      this.sha1, this.bkt, this.limit, rm, known := sha1, bkt, limit, r, map[];
    }

    /** bucket_clear_item: each item of the bucket goes or counts down. */
    method BucketClearItem(b: nat)
      modifies this
      ensures known == Ticked(bkt, old(known), b)
    {
      ghost var was := known;
      var todo := set d | d in known && bkt(d) == b;
      while todo != {}
        invariant todo <= was.Keys && forall d :: d in todo ==> bkt(d) == b && d in known && known[d] == was[d]
        invariant forall d :: d in known ==> d in was
        invariant forall d :: d in was && d !in todo
                    ==> && (d in known <==> d in Ticked(bkt, was, b))
                        && (d in known ==> known[d] == Ticked(bkt, was, b)[d])
        decreases todo
      {
        var d :| d in todo;
        if known[d] <= 1 {
          known := known - {d};
        } else {
          known := known[d := known[d] - 1];
        }
        todo := todo - {d};
      }
    }

    method HandHash(len: nat, d: D, newLen: int) returns (hit: bool, newLen': int)
      modifies this
      ensures hit == (d in old(known))
      ensures newLen' == if hit then newLen - (len - 22) else newLen
      ensures known == if hit then old(known)[d := old(known)[d] + 6]
                       else if |old(known)| > limit then old(known) else old(known)[d := 6]
    {
      newLen' := newLen;
      if d !in known {
        if |known| <= limit {
          known := known[d := ITEM_CITE_ADD];
        }
        hit := false;
      } else {
        known := known[d := known[d] + ITEM_CITE_FIND];
        newLen' := newLen - (len - (SHALEN + 2));
        hit := true;
      }
    }

    method BuildHash(p: seq<schar>, start: nat, length: nat, items: seq<Item<D>>, newLen: int)
      returns (items': seq<Item<D>>, newLen': int)
      requires start + length <= |p|
      modifies this
      ensures length <= 22 ==> known == old(known) && items' == items && newLen' == newLen
      ensures length > 22 && sha1(p[start..start + length]) in old(known)
              ==> && items' == items + [Item(start, start + length - 1, sha1(p[start..start + length]))]
                  && newLen' == newLen - (length - 22)
      ensures length > 22 && sha1(p[start..start + length]) !in old(known) ==> items' == items && newLen' == newLen
      ensures length > 22 && sha1(p[start..start + length]) !in old(known) && |old(known)| <= limit
              ==> known == old(known)[sha1(p[start..start + length]) := 6]
      ensures Out(known, items', newLen')
           == Built(sha1, limit, p, Out(old(known), items, newLen), Segment(start, length))
    {
      items', newLen' := items, newLen;
      if length <= SHALEN + 2 {
        return;
      }
      var d := sha1(p[start..start + length]);
      var hit;
      hit, newLen' := HandHash(length, d, newLen);
      if hit {
        items' := items + [Item(start, start + length - 1, d)];
      }
    }

    // The loop over the fifo.
    method BuildFifo(p: seq<schar>, cuts: seq<nat>, newLen0: int, ghost o: Out<D>)
      returns (items: seq<Item<D>>, newLen: int, endPos: int)
      requires Within(cuts, 0, |p|) && LeftToBuild(sha1, limit, p, Out(known, [], newLen0), cuts, 0, o)
      modifies this
      ensures cuts != [] ==> 0 <= endPos < |p|
      ensures LeftToBuild(sha1, limit, p, Out(known, items, newLen), [], if cuts == [] then 0 else endPos + 1, o)
    {
      hide LeftToBuild, Built;
      items, newLen := [], newLen0;
      var fifo, startPos := cuts, 0;
      endPos := 0;
      var fifoLen := |fifo|;
      for i := 0 to fifoLen
        invariant fifo == cuts[i..]
        invariant i > 0 ==> endPos == cuts[i - 1]
        invariant Within(cuts[i..], if i == 0 then 0 else endPos + 1, |p|)
        invariant LeftToBuild(sha1, limit, p, Out(known, items, newLen), cuts[i..], if i == 0 then 0 else endPos + 1, o)
      {
        var value := fifo[0];
        fifo := fifo[1..];
        startPos := if i == 0 then 0 else endPos + 1;
        endPos := value;
        BuildNext(sha1, limit, p, Out(known, items, newLen), cuts[i..], startPos, o);
        assert cuts[i..][1..] == cuts[i + 1..];
        items, newLen := BuildHash(p, startPos, endPos - startPos + 1, items, newLen);
      }
      assert cuts[fifoLen..] == [];
    }

    /** get_partition hands each segment to build_hash once, in order; the result is
        that of the segments of the payload, and keeps the two length accounts. */
    method GetPartition(p: seq<schar>, newLen0: int) returns (items: seq<Item<D>>, newLen: int)
      requires Valid()
      modifies this
      ensures Out(known, items, newLen)
           == BuiltAll(sha1, limit, p, Out(old(known), [], newLen0), SegmentsOf(p), if |p| > CHUNK_NUM then 0 else |p|)
    {
      items, newLen := [], newLen0;
      if |p| > CHUNK_NUM {
        var fifo := CalculatePartition(p, rm, 63);
        FifoWithin(p);
        var fifoLen, startPos, endPos := |fifo|, 0, 0;
        ghost var o := BuiltAll(sha1, limit, p, Out(old(known), [], newLen0), SegmentsOf(p), 0);
        TilesTile(0, fifo, |p|);
        assert LeftToBuild(sha1, limit, p, Out(old(known), [], newLen0), fifo, 0, o);
        hide *;
        items, newLen, endPos := BuildFifo(p, fifo, newLen0, o);
        BuildLast(sha1, limit, p, Out(known, items, newLen), if fifoLen == 0 then 0 else endPos + 1, o);
        if fifoLen > 0 {
          if endPos != |p| - 1 {
            startPos := endPos + 1;
            endPos := |p| - 1;
            items, newLen := BuildHash(p, startPos, endPos - startPos + 1, items, newLen);
          }
        } else {
          startPos, endPos := 0, |p| - 1;
          items, newLen := BuildHash(p, startPos, endPos - startPos + 1, items, newLen);
        }
        assert Out(known, items, newLen) == o;
      }
    }

    /** replace_skb on a list in payload order: the branch that calls BUG() is not
        reached, and the final index is the old length less what the digests save.
        The index never passes that value on the way. */
    static method ReplaceSkb(items: seq<Item<D>>, oldLen: nat) returns (index: nat)
      requires Ordered(items, 0, oldLen)
      ensures index == oldLen - Saved(items)
    {
      index := 0;
      var last: nat := 0;
      SavedFits(items, 0, oldLen);
      assert items[0..] == items;
      for i := 0 to |items|
        invariant Ordered(items[i..], last, oldLen)
        invariant index == last - (Saved(items) - Saved(items[i..]))
        invariant 0 <= index <= oldLen - Saved(items)
      {
        var cp := items[i];
        assert items[i..][1..] == items[i + 1..] && items[i..][0] == cp;
        SavedFits(items[i + 1..], cp.end + 1, oldLen);
        if cp.start > last {
          index := index + (cp.start - last);
          index := index + SHALEN;
          last := cp.end + 1;
        } else if cp.start == last {
          index := index + SHALEN;
          last := cp.end + 1;
        } else {
          assert false;
        }
      }
      if last != oldLen {
        index := index + (oldLen - last);
      }
    }

    /** The hook's two passes together: the new length is never negative, and the
        rewritten payload with two more bytes for each replaced segment has exactly
        the new length. */
    method NfOut(p: seq<schar>) returns (items: seq<Item<D>>, newLen: int, index: nat)
      requires Valid()
      modifies this
      ensures Ordered(items, 0, |p|)
      ensures newLen >= 0
      ensures items != [] ==> index + 2 * |items| == newLen
      ensures items == [] ==> newLen == |p|
      ensures |p| <= 32 ==> items == [] && newLen == |p| && known == old(known)
      ensures Out(known, items, newLen)
           == BuiltAll(sha1, limit, p, Out(old(known), [], |p|), SegmentsOf(p), if |p| > CHUNK_NUM then 0 else |p|)
    {
      items, newLen := GetPartition(p, |p|);
      BuiltAllBalanced(sha1, limit, p, Out(old(known), [], |p|), SegmentsOf(p), if |p| > CHUNK_NUM then 0 else |p|);
      SavedFits(items, 0, |p|);
      index := 0;
      if items != [] {
        index := ReplaceSkb(items, |p|);
      }
    }
  }
}
