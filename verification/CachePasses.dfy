/** The two passes of wr_file, with lookups in between: both hold only the read side of the
    bucket's lock, so an item may be cited after the first pass has counted it.  A tick
    takes the write side and waits. */
module CachePasses {
  import opened Bitmap
  import opened Bytes
  import opened CacheInv
  import opened CacheState
  import opened Chunk

  // The first pass, on one item.
  function Marked(v: Item): Item {
    if Eligible(v) then v.(cpuid := -2) else v
  }

  // The second pass, on one item: what becomes of it and of the CPU, and the units taken.
  datatype Visit = Visit(item: Item, cpu: Cpu, num: nat)

  ghost function Placing(v: Item, p: Cpu, c: nat, size: nat): Visit {
    if v.cpuid == -2 && v.flag == TO_DISK && v.share > 1 then Visit(v.(cpuid := -1), p, 0)
    else if v.cpuid == -2 && Eligible(v.(cpuid := -1)) then
      var at := FirstFit(p.bits, size, p.index, Num(v.len), 1);
      Visit(v.(cpuid := c, start := at), p.(bits := p.bits + Region(at, v.len), index := p.index + Num(v.len)),
            Num(v.len))
    else Visit(v, p, 0)
  }

  // The items of the bucket, and how far the worker has come with them.  memIndex is how
  // much of copy_mem is used.  The rest is history: what has been marked, what of it has
  // been cited before the second pass came to it, and what has been placed.
  datatype Passes = Passes(items: seq<Item>, cpu: Cpu, second: bool, k: nat, allSize: nat, memIndex: nat,
                           marked: set<nat>, hit: set<nat>, placed: set<nat>)

  // A move of the worker, or somebody who finds item i or lets go of it.
  datatype Event = Work | Cite(i: nat) | Leave(i: nat)

  ghost predicate Possible(s: Passes, e: Event) {
    match e
    case Work => s.k < |s.items| || (!s.second && s.allSize != 0)
    case Cite(i) => i < |s.items|
    case Leave(i) => i < |s.items| && s.items[i].share > 1
  }

  ghost function After(s: Passes, e: Event, c: nat, size: nat): Passes
    requires Possible(s, e)
  {
    match e
    case Work =>
      if s.k >= |s.items| then s.(second := true, k := 0)
      else
        var v := s.items[s.k];
        if !s.second then
          s.(items := s.items[s.k := Marked(v)], k := s.k + 1,
             allSize := s.allSize + if Eligible(v) then CHUNKSTEP * Num(v.len) else 0,
             marked := if Eligible(v) then s.marked + {s.k} else s.marked)
        else
          var g := Placing(v, s.cpu, c, size);
          s.(items := s.items[s.k := g.item], cpu := g.cpu, k := s.k + 1, memIndex := s.memIndex + CHUNKSTEP * g.num,
             placed := if g.num > 0 then s.placed + {s.k} else s.placed)
    case Cite(i) =>
      s.(items := s.items[i := Cited(s.items[i])],
         hit := if i in s.marked && !Visited(s, i) then s.hit + {i} else s.hit)
    case Leave(i) => s.(items := s.items[i := s.items[i].(share := s.items[i].share - 1)])
  }

  ghost predicate Reaches(s: Passes, events: seq<Event>, c: nat, size: nat, t: Passes)
    decreases |events|
  {
    if events == [] then s == t
    else Possible(s, events[0]) && Reaches(After(s, events[0], c, size), events[1..], c, size, t)
  }

  // The second pass has been at item i.
  ghost predicate Visited(s: Passes, i: nat) {
    s.second && i < s.k
  }

  ghost predicate Starts(s: Passes) {
    && s.k == 0 && !s.second && s.allSize == 0 && s.memIndex == 0 && s.marked == {} && s.hit == {} && s.placed == {}
    && forall i :: 0 <= i < |s.items| ==> s.items[i].share >= 1
  }

  // As every run should leave it.
  ghost predicate Unmarked(items: seq<Item>) {
    forall i :: 0 <= i < |items| ==> items[i].cpuid != -2
  }

  ghost predicate Ends(s: Passes) {
    s.k == |s.items| && (s.second || s.allSize == 0)
  }

  // ----- The units of some of the items -----

  ghost function Units(items: seq<Item>, some: set<nat>): nat {
    if items == [] then 0
    else Units(items[..|items| - 1], some) + if |items| - 1 in some then Num(items[|items| - 1].len) else 0
  }

  lemma {:induction false} UnitsSame(items: seq<Item>, after: seq<Item>, some: set<nat>)
    requires |items| == |after| && forall i :: 0 <= i < |items| ==> items[i].len == after[i].len
    ensures Units(items, some) == Units(after, some)
  {
    if items != [] {
      UnitsSame(items[..|items| - 1], after[..|items| - 1], some);
    }
  }

  lemma {:induction false} UnitsOfUnion(items: seq<Item>, a: set<nat>, b: set<nat>)
    requires a !! b
    ensures Units(items, a + b) == Units(items, a) + Units(items, b)
  {
    if items != [] {
      UnitsOfUnion(items[..|items| - 1], a, b);
    }
  }

  lemma {:induction false} UnitsOfOne(items: seq<Item>, i: nat)
    ensures Units(items, {i}) == if i < |items| then Num(items[i].len) else 0
  {
    if items != [] {
      UnitsOfOne(items[..|items| - 1], i);
    }
  }

  lemma {:induction false} UnitsOfNone(items: seq<Item>)
    ensures Units(items, {}) == 0
  {
    if items != [] {
      UnitsOfNone(items[..|items| - 1]);
    }
  }

  lemma UnitsOfMore(items: seq<Item>, after: seq<Item>, some: set<nat>, i: nat)
    requires |items| == |after| && (forall j :: 0 <= j < |items| ==> items[j].len == after[j].len)
    requires i < |items| && i !in some
    ensures Units(after, some + {i}) == Units(items, some) + Num(items[i].len)
  {
    UnitsSame(items, after, some);
    UnitsOfUnion(after, some, {i});
    UnitsOfOne(after, i);
  }

  lemma SomeUnits(items: seq<Item>, some: set<nat>)
    requires forall i :: i in some ==> i < |items|
    ensures Units(items, some) > 0 <==> some != {}
  {
    UnitsOfNone(items);
    if i :| i in some {
      UnitsOfUnion(items, some - {i}, {i});
      UnitsOfOne(items, i);
      assert some - {i} + {i} == some;
    }
  }

  // ----- What the moves keep -----

  // A marked item is fit to be placed unless somebody has cited it, and is placed then; a
  // mark from before may be taken for one of this run.
  ghost predicate MarkOk(s0: Passes, s: Passes, c: nat, i: nat)
    requires i < |s.items| == |s0.items|
  {
    var v := s.items[i];
    && v.share >= 1 && v.len == s0.items[i].len
    && (i in s.marked ==> MarkedOk(s, c, i) && s0.items[i].cpuid != -2)
    && (i !in s.marked && s0.items[i].cpuid == -2 ==> LeftOk(s, c, i))
    && (i !in s.marked && s0.items[i].cpuid != -2 ==> i !in s.placed && v.cpuid == s0.items[i].cpuid)
    && (i !in s.marked ==> i !in s.hit)
  }

  ghost predicate MarkedOk(s: Passes, c: nat, i: nat)
    requires i < |s.items|
  {
    var v := s.items[i];
    && v.flag == TO_DISK && (!s.second ==> i < s.k)
    && if Visited(s, i) then (i in s.placed <==> i !in s.hit) && if i in s.hit then -2 <= v.cpuid < 0 else v.cpuid == c
       else
         && v.cpuid == -2 && i !in s.placed
         && if i in s.hit then v.refcnt >= ITEM_VIP_LIMIT else Eligible(v.(cpuid := -1))
  }

  ghost predicate LeftOk(s: Passes, c: nat, i: nat)
    requires i < |s.items|
  {
    var v := s.items[i];
    if Visited(s, i) then if i in s.placed then v.cpuid == c else -2 <= v.cpuid < 0
    else i !in s.placed && v.cpuid == -2
  }

  ghost predicate Balanced(s0: Passes, s: Passes) {
    && s.allSize == CHUNKSTEP * Units(s.items, s.marked)
    && s.memIndex == CHUNKSTEP * Units(s.items, s.placed)
    && s.cpu.index == s0.cpu.index + Units(s.items, s.placed)
    && s.cpu.loff == s0.cpu.loff && s.cpu.file == s0.cpu.file
  }

  ghost predicate PassInv(s0: Passes, s: Passes, c: nat) {
    && s.k <= |s.items| == |s0.items| && Balanced(s0, s)
    && (forall i :: i in s.marked ==> i < |s.items|)
    && (forall i :: i in s.hit ==> i < |s.items|)
    && (forall i :: i in s.placed ==> i < |s.items|)
    && (forall i :: 0 <= i < |s.items| ==> MarkOk(s0, s, c, i))
  }

  // What holds of each item, item by item.
  lemma MarksStayOk(s0: Passes, s: Passes, e: Event, c: nat, size: nat, j: nat)
    requires PassInv(s0, s, c) && Possible(s, e) && j < |s.items|
    ensures |After(s, e, c, size).items| == |s.items| && MarkOk(s0, After(s, e, c, size), c, j)
  {
    hide FirstFit, Region, Balanced;
    assert MarkOk(s0, s, c, j);
  }

  lemma SizesStayBalanced(s0: Passes, s: Passes, e: Event, c: nat, size: nat)
    requires PassInv(s0, s, c) && Possible(s, e)
    ensures Balanced(s0, After(s, e, c, size))
  {
    hide FirstFit, Region, Units;
    var t := After(s, e, c, size);
    UnitsSame(s.items, t.items, s.marked);
    UnitsSame(s.items, t.items, s.placed);
    if e == Work && s.k < |s.items| {
      assert MarkOk(s0, s, c, s.k);
      if !s.second && Eligible(s.items[s.k]) {
        UnitsOfMore(s.items, t.items, s.marked, s.k);
      }
      if t.placed != s.placed {
        UnitsOfMore(s.items, t.items, s.placed, s.k);
      }
    }
  }

  lemma StepKeepsPassInv(s0: Passes, s: Passes, e: Event, c: nat, size: nat)
    requires PassInv(s0, s, c) && Possible(s, e)
    ensures PassInv(s0, After(s, e, c, size), c)
  {
    var t := After(s, e, c, size);
    SizesStayBalanced(s0, s, e, c, size);
    forall j | 0 <= j < |s.items|
      ensures |t.items| == |s.items| && MarkOk(s0, t, c, j)
    {
      MarksStayOk(s0, s, e, c, size, j);
    }
    hide MarkOk, Balanced, FirstFit, Region, Marked;
  }

  lemma {:induction false} PassInvReached(s0: Passes, s: Passes, events: seq<Event>, c: nat, size: nat, t: Passes)
    requires PassInv(s0, s, c) && Reaches(s, events, c, size, t)
    ensures PassInv(s0, t, c)
    decreases |events|
  {
    hide PassInv, After;
    if events != [] {
      StepKeepsPassInv(s0, s, events[0], c, size);
      PassInvReached(s0, After(s, events[0], c, size), events[1..], c, size, t);
    }
  }

  lemma StartsInv(s: Passes, c: nat)
    requires Starts(s)
    ensures PassInv(s, s, c)
  {
    UnitsOfNone(s.items);
    assert forall i :: 0 <= i < |s.items| ==> MarkOk(s, s, c, i);
  }

  // In the end each mark has been looked at.
  lemma AtEnd(s0: Passes, s: Passes, c: nat)
    requires PassInv(s0, s, c) && Ends(s)
    ensures forall i :: i in s.marked && i < |s.items| ==> Visited(s, i)
  {
    if !s.second {
      SomeUnits(s.items, s.marked);
    }
  }

  // ----- What the two passes come to -----

  // The marked items that have not been placed, and the items placed by a mark of before.
  ghost function Lost(s: Passes): set<nat> {
    set i | i in s.marked && i < |s.items| && s.items[i].cpuid < 0
  }

  ghost function Strays(s0: Passes, s: Passes, c: nat): set<nat> {
    set i: nat | 0 <= i < |s0.items| && i < |s.items| && s0.items[i].cpuid == -2 && s.items[i].cpuid == c
  }

  /** However lookups fall between the moves, and whatever marks there are at the start:
      what is copied is what has been counted, without the marked items that were not
      placed, and with the items that were placed by a mark from before. */
  lemma CopiedAgainstCounted(s0: Passes, events: seq<Event>, c: nat, size: nat, s: Passes)
    requires Starts(s0) && Reaches(s0, events, c, size, s) && Ends(s)
    ensures s.memIndex + CHUNKSTEP * Units(s.items, Lost(s)) == s.allSize + CHUNKSTEP * Units(s.items, Strays(s0, s, c))
    ensures s.memIndex == CHUNKSTEP * (s.cpu.index - s0.cpu.index) && s.cpu.loff == s0.cpu.loff
    ensures Lost(s) == s.hit
  {
    StartsInv(s0, c);
    PassInvReached(s0, s0, events, c, size, s);
    AtEnd(s0, s, c);
    var strays := Strays(s0, s, c);
    SetsAtEnd(s0, s, c);
    hide Units, PassInv, Lost, Strays, Starts, Ends, Reaches;
    UnitsOfUnion(s.items, s.marked - s.hit, strays);
    UnitsOfUnion(s.items, s.marked - s.hit, s.hit);
  }

  lemma SetsAtEnd(s0: Passes, s: Passes, c: nat)
    requires PassInv(s0, s, c) && Ends(s) && forall i :: i in s.marked && i < |s.items| ==> Visited(s, i)
    ensures s.placed == (s.marked - s.hit) + Strays(s0, s, c) && (s.marked - s.hit) !! Strays(s0, s, c)
    ensures s.marked == (s.marked - s.hit) + s.hit && Lost(s) == s.hit
    ensures Balanced(s0, s)
  {
    forall i: nat | i < |s.items|
      ensures i in Lost(s) <==> i in s.hit
      ensures i in s.placed <==> i in s.marked - s.hit || i in Strays(s0, s, c)
      ensures i in Strays(s0, s, c) ==> i !in s.marked
      ensures i in s.hit ==> i in s.marked
    {
      EndsRight(s0, s, c, i);
    }
    hide MarkOk, Balanced;
  }

  lemma EndsRight(s0: Passes, s: Passes, c: nat, i: nat)
    requires PassInv(s0, s, c) && Ends(s) && i < |s.items|
    requires i in s.marked ==> Visited(s, i)
    ensures i in Lost(s) <==> i in s.hit
    ensures i in s.placed <==> i in s.marked - s.hit || i in Strays(s0, s, c)
    ensures i in Strays(s0, s, c) ==> i !in s.marked
    ensures i in s.hit ==> i in s.marked
  {
    assert MarkOk(s0, s, c, i);
  }

  /** So copy_mem, which has room for what was counted, is too small exactly when the items
      placed by a mark from before need more units than the cited ones have left. */
  lemma CopyOverruns(s0: Passes, events: seq<Event>, c: nat, size: nat, s: Passes)
    requires Starts(s0) && Reaches(s0, events, c, size, s) && Ends(s)
    ensures s.memIndex > s.allSize <==> Units(s.items, Strays(s0, s, c)) > Units(s.items, s.hit)
  {
    CopiedAgainstCounted(s0, events, c, size, s);
  }

  /** From a start without marks: the size that is written is that of the units taken
      exactly when no item was cited with its mark on.  So the file position, which was in
      step with bitmap_index, is in step again after the write exactly then; otherwise it
      is ahead. */
  lemma WrittenIsPlaced(s0: Passes, events: seq<Event>, c: nat, size: nat, s: Passes)
    requires Starts(s0) && Unmarked(s0.items) && Reaches(s0, events, c, size, s) && Ends(s)
    requires CHUNKSTEP * s0.cpu.index == s0.cpu.loff
    ensures s.memIndex <= s.allSize && CHUNKSTEP * s.cpu.index <= s.cpu.loff + s.allSize
    ensures s.memIndex == s.allSize <==> s.hit == {}
    ensures CHUNKSTEP * s.cpu.index == s.cpu.loff + s.allSize <==> s.hit == {}
  {
    CopiedAgainstCounted(s0, events, c, size, s);
    assert Strays(s0, s, c) == {};
    UnitsOfNone(s.items);
    SomeUnits(s.items, Lost(s));
  }

  /** What becomes of the items: those that were marked and not cited with the mark on have
      their place on the CPU's disk, those that were cited have none and keep state 2, and
      the others are where they were, but for those with a mark from before. */
  lemma UncitedArePlaced(s0: Passes, events: seq<Event>, c: nat, size: nat, s: Passes, i: nat)
    requires Starts(s0) && Reaches(s0, events, c, size, s) && Ends(s) && i < |s0.items|
    ensures |s.items| == |s0.items|
    ensures i in s.marked && i in s.hit ==> s.items[i].flag == TO_DISK && s.items[i].cpuid < 0
    ensures i in s.marked && i !in s.hit ==> s.items[i].flag == TO_DISK && s.items[i].cpuid == c
    ensures i !in s.marked && s0.items[i].cpuid != -2 ==> s.items[i].cpuid == s0.items[i].cpuid
  {
    StartsInv(s0, c);
    PassInvReached(s0, s0, events, c, size, s);
    AtEnd(s0, s, c);
    assert MarkOk(s0, s, c, i);
  }

  ghost function Begun(items: seq<Item>, p: Cpu): Passes {
    Passes(items, p, false, 0, 0, 0, {}, {}, {})
  }

  ghost function ItemsOf<Id>(items: map<Id, Item>, ids: seq<Id>): seq<Item>
    requires forall x :: x in ids ==> x in items
  {
    seq(|ids|, k requires 0 <= k < |ids| => items[ids[k]])
  }

  /** Where each locked section is one step, every run of wr_file starts like this. */
  lemma RunsStartUnmarked<Id>(cfg: Config, s: State<Id>, b: nat, c: nat)
    requires Inv(cfg, s) && MayRun(s, b, c)
    ensures forall x :: x in s.chains[b] ==> x in s.items
    ensures Starts(Begun(ItemsOf(s.items, s.chains[b]), s.cpus[c])) && Unmarked(ItemsOf(s.items, s.chains[b]))
    ensures CHUNKSTEP * s.cpus[c].index == s.cpus[c].loff
  {
    hide SpaceOk, DiskOk, RefsCounted, ReadersOk, Tallied;
    forall k | 0 <= k < |s.chains[b]|
      ensures s.chains[b][k] in s.items && ItemOk(s.items[s.chains[b][k]])
    {
      assert s.chains[b][k] in s.chains[b];
    }
    assert CpuOk(s.cpus[c], |s.chains|);
  }

  // ----- Runs that go wrong -----

  /** One item is found, and let go of, between the passes: room for it is written, none
      is taken, and it stays marked.  If its count was the least, the next tick makes it
      fit to be placed again, mark and all. */
  lemma CitedBetweenPasses(v: Item, p: Cpu, c: nat, size: nat)
    requires Eligible(v)
    ensures var w := v.(refcnt := v.refcnt + ITEM_CITE_FIND, cpuid := -2);
            && Reaches(Begun([v], p), [Work, Work, Cite(0), Leave(0), Work], c, size,
                       Passes([w], p, true, 1, CHUNKSTEP * Num(v.len), 0, {0}, {0}, {}))
            && (v.refcnt == ITEM_DISK_LIMIT ==> Eligible(Aged(w).(cpuid := -1)))
  {
    var s0 := Begun([v], p);
    var s1 := After(s0, Work, c, size);
    var s2 := After(s1, Work, c, size);
    var s3 := After(s2, Cite(0), c, size);
    var s4 := After(s3, Leave(0), c, size);
    var s5 := After(s4, Work, c, size);
    assert s1.items == [v.(cpuid := -2)];
    assert s4.items == [v.(refcnt := v.refcnt + ITEM_CITE_FIND, cpuid := -2)] == s5.items;
    OneStep(s4, Work, [], c, size, s5);
    OneStep(s3, Leave(0), [Work], c, size, s5);
    OneStep(s2, Cite(0), [Leave(0), Work], c, size, s5);
    OneStep(s1, Work, [Cite(0), Leave(0), Work], c, size, s5);
    OneStep(s0, Work, [Work, Cite(0), Leave(0), Work], c, size, s5);
  }

  lemma OneStep(s: Passes, e: Event, rest: seq<Event>, c: nat, size: nat, t: Passes)
    requires Possible(s, e) && Reaches(After(s, e, c, size), rest, c, size, t)
    ensures Reaches(s, [e] + rest, c, size, t)
  {
    assert ([e] + rest)[1..] == rest;
  }

  /** Such a leftover is not counted by the next run but placed by it, so that more is
      copied than there is room for, lookups or not. */
  lemma LeftoverIsNotCounted(u: Item, w: Item, p: Cpu, c: nat, size: nat)
    requires u.cpuid == -2 && Eligible(u.(cpuid := -1)) && Eligible(w)
    ensures exists s :: Reaches(Begun([u, w], p), [Work, Work, Work, Work, Work], c, size, s) && Ends(s)
                        && s.allSize == CHUNKSTEP * Num(w.len) && s.memIndex == s.allSize + CHUNKSTEP * Num(u.len)
  {
    hide FirstFit, Region;
    var s0 := Begun([u, w], p);
    var s1 := After(s0, Work, c, size);
    assert s1.items == [u, w];
    var s2 := After(s1, Work, c, size);
    assert s2.items == [u, w.(cpuid := -2)];
    var s3 := After(s2, Work, c, size);
    var s4 := After(s3, Work, c, size);
    assert s4.items[1] == w.(cpuid := -2);
    var s5 := After(s4, Work, c, size);
    OneStep(s4, Work, [], c, size, s5);
    OneStep(s3, Work, [Work], c, size, s5);
    OneStep(s2, Work, [Work, Work], c, size, s5);
    OneStep(s1, Work, [Work, Work, Work], c, size, s5);
    OneStep(s0, Work, [Work, Work, Work, Work], c, size, s5);
  }

  ghost function Zeros(n: nat): seq<byte> {
    seq(n, _ => 0)
  }

  /** And where a run has written room for lost units, zeros all of it, the next item placed
      reads back as zeros: it is looked for at its place, and written behind the room. */
  lemma NextItemReadsZeros(lost: nat, w: Item, p: Cpu, c: nat, size: nat)
    requires CHUNKSTEP * p.index == p.loff <= |p.file| && Num(w.len) <= lost && |w.data| == w.len
    requires w.cpuid == -2 && Eligible(w.(cpuid := -1))
    requires (forall b :: b in p.bits ==> b < p.index) && p.index + Num(w.len) <= size
    ensures var n := CHUNKSTEP * lost;
            var p1 := p.(file := WrittenAt(p.file, p.loff, Zeros(n)), loff := p.loff + n);
            var g := Placing(w, p1, c, size);
            && g.num == Num(w.len) && p1.loff <= |p1.file|
            && FileSlice(WrittenAt(p1.file, p1.loff, Padded(w.data, CHUNKSTEP * Num(w.len))),
                         CHUNKSTEP * g.item.start, w.len) == Zeros(w.len)
  {
    var n, m := CHUNKSTEP * lost, CHUNKSTEP * Num(w.len);
    var p1 := p.(file := WrittenAt(p.file, p.loff, Zeros(n)), loff := p.loff + n);
    FirstFitInFreeTail(p1.bits, size, p1.index, Num(w.len));
    hide FirstFit;
    var g := Placing(w, p1, c, size);
    assert g.item.start == p.index;
    var f := WrittenAt(p1.file, p1.loff, Padded(w.data, m));
    assert f[p.loff..p.loff + w.len] == Zeros(n)[..w.len] == Zeros(w.len);
  }
}
