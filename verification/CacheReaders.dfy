/** Lookups and read-back keep the invariant of the chunk cache. */
module CacheReaders {
  import opened Bytes
  import opened CacheState
  import opened Chunk
  import opened CacheInv

  lemma TouchKeepsInv<Id>(cfg: Config, s: State<Id>, x: Id, w: Item, readers: map<nat, Reader<Id>>, mm: seq<int>)
    requires Inv(cfg, s) && x in s.items && SamePlace(s.items[x], w) && KeepsWaiting(s.items[x], w) && ItemOk(w)
             && |mm| == 4
    requires forall k :: 0 <= k < 4 ==> mm[k] == s.mm[k] - Weight(s.items[x], k) + Weight(w, k)
    requires RefsCounted(Touched(s, x, w, readers, mm)) && ReadersOk(Touched(s, x, w, readers, mm))
    ensures Inv(cfg, Touched(s, x, w, readers, mm))
  {
    hide Linked, SpaceOk, DiskOk, Tallied, RefsCounted, ReadersOk;
    TouchKeepsLinks(cfg, s, x, w, readers, mm);
    TouchKeepsSpace(s, x, w, readers, mm);
    TouchKeepsDisk(s, x, w, readers, mm);
    TallyShape(s);
    TouchKeepsTally(s, x, w, readers, mm);
    var t := Touched(s, x, w, readers, mm);
    assert CpusOk(t) by { hide ItemOk; }
    assert ItemsOk(t);
  }

  lemma TallyShape<Id>(s: State<Id>)
    requires Tallied(s)
    ensures |s.mm| == 4
  {
  }

  // A holder of x moves on, or appears, or is gone, while x becomes w.
  lemma CountsKept<Id>(s: State<Id>, x: Id, w: Item, r: nat, p: Reader<Id>, mm: seq<int>)
    requires RefsCounted(s) && x in s.items && p.item == x
    ensures r in s.readers && s.readers[r].item == x && w.share == s.items[x].share
            ==> RefsCounted(Touched(s, x, w, s.readers[r := p], mm))
    ensures r !in s.readers && w.share == s.items[x].share + 1
            ==> RefsCounted(Touched(s, x, w, s.readers[r := p], mm))
    ensures r in s.readers && s.readers[r].item == x && w.share == s.items[x].share - 1
            ==> RefsCounted(Touched(s, x, w, s.readers - {r}, mm))
  {
    forall y
      ensures r !in s.readers
              ==> |RefsOf(s.readers[r := p], y)| == |RefsOf(s.readers, y)| + if x == y then 1 else 0
      ensures r in s.readers && s.readers[r].item == x ==> RefsOf(s.readers[r := p], y) == RefsOf(s.readers, y)
      ensures r in s.readers && s.readers[r].item == x
              ==> |RefsOf(s.readers - {r}, y)| == |RefsOf(s.readers, y)| - if x == y then 1 else 0
    {
      RefsComeAndGo(s.readers, r, p, y);
    }
  }

  // The other holders still know what they knew.
  lemma KnowledgeKept<Id>(s: State<Id>, x: Id, w: Item, readers: map<nat, Reader<Id>>, r: nat, mm: seq<int>)
    requires ReadersOk(s) && x in s.items
    requires forall q :: q in readers && q != r ==> q in s.readers && readers[q] == s.readers[q]
    requires forall q :: q in s.readers && s.readers[q].item == x && Knows(s.readers[q], s.items[x])
               ==> Knows(s.readers[q], w)
    requires r in readers ==> readers[r].item == x && Knows(readers[r], w)
    ensures ReadersOk(Touched(s, x, w, readers, mm))
  {
    var t := Touched(s, x, w, readers, mm);
    forall q | q in t.readers
      ensures ReaderOk(t, q)
    {
      if q != r {
        assert ReaderOk(s, q);
      }
    }
  }

  // What the invariant says of one item, and of one holder.
  lemma OfItem<Id>(cfg: Config, s: State<Id>, x: Id)
    requires Inv(cfg, s) && x in s.items
    ensures ItemOk(s.items[x]) && s.items[x].share == 1 + |RefsOf(s.readers, x)| && |s.mm| == 4
    ensures forall k :: 0 <= k < 4 ==> s.mm[k] == s.mm[k] - Weight(s.items[x], k) + Weight(s.items[x], k)
  {
  }

  lemma OfReader<Id>(cfg: Config, s: State<Id>, r: nat)
    requires Inv(cfg, s) && r in s.readers
    ensures s.readers[r].item in s.items && Knows(s.readers[r], s.items[s.readers[r].item])
    ensures s.items[s.readers[r].item].share > 1
  {
    assert ReaderOk(s, r);
    OfItem(cfg, s, s.readers[r].item);
    assert r in RefsOf(s.readers, s.readers[r].item);
  }

  // One holder r of x, at p before it leaves or after it has moved on, while x becomes w.
  lemma StepOf<Id>(cfg: Config, s: State<Id>, x: Id, w: Item, r: nat, p: Reader<Id>, gone: bool, mm: seq<int>)
    requires Inv(cfg, s) && x in s.items && SamePlace(s.items[x], w) && KeepsWaiting(s.items[x], w) && ItemOk(w)
             && |mm| == 4
    requires forall k :: 0 <= k < 4 ==> mm[k] == s.mm[k] - Weight(s.items[x], k) + Weight(w, k)
    requires forall q :: q in s.readers && s.readers[q].item == x && Knows(s.readers[q], s.items[x])
               ==> Knows(s.readers[q], w)
    requires p.item == x && (!gone ==> Knows(p, w)) && (r in s.readers ==> s.readers[r].item == x)
             && (gone ==> r in s.readers)
    requires w.share == s.items[x].share + if gone then -1 else if r in s.readers then 0 else 1
    ensures Inv(cfg, Touched(s, x, w, if gone then s.readers - {r} else s.readers[r := p], mm))
  {
    hide ItemOk, Linked, SpaceOk, DiskOk, CpusOk, Tallied, RefsCounted, ReadersOk, SamePlace, KeepsWaiting, Knows,
         ItemsOk;
    var readers := if gone then s.readers - {r} else s.readers[r := p];
    CountsKept(s, x, w, r, p, mm);
    KnowledgeKept(s, x, w, readers, r, mm);
    TouchKeepsInv(cfg, s, x, w, readers, mm);
  }

  lemma HitKeeps<Id>(cfg: Config, s: State<Id>, r: nat, x: Id)
    requires Inv(cfg, s) && r !in s.readers && x in s.items
    ensures Inv(cfg, Hit(s, r, x))
  {
    hide Inv;
    OfItem(cfg, s, x);
    StepOf(cfg, s, x, Cited(s.items[x]), r, Reader(x, -1, Found), false, s.mm);
    assert Hit(s, r, x) == Touched(s, x, Cited(s.items[x]), s.readers[r := Reader(x, -1, Found)], s.mm);
  }

  /** A reference is given back either for an item that is not in state 4, or when the
      item's data is back in memory. */
  lemma DropKeeps<Id>(cfg: Config, s: State<Id>, r: nat)
    requires Inv(cfg, s) && r in s.readers && s.readers[r].item in s.items
    requires s.items[s.readers[r].item].flag != READ_BACK || s.items[s.readers[r].item].flagMem
    ensures Inv(cfg, Drop(s, r))
  {
    hide Inv;
    var x := s.readers[r].item;
    OfItem(cfg, s, x);
    OfReader(cfg, s, r);
    var w := s.items[x].(share := s.items[x].share - 1);
    StepOf(cfg, s, x, w, r, s.readers[r], true, s.mm);
    assert Drop(s, r) == Touched(s, x, w, s.readers - {r}, s.mm);
  }

  lemma AtStageKeeps<Id>(cfg: Config, s: State<Id>, r: nat, p: Reader<Id>)
    requires Inv(cfg, s) && r in s.readers && p.item == s.readers[r].item && p.item in s.items
    requires Knows(p, s.items[p.item])
    ensures Inv(cfg, s.(readers := s.readers[r := p]))
  {
    hide Inv;
    var x := p.item;
    OfItem(cfg, s, x);
    StepOf(cfg, s, x, s.items[x], r, p, false, s.mm);
    assert s.items[x := s.items[x]] == s.items;
    assert s.(readers := s.readers[r := p]) == Touched(s, x, s.items[x], s.readers[r := p], s.mm);
  }

  lemma ClassifyKeeps<Id>(cfg: Config, s: State<Id>, r: nat)
    requires Inv(cfg, s) && ReaderAt(s, r, Found)
    ensures Inv(cfg, Classify(s, r))
  {
    hide Inv;
    OfReader(cfg, s, r);
    var v := s.items[s.readers[r].item];
    if v.flag != READ_BACK {
      DropKeeps(cfg, s, r);
    } else {
      AtStageKeeps(cfg, s, r, s.readers[r].(cpu := v.cpuid, stage := Queued));
    }
  }

  lemma CheckKeeps<Id>(cfg: Config, s: State<Id>, r: nat)
    requires Inv(cfg, s) && ReaderAt(s, r, Queued)
    ensures Inv(cfg, ReadCheck(s, r))
  {
    hide Inv;
    OfReader(cfg, s, r);
    AtStageKeeps(cfg, s, r, s.readers[r].(stage := if s.items[s.readers[r].item].flagMem then Filled else Missing));
  }

  lemma AllocKeeps<Id>(cfg: Config, s: State<Id>, r: nat, mem: seq<byte>)
    requires Inv(cfg, s) && ReaderAt(s, r, Missing) && |mem| == s.items[s.readers[r].item].len
    ensures Inv(cfg, ReadAlloc(s, r, mem))
  {
    hide Inv;
    var x := s.readers[r].item;
    var v := s.items[x];
    OfItem(cfg, s, x);
    OfReader(cfg, s, r);
    var w, p := Alloc(v, mem), s.readers[r].(stage := Room);
    var mm := if v.style >= 0 then s.mm else Counted(s.mm, StyleFor(v.len), v.len);
    StepOf(cfg, s, x, w, r, p, false, mm);
    assert ReadAlloc(s, r, mem) == Touched(s, x, w, s.readers[r := p], mm);
  }

  /** What read_data gets from the file is what was first inserted. */
  lemma ReadsOriginal<Id>(cfg: Config, s: State<Id>, x: Id)
    requires Inv(cfg, s) && x in s.items && (s.items[x].flag == ON_DISK || s.items[x].flag == READ_BACK)
    ensures 0 <= s.items[x].cpuid < |s.cpus|
    ensures FileSlice(s.cpus[s.items[x].cpuid].file, s.items[x].start * CHUNKSTEP, s.items[x].len) == s.items[x].orig
  {
    hide Linked, RefsCounted, ReadersOk, CpusOk, Tallied;
    var v := s.items[x];
    assert ItemOk(v) && Placed(v, s.cpus);
    assert InFile(v, s.cpus[v.cpuid]);
  }

  lemma ReadKeeps<Id>(cfg: Config, s: State<Id>, r: nat)
    requires Inv(cfg, s) && ReaderAt(s, r, Room)
    ensures 0 <= s.readers[r].cpu < |s.cpus| && Inv(cfg, ReadFile(s, r))
  {
    hide Inv;
    var v := s.items[s.readers[r].item];
    OfReader(cfg, s, r);
    ReadsOriginal(cfg, s, s.readers[r].item);
    AtStageKeeps(cfg, s, r, s.readers[r].(stage :=
      Loaded(FileSlice(s.cpus[s.readers[r].cpu].file, v.start * CHUNKSTEP, v.len))));
  }

  lemma CopyKeeps<Id>(cfg: Config, s: State<Id>, r: nat)
    requires Inv(cfg, s) && r in s.readers && s.readers[r].item in s.items && s.readers[r].stage.Loaded?
    ensures Inv(cfg, ReadCopy(s, r))
  {
    hide Inv;
    var x := s.readers[r].item;
    OfItem(cfg, s, x);
    OfReader(cfg, s, r);
    var w, p := s.items[x].(data := s.readers[r].stage.buf), s.readers[r].(stage := Stored);
    StepOf(cfg, s, x, w, r, p, false, s.mm);
    assert ReadCopy(s, r) == Touched(s, x, w, s.readers[r := p], s.mm);
  }

  lemma MarkKeeps<Id>(cfg: Config, s: State<Id>, r: nat)
    requires Inv(cfg, s) && ReaderAt(s, r, Stored)
    ensures Inv(cfg, ReadMark(s, r))
  {
    hide Inv;
    var x := s.readers[r].item;
    OfItem(cfg, s, x);
    OfReader(cfg, s, r);
    var w, p := s.items[x].(flagMem := true), s.readers[r].(stage := Filled);
    StepOf(cfg, s, x, w, r, p, false, s.mm);
    assert ReadMark(s, r) == Touched(s, x, w, s.readers[r := p], s.mm);
  }
}
