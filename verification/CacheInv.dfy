/** What every step of the chunk cache keeps: the states of items, the counts of
    references, the allocation of disk space, the bytes on disk and the counters. */
module CacheInv {
  import opened Chunk
  import opened CacheState

  // ----- The parts of the invariant -----

  ghost predicate NoDup<T>(s: seq<T>) {
    forall i, j :: 0 <= i < j < |s| ==> s[i] != s[j]
  }

  // The chains hold exactly the items, each in the bucket of its digest.
  ghost predicate Linked<Id>(cfg: Config, s: State<Id>) {
    && cfg.Ok() && |s.chains| == cfg.buckets && s.items.Keys <= s.born
    && (forall b :: 0 <= b < |s.chains| ==> NoDup(s.chains[b]))
    && (forall b, x :: 0 <= b < |s.chains| && x in s.chains[b] ==> x in s.items && s.items[x].bkt == b)
    && forall x :: x in s.items
        ==> s.items[x].bkt == cfg.hash(s.items[x].sha) < |s.chains| && x in s.chains[s.items[x].bkt]
  }

  // The five states.
  ghost predicate ItemOk(v: Item) {
    && v.len == |v.orig| && 0 <= v.flag <= 4 && v.share >= 1
    && (if v.style == -1 then v.data == [] else v.style == StyleFor(v.len) && |v.data| == v.len)
    && (v.flag == IN_MEMORY || v.flag == PINNED ==> v.cpuid == -1)
    && (v.flag == ON_DISK ==> v.cpuid >= 0 && v.style == -1)
    && (v.flag == TO_DISK ==> v.cpuid >= -1)
    && (v.flag == READ_BACK ==> v.cpuid >= 0 && if v.flagMem then v.data == v.orig && v.style >= 0 else v.share > 1)
    && (v.flag == IN_MEMORY || v.flag == TO_DISK || v.flag == PINNED ==> v.style >= 0 && v.data == v.orig)
    && (v.flagMem ==> v.flag == READ_BACK)
  }

  ghost predicate ItemsOk<Id>(s: State<Id>) {
    forall x :: x in s.items ==> ItemOk(s.items[x])
  }

  // share_ref is one more than the references held.
  ghost function RefsOf<Id>(readers: map<nat, Reader<Id>>, id: Id): set<nat> {
    set r | r in readers && readers[r].item == id
  }

  ghost predicate RefsCounted<Id>(s: State<Id>) {
    forall x :: x in s.items ==> s.items[x].share == 1 + |RefsOf(s.readers, x)|
  }

  // What a holder knows of its item.
  ghost predicate ReaderOk<Id>(s: State<Id>, r: nat)
    requires r in s.readers
  {
    var p := s.readers[r];
    p.item in s.items && Knows(p, s.items[p.item])
  }

  ghost predicate Knows<Id>(p: Reader<Id>, v: Item) {
    && (p.stage.Found? ==> v.flag != ON_DISK)
    && (!p.stage.Found? ==> v.flag == READ_BACK && p.cpu == v.cpuid)
    && (p.stage.Room? || p.stage.Loaded? || p.stage.Stored? ==> v.style >= 0)
    && (p.stage.Loaded? ==> p.stage.buf == v.orig)
    && (p.stage.Stored? ==> v.data == v.orig)
    && (p.stage.Filled? ==> v.flagMem)
  }

  ghost predicate ReadersOk<Id>(s: State<Id>) {
    forall r :: r in s.readers ==> ReaderOk(s, r)
  }

  // The disk units of live items: inside the used part, marked, and disjoint; and no
  // other unit is marked.
  ghost predicate Placed(v: Item, cpus: seq<Cpu>) {
    v.cpuid >= 0 ==> v.cpuid < |cpus| && v.start + Num(v.len) <= cpus[v.cpuid].index
                     && Region(v.start, v.len) <= cpus[v.cpuid].bits
  }

  ghost predicate Clear(v: Item, w: Item) {
    v.cpuid >= 0 && v.cpuid == w.cpuid ==> v.start + Num(v.len) <= w.start || w.start + Num(w.len) <= v.start
  }

  ghost predicate Owned<Id>(items: map<Id, Item>, c: int, b: nat) {
    exists x :: x in items && items[x].cpuid == c && Within(b, items[x].start, items[x].len)
  }

  ghost predicate SpaceOk<Id>(s: State<Id>) {
    && (forall x :: x in s.items ==> Placed(s.items[x], s.cpus))
    && (forall x, y :: x in s.items && y in s.items && x != y ==> Clear(s.items[x], s.items[y]))
    && forall c, b :: 0 <= c < |s.cpus| && b in s.cpus[c].bits ==> Owned(s.items, c, b)
  }

  // An item's bytes: in its CPU's file, or in the buffer of the run that is to write them.
  ghost predicate InFile(v: Item, p: Cpu) {
    && CHUNKSTEP * (v.start + Num(v.len)) <= p.loff && p.loff <= |p.file|
    && p.file[CHUNKSTEP * v.start..CHUNKSTEP * v.start + v.len] == v.orig
  }

  ghost predicate InBuffer(v: Item, p: Cpu) {
    && v.flag == TO_DISK && p.job.Selected? && p.job.bkt == v.bkt && v.len <= CHUNKSTEP * Num(v.len)
    && p.loff <= CHUNKSTEP * v.start && CHUNKSTEP * (v.start + Num(v.len)) <= p.loff + |p.job.buf|
    && p.job.buf[CHUNKSTEP * v.start - p.loff..CHUNKSTEP * v.start - p.loff + v.len] == v.orig
  }

  ghost predicate DiskOk<Id>(s: State<Id>) {
    forall x :: x in s.items && 0 <= s.items[x].cpuid < |s.cpus|
      ==> InFile(s.items[x], s.cpus[s.items[x].cpuid]) || InBuffer(s.items[x], s.cpus[s.items[x].cpuid])
  }

  // The file position is in step with bitmap_index, but for what a run still has to write.
  ghost predicate CpuOk(p: Cpu, buckets: nat) {
    && p.loff <= |p.file| && (!p.job.Idle? ==> p.job.bkt < buckets)
    && CHUNKSTEP * p.index == p.loff + if p.job.Selected? then |p.job.buf| else 0
  }

  ghost predicate CpusOk<Id>(s: State<Id>) {
    && (forall c :: 0 <= c < |s.cpus| ==> CpuOk(s.cpus[c], |s.chains|))
    && forall c, d :: 0 <= c < d < |s.cpus| && !s.cpus[c].job.Idle? && !s.cpus[d].job.Idle?
        ==> s.cpus[c].job.bkt != s.cpus[d].job.bkt
  }

  // ----- Totals over items -----

  ghost function Weight(v: Item, k: int): nat {
    if v.style == k then v.len else 0
  }

  ghost function Total<Id>(items: map<Id, Item>, k: int): nat
    decreases |items|
  {
    if items == map[] then 0 else
    var x :| x in items;
    Weight(items[x], k) + Total(items - {x}, k)
  }

  lemma {:induction false} TotalWithout<Id>(items: map<Id, Item>, k: int, x: Id)
    requires x in items
    ensures Total(items, k) == Weight(items[x], k) + Total(items - {x}, k)
    decreases |items|
  {
    var y :| y in items && Total(items, k) == Weight(items[y], k) + Total(items - {y}, k);
    if y != x {
      TotalWithout(items - {y}, k, x);
      TotalWithout(items - {x}, k, y);
      assert items - {y} - {x} == items - {x} - {y};
    }
  }

  lemma TotalWith<Id>(items: map<Id, Item>, k: int, x: Id, v: Item)
    ensures Total(items[x := v], k) == Weight(v, k) + Total(items - {x}, k)
    ensures x in items ==> Total(items, k) == Weight(items[x], k) + Total(items - {x}, k)
    ensures x !in items ==> items - {x} == items
  {
    TotalWithout(items[x := v], k, x);
    assert items[x := v] - {x} == items - {x};
    if x in items {
      TotalWithout(items, k, x);
    } else {
      assert items - {x} == items;
    }
  }

  // hash_count and the four memory counters.
  ghost predicate Tallied<Id>(s: State<Id>) {
    s.count == |s.items| && |s.mm| == 4 && forall k :: 0 <= k < 4 ==> s.mm[k] == Total(s.items, k)
  }

  ghost predicate Inv<Id>(cfg: Config, s: State<Id>) {
    && Linked(cfg, s) && ItemsOk(s) && RefsCounted(s) && ReadersOk(s)
    && SpaceOk(s) && DiskOk(s) && CpusOk(s) && Tallied(s)
  }

  // ----- Steps that change one item and leave it where it is -----

  ghost predicate SamePlace(v: Item, w: Item) {
    && w.bkt == v.bkt && w.sha == v.sha && w.len == v.len && w.orig == v.orig
    && w.cpuid == v.cpuid && w.start == v.start
  }

  // What is still to be written stays in the state of such items.
  ghost predicate KeepsWaiting(v: Item, w: Item) {
    v.cpuid >= 0 && v.flag == TO_DISK ==> w.flag == TO_DISK
  }

  ghost function Touched<Id>(s: State<Id>, x: Id, w: Item, readers: map<nat, Reader<Id>>, mm: seq<int>): State<Id> {
    s.(items := s.items[x := w], readers := readers, mm := mm)
  }

  lemma TouchKeepsLinks<Id>(cfg: Config, s: State<Id>, x: Id, w: Item, readers: map<nat, Reader<Id>>, mm: seq<int>)
    requires Linked(cfg, s) && x in s.items && SamePlace(s.items[x], w)
    ensures Linked(cfg, Touched(s, x, w, readers, mm))
  {
  }

  lemma TouchKeepsSpace<Id>(s: State<Id>, x: Id, w: Item, readers: map<nat, Reader<Id>>, mm: seq<int>)
    requires SpaceOk(s) && x in s.items && SamePlace(s.items[x], w)
    ensures SpaceOk(Touched(s, x, w, readers, mm))
  {
    var t := Touched(s, x, w, readers, mm);
    forall c, b | 0 <= c < |t.cpus| && b in t.cpus[c].bits
      ensures Owned(t.items, c, b)
    {
      assert Owned(s.items, c, b);
      var y :| y in s.items && s.items[y].cpuid == c && Within(b, s.items[y].start, s.items[y].len);
      assert y in t.items && t.items[y].cpuid == c && Within(b, t.items[y].start, t.items[y].len);
    }
  }

  lemma TouchKeepsDisk<Id>(s: State<Id>, x: Id, w: Item, readers: map<nat, Reader<Id>>, mm: seq<int>)
    requires DiskOk(s) && x in s.items && SamePlace(s.items[x], w)
    requires KeepsWaiting(s.items[x], w)
          || (0 <= s.items[x].cpuid < |s.cpus| && InFile(s.items[x], s.cpus[s.items[x].cpuid]))
    ensures DiskOk(Touched(s, x, w, readers, mm))
  {
  }

  lemma TouchKeepsTally<Id>(s: State<Id>, x: Id, w: Item, readers: map<nat, Reader<Id>>, mm: seq<int>)
    requires Tallied(s) && x in s.items && |mm| == 4
    requires forall k :: 0 <= k < 4 ==> mm[k] == s.mm[k] - Weight(s.items[x], k) + Weight(w, k)
    ensures Tallied(Touched(s, x, w, readers, mm))
  {
    forall k | 0 <= k < 4
      ensures mm[k] == Total(s.items[x := w], k)
    {
      TotalWith(s.items, k, x, w);
    }
  }

  // A holder comes, goes, or moves on.
  lemma RefsComeAndGo<Id>(readers: map<nat, Reader<Id>>, r: nat, p: Reader<Id>, x: Id)
    ensures r !in readers ==> |RefsOf(readers[r := p], x)| == |RefsOf(readers, x)| + if p.item == x then 1 else 0
    ensures r in readers && p.item == readers[r].item ==> RefsOf(readers[r := p], x) == RefsOf(readers, x)
    ensures r in readers
            ==> |RefsOf(readers - {r}, x)| == |RefsOf(readers, x)| - if readers[r].item == x then 1 else 0
  {
    if r !in readers {
      assert RefsOf(readers[r := p], x) == RefsOf(readers, x) + if p.item == x then {r} else {};
    } else {
      assert RefsOf(readers - {r}, x) == RefsOf(readers, x) - {r};
      if p.item == readers[r].item {
        assert RefsOf(readers[r := p], x) == RefsOf(readers, x);
      }
    }
  }
}
