/** The three sections of wr_file keep the invariant of the chunk cache. */
module CacheWriteBack {
  import opened Bitmap
  import opened CacheInv
  import opened CacheReaders
  import opened Bytes
  import opened CacheState
  import opened CacheTicks
  import opened Chunk

  // ----- Select and copy -----

  // All bits of a CPU are below its index, so the allocator stays at the index.
  lemma BitsBelowIndex<Id>(s: State<Id>, c: nat, b: nat)
    requires SpaceOk(s) && c < |s.cpus| && b in s.cpus[c].bits
    ensures b < s.cpus[c].index
  {
    assert Owned(s.items, c, b);
    var x :| x in s.items && s.items[x].cpuid == c && Within(b, s.items[x].start, s.items[x].len);
    assert Placed(s.items[x], s.cpus);
  }

  /** bitmap_find_next_zero_area always answers bitmap_index. */
  lemma AllocatesAtIndex<Id>(s: State<Id>, c: nat, size: nat, num: nat)
    requires SpaceOk(s) && c < |s.cpus| && s.cpus[c].index + num <= size
    ensures FirstFit(s.cpus[c].bits, size, s.cpus[c].index, num, 1) == s.cpus[c].index
  {
    forall b | b in s.cpus[c].bits
      ensures b < s.cpus[c].index
    {
      BitsBelowIndex(s, c, b);
    }
    FirstFitInFreeTail(s.cpus[c].bits, size, s.cpus[c].index, num);
  }

  // The CPU after it has taken an item.
  ghost function Took(p: Cpu, v: Item): Cpu
    requires p.job.Selected? && |v.data| <= CHUNKSTEP * Num(v.len)
  {
    p.(bits := p.bits + Region(p.index, v.len), index := p.index + Num(v.len),
       job := p.job.(buf := p.job.buf + Padded(v.data, CHUNKSTEP * Num(v.len))))
  }

  ghost function Taken<Id>(s: State<Id>, c: nat, x: Id): State<Id>
    requires c < |s.cpus| && x in s.items && s.cpus[c].job.Selected?
    requires |s.items[x].data| <= CHUNKSTEP * Num(s.items[x].len)
  {
    s.(items := s.items[x := s.items[x].(cpuid := c, start := s.cpus[c].index)],
       cpus := s.cpus[c := Took(s.cpus[c], s.items[x])])
  }

  ghost predicate MayTake<Id>(s: State<Id>, c: nat, x: Id) {
    && c < |s.cpus| && x in s.items && s.cpus[c].job.Selected? && s.cpus[c].job.bkt == s.items[x].bkt
    && Eligible(s.items[x]) && ItemOk(s.items[x])
  }

  lemma TakenKeepsSpace<Id>(s: State<Id>, c: nat, x: Id)
    requires SpaceOk(s) && MayTake(s, c, x)
    ensures SpaceOk(Taken(s, c, x))
  {
    var t := Taken(s, c, x);
    forall d, b | 0 <= d < |t.cpus| && b in t.cpus[d].bits
      ensures Owned(t.items, d, b)
    {
      if d == c && b in Region(s.cpus[c].index, s.items[x].len) {
        assert x in t.items && t.items[x].cpuid == d && Within(b, t.items[x].start, t.items[x].len);
      } else {
        assert Owned(s.items, d, b);
        var y :| y in s.items && s.items[y].cpuid == d && Within(b, s.items[y].start, s.items[y].len);
        assert y in t.items && t.items[y] == s.items[y];
      }
    }
    forall y | y in t.items
      ensures Placed(t.items[y], t.cpus) && (y != x ==> Clear(t.items[x], t.items[y]) && Clear(t.items[y], t.items[x]))
    {
      assert Placed(s.items[y], s.cpus);
    }
  }

  lemma TookInBuffer(v: Item, p: Cpu, c: nat, buckets: nat)
    requires p.job.Selected? && p.job.bkt == v.bkt && CpuOk(p, buckets) && Eligible(v) && ItemOk(v)
    ensures InBuffer(v.(cpuid := c, start := p.index), Took(p, v))
  {
    var q := Took(p, v);
    assert q.job.buf[|p.job.buf|..|p.job.buf| + v.len] == v.data;
  }

  lemma StaysOnDisk(w: Item, p: Cpu, v: Item)
    requires p.job.Selected? && (InFile(w, p) || InBuffer(w, p)) && |v.data| <= CHUNKSTEP * Num(v.len)
    ensures InFile(w, Took(p, v)) || InBuffer(w, Took(p, v))
  {
    var q := Took(p, v);
    if InBuffer(w, p) {
      var at := CHUNKSTEP * w.start - p.loff;
      assert q.job.buf[at..at + w.len] == p.job.buf[at..at + w.len];
    }
  }

  lemma TakenKeepsDisk<Id>(s: State<Id>, c: nat, x: Id)
    requires DiskOk(s) && CpusOk(s) && MayTake(s, c, x)
    ensures DiskOk(Taken(s, c, x))
  {
    var t := Taken(s, c, x);
    var p, q, v := s.cpus[c], t.cpus[c], s.items[x];
    assert CpuOk(p, |s.chains|);
    hide InFile, InBuffer, CpuOk, Took;
    forall y | y in t.items && 0 <= t.items[y].cpuid < |t.cpus|
      ensures InFile(t.items[y], t.cpus[t.items[y].cpuid]) || InBuffer(t.items[y], t.cpus[t.items[y].cpuid])
    {
      var w := t.items[y];
      if y == x {
        TookInBuffer(v, p, c, |s.chains|);
      } else if w.cpuid == c {
        StaysOnDisk(w, p, v);
      }
    }
  }

  lemma TakenKeepsLinks<Id>(cfg: Config, s: State<Id>, c: nat, x: Id)
    requires Linked(cfg, s) && ItemsOk(s) && MayTake(s, c, x)
    ensures Linked(cfg, Taken(s, c, x)) && ItemsOk(Taken(s, c, x))
  {
    assert ItemOk(Taken(s, c, x).items[x]);
    hide ItemOk;
  }

  lemma TakenKeepsReaders<Id>(s: State<Id>, c: nat, x: Id)
    requires RefsCounted(s) && ReadersOk(s) && MayTake(s, c, x)
    ensures RefsCounted(Taken(s, c, x)) && ReadersOk(Taken(s, c, x))
  {
    var t := Taken(s, c, x);
    forall r | r in t.readers
      ensures ReaderOk(t, r)
    {
      assert ReaderOk(s, r);
      Unshared(s, x, r);
    }
  }

  lemma TakenKeepsCpus<Id>(s: State<Id>, c: nat, x: Id)
    requires CpusOk(s) && MayTake(s, c, x)
    ensures CpusOk(Taken(s, c, x))
  {
    assert CpuOk(Took(s.cpus[c], s.items[x]), |s.chains|) by {
      assert CpuOk(s.cpus[c], |s.chains|);
    }
    hide CpuOk;
  }

  lemma TakenKeepsTally<Id>(s: State<Id>, c: nat, x: Id)
    requires Tallied(s) && MayTake(s, c, x)
    ensures Tallied(Taken(s, c, x))
  {
    forall k | 0 <= k < 4
      ensures Total(Taken(s, c, x).items, k) == Total(s.items, k)
    {
      TotalWith(s.items, k, x, Taken(s, c, x).items[x]);
    }
  }

  lemma TakenKeeps<Id>(cfg: Config, s: State<Id>, c: nat, x: Id)
    requires Inv(cfg, s) && MayTake(s, c, x)
    ensures Inv(cfg, Taken(s, c, x))
  {
    hide Linked, SpaceOk, DiskOk, CpusOk, Tallied, RefsCounted, ReadersOk, ItemsOk, MayTake;
    TakenKeepsLinks(cfg, s, c, x);
    TakenKeepsReaders(s, c, x);
    TakenKeepsCpus(s, c, x);
    TakenKeepsSpace(s, c, x);
    TakenKeepsDisk(s, c, x);
    TakenKeepsTally(s, c, x);
  }

  // What the first section has done to the items of ids, and what it has left.
  ghost predicate Selecting<Id>(s: State<Id>, t: State<Id>, b: nat, c: nat, ids: seq<Id>) {
    && c < |s.cpus| && |t.cpus| == |s.cpus| && t.chains == s.chains && t.items.Keys == s.items.Keys
    && t.cpus[c].job.Selected? && t.cpus[c].job.bkt == b
    && t.cpus[c].index == s.cpus[c].index + Need(s.items, ids)
    && forall x :: x in s.items && x !in ids ==> t.items[x] == s.items[x]
  }

  lemma {:induction false} NeedGrows<Id>(items: map<Id, Item>, ids: seq<Id>, k: nat)
    requires k <= |ids|
    ensures Need(items, ids[..k]) <= Need(items, ids)
    decreases |ids|
  {
    if k < |ids| {
      NeedGrows(items, ids[..|ids| - 1], k);
      assert ids[..|ids| - 1][..k] == ids[..k];
    } else {
      assert ids[..k] == ids;
    }
  }

  lemma SelectOneKeeps<Id>(cfg: Config, s: State<Id>, t: State<Id>, b: nat, c: nat, ids: seq<Id>, x: Id)
    requires Inv(cfg, t) && Selecting(s, t, b, c, ids) && x !in ids && b < |s.chains| && x in s.chains[b]
    requires s.cpus[c].index + Need(s.items, ids + [x]) <= cfg.size
    ensures Inv(cfg, SelectOne(t, c, cfg.size, x)) && Selecting(s, SelectOne(t, c, cfg.size, x), b, c, ids + [x])
  {
    hide Inv;
    assert (ids + [x])[..|ids|] == ids;
    ChainOf(cfg, t, b, x);
    OfItem(cfg, t, x);
    if Eligible(t.items[x]) {
      MayTakeIt(t, c, x);
      hide ItemOk, Eligible;
      assert SpaceOk(t) by { InvHasSpace(cfg, t); }
      hide SpaceOk;
      AllocatesAtIndex(t, c, cfg.size, Num(t.items[x].len));
      TakenKeeps(cfg, t, c, x);
      assert SelectOne(t, c, cfg.size, x) == Taken(t, c, x);
    }
  }

  lemma InvHasSpace<Id>(cfg: Config, s: State<Id>)
    requires Inv(cfg, s)
    ensures SpaceOk(s)
  {
    hide SpaceOk;
  }

  lemma ChainOf<Id>(cfg: Config, s: State<Id>, b: nat, x: Id)
    requires Inv(cfg, s) && b < |s.chains| && x in s.chains[b]
    ensures x in s.items && s.items[x].bkt == b && NoDup(s.chains[b])
  {
  }

  lemma MayTakeIt<Id>(s: State<Id>, c: nat, x: Id)
    requires c < |s.cpus| && x in s.items && s.cpus[c].job.Selected? && s.cpus[c].job.bkt == s.items[x].bkt
    requires Eligible(s.items[x]) && ItemOk(s.items[x])
    ensures MayTake(s, c, x) && |s.items[x].data| <= CHUNKSTEP * Num(s.items[x].len)
  {
  }

  lemma {:induction false} SelectAllKeeps<Id>(cfg: Config, s: State<Id>, b: nat, c: nat, k: nat)
    requires Inv(cfg, s) && b < |s.chains| && k <= |s.chains[b]| && c < |s.cpus|
    requires s.cpus[c].job.Selected? && s.cpus[c].job.bkt == b
    requires s.cpus[c].index + Need(s.items, s.chains[b]) <= cfg.size
    ensures Inv(cfg, SelectAll(s, c, cfg.size, s.chains[b][..k]))
    ensures Selecting(s, SelectAll(s, c, cfg.size, s.chains[b][..k]), b, c, s.chains[b][..k])
  {
    hide Inv;
    var ids := s.chains[b][..k];
    if k > 0 {
      var x := s.chains[b][k - 1];
      SelectAllKeeps(cfg, s, b, c, k - 1);
      assert ids[..k - 1] == s.chains[b][..k - 1] && ids == s.chains[b][..k - 1] + [x];
      NeedGrows(s.items, s.chains[b], k);
      NotBefore(cfg, s, b, k - 1);
      SelectOneKeeps(cfg, s, SelectAll(s, c, cfg.size, s.chains[b][..k - 1]), b, c, s.chains[b][..k - 1], x);
    }
  }

  lemma NotBefore<Id>(cfg: Config, s: State<Id>, b: nat, k: nat)
    requires Inv(cfg, s) && b < |s.chains| && k < |s.chains[b]|
    ensures s.chains[b][k] !in s.chains[b][..k]
  {
    assert NoDup(s.chains[b]);
  }

  // Nothing but the CPUs changes, and none goes.
  lemma CpusAside<Id>(cfg: Config, s: State<Id>, t: State<Id>)
    requires Linked(cfg, s) && ItemsOk(s) && RefsCounted(s) && ReadersOk(s) && Tallied(s) && t == s.(cpus := t.cpus)
    ensures Linked(cfg, t) && ItemsOk(t) && RefsCounted(t) && ReadersOk(t) && Tallied(t)
  {
    hide ItemOk, Knows;
    forall r | r in t.readers
      ensures ReaderOk(t, r)
    {
      assert ReaderOk(s, r);
    }
  }

  // Only a CPU's job changes, between jobs with nothing still to write.
  lemma WithJobKeeps<Id>(cfg: Config, s: State<Id>, c: nat, job: Job)
    requires Inv(cfg, s) && c < |s.cpus| && (!job.Idle? ==> job.bkt < |s.chains|)
    requires s.cpus[c].job.Selected? ==> s.cpus[c].job.buf == []
    requires job.Selected? ==> job.buf == []
    requires !job.Idle?
             ==> forall d :: 0 <= d < |s.cpus| && d != c && !s.cpus[d].job.Idle? ==> s.cpus[d].job.bkt != job.bkt
    ensures Inv(cfg, WithJob(s, c, job))
  {
    hide Linked, SpaceOk, DiskOk, CpusOk, Tallied, RefsCounted, ReadersOk, ItemsOk;
    WithJobKeepsSpace(s, c, job);
    WithJobKeepsDisk(s, c, job);
    WithJobKeepsCpus(s, c, job);
    CpusAside(cfg, s, WithJob(s, c, job));
  }

  lemma WithJobKeepsSpace<Id>(s: State<Id>, c: nat, job: Job)
    requires SpaceOk(s) && c < |s.cpus|
    ensures SpaceOk(WithJob(s, c, job))
  {
    var t := WithJob(s, c, job);
    forall d, b | 0 <= d < |t.cpus| && b in t.cpus[d].bits
      ensures Owned(t.items, d, b)
    {
      assert Owned(s.items, d, b);
    }
  }

  lemma WithJobKeepsDisk<Id>(s: State<Id>, c: nat, job: Job)
    requires DiskOk(s) && c < |s.cpus| && (s.cpus[c].job.Selected? ==> s.cpus[c].job.buf == [])
    ensures DiskOk(WithJob(s, c, job))
  {
    var t := WithJob(s, c, job);
    forall x | x in t.items && 0 <= t.items[x].cpuid < |t.cpus|
      ensures InFile(t.items[x], t.cpus[t.items[x].cpuid]) || InBuffer(t.items[x], t.cpus[t.items[x].cpuid])
    {
      var v := s.items[x];
      if v.cpuid == c {
        assert !InBuffer(v, s.cpus[c]);
        assert InFile(v, s.cpus[c]);
      }
    }
  }

  lemma WithJobKeepsCpus<Id>(s: State<Id>, c: nat, job: Job)
    requires CpusOk(s) && c < |s.cpus| && (!job.Idle? ==> job.bkt < |s.chains|)
    requires s.cpus[c].job.Selected? ==> s.cpus[c].job.buf == []
    requires job.Selected? ==> job.buf == []
    requires !job.Idle?
             ==> forall d :: 0 <= d < |s.cpus| && d != c && !s.cpus[d].job.Idle? ==> s.cpus[d].job.bkt != job.bkt
    ensures CpusOk(WithJob(s, c, job))
  {
    var t := WithJob(s, c, job);
    forall d | 0 <= d < |t.cpus|
      ensures CpuOk(t.cpus[d], |t.chains|)
    {
      assert CpuOk(s.cpus[d], |s.chains|);
    }
  }

  lemma SelectKeeps<Id>(cfg: Config, s: State<Id>, b: nat, c: nat)
    requires Inv(cfg, s) && MayRun(s, b, c) && s.cpus[c].index + Need(s.items, s.chains[b]) <= cfg.size
    ensures Inv(cfg, Select(s, b, c, cfg.size))
  {
    hide Inv;
    var s0 := WithJob(s, c, Selected(b, []));
    WithJobKeeps(cfg, s, c, Selected(b, []));
    var ids := s0.chains[b];
    assert ids == ids[..|ids|];
    SelectAllKeeps(cfg, s0, b, c, |ids|);
    var s1 := SelectAll(s0, c, cfg.size, ids);
    if s1.cpus[c].job.buf == [] {
      WithJobKeeps(cfg, s1, c, Idle);
    }
  }

  // ----- Write -----

  // Bytes below the old position stay, and the buffer follows them.
  lemma WrittenParts(file: seq<byte>, pos: nat, buf: seq<byte>, i: nat, j: nat)
    requires pos <= |file| && i <= j
    ensures |WrittenAt(file, pos, buf)| >= pos + |buf|
    ensures j <= pos ==> WrittenAt(file, pos, buf)[i..j] == file[i..j]
    ensures pos <= i && j <= pos + |buf| ==> WrittenAt(file, pos, buf)[i..j] == buf[i - pos..j - pos]
  {
    SliceOfThree(file[..pos], buf, if pos + |buf| <= |file| then file[pos + |buf|..] else [], i, j);
    if j <= pos {
      assert file[..pos][i..j] == file[i..j];
    }
  }

  lemma SliceOfThree<T>(a: seq<T>, b: seq<T>, c: seq<T>, i: nat, j: nat)
    requires i <= j
    ensures j <= |a| ==> (a + b + c)[i..j] == a[i..j]
    ensures |a| <= i && j <= |a| + |b| ==> (a + b + c)[i..j] == b[i - |a|..j - |a|]
  {
  }

  lemma WriteKeepsDisk<Id>(s: State<Id>, c: nat)
    requires DiskOk(s) && c < |s.cpus| && s.cpus[c].job.Selected? && CpuOk(s.cpus[c], |s.chains|)
    ensures DiskOk(WriteOut(s, c))
  {
    hide WrittenAt;
    var t := WriteOut(s, c);
    var p, q := s.cpus[c], t.cpus[c];
    WrittenParts(p.file, p.loff, p.job.buf, 0, 0);
    forall x | x in t.items && 0 <= t.items[x].cpuid < |t.cpus|
      ensures InFile(t.items[x], t.cpus[t.items[x].cpuid]) || InBuffer(t.items[x], t.cpus[t.items[x].cpuid])
    {
      var v := s.items[x];
      if v.cpuid == c {
        WrittenParts(p.file, p.loff, p.job.buf, CHUNKSTEP * v.start, CHUNKSTEP * v.start + v.len);
        assert InFile(v, q);
      }
    }
  }

  lemma WriteKeepsCpus<Id>(s: State<Id>, c: nat)
    requires SpaceOk(s) && CpusOk(s) && c < |s.cpus| && s.cpus[c].job.Selected?
    ensures CpuOk(s.cpus[c], |s.chains|) && SpaceOk(WriteOut(s, c)) && CpusOk(WriteOut(s, c))
  {
    assert CpuOk(s.cpus[c], |s.chains|);
    var t, p := WriteOut(s, c), s.cpus[c];
    WrittenParts(p.file, p.loff, p.job.buf, 0, 0);
    forall d, b | 0 <= d < |t.cpus| && b in t.cpus[d].bits
      ensures Owned(t.items, d, b)
    {
      assert Owned(s.items, d, b);
    }
  }

  lemma WriteKeeps<Id>(cfg: Config, s: State<Id>, c: nat)
    requires Inv(cfg, s) && c < |s.cpus| && s.cpus[c].job.Selected?
    ensures s.cpus[c].loff <= |s.cpus[c].file| && Inv(cfg, WriteOut(s, c))
  {
    hide Linked, SpaceOk, DiskOk, CpusOk, Tallied, RefsCounted, ReadersOk, ItemsOk;
    WriteKeepsCpus(s, c);
    WriteKeepsDisk(s, c);
    CpusAside(cfg, s, WriteOut(s, c));
  }

  // ----- Release -----

  /** After the write of a run for a bucket, everything of the bucket that has a place on
      disk is in its file. */
  lemma WrittenRunMeansFile<Id>(s: State<Id>, c: nat, x: Id)
    requires DiskOk(s) && CpusOk(s) && c < |s.cpus| && s.cpus[c].job.Written?
    requires x in s.items && s.items[x].bkt == s.cpus[c].job.bkt && 0 <= s.items[x].cpuid < |s.cpus|
    ensures InFile(s.items[x], s.cpus[s.items[x].cpuid])
  {
    hide InFile;
    var d := s.items[x].cpuid;
    assert d != c && s.cpus[d].job.Selected? ==> s.cpus[d].job.bkt != s.cpus[c].job.bkt;
  }

  lemma ReleaseOneKeeps<Id>(cfg: Config, s: State<Id>, c: nat, x: Id)
    requires Inv(cfg, s) && c < |s.cpus| && s.cpus[c].job.Written?
    requires x in s.items && s.items[x].bkt == s.cpus[c].job.bkt
    ensures Inv(cfg, ReleaseOne(s, x))
  {
    hide Linked, SpaceOk, DiskOk, CpusOk, Tallied, RefsCounted, ReadersOk, ItemsOk, ItemOk, SamePlace;
    var v := s.items[x];
    if Releasable(v) {
      OfItem(cfg, s, x);
      InFileThen(cfg, s, c, x);
      Released(v, s.mm);
      var w, mm := Free(v.(flag := ON_DISK)), Counted(s.mm, v.style, 0 - v.len);
      TouchKeepsLinks(cfg, s, x, w, s.readers, mm);
      TouchKeepsSpace(s, x, w, s.readers, mm);
      TouchKeepsDisk(s, x, w, s.readers, mm);
      TouchKeepsTally(s, x, w, s.readers, mm);
      ReleasedUnread(s, x, w, mm);
      CpusOkAgain(s, Touched(s, x, w, s.readers, mm));
      assert ReleaseOne(s, x) == Touched(s, x, w, s.readers, mm);
    }
  }

  lemma Released(v: Item, mm: seq<int>)
    requires ItemOk(v) && Releasable(v) && |mm| == 4
    ensures var w := Free(v.(flag := ON_DISK)); ItemOk(w) && SamePlace(v, w) && w.share == v.share == 1
    ensures var w, nn := Free(v.(flag := ON_DISK)), Counted(mm, v.style, 0 - v.len);
            |nn| == 4 && forall k :: 0 <= k < 4 ==> nn[k] == mm[k] - Weight(v, k) + Weight(w, k)
  {
  }

  lemma InFileThen<Id>(cfg: Config, s: State<Id>, c: nat, x: Id)
    requires Inv(cfg, s) && c < |s.cpus| && s.cpus[c].job.Written?
    requires x in s.items && s.items[x].bkt == s.cpus[c].job.bkt
    requires s.items[x].cpuid >= 0
    ensures s.items[x].cpuid < |s.cpus| && InFile(s.items[x], s.cpus[s.items[x].cpuid])
  {
    assert Placed(s.items[x], s.cpus);
    hide SpaceOk, InFile;
    WrittenRunMeansFile(s, c, x);
  }

  lemma CpusOkAgain<Id>(s: State<Id>, t: State<Id>)
    requires CpusOk(s) && ItemsOk(s) && t.cpus == s.cpus && t.chains == s.chains
    requires forall x :: x in t.items ==> (x in s.items && t.items[x] == s.items[x]) || ItemOk(t.items[x])
    ensures CpusOk(t) && ItemsOk(t)
  {
  }

  lemma ReleasedUnread<Id>(s: State<Id>, x: Id, w: Item, mm: seq<int>)
    requires RefsCounted(s) && ReadersOk(s) && x in s.items && s.items[x].share == w.share == 1
    ensures RefsCounted(Touched(s, x, w, s.readers, mm)) && ReadersOk(Touched(s, x, w, s.readers, mm))
  {
    var t := Touched(s, x, w, s.readers, mm);
    forall r | r in t.readers
      ensures ReaderOk(t, r)
    {
      assert ReaderOk(s, r);
      Unshared(s, x, r);
    }
  }

  lemma {:induction false} ReleaseAllKeeps<Id>(cfg: Config, s: State<Id>, c: nat, k: nat)
    requires Inv(cfg, s) && c < |s.cpus| && s.cpus[c].job.Written? && s.cpus[c].job.bkt < |s.chains|
    requires k <= |s.chains[s.cpus[c].job.bkt]|
    ensures var t := ReleaseAll(s, s.chains[s.cpus[c].job.bkt][..k]);
            && Inv(cfg, t) && t.cpus == s.cpus && t.chains == s.chains
            && t.items.Keys == s.items.Keys
            && forall x :: x in s.items ==> t.items[x].bkt == s.items[x].bkt
  {
    hide Inv, Releasable;
    var chain := s.chains[s.cpus[c].job.bkt];
    var ids := chain[..k];
    if k > 0 {
      ReleaseAllKeeps(cfg, s, c, k - 1);
      assert ids[..k - 1] == chain[..k - 1];
      ChainOf(cfg, s, s.cpus[c].job.bkt, ids[k - 1]);
      ReleaseOneKeeps(cfg, ReleaseAll(s, chain[..k - 1]), c, ids[k - 1]);
    }
  }

  lemma ReleaseKeeps<Id>(cfg: Config, s: State<Id>, c: nat)
    requires Inv(cfg, s) && c < |s.cpus| && s.cpus[c].job.Written? && s.cpus[c].job.bkt < |s.chains|
    ensures Inv(cfg, Release(s, c))
  {
    hide Inv;
    var chain := s.chains[s.cpus[c].job.bkt];
    assert chain[..|chain|] == chain;
    ReleaseAllKeeps(cfg, s, c, |chain|);
    WithJobKeeps(cfg, ReleaseAll(s, chain), c, Idle);
  }
}
