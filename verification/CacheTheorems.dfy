/** What the chunk cache promises over whole runs. */
module CacheTheorems {
  import opened CacheInv
  import opened CacheReaders
  import opened CacheRuns
  import opened CacheState
  import opened Chunk

  // ----- The item state machine -----

  /** In memory, to be written and pinned items have their bytes in memory; items on disk
      only have none; a read-back item without its bytes has somebody who is fetching
      them. */
  lemma StatesAreSafe<Id>(cfg: Config, states: seq<State<Id>>, labels: seq<Label<Id>>, i: nat, x: Id)
    requires Run(cfg, states, labels) && Initial(cfg, states[0]) && i < |states| && x in states[i].items
    ensures var v := states[i].items[x];
            && v.flag in {IN_MEMORY, ON_DISK, TO_DISK, PINNED, READ_BACK}
            && (v.flag in {IN_MEMORY, TO_DISK, PINNED} ==> v.style >= 0 && v.data == v.orig)
            && (v.flag == ON_DISK ==> v.style < 0 && v.cpuid >= 0)
            && (v.flag in {IN_MEMORY, PINNED} ==> v.cpuid < 0)
            && (v.flag == READ_BACK && v.flagMem ==> v.style >= 0 && v.data == v.orig)
            && (v.flag == READ_BACK && !v.flagMem
                ==> exists r :: r in states[i].readers && states[i].readers[r].item == x)
  {
    hide Inv, Run, Initial;
    InvOnRun(cfg, states, labels, i);
    OfItem(cfg, states[i], x);
    var v := states[i].items[x];
    if v.flag == READ_BACK && !v.flagMem {
      assert RefsOf(states[i].readers, x) != {};
      var r :| r in RefsOf(states[i].readers, x);
      assert r in states[i].readers && states[i].readers[r].item == x;
    }
  }

  /** The branch of free_data_memory that cannot be reached is not reached: whatever
      bucket_clear_item or wr_file frees is allocated.  Nor is the test of cpuid in
      hand_hash ever met. */
  lemma NothingFreedTwice<Id>(cfg: Config, states: seq<State<Id>>, labels: seq<Label<Id>>, i: nat, x: Id)
    requires Run(cfg, states, labels) && Initial(cfg, states[0]) && i < |states| && x in states[i].items
    ensures var v := states[i].items[x];
            && (Expired(v) && FreedOnReclaim(v) ==> v.style >= 0)
            && (Releasable(v) ==> v.style >= 0)
            && v.cpuid < |states[i].cpus|
  {
    hide Run, Initial;
    InvOnRun(cfg, states, labels, i);
    OfItem(cfg, states[i], x);
    assert Placed(states[i].items[x], states[i].cpus);
  }

  /** share_ref counts the references exactly, so what somebody holds is in the table. */
  lemma ReferencesAreCounted<Id>(cfg: Config, states: seq<State<Id>>, labels: seq<Label<Id>>, i: nat)
    requires Run(cfg, states, labels) && Initial(cfg, states[0]) && i < |states|
    ensures forall x :: x in states[i].items
              ==> states[i].items[x].share == 1 + |set r | r in states[i].readers && states[i].readers[r].item == x|
    ensures forall r :: r in states[i].readers ==> states[i].readers[r].item in states[i].items
  {
    hide Run, Initial;
    InvOnRun(cfg, states, labels, i);
    forall r | r in states[i].readers
      ensures states[i].readers[r].item in states[i].items
    {
      assert ReaderOk(states[i], r);
    }
    forall x | x in states[i].items
      ensures states[i].items[x].share == 1 + |set r | r in states[i].readers && states[i].readers[r].item == x|
    {
      assert RefsOf(states[i].readers, x) == set r | r in states[i].readers && states[i].readers[r].item == x;
    }
  }

  // ----- The disk -----

  /** Write-back and read-back round trip: what is on disk is what was inserted, at
      32 * start in the file of the item's CPU; what a reader has fetched is the same, and
      so is the item's memory when the reader is through. */
  lemma DiskRoundTrip<Id>(cfg: Config, states: seq<State<Id>>, labels: seq<Label<Id>>, i: nat)
    requires Run(cfg, states, labels) && Initial(cfg, states[0]) && i < |states|
    ensures var s := states[i];
            && (forall x :: x in s.items && s.items[x].flag in {ON_DISK, READ_BACK}
                  ==> && 0 <= s.items[x].cpuid < |s.cpus|
                      && FileSlice(s.cpus[s.items[x].cpuid].file, CHUNKSTEP * s.items[x].start, s.items[x].len)
                         == s.items[x].orig)
            && (forall r :: r in s.readers && s.readers[r].stage.Loaded?
                  ==> s.readers[r].item in s.items && s.readers[r].stage.buf == s.items[s.readers[r].item].orig)
            && (forall r :: r in s.readers && s.readers[r].stage.Filled?
                  ==> && s.readers[r].item in s.items
                      && s.items[s.readers[r].item].data == s.items[s.readers[r].item].orig)
  {
    hide Inv, Run, Initial;
    var s := states[i];
    InvOnRun(cfg, states, labels, i);
    forall x | x in s.items && s.items[x].flag in {ON_DISK, READ_BACK}
      ensures 0 <= s.items[x].cpuid < |s.cpus|
      ensures FileSlice(s.cpus[s.items[x].cpuid].file, CHUNKSTEP * s.items[x].start, s.items[x].len) == s.items[x].orig
    {
      ReadsOriginal(cfg, s, x);
    }
    forall r | r in s.readers
      ensures s.readers[r].item in s.items
      ensures s.readers[r].stage.Loaded? ==> s.readers[r].stage.buf == s.items[s.readers[r].item].orig
      ensures s.readers[r].stage.Filled? ==> s.items[s.readers[r].item].data == s.items[s.readers[r].item].orig
    {
      OfReader(cfg, s, r);
      OfItem(cfg, s, s.readers[r].item);
    }
  }

  /** Conservation of disk space: the marked units of a CPU are exactly those of the live
      items that are placed there. */
  lemma UnitsConserved<Id>(cfg: Config, states: seq<State<Id>>, labels: seq<Label<Id>>, i: nat, c: nat, b: nat)
    requires Run(cfg, states, labels) && Initial(cfg, states[0]) && i < |states| && c < |states[i].cpus|
    ensures b in states[i].cpus[c].bits
       <==> exists x :: x in states[i].items && states[i].items[x].cpuid == c
                        && Within(b, states[i].items[x].start, states[i].items[x].len)
  {
    hide Run, Initial;
    var s := states[i];
    InvOnRun(cfg, states, labels, i);
    hide Linked, ItemsOk, RefsCounted, ReadersOk, DiskOk, Tallied, CpusOk;
    if b in s.cpus[c].bits {
      assert Owned(s.items, c, b);
    }
    if Owned(s.items, c, b) {
      var x :| x in s.items && s.items[x].cpuid == c && Within(b, s.items[x].start, s.items[x].len);
      assert Placed(s.items[x], s.cpus);
      assert b in Region(s.items[x].start, s.items[x].len);
    }
  }

  /** No unit has two owners. */
  lemma UnitsAreDisjoint<Id>(cfg: Config, states: seq<State<Id>>, labels: seq<Label<Id>>, i: nat, x: Id, y: Id)
    requires Run(cfg, states, labels) && Initial(cfg, states[0]) && i < |states|
    requires x in states[i].items && y in states[i].items && x != y
    requires states[i].items[x].cpuid == states[i].items[y].cpuid >= 0
    ensures Region(states[i].items[x].start, states[i].items[x].len)
         !! Region(states[i].items[y].start, states[i].items[y].len)
  {
    hide Run, Initial;
    InvOnRun(cfg, states, labels, i);
    hide Linked, ItemsOk, RefsCounted, ReadersOk, DiskOk, Tallied, CpusOk;
    assert Clear(states[i].items[x], states[i].items[y]);
  }

  /** hash_count and mm0 to mm3 count what there is, and except while a run has bytes to
      write the file position is in step with bitmap_index. */
  lemma CountersConserved<Id>(cfg: Config, states: seq<State<Id>>, labels: seq<Label<Id>>, i: nat)
    requires Run(cfg, states, labels) && Initial(cfg, states[0]) && i < |states|
    ensures states[i].count == |states[i].items| && |states[i].mm| == 4
    ensures forall k :: 0 <= k < 4 ==> states[i].mm[k] == Total(states[i].items, k)
    ensures forall c :: 0 <= c < |states[i].cpus| && !states[i].cpus[c].job.Selected?
              ==> states[i].cpus[c].loff == CHUNKSTEP * states[i].cpus[c].index
  {
    hide Run, Initial;
    var s := states[i];
    InvOnRun(cfg, states, labels, i);
    hide Linked, ItemsOk, RefsCounted, ReadersOk, DiskOk, SpaceOk;
    forall c | 0 <= c < |s.cpus| && !s.cpus[c].job.Selected?
      ensures s.cpus[c].loff == CHUNKSTEP * s.cpus[c].index
    {
      assert CpuOk(s.cpus[c], |s.chains|);
    }
  }
}
