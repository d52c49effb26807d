/** Insertion and ticks keep the invariant of the chunk cache. */
module CacheTicks {
  import opened CacheInv
  import opened CacheReaders
  import opened Bytes
  import opened CacheState

  // ----- Insertion -----

  lemma NobodyHolds<Id>(s: State<Id>, x: Id)
    requires ReadersOk(s) && x !in s.items
    ensures RefsOf(s.readers, x) == {}
  {
    forall r | r in s.readers
      ensures s.readers[r].item != x
    {
      assert ReaderOk(s, r);
    }
  }

  lemma InsertKeepsLinks<Id>(cfg: Config, s: State<Id>, x: Id, v: Item)
    requires Linked(cfg, s) && x !in s.born && v.bkt == cfg.hash(v.sha) < |s.chains|
    ensures Linked(cfg, Insert(s, x, v))
  {
    assert x !in s.items;
    assert x !in s.chains[v.bkt];
  }

  lemma InsertKeepsSpace<Id>(s: State<Id>, x: Id, v: Item)
    requires SpaceOk(s) && x !in s.items && v.bkt < |s.chains| && v.cpuid == -1
    ensures SpaceOk(Insert(s, x, v))
  {
    var t := Insert(s, x, v);
    forall c, b | 0 <= c < |t.cpus| && b in t.cpus[c].bits
      ensures Owned(t.items, c, b)
    {
      assert Owned(s.items, c, b);
      var y :| y in s.items && s.items[y].cpuid == c && Within(b, s.items[y].start, s.items[y].len);
      assert y in t.items && t.items[y] == s.items[y];
    }
  }

  lemma InsertKeepsTally<Id>(s: State<Id>, x: Id, v: Item)
    requires Tallied(s) && x !in s.items && v.bkt < |s.chains|
    ensures Tallied(Insert(s, x, v))
  {
    forall k | 0 <= k < 4
      ensures Insert(s, x, v).mm[k] == Total(s.items[x := v], k)
    {
      TotalWith(s.items, k, x, v);
    }
  }

  lemma InsertKeepsReaders<Id>(s: State<Id>, x: Id, v: Item)
    requires RefsCounted(s) && ReadersOk(s) && x !in s.items && v.bkt < |s.chains| && v.share == 1
    ensures RefsCounted(Insert(s, x, v)) && ReadersOk(Insert(s, x, v))
  {
    NobodyHolds(s, x);
    forall r | r in s.readers
      ensures ReaderOk(Insert(s, x, v), r)
    {
      assert ReaderOk(s, r);
    }
  }

  lemma InsertKeepsDisk<Id>(s: State<Id>, x: Id, v: Item)
    requires DiskOk(s) && CpusOk(s) && ItemsOk(s) && v.bkt < |s.chains| && v.cpuid == -1 && ItemOk(v)
    ensures DiskOk(Insert(s, x, v)) && CpusOk(Insert(s, x, v)) && ItemsOk(Insert(s, x, v))
  {
    hide ItemOk, InFile, InBuffer, CpuOk;
  }

  lemma InsertKeeps<Id>(cfg: Config, s: State<Id>, x: Id, sha: Sha, value: seq<byte>)
    requires Inv(cfg, s) && x !in s.born && cfg.hash(sha) < |s.chains|
    ensures Inv(cfg, Insert(s, x, NewItem(cfg.hash(sha), sha, value)))
  {
    var v := NewItem(cfg.hash(sha), sha, value);
    assert ItemOk(v);
    NotBorn(cfg, s, x);
    hide Linked, SpaceOk, Tallied, RefsCounted, ReadersOk, DiskOk, CpusOk, ItemsOk, ItemOk;
    InsertKeepsLinks(cfg, s, x, v);
    InsertKeepsSpace(s, x, v);
    InsertKeepsTally(s, x, v);
    InsertKeepsReaders(s, x, v);
    InsertKeepsDisk(s, x, v);
  }

  lemma NotBorn<Id>(cfg: Config, s: State<Id>, x: Id)
    requires Linked(cfg, s) && x !in s.born
    ensures x !in s.items
  {
  }

  // ----- Ticks -----

  // An item changes under the eyes of its holders.
  lemma StepAlone<Id>(cfg: Config, s: State<Id>, x: Id, w: Item, mm: seq<int>)
    requires Inv(cfg, s) && x in s.items && SamePlace(s.items[x], w) && KeepsWaiting(s.items[x], w) && ItemOk(w)
    requires |mm| == 4 && forall k :: 0 <= k < 4 ==> mm[k] == s.mm[k] - Weight(s.items[x], k) + Weight(w, k)
    requires w.share == s.items[x].share
    requires forall q :: q in s.readers && s.readers[q].item == x && Knows(s.readers[q], s.items[x])
               ==> Knows(s.readers[q], w)
    ensures Inv(cfg, Touched(s, x, w, s.readers, mm))
  {
    hide Linked, SpaceOk, DiskOk, CpusOk, Tallied, ItemOk, SamePlace, KeepsWaiting, Knows;
    var t := Touched(s, x, w, s.readers, mm);
    forall q | q in t.readers
      ensures ReaderOk(t, q)
    {
      assert ReaderOk(s, q);
    }
    assert RefsCounted(t);
    TouchKeepsInv(cfg, s, x, w, s.readers, mm);
  }

  lemma AgedKeeps<Id>(cfg: Config, s: State<Id>, x: Id)
    requires Inv(cfg, s) && x in s.items
    ensures Inv(cfg, s.(items := s.items[x := Aged(s.items[x])]))
  {
    hide Inv;
    OfItem(cfg, s, x);
    StepAlone(cfg, s, x, Aged(s.items[x]), s.mm);
    assert s.(items := s.items[x := Aged(s.items[x])]) == Touched(s, x, Aged(s.items[x]), s.readers, s.mm);
  }

  lemma {:induction false} WithoutIt<T>(s: seq<T>, x: T)
    requires NoDup(s)
    ensures NoDup(Without(s, x)) && x !in Without(s, x)
    ensures forall y :: y in Without(s, x) ==> y in s
    ensures forall y :: y in s && y != x ==> y in Without(s, x)
  {
    if s != [] {
      assert forall y :: y in s <==> y == s[0] || y in s[1..];
      assert s[0] !in s[1..];
      if s[0] != x {
        WithoutIt(s[1..], x);
        var t := Without(s[1..], x);
        assert forall i, j :: 0 <= i < j < |[s[0]] + t| ==> ([s[0]] + t)[i] != ([s[0]] + t)[j];
      }
    }
  }

  lemma ReclaimKeepsLinks<Id>(cfg: Config, s: State<Id>, x: Id)
    requires Linked(cfg, s) && x in s.items
    ensures s.items[x].bkt < |s.chains| && Linked(cfg, Reclaim(s, x))
  {
    WithoutIt(s.chains[s.items[x].bkt], x);
    assert Reclaim(s, x).items.Keys <= s.items.Keys;
  }

  lemma ReclaimKeepsSpace<Id>(s: State<Id>, x: Id)
    requires SpaceOk(s) && x in s.items && s.items[x].bkt < |s.chains| && ItemOk(s.items[x])
    ensures SpaceOk(Reclaim(s, x))
  {
    var t := Reclaim(s, x);
    forall c, b | 0 <= c < |t.cpus| && b in t.cpus[c].bits
      ensures Owned(t.items, c, b)
    {
      assert Owned(s.items, c, b);
      var y :| y in s.items && s.items[y].cpuid == c && Within(b, s.items[y].start, s.items[y].len);
      assert y in t.items && t.items[y] == s.items[y];
    }
    forall y | y in t.items
      ensures Placed(t.items[y], t.cpus)
    {
      assert Placed(s.items[y], s.cpus) && Clear(s.items[x], s.items[y]);
    }
  }

  lemma ReclaimKeepsDisk<Id>(s: State<Id>, x: Id)
    requires DiskOk(s) && x in s.items && s.items[x].bkt < |s.chains|
    ensures DiskOk(Reclaim(s, x))
  {
    var t := Reclaim(s, x);
    assert |t.cpus| == |s.cpus| && forall c :: 0 <= c < |t.cpus| ==> t.cpus[c] == s.cpus[c].(bits := t.cpus[c].bits);
    assert forall y :: y in t.items ==> y in s.items && t.items[y] == s.items[y];
    hide Reclaim, InFile, InBuffer;
    forall y | y in t.items && 0 <= t.items[y].cpuid < |t.cpus|
      ensures InFile(t.items[y], t.cpus[t.items[y].cpuid]) || InBuffer(t.items[y], t.cpus[t.items[y].cpuid])
    {
      var v, c := s.items[y], s.items[y].cpuid;
      SameDisk(v, s.cpus[c], t.cpus[c].bits);
    }
  }

  // The bits of a CPU say nothing of its file.
  lemma SameDisk(v: Item, p: Cpu, bits: set<nat>)
    ensures InFile(v, p.(bits := bits)) <==> InFile(v, p)
    ensures InBuffer(v, p.(bits := bits)) <==> InBuffer(v, p)
  {
  }

  lemma ReclaimKeepsCpus<Id>(s: State<Id>, x: Id)
    requires CpusOk(s) && ItemsOk(s) && x in s.items && s.items[x].bkt < |s.chains|
    ensures CpusOk(Reclaim(s, x)) && ItemsOk(Reclaim(s, x))
  {
    hide ItemOk, Without, Region;
    var t := Reclaim(s, x);
    assert forall c :: 0 <= c < |t.cpus| ==> t.cpus[c].(bits := {}) == s.cpus[c].(bits := {});
  }

  lemma ReclaimKeepsTally<Id>(s: State<Id>, x: Id)
    requires Tallied(s) && x in s.items && s.items[x].bkt < |s.chains| && ItemOk(s.items[x])
    ensures Tallied(Reclaim(s, x))
  {
    forall k | 0 <= k < 4
      ensures Reclaim(s, x).mm[k] == Total(s.items - {x}, k)
    {
      TotalWithout(s.items, k, x);
    }
  }

  // Nobody refers to an item whose count of sharers is one.
  lemma Unshared<Id>(s: State<Id>, x: Id, r: nat)
    requires RefsCounted(s) && x in s.items && s.items[x].share == 1 && r in s.readers
    ensures s.readers[r].item != x
  {
    assert RefsOf(s.readers, x) == {};
    assert r !in RefsOf(s.readers, x);
  }

  lemma ReclaimKeepsReaders<Id>(s: State<Id>, x: Id)
    requires RefsCounted(s) && ReadersOk(s) && x in s.items && s.items[x].bkt < |s.chains| && s.items[x].share == 1
    ensures RefsCounted(Reclaim(s, x)) && ReadersOk(Reclaim(s, x))
  {
    forall r | r in s.readers
      ensures ReaderOk(Reclaim(s, x), r)
    {
      assert ReaderOk(s, r);
      Unshared(s, x, r);
    }
  }

  lemma LinkOf<Id>(cfg: Config, s: State<Id>, x: Id)
    requires Linked(cfg, s) && x in s.items
    ensures s.items[x].bkt < |s.chains| && x in s.chains[s.items[x].bkt]
  {
  }

  lemma TickOneKeeps<Id>(cfg: Config, s: State<Id>, x: Id)
    requires Inv(cfg, s)
    ensures Inv(cfg, TickOne(s, x))
  {
    if x in s.items {
      OfItem(cfg, s, x);
      LinkOf(cfg, s, x);
      hide Linked, SpaceOk, DiskOk, CpusOk, Tallied, RefsCounted, ReadersOk, ItemOk, ItemsOk;
      if Expired(s.items[x]) {
        ReclaimKeepsLinks(cfg, s, x);
        ReclaimKeepsSpace(s, x);
        ReclaimKeepsDisk(s, x);
        ReclaimKeepsCpus(s, x);
        ReclaimKeepsTally(s, x);
        ReclaimKeepsReaders(s, x);
      } else {
        AgedKeeps(cfg, s, x);
      }
    }
  }

  lemma {:induction false} TickKeeps<Id>(cfg: Config, s: State<Id>, ids: seq<Id>)
    requires Inv(cfg, s)
    ensures Inv(cfg, TickAll(s, ids))
  {
    hide Inv;
    if ids != [] {
      TickKeeps(cfg, s, ids[..|ids| - 1]);
      TickOneKeeps(cfg, TickAll(s, ids[..|ids| - 1]), ids[|ids| - 1]);
    }
  }
}
