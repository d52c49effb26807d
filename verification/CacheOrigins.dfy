/** What is in the chunk cache is what was inserted: the bytes of an item over whole runs. */
module CacheOrigins {
  import opened CacheInv
  import opened CacheLifetime
  import opened CacheRuns
  import opened CacheState
  import opened CacheTheorems

  ghost predicate SameOrigin(v: Item, w: Item) {
    w.orig == v.orig && w.sha == v.sha && w.len == v.len && w.bkt == v.bkt
  }

  lemma {:induction false} SelectKeepsOrigins<Id>(s: State<Id>, c: nat, size: nat, ids: seq<Id>, x: Id)
    requires c < |s.cpus| && s.cpus[c].job.Selected?
    ensures x in SelectAll(s, c, size, ids).items <==> x in s.items
    ensures x in s.items ==> SameOrigin(s.items[x], SelectAll(s, c, size, ids).items[x])
  {
    if ids != [] {
      SelectKeepsOrigins(s, c, size, ids[..|ids| - 1], x);
    }
  }

  lemma {:induction false} ReleaseKeepsOrigins<Id>(s: State<Id>, ids: seq<Id>, x: Id)
    ensures x in ReleaseAll(s, ids).items <==> x in s.items
    ensures x in s.items ==> SameOrigin(s.items[x], ReleaseAll(s, ids).items[x])
  {
    if ids != [] {
      ReleaseKeepsOrigins(s, ids[..|ids| - 1], x);
    }
  }

  lemma {:induction false} TickKeepsOrigins<Id>(s: State<Id>, ids: seq<Id>, x: Id)
    ensures x in TickAll(s, ids).items ==> x in s.items && SameOrigin(s.items[x], TickAll(s, ids).items[x])
  {
    if ids != [] {
      TickKeepsOrigins(s, ids[..|ids| - 1], x);
    }
  }

  // The label inserts x as the item v.
  ghost predicate Inserts<Id>(l: Label<Id>, x: Id, v: Item) {
    l.DoInsert? && l.id == x && l.value == v.orig && l.sha == v.sha
  }

  // An item in the table was there, or it has just been inserted, with the bytes of v.
  lemma StepOfOrigin<Id>(cfg: Config, s: State<Id>, l: Label<Id>, t: State<Id>, x: Id)
    requires Inv(cfg, s) && Next(cfg, s, l, t) && x in t.items
    ensures if x in s.items then SameOrigin(s.items[x], t.items[x]) && !Inserts(l, x, t.items[x])
            else Inserts(l, x, t.items[x])
  {
    hide Inv;
    match l
    case DoTick(b) =>
      hide TickAll;
      TickKeepsOrigins(s, s.chains[b], x);
    case DoSelect(b, c) =>
      hide SelectAll;
      SelectKeepsOrigins(WithJob(s, c, Selected(b, [])), c, cfg.size, s.chains[b], x);
    case DoRelease(c) =>
      hide ReleaseAll;
      ReleaseKeepsOrigins(s, s.chains[s.cpus[c].job.bkt], x);
    case DoInsert(y, sha, value) =>
      if x in s.items {
        BornIn(cfg, s, x);
      }
    case _ => hide TickAll, SelectAll, ReleaseAll;
  }

  /** Every item of the table was inserted before, with the bytes and the digest that
      it has. */
  lemma {:induction false} EverythingWasInserted<Id>(cfg: Config, states: seq<State<Id>>, labels: seq<Label<Id>>,
                                                     i: nat, x: Id)
    requires Run(cfg, states, labels) && Initial(cfg, states[0]) && i < |states| && x in states[i].items
    ensures exists j :: 0 <= j < i && Inserts(labels[j], x, states[i].items[x])
    decreases i
  {
    hide Inv, Next, Inserts;
    NothingAtFirst(cfg, states[0]);
    if i > 0 {
      InvOnRun(cfg, states, labels, i - 1);
      StepOfOrigin(cfg, states[i - 1], labels[i - 1], states[i], x);
      if x in states[i - 1].items {
        EverythingWasInserted(cfg, states, labels, i - 1, x);
        var j :| 0 <= j < i - 1 && Inserts(labels[j], x, states[i - 1].items[x]);
        SameInserts(labels[j], x, states[i - 1].items[x], states[i].items[x]);
      } else {
        assert Inserts(labels[i - 1], x, states[i].items[x]);
      }
    }
  }

  lemma NothingAtFirst<Id>(cfg: Config, s: State<Id>)
    requires Initial(cfg, s)
    ensures s.items == map[]
  {
  }

  lemma SameInserts<Id>(l: Label<Id>, x: Id, v: Item, w: Item)
    requires Inserts(l, x, v) && SameOrigin(v, w)
    ensures Inserts(l, x, w)
  {
  }

  lemma InsertedNow<Id>(cfg: Config, s: State<Id>, l: Label<Id>, t: State<Id>)
    requires Next(cfg, s, l, t) && l.DoInsert?
    ensures l.id in t.items && t.items[l.id].orig == l.value && t.items[l.id].sha == l.sha && l.id in t.born
  {
  }

  lemma BornStays<Id>(cfg: Config, s: State<Id>, l: Label<Id>, t: State<Id>, x: Id)
    requires Inv(cfg, s) && Next(cfg, s, l, t) && x in s.born
    ensures x in t.born
  {
    hide Inv;
    match l
    case DoTick(b) => TickBorn(s, s.chains[b]);
    case DoSelect(b, c) => SelectBorn(WithJob(s, c, Selected(b, [])), c, cfg.size, s.chains[b]);
    case DoRelease(c) => ReleaseBorn(s, s.chains[s.cpus[c].job.bkt]);
    case _ => hide TickAll, SelectAll, ReleaseAll;
  }

  /** What step j has inserted stays what it was as long as it is in the table. */
  lemma {:induction false} InsertedStays<Id>(cfg: Config, states: seq<State<Id>>, labels: seq<Label<Id>>,
                                              j: nat, i: nat)
    requires Run(cfg, states, labels) && Initial(cfg, states[0]) && j < i < |states| && labels[j].DoInsert?
    ensures var x := labels[j].id;
            && x in states[i].born
            && (x in states[i].items
                ==> states[i].items[x].orig == labels[j].value && states[i].items[x].sha == labels[j].sha)
    decreases i
  {
    hide Inv, Next, Inserts;
    var x := labels[j].id;
    InvOnRun(cfg, states, labels, i - 1);
    if j == i - 1 {
      InsertedNow(cfg, states[j], labels[j], states[i]);
    } else {
      InsertedStays(cfg, states, labels, j, i - 1);
      BornStays(cfg, states[i - 1], labels[i - 1], states[i], x);
      if x in states[i].items {
        if x !in states[i - 1].items {
          GoneStaysGone(cfg, states[i - 1], labels[i - 1], states[i], x);
          assert false;
        }
        StepOfOrigin(cfg, states[i - 1], labels[i - 1], states[i], x);
      }
    }
  }

  /** What is inserted comes back, over every run: as long as the item is in the table its
      bytes are in memory, or in the file of its CPU, or both; and a reader that is through
      has put them into memory. */
  lemma InsertedComesBack<Id>(cfg: Config, states: seq<State<Id>>, labels: seq<Label<Id>>, j: nat, i: nat)
    requires Run(cfg, states, labels) && Initial(cfg, states[0]) && j < i < |states|
    requires labels[j].DoInsert? && labels[j].id in states[i].items
    ensures var s, x, value := states[i], labels[j].id, labels[j].value;
            var v := s.items[x];
            && v.sha == labels[j].sha && v.len == |value|
            && (v.flag == 0 || v.flag == 2 || v.flag == 3 || v.flagMem ==> v.data == value)
            && (v.flag == 1 || v.flag == 4
                ==> && 0 <= v.cpuid < |s.cpus|
                    && FileSlice(s.cpus[v.cpuid].file, 32 * v.start, |value|) == value)
            && forall r :: r in s.readers && s.readers[r].item == x
                 ==> && (s.readers[r].stage.Loaded? ==> s.readers[r].stage.buf == value)
                     && (s.readers[r].stage.Filled? ==> v.data == value)
  {
    var x := labels[j].id;
    InsertedStays(cfg, states, labels, j, i);
    DiskRoundTrip(cfg, states, labels, i);
    InvOnRun(cfg, states, labels, i);
    ItemIsOk(cfg, states[i], x);
    hide Inv, Run, Initial;
  }

  lemma ItemIsOk<Id>(cfg: Config, s: State<Id>, x: Id)
    requires Inv(cfg, s) && x in s.items
    ensures ItemOk(s.items[x])
  {
  }
}
