/** How long an item of the chunk cache lives: the reference count over runs. */
module CacheLifetime {
  import opened CacheInv
  import opened CacheReaders
  import opened CacheRuns
  import opened CacheState

  // What a step that is neither a hit nor a tick leaves alone.
  ghost predicate SameLife(v: Item, w: Item) {
    w.refcnt == v.refcnt && w.bkt == v.bkt && w.sha == v.sha && w.orig == v.orig
  }

  ghost predicate SameLives<Id>(s: State<Id>, t: State<Id>) {
    t.items.Keys == s.items.Keys
    && forall x :: x in s.items ==> SameLife(s.items[x], t.items[x]) && t.items[x].share == s.items[x].share
  }

  lemma {:induction false} SelectSameLives<Id>(s: State<Id>, c: nat, size: nat, ids: seq<Id>)
    requires c < |s.cpus| && s.cpus[c].job.Selected?
    ensures SameLives(s, SelectAll(s, c, size, ids))
  {
    if ids != [] {
      SelectSameLives(s, c, size, ids[..|ids| - 1]);
    }
  }

  lemma {:induction false} ReleaseSameLives<Id>(s: State<Id>, ids: seq<Id>)
    ensures SameLives(s, ReleaseAll(s, ids))
  {
    if ids != [] {
      ReleaseSameLives(s, ids[..|ids| - 1]);
    }
  }

  // What a tick does to one item.
  ghost predicate Ticked<Id>(s: State<Id>, t: State<Id>, x: Id, due: bool)
    requires x in s.items
  {
    if due && Expired(s.items[x]) then x !in t.items
    else x in t.items && t.items[x] == if due then Aged(s.items[x]) else s.items[x]
  }

  lemma {:induction false} TickAt<Id>(s: State<Id>, ids: seq<Id>, x: Id)
    requires NoDup(ids) && x in s.items && s.items[x].bkt < |s.chains|
    ensures Ticked(s, TickAll(s, ids), x, x in ids) && |TickAll(s, ids).chains| == |s.chains|
  {
    if ids != [] {
      TickAt(s, ids[..|ids| - 1], x);
      assert ids == ids[..|ids| - 1] + [ids[|ids| - 1]];
      assert x in ids <==> x in ids[..|ids| - 1] || x == ids[|ids| - 1];
      if x == ids[|ids| - 1] {
        assert x !in ids[..|ids| - 1];
      }
    }
  }

  // ----- One step, seen from one item -----

  predicate TicksIt<Id>(l: Label<Id>, bkt: nat) {
    l.DoTick? && l.b == bkt
  }

  predicate HitsIt<Id(==)>(l: Label<Id>, x: Id) {
    l.DoHit? && l.id == x
  }

  ghost predicate StepSeen<Id>(s: State<Id>, l: Label<Id>, t: State<Id>, x: Id)
    requires x in s.items
  {
    var v := s.items[x];
    if TicksIt(l, v.bkt) && Expired(v) then x !in t.items
    else
      && x in t.items
      && t.items[x].bkt == v.bkt
      && (if TicksIt(l, v.bkt) then t.items[x] == Aged(v)
          else if HitsIt(l, x) then t.items[x] == Cited(v)
          else t.items[x].refcnt == v.refcnt)
      && (v.share == 1 && !HitsIt(l, x) ==> t.items[x].share == 1)
  }

  lemma TickSeen<Id>(cfg: Config, s: State<Id>, b: nat, t: State<Id>, x: Id)
    requires Inv(cfg, s) && b < |s.chains| && t == TickAll(s, s.chains[b]) && x in s.items
    ensures StepSeen(s, DoTick(b), t, x)
  {
    hide SpaceOk, DiskOk, CpusOk, RefsCounted, ReadersOk, Tallied, ItemsOk;
    TickAt(s, s.chains[b], x);
  }

  lemma SelectSeen<Id>(s: State<Id>, b: nat, c: nat, size: nat, x: Id)
    requires c < |s.cpus| && b < |s.chains| && x in s.items
    ensures StepSeen(s, DoSelect(b, c), Select(s, b, c, size), x)
  {
    SelectSameLives(WithJob(s, c, Selected(b, [])), c, size, s.chains[b]);
  }

  lemma ReleaseSeen<Id>(s: State<Id>, c: nat, x: Id)
    requires c < |s.cpus| && s.cpus[c].job.Written? && s.cpus[c].job.bkt < |s.chains| && x in s.items
    ensures StepSeen(s, DoRelease(c), Release(s, c), x)
  {
    ReleaseSameLives(s, s.chains[s.cpus[c].job.bkt]);
  }

  lemma DropSeen<Id>(cfg: Config, s: State<Id>, r: nat, l: Label<Id>, x: Id)
    requires Inv(cfg, s) && r in s.readers && s.readers[r].item in s.items && x in s.items && !l.DoTick? && !l.DoHit?
    ensures StepSeen(s, l, Drop(s, r), x)
  {
    hide Inv;
    OfReader(cfg, s, r);
  }

  lemma InsertSeen<Id>(cfg: Config, s: State<Id>, l: Label<Id>, x: Id)
    requires Inv(cfg, s) && Enabled(cfg, s, l) && l.DoInsert? && x in s.items
    ensures StepSeen(s, l, After(cfg, s, l), x)
  {
    hide Linked, SpaceOk, DiskOk, CpusOk, RefsCounted, ReadersOk, Tallied, ItemsOk;
    StillBorn(cfg, s, x);
  }

  lemma StillBorn<Id>(cfg: Config, s: State<Id>, x: Id)
    requires Linked(cfg, s) && x in s.items
    ensures x in s.born
  {
  }

  lemma StepOnItem<Id>(cfg: Config, s: State<Id>, l: Label<Id>, t: State<Id>, x: Id)
    requires Inv(cfg, s) && Next(cfg, s, l, t) && x in s.items
    ensures StepSeen(s, l, t, x)
  {
    hide Inv;
    match l
    case DoTick(b) => TickSeen(cfg, s, b, t, x);
    case DoSelect(b, c) => SelectSeen(s, b, c, cfg.size, x);
    case DoRelease(c) => ReleaseSeen(s, c, x);
    case DoClassify(r) => DropSeen(cfg, s, r, l, x);
    case DoDone(r) => DropSeen(cfg, s, r, l, x);
    case DoInsert(y, sha, value) => InsertSeen(cfg, s, l, x);
    case _ => hide Drop, Select, Release, TickAll, Insert;
  }

  // ----- Whole runs -----

  ghost function Hits<Id>(labels: seq<Label<Id>>, x: Id): nat {
    if labels == [] then 0
    else Hits(labels[..|labels| - 1], x) + if HitsIt(labels[|labels| - 1], x) then 1 else 0
  }

  ghost function Ticks<Id>(labels: seq<Label<Id>>, bkt: nat): nat {
    if labels == [] then 0
    else Ticks(labels[..|labels| - 1], bkt) + if TicksIt(labels[|labels| - 1], bkt) then 1 else 0
  }

  lemma RunPrefix<Id>(cfg: Config, states: seq<State<Id>>, labels: seq<Label<Id>>, k: nat)
    requires Run(cfg, states, labels) && k <= |labels|
    ensures Run(cfg, states[..k + 1], labels[..k])
  {
  }

  lemma {:induction false} InvAlong<Id>(cfg: Config, states: seq<State<Id>>, labels: seq<Label<Id>>)
    requires Run(cfg, states, labels) && Inv(cfg, states[0])
    ensures Inv(cfg, states[|labels|])
    decreases |labels|
  {
    hide Inv, Next;
    var k := |labels|;
    if k > 0 {
      RunPrefix(cfg, states, labels, k - 1);
      InvAlong(cfg, states[..k], labels[..k - 1]);
      StepKeepsInv(cfg, states[k - 1], labels[k - 1], states[k]);
    }
  }

  // Items are made once: what is not there any more does not come with the next step.
  lemma GoneStaysGone<Id>(cfg: Config, s: State<Id>, l: Label<Id>, t: State<Id>, x: Id)
    requires Inv(cfg, s) && Next(cfg, s, l, t) && x in s.born && x !in s.items
    ensures x in t.born && x !in t.items
  {
    hide Inv;
    match l
    case DoTick(b) => TickMakesNone(s, s.chains[b], x);
    case DoSelect(b, c) => SelectSameLives(WithJob(s, c, Selected(b, [])), c, cfg.size, s.chains[b]);
                           SelectBorn(WithJob(s, c, Selected(b, [])), c, cfg.size, s.chains[b]);
    case DoRelease(c) => ReleaseSameLives(s, s.chains[s.cpus[c].job.bkt]);
                         ReleaseBorn(s, s.chains[s.cpus[c].job.bkt]);
    case _ => hide TickAll, SelectAll, ReleaseAll;
  }

  lemma {:induction false} TickMakesNone<Id>(s: State<Id>, ids: seq<Id>, x: Id)
    requires x !in s.items
    ensures x !in TickAll(s, ids).items && TickAll(s, ids).born == s.born
  {
    if ids != [] {
      TickMakesNone(s, ids[..|ids| - 1], x);
    }
  }

  lemma {:induction false} SelectBorn<Id>(s: State<Id>, c: nat, size: nat, ids: seq<Id>)
    requires c < |s.cpus| && s.cpus[c].job.Selected?
    ensures SelectAll(s, c, size, ids).born == s.born
  {
    if ids != [] {
      SelectBorn(s, c, size, ids[..|ids| - 1]);
    }
  }

  lemma {:induction false} ReleaseBorn<Id>(s: State<Id>, ids: seq<Id>)
    ensures ReleaseAll(s, ids).born == s.born
  {
    if ids != [] {
      ReleaseBorn(s, ids[..|ids| - 1]);
    }
  }

  /** While an item lives, its count is what it was, six more for each hit and one less
      for each tick of its bucket. */
  lemma {:induction false} CountAccounts<Id>(cfg: Config, states: seq<State<Id>>, labels: seq<Label<Id>>, x: Id)
    requires Run(cfg, states, labels) && Inv(cfg, states[0]) && x in states[0].items
    ensures x in states[|labels|].born
    ensures x in states[|labels|].items
            ==> && states[|labels|].items[x].bkt == states[0].items[x].bkt
                && states[|labels|].items[x].refcnt
                   == states[0].items[x].refcnt + ITEM_CITE_FIND * Hits(labels, x)
                      - Ticks(labels, states[0].items[x].bkt)
    decreases |labels|
  {
    hide Inv, Next;
    var k := |labels|;
    if k == 0 {
      BornIn(cfg, states[0], x);
    } else {
      RunPrefix(cfg, states, labels, k - 1);
      CountAccounts(cfg, states[..k], labels[..k - 1], x);
      InvAlong(cfg, states[..k], labels[..k - 1]);
      StepKeepsInv(cfg, states[k - 1], labels[k - 1], states[k]);
      if x in states[k - 1].items {
        StepOnItem(cfg, states[k - 1], labels[k - 1], states[k], x);
        StaysBorn(cfg, states[k - 1], labels[k - 1], states[k], x);
      } else {
        GoneStaysGone(cfg, states[k - 1], labels[k - 1], states[k], x);
      }
    }
  }

  /** An item that has been in the table and is in it no longer never comes back. */
  lemma {:induction false} GoneForGood<Id>(cfg: Config, states: seq<State<Id>>, labels: seq<Label<Id>>, x: Id, i: nat,
                                           j: nat)
    requires Run(cfg, states, labels) && Inv(cfg, states[0]) && i <= j <= |labels|
    requires x in states[i].items && x !in states[j].items
    ensures x !in states[|labels|].items && x in states[|labels|].born
    decreases |labels|
  {
    hide Inv, Next;
    var k := |labels|;
    if j < k {
      RunPrefix(cfg, states, labels, k - 1);
      GoneForGood(cfg, states[..k], labels[..k - 1], x, i, j);
      InvAlong(cfg, states[..k], labels[..k - 1]);
      GoneStaysGone(cfg, states[k - 1], labels[k - 1], states[k], x);
    } else {
      RunPrefix(cfg, states, labels, i);
      InvAlong(cfg, states[..i + 1], labels[..i]);
      RunSuffix(cfg, states, labels, i);
      CountAccounts(cfg, states[i..], labels[i..], x);
    }
  }

  lemma RunSuffix<Id>(cfg: Config, states: seq<State<Id>>, labels: seq<Label<Id>>, k: nat)
    requires Run(cfg, states, labels) && k <= |labels|
    ensures Run(cfg, states[k..], labels[k..])
  {
  }

  lemma BornIn<Id>(cfg: Config, s: State<Id>, x: Id)
    requires Inv(cfg, s) && x in s.items
    ensures x in s.born
  {
    hide SpaceOk, DiskOk, CpusOk, RefsCounted, ReadersOk, Tallied, ItemsOk;
    StillBorn(cfg, s, x);
  }

  lemma StaysBorn<Id>(cfg: Config, s: State<Id>, l: Label<Id>, t: State<Id>, x: Id)
    requires Inv(cfg, s) && Next(cfg, s, l, t) && x in s.items
    ensures x in t.born
  {
    hide Inv;
    BornIn(cfg, s, x);
    match l
    case DoTick(b) => TickBorn(s, s.chains[b]);
    case DoSelect(b, c) => SelectBorn(WithJob(s, c, Selected(b, [])), c, cfg.size, s.chains[b]);
    case DoRelease(c) => ReleaseBorn(s, s.chains[s.cpus[c].job.bkt]);
    case _ => hide TickAll, SelectAll, ReleaseAll;
  }

  lemma {:induction false} TickBorn<Id>(s: State<Id>, ids: seq<Id>)
    ensures TickAll(s, ids).born == s.born
  {
    if ids != [] {
      TickBorn(s, ids[..|ids| - 1]);
    }
  }

  /** An item that nobody refers to and nobody asks for goes at exactly the max(1, r)-th
      tick of its bucket, r being its count; until then it stays. */
  lemma {:induction false} ReclaimedOnTime<Id>(cfg: Config, states: seq<State<Id>>, labels: seq<Label<Id>>, x: Id)
    requires Run(cfg, states, labels) && Inv(cfg, states[0]) && x in states[0].items
    requires states[0].items[x].share == 1 && Hits(labels, x) == 0
    ensures var r := states[0].items[x].refcnt;
            x in states[|labels|].items <==> Ticks(labels, states[0].items[x].bkt) < if r > 1 then r else 1
    ensures x in states[|labels|].items ==> states[|labels|].items[x].share == 1
    decreases |labels|
  {
    hide Inv, Next;
    var k := |labels|;
    if k > 0 {
      RunPrefix(cfg, states, labels, k - 1);
      ReclaimedOnTime(cfg, states[..k], labels[..k - 1], x);
      CountAccounts(cfg, states[..k], labels[..k - 1], x);
      InvAlong(cfg, states[..k], labels[..k - 1]);
      if x in states[k - 1].items {
        StepOnItem(cfg, states[k - 1], labels[k - 1], states[k], x);
      } else {
        GoneStaysGone(cfg, states[k - 1], labels[k - 1], states[k], x);
      }
    }
  }
}
