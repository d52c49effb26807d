/** The state machine of the chunk cache: which step moves an item from which state to
    which, and that no step of the model is held up by a guard. */
module CacheMoves {
  import opened CacheInv
  import opened CacheLifetime
  import opened CacheReaders
  import opened CacheRuns
  import opened CacheState

  // The moves of the state machine, with what causes each.
  ghost predicate Moves<Id>(l: Label<Id>, v: Item, w: Item) {
    || w.flag == v.flag
    || (v.flag == IN_MEMORY && w.flag == TO_DISK && TicksIt(l, v.bkt) && ITEM_DISK_LIMIT <= w.refcnt < ITEM_VIP_LIMIT)
    || (v.flag == IN_MEMORY && w.flag == PINNED && TicksIt(l, v.bkt) && ITEM_VIP_LIMIT <= w.refcnt)
    || (v.flag == TO_DISK && w.flag == PINNED && TicksIt(l, v.bkt) && ITEM_VIP_LIMIT <= w.refcnt && v.cpuid < 0)
    || (v.flag == TO_DISK && w.flag == ON_DISK && l.DoRelease? && v.share == 1 && v.cpuid >= 0)
    || (v.flag == ON_DISK && w.flag == READ_BACK && l.DoHit?)
  }

  // What a tick leaves in memory, or waiting without a place, is there by its count.
  ghost predicate Settled(w: Item) {
    && (w.flag == IN_MEMORY ==> w.refcnt < ITEM_DISK_LIMIT)
    && (w.flag == TO_DISK && w.cpuid < 0 ==> w.refcnt < ITEM_VIP_LIMIT)
  }

  lemma AgedMoves<Id>(l: Label<Id>, v: Item)
    requires TicksIt(l, v.bkt)
    ensures Moves(l, v, Aged(v)) && Settled(Aged(v))
  {
  }

  lemma {:induction false} SelectKeepsFlag<Id>(s: State<Id>, c: nat, size: nat, ids: seq<Id>, x: Id)
    requires c < |s.cpus| && s.cpus[c].job.Selected? && x in s.items
    ensures x in SelectAll(s, c, size, ids).items && SelectAll(s, c, size, ids).items[x].flag == s.items[x].flag
  {
    if ids != [] {
      SelectKeepsFlag(s, c, size, ids[..|ids| - 1], x);
    }
  }

  lemma {:induction false} ReleaseMoves<Id>(s: State<Id>, ids: seq<Id>, x: Id)
    requires x in s.items
    ensures x in ReleaseAll(s, ids).items
    ensures var v, w := s.items[x], ReleaseAll(s, ids).items[x];
            w == v || (v.flag == TO_DISK && v.share == 1 && v.cpuid >= 0 && w.flag == ON_DISK)
  {
    if ids != [] {
      ReleaseMoves(s, ids[..|ids| - 1], x);
    }
  }

  /** Every step moves every item that stays by one of the documented transitions, and a
      tick leaves it in the state that its count calls for. */
  lemma StepMoves<Id>(cfg: Config, s: State<Id>, l: Label<Id>, t: State<Id>, x: Id)
    requires Inv(cfg, s) && Next(cfg, s, l, t) && x in s.items && x in t.items
    ensures Moves(l, s.items[x], t.items[x])
    ensures TicksIt(l, s.items[x].bkt) ==> Settled(t.items[x])
  {
    hide Inv;
    match l
    case DoTick(b) =>
      TickOnItem(cfg, s, b, x);
      if b == s.items[x].bkt {
        AgedMoves(l, s.items[x]);
      }
    case DoSelect(b, c) =>
      hide SelectAll;
      SelectKeepsFlag(WithJob(s, c, Selected(b, [])), c, cfg.size, s.chains[b], x);
    case DoRelease(c) =>
      hide ReleaseAll;
      ReleaseMoves(s, s.chains[s.cpus[c].job.bkt], x);
    case DoInsert(y, sha, value) => BornIn(cfg, s, x);
    case _ => hide TickAll, SelectAll, ReleaseAll;
  }

  lemma TickOnItem<Id>(cfg: Config, s: State<Id>, b: nat, x: Id)
    requires Inv(cfg, s) && b < |s.chains| && x in s.items
    ensures Ticked(s, TickAll(s, s.chains[b]), x, b == s.items[x].bkt)
  {
    hide SpaceOk, DiskOk, CpusOk, RefsCounted, ReadersOk, Tallied, ItemsOk;
    TickAt(s, s.chains[b], x);
  }

  // How far along its life an item is.
  function Rank(flag: int): int {
    if flag == IN_MEMORY then 0 else if flag == TO_DISK then 1 else if flag == ON_DISK then 2 else 3
  }

  /** Along a run an item only moves on: pinned and read-back items stay what they are. */
  lemma {:induction false} StatesOnlyMoveOn<Id>(cfg: Config, states: seq<State<Id>>, labels: seq<Label<Id>>, x: Id)
    requires Run(cfg, states, labels) && Inv(cfg, states[0]) && x in states[0].items && x in states[|labels|].items
    ensures var f, g := states[0].items[x].flag, states[|labels|].items[x].flag;
            Rank(f) <= Rank(g) && (Rank(f) == Rank(g) ==> f == g)
    decreases |labels|
  {
    hide Inv, Next;
    var k := |labels|;
    if k > 0 {
      RunPrefix(cfg, states, labels, k - 1);
      InvAlong(cfg, states[..k], labels[..k - 1]);
      CountAccounts(cfg, states[..k], labels[..k - 1], x);
      if x !in states[k - 1].items {
        GoneStaysGone(cfg, states[k - 1], labels[k - 1], states[k], x);
      }
      StatesOnlyMoveOn(cfg, states[..k], labels[..k - 1], x);
      StepMoves(cfg, states[k - 1], labels[k - 1], states[k], x);
    }
  }

  /** The guards that make a step well-defined are never in the way: a holder can always
      take its next step, a write and a release can always follow their selection. */
  lemma StepsAreReady<Id>(cfg: Config, states: seq<State<Id>>, labels: seq<Label<Id>>, i: nat)
    requires Run(cfg, states, labels) && Initial(cfg, states[0]) && i < |states|
    ensures forall r :: r in states[i].readers ==> HolderReady(cfg, states[i], r)
    ensures forall c :: 0 <= c < |states[i].cpus| && states[i].cpus[c].job.Selected?
              ==> Enabled(cfg, states[i], DoWrite(c))
    ensures forall c :: 0 <= c < |states[i].cpus| && states[i].cpus[c].job.Written?
              ==> Enabled(cfg, states[i], DoRelease(c))
  {
    hide Run, Initial, Inv, HolderReady, Enabled;
    var s := states[i];
    InvOnRun(cfg, states, labels, i);
    forall r | r in s.readers
      ensures HolderReady(cfg, s, r)
    {
      HolderIsReady(cfg, s, r);
    }
    forall c | 0 <= c < |s.cpus|
      ensures s.cpus[c].job.Selected? ==> Enabled(cfg, s, DoWrite(c))
      ensures s.cpus[c].job.Written? ==> Enabled(cfg, s, DoRelease(c))
    {
      RunIsReady(cfg, s, c);
    }
  }

  lemma RunIsReady<Id>(cfg: Config, s: State<Id>, c: nat)
    requires Inv(cfg, s) && c < |s.cpus|
    ensures s.cpus[c].job.Selected? ==> Enabled(cfg, s, DoWrite(c))
    ensures s.cpus[c].job.Written? ==> Enabled(cfg, s, DoRelease(c))
  {
    hide Linked, SpaceOk, DiskOk, RefsCounted, ReadersOk, Tallied, ItemsOk;
    assert CpuOk(s.cpus[c], |s.chains|);
  }

  ghost predicate HolderReady<Id>(cfg: Config, s: State<Id>, r: nat)
    requires r in s.readers
  {
    match s.readers[r].stage
    case Found => Enabled(cfg, s, DoClassify(r))
    case Queued => Enabled(cfg, s, DoCheck(r))
    case Missing => exists mem :: Enabled(cfg, s, DoAlloc(r, mem))
    case Room => Enabled(cfg, s, DoRead(r))
    case Loaded(buf) => Enabled(cfg, s, DoCopy(r))
    case Stored => Enabled(cfg, s, DoMark(r))
    case Filled => Enabled(cfg, s, DoDone(r))
  }

  lemma HolderIsReady<Id>(cfg: Config, s: State<Id>, r: nat)
    requires Inv(cfg, s) && r in s.readers
    ensures HolderReady(cfg, s, r)
  {
    hide Inv;
    OfReader(cfg, s, r);
    if s.readers[r].stage.Room? {
      ReadsOriginal(cfg, s, s.readers[r].item);
    }
    if s.readers[r].stage.Missing? {
      var mem := seq(s.items[s.readers[r].item].len, _ => 0);
      assert Enabled(cfg, s, DoAlloc(r, mem));
    }
  }
}
