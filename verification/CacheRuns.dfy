/** The chunk cache over whole runs: any interleaving of lookups, insertions, read-backs,
    ticks and the three sections of wr_file. */
module CacheRuns {
  import opened CacheInv
  import opened CacheReaders
  import opened CacheState
  import opened CacheTicks
  import opened CacheWriteBack

  ghost predicate Next<Id>(cfg: Config, s: State<Id>, l: Label<Id>, t: State<Id>) {
    Enabled(cfg, s, l) && t == After(cfg, s, l)
  }

  ghost predicate Run<Id>(cfg: Config, states: seq<State<Id>>, labels: seq<Label<Id>>) {
    && |states| == |labels| + 1
    && forall i :: 0 <= i < |labels| ==> Next(cfg, states[i], labels[i], states[i + 1])
  }

  lemma InvInitially<Id>(cfg: Config, s: State<Id>)
    requires Initial(cfg, s)
    ensures Inv(cfg, s)
  {
    assert forall k :: Total(s.items, k) == 0;
  }

  lemma StepKeepsInv<Id>(cfg: Config, s: State<Id>, l: Label<Id>, t: State<Id>)
    requires Inv(cfg, s) && Next(cfg, s, l, t)
    ensures Inv(cfg, t)
  {
    hide Inv;
    match l
    case DoInsert(x, sha, value) => InsertKeeps(cfg, s, x, sha, value);
    case DoHit(r, x, sha) => HitKeeps(cfg, s, r, x);
    case DoClassify(r) => ClassifyKeeps(cfg, s, r);
    case DoCheck(r) => CheckKeeps(cfg, s, r);
    case DoAlloc(r, mem) => AllocKeeps(cfg, s, r, mem);
    case DoRead(r) => ReadKeeps(cfg, s, r);
    case DoCopy(r) => CopyKeeps(cfg, s, r);
    case DoMark(r) => MarkKeeps(cfg, s, r);
    case DoDone(r) => OfReader(cfg, s, r); DropKeeps(cfg, s, r);
    case DoTick(b) => TickKeeps(cfg, s, s.chains[b]);
    case DoSelect(b, c) => SelectKeeps(cfg, s, b, c);
    case DoWrite(c) => WriteKeeps(cfg, s, c);
    case DoRelease(c) => ReleaseKeeps(cfg, s, c);
  }

  lemma {:induction false} InvOnRun<Id>(cfg: Config, states: seq<State<Id>>, labels: seq<Label<Id>>, i: nat)
    requires Run(cfg, states, labels) && Initial(cfg, states[0]) && i < |states|
    ensures Inv(cfg, states[i])
  {
    hide Inv, Initial, Next;
    if i == 0 {
      InvInitially(cfg, states[0]);
    } else {
      InvOnRun(cfg, states, labels, i - 1);
      StepKeepsInv(cfg, states[i - 1], labels[i - 1], states[i]);
    }
  }
}
