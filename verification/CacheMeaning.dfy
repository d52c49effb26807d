/** What the sections of the chunk cache do to each item, said item by item and in numbers,
    apart from the functions of CacheState. */
module CacheMeaning {
  import opened CacheInv
  import opened CacheLifetime
  import opened CacheState
  import opened CacheWriteBack

  // A search that has passed over k items stops at the next.
  lemma {:induction false} FirstWithAt<Id>(items: map<Id, Item>, chain: seq<Id>, sha: Sha, k: nat)
    requires k < |chain| && (forall j :: 0 <= j < |chain| ==> chain[j] in items)
    requires items[chain[k]].sha == sha && forall j :: 0 <= j < k ==> items[chain[j]].sha != sha
    ensures FirstWith(items, chain, sha, chain[k])
    decreases k
  {
    if k > 0 {
      FirstWithAt(items, chain[1..], sha, k - 1);
    }
  }

  /** And what it stops at is the first item of the chain that has the digest. */
  lemma {:induction false} FirstIsAt<Id>(items: map<Id, Item>, chain: seq<Id>, sha: Sha, id: Id) returns (k: nat)
    requires FirstWith(items, chain, sha, id) && forall j :: 0 <= j < |chain| ==> chain[j] in items
    ensures k < |chain| && chain[k] == id && items[id].sha == sha
    ensures forall j :: 0 <= j < k ==> items[chain[j]].sha != sha
    decreases |chain|
  {
    k := 0;
    if items[chain[0]].sha != sha {
      var i := FirstIsAt(items, chain[1..], sha, id);
      k := i + 1;
      assert forall j :: 0 < j < k ==> chain[j] == chain[1..][j - 1];
    }
  }

  // What a tick makes of an item of its bucket that stays.
  ghost predicate AgedTo(v: Item, w: Item) {
    && w == v.(refcnt := v.refcnt - 1, flag := w.flag)
    && (v.flag == 0 && v.refcnt > 12 ==> w.flag == 3)
    && (v.flag == 0 && 7 <= v.refcnt <= 12 ==> w.flag == 2)
    && (v.flag == 0 && v.refcnt < 7 ==> w.flag == 0)
    && (v.flag == 2 && v.refcnt > 12 && v.cpuid < 0 ==> w.flag == 3)
    && (v.flag == 2 && (v.refcnt <= 12 || v.cpuid >= 0) ==> w.flag == 2)
    && (v.flag != 0 && v.flag != 2 ==> w.flag == v.flag)
  }

  /** A tick over the items of a bucket: those that nobody holds and whose count is at most
      1 go, the others age, and items elsewhere stay what they are. */
  lemma TicksExactly<Id>(s: State<Id>, ids: seq<Id>, x: Id)
    requires NoDup(ids) && x in s.items && s.items[x].bkt < |s.chains|
    ensures var v, t := s.items[x], TickAll(s, ids);
            && (x !in ids ==> x in t.items && t.items[x] == v)
            && (x in ids && v.share == 1 && v.refcnt <= 1 ==> x !in t.items)
            && (x in ids && !(v.share == 1 && v.refcnt <= 1) ==> x in t.items && AgedTo(v, t.items[x]))
  {
    hide TickAll;
    TickAt(s, ids, x);
  }

  // The items of a list that are there, in its order.
  ghost function Present<Id>(ids: seq<Id>, there: set<Id>): seq<Id> {
    if ids == [] then []
    else if ids[0] in there then [ids[0]] + Present(ids[1..], there)
    else Present(ids[1..], there)
  }

  lemma {:induction false} PresentAll<Id>(ids: seq<Id>, there: set<Id>)
    requires forall x :: x in ids ==> x in there
    ensures Present(ids, there) == ids
  {
    if ids != [] {
      PresentAll(ids[1..], there);
      assert ids == [ids[0]] + ids[1..];
    }
  }

  lemma {:induction false} PresentWithout<Id>(ids: seq<Id>, there: set<Id>, x: Id)
    requires NoDup(ids)
    ensures Present(ids, there - {x})
         == if x in ids && x in there then Without(Present(ids, there), x) else Present(ids, there)
  {
    if ids != [] {
      var y, rest := ids[0], ids[1..];
      assert forall j :: 0 <= j < |rest| ==> rest[j] == ids[j + 1];
      PresentWithout(rest, there, x);
      assert x in ids <==> x == y || x in rest;
      assert y == x ==> x !in rest;
      WithoutCons(y, Present(rest, there), x);
      hide Without;
    }
  }

  lemma WithoutCons<T>(y: T, rest: seq<T>, x: T)
    ensures Without([y] + rest, x) == if y == x then rest else [y] + Without(rest, x)
  {
    assert ([y] + rest)[1..] == rest;
  }

  /** A tick leaves the items that stay in the order in which they were. */
  lemma {:induction false} TicksKeepOrder<Id>(s: State<Id>, ids: seq<Id>, b: nat)
    requires b < |s.chains| && NoDup(s.chains[b])
    requires forall x :: x in s.chains[b] <==> x in s.items && s.items[x].bkt == b
    ensures var t := TickAll(s, ids);
            && |t.chains| == |s.chains| && t.chains[b] == Present(s.chains[b], t.items.Keys)
            && t.items.Keys <= s.items.Keys && forall x :: x in t.items ==> t.items[x].bkt == s.items[x].bkt
  {
    if ids == [] {
      PresentAll(s.chains[b], s.items.Keys);
    } else {
      var t, x := TickAll(s, ids[..|ids| - 1]), ids[|ids| - 1];
      TicksKeepOrder(s, ids[..|ids| - 1], b);
      assert TickAll(s, ids) == TickOne(t, x);
      hide TickAll;
      OneTickKeepsOrder(s, t, x, b);
    }
  }

  lemma OneTickKeepsOrder<Id>(s: State<Id>, t: State<Id>, x: Id, b: nat)
    requires b < |s.chains| == |t.chains| && NoDup(s.chains[b])
    requires forall y :: y in s.chains[b] <==> y in s.items && s.items[y].bkt == b
    requires t.chains[b] == Present(s.chains[b], t.items.Keys)
    requires t.items.Keys <= s.items.Keys && forall y :: y in t.items ==> t.items[y].bkt == s.items[y].bkt
    ensures var u := TickOne(t, x);
            && |u.chains| == |s.chains| && u.chains[b] == Present(s.chains[b], u.items.Keys)
            && u.items.Keys <= s.items.Keys && forall y :: y in u.items ==> u.items[y].bkt == s.items[y].bkt
  {
    hide Present, Without, Expired;
    PresentWithout(s.chains[b], t.items.Keys, x);
    AgedStays(x, t);
    hide Aged;
    var u := TickOne(t, x);
    assert u.items.Keys == t.items.Keys || u.items.Keys == t.items.Keys - {x};
  }

  lemma AgedStays<Id>(x: Id, t: State<Id>)
    ensures x in t.items ==> Aged(t.items[x]).bkt == t.items[x].bkt
  {
  }

  // An item that the first section of wr_file is to place.
  ghost predicate ToPlace(v: Item) {
    6 <= v.refcnt < 12 && v.flag == 2 && v.cpuid == -1 && v.share == 1
  }

  // What has become of x when the items of ids have been looked at.
  ghost predicate SelectedTo<Id>(s: State<Id>, t: State<Id>, c: nat, ids: seq<Id>, x: Id)
    requires x in s.items && c < |s.cpus|
  {
    && |t.cpus| == |s.cpus| && s.cpus[c].index <= t.cpus[c].index && x in t.items
    && var v, w := s.items[x], t.items[x];
       if x in ids && ToPlace(v) then
         w == v.(cpuid := c, start := w.start)
         && s.cpus[c].index <= w.start && w.start + Num(v.len) <= t.cpus[c].index
       else w == v
  }

  lemma SelectedMore<Id>(s: State<Id>, t: State<Id>, u: State<Id>, c: nat, ids: seq<Id>, y: Id, x: Id)
    requires x in s.items && c < |s.cpus| && SelectedTo(s, t, c, ids, x)
    requires y in s.items && y in t.items && t.items[y] == s.items[y] && y !in ids && |u.cpus| == |t.cpus|
    requires u.items.Keys == t.items.Keys && (forall z :: z in t.items && z != y ==> u.items[z] == t.items[z])
    requires if ToPlace(t.items[y]) then
               && u.items[y] == t.items[y].(cpuid := c, start := t.cpus[c].index)
               && u.cpus[c].index == t.cpus[c].index + Num(t.items[y].len)
             else u == t
    ensures SelectedTo(s, u, c, ids + [y], x)
  {
    hide ToPlace, Num;
    assert x in ids + [y] <==> x in ids || x == y;
  }

  /** The first section of wr_file: exactly the items of the bucket that are in state 2,
      held by nobody, without a place and with a count from 6 to 11 get one, from
      bitmap_index on, and no other item changes. */
  lemma {:induction false} SelectsExactly<Id>(cfg: Config, s: State<Id>, b: nat, c: nat, k: nat, x: Id)
    requires Inv(cfg, s) && b < |s.chains| && k <= |s.chains[b]| && c < |s.cpus| && x in s.items
    requires s.cpus[c].job.Selected? && s.cpus[c].job.bkt == b
    requires s.cpus[c].index + Need(s.items, s.chains[b]) <= cfg.size
    ensures SelectedTo(s, SelectAll(s, c, cfg.size, s.chains[b][..k]), c, s.chains[b][..k], x)
  {
    hide Inv, ToPlace, SelectOne, SelectAll, Need, SelectedTo;
    if k == 0 {
      SelectedNone(s, c, cfg.size, x);
      assert s.chains[b][..0] == [];
      return;
    }
    var y, before := s.chains[b][k - 1], s.chains[b][..k - 1];
    var t, u := SelectAll(s, c, cfg.size, before), SelectAll(s, c, cfg.size, s.chains[b][..k]);
    SelectsExactly(cfg, s, b, c, k - 1, x);
    SelectAllKeeps(cfg, s, b, c, k - 1);
    assert s.chains[b][..k] == before + [y];
    SelectNext(cfg, s, b, c, k);
    SelectsOne(cfg, t, c, y, b);
    SelectedMore(s, t, u, c, before, y, x);
  }

  lemma SelectedNone<Id>(s: State<Id>, c: nat, size: nat, x: Id)
    requires c < |s.cpus| && s.cpus[c].job.Selected? && x in s.items
    ensures SelectedTo(s, SelectAll(s, c, size, []), c, [], x)
  {
  }

  // The k-th step of the second pass.
  lemma SelectNext<Id>(cfg: Config, s: State<Id>, b: nat, c: nat, k: nat)
    requires Inv(cfg, s) && b < |s.chains| && 0 < k <= |s.chains[b]| && c < |s.cpus|
    requires s.cpus[c].job.Selected? && s.cpus[c].job.bkt == b
    requires s.cpus[c].index + Need(s.items, s.chains[b]) <= cfg.size
    ensures var y, before := s.chains[b][k - 1], s.chains[b][..k - 1];
            var t := SelectAll(s, c, cfg.size, before);
            && SelectAll(s, c, cfg.size, s.chains[b][..k]) == SelectOne(t, c, cfg.size, y)
            && y !in before && y in s.items && y in t.items && t.items[y] == s.items[y]
            && b < |t.chains| && y in t.chains[b]
            && |t.cpus| == |s.cpus| && t.cpus[c].job.Selected? && t.cpus[c].job.bkt == b
            && (Eligible(t.items[y]) ==> t.cpus[c].index + Num(t.items[y].len) <= cfg.size)
  {
    hide Inv, SelectOne, Eligible;
    var y, before, ids := s.chains[b][k - 1], s.chains[b][..k - 1], s.chains[b][..k];
    SelectAllKeeps(cfg, s, b, c, k - 1);
    ChainOf(cfg, s, b, y);
    NotBefore(cfg, s, b, k - 1);
    NeedGrows(s.items, s.chains[b], k);
    assert ids[..k - 1] == before && ids[k - 1] == y;
  }

  lemma SelectsOne<Id>(cfg: Config, t: State<Id>, c: nat, y: Id, b: nat)
    requires Inv(cfg, t) && c < |t.cpus| && t.cpus[c].job.Selected? && t.cpus[c].job.bkt == b
    requires b < |t.chains| && y in t.chains[b] && y in t.items
    requires Eligible(t.items[y]) ==> t.cpus[c].index + Num(t.items[y].len) <= cfg.size
    ensures var u := SelectOne(t, c, cfg.size, y);
            && u.items.Keys == t.items.Keys && (forall x :: x in t.items && x != y ==> u.items[x] == t.items[x])
            && (if ToPlace(t.items[y]) then
                  && u.items[y] == t.items[y].(cpuid := c, start := t.cpus[c].index)
                  && u.cpus[c].index == t.cpus[c].index + Num(t.items[y].len)
                else u == t)
  {
    hide Inv;
    FitToPlace(cfg, t, y);
    if Eligible(t.items[y]) {
      hide Eligible;
      InvHasSpace(cfg, t);
      hide SpaceOk;
      AllocatesAtIndex(t, c, cfg.size, Num(t.items[y].len));
    }
  }

  lemma FitToPlace<Id>(cfg: Config, s: State<Id>, x: Id)
    requires Inv(cfg, s) && x in s.items
    ensures |s.items[x].data| <= 32 * Num(s.items[x].len) || s.items[x].flag != 2
    ensures Eligible(s.items[x]) <==> ToPlace(s.items[x])
  {
    hide Linked, SpaceOk, DiskOk, CpusOk, RefsCounted, ReadersOk, Tallied;
    assert ItemOk(s.items[x]);
  }

  /** The third section of wr_file: exactly the items of the bucket that are in state 2, held
      by nobody and have a place turn to state 1 and lose their memory. */
  lemma {:induction false} ReleasesExactly<Id>(s: State<Id>, ids: seq<Id>, x: Id)
    requires x in s.items
    ensures var v, t := s.items[x], ReleaseAll(s, ids);
            && x in t.items
            && t.items[x] == if x in ids && v.flag == 2 && v.share == 1 && v.cpuid >= 0
                             then v.(flag := 1, style := -1, data := []) else v
  {
    if ids != [] {
      var last := ids[|ids| - 1];
      ReleasesExactly(s, ids[..|ids| - 1], x);
      assert ids == ids[..|ids| - 1] + [last];
    }
  }
}
