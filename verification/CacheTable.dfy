/** The chunk cache as the program has it: items that are updated in place.  Each method
    is one section under a lock, and does to the table what CacheState's function says. */
module CacheTable {
  import opened Bitmap
  import opened CacheInv
  import opened CacheMeaning
  import opened CachePasses
  import opened CacheReaders
  import opened Bytes
  import opened CacheState
  import opened CacheTicks
  import opened CacheWriteBack
  import opened Chunk

  // struct hashinfo_item.
  class HashItem {
    var refcnt: int
    var shareRef: int
    var len: nat
    var sha1: Sha
    var data: seq<byte>
    var memStyle: int
    var cpuid: int
    var start: nat
    var flagCache: int
    var flagMem: bool
    ghost var bkt: nat
    ghost var orig: seq<byte>

    ghost function Value(): Item
      reads this
    {
      Item(bkt, sha1, len, orig, data, memStyle, flagCache, flagMem, cpuid, start, refcnt, shareRef)
    }

    constructor (info: Sha, value: seq<byte>, ghost b: nat)
      ensures len == |value| && memStyle == -1 && data == []
      ensures Value() == NewItem(b, info, value).(style := -1, data := [])
    {
      len, sha1, data, memStyle := |value|, info, [], -1;
      refcnt, shareRef, cpuid, start, flagCache, flagMem := ITEM_CITE_ADD, 1, -1, 0, IN_MEMORY, false;
      bkt, orig := b, value;
    }
  }

  lemma TableShape<Id>(cfg: Config, s: State<Id>)
    requires Inv(cfg, s)
    ensures cfg.Ok() && |s.chains| == cfg.buckets && |s.mm| == 4
    ensures forall x :: x in s.items ==> x in s.born
  {
    hide SpaceOk, DiskOk, CpusOk, RefsCounted, ReadersOk, ItemsOk;
  }

  lemma InsertParts<Id>(s: State<Id>, x: Id, bkt: nat, info: Sha, value: seq<byte>)
    requires bkt < |s.chains|
    ensures NewItem(bkt, info, value).bkt == bkt
    ensures var t := Insert(s.(mm := Counted(s.mm, StyleFor(|value|), |value|)), x, NewItem(bkt, info, value));
            t.(mm := Counted(s.mm, StyleFor(|value|), |value|)) == Insert(s, x, NewItem(bkt, info, value))
  {
  }

  lemma LinkedIn<Id>(cfg: Config, s: State<Id>, b: nat)
    requires Inv(cfg, s) && b < |s.chains|
    ensures NoDup(s.chains[b]) && forall x :: x in s.chains[b] <==> x in s.items && s.items[x].bkt == b
  {
    hide SpaceOk, DiskOk, CpusOk, RefsCounted, ReadersOk, ItemsOk;
  }

  lemma ChainInTable<Id>(cfg: Config, s: State<Id>, b: nat)
    requires Inv(cfg, s) && b < |s.chains|
    ensures forall j :: 0 <= j < |s.chains[b]| ==> s.chains[b][j] in s.items
    ensures forall x :: x in s.items && cfg.hash(s.items[x].sha) == b ==> x in s.chains[b]
  {
    hide SpaceOk, DiskOk, CpusOk, RefsCounted, ReadersOk, ItemsOk;
  }

  lemma ReclaimFacts<Id>(cfg: Config, s: State<Id>, x: Id)
    requires Inv(cfg, s) && x in s.items
    ensures s.items[x].bkt < |s.chains| && |s.mm| == 4
    ensures Expired(s.items[x]) && FreedOnReclaim(s.items[x]) ==> 0 <= s.items[x].style < 4
    ensures ClearedOnReclaim(s.items[x]) ==> 0 <= s.items[x].cpuid < |s.cpus|
  {
    LinkOf(cfg, s, x);
    OfItem(cfg, s, x);
    assert Placed(s.items[x], s.cpus);
    hide Linked, SpaceOk, DiskOk, CpusOk, RefsCounted, ReadersOk, ItemsOk;
  }

  lemma BucketFacts<Id>(cfg: Config, s: State<Id>, b: nat)
    requires Inv(cfg, s) && b < |s.chains|
    ensures NoDup(s.chains[b])
    ensures forall j :: 0 <= j < |s.chains[b]| ==> s.chains[b][j] in s.items && s.items[s.chains[b][j]].bkt == b
  {
    hide SpaceOk, DiskOk, CpusOk, RefsCounted, ReadersOk, ItemsOk;
  }

  // Between the two passes of wr_file.
  ghost function MarkedIf(v: Item, due: bool): Item {
    if due then Marked(v) else v
  }

  lemma NoneNeeded(items: map<HashItem, Item>)
    ensures Need(items, []) == 0
  {
  }

  lemma NeedOfMore(items: map<HashItem, Item>, ids: seq<HashItem>, k: nat)
    requires k < |ids| && ids[k] in items
    ensures Need(items, ids[..k + 1])
         == Need(items, ids[..k]) + if Eligible(items[ids[k]]) then Num(items[ids[k]].len) else 0
  {
    PrefixOfMore(ids, k);
  }

  lemma PrefixOfMore<T>(s: seq<T>, k: nat)
    requires k < |s|
    ensures s[..k + 1][..k] == s[..k] && s[..k + 1][k] == s[k]
    ensures forall x :: x in s[..k + 1] <==> x in s[..k] || x == s[k]
  {
    assert s[..k + 1] == s[..k] + [s[k]];
  }

  lemma NotBeforeIn<T>(s: seq<T>, k: nat)
    requires NoDup(s) && k < |s|
    ensures s[k] !in s[..k]
  {
  }

  // The zeroed buffer of wr_file, filled so far with buf.
  ghost predicate CopyOk(copyMem: seq<byte>, buf: seq<byte>) {
    buf <= copyMem && forall k :: |buf| <= k < |copyMem| ==> copyMem[k] == 0
  }

  // memcpy.
  function Overlay(copyMem: seq<byte>, at: nat, data: seq<byte>): seq<byte>
    requires at + |data| <= |copyMem|
  {
    copyMem[..at] + data + copyMem[at + |data|..]
  }

  lemma CopyBounds(copyMem: seq<byte>, buf: seq<byte>, v: Item)
    requires CopyOk(copyMem, buf) && |v.data| <= CHUNKSTEP * Num(v.len) && |buf| + CHUNKSTEP * Num(v.len) <= |copyMem|
    ensures CopyOk(Overlay(copyMem, |buf|, v.data), buf + Padded(v.data, CHUNKSTEP * Num(v.len)))
  {
  }

  // One step of the specification, in terms of the two passes.
  lemma SelectedOne(t: State<HashItem>, c: nat, size: nat, cp: HashItem)
    requires c < |t.cpus| && t.cpus[c].job.Selected? && cp in t.items && ItemOk(t.items[cp])
    ensures var v, p, t' := t.items[cp], t.cpus[c], SelectOne(t, c, size, cp);
            if !Eligible(v) then t' == t && Placing(v, p.(job := Idle), c, size) == Visit(v, p.(job := Idle), 0)
            else
              var g := Placing(Marked(v), p.(job := Idle), c, size);
              && g.num == Num(v.len) && |v.data| == v.len <= CHUNKSTEP * Num(v.len)
              && g.item == v.(cpuid := g.item.cpuid, start := g.item.start)
              && var buf := p.job.buf + Padded(v.data, CHUNKSTEP * Num(v.len));
                 t' == t.(items := t.items[cp := g.item], cpus := t.cpus[c := g.cpu.(job := p.job.(buf := buf))])
  {
    hide FirstFit, Region;
  }

  lemma InRest<T>(x: T, rest: seq<T>)
    ensures x in [x] + rest && forall y :: y in [x] + rest <==> y == x || y in rest
  {
  }

  lemma NothingCopied(copyMem: seq<byte>)
    requires forall k :: 0 <= k < |copyMem| ==> copyMem[k] == 0
    ensures CopyOk(copyMem, [])
  {
  }

  lemma AllCopied(copyMem: seq<byte>, buf: seq<byte>)
    requires CopyOk(copyMem, buf) && |buf| == |copyMem|
    ensures copyMem == buf
  {
  }

  // Before the k-th item of the second pass.
  lemma Ahead<Id>(cfg: Config, s: State<Id>, t: State<Id>, b: nat, c: nat, k: nat)
    requires Inv(cfg, s) && b < |s.chains| && k < |s.chains[b]| && c < |s.cpus| && s.cpus[c].job == Selected(b, [])
    requires s.cpus[c].index + Need(s.items, s.chains[b]) <= cfg.size
    requires t == SelectAll(s, c, cfg.size, s.chains[b][..k])
    ensures var x := s.chains[b][k];
            && x in t.items && x in s.items && t.items[x] == s.items[x] && ItemOk(t.items[x]) && SpaceOk(t)
            && |t.cpus| == |s.cpus| && t.cpus[c].index == s.cpus[c].index + Need(s.items, s.chains[b][..k])
  {
    hide Inv, ItemOk, SpaceOk, SelectOne, SelectAll, Need;
    var ids, x := s.chains[b], s.chains[b][k];
    SelectAllKeeps(cfg, s, b, c, k);
    ChainOf(cfg, s, b, x);
    NotBeforeIn(ids, k);
    InvHasSpace(cfg, t);
    OfItem(cfg, t, x);
  }

  lemma NoneYet<Id>(s: State<Id>, c: nat, size: nat)
    requires c < |s.cpus| && s.cpus[c].job.Selected?
    ensures SelectAll(s, c, size, []) == s && Need(s.items, []) == 0
  {
  }

  lemma {:induction false} SameRun<Id>(s: State<Id>, c: nat, size: nat, ids: seq<Id>)
    requires c < |s.cpus| && s.cpus[c].job.Selected?
    ensures SelectAll(s, c, size, ids).cpus[c].job.bkt == s.cpus[c].job.bkt
  {
    if ids != [] {
      SameRun(s, c, size, ids[..|ids| - 1]);
    }
  }

  lemma MayStart<Id>(cfg: Config, s: State<Id>, b: nat, c: nat)
    requires Inv(cfg, s) && Enabled(cfg, s, DoSelect(b, c))
    ensures c < |s.cpus| && b < |s.chains| && s.cpus[c].job.Idle? && NoDup(s.chains[b])
    ensures s.cpus[c].index + Need(s.items, s.chains[b]) <= cfg.size
    ensures forall x :: x in s.chains[b] ==> x in s.items
    ensures Inv(cfg, WithJob(s, c, Selected(b, []))) && Inv(cfg, Select(s, b, c, cfg.size))
  {
    hide Inv;
    BucketFacts(cfg, s, b);
    WithJobKeeps(cfg, s, c, Selected(b, []));
    SelectKeeps(cfg, s, b, c);
  }

  // The section of selection ends in one of two ways.
  lemma SelectEnds<Id>(s: State<Id>, b: nat, c: nat, size: nat)
    requires c < |s.cpus| && b < |s.chains|
    ensures var t := SelectAll(WithJob(s, c, Selected(b, [])), c, size, s.chains[b]);
            && (t.cpus[c].job.buf == [] ==> Select(s, b, c, size) == WithJob(t, c, Idle))
            && (t.cpus[c].job.buf != []
                ==> Select(s, b, c, size) == WithJob(WithJob(t, c, Idle), c, Selected(b, t.cpus[c].job.buf)))
  {
    hide SelectAll;
    SameRun(WithJob(s, c, Selected(b, [])), c, size, s.chains[b]);
  }

  lemma OneMore<Id>(s: State<Id>, c: nat, size: nat, ids: seq<Id>, k: nat)
    requires k < |ids| && c < |s.cpus| && s.cpus[c].job.Selected? && ids[k] in s.items && NoDup(ids)
    ensures ids[k] !in ids[k + 1..] && Need(s.items, ids[..k + 1]) <= Need(s.items, ids)
    ensures Need(s.items, ids[..k + 1])
         == Need(s.items, ids[..k]) + (if Eligible(s.items[ids[k]]) then Num(s.items[ids[k]].len) else 0)
    ensures SelectAll(s, c, size, ids[..k + 1]) == SelectOne(SelectAll(s, c, size, ids[..k]), c, size, ids[k])
  {
    hide SelectOne, Eligible;
    assert ids[..k + 1][..k] == ids[..k] && ids[..k + 1][k] == ids[k];
    assert forall j :: k < j < |ids| ==> ids[j] != ids[k];
    NeedGrows(s.items, ids, k + 1);
  }

  lemma TickNone<Id>(s: State<Id>)
    ensures TickAll(s, []) == s
  {
  }

  lemma TickMore<Id>(s: State<Id>, ids: seq<Id>, k: nat)
    requires k < |ids| && NoDup(ids)
    ensures TickAll(s, ids[..k + 1]) == TickOne(TickAll(s, ids[..k]), ids[k])
    ensures forall j :: 0 <= j < |ids| && j != k ==> ids[j] != ids[k]
  {
    hide TickOne;
    assert ids[..k + 1][..k] == ids[..k] && ids[..k + 1][k] == ids[k];
  }

  lemma ReleaseNone<Id>(s: State<Id>)
    ensures ReleaseAll(s, []) == s
  {
  }

  lemma ReleaseMore<Id>(s: State<Id>, ids: seq<Id>, k: nat)
    requires k < |ids|
    ensures ReleaseAll(s, ids[..k + 1]) == ReleaseOne(ReleaseAll(s, ids[..k]), ids[k])
  {
    hide ReleaseOne;
    assert ids[..k + 1][..k] == ids[..k] && ids[..k + 1][k] == ids[k];
  }

  class HashTable {
    const cfg: Config
    var chains: seq<seq<HashItem>>
    var cpus: seq<Cpu>
    var count: int
    var mm: seq<int>
    ghost var items: set<HashItem>
    ghost var readers: map<nat, Reader<HashItem>>
    ghost var born: set<HashItem>

    ghost function St(): State<HashItem>
      reads this, items
    {
      State(map x | x in items :: x.Value(), chains, cpus, readers, count, mm, born)
    }

    ghost predicate Valid()
      reads this, items
    {
      Inv(cfg, St())
    }

    constructor (cfg: Config, ncpus: nat, files: seq<seq<byte>>)
      requires cfg.Ok() && |files| == ncpus
      ensures Valid() && Initial(cfg, St()) && this.cfg == cfg && |cpus| == ncpus
    {
      this.cfg := cfg;
      chains := seq(cfg.buckets, _ => []);
      cpus := seq(ncpus, i requires 0 <= i < ncpus => Cpu({}, 0, 0, files[i], Idle));
      count, mm, items, readers, born := 0, [0, 0, 0, 0], {}, map[], {};
      new;
      assert Initial(cfg, St());
      assert forall k :: Total(St().items, k) == 0;
    }

    lemma ItemsAre(m: map<HashItem, Item>)
      requires m.Keys == items && forall x :: x in items ==> m[x] == x.Value()
      ensures St().items == m
    {
    }

    // ----- alloc_data_memory, free_data_memory -----

    // The least of the slabs of 32, 64 and 96 bytes that will do, or kmalloc.
    static function ClassOf(length: nat): (k: nat)
      ensures k < 4 && (k == 0 <==> length > 96)
      ensures k > 0 ==> length <= 32 * k && (k > 1 ==> length > 32 * (k - 1))
    {
      if length > 64 then if length > 96 then 0 else 3 else if length > 32 then 2 else 1
    }

    // A slab of the style, or kmalloc; mem is what was in it.
    method AllocDataMemory(cp: HashItem, length: nat) returns (mem: seq<byte>)
      requires length == cp.len && |mm| == 4
      modifies cp`data, cp`memStyle, this`mm
      ensures |mem| == length && cp.Value() == Alloc(old(cp.Value()), mem)
      ensures old(cp.memStyle) >= 0 ==> cp.memStyle == old(cp.memStyle) && cp.data == old(cp.data)
      ensures old(cp.memStyle) < 0 ==> cp.data == mem && cp.memStyle == ClassOf(length)
      ensures |mm| == 4
      ensures forall k :: 0 <= k < 4
                ==> mm[k] == old(mm[k]) + if old(cp.memStyle) < 0 && k == ClassOf(length) then length else 0
      ensures mm == if old(cp.memStyle) >= 0 then old(mm) else Counted(old(mm), StyleFor(length), length)
    {
      mem := seq(length, _ => 0);
      if cp.memStyle >= 0 {
        return;
      }
      cp.data := mem;
      if length <= CHUNKSTEP {
        cp.memStyle := 1;
        mm := mm[1 := mm[1] + length];
      } else if length <= CHUNKSTEP * 2 {
        cp.memStyle := 2;
        mm := mm[2 := mm[2] + length];
      } else if length <= CHUNKSTEP * 3 {
        cp.memStyle := 3;
        mm := mm[3 := mm[3] + length];
      } else {
        cp.memStyle := 0;
        mm := mm[0 := mm[0] + cp.len];
      }
    }

    method FreeDataMemory(cp: HashItem)
      requires 0 <= cp.memStyle < 4 && |mm| == 4
      modifies cp`data, cp`memStyle, this`mm
      ensures cp.Value() == Free(old(cp.Value())) && cp.memStyle == -1 && cp.data == []
      ensures |mm| == 4
      ensures forall k :: 0 <= k < 4 ==> mm[k] == old(mm[k]) - if k == old(cp.memStyle) then cp.len else 0
      ensures mm == Counted(old(mm), old(cp.memStyle), 0 - cp.len)
    {
      if cp.memStyle == 0 {
        mm := mm[0 := mm[0] - cp.len];
      } else if cp.memStyle == 1 {
        mm := mm[1 := mm[1] - cp.len];
      } else if cp.memStyle == 2 {
        mm := mm[2 := mm[2] - cp.len];
      } else if cp.memStyle == 3 {
        mm := mm[3 := mm[3] - cp.len];
      } else {
        assert false; // "you can't arrive here"
      }
      cp.memStyle := -1;
      cp.data := [];
    }

    // ----- hash_new_item, get_hash_item -----

    // The item before it is linked.
    method MakeItem(info: Sha, value: seq<byte>, ghost bkt: nat) returns (cp: HashItem)
      requires |mm| == 4
      modifies this`mm
      ensures fresh(cp) && cp.Value() == NewItem(bkt, info, value)
      ensures mm == Counted(old(mm), StyleFor(|value|), |value|)
    {
      cp := new HashItem(info, value, bkt);
      var _ := AllocDataMemory(cp, cp.len);
      cp.data := value;
    }

    /** hash_new_item, which refuses when the table is full. */
    method HashNewItem(info: Sha, value: seq<byte>) returns (cp: HashItem?)
      requires Valid()
      modifies this
      ensures Valid() && (cp == null <==> old(count) > cfg.limit)
      ensures cp == null ==> St() == old(St())
      ensures cp != null ==> cp !in old(born) && cfg.hash(info) < |old(chains)|
      ensures cp != null ==> St() == Insert<HashItem>(old(St()), cp, NewItem(cfg.hash(info), info, value))
      ensures cp != null ==> IsNew(cp, info, value) && cp in items && items == old(items) + {cp}
      ensures cp != null ==> count == old(count) + 1 && LinkedFirst(old(chains), chains, cfg.hash(info), cp)
    {
      hide *;
      ghost var s := St();
      Fields();
      if count > cfg.limit {
        return null;
      }
      cp := InsertItem(info, value);
      InsertMeans(s, cp, cfg.hash(info), info, value);
      Fields();
      ValueOf(cp);
    }

    // The item is at the head of its chain, and nothing else has changed.
    static ghost predicate LinkedFirst(was: seq<seq<HashItem>>, now: seq<seq<HashItem>>, b: nat, cp: HashItem) {
      b < |was| && now == was[b := [cp] + was[b]]
    }

    // The fields of a new item.
    ghost predicate IsNew(cp: HashItem, info: Sha, value: seq<byte>)
      reads cp
    {
      && cp.data == cp.orig == value && cp.len == |value| && cp.sha1 == info && cp.memStyle == ClassOf(|value|)
      && cp.flagCache == 0 && !cp.flagMem && cp.refcnt == 6 && cp.shareRef == 1 && cp.cpuid == -1
    }

    lemma InsertMeans(s: State<HashItem>, cp: HashItem, bkt: nat, info: Sha, value: seq<byte>)
      requires bkt < |s.chains|
      ensures NewItem(bkt, info, value).bkt == bkt
      ensures var t := Insert(s, cp, NewItem(bkt, info, value));
              && t.items == s.items[cp := NewItem(bkt, info, value)] && t.count == s.count + 1
              && LinkedFirst(s.chains, t.chains, bkt, cp)
      ensures cp.Value() == NewItem(bkt, info, value) ==> IsNew(cp, info, value)
    {
    }

    lemma Fields()
      ensures St().chains == chains && St().count == count && St().items.Keys == items && St().cpus == cpus
    {
    }

    lemma ValueOf(cp: HashItem)
      requires cp in St().items
      ensures cp in items && St().items[cp] == cp.Value()
    {
    }

    method InsertItem(info: Sha, value: seq<byte>) returns (cp: HashItem)
      requires Valid()
      modifies this
      ensures cp !in old(born) && cfg.hash(info) < |old(chains)|
      ensures Valid() && St() == Insert<HashItem>(old(St()), cp, NewItem(cfg.hash(info), info, value))
    {
      hide Inv, NewItem, Insert, StyleFor, Counted;
      ghost var s := St();
      var bkt := cfg.hash(info);
      TableShape(cfg, s);
      cp := MakeItem(info, value, bkt);
      InsertParts(s, cp, bkt, info, value);
      assert St() == s.(mm := mm);
      Link(cp, bkt);
      InsertKeeps(cfg, s, cp, info, value);
    }

    // list_add, and the count of items.
    method Link(cp: HashItem, bkt: nat)
      requires bkt < |chains| && cp.Value().bkt == bkt
      modifies this
      ensures St() == Insert(old(St()), cp, cp.Value()).(mm := mm) && mm == old(mm)
    {
      count := count + 1;
      chains := chains[bkt := [cp] + chains[bkt]];
      items, born := items + {cp}, born + {cp};
      assert St().items == old(St()).items[cp := cp.Value()];
    }

    // The first item of the chain with the digest.
    ghost predicate FirstInChain(chain: seq<HashItem>, info: Sha, cp: HashItem)
      reads chain
    {
      exists k :: 0 <= k < |chain| && chain[k] == cp && cp.sha1 == info
                  && forall j :: 0 <= j < k ==> chain[j].sha1 != info
    }

    // The loop of get_hash_item.
    method FindItem(info: Sha) returns (cp: HashItem?)
      requires Valid()
      ensures cfg.hash(info) < |chains|
      ensures cp == null ==> forall x :: x in items ==> x.sha1 != info
      ensures cp != null ==> cp in items && FirstWith<HashItem>(St().items, chains[cfg.hash(info)], info, cp)
      ensures cp != null ==> FirstInChain(chains[cfg.hash(info)], info, cp)
    {
      hide Inv, FirstWith;
      ghost var s := St();
      TableShape(cfg, s);
      var chain := chains[cfg.hash(info)];
      ChainInTable(cfg, s, cfg.hash(info));
      var k := 0;
      while k < |chain|
        invariant 0 <= k <= |chain|
        invariant forall j :: 0 <= j < k ==> chain[j].sha1 != info
      {
        assert chain[k] in s.items && s.items[chain[k]].sha == chain[k].sha1;
        if chain[k].sha1 == info {
          FirstWithAt(s.items, chain, info, k);
          return chain[k];
        }
        k := k + 1;
      }
      cp := null;
      forall x | x in items
        ensures x.sha1 != info
      {
        assert x in s.items;
      }
    }

    // What get_hash_item does to the item it has found.
    method CiteItem(cp: HashItem, ghost r: nat)
      requires Valid() && cp in items && r !in readers
      modifies this`readers, cp`refcnt, cp`shareRef, cp`flagCache
      ensures Valid() && St() == Hit(old(St()), r, cp)
      ensures cp.refcnt == old(cp.refcnt) + 6 && cp.shareRef == old(cp.shareRef) + 1
      ensures cp.flagCache == if old(cp.flagCache) == 1 then 4 else old(cp.flagCache)
      ensures readers == old(readers)[r := Reader(cp, -1, Found)]
    {
      hide Inv, ItemOk;
      ghost var m := St().items[cp := Cited(cp.Value())];
      HitKeeps(cfg, St(), r, cp);
      cp.refcnt := cp.refcnt + ITEM_CITE_FIND;
      cp.shareRef := cp.shareRef + 1;
      if cp.flagCache == ON_DISK {
        cp.flagCache := READ_BACK;
      }
      readers := readers[r := Reader(cp, -1, Found)];
      ItemsAre(m);
    }

    /** get_hash_item: the first item of the chain with the digest, cited, or null when
        there is none in the whole table. */
    method GetHashItem(info: Sha, ghost r: nat) returns (cp: HashItem?)
      requires Valid() && r !in readers
      modifies this`readers, items
      ensures Valid() && cfg.hash(info) < |old(chains)|
      ensures cp == null ==> St() == old(St()) && forall x :: x in items ==> x.sha1 != info
      ensures cp != null ==> cp in old(items) && St() == Hit<HashItem>(old(St()), r, cp)
      ensures cp != null ==> FirstWith<HashItem>(old(St()).items, old(chains)[cfg.hash(info)], info, cp)
      ensures cp != null ==> FirstInChain(old(chains)[cfg.hash(info)], info, cp) && CitedBy(old(St()), cp, r)
    {
      hide Inv, Hit, FirstWith, Valid, CitedBy;
      ghost var s := St();
      cp := FindItem(info);
      if cp != null {
        CiteItem(cp, r);
        CiteMeans(s, cp, r);
      }
    }

    // The item has been cited, and r holds it; all else is as in s.
    ghost predicate CitedBy(s: State<HashItem>, cp: HashItem, r: nat)
      reads this, items
    {
      && cp in s.items && s.items.Keys == items
      && cp.refcnt == s.items[cp].refcnt + 6 && cp.shareRef == s.items[cp].share + 1
      && cp.flagCache == (if s.items[cp].flag == 1 then 4 else s.items[cp].flag)
      && readers == s.readers[r := Reader(cp, -1, Found)] && chains == s.chains && cpus == s.cpus && mm == s.mm
      && forall x :: x in items && x != cp ==> x.Value() == s.items[x]
    }

    lemma CiteMeans(s: State<HashItem>, cp: HashItem, r: nat)
      requires cp in s.items && St() == Hit(s, r, cp)
      ensures CitedBy(s, cp, r)
    {
      assert forall x :: x in items <==> x in St().items;
      assert forall x :: x in items ==> St().items[x] == x.Value();
      assert cp.Value() == Cited(s.items[cp]);
      assert St().items.Keys == s.items.Keys;
    }

    // ----- The holder of a reference: hand_hash and read_data -----

    // atomic_dec(&item->share_ref).
    method PutItem(cp: HashItem, ghost r: nat)
      requires Valid() && cp in items && r in readers && readers[r].item == cp
      requires cp.flagCache != READ_BACK || cp.flagMem
      modifies this`readers, cp`shareRef
      ensures Valid() && St() == Drop(old(St()), r) && readers == old(readers) - {r}
      ensures cp.shareRef == old(cp.shareRef) - 1
    {
      hide Inv;
      DropKeeps(cfg, St(), r);
      cp.shareRef := cp.shareRef - 1;
      readers := readers - {r};
      assert St().items == old(St()).items[cp := cp.Value()];
    }

    /** The rest of hand_hash: an item in memory is let go, one to be read back is queued
        for its CPU. */
    method HandFound(cp: HashItem, ghost r: nat) returns (queued: bool)
      requires Valid() && cp in items && ReaderAt(St(), r, Found) && readers[r].item == cp
      modifies this`readers, cp`shareRef
      ensures Valid() && St() == Classify(old(St()), r)
      ensures queued == (old(cp.flagCache) == 4) && (queued ==> 0 <= cp.cpuid < |cpus|)
      ensures !queued ==> cp.shareRef == old(cp.shareRef) - 1 && readers == old(readers) - {r}
      ensures queued ==> cp.shareRef == old(cp.shareRef) && readers == old(readers)[r := Reader(cp, cp.cpuid, Queued)]
    {
      hide Inv;
      ghost var s := St();
      ClassifyKeeps(cfg, s, r);
      queued := cp.flagCache == READ_BACK;
      if !queued {
        PutItem(cp, r);
      } else {
        ReadsOriginal(cfg, s, cp);
        if cp.cpuid >= |cpus| {
          assert false; // BUG()
        }
        readers := readers[r := readers[r].(cpu := cp.cpuid, stage := Queued)];
        assert St().items == s.items;
      }
    }

    // A section of read_data that only looks.
    method CheckMem(cp: HashItem, ghost r: nat) returns (missing: bool)
      requires Valid() && cp in items && ReaderAt(St(), r, Queued) && readers[r].item == cp
      modifies this`readers
      ensures Valid() && St() == ReadCheck(old(St()), r) && missing == !cp.flagMem
      ensures readers == old(readers)[r := old(readers)[r].(stage := if missing then Missing else Filled)]
      ensures ReaderAt(St(), r, if missing then Missing else Filled)
    {
      hide Inv;
      CheckKeeps(cfg, St(), r);
      missing := !cp.flagMem;
      readers := readers[r := readers[r].(stage := if missing then Missing else Filled)];
      assert St().items == old(St()).items;
    }

    // Under data_lock: room for the bytes.
    method MakeRoom(cp: HashItem, ghost r: nat) returns (mem: seq<byte>)
      requires Valid() && cp in items && ReaderAt(St(), r, Missing) && readers[r].item == cp
      modifies this`readers, this`mm, cp`data, cp`memStyle
      ensures |mem| == cp.len && Valid() && St() == ReadAlloc(old(St()), r, mem)
      ensures old(cp.memStyle) >= 0 ==> cp.memStyle == old(cp.memStyle) && cp.data == old(cp.data)
      ensures old(cp.memStyle) < 0 ==> cp.data == mem && cp.memStyle == ClassOf(cp.len)
      ensures readers == old(readers)[r := old(readers)[r].(stage := Room)] && ReaderAt(St(), r, Room)
    {
      hide Inv, Alloc, Counted, StyleFor;
      ghost var s := St();
      TableShape(cfg, s);
      mem := AllocDataMemory(cp, cp.len);
      AllocKeeps(cfg, s, r, mem);
      readers := readers[r := readers[r].(stage := Room)];
      assert St().items == s.items[cp := cp.Value()];
    }

    // kernel_read.
    method LoadBytes(cp: HashItem, cpu: nat, ghost r: nat) returns (buffer: seq<byte>)
      requires Valid() && cp in items && ReaderAt(St(), r, Room) && readers[r].item == cp && readers[r].cpu == cpu
      modifies this`readers
      ensures Valid() && cpu < |old(cpus)| && St() == ReadFile(old(St()), r)
      ensures buffer == cp.orig
      ensures readers == old(readers)[r := old(readers)[r].(stage := Loaded(buffer))]
      ensures ReaderAt(St(), r, Loaded(buffer))
    {
      hide Inv;
      ghost var s := St();
      ReadKeeps(cfg, s, r);
      OfReader(cfg, s, r);
      ReadsOriginal(cfg, s, cp);
      var file, pos := cpus[cpu].file, cp.start * CHUNKSTEP;
      buffer := if pos + cp.len <= |file| then file[pos..pos + cp.len] else if pos <= |file| then file[pos..] else [];
      buffer := Padded(buffer, cp.len);
      readers := readers[r := readers[r].(stage := Loaded(buffer))];
      assert St().items == s.items;
    }

    // Under data_lock: the bytes move to the item.
    method StoreBytes(cp: HashItem, buffer: seq<byte>, ghost r: nat)
      requires Valid() && cp in items && ReaderAt(St(), r, Loaded(buffer)) && readers[r].item == cp
      modifies this`readers, cp`data
      ensures Valid() && St() == ReadCopy(old(St()), r) && cp.data == buffer
      ensures readers == old(readers)[r := old(readers)[r].(stage := Stored)] && ReaderAt(St(), r, Stored)
    {
      hide Inv;
      CopyKeeps(cfg, St(), r);
      cp.data := buffer;
      readers := readers[r := readers[r].(stage := Stored)];
      assert St().items == old(St()).items[cp := cp.Value()];
    }

    method MarkInMemory(cp: HashItem, ghost r: nat)
      requires Valid() && cp in items && ReaderAt(St(), r, Stored) && readers[r].item == cp
      modifies this`readers, cp`flagMem
      ensures Valid() && St() == ReadMark(old(St()), r) && cp.flagMem
      ensures readers == old(readers)[r := old(readers)[r].(stage := Filled)] && ReaderAt(St(), r, Filled)
    {
      hide Inv;
      MarkKeeps(cfg, St(), r);
      cp.flagMem := true;
      readers := readers[r := readers[r].(stage := Filled)];
      assert St().items == old(St()).items[cp := cp.Value()];
    }

    lemma FilledIsOriginal(cp: HashItem, r: nat)
      requires Valid() && cp in items && ReaderAt(St(), r, Filled) && readers[r].item == cp
      ensures cp.flagMem && cp.data == cp.orig
    {
      hide Inv;
      OfItem(cfg, St(), cp);
      OfReader(cfg, St(), r);
    }

    /** The body of read_data's loop when nobody comes between its sections: the item's
        bytes are back in memory, and the reference is given back. */
    method ReadEntry(cp: HashItem, cpu: nat, ghost r: nat)
      requires Valid() && cp in items && ReaderAt(St(), r, Queued) && readers[r].item == cp && readers[r].cpu == cpu
      modifies this`readers, this`mm, cp`data, cp`memStyle, cp`flagMem, cp`shareRef
      ensures Valid() && readers == old(readers) - {r}
      ensures cp.flagMem && cp.data == cp.orig
    {
      hide *;
      HasReader(r, Queued);
      var missing := CheckMem(cp, r);
      if missing {
        var _ := MakeRoom(cp, r);
        var buffer := LoadBytes(cp, cpu, r);
        StoreBytes(cp, buffer, r);
        MarkInMemory(cp, r);
      }
      FilledIsOriginal(cp, r);
      PutItem(cp, r);
    }

    lemma HasReader(r: nat, stage: Stage)
      requires ReaderAt(St(), r, stage)
      ensures r in readers && readers[r].stage == stage
    {
    }

    // ----- bucket_clear_item -----

    // The loop over clear_bit.
    method ClearBits(c: nat, start: nat, len: nat)
      requires c < |cpus|
      modifies this`cpus
      ensures cpus == old(cpus)[c := old(cpus)[c].(bits := old(cpus)[c].bits - Region(start, len))]
      ensures forall u: nat :: u in cpus[c].bits <==> u in old(cpus)[c].bits && !(start <= u < start + Num(len))
    {
      var num := if len <= CHUNKSTEP then 1 else (len + CHUNKSTEP - 1) / CHUNKSTEP;
      ghost var bits := cpus[c].bits;
      for i := 0 to num
        invariant |cpus| == |old(cpus)| && cpus == old(cpus)[c := old(cpus)[c].(bits := cpus[c].bits)]
        invariant forall u: nat :: u in cpus[c].bits <==> u in bits && !(start <= u < start + i)
      {
        cpus := cpus[c := cpus[c].(bits := cpus[c].bits - {start + i})];
      }
      assert num == Num(len) && forall u: nat :: u in Region(start, len) <==> Within(u, start, len);
      assert cpus[c].bits == bits - Region(start, len);
    }

    // What an item holds: its memory and its place on disk.
    method FreeHoldings(cp: HashItem)
      requires |mm| == 4 && (FreedOnReclaim(cp.Value()) ==> 0 <= cp.memStyle < 4)
      requires ClearedOnReclaim(cp.Value()) ==> 0 <= cp.cpuid < |cpus|
      modifies this`mm, this`cpus, cp`data, cp`memStyle
      ensures mm == if FreedOnReclaim(old(cp.Value())) then Counted(old(mm), old(cp.memStyle), 0 - cp.len) else old(mm)
      ensures cpus == if ClearedOnReclaim(old(cp.Value()))
                      then
                        var p := old(cpus)[cp.cpuid];
                        old(cpus)[cp.cpuid := p.(bits := p.bits - Region(cp.start, cp.len))]
                      else old(cpus)
    {
      hide Counted, Region;
      if cp.flagCache == 0 || cp.flagCache == 2 || cp.flagCache == 3 || cp.flagCache == 4 {
        FreeDataMemory(cp);
      }
      if cp.flagCache == 1 || (cp.flagCache == 2 && cp.cpuid >= 0) || cp.flagCache == 4 {
        ClearBits(cp.cpuid, cp.start, cp.len);
      }
    }

    // An expired item leaves the table.
    method ReclaimItem(cp: HashItem, b: nat)
      requires cp in items && cp.bkt == b < |chains| && |mm| == 4
      requires FreedOnReclaim(cp.Value()) ==> 0 <= cp.memStyle < 4
      requires ClearedOnReclaim(cp.Value()) ==> 0 <= cp.cpuid < |cpus|
      modifies this, cp`data, cp`memStyle
      ensures St() == Reclaim(old(St()), cp) && items == old(items) - {cp}
    {
      hide Counted, Region, Without, FreedOnReclaim, ClearedOnReclaim;
      ghost var m := St().items - {cp};
      chains := chains[b := Without(chains[b], cp)];
      count := count - 1;
      FreeHoldings(cp);
      items := items - {cp};
      ItemsAre(m);
    }

    // The state machine.
    method AgeItem(cp: HashItem)
      requires cp in items
      modifies cp`refcnt, cp`flagCache
      ensures St() == old(St()).(items := old(St()).items[cp := Aged(old(cp.Value()))])
    {
      cp.refcnt := cp.refcnt - 1;
      if cp.refcnt >= ITEM_VIP_LIMIT && cp.flagCache == 0 {
        cp.flagCache := 3;
      }
      if cp.refcnt < ITEM_VIP_LIMIT && cp.refcnt >= ITEM_DISK_LIMIT && cp.flagCache == 0 {
        cp.flagCache := 2;
      }
      if cp.refcnt >= ITEM_VIP_LIMIT && cp.flagCache == 2 && cp.cpuid < 0 {
        cp.flagCache := 3;
      }
      assert cp.Value() == Aged(old(cp.Value()));
      assert St().items == old(St()).items[cp := cp.Value()];
    }

    method TickItem(cp: HashItem, ghost all: set<HashItem>, b: nat)
      requires Valid() && cp in items && cp.bkt == b
      modifies this, cp`data, cp`memStyle, cp`refcnt, cp`flagCache
      ensures Valid() && St() == TickOne(old(St()), cp)
      ensures items == if Expired(old(cp.Value())) then old(items) - {cp} else old(items)
      ensures Wanted(cp) <==> ITEM_DISK_LIMIT <= cp.refcnt < ITEM_VIP_LIMIT
      ensures forall x :: x in all && x != cp ==> Wanted(x) == old(Wanted(x))
    {
      hide Inv, Reclaim, Aged;
      ghost var s := St();
      TickOneKeeps(cfg, s, cp);
      ReclaimFacts(cfg, s, cp);
      if cp.shareRef == 1 && cp.refcnt <= 1 {
        ReclaimItem(cp, b);
      } else {
        AgeItem(cp);
      }
    }

    ghost predicate Wanted(x: HashItem)
      reads this, x
    {
      x in items && ITEM_DISK_LIMIT <= x.refcnt < ITEM_VIP_LIMIT
    }

    // What the tick has made of an item that was v: it has gone, aged or stayed the same.
    ghost predicate TickedTo(v: Item, due: bool, x: HashItem)
      reads this, x
    {
      if !due then x in items && x.Value() == v
      else if v.share == 1 && v.refcnt <= 1 then x !in items
      else x in items && AgedTo(v, x.Value())
    }

    // The tick of bucket b of the table s, and whether it wants a run of wr_file.
    ghost predicate BucketTicked(s: State<HashItem>, b: nat, flag: bool)
      reads this, s.items.Keys, if b < |s.chains| then s.chains[b] else []
    {
      && b < |s.chains|
      && (flag <==> exists x :: x in s.chains[b] && x in items && 6 <= x.refcnt < 12)
      && |chains| == |s.chains| && chains[b] == Present(s.chains[b], items)
      && forall x :: x in s.items ==> TickedTo(s.items[x], x in s.chains[b], x)
    }

    lemma TickMeans(s: State<HashItem>, b: nat, flag: bool)
      requires Inv(cfg, s) && b < |s.chains| && St() == TickAll(s, s.chains[b])
      requires flag <==> exists x :: x in s.chains[b] && Wanted(x)
      ensures BucketTicked(s, b, flag)
    {
      hide Inv, TickAll, TickedTo, Present, HashItem.Value;
      LinkedIn(cfg, s, b);
      TicksKeepOrder(s, s.chains[b], b);
      assert St().items.Keys == items;
      forall x | x in s.items
        ensures TickedTo(s.items[x], x in s.chains[b], x)
      {
        TickMeansOf(s, b, x);
      }
    }

    lemma TickMeansOf(s: State<HashItem>, b: nat, x: HashItem)
      requires Inv(cfg, s) && b < |s.chains| && St() == TickAll(s, s.chains[b]) && x in s.items
      ensures TickedTo(s.items[x], x in s.chains[b], x)
    {
      hide Inv, TickAll, HashItem.Value, AgedTo;
      ReclaimFacts(cfg, s, x);
      BucketFacts(cfg, s, b);
      assert x in items ==> St().items[x] == x.Value();
      TicksExactly(s, s.chains[b], x);
    }

    /** bucket_clear_item: one tick for each item of the bucket; flag says whether a run of
        wr_file is wanted. */
    method BucketClearItem(b: nat) returns (flag: bool)
      requires Valid() && b < |chains|
      modifies this, items
      ensures Valid() && St() == TickAll(old(St()), old(chains)[b])
      ensures BucketTicked(old(St()), b, flag)
    {
      hide Inv, TickOne, TickAll;
      ghost var s, all := St(), items;
      var ids := chains[b];
      BucketFacts(cfg, s, b);
      TickNone(s);
      assert ids[..0] == [];
      assert s.items.Keys == items && forall x :: x in items ==> s.items[x] == x.Value();
      hide Valid, St, Wanted, NoDup, HashItem.Value, BucketTicked;
      flag := false;
      var k := 0;
      while k < |ids|
        invariant k <= |ids| && Valid() && items <= all && St() == TickAll(s, ids[..k])
        invariant forall j :: 0 <= j < |ids| ==> ids[j] in all && ids[j].bkt == b
        invariant forall j :: k <= j < |ids| ==> ids[j] in items
        invariant flag ==> exists j :: 0 <= j < k && Wanted(ids[j])
        invariant !flag ==> forall j :: 0 <= j < k ==> !Wanted(ids[j])
      {
        TickMore(s, ids, k);
        TickItem(ids[k], all, b);
        if ids[k].refcnt >= ITEM_DISK_LIMIT && ids[k].refcnt < ITEM_VIP_LIMIT && !flag {
          flag := true;
        }
        k := k + 1;
      }
      assert ids[..k] == ids;
      TickMeans(s, b, flag);
    }

    // ----- wr_file -----

    // The loop over set_bit.
    method SetBits(c: nat, start: nat, len: nat)
      requires c < |cpus|
      modifies this`cpus
      ensures cpus == old(cpus)[c := old(cpus)[c].(bits := old(cpus)[c].bits + Region(start, len))]
      ensures forall u: nat :: u in cpus[c].bits <==> u in old(cpus)[c].bits || start <= u < start + Num(len)
    {
      var num := Num(len);
      ghost var bits := cpus[c].bits;
      for i := 0 to num
        invariant |cpus| == |old(cpus)| && cpus == old(cpus)[c := old(cpus)[c].(bits := cpus[c].bits)]
        invariant forall u: nat :: u in cpus[c].bits <==> u in bits || start <= u < start + i
      {
        cpus := cpus[c := cpus[c].(bits := cpus[c].bits + {start + i})];
      }
      assert forall u: nat :: u in Region(start, len) <==> Within(u, start, len);
      assert cpus[c].bits == bits + Region(start, len);
    }

    // The first pass: the items to be written are marked by a cpuid of -2.
    method MarkEligible(b: nat) returns (allSize: nat)
      requires b < |chains| && forall x :: x in chains[b] ==> x in items
      requires NoDup(chains[b])
      modifies items`cpuid
      ensures allSize == CHUNKSTEP * Need(old(St()).items, chains[b])
      ensures forall x :: x in items ==> x.Value() == MarkedIf(old(x.Value()), x in chains[b])
    {
      ghost var s := St();
      NoneNeeded(s.items);
      hide Marked, Eligible, Num, NoDup, Need;
      allSize := 0;
      var ids := chains[b];
      for k := 0 to |ids|
        invariant allSize == CHUNKSTEP * Need(s.items, ids[..k])
        invariant forall x :: x in items ==> x.Value() == MarkedIf(old(x.Value()), x in ids[..k])
      {
        var cp := ids[k];
        NotBeforeIn(ids, k);
        PrefixOfMore(ids, k);
        NeedOfMore(s.items, ids, k);
        var num := MarkItem(cp);
        allSize := allSize + num * CHUNKSTEP;
      }
      assert ids[..|ids|] == ids;
    }

    method MarkItem(cp: HashItem) returns (num: nat)
      modifies cp`cpuid
      ensures cp.Value() == MarkedIf(old(cp.Value()), true)
      ensures num == if Eligible(old(cp.Value())) then Num(cp.len) else 0
      ensures cp.cpuid == if ToPlace(old(cp.Value())) then -2 else old(cp.cpuid)
    {
      num := 0;
      if cp.refcnt < ITEM_VIP_LIMIT && cp.refcnt >= ITEM_DISK_LIMIT && cp.flagCache == 2 && cp.cpuid == -1
        && cp.shareRef == 1 {
        if cp.len <= CHUNKSTEP {
          num := 1;
        } else {
          num := (cp.len + CHUNKSTEP - 1) / CHUNKSTEP;
        }
        cp.cpuid := -2;
      }
    }

    // In the second pass: t is what the specification has reached, and the items of rest
    // still carry their marks.  The table gets its job only at the end.
    ghost predicate Behind(t: State<HashItem>, c: nat, rest: seq<HashItem>)
      reads this, items
    {
      && t.items.Keys == items && c < |t.cpus| && t.cpus[c].job.Selected?
      && cpus == t.cpus[c := t.cpus[c].(job := Idle)]
      && chains == t.chains && readers == t.readers && count == t.count && mm == t.mm && born == t.born
      && forall x :: x in items ==> x.Value() == MarkedIf(t.items[x], x in rest)
    }

    // One item of the second pass.  The first test is for an item that was cited after it
    // was marked; it keeps state 2 and is not written.
    method PlaceItem(cp: HashItem, c: nat) returns (num: nat)
      requires c < |cpus|
      requires cp.cpuid == -2 && cp.shareRef == 1 ==>
                 FirstFit(cpus[c].bits, cfg.size, cpus[c].index, Num(cp.len), 1) <= cfg.size
      modifies this`cpus, cp`cpuid, cp`start
      ensures |cpus| == |old(cpus)| && cpus == old(cpus)[c := cpus[c]]
      ensures Visit(cp.Value(), cpus[c], num) == Placing(old(cp.Value()), old(cpus)[c], c, cfg.size)
      ensures old(cp.cpuid) == -2 && old(cp.flagCache) == 2 && old(cp.shareRef) > 1 ==> cp.cpuid == -1 && num == 0
      ensures old(cp.cpuid) == -2 && ToPlace(old(cp.Value()).(cpuid := -1))
              ==> && cp.cpuid == c && cpus[c].index == old(cpus)[c].index + num
                  && forall u: nat :: u in cpus[c].bits <==> u in old(cpus)[c].bits || cp.start <= u < cp.start + num
    {
      hide Region, FirstFit;
      num := 0;
      if cp.cpuid == -2 && cp.flagCache == 2 && cp.shareRef > 1 {
        cp.cpuid := -1;
        return;
      }
      if cp.refcnt < ITEM_VIP_LIMIT && cp.refcnt >= ITEM_DISK_LIMIT && cp.cpuid == -2 && cp.flagCache == 2
        && cp.shareRef == 1 {
        num := if cp.len <= CHUNKSTEP then 1 else (cp.len + CHUNKSTEP - 1) / CHUNKSTEP;
        var findIndex := FindNextZeroArea(cpus[c].bits, cfg.size, cpus[c].index, num, 1);
        FirstZeroAreaIsFirstFit(cpus[c].bits, cfg.size, cpus[c].index, num, 1, findIndex);
        if findIndex > cfg.size {
          assert false; // BUG()
        }
        cp.start := findIndex;
        cp.cpuid := c;
        SetBits(c, cp.start, cp.len);
        cpus := cpus[c := cpus[c].(index := cpus[c].index + num)];
      }
    }

    // The body of the second loop: place the item, and copy its bytes.
    method SelectItem(cp: HashItem, c: nat, copyMem: seq<byte>, memIndex: nat,
                      ghost t: State<HashItem>, ghost rest: seq<HashItem>)
      returns (num: nat, copied: seq<byte>)
      requires cp in items && cp !in rest && Behind(t, c, [cp] + rest) && ItemOk(t.items[cp]) && SpaceOk(t)
      requires Eligible(t.items[cp]) ==> t.cpus[c].index + Num(t.items[cp].len) <= cfg.size
      requires Eligible(t.items[cp]) ==> |t.cpus[c].job.buf| + CHUNKSTEP * Num(t.items[cp].len) <= |copyMem|
      requires CopyOk(copyMem, t.cpus[c].job.buf) && memIndex == |t.cpus[c].job.buf|
      modifies this`cpus, cp`cpuid, cp`start
      ensures Behind(SelectOne(t, c, cfg.size, cp), c, rest)
      ensures CopyOk(copied, SelectOne(t, c, cfg.size, cp).cpus[c].job.buf) && |copied| == |copyMem|
      ensures |SelectOne(t, c, cfg.size, cp).cpus[c].job.buf| == memIndex + CHUNKSTEP * num
      ensures num == if Eligible(t.items[cp]) then Num(t.items[cp].len) else 0
    {
      hide SpaceOk, Region, FirstFit, CopyOk, Num;
      ghost var v, buf := t.items[cp], t.cpus[c].job.buf;
      InRest(cp, rest);
      assert Eligible(v) ==> FirstFit(t.cpus[c].bits, cfg.size, t.cpus[c].index, Num(v.len), 1) <= cfg.size by {
        if Eligible(v) {
          AllocatesAtIndex(t, c, cfg.size, Num(v.len));
        }
      }
      SelectedOne(t, c, cfg.size, cp);
      hide SelectOne, Placing;
      num := PlaceItem(cp, c);
      copied := copyMem;
      if num != 0 {
        CopyBounds(copyMem, buf, v);
        copied := Overlay(copyMem, memIndex, cp.data);
      }
    }

    // The second loop, over marked items.
    method CopyEligible(b: nat, c: nat, allSize: nat, ghost s: State<HashItem>) returns (copyMem: seq<byte>)
      requires Inv(cfg, s) && b < |s.chains| && c < |s.cpus|
      requires s.cpus[c].job == Selected(b, []) && Behind(s, c, s.chains[b])
      requires allSize == CHUNKSTEP * Need(s.items, s.chains[b])
      requires s.cpus[c].index + Need(s.items, s.chains[b]) <= cfg.size
      modifies this`cpus, items
      ensures Behind(SelectAll(s, c, cfg.size, s.chains[b]), c, [])
      ensures copyMem == SelectAll(s, c, cfg.size, s.chains[b]).cpus[c].job.buf && |copyMem| == allSize
    {
      hide Inv, SelectAll, SelectOne, Behind, Eligible, CopyOk, ItemOk;
      copyMem := seq(allSize, _ => 0);
      NothingCopied(copyMem);
      ghost var t := s;
      BehindSame(s, c, s.chains[b]);
      var ids, memIndex, k := chains[b], 0, 0;
      assert ids[0..] == ids && ids[..0] == [];
      NoneYet(s, c, cfg.size);
      while k < |ids|
        invariant k <= |ids| && chains == s.chains && items == s.items.Keys && c < |t.cpus| && t.cpus[c].job.Selected?
        invariant t == SelectAll(s, c, cfg.size, ids[..k]) && Behind(t, c, ids[k..])
        invariant memIndex == |t.cpus[c].job.buf| == CHUNKSTEP * Need(s.items, ids[..k])
        invariant CopyOk(copyMem, t.cpus[c].job.buf) && |copyMem| == allSize
      {
        var cp := ids[k];
        Ahead(cfg, s, t, b, c, k);
        ChainOf(cfg, s, b, cp);
        OneMore(s, c, cfg.size, ids, k);
        assert ids[k..] == [cp] + ids[k + 1..];
        var num;
        num, copyMem := SelectItem(cp, c, copyMem, memIndex, t, ids[k + 1..]);
        t := SelectOne(t, c, cfg.size, cp);
        memIndex := memIndex + num * CHUNKSTEP;
        k := k + 1;
        BehindSame(t, c, ids[k..]);
      }
      assert ids[..k] == ids && ids[k..] == [];
      AllCopied(copyMem, t.cpus[c].job.buf);
    }

    lemma BehindSame(t: State<HashItem>, c: nat, rest: seq<HashItem>)
      requires Behind(t, c, rest)
      ensures t.items.Keys == items && chains == t.chains && c < |t.cpus| && t.cpus[c].job.Selected?
    {
    }

    /** The first section of wr_file: select, place and copy.  A run with nothing to write
        is over. */
    method WrFileSelect(b: nat, c: nat) returns (allSize: nat)
      requires Valid() && Enabled(cfg, St(), DoSelect(b, c))
      modifies this`cpus, items
      ensures c < |old(cpus)| && b < |old(chains)|
      ensures Valid() && St() == Select(old(St()), b, c, cfg.size)
      ensures items == old(items) && |cpus| == |old(cpus)|
      ensures forall x :: x in items ==> PlacedTo(old(x.Value()), x in old(chains)[b], x, c, old(cpus)[c], cpus[c])
      ensures cpus[c].job.Idle? <==> allSize == 0
      ensures allSize != 0 ==> cpus[c].job.Selected? && cpus[c].job.bkt == b && |cpus[c].job.buf| == allSize
    {
      hide Inv, SelectAll, Behind, Eligible, Select, Need, NoDup, Enabled, PlacedTo;
      ghost var s := St();
      MayStart(cfg, s, b, c);
      ghost var s0 := WithJob(s, c, Selected(b, []));
      allSize := MarkEligible(b);
      Beginning(s, s0, b, c);
      var copyMem := CopyEligible(b, c, allSize, s0);
      Ending(SelectAll(s0, c, cfg.size, s.chains[b]), c);
      SelectEnds(s, b, c, cfg.size);
      if allSize != 0 {
        SetCpu(c, cpus[c].(job := Selected(b, copyMem)));
      }
      SelectMeans(s, s0, b, c);
    }

    // What has become of an item that was v: it has a place, from the old index on, or it is
    // what it was.
    ghost predicate PlacedTo(v: Item, due: bool, x: HashItem, c: nat, p: Cpu, q: Cpu)
      reads x
    {
      if due && ToPlace(v) then
        x.Value() == v.(cpuid := c, start := x.start) && p.index <= x.start && x.start + Num(v.len) <= q.index
      else x.Value() == v
    }

    lemma SelectMeans(s: State<HashItem>, s0: State<HashItem>, b: nat, c: nat)
      requires Inv(cfg, s) && b < |s.chains| && c < |s.cpus| && s0 == WithJob(s, c, Selected(b, [])) && Inv(cfg, s0)
      requires s.cpus[c].index + Need(s.items, s.chains[b]) <= cfg.size
      requires St().items == SelectAll(s0, c, cfg.size, s.chains[b]).items && |cpus| == |s.cpus|
      requires cpus[c].index == SelectAll(s0, c, cfg.size, s.chains[b]).cpus[c].index
      ensures s.items.Keys == items
      ensures forall x :: x in s.items ==> PlacedTo(s.items[x], x in s.chains[b], x, c, s.cpus[c], cpus[c])
    {
      hide Inv, SelectAll, Need;
      assert s.chains[b][..|s.chains[b]|] == s.chains[b];
      SelectAllKeeps(cfg, s0, b, c, |s.chains[b]|);
      forall x | x in s.items
        ensures PlacedTo(s.items[x], x in s.chains[b], x, c, s.cpus[c], cpus[c])
      {
        SelectsExactly(cfg, s0, b, c, |s.chains[b]|, x);
        assert x in items && St().items[x] == x.Value();
      }
    }

    lemma Beginning(s: State<HashItem>, s0: State<HashItem>, b: nat, c: nat)
      requires b < |s.chains| && c < |s.cpus| && s0 == WithJob(s, c, Selected(b, []))
      requires s.cpus[c].job.Idle? && s.items.Keys == items && chains == s.chains && cpus == s.cpus
      requires readers == s.readers
      requires count == s.count && mm == s.mm && born == s.born
      requires forall x :: x in items ==> x.Value() == MarkedIf(s.items[x], x in s.chains[b])
      ensures Behind(s0, c, s.chains[b])
    {
    }

    lemma Ending(t: State<HashItem>, c: nat)
      requires Behind(t, c, [])
      ensures c < |t.cpus| && t.cpus[c].job.Selected? && St() == WithJob(t, c, Idle)
    {
      assert St().items == t.items;
    }

    // The run's buffer is in the file at the old position, behind what was there before.
    static ghost predicate Wrote(was: seq<Cpu>, now: seq<Cpu>, c: nat) {
      && c < |was| && |now| == |was| && now == was[c := now[c]]
      && var p, q := was[c], now[c];
         && p.job.Selected? && p.loff <= |p.file| && q.loff == p.loff + |p.job.buf| <= |q.file|
         && q.file[..p.loff] == p.file[..p.loff] && q.file[p.loff..q.loff] == p.job.buf
         && q.bits == p.bits && q.index == p.index && q.job == Written(p.job.bkt)
    }

    static lemma WriteMeans(s: State<HashItem>, c: nat)
      requires c < |s.cpus| && s.cpus[c].job.Selected? && s.cpus[c].loff <= |s.cpus[c].file|
      ensures Wrote(s.cpus, WriteOut(s, c).cpus, c)
      ensures var p := s.cpus[c];
              WriteOut(s, c) == s.(cpus := s.cpus[c := p.(file := WrittenAt(p.file, p.loff, p.job.buf),
                                                          loff := p.loff + |p.job.buf|, job := Written(p.job.bkt))])
    {
    }

    /** The second section: kernel_write of the copy, without a lock. */
    method WrFileWrite(c: nat)
      requires Valid() && c < |cpus| && cpus[c].job.Selected?
      modifies this`cpus
      ensures old(cpus)[c].loff <= |old(cpus)[c].file|
      ensures Valid() && St() == WriteOut(old(St()), c)
      ensures Wrote(old(cpus), cpus, c)
    {
      hide Inv, St, WrittenAt, Wrote, WriteOut;
      ghost var s := St();
      Fields();
      WriteKeeps(cfg, s, c);
      WriteMeans(s, c);
      var p := cpus[c];
      var file, loff := WrittenAt(p.file, p.loff, p.job.buf), p.loff + |p.job.buf|;
      SetCpu(c, p.(file := file, loff := loff, job := Written(p.job.bkt)));
      Fields();
    }

    // One CPU's record changes.
    method SetCpu(c: nat, q: Cpu)
      requires c < |cpus|
      modifies this`cpus
      ensures St() == old(St()).(cpus := old(cpus)[c := q])
    {
      cpus := cpus[c := q];
      assert St().items == old(St()).items;
    }

    // The body of the last loop of wr_file.
    method ReleaseItem(cp: HashItem, ghost c: nat)
      requires Valid() && cp in items && c < |cpus| && cpus[c].job.Written? && cp.bkt == cpus[c].job.bkt
      modifies this`mm, cp`flagCache, cp`data, cp`memStyle
      ensures Valid() && St() == ReleaseOne(old(St()), cp)
      ensures if old(cp.flagCache) == 2 && old(cp.shareRef) == 1 && cp.cpuid >= 0 then
                cp.flagCache == 1 && cp.memStyle == -1 && cp.data == []
              else cp.Value() == old(cp.Value())
    {
      hide Inv, Counted;
      ghost var s := St();
      OfItem(cfg, s, cp);
      ReleaseOneKeeps(cfg, s, c, cp);
      if cp.flagCache == 2 && cp.shareRef == 1 && cp.cpuid >= 0 {
        cp.flagCache := 1;
        FreeDataMemory(cp);
      }
      assert St().items == s.items[cp := cp.Value()];
      assert !Releasable(s.items[cp]) ==> s.items[cp := cp.Value()] == s.items;
    }

    /** The third section: what is written and not in use is dropped from memory. */
    method WrFileRelease(b: nat, c: nat)
      requires Valid() && c < |cpus| && cpus[c].job == Written(b) && b < |chains|
      modifies this`mm, this`cpus, items
      ensures Valid() && St() == Release(old(St()), c)
      ensures items == old(items) && forall x :: x in items ==> ReleasedTo(old(x.Value()), x in old(chains)[b], x)
    {
      hide Inv, ReleaseOne, ReleaseAll, ReleasedTo;
      ghost var s := St();
      ReleaseKeeps(cfg, s, c);
      BucketFacts(cfg, s, b);
      var ids, k := chains[b], 0;
      ReleaseNone(s);
      assert ids[..0] == [];
      while k < |ids|
        invariant k <= |ids| && Valid() && St() == ReleaseAll(s, ids[..k]) && cpus == s.cpus
        invariant forall j :: 0 <= j < |ids| ==> ids[j] in items && ids[j].bkt == b
      {
        ReleaseMore(s, ids, k);
        ReleaseItem(ids[k], c);
        k := k + 1;
      }
      assert ids[..k] == ids;
      ghost var t := St();
      SetCpu(c, cpus[c].(job := Idle));
      ReleaseMeans(s, t, ids);
    }

    // What has become of an item that was v.
    ghost predicate ReleasedTo(v: Item, due: bool, x: HashItem)
      reads x
    {
      x.Value() == if due && v.flag == 2 && v.share == 1 && v.cpuid >= 0
                   then v.(flag := 1, style := -1, data := []) else v
    }

    lemma ReleaseMeans(s: State<HashItem>, t: State<HashItem>, ids: seq<HashItem>)
      requires t == ReleaseAll(s, ids) && St().items == t.items
      ensures s.items.Keys <= items && forall x :: x in s.items ==> ReleasedTo(s.items[x], x in ids, x)
    {
      hide ReleaseAll;
      forall x | x in s.items
        ensures x in items && ReleasedTo(s.items[x], x in ids, x)
      {
        ReleasesExactly(s, ids, x);
        assert St().items[x] == x.Value();
      }
    }
  }
}
