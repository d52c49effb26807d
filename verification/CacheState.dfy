/** The chunk cache of model/kernel_hash: the states of hash_table.c and nf_in.c, and one
    function for each section that the program runs under a lock. */
module CacheState {
  import opened Bitmap
  import opened Bytes
  import opened Chunk

  type Sha = seq<byte>

  const ITEM_CITE_ADD := 6
  const ITEM_CITE_FIND := 6
  const ITEM_DISK_LIMIT := 6
  const ITEM_VIP_LIMIT := 12

  // flag_cache.
  const IN_MEMORY := 0
  const ON_DISK := 1
  const TO_DISK := 2
  const PINNED := 3
  const READ_BACK := 4

  // struct hashinfo_item.  data is empty when mem_style is -1; bkt is the bucket of its
  // digest; orig is history: the bytes the item was made from.
  datatype Item = Item(bkt: nat, sha: Sha, len: nat, orig: seq<byte>, data: seq<byte>, style: int, flag: int,
                       flagMem: bool, cpuid: int, start: nat, refcnt: int, share: int)

  // A run of wr_file on a CPU: between its sections it holds the copied bytes, or knows
  // that they are written.
  datatype Job = Idle | Selected(bkt: nat, buf: seq<byte>) | Written(bkt: nat)

  // The per-CPU variables bitmap, bitmap_index, loff_file and the contents of reserve_file.
  datatype Cpu = Cpu(bits: set<nat>, index: nat, loff: nat, file: seq<byte>, job: Job)

  // How far a holder of a reference has come in hand_hash and read_data.
  datatype Stage =
    | Found                            // get_hash_item has returned
    | Queued                           // on the list of its CPU
    | Missing                          // has seen flag_mem == 0
    | Room                             // behind alloc_data_memory
    | Loaded(buf: seq<byte>)           // has read the file
    | Stored                           // has copied to item->data
    | Filled                           // flag_mem is 1
  datatype Reader<Id> = Reader(item: Id, cpu: int, stage: Stage)

  datatype Config = Config(buckets: nat, size: nat, limit: nat, hash: Sha -> nat) {
    ghost predicate Ok() {
      buckets > 0 && forall d: Sha :: hash(d) < buckets
    }
  }

  // chains are the bucket lists; count is hash_count and mm are the counters mm0 to mm3.
  // born is history: every item ever made.
  datatype State<Id> = State(items: map<Id, Item>, chains: seq<seq<Id>>, cpus: seq<Cpu>,
                             readers: map<nat, Reader<Id>>, count: int, mm: seq<int>, born: set<Id>)

  // ----- alloc_data_memory, free_data_memory -----

  // DIV_ROUND_UP, but at least one unit.
  function Num(len: nat): (n: nat)
    ensures n >= 1 && len <= CHUNKSTEP * n && (n == 1 || CHUNKSTEP * (n - 1) < len)
  {
    if len <= CHUNKSTEP then 1 else (len + CHUNKSTEP - 1) / CHUNKSTEP
  }

  function StyleFor(len: nat): (k: nat)
    ensures k < 4
  {
    if len <= CHUNKSTEP then 1 else if len <= CHUNKSTEP * 2 then 2 else if len <= CHUNKSTEP * 3 then 3 else 0
  }

  // mem is what the allocator hands out, zeroed or not.
  function Alloc(v: Item, mem: seq<byte>): Item {
    if v.style >= 0 then v else v.(style := StyleFor(v.len), data := mem)
  }

  function Free(v: Item): Item {
    v.(style := -1, data := [])
  }

  function Counted(mm: seq<int>, style: int, n: int): (r: seq<int>)
    ensures |r| == |mm|
  {
    if 0 <= style < |mm| then mm[style := mm[style] + n] else mm
  }

  // ----- Insertion and lookup -----

  function NewItem(bkt: nat, sha: Sha, value: seq<byte>): Item {
    Item(bkt, sha, |value|, value, value, StyleFor(|value|), IN_MEMORY, false, -1, 0, ITEM_CITE_ADD, 1)
  }

  // hash_new_item; the list head gets the new item.
  ghost function Insert<Id>(s: State<Id>, id: Id, v: Item): State<Id>
    requires v.bkt < |s.chains|
  {
    s.(items := s.items[id := v], chains := s.chains[v.bkt := [id] + s.chains[v.bkt]],
       count := s.count + 1, mm := Counted(s.mm, v.style, v.len), born := s.born + {id})
  }

  // The first item of a chain with the digest.
  ghost predicate FirstWith<Id>(items: map<Id, Item>, chain: seq<Id>, sha: Sha, id: Id) {
    && chain != [] && chain[0] in items
    && if items[chain[0]].sha == sha then id == chain[0] else FirstWith(items, chain[1..], sha, id)
  }

  // What get_hash_item does to the item it returns.
  function Cited(v: Item): Item {
    v.(refcnt := v.refcnt + ITEM_CITE_FIND, share := v.share + 1,
       flag := if v.flag == ON_DISK then READ_BACK else v.flag)
  }

  ghost function Hit<Id>(s: State<Id>, r: nat, id: Id): State<Id>
    requires id in s.items
  {
    s.(items := s.items[id := Cited(s.items[id])], readers := s.readers[r := Reader(id, -1, Found)])
  }

  // atomic_dec(&item->share_ref), and the holder is gone.
  ghost function Drop<Id>(s: State<Id>, r: nat): State<Id>
    requires r in s.readers && s.readers[r].item in s.items
  {
    var id := s.readers[r].item;
    s.(items := s.items[id := s.items[id].(share := s.items[id].share - 1)], readers := s.readers - {r})
  }

  // The rest of hand_hash for a found item.
  ghost function Classify<Id>(s: State<Id>, r: nat): State<Id>
    requires r in s.readers && s.readers[r].item in s.items
  {
    var v := s.items[s.readers[r].item];
    if v.flag != READ_BACK then Drop(s, r)
    else s.(readers := s.readers[r := s.readers[r].(cpu := v.cpuid, stage := Queued)])
  }

  // ----- read_data -----

  ghost function AtStage<Id>(s: State<Id>, r: nat, stage: Stage): State<Id>
    requires r in s.readers
  {
    s.(readers := s.readers[r := s.readers[r].(stage := stage)])
  }

  ghost function ReadCheck<Id>(s: State<Id>, r: nat): State<Id>
    requires r in s.readers && s.readers[r].item in s.items
  {
    AtStage(s, r, if s.items[s.readers[r].item].flagMem then Filled else Missing)
  }

  ghost function ReadAlloc<Id>(s: State<Id>, r: nat, mem: seq<byte>): State<Id>
    requires r in s.readers && s.readers[r].item in s.items
  {
    var id := s.readers[r].item;
    var v := s.items[id];
    AtStage(s, r, Room).(items := s.items[id := Alloc(v, mem)],
                         mm := if v.style >= 0 then s.mm else Counted(s.mm, StyleFor(v.len), v.len))
  }

  function Padded(data: seq<byte>, n: nat): (r: seq<byte>)
    requires |data| <= n
    ensures |r| == n && r[..|data|] == data
  {
    data + seq(n - |data|, _ => 0)
  }

  // kernel_read into a zeroed buffer.
  ghost function FileSlice(file: seq<byte>, pos: nat, n: nat): (r: seq<byte>)
    ensures |r| == n
  {
    Padded(if pos + n <= |file| then file[pos..pos + n] else if pos <= |file| then file[pos..] else [], n)
  }

  ghost function ReadFile<Id>(s: State<Id>, r: nat): State<Id>
    requires r in s.readers && s.readers[r].item in s.items && 0 <= s.readers[r].cpu < |s.cpus|
  {
    var v := s.items[s.readers[r].item];
    AtStage(s, r, Loaded(FileSlice(s.cpus[s.readers[r].cpu].file, v.start * CHUNKSTEP, v.len)))
  }

  ghost function ReadCopy<Id>(s: State<Id>, r: nat): State<Id>
    requires r in s.readers && s.readers[r].item in s.items && s.readers[r].stage.Loaded?
  {
    var id := s.readers[r].item;
    AtStage(s, r, Stored).(items := s.items[id := s.items[id].(data := s.readers[r].stage.buf)])
  }

  ghost function ReadMark<Id>(s: State<Id>, r: nat): State<Id>
    requires r in s.readers && s.readers[r].item in s.items
  {
    var id := s.readers[r].item;
    AtStage(s, r, Filled).(items := s.items[id := s.items[id].(flagMem := true)])
  }

  // ----- bucket_clear_item -----

  predicate Within(b: nat, start: nat, len: nat) {
    start <= b < start + Num(len)
  }

  function Region(start: nat, len: nat): set<nat> {
    set b: nat | start <= b < start + Num(len) && Within(b, start, len)
  }

  function Without<T(==)>(s: seq<T>, x: T): seq<T> {
    if s == [] then [] else if s[0] == x then s[1..] else [s[0]] + Without(s[1..], x)
  }

  predicate Expired(v: Item) {
    v.share == 1 && v.refcnt <= 1
  }

  // The items whose memory a reclaim frees, and those whose bits it clears.
  predicate FreedOnReclaim(v: Item) {
    v.flag == IN_MEMORY || v.flag == TO_DISK || v.flag == PINNED || v.flag == READ_BACK
  }

  predicate ClearedOnReclaim(v: Item) {
    v.flag == ON_DISK || (v.flag == TO_DISK && v.cpuid >= 0) || v.flag == READ_BACK
  }

  // A tick that does not reclaim: the count falls, and the state machine moves on.
  function Aged(v: Item): Item {
    var n := v.refcnt - 1;
    var f0 := if n >= ITEM_VIP_LIMIT && v.flag == IN_MEMORY then PINNED else v.flag;
    var f1 := if ITEM_DISK_LIMIT <= n < ITEM_VIP_LIMIT && f0 == IN_MEMORY then TO_DISK else f0;
    var f2 := if n >= ITEM_VIP_LIMIT && f1 == TO_DISK && v.cpuid < 0 then PINNED else f1;
    v.(refcnt := n, flag := f2)
  }

  ghost function Reclaim<Id>(s: State<Id>, id: Id): State<Id>
    requires id in s.items && s.items[id].bkt < |s.chains|
  {
    var v := s.items[id];
    s.(items := s.items - {id}, chains := s.chains[v.bkt := Without(s.chains[v.bkt], id)],
       count := s.count - 1,
       mm := if FreedOnReclaim(v) then Counted(s.mm, v.style, 0 - v.len) else s.mm,
       cpus := if ClearedOnReclaim(v) && 0 <= v.cpuid < |s.cpus|
               then s.cpus[v.cpuid := s.cpus[v.cpuid].(bits := s.cpus[v.cpuid].bits - Region(v.start, v.len))]
               else s.cpus)
  }

  ghost function TickOne<Id>(s: State<Id>, id: Id): State<Id> {
    if id !in s.items || s.items[id].bkt >= |s.chains| then s
    else if Expired(s.items[id]) then Reclaim(s, id)
    else s.(items := s.items[id := Aged(s.items[id])])
  }

  ghost function TickAll<Id>(s: State<Id>, ids: seq<Id>): State<Id> {
    if ids == [] then s else TickOne(TickAll(s, ids[..|ids| - 1]), ids[|ids| - 1])
  }

  // ----- wr_file -----

  predicate Eligible(v: Item) {
    && v.refcnt < ITEM_VIP_LIMIT && v.refcnt >= ITEM_DISK_LIMIT && v.flag == TO_DISK && v.cpuid == -1
    && v.share == 1
  }

  // One item of the second pass: it gets its place, and its bytes go to the copy.
  ghost function SelectOne<Id>(s: State<Id>, c: nat, size: nat, id: Id): State<Id>
    requires c < |s.cpus| && s.cpus[c].job.Selected?
    ensures |SelectOne(s, c, size, id).cpus| == |s.cpus| && SelectOne(s, c, size, id).cpus[c].job.Selected?
  {
    if id !in s.items || !Eligible(s.items[id]) || |s.items[id].data| > CHUNKSTEP * Num(s.items[id].len) then s else
    var v, p := s.items[id], s.cpus[c];
    var at := FirstFit(p.bits, size, p.index, Num(v.len), 1);
    s.(items := s.items[id := v.(cpuid := c, start := at)],
       cpus := s.cpus[c := p.(bits := p.bits + Region(at, v.len), index := p.index + Num(v.len),
                              job := p.job.(buf := p.job.buf + Padded(v.data, CHUNKSTEP * Num(v.len))))])
  }

  ghost function SelectAll<Id>(s: State<Id>, c: nat, size: nat, ids: seq<Id>): State<Id>
    requires c < |s.cpus| && s.cpus[c].job.Selected?
    ensures |SelectAll(s, c, size, ids).cpus| == |s.cpus| && SelectAll(s, c, size, ids).cpus[c].job.Selected?
  {
    if ids == [] then s else SelectOne(SelectAll(s, c, size, ids[..|ids| - 1]), c, size, ids[|ids| - 1])
  }

  ghost function WithJob<Id>(s: State<Id>, c: nat, job: Job): State<Id>
    requires c < |s.cpus|
  {
    s.(cpus := s.cpus[c := s.cpus[c].(job := job)])
  }

  // The first section of wr_file; a run with nothing to write ends here.
  ghost function Select<Id>(s: State<Id>, b: nat, c: nat, size: nat): State<Id>
    requires c < |s.cpus| && b < |s.chains|
  {
    var s' := SelectAll(WithJob(s, c, Selected(b, [])), c, size, s.chains[b]);
    if s'.cpus[c].job.buf == [] then WithJob(s', c, Idle) else s'
  }

  // kernel_write of the whole buffer.
  function WrittenAt(file: seq<byte>, pos: nat, buf: seq<byte>): seq<byte>
    requires pos <= |file|
  {
    file[..pos] + buf + if pos + |buf| <= |file| then file[pos + |buf|..] else []
  }

  ghost function WriteOut<Id>(s: State<Id>, c: nat): State<Id>
    requires c < |s.cpus| && s.cpus[c].job.Selected? && s.cpus[c].loff <= |s.cpus[c].file|
  {
    var p := s.cpus[c];
    s.(cpus := s.cpus[c := p.(file := WrittenAt(p.file, p.loff, p.job.buf), loff := p.loff + |p.job.buf|,
                              job := Written(p.job.bkt))])
  }

  predicate Releasable(v: Item) {
    v.flag == TO_DISK && v.share == 1 && v.cpuid >= 0
  }

  ghost function ReleaseOne<Id>(s: State<Id>, id: Id): State<Id> {
    if id !in s.items || !Releasable(s.items[id]) then s else
    var v := s.items[id];
    s.(items := s.items[id := Free(v.(flag := ON_DISK))], mm := Counted(s.mm, v.style, 0 - v.len))
  }

  ghost function ReleaseAll<Id>(s: State<Id>, ids: seq<Id>): State<Id> {
    if ids == [] then s else ReleaseOne(ReleaseAll(s, ids[..|ids| - 1]), ids[|ids| - 1])
  }

  ghost function Release<Id>(s: State<Id>, c: nat): State<Id>
    requires c < |s.cpus| && s.cpus[c].job.Written? && s.cpus[c].job.bkt < |s.chains|
  {
    var s' := ReleaseAll(s, s.chains[s.cpus[c].job.bkt]);
    if c < |s'.cpus| then WithJob(s', c, Idle) else s'
  }

  // ----- The step system: each locked section is one step -----

  datatype Label<Id> =
    | DoInsert(id: Id, sha: Sha, value: seq<byte>)
    | DoHit(r: nat, id: Id, sha: Sha)
    | DoClassify(r: nat)
    | DoCheck(r: nat)
    | DoAlloc(r: nat, mem: seq<byte>)
    | DoRead(r: nat)
    | DoCopy(r: nat)
    | DoMark(r: nat)
    | DoDone(r: nat)
    | DoTick(b: nat)
    | DoSelect(b: nat, c: nat)
    | DoWrite(c: nat)
    | DoRelease(c: nat)

  ghost predicate ReaderAt<Id>(s: State<Id>, r: nat, stage: Stage) {
    r in s.readers && s.readers[r].item in s.items && s.readers[r].stage == stage
  }

  // No run on the CPU, and none for the bucket anywhere: a bucket's timer is pinned, and
  // each CPU has one worker.
  ghost predicate MayRun<Id>(s: State<Id>, b: nat, c: nat) {
    && c < |s.cpus| && b < |s.chains| && s.cpus[c].job.Idle?
    && forall d :: 0 <= d < |s.cpus| && !s.cpus[d].job.Idle? ==> s.cpus[d].job.bkt != b
  }

  // The units that the chain's eligible items take.
  ghost function Need<Id>(items: map<Id, Item>, ids: seq<Id>): nat {
    if ids == [] then 0
    else
      var id := ids[|ids| - 1];
      Need(items, ids[..|ids| - 1]) + if id in items && Eligible(items[id]) then Num(items[id].len) else 0
  }

  ghost predicate Enabled<Id>(cfg: Config, s: State<Id>, l: Label<Id>) {
    match l
    case DoInsert(id, sha, value) => id !in s.born && cfg.hash(sha) < |s.chains| && s.count <= cfg.limit
    case DoHit(r, id, sha) => r !in s.readers && cfg.hash(sha) < |s.chains|
                              && id in s.items && FirstWith(s.items, s.chains[cfg.hash(sha)], sha, id)
    case DoClassify(r) => ReaderAt(s, r, Found)
    case DoCheck(r) => ReaderAt(s, r, Queued)
    case DoAlloc(r, mem) => ReaderAt(s, r, Missing) && |mem| == s.items[s.readers[r].item].len
    case DoRead(r) => ReaderAt(s, r, Room) && 0 <= s.readers[r].cpu < |s.cpus|
    case DoCopy(r) => r in s.readers && s.readers[r].item in s.items && s.readers[r].stage.Loaded?
    case DoMark(r) => ReaderAt(s, r, Stored)
    case DoDone(r) => ReaderAt(s, r, Filled)
    case DoTick(b) => b < |s.chains|
    case DoSelect(b, c) => MayRun(s, b, c) && s.cpus[c].index + Need(s.items, s.chains[b]) <= cfg.size
    case DoWrite(c) => c < |s.cpus| && s.cpus[c].job.Selected? && s.cpus[c].loff <= |s.cpus[c].file|
    case DoRelease(c) => c < |s.cpus| && s.cpus[c].job.Written? && s.cpus[c].job.bkt < |s.chains|
  }

  ghost function After<Id>(cfg: Config, s: State<Id>, l: Label<Id>): State<Id>
    requires Enabled(cfg, s, l)
  {
    match l
    case DoInsert(id, sha, value) => Insert(s, id, NewItem(cfg.hash(sha), sha, value))
    case DoHit(r, id, sha) => Hit(s, r, id)
    case DoClassify(r) => Classify(s, r)
    case DoCheck(r) => ReadCheck(s, r)
    case DoAlloc(r, mem) => ReadAlloc(s, r, mem)
    case DoRead(r) => ReadFile(s, r)
    case DoCopy(r) => ReadCopy(s, r)
    case DoMark(r) => ReadMark(s, r)
    case DoDone(r) => Drop(s, r)
    case DoTick(b) => TickAll(s, s.chains[b])
    case DoSelect(b, c) => Select(s, b, c, cfg.size)
    case DoWrite(c) => WriteOut(s, c)
    case DoRelease(c) => Release(s, c)
  }

  ghost predicate Initial<Id>(cfg: Config, s: State<Id>) {
    && cfg.Ok() && s.items == map[] && |s.chains| == cfg.buckets
    && (forall b :: 0 <= b < |s.chains| ==> s.chains[b] == [])
    && s.readers == map[] && s.count == 0 && s.mm == [0, 0, 0, 0]
    && forall c :: 0 <= c < |s.cpus|
         ==> s.cpus[c].bits == {} && s.cpus[c].index == 0 && s.cpus[c].loff == 0 && s.cpus[c].job.Idle?
  }
}
