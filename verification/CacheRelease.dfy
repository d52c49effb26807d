/** The third section of wr_file on one item, with lookups and read-back in between: the
    section and get_hash_item hold only the read side of the bucket's lock, and read_data
    holds none.  A tick takes the write side and waits. */
module CacheRelease {
  import opened Bytes
  import opened CacheInv
  import opened CacheState

  // Where the worker is: before its test, between the test and setting state 1, between
  // that and free_data_memory, and through with the item, freed or not.
  datatype Turn = Testing | Passed | Flagged | Freed | Kept

  // The item, and how far the holders of references are.  The rest is history: whether
  // somebody came to alloc_data_memory while the turn was Flagged, and whether somebody
  // has copied to memory that the item did not have.
  datatype Section = Section(item: Item, turn: Turn, holders: map<nat, Stage>, early: bool, wild: bool)

  datatype Move =
    | Test
    | SetFlag
    | FreeData
    | Cite(r: nat)
    | Look(r: nat)
    | Check(r: nat)
    | TakeRoom(r: nat, mem: seq<byte>)
    | Load(r: nat)
    | Copy(r: nat)
    | Mark(r: nat)
    | Leave(r: nat)

  ghost predicate At(s: Section, r: nat, stage: Stage) {
    r in s.holders && s.holders[r] == stage
  }

  ghost predicate Possible(s: Section, m: Move) {
    match m
    case Test => s.turn.Testing?
    case SetFlag => s.turn.Passed?
    case FreeData => s.turn.Flagged?
    case Cite(r) => r !in s.holders
    case Look(r) => At(s, r, Found)
    case Check(r) => At(s, r, Queued)
    case TakeRoom(r, mem) => At(s, r, Missing) && |mem| == s.item.len
    case Load(r) => At(s, r, Room)
    case Copy(r) => r in s.holders && s.holders[r].Loaded?
    case Mark(r) => At(s, r, Stored)
    case Leave(r) => At(s, r, Filled)
  }

  ghost function Moved(s: Section, r: nat, stage: Stage): Section {
    s.(holders := s.holders[r := stage])
  }

  ghost function Gone(s: Section, r: nat): Section {
    s.(item := s.item.(share := s.item.share - 1), holders := s.holders - {r})
  }

  // The file has the item's bytes, so a read gives orig.
  ghost function After(s: Section, m: Move): Section
    requires Possible(s, m)
  {
    match m
    case Test => s.(turn := if Releasable(s.item) then Passed else Kept)
    case SetFlag => s.(turn := Flagged, item := s.item.(flag := ON_DISK))
    case FreeData => s.(turn := Freed, item := Free(s.item))
    case Cite(r) => Moved(s, r, Found).(item := Cited(s.item))
    case Look(r) => if s.item.flag != READ_BACK then Gone(s, r) else Moved(s, r, Queued)
    case Check(r) => Moved(s, r, if s.item.flagMem then Filled else Missing)
    case TakeRoom(r, mem) => Moved(s, r, Room).(item := Alloc(s.item, mem), early := s.early || s.turn.Flagged?)
    case Load(r) => Moved(s, r, Loaded(s.item.orig))
    case Copy(r) =>
      Moved(s, r, Stored).(item := if s.item.style >= 0 then s.item.(data := s.holders[r].buf) else s.item,
                           wild := s.wild || s.item.style < 0)
    case Mark(r) => Moved(s, r, Filled).(item := s.item.(flagMem := true))
    case Leave(r) => Gone(s, r)
  }

  ghost predicate Reaches(s: Section, moves: seq<Move>, t: Section)
    decreases |moves|
  {
    if moves == [] then s == t else Possible(s, moves[0]) && Reaches(After(s, moves[0]), moves[1..], t)
  }

  // An item that has been written, and whose holders have only just found it.
  ghost predicate Starts(s: Section) {
    && s.turn.Testing? && !s.early && !s.wild && s.item.flag == TO_DISK && !s.item.flagMem
    && InMemory(s.item) && forall r :: r in s.holders ==> s.holders[r].Found?
  }

  ghost predicate InMemory(v: Item) {
    v.style >= 0 && v.data == v.orig
  }

  // ----- What the moves keep -----

  // What a holder relies on; one that has only found the item does nothing with it unless
  // it sees state 4.
  ghost predicate HolderOk(v: Item, p: Stage) {
    && (!p.Found? ==> v.flag == READ_BACK)
    && (p.Room? || p.Loaded? || p.Stored? ==> v.style >= 0)
    && (p.Loaded? ==> p.buf == v.orig)
    && (p.Stored? ==> v.data == v.orig)
    && (p.Filled? ==> v.flagMem)
  }

  // The item and its holders are in order: flag_mem and the states say the truth.
  ghost predicate Sound(s: Section) {
    && !s.wild
    && (s.item.flag == TO_DISK || s.item.flag == ON_DISK || s.item.flag == READ_BACK)
    && (s.item.flag == TO_DISK ==> InMemory(s.item))
    && (s.item.flag == ON_DISK ==> s.item.style < 0)
    && (s.item.flagMem ==> s.item.flag == READ_BACK && InMemory(s.item))
    && forall r :: r in s.holders ==> HolderOk(s.item, s.holders[r])
  }

  // Between the two moves the bytes are still there, which those who came early rely on.
  ghost predicate Between(s: Section) {
    && !s.wild && (s.item.flag == ON_DISK || s.item.flag == READ_BACK) && InMemory(s.item)
    && (s.item.flagMem ==> s.item.flag == READ_BACK)
    && (forall r :: r in s.holders ==> HolderOk(s.item, s.holders[r]))
    && (s.early <==> s.item.flagMem || exists r :: r in s.holders && HasRoom(s.holders[r]))
  }

  ghost predicate HasRoom(p: Stage) {
    p.Room? || p.Loaded? || p.Stored?
  }

  // Before, nobody reads back.
  ghost predicate Before(s: Section) {
    && !s.early && s.item.flag == TO_DISK && !s.item.flagMem && forall r :: r in s.holders ==> s.holders[r].Found?
  }

  ghost predicate SectionInv(s: Section) {
    match s.turn
    case Testing => Before(s) && Sound(s)
    case Passed => Before(s) && Sound(s)
    case Flagged => Between(s)
    case Freed => !s.early ==> Sound(s)
    case Kept => Before(s) && Sound(s)
  }

  lemma StepKeepsBetween(s: Section, m: Move)
    requires Between(s) && s.turn.Flagged? && Possible(s, m) && !m.FreeData?
    ensures Between(After(s, m)) && After(s, m).turn.Flagged?
  {
    var t := After(s, m);
    if m.TakeRoom? {
      assert HasRoom(t.holders[m.r]);
    } else if m.Load? || m.Copy? {
      assert HasRoom(s.holders[m.r]) && HasRoom(t.holders[m.r]);
    } else if m.Mark? {
      assert HasRoom(s.holders[m.r]);
    }
    if r :| r in s.holders && HasRoom(s.holders[r]) && !(m.Mark? && m.r == r) {
      assert r in t.holders && HasRoom(t.holders[r]);
    }
  }

  lemma StepKeepsSound(s: Section, m: Move)
    requires Sound(s) && s.turn.Freed? && Possible(s, m)
    ensures Sound(After(s, m)) && After(s, m).turn.Freed? && After(s, m).early == s.early
  {
  }

  lemma StepKeepsBefore(s: Section, m: Move)
    requires Before(s) && Sound(s) && !s.turn.Flagged? && !s.turn.Freed? && Possible(s, m) && !m.SetFlag?
    ensures Before(After(s, m)) && Sound(After(s, m)) && After(s, m).turn in {Testing, Passed, Kept}
  {
  }

  /** Freeing is right exactly when nobody came early: otherwise flag_mem says that there
      are bytes, or somebody is about to copy some, and the item has no memory. */
  lemma FreeingIsSound(s: Section)
    requires Between(s) && s.turn.Flagged?
    ensures Sound(After(s, FreeData)) <==> !s.early
  {
    var t := After(s, FreeData);
    if s.early && !s.item.flagMem {
      var r :| r in s.holders && HasRoom(s.holders[r]);
      assert r in t.holders && !HolderOk(t.item, t.holders[r]);
    }
  }

  lemma StepKeepsSection(s: Section, m: Move)
    requires SectionInv(s) && Possible(s, m)
    ensures SectionInv(After(s, m))
  {
    match s.turn
    case Flagged =>
      if m.FreeData? {
        FreeingIsSound(s);
      } else {
        StepKeepsBetween(s, m);
      }
    case Freed =>
      if !s.early {
        StepKeepsSound(s, m);
      } else {
        assert After(s, m).early && After(s, m).turn.Freed?;
      }
    case Passed =>
      if m.SetFlag? {
        FlaggingStarts(s);
      } else {
        StepKeepsBefore(s, m);
      }
    case _ => StepKeepsBefore(s, m);
  }

  lemma FlaggingStarts(s: Section)
    requires Before(s) && Sound(s) && s.turn.Passed?
    ensures Between(After(s, SetFlag))
  {
  }

  lemma {:induction false} SectionReached(s: Section, moves: seq<Move>, t: Section)
    requires SectionInv(s) && Reaches(s, moves, t)
    ensures SectionInv(t)
    decreases |moves|
  {
    hide SectionInv, After;
    if moves != [] {
      StepKeepsSection(s, moves[0]);
      SectionReached(After(s, moves[0]), moves[1..], t);
    }
  }

  lemma StartsSound(s: Section)
    requires Starts(s)
    ensures SectionInv(s)
  {
  }

  /** However lookups and read-backs fall between the worker's moves: when the worker frees
      the item's memory, all is right afterwards exactly when no reader has come to
      alloc_data_memory since state 1 was set. */
  lemma ReleaseIsSafe(s0: Section, moves: seq<Move>, s: Section)
    requires Starts(s0) && Reaches(s0, moves, s) && s.turn.Flagged?
    ensures Sound(After(s, FreeData)) <==> !s.early
  {
    StartsSound(s0);
    SectionReached(s0, moves, s);
    FreeingIsSound(s);
  }

  /** And if none has, all stays right whatever comes later, as it does when the worker
      leaves the item alone. */
  lemma StaysSafe(s0: Section, moves: seq<Move>, s: Section)
    requires Starts(s0) && Reaches(s0, moves, s) && (s.turn.Freed? || s.turn.Kept?) && !s.early
    ensures Sound(s)
  {
    StartsSound(s0);
    SectionReached(s0, moves, s);
  }

  // The section as it looks to one of its items in the table.
  ghost function HoldersOf<Id>(readers: map<nat, Reader<Id>>, x: Id): map<nat, Stage> {
    map r | r in readers && readers[r].item == x :: readers[r].stage
  }

  ghost function Begun(v: Item, holders: map<nat, Stage>): Section {
    Section(v, Testing, holders, false, false)
  }

  /** Where each locked section is one step, every item that may be released is fit for the
      lemmas above, and undisturbed the worker's moves are the step on that item. */
  lemma ReleasesStart<Id>(cfg: Config, s: State<Id>, x: Id)
    requires Inv(cfg, s) && x in s.items && s.items[x].flag == TO_DISK
    ensures var s0 := Begun(s.items[x], HoldersOf(s.readers, x));
            && Starts(s0)
            && if Releasable(s.items[x]) then
                 Reaches(s0, [Test, SetFlag, FreeData], s0.(turn := Freed, item := ReleaseOne(s, x).items[x]))
               else Reaches(s0, [Test], s0.(turn := Kept)) && ReleaseOne(s, x) == s
  {
    hide Linked, SpaceOk, DiskOk, CpusOk, RefsCounted, Tallied;
    var s0 := Begun(s.items[x], HoldersOf(s.readers, x));
    forall r | r in s0.holders
      ensures s0.holders[r].Found?
    {
      assert ReaderOk(s, r);
    }
    assert ItemOk(s.items[x]);
    if Releasable(s.items[x]) {
      var s1 := After(s0, Test);
      var s2 := After(s1, SetFlag);
      var s3 := After(s2, FreeData);
      OneStep(s2, FreeData, [], s3);
      OneStep(s1, SetFlag, [FreeData], s3);
      OneStep(s0, Test, [SetFlag, FreeData], s3);
    } else {
      OneStep(s0, Test, [], After(s0, Test));
    }
  }

  lemma Arrived(s: Section)
    ensures Reaches(s, [], s)
  {
  }

  lemma OneStep(s: Section, m: Move, rest: seq<Move>, t: Section)
    requires Possible(s, m) && Reaches(After(s, m), rest, t)
    ensures Reaches(s, [m] + rest, t)
  {
    assert ([m] + rest)[1..] == rest;
  }

  lemma {:induction false} ReachesOn(s: Section, moves: seq<Move>, t: Section, more: seq<Move>, u: Section)
    requires Reaches(s, moves, t) && Reaches(t, more, u)
    ensures Reaches(s, moves + more, u)
    decreases |moves|
  {
    if moves == [] {
      assert moves + more == more;
    } else {
      ReachesOn(After(s, moves[0]), moves[1..], t, more, u);
      assert (moves + more)[1..] == moves[1..] + more;
    }
  }

  // The item is found right after state 1 was set, and its reader skips the allocation.
  ghost function Early(s: Section, r: nat): Section {
    s.(turn := Flagged, holders := s.holders[r := Room], early := true,
       item := Cited(s.item.(flag := ON_DISK)))
  }

  // Two moves.
  lemma TwoSteps(s: Section, m: Move, n: Move)
    requires Possible(s, m) && Possible(After(s, m), n)
    ensures Reaches(s, [m, n], After(After(s, m), n))
  {
    var t := After(After(s, m), n);
    hide After, Possible;
    Arrived(t);
    OneStep(After(s, m), n, [], t);
    OneStep(s, m, [n], t);
  }

  lemma FoundTooEarly(s: Section, r: nat, mem: seq<byte>)
    requires Starts(s) && Releasable(s.item) && |mem| == s.item.len && r !in s.holders
    ensures Reaches(s, [Test, SetFlag] + ([Cite(r), Look(r)] + [Check(r), TakeRoom(r, mem)]), Early(s, r))
  {
    var flagged := s.(turn := Flagged, item := s.item.(flag := ON_DISK));
    var queued := flagged.(item := Cited(flagged.item), holders := s.holders[r := Queued]);
    hide Reaches;
    TwoSteps(s, Test, SetFlag);
    assert s.holders[r := Found][r := Queued] == s.holders[r := Queued];
    TwoSteps(flagged, Cite(r), Look(r));
    assert queued.holders[r := Missing][r := Room] == s.holders[r := Room];
    TwoSteps(queued, Check(r), TakeRoom(r, mem));
    hide After, Possible;
    ReachesOn(flagged, [Cite(r), Look(r)], queued, [Check(r), TakeRoom(r, mem)], Early(s, r));
    ReachesOn(s, [Test, SetFlag], flagged, [Cite(r), Look(r)] + [Check(r), TakeRoom(r, mem)], Early(s, r));
  }

  // The memory goes, and the reader copies all the same.
  ghost function CopiedNowhere(s: Section, r: nat): Section {
    s.(turn := Freed, holders := s.holders - {r}, wild := true,
       item := Free(s.item).(flagMem := true, share := s.item.share - 1))
  }

  lemma FreesUnder(s: Section, r: nat)
    requires s.turn.Flagged? && At(s, r, Room)
    ensures Reaches(s, [FreeData, Load(r)],
                    s.(turn := Freed, item := Free(s.item), holders := s.holders[r := Loaded(s.item.orig)]))
  {
    TwoSteps(s, FreeData, Load(r));
  }

  lemma CopiesAllTheSame(s: Section, r: nat)
    requires r in s.holders && s.holders[r].Loaded? && s.item.style < 0
    ensures Reaches(s, [Copy(r), Mark(r)],
                    s.(item := s.item.(flagMem := true), holders := s.holders[r := Filled], wild := true))
  {
    TwoSteps(s, Copy(r), Mark(r));
    assert s.holders[r := Stored][r := Filled] == s.holders[r := Filled];
  }

  lemma Leaves(s: Section, r: nat)
    requires At(s, r, Filled)
    ensures Reaches(s, [Leave(r)], Gone(s, r))
  {
    assert [Leave(r)][1..] == [];
  }

  lemma CopiesNowhere(s: Section, r: nat)
    requires s.turn.Flagged? && At(s, r, Room)
    ensures Reaches(s, [FreeData, Load(r)] + ([Copy(r), Mark(r)] + [Leave(r)]), CopiedNowhere(s, r))
  {
    hide Reaches;
    var loaded := s.(turn := Freed, item := Free(s.item), holders := s.holders[r := Loaded(s.item.orig)]);
    var marked := loaded.(item := loaded.item.(flagMem := true), holders := loaded.holders[r := Filled], wild := true);
    FreesUnder(s, r);
    CopiesAllTheSame(loaded, r);
    Leaves(marked, r);
    assert marked.holders - {r} == s.holders - {r};
    ReachesOn(loaded, [Copy(r), Mark(r)], marked, [Leave(r)], CopiedNowhere(s, r));
    ReachesOn(s, [FreeData, Load(r)], loaded, [Copy(r), Mark(r)] + [Leave(r)], CopiedNowhere(s, r));
  }

  /** The run that goes wrong: a reader that has come early copies to memory that has been
      freed meanwhile.  In the end flag_mem is set, and the item has no memory. */
  lemma FreedUnderReader(s0: Section, r: nat, mem: seq<byte>) returns (moves: seq<Move>, s: Section)
    requires Starts(s0) && Releasable(s0.item) && |mem| == s0.item.len && r !in s0.holders
    ensures Reaches(s0, moves, s) && s.turn.Freed? && s.wild && s.holders == s0.holders
    ensures s.item.flag == READ_BACK && s.item.flagMem && s.item.style == -1 && s.item.data == []
  {
    var early := Early(s0, r);
    s := CopiedNowhere(early, r);
    FoundTooEarly(s0, r, mem);
    CopiesNowhere(early, r);
    var first := [Test, SetFlag] + ([Cite(r), Look(r)] + [Check(r), TakeRoom(r, mem)]);
    var rest := [FreeData, Load(r)] + ([Copy(r), Mark(r)] + [Leave(r)]);
    ReachesOn(s0, first, early, rest, s);
    moves := first + rest;
  }
}
