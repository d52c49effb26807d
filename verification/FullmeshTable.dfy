/** The state of a network namespace in test/kernel/mptcp/mptcp_fullmesh.c: the event list
    and the two tables of local addresses with their bitfields. */
module FullmeshTable {
  import opened FullmeshBits
  import opened FullmeshEvents

  // struct mptcp_loc4 or mptcp_loc6, and one family's part of struct mptcp_loc_addr.  The
  // program copies the struct before it changes it, so it is a value here.
  datatype Slot = Slot(addr: int, id: nat, lowPrio: bool)
  datatype Loc = Loc(slots: seq<Slot>, bits: bv8, next: nat)

  // The id of slot 0.
  function FirstId(f: Family): nat {
    if f == Inet then 1 else MPTCP_MAX_ADDR
  }

  // No address twice, and the ids follow the slots.
  ghost predicate LocOk(l: Loc, f: Family) {
    && |l.slots| == MPTCP_MAX_ADDR && l.next <= MPTCP_MAX_ADDR
    && (forall i, j :: i in Bits(l.bits) && j in Bits(l.bits) && l.slots[i].addr == l.slots[j].addr ==> i == j)
    && forall i :: i in Bits(l.bits) ==> l.slots[i].id == i + FirstId(f)
  }

  // The slots of a family hold its part of the table.
  ghost predicate Shows(l: Loc, f: Family, m: Table)
    requires |l.slots| == MPTCP_MAX_ADDR
  {
    && (forall i :: i in Bits(l.bits)
          ==> Addr(f, l.slots[i].addr) in m && m[Addr(f, l.slots[i].addr)] == l.slots[i].lowPrio)
    && forall a :: a in m && a.family == f ==> exists i :: i in Bits(l.bits) && l.slots[i].addr == a.val
  }

  // ----- Slots and addresses are as many -----

  lemma Some<T>(s: set<T>) returns (x: T)
    requires s != {}
    ensures x in s
  {
    x :| x in s;
  }

  ghost function Image(b: set<int>, slots: seq<Slot>, f: Family): set<Addr>
    requires forall i :: i in b ==> 0 <= i < |slots|
  {
    set i | i in b :: Addr(f, slots[i].addr)
  }

  lemma ImageOfOneMore(b: set<int>, slots: seq<Slot>, f: Family, x: int)
    requires x in b && forall i :: i in b ==> 0 <= i < |slots|
    requires forall i, j :: i in b && j in b && slots[i].addr == slots[j].addr ==> i == j
    ensures Image(b, slots, f) == Image(b - {x}, slots, f) + {Addr(f, slots[x].addr)}
    ensures Addr(f, slots[x].addr) !in Image(b - {x}, slots, f)
  {
    forall a
      ensures a in Image(b, slots, f) <==> a in Image(b - {x}, slots, f) || a == Addr(f, slots[x].addr)
    {
      if a in Image(b, slots, f) {
        var i :| i in b && a == Addr(f, slots[i].addr);
        assert i in b - {x} || i == x;
      }
      if a in Image(b - {x}, slots, f) {
        var i :| i in b - {x} && a == Addr(f, slots[i].addr);
        assert i in b;
      }
    }
  }

  lemma {:induction false} ImageSize(b: set<int>, slots: seq<Slot>, f: Family)
    requires forall i :: i in b ==> 0 <= i < |slots|
    requires forall i, j :: i in b && j in b && slots[i].addr == slots[j].addr ==> i == j
    ensures |Image(b, slots, f)| == |b|
    decreases b
  {
    if b != {} {
      var x := Some(b);
      ImageSize(b - {x}, slots, f);
      ImageOfOneMore(b, slots, f, x);
      hide Image;
    } else {
      assert Image(b, slots, f) == {};
    }
  }

  ghost function Range(n: nat): (s: set<int>)
    ensures |s| == n && forall i :: i in s <==> 0 <= i < n
  {
    if n == 0 then {} else Range(n - 1) + {n - 1}
  }

  lemma MembersShown(l: Loc, f: Family, m: Table)
    requires LocOk(l, f) && Shows(l, f, m)
    ensures |Members(m, f)| == |Bits(l.bits)|
  {
    hide Has;
    var b := Bits(l.bits);
    ImageSize(b, l.slots, f);
    var image := Image(b, l.slots, f);
    forall a
      ensures a in Members(m, f) <==> a in image
    {
      if a in Members(m, f) {
        var i :| i in b && l.slots[i].addr == a.val;
        assert a == Addr(f, l.slots[i].addr);
      }
    }
    assert Members(m, f) == image;
  }

  lemma FullMeansAll(b: bv8)
    ensures |Bits(b)| < MPTCP_MAX_ADDR <==> exists i :: 0 <= i < MPTCP_MAX_ADDR && i !in Bits(b)
  {
    hide Has;
    var s, all := Bits(b), Range(MPTCP_MAX_ADDR);
    if i :| 0 <= i < MPTCP_MAX_ADDR && i !in s {
      SmallerSet(s, all, i);
    } else {
      assert s == all;
    }
  }

  /** A family has a free bit exactly when it has room for another address. */
  lemma RoomIsFreeBit(l: Loc, f: Family, m: Table)
    requires LocOk(l, f) && Shows(l, f, m)
    ensures |Members(m, f)| < MPTCP_MAX_ADDR <==> exists i :: 0 <= i < MPTCP_MAX_ADDR && !InBits(l.bits, i)
  {
    hide Has, LocOk, Shows;
    MembersShown(l, f, m);
    FullMeansAll(l.bits);
  }

  // ----- The change that an event makes -----

  lemma RemoveShows(l: Loc, f: Family, m: Table, id: nat)
    requires LocOk(l, f) && Shows(l, f, m) && id in Bits(l.bits)
    ensures var l' := l.(bits := And(l.bits, Not(Mask(id)))); var a := Addr(f, l.slots[id].addr);
            LocOk(l', f) && Shows(l', f, m - {a}) && a in m
  {
    ClearBitIn(l.bits, id);
  }

  // What storing at a slot makes of a family: the slot is new, or has the address already.
  function Storing(l: Loc, f: Family, id: nat, val: int, lowPrio: bool, next: nat): Loc
    requires id < |l.slots| == MPTCP_MAX_ADDR
  {
    Loc(l.slots[id := Slot(val, id + FirstId(f), lowPrio)], Or(l.bits, Mask(id)), next)
  }

  lemma StoreIsOk(l: Loc, f: Family, m: Table, id: nat, val: int, lowPrio: bool, next: nat)
    requires LocOk(l, f) && Shows(l, f, m) && id < MPTCP_MAX_ADDR && next <= MPTCP_MAX_ADDR
    requires if id in Bits(l.bits) then l.slots[id].addr == val else Addr(f, val) !in m
    ensures LocOk(Storing(l, f, id, val, lowPrio, next), f)
  {
    hide Has, Or, Mask;
    SetBitIn(l.bits, id);
  }

  lemma StoreShows(l: Loc, f: Family, m: Table, id: nat, val: int, lowPrio: bool, next: nat)
    requires LocOk(l, f) && Shows(l, f, m) && id < MPTCP_MAX_ADDR && next <= MPTCP_MAX_ADDR
    requires if id in Bits(l.bits) then l.slots[id].addr == val else Addr(f, val) !in m
    ensures LocOk(Storing(l, f, id, val, lowPrio, next), f)
    ensures Shows(Storing(l, f, id, val, lowPrio, next), f, m[Addr(f, val) := lowPrio])
  {
    hide Has, Or, Mask;
    StoreIsOk(l, f, m, id, val, lowPrio, next);
    SetBitIn(l.bits, id);
    var l' := Storing(l, f, id, val, lowPrio, next);
    assert Bits(l'.bits) == Bits(l.bits) + {id};
    forall a | a in m[Addr(f, val) := lowPrio] && a.family == f
      ensures exists i :: i in Bits(l'.bits) && l'.slots[i].addr == a.val
    {
      if a.val == val {
        assert id in Bits(l'.bits);
      } else {
        var i :| i in Bits(l.bits) && l.slots[i].addr == a.val;
        assert i in Bits(l'.bits);
      }
    }
  }

  lemma OtherShows(l: Loc, g: Family, m: Table, e: Event)
    requires |l.slots| == MPTCP_MAX_ADDR && Shows(l, g, m) && e.addr.family != g
    ensures Shows(l, g, Apply(m, e))
  {
  }

  // mptcp_find_address: the first slot in use that has the address, or -1.
  method FindAddress(l: Loc, val: int) returns (id: int)
    requires |l.slots| == MPTCP_MAX_ADDR
    ensures -1 <= id < MPTCP_MAX_ADDR
    ensures id >= 0 ==> id in Bits(l.bits) && l.slots[id].addr == val
    ensures forall i :: 0 <= i < id && i in Bits(l.bits) ==> l.slots[i].addr != val
    ensures id < 0 ==> forall i :: i in Bits(l.bits) ==> l.slots[i].addr != val
  {
    hide Has;
    id := 0;
    while id < MPTCP_MAX_ADDR
      invariant 0 <= id <= MPTCP_MAX_ADDR && forall i :: 0 <= i < id && i in Bits(l.bits) ==> l.slots[i].addr != val
    {
      assert id in Bits(l.bits) <==> InBits(l.bits, id);
      if Has(l.bits, id) && l.slots[id].addr == val {
        return;
      }
      id := id + 1;
    }
    id := -1;
  }

  // An event for a new address changes the table exactly when there is a free bit.
  lemma ApplyNew(l: Loc, e: Event, m: Table)
    requires LocOk(l, e.addr.family) && Shows(l, e.addr.family, m) && !e.code.Del? && e.addr !in m
    ensures (forall i :: 0 <= i < MPTCP_MAX_ADDR ==> Has(l.bits, i)) ==> Apply(m, e) == m
    ensures forall i :: 0 <= i < MPTCP_MAX_ADDR && !Has(l.bits, i)
              ==> i !in Bits(l.bits) && Apply(m, e) == m[e.addr := e.lowPrio] != m
  {
    RoomIsFreeBit(l, e.addr.family, m);
    hide Has, LocOk, Shows;
    assert e.addr in m[e.addr := e.lowPrio];
    forall i | 0 <= i < MPTCP_MAX_ADDR && !Has(l.bits, i)
      ensures i !in Bits(l.bits) && Apply(m, e) == m[e.addr := e.lowPrio]
    {
      assert !InBits(l.bits, i);
    }
  }

  // A new address is in the next free slot, with the id of the slot, and nothing else changes.
  ghost predicate StoredNew(l: Loc, l': Loc, e: Event)
    requires |l.slots| == MPTCP_MAX_ADDR
  {
    var j := l'.next - 1;
    && l'.next > 0 && NextFree(l, j) && Bits(l'.bits) == Bits(l.bits) + {j}
    && l'.slots == l.slots[j := Slot(e.addr.val, j + FirstId(e.addr.family), e.lowPrio)]
  }

  lemma IsStoredNew(l: Loc, l': Loc, e: Event, j: nat)
    requires |l.slots| == MPTCP_MAX_ADDR && l'.next == j + 1 && NextFree(l, j) && Bits(l'.bits) == Bits(l.bits) + {j}
    requires l'.slots == l.slots[j := Slot(e.addr.val, j + FirstId(e.addr.family), e.lowPrio)]
    ensures StoredNew(l, l', e)
  {
    hide NextFree, Bits;
  }

  // A new address gets a free slot.
  method StoreNew(l: Loc, e: Event, ghost m: Table) returns (l': Loc, success: bool)
    requires LocOk(l, e.addr.family) && Shows(l, e.addr.family, m) && !e.code.Del? && e.addr !in m
    ensures LocOk(l', e.addr.family) && Shows(l', e.addr.family, Apply(m, e))
    ensures success <==> Apply(m, e) != m
    ensures success ==> StoredNew(l, l', e)
    ensures !success ==> l' == l && forall i :: 0 <= i < MPTCP_MAX_ADDR ==> i in Bits(l.bits)
  {
    var f, val := e.addr.family, e.addr.val;
    assert e.addr == Addr(f, val);
    assert |l.slots| == MPTCP_MAX_ADDR == 8 && l.next <= MPTCP_MAX_ADDR;
    ApplyNew(l, e, m);
    hide *;
    l', success := l, false;
    var j := FindFreeIndex(l.bits, l.next);
    BitsAndHas(l.bits);
    if j >= 0 {
      StoreShows(l, f, m, j, val, e.lowPrio, j + 1);
      StoringIs(l, f, j, val, e.lowPrio, j + 1);
      IsNextFree(l, j);
      IsStoredNew(l, Storing(l, f, j, val, e.lowPrio, j + 1), e, j);
      l', success := Storing(l, f, j, val, e.lowPrio, j + 1), true;
    }
  }

  lemma BitsAndHas(b: bv8)
    ensures forall i :: 0 <= i < 8 ==> (i in Bits(b) <==> Has(b, i))
  {
    hide Has;
    forall i | 0 <= i < 8
      ensures i in Bits(b) <==> Has(b, i)
    {
      assert i in Bits(b) <==> InBits(b, i);
    }
  }

  lemma StoringIs(l: Loc, f: Family, id: nat, val: int, lowPrio: bool, next: nat)
    requires id < |l.slots| == MPTCP_MAX_ADDR
    ensures var l' := Storing(l, f, id, val, lowPrio, next);
            && l'.slots == l.slots[id := Slot(val, id + FirstId(f), lowPrio)] && l'.next == next
            && Bits(l'.bits) == Bits(l.bits) + {id}
  {
    hide Has, Or, Mask;
    SetBitIn(l.bits, id);
  }

  // The free slot that comes first from next on, or else from 0 on.
  ghost predicate NextFree(l: Loc, j: int) {
    && 0 <= j < MPTCP_MAX_ADDR && j !in Bits(l.bits)
    && (j >= l.next ==> forall i :: l.next <= i < j ==> i in Bits(l.bits))
    && (j < l.next ==> forall i :: 0 <= i < j || l.next <= i < MPTCP_MAX_ADDR ==> i in Bits(l.bits))
  }

  lemma IsNextFree(l: Loc, j: int)
    requires 0 <= j < 8 && !Has(l.bits, j)
    requires j >= l.next ==> forall i :: l.next <= i < j ==> Has(l.bits, i)
    requires j < l.next ==> forall i :: 0 <= i < j || l.next <= i < MPTCP_MAX_ADDR ==> Has(l.bits, i)
    ensures NextFree(l, j)
  {
    hide Has;
    BitsAndHas(l.bits);
  }

  // Not a deletion: the address is new, or its priority may change.
  method StoreLoc(l: Loc, e: Event, i: int, ghost m: Table) returns (l': Loc, success: bool, isNew: bool)
    requires LocOk(l, e.addr.family) && Shows(l, e.addr.family, m) && !e.code.Del?
    requires -1 <= i < MPTCP_MAX_ADDR
    requires i >= 0 ==> i in Bits(l.bits) && l.slots[i].addr == e.addr.val
    requires i < 0 ==> e.addr !in m
    ensures LocOk(l', e.addr.family) && Shows(l', e.addr.family, Apply(m, e))
    ensures success <==> Apply(m, e) != m
    ensures isNew <==> success && e.addr !in m
    ensures i < 0 && success ==> StoredNew(l, l', e)
    ensures i < 0 && !success ==> l' == l && forall k :: 0 <= k < MPTCP_MAX_ADDR ==> k in Bits(l.bits)
    ensures i >= 0 ==> Bits(l'.bits) == Bits(l.bits) && l'.next == l.next
    ensures i >= 0 ==> l'.slots == l.slots[i := l.slots[i].(lowPrio := e.lowPrio)]
  {
    var f, val := e.addr.family, e.addr.val;
    assert |l.slots| == MPTCP_MAX_ADDR == 8 && l.next <= MPTCP_MAX_ADDR;
    l', success, isNew := l, false, false;
    if i < 0 {
      hide *;
      l', success := StoreNew(l, e, m);
      isNew := success;
      return;
    }
    KnownAddress(l, e, i, m);
    hide *;
    if e.lowPrio == l.slots[i].lowPrio {
      return;
    }
    StoreShows(l, f, m, i, val, e.lowPrio, l.next);
    StoringIs(l, f, i, val, e.lowPrio, l.next);
    l', success := Storing(l, f, i, val, e.lowPrio, l.next), true;
  }

  // An event for an address in the table.
  lemma KnownAddress(l: Loc, e: Event, i: nat, m: Table)
    requires LocOk(l, e.addr.family) && Shows(l, e.addr.family, m) && !e.code.Del?
    requires i in Bits(l.bits) && i < |l.slots| == MPTCP_MAX_ADDR && l.slots[i].addr == e.addr.val
    ensures e.addr in m && l.slots[i].id == i + FirstId(e.addr.family) && Addr(e.addr.family, e.addr.val) == e.addr
    ensures Apply(m, e) == m[e.addr := e.lowPrio] && (Apply(m, e) == m <==> e.lowPrio == l.slots[i].lowPrio)
    ensures e.lowPrio == l.slots[i].lowPrio ==> l.slots[i := l.slots[i].(lowPrio := e.lowPrio)] == l.slots
    ensures Slot(e.addr.val, i + FirstId(e.addr.family), e.lowPrio) == l.slots[i].(lowPrio := e.lowPrio)
  {
    assert e.addr == Addr(e.addr.family, l.slots[i].addr);
    assert m[e.addr] == l.slots[i].lowPrio;
    hide Members;
    assert m[e.addr := e.lowPrio] == m <==> e.lowPrio == m[e.addr];
  }

  // The address of an event is in the table exactly when a slot has it.
  lemma FoundIsMember(l: Loc, a: Addr, m: Table, i: int)
    requires LocOk(l, a.family) && Shows(l, a.family, m) && -1 <= i < MPTCP_MAX_ADDR
    requires i >= 0 ==> i in Bits(l.bits) && l.slots[i].addr == a.val
    requires i < 0 ==> forall k :: k in Bits(l.bits) ==> l.slots[k].addr != a.val
    ensures i >= 0 <==> a in m
  {
    assert a == Addr(a.family, a.val);
  }

  /** The worker's change to the family of the event, slot by slot: success says that the table is not
      what it was, isNew that it has a new address. */
  method UpdateLoc(l: Loc, e: Event, ghost m: Table) returns (l': Loc, success: bool, isNew: bool)
    requires LocOk(l, e.addr.family) && Shows(l, e.addr.family, m)
    ensures LocOk(l', e.addr.family) && Shows(l', e.addr.family, Apply(m, e))
    ensures success <==> Apply(m, e) != m
    ensures isNew <==> e.addr !in m && e.addr in Apply(m, e)
    ensures SlotsFollow(l, l', e)
  {
    assert |l.slots| == MPTCP_MAX_ADDR;
    OnlyOne(l, e.addr.family);
    hide *;
    var i := FindAddress(l, e.addr.val);
    FoundIsMember(l, e.addr, m, i);
    if !e.code.Del? {
      l', success, isNew := StoreLoc(l, e, i, m);
      FollowsStored(l, l', e, i);
      AddedIfChanged(m, e);
      return;
    }
    l', success := RemoveLoc(l, e, i, m);
    isNew := false;
    FollowsRemoved(l, l', e, i);
    NotNew(m, e);
  }

  // A deletion, of an address that is at i if it is there.
  method RemoveLoc(l: Loc, e: Event, i: int, ghost m: Table) returns (l': Loc, success: bool)
    requires LocOk(l, e.addr.family) && Shows(l, e.addr.family, m) && e.code.Del? && |l.slots| == MPTCP_MAX_ADDR
    requires -1 <= i < MPTCP_MAX_ADDR && (i >= 0 <==> e.addr in m)
    requires i >= 0 ==> i in Bits(l.bits) && l.slots[i].addr == e.addr.val
    ensures LocOk(l', e.addr.family) && Shows(l', e.addr.family, Apply(m, e))
    ensures success <==> Apply(m, e) != m
    ensures l'.slots == l.slots && l'.next == l.next
    ensures if i >= 0 then Bits(l'.bits) == Bits(l.bits) - {i} else l' == l
  {
    hide Has, And, Not, Mask, LocOk, Shows;
    NotNew(m, e);
    l', success := l, false;
    if i >= 0 {
      ClearBitIn(l.bits, i);
      RemoveShows(l, e.addr.family, m, i);
      l', success := l.(bits := And(l.bits, Not(Mask(i)))), true;
    }
  }

  // What the change is in terms of the slots.
  ghost predicate SlotsFollow(l: Loc, l': Loc, e: Event)
    requires |l.slots| == MPTCP_MAX_ADDR
  {
    if e.code.Del? then
      && l'.slots == l.slots && l'.next == l.next
      && forall i :: i in Bits(l'.bits) <==> i in Bits(l.bits) && l.slots[i].addr != e.addr.val
    else if HasAddr(l, e.addr.val) then
      && Bits(l'.bits) == Bits(l.bits) && l'.next == l.next && |l'.slots| == |l.slots|
      && forall i :: i in Bits(l.bits)
           ==> l'.slots[i] == if l.slots[i].addr == e.addr.val then l.slots[i].(lowPrio := e.lowPrio) else l.slots[i]
    else StoredNew(l, l', e) || (l' == l && forall i :: 0 <= i < MPTCP_MAX_ADDR ==> i in Bits(l.bits))
  }

  ghost predicate HasAddr(l: Loc, val: int)
    requires |l.slots| == MPTCP_MAX_ADDR
  {
    exists i :: i in Bits(l.bits) && l.slots[i].addr == val
  }

  // No address is in two slots.
  ghost predicate NoneTwice(l: Loc)
    requires |l.slots| == MPTCP_MAX_ADDR
  {
    forall i, j :: i in Bits(l.bits) && j in Bits(l.bits) && l.slots[i].addr == l.slots[j].addr ==> i == j
  }

  lemma OnlyOne(l: Loc, f: Family)
    requires LocOk(l, f)
    ensures NoneTwice(l)
  {
  }

  lemma AddedIfChanged(m: Table, e: Event)
    requires !e.code.Del?
    ensures e.addr !in m ==> (Apply(m, e) != m <==> e.addr in Apply(m, e))
  {
  }

  lemma NotNew(m: Table, e: Event)
    requires e.code.Del?
    ensures Apply(m, e) == m - {e.addr} && (e.addr !in m ==> Apply(m, e) == m)
    ensures e.addr in m ==> Apply(m, e) != m
    ensures e.addr !in Apply(m, e)
    ensures e.addr == Addr(e.addr.family, e.addr.val)
  {
    assert e.addr in m ==> e.addr !in m - {e.addr};
  }

  lemma FollowsStored(l: Loc, l': Loc, e: Event, i: int)
    requires |l.slots| == MPTCP_MAX_ADDR && NoneTwice(l) && !e.code.Del?
    requires i >= 0 ==> i in Bits(l.bits) && l.slots[i].addr == e.addr.val
    requires i < 0 ==> forall k :: k in Bits(l.bits) ==> l.slots[k].addr != e.addr.val
    requires i < 0 ==> StoredNew(l, l', e) || (l' == l && forall k :: 0 <= k < MPTCP_MAX_ADDR ==> k in Bits(l.bits))
    requires i >= 0 ==> Bits(l'.bits) == Bits(l.bits) && l'.next == l.next
    requires i >= 0 ==> l'.slots == l.slots[i := l.slots[i].(lowPrio := e.lowPrio)]
    ensures SlotsFollow(l, l', e)
  {
    hide StoredNew, Bits;
  }

  lemma FollowsRemoved(l: Loc, l': Loc, e: Event, i: int)
    requires |l.slots| == MPTCP_MAX_ADDR && NoneTwice(l) && e.code.Del?
    requires l'.slots == l.slots && l'.next == l.next
    requires i >= 0 ==> i in Bits(l.bits) && l.slots[i].addr == e.addr.val && Bits(l'.bits) == Bits(l.bits) - {i}
    requires i < 0 ==> l' == l && forall k :: k in Bits(l.bits) ==> l.slots[k].addr != e.addr.val
    ensures SlotsFollow(l, l', e)
  {
    hide StoredNew;
  }

  // struct mptcp_fm_ns.
  class FmNs {
    var local4: Loc
    var local6: Loc
    var events: seq<Event>
    ghost var table: Table

    ghost predicate Valid()
      reads this
    {
      && LocOk(local4, Inet) && LocOk(local6, Inet6) && Shows(local4, Inet, table) && Shows(local6, Inet6, table)
      && OnePerAddress(events)
    }

    constructor ()
      ensures Valid() && table == map[] && events == []
    {
      var empty := Loc(seq(MPTCP_MAX_ADDR, _ => Slot(0, 0, false)), 0, 0);
      local4, local6, events, table := empty, empty, [], map[];
      new;
      ZeroIsEmpty(0);
    }

    // lookup_similar_event.
    method LookupSimilarEvent(e: Event) returns (k: int)
      requires Valid()
      ensures k == Similar(events, e.addr)
    {
      k := 0;
      while k < |events|
        invariant 0 <= k <= |events| && forall j :: 0 <= j < k ==> events[j].addr != e.addr
      {
        if events[k].addr == e.addr {
          return;
        }
        k := k + 1;
      }
      k := -1;
    }

    /** add_pm_event: the event joins the queue, or supersedes the one for its address. */
    method AddPmEvent(e: Event)
      requires Valid()
      modifies this`events
      ensures Valid() && events == Coalesced(old(events), e)
    {
      CoalescedKeepsOne(events, e);
      var k := LookupSimilarEvent(e);
      if k >= 0 {
        match e.code
        case Del => events := events[..k] + events[k + 1..];
        case Add => events := events[k := events[k].(lowPrio := e.lowPrio, code := Add)]; return;
        case Mod => events := events[k := events[k].(lowPrio := e.lowPrio, code := Mod)]; return;
      }
      events := events + [e];
    }

    lemma Parts()
      requires Valid()
      ensures LocOk(local4, Inet) && LocOk(local6, Inet6) && |local4.slots| == |local6.slots| == MPTCP_MAX_ADDR
      ensures Shows(local4, Inet, table) && Shows(local6, Inet6, table) && OnePerAddress(events)
    {
    }

    lemma Whole()
      requires LocOk(local4, Inet) && LocOk(local6, Inet6)
      requires Shows(local4, Inet, table) && Shows(local6, Inet6, table) && OnePerAddress(events)
      ensures Valid()
    {
    }

    /** One round of mptcp_address_worker up to its sockets: the first event is taken and
        applied; success says that the sockets have to hear of it, and a change of an
        address that was not there is told as an addition. */
    method HandleEvent() returns (e: Event, success: bool)
      requires Valid() && events != []
      modifies this
      ensures Valid() && events == old(events)[1..]
      ensures table == Apply(old(table), old(events)[0])
      ensures Followed(old(local4), old(local6), local4, local6, old(events)[0])
      ensures success <==> table != old(table)
      ensures e == if old(events)[0].addr !in old(table) && old(events)[0].addr in table
                   then old(events)[0].(code := Add) else old(events)[0]
    {
      hide *;
      Parts();
      TailKeepsOne(events);
      e := events[0];
      events := events[1..];
      var isNew;
      if e.addr.family == Inet {
        OtherFamilyShows(local6, Inet6, table, e);
        local4, success, isNew := UpdateLoc(local4, e, table);
      } else {
        OtherFamilyShows(local4, Inet, table, e);
        local6, success, isNew := UpdateLoc(local6, e, table);
      }
      table := Apply(table, e);
      Whole();
      IsFollowed(old(local4), old(local6), local4, local6, e);
      if isNew {
        e := e.(code := Add);
      }
    }

    /** mptcp_address_worker: the queue is drained into the table. */
    method AddressWorker()
      requires Valid()
      modifies this
      ensures Valid() && events == [] && table == ApplyAll(old(table), old(events))
    {
      hide LocOk, Shows, Apply;
      while events != []
        invariant Valid() && ApplyAll(table, events) == ApplyAll(old(table), old(events))
        decreases |events|
      {
        var _, _ := HandleEvent();
      }
    }
  }

  // The slots of the event's family follow it, and the other family stays what it was.
  ghost predicate Followed(l4: Loc, l6: Loc, l4': Loc, l6': Loc, e: Event) {
    && |l4.slots| == |l6.slots| == MPTCP_MAX_ADDR
    && if e.addr.family == Inet then l6' == l6 && SlotsFollow(l4, l4', e) else l4' == l4 && SlotsFollow(l6, l6', e)
  }

  lemma IsFollowed(l4: Loc, l6: Loc, l4': Loc, l6': Loc, e: Event)
    requires |l4.slots| == |l6.slots| == MPTCP_MAX_ADDR
    requires e.addr.family == Inet ==> l6' == l6 && SlotsFollow(l4, l4', e)
    requires e.addr.family != Inet ==> l4' == l4 && SlotsFollow(l6, l6', e)
    ensures Followed(l4, l6, l4', l6', e)
  {
    hide SlotsFollow;
  }

  lemma TailKeepsOne(q: seq<Event>)
    requires OnePerAddress(q) && q != []
    ensures OnePerAddress(q[1..])
  {
  }

  lemma OtherFamilyShows(l: Loc, g: Family, m: Table, e: Event)
    requires LocOk(l, g) && Shows(l, g, m) && e.addr.family != g
    ensures Shows(l, g, Apply(m, e))
  {
    OtherShows(l, g, m, e);
  }

  /** The ids of the two families are apart, but for one pair: the last slot of the first
      and the first slot of the second have the same id. */
  lemma LocIdsClash(l4: Loc, l6: Loc)
    requires LocOk(l4, Inet) && LocOk(l6, Inet6)
    ensures (forall i, j :: i in Bits(l4.bits) && j in Bits(l6.bits) ==> l4.slots[i].id != l6.slots[j].id)
       <==> !(MPTCP_MAX_ADDR - 1 in Bits(l4.bits) && 0 in Bits(l6.bits))
  {
    if MPTCP_MAX_ADDR - 1 in Bits(l4.bits) && 0 in Bits(l6.bits) {
      assert l4.slots[MPTCP_MAX_ADDR - 1].id == l6.slots[0].id;
    }
  }

  // The part of a table with one address, in slot i.
  ghost function OnlySlot(f: Family, i: nat): Loc
    requires i < MPTCP_MAX_ADDR
  {
    Loc(seq(MPTCP_MAX_ADDR, k requires 0 <= k => Slot(0, k + FirstId(f), false)), Mask(i), 0)
  }

  lemma OnlySlotOk(f: Family, i: nat)
    requires i < MPTCP_MAX_ADDR
    ensures LocOk(OnlySlot(f, i), f) && Bits(OnlySlot(f, i).bits) == {i}
  {
    hide Has, Mask;
    forall j | 0 <= j < MPTCP_MAX_ADDR
      ensures Has(Mask(i), j) <==> i == j
    {
      HasMask(i, j);
    }
    assert Bits(Mask(i)) == {i};
  }

  /** There are such tables: an IPv4 address in the last slot and an IPv6 address in the
      first both get the id 8. */
  lemma LocIdsDoClash()
    ensures var l4, l6 := OnlySlot(Inet, 7), OnlySlot(Inet6, 0);
            && LocOk(l4, Inet) && LocOk(l6, Inet6) && 7 in Bits(l4.bits) && 0 in Bits(l6.bits)
            && l4.slots[7].id == 8 == l6.slots[0].id
  {
    OnlySlotOk(Inet, 7);
    OnlySlotOk(Inet6, 0);
  }
}
