/** The address events of test/kernel/mptcp/mptcp_fullmesh.c: a queue that coalesces, and
    a worker that applies it to a table of at most eight addresses a family. */
module FullmeshEvents {
  import opened FullmeshBits

  datatype Family = Inet | Inet6
  datatype Addr = Addr(family: Family, val: int)
  datatype Code = Add | Del | Mod
  datatype Event = Event(code: Code, addr: Addr, lowPrio: bool)

  // The table of local addresses with their priorities.
  type Table = map<Addr, bool>

  ghost function Members(m: Table, f: Family): set<Addr> {
    set a | a in m && a.family == f
  }

  // What the worker does with one event: an address that finds no slot is dropped.
  ghost function Apply(m: Table, e: Event): Table {
    if e.code.Del? then m - {e.addr}
    else if e.addr in m || |Members(m, e.addr.family)| < MPTCP_MAX_ADDR then m[e.addr := e.lowPrio]
    else m
  }

  ghost function ApplyAll(m: Table, q: seq<Event>): Table
    decreases |q|
  {
    if q == [] then m else ApplyAll(Apply(m, q[0]), q[1..])
  }

  // lookup_similar_event: the queue's event for an address, if there is one.
  ghost function Similar(q: seq<Event>, a: Addr): (k: int)
    ensures -1 <= k < |q| && (k >= 0 ==> q[k].addr == a) && (k < 0 ==> forall j :: 0 <= j < |q| ==> q[j].addr != a)
    ensures forall j :: 0 <= j < k ==> q[j].addr != a
  {
    if q == [] then -1
    else if q[0].addr == a then 0
    else
      var k := Similar(q[1..], a);
      assert forall j :: 1 <= j < |q| ==> q[j] == q[1..][j - 1];
      if k < 0 then -1 else k + 1
  }

  // add_pm_event: a deletion goes to the end of the queue, anything else takes the place
  // of what it supersedes.
  ghost function Coalesced(q: seq<Event>, e: Event): seq<Event> {
    var k := Similar(q, e.addr);
    if k < 0 then q + [e]
    else if e.code.Del? then q[..k] + q[k + 1..] + [e]
    else q[k := e]
  }

  ghost predicate OnePerAddress(q: seq<Event>) {
    forall j, k :: 0 <= j < k < |q| ==> q[j].addr != q[k].addr
  }

  lemma CoalescedKeepsOne(q: seq<Event>, e: Event)
    requires OnePerAddress(q)
    ensures OnePerAddress(Coalesced(q, e))
  {
  }

  // ----- Without a limit, coalescing changes nothing -----

  ghost function Free(m: Table, e: Event): Table {
    if e.code.Del? then m - {e.addr} else m[e.addr := e.lowPrio]
  }

  ghost function FreeAll(m: Table, q: seq<Event>): Table
    decreases |q|
  {
    if q == [] then m else FreeAll(Free(m, q[0]), q[1..])
  }

  lemma {:induction false} FreeAllConcat(m: Table, q: seq<Event>, r: seq<Event>)
    ensures FreeAll(m, q + r) == FreeAll(FreeAll(m, q), r)
    decreases |q|
  {
    if q == [] {
      assert q + r == r;
    } else {
      assert (q + r)[1..] == q[1..] + r;
      FreeAllConcat(Free(m, q[0]), q[1..], r);
    }
  }

  // An event passes others that are about other addresses.
  lemma {:induction false} FreePasses(m: Table, e: Event, q: seq<Event>)
    requires forall j :: 0 <= j < |q| ==> q[j].addr != e.addr
    ensures FreeAll(Free(m, e), q) == Free(FreeAll(m, q), e)
    decreases |q|
  {
    if q != [] {
      assert Free(Free(m, e), q[0]) == Free(Free(m, q[0]), e);
      FreePasses(Free(m, q[0]), e, q[1..]);
    }
  }

  lemma FreeCons(m: Table, e: Event, q: seq<Event>)
    ensures FreeAll(m, [e] + q) == FreeAll(Free(m, e), q)
    ensures FreeAll(m, [e]) == Free(m, e)
  {
    assert ([e] + q)[1..] == q && [e][1..] == [];
  }

  lemma Supersedes(m: Table, was: Event, e: Event)
    requires was.addr == e.addr
    ensures Free(Free(m, was), e) == Free(m, e)
  {
  }

  // The event in the middle can be taken last.
  lemma MiddleLast(m: Table, before: seq<Event>, was: Event, after: seq<Event>)
    requires forall j :: 0 <= j < |after| ==> after[j].addr != was.addr
    ensures FreeAll(m, before + [was] + after) == Free(FreeAll(m, before + after), was)
  {
    hide FreeAll;
    assert before + [was] + after == before + ([was] + after);
    FreeAllConcat(m, before, [was] + after);
    FreeAllConcat(m, before, after);
    FreeCons(FreeAll(m, before), was, after);
    FreePasses(FreeAll(m, before), was, after);
  }

  lemma CoalescedFree(m: Table, q: seq<Event>, e: Event)
    requires OnePerAddress(q)
    ensures FreeAll(m, Coalesced(q, e)) == Free(FreeAll(m, q), e)
  {
    hide FreeAll, Free;
    var k := Similar(q, e.addr);
    if k < 0 {
      FreeAllConcat(m, q, [e]);
      FreeCons(FreeAll(m, q), e, []);
    } else {
      var before, after, was := q[..k], q[k + 1..], q[k];
      assert q == before + [was] + after;
      MiddleLast(m, before, was, after);
      Supersedes(FreeAll(m, before + after), was, e);
      if e.code.Del? {
        FreeAllConcat(m, before + after, [e]);
        FreeCons(FreeAll(m, before + after), e, []);
      } else {
        assert q[k := e] == before + [e] + after;
        MiddleLast(m, before, e, after);
      }
    }
  }

  // ----- Runs: events are raised while the worker works -----

  datatype Sys = Sys(table: Table, queue: seq<Event>)
  datatype Label = Raise(e: Event) | Work

  ghost predicate Next(s: Sys, l: Label, t: Sys) {
    match l
    case Raise(e) => t == s.(queue := Coalesced(s.queue, e))
    case Work => s.queue != [] && t == Sys(Apply(s.table, s.queue[0]), s.queue[1..])
  }

  ghost predicate Run(states: seq<Sys>, labels: seq<Label>) {
    |states| == |labels| + 1 && forall i :: 0 <= i < |labels| ==> Next(states[i], labels[i], states[i + 1])
  }

  // The raw events of a run, in order of arrival.
  ghost function Raised(labels: seq<Label>): seq<Event> {
    if labels == [] then []
    else
      var l := labels[|labels| - 1];
      Raised(labels[..|labels| - 1]) + if l.Raise? then [l.e] else []
  }

  // What is there at first and what is raised is about addresses of A only.
  ghost predicate About(addrs: set<Addr>, s: Sys, labels: seq<Label>) {
    && s.table.Keys <= addrs && (forall j :: 0 <= j < |s.queue| ==> s.queue[j].addr in addrs)
    && forall i :: 0 <= i < |labels| && labels[i].Raise? ==> labels[i].e.addr in addrs
  }

  ghost function OfFamily(addrs: set<Addr>, f: Family): set<Addr> {
    set a | a in addrs && a.family == f
  }

  ghost predicate Few(addrs: set<Addr>) {
    |OfFamily(addrs, Inet)| <= MPTCP_MAX_ADDR && |OfFamily(addrs, Inet6)| <= MPTCP_MAX_ADDR
  }

  lemma SmallerSet<T>(s: set<T>, t: set<T>, x: T)
    requires s <= t && x in t && x !in s
    ensures |s| < |t|
  {
    SubsetIsSmaller(s, t - {x});
  }

  lemma {:induction false} SubsetIsSmaller<T>(s: set<T>, t: set<T>)
    requires s <= t
    ensures |s| <= |t|
    decreases s
  {
    if s != {} {
      var x :| x in s;
      SubsetIsSmaller(s - {x}, t - {x});
    }
  }

  // With few addresses there is always a slot.
  lemma ApplyIsFree(addrs: set<Addr>, m: Table, e: Event)
    requires Few(addrs) && m.Keys <= addrs && e.addr in addrs
    ensures Apply(m, e) == Free(m, e) && Apply(m, e).Keys <= addrs
  {
    if e.addr !in m {
      var f := e.addr.family;
      SmallerSet(Members(m, f), OfFamily(addrs, f), e.addr);
    }
  }

  lemma {:induction false} ApplyAllIsFree(addrs: set<Addr>, m: Table, q: seq<Event>)
    requires Few(addrs) && m.Keys <= addrs && forall j :: 0 <= j < |q| ==> q[j].addr in addrs
    ensures ApplyAll(m, q) == FreeAll(m, q) && ApplyAll(m, q).Keys <= addrs
    decreases |q|
  {
    if q != [] {
      ApplyIsFree(addrs, m, q[0]);
      ApplyAllIsFree(addrs, Apply(m, q[0]), q[1..]);
    }
  }

  // The table that the raw events would have made, applied one by one as they came.
  ghost function RawTable(s: Sys, labels: seq<Label>): Table {
    ApplyAll(ApplyAll(s.table, s.queue), Raised(labels))
  }

  lemma {:induction false} RaisedAbout(addrs: set<Addr>, s: Sys, labels: seq<Label>)
    requires About(addrs, s, labels)
    ensures forall j :: 0 <= j < |Raised(labels)| ==> Raised(labels)[j].addr in addrs
    decreases |labels|
  {
    if labels != [] {
      RaisedAbout(addrs, s, labels[..|labels| - 1]);
    }
  }

  lemma CoalescedIn(addrs: set<Addr>, q: seq<Event>, e: Event)
    requires e.addr in addrs && forall j :: 0 <= j < |q| ==> q[j].addr in addrs
    ensures forall j :: 0 <= j < |Coalesced(q, e)| ==> Coalesced(q, e)[j].addr in addrs
  {
  }

  // One step keeps what the queue still has to make of the table, except for the event
  // that it raises.
  lemma StepKeepsMeaning(addrs: set<Addr>, s: Sys, l: Label, t: Sys)
    requires Few(addrs) && About(addrs, s, [l]) && OnePerAddress(s.queue) && Next(s, l, t)
    ensures About(addrs, t, []) && OnePerAddress(t.queue)
    ensures FreeAll(t.table, t.queue)
         == if l.Raise? then Free(FreeAll(s.table, s.queue), l.e) else FreeAll(s.table, s.queue)
  {
    hide Coalesced, FreeAll, Apply;
    match l
    case Raise(e) =>
      assert [l][0] == l;
      CoalescedIn(addrs, s.queue, e);
      CoalescedKeepsOne(s.queue, e);
      CoalescedFree(s.table, s.queue, e);
    case Work =>
      ApplyIsFree(addrs, s.table, s.queue[0]);
      FreeCons(s.table, s.queue[0], s.queue[1..]);
      assert s.queue == [s.queue[0]] + s.queue[1..];
  }

  lemma {:induction false} MeaningOnRun(addrs: set<Addr>, states: seq<Sys>, labels: seq<Label>)
    requires Run(states, labels) && Few(addrs) && About(addrs, states[0], labels) && OnePerAddress(states[0].queue)
    ensures About(addrs, states[|labels|], []) && OnePerAddress(states[|labels|].queue)
    ensures FreeAll(states[|labels|].table, states[|labels|].queue)
         == FreeAll(FreeAll(states[0].table, states[0].queue), Raised(labels))
    decreases |labels|
  {
    var n := |labels|;
    if n > 0 {
      MeaningOnRun(addrs, states[..n], labels[..n - 1]);
      assert Next(states[n - 1], labels[n - 1], states[n]);
      hide FreeAll, Free, Next, Coalesced;
      StepKeepsMeaning(addrs, states[n - 1], labels[n - 1], states[n]);
      var raised := Raised(labels[..n - 1]);
      if labels[n - 1].Raise? {
        var m := FreeAll(states[0].table, states[0].queue);
        FreeAllConcat(m, raised, [labels[n - 1].e]);
        FreeCons(FreeAll(m, raised), labels[n - 1].e, []);
      } else {
        assert raised + [] == raised;
      }
    }
  }

  /** Coalescing preserves meaning: with at most eight addresses a family, whenever the
      queue is drained the table is what the raw events, applied in order of arrival,
      make of it; and the queue never holds two events for an address. */
  lemma CoalescingPreservesMeaning(addrs: set<Addr>, states: seq<Sys>, labels: seq<Label>)
    requires Run(states, labels) && Few(addrs) && About(addrs, states[0], labels) && OnePerAddress(states[0].queue)
    ensures OnePerAddress(states[|labels|].queue)
    ensures states[|labels|].queue == [] ==> states[|labels|].table == RawTable(states[0], labels)
  {
    MeaningOnRun(addrs, states, labels);
    RaisedAbout(addrs, states[0], labels);
    ApplyAllIsFree(addrs, states[0].table, states[0].queue);
    ApplyAllIsFree(addrs, ApplyAll(states[0].table, states[0].queue), Raised(labels));
  }

  // ----- Eight is exact -----

  // A table that fits.
  ghost predicate Fits(m: Table) {
    |Members(m, Inet)| <= MPTCP_MAX_ADDR && |Members(m, Inet6)| <= MPTCP_MAX_ADDR
  }

  ghost predicate DrainedRun(addrs: set<Addr>, states: seq<Sys>, labels: seq<Label>) {
    && Run(states, labels) && About(addrs, states[0], labels) && OnePerAddress(states[0].queue)
    && Fits(states[0].table) && states[|labels|].queue == []
  }

  ghost predicate AlwaysRight(addrs: set<Addr>) {
    forall states: seq<Sys>, labels: seq<Label> :: DrainedRun(addrs, states, labels)
      ==> states[|labels|].table == RawTable(states[0], labels)
  }

  lemma {:induction false} PickSome(s: set<Addr>, n: nat) returns (t: set<Addr>)
    requires n <= |s|
    ensures t <= s && |t| == n
    decreases s
  {
    if |s| == n {
      t := s;
    } else {
      var x :| x in s;
      t := PickSome(s - {x}, n);
    }
  }

  // The table is full; one address goes, another comes, and the first comes back.
  ghost function FullTable(t: set<Addr>): Table {
    map a | a in t :: false
  }

  ghost function GoComeBack(a: Addr, b: Addr): seq<Label> {
    [Raise(Event(Del, a, true)), Raise(Event(Add, b, true)), Raise(Event(Add, a, true)), Work, Work]
  }

  ghost function GoComeBackStates(t: set<Addr>, a: Addr, b: Addr): seq<Sys> {
    var m := FullTable(t);
    var del, addB, addA := Event(Del, a, true), Event(Add, b, true), Event(Add, a, true);
    [Sys(m, []), Sys(m, [del]), Sys(m, [del, addB]), Sys(m, [addA, addB]),
     Sys(m[a := true], [addB]), Sys(m[a := true], [])]
  }

  lemma CoalescedPairs(e: Event, f: Event)
    requires e.addr != f.addr
    ensures Coalesced([], e) == [e] && Coalesced([e], f) == [e, f]
    ensures forall g: Event :: g.addr == e.addr && !g.code.Del? ==> Coalesced([e, f], g) == [g, f]
  {
  }

  lemma MembersOfFull(t: set<Addr>, f: Family)
    requires forall x :: x in t ==> x.family == f
    ensures Members(FullTable(t), f) == t
  {
  }

  lemma GoComeBackRuns(t: set<Addr>, a: Addr, b: Addr)
    requires a in t && b !in t && |t| == MPTCP_MAX_ADDR && (forall x :: x in t ==> x.family == b.family)
    ensures Run(GoComeBackStates(t, a, b), GoComeBack(a, b))
  {
    var states, labels, m := GoComeBackStates(t, a, b), GoComeBack(a, b), FullTable(t);
    CoalescedPairs(Event(Del, a, true), Event(Add, b, true));
    MembersOfFull(t, b.family);
    assert Members(m[a := true], b.family) == t;
    hide Coalesced;
    assert Next(states[0], labels[0], states[1]);
    assert Next(states[1], labels[1], states[2]);
    assert Next(states[2], labels[2], states[3]);
    assert Next(states[3], labels[3], states[4]) by { assert states[3].queue[1..] == states[4].queue; }
    assert Next(states[4], labels[4], states[5]) by { assert states[4].queue[1..] == states[5].queue; }
  }

  lemma RaisedGoComeBack(a: Addr, b: Addr)
    ensures Raised(GoComeBack(a, b)) == [Event(Del, a, true), Event(Add, b, true), Event(Add, a, true)]
  {
    var l := GoComeBack(a, b);
    assert l[..5] == l && l[..5][..4] == l[..4] && l[..4][..3] == l[..3];
    assert l[..3][..2] == l[..2] && l[..2][..1] == l[..1];
    assert l[..1][..0] == [];
    assert Raised(l[..1]) == [l[0].e];
    assert Raised(l[..2]) == [l[0].e, l[1].e];
    assert Raised(l[..3]) == [l[0].e, l[1].e, l[2].e];
    assert Raised(l[..4]) == Raised(l[..3]);
  }

  // Applied as they come, the events leave no slot for the address that comes back.
  lemma RawGoComeBack(t: set<Addr>, a: Addr, b: Addr)
    requires a in t && b !in t && |t| == MPTCP_MAX_ADDR && (forall x :: x in t ==> x.family == b.family)
    ensures a !in ApplyAll(FullTable(t), [Event(Del, a, true), Event(Add, b, true), Event(Add, a, true)])
  {
    var del, addB, addA := Event(Del, a, true), Event(Add, b, true), Event(Add, a, true);
    var m := FullTable(t);
    var m1 := Apply(m, del);
    assert Members(m1, b.family) == t - {a};
    var m2 := Apply(m1, addB);
    assert m2 == m1[b := true];
    assert Members(m2, b.family) == t - {a} + {b};
    assert [del, addB, addA][1..] == [addB, addA] && [addB, addA][1..] == [addA] && [addA][1..] == [];
    assert ApplyAll(m2, [addA]) == Apply(m2, addA) == m2;
    assert ApplyAll(m1, [addB, addA]) == m2;
  }

  lemma TooManyGoWrong(addrs: set<Addr>, f: Family)
    requires |OfFamily(addrs, f)| > MPTCP_MAX_ADDR
    ensures !AlwaysRight(addrs)
  {
    var t := PickSome(OfFamily(addrs, f), MPTCP_MAX_ADDR);
    if forall x :: x in OfFamily(addrs, f) ==> x in t {
      SubsetIsSmaller(OfFamily(addrs, f), t);
      assert false;
    }
    var b :| b in OfFamily(addrs, f) && b !in t;
    var a :| a in t;
    var states, labels := GoComeBackStates(t, a, b), GoComeBack(a, b);
    GoComeBackRuns(t, a, b);
    RaisedGoComeBack(a, b);
    RawGoComeBack(t, a, b);
    MembersOfFull(t, f);
    OtherFamily(t, f);
    assert DrainedRun(addrs, states, labels);
    assert a in states[|labels|].table && a !in RawTable(states[0], labels);
  }

  lemma OtherFamily(t: set<Addr>, f: Family)
    requires forall x :: x in t ==> x.family == f
    ensures forall g :: g != f ==> Members(FullTable(t), g) == {}
  {
  }

  /** Coalescing is right on every run exactly when no family has more than eight
      addresses to tell apart. */
  lemma RightExactlyForFew(addrs: set<Addr>)
    ensures AlwaysRight(addrs) <==> Few(addrs)
  {
    if Few(addrs) {
      forall states: seq<Sys>, labels: seq<Label> | DrainedRun(addrs, states, labels)
        ensures states[|labels|].table == RawTable(states[0], labels)
      {
        CoalescingPreservesMeaning(addrs, states, labels);
      }
    } else if |OfFamily(addrs, Inet)| > MPTCP_MAX_ADDR {
      TooManyGoWrong(addrs, Inet);
    } else {
      TooManyGoWrong(addrs, Inet6);
    }
  }
}
