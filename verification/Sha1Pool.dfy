/** The reference-counted SHA-1 pool of model/kernel_hash/sha.c.

    Two globals, a user count and a pool pointer, are shared by any number of
    threads and changed only inside spin-locked sections.  Building a pool and
    releasing one happen outside the lock.  Class Sha1SigPool holds the globals
    and has one method per locked section; the rest of the module follows every
    interleaving of those sections. */
module Sha1Pool {

  datatype Option<+T> = None | Some(value: T)

  type PoolId = nat

  datatype Globals = Globals(users: nat, pool: Option<PoolId>)

  // What the first locked section of tcp_alloc_sha1sig_pool tells its caller.
  datatype Entry = MustBuild | Retry | Joined(p: PoolId)

  function Enter(g: Globals): (Globals, Entry) {
    if g.users == 0 then (g.(users := 1), MustBuild)
    else if g.pool.None? then (g, Retry)
    else (g.(users := g.users + 1), Joined(g.pool.value))
  }

  // The section after the build: the built pool, if any, is published unless one
  // is there already.  The flag says that the new pool lost and must be freed.
  function Publish(g: Globals, built: Option<PoolId>): (r: (Globals, Option<PoolId>, bool))
    requires g.users > 0
  {
    if built.None? then (g.(users := g.users - 1), None, false)
    else if g.pool.Some? then (g, g.pool, true)
    else (g.(pool := built), built, false)
  }

  function Get(g: Globals): (Globals, Option<PoolId>) {
    if g.pool.Some? then (g.(users := g.users + 1), g.pool) else (g, None)
  }

  // The second component is the pool that the caller must free, if any.
  function Put(g: Globals): (Globals, Option<PoolId>)
    requires g.users > 0
  {
    if g.users == 1 then (Globals(0, None), g.pool) else (g.(users := g.users - 1), None)
  }

  class Sha1SigPool {
    var users: nat
    var pool: Option<PoolId>

    function State(): Globals
      reads this
    {
      Globals(users, pool)
    }

    constructor ()
      ensures State() == Globals(0, None)
    {
      users, pool := 0, None;
    }

    method AllocEnter() returns (e: Entry)
      modifies this
      ensures (State(), e) == Enter(old(State()))
      ensures pool == old(pool)
      ensures e.MustBuild? <==> old(users) == 0
      ensures e.Retry? <==> old(users) > 0 && old(pool) == None
      ensures e.Joined? ==> old(pool) == Some(e.p)
      ensures users == old(users) + if e.Retry? then 0 else 1
    {
      var p := pool;
      users := users + 1;
      if users == 1 {
        e := MustBuild;
      } else if p.None? {
        users := users - 1;
        e := Retry;
      } else {
        e := Joined(p.value);
      }
    }

    method AllocPublish(built: Option<PoolId>) returns (result: Option<PoolId>, discard: bool)
      requires users > 0
      modifies this
      ensures (State(), result, discard) == Publish(old(State()), built)
      ensures built == None ==> result == None && !discard && pool == old(pool) && users == old(users) - 1
      ensures built != None ==> users == old(users) && result == pool && pool.Some?
      ensures built != None ==> pool == if old(pool) == None then built else old(pool)
      ensures discard <==> built != None && old(pool) != None
    {
      discard := false;
      if built.None? {
        users := users - 1;
        return None, false;
      }
      result := pool;
      if result.Some? {
        discard := true;
      } else {
        pool, result := built, built;
      }
    }

    method GetPool() returns (p: Option<PoolId>)
      modifies this
      ensures (State(), p) == Get(old(State()))
      ensures p == old(pool) == pool && users == old(users) + if p.Some? then 1 else 0
    {
      p := pool;
      if p.Some? {
        users := users + 1;
      }
    }

    method FreePool() returns (p: Option<PoolId>)
      requires users > 0
      modifies this
      ensures (State(), p) == Put(old(State()))
      ensures users == old(users) - 1
      ensures users == 0 ==> p == old(pool) && pool == None
      ensures users > 0 ==> p == None && pool == old(pool)
    {
      p := None;
      users := users - 1;
      if users == 0 {
        p, pool := pool, None;
      }
    }
  }

  // ----- Interleavings of any number of threads -----

  // Where a thread is between two locked sections.
  datatype Pc = Outside | Building | Freeing(p: PoolId)

  // held lists the pools of the references a thread has not yet given back.
  datatype Thread = Thread(pc: Pc, held: seq<PoolId>)

  // Pools are numbered in the order in which they are built.
  datatype System = System(g: Globals, threads: seq<Thread>, built: nat, freed: set<PoolId>)

  datatype Label =
    | DoEnter(t: nat)
    | DoPublish(t: nat, ok: bool)
    | DoGet(t: nat)
    | DoPut(t: nat)
    | DoRelease(t: nat)

  function Init(n: nat): System {
    System(Globals(0, None), seq(n, _ => Thread(Outside, [])), 0, {})
  }

  // Callers are balanced: only a thread with a reference gives one back.
  predicate Enabled(s: System, l: Label) {
    && l.t < |s.threads|
    && var th := s.threads[l.t];
       match l
       case DoEnter(_) => th.pc.Outside?
       case DoPublish(_, _) => th.pc.Building? && s.g.users > 0
       case DoGet(_) => th.pc.Outside?
       case DoPut(_) => th.pc.Outside? && th.held != [] && s.g.users > 0
       case DoRelease(_) => th.pc.Freeing?
  }

  function WithThread(s: System, g: Globals, t: nat, th: Thread): System
    requires t < |s.threads|
  {
    s.(g := g, threads := s.threads[t := th])
  }

  function Next(s: System, l: Label): System
    requires Enabled(s, l)
  {
    var th := s.threads[l.t];
    match l
    case DoEnter(t) =>
      var (g, e) := Enter(s.g);
      WithThread(s, g, t,
        match e
        case MustBuild => th.(pc := Building)
        case Retry => th
        case Joined(p) => th.(held := th.held + [p]))
    case DoPublish(t, ok) =>
      var (g, result, discard) := Publish(s.g, if ok then Some(s.built) else None);
      var s' := s.(built := if ok then s.built + 1 else s.built);
      WithThread(s', g, t,
        Thread(if discard then Freeing(s.built) else Outside,
               if result.Some? then th.held + [result.value] else th.held))
    case DoGet(t) =>
      var (g, p) := Get(s.g);
      WithThread(s, g, t, if p.Some? then th.(held := th.held + [p.value]) else th)
    case DoPut(t) =>
      var (g, p) := Put(s.g);
      WithThread(s, g, t,
        Thread(if p.Some? then Freeing(p.value) else Outside, th.held[..|th.held| - 1]))
    case DoRelease(t) =>
      WithThread(s, s.g, t, th.(pc := Outside)).(freed := s.freed + {th.pc.p})
  }

  ghost predicate IsRun(ss: seq<System>, ls: seq<Label>) {
    && |ss| == |ls| + 1
    && (exists n :: ss[0] == Init(n))
    && forall i :: 0 <= i < |ls| ==> Enabled(ss[i], ls[i]) && ss[i + 1] == Next(ss[i], ls[i])
  }

  function Held(ts: seq<Thread>): nat {
    if ts == [] then 0 else |ts[0].held| + Held(ts[1..])
  }

  function Builders(ts: seq<Thread>): nat {
    if ts == [] then 0 else (if ts[0].pc.Building? then 1 else 0) + Builders(ts[1..])
  }

  lemma {:induction false} CountsAfterUpdate(ts: seq<Thread>, t: nat, th: Thread)
    requires t < |ts|
    ensures Held(ts[t := th]) == Held(ts) - |ts[t].held| + |th.held|
    ensures Builders(ts[t := th])
         == Builders(ts) - (if ts[t].pc.Building? then 1 else 0) + (if th.pc.Building? then 1 else 0)
  {
    if t > 0 {
      CountsAfterUpdate(ts[1..], t - 1, th);
      assert ts[t := th][1..] == ts[1..][t - 1 := th];
    } else {
      assert ts[t := th][1..] == ts[1..];
    }
  }

  // Every thread's share is part of the totals.
  lemma CountsBoundThread(ts: seq<Thread>, t: nat)
    requires t < |ts|
    ensures |ts[t].held| <= Held(ts)
    ensures ts[t].pc.Building? ==> Builders(ts) >= 1
  {
    CountsAfterUpdate(ts, t, Thread(Outside, []));
  }

  lemma {:induction false} NothingHeldInitially(n: nat)
    ensures Held(Init(n).threads) == 0 && Builders(Init(n).threads) == 0
  {
    if n > 0 {
      NothingHeldInitially(n - 1);
      assert Init(n).threads[1..] == Init(n - 1).threads;
    }
  }

  // The counting half of the invariant.
  ghost predicate Counted(s: System) {
    && s.g.users == Held(s.threads) + Builders(s.threads)
    && Builders(s.threads) <= 1
    && (Builders(s.threads) == 1 ==> Held(s.threads) == 0)
    && (s.g.pool.Some? <==> Held(s.threads) > 0)
  }

  // The lifetime half: what a thread may hold or be about to free.
  ghost predicate Holds(s: System, th: Thread) {
    && (forall k :: 0 <= k < |th.held| ==> s.g.pool == Some(th.held[k]))
    && (th.pc.Freeing? ==> th.pc.p < s.built && th.pc.p !in s.freed && s.g.pool != Some(th.pc.p))
  }

  ghost predicate Placed(s: System) {
    && (s.g.pool.Some? ==> s.g.pool.value < s.built && s.g.pool.value !in s.freed)
    && (forall p :: p in s.freed ==> p < s.built)
    && (forall t :: 0 <= t < |s.threads| ==> Holds(s, s.threads[t]))
    && (forall t, u :: 0 <= t < u < |s.threads| && s.threads[t].pc.Freeing?
          ==> s.threads[t].pc != s.threads[u].pc)
  }

  ghost predicate AboutToFree(s: System, p: PoolId) {
    exists t :: 0 <= t < |s.threads| && s.threads[t].pc == Freeing(p)
  }

  // Every pool built so far is somewhere.
  ghost predicate NoneLost(s: System) {
    forall p :: 0 <= p < s.built && p !in s.freed && s.g.pool != Some(p) ==> AboutToFree(s, p)
  }

  ghost predicate Inv(s: System) {
    Counted(s) && Placed(s) && NoneLost(s)
  }

  lemma StepKeepsCounted(s: System, l: Label)
    requires Inv(s) && Enabled(s, l)
    ensures Counted(Next(s, l))
  {
    var s' := Next(s, l);
    CountsAfterUpdate(s.threads, l.t, s'.threads[l.t]);
    CountsBoundThread(s.threads, l.t);
  }

  // What the counts say about the thread that moves.
  lemma CountsOfMover(s: System, l: Label)
    requires Counted(s) && Enabled(s, l)
    ensures s.threads[l.t].held != [] ==> s.g.pool.Some?
    ensures s.threads[l.t].pc.Building? ==> s.g.pool.None?
    ensures s.threads[l.t].held != [] && s.g.users == 1 ==>
              forall t :: 0 <= t < |s.threads| && t != l.t ==> s.threads[t].held == []
    ensures s.threads[l.t].held != [] && s.g.users == 1 ==> |s.threads[l.t].held| == 1
    ensures s.g.pool.None? ==> forall t :: 0 <= t < |s.threads| ==> s.threads[t].held == []
  {
    CountsBoundThread(s.threads, l.t);
    forall t | 0 <= t < |s.threads| ensures |s.threads[t].held| <= Held(s.threads) {
      CountsBoundThread(s.threads, t);
    }
    var rest := s.threads[l.t := Thread(Outside, [])];
    CountsAfterUpdate(s.threads, l.t, Thread(Outside, []));
    forall t | 0 <= t < |s.threads| && t != l.t ensures |s.threads[t].held| <= Held(rest) {
      CountsBoundThread(rest, t);
    }
  }

  lemma StepKeepsPlaced(s: System, l: Label)
    requires Inv(s) && Enabled(s, l)
    ensures Placed(Next(s, l))
  {
    var s' := Next(s, l);
    CountsOfMover(s, l);
    assert Holds(s, s.threads[l.t]);
    hide Held, Builders, NoneLost;
    forall t | 0 <= t < |s.threads| ensures Holds(s', s'.threads[t]) {
      assert Holds(s, s.threads[t]);
    }
    forall t, u | 0 <= t < u < |s.threads| && s'.threads[t].pc.Freeing?
      ensures s'.threads[t].pc != s'.threads[u].pc
    {
      assert Holds(s, s.threads[t]) && Holds(s, s.threads[u]);
    }
  }

  lemma StepLosesNone(s: System, l: Label)
    requires Inv(s) && Enabled(s, l)
    ensures NoneLost(Next(s, l))
  {
    var s' := Next(s, l);
    CountsBoundThread(s.threads, l.t);
    forall p | 0 <= p < s'.built && p !in s'.freed && s'.g.pool != Some(p)
      ensures AboutToFree(s', p)
    {
      if p < s.built && s.g.pool != Some(p) {
        var t :| 0 <= t < |s.threads| && s.threads[t].pc == Freeing(p);
        assert s'.threads[t].pc == Freeing(p);
      } else {
        assert s'.threads[l.t].pc == Freeing(p);
      }
    }
  }

  lemma {:induction false} InvOnRun(ss: seq<System>, ls: seq<Label>, i: nat)
    requires IsRun(ss, ls) && i <= |ls|
    ensures Inv(ss[i])
  {
    if i == 0 {
      var n :| ss[0] == Init(n);
      NothingHeldInitially(n);
    } else {
      InvOnRun(ss, ls, i - 1);
      StepKeepsCounted(ss[i - 1], ls[i - 1]);
      StepKeepsPlaced(ss[i - 1], ls[i - 1]);
      StepLosesNone(ss[i - 1], ls[i - 1]);
    }
  }

  /** Safety of every interleaving: the count is exact, at most one thread builds,
      there is a pool exactly while someone holds a reference, and whatever a
      thread holds is the current pool and has not been freed. */
  lemma PoolSafety(ss: seq<System>, ls: seq<Label>, i: nat)
    requires IsRun(ss, ls) && i <= |ls|
    ensures ss[i].g.users == Held(ss[i].threads) + Builders(ss[i].threads)
    ensures Builders(ss[i].threads) <= 1
    ensures ss[i].g.pool.Some? <==> Held(ss[i].threads) > 0
    ensures forall t, k :: 0 <= t < |ss[i].threads| && 0 <= k < |ss[i].threads[t].held|
              ==> ss[i].g.pool == Some(ss[i].threads[t].held[k]) && ss[i].threads[t].held[k] !in ss[i].freed
  {
    InvOnRun(ss, ls, i);
    forall t | 0 <= t < |ss[i].threads| ensures Holds(ss[i], ss[i].threads[t]) {
    }
  }

  /** The test of the user count in the guards is never in the way: a thread that builds
      or that holds a reference is counted. */
  lemma CountedMayGoOn(ss: seq<System>, ls: seq<Label>, i: nat, t: nat, ok: bool)
    requires IsRun(ss, ls) && i <= |ls| && t < |ss[i].threads|
    ensures ss[i].threads[t].pc.Building? ==> Enabled(ss[i], DoPublish(t, ok))
    ensures ss[i].threads[t].pc.Outside? && ss[i].threads[t].held != [] ==> Enabled(ss[i], DoPut(t))
  {
    InvOnRun(ss, ls, i);
    CountsBoundThread(ss[i].threads, t);
  }

  /** The branch "it has already been assigned" is never taken: in no run does a
      thread that has just built a pool find one in place. */
  lemma AlreadyAssignedUnreachable(ss: seq<System>, ls: seq<Label>, i: nat, ok: bool)
    requires IsRun(ss, ls) && i < |ls| && ls[i].DoPublish?
    ensures ss[i].g.pool.None?
    ensures !Publish(ss[i].g, if ok then Some(ss[i].built) else None).2
  {
    InvOnRun(ss, ls, i);
    CountsBoundThread(ss[i].threads, ls[i].t);
  }

  /** No pool is freed twice, and none is lost: a pool that was built is the
      current one, or already freed, or in the hands of exactly one thread that is
      about to free it. */
  lemma PoolsConserved(ss: seq<System>, ls: seq<Label>, i: nat, p: PoolId)
    requires IsRun(ss, ls) && i <= |ls| && p < ss[i].built
    ensures ss[i].g.pool == Some(p) || p in ss[i].freed || AboutToFree(ss[i], p)
    ensures p in ss[i].freed ==> ss[i].g.pool != Some(p)
    ensures forall t :: 0 <= t < |ss[i].threads| && ss[i].threads[t].pc == Freeing(p)
              ==> p !in ss[i].freed && ss[i].g.pool != Some(p)
                  && forall u :: 0 <= u < |ss[i].threads| && ss[i].threads[u].pc == Freeing(p) ==> u == t
  {
    InvOnRun(ss, ls, i);
  }

  lemma {:induction false} SomeBuilder(ts: seq<Thread>) returns (t: nat)
    requires Builders(ts) > 0
    ensures t < |ts| && ts[t].pc.Building?
  {
    if ts[0].pc.Building? {
      t := 0;
    } else {
      t := SomeBuilder(ts[1..]);
      t := t + 1;
    }
  }

  /** A caller spins in the retry loop only while some other thread is building. */
  lemma RetryMeansSomeoneBuilds(ss: seq<System>, ls: seq<Label>, i: nat) returns (t: nat)
    requires IsRun(ss, ls) && i < |ls| && ls[i].DoEnter? && Enter(ss[i].g).1.Retry?
    ensures t < |ss[i].threads| && t != ls[i].t && ss[i].threads[t].pc.Building?
  {
    InvOnRun(ss, ls, i);
    t := SomeBuilder(ss[i].threads);
  }
}
