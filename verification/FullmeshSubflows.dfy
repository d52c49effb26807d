/** The workers of test/kernel/mptcp/mptcp_fullmesh.c that fill in the matrix of remote
    and local addresses. */
module FullmeshSubflows {
  import opened FullmeshBits

  // ----- What a worker sees of one address family -----

  // The live remotes, and for each slot the local addresses that have been tried and
  // those that are to be tried again.
  datatype Mesh = Mesh(live: set<int>, tried: seq<set<int>>, retry: seq<set<int>>)

  ghost predicate Shaped(m: Mesh) {
    |m.tried| == MPTCP_MAX_ADDR && |m.retry| == MPTCP_MAX_ADDR
    && forall i :: i in m.live ==> 0 <= i < MPTCP_MAX_ADDR
  }

  datatype Pair = Pair(rem: int, loc: int)

  ghost predicate Before(p: Pair, q: Pair) {
    p.rem < q.rem || (p.rem == q.rem && p.loc < q.loc)
  }

  ghost predicate Missing(m: Mesh, loc: set<int>, p: Pair)
    requires Shaped(m)
  {
    p.rem in m.live && p.loc in loc && p.loc !in m.tried[p.rem]
  }

  ghost predicate FirstMissing(m: Mesh, loc: set<int>, p: Pair)
    requires Shaped(m)
  {
    Missing(m, loc, p) && forall q :: Missing(m, loc, q) ==> p == q || Before(p, q)
  }

  // One attempt, which may find no route.
  ghost function Attempted(m: Mesh, p: Pair, unreachable: bool): Mesh
    requires Shaped(m) && 0 <= p.rem < MPTCP_MAX_ADDR
  {
    m.(tried := m.tried[p.rem := m.tried[p.rem] + {p.loc}],
       retry := if unreachable then m.retry[p.rem := m.retry[p.rem] + {p.loc}] else m.retry)
  }

  // ----- A series of attempts -----

  ghost function LocsOf(a: seq<Pair>, i: int): set<int> {
    set p | p in a && p.rem == i :: p.loc
  }

  lemma LocsOfMore(a: seq<Pair>, p: Pair, i: int)
    ensures LocsOf(a + [p], i) == LocsOf(a, i) + if p.rem == i then {p.loc} else {}
  {
    forall j
      ensures j in LocsOf(a + [p], i) <==> j in LocsOf(a, i) || (p.rem == i && p.loc == j)
    {
      if j in LocsOf(a + [p], i) {
        var q :| q in a + [p] && q.rem == i && q.loc == j;
        assert q in a || q == p;
      }
      if j in LocsOf(a, i) {
        var q :| q in a && q.rem == i && q.loc == j;
        assert q in a + [p];
      }
      assert p in a + [p];
    }
  }

  ghost predicate InOrder(a: seq<Pair>) {
    forall k, l :: 0 <= k < l < |a| ==> Before(a[k], a[l])
  }

  // After the attempts a, m0 has become m, and what is still missing comes behind them.
  ghost predicate Progress(m0: Mesh, m: Mesh, loc: set<int>, a: seq<Pair>, unreachable: Pair -> bool) {
    && Shaped(m0) && Shaped(m) && m.live == m0.live && InOrder(a)
    && (forall p :: p in a ==> Missing(m0, loc, p))
    && (forall p, q :: p in a && Missing(m, loc, q) ==> Before(p, q))
    && (forall i :: 0 <= i < MPTCP_MAX_ADDR ==> m.tried[i] == m0.tried[i] + LocsOf(a, i))
    && forall i :: 0 <= i < MPTCP_MAX_ADDR
         ==> m.retry[i] == m0.retry[i] + set j | j in LocsOf(a, i) && unreachable(Pair(i, j))
  }

  lemma ProgressStarts(m: Mesh, loc: set<int>, unreachable: Pair -> bool)
    requires Shaped(m)
    ensures Progress(m, m, loc, [], unreachable)
  {
  }

  lemma ProgressStep(m0: Mesh, m: Mesh, loc: set<int>, a: seq<Pair>, unreachable: Pair -> bool, p: Pair)
    requires Progress(m0, m, loc, a, unreachable) && FirstMissing(m, loc, p)
    ensures Progress(m0, Attempted(m, p, unreachable(p)), loc, a + [p], unreachable)
  {
    var n := Attempted(m, p, unreachable(p));
    forall i | 0 <= i < MPTCP_MAX_ADDR
      ensures n.tried[i] == m0.tried[i] + LocsOf(a + [p], i)
      ensures n.retry[i] == m0.retry[i] + set j | j in LocsOf(a + [p], i) && unreachable(Pair(i, j))
    {
      LocsOfMore(a, p, i);
    }
    assert forall q :: Missing(n, loc, q) ==> Missing(m, loc, q) && q != p;
  }

  /** When nothing is missing any more, every pair that was missing has been attempted
      exactly once, in order, and every live remote has been tried with all local
      addresses. */
  lemma ProgressEnds(m0: Mesh, m: Mesh, loc: set<int>, a: seq<Pair>, unreachable: Pair -> bool)
    requires Progress(m0, m, loc, a, unreachable) && forall p :: !Missing(m, loc, p)
    ensures forall p :: p in a <==> Missing(m0, loc, p)
    ensures forall k, l :: 0 <= k < l < |a| ==> a[k] != a[l]
    ensures forall i :: i in m.live ==> loc <= m.tried[i]
  {
    forall p | Missing(m0, loc, p)
      ensures p in a
    {
      assert !Missing(m, loc, p);
      assert p.loc in LocsOf(a, p.rem);
      var q :| q in a && q.rem == p.rem && q.loc == p.loc;
      assert q == p;
    }
    forall i, j | i in m.live && j in loc
      ensures j in m.tried[i]
    {
      assert !Missing(m, loc, Pair(i, j));
    }
  }

  // ----- The retry worker -----

  ghost predicate Wanted(m: Mesh, p: Pair)
    requires Shaped(m)
  {
    p.rem in m.live && p.loc in m.retry[p.rem]
  }

  ghost predicate FirstWanted(m: Mesh, p: Pair)
    requires Shaped(m)
  {
    Wanted(m, p) && forall q :: Wanted(m, q) ==> p == q || Before(p, q)
  }

  ghost function Retried(m: Mesh, p: Pair): Mesh
    requires Shaped(m) && 0 <= p.rem < MPTCP_MAX_ADDR
  {
    m.(tried := m.tried[p.rem := m.tried[p.rem] + {p.loc}], retry := m.retry[p.rem := m.retry[p.rem] - {p.loc}])
  }

  ghost predicate RetryProgress(m0: Mesh, m: Mesh, a: seq<Pair>) {
    && Shaped(m0) && Shaped(m) && m.live == m0.live && InOrder(a)
    && (forall p :: p in a ==> Wanted(m0, p))
    && (forall p, q :: p in a && Wanted(m, q) ==> Before(p, q))
    && (forall i :: 0 <= i < MPTCP_MAX_ADDR ==> m.tried[i] == m0.tried[i] + LocsOf(a, i))
    && forall i :: 0 <= i < MPTCP_MAX_ADDR ==> m.retry[i] == m0.retry[i] - LocsOf(a, i)
  }

  lemma RetryStarts(m: Mesh)
    requires Shaped(m)
    ensures RetryProgress(m, m, [])
  {
  }

  lemma RetryStep(m0: Mesh, m: Mesh, a: seq<Pair>, p: Pair)
    requires RetryProgress(m0, m, a) && FirstWanted(m, p)
    ensures RetryProgress(m0, Retried(m, p), a + [p])
  {
    var n := Retried(m, p);
    forall i | 0 <= i < MPTCP_MAX_ADDR
      ensures n.tried[i] == m0.tried[i] + LocsOf(a + [p], i) && n.retry[i] == m0.retry[i] - LocsOf(a + [p], i)
    {
      LocsOfMore(a, p, i);
    }
    assert forall q :: Wanted(n, q) ==> Wanted(m, q) && q != p;
  }

  /** When nothing is wanted any more, each retry bit of a live remote has been used
      exactly once and is clear. */
  lemma RetryEnds(m0: Mesh, m: Mesh, a: seq<Pair>)
    requires RetryProgress(m0, m, a) && forall p :: !Wanted(m, p)
    ensures forall p :: p in a <==> Wanted(m0, p)
    ensures forall k, l :: 0 <= k < l < |a| ==> a[k] != a[l]
    ensures forall i :: i in m.live ==> m.retry[i] == {}
  {
    forall p | Wanted(m0, p)
      ensures p in a
    {
      assert !Wanted(m, p);
      assert p.loc in LocsOf(a, p.rem);
      var q :| q in a && q.rem == p.rem && q.loc == p.loc;
      assert q == p;
    }
    forall i | i in m.live
      ensures m.retry[i] == {}
    {
      forall j
        ensures j !in m.retry[i]
      {
        assert !Wanted(m, Pair(i, j));
      }
    }
  }

  // ----- The program -----

  ghost function AllBits(s: seq<bv8>): (r: seq<set<int>>)
    ensures |r| == |s| && forall i :: 0 <= i < |s| ==> r[i] == Bits(s[i])
  {
    seq(|s|, i requires 0 <= i < |s| => Bits(s[i]))
  }

  // The remote addresses of one family in struct fullmesh_priv.
  class Remotes {
    const bitfield: array<bv8>
    const retryBitfield: array<bv8>
    var bits: bv8

    ghost predicate Valid() {
      bitfield.Length == MPTCP_MAX_ADDR && retryBitfield.Length == MPTCP_MAX_ADDR && bitfield != retryBitfield
    }

    ghost function View(): (m: Mesh)
      requires Valid()
      reads this, bitfield, retryBitfield
      ensures Shaped(m)
    {
      Mesh(Bits(bits), AllBits(bitfield[..]), AllBits(retryBitfield[..]))
    }

    constructor ()
      ensures Valid() && fresh(bitfield) && fresh(retryBitfield) && View().live == {}
    {
      bitfield, retryBitfield := new bv8[MPTCP_MAX_ADDR](_ => 0), new bv8[MPTCP_MAX_ADDR](_ => 0);
      bits := 0;
      new;
      ZeroIsEmpty(0);
    }

    // The lowest set bit, as both workers look for it.
    static method LowestBit(b: bv8) returns (j: nat)
      requires b != 0
      ensures j < MPTCP_MAX_ADDR && j in Bits(b) && forall k :: k in Bits(b) ==> j <= k
    {
      hide Has, Not;
      ghost var free := Not(b);
      forall i | 0 <= i < MPTCP_MAX_ADDR
        ensures Has(free, i) <==> !Has(b, i)
      {
        HasNot(b, i);
      }
      ZeroIsEmpty(b);
      var r := FindFreeIndex(Not(b), 0);
      assert r != -1 by {
        var k :| k in Bits(b);
        assert !Has(free, k);
      }
      j := r;
    }

    // Setting and clearing one bit of one slot.
    method SetTried(i: nat, j: nat)
      requires Valid() && i < MPTCP_MAX_ADDR && j < MPTCP_MAX_ADDR
      modifies bitfield
      ensures View() == old(View()).(tried := old(View()).tried[i := old(View()).tried[i] + {j}])
    {
      SetBitIn(bitfield[i], j);
      bitfield[i] := Or(bitfield[i], Mask(j));
    }

    method SetRetry(i: nat, j: nat)
      requires Valid() && i < MPTCP_MAX_ADDR && j < MPTCP_MAX_ADDR
      modifies retryBitfield
      ensures View() == old(View()).(retry := old(View()).retry[i := old(View()).retry[i] + {j}])
    {
      SetBitIn(retryBitfield[i], j);
      retryBitfield[i] := Or(retryBitfield[i], Mask(j));
    }

    method ClearRetry(i: nat, j: nat)
      requires Valid() && i < MPTCP_MAX_ADDR && j < MPTCP_MAX_ADDR
      modifies retryBitfield
      ensures View() == old(View()).(retry := old(View()).retry[i := old(View()).retry[i] - {j}])
    {
      ClearBitIn(retryBitfield[i], j);
      retryBitfield[i] := And(retryBitfield[i], Not(Mask(j)));
    }

    /** The scan of create_subflow_worker: the first combination still to handle is tried. */
    method TryNext(loc: bv8, unreachable: Pair -> bool) returns (found: bool, p: Pair)
      requires Valid()
      modifies bitfield, retryBitfield
      ensures !found ==> View() == old(View()) && forall q :: !Missing(View(), Bits(loc), q)
      ensures found ==> FirstMissing(old(View()), Bits(loc), p) && View() == Attempted(old(View()), p, unreachable(p))
      ensures found ==> p.loc in View().tried[p.rem] && (unreachable(p) ==> p.loc in View().retry[p.rem])
    {
      hide Has, And, Not, Or, Mask;
      ghost var m := View();
      found, p := false, Pair(0, 0);
      var i := 0;
      while i < MPTCP_MAX_ADDR
        invariant 0 <= i <= MPTCP_MAX_ADDR && View() == m
        invariant forall q :: Missing(m, Bits(loc), q) ==> i <= q.rem
      {
        assert m.tried[i] == Bits(bitfield[i]) && (i in m.live <==> InBits(bits, i));
        if Has(bits, i) {
          var remaining := And(Not(bitfield[i]), loc);
          MissingIn(bitfield[i], loc);
          ZeroIsEmpty(remaining);
          assert forall q :: Missing(m, Bits(loc), q) && q.rem == i ==> q.loc in Bits(remaining);
          if remaining != 0 {
            var j := LowestBit(remaining);
            found, p := true, Pair(i, j);
            SetTried(i, j);
            if unreachable(p) {
              SetRetry(i, j);
            }
            return;
          }
        }
        i := i + 1;
      }
    }

    /** The scan of retry_subflow_worker: the first retry bit is used up. */
    method RetryNext() returns (found: bool, p: Pair)
      requires Valid()
      modifies bitfield, retryBitfield
      ensures !found ==> View() == old(View()) && forall q :: !Wanted(View(), q)
      ensures found ==> FirstWanted(old(View()), p) && View() == Retried(old(View()), p)
      ensures found ==> p.loc in View().tried[p.rem] && p.loc !in View().retry[p.rem]
    {
      hide Has, And, Not, Or, Mask;
      ghost var m := View();
      found, p := false, Pair(0, 0);
      var i := 0;
      while i < MPTCP_MAX_ADDR
        invariant 0 <= i <= MPTCP_MAX_ADDR && View() == m
        invariant forall q :: Wanted(m, q) ==> i <= q.rem
      {
        assert m.retry[i] == Bits(retryBitfield[i]) && (i in m.live <==> InBits(bits, i));
        if Has(bits, i) {
          ZeroIsEmpty(retryBitfield[i]);
          assert forall q :: Wanted(m, q) && q.rem == i ==> q.loc in Bits(retryBitfield[i]);
          if retryBitfield[i] != 0 {
            var j := LowestBit(retryBitfield[i]);
            found, p := true, Pair(i, j);
            SetTried(i, j);
            ClearRetry(i, j);
            return;
          }
        }
        i := i + 1;
      }
    }

    method MeetSlot(i: nat, loc: bv8)
      requires Valid() && i < MPTCP_MAX_ADDR
      modifies bitfield, retryBitfield
      ensures View() == old(View()).(tried := old(View()).tried[i := old(View()).tried[i] * Bits(loc)],
                                     retry := old(View()).retry[i := old(View()).retry[i] * Bits(loc)])
    {
      MeetIn(bitfield[i], loc);
      MeetIn(retryBitfield[i], loc);
      bitfield[i] := And(bitfield[i], loc);
      retryBitfield[i] := And(retryBitfield[i], loc);
    }

    /** The loop of update_addr_bitfields. */
    method UpdateBitfields(loc: bv8)
      requires Valid()
      modifies bitfield, retryBitfield
      ensures View() == Updated(old(View()), Bits(loc)) && View().live == old(View()).live
      ensures forall i :: 0 <= i < MPTCP_MAX_ADDR
                ==> (i in old(View()).live
                     ==> && View().tried[i] == old(View()).tried[i] * Bits(loc)
                         && View().retry[i] == old(View()).retry[i] * Bits(loc))
                    && (i !in old(View()).live
                        ==> View().tried[i] == old(View()).tried[i] && View().retry[i] == old(View()).retry[i])
    {
      hide Has, And, Not, Or, Mask;
      ghost var m := View();
      for i := 0 to MPTCP_MAX_ADDR
        invariant View() == UpdatedTo(m, Bits(loc), i)
      {
        assert i in m.live <==> InBits(bits, i);
        assert UpdatedTo(m, Bits(loc), i + 1)
            == if i in m.live then UpdatedTo(m, Bits(loc), i).(
                 tried := UpdatedTo(m, Bits(loc), i).tried[i := m.tried[i] * Bits(loc)],
                 retry := UpdatedTo(m, Bits(loc), i).retry[i := m.retry[i] * Bits(loc)])
               else UpdatedTo(m, Bits(loc), i);
        if Has(bits, i) {
          MeetSlot(i, loc);
        }
      }
    }
  }

  // The slots below n have been updated.
  ghost function UpdatedTo(m: Mesh, loc: set<int>, n: nat): Mesh
    requires Shaped(m)
  {
    Mesh(m.live,
         seq(MPTCP_MAX_ADDR, k requires 0 <= k < MPTCP_MAX_ADDR =>
           if k < n && k in m.live then m.tried[k] * loc else m.tried[k]),
         seq(MPTCP_MAX_ADDR, k requires 0 <= k < MPTCP_MAX_ADDR =>
           if k < n && k in m.live then m.retry[k] * loc else m.retry[k]))
  }

  ghost function Updated(m: Mesh, loc: set<int>): Mesh
    requires Shaped(m)
  {
    UpdatedTo(m, loc, MPTCP_MAX_ADDR)
  }

  // How many pairs could still be missing, or wanted.
  ghost function Room(a: seq<Pair>): int {
    MPTCP_MAX_ADDR * MPTCP_MAX_ADDR - |a|
  }

  // A list in order, of pairs inside the matrix, is no longer than the matrix.
  lemma {:induction false} InOrderIsShort(a: seq<Pair>)
    requires InOrder(a) && forall p :: p in a ==> 0 <= p.rem < MPTCP_MAX_ADDR && 0 <= p.loc < MPTCP_MAX_ADDR
    ensures |a| <= MPTCP_MAX_ADDR * MPTCP_MAX_ADDR
    ensures a != [] ==> |a| <= MPTCP_MAX_ADDR * a[|a| - 1].rem + a[|a| - 1].loc + 1
  {
    if |a| > 1 {
      InOrderIsShort(a[..|a| - 1]);
      assert a[|a| - 2] in a && a[|a| - 1] in a;
      assert Before(a[|a| - 2], a[|a| - 1]);
    } else if |a| == 1 {
      assert a[0] in a;
    }
  }

  /** create_subflow_worker: family by family, until nothing is missing or stop(iter) says
      that the connection is not fit for more. */
  method CreateSubflows(r4: Remotes, r6: Remotes, loc4: bv8, loc6: bv8,
                        unreachable4: Pair -> bool, unreachable6: Pair -> bool, stop: nat -> bool)
    returns (a4: seq<Pair>, a6: seq<Pair>, exited: bool, queued: bool)
    requires r4.Valid() && r6.Valid()
    requires {r4.bitfield, r4.retryBitfield} !! {r6.bitfield, r6.retryBitfield}
    modifies r4.bitfield, r4.retryBitfield, r6.bitfield, r6.retryBitfield
    ensures Progress(old(r4.View()), r4.View(), Bits(loc4), a4, unreachable4)
    ensures Progress(old(r6.View()), r6.View(), Bits(loc6), a6, unreachable6)
    ensures !exited ==> forall p :: !Missing(r4.View(), Bits(loc4), p) && !Missing(r6.View(), Bits(loc6), p)
    ensures queued
       <==> !exited && ((exists p :: p in a4 && unreachable4(p)) || (exists p :: p in a6 && unreachable6(p)))
    ensures exited <==> stop(|a4| + |a6| + 1)
    ensures forall k :: 1 <= k <= |a4| + |a6| ==> !stop(k)
    ensures a6 != [] ==> forall p :: !Missing(r4.View(), Bits(loc4), p)
  {
    hide Progress, Missing, Attempted, Has;
    ghost var m4, m6 := r4.View(), r6.View();
    a4, a6, exited, queued := [], [], false, false;
    var retry := false;
    ProgressStarts(m4, Bits(loc4), unreachable4);
    ProgressStarts(m6, Bits(loc6), unreachable6);
    var iter := 0;
    while true
      invariant Progress(m4, r4.View(), Bits(loc4), a4, unreachable4)
      invariant Progress(m6, r6.View(), Bits(loc6), a6, unreachable6)
      invariant retry <==> (exists p :: p in a4 && unreachable4(p)) || (exists p :: p in a6 && unreachable6(p))
      invariant iter == |a4| + |a6| && forall k :: 1 <= k <= iter ==> !stop(k)
      invariant a6 != [] ==> forall p :: !Missing(r4.View(), Bits(loc4), p)
      invariant Room(a4) >= 0 && Room(a6) >= 0
      decreases Room(a4) + Room(a6)
    {
      iter := iter + 1;
      if stop(iter) {
        exited := true;
        return;
      }
      var found, p := TryOne(r4, loc4, unreachable4, m4, a4);
      if found {
        MoreUnreachable(a4, p, unreachable4);
        a4 := a4 + [p];
        retry := retry || unreachable4(p);
        continue;
      }
      found, p := TryOne(r6, loc6, unreachable6, m6, a6);
      if !found {
        queued := retry;
        return;
      }
      MoreUnreachable(a6, p, unreachable6);
      a6 := a6 + [p];
      retry := retry || unreachable6(p);
    }
  }

  // One round in one family.
  method TryOne(r: Remotes, loc: bv8, unreachable: Pair -> bool, ghost m: Mesh, ghost a: seq<Pair>)
    returns (found: bool, p: Pair)
    requires r.Valid() && Progress(m, r.View(), Bits(loc), a, unreachable)
    modifies r.bitfield, r.retryBitfield
    ensures !found ==> r.View() == old(r.View()) && forall q :: !Missing(r.View(), Bits(loc), q)
    ensures found ==> Progress(m, r.View(), Bits(loc), a + [p], unreachable) && Room(a + [p]) >= 0
    ensures found ==> exists q :: Missing(old(r.View()), Bits(loc), q)
  {
    hide Progress, Attempted, Has;
    ghost var v := r.View();
    found, p := r.TryNext(loc, unreachable);
    if found {
      ProgressStep(m, v, Bits(loc), a, unreachable, p);
      ProgressIsShort(m, r.View(), Bits(loc), a + [p], unreachable);
    }
  }

  lemma MoreUnreachable(a: seq<Pair>, p: Pair, unreachable: Pair -> bool)
    ensures (exists q :: q in a + [p] && unreachable(q)) <==> (exists q :: q in a && unreachable(q)) || unreachable(p)
  {
    if exists q :: q in a && unreachable(q) {
      var q :| q in a && unreachable(q);
      assert q in a + [p];
    }
    assert p in a + [p];
  }

  lemma ProgressIsShort(m0: Mesh, m: Mesh, loc: set<int>, a: seq<Pair>, unreachable: Pair -> bool)
    requires Progress(m0, m, loc, a, unreachable) && forall j :: j in loc ==> 0 <= j < MPTCP_MAX_ADDR
    ensures Room(a) >= 0
  {
    InOrderIsShort(a);
  }

  /** retry_subflow_worker. */
  method RetrySubflows(r4: Remotes, r6: Remotes, stop: nat -> bool) returns (a4: seq<Pair>, a6: seq<Pair>, exited: bool)
    requires r4.Valid() && r6.Valid()
    requires {r4.bitfield, r4.retryBitfield} !! {r6.bitfield, r6.retryBitfield}
    modifies r4.bitfield, r4.retryBitfield, r6.bitfield, r6.retryBitfield
    ensures RetryProgress(old(r4.View()), r4.View(), a4) && RetryProgress(old(r6.View()), r6.View(), a6)
    ensures !exited ==> forall p :: !Wanted(r4.View(), p) && !Wanted(r6.View(), p)
    ensures exited <==> stop(|a4| + |a6| + 1)
    ensures forall k :: 1 <= k <= |a4| + |a6| ==> !stop(k)
    ensures a6 != [] ==> forall p :: !Wanted(r4.View(), p)
  {
    hide RetryProgress, Wanted, Retried, Has;
    ghost var m4, m6 := r4.View(), r6.View();
    a4, a6, exited := [], [], false;
    RetryStarts(m4);
    RetryStarts(m6);
    BitsAreSmall(r4);
    BitsAreSmall(r6);
    var iter := 0;
    while true
      invariant RetryProgress(m4, r4.View(), a4) && RetryProgress(m6, r6.View(), a6)
      invariant iter == |a4| + |a6| && forall k :: 1 <= k <= iter ==> !stop(k)
      invariant a6 != [] ==> forall p :: !Wanted(r4.View(), p)
      decreases Room(a4) + Room(a6)
    {
      iter := iter + 1;
      if stop(iter) {
        exited := true;
        return;
      }
      ghost var v4, v6 := r4.View(), r6.View();
      var found, p := r4.RetryNext();
      if found {
        RetryStep(m4, v4, a4, p);
        a4 := a4 + [p];
      } else {
        found, p := r6.RetryNext();
        if !found {
          return;
        }
        RetryStep(m6, v6, a6, p);
        a6 := a6 + [p];
      }
      RetryIsShort(m4, r4.View(), a4);
      RetryIsShort(m6, r6.View(), a6);
    }
  }

  // Retry bits are bits of a u8.
  ghost predicate SmallRetries(m: Mesh)
    requires Shaped(m)
  {
    forall i, j :: 0 <= i < MPTCP_MAX_ADDR && j in m.retry[i] ==> 0 <= j < MPTCP_MAX_ADDR
  }

  lemma BitsAreSmall(r: Remotes)
    requires r.Valid()
    ensures SmallRetries(r.View())
  {
  }

  lemma RetryIsShort(m0: Mesh, m: Mesh, a: seq<Pair>)
    requires RetryProgress(m0, m, a) && SmallRetries(m0)
    ensures Room(a) >= 0
  {
    InOrderIsShort(a);
  }

  // ----- Any interleaving -----

  // What may happen to the remote table of a connection, one locked section at a time:
  // an attempt or a retry of a worker, a change of the local addresses, a remote that
  // comes or goes, and the address that a subflow came in on.
  datatype Step =
    | Attempt(p: Pair, unreachable: bool)
    | Retry(p: Pair)
    | Update(loc: set<int>)
    | AddRemote(i: int)
    | RemoveRemote(i: int)
    | InitBit(p: Pair)

  ghost predicate Enabled(m: Mesh, s: Step) {
    && Shaped(m)
    && match s
       case Attempt(p, u) => p.rem in m.live && p.loc !in m.tried[p.rem]
       case Retry(p) => FirstWanted(m, p)
       case Update(loc) => true
       case AddRemote(i) => 0 <= i < MPTCP_MAX_ADDR && i !in m.live
       case RemoveRemote(i) => i in m.live
       case InitBit(p) => p.rem in m.live
  }

  ghost function After(m: Mesh, s: Step): Mesh
    requires Enabled(m, s)
  {
    match s
    case Attempt(p, u) => Attempted(m, p, u)
    case Retry(p) => Retried(m, p)
    case Update(loc) => Updated(m, loc)
    case AddRemote(i) => Mesh(m.live + {i}, m.tried[i := {}], m.retry[i := {}])
    case RemoveRemote(i) => m.(live := m.live - {i})
    case InitBit(p) => m.(tried := m.tried[p.rem := m.tried[p.rem] + {p.loc}])
  }

  ghost predicate Run(ms: seq<Mesh>, steps: seq<Step>) {
    && |ms| == |steps| + 1
    && forall k :: 0 <= k < |steps| ==> Enabled(ms[k], steps[k]) && ms[k + 1] == After(ms[k], steps[k])
  }

  // What is to be tried again has been tried.
  ghost predicate RetryWithin(m: Mesh) {
    Shaped(m) && forall i :: 0 <= i < MPTCP_MAX_ADDR ==> m.retry[i] <= m.tried[i]
  }

  /** Over every run, a retry bit is set only where the bit of the attempt is. */
  lemma {:induction false} RetryStaysWithin(ms: seq<Mesh>, steps: seq<Step>, k: nat)
    requires Run(ms, steps) && RetryWithin(ms[0]) && k < |ms|
    ensures RetryWithin(ms[k])
  {
    if k > 0 {
      RetryStaysWithin(ms, steps, k - 1);
      assert ms[k] == After(ms[k - 1], steps[k - 1]);
    }
  }

  ghost function Attempts(steps: seq<Step>, p: Pair): nat {
    if steps == [] then 0
    else
      var s := steps[|steps| - 1];
      Attempts(steps[..|steps| - 1], p) + if s.Attempt? && s.p == p then 1 else 0
  }

  ghost function Retries(steps: seq<Step>, p: Pair): nat {
    if steps == [] then 0
    else Retries(steps[..|steps| - 1], p) + if steps[|steps| - 1] == Retry(p) then 1 else 0
  }

  // The pair is let go: its local address leaves, or its remote is made anew.
  ghost predicate Forgets(s: Step, p: Pair) {
    (s.Update? && p.loc !in s.loc) || (s.AddRemote? && s.i == p.rem)
  }

  /** Between two steps that forget a pair, it is attempted at most once, and retried at
      most once after that, whatever comes between. */
  lemma {:induction false} TriedOnceRetriedOnce(ms: seq<Mesh>, steps: seq<Step>, p: Pair)
    requires Run(ms, steps) && RetryWithin(ms[0]) && 0 <= p.rem < MPTCP_MAX_ADDR
    requires p.loc !in ms[0].tried[p.rem] && forall k :: 0 <= k < |steps| ==> !Forgets(steps[k], p)
    ensures Shaped(ms[|steps|])
    ensures Attempts(steps, p) <= if p.loc in ms[|steps|].tried[p.rem] then 1 else 0
    ensures Retries(steps, p) + (if p.loc in ms[|steps|].retry[p.rem] then 1 else 0) <= Attempts(steps, p)
    decreases |steps|
  {
    var n := |steps|;
    if n > 0 {
      TriedOnceRetriedOnce(ms[..n], steps[..n - 1], p);
      RetryStaysWithin(ms, steps, n - 1);
      assert ms[n] == After(ms[n - 1], steps[n - 1]) && !Forgets(steps[n - 1], p);
    }
  }
}
