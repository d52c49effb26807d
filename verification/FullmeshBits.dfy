/** The u8 bitfields of test/kernel/mptcp/mptcp_fullmesh.c, and the sets that they stand
    for. */
module FullmeshBits {

  const MPTCP_MAX_ADDR := 8

  // 1 << i.
  function Mask(i: nat): bv8
    requires i < MPTCP_MAX_ADDR
  {
    if i == 0 then 1 else if i == 1 then 2 else if i == 2 then 4 else if i == 3 then 8
    else if i == 4 then 16 else if i == 5 then 32 else if i == 6 then 64 else 128
  }

  lemma MaskIsShift(i: nat)
    requires i < MPTCP_MAX_ADDR
    ensures Mask(i) == (1 as bv8) << i
  {
  }

  predicate Has(b: bv8, i: nat)
    requires i < MPTCP_MAX_ADDR
  {
    b & Mask(i) != 0
  }

  ghost predicate InBits(b: bv8, i: int) {
    0 <= i < MPTCP_MAX_ADDR && Has(b, i)
  }

  ghost function Bits(b: bv8): (s: set<int>)
    ensures forall i :: i in s <==> InBits(b, i)
  {
    set i | 0 <= i < MPTCP_MAX_ADDR && InBits(b, i)
  }

  function Or(a: bv8, b: bv8): bv8 { a | b }
  function And(a: bv8, b: bv8): bv8 { a & b }
  function Not(a: bv8): bv8 { !a }

  lemma HasOr(a: bv8, b: bv8, i: nat)
    requires i < MPTCP_MAX_ADDR
    ensures Has(Or(a, b), i) <==> Has(a, i) || Has(b, i)
  {
  }

  lemma HasAnd(a: bv8, b: bv8, i: nat)
    requires i < MPTCP_MAX_ADDR
    ensures Has(And(a, b), i) <==> Has(a, i) && Has(b, i)
  {
  }

  lemma HasNot(a: bv8, i: nat)
    requires i < MPTCP_MAX_ADDR
    ensures Has(Not(a), i) <==> !Has(a, i)
  {
  }

  lemma HasMask(i: nat, j: nat)
    requires i < MPTCP_MAX_ADDR && j < MPTCP_MAX_ADDR
    ensures Has(Mask(i), j) <==> i == j
  {
  }

  lemma NoneIsZero(a: bv8)
    requires forall i :: 0 <= i < MPTCP_MAX_ADDR ==> !Has(a, i)
    ensures a == 0
  {
    assert !Has(a, 0) && !Has(a, 1) && !Has(a, 2) && !Has(a, 3);
    assert !Has(a, 4) && !Has(a, 5) && !Has(a, 6) && !Has(a, 7);
  }

  lemma ZeroHasNone(i: nat)
    requires i < MPTCP_MAX_ADDR
    ensures !Has(0, i)
  {
  }

  // ----- The same as sets -----

  lemma SetBitIn(a: bv8, i: nat)
    requires i < MPTCP_MAX_ADDR
    ensures Bits(Or(a, Mask(i))) == Bits(a) + {i}
  {
    hide Has, Or, Mask;
    forall j | 0 <= j < MPTCP_MAX_ADDR
      ensures Has(Or(a, Mask(i)), j) <==> Has(a, j) || i == j
    {
      HasOr(a, Mask(i), j);
      HasMask(i, j);
    }
  }

  lemma ClearBitIn(a: bv8, i: nat)
    requires i < MPTCP_MAX_ADDR
    ensures Bits(And(a, Not(Mask(i)))) == Bits(a) - {i}
  {
    hide Has, And, Not, Mask;
    forall j | 0 <= j < MPTCP_MAX_ADDR
      ensures Has(And(a, Not(Mask(i))), j) <==> Has(a, j) && i != j
    {
      HasAnd(a, Not(Mask(i)), j);
      HasNot(Mask(i), j);
      HasMask(i, j);
    }
  }

  lemma MeetIn(a: bv8, b: bv8)
    ensures Bits(And(a, b)) == Bits(a) * Bits(b)
  {
    hide Has, And;
    forall j | 0 <= j < MPTCP_MAX_ADDR
      ensures Has(And(a, b), j) <==> Has(a, j) && Has(b, j)
    {
      HasAnd(a, b, j);
    }
  }

  lemma MissingIn(a: bv8, b: bv8)
    ensures Bits(And(Not(a), b)) == Bits(b) - Bits(a)
  {
    hide Has, And, Not;
    forall j | 0 <= j < MPTCP_MAX_ADDR
      ensures Has(And(Not(a), b), j) <==> Has(b, j) && !Has(a, j)
    {
      HasAnd(Not(a), b, j);
      HasNot(a, j);
    }
  }

  lemma ZeroIsEmpty(a: bv8)
    ensures a == 0 <==> Bits(a) == {}
  {
    hide Has;
    forall j | 0 <= j < MPTCP_MAX_ADDR
      ensures !Has(0, j)
    {
      ZeroHasNone(j);
    }
    if Bits(a) == {} {
      forall j | 0 <= j < MPTCP_MAX_ADDR
        ensures !Has(a, j)
      {
        assert j !in Bits(a);
      }
      NoneIsZero(a);
    }
  }

  /** __mptcp_find_free_index, of which the repository has only the calls: a clear bit,
      looking from base on first, or -1 when there is none. */
  method FindFreeIndex(bits: bv8, base: nat) returns (r: int)
    requires base <= MPTCP_MAX_ADDR
    ensures r == -1 || 0 <= r < MPTCP_MAX_ADDR
    ensures r == -1 <==> forall i :: 0 <= i < MPTCP_MAX_ADDR ==> Has(bits, i)
    ensures r >= 0 ==> !Has(bits, r)
    ensures r >= base ==> forall i :: base <= i < r ==> Has(bits, i)
    ensures 0 <= r < base ==> forall i :: 0 <= i < r || base <= i < MPTCP_MAX_ADDR ==> Has(bits, i)
  {
    hide Has;
    r := base;
    while r < MPTCP_MAX_ADDR
      invariant base <= r <= MPTCP_MAX_ADDR && forall i :: base <= i < r ==> Has(bits, i)
    {
      if !Has(bits, r) { return; }
      r := r + 1;
    }
    r := 0;
    while r < base
      invariant 0 <= r <= base && forall i :: 0 <= i < r || base <= i < MPTCP_MAX_ADDR ==> Has(bits, i)
    {
      if !Has(bits, r) { return; }
      r := r + 1;
    }
    r := -1;
  }
}
