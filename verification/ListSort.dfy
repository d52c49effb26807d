/** list_sort of model/kernel_hash/sort.c: a bottom-up merge sort that relinks the
    nodes of a circular doubly-linked list.  Lists are described by the ghost
    sequence of their nodes; what is computed on those sequences is in MergeSeq. */
module ListSort {
  import opened MergeSeq

  class ListHead {
    var next: ListHead?
    var prev: ListHead?

    constructor ()
      ensures next == null && prev == null
    {
      next, prev := null, null;
    }
  }

  type Comparison = (ListHead, ListHead) -> int

  ghost predicate Distinct(s: seq<ListHead>) {
    forall i, j :: 0 <= i < j < |s| ==> s[i] != s[j]
  }

  ghost predicate Disjoint(s: seq<ListHead>, t: seq<ListHead>) {
    forall i, j :: 0 <= i < |s| && 0 <= j < |t| ==> s[i] != t[j]
  }

  // Each node of s points to the one after it.
  ghost predicate Linked(s: seq<ListHead>)
    reads s
  {
    forall i {:trigger s[i].next} :: 0 <= i < |s| - 1 ==> s[i].next == s[i + 1]
  }

  ghost predicate BackLinked(s: seq<ListHead>)
    reads s
  {
    forall i {:trigger s[i].prev} :: 0 < i < |s| ==> s[i].prev == s[i - 1]
  }

  // A null-terminated list with nodes s, prev links not maintained.
  ghost predicate Chain(p: ListHead?, s: seq<ListHead>)
    reads s
  {
    if s == [] then p == null else p == s[0] && Linked(s) && s[|s| - 1].next == null
  }

  // A well-formed ring with sentinel head and elements s.
  ghost predicate Ring(head: ListHead, s: seq<ListHead>)
    reads head, s
  {
    && Distinct([head] + s)
    && Linked([head] + s + [head])
    && BackLinked([head] + s)
    && head.prev == ([head] + s)[|s|]
  }

  lemma DistinctCons(x: ListHead, s: seq<ListHead>)
    requires x !in s && Distinct(s)
    ensures Distinct([x] + s)
  {
  }

  lemma DistinctMerged(cmp: Comparison, a: seq<ListHead>, b: seq<ListHead>)
    requires Distinct(a) && Distinct(b) && Disjoint(a, b)
    ensures Distinct(Merged(cmp, a, b))
    decreases |a| + |b|
  {
    if a == [] || b == [] {
    } else if cmp(a[0], b[0]) <= 0 {
      DistinctMerged(cmp, a[1..], b);
      MergedMembers(cmp, a[1..], b);
      DistinctCons(a[0], Merged(cmp, a[1..], b));
    } else {
      DistinctMerged(cmp, a, b[1..]);
      MergedMembers(cmp, a, b[1..]);
      DistinctCons(b[0], Merged(cmp, a, b[1..]));
    }
  }

  lemma {:induction false} MergedMembers(cmp: Comparison, a: seq<ListHead>, b: seq<ListHead>)
    ensures forall x :: x in Merged(cmp, a, b) <==> x in a || x in b
    decreases |a| + |b|
  {
    if a == [] || b == [] {
    } else if cmp(a[0], b[0]) <= 0 {
      MergedMembers(cmp, a[1..], b);
      assert a == [a[0]] + a[1..];
    } else {
      MergedMembers(cmp, a, b[1..]);
      assert b == [b[0]] + b[1..];
    }
  }

  lemma ChainTail(p: ListHead?, s: seq<ListHead>)
    requires Chain(p, s) && s != []
    ensures Chain(s[0].next, s[1..])
  {
    forall i | 0 <= i < |s[1..]| - 1 ensures s[1..][i].next == s[1..][i + 1] {
      assert s[i + 1].next == s[i + 2];
    }
  }

  // A list under construction and two lists still to be merged share no node.
  ghost predicate Parted(done: seq<ListHead>, rx: seq<ListHead>, ry: seq<ListHead>) {
    Distinct(done + rx + ry)
  }

  lemma PartedPieces(done: seq<ListHead>, rx: seq<ListHead>, ry: seq<ListHead>)
    ensures Parted(done, rx, ry) <==>
              Distinct(done) && Distinct(rx) && Distinct(ry)
              && Disjoint(done, rx) && Disjoint(done, ry) && Disjoint(rx, ry)
  {
    var all := done + rx + ry;
    assert forall i :: 0 <= i < |done| ==> done[i] == all[i];
    assert forall i :: 0 <= i < |rx| ==> rx[i] == all[|done| + i];
    assert forall i :: 0 <= i < |ry| ==> ry[i] == all[|done| + |rx| + i];
  }

  lemma PartedStep(done: seq<ListHead>, rx: seq<ListHead>, ry: seq<ListHead>)
    requires Parted(done, rx, ry) && rx != []
    ensures Parted(done + [rx[0]], rx[1..], ry)
  {
    assert done + [rx[0]] + rx[1..] + ry == done + rx + ry;
  }

  lemma PartedSwap(done: seq<ListHead>, rx: seq<ListHead>, ry: seq<ListHead>)
    requires Parted(done, rx, ry)
    ensures Parted(done, ry, rx)
  {
    PartedPieces(done, rx, ry);
    PartedPieces(done, ry, rx);
  }

  // The state of a merge: done is linked, and a and b head what is left of the lists.
  ghost predicate Merging(tail: ListHead, a: ListHead?, b: ListHead?,
                          done: seq<ListHead>, ra: seq<ListHead>, rb: seq<ListHead>)
    reads done, ra, rb
  {
    && done != [] && tail == done[|done| - 1] && Linked(done)
    && Chain(a, ra) && Chain(b, rb) && Parted(done, ra, rb)
  }

  lemma MergingSwap(tail: ListHead, a: ListHead?, b: ListHead?,
                    done: seq<ListHead>, ra: seq<ListHead>, rb: seq<ListHead>)
    requires Merging(tail, a, b, done, ra, rb)
    ensures Merging(tail, b, a, done, rb, ra)
  {
    PartedSwap(done, ra, rb);
  }

  // What a merge will have produced once its lists are used up.
  ghost function Pending(cmp: Comparison, done: seq<ListHead>, ra: seq<ListHead>, rb: seq<ListHead>): seq<ListHead>
    requires done != []
  {
    done[1..] + Merged(cmp, ra, rb)
  }

  lemma TakeLeft(cmp: Comparison, done: seq<ListHead>, sa: seq<ListHead>, sb: seq<ListHead>, i: nat, j: nat)
    requires done != [] && i < |sa| && j < |sb| && cmp(sa[i], sb[j]) <= 0
    ensures sa[i..][1..] == sa[i + 1..]
    ensures Pending(cmp, done + [sa[i]], sa[i + 1..], sb[j..]) == Pending(cmp, done, sa[i..], sb[j..])
  {
    assert (done + [sa[i]])[1..] == done[1..] + [sa[i]];
  }

  lemma TakeRight(cmp: Comparison, done: seq<ListHead>, sa: seq<ListHead>, sb: seq<ListHead>, i: nat, j: nat)
    requires done != [] && i < |sa| && j < |sb| && cmp(sa[i], sb[j]) > 0
    ensures sb[j..][1..] == sb[j + 1..]
    ensures Pending(cmp, done + [sb[j]], sa[i..], sb[j + 1..]) == Pending(cmp, done, sa[i..], sb[j..])
  {
    assert (done + [sb[j]])[1..] == done[1..] + [sb[j]];
  }

  lemma NothingLeft(cmp: Comparison, done: seq<ListHead>, ra: seq<ListHead>, rb: seq<ListHead>)
    requires done != [] && (ra == [] || rb == [])
    ensures Pending(cmp, done, ra, rb) == (done + if ra != [] then ra else rb)[1..]
  {
  }

  // One link of a merge: x, the first node of rx, becomes the last of done.
  method Append(tail: ListHead, x: ListHead, y: ListHead?,
                ghost done: seq<ListHead>, ghost rx: seq<ListHead>, ghost ry: seq<ListHead>)
    requires Merging(tail, x, y, done, rx, ry)
    modifies tail`next
    ensures tail.next == x && x.next == old(x.next)
    ensures Merging(x, x.next, y, done + [x], rx[1..], ry)
  {
    ChainTail(x, rx);
    PartedPieces(done, rx, ry);
    PartedStep(done, rx, ry);
    tail.next := x;
  }

  // The body of the loop that merge() and merge_and_restore_back_links() share: the
  // smaller head is linked behind tail, and a on ties.
  method MergeStep(cmp: Comparison, tail: ListHead, a: ListHead, b: ListHead,
                   ghost done: seq<ListHead>, ghost sa: seq<ListHead>, ghost sb: seq<ListHead>,
                   ghost i: nat, ghost j: nat)
    returns (x: ListHead, a': ListHead?, b': ListHead?, ghost i': nat, ghost j': nat)
    requires i <= |sa| && j <= |sb| && Merging(tail, a, b, done, sa[i..], sb[j..])
    modifies tail`next
    ensures i <= i' <= |sa| && j <= j' <= |sb| && i' + j' == i + j + 1
    ensures (x in sa || x in sb) && tail.next == x
    ensures Merging(x, a', b', done + [x], sa[i'..], sb[j'..])
    ensures Pending(cmp, done + [x], sa[i'..], sb[j'..]) == Pending(cmp, done, sa[i..], sb[j..])
  {
    i', j' := i, j;
    if cmp(a, b) <= 0 {
      TakeLeft(cmp, done, sa, sb, i, j);
      Append(tail, a, b, done, sa[i..], sb[j..]);
      x, a', b', i' := a, a.next, b, i + 1;
    } else {
      TakeRight(cmp, done, sa, sb, i, j);
      MergingSwap(tail, a, b, done, sa[i..], sb[j..]);
      Append(tail, b, a, done, sb[j..], sa[i..]);
      MergingSwap(b, b.next, a, done + [b], sb[j + 1..], sa[i..]);
      x, a', b', j' := b, a, b.next, j + 1;
    }
  }

  // One list is used up: the other one follows done, and ends the result.
  method AppendRest(tail: ListHead, a: ListHead?, b: ListHead?,
                    ghost done: seq<ListHead>, ghost ra: seq<ListHead>, ghost rb: seq<ListHead>)
    requires Merging(tail, a, b, done, ra, rb) && (a == null || b == null)
    modifies tail`next
    ensures Chain(done[0], done + if ra != [] then ra else rb)
  {
    PartedPieces(done, ra, rb);
    tail.next := if a != null then a else b;
  }

  lemma MergingStart(head: ListHead, a: ListHead?, b: ListHead?, sa: seq<ListHead>, sb: seq<ListHead>)
    requires Chain(a, sa) && Chain(b, sb)
    requires Parted([head], sa, sb)
    ensures Merging(head, a, b, [head], sa[0..], sb[0..])
    ensures forall cmp: Comparison :: Merged(cmp, sa, sb) == Pending(cmp, [head], sa[0..], sb[0..])
  {
    assert sa[0..] == sa && sb[0..] == sb;
  }

  // tail->next = a ? a : b; return head.next;
  method FinishMerge(cmp: Comparison, head: ListHead, tail: ListHead, a: ListHead?, b: ListHead?,
                     ghost done: seq<ListHead>, ghost ra: seq<ListHead>, ghost rb: seq<ListHead>)
    returns (r: ListHead?)
    requires Merging(tail, a, b, done, ra, rb) && (a == null || b == null) && done[0] == head
    modifies tail`next
    ensures Chain(r, Pending(cmp, done, ra, rb))
  {
    NothingLeft(cmp, done, ra, rb);
    ghost var rest := if ra != [] then ra else rb;
    AppendRest(tail, a, b, done, ra, rb);
    ChainTail(head, done + rest);
    r := head.next;
  }

  method Merge(cmp: Comparison, a0: ListHead?, b0: ListHead?, ghost sa: seq<ListHead>, ghost sb: seq<ListHead>)
    returns (r: ListHead?)
    requires Chain(a0, sa) && Chain(b0, sb)
    requires Distinct(sa) && Distinct(sb) && Disjoint(sa, sb)
    modifies sa`next, sb`next
    ensures Chain(r, Merged(cmp, sa, sb))
  {
    var head := new ListHead();
    PartedPieces([head], sa, sb);
    MergingStart(head, a0, b0, sa, sb);
    hide Merging, Merged, Pending, Distinct, Disjoint;
    var tail: ListHead := head;
    var a, b := a0, b0;
    ghost var done: seq<ListHead> := [head];
    ghost var i, j := 0, 0;
    while a != null && b != null
      invariant i <= |sa| && j <= |sb|
      invariant Merging(tail, a, b, done, sa[i..], sb[j..]) && done[0] == head
      invariant tail == head || tail in sa || tail in sb
      invariant Merged(cmp, sa, sb) == Pending(cmp, done, sa[i..], sb[j..])
      decreases |sa| - i + |sb| - j
    {
      tail, a, b, i, j := MergeStep(cmp, tail, a, b, done, sa, sb, i, j);
      done := done + [tail];
    }
    r := FinishMerge(cmp, head, tail, a, b, done, sa[i..], sb[j..]);
  }

  // The do-while loop of merge_and_restore_back_links: set the missing prev links.
  method RestoreRest(tail0: ListHead, ghost full: seq<ListHead>, ghost k0: nat) returns (tail: ListHead)
    requires 1 <= k0 < |full| && tail0 == full[k0 - 1] && Chain(full[0], full) && Distinct(full)
    requires BackLinked(full[..k0])
    modifies full`prev
    ensures BackLinked(full) && tail == full[|full| - 1]
  {
    tail := tail0;
    tail.next.prev := tail;
    tail := tail.next;
    ghost var k := k0 + 1;
    while tail.next != null
      invariant 1 <= k <= |full| && tail == full[k - 1]
      invariant BackLinked(full[..k])
      decreases |full| - k
    {
      tail.next.prev := tail;
      tail := tail.next;
      k := k + 1;
    }
    assert full[..k] == full;
  }

  // The end of merge_and_restore_back_links, from the do-while loop on.
  method CloseRing(head: ListHead, tail0: ListHead, ghost full: seq<ListHead>, ghost k: nat)
    requires 1 <= k < |full| && tail0 == full[k - 1] && head == full[0]
    requires Chain(head, full) && Distinct(full) && BackLinked(full[..k])
    modifies full
    ensures Ring(head, full[1..])
  {
    var tail := RestoreRest(tail0, full, k);
    assert Chain(head, full);
    TieEnds(head, tail, full);
  }

  // tail->next = head; head->prev = tail
  method TieEnds(head: ListHead, tail: ListHead, ghost full: seq<ListHead>)
    requires full != [] && head == full[0] && tail == full[|full| - 1]
    requires Linked(full) && Distinct(full) && BackLinked(full)
    modifies head`prev, tail`next
    ensures Ring(head, full[1..])
  {
    tail.next := head;
    head.prev := tail;
    assert [head] + full[1..] == full && [head] + full[1..] + [head] == full + [head];
  }

  method FinishRing(cmp: Comparison, head: ListHead, tail: ListHead, a: ListHead?, b: ListHead?,
                    ghost done: seq<ListHead>, ghost ra: seq<ListHead>, ghost rb: seq<ListHead>,
                    ghost all: set<ListHead>)
    requires Merging(tail, a, b, done, ra, rb) && BackLinked(done) && done[0] == head
    requires (a == null) != (b == null)
    requires Within(done, all) && Within(ra, all) && Within(rb, all)
    modifies all
    ensures Ring(head, Pending(cmp, done, ra, rb))
  {
    NothingLeft(cmp, done, ra, rb);
    PartedPieces(done, ra, rb);
    ghost var rest := if ra != [] then ra else rb;
    AppendRest(tail, a, b, done, ra, rb);
    assert (done + rest)[..|done|] == done;
    CloseRing(head, tail, done + rest, |done|);
  }

  method MergeStepBack(cmp: Comparison, tail: ListHead, a: ListHead, b: ListHead,
                       ghost done: seq<ListHead>, ghost sa: seq<ListHead>, ghost sb: seq<ListHead>,
                       ghost i: nat, ghost j: nat)
    returns (x: ListHead, a': ListHead?, b': ListHead?, ghost i': nat, ghost j': nat)
    requires i <= |sa| && j <= |sb| && Merging(tail, a, b, done, sa[i..], sb[j..]) && BackLinked(done)
    modifies tail`next, sa`prev, sb`prev
    ensures i <= i' <= |sa| && j <= j' <= |sb| && i' + j' == i + j + 1 && (a' != null || b' != null)
    ensures (x in sa || x in sb) && x !in done
    ensures Merging(x, a', b', done + [x], sa[i'..], sb[j'..]) && BackLinked(done + [x])
    ensures Pending(cmp, done + [x], sa[i'..], sb[j'..]) == Pending(cmp, done, sa[i..], sb[j..])
  {
    x, a', b', i', j' := MergeStep(cmp, tail, a, b, done, sa, sb, i, j);
    PartedPieces(done + [x], sa[i'..], sb[j'..]);
    assert forall k :: 0 <= k < |done| ==> (done + [x])[k] == done[k];
    x.prev := tail;
  }

  method MergeAndRestoreBackLinks(cmp: Comparison, head: ListHead, a0: ListHead?, b0: ListHead?,
                                  ghost sa: seq<ListHead>, ghost sb: seq<ListHead>)
    requires Chain(a0, sa) && Chain(b0, sb) && a0 != null
    requires Parted([head], sa, sb)
    modifies head, sa, sb
    ensures Ring(head, Merged(cmp, sa, sb))
  {
    MergingStart(head, a0, b0, sa, sb);
    assert BackLinked([head]);
    hide Merging, Merged, Pending, Distinct, Disjoint, BackLinked, Ring;
    var tail := head;
    var a, b := a0, b0;
    ghost var all := {head} + (set x | x in sa) + (set x | x in sb);
    ghost var done: seq<ListHead> := [head];
    ghost var i, j := 0, 0;
    while a != null && b != null
      invariant i <= |sa| && j <= |sb|
      invariant Merging(tail, a, b, done, sa[i..], sb[j..]) && done[0] == head && BackLinked(done)
      invariant tail == head || tail in sa || tail in sb
      invariant forall k :: 0 <= k < |done| ==> done[k] in all
      invariant Merged(cmp, sa, sb) == Pending(cmp, done, sa[i..], sb[j..])
      invariant a != null || b != null
      decreases |sa| - i + |sb| - j
    {
      tail, a, b, i, j := MergeStepBack(cmp, tail, a, b, done, sa, sb, i, j);
      done := done + [tail];
    }
    FinishRing(cmp, head, tail, a, b, done, sa[i..], sb[j..], all);
  }

  // ----- list_sort -----

  const MAX_LIST_LENGTH_BITS := 20

  // part[l] heads the chain lists[l]; the slots share no node, and the last slot,
  // the sentinel, is empty.
  ghost predicate Parts(ps: seq<ListHead?>, lists: seq<seq<ListHead>>)
    reads Nodes(lists)
  {
    && |ps| == |lists| == MAX_LIST_LENGTH_BITS + 1
    && (forall l :: 0 <= l < |ps| ==> Chain(ps[l], lists[l]) && Distinct(lists[l]))
    && (forall l, m :: 0 <= l < m < |ps| ==> Disjoint(lists[l], lists[m]))
  }

  ghost function Nodes(lists: seq<seq<ListHead>>): set<ListHead> {
    set l, k | 0 <= l < |lists| && 0 <= k < |lists[l]| :: lists[l][k]
  }

  // A further chain c, apart from every slot.
  ghost predicate Beside(lists: seq<seq<ListHead>>, c: seq<ListHead>) {
    Distinct(c) && forall l :: 0 <= l < |lists| ==> Disjoint(lists[l], c)
  }

  ghost predicate SortsOf(cmp: Comparison, lists: seq<seq<ListHead>>, segs: seq<seq<ListHead>>) {
    |lists| == |segs| && forall l :: 0 <= l < |lists| ==> SortOf(cmp, lists[l], segs[l])
  }

  // The stretches of the input that the slots stand for, higher slots first.
  ghost function Join(segs: seq<seq<ListHead>>): seq<ListHead> {
    if segs == [] then [] else Join(segs[1..]) + segs[0]
  }

  lemma {:induction false} JoinUpdate(segs: seq<seq<ListHead>>, l: nat, c: seq<ListHead>)
    requires l < |segs| && forall k :: 0 <= k <= l ==> segs[k] == []
    ensures Join(segs[l := c]) == Join(segs) + c
  {
    if l > 0 {
      JoinUpdate(segs[1..], l - 1, c);
      assert segs[l := c][1..] == segs[1..][l - 1 := c];
    } else {
      assert segs[l := c][1..] == segs[1..];
    }
  }

  lemma {:induction false} JoinEmpty(segs: seq<seq<ListHead>>)
    requires forall k :: 0 <= k < |segs| ==> segs[k] == []
    ensures Join(segs) == []
  {
    if segs != [] {
      JoinEmpty(segs[1..]);
    }
  }

  lemma DisjointMerged(cmp: Comparison, s: seq<ListHead>, a: seq<ListHead>, b: seq<ListHead>)
    requires (Disjoint(s, a) || Disjoint(a, s)) && Disjoint(s, b)
    ensures Disjoint(s, Merged(cmp, a, b))
  {
    MergedMembers(cmp, a, b);
    forall i, j | 0 <= i < |s| && 0 <= j < |Merged(cmp, a, b)| ensures s[i] != Merged(cmp, a, b)[j] {
      assert Merged(cmp, a, b)[j] in Merged(cmp, a, b);
    }
  }

  // Merge the chain of slot lev, which holds earlier elements, with c.
  method Absorb(cmp: Comparison, p: ListHead, cur: ListHead?, ghost ps: seq<ListHead?>,
                ghost lists: seq<seq<ListHead>>, ghost c: seq<ListHead>, ghost lev: nat)
    returns (r: ListHead?, ghost c': seq<ListHead>)
    requires Parts(ps, lists) && Chain(cur, c) && Beside(lists, c)
    requires lev < |ps| && p == ps[lev]
    modifies lists[lev]`next, c`next
    ensures Parts(ps[lev := null], lists[lev := []]) && Chain(r, c') && Beside(lists[lev := []], c')
    ensures c' == Merged(cmp, lists[lev], c)
    ensures forall x :: x in c' <==> x in lists[lev] || x in c
  {
    r := Merge(cmp, p, cur, lists[lev], c);
    c' := Merged(cmp, lists[lev], c);
    DistinctMerged(cmp, lists[lev], c);
    MergedMembers(cmp, lists[lev], c);
    ghost var lists' := lists[lev := []];
    forall l | 0 <= l < |lists'| ensures Disjoint(lists'[l], c') {
      if l != lev {
        DisjointMerged(cmp, lists'[l], lists[lev], c);
      }
    }
  }

  lemma EmptySort(cmp: Comparison, r: seq<ListHead>, s: seq<ListHead>)
    requires SortOf(cmp, r, s)
    ensures r == [] <==> s == []
  {
    assert |multiset(r)| == |r| && |multiset(s)| == |s|;
  }

  // Ghost bookkeeping of list_sort: the chain and the stretch of the input behind
  // each slot, and behind the chain being carried.
  datatype Ledger = Ledger(lists: seq<seq<ListHead>>, segs: seq<seq<ListHead>>, c: seq<ListHead>, seg: seq<ListHead>) {
    // Slot lev, holding earlier elements, has been merged into the carried chain.
    ghost function Absorbed(cmp: Comparison, lev: nat): Ledger
      requires lev < |lists| == |segs|
    {
      Ledger(lists[lev := []], segs[lev := []], Merged(cmp, lists[lev], c), segs[lev] + seg)
    }

    // Nothing is being carried, and node is picked up.
    ghost function With(node: ListHead): Ledger {
      Ledger(lists, segs, [node], [node])
    }

    // The carried chain has been put into slot lev.
    ghost function Stored(lev: nat): Ledger
      requires lev < |lists| == |segs|
    {
      Ledger(lists[lev := c], segs[lev := seg], [], [])
    }

    ghost predicate EmptyBelow(lev: nat)
      requires lev <= |lists| == |segs|
    {
      forall k :: 0 <= k < lev ==> lists[k] == [] && segs[k] == []
    }

    ghost function All(): set<ListHead> {
      Nodes(lists) + set x | x in c
    }

    // The input consumed so far.
    ghost function Input(): seq<ListHead> {
      Join(segs) + seg
    }
  }

  lemma SortsAbsorb(cmp: Comparison, g: Ledger, lev: nat)
    requires SortsOf(cmp, g.lists, g.segs) && SortOf(cmp, g.c, g.seg) && lev < |g.lists|
    ensures SortsOf(cmp, g.Absorbed(cmp, lev).lists, g.Absorbed(cmp, lev).segs)
    ensures SortOf(cmp, g.Absorbed(cmp, lev).c, g.Absorbed(cmp, lev).seg)
  {
    SortOfMerged(cmp, g.lists[lev], g.segs[lev], g.c, g.seg);
    assert SortOf(cmp, [], []);
  }

  lemma InputAbsorb(cmp: Comparison, g: Ledger, lev: nat)
    requires lev < |g.lists| == |g.segs| && g.EmptyBelow(lev)
    ensures g.Absorbed(cmp, lev).Input() == g.Input()
    ensures g.Absorbed(cmp, lev).All() <= g.All() && g.Absorbed(cmp, lev).EmptyBelow(lev + 1)
  {
    var segs' := g.segs[lev := []];
    JoinUpdate(segs', lev, g.segs[lev]);
    assert segs'[lev := g.segs[lev]] == g.segs;
    assert Join(segs') + (g.segs[lev] + g.seg) == (Join(segs') + g.segs[lev]) + g.seg;
    var h := g.Absorbed(cmp, lev);
    MergedMembers(cmp, g.lists[lev], g.c);
    forall x | x in h.All() ensures x in g.All() {
      if x in h.c {
        assert x in g.c || exists k :: 0 <= k < |g.lists[lev]| && x == g.lists[lev][k];
      } else {
        var l, k :| 0 <= l < |h.lists| && 0 <= k < |h.lists[l]| && h.lists[l][k] == x;
        assert g.lists[l][k] == x;
      }
    }
  }

  // Everything list_sort knows about its slots and the chain it is carrying.
  ghost predicate Carrying(cmp: Comparison, ps: seq<ListHead?>, cur: ListHead?, g: Ledger)
    reads g.All()
  {
    && Parts(ps, g.lists) && SortsOf(cmp, g.lists, g.segs)
    && Chain(cur, g.c) && Beside(g.lists, g.c) && SortOf(cmp, g.c, g.seg)
  }

  // One turn of the carry loop, and of the final accumulation: slot lev is emptied.
  method CarryStep(cmp: Comparison, p: ListHead, cur: ListHead?, ghost ps: seq<ListHead?>, ghost g: Ledger,
                   ghost lev: nat)
    returns (r: ListHead?)
    requires Carrying(cmp, ps, cur, g)
    requires lev < |ps| && p == ps[lev]
    modifies g.lists[lev]`next, g.c`next
    ensures Carrying(cmp, ps[lev := null], r, g.Absorbed(cmp, lev))
  {
    SortsAbsorb(cmp, g, lev);
    ghost var c';
    r, c' := Absorb(cmp, p, cur, ps, g.lists, g.c, lev);
  }

  // for (lev = 0; part[lev]; lev++): a binary-counter increment.
  method Carry(cmp: Comparison, part: array<ListHead?>, cur0: ListHead, ghost g0: Ledger)
    returns (lev: nat, cur: ListHead?, ghost g: Ledger)
    requires part.Length == MAX_LIST_LENGTH_BITS + 1
    requires Carrying(cmp, part[..], cur0, g0)
    requires part[MAX_LIST_LENGTH_BITS] == null
    modifies part, g0.All()`next
    ensures Carrying(cmp, part[..], cur, g) && cur != null
    ensures lev <= MAX_LIST_LENGTH_BITS && part[lev] == null && g.EmptyBelow(lev + 1)
    ensures forall k :: 0 <= k < lev ==> part[k] == null
    ensures forall k :: lev <= k < part.Length ==> part[k] == old(part[k])
    ensures g.Input() == g0.Input() && g.All() <= g0.All()
  {
    assert |g0.lists| == |g0.segs| == part.Length;
    hide Carrying, Ledger.All, Ledger.Input;
    lev, cur, g := 0, cur0, g0;
    while part[lev] != null
      invariant lev <= MAX_LIST_LENGTH_BITS && cur != null && |g.lists| == |g.segs| == part.Length
      invariant Carrying(cmp, part[..], cur, g) && g.EmptyBelow(lev)
      invariant forall k :: 0 <= k < lev ==> part[k] == null
      invariant forall k :: lev <= k < part.Length ==> part[k] == old(part[k])
      invariant g.Input() == g0.Input() && g.All() <= g0.All()
      decreases part.Length - lev
    {
      InputAbsorb(cmp, g, lev);
      cur := CarryTurn(cmp, part, cur, g, lev);
      g := g.Absorbed(cmp, lev);
      lev := lev + 1;
    }
    CarryStops(cmp, part[..], cur, g, lev);
  }

  lemma CarryStops(cmp: Comparison, ps: seq<ListHead?>, cur: ListHead?, g: Ledger, lev: nat)
    requires Carrying(cmp, ps, cur, g) && lev < |ps| && ps[lev] == null && g.EmptyBelow(lev)
    ensures g.EmptyBelow(lev + 1)
  {
    EmptySort(cmp, g.lists[lev], g.segs[lev]);
  }

  method CarryTurn(cmp: Comparison, part: array<ListHead?>, cur: ListHead, ghost g: Ledger, lev: nat)
    returns (r: ListHead?)
    requires part.Length == MAX_LIST_LENGTH_BITS + 1 && lev < part.Length && part[lev] != null
    requires Carrying(cmp, part[..], cur, g)
    modifies part, g.All()`next
    ensures Carrying(cmp, part[..], r, g.Absorbed(cmp, lev)) && r != null
    ensures part[lev] == null && forall k :: 0 <= k < part.Length && k != lev ==> part[k] == old(part[k])
  {
    ghost var ps := part[..];
    r := CarryStep(cmp, part[lev], cur, ps, g, lev);
    part[lev] := null;
    assert part[..] == ps[lev := null];
  }

  lemma StoreCarried(cmp: Comparison, ps: seq<ListHead?>, cur: ListHead?, g: Ledger, lev: nat)
    requires Carrying(cmp, ps, cur, g) && lev < |ps| && g.EmptyBelow(lev + 1)
    ensures Carrying(cmp, ps[lev := cur], null, g.Stored(lev))
  {
    var lists' := g.lists[lev := g.c];
    forall l, m | 0 <= l < m < |ps| ensures Disjoint(lists'[l], lists'[m]) {
      assert l != lev ==> Disjoint(g.lists[l], g.c);
    }
  }

  lemma StoreInput(g: Ledger, lev: nat)
    requires lev < |g.lists| == |g.segs| && g.EmptyBelow(lev + 1)
    ensures g.Stored(lev).Input() == g.Input() && g.Stored(lev).All() <= g.All()
  {
    JoinUpdate(g.segs, lev, g.seg);
    var h := g.Stored(lev);
    forall x | x in h.All() ensures x in g.All() {
      var l, k :| 0 <= l < |h.lists| && 0 <= k < |h.lists[l]| && h.lists[l][k] == x;
      assert l != lev ==> g.lists[l][k] == x;
    }
  }

  lemma StartCarry(cmp: Comparison, ps: seq<ListHead?>, node: ListHead, g: Ledger)
    requires g.c == [] && g.seg == [] && Carrying(cmp, ps, null, g)
    requires node.next == null && node !in g.All()
    ensures Carrying(cmp, ps, node, g.With(node))
    ensures g.With(node).Input() == g.Input() + [node] && g.With(node).All() == g.All() + {node}
  {
    forall l, i | 0 <= l < |g.lists| && 0 <= i < |g.lists[l]| ensures g.lists[l][i] != node {
      assert g.lists[l][i] in Nodes(g.lists);
    }
  }

  // part[lev] = cur
  method Store(cmp: Comparison, part: array<ListHead?>, cur: ListHead?, ghost g: Ledger, lev: nat)
    requires lev < part.Length && Carrying(cmp, part[..], cur, g) && g.EmptyBelow(lev + 1)
    modifies part
    ensures Carrying(cmp, part[..], null, g.Stored(lev))
    ensures g.Stored(lev).Input() == g.Input() && g.Stored(lev).All() <= g.All()
    ensures part[lev] == cur && forall k :: 0 <= k < part.Length && k != lev ==> part[k] == old(part[k])
  {
    StoreInput(g, lev);
    StoreCarried(cmp, part[..], cur, g, lev);
    ghost var ps := part[..][lev := cur];
    part[lev] := cur;
    assert part[..] == ps;
  }

  // The slots in use: none above maxLev, and the top one is taken.
  ghost predicate Topped(ps: seq<ListHead?>, maxLev: nat) {
    && |ps| == MAX_LIST_LENGTH_BITS + 1 && maxLev < MAX_LIST_LENGTH_BITS
    && forall l :: maxLev < l < |ps| ==> ps[l] == null
  }

  // The body of the main loop: carry one node into the slots.
  method Place(cmp: Comparison, part: array<ListHead?>, node: ListHead, maxLev0: nat, ghost g0: Ledger)
    returns (maxLev: nat, ghost g: Ledger)
    requires part.Length == MAX_LIST_LENGTH_BITS + 1 && Topped(part[..], maxLev0)
    requires maxLev0 > 0 ==> part[maxLev0] != null
    requires g0.c == [] && g0.seg == [] && Carrying(cmp, part[..], null, g0)
    requires node.next == null && node !in g0.All()
    modifies part, g0.All()`next, node`next
    ensures Topped(part[..], maxLev) && part[maxLev] != null
    ensures g.c == [] && g.seg == [] && Carrying(cmp, part[..], null, g)
    ensures g.Input() == g0.Input() + [node] && g.All() <= g0.All() + {node}
  {
    StartCarry(cmp, part[..], node, g0);
    var lev, cur;
    lev, cur, g := Carry(cmp, part, node, g0.With(node));
    maxLev, g := StoreAtTop(cmp, part, cur, lev, maxLev0, g);
  }

  // Where the carry stops, saturating below the sentinel slot.
  method StoreAtTop(cmp: Comparison, part: array<ListHead?>, cur: ListHead, lev0: nat, maxLev0: nat, ghost g0: Ledger)
    returns (maxLev: nat, ghost g: Ledger)
    requires Topped(part[..], maxLev0) && lev0 <= MAX_LIST_LENGTH_BITS
    requires lev0 < maxLev0 ==> part[maxLev0] != null
    requires Carrying(cmp, part[..], cur, g0) && g0.EmptyBelow(lev0 + 1)
    modifies part
    ensures Topped(part[..], maxLev) && part[maxLev] != null
    ensures g.c == [] && g.seg == [] && Carrying(cmp, part[..], null, g)
    ensures g.Input() == g0.Input() && g.All() <= g0.All()
  {
    var lev := lev0;
    maxLev := maxLev0;
    if lev > maxLev {
      if lev >= part.Length - 1 {
        lev := lev - 1;
      }
      maxLev := lev;
    }
    Store(cmp, part, cur, g0, lev);
    g := g0.Stored(lev);
  }

  // An all-empty ledger over null slots.
  ghost function NoParts(): Ledger {
    Ledger(seq(MAX_LIST_LENGTH_BITS + 1, _ => []), seq(MAX_LIST_LENGTH_BITS + 1, _ => []), [], [])
  }

  lemma EmptyParts(ps: seq<ListHead?>, lists: seq<seq<ListHead>>)
    requires |ps| == |lists| == MAX_LIST_LENGTH_BITS + 1
    requires forall l :: 0 <= l < |ps| ==> ps[l] == null && lists[l] == []
    ensures Parts(ps, lists) && Beside(lists, []) && Nodes(lists) == {}
  {
  }

  lemma NoPartsCarried(cmp: Comparison, ps: seq<ListHead?>)
    requires |ps| == MAX_LIST_LENGTH_BITS + 1 && forall l :: 0 <= l < |ps| ==> ps[l] == null
    ensures Carrying(cmp, ps, null, NoParts()) && NoParts().Input() == [] && NoParts().All() == {}
  {
    var g := NoParts();
    EmptyParts(ps, g.lists);
    JoinEmpty(g.segs);
    assert SortOf(cmp, [], []);
    hide Parts, Nodes, Beside, SortOf, Join;
  }

  // The links of a ring, node by node.
  lemma RingNodes(head: ListHead, ns: seq<ListHead>)
    requires Ring(head, ns)
    ensures head !in ns && Distinct(ns) && Linked(ns)
    ensures if ns == [] then head.next == head else head.next == ns[0] && head.prev == ns[|ns| - 1]
  {
    var all := [head] + ns + [head];
    assert all[0] == head && all[0].next == all[1];
    assert forall i :: 0 <= i < |ns| ==> ns[i] == all[i + 1] && ns[i] == ([head] + ns)[i + 1];
  }

  // head->prev->next = NULL
  method Unring(head: ListHead, ghost ns: seq<ListHead>) returns (list: ListHead)
    requires Ring(head, ns) && ns != []
    modifies head`next, ns`next
    ensures Chain(list, ns)
  {
    RingNodes(head, ns);
    head.prev.next := null;
    list := head.next;
  }

  // list = list->next; cur->next = NULL
  method Detach(cur: ListHead, ghost ns: seq<ListHead>, ghost k: nat, ghost used: set<ListHead>)
    returns (list: ListHead?)
    requires k < |ns| && Chain(cur, ns[k..]) && Distinct(ns) && forall x :: x in used ==> x in ns[..k]
    modifies cur`next
    ensures Chain(list, ns[k + 1..]) && cur.next == null
    ensures ns[..k + 1] == ns[..k] + [cur] && cur !in used && cur == ns[k]
    ensures forall x :: x in ns[k + 1..] ==> x !in used && x != cur
  {
    ChainTail(cur, ns[k..]);
    assert ns[k..][1..] == ns[k + 1..];
    list := cur.next;
    cur.next := null;
  }

  // Between turns of the main loop: the first k nodes of ns are in the slots.
  ghost predicate Filled(cmp: Comparison, ps: seq<ListHead?>, list: ListHead?, ns: seq<ListHead>, k: nat,
                         maxLev: nat, g: Ledger)
    requires k <= |ns|
    reads ns, g.All()
  {
    && Chain(list, ns[k..])
    && Topped(ps, maxLev) && (maxLev > 0 || k > 0 ==> ps[maxLev] != null)
    && g.c == [] && g.seg == [] && Carrying(cmp, ps, null, g)
    && g.Input() == ns[..k] && forall x :: x in g.All() ==> x in ns[..k]
  }

  lemma FilledParts(cmp: Comparison, ps: seq<ListHead?>, list: ListHead?, ns: seq<ListHead>, k: nat,
                    maxLev: nat, g: Ledger)
    requires k <= |ns| && Filled(cmp, ps, list, ns, k, maxLev, g)
    ensures Chain(list, ns[k..]) && Topped(ps, maxLev) && (maxLev > 0 || k > 0 ==> ps[maxLev] != null)
    ensures g.c == [] && g.seg == [] && Carrying(cmp, ps, null, g)
    ensures g.Input() == ns[..k] && g.All() <= Among(ns[..k])
  {
    forall x | x in g.All()
      ensures x in Among(ns[..k])
    {
      assert x in ns[..k];
    }
  }

  ghost function Among(ns: seq<ListHead>): set<ListHead> {
    set x | x in ns
  }

  lemma FilledAgain(cmp: Comparison, ps: seq<ListHead?>, list: ListHead?, ns: seq<ListHead>, k: nat,
                    maxLev: nat, g: Ledger)
    requires k < |ns| && Chain(list, ns[k + 1..]) && Topped(ps, maxLev) && ps[maxLev] != null
    requires g.c == [] && g.seg == [] && Carrying(cmp, ps, null, g)
    requires g.Input() == ns[..k] + [ns[k]] && g.All() <= Among(ns[..k]) + {ns[k]}
    ensures Filled(cmp, ps, list, ns, k + 1, maxLev, g)
  {
    hide Carrying, Chain, Topped, Ledger.Input, Ledger.All;
    assert ns[..k + 1] == ns[..k] + [ns[k]];
  }

  method FillStep(cmp: Comparison, part: array<ListHead?>, cur: ListHead, ghost ns: seq<ListHead>, ghost k: nat,
                  maxLev0: nat, ghost g0: Ledger)
    returns (list: ListHead?, maxLev: nat, ghost g: Ledger)
    requires k < |ns| && Distinct(ns) && Filled(cmp, part[..], cur, ns, k, maxLev0, g0)
    modifies part, ns`next
    ensures Filled(cmp, part[..], list, ns, k + 1, maxLev, g)
  {
    FilledParts(cmp, part[..], cur, ns, k, maxLev0, g0);
    hide Filled, Topped, Ledger.Input, Ledger.All, Distinct;
    assert forall x :: x in g0.All() ==> x in ns[..k];
    list := Detach(cur, ns, k, g0.All());
    assert Carrying(cmp, part[..], null, g0);
    hide Carrying, Chain;
    maxLev, g := Place(cmp, part, cur, maxLev0, g0);
    assert Chain(list, ns[k + 1..]);
    FilledAgain(cmp, part[..], list, ns, k, maxLev, g);
  }

  // The main loop: every node is carried into the slots.
  method FillParts(cmp: Comparison, part: array<ListHead?>, list0: ListHead, ghost ns: seq<ListHead>)
    returns (maxLev: nat, ghost g: Ledger)
    requires part.Length == MAX_LIST_LENGTH_BITS + 1 && forall l :: 0 <= l < part.Length ==> part[l] == null
    requires Chain(list0, ns) && Distinct(ns)
    modifies part, ns`next
    ensures Filled(cmp, part[..], null, ns, |ns|, maxLev, g)
  {
    var list: ListHead? := list0;
    maxLev, g := 0, NoParts();
    NoPartsCarried(cmp, part[..]);
    ghost var k := 0;
    while list != null
      invariant k <= |ns| && Filled(cmp, part[..], list, ns, k, maxLev, g)
      decreases |ns| - k
    {
      list, maxLev, g := FillStep(cmp, part, list, ns, k, maxLev, g);
      k := k + 1;
    }
  }

  // Merge the lower slots, lowest first, each in front of what came later.
  method DrainParts(cmp: Comparison, part: array<ListHead?>, maxLev: nat, ghost g0: Ledger)
    returns (list: ListHead?, ghost ps: seq<ListHead?>, ghost g: Ledger)
    requires part.Length == MAX_LIST_LENGTH_BITS + 1 && maxLev < part.Length
    requires g0.c == [] && g0.seg == [] && Carrying(cmp, part[..], null, g0)
    modifies g0.All()`next
    ensures Carrying(cmp, ps, list, g) && g.EmptyBelow(maxLev)
    ensures forall l :: maxLev <= l < part.Length ==> ps[l] == part[l]
    ensures g.Input() == g0.Input() && g.All() <= g0.All()
  {
    list, ps, g := null, part[..], g0;
    var lev := 0;
    while lev < maxLev
      invariant lev <= maxLev
      invariant Carrying(cmp, ps, list, g) && g.EmptyBelow(lev)
      invariant forall l :: lev <= l < part.Length ==> ps[l] == part[l]
      invariant g.Input() == g0.Input() && g.All() <= g0.All()
    {
      list, ps, g := DrainStep(cmp, part[lev], list, ps, g, lev);
      lev := lev + 1;
    }
  }

  method DrainStep(cmp: Comparison, p: ListHead?, list0: ListHead?, ghost ps0: seq<ListHead?>, ghost g0: Ledger,
                   ghost lev: nat)
    returns (list: ListHead?, ghost ps: seq<ListHead?>, ghost g: Ledger)
    requires Carrying(cmp, ps0, list0, g0) && lev < |ps0| && p == ps0[lev] && g0.EmptyBelow(lev)
    modifies g0.All()`next
    ensures Carrying(cmp, ps, list, g) && g.EmptyBelow(lev + 1)
    ensures ps == ps0[lev := null]
    ensures g.Input() == g0.Input() && g.All() <= g0.All()
  {
    list, ps, g := list0, ps0, g0;
    if p != null {
      InputAbsorb(cmp, g, lev);
      list := CarryStep(cmp, p, list, ps, g, lev);
      ps, g := ps[lev := null], g.Absorbed(cmp, lev);
    } else {
      CarryStops(cmp, ps, list, g, lev);
    }
  }

  // Only the top slot and the carried chain are left: they stand for the whole input.
  lemma TopAndCarried(cmp: Comparison, g: Ledger, maxLev: nat)
    requires SortsOf(cmp, g.lists, g.segs) && SortOf(cmp, g.c, g.seg) && maxLev < |g.lists|
    requires forall l :: 0 <= l < |g.lists| && l != maxLev ==> g.lists[l] == []
    ensures SortOf(cmp, Merged(cmp, g.lists[maxLev], g.c), g.Input())
  {
    forall l | 0 <= l < |g.lists| && l != maxLev ensures g.segs[l] == [] {
      EmptySort(cmp, g.lists[l], g.segs[l]);
    }
    var segs' := g.segs[maxLev := []];
    JoinUpdate(segs', maxLev, g.segs[maxLev]);
    JoinEmpty(segs');
    assert segs'[maxLev := g.segs[maxLev]] == g.segs;
    assert Join(g.segs) == g.segs[maxLev];
    SortOfMerged(cmp, g.lists[maxLev], g.segs[maxLev], g.c, g.seg);
  }

  lemma OnlyTopLeft(cmp: Comparison, ps: seq<ListHead?>, list: ListHead?, g: Ledger, maxLev: nat)
    requires Carrying(cmp, ps, list, g) && maxLev < |ps| && g.EmptyBelow(maxLev)
    requires forall l :: maxLev < l < |ps| ==> ps[l] == null
    ensures forall l :: 0 <= l < |g.lists| && l != maxLev ==> g.lists[l] == []
  {
  }

  // The end of list_sort: everything is in the slots.
  method MergeParts(cmp: Comparison, head: ListHead, part: array<ListHead?>, maxLev: nat, ghost g0: Ledger)
    returns (ghost sorted: seq<ListHead>)
    requires Topped(part[..], maxLev) && part[maxLev] != null
    requires g0.c == [] && g0.seg == [] && Carrying(cmp, part[..], null, g0)
    requires head !in g0.All()
    modifies head, g0.All()
    ensures Ring(head, sorted) && SortOf(cmp, sorted, g0.Input())
  {
    ghost var ps, g;
    var rest;
    rest, ps, g := DrainParts(cmp, part, maxLev, g0);
    OnlyTopLeft(cmp, ps, rest, g, maxLev);
    TopAndCarried(cmp, g, maxLev);
    sorted := Merged(cmp, g.lists[maxLev], g.c);
    PartedWithHead(head, g, maxLev);
    MergeAndRestoreBackLinks(cmp, head, part[maxLev], rest, g.lists[maxLev], g.c);
  }

  lemma PartedWithHead(head: ListHead, g: Ledger, lev: nat)
    requires lev < |g.lists| && head !in g.All() && Beside(g.lists, g.c) && Distinct(g.lists[lev])
    ensures Parted([head], g.lists[lev], g.c)
    ensures forall x :: x in g.lists[lev] || x in g.c ==> x in g.All()
  {
    assert forall k :: 0 <= k < |g.lists[lev]| ==> g.lists[lev][k] in Nodes(g.lists);
    PartedPieces([head], g.lists[lev], g.c);
  }

  /** list_sort turns a well-formed ring into a well-formed ring of the same nodes.
      When the comparison is consistent on them, the new order is the stable sort,
      for lists of any length. */
  method ListSort(cmp: Comparison, head: ListHead, ghost ns: seq<ListHead>) returns (ghost sorted: seq<ListHead>)
    requires Ring(head, ns)
    modifies head, ns
    ensures Ring(head, sorted)
    ensures multiset(sorted) == multiset(ns)
    ensures Consistent(cmp, set x | x in ns) ==> sorted == StableSort(cmp, ns)
  {
    RingNodes(head, ns);
    sorted := ns;
    if head.next == head {
      return;
    }
    var part := new ListHead?[MAX_LIST_LENGTH_BITS + 1](_ => null);
    var list := Unring(head, ns);
    var maxLev, g := FillParts(cmp, part, list, ns);
    assert ns[..|ns|] == ns;
    sorted := MergeParts(cmp, head, part, maxLev, g);
  }
}
