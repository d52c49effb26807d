/** What model/kernel_hash/sort.c computes, on sequences: merging that prefers its
    first argument on ties, and the stable sort that it leads to. */
module MergeSeq {

  /** A comparison function is consistent on a set when its sign is that of a
      total preorder, as the comment on list_sort asks of its callers. */
  ghost predicate Consistent<E>(cmp: (E, E) -> int, all: set<E>) {
    && (forall a, b :: a in all && b in all ==> (cmp(a, b) < 0 <==> cmp(b, a) > 0))
    && (forall a, b, c :: a in all && b in all && c in all ==> Transitive(cmp, a, b, c))
  }

  ghost predicate Transitive<E>(cmp: (E, E) -> int, a: E, b: E, c: E) {
    cmp(a, b) <= 0 && cmp(b, c) <= 0 ==> cmp(a, c) <= 0
  }

  ghost predicate Within<E>(s: seq<E>, all: set<E>) {
    forall i :: 0 <= i < |s| ==> s[i] in all
  }

  ghost function Merged<E>(cmp: (E, E) -> int, a: seq<E>, b: seq<E>): seq<E>
    decreases |a| + |b|
  {
    if a == [] then b
    else if b == [] then a
    else if cmp(a[0], b[0]) <= 0 then [a[0]] + Merged(cmp, a[1..], b)
    else [b[0]] + Merged(cmp, a, b[1..])
  }

  lemma MultisetOfParts<E>(x: E, s: seq<E>, t: seq<E>)
    requires s != [] && s[0] == x
    ensures multiset(s) == multiset{x} + multiset(s[1..])
    ensures multiset([x] + t) == multiset{x} + multiset(t)
  {
    assert s == [x] + s[1..];
  }

  lemma {:induction false} MergedPermutes<E>(cmp: (E, E) -> int, a: seq<E>, b: seq<E>)
    ensures multiset(Merged(cmp, a, b)) == multiset(a) + multiset(b)
    decreases |a| + |b|
  {
    if a != [] && b != [] {
      if cmp(a[0], b[0]) <= 0 {
        MergedPermutes(cmp, a[1..], b);
        MultisetOfParts(a[0], a, Merged(cmp, a[1..], b));
      } else {
        MergedPermutes(cmp, a, b[1..]);
        MultisetOfParts(b[0], b, Merged(cmp, a, b[1..]));
      }
    }
  }

  /** The reference: put the elements in one at a time, from the last to the first,
      each in front of its equals. */
  ghost function StableSort<E>(cmp: (E, E) -> int, s: seq<E>): seq<E> {
    if s == [] then [] else Merged(cmp, [s[0]], StableSort(cmp, s[1..]))
  }

  lemma {:induction false} StableSortPermutes<E>(cmp: (E, E) -> int, s: seq<E>)
    ensures multiset(StableSort(cmp, s)) == multiset(s)
  {
    if s != [] {
      StableSortPermutes(cmp, s[1..]);
      MergedPermutes(cmp, [s[0]], StableSort(cmp, s[1..]));
      assert s == [s[0]] + s[1..];
    }
  }

  lemma {:induction false} MergedWithin<E>(cmp: (E, E) -> int, all: set<E>, a: seq<E>, b: seq<E>)
    requires Within(a, all) && Within(b, all)
    ensures Within(Merged(cmp, a, b), all)
    decreases |a| + |b|
  {
    if a != [] && b != [] {
      if cmp(a[0], b[0]) <= 0 {
        MergedWithin(cmp, all, a[1..], b);
      } else {
        MergedWithin(cmp, all, a, b[1..]);
      }
    }
  }

  lemma {:induction false} SortWithin<E>(cmp: (E, E) -> int, all: set<E>, s: seq<E>)
    requires Within(s, all)
    ensures Within(StableSort(cmp, s), all)
  {
    if s != [] {
      SortWithin(cmp, all, s[1..]);
      MergedWithin(cmp, all, [s[0]], StableSort(cmp, s[1..]));
    }
  }

  // One unfolding of Merged when the first list is known by its head.
  lemma HeadFirst<E>(cmp: (E, E) -> int, x: E, a: seq<E>, b: seq<E>)
    requires b != []
    ensures Merged(cmp, [x] + a, b)
         == if cmp(x, b[0]) <= 0 then [x] + Merged(cmp, a, b) else [b[0]] + Merged(cmp, [x] + a, b[1..])
  {
    assert ([x] + a)[1..] == a;
  }

  // The same for the second list, and for both.
  lemma HeadSecond<E>(cmp: (E, E) -> int, a: seq<E>, y: E, b: seq<E>)
    requires a != []
    ensures Merged(cmp, a, [y] + b)
         == if cmp(a[0], y) <= 0 then [a[0]] + Merged(cmp, a[1..], [y] + b) else [y] + Merged(cmp, a, b)
  {
    assert ([y] + b)[1..] == b;
  }

  lemma Heads<E>(cmp: (E, E) -> int, a: seq<E>, b: seq<E>)
    requires a != [] && b != []
    ensures Merged(cmp, a, b)
         == if cmp(a[0], b[0]) <= 0 then [a[0]] + Merged(cmp, a[1..], b) else [b[0]] + Merged(cmp, a, b[1..])
  {
  }

  lemma Ordered<E>(cmp: (E, E) -> int, all: set<E>, x: E, y: E, z: E)
    requires Consistent(cmp, all) && x in all && y in all && z in all
    ensures cmp(x, y) <= 0 && cmp(y, z) <= 0 ==> cmp(x, z) <= 0
    ensures cmp(x, y) <= 0 && cmp(x, z) > 0 ==> cmp(y, z) > 0
    ensures cmp(x, y) > 0 && cmp(y, z) > 0 ==> cmp(x, z) > 0
  {
    assert Transitive(cmp, x, y, z) && Transitive(cmp, z, y, x);
  }

  lemma TailsWithin<E>(s: seq<E>, all: set<E>)
    requires s != [] && Within(s, all)
    ensures s[0] in all && Within(s[1..], all)
  {
  }

  /** Merging is associative, which is why the shape of the merge tree that
      list_sort happens to build does not matter. */
  lemma {:induction false} MergedAssociative<E>(cmp: (E, E) -> int, all: set<E>, a: seq<E>, b: seq<E>, c: seq<E>)
    requires Consistent(cmp, all) && Within(a, all) && Within(b, all) && Within(c, all)
    ensures Merged(cmp, Merged(cmp, a, b), c) == Merged(cmp, a, Merged(cmp, b, c))
    decreases |a| + |b| + |c|
  {
    if a != [] && b != [] && c != [] {
      var x, y, z := a[0], b[0], c[0];
      TailsWithin(a, all);
      TailsWithin(b, all);
      TailsWithin(c, all);
      hide Merged, Within;
      Ordered(cmp, all, x, y, z);
      hide Consistent;
      Heads(cmp, a, b);
      Heads(cmp, b, c);
      if cmp(x, z) > 0 && cmp(y, z) > 0 {
        // c has the least head
        MergedAssociative(cmp, all, a, b, c[1..]);
        HeadSecond(cmp, a, z, Merged(cmp, b, c[1..]));
        if cmp(x, y) <= 0 {
          HeadFirst(cmp, x, Merged(cmp, a[1..], b), c);
        } else {
          HeadFirst(cmp, y, Merged(cmp, a, b[1..]), c);
        }
      } else if cmp(x, y) <= 0 {
        MergedAssociative(cmp, all, a[1..], b, c);
        HeadFirst(cmp, x, Merged(cmp, a[1..], b), c);
        if cmp(y, z) <= 0 {
          HeadSecond(cmp, a, y, Merged(cmp, b[1..], c));
        } else {
          HeadSecond(cmp, a, z, Merged(cmp, b, c[1..]));
        }
      } else {
        MergedAssociative(cmp, all, a, b[1..], c);
        HeadFirst(cmp, y, Merged(cmp, a, b[1..]), c);
        HeadSecond(cmp, a, y, Merged(cmp, b[1..], c));
      }
    } else {
      assert Merged(cmp, [], c) == c && Merged(cmp, [], Merged(cmp, b, c)) == Merged(cmp, b, c);
    }
  }

  /** Merging the sorted halves of a list sorts the list. */
  lemma {:induction false} SortOfConcat<E>(cmp: (E, E) -> int, all: set<E>, s: seq<E>, t: seq<E>)
    requires Consistent(cmp, all) && Within(s, all) && Within(t, all)
    ensures Merged(cmp, StableSort(cmp, s), StableSort(cmp, t)) == StableSort(cmp, s + t)
  {
    if s == [] {
      assert s + t == t;
    } else {
      var s' := s[1..];
      assert (s + t)[1..] == s' + t;
      SortWithin(cmp, all, s');
      SortWithin(cmp, all, t);
      MergedAssociative(cmp, all, [s[0]], StableSort(cmp, s'), StableSort(cmp, t));
      SortOfConcat(cmp, all, s', t);
    }
  }

  ghost predicate Sorted<E>(cmp: (E, E) -> int, s: seq<E>) {
    forall i, j :: 0 <= i < j < |s| ==> cmp(s[i], s[j]) <= 0
  }

  ghost predicate Below<E>(cmp: (E, E) -> int, x: E, s: seq<E>) {
    forall i :: 0 <= i < |s| ==> cmp(x, s[i]) <= 0
  }

  lemma {:induction false} BelowMerged<E>(cmp: (E, E) -> int, x: E, a: seq<E>, b: seq<E>)
    requires Below(cmp, x, a) && Below(cmp, x, b)
    ensures Below(cmp, x, Merged(cmp, a, b))
    decreases |a| + |b|
  {
    if a != [] && b != [] {
      if cmp(a[0], b[0]) <= 0 {
        BelowMerged(cmp, x, a[1..], b);
      } else {
        BelowMerged(cmp, x, a, b[1..]);
      }
    }
  }

  lemma {:induction false} SortedFromHead<E>(cmp: (E, E) -> int, x: E, s: seq<E>)
    requires Sorted(cmp, s) && Below(cmp, x, s)
    ensures Sorted(cmp, [x] + s)
  {
  }

  lemma {:induction false} MergedIsSorted<E>(cmp: (E, E) -> int, all: set<E>, a: seq<E>, b: seq<E>)
    requires Consistent(cmp, all) && Within(a, all) && Within(b, all)
    requires Sorted(cmp, a) && Sorted(cmp, b)
    ensures Sorted(cmp, Merged(cmp, a, b))
    decreases |a| + |b|
  {
    if a != [] && b != [] {
      if cmp(a[0], b[0]) <= 0 {
        MergedIsSorted(cmp, all, a[1..], b);
        HeadBelow(cmp, all, a[0], b);
        BelowMerged(cmp, a[0], a[1..], b);
        SortedFromHead(cmp, a[0], Merged(cmp, a[1..], b));
      } else {
        MergedIsSorted(cmp, all, a, b[1..]);
        HeadBelow(cmp, all, b[0], a);
        BelowMerged(cmp, b[0], a, b[1..]);
        SortedFromHead(cmp, b[0], Merged(cmp, a, b[1..]));
      }
    }
  }

  lemma HeadBelow<E>(cmp: (E, E) -> int, all: set<E>, x: E, s: seq<E>)
    requires Consistent(cmp, all) && Within(s, all) && Sorted(cmp, s) && x in all
    requires s != [] && cmp(x, s[0]) <= 0
    ensures Below(cmp, x, s)
  {
    forall i | 0 <= i < |s| ensures cmp(x, s[i]) <= 0 {
      assert i > 0 ==> cmp(s[0], s[i]) <= 0;
      assert Transitive(cmp, x, s[0], s[i]);
    }
  }

  // The elements that compare equal to x, in order.
  ghost function Equals<E>(cmp: (E, E) -> int, x: E, s: seq<E>): seq<E> {
    if s == [] then []
    else (if cmp(x, s[0]) == 0 then [s[0]] else []) + Equals(cmp, x, s[1..])
  }

  lemma {:induction false} NoEqualsBeyond<E>(cmp: (E, E) -> int, x: E, s: seq<E>)
    requires forall i :: 0 <= i < |s| ==> cmp(x, s[i]) != 0
    ensures Equals(cmp, x, s) == []
  {
    if s != [] {
      NoEqualsBeyond(cmp, x, s[1..]);
    }
  }

  // A sorted list that starts above y has nothing equal to y's equals.
  lemma NoneEqual<E>(cmp: (E, E) -> int, all: set<E>, x: E, y: E, s: seq<E>)
    requires Consistent(cmp, all) && Within(s, all) && Sorted(cmp, s) && x in all && y in all
    requires s != [] && cmp(s[0], y) > 0 && cmp(x, y) == 0
    ensures Equals(cmp, x, s) == []
  {
    forall i | 0 <= i < |s| ensures cmp(x, s[i]) != 0 {
      assert i > 0 ==> cmp(s[0], s[i]) <= 0;
      assert Transitive(cmp, s[0], s[i], y) && Transitive(cmp, s[i], x, y);
    }
    NoEqualsBeyond(cmp, x, s);
  }

  ghost function IfEqual<E>(cmp: (E, E) -> int, x: E, y: E): seq<E> {
    if cmp(x, y) == 0 then [y] else []
  }

  lemma EqualsCons<E>(cmp: (E, E) -> int, x: E, y: E, s: seq<E>)
    ensures Equals(cmp, x, [y] + s) == IfEqual(cmp, x, y) + Equals(cmp, x, s)
  {
    assert ([y] + s)[1..] == s;
  }

  lemma TailSorted<E>(cmp: (E, E) -> int, all: set<E>, s: seq<E>)
    requires s != [] && Sorted(cmp, s) && Within(s, all)
    ensures Sorted(cmp, s[1..]) && Within(s[1..], all) && s[0] in all
  {
  }

  lemma EqualsUnfold<E>(cmp: (E, E) -> int, x: E, s: seq<E>)
    requires s != []
    ensures Equals(cmp, x, s) == IfEqual(cmp, x, s[0]) + Equals(cmp, x, s[1..])
  {
  }

  lemma Reassociated<E>(e: seq<E>, p: seq<E>, q: seq<E>)
    ensures e + (p + q) == (e + p) + q
    ensures e == [] || p == [] ==> e + (p + q) == p + (e + q)
  {
  }

  /** Merging sorted lists keeps the equals of the first before those of the second. */
  lemma {:induction false} MergedIsStable<E>(cmp: (E, E) -> int, all: set<E>, x: E, a: seq<E>, b: seq<E>)
    requires Consistent(cmp, all) && Within(a, all) && Within(b, all) && x in all
    requires Sorted(cmp, a) && Sorted(cmp, b)
    ensures Equals(cmp, x, Merged(cmp, a, b)) == Equals(cmp, x, a) + Equals(cmp, x, b)
    decreases |a| + |b|
  {
    if a == [] || b == [] {
      assert Equals(cmp, x, []) == [];
    } else if cmp(a[0], b[0]) <= 0 {
      TakesFirst(cmp, all, x, a, b);
    } else {
      TakesSecond(cmp, all, x, a, b);
    }
  }

  lemma TakesFirst<E>(cmp: (E, E) -> int, all: set<E>, x: E, a: seq<E>, b: seq<E>)
    requires Consistent(cmp, all) && Within(a, all) && Within(b, all) && x in all
    requires Sorted(cmp, a) && Sorted(cmp, b) && a != [] && b != [] && cmp(a[0], b[0]) <= 0
    ensures Equals(cmp, x, Merged(cmp, a, b)) == Equals(cmp, x, a) + Equals(cmp, x, b)
    decreases |a| + |b|, 0
  {
    assert Merged(cmp, a, b) == [a[0]] + Merged(cmp, a[1..], b);
    TailSorted(cmp, all, a);
    EqualsUnfold(cmp, x, a);
    hide Consistent, Within, Sorted, Merged, Equals;
    MergedIsStable(cmp, all, x, a[1..], b);
    EqualsCons(cmp, x, a[0], Merged(cmp, a[1..], b));
    Reassociated(IfEqual(cmp, x, a[0]), Equals(cmp, x, a[1..]), Equals(cmp, x, b));
  }

  lemma TakesSecond<E>(cmp: (E, E) -> int, all: set<E>, x: E, a: seq<E>, b: seq<E>)
    requires Consistent(cmp, all) && Within(a, all) && Within(b, all) && x in all
    requires Sorted(cmp, a) && Sorted(cmp, b) && a != [] && b != [] && cmp(a[0], b[0]) > 0
    ensures Equals(cmp, x, Merged(cmp, a, b)) == Equals(cmp, x, a) + Equals(cmp, x, b)
    decreases |a| + |b|, 0
  {
    assert Merged(cmp, a, b) == [b[0]] + Merged(cmp, a, b[1..]);
    TailSorted(cmp, all, b);
    EqualsUnfold(cmp, x, b);
    hide Consistent, Within, Sorted, Merged, Equals;
    MergedIsStable(cmp, all, x, a, b[1..]);
    EqualsCons(cmp, x, b[0], Merged(cmp, a, b[1..]));
    if cmp(x, b[0]) == 0 {
      NoneEqual(cmp, all, x, b[0], a);
    }
    Reassociated(IfEqual(cmp, x, b[0]), Equals(cmp, x, a), Equals(cmp, x, b[1..]));
  }

  /** The reference deserves its name: sorted, a permutation, and elements that
      compare equal keep their order. */
  lemma {:induction false} StableSortIsSorted<E>(cmp: (E, E) -> int, all: set<E>, s: seq<E>)
    requires Consistent(cmp, all) && Within(s, all)
    ensures Sorted(cmp, StableSort(cmp, s))
  {
    if s != [] {
      StableSortIsSorted(cmp, all, s[1..]);
      SortWithin(cmp, all, s[1..]);
      MergedIsSorted(cmp, all, [s[0]], StableSort(cmp, s[1..]));
    }
  }

  lemma {:induction false} StableSortIsStable<E>(cmp: (E, E) -> int, all: set<E>, x: E, s: seq<E>)
    requires Consistent(cmp, all) && Within(s, all) && x in all
    ensures Equals(cmp, x, StableSort(cmp, s)) == Equals(cmp, x, s)
  {
    if s != [] {
      StableSortIsStable(cmp, all, x, s[1..]);
      StableSortIsSorted(cmp, all, s[1..]);
      SortWithin(cmp, all, s[1..]);
      MergedIsStable(cmp, all, x, [s[0]], StableSort(cmp, s[1..]));
      EqualsCons(cmp, x, s[0], []);
      assert [s[0]] + [] == [s[0]];
    }
  }

  // r is what sorting s gives: always a permutation, and the stable sort when the
  // comparison is consistent.
  ghost predicate SortOf<E>(cmp: (E, E) -> int, r: seq<E>, s: seq<E>) {
    && multiset(r) == multiset(s)
    && (Consistent(cmp, set x | x in s) ==> r == StableSort(cmp, s))
  }

  lemma SortOfMerged<E>(cmp: (E, E) -> int, r: seq<E>, s: seq<E>, r': seq<E>, s': seq<E>)
    requires SortOf(cmp, r, s) && SortOf(cmp, r', s')
    ensures SortOf(cmp, Merged(cmp, r, r'), s + s')
  {
    MergedPermutes(cmp, r, r');
    var all := set x | x in s + s';
    if Consistent(cmp, all) {
      assert Within(s + s', all);
      assert forall i :: 0 <= i < |s| ==> s[i] == (s + s')[i];
      assert forall i :: 0 <= i < |s'| ==> s'[i] == (s + s')[|s| + i];
      SortOfConcat(cmp, all, s, s');
    }
  }
}
