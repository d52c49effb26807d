/** Splitting and joining in model/c-skeleton/src/lcthw/bstrlib.c, and what one undoes of
    the other. */
module BstrSplit {
  import opened BstrReplace
  import opened BstrSearch
  import opened Bytes

  // ----- What the loops compute -----

  // From o on, look for the next separator; the current piece began at p.  gap is how
  // far behind a separator the search goes on: bsplitcb goes on at once, but the loop
  // of bsplitstrcb steps once more, over the first byte behind the separator.
  ghost function Pieces(s: seq<byte>, sep: seq<byte>, p: nat, o: nat, gap: nat): (l: seq<seq<byte>>)
    requires sep != [] && p <= |s| && p <= o
    ensures l != []
    decreases |s| - o
  {
    if o + |sep| > |s| then [s[p..]]
    else if s[o..o + |sep|] == sep then [s[p..o]] + Pieces(s, sep, o + |sep|, o + |sep| + gap, gap)
    else Pieces(s, sep, p, o + 1, gap)
  }

  ghost function Chars(s: seq<byte>, pos: nat): seq<seq<byte>>
    requires pos <= |s|
    decreases |s| - pos
  {
    if pos == |s| then [] else [[s[pos]]] + Chars(s, pos + 1)
  }

  // bsplitstr: with an empty separator each byte is a piece of its own.
  ghost function SplitStr(s: seq<byte>, sep: seq<byte>, pos: nat): seq<seq<byte>>
    requires pos <= |s|
  {
    if sep == [] then Chars(s, pos) else Pieces(s, sep, pos, pos, if |sep| == 1 then 0 else 1)
  }

  ghost function Join(l: seq<seq<byte>>, sep: seq<byte>): seq<byte> {
    if l == [] then [] else if |l| == 1 then l[0] else l[0] + sep + Join(l[1..], sep)
  }

  // ----- Join after split -----

  lemma JoinOfCons(x: seq<byte>, rest: seq<seq<byte>>, sep: seq<byte>)
    requires rest != []
    ensures Join([x] + rest, sep) == x + sep + Join(rest, sep)
  {
    assert ([x] + rest)[1..] == rest;
  }

  lemma Cut3(s: seq<byte>, p: nat, o: nat, q: nat)
    requires p <= o <= q <= |s|
    ensures s[p..] == s[p..o] + s[o..q] + s[q..]
  {
  }

  lemma JoinBefore(s: seq<byte>, sep: seq<byte>, p: nat, o: nat, rest: seq<seq<byte>>)
    requires p <= o && o + |sep| <= |s| && s[o..o + |sep|] == sep && rest != [] && Join(rest, sep) == s[o + |sep|..]
    ensures Join([s[p..o]] + rest, sep) == s[p..]
  {
    hide Join;
    JoinOfCons(s[p..o], rest, sep);
    Cut3(s, p, o, o + |sep|);
  }

  lemma {:induction false} JoinOfPieces(s: seq<byte>, sep: seq<byte>, p: nat, o: nat, gap: nat)
    requires sep != [] && p <= |s| && p <= o
    ensures Join(Pieces(s, sep, p, o, gap), sep) == s[p..]
    decreases |s| - o
  {
    hide Pieces, Join;
    PiecesUnfold(s, sep, p, o, gap);
    if o + |sep| > |s| {
      JoinOfOne(s[p..], sep);
    } else if s[o..o + |sep|] == sep {
      var q := o + |sep|;
      JoinOfPieces(s, sep, q, q + gap, gap);
      PiecesNotEmpty(s, sep, q, q + gap, gap);
      JoinBefore(s, sep, p, o, Pieces(s, sep, q, q + gap, gap));
    } else {
      JoinOfPieces(s, sep, p, o + 1, gap);
    }
  }

  lemma JoinOfOne(x: seq<byte>, sep: seq<byte>)
    ensures Join([x], sep) == x
  {
  }

  lemma {:induction false} JoinOfChars(s: seq<byte>, pos: nat)
    requires pos <= |s|
    ensures Join(Chars(s, pos), []) == s[pos..]
    decreases |s| - pos
  {
    if pos < |s| {
      JoinOfChars(s, pos + 1);
      var rest := Chars(s, pos + 1);
      assert ([[s[pos]]] + rest)[1..] == rest;
      assert s[pos..] == [s[pos]] + s[pos + 1..];
    }
  }

  /** Joining what was split gives back the string from pos on, for every string and
      separator, the empty one included. */
  lemma JoinOfSplit(s: seq<byte>, sep: seq<byte>, pos: nat)
    requires pos <= |s|
    ensures Join(SplitStr(s, sep, pos), sep) == s[pos..]
    ensures sep != [] ==> Join(Pieces(s, sep, pos, pos, 0), sep) == s[pos..]
  {
    JoinOfChars(s, pos);
    if sep != [] {
      JoinOfPieces(s, sep, pos, pos, 0);
      JoinOfPieces(s, sep, pos, pos, 1);
    }
  }

  lemma {:induction false} CharsOfSuffix(s: seq<byte>, pos: nat, d: nat)
    requires pos + d <= |s|
    ensures Chars(s, pos + d) == Chars(s[pos..], d)
    decreases |s| - d
  {
    if pos + d < |s| {
      CharsOfSuffix(s, pos, d + 1);
    }
  }

  /** Splitting from pos on is splitting what is there from pos on. */
  lemma SplitOfSuffix(s: seq<byte>, sep: seq<byte>, pos: nat)
    requires pos <= |s|
    ensures SplitStr(s, sep, pos) == SplitStr(s[pos..], sep, 0)
    ensures sep != [] ==> Pieces(s, sep, pos, pos, 0) == Pieces(s[pos..], sep, 0, 0, 0)
  {
    CharsOfSuffix(s, pos, 0);
    if sep != [] {
      PiecesOfSuffix(s, s[pos..], sep, pos, 0, 0, 0);
      PiecesOfSuffix(s, s[pos..], sep, pos, 0, 0, 1);
    }
  }

  // ----- Split after join -----

  // A piece, and the separator behind it if there is one.
  function Window(x: seq<byte>, sep: seq<byte>, last: bool): seq<byte> {
    if last then x else x + sep
  }

  // The piece x survives a split: from off on the separator occurs in it nowhere, not
  // even reaching into the separator behind it, which itself is not missed.
  ghost predicate Clean(x: seq<byte>, sep: seq<byte>, off: nat, last: bool) {
    && (last || off <= |x|)
    && forall t :: off <= t < |x| ==> !MatchAt(Exact, Window(x, sep, last), sep, t)
  }

  ghost predicate CleanList(l: seq<seq<byte>>, sep: seq<byte>, off: nat, gap: nat) {
    l != [] && Clean(l[0], sep, off, |l| == 1) && (|l| > 1 ==> CleanList(l[1..], sep, gap, gap))
  }

  lemma MatchIsSlice(s: seq<byte>, sep: seq<byte>, o: nat)
    ensures MatchAt(Exact, s, sep, o) <==> o + |sep| <= |s| && s[o..o + |sep|] == sep
  {
    if o + |sep| <= |s| {
      var w := s[o..o + |sep|];
      assert forall k :: 0 <= k < |sep| ==> w[k] == s[o + k];
    }
  }

  // A match seen through a window on s.
  lemma MatchInWindow(s: seq<byte>, sep: seq<byte>, p: nat, q: nat, t: nat)
    requires p <= q <= |s| && MatchAt(Exact, s[p..q], sep, t)
    ensures MatchAt(Exact, s, sep, p + t)
  {
    forall k | 0 <= k < |sep|
      ensures sep[k] == s[p + t + k]
    {
      assert Exact.Fold(sep[k]) == Exact.Fold(s[p..q][t + k]);
    }
  }

  lemma InnerIsClean(s: seq<byte>, sep: seq<byte>, p: nat, o: nat, off: nat)
    requires p + off <= o && o + |sep| <= |s| && s[o..o + |sep|] == sep
    requires forall t :: p + off <= t < o ==> !MatchAt(Exact, s, sep, t)
    ensures Clean(s[p..o], sep, off, false)
  {
    var q := o + |sep|;
    assert Window(s[p..o], sep, false) == s[p..q];
    forall t | off <= t < |s[p..o]|
      ensures !MatchAt(Exact, s[p..q], sep, t)
    {
      if MatchAt(Exact, s[p..q], sep, t) {
        MatchInWindow(s, sep, p, q, t);
      }
    }
  }

  lemma LastIsClean(s: seq<byte>, sep: seq<byte>, p: nat, o: nat, off: nat)
    requires p <= |s| && p + off <= o && o + |sep| > |s|
    requires forall t :: p + off <= t < o ==> !MatchAt(Exact, s, sep, t)
    ensures Clean(s[p..], sep, off, true)
  {
    assert Window(s[p..], sep, true) == s[p..|s|];
    forall t | off <= t < |s[p..]|
      ensures !MatchAt(Exact, s[p..|s|], sep, t)
    {
      if MatchAt(Exact, s[p..|s|], sep, t) {
        MatchInWindow(s, sep, p, |s|, t);
      }
    }
  }

  lemma {:induction false} PiecesAreClean(s: seq<byte>, sep: seq<byte>, p: nat, o: nat, gap: nat, off: nat)
    requires sep != [] && p <= |s| && p + off <= o
    requires forall t :: p + off <= t < o ==> !MatchAt(Exact, s, sep, t)
    ensures CleanList(Pieces(s, sep, p, o, gap), sep, off, gap)
    decreases |s| - o
  {
    hide Pieces, MatchAt, Clean, CleanList;
    MatchIsSlice(s, sep, o);
    PiecesUnfold(s, sep, p, o, gap);
    if o + |sep| > |s| {
      LastIsClean(s, sep, p, o, off);
      CleanOne(s[p..], sep, off, gap);
    } else if s[o..o + |sep|] == sep {
      var q := o + |sep|;
      InnerIsClean(s, sep, p, o, off);
      PiecesAreClean(s, sep, q, q + gap, gap, gap);
      PiecesNotEmpty(s, sep, q, q + gap, gap);
      CleanCons(s[p..o], Pieces(s, sep, q, q + gap, gap), sep, off, gap);
    } else {
      PiecesAreClean(s, sep, p, o + 1, gap, off);
    }
  }

  lemma CleanOne(x: seq<byte>, sep: seq<byte>, off: nat, gap: nat)
    requires Clean(x, sep, off, true)
    ensures CleanList([x], sep, off, gap)
  {
  }

  lemma PiecesNotEmpty(s: seq<byte>, sep: seq<byte>, p: nat, o: nat, gap: nat)
    requires sep != [] && p <= |s| && p <= o
    ensures Pieces(s, sep, p, o, gap) != []
  {
  }

  lemma CleanCons(x: seq<byte>, rest: seq<seq<byte>>, sep: seq<byte>, off: nat, gap: nat)
    requires rest != [] && Clean(x, sep, off, false) && CleanList(rest, sep, gap, gap)
    ensures CleanList([x] + rest, sep, off, gap)
  {
    assert ([x] + rest)[1..] == rest;
  }

  lemma PiecesUnfold(s: seq<byte>, sep: seq<byte>, p: nat, o: nat, gap: nat)
    requires sep != [] && p <= |s| && p <= o
    ensures o + |sep| > |s| ==> Pieces(s, sep, p, o, gap) == [s[p..]]
    ensures o + |sep| <= |s| && s[o..o + |sep|] == sep
            ==> Pieces(s, sep, p, o, gap) == [s[p..o]] + Pieces(s, sep, o + |sep|, o + |sep| + gap, gap)
    ensures o + |sep| <= |s| && s[o..o + |sep|] != sep ==> Pieces(s, sep, p, o, gap) == Pieces(s, sep, p, o + 1, gap)
  {
  }

  // Slices of a suffix.
  lemma SliceOfSuffix<T>(s: seq<T>, u: seq<T>, d: nat, p: nat, o: nat)
    requires d + o <= |s| && p <= o && u == s[d..]
    ensures s[d + p..d + o] == u[p..o] && s[d + p..] == u[p..]
  {
  }

  // The split of a suffix.
  lemma {:induction false} PiecesOfSuffix(s: seq<byte>, u: seq<byte>, sep: seq<byte>, d: nat, p: nat, o: nat, gap: nat)
    requires sep != [] && d + p <= |s| && p <= o && u == s[d..]
    ensures Pieces(s, sep, d + p, d + o, gap) == Pieces(u, sep, p, o, gap)
    decreases |s| - o
  {
    hide Pieces;
    PiecesUnfold(s, sep, d + p, d + o, gap);
    PiecesUnfold(u, sep, p, o, gap);
    if d + o + |sep| > |s| {
      SliceOfSuffix(s, u, d, p, p);
    } else {
      SliceOfSuffix(s, u, d, o, o + |sep|);
      SliceOfSuffix(s, u, d, p, o);
      if u[o..o + |sep|] == sep {
        PiecesOfSuffix(s, u, sep, d, o + |sep|, o + |sep| + gap, gap);
      } else {
        PiecesOfSuffix(s, u, sep, d, p, o + 1, gap);
      }
    }
  }

  lemma {:induction false} ScanTo(s: seq<byte>, sep: seq<byte>, p: nat, o: nat, m: nat, gap: nat)
    requires sep != [] && p <= |s| && p <= o <= m
    requires forall t :: o <= t < m ==> !MatchAt(Exact, s, sep, t)
    ensures Pieces(s, sep, p, o, gap) == Pieces(s, sep, p, m, gap)
    decreases m - o
  {
    if o < m {
      MatchIsSlice(s, sep, o);
      ScanTo(s, sep, p, o + 1, m, gap);
    }
  }

  lemma {:induction false} CleanListSurvives(l: seq<seq<byte>>, sep: seq<byte>, off: nat, gap: nat)
    requires sep != [] && CleanList(l, sep, off, gap)
    ensures Pieces(Join(l, sep), sep, 0, off, gap) == l
    decreases |l|
  {
    var s, x := Join(l, sep), l[0];
    if |l| == 1 {
      assert Window(x, sep, true) == s && s[0..] == s;
      ScanTo(s, sep, 0, off, if off < |x| then |x| else off, gap);
    } else {
      FirstPiece(x, sep, Join(l[1..], sep), off, gap);
      CleanListSurvives(l[1..], sep, gap, gap);
    }
  }

  // Up to its separator, a clean piece is scanned without a match.
  lemma FirstPiece(x: seq<byte>, sep: seq<byte>, tail: seq<byte>, off: nat, gap: nat)
    requires sep != [] && Clean(x, sep, off, false)
    ensures Pieces(x + sep + tail, sep, 0, off, gap) == [x] + Pieces(tail, sep, 0, gap, gap)
  {
    var s := x + sep + tail;
    Headed(x, sep, tail);
    forall t | off <= t < |x|
      ensures !MatchAt(Exact, s, sep, t)
    {
      if MatchAt(Exact, s, sep, t) {
        MatchInPrefix(s, Window(x, sep, false), sep, t);
      }
    }
    ScanTo(s, sep, 0, off, |x|, gap);
    PiecesOfSuffix(s, tail, sep, |x| + |sep|, 0, gap, gap);
  }

  lemma Headed<T>(x: seq<T>, sep: seq<T>, tail: seq<T>)
    ensures var s := x + sep + tail;
            s[0..|x|] == x && s[|x|..|x| + |sep|] == sep && s[|x| + |sep|..] == tail && s[..|x| + |sep|] == x + sep
  {
  }

  lemma MatchInPrefix(s: seq<byte>, w: seq<byte>, sep: seq<byte>, t: nat)
    requires |w| <= |s| && s[..|w|] == w && MatchAt(Exact, s, sep, t) && t + |sep| <= |w|
    ensures MatchAt(Exact, w, sep, t)
  {
    forall k | 0 <= k < |sep|
      ensures sep[k] == w[t + k]
    {
      assert Exact.Fold(sep[k]) == Exact.Fold(s[t + k]) && w[t + k] == s[..|w|][t + k];
    }
  }

  /** Splitting what was joined gives the list back exactly when no entry hides a
      separator, and when, where the search skips a byte behind each separator, no entry
      between two others is empty. */
  lemma SplitOfJoin(l: seq<seq<byte>>, sep: seq<byte>, gap: nat)
    requires sep != []
    ensures Pieces(Join(l, sep), sep, 0, 0, gap) == l <==> CleanList(l, sep, 0, gap)
  {
    PiecesAreClean(Join(l, sep), sep, 0, 0, gap, 0);
    if CleanList(l, sep, 0, gap) {
      CleanListSurvives(l, sep, 0, gap);
    }
  }

  /** For a split character: exactly the non-empty lists whose entries lack it. */
  lemma {:induction false} CleanOfChar(l: seq<seq<byte>>, c: byte)
    ensures CleanList(l, [c], 0, 0) <==> l != [] && forall k :: 0 <= k < |l| ==> c !in l[k]
    decreases |l|
  {
    if l != [] {
      CleanPiece(l[0], c, |l| == 1);
      if |l| > 1 {
        CleanOfChar(l[1..], c);
        assert forall k :: 1 <= k < |l| ==> l[k] == l[1..][k - 1];
        assert forall k :: 0 <= k < |l| - 1 ==> l[1..][k] == l[k + 1];
      }
    }
  }

  lemma CleanPiece(x: seq<byte>, c: byte, last: bool)
    ensures Clean(x, [c], 0, last) <==> c !in x
  {
    var w := Window(x, [c], last);
    forall t | 0 <= t < |x|
      ensures MatchAt(Exact, w, [c], t) <==> x[t] == c
    {
      assert w[t] == x[t];
      if x[t] == c {
        assert forall k :: 0 <= k < |[c]| ==> [c][k] == w[t + k];
      } else {
        assert [c][0] != w[t + 0];
      }
    }
    if c in x {
      var t :| 0 <= t < |x| && x[t] == c;
      assert MatchAt(Exact, w, [c], t);
    }
  }

  lemma SplitOfJoinByChar(l: seq<seq<byte>>, c: byte)
    ensures Pieces(Join(l, [c]), [c], 0, 0, 0) == l <==> l != [] && forall k :: 0 <= k < |l| ==> c !in l[k]
  {
    SplitOfJoin(l, [c], 0);
    CleanOfChar(l, c);
  }

  // ----- The split that bsplitstrcb should make -----

  // No two separators next to each other: no piece between two others is empty.
  ghost predicate NoneAdjacent(l: seq<seq<byte>>) {
    forall k :: 0 < k < |l| - 1 ==> l[k] != []
  }

  // Skipping one byte is harmless when no inner piece is empty.
  lemma {:induction false} CleanWithGap(l: seq<seq<byte>>, sep: seq<byte>, off: nat)
    requires off <= 1 && CleanList(l, sep, 0, 0)
    ensures CleanList(l, sep, off, 1)
       <==> (off == 1 && |l| > 1 ==> l[0] != []) && forall k :: 0 < k < |l| - 1 ==> l[k] != []
    decreases |l|
  {
    if |l| > 1 {
      CleanWithGap(l[1..], sep, 1);
      assert forall k :: 0 < k < |l| ==> l[k] == l[1..][k - 1];
      assert forall k :: 0 <= k < |l| - 1 ==> l[1..][k] == l[k + 1];
    }
  }

  /** bsplitstrcb steps over the first byte behind a separator, so it splits as it should
      exactly when no separator follows directly on another. */
  lemma SplitStrIsRight(s: seq<byte>, sep: seq<byte>)
    requires |sep| > 1
    ensures SplitStr(s, sep, 0) == Pieces(s, sep, 0, 0, 0) <==> NoneAdjacent(Pieces(s, sep, 0, 0, 0))
  {
    var l := Pieces(s, sep, 0, 0, 0);
    PiecesAreClean(s, sep, 0, 0, 0, 0);
    PiecesAreClean(s, sep, 0, 0, 1, 0);
    CleanWithGap(l, sep, 0);
    JoinOfSplit(s, sep, 0);
    assert s[0..] == s;
    SplitOfJoin(l, sep, 1);
  }

  /** It does not always: of two separators in a row it sees only the first. */
  lemma SecondSeparatorMissed(a: byte, b: byte)
    ensures Pieces([a, b, a, b], [a, b], 0, 0, 0) == [[], [], []]
    ensures SplitStr([a, b, a, b], [a, b], 0) == [[], [a, b]]
  {
    var s, sep := [a, b, a, b], [a, b];
    assert s[0..2] == sep && s[2..4] == sep && s[0..0] == [] && s[2..2] == [] && s[4..] == [] && s[2..] == sep;
    assert Pieces(s, sep, 4, 4, 0) == [[]];
    assert Pieces(s, sep, 2, 2, 0) == [[]] + [[]];
    assert Pieces(s, sep, 2, 3, 1) == [sep];
  }

  /** The comment over bsplitstrcb promises the whole string, once, for an empty
      separator.  The code hands out single bytes, which is that for one byte only. */
  lemma EmptySeparator(s: seq<byte>)
    ensures SplitStr(s, [], 0) == [s] <==> |s| == 1
  {
    if |s| == 1 {
      assert Chars(s, 1) == [] && [s[0]] == s;
    } else if |s| > 1 {
      assert SplitStr(s, [], 0)[0] == [s[0]];
    }
  }

  /** Two bytes come out as two pieces, and of the empty string nothing comes out. */
  lemma EmptySeparatorSplitsAll(a: byte, b: byte)
    ensures SplitStr([a, b], [], 0) == [[a], [b]] && SplitStr([], [], 0) == []
  {
    assert Chars([a, b], 2) == [];
    assert Chars([a, b], 1) == [[b]];
  }

  // ----- Replacement is split and join -----

  lemma {:induction false} PiecesFind(s: seq<byte>, sep: seq<byte>, p: nat, o: nat)
    requires sep != [] && p <= o <= |s|
    ensures Find(Exact, s, sep, o) < 0 ==> Pieces(s, sep, p, o, 0) == [s[p..]]
    ensures Find(Exact, s, sep, o) >= 0
            ==> var r := Find(Exact, s, sep, o);
                && o <= r && r + |sep| <= |s|
                && Pieces(s, sep, p, o, 0) == [s[p..r]] + Pieces(s, sep, r + |sep|, r + |sep|, 0)
    decreases |s| - o
  {
    MatchIsSlice(s, sep, o);
    PiecesUnfold(s, sep, p, o, 0);
    hide Pieces, MatchAt;
    if o + |sep| <= |s| && s[o..o + |sep|] != sep {
      PiecesFind(s, sep, p, o + 1);
    }
  }

  /** The simple rewriting that bfindreplace performs is the split at the pattern, joined
      again by the replacement. */
  lemma {:induction false} ReplaceIsSplitAndJoin(s: seq<byte>, find: seq<byte>, repl: seq<byte>, pos: nat)
    requires find != [] && pos <= |s|
    ensures Rewrite(Exact, s, find, repl, pos) == Join(Pieces(s, find, pos, pos, 0), repl)
    decreases |s| - pos
  {
    hide Pieces, Find, FirstMatch, MatchAt;
    PiecesFind(s, find, pos, pos);
    FindIsFirst(Exact, s, find, pos);
    var r := Find(Exact, s, find, pos);
    if r >= 0 {
      ReplaceIsSplitAndJoin(s, find, repl, r + |find|);
      JoinOfCons(s[pos..r], Pieces(s, find, r + |find|, r + |find|, 0), repl);
    }
  }
}
