/** The loops of model/c-skeleton/src/lcthw/bstrlib.c that split a string into a growing
    list, and the one that joins a list. */
module BstrLists {
  import opened BstrReplace
  import opened BstrSearch
  import opened BstrSplit
  import opened Bytes

  // struct bstrList; an entry stands for the contents of its bstring.
  class BstrList {
    var qty: nat
    var mlen: nat
    var entry: array<seq<byte>>

    ghost predicate Valid()
      reads this
    {
      0 < mlen <= entry.Length && qty <= mlen
    }

    ghost function Contents(): seq<seq<byte>>
      requires Valid()
      reads this, entry
    {
      entry[..qty]
    }

    constructor ()
      ensures Valid() && Contents() == [] && fresh(entry)
    {
      entry := new seq<byte>[4](_ => []);
      qty, mlen := 0, 4;
    }

    // bstr__realloc of the table.
    method Grow()
      requires Valid() && qty == mlen
      modifies this
      ensures Valid() && qty == old(qty) < mlen && fresh(entry) && Contents() == old(Contents())
    {
      var tbl := new seq<byte>[2 * mlen](k requires 0 <= k reads this,
                                         entry => if k < qty <= entry.Length then entry[k] else []);
      assert tbl[..qty] == entry[..qty];
      entry, mlen := tbl, 2 * mlen;
    }

    /** bscb: the callback of both splitters appends a piece. */
    method Bscb(b: Bstring, ofs: nat, len: nat, mem: nat -> bool, n: nat) returns (ret: int, n': nat)
      requires Valid() && b.Sound() && b.Readable() && ofs + len <= b.slen
      modifies this, entry
      ensures n <= n' && (ret == BSTR_OK || (ret == BSTR_ERR && Refusal(mem, n, n')))
      ensures Valid() && (entry == old(entry) || fresh(entry))
      ensures ret == BSTR_OK ==> Contents() == old(Contents()) + [b.Content()[ofs..ofs + len]]
    {
      n' := n;
      if qty >= mlen {
        n' := n + 1;
        if !mem(n) {
          return BSTR_ERR, n';
        }
        Grow();
      }
      ghost var was := Contents();
      ghost var piece := b.Content()[ofs..ofs + len];
      assert forall k :: 0 <= k < len ==> piece[k] == b.data[ofs + k];
      assert b.data[ofs..ofs + len] == piece;
      entry[qty] := b.data[ofs..ofs + len];
      qty := qty + 1;
      assert entry[..qty - 1] == was;
      assert entry[..qty] == entry[..qty - 1] + [entry[qty - 1]];
      ret := BSTR_OK;
    }
  }

  lemma CharStep(s: seq<byte>, c: byte, p: nat, i: nat)
    requires p <= i < |s|
    ensures s[i] != c ==> Pieces(s, [c], p, i, 0) == Pieces(s, [c], p, i + 1, 0)
    ensures s[i] == c ==> Pieces(s, [c], p, i, 0) == [s[p..i]] + Pieces(s, [c], i + 1, i + 1, 0)
  {
    assert s[i..i + 1] == [s[i]];
  }

  lemma CharEnd(s: seq<byte>, c: byte, p: nat)
    requires p <= |s|
    ensures Pieces(s, [c], p, |s|, 0) == [s[p..|s|]]
  {
    assert s[p..] == s[p..|s|];
  }

  // The inner loop of bsplitcb: the next split character, or the end.
  method NextSplit(str: Bstring, splitChar: byte, p: nat) returns (i: nat)
    requires str.Sound() && str.Readable() && p <= str.slen
    ensures p <= i <= str.slen
    ensures Pieces(str.Content(), [splitChar], p, p, 0) == [str.Content()[p..i]]
              + if i < str.slen then Pieces(str.Content(), [splitChar], i + 1, i + 1, 0) else []
  {
    hide Pieces;
    ghost var s := str.Content();
    i := p;
    while i < str.slen && str.data[i] != splitChar
      invariant p <= i <= str.slen
      invariant Pieces(s, [splitChar], p, p, 0) == Pieces(s, [splitChar], p, i, 0)
    {
      CharStep(s, splitChar, p, i);
      i := i + 1;
    }
    if i < str.slen {
      CharStep(s, splitChar, p, i);
    } else {
      CharEnd(s, splitChar, p);
      assert [s[p..i]] + [] == [s[p..i]];
    }
  }

  // What is in the list, and what is still to come from p on.
  ghost predicate Splitting(done: seq<seq<byte>>, s: seq<byte>, sep: seq<byte>, p: nat, all: seq<seq<byte>>)
    requires sep != []
  {
    done + (if p <= |s| then Pieces(s, sep, p, p, 0) else []) == all
  }

  lemma OnePiece(done: seq<seq<byte>>, s: seq<byte>, sep: seq<byte>, p: nat, i: nat, all: seq<seq<byte>>)
    requires sep != [] && p <= i <= |s| && Splitting(done, s, sep, p, all)
    requires Pieces(s, sep, p, p, 0) == [s[p..i]] + if i < |s| then Pieces(s, sep, i + 1, i + 1, 0) else []
    ensures Splitting(done + [s[p..i]], s, sep, i + 1, all)
  {
    hide Pieces;
    var rest := if i < |s| then Pieces(s, sep, i + 1, i + 1, 0) else [];
    assert done + ([s[p..i]] + rest) == done + [s[p..i]] + rest;
  }

  // One round of bsplitcb.
  method SplitOne(str: Bstring, splitChar: byte, p: nat, bl: BstrList, mem: nat -> bool, n: nat,
                  ghost all: seq<seq<byte>>)
    returns (ret: int, p': nat, n': nat)
    requires str.Sound() && str.Readable() && bl.Valid() && p <= str.slen
    requires Splitting(bl.Contents(), str.Content(), [splitChar], p, all)
    modifies bl, bl.entry
    ensures n <= n' && p < p' <= str.slen + 1 && bl.Valid() && (bl.entry == old(bl.entry) || fresh(bl.entry))
    ensures ret == BSTR_OK || (ret == BSTR_ERR && Refusal(mem, n, n'))
    ensures ret == BSTR_OK ==> Splitting(bl.Contents(), str.Content(), [splitChar], p', all)
  {
    hide Pieces, Splitting;
    var i := NextSplit(str, splitChar, p);
    OnePiece(bl.Contents(), str.Content(), [splitChar], p, i, all);
    ret, n' := bl.Bscb(str, p, i - p, mem, n);
    p' := i + 1;
  }

  /** bsplitcb, calling bscb. */
  method Bsplitcb(str: Bstring, splitChar: byte, pos: int, bl: BstrList, mem: nat -> bool, n: nat)
    returns (ret: int, n': nat)
    requires str.Sound() && str.Readable() && bl.Valid()
    modifies bl, bl.entry
    ensures n <= n' && bl.Valid()
    ensures !(0 <= pos <= str.slen) ==> ret == BSTR_ERR && n' == n && bl.Contents() == old(bl.Contents())
    ensures 0 <= pos <= str.slen ==> ret == BSTR_OK || (ret == BSTR_ERR && Refusal(mem, n, n'))
    ensures 0 <= pos <= str.slen && ret == BSTR_OK
            ==> bl.Contents() == old(bl.Contents()) + Pieces(str.Content(), [splitChar], pos, pos, 0)
  {
    n' := n;
    if pos < 0 || pos > str.slen {
      return BSTR_ERR, n;
    }
    hide Pieces, Splitting;
    ghost var s, sep := str.Content(), [splitChar];
    ghost var all := bl.Contents() + Pieces(s, sep, pos, pos, 0);
    var p: nat := pos;
    SplittingStarts(bl.Contents(), s, sep, p);
    while p <= str.slen
      invariant p <= str.slen + 1 && n <= n' && bl.Valid() && (bl.entry == old(bl.entry) || fresh(bl.entry))
      invariant Splitting(bl.Contents(), s, sep, p, all)
      decreases str.slen + 1 - p
    {
      ret, p, n' := SplitOne(str, splitChar, p, bl, mem, n', all);
      if ret < 0 {
        return ret, n';
      }
    }
    SplittingEnds(bl.Contents(), s, sep, p, all);
    ret := BSTR_OK;
  }

  lemma SplittingStarts(done: seq<seq<byte>>, s: seq<byte>, sep: seq<byte>, p: nat)
    requires sep != [] && p <= |s|
    ensures Splitting(done, s, sep, p, done + Pieces(s, sep, p, p, 0))
  {
  }

  lemma SplittingEnds(done: seq<seq<byte>>, s: seq<byte>, sep: seq<byte>, p: nat, all: seq<seq<byte>>)
    requires sep != [] && p > |s| && Splitting(done, s, sep, p, all)
    ensures done == all
  {
  }

  // memcmp of a window with the pattern.
  method Same(a: Bstring, at: nat, b: Bstring) returns (same: bool)
    requires a.Sound() && a.Readable() && b.Sound() && b.Readable() && at + b.slen <= a.slen
    ensures same <==> a.Content()[at..at + b.slen] == b.Content()
  {
    ghost var w := a.Content()[at..at + b.slen];
    var k := 0;
    while k < b.slen
      invariant 0 <= k <= b.slen && forall j :: 0 <= j < k ==> w[j] == b.Content()[j]
    {
      assert w[k] == a.data[at + k] && b.Content()[k] == b.data[k];
      if a.data[at + k] != b.data[k] {
        return false;
      }
      k := k + 1;
    }
    same := true;
  }

  // bsplitstrcb for an empty pattern.
  method EachChar(str: Bstring, pos: nat, bl: BstrList, mem: nat -> bool, n: nat) returns (ret: int, n': nat)
    requires str.Sound() && str.Readable() && pos <= str.slen && bl.Valid()
    modifies bl, bl.entry
    ensures n <= n' && bl.Valid() && (ret == BSTR_OK || (ret == BSTR_ERR && Refusal(mem, n, n')))
    ensures ret == BSTR_OK ==> bl.Contents() == old(bl.Contents()) + Chars(str.Content(), pos)
  {
    ghost var s, all := str.Content(), bl.Contents() + Chars(str.Content(), pos);
    n' := n;
    var i := pos;
    while i < str.slen
      invariant pos <= i <= str.slen && n <= n' && bl.Valid() && (bl.entry == old(bl.entry) || fresh(bl.entry))
      invariant bl.Contents() + Chars(s, i) == all
    {
      ghost var was := bl.Contents();
      assert s[i..i + 1] == [s[i]];
      assert was + ([[s[i]]] + Chars(s, i + 1)) == was + [[s[i]]] + Chars(s, i + 1);
      ret, n' := bl.Bscb(str, i, 1, mem, n');
      if ret < 0 {
        return ret, n';
      }
      i := i + 1;
    }
    ret := BSTR_OK;
  }

  // Where the loop over whole patterns stands: the current piece began at p.
  ghost predicate Scanning(done: seq<seq<byte>>, s: seq<byte>, sep: seq<byte>, p: nat, i: nat, all: seq<seq<byte>>)
    requires sep != []
  {
    p <= |s| && p <= i && done + Pieces(s, sep, p, i, 1) == all
  }

  lemma ScanStep(done: seq<seq<byte>>, s: seq<byte>, sep: seq<byte>, p: nat, i: nat, all: seq<seq<byte>>)
    requires sep != [] && Scanning(done, s, sep, p, i, all) && i + |sep| <= |s|
    ensures p <= i && s[i..i + |sep|] == sep ==> Scanning(done + [s[p..i]], s, sep, i + |sep|, i + |sep| + 1, all)
    ensures s[i..i + |sep|] != sep ==> Scanning(done, s, sep, p, i + 1, all)
  {
    if s[i..i + |sep|] == sep {
      var rest := Pieces(s, sep, i + |sep|, i + |sep| + 1, 1);
      assert done + ([s[p..i]] + rest) == done + [s[p..i]] + rest;
    }
  }

  lemma ScanEnds(done: seq<seq<byte>>, s: seq<byte>, sep: seq<byte>, p: nat, i: nat, all: seq<seq<byte>>)
    requires sep != [] && Scanning(done, s, sep, p, i, all) && i + |sep| > |s|
    ensures p <= |s| && done + [s[p..|s|]] == all
  {
    assert s[p..] == s[p..|s|];
  }

  lemma ScanBounds(done: seq<seq<byte>>, s: seq<byte>, sep: seq<byte>, p: nat, i: nat, all: seq<seq<byte>>)
    requires sep != [] && Scanning(done, s, sep, p, i, all)
    ensures p <= |s| && p <= i
  {
  }

  // One round of that loop.
  method ScanOne(str: Bstring, splitStr: Bstring, p: nat, i: nat, bl: BstrList, mem: nat -> bool, n: nat,
                 ghost all: seq<seq<byte>>)
    returns (ret: int, p': nat, i': nat, n': nat)
    requires str.Sound() && str.Readable() && bl.Valid()
    requires splitStr.Sound() && splitStr.Readable() && splitStr.slen > 0 && i <= str.slen - splitStr.slen
    requires Scanning(bl.Contents(), str.Content(), splitStr.Content(), p, i, all)
    modifies bl, bl.entry
    ensures n <= n' && i < i' && bl.Valid() && (bl.entry == old(bl.entry) || fresh(bl.entry))
    ensures ret == BSTR_OK || (ret == BSTR_ERR && Refusal(mem, n, n'))
    ensures ret == BSTR_OK ==> Scanning(bl.Contents(), str.Content(), splitStr.Content(), p', i', all)
  {
    ScanBounds(bl.Contents(), str.Content(), splitStr.Content(), p, i, all);
    ScanStep(bl.Contents(), str.Content(), splitStr.Content(), p, i, all);
    hide Pieces, Scanning;
    ret, p', i', n' := BSTR_OK, p, i + 1, n;
    var same := Same(str, i, splitStr);
    if same {
      ret, n' := bl.Bscb(str, p, i - p, mem, n);
      p' := i + splitStr.slen;
      i' := p' + 1;
    }
  }

  // bsplitstrcb for a pattern of two bytes or more.
  method EachPiece(str: Bstring, splitStr: Bstring, pos: nat, bl: BstrList, mem: nat -> bool, n: nat)
    returns (ret: int, n': nat)
    requires str.Sound() && str.Readable() && pos <= str.slen && bl.Valid()
    requires splitStr.Sound() && splitStr.Readable() && splitStr.slen > 0
    modifies bl, bl.entry
    ensures n <= n' && bl.Valid() && (ret == BSTR_OK || (ret == BSTR_ERR && Refusal(mem, n, n')))
    ensures ret == BSTR_OK
            ==> bl.Contents() == old(bl.Contents()) + Pieces(str.Content(), splitStr.Content(), pos, pos, 1)
  {
    ghost var s, sep := str.Content(), splitStr.Content();
    ghost var all := bl.Contents() + Pieces(s, sep, pos, pos, 1);
    assert Scanning(bl.Contents(), s, sep, pos, pos, all);
    hide Pieces, Scanning;
    n' := n;
    var i: nat, p: nat := pos, pos;
    while i <= str.slen - splitStr.slen
      invariant n <= n' && bl.Valid() && (bl.entry == old(bl.entry) || fresh(bl.entry))
      invariant Scanning(bl.Contents(), s, sep, p, i, all)
      decreases str.slen - i
    {
      ret, p, i, n' := ScanOne(str, splitStr, p, i, bl, mem, n', all);
      if ret < 0 {
        return ret, n';
      }
    }
    ScanEnds(bl.Contents(), s, sep, p, i, all);
    ret, n' := bl.Bscb(str, p, str.slen - p, mem, n');
  }

  /** bsplitstrcb, calling bscb. */
  method Bsplitstrcb(str: Bstring, splitStr: Bstring?, pos: int, bl: BstrList, mem: nat -> bool, n: nat)
    returns (ret: int, n': nat)
    requires str.Sound() && str.Readable() && bl.Valid()
    requires splitStr != null && splitStr.slen >= 0 ==> splitStr.Sound() && splitStr.Readable()
    modifies bl, bl.entry
    ensures n <= n' && bl.Valid()
    ensures !(0 <= pos <= str.slen) || splitStr == null || splitStr.slen < 0 ==> ret == BSTR_ERR
    ensures 0 <= pos <= str.slen && splitStr != null && splitStr.slen >= 0
            ==> ret == BSTR_OK || (ret == BSTR_ERR && Refusal(mem, n, n'))
    ensures 0 <= pos <= str.slen && splitStr != null && splitStr.slen >= 0 && ret == BSTR_OK
            ==> bl.Contents() == old(bl.Contents()) + SplitStr(str.Content(), splitStr.Content(), pos)
  {
    n' := n;
    if pos < 0 || pos > str.slen || splitStr == null || splitStr.slen < 0 {
      return BSTR_ERR, n;
    }
    hide Pieces, Chars;
    if 0 == splitStr.slen {
      ret, n' := EachChar(str, pos, bl, mem, n);
      return;
    }
    if splitStr.slen == 1 {
      assert splitStr.Content() == [splitStr.data[0]];
      ret, n' := Bsplitcb(str, splitStr.data[0], pos, bl, mem, n);
      return;
    }
    ret, n' := EachPiece(str, splitStr, pos, bl, mem, n);
  }

  // The two requests for an empty list.
  method NewList(mem: nat -> bool, n: nat) returns (bl: BstrList?, n': nat)
    ensures n <= n' && (bl == null ==> Refusal(mem, n, n'))
    ensures bl != null ==> fresh(bl) && fresh(bl.entry) && bl.Valid() && bl.Contents() == []
  {
    bl, n' := null, n + 1;
    if !mem(n) { return; }
    n' := n + 2;
    if !mem(n + 1) { return; }
    bl := new BstrList();
  }

  /** bsplit: null only for want of memory or of a readable string. */
  method Bsplit(str: Bstring?, splitChar: byte, mem: nat -> bool) returns (bl: BstrList?, used: nat)
    requires str != null ==> str.Sound()
    ensures str == null || !str.Readable() ==> bl == null
    ensures str != null && str.Readable() && bl == null ==> Refusal(mem, 0, used)
    ensures bl != null ==> str != null && str.Readable() && bl.Valid()
    ensures bl != null ==> bl.Contents() == Pieces(str.Content(), [splitChar], 0, 0, 0)
  {
    used := 0;
    if str == null || str.data == null || str.slen < 0 { return null, 0; }
    hide Pieces;
    bl, used := NewList(mem, 0);
    if bl == null { return; }
    var ret;
    ret, used := Bsplitcb(str, splitChar, 0, bl, mem, used);
    if ret < 0 { return null, used; }
    assert [] + Pieces(str.Content(), [splitChar], 0, 0, 0) == Pieces(str.Content(), [splitChar], 0, 0, 0);
  }

  /** bsplitstr. */
  method Bsplitstr(str: Bstring?, splitStr: Bstring?, mem: nat -> bool) returns (bl: BstrList?, used: nat)
    requires str != null ==> str.Sound()
    requires splitStr != null && splitStr.slen >= 0 ==> splitStr.Sound() && splitStr.Readable()
    ensures str == null || !str.Readable() || splitStr == null || splitStr.slen < 0 ==> bl == null
    ensures str != null && str.Readable() && splitStr != null && splitStr.slen >= 0 && bl == null
            ==> Refusal(mem, 0, used)
    ensures bl != null ==> str != null && str.Readable() && splitStr != null && splitStr.Readable() && bl.Valid()
    ensures bl != null ==> bl.Contents() == SplitStr(str.Content(), splitStr.Content(), 0)
  {
    used := 0;
    if str == null || str.data == null || str.slen < 0 { return null, 0; }
    hide SplitStr;
    bl, used := NewList(mem, 0);
    if bl == null { return; }
    var ret;
    ret, used := Bsplitstrcb(str, splitStr, 0, bl, mem, used);
    if ret < 0 { return null, used; }
    assert [] + SplitStr(str.Content(), splitStr.Content(), 0) == SplitStr(str.Content(), splitStr.Content(), 0);
  }

  // ----- bjoin -----

  ghost function Sum(l: seq<seq<byte>>): nat {
    if l == [] then 0 else Sum(l[..|l| - 1]) + |l[|l| - 1]|
  }

  lemma {:induction false} JoinOfSnoc(l: seq<seq<byte>>, sep: seq<byte>)
    requires |l| > 1
    ensures Join(l, sep) == Join(l[..|l| - 1], sep) + sep + l[|l| - 1]
    decreases |l|
  {
    var m := l[..|l| - 1];
    if |l| > 2 {
      JoinOfSnoc(l[1..], sep);
      assert l[1..][..|l| - 2] == m[1..];
      var a, b, c := l[0] + sep, Join(m[1..], sep), sep + l[|l| - 1];
      assert a + (b + sep + l[|l| - 1]) == (a + b) + sep + l[|l| - 1];
    } else {
      assert l[1..] == [l[1]];
    }
  }

  lemma {:induction false} JoinLength(l: seq<seq<byte>>, sep: seq<byte>)
    requires l != []
    ensures |Join(l, sep)| == Sum(l) + (|l| - 1) * |sep|
    decreases |l|
  {
    if |l| > 1 {
      JoinOfSnoc(l, sep);
      JoinLength(l[..|l| - 1], sep);
      assert (|l| - 1) * |sep| == (|l| - 2) * |sep| + |sep|;
    } else {
      assert Sum(l[..0]) == 0;
    }
  }

  lemma {:induction false} JoinGrows(l: seq<seq<byte>>, sep: seq<byte>, i: nat)
    requires 1 <= i <= |l|
    ensures |Join(l[..i], sep)| <= |Join(l, sep)|
    decreases |l|
  {
    if i < |l| {
      JoinOfSnoc(l, sep);
      JoinGrows(l[..|l| - 1], sep, i);
      assert l[..|l| - 1][..i] == l[..i];
    } else {
      assert l[..i] == l;
    }
  }

  // Arithmetic on ints wraps around.
  function Int32(x: int): int {
    (x + 0x8000_0000) % 0x1_0000_0000 - 0x8000_0000
  }

  // The size that bjoin asks for.
  ghost function JoinSize(l: seq<seq<byte>>, sep: seq<byte>): int {
    Int32(1 + Sum(l) + (|l| - 1) * |sep|)
  }

  /** The size is that of the joined string and its terminator exactly when it is an int
      and the list is not empty, unless the separator is. */
  lemma JoinSizeIsRight(l: seq<seq<byte>>, sep: seq<byte>)
    requires |sep| <= INT_MAX
    ensures JoinSize(l, sep) == |Join(l, sep)| + 1 <==> |Join(l, sep)| < INT_MAX && (l != [] || sep == [])
  {
    if l != [] {
      JoinLength(l, sep);
    }
  }

  lemma SizeIsEnough(l: seq<seq<byte>>, sep: seq<byte>)
    requires |sep| <= INT_MAX && JoinSize(l, sep) > |Join(l, sep)|
    ensures JoinSize(l, sep) == |Join(l, sep)| + 1
  {
    if l != [] {
      JoinLength(l, sep);
    }
  }

  lemma SizeWithoutSeparator(l: seq<seq<byte>>)
    requires 1 + Sum(l) <= INT_MAX
    ensures JoinSize(l, []) == 1 + Sum(l)
  {
    assert (|l| - 1) * 0 == 0;
  }

  /** A list that bsplitstr really makes, and what is asked for with a separator: nothing,
      where the terminator needs a byte, or a size that is negative. */
  lemma NothingToJoin(sep: seq<byte>)
    requires 1 <= |sep| <= INT_MAX
    ensures SplitStr([], [], 0) == [] && Join([], sep) == []
    ensures |sep| == 1 ==> JoinSize([], sep) == 0
    ensures |sep| > 1 ==> JoinSize([], sep) < 0
  {
    assert Sum([]) == 0;
  }

  ghost function Empties(n: nat): seq<seq<byte>> {
    seq(n, _ => [])
  }

  lemma {:induction false} SumOfEmpties(n: nat)
    ensures Sum(Empties(n)) == 0
  {
    if n > 0 {
      SumOfEmpties(n - 1);
      assert Empties(n)[..n - 1] == Empties(n - 1);
    }
  }

  /** The separators are counted without a test for wrap-around: four of 2^30 bytes, between
      empty entries, come to a size of one byte. */
  lemma SeparatorsWrapAround(sep: seq<byte>)
    requires |sep| == 0x4000_0000
    ensures JoinSize(Empties(5), sep) == 1 && |Join(Empties(5), sep)| == 0x1_0000_0000
  {
    SumOfEmpties(5);
    JoinLength(Empties(5), sep);
  }

  // The first loop: the length with its terminator, or negative when it wraps around.
  method Lengths(bl: BstrList) returns (c: int)
    requires bl.Valid() && forall k :: 0 <= k < bl.qty ==> |bl.Contents()[k]| <= INT_MAX
    ensures c < 0 <==> 1 + Sum(bl.Contents()) > INT_MAX
    ensures c >= 0 ==> c == 1 + Sum(bl.Contents())
  {
    c := 1;
    ghost var l := bl.Contents();
    for i := 0 to bl.qty
      invariant c == 1 + Sum(l[..i]) <= INT_MAX
    {
      assert l[..i + 1][..i] == l[..i] && l[i] == bl.entry[i];
      SumGrows(l, i + 1);
      c := Int32(c + |bl.entry[i]|);
      if c < 0 { return; }
    }
    assert l[..bl.qty] == l;
  }

  lemma {:induction false} SumGrows(l: seq<seq<byte>>, i: nat)
    requires i <= |l|
    ensures Sum(l[..i]) <= Sum(l)
    decreases |l|
  {
    if i < |l| {
      SumGrows(l[..|l| - 1], i);
      assert l[..|l| - 1][..i] == l[..i];
    } else {
      assert l[..i] == l;
    }
  }

  // memcpy of an entry.
  method Put(data: array<byte>, at: nat, bytes: seq<byte>)
    requires at + |bytes| <= data.Length
    modifies data
    ensures data[..at + |bytes|] == old(data[..at]) + bytes
  {
    forall k | 0 <= k < |bytes| {
      data[at + k] := bytes[k];
    }
  }

  // The separator, but not before the first entry, and the entry.
  method PutNext(data: array<byte>, at: nat, bl: BstrList, i: nat, sep: Bstring?) returns (c: nat, outside: bool)
    requires bl.Valid() && i < bl.qty && (sep != null ==> sep.Sound() && sep.Readable() && sep.data != data)
    requires at <= data.Length
    modifies data
    ensures outside <==> at + (if i > 0 then |SepOf(sep)| else 0) + |bl.Contents()[i]| > data.Length
    ensures !outside ==> c == at + (if i > 0 then |SepOf(sep)| else 0) + |bl.Contents()[i]|
    ensures !outside ==> data[..c] == old(data[..at]) + (if i > 0 then SepOf(sep) else []) + bl.Contents()[i]
  {
    c, outside := at, false;
    if i > 0 && sep != null {
      if c + sep.slen > data.Length { return c, true; }
      var part := sep.data[..sep.slen];
      Put(data, c, part);
      c := c + sep.slen;
    }
    if c + |bl.entry[i]| > data.Length { return c, true; }
    Put(data, c, bl.entry[i]);
    c := c + |bl.entry[i]|;
  }

  lemma OneEntryMore(l: seq<seq<byte>>, sep: seq<byte>, i: nat)
    requires i < |l|
    ensures Join(l[..i + 1], sep) == Join(l[..i], sep) + (if i > 0 then sep else []) + l[i]
    ensures |Join(l[..i + 1], sep)| <= |Join(l, sep)|
  {
    var next := l[..i + 1];
    assert next[..i] == l[..i] && next[i] == l[i];
    JoinGrows(l, sep, i + 1);
    if i > 0 {
      JoinOfSnoc(next, sep);
    }
  }

  // The second loop; it stops where it would write outside the memory.
  method Fill(data: array<byte>, bl: BstrList, sep: Bstring?) returns (c: nat, outside: bool)
    requires bl.Valid() && (sep != null ==> sep.Sound() && sep.Readable() && sep.data != data)
    modifies data
    ensures outside <==> |Join(bl.Contents(), SepOf(sep))| > data.Length
    ensures !outside ==> c == |Join(bl.Contents(), SepOf(sep))| && data[..c] == Join(bl.Contents(), SepOf(sep))
  {
    ghost var l, s := bl.Contents(), SepOf(sep);
    c, outside := 0, false;
    assert l[..0] == [];
    assert Join([], s) == [];
    hide Join;
    for i := 0 to bl.qty
      invariant bl.Contents() == l && SepOf(sep) == s
      invariant c == |Join(l[..i], s)| <= data.Length && data[..c] == Join(l[..i], s)
    {
      OneEntryMore(l, s, i);
      c, outside := PutNext(data, c, bl, i, sep);
      if outside { return; }
    }
    assert l[..bl.qty] == l;
  }

  // A missing separator is an empty one.
  ghost function SepOf(sep: Bstring?): seq<byte>
    requires sep != null ==> sep.Sound() && sep.Readable()
    reads sep, if sep == null then {} else {sep.data}
  {
    if sep == null then [] else sep.Content()
  }

  // The second half of bjoin, with memory of c bytes.
  method Joined(bl: BstrList, sep: Bstring?, c: nat) returns (b: Bstring?, outside: bool)
    requires bl.Valid() && (sep != null ==> sep.Sound() && sep.Readable() && sep.slen <= INT_MAX)
    requires c == JoinSize(bl.Contents(), SepOf(sep))
    ensures outside <==> c <= |Join(bl.Contents(), SepOf(sep))|
    ensures b != null <==> !outside
    ensures b != null ==> fresh(b) && fresh(b.data) && b.Sound() && b.Readable()
    ensures b != null ==> b.Content() == Join(bl.Contents(), SepOf(sep))
    ensures b != null ==> b.mlen == b.data.Length == |Join(bl.Contents(), SepOf(sep))| + 1 && b.data[b.slen] == 0
  {
    hide Join, JoinSize;
    if c > |Join(bl.Contents(), SepOf(sep))| {
      SizeIsEnough(bl.Contents(), SepOf(sep));
    }
    var data := new byte[c](_ => 0);
    var end;
    b := null;
    end, outside := Fill(data, bl, sep);
    if outside || end == c { return null, true; }
    data[end] := 0;
    b := new Bstring(data, c - 1, c);
    assert b.Content() == data[..end];
  }

  // What bjoin works on: readable arguments, and entries whose lengths sum up to an int.
  ghost predicate Joinable(bl: BstrList?, sep: Bstring?)
    requires (bl != null ==> bl.Valid()) && (sep != null && sep.Readable() ==> sep.Sound())
    reads bl, if bl == null then {} else {bl.entry}, sep
  {
    bl != null && (sep == null || sep.Readable()) && 1 + Sum(bl.Contents()) <= INT_MAX
  }

  /** bjoin.  Where the size it has computed is less than what it is going to write it goes
      outside its memory; nothing is said of its result then.  A negative size turns into
      one that no allocator grants.  There is a string exactly when the rest is in order. */
  method Bjoin(bl: BstrList?, sep: Bstring?, mem: nat -> bool) returns (b: Bstring?, outside: bool, used: nat)
    requires bl != null ==> bl.Valid() && forall k :: 0 <= k < bl.qty ==> |bl.Contents()[k]| <= INT_MAX
    requires sep != null && sep.Readable() ==> sep.Sound() && sep.slen <= INT_MAX
    ensures b != null <==> && Joinable(bl, sep) && mem(0) && mem(1)
                           && JoinSize(bl.Contents(), SepOf(sep)) > |Join(bl.Contents(), SepOf(sep))|
    ensures outside <==> && Joinable(bl, sep) && mem(0) && mem(1)
                         && 0 <= JoinSize(bl.Contents(), SepOf(sep)) <= |Join(bl.Contents(), SepOf(sep))|
    ensures Joinable(bl, sep) && b == null && !outside
            ==> Refusal(mem, 0, used) || JoinSize(bl.Contents(), SepOf(sep)) < 0
    ensures b != null ==> fresh(b) && fresh(b.data) && b.Sound() && b.Readable()
    ensures b != null ==> b.Content() == Join(bl.Contents(), SepOf(sep))
    ensures b != null ==> b.mlen == b.data.Length == |Join(bl.Contents(), SepOf(sep))| + 1 && b.data[b.slen] == 0
    ensures Joinable(bl, sep) <==> && bl != null && 1 + Sum(bl.Contents()) <= INT_MAX
                                   && (sep == null || (sep.data != null && sep.slen >= 0))
    ensures Joinable(bl, sep) ==> SepOf(sep) == if sep == null then [] else sep.data[..sep.slen]
  {
    hide Join, Sum, Int32;
    b, outside, used := null, false, 0;
    if bl == null { return; }
    if sep != null && (sep.slen < 0 || sep.data == null) { return; }
    var c := Lengths(bl);
    if c < 0 { return; }
    SizeWithoutSeparator(bl.Contents());
    if sep != null {
      c := Int32(c + (bl.qty - 1) * sep.slen);
    }
    used := 1;
    if !mem(0) { return; }
    used := 2;
    if c < 0 || !mem(1) { return; }
    b, outside := Joined(bl, sep, c);
  }
}
