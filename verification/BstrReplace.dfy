/** findreplaceengine of model/c-skeleton/src/lcthw/bstrlib.c: three in-place rewriting
    algorithms, for replacements that keep, shrink or grow the matches, that all have to
    produce the same simple rewriting of the string. */
module BstrReplace {
  import opened Binary
  import opened BstrSearch
  import opened Bytes

  /** The reference: from pos on, copy up to the next match, put repl in its place, and
      go on behind it. */
  ghost function Rewrite(m: Case, s: seq<byte>, find: seq<byte>, repl: seq<byte>, pos: nat): seq<byte>
    requires find != [] && pos <= |s|
    decreases |s| - pos
  {
    FindIsFirst(m, s, find, pos);
    var r := Find(m, s, find, pos);
    if r < 0 then s[pos..] else s[pos..r] + repl + Rewrite(m, s, find, repl, r + |find|)
  }

  ghost function Replaced(m: Case, s: seq<byte>, find: seq<byte>, repl: seq<byte>, pos: nat): seq<byte>
    requires find != []
  {
    if pos > |s| then s else s[..pos] + Rewrite(m, s, find, repl, pos)
  }

  // The search sees only what is at pos and behind it.
  lemma {:induction false} FindInSuffix(m: Case, s: seq<byte>, t: seq<byte>, f: seq<byte>, pos: nat)
    requires |s| == |t| && pos <= |s| && s[pos..] == t[pos..]
    ensures Find(m, s, f, pos) == Find(m, t, f, pos)
    decreases |s| - pos
  {
    if pos + |f| <= |s| {
      assert forall k :: 0 <= k < |f| ==> s[pos + k] == s[pos..][k] && t[pos + k] == t[pos..][k];
      assert MatchAt(m, s, f, pos) <==> MatchAt(m, t, f, pos);
      if pos < |s| && !MatchAt(m, s, f, pos) {
        assert s[pos + 1..] == s[pos..][1..] && t[pos + 1..] == t[pos..][1..];
        FindInSuffix(m, s, t, f, pos + 1);
      }
    }
  }

  // The effect of Move on the contents of a buffer.
  ghost function Moved(dst: seq<byte>, d: nat, what: seq<byte>): seq<byte>
    requires d + |what| <= |dst|
  {
    dst[..d] + what + dst[d + |what|..]
  }

  lemma MovedParts(dst: seq<byte>, d: nat, what: seq<byte>, k: nat)
    requires d + |what| <= k <= |dst|
    ensures |Moved(dst, d, what)| == |dst|
    ensures Moved(dst, d, what)[..d + |what|] == dst[..d] + what
    ensures Moved(dst, d, what)[k..] == dst[k..]
  {
  }

  // memcpy and memmove.
  method Move(dst: array<byte>, d: nat, src: array<byte>, from: nat, n: nat)
    requires d + n <= dst.Length && from + n <= src.Length
    modifies dst
    ensures dst[..] == Moved(old(dst[..]), d, old(src[from..from + n]))
  {
    forall k | 0 <= k < n {
      dst[d + k] := src[from + k];
    }
  }

  // ----- Allocation: the k-th request of a run is granted when mem(k) -----

  const INT_MAX := 0x7fff_ffff

  // A request between n and n' that was refused.
  ghost predicate Refusal(mem: nat -> bool, n: nat, n': nat) {
    exists k :: n <= k < n' && !mem(k)
  }

  lemma GrantedIsNotRefused(mem: nat -> bool, n: nat, n': nat)
    ensures (forall k :: n <= k < n' ==> mem(k)) <==> !Refusal(mem, n, n')
  {
  }

  // A sum of two non-negative C ints, as the source's overflow checks see it.
  function Wrap(x: int): int {
    if x > INT_MAX then x - 0x1_0000_0000 else x
  }

  lemma Int31()
    ensures Pow2(30) == 0x4000_0000 && Pow2(31) == INT_MAX + 1
  {
    assert Pow2(10) == 1024;
    assert Pow2(20) == 1024 * 1024;
  }

  ghost predicate LeastPowerAbove(i: int, r: int) {
    exists k: nat :: r == Pow2(k + 1) && Pow2(k) <= i < r
  }

  /** snapUpSize: the least power of two above i, and at least 8; or i itself where that
      power is not an int. */
  function SnapUpSize(i: int): (r: int)
    requires i <= INT_MAX
    ensures i < 8 ==> r == 8
    ensures 8 <= i < Pow2(30) ==> LeastPowerAbove(i, r)
    ensures Pow2(30) <= i ==> r == i
    ensures i <= r <= INT_MAX && 8 <= r
  {
    hide Smear, Length;
    SnapsUp(i);
    if i < 8 then 8 else var j := Wrap(Smear(i) + 1); if j >= i then j else i
  }

  lemma SnapsUp(i: int)
    requires i <= INT_MAX
    ensures i >= 8 ==> Smear(i) + 1 == Pow2(Length(i)) && Pow2(Length(i) - 1) <= i < Pow2(Length(i))
    ensures 8 <= i < Pow2(30) ==> Pow2(Length(i)) <= Pow2(30) < INT_MAX && LeastPowerAbove(i, Pow2(Length(i)))
    ensures Pow2(30) <= i ==> Pow2(Length(i)) == Pow2(31) == INT_MAX + 1
  {
    if i >= 8 {
      Int31();
      LengthIsRight(i);
      var k := Length(i);
      if k > 31 {
        Pow2Grows(31, k - 1);
      } else if k < 31 {
        Pow2Grows(k, 30);
      }
      assert Pow2(k) == Pow2(k - 1 + 1);
      hide Smear, Pow2;
      SmearFillsTheBits(i);
    }
  }

  // bstrcpy.
  method Copy(b: Bstring, mem: nat -> bool, n: nat) returns (c: Bstring?, n': nat)
    requires b.Sound() && b.Readable() && b.slen < INT_MAX
    ensures n <= n' && (c == null ==> Refusal(mem, n, n'))
    ensures c != null ==> fresh(c) && c.Sound() && c.Readable() && fresh(c.data) && c.Content() == b.Content()
    ensures c != null ==> 0 < c.mlen
  {
    c, n' := null, n + 1;
    if !mem(n) {
      return;
    }
    var j := SnapUpSize(b.slen + 1);
    n' := n' + 1;
    if !mem(n' - 1) {
      j, n' := b.slen + 1, n' + 1;
      if !mem(n' - 1) {
        return;
      }
    }
    var data := new byte[j](_ => 0);
    Move(data, 0, b.data, 0, b.slen);
    c := new Bstring(data, b.slen, j);
    assert data[..b.slen] == b.data[..b.slen];
  }

  // The new memory of balloc.  realloc keeps more than malloc and memcpy do, but only
  // the string itself counts.
  method Relocate(b: Bstring, len: int)
    requires b.Sound() && b.Readable() && b.slen <= len
    modifies b
    ensures fresh(b.data) && b.mlen == len && b.Sound() && b.Readable()
    ensures b.slen == old(b.slen) && b.Content() == old(b.Content())
  {
    var x := new byte[len](_ => 0);
    Move(x, 0, b.data, 0, b.slen);
    assert x[..b.slen] == b.data[..b.slen];
    b.data, b.mlen := x, len;
  }

  // balloc: with two strategies, and a fall-back to the least size that will do.
  method Balloc(b: Bstring, olen: int, mem: nat -> bool, n: nat) returns (ret: int, n': nat)
    requires b.Sound() && b.Readable() && b.slen <= b.mlen && 0 < b.mlen && olen <= INT_MAX
    modifies b
    ensures n <= n' && (ret == BSTR_OK || ret == BSTR_ERR)
    ensures b.Sound() && b.Readable() && b.slen == old(b.slen) && b.Content() == old(b.Content())
    ensures b.data == old(b.data) || fresh(b.data)
    ensures ret == BSTR_OK ==> olen <= b.mlen && b.slen <= b.mlen
    ensures ret == BSTR_ERR ==> b.data == old(b.data) && b.mlen == old(b.mlen)
    ensures ret == BSTR_ERR <==> olen <= 0 || (n' > n && !mem(n' - 1))
    ensures 0 < olen < old(b.mlen) ==> n' == n && b.mlen == old(b.mlen)
    ensures olen >= old(b.mlen) && (forall k: nat :: mem(k))
            ==> b.mlen == if SnapUpSize(olen) > old(b.mlen) then SnapUpSize(olen) else old(b.mlen)
  {
    n' := n;
    if olen <= 0 { return BSTR_ERR, n; }
    ret := BSTR_OK;
    if olen >= b.mlen {
      var len := SnapUpSize(olen);
      if len <= b.mlen { return; }
      if !(7 * b.mlen < 8 * b.slen) {
        n' := n' + 1;
      }
      if n' == n || !mem(n) {
        n' := n' + 1;
        if !mem(n' - 1) {
          len, n' := olen, n' + 1;
          if !mem(n' - 1) { return BSTR_ERR, n'; }
        }
      }
      Relocate(b, len);
    }
  }

  lemma RewriteStep(m: Case, s: seq<byte>, t: seq<byte>, f: seq<byte>, repl: seq<byte>, pos: nat, i: int)
    requires f != [] && pos <= |s| == |t| && s[pos..] == t[pos..] && FirstMatch(m, t, f, pos, i)
    ensures i < 0 ==> i == BSTR_ERR && Rewrite(m, s, f, repl, pos) == s[pos..]
    ensures i >= 0 ==> pos <= i && i + |f| <= |s|
    ensures i >= 0 ==> Rewrite(m, s, f, repl, pos) == s[pos..i] + repl + Rewrite(m, s, f, repl, i + |f|)
  {
    RewriteUnfold(m, s, f, repl, pos);
    hide *;
    FindInSuffix(m, s, t, f, pos);
    FirstMatchIsFind(m, t, f, pos, i);
  }

  /** The reference in terms of occurrences: where there is none nothing changes, and up to
      the first one the string stays, repl comes in its place, and the rest is rewritten. */
  lemma RewriteAtMatch(m: Case, s: seq<byte>, f: seq<byte>, repl: seq<byte>, pos: nat, i: int)
    requires f != [] && pos <= |s|
    ensures (forall j :: pos <= j ==> !MatchAt(m, s, f, j)) ==> Rewrite(m, s, f, repl, pos) == s[pos..]
    ensures pos <= i && MatchAt(m, s, f, i) && (forall j :: pos <= j < i ==> !MatchAt(m, s, f, j))
            ==> i + |f| <= |s| && Rewrite(m, s, f, repl, pos) == s[pos..i] + repl + Rewrite(m, s, f, repl, i + |f|)
  {
    OccurrencesAndMatch(m, s, f, pos, i);
    hide *;
    RewriteUnfold(m, s, f, repl, pos);
    if FirstMatch(m, s, f, pos, BSTR_ERR) {
      FirstMatchIsFind(m, s, f, pos, BSTR_ERR);
    }
    if FirstMatch(m, s, f, pos, i) {
      FirstMatchIsFind(m, s, f, pos, i);
    }
  }

  lemma OccurrencesAndMatch(m: Case, s: seq<byte>, f: seq<byte>, pos: nat, i: int)
    ensures BSTR_ERR < 0
    ensures (forall j :: pos <= j ==> !MatchAt(m, s, f, j)) ==> FirstMatch(m, s, f, pos, BSTR_ERR)
    ensures pos <= i && MatchAt(m, s, f, i) && (forall j :: pos <= j < i ==> !MatchAt(m, s, f, j))
            ==> FirstMatch(m, s, f, pos, i)
  {
    hide MatchAt;
  }

  lemma RewriteUnfold(m: Case, s: seq<byte>, f: seq<byte>, repl: seq<byte>, pos: nat)
    requires f != [] && pos <= |s|
    ensures var r := Find(m, s, f, pos);
            && (r < 0 ==> r == BSTR_ERR && Rewrite(m, s, f, repl, pos) == s[pos..])
            && (r >= 0 ==> pos <= r && r + |f| <= |s|
                           && Rewrite(m, s, f, repl, pos) == s[pos..r] + repl + Rewrite(m, s, f, repl, r + |f|))
  {
    FindIsFirst(m, s, f, pos);
    hide Find;
  }

  // The rewriting of s in the buffer buf has reached pos, and is acc bytes shorter so
  // far: the output ends acc before pos, and from pos on there is still the input.
  ghost predicate HalfDone(m: Case, s: seq<byte>, f: seq<byte>, repl: seq<byte>, pos0: nat,
                           buf: seq<byte>, acc: nat, pos: nat)
    requires f != []
  {
    && acc <= pos <= |s| <= |buf| && buf[pos..|s|] == s[pos..]
    && buf[..pos - acc] + Rewrite(m, s, f, repl, pos) == Replaced(m, s, f, repl, pos0)
  }

  lemma Reassociated<T>(a: seq<T>, b: seq<T>, c: seq<T>, d: seq<T>)
    ensures a + (b + c + d) == (a + b + c) + d
  {
  }

  // What the buffer still holds of the input.
  lemma Untouched(s: seq<byte>, buf: seq<byte>, pos: nat, i: nat, j: nat)
    requires pos <= i <= j <= |s| <= |buf| && buf[pos..|s|] == s[pos..]
    ensures buf[pos..i] == s[pos..i] && buf[j..|s|] == s[j..]
  {
    assert buf[pos..i] == buf[pos..|s|][..i - pos];
    assert s[pos..i] == s[pos..][..i - pos];
    assert buf[j..|s|] == buf[pos..|s|][j - pos..];
    assert s[j..] == s[pos..][j - pos..];
  }

  // One match at i: the bytes before it close up, and repl follows them.
  lemma HalfDoneStep(m: Case, s: seq<byte>, f: seq<byte>, repl: seq<byte>, pos0: nat,
                     buf: seq<byte>, acc: nat, pos: nat, i: nat)
    requires f != [] && |repl| <= |f| && HalfDone(m, s, f, repl, pos0, buf, acc, pos)
    requires pos <= i && i + |f| <= |s|
    requires Rewrite(m, s, f, repl, pos) == s[pos..i] + repl + Rewrite(m, s, f, repl, i + |f|)
    ensures var closed := Moved(buf, pos - acc, buf[pos..i]);
            && |closed| == |buf|
            && HalfDone(m, s, f, repl, pos0, Moved(closed, i - acc, repl), acc + |f| - |repl|, i + |f|)
  {
    hide Rewrite, Moved, Replaced;
    var next := i + |f|;
    var closed := Moved(buf, pos - acc, buf[pos..i]);
    MovedParts(buf, pos - acc, buf[pos..i], next);
    MovedParts(closed, i - acc, repl, next);
    var out := Moved(closed, i - acc, repl);
    Untouched(s, buf, pos, i, next);
    assert out[next..|s|] == out[next..][..|s| - next] == buf[next..][..|s| - next] == buf[next..|s|];
    Reassociated(buf[..pos - acc], s[pos..i], repl, Rewrite(m, s, f, repl, next));
  }

  // What the three algorithms may assume: sound strings in separate memory.
  ghost predicate Apart(b: Bstring, auxf: Bstring, auxr: Bstring)
    reads b, auxf, auxr
  {
    && b.Sound() && b.Readable() && auxf.Sound() && auxf.Readable() && auxr.Sound() && auxr.Readable()
    && auxf.slen > 0 && b.data != auxf.data && b.data != auxr.data && b != auxf && b != auxr
  }

  // Before the first round nothing is rewritten.
  lemma NothingDone(m: Case, s: seq<byte>, f: seq<byte>, repl: seq<byte>, pos0: nat, buf: seq<byte>)
    requires f != [] && pos0 <= |s| <= |buf| && buf[..|s|] == s
    ensures HalfDone(m, s, f, repl, pos0, buf, 0, pos0)
  {
    assert buf[pos0..|s|] == buf[..|s|][pos0..] && buf[..pos0] == buf[..|s|][..pos0];
  }

  // One round of the loop: the next match is at i, or there is none.
  lemma Round(m: Case, s: seq<byte>, f: seq<byte>, repl: seq<byte>, pos0: nat,
              buf: seq<byte>, acc: nat, pos: nat, i: int)
    requires f != [] && |repl| <= |f| && HalfDone(m, s, f, repl, pos0, buf, acc, pos)
    requires FirstMatch(m, buf[..|s|], f, pos, i)
    ensures acc <= pos <= |s| <= |buf|
    ensures i < 0 ==> buf[..pos - acc] + buf[pos..|s|] == Replaced(m, s, f, repl, pos0)
    ensures i >= 0 ==> pos <= i && i + |f| <= |s|
    ensures i >= 0 ==> |Moved(buf, pos - acc, buf[pos..i])| == |buf|
    ensures i >= 0 ==> HalfDone(m, s, f, repl, pos0, Moved(Moved(buf, pos - acc, buf[pos..i]), i - acc, repl),
                                acc + |f| - |repl|, i + |f|)
  {
    hide Rewrite, Replaced, FirstMatch;
    assert buf[..|s|][pos..] == buf[pos..|s|];
    RewriteStep(m, s, buf[..|s|], f, repl, pos, i);
    if i >= 0 {
      HalfDoneStep(m, s, f, repl, pos0, buf, acc, pos, i);
    }
  }

  lemma MovedNowhere(buf: seq<byte>, d: nat, e: nat)
    requires d <= e <= |buf|
    ensures Moved(buf, d, buf[d..e]) == buf && Moved(buf, d, []) == buf
  {
  }

  // One call of the search, seen from the buffer.
  method Search(m: Case, b: Bstring, pos: nat, auxf: Bstring) returns (i: int)
    requires b.Sound() && b.Readable() && auxf.Sound() && auxf.Readable()
    ensures FirstMatch(m, b.data[..][..b.slen], auxf.Content(), pos, i)
  {
    i := Instr(m, b, pos, auxf);
    assert b.data[..][..b.slen] == b.Content();
  }

  /** delta == 0: each match is overwritten where it is. */
  method ReplaceEqual(m: Case, b: Bstring, auxf: Bstring, auxr: Bstring, pos0: nat)
    requires Apart(b, auxf, auxr) && pos0 <= b.slen && auxf.slen == auxr.slen
    modifies b.data
    ensures b.Content() == Replaced(m, old(b.Content()), auxf.Content(), auxr.Content(), pos0)
  {
    hide HalfDone, FirstMatch, Moved, Replaced, Rewrite;
    ghost var s, f, repl := b.Content(), auxf.Content(), auxr.Content();
    var data: array<byte>, pos := b.data, pos0;
    NothingDone(m, s, f, repl, pos0, data[..]);
    var i := Search(m, b, pos, auxf);
    while i >= 0
      invariant auxf.Content() == f && auxr.Content() == repl
      invariant 0 <= pos <= b.slen && HalfDone(m, s, f, repl, pos0, data[..], 0, pos)
      invariant FirstMatch(m, data[..][..b.slen], f, pos, i)
      decreases b.slen - pos
    {
      Round(m, s, f, repl, pos0, data[..], 0, pos, i);
      MovedNowhere(data[..], pos, i);
      Move(data, i, auxr.data, 0, auxr.slen);
      pos := i + auxf.slen;
      i := Search(m, b, pos, auxf);
    }
    Round(m, s, f, repl, pos0, data[..], 0, pos, i);
    assert b.Content() == data[..][..pos] + data[..][pos..|s|];
  }

  // The bytes from pos to i move down by acc, if any have to.
  method CloseUp(data: array<byte>, acc: nat, pos: nat, i: nat)
    requires acc <= pos <= i <= data.Length
    modifies data
    ensures data[..] == Moved(old(data[..]), pos - acc, old(data[..])[pos..i])
  {
    hide Moved;
    assert data[..][pos..i] == data[pos..i];
    MovedNowhere(data[..], pos, i);
    MovedNowhere(data[..], pos - acc, pos - acc);
    if acc != 0 && i > pos {
      Move(data, pos - acc, data, pos, i - pos);
    } else if i == pos {
      assert data[..][pos..i] == [];
    }
  }

  // One match of the shrinking case, at i.
  method ShrinkOne(data: array<byte>, acc: nat, pos: nat, i: nat, auxr: Bstring)
    requires auxr.Sound() && auxr.Readable() && auxr.data != data
    requires acc <= pos <= i && i - acc + auxr.slen <= data.Length && i <= data.Length
    modifies data
    ensures |Moved(old(data[..]), pos - acc, old(data[..])[pos..i])| == data.Length
    ensures data[..] == Moved(Moved(old(data[..]), pos - acc, old(data[..])[pos..i]), i - acc, auxr.Content())
  {
    hide Moved;
    CloseUp(data, acc, pos, i);
    MovedNowhere(data[..], i - acc, i - acc);
    if auxr.slen != 0 {
      Move(data, i - acc, auxr.data, 0, auxr.slen);
    }
  }

  // The loop of the shrinking case.
  method ShrinkMatches(m: Case, b: Bstring, auxf: Bstring, auxr: Bstring, pos0: nat)
    returns (acc: nat, pos: nat)
    requires Apart(b, auxf, auxr) && pos0 <= b.slen && auxf.slen > auxr.slen
    modifies b.data
    ensures acc <= pos <= b.slen
    ensures b.data[..][..pos - acc] + b.data[..][pos..b.slen]
         == Replaced(m, old(b.Content()), auxf.Content(), auxr.Content(), pos0)
  {
    hide HalfDone, FirstMatch, Moved, Replaced, Rewrite;
    ghost var s, f, repl := b.Content(), auxf.Content(), auxr.Content();
    var data: array<byte>, delta := b.data, auxf.slen - auxr.slen;
    acc, pos := 0, pos0;
    NothingDone(m, s, f, repl, pos0, data[..]);
    var i := Search(m, b, pos, auxf);
    while i >= 0
      invariant auxf.Content() == f && auxr.Content() == repl
      invariant acc <= pos <= b.slen && HalfDone(m, s, f, repl, pos0, data[..], acc, pos)
      invariant FirstMatch(m, data[..][..b.slen], f, pos, i)
      decreases b.slen - pos
    {
      Round(m, s, f, repl, pos0, data[..], acc, pos, i);
      ShrinkOne(data, acc, pos, i, auxr);
      acc := acc + delta;
      pos := i + auxf.slen;
      i := Search(m, b, pos, auxf);
    }
    Round(m, s, f, repl, pos0, data[..], acc, pos, i);
  }

  /** delta > 0: the pieces between matches move down as the matches shrink. */
  method ReplaceShrinking(m: Case, b: Bstring, auxf: Bstring, auxr: Bstring, pos0: nat)
    requires Apart(b, auxf, auxr) && pos0 <= b.slen && auxf.slen > auxr.slen
    modifies b, b.data
    ensures b.data == old(b.data) && b.mlen == old(b.mlen) && b.Sound() && b.Readable()
    ensures b.Content() == Replaced(m, old(b.Content()), auxf.Content(), auxr.Content(), pos0)
  {
    hide Moved, Replaced;
    var data: array<byte>, acc, pos := b.data, 0, 0;
    acc, pos := ShrinkMatches(m, b, auxf, auxr, pos0);
    ghost var buf := data[..];
    if acc != 0 {
      var i := b.slen;
      CloseUp(data, acc, pos, i);
      MovedParts(buf, pos - acc, buf[pos..i], i);
      assert data[..][..i - acc] == data[..i - acc];
      b.slen := b.slen - acc;
      data[b.slen] := 0;
      assert b.Content() == data[..i - acc];
    } else {
      assert b.Content() == buf[..pos] + buf[pos..b.slen];
    }
  }
}
