/** findreplaceengine of model/c-skeleton/src/lcthw/bstrlib.c: the growing case, which
    finds every match before it moves a byte, and the engine around the three cases. */
module BstrExpand {
  import opened BstrReplace
  import opened BstrSearch
  import opened Bytes

  // ----- What the growing case computes, as functions -----

  /** Where the matches are, and behind them the end of the string. */
  ghost function MatchList(m: Case, s: seq<byte>, f: seq<byte>, pos: nat): (ds: seq<int>)
    requires f != [] && pos <= |s|
    ensures ds != []
    decreases |s| - pos
  {
    FindIsFirst(m, s, f, pos);
    var r := Find(m, s, f, pos);
    if r < 0 then [|s|] else [r] + MatchList(m, s, f, r + |f|)
  }

  // Matches do not overlap, and lie between from and n.
  ghost predicate Spaced(ds: seq<int>, flen: nat, from: int, n: int) {
    && ds != [] && from <= ds[0] && ds[|ds| - 1] == n
    && forall k :: 0 <= k < |ds| - 1 ==> ds[k] + flen <= ds[k + 1]
  }

  // k * gain, one step at a time.
  ghost function Times(k: nat, gain: nat): nat {
    if k == 0 then 0 else Times(k - 1, gain) + gain
  }

  lemma {:induction false} SpacedTail(ds: seq<int>, flen: nat, from: int, n: int, k: nat)
    requires Spaced(ds, flen, from, n) && k < |ds|
    ensures Spaced(ds[k..], flen, from, n) && from <= ds[k] <= n
    decreases k
  {
    if k > 0 {
      assert ds[1..][k - 1..] == ds[k..];
      SpacedTail(ds[1..], flen, from, n, k - 1);
    } else {
      assert ds[0..] == ds;
      SpacedEnd(ds, flen, from, n);
    }
  }

  lemma {:induction false} SpacedEnd(ds: seq<int>, flen: nat, from: int, n: int)
    requires Spaced(ds, flen, from, n)
    ensures ds[0] <= n
  {
    if |ds| > 1 {
      assert ds[0] + flen <= ds[1];
      SpacedEnd(ds[1..], flen, from, n);
    }
  }

  // The output from the first position of ds on.
  ghost function Spread(s: seq<byte>, flen: nat, repl: seq<byte>, ds: seq<int>): seq<byte>
    requires Spaced(ds, flen, 0, |s|)
  {
    SpacedTail(ds, flen, 0, |s|, if |ds| == 1 then 0 else 1);
    assert |ds| > 1 ==> ds[0] + flen <= ds[1];
    if |ds| == 1 then [] else repl + s[ds[0] + flen..ds[1]] + Spread(s, flen, repl, ds[1..])
  }

  lemma {:induction false} MatchListSpaced(m: Case, s: seq<byte>, f: seq<byte>, pos: nat)
    requires f != [] && pos <= |s|
    ensures Spaced(MatchList(m, s, f, pos), |f|, pos, |s|)
    decreases |s| - pos
  {
    hide Spaced, MatchList, Find;
    MatchListUnfold(m, s, f, pos);
    var r := Find(m, s, f, pos);
    if r >= 0 {
      MatchListSpaced(m, s, f, r + |f|);
      SpacedCons(r, MatchList(m, s, f, r + |f|), |f|, pos, |s|);
    } else {
      SpacedOne(|f|, pos, |s|);
    }
  }

  lemma SpacedOne(flen: nat, from: int, n: int)
    requires from <= n
    ensures Spaced([n], flen, from, n)
  {
  }

  lemma SpacedCons(d: int, ds: seq<int>, flen: nat, from: int, n: int)
    requires Spaced(ds, flen, d + flen, n) && from <= d
    ensures Spaced([d] + ds, flen, from, n)
  {
  }

  lemma Regrouped<T>(a: seq<T>, b: seq<T>, c: seq<T>, d: seq<T>)
    ensures a + (b + c + d) == a + b + (c + d)
  {
  }

  /** Spreading the pieces around the listed matches is the simple rewriting. */
  lemma {:induction false} SpreadIsRewrite(m: Case, s: seq<byte>, f: seq<byte>, repl: seq<byte>, pos: nat)
    requires f != [] && pos <= |s| && |f| <= |repl|
    ensures Spaced(MatchList(m, s, f, pos), |f|, 0, |s|) && pos <= MatchList(m, s, f, pos)[0] <= |s|
    ensures Rewrite(m, s, f, repl, pos)
         == s[pos..MatchList(m, s, f, pos)[0]] + Spread(s, |f|, repl, MatchList(m, s, f, pos))
    decreases |s| - pos
  {
    hide Spaced, FirstMatch, MatchAt, Find, MatchList, Rewrite;
    var ds := MatchList(m, s, f, pos);
    ListedFirst(m, s, f, pos);
    RewriteFirst(m, s, f, repl, pos);
    if |ds| > 1 {
      var next := ds[0] + |f|;
      var rest := MatchList(m, s, f, next);
      SpreadIsRewrite(m, s, f, repl, next);
      assert ds[1..] == rest;
      Regrouped(s[pos..ds[0]], repl, s[next..rest[0]], Spread(s, |f|, repl, rest));
    } else {
      assert s[pos..|s|] + [] == s[pos..];
    }
  }

  /** Each match makes the string longer by the same amount. */
  lemma {:induction false} RewriteLength(m: Case, s: seq<byte>, f: seq<byte>, repl: seq<byte>, pos: nat)
    requires f != [] && pos <= |s| && |f| <= |repl|
    ensures |MatchList(m, s, f, pos)| >= 1
    ensures |Rewrite(m, s, f, repl, pos)| == |s| - pos + Times(|MatchList(m, s, f, pos)| - 1, |repl| - |f|)
    decreases |s| - pos
  {
    hide MatchList, Rewrite, Find, Times;
    MatchListUnfold(m, s, f, pos);
    RewriteFirst(m, s, f, repl, pos);
    var r, gain := Find(m, s, f, pos), |repl| - |f|;
    if r >= 0 {
      RewriteLength(m, s, f, repl, r + |f|);
      TimesMore(|MatchList(m, s, f, pos)| - 1, gain);
    } else {
      NoTimes(gain);
    }
  }

  lemma TimesMore(n: nat, gain: nat)
    requires n > 0
    ensures Times(n, gain) == Times(n - 1, gain) + gain
  {
  }

  lemma NoTimes(gain: nat)
    ensures Times(0, gain) == 0
  {
  }

  lemma RewriteFirst(m: Case, s: seq<byte>, f: seq<byte>, repl: seq<byte>, pos: nat)
    requires f != [] && pos <= |s|
    ensures var r := Find(m, s, f, pos);
            && (r < 0 ==> Rewrite(m, s, f, repl, pos) == s[pos..])
            && (r >= 0 ==> pos <= r && r + |f| <= |s|
                           && Rewrite(m, s, f, repl, pos) == s[pos..r] + repl + Rewrite(m, s, f, repl, r + |f|))
  {
    FindIsFirst(m, s, f, pos);
  }

  // The head of the list, and what it says of the reference.
  lemma ListedFirst(m: Case, s: seq<byte>, f: seq<byte>, pos: nat)
    requires f != [] && pos <= |s|
    ensures var ds, r := MatchList(m, s, f, pos), Find(m, s, f, pos);
            && Spaced(ds, |f|, 0, |s|) && pos <= ds[0] <= |s|
            && (r < 0 <==> |ds| == 1) && (|ds| == 1 ==> ds == [|s|])
            && (|ds| > 1 ==> r == ds[0] && r + |f| <= |s| && ds == [r] + MatchList(m, s, f, r + |f|))
  {
    FindIsFirst(m, s, f, pos);
    MatchListSpaced(m, s, f, pos);
    SpacedEnd(MatchList(m, s, f, pos), |f|, pos, |s|);
    var r := Find(m, s, f, pos);
    if r >= 0 {
      MatchListSpaced(m, s, f, r + |f|);
    }
  }

  // ----- Finding the matches -----

  // The sizes that the doubling goes through, up to the last whose bytes fit in an int.
  predicate Doubling(mlen: int) {
    mlen in {0x20, 0x40, 0x80, 0x100, 0x200, 0x400, 0x800, 0x1000, 0x2000, 0x4000, 0x8000,
             0x1_0000, 0x2_0000, 0x4_0000, 0x8_0000, 0x10_0000, 0x20_0000, 0x40_0000, 0x80_0000,
             0x100_0000, 0x200_0000, 0x400_0000, 0x800_0000}
  }

  // One deferred doubling of the array of positions, which starts as the automatic array
  // static_d.  sl is its size in bytes at 8 for a pointer, as an int.
  method GrowIndex(d: array<int>, slen: nat, mlen: int, mem: nat -> bool, n: nat)
    returns (ok: bool, t: array<int>, mlen': int, n': nat)
    requires slen <= d.Length <= 2 * mlen && Doubling(mlen)
    ensures n <= n' && (!ok ==> mlen == 0x800_0000 || Refusal(mem, n, n'))
    ensures t == d || fresh(t)
    ensures ok ==> fresh(t) && mlen' == 2 * mlen <= t.Length == 2 * mlen' && Doubling(mlen')
    ensures ok ==> t[..slen] == d[..slen]
  {
    mlen', ok, t, n' := Wrap(mlen + mlen), false, d, n;
    var sl := Wrap(8 * mlen' % 0x1_0000_0000);
    if mlen' <= 0 || sl < mlen' { return; }
    n' := n + 1;
    if !mem(n) { return; }
    ok, t := true, new int[sl / 4](k requires 0 <= k reads d => if k < d.Length then d[k] else 0);
  }

  // The array has room for the position i, after at most one doubling.
  method Record(d: array<int>, slen: nat, mlen: int, i: int, mem: nat -> bool, n: nat)
    returns (ok: bool, t: array<int>, mlen': int, n': nat)
    requires slen < mlen <= d.Length <= 2 * mlen && Doubling(mlen)
    modifies d
    ensures n <= n' && (!ok ==> slen >= 0x7ff_ffff || Refusal(mem, n, n'))
    ensures t == d || fresh(t)
    ensures ok ==> slen + 1 < mlen' <= t.Length <= 2 * mlen' && Doubling(mlen')
    ensures ok ==> t[..slen + 1] == old(d[..slen]) + [i]
  {
    hide Doubling;
    ok, t, mlen', n' := true, d, mlen, n;
    if slen >= mlen - 1 {
      ok, t, mlen', n' := GrowIndex(d, slen, mlen, mem, n);
      if !ok { return; }
    }
    t[slen] := i;
    assert t[..slen + 1] == t[..slen] + [i];
  }

  lemma {:induction false} TimesGrows(j: nat, k: nat, gain: nat)
    requires j <= k
    ensures Times(j, gain) <= Times(k, gain)
  {
    if j < k {
      TimesGrows(j, k - 1, gain);
    }
  }

  lemma StepTimes(j: nat, k: nat, gain: nat)
    requires 1 <= j <= k
    ensures Times(j, gain) == Times(j - 1, gain) + gain <= Times(k, gain)
  {
    TimesGrows(j, k, gain);
  }

  lemma Start(gain: nat)
    ensures Doubling(0x20) && Times(0, gain) == 0
  {
  }

  // A match at i is the next on the list.
  lemma Listed(m: Case, s: seq<byte>, f: seq<byte>, pos: nat, i: int)
    requires f != [] && pos <= |s| && FirstMatch(m, s, f, pos, i)
    ensures i < 0 ==> MatchList(m, s, f, pos) == [|s|]
    ensures i >= 0 ==> pos <= i && i + |f| <= |s|
    ensures i >= 0 ==> MatchList(m, s, f, pos) == [i] + MatchList(m, s, f, i + |f|)
  {
    hide *;
    FirstMatchIsFind(m, s, f, pos, i);
    MatchListUnfold(m, s, f, pos);
  }

  lemma MatchListUnfold(m: Case, s: seq<byte>, f: seq<byte>, pos: nat)
    requires f != [] && pos <= |s|
    ensures var r := Find(m, s, f, pos);
            && (r < 0 ==> MatchList(m, s, f, pos) == [|s|])
            && (r >= 0 ==> pos <= r && r + |f| <= |s| && MatchList(m, s, f, pos) == [r] + MatchList(m, s, f, r + |f|))
  {
    FindIsFirst(m, s, f, pos);
    hide Find;
  }

  // Why the search for matches may give up: a refused request, too many matches to
  // index, or a result that is too long.
  ghost predicate GaveUp(mem: nat -> bool, n: nat, n': nat, matches: int, gain: nat) {
    || Refusal(mem, n, n')
    || matches >= 0x800_0000
    || (matches >= 0 && Times(matches, gain) > INT_MAX)
  }

  /** All matches, in order, and behind them the end of the string. */
  method FindAll(m: Case, b: Bstring, auxf: Bstring, gain: nat, pos0: nat, mem: nat -> bool, n: nat)
    returns (ret: int, d: array<int>, slen: nat, acc: nat, n': nat)
    requires b.Sound() && b.Readable() && auxf.Sound() && auxf.Readable() && auxf.slen > 0
    requires pos0 <= b.slen <= INT_MAX && gain <= INT_MAX
    ensures n <= n' && (ret == BSTR_OK || ret == BSTR_ERR)
    ensures ret == BSTR_OK ==> fresh(d) && slen < d.Length && acc == Times(slen, gain) <= INT_MAX
    ensures ret == BSTR_OK ==> d[..slen + 1] == MatchList(m, b.Content(), auxf.Content(), pos0)
    ensures ret == BSTR_ERR ==> GaveUp(mem, n, n', |MatchList(m, b.Content(), auxf.Content(), pos0)| - 1, gain)
  {
    hide FirstMatch, MatchList, Doubling, Times;
    ghost var s, f := b.Content(), auxf.Content();
    ghost var all := MatchList(m, s, f, pos0);
    var mlen, pos := 0x20, pos0;
    d := new int[0x21];
    ret, slen, acc, n' := BSTR_OK, 0, 0, n;
    Start(gain);
    assert d[..0] + all == all;
    var i := Instr(m, b, pos, auxf);
    while i >= 0
      invariant pos <= b.slen && FirstMatch(m, s, f, pos, i)
      invariant fresh(d) && slen < mlen <= d.Length <= 2 * mlen && Doubling(mlen) && n <= n'
      invariant d[..slen] + MatchList(m, s, f, pos) == all && acc == Times(slen, gain) <= INT_MAX
      decreases b.slen - pos
    {
      Listed(m, s, f, pos, i);
      ghost var found, rest := d[..slen], MatchList(m, s, f, i + auxf.slen);
      assert all == found + ([i] + rest) == found + [i] + rest;
      var ok;
      ok, d, mlen, n' := Record(d, slen, mlen, i, mem, n');
      if !ok { return BSTR_ERR, d, slen, acc, n'; }
      slen := slen + 1;
      pos := i + auxf.slen;
      StepTimes(slen, |all| - 1, gain);
      if Wrap(acc + gain) < 0 { return BSTR_ERR, d, slen, acc, n'; }
      acc := acc + gain;
      i := Instr(m, b, pos, auxf);
    }
    Listed(m, s, f, pos, i);
    d[slen] := b.slen;
    assert d[..slen + 1] == d[..slen] + [b.slen];
  }

  // ----- Moving the pieces -----

  // The output is right from the k-th match on, and up to it there is still the input.
  ghost predicate SpreadFrom(s: seq<byte>, flen: nat, repl: seq<byte>, ds: seq<int>, k: nat, gain: nat,
                             len: nat, buf: seq<byte>)
    requires Spaced(ds, flen, 0, |s|) && k < |ds|
  {
    SpacedTail(ds, flen, 0, |s|, k);
    && ds[k] + Times(k, gain) <= len <= |buf| && ds[k] <= |s|
    && buf[..ds[k]] == s[..ds[k]]
    && buf[ds[k] + Times(k, gain)..len] == Spread(s, flen, repl, ds[k..])
  }

  lemma MovedSlices(dst: seq<byte>, d: nat, what: seq<byte>, k: nat, len: nat)
    requires k <= d && d + |what| <= len <= |dst|
    ensures |Moved(dst, d, what)| == |dst|
    ensures Moved(dst, d, what)[..k] == dst[..k]
    ensures Moved(dst, d, what)[d..len] == what + dst[d + |what|..len]
  {
  }

  // The piece behind match k moves up to its place, and repl goes before it.
  lemma SpreadStep(s: seq<byte>, flen: nat, repl: seq<byte>, ds: seq<int>, k: nat, gain: nat, len: nat, buf: seq<byte>)
    requires Spaced(ds, flen, 0, |s|) && k + 1 < |ds| && flen + gain == |repl|
    requires SpreadFrom(s, flen, repl, ds, k + 1, gain, len, buf)
    ensures 0 <= ds[k] && ds[k] + flen <= ds[k + 1] <= |s| && ds[k + 1] + Times(k + 1, gain) <= len <= |buf|
    ensures Times(k + 1, gain) == Times(k, gain) + gain
    ensures var after := ds[k] + flen; var shift := Times(k + 1, gain);
            && |Moved(buf, after + shift, buf[after..ds[k + 1]])| == |buf|
            && SpreadFrom(s, flen, repl, ds, k, gain, len,
                          Moved(Moved(buf, after + shift, buf[after..ds[k + 1]]), after + shift - |repl|, repl))
  {
    hide Moved, Times, Spread, Spaced;
    StepTimes(k + 1, k + 1, gain);
    SpreadStepEnd(s, flen, repl, ds, k);
    PieceMoves(s, buf, ds[k], ds[k] + flen, ds[k + 1], Times(k + 1, gain), repl, len);
  }

  lemma PieceMoves(s: seq<byte>, buf: seq<byte>, lo: nat, after: nat, next: nat, shift: nat, repl: seq<byte>, len: nat)
    requires lo <= after <= next <= |s| && next + shift <= len <= |buf| && lo <= after + shift - |repl|
    requires buf[..next] == s[..next]
    ensures var buf1 := Moved(buf, after + shift, buf[after..next]);
            |buf1| == |buf| && var buf2 := Moved(buf1, after + shift - |repl|, repl);
            && |buf2| == |buf| && buf2[..lo] == s[..lo]
            && buf2[after + shift - |repl|..len] == repl + (s[after..next] + buf[next + shift..len])
  {
    hide Moved;
    var what := buf[after..next];
    assert what == buf[..next][after..] == s[after..next];
    MovedSlices(buf, after + shift, what, lo, len);
    MovedSlices(Moved(buf, after + shift, what), after + shift - |repl|, repl, lo, len);
    assert buf[..lo] == buf[..next][..lo] == s[..lo];
  }

  lemma SpreadStepEnd(s: seq<byte>, flen: nat, repl: seq<byte>, ds: seq<int>, k: nat)
    requires Spaced(ds, flen, 0, |s|) && k + 1 < |ds|
    ensures Spaced(ds[k..], flen, 0, |s|) && Spaced(ds[k + 1..], flen, 0, |s|)
    ensures 0 <= ds[k] && ds[k] + flen <= ds[k + 1] <= |s|
    ensures Spread(s, flen, repl, ds[k..])
         == repl + (s[ds[k] + flen..ds[k + 1]] + Spread(s, flen, repl, ds[k + 1..]))
  {
    SpacedTail(ds, flen, 0, |s|, k);
    SpacedTail(ds, flen, 0, |s|, k + 1);
    assert ds[k..][1..] == ds[k + 1..];
    assert ds[k] + flen <= ds[k + 1];
  }

  lemma NothingSpread(s: seq<byte>, flen: nat, repl: seq<byte>, ds: seq<int>, gain: nat, buf: seq<byte>)
    requires Spaced(ds, flen, 0, |s|) && |s| + Times(|ds| - 1, gain) <= |buf| && buf[..|s|] == s
    ensures SpreadFrom(s, flen, repl, ds, |ds| - 1, gain, |s| + Times(|ds| - 1, gain), buf)
  {
    SpacedTail(ds, flen, 0, |s|, |ds| - 1);
  }

  lemma AllSpread(s: seq<byte>, flen: nat, repl: seq<byte>, ds: seq<int>, gain: nat, len: nat, buf: seq<byte>)
    requires Spaced(ds, flen, 0, |s|) && SpreadFrom(s, flen, repl, ds, 0, gain, len, buf)
    ensures 0 <= ds[0] <= |s| && buf[..len] == s[..ds[0]] + Spread(s, flen, repl, ds)
  {
    assert ds[0..] == ds;
    assert buf[..len] == buf[..ds[0]] + buf[ds[0]..len];
  }

  /** The last loop of the growing case, from the last match back to the first. */
  method SpreadPieces(data: array<byte>, ghost s: seq<byte>, d: array<int>, slen: nat, growth: nat,
                      auxf: Bstring, auxr: Bstring)
    requires auxr.Sound() && auxr.Readable() && data != auxr.data && 0 < auxf.slen < auxr.slen
    requires slen < d.Length && Spaced(d[..slen + 1], auxf.slen, 0, |s|)
    requires growth == Times(slen, auxr.slen - auxf.slen) && |s| + growth <= data.Length && data[..|s|] == s
    modifies data
    ensures 0 <= d[0] <= |s|
    ensures data[..|s| + growth] == s[..d[0]] + Spread(s, auxf.slen, auxr.Content(), d[..slen + 1])
  {
    hide Moved, Times, Spread, Spaced, SpreadFrom;
    ghost var ds, gain, repl := d[..slen + 1], auxr.slen - auxf.slen, auxr.Content();
    ghost var len := |s| + growth;
    assert data[..][..|s|] == data[..|s|];
    NothingSpread(s, auxf.slen, repl, ds, gain, data[..]);
    var i, acc := slen - 1, growth;
    while i >= 0
      invariant -1 <= i < slen && acc == Times(i + 1, gain) && repl == auxr.Content()
      invariant SpreadFrom(s, auxf.slen, repl, ds, i + 1, gain, len, data[..])
    {
      SpreadStep(s, auxf.slen, repl, ds, i, gain, len, data[..]);
      assert d[i] == ds[i] && d[i + 1] == ds[i + 1];
      var after := d[i] + auxf.slen;
      var l := d[i + 1] - after;
      assert data[..][after..after + l] == data[after..after + l];
      if l != 0 {
        Move(data, after + acc, data, after, l);
      } else {
        MovedNowhere(data[..], after + acc, after + acc);
        assert data[..][after..after + l] == [];
      }
      if auxr.slen != 0 {
        Move(data, after + acc - auxr.slen, auxr.data, 0, auxr.slen);
      }
      acc := acc + (auxf.slen - auxr.slen);
      i := i - 1;
    }
    AllSpread(s, auxf.slen, repl, ds, gain, len, data[..]);
    assert data[..][..len] == data[..len];
  }

  // Why a well-formed call may fail: a refused request, a result whose length with its
  // terminator is no int, or more matches than can be indexed.
  ghost predicate Refused(mem: nat -> bool, n: nat, n': nat, m: Case, s: seq<byte>, f: seq<byte>, repl: seq<byte>,
                          pos: nat)
    requires f != []
  {
    || Refusal(mem, n, n')
    || |Replaced(m, s, f, repl, pos)| >= INT_MAX
    || (pos <= |s| && |MatchList(m, s, f, pos)| > 0x800_0000)
  }

  lemma GrowthIsReplaced(m: Case, s: seq<byte>, f: seq<byte>, repl: seq<byte>, pos: nat)
    requires f != [] && pos <= |s| && |f| <= |repl|
    ensures var ds := MatchList(m, s, f, pos);
            && Spaced(ds, |f|, 0, |s|) && pos <= ds[0] <= |s|
            && Replaced(m, s, f, repl, pos) == s[..ds[0]] + Spread(s, |f|, repl, ds)
            && |Replaced(m, s, f, repl, pos)| == |s| + Times(|ds| - 1, |repl| - |f|)
  {
    hide MatchList, Rewrite, Spaced, Spread, Times;
    SpreadIsRewrite(m, s, f, repl, pos);
    RewriteLength(m, s, f, repl, pos);
    var lo := MatchList(m, s, f, pos)[0];
    assert s[..lo] == s[..pos] + s[pos..lo];
  }

  /** delta < 0: find all matches, make room once, and spread the pieces out. */
  method ReplaceGrowing(m: Case, b: Bstring, auxf: Bstring, auxr: Bstring, pos0: nat, mem: nat -> bool, n: nat)
    returns (ret: int, n': nat)
    requires Apart(b, auxf, auxr) && pos0 <= b.slen && auxf.slen < auxr.slen <= INT_MAX
    requires b.slen <= b.mlen && 0 < b.mlen && b.slen <= INT_MAX
    modifies b, b.data
    ensures n <= n' && (ret == BSTR_OK || ret == BSTR_ERR) && b.Sound() && b.Readable()
    ensures ret == BSTR_OK ==> b.Content() == Replaced(m, old(b.Content()), auxf.Content(), auxr.Content(), pos0)
    ensures ret == BSTR_ERR ==> b.Content() == old(b.Content()) && b.data == old(b.data)
    ensures ret == BSTR_ERR ==> Refused(mem, n, n', m, old(b.Content()), auxf.Content(), auxr.Content(), pos0)
  {
    hide MatchList, Replaced, Spaced, Spread, Times;
    ghost var s, f, repl := b.Content(), auxf.Content(), auxr.Content();
    GrowthIsReplaced(m, s, f, repl, pos0);
    var d, slen, acc;
    ret, d, slen, acc, n' := FindAll(m, b, auxf, auxr.slen - auxf.slen, pos0, mem, n);
    if ret != BSTR_OK { return; }
    ghost var mid := n';
    ret, n' := Balloc(b, Wrap(b.slen + acc + 1), mem, n');
    if ret == BSTR_OK {
      assert b.data[..|s|] == s;
      SpreadPieces(b.data, s, d, slen, acc, auxf, auxr);
      b.slen := b.slen + acc;
      b.data[b.slen] := 0;
      assert b.Content() == b.data[..|s| + acc];
      assert d[0] == d[..slen + 1][0];
    }
  }

  // ----- The engine -----

  // The argument test at the head of findreplaceengine.
  predicate Acceptable(b: Bstring?, find: Bstring?, repl: Bstring?, pos: int)
    reads b, find, repl
  {
    && b != null && b.data != null && find != null && find.data != null && repl != null && repl.data != null
    && pos >= 0 && find.slen > 0 && b.slen <= b.mlen && b.mlen > 0 && b.slen >= 0 && repl.slen >= 0
  }

  // What C takes on trust: memory behind the fields, fields that are ints with room for
  // a terminator, and strings that are the same object or apart.
  ghost predicate Trusted(b: Bstring?, find: Bstring?, repl: Bstring?)
    reads b, find, repl
  {
    && (b != null ==> b.Sound() && b.slen < INT_MAX)
    && (find != null ==> find.Sound() && find.slen < INT_MAX)
    && (repl != null ==> repl.Sound() && repl.slen < INT_MAX)
    && (b != null && find != null && b != find && b.data != null ==> b.data != find.data)
    && (b != null && repl != null && b != repl && b.data != null ==> b.data != repl.data)
  }

  // Where the pattern no longer fits there is nothing to rewrite.
  lemma NothingToReplace(m: Case, s: seq<byte>, f: seq<byte>, repl: seq<byte>, pos: nat)
    requires f != [] && pos > |s| - |f|
    ensures Replaced(m, s, f, repl, pos) == s
  {
  }

  /** The three algorithms behind one front, for strings that are already apart. */
  method ReplaceApart(m: Case, b: Bstring, auxf: Bstring, auxr: Bstring, pos: nat, mem: nat -> bool, n: nat)
    returns (ret: int, n': nat)
    requires Apart(b, auxf, auxr) && pos <= b.slen && auxr.slen < INT_MAX
    requires b.slen <= b.mlen && 0 < b.mlen && b.slen < INT_MAX
    modifies b, b.data
    ensures n <= n' && (ret == BSTR_OK || ret == BSTR_ERR) && b.Sound() && b.Readable()
    ensures ret == BSTR_OK ==> b.Content() == Replaced(m, old(b.Content()), auxf.Content(), auxr.Content(), pos)
    ensures ret == BSTR_ERR ==> b.Content() == old(b.Content())
    ensures ret == BSTR_ERR ==> Refused(mem, n, n', m, old(b.Content()), auxf.Content(), auxr.Content(), pos)
  {
    hide Replaced, Refused;
    ret, n' := BSTR_OK, n;
    var delta := auxf.slen - auxr.slen;
    if delta == 0 {
      ReplaceEqual(m, b, auxf, auxr, pos);
    } else if delta > 0 {
      ReplaceShrinking(m, b, auxf, auxr, pos);
    } else {
      ret, n' := ReplaceGrowing(m, b, auxf, auxr, pos, mem, n);
    }
  }

  // The alias tests: a string that shares b's memory is copied first.
  method Unalias(b: Bstring, t: Bstring, pos: nat, mem: nat -> bool, n: nat) returns (c: Bstring?, n': nat)
    requires b.Sound() && t.Sound() && t.Readable() && t.slen < INT_MAX
    requires (b == t && b.data != null && pos < t.slen) || b.data != t.data
    ensures n <= n' && (c == null ==> Refusal(mem, n, n'))
    ensures c != null ==> c.Sound() && c.Readable() && c.Content() == t.Content() && c.slen == t.slen
    ensures c != null ==> c != b && c.data != b.data && (c == t || (fresh(c) && fresh(c.data)))
  {
    c, n' := t, n;
    if b.data == t.data && pos - t.slen < 0 < b.slen {
      c, n' := Copy(t, mem, n);
    }
  }

  lemma ReplacedIs(m: Case, s: seq<byte>, f: seq<byte>, repl: seq<byte>, pos: nat)
    requires f != []
    ensures Replaced(m, s, f, repl, pos) == if pos > |s| then s else s[..pos] + Rewrite(m, s, f, repl, pos)
  {
  }

  /** findreplaceengine, for either search function m.  A success leaves exactly the
      simple rewriting, a failure leaves the string alone, and well-formed calls fail
      only for want of memory or of range. */
  method FindReplaceEngine(m: Case, b: Bstring?, find: Bstring?, repl: Bstring?, pos: int, mem: nat -> bool)
    returns (ret: int, used: nat)
    requires Trusted(b, find, repl)
    modifies b, if b == null then {} else {b.data}
    ensures ret == BSTR_OK || ret == BSTR_ERR
    ensures !old(Acceptable(b, find, repl, pos)) ==> ret == BSTR_ERR
    ensures !old(Acceptable(b, find, repl, pos)) && b != null
            ==> unchanged(b) && (b.data != null ==> unchanged(b.data))
    ensures old(Acceptable(b, find, repl, pos)) ==> b.Sound() && b.Readable()
    ensures old(Acceptable(b, find, repl, pos)) && ret == BSTR_ERR ==> b.Content() == old(b.Content())
    ensures old(Acceptable(b, find, repl, pos)) && ret == BSTR_OK
            ==> b.Content() == Replaced(m, old(b.Content()), old(find.Content()), old(repl.Content()), pos)
    ensures old(Acceptable(b, find, repl, pos)) && ret == BSTR_OK
            ==> && (pos > old(b.slen) ==> b.Content() == old(b.Content()))
                && (pos <= old(b.slen)
                    ==> b.Content() == old(b.Content())[..pos]
                                       + Rewrite(m, old(b.Content()), old(find.Content()), old(repl.Content()), pos))
    ensures old(b != null && b.data != null && find != null && find.data != null && repl != null && repl.data != null)
              && old(0 <= b.slen <= b.mlen && b.mlen > 0 && find.slen > 0 && repl.slen >= 0) && pos >= 0
              && (forall k: nat :: mem(k))
              && |Replaced(m, old(b.Content()), old(find.Content()), old(repl.Content()), pos)| < INT_MAX
              && (pos <= old(b.slen) ==> |MatchList(m, old(b.Content()), old(find.Content()), pos)| <= 0x800_0000)
            ==> ret == BSTR_OK
    ensures old(Acceptable(b, find, repl, pos)) && ret == BSTR_ERR
            ==> Refused(mem, 0, used, m, old(b.Content()), old(find.Content()), old(repl.Content()), pos)
  {
    used := 0;
    if b == null || b.data == null || find == null || find.data == null || repl == null || repl.data == null
      || pos < 0 || find.slen <= 0 || b.mlen < 0 || b.slen > b.mlen || b.mlen <= 0 || b.slen < 0 || repl.slen < 0 {
      return BSTR_ERR, 0;
    }
    ghost var s, f, r := b.Content(), find.Content(), repl.Content();
    ReplacedIs(m, s, f, r, pos);
    if pos > b.slen - find.slen {
      NothingToReplace(m, s, f, r, pos);
      return BSTR_OK, 0;
    }
    hide Replaced, MatchList, Rewrite;
    var auxf, auxr;
    auxf, used := Unalias(b, find, pos, mem, 0);
    if auxf == null { return BSTR_ERR, used; }
    auxr, used := Unalias(b, repl, pos, mem, used);
    if auxr == null { return BSTR_ERR, used; }
    assert auxf.Content() == f && auxr.Content() == r;
    ret, used := ReplaceApart(m, b, auxf, auxr, pos, mem, used);
  }
}
