/** Substring search in model/c-skeleton/src/lcthw/bstrlib.c: the byte strings, and the
    two forward searchers binstr and binstrcaseless. */
module BstrSearch {
  import opened Bytes

  const BSTR_OK := 0
  const BSTR_ERR := -1

  // struct tagbstring; mlen is the size of the allocation, or not positive when the
  // string is write-protected.
  class Bstring {
    var mlen: int
    var slen: int
    var data: array?<byte>

    // The fields say something that a reader can use.
    predicate Readable()
      reads this
    {
      data != null && slen >= 0
    }

    // The memory behind the fields: what C takes on trust.
    ghost predicate Sound()
      reads this
    {
      data != null ==> slen <= data.Length && mlen <= data.Length
    }

    ghost function Content(): seq<byte>
      requires Readable() && Sound()
      reads this, data
    {
      data[..slen]
    }

    constructor (content: array<byte>, slen: int, mlen: int)
      requires slen <= content.Length && mlen <= content.Length
      ensures this.data == content && this.slen == slen && this.mlen == mlen && Sound()
    {
      this.data, this.slen, this.mlen := content, slen, mlen;
    }
  }

  // downcase: tolower of the C locale.
  function Downcase(b: byte): byte {
    if 65 <= b <= 90 then b + 32 else b
  }

  // How a searcher compares bytes.
  datatype Case = Exact | CaseLess {
    function Fold(b: byte): byte {
      if Exact? then b else Downcase(b)
    }
  }

  /** Without case, a byte is found for itself and, if it is a letter, for the letter 32
      apart; otherwise only for itself. */
  lemma FoldMeans(a: byte, b: byte)
    ensures Exact.Fold(a) == Exact.Fold(b) <==> a == b
    ensures CaseLess.Fold(a) == CaseLess.Fold(b)
       <==> a == b || (65 <= a <= 90 && b == a + 32) || (65 <= b <= 90 && a == b + 32)
  {
  }

  // f occurs in s at i.
  ghost predicate MatchAt(m: Case, s: seq<byte>, f: seq<byte>, i: int) {
    && 0 <= i && i + |f| <= |s|
    && forall k :: 0 <= k < |f| ==> m.Fold(f[k]) == m.Fold(s[i + k])
  }

  /** The answer both searchers owe: the least position from pos on, or BSTR_ERR exactly
      when there is none. */
  ghost predicate FirstMatch(m: Case, s: seq<byte>, f: seq<byte>, pos: nat, r: int) {
    if r == BSTR_ERR then forall i :: pos <= i ==> !MatchAt(m, s, f, i)
    else pos <= r && MatchAt(m, s, f, r) && forall i :: pos <= i < r ==> !MatchAt(m, s, f, i)
  }

  /** binstr: matches greedily as a subsequence, steps by two, and backs up by the
      pattern length when the subsequence was not contiguous; it returns the first
      occurrence all the same. */
  method Binstr(b1: Bstring?, pos: int, b2: Bstring?) returns (r: int)
    requires b1 != null ==> b1.Sound()
    requires b2 != null ==> b2.Sound()
    ensures b1 == null || b2 == null || !b1.Readable() || !b2.Readable() || pos < 0 ==> r == BSTR_ERR
    ensures b1 != null && b2 != null && b1.Readable() && b2.Readable() && pos >= 0
            ==> FirstMatch(Exact, b1.Content(), b2.Content(), pos, r)
  {
    if b1 == null || b1.data == null || b1.slen < 0 || b2 == null || b2.data == null || b2.slen < 0 {
      return BSTR_ERR;
    }
    ghost var s, f := b1.Content(), b2.Content();
    if b1.slen == pos { return if b2.slen == 0 then pos else BSTR_ERR; }
    if b1.slen < pos || pos < 0 { return BSTR_ERR; }
    if b2.slen == 0 { return pos; }
    var lf := b1.slen - b2.slen + 1;
    if lf <= pos { return BSTR_ERR; }
    if b1.data == b2.data && pos == 0 { return 0; }
    var i := pos;
    var d0, d1, ll := b2.data, b1.data, b2.slen;
    var c0 := d0[0];
    if 1 == ll {
      while i < lf
        invariant pos <= i <= lf
        invariant forall t :: pos <= t < i ==> !MatchAt(Exact, s, f, t)
      {
        if c0 == d1[i] { return i; }
        i := i + 1;
      }
      return BSTR_ERR;
    }
    r := Subsequence(d1, b1.slen, d0, ll, pos);
  }

  // The main loop of binstr, for patterns of two bytes or more.  The second disjunct
  // of the guard is the test after the loop that jumps back to the label N0.
  method Subsequence(d1: array<byte>, slen: nat, d0: array<byte>, ll: nat, pos: nat) returns (r: int)
    requires slen <= d1.Length && 2 <= ll <= d0.Length && pos + ll <= slen
    ensures FirstMatch(Exact, d1[..slen], d0[..ll], pos, r)
  {
    ghost var s, f := d1[..slen], d0[..ll];
    var i, j, ii, c0 := pos, 0, -1, d0[0];
    var c1 := c0;
    var lf := slen - 1;
    ghost var base := pos; // where the current subsequence match began looking
    while i < lf || (i == lf && ll == j + 1 && c1 == d1[i])
      invariant pos <= base <= i <= slen && 0 <= j < ll && c1 == d0[j]
      // nothing before base, and what comes after still has its bytes j, ... ahead
      invariant forall t :: pos <= t < base ==> !MatchAt(Exact, s, f, t)
      invariant forall t :: base <= t && MatchAt(Exact, s, f, t) ==> i <= t + j
      invariant j > 0 ==> base <= ii && ii + j <= i && forall t :: base <= t && MatchAt(Exact, s, f, t) ==> ii <= t
      invariant j > 0 && ii + j == i ==> d1[ii..i] == d0[..j]
      decreases slen - base, slen - i, if i == lf then 1 else 0
    {
      if i < lf {
        if c1 != d1[i] {
          NotHere(s, f, base, i, j);
          if c1 != d1[i + 1] {
            NotHere(s, f, base, i + 1, j);
            i := i + 2;
            continue;
          }
          i := i + 1;
        }
        if j == 0 { ii := i; }
        assert ii + j == i ==> d1[ii..i + 1] == d0[..j + 1];
        j := j + 1;
        i := i + 1;
        if j < ll {
          c1 := d0[j];
          continue;
        }
      }
      // N0
      if i == ii + j {
        return ii;
      }
      i := i - j;
      j := 0;
      c1 := c0;
      base := i;
    }
    r := BSTR_ERR;
  }

  // A candidate whose byte j is not at i has it further on.
  lemma NotHere(s: seq<byte>, f: seq<byte>, base: nat, i: nat, j: nat)
    requires j < |f| && i < |s| && f[j] != s[i]
    requires forall t :: base <= t && MatchAt(Exact, s, f, t) ==> i <= t + j
    ensures forall t :: base <= t && MatchAt(Exact, s, f, t) ==> i + 1 <= t + j
  {
  }

  /** binstrcaseless: brute force, up to case. */
  method Binstrcaseless(b1: Bstring?, pos: int, b2: Bstring?) returns (r: int)
    requires b1 != null ==> b1.Sound()
    requires b2 != null ==> b2.Sound()
    ensures b1 == null || b2 == null || !b1.Readable() || !b2.Readable() || pos < 0 ==> r == BSTR_ERR
    ensures b1 != null && b2 != null && b1.Readable() && b2.Readable() && pos >= 0
            ==> FirstMatch(CaseLess, b1.Content(), b2.Content(), pos, r)
  {
    if b1 == null || b1.data == null || b1.slen < 0 || b2 == null || b2.data == null || b2.slen < 0 {
      return BSTR_ERR;
    }
    ghost var s, f := b1.Content(), b2.Content();
    if b1.slen == pos { return if b2.slen == 0 then pos else BSTR_ERR; }
    if b1.slen < pos || pos < 0 { return BSTR_ERR; }
    if b2.slen == 0 { return pos; }
    var l := b1.slen - b2.slen + 1;
    if l <= pos { return BSTR_ERR; }
    if b1.data == b2.data && pos == 0 { return BSTR_OK; }
    r := BruteForce(b1.data, b1.slen, b2.data, b2.slen, pos);
  }

  // The loop of binstrcaseless.
  method BruteForce(d1: array<byte>, slen: nat, d0: array<byte>, ll: nat, pos: nat) returns (r: int)
    requires slen <= d1.Length && 1 <= ll <= d0.Length && pos + ll <= slen
    ensures FirstMatch(CaseLess, d1[..slen], d0[..ll], pos, r)
  {
    ghost var s, f := d1[..slen], d0[..ll];
    var i, j, l := pos, 0, slen - ll + 1;
    while true
      invariant pos <= i < l && 0 <= j < ll
      invariant forall t :: pos <= t < i ==> !MatchAt(CaseLess, s, f, t)
      invariant forall k :: 0 <= k < j ==> CaseLess.Fold(f[k]) == CaseLess.Fold(s[i + k])
      decreases l - i, ll - j
    {
      if d0[j] == d1[i + j] || Downcase(d0[j]) == Downcase(d1[i + j]) {
        j := j + 1;
        if j >= ll { return i; }
      } else {
        assert f[j] == d0[j] && s[i + j] == d1[i + j];
        assert !MatchAt(CaseLess, s, f, i);
        i := i + 1;
        if i >= l { break; }
        j := 0;
      }
    }
    r := BSTR_ERR;
  }

  /** Searching through a function pointer, as findreplaceengine does. */
  method Instr(m: Case, b1: Bstring, pos: int, b2: Bstring) returns (r: int)
    requires b1.Sound() && b2.Sound() && b1.Readable() && b2.Readable() && pos >= 0
    ensures FirstMatch(m, b1.Content(), b2.Content(), pos, r)
  {
    if m.Exact? {
      r := Binstr(b1, pos, b2);
    } else {
      r := Binstrcaseless(b1, pos, b2);
    }
  }

  // ----- The answer as a function -----

  ghost function Find(m: Case, s: seq<byte>, f: seq<byte>, pos: nat): int
    decreases |s| - pos
  {
    if pos + |f| > |s| then BSTR_ERR
    else if MatchAt(m, s, f, pos) then pos
    else Find(m, s, f, pos + 1)
  }

  lemma {:induction false} FindIsFirst(m: Case, s: seq<byte>, f: seq<byte>, pos: nat)
    ensures FirstMatch(m, s, f, pos, Find(m, s, f, pos))
    decreases |s| - pos
  {
    if pos + |f| <= |s| && !MatchAt(m, s, f, pos) {
      FindIsFirst(m, s, f, pos + 1);
    }
  }

  /** There is only one right answer. */
  lemma FirstMatchIsFind(m: Case, s: seq<byte>, f: seq<byte>, pos: nat, r: int)
    ensures FirstMatch(m, s, f, pos, r) <==> r == Find(m, s, f, pos)
  {
    FindIsFirst(m, s, f, pos);
  }
}
