/** Unsigned words as numbers: the bitwise operators of C, digit by digit, and what they
    come to where one side is a run of ones. */
module Binary {

  function Pow2(n: nat): (p: nat)
    ensures p > 0
  {
    if n == 0 then 1 else 2 * Pow2(n - 1)
  }

  // a & b.
  function BitAnd(a: nat, b: nat): nat
    decreases a
  {
    if a == 0 || b == 0 then 0 else 2 * BitAnd(a / 2, b / 2) + (if a % 2 == 1 && b % 2 == 1 then 1 else 0)
  }

  // a | b.
  function BitOr(a: nat, b: nat): nat
    decreases a + b
  {
    if a == 0 then b else if b == 0 then a
    else 2 * BitOr(a / 2, b / 2) + (if a % 2 == 1 || b % 2 == 1 then 1 else 0)
  }

  // a >> n.
  function Shr(a: nat, n: nat): nat {
    if n == 0 then a else Shr(a / 2, n - 1)
  }

  lemma ProductIsNonNegative(a: nat, b: nat)
    ensures a * b >= 0
  {
  }

  lemma MultipleIsFar(d: int, k: int)
    requires d > 0 && k != 0
    ensures d * k >= d || d * k <= -d
  {
    if k > 0 {
      ProductIsNonNegative(d, k - 1);
      assert d * k == d * (k - 1) + d;
    } else {
      ProductIsNonNegative(d, -k - 1);
      assert d * k == -(d * (-k - 1)) - d;
    }
  }

  lemma RemainderIs(x: int, d: int, q: int, r: int)
    requires d > 0 && x == d * q + r && 0 <= r < d
    ensures x % d == r
  {
    var k := x / d - q;
    assert d * k == r - x % d;
    if k != 0 {
      MultipleIsFar(d, k);
    }
  }

  // The last digit and the rest.
  lemma HalvesModulo(x: nat, m: nat)
    requires m > 0
    ensures x % (2 * m) == 2 * (x / 2 % m) + x % 2
  {
    var h := x / 2;
    assert h == m * (h / m) + h % m;
    assert 2 * m * (h / m) == 2 * (m * (h / m));
    RemainderIs(x, 2 * m, h / m, 2 * (h % m) + x % 2);
  }

  /** Masking with n ones is taking the remainder by 2^n. */
  lemma {:induction false} MaskIsModulus(x: nat, n: nat)
    ensures BitAnd(x, Pow2(n) - 1) == x % Pow2(n)
    decreases n
  {
    if n > 0 {
      MaskIsModulus(x / 2, n - 1);
      HalvesModulo(x, Pow2(n - 1));
      assert (Pow2(n) - 1) / 2 == Pow2(n - 1) - 1 && (Pow2(n) - 1) % 2 == 1;
    }
  }

  // ----- Digits -----

  ghost predicate Digit(x: nat, i: nat) {
    if i == 0 then x % 2 == 1 else Digit(x / 2, i - 1)
  }

  // The number of digits.
  ghost function Length(x: nat): nat {
    if x == 0 then 0 else 1 + Length(x / 2)
  }

  lemma {:induction false} DigitOfZero(i: nat)
    ensures !Digit(0, i)
  {
    if i > 0 {
      DigitOfZero(i - 1);
    }
  }

  // The last digit of an or, and the rest.
  lemma OrOfHalves(a: nat, b: nat)
    ensures BitOr(a, b) / 2 == BitOr(a / 2, b / 2)
    ensures BitOr(a, b) % 2 == 1 <==> a % 2 == 1 || b % 2 == 1
  {
    if a == 0 || b == 0 {
      assert a / 2 == 0 || b / 2 == 0;
    } else {
      var r, d := BitOr(a / 2, b / 2), if a % 2 == 1 || b % 2 == 1 then 1 else 0;
      assert BitOr(a, b) == 2 * r + d;
      hide BitOr;
      assert (2 * r + d) / 2 == r && (2 * r + d) % 2 == d;
    }
  }

  lemma DigitOfHalf(x: nat, i: nat)
    ensures Digit(x, 0) <==> x % 2 == 1
    ensures i > 0 ==> (Digit(x, i) <==> Digit(x / 2, i - 1))
  {
  }

  lemma {:induction false} DigitOfOr(a: nat, b: nat, i: nat)
    ensures Digit(BitOr(a, b), i) <==> Digit(a, i) || Digit(b, i)
    decreases i
  {
    hide Digit, BitOr;
    OrOfHalves(a, b);
    DigitOfHalf(a, i);
    DigitOfHalf(b, i);
    DigitOfHalf(BitOr(a, b), i);
    if i > 0 {
      DigitOfOr(a / 2, b / 2, i - 1);
    }
  }

  lemma {:induction false} DigitOfShr(a: nat, n: nat, i: nat)
    ensures Digit(Shr(a, n), i) <==> Digit(a, n + i)
    decreases n
  {
    if n > 0 {
      DigitOfShr(a / 2, n - 1, i);
    }
  }

  lemma {:induction false} LengthIsRight(x: nat)
    requires x > 0
    ensures Length(x) > 0 && Pow2(Length(x) - 1) <= x < Pow2(Length(x))
    ensures Digit(x, Length(x) - 1)
  {
    if x > 1 {
      LengthIsRight(x / 2);
    }
  }

  lemma {:induction false} NoDigitsBeyond(x: nat, i: nat)
    requires i >= Length(x)
    ensures !Digit(x, i)
    decreases i
  {
    if x == 0 {
      DigitOfZero(i);
    } else {
      NoDigitsBeyond(x / 2, i - 1);
    }
  }

  lemma {:induction false} OnesAre(x: nat, n: nat)
    requires forall i: nat :: Digit(x, i) <==> i < n
    ensures x == Pow2(n) - 1
    decreases n
  {
    if n > 0 {
      assert Digit(x, 0);
      forall i: nat
        ensures Digit(x / 2, i) <==> i < n - 1
      {
        assert Digit(x, i + 1) <==> Digit(x / 2, i);
      }
      OnesAre(x / 2, n - 1);
    } else if x > 0 {
      LengthIsRight(x);
      assert false;
    }
  }

  // ----- Smearing -----

  // The first n of k digits are ones.
  ghost predicate FirstOnes(x: nat, k: nat, n: nat) {
    (forall i: nat :: i >= k ==> !Digit(x, i)) && forall i: nat :: k <= i + n && i < k ==> Digit(x, i)
  }

  // x |= x >> n.
  function Smeared(x: nat, n: nat): nat {
    BitOr(x, Shr(x, n))
  }

  lemma FirstDigit(x: nat)
    requires x > 0
    ensures FirstOnes(x, Length(x), 1)
  {
    hide Digit;
    LengthIsRight(x);
    forall i: nat | i >= Length(x)
      ensures !Digit(x, i)
    {
      NoDigitsBeyond(x, i);
    }
  }

  lemma DigitOfSmeared(x: nat, n: nat, i: nat)
    ensures Digit(Smeared(x, n), i) <==> Digit(x, i) || Digit(x, n + i)
  {
    DigitOfOr(x, Shr(x, n), i);
    DigitOfShr(x, n, i);
  }

  lemma SmearDoubles(x: nat, k: nat, n: nat)
    requires FirstOnes(x, k, n)
    ensures FirstOnes(Smeared(x, n), k, 2 * n)
  {
    hide Digit, Smeared;
    var y := Smeared(x, n);
    forall i: nat | i >= k
      ensures !Digit(y, i)
    {
      DigitOfSmeared(x, n, i);
    }
    forall i: nat | k <= i + 2 * n && i < k
      ensures Digit(y, i)
    {
      DigitOfSmeared(x, n, i);
      assert k <= i + n ==> Digit(x, i);
      assert i + n < k ==> Digit(x, n + i);
    }
  }

  // The five steps for words of 32 bits.
  function Smear(j: nat): nat {
    Smeared(Smeared(Smeared(Smeared(Smeared(j, 1), 2), 4), 8), 16)
  }

  /** Smearing a word of 32 bits fills all digits below its first one, so adding one
      gives the least power of two above it. */
  lemma SmearFillsTheBits(j: nat)
    requires 0 < j && Length(j) <= 32
    ensures Smear(j) == Pow2(Length(j)) - 1
    ensures Pow2(Length(j) - 1) <= j < Pow2(Length(j))
  {
    hide Digit, Smeared;
    var k := Length(j);
    LengthIsRight(j);
    FirstDigit(j);
    SmearDoubles(j, k, 1);
    SmearDoubles(Smeared(j, 1), k, 2);
    SmearDoubles(Smeared(Smeared(j, 1), 2), k, 4);
    SmearDoubles(Smeared(Smeared(Smeared(j, 1), 2), 4), k, 8);
    SmearDoubles(Smeared(Smeared(Smeared(Smeared(j, 1), 2), 4), 8), k, 16);
    OnesAre(Smear(j), k);
  }

  lemma {:induction false} Pow2Grows(m: nat, n: nat)
    requires m <= n
    ensures Pow2(m) <= Pow2(n)
    decreases n
  {
    if m < n {
      Pow2Grows(m, n - 1);
    }
  }
}
