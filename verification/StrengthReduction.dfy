/** Recognising powers of two, and what shifts compute modulo 2^w. */
module StrengthReduction {

  const INT64_LIMIT: int := 0x8000_0000_0000_0000

  function Pow2(k: nat): (r: nat)
    ensures r > 0
  {
    if k == 0 then 1 else 2 * Pow2(k - 1)
  }

  /** Two's complement wrap-around of adding 1 in 64 bits. */
  function Increment64(n: int): int {
    if n == INT64_LIMIT - 1 then -INT64_LIMIT else n + 1
  }

  // ----- Powers of two -----

  lemma {:induction false} Pow2Add(a: nat, b: nat)
    ensures Pow2(a + b) == Pow2(a) * Pow2(b)
  {
    if a > 0 {
      Pow2Add(a - 1, b);
    }
  }

  lemma {:induction false} Pow2Mono(a: nat, b: nat)
    requires a < b
    ensures 2 * Pow2(a) <= Pow2(b)
    decreases b
  {
    if a < b - 1 {
      Pow2Mono(a, b - 1);
    }
  }

  lemma Pow2Injective(a: nat, b: nat)
    requires Pow2(a) == Pow2(b)
    ensures a == b
  {
    if a < b {
      Pow2Mono(a, b);
    } else if b < a {
      Pow2Mono(b, a);
    }
  }

  /** An odd number above 1, shifted up, is not a power of two. */
  lemma OddTimesPow2(n: nat, res: nat, k: nat)
    requires n > 1 && n % 2 == 1
    ensures n * Pow2(res) != Pow2(k)
  {
    if k <= res {
      if k < res {
        Pow2Mono(k, res);
      }
      TimesMono(2, n, Pow2(res));
    } else {
      Pow2Add(k - res, res);
      assert Pow2(k - res) == 2 * Pow2(k - res - 1);
      if n * Pow2(res) == Pow2(k) {
        SameFactor(n, Pow2(k - res), Pow2(res));
      }
    }
  }

  lemma TimesMono(a: int, b: int, m: nat)
    requires a <= b
    ensures a * m <= b * m
  {
    assert b * m - a * m == (b - a) * m;
  }

  lemma SameFactor(a: int, b: int, m: nat)
    requires m > 0 && a * m == b * m
    ensures a == b
  {
    if a < b {
      TimesMono(a + 1, b, m);
    } else if b < a {
      TimesMono(b + 1, a, m);
    }
  }

  /** The exponent of `n` if it is a power of two, otherwise -1. */
  method FindLog(n: int) returns (log: int)
    ensures log == -1 || (log >= 0 && n == Pow2(log))
    ensures log == -1 <==> forall k: nat :: n != Pow2(k)
  {
    if n <= 0 {
      return -1;
    }
    var m, res: nat := n, 0;
    assert m * Pow2(res) == m;
    while m % 2 == 0 && m > 1
      invariant m >= 1 && n == m * Pow2(res)
      decreases m
    {
      assert m * Pow2(res) == (m / 2) * Pow2(res + 1);
      m := m / 2;
      res := res + 1;
    }
    if m == 1 {
      return res;
    }
    forall k: nat
      ensures n != Pow2(k)
    {
      OddTimesPow2(m, res, k);
    }
    return -1;
  }

  /** `n` is a power of two plus `check`. */
  ghost predicate NearPow2(n: int, check: int, exponent: int) {
    exponent >= 0 && n == Pow2(exponent) + check
  }

  /** 0, 1 or -1 if `n` is that much more than a power of two, tried in this order;
      otherwise -2.  A number below 1 gives -1 and leaves the exponent alone. */
  method FindLogImproved(n: int, before: int) returns (check: int, exponent: int)
    ensures n <= 0 ==> check == -1 && exponent == before
    ensures n > 0 ==> check in {0, 1, -1, -2} && (check != -2 ==> NearPow2(n, check, exponent))
    ensures n > 0 && check != 0 ==> forall k: nat :: n != Pow2(k)
    ensures n > 0 && check != 0 && check != 1 ==> forall k: nat :: n - 1 != Pow2(k)
    ensures n > 0 && check == -1 ==> n != INT64_LIMIT - 1
    ensures n > 0 && check == -2 ==> forall k: nat :: Increment64(n) != Pow2(k)
  {
    exponent := before;
    if n <= 0 {
      return -1, exponent;
    }
    exponent := FindLog(n);
    if exponent >= 0 {
      return 0, exponent;
    }
    exponent := FindLog(n - 1);
    if exponent >= 0 {
      return 1, exponent;
    }
    exponent := FindLog(Increment64(n));
    if exponent >= 0 {
      return -1, exponent;
    }
    return -2, exponent;
  }

  // ----- Arithmetic modulo 2^w -----

  function Wrap(w: nat, x: int): (r: nat)
    ensures r < Pow2(w)
  {
    x % Pow2(w)
  }

  function Signed(w: nat, x: nat): int
    requires w > 0
  {
    if x < Pow2(w - 1) then x else x - Pow2(w)
  }

  /** A left shift moves one place at a time and loses what leaves the width. */
  function Shl(w: nat, x: nat, k: nat): nat
    decreases k
  {
    if k == 0 then Wrap(w, x) else Shl(w, Wrap(w, 2 * x), k - 1)
  }

  /** A logical right shift drops the lowest bit, one at a time. */
  function LShr(x: nat, k: nat): nat {
    if k == 0 then x else LShr(x / 2, k - 1)
  }

  /** Signed division truncates toward zero, in the host as in the language. */
  function TruncDiv(a: int, b: int): int
    requires b != 0
  {
    if (a < 0) == (b < 0) then AbsInt(a) / AbsInt(b) else -(AbsInt(a) / AbsInt(b))
  }

  function AbsInt(a: int): nat {
    if a < 0 then -a else a
  }

  lemma ModUnique(x: int, m: nat, q: int, r: int)
    requires m > 0 && x == q * m + r && 0 <= r < m
    ensures x % m == r
  {
    var d := x / m - q;
    assert d * m == (x / m) * m - q * m;
    assert d * m == r - x % m;
    if d > 0 {
      TimesMono(1, d, m);
    } else if d < 0 {
      TimesMono(d, -1, m);
    }
  }

  lemma ModShift(x: int, q: int, m: nat)
    requires m > 0
    ensures (x + q * m) % m == x % m
  {
    assert x + q * m == (x / m + q) * m + x % m;
    ModUnique(x + q * m, m, x / m + q, x % m);
  }

  lemma WrapAdd(w: nat, a: int, b: int)
    ensures Wrap(w, Wrap(w, a) + b) == Wrap(w, a + b)
  {
    var m := Pow2(w);
    ModShift(a % m + b, a / m, m);
    assert a % m + b + (a / m) * m == a + b;
  }

  lemma WrapTimes(w: nat, a: int, p: int)
    ensures Wrap(w, Wrap(w, a) * p) == Wrap(w, a * p)
  {
    var m := Pow2(w);
    var q, r := a / m, a % m;
    ModShift(r * p, q * p, m);
    assert a * p == r * p + q * p * m by {
      assert a == q * m + r;
      assert (q * m + r) * p == q * m * p + r * p;
      assert q * m * p == q * p * m;
    }
  }

  lemma DoubleThenTimes(w: nat, x: nat, p: nat)
    ensures Wrap(w, Wrap(w, 2 * x) * p) == Wrap(w, x * (2 * p))
  {
    WrapTimes(w, 2 * x, p);
    assert 2 * x * p == x * (2 * p);
  }

  /** Shifting left by k multiplies by 2^k modulo 2^w. */
  lemma {:induction false} ShlIsProduct(w: nat, x: nat, k: nat)
    ensures Shl(w, x, k) == Wrap(w, x * Pow2(k))
    decreases k
  {
    if k > 0 {
      ShlIsProduct(w, Wrap(w, 2 * x), k - 1);
      DoubleThenTimes(w, x, Pow2(k - 1));
    }
  }

  lemma QuotientUnique(x: nat, p: nat, q: nat)
    requires p > 0 && q * p <= x < q * p + p
    ensures x / p == q
  {
    ModUnique(x, p, q, x - q * p);
    assert x == (x / p) * p + x % p;
    SameFactor(x / p, q, p);
  }

  lemma HalveThenDivide(x: nat, p: nat)
    requires p > 0
    ensures x / 2 / p == x / (2 * p)
  {
    var h := x / 2;
    var q := h / p;
    DivBounds(h, p);
    TwiceBetween(x, h, q * p, p);
    assert q * (2 * p) == 2 * (q * p);
    QuotientUnique(x, 2 * p, q);
  }

  lemma TwiceBetween(x: nat, h: nat, lo: nat, p: nat)
    requires h == x / 2 && lo <= h < lo + p
    ensures 2 * lo <= x < 2 * lo + 2 * p
  {
  }

  /** Shifting right by k divides by 2^k. */
  lemma {:induction false} LShrIsQuotient(x: nat, k: nat)
    ensures LShr(x, k) == x / Pow2(k)
  {
    if k > 0 {
      LShrIsQuotient(x / 2, k - 1);
      HalveThenDivide(x, Pow2(k - 1));
    }
  }

  /** What the replacement of `x * c` computes. */
  function Reduced(w: nat, x: nat, check: int, exponent: nat): nat {
    var shifted := Shl(w, x, exponent);
    if check == 0 then shifted else if check == 1 then Wrap(w, shifted + x) else Wrap(w, shifted - x)
  }

  lemma ReducedIsProduct(w: nat, x: nat, check: int, exponent: nat)
    requires check in {0, 1, -1}
    ensures Reduced(w, x, check, exponent) == Wrap(w, x * (Pow2(exponent) + check))
  {
    ShlIsProduct(w, x, exponent);
    var p: int, y: int := Pow2(exponent), x;
    assert y * (p + 1) == y * p + y && y * (p - 1) == y * p - y;
    WrapAdd(w, y * p, y);
    WrapAdd(w, y * p, -y);
  }

  /** The shift amount is below the width. */
  lemma ExponentBelowWidth(w: nat, n: int, check: int, exponent: int)
    requires w > 0 && check in {0, 1, -1} && 0 < n < Pow2(w - 1) && NearPow2(n, check, exponent)
    ensures exponent < w
  {
    if exponent >= w {
      Pow2Mono(w - 1, exponent);
    }
  }

  /** Whatever `find_log_improved` answers for a constant that the pass then reduces,
      the replacement computes the product for every `x` if and only if the constant
      is not negative as a signed number. */
  lemma ReductionExactIff(w: nat, c: nat, check: int, exponent: nat)
    requires w > 0 && c < Pow2(w) && check in {0, 1, -1}
    requires var n := Signed(w, c); if n <= 0 then check == -1 && exponent == 0 else NearPow2(n, check, exponent)
    ensures (forall x: nat :: x < Pow2(w) ==> Reduced(w, x, check, exponent) == Wrap(w, x * c)) <==> Signed(w, c) >= 0
    ensures Signed(w, c) >= 0 ==> exponent < w
  {
    var n := Signed(w, c);
    assert Pow2(w) == 2 * Pow2(w - 1);
    if n > 0 {
      ExponentBelowWidth(w, n, check, exponent);
    }
    if n >= 0 {
      forall x: nat | x < Pow2(w)
        ensures Reduced(w, x, check, exponent) == Wrap(w, x * c)
      {
        ReducedIsProduct(w, x, check, exponent);
        assert Pow2(exponent) + check == c;
      }
    } else {
      NegativeMultiplier(w, c);
    }
  }

  /** For one run: the replacement computes the product if and only if the constant is
      not negative or the product is 0. */
  lemma ReductionRunExactIff(w: nat, x: nat, c: nat, check: int, exponent: nat)
    requires w > 0 && c < Pow2(w) && check in {0, 1, -1}
    requires var n := Signed(w, c); if n <= 0 then check == -1 && exponent == 0 else NearPow2(n, check, exponent)
    ensures Reduced(w, x, check, exponent) == Wrap(w, x * c) <==> Signed(w, c) >= 0 || Wrap(w, x * c) == 0
  {
    assert Pow2(w) == 2 * Pow2(w - 1);
    ReducedIsProduct(w, x, check, exponent);
    if Signed(w, c) >= 0 {
      assert Pow2(exponent) + check == c;
    } else {
      assert x * (Pow2(exponent) + check) == 0;
      ModUnique(0, Pow2(w), 0, 0);
    }
  }

  /** A negative constant: multiplying 1 by it shows the difference. */
  lemma NegativeMultiplier(w: nat, c: nat)
    requires w > 0 && c < Pow2(w) && Signed(w, c) < 0
    ensures 1 < Pow2(w) && Reduced(w, 1, -1, 0) != Wrap(w, 1 * c)
  {
    assert Pow2(w) == 2 * Pow2(w - 1);
    ReducedIsProduct(w, 1, -1, 0);
    ModUnique(c, Pow2(w), 0, c);
    ModUnique(0, Pow2(w), 0, 0);
  }

  /** Signed division by a recognised power of two agrees with the logical shift exactly
      when the dividend is not negative or the divisor is 1. */
  lemma SDivExactIff(w: nat, x: nat, c: nat, log: nat)
    requires w > 0 && x < Pow2(w) && c < Pow2(w) && Signed(w, c) == Pow2(log)
    ensures Wrap(w, TruncDiv(Signed(w, x), Pow2(log))) == LShr(x, log) <==> Signed(w, x) >= 0 || log == 0
  {
    assert Pow2(w) == 2 * Pow2(w - 1);
    var p, m := Pow2(log), Pow2(w);
    LShrIsQuotient(x, log);
    if Signed(w, x) >= 0 {
      PositiveDividend(w, x, p);
    } else if log == 0 {
      DividedByOne(w, x);
    } else {
      NegativeDividend(w, x, log);
    }
  }

  lemma PositiveDividend(w: nat, x: nat, p: nat)
    requires x < Pow2(w) && p > 0
    ensures Wrap(w, TruncDiv(x, p)) == x / p
  {
    DivBounds(x, p);
    ModUnique(x / p, Pow2(w), 0, x / p);
  }

  lemma DividedByOne(w: nat, x: nat)
    requires x < Pow2(w)
    ensures Wrap(w, TruncDiv(x - Pow2(w), 1)) == x / 1
  {
    ModShift(x, -1, Pow2(w));
    ModUnique(x, Pow2(w), 0, x);
  }

  lemma DivBounds(x: nat, p: nat)
    requires p > 0
    ensures 0 <= x / p <= x && (x / p) * p <= x < (x / p) * p + p
  {
    assert x == (x / p) * p + x % p;
    assert p * (x / p) == (x / p) * p;
    TimesMono(1, p, x / p);
  }

  /** Dividing by at least 2 at least halves. */
  lemma DivHalves(x: nat, p: nat)
    requires p >= 2
    ensures 2 * (x / p) <= x
  {
    DivBounds(x, p);
    assert p * (x / p) == (x / p) * p;
    TimesMono(2, p, x / p);
  }

  lemma DivPositive(x: nat, p: nat)
    requires 0 < p <= x
    ensures x / p >= 1
  {
    DivBounds(x, p);
    if x / p < 1 {
      TimesMono(x / p, 0, p);
    }
  }

  /** A negative dividend: the quotient is at most 0 but the shift is positive and
      below 2^(w-1). */
  lemma NegativeDividend(w: nat, x: nat, log: nat)
    requires w > 0 && x < Pow2(w) && Signed(w, x) < 0 && 0 < log && Pow2(log) < Pow2(w - 1)
    ensures Wrap(w, TruncDiv(Signed(w, x), Pow2(log))) != LShr(x, log)
  {
    assert Pow2(w) == 2 * Pow2(w - 1);
    assert Pow2(log) == 2 * Pow2(log - 1);
    var p, m := Pow2(log), Pow2(w);
    LShrIsQuotient(x, log);
    var a := m - x;
    var q := a / p;
    DivHalves(a, p);
    DivHalves(x, p);
    DivPositive(x, p);
    DivBounds(a, p);
    if q == 0 {
      ModUnique(0, m, 0, 0);
    } else {
      ModUnique(-q, m, -1, m - q);
    }
  }
}
