/** The algebraic identities hold, and when folding computes what the operator does. */
module FoldExactness {
  import opened StrengthReduction
  import opened LocalOpts
  import opened BlockValues

  lemma {:induction false} BitwiseZero(op: Opcode, w: nat, x: nat)
    requires op in {And, Or, Xor} && x < Pow2(w)
    ensures Bitwise(op, w, x, 0) == Bitwise(op, w, 0, x) == if op.And? then 0 else x
  {
    if w > 0 {
      BitwiseZero(op, w - 1, x / 2);
    }
  }

  // ----- The identities -----

  lemma TruncDivByOne(a: int)
    ensures TruncDiv(a, 1) == a && TruncDiv(a, -1) == -a
  {
  }

  lemma TruncDivSelf(a: int)
    requires a != 0
    ensures TruncDiv(a, a) == 1 && TruncDiv(0, a) == 0
  {
    var n := AbsInt(a);
    assert n / n == 1;
    assert 0 / n == 0;
  }

  /** x / 1 == x; in one bit the constant 1 reads as -1, which makes no difference. */
  lemma QuotientByOne(w: nat, x: nat)
    requires w > 0 && x < Pow2(w)
    ensures Wrap(w, TruncDiv(Signed(w, x), Signed(w, 1))) == x
  {
    assert Pow2(w) == 2 * Pow2(w - 1);
    TruncDivByOne(Signed(w, x));
    if w == 1 {
      WrapFits(w, x);
    } else {
      assert Pow2(w - 1) == 2 * Pow2(w - 2);
      WrapSigned(w, x);
    }
  }

  lemma QuotientIdentity(w: nat, x: nat, y: nat)
    requires w > 0 && x < Pow2(w) && 0 < y < Pow2(w)
    ensures y == 1 ==> Wrap(w, TruncDiv(Signed(w, x), Signed(w, y))) == x
    ensures x == 0 || x == y ==> Wrap(w, TruncDiv(Signed(w, x), Signed(w, y))) == if x == 0 then 0 else 1
  {
    assert Pow2(w) == 2 * Pow2(w - 1);
    QuotientByOne(w, x);
    SignedZero(w, y);
    TruncDivSelf(Signed(w, y));
    WrapFits(w, 1);
    WrapFits(w, 0);
    SignedZero(w, x);
  }

  /** Sums, differences and products with 0 or 1, and of equal values. */
  lemma SimpleIdentity(w: nat, x: nat)
    requires w > 0 && x < Pow2(w)
    ensures Wrap(w, x + 0) == Wrap(w, 0 + x) == Wrap(w, x - 0) == x && Wrap(w, x - x) == 0
    ensures Wrap(w, x * 1) == Wrap(w, 1 * x) == x && Wrap(w, x * 0) == Wrap(w, 0 * x) == 0
  {
    WrapFits(w, x);
    WrapFits(w, 0);
  }

  lemma UnsignedIdentity(x: nat, y: nat)
    requires y > 0
    ensures (y == 1 ==> x / y == x) && (x == 0 ==> x / y == 0) && (x == y ==> x / y == 1)
  {
  }

  lemma OneFits(w: nat)
    requires w > 0
    ensures 1 < Pow2(w)
  {
  }

  /** What an identity puts in place of an instruction has the value of the instruction. */
  lemma AlgebraicIsIdentity(m: Meaning, ty: Widths, i: Inst, env: Env)
    requires Typed(ty, i) && EnvFits(ty, env) && SafeAt(i, env) && Algebraic(i).Replace?
    ensures ValueOf(env, Algebraic(i).v) == Result(m, i, env)
    ensures ValueFits(ty, i.width, Algebraic(i).v)
  {
    var w, x, y := i.width, ValueOf(env, i.a), ValueOf(env, i.b);
    OneFits(w);
    match i.op
    case Add | Sub | Mul =>
      SimpleIdentity(w, x);
      SimpleIdentity(w, y);
    case UDiv =>
      UnsignedIdentity(x, y);
    case SDiv =>
      SignedZero(w, y);
      QuotientIdentity(w, x, y);
    case And | Or | Xor =>
      BitwiseZero(i.op, w, x);
      BitwiseZero(i.op, w, y);
    case _ =>
  }

  // ----- Folding -----

  lemma WrapShift(w: nat, a: int, q: int)
    ensures Wrap(w, a + q * Pow2(w)) == Wrap(w, a)
  {
    ModShift(a, q, Pow2(w));
  }

  lemma SumFolds(w: nat, x: nat, y: nat)
    requires w > 0
    ensures Wrap(w, Signed(w, x) + Signed(w, y)) == Wrap(w, x + y)
    ensures Wrap(w, Signed(w, x) - Signed(w, y)) == Wrap(w, x - y)
  {
    var p := if x < Pow2(w - 1) then 0 else -1;
    var q := if y < Pow2(w - 1) then 0 else -1;
    WrapShift(w, x + y, p + q);
    WrapShift(w, x - y, p - q);
  }

  lemma ProductFolds(w: nat, x: nat, y: nat)
    requires w > 0
    ensures Wrap(w, Signed(w, x) * Signed(w, y)) == Wrap(w, x * y)
  {
    WrapProduct(w, x, y);
    WrapProduct(w, y, Signed(w, x));
    assert Signed(w, x) * y == y * Signed(w, x);
    assert Signed(w, y) * Signed(w, x) == Signed(w, x) * Signed(w, y);
  }

  lemma WrapProduct(w: nat, x: nat, y: int)
    requires w > 0
    ensures Wrap(w, Signed(w, x) * y) == Wrap(w, x * y)
  {
    if x >= Pow2(w - 1) {
      Distribute(x, Pow2(w), y);
      WrapShift(w, x * y, -y);
    }
  }

  lemma Distribute(x: int, m: int, y: int)
    ensures (x - m) * y == x * y + -y * m
  {
  }

  lemma {:induction false} WidthBelowPow2(k: nat)
    ensures k + 1 <= Pow2(k)
  {
    if k > 0 {
      WidthBelowPow2(k - 1);
    }
  }

  /** Every shift amount below a width of at most 64 reads as itself in the host. */
  lemma ShiftAmountInRange(w: nat, y: nat)
    requires y < w <= 64
    ensures 0 <= Signed(w, y) < 64
  {
    WidthBelowPow2(w - 1);
  }

  /** Folding a left shift is exact for every amount that the host can shift by. */
  lemma LeftShiftFoldExact(wild: (int, int) -> int, w: nat, x: nat, y: nat)
    requires w > 0 && y < Pow2(w) && 0 <= Signed(w, y) < 64
    ensures FoldedBits(wild, ShiftL, w, x, y) == Shl(w, x, y)
  {
    WrapProduct(w, x, Pow2(y));
    ShlIsProduct(w, x, y);
  }

  /** Folding a logical right shift is exact if and only if the shifted constant is not
      negative or the shift amount is 0. */
  lemma RightShiftFoldExactIff(wild: (int, int) -> int, w: nat, x: nat, y: nat)
    requires w > 0 && x < Pow2(w) && y < Pow2(w) && 0 <= Signed(w, y) < 64
    ensures FoldedBits(wild, ShiftR, w, x, y) == LShr(x, y) <==> Signed(w, x) >= 0 || y == 0
  {
    ShiftFolds(wild, w, x, y);
    LShrIsQuotient(x, y);
    if Signed(w, x) >= 0 {
      SmallShift(w, x, Pow2(y));
    } else if y == 0 {
      WrapSigned(w, x);
    } else {
      NegativeShift(w, x, y);
    }
  }

  lemma ShiftFolds(wild: (int, int) -> int, w: nat, x: nat, y: nat)
    requires w > 0 && x < Pow2(w) && y < Pow2(w) && 0 <= Signed(w, y) < 64
    ensures FoldedBits(wild, ShiftR, w, x, y) == Wrap(w, Signed(w, x) / Pow2(y))
    ensures Signed(w, x) >= 0 ==> Signed(w, x) == x
    ensures Signed(w, x) < 0 ==> Pow2(w - 1) <= x && Signed(w, x) == x - Pow2(w)
  {
  }

  lemma SmallShift(w: nat, x: nat, p: nat)
    requires x < Pow2(w) && p > 0
    ensures Wrap(w, x / p) == x / p
  {
    DivBounds(x, p);
    WrapFits(w, x / p);
  }

  /** An arithmetic shift keeps the sign, a logical one does not. */
  lemma NegativeShift(w: nat, x: nat, y: nat)
    requires w > 0 && Pow2(w - 1) <= x < Pow2(w) && 0 < y
    ensures Wrap(w, (x - Pow2(w)) / Pow2(y)) != LShr(x, y)
  {
    assert Pow2(w) == 2 * Pow2(w - 1) && Pow2(y) == 2 * Pow2(y - 1);
    var p, m := Pow2(y), Pow2(w);
    LShrIsQuotient(x, y);
    var q := (x - m) / p;
    NegativeQuotient(x - m, p);
    ModUnique(q, m, -1, q + m);
    DivHalves(x, p);
  }

  lemma NegativeQuotient(a: int, p: nat)
    requires a < 0 && p > 0
    ensures a <= a / p < 0
  {
    var q := a / p;
    assert a == q * p + a % p;
    TimesMono(1, p, -a);
    assert p * -a == -(a * p) && (a - 1) * p == a * p - p;
    if q >= 0 {
      TimesMono(0, q, p);
    } else if q < a {
      TimesMono(q, a - 1, p);
    }
  }

  /** When folding an unsigned division gives the unsigned quotient: neither constant is
      negative, or the divisor is 1, or a dividend that is not negative stays below the
      magnitude of a negative divisor, or the constants are equal. */
  predicate QuotientFolds(w: nat, x: nat, y: nat)
    requires w > 0
  {
    || (Signed(w, x) >= 0 && Signed(w, y) > 0)
    || y == 1
    || 0 <= Signed(w, x) < -Signed(w, y)
    || x == y
  }

  /** Folding an unsigned division is exact if and only if the above holds. */
  lemma QuotientFoldExactIff(wild: (int, int) -> int, w: nat, x: nat, y: nat)
    requires w > 0 && x < Pow2(w) && 0 < y < Pow2(w)
    ensures Signed(w, y) != 0 && (FoldedBits(wild, UDiv, w, x, y) == x / y <==> QuotientFolds(w, x, y))
  {
    assert Pow2(w) == 2 * Pow2(w - 1);
    var h := Pow2(w - 1);
    if x < h && y < h {
      BothPositive(w, x, y);
    } else if x < h {
      NegativeDivisor(w, x, y);
    } else if y < h {
      NegativeConstant(w, x, y);
    } else {
      BothNegative(w, x, y);
    }
  }

  lemma BothPositive(w: nat, x: nat, y: nat)
    requires x < Pow2(w) && y > 0
    ensures Wrap(w, TruncDiv(x, y)) == x / y
  {
    DivBounds(x, y);
    WrapFits(w, x / y);
  }

  lemma NegativeDivisor(w: nat, x: nat, y: nat)
    requires w > 0 && x < Pow2(w - 1) <= y < Pow2(w)
    ensures Wrap(w, TruncDiv(x, y - Pow2(w))) == x / y <==> x < Pow2(w) - y
  {
    assert Pow2(w) == 2 * Pow2(w - 1);
    var m, d := Pow2(w), Pow2(w) - y;
    var q := x / d;
    DivBounds(x, d);
    QuotientUnique(x, y, 0);
    if x < d {
      QuotientUnique(x, d, 0);
      WrapFits(w, 0);
    } else {
      DivPositive(x, d);
      ModUnique(-q, m, -1, m - q);
    }
  }

  lemma NegativeConstant(w: nat, x: nat, y: nat)
    requires w > 0 && 0 < y < Pow2(w - 1) <= x < Pow2(w)
    ensures Wrap(w, TruncDiv(x - Pow2(w), y)) == x / y <==> y == 1
  {
    assert Pow2(w) == 2 * Pow2(w - 1);
    var m, a := Pow2(w), Pow2(w) - x;
    var q := a / y;
    DivBounds(a, y);
    DivPositive(x, y);
    if q == 0 {
      WrapFits(w, 0);
    } else {
      ModUnique(-q, m, -1, m - q);
    }
    if y > 1 {
      DivHalves(x, y);
      DivHalves(a, y);
    }
  }

  lemma BothNegative(w: nat, x: nat, y: nat)
    requires w > 0 && Pow2(w - 1) <= x < Pow2(w) && Pow2(w - 1) <= y < Pow2(w)
    ensures Wrap(w, TruncDiv(x - Pow2(w), y - Pow2(w))) == x / y <==> x == y
  {
    assert Pow2(w) == 2 * Pow2(w - 1);
    var a, b := Pow2(w) - x, Pow2(w) - y;
    DivBounds(a, b);
    WrapFits(w, a / b);
    QuotientUnique(x, y, if x < y then 0 else 1);
    if x > y {
      QuotientUnique(a, b, 0);
    } else if x == y {
      QuotientUnique(a, b, 1);
    } else {
      DivPositive(a, b);
    }
  }

  /** And not in general: 255 / 2 is folded to 0 in 8 bits. */
  lemma QuotientFoldFails(wild: (int, int) -> int)
    ensures FoldedBits(wild, UDiv, 8, 255, 2) == 0 != 255 / 2
  {
    assert Pow2(7) == 128 && Pow2(8) == 256 by {
      assert Pow2(3) == 8;
      Pow2Add(3, 3);
      Pow2Add(6, 1);
      Pow2Add(7, 1);
    }
    assert Signed(8, 255) == -1 && Signed(8, 2) == 2;
    assert TruncDiv(-1, 2) == 0;
  }

  /** When folding an operator on two constants gives what the operator computes. */
  predicate FoldsRight(op: Opcode, w: nat, x: nat, y: nat)
    requires w > 0
  {
    match op
    case UDiv => QuotientFolds(w, x, y)
    case ShiftL => 0 <= Signed(w, y) < 64
    case ShiftR => 0 <= Signed(w, y) < 64 && (Signed(w, x) >= 0 || y == 0)
    case _ => true
  }

  /** Folding computes the operator. */
  lemma FoldingIsExact(m: Meaning, ty: Widths, wild: (int, int) -> int, i: Inst, env: Env)
    requires Typed(ty, i) && Folding(wild, i).Replace? && FoldsRight(i.op, i.width, i.a.bits, i.b.bits)
    ensures ValueOf(env, Folding(wild, i).v) == Result(m, i, env)
    ensures ValueFits(ty, i.width, Folding(wild, i).v)
  {
    var w, x, y := i.width, i.a.bits, i.b.bits;
    match i.op
    case Add | Sub =>
      SumFolds(w, x, y);
    case Mul =>
      ProductFolds(w, x, y);
    case UDiv =>
      SignedZero(w, y);
      QuotientFoldExactIff(wild, w, x, y);
    case ShiftL =>
      LeftShiftFoldExact(wild, w, x, y);
    case ShiftR =>
      RightShiftFoldExactIff(wild, w, x, y);
    case _ =>
  }
}
