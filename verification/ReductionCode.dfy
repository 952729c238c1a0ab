/** The code that strength reduction emits, constant by constant. */
module ReductionCode {
  import opened StrengthReduction
  import opened LocalOpts

  /** A product with a power of two is one shift, whichever operand the constant is. */
  lemma ProductByPower(id: nat, w: nat, x: nat, c: nat, k: nat, next: nat)
    requires w > 0 && Signed(w, c) == Pow2(k)
    ensures ReducedInst(Bin(id, Mul, w, Var(x), Lit(c)), next) == [Bin(id, ShiftL, w, Var(x), Lit(k))]
    ensures ReducedInst(Bin(id, Mul, w, Lit(c), Var(x)), next) == [Bin(id, ShiftL, w, Var(x), Lit(k))]
  {
    LogUnique(Signed(w, c), k);
  }

  lemma OddIsNoPower(n: int)
    requires n > 1 && n % 2 == 1
    ensures Log(n) == -1
  {
    forall j: nat
      ensures n != Pow2(j)
    {
      OddTimesPow2(n, 0, j);
    }
    LogNone(n);
  }

  /** One more than a power of two is recognised as that. */
  lemma AbovePower(k: nat)
    requires k >= 1
    ensures NearLog(Pow2(k) + 1) == (1, k)
  {
    OddIsNoPower(Pow2(k) + 1);
    LogUnique(Pow2(k), k);
  }

  lemma TwoBelowIsNoPower(k: nat)
    requires k >= 3
    ensures Log(Pow2(k) - 2) == -1
  {
    var half := Pow2(k - 1);
    assert half == 2 * Pow2(k - 2) && Pow2(k - 2) == 2 * Pow2(k - 3);
    assert Pow2(1) == 2;
    forall j: nat
      ensures Pow2(k) - 2 != Pow2(j)
    {
      OddTimesPow2(half - 1, 1, j);
    }
    LogNone(Pow2(k) - 2);
  }

  lemma OneBelowIsNoPower(k: nat)
    requires k >= 2
    ensures Log(Pow2(k) - 1) == -1
  {
    assert Pow2(k) == 2 * Pow2(k - 1) && Pow2(k - 1) == 2 * Pow2(k - 2);
    OddIsNoPower(Pow2(k) - 1);
  }

  /** So is one less, unless it is 1, 3 or INT64_MAX. */
  lemma BelowPower(k: nat)
    requires k >= 3 && Pow2(k) != INT64_LIMIT
    ensures NearLog(Pow2(k) - 1) == (-1, k)
  {
    OneBelowIsNoPower(k);
    TwoBelowIsNoPower(k);
    LogUnique(Pow2(k), k);
    Pow2Mono(0, k);
  }

  /** A product with one more than a power of two is a shift and an addition. */
  lemma ProductAbovePower(id: nat, w: nat, x: nat, c: nat, k: nat, next: nat)
    requires w > 0 && Signed(w, c) == Pow2(k) + 1 && k >= 1
    ensures var code := [Bin(next, ShiftL, w, Var(x), Lit(k)), Bin(id, Add, w, Var(next), Var(x))];
            && ReducedInst(Bin(id, Mul, w, Var(x), Lit(c)), next) == code
            && ReducedInst(Bin(id, Mul, w, Lit(c), Var(x)), next) == code
  {
    AbovePower(k);
  }

  /** A product with one less than a power of two is a shift and a subtraction. */
  lemma ProductBelowPower(id: nat, w: nat, x: nat, c: nat, k: nat, next: nat)
    requires w > 0 && Signed(w, c) == Pow2(k) - 1 && k >= 3 && Pow2(k) != INT64_LIMIT
    ensures var code := [Bin(next, ShiftL, w, Var(x), Lit(k)), Bin(id, Sub, w, Var(next), Var(x))];
            && ReducedInst(Bin(id, Mul, w, Var(x), Lit(c)), next) == code
            && ReducedInst(Bin(id, Mul, w, Lit(c), Var(x)), next) == code
  {
    BelowPower(k);
  }

  /** A product with a constant that is not positive is x << 0 minus x. */
  lemma ProductNotPositive(id: nat, w: nat, x: nat, c: nat, next: nat)
    requires w > 0 && Signed(w, c) <= 0
    ensures var code := [Bin(next, ShiftL, w, Var(x), Lit(0)), Bin(id, Sub, w, Var(next), Var(x))];
            && ReducedInst(Bin(id, Mul, w, Var(x), Lit(c)), next) == code
            && ReducedInst(Bin(id, Mul, w, Lit(c), Var(x)), next) == code
  {
  }

  /** A quotient by a power of two is one shift, signed or not. */
  lemma QuotientByPower(id: nat, w: nat, a: Value, c: nat, k: nat, next: nat)
    requires w > 0 && Signed(w, c) == Pow2(k)
    ensures ReducedInst(Bin(id, UDiv, w, a, Lit(c)), next) == [Bin(id, ShiftR, w, a, Lit(k))]
    ensures ReducedInst(Bin(id, SDiv, w, a, Lit(c)), next) == [Bin(id, ShiftR, w, a, Lit(k))]
  {
    LogUnique(Signed(w, c), k);
  }

  /** Everything else stays as it is. */
  lemma NotShiftable(i: Inst, next: nat)
    requires i.Bin? && i.width > 0 ==> !IsShiftable(i.op, i.width, i.a, i.b)
    ensures ReducedInst(i, next) == [i]
  {
    if i.Bin? && i.width > 0 {
      if i.op.Mul? && i.a.Lit? && i.b.Lit? {
        NearLogIsSome(Signed(i.width, i.a.bits));
      } else {
        ReducibleMatches(i);
      }
    }
  }
}
