/** Strength reduction, and the driver as a whole, preserve what a block computes. */
module ReductionMeaning {
  import opened StrengthReduction
  import opened LocalOpts
  import opened BlockValues
  import opened FoldExactness
  import opened Replacement
  import opened LocalMeaning

  // ----- One instruction -----

  /** When the code that takes the place of an instruction computes its value in this run. */
  ghost predicate ReducesInRun(i: Inst, env: Env) {
    Reducible(i) ==>
      match i.op
      case Mul =>
        var (x, c) := Factors(i);
        Signed(i.width, c.bits) >= 0 || Wrap(i.width, ValueOf(env, x) * c.bits) == 0
      case SDiv => Signed(i.width, ValueOf(env, i.a)) >= 0 || i.b == Lit(1)
      case _ => true
  }

  lemma NearLogAnswer(n: int)
    requires NearLog(n).0 != -2
    ensures var (check, e) := NearLog(n);
            check in {0, 1, -1} && e >= 0 && if n <= 0 then check == -1 && e == 0 else NearPow2(n, check, e)
  {
    LogIsLog(n);
    LogIsLog(n - 1);
    LogIsLog(Increment64(n));
  }

  /** A product by a constant, whichever operand the constant is. */
  lemma ProductResult(m: Meaning, i: Inst, e: Env)
    requires i.Bin? && i.op.Mul? && Factors(i).1.Lit?
    ensures Result(m, i, e) == Wrap(i.width, ValueOf(e, Factors(i).0) * Factors(i).1.bits)
  {
    var x, y := ValueOf(e, i.a), ValueOf(e, i.b);
    assert x * y == y * x;
  }

  /** The emitted code, run, leaves the reduced product in the place of the product. */
  lemma ProductCode(m: Meaning, i: Inst, mid: nat, e: Env)
    requires Reducible(i) && i.op.Mul? && InstBelow(i, mid)
    ensures var (x, c) := Factors(i);
            var (check, k) := NearLog(Signed(i.width, c.bits));
            k >= 0 && Lookup(Eval(m, ReducedInst(i, mid), e), i.id) == Reduced(i.width, ValueOf(e, x), check, k)
  {
    var (x, c) := Factors(i);
    var (check, k) := NearLog(Signed(i.width, c.bits));
    NearLogAnswer(Signed(i.width, c.bits));
    if check == 0 {
      EvalOne(m, Bin(i.id, ShiftL, i.width, x, Lit(k)), e);
    } else {
      ShiftThenAdd(m, i.width, x, i.id, mid, check, k, e);
    }
  }

  /** A shift followed by an addition or subtraction of the shifted value. */
  lemma ShiftThenAdd(m: Meaning, w: nat, x: Value, id: nat, mid: nat, check: int, k: nat, e: Env)
    requires (x.Var? ==> x.id != mid) && check in {1, -1}
    ensures var shift, add := Bin(mid, ShiftL, w, x, Lit(k)), Bin(id, if check == 1 then Add else Sub, w, Var(mid), x);
            Lookup(Eval(m, [shift, add], e), id) == Reduced(w, ValueOf(e, x), check, k)
  {
    EvalPair(m, Bin(mid, ShiftL, w, x, Lit(k)), Bin(id, if check == 1 then Add else Sub, w, Var(mid), x), e);
  }

  lemma EvalPair(m: Meaning, i: Inst, j: Inst, e: Env)
    ensures var e1 := e[i.id := Result(m, i, e)]; Eval(m, [i, j], e) == e1[j.id := Result(m, j, e1)]
  {
    EvalOne(m, i, e);
    assert [i, j][..1] == [i];
  }

  lemma QuotientCode(m: Meaning, i: Inst, mid: nat, e: Env)
    requires Reducible(i) && (i.op.UDiv? || i.op.SDiv?)
    ensures var log := Log(Signed(i.width, i.b.bits));
            log >= 0 && Lookup(Eval(m, ReducedInst(i, mid), e), i.id) == LShr(ValueOf(e, i.a), log)
  {
    var piece := ReducedInst(i, mid);
    EvalOne(m, piece[0], e);
    assert piece == [piece[0]];
  }

  lemma UnsignedQuotient(w: nat, x: nat, c: nat)
    requires w > 0 && c < Pow2(w) && Log(Signed(w, c)) >= 0
    ensures c > 0 && LShr(x, Log(Signed(w, c))) == x / c
  {
    assert Pow2(w) == 2 * Pow2(w - 1);
    LogIsLog(Signed(w, c));
    LShrIsQuotient(x, Log(Signed(w, c)));
  }

  lemma SignedQuotient(w: nat, x: nat, c: nat)
    requires w > 0 && x < Pow2(w) && c < Pow2(w) && Log(Signed(w, c)) >= 0
    ensures Signed(w, c) > 0
    ensures Wrap(w, TruncDiv(Signed(w, x), Signed(w, c))) == LShr(x, Log(Signed(w, c))) <==> Signed(w, x) >= 0 || c == 1
  {
    assert Pow2(w) == 2 * Pow2(w - 1);
    var log := Log(Signed(w, c));
    LogIsLog(Signed(w, c));
    SDivExactIff(w, x, c, log);
    if log > 0 {
      Pow2Mono(0, log);
    }
  }

  ghost predicate OperandsFit(i: Inst, env: Env) {
    i.Bin? ==> i.width > 0 && ValueOf(env, i.a) < Pow2(i.width) && ValueOf(env, i.b) < Pow2(i.width)
  }

  /** The code that takes the place of one instruction computes its value if and only if
      the condition on the run holds. */
  lemma ReducedInstExactIff(m: Meaning, i: Inst, mid: nat, e: Env)
    requires OperandsFit(i, e) && InstBelow(i, mid)
    ensures Lookup(Eval(m, ReducedInst(i, mid), e), i.id) == Result(m, i, e) <==> ReducesInRun(i, e)
  {
    if !Reducible(i) {
      EvalOne(m, i, e);
    } else if i.op.Mul? {
      var (x, c) := Factors(i);
      var (check, k) := NearLog(Signed(i.width, c.bits));
      ProductCode(m, i, mid, e);
      ProductResult(m, i, e);
      NearLogAnswer(Signed(i.width, c.bits));
      ReductionRunExactIff(i.width, ValueOf(e, x), c.bits, check, k);
    } else {
      QuotientCode(m, i, mid, e);
      if i.op.UDiv? {
        UnsignedQuotient(i.width, ValueOf(e, i.a), i.b.bits);
      } else {
        SignedQuotient(i.width, ValueOf(e, i.a), i.b.bits);
      }
    }
  }

  // ----- A whole block -----

  /** Environments that agree on all ids below `next`. */
  ghost predicate AgreeBelow(next: nat, e: Env, e': Env) {
    forall d: nat :: d < next ==> Lookup(e, d) == Lookup(e', d)
  }

  lemma ValueAgrees(next: nat, e: Env, e': Env, v: Value)
    requires AgreeBelow(next, e, e') && ValueBelow(v, next)
    ensures ValueOf(e, v) == ValueOf(e', v)
  {
  }

  lemma ResultAgrees(m: Meaning, i: Inst, next: nat, e: Env, e': Env)
    requires InstBelow(i, next) && AgreeBelow(next, e, e')
    ensures Result(m, i, e) == Result(m, i, e')
  {
    if i.Other? {
      forall k | 0 <= k < |i.uses|
        ensures ValueOf(e, i.uses[k]) == ValueOf(e', i.uses[k])
      {
        ValueAgrees(next, e, e', i.uses[k]);
      }
      assert Values(e, i.uses) == Values(e', i.uses);
    }
  }

  /** The emitted code changes the value of the instruction and of `mid` only. */
  lemma CodeFrame(m: Meaning, i: Inst, mid: nat, e: Env, d: nat)
    requires d != i.id && d != mid
    ensures Lookup(Eval(m, ReducedInst(i, mid), e), d) == Lookup(e, d)
  {
    var piece := ReducedInst(i, mid);
    if |piece| == 1 {
      EvalOne(m, piece[0], e);
      assert piece == [piece[0]];
    } else {
      EvalPair(m, piece[0], piece[1], e);
      assert piece == [piece[0], piece[1]];
    }
  }

  /** Running the code that takes the place of one instruction. */
  lemma PieceAgrees(m: Meaning, i: Inst, next: nat, mid: nat, e: Env, e': Env)
    requires OperandsFit(i, e) && InstBelow(i, next) && next <= mid
    requires AgreeBelow(next, e, e') && ReducesInRun(i, e)
    ensures AgreeBelow(next, e[i.id := Result(m, i, e)], Eval(m, ReducedInst(i, mid), e'))
  {
    ResultAgrees(m, i, next, e, e');
    assert OperandsFit(i, e') && ReducesInRun(i, e') by {
      if i.Bin? {
        ValueAgrees(next, e, e', i.a);
        ValueAgrees(next, e, e', i.b);
      }
    }
    ReducedInstExactIff(m, i, mid, e');
    forall d: nat | d < next
      ensures Lookup(e[i.id := Result(m, i, e)], d) == Lookup(Eval(m, ReducedInst(i, mid), e'), d)
    {
      if d != i.id {
        CodeFrame(m, i, mid, e', d);
      }
    }
  }

  /** Strength reduction of a whole block: every value of the block is computed as before,
      provided each product and quotient that is reduced is exact in this run. */
  lemma ReductionPreservesMeaning(m: Meaning, ty: Widths, s: seq<Inst>, next: nat, env: Env)
    requires MeaningFits(m, ty) && EnvFits(ty, env) && AllTyped(ty, s) && AllBelow(s, next)
    requires forall k :: 0 <= k < |s| ==> ReducesInRun(s[k], Eval(m, s[..k], env))
    ensures AgreeBelow(next, Eval(m, s, env), Eval(m, ReducedAll(s, next).0, env))
    ensures Others(ReducedAll(s, next).0) == Others(s)
  {
    ReductionPrefix(m, ty, s, |s|, next, env);
    OthersStay(s, |s|, next);
    assert s[..|s|] == s;
  }

  lemma {:induction false} ReductionPrefix(m: Meaning, ty: Widths, s: seq<Inst>, n: nat, next: nat, env: Env)
    requires MeaningFits(m, ty) && EnvFits(ty, env) && AllTyped(ty, s) && AllBelow(s, next) && n <= |s|
    requires forall k :: 0 <= k < |s| ==> ReducesInRun(s[k], Eval(m, s[..k], env))
    ensures AgreeBelow(next, Eval(m, s[..n], env), Eval(m, ReducedAll(s[..n], next).0, env))
  {
    if n > 0 {
      var k := n - 1;
      var (done, mid) := ReducedAll(s[..k], next);
      ReductionPrefix(m, ty, s, k, next, env);
      ReducedAllGrows(s[..k], next);
      ReducedOneMore(s, k, next);
      EvalFits(m, ty, s, k, env);
      assert Typed(ty, s[k]) && InstBelow(s[k], next);
      PieceAgrees(m, s[k], next, mid, Eval(m, s[..k], env), Eval(m, done, env));
      EvalAppend(m, done, ReducedInst(s[k], mid), env);
      assert s[..n][..k] == s[..k];
    }
  }

  lemma {:induction false} OthersStay(s: seq<Inst>, n: nat, next: nat)
    requires n <= |s|
    ensures Others(ReducedAll(s[..n], next).0) == Others(s[..n])
  {
    if n > 0 {
      var (done, mid) := ReducedAll(s[..n - 1], next);
      OthersStay(s, n - 1, next);
      ReducedOneMore(s, n - 1, next);
      OthersOfPiece(s[n - 1], mid);
      OthersOneMore(done, ReducedInst(s[n - 1], mid), s, n - 1);
    }
  }

  /** The instructions that are not integer operators, in order. */
  function Others(s: seq<Inst>): seq<Inst> {
    if s == [] then [] else Others(s[..|s| - 1]) + if s[|s| - 1].Other? then [s[|s| - 1]] else []
  }

  lemma {:induction false} OthersAppend(s: seq<Inst>, t: seq<Inst>)
    ensures Others(s + t) == Others(s) + Others(t)
  {
    if t == [] {
      assert s + t == s;
    } else {
      assert (s + t)[..|s + t| - 1] == s + t[..|t| - 1];
      OthersAppend(s, t[..|t| - 1]);
    }
  }

  lemma OthersOfPiece(i: Inst, mid: nat)
    ensures Others(ReducedInst(i, mid)) == Others([i]) == if i.Other? then [i] else []
  {
    var piece := ReducedInst(i, mid);
    assert [i][..0] == [];
    if |piece| == 1 {
      assert piece[..0] == [];
    } else {
      assert piece[..1] == [piece[0]] && piece[..1][..0] == [];
    }
  }

  lemma OthersOneMore(done: seq<Inst>, piece: seq<Inst>, s: seq<Inst>, k: nat)
    requires k < |s| && Others(done) == Others(s[..k]) && Others(piece) == Others([s[k]])
    ensures Others(done + piece) == Others(s[..k + 1])
  {
    OthersAppend(done, piece);
    OthersAppend(s[..k], [s[k]]);
    assert s[..k + 1] == s[..k] + [s[k]];
  }

  lemma OthersOfOne(sigma: Renaming, i: Inst)
    requires i.Other? ==> i.id !in sigma
    ensures Others(Image(sigma, [i])) == Image(sigma, Others([i])) && |Image(sigma, Others([i]))| == |Others([i])|
  {
    var t := [Renamed(sigma, i)];
    assert [i][..0] == [] && t[..0] == [];
    ImageOne(sigma, i);
  }

  /** The other instructions of an image: all of them, in order, with renamed operands. */
  lemma {:induction false} OthersOfImage(sigma: Renaming, s: seq<Inst>, n: nat)
    requires n <= |s| && forall i :: 0 <= i < |s| && s[i].Other? ==> s[i].id !in sigma
    ensures Others(Image(sigma, s[..n])) == Image(sigma, Others(s[..n]))
    ensures |Image(sigma, Others(s[..n]))| == |Others(s[..n])|
  {
    if n > 0 {
      var front, one := s[..n - 1], [s[n - 1]];
      OthersOfImage(sigma, s, n - 1);
      assert s[..n] == front + one;
      ImageAppend(sigma, front, one);
      OthersAppend(Image(sigma, front), Image(sigma, one));
      OthersAppend(front, one);
      ImageAppend(sigma, Others(front), Others(one));
      OthersOfOne(sigma, s[n - 1]);
    }
  }

  // ----- All rounds -----

  /** The block when the rounds are over, before strength reduction. */
  ghost function Simplified(wild: (int, int) -> int, s: seq<Inst>): (r: seq<Inst>)
    decreases |s|
  {
    var a := Pass(Algebraic, s, 0);
    if |a| < |s| then Simplified(wild, a)
    else
      var c := Pass(i => Folding(wild, i), a, 0);
      if |c| < |a| then Simplified(wild, c) else c
  }

  lemma {:induction false} OptimizedIsReduced(wild: (int, int) -> int, s: seq<Inst>, next: nat)
    ensures Optimized(wild, s, next) == ReducedAll(Simplified(wild, s), next).0
    decreases |s|
  {
    var a := Pass(Algebraic, s, 0);
    if |a| < |s| {
      OptimizedIsReduced(wild, a, next);
    } else {
      var c := Pass(i => Folding(wild, i), a, 0);
      if |c| < |a| {
        OptimizedIsReduced(wild, c, next);
      }
    }
  }

  lemma {:induction false} SimplifiedIsBlock(wild: (int, int) -> int, s: seq<Inst>, next: nat)
    requires IsBlock(s, next)
    ensures IsBlock(Simplified(wild, s), next) && NoMatch(i => Folding(wild, i), Simplified(wild, s), 0)
    decreases |s|
  {
    var fold := (i: Inst) => Folding(wild, i);
    var a := Pass(Algebraic, s, 0);
    PassIsBlock(Algebraic, s, next, 0);
    if |a| < |s| {
      SimplifiedIsBlock(wild, a, next);
    } else {
      var c := Pass(fold, a, 0);
      PassIsBlock(fold, a, next, 0);
      PassIdle(fold, a, 0);
      if |c| < |a| {
        SimplifiedIsBlock(wild, c, next);
      }
    }
  }

  /** All rounds of both passes: only operators are dropped, and every value lives on. */
  lemma {:induction false} RoundsPreserveMeaning(demand: Demand, m: Meaning, ty: Widths, wild: (int, int) -> int,
                                                 s: seq<Inst>, env: Env)
    returns (sigma: Renaming)
    requires MeaningFits(m, ty) && EnvFits(ty, env) && demand.Exact? && Good(demand, m, ty, s, env)
    ensures Replaces(m, s, Simplified(wild, s), env, sigma) && Good(demand, m, ty, Simplified(wild, s), env)
    decreases |s|
  {
    AlgebraicIsSound(demand, m, ty);
    FoldingIsSound(demand.may, demand.must, m, ty, wild);
    var a := Pass(Algebraic, s, 0);
    var first := PassPreservesMeaning(Algebraic, demand, m, ty, s, 0, env);
    if |a| < |s| {
      var tau := RoundsPreserveMeaning(demand, m, ty, wild, a, env);
      ReplacesThen(m, s, a, Simplified(wild, a), env, first, tau);
      sigma := Then(first, tau);
    } else {
      var fold := (i: Inst) => Folding(wild, i);
      var c := Pass(fold, a, 0);
      var second := PassPreservesMeaning(fold, demand, m, ty, a, 0, env);
      ReplacesThen(m, s, a, c, env, first, second);
      sigma := Then(first, second);
      if |c| < |a| {
        var tau := RoundsPreserveMeaning(demand, m, ty, wild, c, env);
        ReplacesThen(m, s, c, Simplified(wild, c), env, sigma, tau);
        sigma := Then(sigma, tau);
      }
    }
  }

  // ----- The driver as a whole -----

  lemma ConstantFolds(ty: Widths, wild: (int, int) -> int, i: Inst, env: Env)
    requires Typed(ty, i) && SafeAt(i, env) && i.Bin? && IsFoldOp(i.op) && i.a.Lit? && i.b.Lit?
    ensures Folding(wild, i).Replace?
  {
    SignedZero(i.width, i.b.bits);
  }

  ghost predicate Unfolded(m: Meaning, ty: Widths, wild: (int, int) -> int, s: seq<Inst>, i: nat, env: Env)
    requires i < |s|
  {
    Typed(ty, s[i]) && SafeAt(s[i], Eval(m, s[..i], env)) && Folding(wild, s[i]).Keep?
  }

  /** When nothing is left to fold, no operator on constants only is left. */
  lemma {:induction false} ConstantsAreGone(must: set<nat>, m: Meaning, ty: Widths, wild: (int, int) -> int,
                                            s: seq<Inst>, k: nat, env: Env)
    requires MustClosed(must, s) && k <= |s| && forall i :: 0 <= i < |s| ==> Unfolded(m, ty, wild, s, i, env)
    ensures forall i :: 0 <= i < k ==> s[i].id !in must
  {
    if k > 0 {
      ConstantsAreGone(must, m, ty, wild, s, k - 1, env);
      assert Unfolded(m, ty, wild, s, k - 1, env);
      NotConstant(must, ty, wild, s, k - 1, Eval(m, s[..k - 1], env));
    }
  }

  lemma NotConstant(must: set<nat>, ty: Widths, wild: (int, int) -> int, s: seq<Inst>, k: nat, env: Env)
    requires k < |s| && MustAt(must, s, k) && Typed(ty, s[k]) && SafeAt(s[k], env) && Folding(wild, s[k]).Keep?
    requires forall i :: 0 <= i < k ==> s[i].id !in must
    ensures s[k].id !in must
  {
    if s[k].id in must {
      assert s[k].a.Lit? && s[k].b.Lit?;
      ConstantFolds(ty, wild, s[k], env);
    }
  }

  lemma FineReduces(may: set<nat>, must: set<nat>, ty: Widths, wild: (int, int) -> int, i: Inst, env: Env)
    requires Typed(ty, i) && i.id !in must && Fine(Exact(may, must), i, env) && Folding(wild, i).Keep?
    ensures ReducesInRun(i, env)
  {
    if Reducible(i) && i.op.Mul? {
      var x, y := ValueOf(env, i.a), ValueOf(env, i.b);
      assert x * y == y * x;
    }
  }

  /** What is asked of the original block and its run. */
  ghost predicate ExactRun(m: Meaning, s: seq<Inst>, env: Env) {
    FineRun(Exact(MayBeConstant(m, s, |s|, env), MustBeConstant(s, |s|)), m, s, env)
  }

  /** The driver as a whole.  All other instructions remain, in order; every value of the
      original block is, after the optimized block, the value of its stand-in. */
  lemma OptimizedPreservesMeaning(m: Meaning, ty: Widths, wild: (int, int) -> int, s: seq<Inst>, next: nat, env: Env)
    returns (sigma: Renaming)
    requires MeaningFits(m, ty) && EnvFits(ty, env) && IsBlock(s, next)
    requires InOrder(s) && AllTyped(ty, s) && ExactRun(m, s, env)
    ensures IsRenaming(sigma, s) && Optimized(wild, s, next) == ReducedAll(Image(sigma, s), next).0
    ensures Others(Optimized(wild, s, next)) == Image(sigma, Others(s)) && |Image(sigma, Others(s))| == |Others(s)|
    ensures forall id: nat :: id < next ==>
              Lookup(Eval(m, s, env), id) == ValueOf(Eval(m, Optimized(wild, s, next), env), StandIn(sigma, Var(id)))
  {
    var demand := Exact(MayBeConstant(m, s, |s|, env), MustBeConstant(s, |s|));
    MayAtStart(m, s, env);
    MustAtStart(s);
    sigma := RoundsPreserveMeaning(demand, m, ty, wild, s, env);
    var c := Simplified(wild, s);
    OptimizedIsReduced(wild, s, next);
    SimplifiedIsBlock(wild, s, next);
    NothingToFold(wild, c);
    forall i | 0 <= i < |c|
      ensures Unfolded(m, ty, wild, c, i, env)
    {
      assert Typed(ty, c[i]) && Fine(demand, c[i], Eval(m, c[..i], env));
    }
    ConstantsAreGone(demand.must, m, ty, wild, c, |c|, env);
    forall k | 0 <= k < |c|
      ensures ReducesInRun(c[k], Eval(m, c[..k], env))
    {
      assert Typed(ty, c[k]) && Fine(demand, c[k], Eval(m, c[..k], env));
      FineReduces(demand.may, demand.must, ty, wild, c[k], Eval(m, c[..k], env));
    }
    ReductionPreservesMeaning(m, ty, c, next, env);
    OthersOfImage(sigma, s, |s|);
    assert s[..|s|] == s;
    forall id: nat | id < next
      ensures Lookup(Eval(m, s, env), id) == ValueOf(Eval(m, Optimized(wild, s, next), env), StandIn(sigma, Var(id)))
    {
      StandInBelow(sigma, s, next, id);
      ValueAgrees(next, Eval(m, c, env), Eval(m, Optimized(wild, s, next), env), StandIn(sigma, Var(id)));
    }
  }

  lemma NothingToFold(wild: (int, int) -> int, s: seq<Inst>)
    requires NoMatch(i => Folding(wild, i), s, 0)
    ensures forall i :: 0 <= i < |s| ==> Folding(wild, s[i]).Keep?
  {
    var fold := (i: Inst) => Folding(wild, i);
    assert forall i :: 0 <= i < |s| ==> fold(s[i]) == Folding(wild, s[i]);
  }

  lemma StandInBelow(sigma: Renaming, s: seq<Inst>, next: nat, id: nat)
    requires IsRenaming(sigma, s) && AllBelow(s, next) && id < next
    ensures ValueBelow(StandIn(sigma, Var(id)), next)
  {
    if id in sigma && sigma[id].Var? {
      var i :| 0 <= i < |s| && UsesVar(s[i], sigma[id].id);
      assert InstBelow(s[i], next);
    }
  }
}
